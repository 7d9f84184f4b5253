# Streaming DEFLATE encoder adapter, modelled in Dafny

This project models the core of the `async-compression` crate's tokio
`bufread` encoder. That core has two halves.

- **The adapter** (`Encoder<R, E>` in `src/tokio/bufread/generic/encoder.rs`) is a
  four-state machine: Encoding, Flushing, Finishing and Done.
  - It pulls chunks from an upstream `AsyncBufRead` and passes them through an `Encode` codec.
  - It fills the caller's `ReadBuf` and decides each time whether to report `Pending` or `Ready`.
- **The DEFLATE binding** (`FlateEncoder` in `src/codec/flate/encoder.rs`) implements
  `Encode` on top of `flate2::Compress`.
  - It turns the engine's absolute `total_in`/`total_out` counters into cursor advances by
    taking their deltas.
  - It maps the engine's `Status` values to the contract's results.
  - It keeps a `flushed` flag, so a repeated flush costs nothing.

Modules:

- `Results` (`results.dfy`): errors and `io::Result`.
  - Every error is propagated unchanged by `?`.
  - The two panics (`unreachable!()` and a cursor advanced past its region) are modelled as
    fatal errors where the code has them: in the DEFLATE binding and in `ReadBuf::advance`.
- `PartialBuffers` (`partial_buffers.dfy`): the `PartialBuffer` cursor as `(len, pos)`.
  - `written` is `[0, pos)` and `unwritten` is `[pos, len)`.
  - `advance(n)` requires `n` to fit in the unwritten part.
- `Codecs` (`codecs.dfy`): the `Encode` contract, modelled as a record of three function values.
  - `Lawful` is the part of the contract the adapter relies on: a cursor only moves forward,
    and only within its region.
- `Flate` (`flate.dfy`): the binding over an arbitrary engine step function.
  - `LawfulEngine` says what the binding assumes of that engine: its counters are monotonic
    and bounded by the capacity it was offered.
- `BufreadEncoder` (`bufread_encoder.dfy`): the adapter.
  - `Step` is one pass through the state `match` of `do_poll_read`.
  - `Loop` is the loop of `do_poll_read` as a recursion bounded by fuel. `LoopExitRules`,
    `LoopStaysInRegion` and `LoopCallOrder` state its properties. `DoPollRead` is the same loop
    written iteratively, proved to end where `Loop` says.
  - `PollRead` is `poll_read`.
  - The upstream reader is a pair of functions: `poll_fill_buf` (which may change the reader's
    state) and `consume`.
- `FlateStream` (`flate_stream.dfy`): properties of the adapter when it drives the DEFLATE binding.

## Model

| member | source | states |
|---|---|---|
| PartialBuffers.NewCursor | src/tokio/bufread/generic/encoder.rs:139 | `PartialBuffer::new` over a slice of a given length: a cursor over a region of that length with nothing written and all of it left to write |
| PartialBuffers.Advance | src/codec/flate/encoder.rs:33-34 | advancing by `n` moves exactly `n` bytes from the unwritten part to the written part of the same region, and it is allowed only when `n` fits |
| PartialBuffers.ExtendsIffAdvance | src/codec/flate/encoder.rs:33-34 | one cursor state is a forward extension of another exactly when some in-bounds `advance` leads from the first to the second |
| Flate.NewFlateEncoder | src/codec/flate/encoder.rs:13-18 | a new encoder starts flushed, with both engine counters at zero |
| Flate.CompressStep | src/codec/flate/encoder.rs:20-37 | the private `encode` makes one engine call and advances the input and output cursors by exactly the `total_in` and `total_out` deltas; it succeeds exactly when the engine reports progress within the capacity offered; an engine error is passed on, and it returns the engine's status and new state |
| Flate.Encode | src/codec/flate/encoder.rs:41-52 | after a successful `encode` the encoder is not flushed, and both cursors moved forward by the engine's deltas |
| Flate.EncodeStatusMapping | src/codec/flate/encoder.rs:46-51 | `Ok` maps to success with the engine's new state, `StreamEnd` to the unreachable panic, `BufError` to an error; an engine error is propagated |
| Flate.Flush | src/codec/flate/encoder.rs:54-72 | a flush of a flushed encoder is complete without touching the engine or the output; a successful flush leaves the encoder flushed, consumes no input and moves the output by the `total_out` delta |
| Flate.FlushReachesEngine | src/codec/flate/encoder.rs:64-71 | a flush of an unflushed encoder makes one sync-mode step on empty input; whatever status that step reports, the encoder is then flushed, and the flush is complete exactly when output space remains |
| Flate.FreshFlushWritesNothing | src/codec/flate/encoder.rs:60-62 | a flush right after construction is complete and writes nothing |
| Flate.FlushAfterFlushIsNoOp | src/codec/flate/encoder.rs:60-71 | after a successful flush, a second flush with no `encode`/`finish` in between is complete, writes nothing and changes nothing, whatever output it is given |
| Flate.Finish | src/codec/flate/encoder.rs:74-88 | after a successful `finish` the encoder is not flushed; it consumes no input and moves the output by the `total_out` delta |
| Flate.FinishStatusMapping | src/codec/flate/encoder.rs:78-87 | `Ok` maps to "not complete", `StreamEnd` to "complete", `BufError` to an error, and the engine's new state is kept |
| Flate.LawfulEngineNeverOverruns | src/codec/flate/encoder.rs:26-34 | if the engine's counters are monotonic and capacity-bounded, none of `encode`, `flush` and `finish` reaches the panicking cursor advance |
| Flate.FlateCodecLawful | src/codec/flate/encoder.rs:40-88 | for any engine, the binding keeps the cursor discipline of the `Encode` contract: no operation consumes more than it is offered or writes past the output |
| BufreadEncoder.NewEncoder | src/tokio/bufread/generic/encoder.rs:31-37 | a new adapter is in Encoding and holds the given reader and codec |
| BufreadEncoder.Step | src/tokio/bufread/generic/encoder.rs:63-116 | one pass: it suspends only from Encoding with `read == 0`, without touching the codec; Done maps to Done with nothing changed; Finishing and Done are never left; Finishing is entered only from Encoding, with no codec call; `read` grows only in Encoding and drops only to zero when Flushing returns to Encoding; `finish` is called only from Finishing, and once past end of data nothing else is called |
| BufreadEncoder.StepStaysInRegion | src/tokio/bufread/generic/encoder.rs:63-116 | with a lawful codec, a pass that goes on only moves the output cursor forward within its region |
| BufreadEncoder.EncodingNotReady | src/tokio/bufread/generic/encoder.rs:69-75 | reader not ready: `Pending` if `read == 0`, otherwise move to Flushing with nothing else changed |
| BufreadEncoder.EncodingFillFailed | src/tokio/bufread/generic/encoder.rs:76-77 | a reader error is propagated unchanged |
| BufreadEncoder.EncodingEndOfData | src/tokio/bufread/generic/encoder.rs:79-80 | an empty chunk moves to Finishing without calling the codec and without changing `read`, the output, the codec state or the reader beyond the poll: the whole next adapter is stated |
| BufreadEncoder.EncodingChunk | src/tokio/bufread/generic/encoder.rs:81-87 | a non-empty chunk is offered to `encode` in full; exactly the bytes consumed are consumed on the reader and added to `read`; the state stays Encoding; a lawful codec consumes at most the chunk |
| BufreadEncoder.FlushingCalls | src/tokio/bufread/generic/encoder.rs:93-99 | an empty-input `encode` precedes `flush` exactly when `read == 0`; a pass that fails records the calls up to and including the failing one, so a failed priming `encode` is not followed by a `flush` |
| BufreadEncoder.FlushingOutcome | src/tokio/bufread/generic/encoder.rs:99-104 | `flush` returning true resets `read` and moves to Encoding; false stays in Flushing with `read` kept; the reader is not touched; errors propagate |
| BufreadEncoder.FlushingPrimed | src/tokio/bufread/generic/encoder.rs:94-104 | on a cold entry, `flush` runs on the codec state and output that the priming `encode` left, with the same completion rule; the reader is not touched |
| BufreadEncoder.FinishingOutcome | src/tokio/bufread/generic/encoder.rs:107-113 | Finishing moves to Done exactly when `finish` returns true and otherwise stays; `read` is unchanged and the reader is not touched |
| BufreadEncoder.Loop | src/tokio/bufread/generic/encoder.rs:63-125 | the loop of `do_poll_read` as a recursion bounded by fuel: each pass is `Step`; the loop stops on `Pending`, on an error (keeping the codec calls of the failing pass, the failing one last), or once the state is Done or the output is full. It has no contract of its own: its properties are `LoopExitRules`, `LoopStaysInRegion` and `LoopCallOrder` |
| BufreadEncoder.LoopExitRules | src/tokio/bufread/generic/encoder.rs:63-125 | the loop completes only in Done or with the output full; if the output had room and is full at the end, the loop completed rather than suspended, failed or ran out of fuel; it suspends only in Encoding; it runs out of fuel only while not Done with room left; no error comes from Done; end of data is never forgotten and is never followed by a suspension; a Done adapter completes at once with nothing changed or called; a first pass that finds the reader not ready with nothing read suspends with nothing written or called |
| BufreadEncoder.LoopStaysInRegion | src/tokio/bufread/generic/encoder.rs:63-125 | with a lawful codec, the loop only moves the output cursor forward within its region |
| BufreadEncoder.LoopCallOrder | src/tokio/bufread/generic/encoder.rs:63-125 | in the codec calls the loop makes, including those of a pass that fails, nothing but `finish` follows a `finish`; a `finish` means end of data has been seen; an adapter past end of data calls only `finish`; a Done adapter calls nothing |
| BufreadEncoder.DoPollRead | src/tokio/bufread/generic/encoder.rs:55-126 | the iterative loop over `Step`, started with `read == 0`, stops with exactly the exit, adapter, output cursor and call list of the recursive `Loop`, so the loop lemmas above hold of it |
| BufreadEncoder.PollRead | src/tokio/bufread/generic/encoder.rs:130-148 | with no room it returns Ready without polling or calling the codec; otherwise, for the loop run on a fresh cursor over the unfilled region: `Pending` exactly when the loop suspended having written nothing; `Ready` exactly when the loop completed, or suspended after writing, and what it wrote fits; `Ready` advances the caller's buffer by exactly the bytes the loop wrote; a loop error is returned unchanged and leaves the buffer as it was; an advance past the room left is `CursorOverrun`, which a lawful codec never causes; with a lawful codec, a `Ready` that writes nothing into a buffer with room means Done |
| BufreadEncoder.Deliver | src/tokio/bufread/generic/encoder.rs:143-145 | handing the loop's output to the caller: when what the loop wrote fits in the room left, `Ready` with the buffer advanced by exactly that; otherwise `ReadBuf::advance` panics, modelled as `CursorOverrun` with the buffer unchanged |
| FlateStream.StepNeverOverruns | src/codec/flate/encoder.rs:26-34 | with a lawful engine, no pass of the adapter over the DEFLATE binding panics on a cursor |
| FlateStream.FlushingLeavesFlushed | src/codec/flate/encoder.rs:60-71 | every Flushing pass of the adapter that goes on leaves the DEFLATE encoder flushed |
| FlateStream.StepKeepsWarm | src/tokio/bufread/generic/encoder.rs:63-116 | over the DEFLATE binding, every pass keeps the invariant "bytes read in this call and output room left imply the encoder is not flushed", which holds at the start of a call because nothing is read yet |
| FlateStream.FlushingSyncs | src/tokio/bufread/generic/encoder.rs:93-105 | under that invariant, a Flushing pass over the DEFLATE binding never takes the `flushed` short cut: its `flush` runs the engine's sync-mode step on the encoder and output the pass reached, after the priming `encode` on a cold entry |
| FlateStream.FinishingReachesDone | src/tokio/bufread/generic/encoder.rs:107-113 | over the DEFLATE binding, Finishing reaches Done exactly when the engine's finish-mode step reports `StreamEnd` |

Two behaviours of the code are worth stating plainly.

- `flush` reports completion when output space remains, whatever status the sync-mode step
  returns. It marks the encoder flushed in any case (`Flate.FlushReachesEngine`).
- A cold Flushing pass, one with nothing read in the current call, first runs an `encode` on
  empty input (`src/tokio/bufread/generic/encoder.rs:94-97`). That clears `flushed`, so the
  `flush` after it always reaches the engine (`BufreadEncoder.FlushingPrimed`, `Flate.Encode`).
  A warm Flushing pass reaches the engine too, because bytes read in the call went through an
  `encode`. The model proves this pass by pass. `FlateStream.Warm` holds when a call starts,
  since nothing has been read yet. `FlateStream.StepKeepsWarm` shows that every pass keeps it.
  `FlateStream.FlushingSyncs` shows that a Flushing pass under `Warm` with output room left
  reaches the engine. The loop only starts a pass while the output has room. By induction over
  the passes of one call, the adapter never takes the `flushed` short cut. That induction over
  `Loop` is not stated as a lemma, because `Loop`'s outcome does not record the passes it made.

## Left out

- The DEFLATE/zlib compression inside `flate2::Compress`. It is foreign code, modelled as an
  arbitrary step function over its counters and an opaque internal state.
  - The bytes themselves are not modelled: cursors carry lengths and positions only.
  - For the same reason there is no decompress/compress round trip.
- `Pin`, `pin_project!`, `Context` and waker handling, and `ReadBuf::initialize_unfilled`: async
  plumbing. The caller's `ReadBuf` is a cursor whose written part is the filled region.
- The accessors `get_ref`, `get_mut`, `get_pin_mut` and `into_inner`
  (`src/tokio/bufread/generic/encoder.rs:39-53`): they only hand out the reader.
- `std::io::Error` kinds and messages. An error records only who raised it.
- The `Compression` level and the `zlib_header` flag: they only shape the engine's output bytes.
- Integer widths. The engine's `u64` counters and `usize` lengths are unbounded naturals.
  - A counter that goes backwards (which would underflow the `u64` subtraction) is reported as a
    cursor overrun.
  - So is one that moves beyond the capacity offered.
- Panics (`unreachable!()`, an out-of-range advance in the DEFLATE binding, and
  `ReadBuf::advance` past the room left) become fatal `Failure` results instead of unwinding.
- BufreadEncoder.LoopStaysInRegion: a codec is any function that hands back a cursor, so it may return one
  over a different region. In the code a codec gets `&mut PartialBuffer` and can only advance it.
  The facts about the output's region therefore hold only for a codec that is `Lawful`.
  - An advance past the region inside the codec panics in the code. It is not modelled at the
    adapter, because the model's cursor cannot hold such a position.
- BufreadEncoder.DoPollRead: the loop is bounded by `fuel` passes, because the loop terminates
  only for a codec that makes progress.
  - `FuelExhausted` (and `Stalled` from `PollRead`) stand for "still looping" and have no
    counterpart in the code.
  - On an error, the returned adapter is the one from before the failing pass. In-place changes a
    failing codec call made to its encoder are not modelled.
- BufreadEncoder.PollRead: when an error ends the call, the bytes already written into the
  unfilled region are dropped. This matches the code, but the model does not track the bytes at all.
- BufreadEncoder.PollRead: "a `Ready` that writes nothing into a buffer with room means Done" is
  promised only for a `Lawful` codec. An unlawful codec could shrink the region to nothing and so
  end the loop as "output full".
- Forward progress (that a lawful engine eventually drains its output) is not modelled. The engine
  is arbitrary, so nothing about termination beyond the fuel bound is claimed.
