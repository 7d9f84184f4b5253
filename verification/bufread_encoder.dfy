/** The streaming encode adapter (`tokio::bufread::Encoder`): a four-state
    machine that pulls chunks from a buffered reader, drives a codec through
    `encode`, `flush` and `finish`, and fills the caller's read buffer. */
module BufreadEncoder {
  import opened Results
  import opened PartialBuffers
  import opened Codecs

  datatype State = Encoding | Flushing | Finishing | Done {
    /** The reader has reported end of data: only `Finishing` and `Done` remain. */
    predicate Ending() {
      Finishing? || Done?
    }
  }

  datatype Encoder<R, E> = Encoder(reader: R, encoder: E, state: State)

  /** `Encoder::new`. */
  function NewEncoder<R, E>(reader: R, encoder: E): (enc: Encoder<R, E>)
    ensures enc.state == Encoding
    ensures enc.reader == reader && enc.encoder == encoder
  {
    Encoder(reader, encoder, Encoding)
  }

  /** What `poll_fill_buf` reports: not ready, the length of the buffered chunk
      (zero at end of data), or an error. */
  datatype FillBuf = NotReady | Filled(len: nat) | FillFailed(code: nat)

  /** A poll also hands back the reader's new state (it may have refilled). */
  datatype Polled<R> = Polled(reader: R, fill: FillBuf)

  /** The upstream `AsyncBufRead`: `poll_fill_buf` and `consume`. */
  datatype Source<!R> = Source(pollFillBuf: R -> Polled<R>, consume: (R, nat) -> R)

  /** The collaborators one adapter is instantiated with. */
  datatype Env<!R, !E> = Env(source: Source<R>, codec: Codec<E>)

  /** The outcome of one pass through the state `match` of `do_poll_read`:
      the loop goes on with a new adapter, `read` counter, output cursor and the
      codec calls made; or the function returns `Pending`; or an error propagates,
      together with the codec calls the pass made, the failing one last. */
  datatype Transition<R, E> =
    | Continue(next: Encoder<R, E>, read: nat, output: Cursor, calls: seq<Call>)
    | Suspend(next: Encoder<R, E>)
    | Fail(error: Error, calls: seq<Call>)

  function StepEncoding<R, E>(env: Env<R, E>, enc: Encoder<R, E>, read: nat, output: Cursor)
    : (t: Transition<R, E>)
  {
    var polled := env.source.pollFillBuf(enc.reader);
    match polled.fill
    case NotReady =>
      if read == 0 then Suspend(enc.(reader := polled.reader))
      else Continue(enc.(reader := polled.reader, state := Flushing), read, output, [])
    case FillFailed(code) => Fail(Upstream(code), [])
    case Filled(n) =>
      if n == 0 then
        Continue(enc.(reader := polled.reader, state := Finishing), read, output, [])
      else
        match env.codec.encode(enc.encoder, NewCursor(n), output)
        case Failure(e) => Fail(e, [EncodeCall(n)])
        case Success(p) =>
          var len := p.input.Written();
          Continue(Encoder(env.source.consume(polled.reader, len), p.encoder, Encoding),
                   read + len, p.output, [EncodeCall(n)])
  }

  /** The `flush` call of the Flushing state, made after any priming `encode`. */
  function FlushThen<R, E>(env: Env<R, E>, enc: Encoder<R, E>, read: nat, output: Cursor, calls: seq<Call>)
    : (t: Transition<R, E>)
  {
    match env.codec.flush(enc.encoder, output)
    case Failure(e) => Fail(e, calls + [FlushCall])
    case Success(em) =>
      if em.complete then
        Continue(enc.(encoder := em.encoder, state := Encoding), 0, em.output, calls + [FlushCall])
      else
        Continue(enc.(encoder := em.encoder, state := Flushing), read, em.output,
                 calls + [FlushCall])
  }

  function StepFlushing<R, E>(env: Env<R, E>, enc: Encoder<R, E>, read: nat, output: Cursor)
    : (t: Transition<R, E>)
  {
    if read == 0 then
      match env.codec.encode(enc.encoder, NewCursor(0), output)
      case Failure(e) => Fail(e, [EncodeCall(0)])
      case Success(p) => FlushThen(env, enc.(encoder := p.encoder), read, p.output, [EncodeCall(0)])
    else
      FlushThen(env, enc, read, output, [])
  }

  function StepFinishing<R, E>(env: Env<R, E>, enc: Encoder<R, E>, read: nat, output: Cursor)
    : (t: Transition<R, E>)
  {
    match env.codec.finish(enc.encoder, output)
    case Failure(e) => Fail(e, [FinishCall])
    case Success(em) =>
      Continue(enc.(encoder := em.encoder, state := if em.complete then Done else Finishing),
               read, em.output, [FinishCall])
  }

  /** One pass through the state `match` of `do_poll_read`. `Pending` is
      returned only from Encoding with nothing read in this call; Done is left
      untouched; end of data is never forgotten; `read` only grows by what the
      codec consumed in Encoding or drops to zero when a flush completes; and a
      lawful codec keeps the output cursor moving forward within its region. */
  function Step<R, E(!new)>(env: Env<R, E>, enc: Encoder<R, E>, read: nat, output: Cursor)
    : (t: Transition<R, E>)
    ensures t.Suspend? ==> enc.state == Encoding && read == 0
    ensures t.Suspend? ==> t.next.state == Encoding && t.next.encoder == enc.encoder
    ensures enc.state == Done ==> t == Continue(enc, read, output, [])
    ensures t.Continue? && enc.state.Ending() ==> t.next.state.Ending()
    ensures t.Continue? && t.next.state.Ending() && !enc.state.Ending() ==>
              enc.state == Encoding && t.calls == []
    ensures t.Continue? && t.read < read ==>
              t.read == 0 && enc.state == Flushing && t.next.state == Encoding
    ensures t.Continue? && t.read > read ==> enc.state == Encoding && t.next.state == Encoding
    ensures !t.Suspend? && enc.state.Ending() ==>
              t.calls == (if enc.state == Finishing then [FinishCall] else [])
    ensures !t.Suspend? && !enc.state.Ending() ==> FinishCall !in t.calls
  {
    match enc.state
    case Encoding => StepEncoding(env, enc, read, output)
    case Flushing => StepFlushing(env, enc, read, output)
    case Finishing => StepFinishing(env, enc, read, output)
    case Done => Continue(enc, read, output, [])
  }

  /** With a lawful codec a pass only moves the output forward within its region. */
  lemma StepStaysInRegion<R, E(!new)>(env: Env<R, E>, enc: Encoder<R, E>, read: nat, output: Cursor)
    requires Lawful(env.codec)
    ensures var t := Step(env, enc, read, output);
            t.Continue? ==> Extends(output, t.output)
  {
  }

  /** Encoding, reader not ready: suspend when nothing has been read in this
      call, otherwise move to Flushing so the bytes already encoded are pushed out. */
  lemma EncodingNotReady<R, E(!new)>(env: Env<R, E>, enc: Encoder<R, E>, read: nat, output: Cursor)
    requires enc.state == Encoding
    requires env.source.pollFillBuf(enc.reader).fill == NotReady
    ensures var polled := env.source.pollFillBuf(enc.reader);
            var t := Step(env, enc, read, output);
            (read == 0 ==> t == Suspend(enc.(reader := polled.reader))) &&
            (read != 0 ==>
               t == Continue(enc.(reader := polled.reader, state := Flushing), read, output, []))
  {
  }

  /** Encoding, reader error: the error propagates unchanged. */
  lemma EncodingFillFailed<R, E(!new)>(env: Env<R, E>, enc: Encoder<R, E>, read: nat, output: Cursor)
    requires enc.state == Encoding
    requires env.source.pollFillBuf(enc.reader).fill.FillFailed?
    ensures var code := env.source.pollFillBuf(enc.reader).fill.code;
            Step(env, enc, read, output) == Fail(Upstream(code), [])
  {
  }

  /** Encoding, empty chunk: end of data moves to Finishing with no codec call
      and no change to the codec, `read`, the output or the reader beyond the poll. */
  lemma EncodingEndOfData<R, E(!new)>(env: Env<R, E>, enc: Encoder<R, E>, read: nat, output: Cursor)
    requires enc.state == Encoding
    requires env.source.pollFillBuf(enc.reader).fill == Filled(0)
    ensures var t := Step(env, enc, read, output);
            t.Continue? && t.calls == [] && t.next.state == Finishing &&
            t.next.encoder == enc.encoder && t.read == read && t.output == output
    ensures var polled := env.source.pollFillBuf(enc.reader);
            Step(env, enc, read, output)
            == Continue(enc.(reader := polled.reader, state := Finishing), read, output, [])
  {
  }

  /** Encoding, non-empty chunk of `n` bytes: one `encode` call on exactly that
      chunk; what the codec consumed is consumed on the reader and added to
      `read` (never more than `n` for a lawful codec), and the state stays Encoding. */
  lemma EncodingChunk<R, E(!new)>(env: Env<R, E>, enc: Encoder<R, E>, read: nat, output: Cursor, n: nat)
    requires enc.state == Encoding
    requires env.source.pollFillBuf(enc.reader).fill == Filled(n) && n > 0
    ensures var polled := env.source.pollFillBuf(enc.reader);
            var t := Step(env, enc, read, output);
            match env.codec.encode(enc.encoder, NewCursor(n), output)
            case Failure(e) => t == Fail(e, [EncodeCall(n)])
            case Success(p) =>
              t.Continue? && t.calls == [EncodeCall(n)] && t.next.state == Encoding &&
              t.next.encoder == p.encoder && t.output == p.output &&
              t.read == read + p.input.Written() &&
              t.next.reader == env.source.consume(polled.reader, p.input.Written()) &&
              (Lawful(env.codec) ==> p.input.Written() <= n)
  {
  }

  /** Flushing: an empty-input `encode` precedes the `flush` exactly when
      nothing has been read in this call; a pass that fails stops at the
      failing call. */
  lemma FlushingCalls<R, E(!new)>(env: Env<R, E>, enc: Encoder<R, E>, read: nat, output: Cursor)
    requires enc.state == Flushing
    ensures var t := Step(env, enc, read, output);
            t.Continue? ==> t.calls == (if read == 0 then [EncodeCall(0)] else []) + [FlushCall]
    ensures var t := Step(env, enc, read, output);
            t.Fail? ==> t.calls == (if read == 0 then [EncodeCall(0)] else []) + [FlushCall] ||
                        (read == 0 && t.calls == [EncodeCall(0)])
  {
  }

  /** Flushing, once `read` is non-zero: the state returns to Encoding with
      `read` reset exactly when `flush` reports completion, and otherwise stays
      in Flushing with `read` kept; the reader is not touched. */
  lemma FlushingOutcome<R, E(!new)>(env: Env<R, E>, enc: Encoder<R, E>, read: nat, output: Cursor)
    requires enc.state == Flushing && read != 0
    ensures var t := Step(env, enc, read, output);
            match env.codec.flush(enc.encoder, output)
            case Failure(e) => t == Fail(e, [FlushCall])
            case Success(em) =>
              t.Continue? && t.next.encoder == em.encoder && t.output == em.output &&
              t.next.reader == enc.reader &&
              (em.complete ==> t.next.state == Encoding && t.read == 0) &&
              (!em.complete ==> t.next.state == Flushing && t.read == read)
  {
  }

  /** Flushing with nothing read yet: the priming `encode` on empty input
      comes first and `flush` then runs on the codec and output it left; the
      reader is not touched. */
  lemma FlushingPrimed<R, E(!new)>(env: Env<R, E>, enc: Encoder<R, E>, output: Cursor)
    requires enc.state == Flushing
    ensures var t := Step(env, enc, 0, output);
            match env.codec.encode(enc.encoder, NewCursor(0), output)
            case Failure(e) => t == Fail(e, [EncodeCall(0)])
            case Success(p) =>
              match env.codec.flush(p.encoder, p.output)
              case Failure(e) => t == Fail(e, [EncodeCall(0), FlushCall])
              case Success(em) =>
                t.Continue? && t.next.encoder == em.encoder && t.output == em.output &&
                t.read == 0 && t.next.reader == enc.reader &&
                (em.complete ==> t.next.state == Encoding) &&
                (!em.complete ==> t.next.state == Flushing)
  {
  }

  /** Finishing: Done exactly when `finish` reports completion; the reader is
      not touched. */
  lemma FinishingOutcome<R, E(!new)>(env: Env<R, E>, enc: Encoder<R, E>, read: nat, output: Cursor)
    requires enc.state == Finishing
    ensures var t := Step(env, enc, read, output);
            match env.codec.finish(enc.encoder, output)
            case Failure(e) => t == Fail(e, [FinishCall])
            case Success(em) =>
              t.Continue? && t.calls == [FinishCall] && t.next.encoder == em.encoder &&
              t.output == em.output && t.read == read && t.next.reader == enc.reader &&
              (em.complete ==> t.next.state == Done) &&
              (!em.complete ==> t.next.state == Finishing)
  {
  }

  /** In a trace of codec calls, nothing but `finish` follows a `finish`. */
  predicate FinishIsLast(calls: seq<Call>) {
    forall i, j :: 0 <= i < j < |calls| && calls[i] == FinishCall ==> calls[j] == FinishCall
  }

  /** How `do_poll_read` ended: `Pending`, `Ready(Ok)`, an error, or the model's
      fuel bound ran out before either. */
  datatype LoopExit = Suspended | Completed | Failed(error: Error) | FuelExhausted

  /** Where the loop of `do_poll_read` stopped: how, the adapter and output
      cursor it left, and the codec calls it made, in order. */
  datatype LoopOutcome<R, E> =
    LoopOutcome(exit: LoopExit, encoder: Encoder<R, E>, output: Cursor, calls: seq<Call>)

  /** The loop of `do_poll_read` from a given pass on, with at most `fuel`
      passes left and `read` bytes read so far in this call: run `Step`;
      return `Pending` on a suspension; propagate an error, keeping the
      adapter from before the failing pass and the codec calls that pass
      made; return `Ready` once the adapter is Done or the output is full;
      go round otherwise. Its properties are `LoopExitRules`,
      `LoopStaysInRegion` and `LoopCallOrder`. */
  function Loop<R, E(!new)>(env: Env<R, E>, enc: Encoder<R, E>, read: nat, output: Cursor, fuel: nat)
    : (o: LoopOutcome<R, E>)
    decreases fuel
  {
    if fuel == 0 then
      LoopOutcome(FuelExhausted, enc, output, [])
    else
      match Step(env, enc, read, output)
      case Suspend(next) => LoopOutcome(Suspended, next, output, [])
      case Fail(e, made) => LoopOutcome(Failed(e), enc, output, made)
      case Continue(next, read', out, made) =>
        if next.state == Done || out.Unwritten() == 0 then
          LoopOutcome(Completed, next, out, made)
        else
          var rest := Loop(env, next, read', out, fuel - 1);
          rest.(calls := made + rest.calls)
  }

  /** The exit rules of the loop. It returns `Ready` only once the adapter is
      Done or the output is full, and as soon as the output fills it stops
      with `Ready` rather than going on or suspending. It suspends only in
      Encoding, and an error never comes from Done. End of data is never
      forgotten. A Done adapter returns `Ready` at once with nothing changed
      or called, and a first pass that finds the reader not ready with nothing
      read suspends with nothing written or called. */
  lemma {:induction false} LoopExitRules<R, E(!new)>(env: Env<R, E>, enc: Encoder<R, E>, read: nat,
                                                     output: Cursor, fuel: nat)
    ensures var o := Loop(env, enc, read, output, fuel);
            && (o.exit.Completed? ==> o.encoder.state == Done || o.output.Unwritten() == 0)
            && (o.exit.Suspended? ==> o.encoder.state == Encoding)
            && (o.exit.FuelExhausted? ==>
                  fuel == 0 || (o.encoder.state != Done && o.output.Unwritten() > 0))
            && (output.Unwritten() > 0 && o.output.Unwritten() == 0 ==> o.exit == Completed)
            && (o.exit.Failed? ==> o.encoder.state != Done)
            && (enc.state.Ending() ==> o.encoder.state.Ending() && !o.exit.Suspended?)
    ensures enc.state == Done && fuel > 0 ==>
              Loop(env, enc, read, output, fuel) == LoopOutcome(Completed, enc, output, [])
    ensures var polled := env.source.pollFillBuf(enc.reader);
            enc.state == Encoding && read == 0 && polled.fill == NotReady && fuel > 0 ==>
              Loop(env, enc, read, output, fuel)
              == LoopOutcome(Suspended, enc.(reader := polled.reader), output, [])
    decreases fuel
  {
    if fuel > 0 {
      if enc.state == Encoding && env.source.pollFillBuf(enc.reader).fill == NotReady {
        EncodingNotReady(env, enc, read, output);
      }
      match Step(env, enc, read, output)
      case Suspend(_) =>
      case Fail(_, _) =>
      case Continue(next, read', out, _) =>
        if !(next.state == Done || out.Unwritten() == 0) {
          LoopExitRules(env, next, read', out, fuel - 1);
        }
    }
  }

  /** With a lawful codec the loop only moves the output forward within its region. */
  lemma {:induction false} LoopStaysInRegion<R, E(!new)>(env: Env<R, E>, enc: Encoder<R, E>, read: nat,
                                                         output: Cursor, fuel: nat)
    requires Lawful(env.codec)
    ensures Extends(output, Loop(env, enc, read, output, fuel).output)
    decreases fuel
  {
    if fuel > 0 {
      match Step(env, enc, read, output)
      case Suspend(_) =>
      case Fail(_, _) =>
      case Continue(next, read', out, _) =>
        StepStaysInRegion(env, enc, read, output);
        if !(next.state == Done || out.Unwritten() == 0) {
          LoopStaysInRegion(env, next, read', out, fuel - 1);
        }
    }
  }

  /** The order of codec calls in the loop: nothing but `finish` follows a
      `finish`, a `finish` means end of data has been seen, an adapter past end
      of data calls only `finish`, and a Done adapter calls nothing. */
  lemma {:induction false} LoopCallOrder<R, E(!new)>(env: Env<R, E>, enc: Encoder<R, E>, read: nat,
                                                     output: Cursor, fuel: nat)
    ensures var o := Loop(env, enc, read, output, fuel);
            && FinishIsLast(o.calls)
            && (FinishCall in o.calls ==> o.encoder.state.Ending())
            && (enc.state.Ending() ==> forall i :: 0 <= i < |o.calls| ==> o.calls[i] == FinishCall)
            && (enc.state == Done ==> o.calls == [])
    decreases fuel
  {
    if fuel > 0 {
      LoopPass(env, enc, read, output, fuel);
      match Step(env, enc, read, output)
      case Suspend(_) =>
      case Fail(_, _) =>
      case Continue(next, read', out, made) =>
        if !(next.state == Done || out.Unwritten() == 0) {
          LoopCallOrder(env, next, read', out, fuel - 1);
          LoopExitRules(env, next, read', out, fuel - 1);
        }
    }
  }

  /** `do_poll_read` as the source writes it, a loop over `Step`, run for at
      most `fuel` passes: it ends exactly where `Loop` says, starting from a
      call with nothing read yet. */
  method DoPollRead<R, E(!new)>(env: Env<R, E>, enc: Encoder<R, E>, output: Cursor, fuel: nat)
    returns (exit: LoopExit, enc': Encoder<R, E>, output': Cursor, calls: seq<Call>)
    ensures LoopOutcome(exit, enc', output', calls) == Loop(env, enc, 0, output, fuel)
  {
    exit, enc', output', calls := FuelExhausted, enc, output, [];
    var read: nat := 0;
    var remaining := fuel;
    while remaining > 0
      invariant var o := Loop(env, enc', read, output', remaining);
                Loop(env, enc, 0, output, fuel) == o.(calls := calls + o.calls)
      decreases remaining
    {
      var t := Step(env, enc', read, output');
      LoopPass(env, enc', read, output', remaining);
      match t
      case Suspend(next) =>
        return Suspended, next, output', calls;
      case Fail(e, made) =>
        return Failed(e), enc', output', calls + made;
      case Continue(next, read', out, made) =>
        if next.state == Done || out.Unwritten() == 0 {
          return Completed, next, out, calls + made;
        }
        ghost var rest := Loop(env, next, read', out, remaining - 1);
        assert calls + (made + rest.calls) == (calls + made) + rest.calls;
        remaining := remaining - 1;
        enc', read, output', calls := next, read', out, calls + made;
    }
  }

  /** One pass of `Loop` with fuel left, by the outcome of `Step`. */
  lemma LoopPass<R, E(!new)>(env: Env<R, E>, enc: Encoder<R, E>, read: nat, output: Cursor,
                            fuel: nat)
    requires fuel > 0
    ensures var o := Loop(env, enc, read, output, fuel);
            match Step(env, enc, read, output)
            case Suspend(next) => o == LoopOutcome(Suspended, next, output, [])
            case Fail(e, made) => o == LoopOutcome(Failed(e), enc, output, made)
            case Continue(next, read', out, made) =>
              if next.state == Done || out.Unwritten() == 0 then
                o == LoopOutcome(Completed, next, out, made)
              else var rest := Loop(env, next, read', out, fuel - 1);
                   o == rest.(calls := made + rest.calls)
  {
  }

  /** What `poll_read` returns to its caller; `Stalled` stands for the model's
      fuel bound running out. */
  datatype ReadPoll = Pending | Ready | ReadFailed(error: Error) | Stalled

  /** `AsyncRead::poll_read`. The caller's buffer is a cursor whose written part
      is the filled region; `written` is how far it was advanced. Nothing is
      polled when the buffer has no room. Otherwise the loop runs on a fresh
      cursor over the unfilled region: `Pending` is reported exactly when the
      loop suspended without writing a byte, so encoded bytes are never held
      back; `Ready` advances the buffer by exactly what the loop wrote, and a
      `Ready` that adds nothing to a buffer with room means the stream is
      finished. An advance past the buffer's room panics in `ReadBuf::advance`;
      that is `CursorOverrun`, and a lawful codec never causes it. */
  method PollRead<R, E(!new)>(env: Env<R, E>, enc: Encoder<R, E>, buf: Cursor, fuel: nat)
    returns (poll: ReadPoll, enc': Encoder<R, E>, buf': Cursor, written: nat, calls: seq<Call>)
    ensures buf.Unwritten() == 0 ==>
              poll == Ready && enc' == enc && buf' == buf && written == 0 && calls == []
    ensures buf.Unwritten() > 0 ==>
              var o := Loop(env, enc, 0, NewCursor(buf.Unwritten()), fuel);
              && enc' == o.encoder && calls == o.calls
              && (poll == Pending <==> o.exit == Suspended && o.output.Written() == 0)
              && (poll == Ready ==> written == o.output.Written())
              && (poll == Ready <==>
                    (o.exit.Completed? || (o.exit.Suspended? && o.output.Written() > 0)) &&
                    o.output.Written() <= buf.Unwritten())
              && (poll == Stalled <==> o.exit == FuelExhausted)
              && (poll.ReadFailed? ==>
                    o.exit == Failed(poll.error) ||
                    (poll.error == CursorOverrun && o.output.Written() > buf.Unwritten()))
              && (Lawful(env.codec) && poll.ReadFailed? ==> o.exit == Failed(poll.error))
              && (o.exit.Failed? ==> poll == ReadFailed(o.exit.error))
    ensures buf'.len == buf.len && buf'.pos == buf.pos + written
    ensures poll != Ready ==> written == 0
    ensures written > 0 ==> poll == Ready
    ensures poll.Pending? ==> enc'.state == Encoding
    ensures Lawful(env.codec) && poll == Ready && written == 0 && buf.Unwritten() > 0 ==>
              enc'.state == Done
    ensures enc.state == Done && fuel > 0 ==> poll == Ready && enc' == enc && buf' == buf && calls == []
    ensures var polled := env.source.pollFillBuf(enc.reader);
            buf.Unwritten() > 0 && enc.state == Encoding && polled.fill == NotReady && fuel > 0 ==>
              poll == Pending && enc' == enc.(reader := polled.reader)
    ensures FinishIsLast(calls)
    ensures enc.state.Ending() ==> forall i :: 0 <= i < |calls| ==> calls[i] == FinishCall
  {
    if buf.Unwritten() == 0 {
      return Ready, enc, buf, 0, [];
    }
    var output := NewCursor(buf.Unwritten());
    LoopExitRules(env, enc, 0, output, fuel);
    LoopCallOrder(env, enc, 0, output, fuel);
    if Lawful(env.codec) {
      LoopStaysInRegion(env, enc, 0, output, fuel);
    }
    var exit, next, out, made := DoPollRead(env, enc, output, fuel);
    match exit
    case Failed(e) =>
      return ReadFailed(e), next, buf, 0, made;
    case FuelExhausted =>
      return Stalled, next, buf, 0, made;
    case Suspended =>
      if out.Written() == 0 {
        return Pending, next, buf, 0, made;
      }
      poll, enc', buf', written, calls := Deliver(buf, next, out, made);
    case Completed =>
      poll, enc', buf', written, calls := Deliver(buf, next, out, made);
  }

  /** The `Ready` arm of `poll_read`: advance the caller's buffer by what the
      loop wrote, which `ReadBuf::advance` refuses (panics) beyond the room left. */
  method Deliver<R, E>(buf: Cursor, enc: Encoder<R, E>, out: Cursor, made: seq<Call>)
    returns (poll: ReadPoll, enc': Encoder<R, E>, buf': Cursor, written: nat, calls: seq<Call>)
    ensures enc' == enc && calls == made
    ensures out.Written() <= buf.Unwritten() ==> poll == Ready && written == out.Written()
    ensures out.Written() > buf.Unwritten() ==> poll == ReadFailed(CursorOverrun) && written == 0
    ensures buf'.len == buf.len && buf'.pos == buf.pos + written
  {
    if out.Written() > buf.Unwritten() {
      return ReadFailed(CursorOverrun), enc, buf, 0, made;
    }
    return Ready, enc, Advance(buf, out.Written()), out.Written(), made;
  }
}
