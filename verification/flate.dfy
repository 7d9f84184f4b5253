/** The DEFLATE binding of the `Encode` contract (`FlateEncoder`). The
    compression engine itself (`flate2::Compress`) is foreign code: it is
    modelled as an arbitrary step function over its progress counters and an
    opaque internal state, and the binding's job is to turn those absolute
    counters into cursor advances and its statuses into the contract's results. */
module Flate {
  import opened Results
  import opened PartialBuffers
  import opened Codecs

  /** `flate2::FlushCompress`, the three modes the binding uses. */
  datatype FlushCompress = FlushNone | FlushSync | FlushFinish

  /** `flate2::Status`. */
  datatype Status = Ok | StreamEnd | BufError

  /** `flate2::Compress`: the absolute counters of bytes consumed and produced
      so far in the session, and everything else the engine keeps. */
  datatype Compress<S> = Compress(totalIn: nat, totalOut: nat, internal: S)

  /** What one call of `Compress::compress` reports. */
  datatype CompressResult<S> = CompressError(code: nat) | Compressed(status: Status, after: Compress<S>)

  /** One call of `Compress::compress`, given the engine, the number of input
      bytes it is offered, the output space it is offered and the flush mode. */
  type Engine<!S> = (Compress<S>, nat, nat, FlushCompress) -> CompressResult<S>

  /** The counters of a reported step move forward by no more than the capacity offered. */
  predicate StepWithin<S>(before: Compress<S>, inAvail: nat, outAvail: nat, r: CompressResult<S>) {
    r.Compressed? ==>
      && before.totalIn <= r.after.totalIn <= before.totalIn + inAvail
      && before.totalOut <= r.after.totalOut <= before.totalOut + outAvail
  }

  /** What the binding assumes of the engine: counters are monotonic and capacity-bounded. */
  ghost predicate LawfulEngine<S(!new)>(engine: Engine<S>) {
    forall c, inAvail, outAvail, mode :: StepWithin(c, inAvail, outAvail, engine(c, inAvail, outAvail, mode))
  }

  datatype FlateEncoder<S> = FlateEncoder(compress: Compress<S>, flushed: bool)

  /** `FlateEncoder::new`. The compression level and header choice only shape the
      engine's output bytes, so a fresh engine is given by its initial internal state. */
  function NewFlateEncoder<S>(initial: S): (f: FlateEncoder<S>)
    ensures f.flushed
    ensures f.compress.totalIn == 0 && f.compress.totalOut == 0
  {
    FlateEncoder(Compress(0, 0, initial), true)
  }

  /** What the private `encode` leaves behind on success. */
  datatype Stepped<S> = Stepped(compress: Compress<S>, input: Cursor, output: Cursor, status: Status)

  /** The private `encode`: one engine call, whose progress is read off as the
      difference of the counters before and after and applied to the cursors.
      Counters that went backwards or beyond the capacity offered would make the
      subtraction or the cursor advance panic; that is `CursorOverrun`. */
  function CompressStep<S>(engine: Engine<S>, compress: Compress<S>, input: Cursor, output: Cursor,
                           flush: FlushCompress)
    : (r: Result<Stepped<S>>)
    ensures r.Success? ==> Extends(input, r.value.input) && Extends(output, r.value.output)
    ensures r.Success? ==> r.value.input.pos - input.pos == r.value.compress.totalIn - compress.totalIn
    ensures r.Success? ==> r.value.output.pos - output.pos == r.value.compress.totalOut - compress.totalOut
    ensures var s := engine(compress, input.Unwritten(), output.Unwritten(), flush);
            && (r.Success? <==> s.Compressed? && StepWithin(compress, input.Unwritten(), output.Unwritten(), s))
            && (r.Success? ==> s.status == r.value.status && s.after == r.value.compress)
            && (s.CompressError? ==> r == Failure(CompressFailed(s.code)))
  {
    var s := engine(compress, input.Unwritten(), output.Unwritten(), flush);
    match s
    case CompressError(code) => Failure(CompressFailed(code))
    case Compressed(status, after) =>
      if StepWithin(compress, input.Unwritten(), output.Unwritten(), s) then
        Success(Stepped(after,
                        Advance(input, after.totalIn - compress.totalIn),
                        Advance(output, after.totalOut - compress.totalOut),
                        status))
      else
        Failure(CursorOverrun)
  }

  /** `Encode::encode`: marks the encoder as not flushed and runs one engine step
      without flushing; the cursors move by exactly the engine's progress. */
  function Encode<S>(engine: Engine<S>, f: FlateEncoder<S>, input: Cursor, output: Cursor)
    : (r: Result<Progress<FlateEncoder<S>>>)
    ensures r.Success? ==> !r.value.encoder.flushed
    ensures r.Success? ==> Extends(input, r.value.input) && Extends(output, r.value.output)
    ensures r.Success? ==> r.value.input.pos - input.pos == r.value.encoder.compress.totalIn - f.compress.totalIn
    ensures r.Success? ==> r.value.output.pos - output.pos == r.value.encoder.compress.totalOut - f.compress.totalOut
  {
    var f' := f.(flushed := false);
    match CompressStep(engine, f'.compress, input, output, FlushNone)
    case Failure(e) => Failure(e)
    case Success(s) =>
      match s.status
      case Ok => Success(Progress(f'.(compress := s.compress), s.input, s.output))
      case StreamEnd => Failure(Unreachable)
      case BufError => Failure(UnexpectedBufError)
  }

  /** How `encode` answers each report of the engine: an engine error is passed
      on, a misreport panics, `Ok` is success, `StreamEnd` is unreachable and
      `BufError` an error. */
  lemma EncodeStatusMapping<S>(engine: Engine<S>, f: FlateEncoder<S>, input: Cursor, output: Cursor)
    ensures var r := Encode(engine, f, input, output);
            var s := engine(f.compress, input.Unwritten(), output.Unwritten(), FlushNone);
            && (s.CompressError? ==> r == Failure(CompressFailed(s.code)))
            && (s.Compressed? && !StepWithin(f.compress, input.Unwritten(), output.Unwritten(), s) ==>
                  r == Failure(CursorOverrun))
            && (s.Compressed? && StepWithin(f.compress, input.Unwritten(), output.Unwritten(), s) ==>
                  && (s.status == Ok ==> r.Success? && r.value.encoder == FlateEncoder(s.after, false))
                  && (s.status == StreamEnd ==> r == Failure(Unreachable))
                  && (s.status == BufError ==> r == Failure(UnexpectedBufError)))
  {
  }

  /** `Encode::flush`. Nothing is done when nothing was encoded since the last
      flush; otherwise one sync-mode engine step over an empty input. */
  function Flush<S>(engine: Engine<S>, f: FlateEncoder<S>, output: Cursor): (r: Result<Emitted<FlateEncoder<S>>>)
    ensures f.flushed ==> r == Success(Emitted(f, output, true))
    ensures r.Success? ==> r.value.encoder.flushed
    ensures r.Success? ==> Extends(output, r.value.output)
    ensures r.Success? ==> r.value.encoder.compress.totalIn == f.compress.totalIn
    ensures r.Success? ==> r.value.output.pos - output.pos == r.value.encoder.compress.totalOut - f.compress.totalOut
  {
    if f.flushed then
      Success(Emitted(f, output, true))
    else
      match CompressStep(engine, f.compress, NewCursor(0), output, FlushSync)
      case Failure(e) => Failure(e)
      case Success(s) =>
        Success(Emitted(FlateEncoder(s.compress, true), s.output, s.output.Unwritten() > 0))
  }

  /** A flush after an `encode` or a `finish` reaches the engine with one
      sync-mode step offered no input. Whatever status that step reports, the
      encoder then counts as flushed, and the flush is complete exactly when
      output space is left over. */
  lemma FlushReachesEngine<S>(engine: Engine<S>, f: FlateEncoder<S>, output: Cursor)
    requires !f.flushed
    ensures var r := Flush(engine, f, output);
            var s := engine(f.compress, 0, output.Unwritten(), FlushSync);
            && (s.CompressError? ==> r == Failure(CompressFailed(s.code)))
            && (s.Compressed? && !StepWithin(f.compress, 0, output.Unwritten(), s) ==>
                  r == Failure(CursorOverrun))
            && (s.Compressed? && StepWithin(f.compress, 0, output.Unwritten(), s) ==>
                  && r.Success?
                  && r.value.encoder == FlateEncoder(s.after, true)
                  && (r.value.complete <==> r.value.output.Unwritten() > 0))
  {
  }

  /** `Encode::finish`: marks the encoder as not flushed and runs one finish-mode
      engine step over an empty input. */
  function Finish<S>(engine: Engine<S>, f: FlateEncoder<S>, output: Cursor): (r: Result<Emitted<FlateEncoder<S>>>)
    ensures r.Success? ==> !r.value.encoder.flushed
    ensures r.Success? ==> Extends(output, r.value.output)
    ensures r.Success? ==> r.value.encoder.compress.totalIn == f.compress.totalIn
    ensures r.Success? ==> r.value.output.pos - output.pos == r.value.encoder.compress.totalOut - f.compress.totalOut
  {
    var f' := f.(flushed := false);
    match CompressStep(engine, f'.compress, NewCursor(0), output, FlushFinish)
    case Failure(e) => Failure(e)
    case Success(s) =>
      match s.status
      case Ok => Success(Emitted(f'.(compress := s.compress), s.output, false))
      case StreamEnd => Success(Emitted(f'.(compress := s.compress), s.output, true))
      case BufError => Failure(UnexpectedBufError)
  }

  /** How `finish` answers each report of the engine: `Ok` means the trailer is
      not fully out yet, `StreamEnd` that it is, `BufError` is an error. */
  lemma FinishStatusMapping<S>(engine: Engine<S>, f: FlateEncoder<S>, output: Cursor)
    ensures var r := Finish(engine, f, output);
            var s := engine(f.compress, 0, output.Unwritten(), FlushFinish);
            && (s.CompressError? ==> r == Failure(CompressFailed(s.code)))
            && (s.Compressed? && !StepWithin(f.compress, 0, output.Unwritten(), s) ==>
                  r == Failure(CursorOverrun))
            && (s.Compressed? && StepWithin(f.compress, 0, output.Unwritten(), s) ==>
                  && (s.status == Ok ==> r.Success? && !r.value.complete)
                  && (s.status == StreamEnd ==> r.Success? && r.value.complete)
                  && (s.status == BufError ==> r == Failure(UnexpectedBufError))
                  && (r.Success? ==> r.value.encoder == FlateEncoder(s.after, false)))
  {
  }

  /** The binding as a codec the adapter can drive. */
  function FlateCodec<S>(engine: Engine<S>): (codec: Codec<FlateEncoder<S>>) {
    Codec((f, input, output) => Encode(engine, f, input, output),
          (f, output) => Flush(engine, f, output),
          (f, output) => Finish(engine, f, output))
  }

  /** A flush before anything has been encoded completes at once and writes nothing. */
  lemma FreshFlushWritesNothing<S>(engine: Engine<S>, initial: S, output: Cursor)
    ensures Flush(engine, NewFlateEncoder(initial), output)
         == Success(Emitted(NewFlateEncoder(initial), output, true))
  {
  }

  /** Flush idempotence: once a flush has succeeded, a second flush with no
      `encode` or `finish` in between is complete, writes nothing and leaves
      the encoder as it was, whatever output space it is given. */
  lemma FlushAfterFlushIsNoOp<S>(engine: Engine<S>, f: FlateEncoder<S>, output: Cursor, output': Cursor)
    requires Flush(engine, f, output).Success?
    ensures var g := Flush(engine, f, output).value.encoder;
            Flush(engine, g, output') == Success(Emitted(g, output', true))
  {
  }

  /** With a lawful engine no operation of the binding overruns a cursor: the
      panicking path is reached only by an engine that misreports its progress. */
  lemma LawfulEngineNeverOverruns<S(!new)>(engine: Engine<S>, f: FlateEncoder<S>, input: Cursor, output: Cursor)
    requires LawfulEngine(engine)
    ensures Encode(engine, f, input, output) != Failure(CursorOverrun)
    ensures Flush(engine, f, output) != Failure(CursorOverrun)
    ensures Finish(engine, f, output) != Failure(CursorOverrun)
  {
    var e := engine(f.compress, input.Unwritten(), output.Unwritten(), FlushNone);
    assert StepWithin(f.compress, input.Unwritten(), output.Unwritten(), e);
    EncodeStatusMapping(engine, f, input, output);
    var s := engine(f.compress, 0, output.Unwritten(), FlushSync);
    assert StepWithin(f.compress, 0, output.Unwritten(), s);
    if !f.flushed {
      FlushReachesEngine(engine, f, output);
    }
    var t := engine(f.compress, 0, output.Unwritten(), FlushFinish);
    assert StepWithin(f.compress, 0, output.Unwritten(), t);
    FinishStatusMapping(engine, f, output);
  }

  /** The binding keeps the `Encode` contract the adapter relies on: its
      operations never consume more than offered nor write past the output. */
  lemma FlateCodecLawful<S(!new)>(engine: Engine<S>)
    ensures Lawful(FlateCodec(engine))
  {
    var codec := FlateCodec(engine);
    forall f, input, output
      ensures EncodeWithin(codec.encode(f, input, output), input, output)
    {
      assert codec.encode(f, input, output) == Encode(engine, f, input, output);
    }
    forall f, output
      ensures EmitWithin(codec.flush(f, output), output)
      ensures EmitWithin(codec.finish(f, output), output)
    {
      assert codec.flush(f, output) == Flush(engine, f, output);
      assert codec.finish(f, output) == Finish(engine, f, output);
    }
  }
}
