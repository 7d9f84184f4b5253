/** The adapter driven by the DEFLATE binding: what the two halves promise
    once they are put together. */
module FlateStream {
  import opened Results
  import opened PartialBuffers
  import opened Codecs
  import opened Flate
  import opened BufreadEncoder

  /** With a lawful engine no pass of the adapter panics on a cursor: the only
      errors left are the reader's, the engine's and the binding's own. */
  lemma StepNeverOverruns<R, S(!new)>(source: Source<R>, engine: Engine<S>, enc: Encoder<R, FlateEncoder<S>>,
                                      read: nat, output: Cursor)
    requires LawfulEngine(engine)
    ensures var t := Step(Env(source, FlateCodec(engine)), enc, read, output);
            !(t.Fail? && t.error == CursorOverrun)
  {
    var codec := FlateCodec(engine);
    match enc.state
    case Encoding =>
      var fill := source.pollFillBuf(enc.reader).fill;
      if fill.Filled? && fill.len > 0 {
        assert codec.encode(enc.encoder, NewCursor(fill.len), output)
            == Encode(engine, enc.encoder, NewCursor(fill.len), output);
        LawfulEngineNeverOverruns(engine, enc.encoder, NewCursor(fill.len), output);
      }
    case Flushing =>
      if read == 0 {
        var e := Encode(engine, enc.encoder, NewCursor(0), output);
        assert codec.encode(enc.encoder, NewCursor(0), output) == e;
        LawfulEngineNeverOverruns(engine, enc.encoder, NewCursor(0), output);
        if e.Success? {
          assert codec.flush(e.value.encoder, e.value.output) == Flush(engine, e.value.encoder, e.value.output);
          LawfulEngineNeverOverruns(engine, e.value.encoder, NewCursor(0), e.value.output);
        }
      } else {
        assert codec.flush(enc.encoder, output) == Flush(engine, enc.encoder, output);
        LawfulEngineNeverOverruns(engine, enc.encoder, NewCursor(0), output);
      }
    case Finishing =>
      assert codec.finish(enc.encoder, output) == Finish(engine, enc.encoder, output);
      LawfulEngineNeverOverruns(engine, enc.encoder, NewCursor(0), output);
    case Done =>
  }

  /** Every Flushing pass that goes on leaves the DEFLATE encoder flushed. */
  lemma FlushingLeavesFlushed<R, S(!new)>(source: Source<R>, engine: Engine<S>, enc: Encoder<R, FlateEncoder<S>>,
                                          read: nat, output: Cursor)
    requires enc.state == Flushing
    ensures var t := Step(Env(source, FlateCodec(engine)), enc, read, output);
            t.Continue? ==> t.next.encoder.flushed
  {
  }

  /** Within one call of `do_poll_read` over the binding: while output room
      remains, bytes read since the last completed flush mean the DEFLATE
      encoder has encoded since its last flush. It holds when the call starts,
      with nothing read, and every pass keeps it (`StepKeepsWarm`). */
  predicate Warm<R, S>(enc: Encoder<R, FlateEncoder<S>>, read: nat, output: Cursor) {
    read != 0 && output.Unwritten() > 0 ==> !enc.encoder.flushed
  }

  /** Every pass of the adapter over the binding keeps `Warm`: `read` grows
      only by an `encode`, which clears `flushed`; a completed flush resets
      `read`; an incomplete one leaves the output full, which ends the call. */
  lemma StepKeepsWarm<R, S(!new)>(source: Source<R>, engine: Engine<S>, enc: Encoder<R, FlateEncoder<S>>,
                                  read: nat, output: Cursor)
    requires Warm(enc, read, output)
    ensures var t := Step(Env(source, FlateCodec(engine)), enc, read, output);
            t.Continue? ==> Warm(t.next, t.read, t.output)
  {
  }

  /** Consequence of `Warm`: a Flushing pass of the adapter over the binding
      never takes the `flushed` short cut. The `flush` it makes always runs the
      engine's sync-mode step, on the encoder and output the pass has reached
      (after the priming `encode` on a cold entry), and leaves the engine in
      the state that step reports. */
  lemma FlushingSyncs<R, S(!new)>(source: Source<R>, engine: Engine<S>, enc: Encoder<R, FlateEncoder<S>>,
                                  read: nat, output: Cursor)
    requires enc.state == Flushing && Warm(enc, read, output) && output.Unwritten() > 0
    ensures var t := Step(Env(source, FlateCodec(engine)), enc, read, output);
            read != 0 ==>
              var s := engine(enc.encoder.compress, 0, output.Unwritten(), FlushSync);
              s.Compressed? && StepWithin(enc.encoder.compress, 0, output.Unwritten(), s) ==>
                t.Continue? && t.next.encoder == FlateEncoder(s.after, true)
    ensures var t := Step(Env(source, FlateCodec(engine)), enc, read, output);
            read == 0 ==>
              match Encode(engine, enc.encoder, NewCursor(0), output)
              case Failure(e) => t == Fail(e, [EncodeCall(0)])
              case Success(p) =>
                var s := engine(p.encoder.compress, 0, p.output.Unwritten(), FlushSync);
                s.Compressed? && StepWithin(p.encoder.compress, 0, p.output.Unwritten(), s) ==>
                  t.Continue? && t.next.encoder == FlateEncoder(s.after, true)
  {
  }

  /** Finishing reaches Done exactly when the engine's finish-mode step reports
      the end of the stream. */
  lemma FinishingReachesDone<R, S(!new)>(source: Source<R>, engine: Engine<S>, enc: Encoder<R, FlateEncoder<S>>,
                                         read: nat, output: Cursor)
    requires enc.state == Finishing
    ensures var t := Step(Env(source, FlateCodec(engine)), enc, read, output);
            var s := engine(enc.encoder.compress, 0, output.Unwritten(), FlushFinish);
            s.Compressed? && StepWithin(enc.encoder.compress, 0, output.Unwritten(), s) &&
            s.status != BufError ==>
              t.Continue? && (t.next.state == Done <==> s.status == StreamEnd)
  {
  }
}
