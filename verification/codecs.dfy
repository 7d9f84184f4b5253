/** The `Encode` trait the adapter drives: an incremental `encode`, a `flush`
    to a stream boundary and a `finish` that writes the trailer. A codec is
    modelled as the record of its three operations over an encoder state `E`. */
module Codecs {
  import opened Results
  import opened PartialBuffers

  /** What a successful `encode` leaves behind: the new encoder state and both cursors. */
  datatype Progress<E> = Progress(encoder: E, input: Cursor, output: Cursor)

  /** What a successful `flush` or `finish` leaves behind, and whether it completed. */
  datatype Emitted<E> = Emitted(encoder: E, output: Cursor, complete: bool)

  datatype Codec<!E> = Codec(
    encode: (E, Cursor, Cursor) -> Result<Progress<E>>,
    flush: (E, Cursor) -> Result<Emitted<E>>,
    finish: (E, Cursor) -> Result<Emitted<E>>)

  /** One call the adapter makes into the codec; `EncodeCall` records how many
      input bytes the call was offered. */
  datatype Call = EncodeCall(offered: nat) | FlushCall | FinishCall

  /** A successful `encode` only moves its cursors forward within their regions. */
  ghost predicate EncodeWithin<E>(r: Result<Progress<E>>, input: Cursor, output: Cursor) {
    r.Success? ==> Extends(input, r.value.input) && Extends(output, r.value.output)
  }

  /** A successful `flush` or `finish` only moves the output cursor forward within its region. */
  ghost predicate EmitWithin<E>(r: Result<Emitted<E>>, output: Cursor) {
    r.Success? ==> Extends(output, r.value.output)
  }

  /** The part of the `Encode` contract the adapter relies on: no operation ever
      consumes more input than offered or writes past the output's capacity. */
  ghost predicate Lawful<E(!new)>(codec: Codec<E>) {
    && (forall e, input, output :: EncodeWithin(codec.encode(e, input, output), input, output))
    && (forall e, output :: EmitWithin(codec.flush(e, output), output))
    && (forall e, output :: EmitWithin(codec.finish(e, output), output))
  }
}
