/** Errors and the `std::io::Result` the adapter and the codec return.
    Error kinds and messages are not modelled beyond telling apart who raised
    the error; every error is propagated unchanged by `?`. */
module Results {

  datatype Error =
    /** An error reported by the upstream reader. */
    | Upstream(code: nat)
    /** A `CompressError` reported by the compression engine. */
    | CompressFailed(code: nat)
    /** The binding's own "unexpected BufError". */
    | UnexpectedBufError
    /** `unreachable!()` was reached (a panic, fatal for the stream). */
    | Unreachable
    /** A cursor was asked to advance past its region (a panic, fatal for the stream). */
    | CursorOverrun

  datatype Result<+T> = Success(value: T) | Failure(error: Error)
}
