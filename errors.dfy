/**
  The outcome types shared by every part of a bsonsplit run: optional values,
  results, the I/O error kinds the decoder reports, and the errors that end a run.
 */
module Errors {

  datatype Option<T> = None | Some(value: T)

  datatype Result<T, E> = Ok(value: T) | Err(error: E)

  /** The kinds of `std::io::Error` the decoder can report; only `UnexpectedEof` is singled out. */
  datatype IoKind = UnexpectedEof | Interrupted | InvalidData | OtherIo

  /** Every way a run of the tool can fail. */
  datatype Error =
    | Usage                      // split < 1
    | ClockFailed                // the system clock lies before the Unix epoch
    | CreateFailed               // an output file could not be created
    | IoError(kind: IoKind)      // the decoder hit an I/O error other than end of file
    | BsonError                  // the decoder met a malformed document
    | WriteFailed                // writing a document to its sink failed
    | FlushFailed                // flushing a sink failed
}
