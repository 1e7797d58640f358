/** The exceptions the compression pipeline raises or catches. */
module Errors {

  datatype Error =
    | ArgumentNull(param: string)     // ArgumentNullException naming the parameter
    | ObjectDisposed                  // the content was already disposed
    | NullReference                   // a member access on a null reference
    | InvalidData                     // the codec could not decode its input
    | HttpRequest(cause: Error)       // a stream-copy failure while buffering content
    | Wrapped(message: string, inner: Error)  // `new Exception(message, inner)`

  /** The message a handler attaches when a codec operation fails, e.g.
      "Unable to decompress request using compressor 'GZipCompressor'". */
  function FailureMessage(verb: string, direction: string, typeName: string): string {
    "Unable to " + verb + " " + direction + " using compressor '" + typeName + "'"
  }
}
