/** The error types of the binary codec (src/binary/mod.rs). */
module Binary {

  /** The kinds of `std::io::Error` the codec produces: input that ends too
      early, and bytes that are not UTF-8 where a string is expected. */
  datatype IoError = UnexpectedEof | InvalidData

  /** `BinaryError`: an I/O failure, a malformed field (named by its context
      message), or a version triple that differs from the running one
      (expected first, then found, each as "major.minor.patch"). */
  datatype BinaryError =
    | IOFailed(kind: IoError)
    | SyntaxError(context: string)
    | IncorrectVersion(expected: string, found: string)
}
