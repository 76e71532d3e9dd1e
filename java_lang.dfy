/** The Java primitives and exceptions that the modelled code uses. */
module JavaLang {

  /** Java's 64-bit signed `long`. */
  newtype int64 = x: int | -0x8000_0000_0000_0000 <= x < 0x8000_0000_0000_0000

  /** The StandardErrorCode values the enum casts report. */
  datatype ErrorCode = InvalidCastArgument | GenericInternalError

  /** Everything the modelled code can throw. */
  datatype Throwable =
    | PrestoException(code: ErrorCode, message: string)
      /** thrown by Objects.requireNonNull */
    | NullPointerException(message: string)
      /** the NullPointerException raised by calling a method on null; its message is not modelled */
    | NullDereference
      /** thrown by Optional.get on an empty Optional */
    | NoSuchElementException(message: string)
      /** java.lang.Error wrapping the IOException named by `cause` */
    | FatalError(cause: string)
}
