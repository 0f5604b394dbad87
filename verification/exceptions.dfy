/** The exception hierarchy rooted at `WexException`, as one tagged error type.
    Every variant carries the exception's message. */
module Exceptions {
  import opened Results

  datatype Error =
    | DomainError(message: string)        // DomainException: a domain rule is violated
    | NotFound(message: string)           // NotFoundException: a referenced card or purchase is absent
    | Conflict(message: string)           // ConflictException: duplicate card number or credit limit exceeded
    | ConversionFailure(message: string)  // ConversionException: no usable exchange rate
    | OutOfRange(message: string)         // ArgumentOutOfRangeException escaping from DateOnly.AddMonths
    | InvalidOperation(message: string)   // InvalidOperationException escaping from SingleOrDefault
    | NullReference(message: string)      // NullReferenceException from reading a null record of the rate answer

  /** The outcome of an operation that may throw one of the exceptions above. */
  type Outcome<T> = Result<T, Error>
}
