/** Outcome types shared by the whole model.  The source reports most errors by
    writing to the error stream and calling exit(); the model turns each such
    path into a Failure carrying the reason. */
module Results {
  datatype Option<T> = None | Some(value: T)

  /** Why an operation of the source stops the program. */
  datatype Fault =
    | InvalidDate          // Date constructors, enforceDateInvariants, exit(3)
    | BadDateString        // Date(string) of the wrong size or without digits
    | InvalidTime          // enforceTimeInvariants
    | BadTimeString        // Time(string) outside H:M:S[.F]
    | NotAString           // getString and the string functions, exit(9)
    | LengthExceeded       // Varchar / SQLChar length invariant
    | BadCharLength        // SQLChar padding to a negative length
    | TypeMismatch         // enforceCellContraint, exit(5)
    | NotUnique
    | NullNotAllowed
    | TimePrecisionMismatch
    | CharLengthMismatch
    | IndexOutOfRange
    | UnknownName          // Aliases::operator[], exit(6)
    | UnsupportedDatatype  // legacy Table::insertColumn assertion
    | UnknownColumn        // legacy Table::getCharTypeLength
    | FuelExhausted        // replace did not settle within its fuel bound
    | EmptyAggregate       // stringAggregate shrinking an empty text by a non-empty separator

  datatype Result<T> = Success(value: T) | Failure(error: Fault)
}
