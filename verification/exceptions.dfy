/** The exceptions the core can throw, as values carried by `Result.Failure`. */
module Exceptions {

  datatype Exception =
    /** checkArgument failures and the duplicate check of the Person constructor; unchecked in Java */
    | IllegalArgument(message: string)
    /** `split("\\|", 2)` found no separator, so `parts[1]` does not exist */
    | ArrayIndexOutOfBounds
    /** `Index.fromOneBased` was given a number below one */
    | IndexOutOfBounds
    /** `LocalDateTime.parse` rejected its text */
    | DateTimeParse
    /** `Integer.parseInt` rejected its text */
    | NumberFormat
    /** ParserUtil's ParseException */
    | ParseError(message: string)
    /** the storage layer's IllegalValueException */
    | IllegalValue(message: string)
    /** a checked exception rethrown as an unchecked RuntimeException */
    | Runtime(cause: Exception)
}
