/** Failure-carrying result types shared by every module of the model. */
module Wrappers {

  datatype Option<T> = None | Some(value: T)

  /** The exceptions the modelled Java code raises, and the one loop of it that can run forever. */
  datatype Failure =
    | IndexOutOfBounds        // ArrayIndexOutOfBounds-, StringIndexOutOfBounds- or IndexOutOfBoundsException
    | NumberFormat            // NumberFormatException from Long.parseLong
    | DateTimeParse           // DateTimeParseException from LocalDateTime.parse
    | NullPointer             // a field read before it was ever assigned
    | FileNotFound            // a history file the loader or addResponse needs is absent
    | NoQuestionForHistory    // Student: an index line names no unconsumed question
    | UnknownQuestionType     // QuizzingEngine: a bank line that is not a static question
    | MissingFormatWidth      // String.format given "%-0s"
    | Diverges                // the source loops forever on this input

  datatype Result<T> = Ok(value: T) | Err(error: Failure)
}
