/** Optional values, and results that are either a value or one of the
    Java exceptions the command interpreter can end with. */
module Results {

  datatype Option<+T> = None | Some(value: T)

  /** The failures of the interpreter, one tag per Java exception kind. */
  datatype Fault =
    | DukeException(message: string)  // thrown on purpose, with a user-facing message
    | ArrayIndexOutOfBounds           // a String.split result read past its end
    | IndexOutOfBounds                // ArrayList.get with a position outside the list
    | NumberFormat                    // Integer.parseInt on text that is not an int

  datatype Result<+T> = Success(value: T) | Failure(fault: Fault)
}
