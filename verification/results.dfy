/** Failure-compatible result types shared by the whole model. A Java exception the model
    covers becomes an `Err` carrying the kind of exception; the state a Java object is left
    in after an exception is not modelled. */
module Results {

  /** The exceptions the model covers. A NullPointerException from a null argument or
      listener is not among them. */
  datatype Exception =
    | StringIndexOutOfBounds   // String.substring, StringBuilder.insert/delete
    | ArrayIndexOutOfBounds    // indexing a char[] outside its bounds
    | IndexOutOfBounds         // ArrayList.get outside its bounds
    | NumberFormat             // Integer.valueOf(String, 16) on a malformed string
    | IllegalArgument          // java.awt.Color with a component outside 0..255
    | Syntax                   // com.syntax.manage.SyntaxException

  /** A Java reference that may be null. */
  datatype Option<+T> = None | Some(value: T)

  /** Either a value or the exception that was thrown instead. */
  datatype Result<+T> = Ok(value: T) | Err(error: Exception) {

    predicate IsFailure() {
      Err?
    }

    function PropagateFailure<U>(): Result<U>
      requires Err?
    {
      Err(error)
    }

    function Extract(): T
      requires Ok?
    {
      value
    }
  }
}
