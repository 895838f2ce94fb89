/** Failure-carrying results shared by every module of the model.

    The Java code reports failures by throwing; each kind of exception it
    throws becomes one constructor of `Error`, and an operation that may
    throw returns a `Result`.
 */
module Errors {

  datatype Option<+T> = None | Some(value: T)

  /** The exceptions the modelled code raises, with the text it attaches. */
  datatype Error =
    | MalformedPath(path: string)         // RuntimeException "malformed path:"
    | UnbalancedBrace(path: string)       // RuntimeException "unbalanced brace in path:"
    | BadSequence(sequence: string)       // RuntimeException "bad sequence: "
    | StringIndexOutOfBounds              // charAt on an empty string
    | IndexOutOfBounds(index: int)        // ArrayList.get with a bad index
    | NumberFormat(text: string)          // Integer.parseInt / Long.parseLong
    | IllegalState                        // getPrefixPath on the root
    | IllegalArgument(detail: string)     // media-type codec
    | AssertionFailed                     // Utils.assertTrue
    | BadPath(path: string)               // RuntimeException "bad path: "

  datatype Result<+T> = Ok(value: T) | Err(error: Error) {
    predicate IsFailure() {
      Err?
    }

    function PropagateFailure<U>(): Result<U>
      requires Err?
    {
      Err(error)
    }

    function Extract(): T
      requires Ok?
    {
      value
    }
  }
}
