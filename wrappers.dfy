/** Failure-compatible result type standing in for the Java exceptions of the
    modelled code (ProtocolException, FolderException, runtime exceptions). */
module Wrappers {

  datatype Option<+T> = None | Some(value: T)

  /** The kinds of exception the modelled code throws. */
  datatype Error =
    | ProtocolError(reason: string)   // com.icegreen.greenmail.imap.ProtocolException
    | FolderError(reason: string)     // com.icegreen.greenmail.store.FolderException
    | IllegalState(reason: string)    // java.lang.IllegalStateException
    | IndexOutOfBounds(reason: string) // java.lang.StringIndexOutOfBoundsException
    | NullFolder                      // NullPointerException on a deselected view

  datatype Result<+T> = Ok(value: T) | Err(error: Error) {
    predicate IsFailure() {
      Err?
    }

    function PropagateFailure<U>(): Result<U>
      requires Err?
    {
      Err(error)
    }

    function Extract(): T
      requires Ok?
    {
      value
    }
  }
}
