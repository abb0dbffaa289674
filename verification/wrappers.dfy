/** Failure-carrying datatypes shared by every module of the model. */
module Wrappers {

  /** A value that may be absent (`undefined` in the source). */
  datatype Option<+T> = None | Some(value: T) {
    /** The wrapped value, or `default` when absent (the source's `??`). */
    function GetOr(default: T): T {
      match this
      case Some(v) => v
      case None => default
    }
  }

  /** The outcome of an operation that returns a value or throws. */
  datatype Result<+R, +E> = Success(value: R) | Failure(error: E)

  /** The outcome of an operation that returns nothing or throws. */
  datatype Outcome<+E> = Pass | Fail(error: E)
}

/** JavaScript `Error` objects as the source creates and inspects them. */
module Errors {

  /** An `Error` object: its `name` and its `message`. */
  datatype JsError = JsError(name: string, message: string)

  /** A plain `new Error(message)`. */
  function PlainError(message: string): (e: JsError)
    ensures e.message == message
  {
    JsError("Error", message)
  }

  /**
   * `String(err)` for an `Error`, which calls `Error.prototype.toString`
   * (section 20.5.3.4 of ECMA-262): the name and the message joined by ": ",
   * or just the one that is non-empty.
   */
  function ErrorToString(e: JsError): (t: string)
    ensures e.name <= t
    ensures e.name != "" && e.message != "" ==>
      |t| == |e.name| + 2 + |e.message| && t[|e.name|..|e.name| + 2] == ": "
    ensures |t| >= |e.message| && t[|t| - |e.message|..] == e.message
  {
    if e.name == "" then e.message
    else if e.message == "" then e.name
    else e.name + ": " + e.message
  }

  /**
   * The text `String(lastError?.message || lastError)` gives, which is also
   * the message of `new Error(lastError?.message || lastError)`: the message
   * when it is non-empty, and otherwise `String(err)` of the error itself.
   */
  function ErrorText(e: JsError): (t: string)
    ensures e.message != "" ==> t == e.message
    ensures e.message == "" ==> t == ErrorToString(e)
  {
    if e.message != "" then e.message else e.name
  }
}
