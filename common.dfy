/** Failure-carrying values shared by every module.  A JavaScript `throw new
    Error(message)` becomes `Err(message)` / `Fail(message)`; a multer or cors
    callback `cb(null, true)` / `cb(new Error(message))` becomes a Verdict. */
module Common {

  datatype Option<T> = None | Some(value: T)

  /** The result of an operation that either returns a value or throws an Error. */
  datatype Result<T> = Ok(value: T) | Err(message: string)

  /** The result of a remote step that returns nothing useful, or throws. */
  datatype Outcome = Pass | Fail(message: string)

  /** What a filter callback is told: accept, or an Error with a message. */
  datatype Verdict = Accept | Reject(message: string)
}
