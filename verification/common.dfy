/** Failure-carrying wrappers shared by the bot's modules. */
module Common {

  /** Python's `None` / a present value. */
  datatype Option<+T> = None | Some(value: T)

  /** Errors that escape to the caller because the Python code does not catch them. */
  datatype Error =
    /** The links file exists but `json.load` cannot read it as a JSON object. */
    | StoreUnreadable

  /** Either a value or the error that the Python code would raise. */
  datatype Result<+T> = Ok(value: T) | Err(error: Error)
}
