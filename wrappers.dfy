/** Option and Result, the two failure-carrying types every module of the model uses.
    `Result` carries the static error text the library returns (`&'static str`). */
module Wrappers {

  datatype Option<+T> = None | Some(value: T)

  datatype Result<+T> = Ok(value: T) | Err(msg: string)
}
