/** Option and Result values, used for JSON members that may be missing and for
    the exceptions the crawl can raise while reading a response. */
module Wrappers {

  datatype Option<+T> = None | Some(value: T)

  datatype Result<+T, +E> = Ok(value: T) | Err(error: E)
}
