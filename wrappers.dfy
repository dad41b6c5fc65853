/** Option and Result, the shapes the command-line tool's LanguageExt and
    .NET calls produce: a lookup that may miss, an operation that may throw. */
module Wrappers {

  datatype Option<+T> = None | Some(value: T)

  datatype Result<+T, +E> = Ok(value: T) | Err(error: E)
}
