/** The outcome of an operation that pandas may abort with an exception. */
module Wrappers {

  datatype Result<T, E> = Ok(value: T) | Err(error: E)

}
