/** Gleam's `Option` and `Result`, and JavaScript's absent value (`null` / `undefined`)
    where the runtime uses one: both are `Option` here. */
module Prelude {

  datatype Option<T> = None | Some(value: T)

  datatype Result<T, E> = Ok(value: T) | Error(error: E)
}
