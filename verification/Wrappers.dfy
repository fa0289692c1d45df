/** A value that may be absent: undefined and null in the TypeScript code, Option in the Rust code. */
module Wrappers {
  datatype Option<T> = None | Some(value: T)
}
