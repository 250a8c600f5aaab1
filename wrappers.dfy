/** The optional value that stands for `undefined`/`null` in the navigation engine. */
module Wrappers {

  datatype Option<T> = None | Some(value: T)
}
