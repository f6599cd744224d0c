/** The optional result the updaters return where the source returns `false` or a null pointer */
module Wrappers {
  datatype Option<+T> = None | Some(value: T)
}
