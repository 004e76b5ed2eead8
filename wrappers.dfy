/** Java's `null` for "no key" and "no value", as an explicit option. */
module Wrappers {

  datatype Option<+T> = None | Some(value: T)
}
