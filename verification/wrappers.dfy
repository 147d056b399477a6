/** An optional value, for lookups that may find nothing. */
module Wrappers {

  /** A found value, or None where Java would hand back a `null` reference. */
  datatype Option<T> = None | Some(value: T)
}
