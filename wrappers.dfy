/** Option type for values that may be absent
    (a request that raised, input that ran out). */
module Wrappers {
  datatype Option<+T> = None | Some(value: T)
}
