/** An optional value: `None` stands for a Java `null` result or a failed
    operation. */
module Wrappers {
  datatype Option<T> = None | Some(value: T)
}
