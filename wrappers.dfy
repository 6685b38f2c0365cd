// Optional values: a rule's missing Condition, a null rule list.
module Wrappers {
  datatype Option<T> = None | Some(value: T)
}
