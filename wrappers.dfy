/** Python's optional values (`Optional[str]`, `None`). */
module Wrappers {
  datatype Option<+T> = None | Some(value: T)
}
