/** The optional value used where the C# code returns `null` for "not found". */
module Wrappers {
  datatype Option<+T> = None | Some(value: T)
}
