/** The optional value used where the program sees a C# null or a failed TryParse. */
module Wrappers {

  datatype Option<+T> = None | Some(value: T)
}
