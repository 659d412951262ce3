/** Optional values: the model's stand-in for C# null. */
module Wrappers {

  datatype Option<+T> = None | Some(value: T)
}
