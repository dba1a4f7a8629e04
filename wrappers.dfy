/** A value that may be absent: the model's stand-in for a C# reference or
    nullable string that can be null. */
module Wrappers {

  datatype Option<+T> = None | Some(value: T)
}
