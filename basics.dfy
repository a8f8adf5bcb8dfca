/** Small value types shared by every module of the model. */
module Basics {

  /** A value that may be absent: `None` stands for a C# `null` reference. */
  datatype Option<+T> = None | Some(value: T)

  /** One byte of a file's contents. */
  newtype byte = x: int | 0 <= x < 256
}
