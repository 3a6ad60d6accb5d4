/**
 * Fixed-width integer ranges of the C# types the repository uses, and the
 * small failure-carrying datatypes shared by every module.
 */
module Common {

  /** C# `byte`. */
  type uint8 = x: int | 0 <= x < 0x100

  /** C# `int`. */
  type int32 = x: int | -0x8000_0000 <= x < 0x8000_0000

  /** C# `long`. */
  type int64 = x: int | -0x8000_0000_0000_0000 <= x < 0x8000_0000_0000_0000

  /** A nullable reference or nullable value (`T?`). */
  datatype Option<+T> = None | Some(value: T)

  /** A value, or the exception that replaced it. */
  datatype Result<+T, +E> = Ok(value: T) | Err(error: E)
}
