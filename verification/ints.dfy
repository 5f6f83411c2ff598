/** Fixed-width integers of the backend. */
module Ints {

  /** C#'s `int`: the type of every entity Id and of the Id route parameters. */
  newtype int32 = x: int | -0x8000_0000 <= x <= 0x7fff_ffff

  /** int.MaxValue: the last Id an auto-increment counter can hand out to an `int` key. */
  const Int32Max: int32 := 0x7fff_ffff
}
