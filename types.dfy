/** Machine-level value types shared by the whole model. */
module Types {

  /** The .NET `uint` used for hashes, locales, sizes, offsets and the alignment. */
  type uint32 = x: int | 0 <= x < 0x1_0000_0000

  type byte = x: int | 0 <= x < 256

  /** A .NET nullable value (`uint?`, `bool?`) or a possibly-null reference. */
  datatype Option<+T> = None | Some(value: T)

  /** An outcome that either carries a value or the reason there is none. */
  datatype Result<+T, +E> = Success(value: T) | Failure(error: E)

  function Min(a: int, b: int): (m: int)
    ensures m <= a && m <= b && (m == a || m == b)
  {
    if a <= b then a else b
  }
}
