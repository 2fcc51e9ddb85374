/** Types shared by every module. */
module Prelude {

  datatype Option<+T> = None | Some(value: T)

  /** An octet. */
  type byte = x: int | 0 <= x < 256

  /** A record type number. */
  type u16 = x: int | 0 <= x < 65536

  function Min(a: int, b: int): int {
    if a <= b then a else b
  }

  function Max(a: int, b: int): int {
    if a <= b then b else a
  }

  const NANOS := 1_000_000_000

  /** ASCII letters in lower case, other octets as they are. */
  function LowerByte(b: int): (r: int)
    ensures 0 <= b < 256 ==> 0 <= r < 256
  {
    if 65 <= b <= 90 then b + 32 else b
  }
}
