/** Machine words and the option type. */
module Words {

  const TWO_64: nat := 0x1_0000_0000_0000_0000
  const TWO_32: nat := 0x1_0000_0000

  type U64 = x: int | 0 <= x < 0x1_0000_0000_0000_0000
  type U32 = x: int | 0 <= x < 0x1_0000_0000
  type Byte = x: int | 0 <= x < 256

  datatype Option<+T> = None | Some(value: T)

  function Min(a: nat, b: nat): (r: nat)
    ensures r <= a && r <= b && (r == a || r == b)
  {
    if a < b then a else b
  }

  function Max(a: nat, b: nat): (r: nat)
    ensures r >= a && r >= b && (r == a || r == b)
  {
    if a < b then b else a
  }

  /** Saturating subtraction on naturals. */
  function Sub(a: nat, b: nat): (r: nat)
    ensures b <= a ==> r + b == a
    ensures a <= b ==> r == 0
  {
    if a < b then 0 else a - b
  }
}
