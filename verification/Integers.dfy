/** Go's fixed-width integers, where their width shows. */
module Integers {
  const TWO_TO_THE_31 := 0x8000_0000
  const TWO_TO_THE_32 := 0x1_0000_0000
  const TWO_TO_THE_63 := 0x8000_0000_0000_0000
  const TWO_TO_THE_64 := 0x1_0000_0000_0000_0000

  /** Conversion to a signed 64-bit integer. */
  function ToInt64(n: nat): (r: int)
    ensures -TWO_TO_THE_63 <= r < TWO_TO_THE_63 && (n - r) % TWO_TO_THE_64 == 0
    ensures n < TWO_TO_THE_63 ==> r == n
    ensures TWO_TO_THE_63 <= n < TWO_TO_THE_64 ==> r < 0
  {
    var m := n % TWO_TO_THE_64;
    if m < TWO_TO_THE_63 then m else m - TWO_TO_THE_64
  }

  /** Conversion to a signed 32-bit integer. */
  function ToInt32(n: nat): (r: int)
    ensures -TWO_TO_THE_31 <= r < TWO_TO_THE_31 && (n - r) % TWO_TO_THE_32 == 0
    ensures n < TWO_TO_THE_31 ==> r == n
  {
    var m := n % TWO_TO_THE_32;
    if m < TWO_TO_THE_31 then m else m - TWO_TO_THE_32
  }
}
