/** The integer conversions and divisions of the server's C++: 32-bit wrap-around, truncated division. */
module CInt {
  const TWO32 := 0x1_0000_0000
  const TWO31 := 0x8000_0000

  function ToUInt32(x: int): (u: int)
    ensures 0 <= u < TWO32
  {
    x % TWO32
  }

  function ToInt32(x: int): (i: int)
    ensures -TWO31 <= i < TWO31
    ensures -TWO31 <= x < TWO31 ==> i == x
  {
    var u := x % TWO32;
    if u < TWO31 then u else u - TWO32
  }

  predicate IsInt32(x: int) { -TWO31 <= x < TWO31 }

  /** `i / n`, rounded towards zero. */
  function TruncDiv(i: int, n: int): int
    requires n > 0
  {
    if i >= 0 then i / n else -(-i / n)
  }

  /** `i % n`, with the sign of `i`. */
  function TruncMod(i: int, n: int): int
    requires n > 0
  {
    i - TruncDiv(i, n) * n
  }
}
