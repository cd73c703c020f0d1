/** Java's integer operators, written out over Dafny's unbounded integers. */
module JavaInt {

  const INT64_MIN: int := -0x8000_0000_0000_0000
  const INT64_MAX: int := 0x7fff_ffff_ffff_ffff
  const INT32_MAX: int := 0x7fff_ffff

  predicate IsLong(x: int) { INT64_MIN <= x <= INT64_MAX }

  /**
   * Java's `/` on int and long: the quotient truncated toward zero, so the
   * remainder a - q * b is smaller in magnitude than b and never has the
   * opposite sign of a.
   */
  function JavaDiv(a: int, b: int): (q: int)
    requires b != 0
    ensures var rem := a - q * b;
            && (a >= 0 ==> 0 <= rem) && (a < 0 ==> rem <= 0)
            && (if b > 0 then -b < rem < b else b < rem < -b)
  {
    if a >= 0 || a % b == 0 then a / b
    else if b > 0 then a / b + 1
    else a / b - 1
  }

  /** Java's 64-bit two's complement wrap-around of a mathematical result. */
  function Wrap64(x: int): (r: int)
    ensures IsLong(r)
    ensures (r - x) % 0x1_0000_0000_0000_0000 == 0
    ensures IsLong(x) ==> r == x
  {
    var m := x % 0x1_0000_0000_0000_0000;
    if m > INT64_MAX then m - 0x1_0000_0000_0000_0000 else m
  }

  /** Java's `long * long`. */
  function LongMul(a: int, b: int): (r: int)
    requires IsLong(a) && IsLong(b)
    ensures IsLong(r)
    ensures (r - a * b) % 0x1_0000_0000_0000_0000 == 0
    ensures IsLong(a * b) ==> r == a * b
  {
    Wrap64(a * b)
  }
}
