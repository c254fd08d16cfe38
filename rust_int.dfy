/** The fixed-width Rust integer types the monitor programs use, and the two
    integer operations whose Rust meaning differs from Dafny's unbounded,
    Euclidean arithmetic: the remainder `%` and the cast `as i64`. */
module RustInt {

  const TWO_63: int := 0x8000_0000_0000_0000
  const TWO_64: int := 0x1_0000_0000_0000_0000

  type I32 = x: int | -0x8000_0000 <= x < 0x8000_0000
  type U32 = x: int | 0 <= x < 0x1_0000_0000
  type I64 = x: int | -0x8000_0000_0000_0000 <= x < 0x8000_0000_0000_0000
  type U64 = x: int | 0 <= x < 0x1_0000_0000_0000_0000

  /** A sequence of clock readings that never goes back. */
  ghost predicate NonDecreasing(s: seq<int>) {
    forall i, j :: 0 <= i <= j < |s| ==> s[i] <= s[j]
  }

  /** Rust's `a % 100`: the quotient is truncated toward zero, so the
      remainder takes the sign of the dividend. It is the unique `r` with
      `|r| < 100`, `a - r` a multiple of 100, and `r` zero or of the same sign
      as `a`. (The source only ever divides by the constant 100.) */
  function TruncRem100(a: int): (r: int)
    ensures -100 < r < 100
    ensures a >= 0 ==> r >= 0
    ensures a <= 0 ==> r <= 0
    ensures (a - r) % 100 == 0
  {
    if a >= 0 then a % 100 else -((-a) % 100)
  }

  /** The remainder is negative exactly when the dividend is negative and not
      a multiple of 100. */
  lemma TruncRem100Negative(a: int)
    ensures TruncRem100(a) < 0 <==> a < 0 && a % 100 != 0
  {
    if a < 0 {
      var r := TruncRem100(a);
      assert (a - r) % 100 == 0;
      assert r == 0 <==> a % 100 == 0;
    }
  }

  /** Rust's `x as i64` for a `u64`: keeps the low 64 bits, so values at or
      above 2^63 wrap to negative numbers. */
  function AsI64(x: U64): (r: I64)
    ensures (r - x) % TWO_64 == 0
    ensures x < TWO_63 ==> r == x
    ensures x >= TWO_63 ==> r < 0
  {
    if x < TWO_63 then x else x - TWO_64
  }
}
