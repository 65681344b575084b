/**
 * Java doubles identified by their raw 64-bit patterns (Double.doubleToRawLongBits), which
 * is how the interpreter tells R's NA apart from other NaNs, and the exact widening
 * conversion from int to double.
 */
module JavaDouble {
  import opened RTypes

  /** A Java double, as its raw IEEE 754 binary64 bit pattern. */
  type Double = bits: int | 0 <= bits < 0x1_0000_0000_0000_0000

  const TWO_52: nat := 0x10_0000_0000_0000
  const EXP_BIAS: nat := 1023
  const ZERO: Double := 0

  /** Double.NaN, the canonical quiet NaN. */
  const CANONICAL_NAN: Double := 0x7ff8_0000_0000_0000

  function Sign(d: Double): (s: nat) ensures s < 2 { d / 0x8000_0000_0000_0000 }
  function Exponent(d: Double): (x: nat) ensures x < 0x800 { (d / TWO_52) % 0x800 }
  function Fraction(d: Double): (f: nat) ensures f < TWO_52 { d % TWO_52 }

  /** The pattern with the given sign bit, biased exponent and fraction fields. */
  function Compose(s: nat, x: nat, f: nat): (d: Double)
    requires s < 2 && x < 0x800 && f < TWO_52
    ensures Sign(d) == s && Exponent(d) == x && Fraction(d) == f
  {
    (s * 0x800 + x) * TWO_52 + f
  }

  /** Double.isNaN: all exponent bits set and a non-zero fraction. */
  predicate IsNaN(d: Double)
  {
    Exponent(d) == 0x7ff && Fraction(d) != 0
  }

  function Pow2(n: nat): (p: nat)
    ensures p >= 1
  {
    if n == 0 then 1 else 2 * Pow2(n - 1)
  }

  lemma {:induction false} Pow2Add(a: nat, b: nat)
    ensures Pow2(a + b) == Pow2(a) * Pow2(b)
  {
    if a > 0 { Pow2Add(a - 1, b); }
  }

  lemma {:induction false} Pow2Mono(a: nat, b: nat)
    requires a <= b
    ensures Pow2(a) <= Pow2(b)
  {
    if a < b { Pow2Mono(a, b - 1); }
  }

  lemma Pow2Of16()
    ensures Pow2(16) == 0x1_0000
  {
    assert Pow2(4) == 16;
    Pow2Add(4, 4);
    Pow2Add(8, 8);
  }

  lemma Pow2Values()
    ensures Pow2(32) == 0x1_0000_0000 && Pow2(52) == TWO_52
  {
    Pow2Of16();
    Pow2Add(16, 16);
    assert Pow2(4) == 16;
    Pow2Add(32, 16);
    Pow2Add(48, 4);
  }

  /** The position of the highest set bit. */
  function Log2(n: nat): (e: nat)
    requires n >= 1
    ensures Pow2(e) <= n < 2 * Pow2(e)
  {
    if n == 1 then 0 else 1 + Log2(n / 2)
  }

  lemma {:induction false} Log2Below(n: nat, e: nat)
    requires 1 <= n < Pow2(e)
    ensures Log2(n) < e
  {
    if Log2(n) >= e {
      Pow2Mono(e, Log2(n));
    }
  }

  lemma {:induction false} MulLess(a: nat, b: nat, c: nat)
    requires a < b && c > 0
    ensures 0 <= a * c < b * c
  {
    if c > 1 { MulLess(a, b, c - 1); }
  }

  lemma Distribute(a: int, b: int, c: int)
    ensures (a - b) * c + b * c == a * c
  {
  }

  /** The fraction field of m = 2^e + rest, shifted to the top of 52 bits. */
  lemma FractionBound(m: nat, e: nat)
    requires e <= 52 && Pow2(e) <= m < 2 * Pow2(e)
    ensures 0 <= (m - Pow2(e)) * Pow2(52 - e) < TWO_52
    ensures (m - Pow2(e)) * Pow2(52 - e) + TWO_52 == m * Pow2(52 - e)
  {
    var p, q := Pow2(e), Pow2(52 - e);
    Pow2Add(e, 52 - e);
    assert p * q == TWO_52 by { Pow2Values(); }
    MulLess(m - p, p, q);
    Distribute(m, p, q);
  }

  function Magnitude(i: int32): (m: nat)
    ensures m <= 0x8000_0000
    ensures m == 0 <==> i == 0
  {
    if i < 0 then -(i as int) else i as int
  }

  /**
   * Java's `(double) i`: every int is exactly representable, with exponent at most 2^31,
   * so the pattern is never a NaN. The widening is exact: the 53-bit significand of the
   * result is |i| scaled by the power of two its exponent removes, and the sign bit is
   * the sign of i.
   */
  function WideningCast(i: int32): (d: Double)
    ensures d == ZERO <==> i == 0
    ensures d != ZERO ==> EXP_BIAS <= Exponent(d) <= EXP_BIAS + 31
    ensures d != ZERO ==> TWO_52 + Fraction(d) == Magnitude(i) * Pow2(EXP_BIAS + 52 - Exponent(d))
    ensures d != ZERO ==> (Sign(d) == 1 <==> i < 0)
    ensures !IsNaN(d)
  {
    if i == 0 then ZERO
    else
      var m := Magnitude(i);
      Pow2Values();
      Log2Below(m, 32);
      var e := Log2(m);
      FractionBound(m, e);
      var f := (m - Pow2(e)) * Pow2(52 - e);
      var d := Compose(if i < 0 then 1 else 0, EXP_BIAS + e, f);
      assert EXP_BIAS + 52 - Exponent(d) == 52 - e;
      d
  }
}
