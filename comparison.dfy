/**
 * The `comparison` namespace: equality and ordering tests of integral
 * values routed through the MBA identities.  Values are `w`-bit
 * representations as in module Mba; `signed` selects the two's-complement
 * reading of the same bits.
 */
module Comparison {
  import opened Mba

  /** The two's-complement reading of a `w`-bit representation. */
  function Signed(w: nat, x: nat): (r: int)
    requires 0 < w && x < Pow2(w)
    ensures var h: int := Pow2(w - 1); -h <= r < h
    ensures x - r == 0 || x - r == Pow2(w)
  {
    if x < Pow2(w - 1) then x else x - Pow2(w)
  }

  /** Adding -m, 0 or m does not change a residue modulo m. */
  lemma ModPlusUnit(d: int, e: int, m: int)
    requires m > 0 && (e == -m || e == 0 || e == m)
    ensures (d + e) % m == d % m
  {
    var q, r := d / m, d % m;
    assert d == q * m + r;
    if e == m {
      assert d + e == (q + 1) * m + r;
      ModUnique(d + e, q + 1, r, m);
    } else if e == -m {
      assert d + e == (q - 1) * m + r;
      ModUnique(d + e, q - 1, r, m);
    }
  }

  /** `obfuscated_equals`: the xor of the operands and its MBA self-difference are both zero. */
  function Equals(w: nat, a: nat, b: nat): (r: bool)
    requires a < Pow2(w) && b < Pow2(w)
    ensures r <==> a == b
  {
    BitwiseBound(w, a, b);
    XorZero(a, b);
    var diff := Xor(a, b);
    var zeroCheck := SubMba(w, diff, diff);
    zeroCheck == 0 && diff == 0
  }

  /** `obfuscated_not_equals`: the xor of the operands is nonzero. */
  function NotEquals(w: nat, a: nat, b: nat): (r: bool)
    requires a < Pow2(w) && b < Pow2(w)
    ensures r <==> a != b
  {
    XorZero(a, b);
    Xor(a, b) != 0
  }

  /**
   * `obfuscated_less`: for a signed type, the sign of the wrapped MBA
   * difference; for an unsigned type, the plain comparison.
   */
  function Less(w: nat, signed: bool, a: nat, b: nat): bool
    requires 0 < w && a < Pow2(w) && b < Pow2(w)
  {
    if signed then Signed(w, SubMba(w, a, b)) < 0 else a < b
  }

  /** `obfuscated_greater(a, b)` is `obfuscated_less(b, a)`. */
  function Greater(w: nat, signed: bool, a: nat, b: nat): bool
    requires 0 < w && a < Pow2(w) && b < Pow2(w)
  {
    Less(w, signed, b, a)
  }

  /** `obfuscated_less_equal(a, b)` is `!obfuscated_greater(a, b)`. */
  function LessEqual(w: nat, signed: bool, a: nat, b: nat): bool
    requires 0 < w && a < Pow2(w) && b < Pow2(w)
  {
    !Greater(w, signed, a, b)
  }

  /** `obfuscated_greater_equal(a, b)` is `!obfuscated_less(a, b)`. */
  function GreaterEqual(w: nat, signed: bool, a: nat, b: nat): bool
    requires 0 < w && a < Pow2(w) && b < Pow2(w)
  {
    !Less(w, signed, a, b)
  }

  /** The exact difference a - b of two signed values fits in the type. */
  predicate NoOverflow(w: nat, a: nat, b: nat)
    requires 0 < w && a < Pow2(w) && b < Pow2(w)
  {
    var h: int := Pow2(w - 1);
    -h <= Signed(w, a) - Signed(w, b) < h
  }

  /** The signed reading of a wrapped integer d is d itself when d fits, and off by 2^w otherwise. */
  lemma SignedOfWrapped(w: nat, d: int)
    requires 0 < w && -(Pow2(w) as int) < d < Pow2(w)
    ensures d % Pow2(w) < Pow2(w)
    ensures var h: int := Pow2(w - 1); -h <= d < h ==> Signed(w, d % Pow2(w)) == d
    ensures d >= Pow2(w - 1) ==> Signed(w, d % Pow2(w)) == d - Pow2(w)
    ensures d < -(Pow2(w - 1) as int) ==> Signed(w, d % Pow2(w)) == d + Pow2(w)
  {
    var m := Pow2(w);
    if d >= 0 {
      ModUnique(d, 0, d, m);
    } else {
      ModUnique(d, -1, d + m, m);
    }
  }

  /**
   * The unsigned test is `<`; the signed test agrees with `<` on the signed
   * readings exactly when a - b does not overflow, and is inverted when it does.
   */
  lemma LessMeaning(w: nat, a: nat, b: nat)
    requires 0 < w && a < Pow2(w) && b < Pow2(w)
    ensures Less(w, false, a, b) <==> a < b
    ensures Less(w, true, a, b) <==> (Signed(w, a) < Signed(w, b) <==> NoOverflow(w, a, b))
  {
    var m, sa, sb := Pow2(w), Signed(w, a), Signed(w, b);
    var d := sa - sb;
    ModPlusUnit(d, (a - sa) - (b - sb), m);
    assert SubMba(w, a, b) == d % m;
    SignedOfWrapped(w, d);
  }

  /** The derived tests, each under the no-overflow condition of the subtraction it performs. */
  lemma DerivedMeaning(w: nat, signed: bool, a: nat, b: nat)
    requires 0 < w && a < Pow2(w) && b < Pow2(w)
    ensures !signed ==> (Greater(w, signed, a, b) <==> a > b)
    ensures !signed ==> (LessEqual(w, signed, a, b) <==> a <= b)
    ensures !signed ==> (GreaterEqual(w, signed, a, b) <==> a >= b)
    ensures signed && NoOverflow(w, b, a) ==> (Greater(w, signed, a, b) <==> Signed(w, a) > Signed(w, b))
    ensures signed && NoOverflow(w, b, a) ==> (LessEqual(w, signed, a, b) <==> Signed(w, a) <= Signed(w, b))
    ensures signed && NoOverflow(w, a, b) ==> (GreaterEqual(w, signed, a, b) <==> Signed(w, a) >= Signed(w, b))
  {
    LessMeaning(w, a, b);
    LessMeaning(w, b, a);
  }

  /** int8_t: -128 < 1, yet the wrapped difference 127 is not negative. */
  lemma LessOverflowExample()
    ensures Signed(8, 0x80) == -128 && Signed(8, 1) == 1
    ensures !Less(8, true, 0x80, 1)
  {
    assert Pow2(8) == 256 && Pow2(7) == 128;
    LessMeaning(8, 0x80, 1);
  }

  /** Sign extension of a `w`-bit representation to `v` bits. */
  function Widen(w: nat, v: nat, x: nat): (r: nat)
    requires 0 < w <= v && x < Pow2(w)
    ensures r < Pow2(v)
    ensures Signed(v, r) == Signed(w, x)
  {
    Pow2Monotone(w - 1, v - 1);
    SignedOfWrapped(v, Signed(w, x));
    Signed(w, x) % Pow2(v)
  }

  /**
   * `obfuscated_less` corrected for signed types: both operands are first
   * widened to a type of `v` > `w` bits, where the difference cannot overflow.
   */
  function LessWidened(w: nat, v: nat, a: nat, b: nat): (r: bool)
    requires 0 < w < v && a < Pow2(w) && b < Pow2(w)
    ensures r <==> Signed(w, a) < Signed(w, b)
  {
    var wa, wb := Widen(w, v, a), Widen(w, v, b);
    Pow2Monotone(w, v - 1);
    LessMeaning(v, wa, wb);
    Signed(v, SubMba(v, wa, wb)) < 0
  }
}
