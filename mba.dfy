/**
 * Mixed boolean-arithmetic identities of the `mba` namespace, for every
 * integral width at once.
 *
 * A value of a `w`-bit integral type is modelled by its unsigned
 * representation, a natural number below 2^w; a signed type has the same
 * bits, read in two's complement (`Comparison.Signed`).  The bitwise
 * operators are defined bit by bit on naturals, `~x` is `2^w - 1 - x`, and
 * every arithmetic result is reduced modulo 2^w, which is what the
 * conversion back to `T` does after C++'s integral promotions.
 */
module Mba {

  /** 2^n */
  function Pow2(n: nat): (r: nat)
    ensures r >= 1
  {
    if n == 0 then 1 else 2 * Pow2(n - 1)
  }

  lemma {:induction false} Pow2Monotone(m: nat, n: nat)
    requires m <= n
    ensures Pow2(m) <= Pow2(n)
    decreases n
  {
    if m < n {
      Pow2Monotone(m, n - 1);
    }
  }

  /** Bitwise exclusive or, least significant bit first. */
  function Xor(x: nat, y: nat): nat
    decreases x + y
  {
    if x == 0 && y == 0 then 0
    else 2 * Xor(x / 2, y / 2) + (if x % 2 != y % 2 then 1 else 0)
  }

  /** Bitwise and. */
  function And(x: nat, y: nat): nat
    decreases x + y
  {
    if x == 0 && y == 0 then 0
    else 2 * And(x / 2, y / 2) + (if x % 2 == 1 && y % 2 == 1 then 1 else 0)
  }

  /** Bitwise inclusive or. */
  function Or(x: nat, y: nat): nat
    decreases x + y
  {
    if x == 0 && y == 0 then 0
    else 2 * Or(x / 2, y / 2) + (if x % 2 == 1 || y % 2 == 1 then 1 else 0)
  }

  /** `~x` of a `w`-bit value. */
  function Not(w: nat, x: nat): (r: nat)
    requires x < Pow2(w)
    ensures r < Pow2(w)
    ensures x + r == Pow2(w) - 1
  {
    Pow2(w) - 1 - x
  }

  /** `z << 1` of a `w`-bit value. */
  function Shl1(w: nat, z: nat): (r: nat)
    ensures r < Pow2(w)
  {
    (2 * z) % Pow2(w)
  }

  /** The bitwise operators keep a `w`-bit value within `w` bits. */
  lemma {:induction false} BitwiseBound(w: nat, x: nat, y: nat)
    requires x < Pow2(w) && y < Pow2(w)
    ensures Xor(x, y) < Pow2(w) && And(x, y) < Pow2(w) && Or(x, y) < Pow2(w)
    decreases w
  {
    if w > 0 && (x != 0 || y != 0) {
      BitwiseBound(w - 1, x / 2, y / 2);
    }
  }

  /** Peeling the lowest bit off a complement. */
  lemma NotBits(w: nat, x: nat)
    requires 0 < w && x < Pow2(w)
    ensures x / 2 < Pow2(w - 1)
    ensures Not(w, x) % 2 == 1 - x % 2
    ensures Not(w, x) / 2 == Not(w - 1, x / 2)
  {
  }

  lemma {:induction false} XorZero(x: nat, y: nat)
    ensures Xor(x, y) == 0 <==> x == y
    decreases x + y
  {
    if x != 0 || y != 0 {
      XorZero(x / 2, y / 2);
    }
  }

  /** Xor with the same key twice is the identity. */
  lemma {:induction false} XorInvolution(x: nat, k: nat)
    ensures Xor(Xor(x, k), k) == x
    decreases x + k
  {
    if x != 0 || k != 0 {
      XorInvolution(x / 2, k / 2);
      var t := Xor(x, k);
      assert t / 2 == Xor(x / 2, k / 2) && t % 2 == (if x % 2 != k % 2 then 1 else 0);
      if t == 0 && k == 0 {
      } else {
        assert Xor(t, k) == 2 * Xor(t / 2, k / 2) + (if t % 2 != k % 2 then 1 else 0);
      }
    }
  }

  lemma {:induction false} XorCommutes(x: nat, y: nat)
    ensures Xor(x, y) == Xor(y, x)
    decreases x + y
  {
    if x != 0 || y != 0 {
      XorCommutes(x / 2, y / 2);
    }
  }

  /** A value and its complement differ in every one of the w bits. */
  lemma {:induction false} XorNot(w: nat, x: nat)
    requires x < Pow2(w)
    ensures Xor(x, Not(w, x)) == Pow2(w) - 1
    decreases w
  {
    if w > 0 {
      NotBits(w, x);
      XorNot(w - 1, x / 2);
    }
  }

  /** Xor with k leaves x unchanged only for the zero key. */
  lemma {:induction false} XorFixed(x: nat, k: nat)
    ensures Xor(x, k) == x <==> k == 0
    decreases x + k
  {
    if x != 0 || k != 0 {
      XorFixed(x / 2, k / 2);
    }
  }

  /** x & y never exceeds x. */
  lemma {:induction false} AndBelow(x: nat, y: nat)
    ensures And(x, y) <= x
    decreases x + y
  {
    if x != 0 || y != 0 {
      AndBelow(x / 2, y / 2);
    }
  }

  lemma {:induction false} AndZero(x: nat)
    ensures And(x, 0) == 0
    decreases x
  {
    if x != 0 {
      AndZero(x / 2);
    }
  }

  /** The residue modulo 2p from the residue of x / 2 modulo p. */
  lemma ModDouble(x: nat, p: nat)
    requires p > 0
    ensures x % (2 * p) == 2 * ((x / 2) % p) + x % 2
  {
    var q, r := (x / 2) / p, (x / 2) % p;
    assert x / 2 == q * p + r;
    assert x == 2 * (q * p) + 2 * r + x % 2;
    assert 2 * (q * p) == q * (2 * p);
    ModUnique(x, q, 2 * r + x % 2, 2 * p);
  }

  /** Peeling the low bit off a mask 2p - 1 leaves the mask p - 1. */
  lemma AndOddMask(x: nat, p: nat)
    requires p >= 1
    ensures And(x, 2 * p - 1) == 2 * And(x / 2, p - 1) + x % 2
  {
    var m := 2 * p - 1;
    assert m / 2 == p - 1 && m % 2 == 1;
  }

  /** The inductive step of `AndLowMask`: from the low bits of x / 2 to those of x. */
  lemma AndLowMaskStep(x: nat, p: nat)
    requires p >= 1
    requires And(x / 2, p - 1) == (x / 2) % p
    ensures And(x, 2 * p - 1) == x % (2 * p)
  {
    AndOddMask(x, p);
    ModDouble(x, p);
  }

  /** Masking with 2^k - 1 keeps the low k bits: x & (2^k - 1) == x % 2^k. */
  lemma {:induction false} AndLowMask(x: nat, k: nat)
    ensures And(x, Pow2(k) - 1) == x % Pow2(k)
    decreases k
  {
    if k == 0 {
      AndZero(x);
    } else {
      var p := Pow2(k - 1);
      AndLowMask(x / 2, k - 1);
      AndLowMaskStep(x, p);
      var m := Pow2(k);
      assert m == 2 * p;
    }
  }

  /** Over the integers: x + y == (x ^ y) + 2 * (x & y). */
  lemma {:induction false} AddXorAnd(x: nat, y: nat)
    ensures x + y == Xor(x, y) + 2 * And(x, y)
    decreases x + y
  {
    if x != 0 || y != 0 {
      AddXorAnd(x / 2, y / 2);
    }
  }

  /** Over the integers, for `w`-bit x and y: x - y == (x ^ y) - 2 * (~x & y). */
  lemma {:induction false} SubXorAndNot(w: nat, x: nat, y: nat)
    requires x < Pow2(w) && y < Pow2(w)
    ensures x - y == Xor(x, y) - 2 * And(Not(w, x), y)
    decreases w
  {
    if w > 0 {
      NotBits(w, x);
      SubXorAndNot(w - 1, x / 2, y / 2);
      var n := Not(w, x);
      if n == 0 && y == 0 {
      } else {
        assert And(n, y) == 2 * And(n / 2, y / 2) + (if n % 2 == 1 && y % 2 == 1 then 1 else 0);
      }
    }
  }

  /** De Morgan: ~(~x | ~y) == x & y for `w`-bit x and y. */
  lemma {:induction false} AndDeMorgan(w: nat, x: nat, y: nat)
    requires x < Pow2(w) && y < Pow2(w)
    ensures Or(Not(w, x), Not(w, y)) < Pow2(w)
    ensures Not(w, Or(Not(w, x), Not(w, y))) == And(x, y)
    decreases w
  {
    BitwiseBound(w, Not(w, x), Not(w, y));
    if w > 0 {
      var a, b := Not(w, x), Not(w, y);
      NotBits(w, x);
      NotBits(w, y);
      AndDeMorgan(w - 1, x / 2, y / 2);
      if a == 0 && b == 0 {
        assert x == Pow2(w) - 1 && y == Pow2(w) - 1;
        assert And(x, y) == 2 * And(x / 2, y / 2) + 1;
      } else {
        var o := Or(a, b);
        assert o == 2 * Or(a / 2, b / 2) + (if a % 2 == 1 || b % 2 == 1 then 1 else 0);
        NotBits(w, o);
      }
    }
  }

  /** De Morgan: ~(~x & ~y) == x | y for `w`-bit x and y. */
  lemma {:induction false} OrDeMorgan(w: nat, x: nat, y: nat)
    requires x < Pow2(w) && y < Pow2(w)
    ensures And(Not(w, x), Not(w, y)) < Pow2(w)
    ensures Not(w, And(Not(w, x), Not(w, y))) == Or(x, y)
    decreases w
  {
    BitwiseBound(w, Not(w, x), Not(w, y));
    if w > 0 {
      var a, b := Not(w, x), Not(w, y);
      NotBits(w, x);
      NotBits(w, y);
      OrDeMorgan(w - 1, x / 2, y / 2);
      if a == 0 && b == 0 {
        assert x == Pow2(w) - 1 && y == Pow2(w) - 1;
        assert Or(x, y) == 2 * Or(x / 2, y / 2) + 1;
      } else {
        var n := And(a, b);
        assert n == 2 * And(a / 2, b / 2) + (if a % 2 == 1 && b % 2 == 1 then 1 else 0);
        NotBits(w, n);
      }
    }
  }

  lemma {:induction false} MulAtLeast(k: int, m: int)
    requires k >= 1 && m > 0
    ensures k * m >= m
    decreases k
  {
    if k > 1 {
      MulAtLeast(k - 1, m);
      assert k * m == (k - 1) * m + m;
    }
  }

  /** The remainder is determined by any quotient-remainder decomposition. */
  lemma ModUnique(x: int, q: int, r: int, m: int)
    requires m > 0 && 0 <= r < m && x == q * m + r
    ensures x % m == r
  {
    var q0, r0 := x / m, x % m;
    assert x == q0 * m + r0;
    assert (q - q0) * m == r0 - r;
    if q > q0 {
      MulAtLeast(q - q0, m);
    } else if q < q0 {
      MulAtLeast(q0 - q, m);
    }
  }

  lemma ModAddLeft(a: int, b: int, m: int)
    requires m > 0
    ensures (a % m + b) % m == (a + b) % m
  {
    var q, r := (a + b) / m, (a + b) % m;
    assert a == (a / m) * m + a % m;
    assert a % m + b == (q - a / m) * m + r;
    ModUnique(a % m + b, q - a / m, r, m);
  }

  lemma ModSubRight(a: int, b: int, m: int)
    requires m > 0
    ensures (a - b % m) % m == (a - b) % m
  {
    var q, r := (a - b) / m, (a - b) % m;
    assert a - b == q * m + r;
    assert b == (b / m) * m + b % m;
    assert a - b % m == (q + b / m) * m + r;
    ModUnique(a - b % m, q + b / m, r, m);
  }

  /** Adding a value below the modulus fixes a residue only when it is zero. */
  lemma SumModFixed(d: int, s: int, m: int)
    requires 0 <= d < m && 0 <= s < m
    ensures (d + s) % m == s <==> d == 0
  {
    if d + s < m {
      ModUnique(d + s, 0, d + s, m);
    } else {
      ModUnique(d + s, 1, d + s - m, m);
    }
  }

  /** Doubling modulo m fixes a residue only when it is zero. */
  lemma DoubleModFixed(x: int, m: int)
    requires 0 <= x < m
    ensures (2 * x) % m == x <==> x == 0
  {
    if 2 * x < m {
      ModUnique(2 * x, 0, 2 * x, m);
    } else {
      ModUnique(2 * x, 1, 2 * x - m, m);
    }
  }

  /** `add_mba(x, y)`: (x ^ y) + ((x & y) << 1) is wrapping addition. */
  function AddMba(w: nat, x: nat, y: nat): (r: nat)
    requires x < Pow2(w) && y < Pow2(w)
    ensures r == (x + y) % Pow2(w)
  {
    AddXorAnd(x, y);
    ModAddLeft(2 * And(x, y), Xor(x, y), Pow2(w));
    (Xor(x, y) + Shl1(w, And(x, y))) % Pow2(w)
  }

  /** `sub_mba(x, y)`: (x ^ y) - ((~x & y) << 1) is wrapping subtraction. */
  function SubMba(w: nat, x: nat, y: nat): (r: nat)
    requires x < Pow2(w) && y < Pow2(w)
    ensures r == (x - y) % Pow2(w)
  {
    SubXorAndNot(w, x, y);
    ModSubRight(Xor(x, y), 2 * And(Not(w, x), y), Pow2(w));
    (Xor(x, y) - Shl1(w, And(Not(w, x), y))) % Pow2(w)
  }

  /** sub_mba undoes add_mba with the same key, and conversely. */
  lemma AddSubCancel(w: nat, a: nat, k: nat)
    requires a < Pow2(w) && k < Pow2(w)
    ensures SubMba(w, AddMba(w, a, k), k) == a
    ensures AddMba(w, SubMba(w, a, k), k) == a
  {
    var m := Pow2(w);
    ModAddLeft(a + k, 0 - k as int, m);
    ModAddLeft(a - k, k, m);
    ModUnique(a, 0, a, m);
  }

  /**
   * `mul2_mba(x)` as written: (x ^ (x << 1)) + (x << 1).  Its comment
   * promises x * 2, but that would need x ^ (x << 1) to vanish.
   */
  function Mul2MbaAsWritten(w: nat, x: nat): (r: nat)
    requires x < Pow2(w)
    ensures r < Pow2(w)
  {
    (Xor(x, Shl1(w, x)) + Shl1(w, x)) % Pow2(w)
  }

  /** The as-written doubling is right for zero and for nothing else. */
  lemma Mul2MbaAsWrittenOnlyZero(w: nat, x: nat)
    requires x < Pow2(w)
    ensures Mul2MbaAsWritten(w, x) == (2 * x) % Pow2(w) <==> x == 0
  {
    var s := Shl1(w, x);
    BitwiseBound(w, x, s);
    XorZero(x, s);
    SumModFixed(Xor(x, s), s, Pow2(w));
    DoubleModFixed(x, Pow2(w));
  }

  /** On an 8-bit type, the as-written `mul2_mba(1)` is 5. */
  lemma Mul2MbaAsWrittenOfOne()
    ensures Mul2MbaAsWritten(8, 1) == 5
    ensures (2 * 1) % Pow2(8) == 2
  {
    assert Pow2(8) == 256;
    assert Shl1(8, 1) == 2;
    assert Xor(1, 2) == 3;
  }

  /** `mul2_mba` corrected: x + x through the addition identity. */
  function Mul2Mba(w: nat, x: nat): (r: nat)
    requires x < Pow2(w)
    ensures r == (2 * x) % Pow2(w)
  {
    AddMba(w, x, x)
  }

  /** `neg_mba(x)`: add_mba(~x, 1) is the wrapping negation. */
  function NegMba(w: nat, x: nat): (r: nat)
    requires 0 < w && x < Pow2(w)
    ensures r == (0 - x) % Pow2(w)
  {
    var m := Pow2(w);
    if x == 0 then
      ModUnique(m, 1, 0, m);
      AddMba(w, Not(w, x), 1)
    else
      ModUnique(m - x, 0, m - x, m);
      ModUnique(0 - x, -1, m - x, m);
      AddMba(w, Not(w, x), 1)
  }

  /** `and_mba(x, y)`: ~(~x | ~y) is bitwise and. */
  function AndMba(w: nat, x: nat, y: nat): (r: nat)
    requires x < Pow2(w) && y < Pow2(w)
    ensures r == And(x, y)
  {
    AndDeMorgan(w, x, y);
    Not(w, Or(Not(w, x), Not(w, y)))
  }

  /** `or_mba(x, y)`: ~(~x & ~y) is bitwise or. */
  function OrMba(w: nat, x: nat, y: nat): (r: nat)
    requires x < Pow2(w) && y < Pow2(w)
    ensures r == Or(x, y)
  {
    OrDeMorgan(w, x, y);
    Not(w, And(Not(w, x), Not(w, y)))
  }
}
