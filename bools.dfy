/**
 * The `bool_obfuscation` namespace: the always-true probe
 * `obfuscated_true`, its negation, the `obfuscate_bool` identity layer, and
 * the three-byte encoding of `obfuscated_bool`.  The stack address, the
 * time-stamp counter and every random draw are parameters.
 */
module Bools {
  import opened Words
  import Mba

  /** What one call of `obfuscated_true` reads from the machine. */
  datatype Probe = Probe(sp: bv64, tsc: bv64)

  lemma ComplementSum(h: bv32)
    ensures h + !h == 0xFFFF_FFFF
  {
  }

  lemma OrComplement(x: bv64)
    ensures x | !x == 0xFFFF_FFFF_FFFF_FFFF
  {
  }

  /** The stack hash `h` of `obfuscated_true`: xor with the seed, multiply, fold. */
  function StackHash(p: Probe, n: bv32): bv32 {
    var seed := (p.sp & 0xFF) as bv32 + n;
    var h := (p.sp & 0xFFFF_FFFF) as bv32 ^ seed;
    var h' := h * 0x45D_9F3B;
    h' ^ (h' >> 16)
  }

  /** The dual-path byte `((sp & 0xFF) * 7 + 3) & 0xFF`. */
  function DualPath(sp: bv64): bv32 {
    (((sp & 0xFF) as bv32) * 7 + 3) & 0xFF
  }

  /**
   * `obfuscated_true<N>()`: three checks that hold for any stack address and
   * tick count; the time-stamp check is compiled only on Windows.
   */
  function ObfuscatedTrue(n: bv32, p: Probe, win32: bool): (r: bool)
    ensures r
  {
    var h := StackHash(p, n);
    ComplementSum(h);
    var complementSum := h + !h;
    var result := complementSum == 0xFFFF_FFFF;
    var resultA := DualPath(p.sp);
    var resultB := DualPath(p.sp);
    var result' := result && resultA == resultB;
    var mixed := p.tsc ^ p.sp;
    OrComplement(mixed);
    if win32 then result' && (mixed | !mixed) == 0xFFFF_FFFF_FFFF_FFFF else result'
  }

  /** `obfuscated_false<N>()` is the negation of the probe. */
  function ObfuscatedFalse(n: bv32, p: Probe, win32: bool): (r: bool)
    ensures !r
  {
    !ObfuscatedTrue(n, p, win32)
  }

  /**
   * `obfuscate_bool<N>(value)`: ((value && true) || (false && !value)) ^ false,
   * with the constants drawn from two probes.
   */
  function ObfuscateBool(value: bool, n: bv32, pTrue: Probe, pFalse: Probe, win32: bool): (r: bool)
    ensures r == value
  {
    var trueVal := ObfuscatedTrue(n, pTrue, win32);
    var falseVal := ObfuscatedFalse(n + 1, pFalse, win32);
    var layer1 := value && trueVal;
    var layer2 := falseVal && !value;
    (layer1 || layer2) != falseVal
  }

  // ---------------------------------------------------------------------
  // obfuscated_bool
  // ---------------------------------------------------------------------

  /** A `uint8_t`. */
  type byte = x: nat | x < 256

  function XorB(a: byte, b: byte): byte {
    assert Mba.Pow2(8) == 256;
    Mba.BitwiseBound(8, a, b);
    Mba.Xor(a, b)
  }

  /** `static_cast<uint8_t>(~a)`. */
  function NotB(a: byte): byte { 255 - a }

  /** Byte addition and subtraction, wrapping modulo 256. */
  function AddB(a: byte, b: byte): byte { (a + b) % 256 }
  function SubB(a: byte, b: byte): byte { (a - b) % 256 }

  /** The three template keys, each `CW_RAND_CT(1, 255)` as a `uint8_t`. */
  datatype BoolKeys = BoolKeys(k1: byte, k2: byte, k3: byte)

  /** The magic bytes of the true and false patterns. */
  const TRUE_MAGIC: byte := 0xAA
  const FALSE_MAGIC: byte := 0x55

  function TruePattern(k: BoolKeys): byte { XorB(XorB(k.k1, TRUE_MAGIC), k.k2) }
  function FalsePattern(k: BoolKeys): byte { XorB(XorB(k.k1, FALSE_MAGIC), k.k3) }
  function VerifyMask(k: BoolKeys): byte { XorB(k.k2, k.k3) }

  /** The three encoded bytes. */
  datatype Encoded = Encoded(primary: byte, secondary: byte, tertiary: byte)

  /** The mask that keeps the high nibble of the noise byte. */
  const NOISE_MASK: nat := 0xF0

  /** `static_cast<uint8_t>(CW_RANDOM_RT() & 0xF0)`. */
  function Noise(entropy: nat): byte {
    Mba.AndBelow(entropy % 256, NOISE_MASK);
    Mba.And(entropy % 256, NOISE_MASK)
  }

  /** `encode(value)` as written. */
  function Encode(value: bool, k: BoolKeys, entropy: nat): Encoded {
    var noise := Noise(entropy);
    if value then
      var p := XorB(TruePattern(k), noise);
      var s := XorB(NotB(p), k.k1);
      Encoded(p, s, XorB(AddB(p, s), VerifyMask(k)))
    else
      var p := XorB(FalsePattern(k), noise);
      var s := XorB(NotB(p), k.k2);
      Encoded(p, s, XorB(SubB(p, s), VerifyMask(k)))
  }

  /** The tertiary byte a true encoding with this primary byte carries. */
  function ExpectedTrue(k: BoolKeys, primary: byte): byte {
    XorB(AddB(primary, XorB(NotB(primary), k.k1)), VerifyMask(k))
  }

  /** The width of `int`. */
  const INT_BITS: nat := 32

  /**
   * `decode()`: the tertiary byte is checked against the true pattern, and
   * the outcome is passed through `sub_mba` on `int`.
   */
  function Decode(e: Encoded, k: BoolKeys): (r: bool)
    ensures r <==> e.tertiary == ExpectedTrue(k, e.primary)
  {
    var isTrue := e.tertiary == ExpectedTrue(k, e.primary);
    var trueIndicator := if isTrue then 1 else 0;
    assert Mba.Pow2(2) == 4;
    Mba.Pow2Monotone(2, INT_BITS);
    Mba.ModUnique(1, 0, 1, Mba.Pow2(INT_BITS));
    Mba.ModUnique(trueIndicator, 0, trueIndicator, Mba.Pow2(INT_BITS));
    var one := Mba.SubMba(INT_BITS, 2, 1);
    Mba.SubMba(INT_BITS, trueIndicator, 0) == one
  }

  /** A true encoding decodes as true for every key and every noise. */
  lemma DecodeTrue(k: BoolKeys, entropy: nat)
    ensures Decode(Encode(true, k, entropy), k)
  {
  }

  /** Xor with the check mask is injective. */
  lemma XorBCancel(a: byte, b: byte, m: byte)
    ensures XorB(a, m) == XorB(b, m) <==> a == b
  {
    Mba.XorInvolution(a, m);
    Mba.XorInvolution(b, m);
  }

  /** p - s2 and p + s1 agree modulo 256 exactly when s1 + s2 wraps to 0. */
  lemma SubAddAgree(p: byte, s1: byte, s2: byte)
    ensures SubB(p, s2) == AddB(p, s1) <==> AddB(s1, s2) == 0
  {
  }

  /** A false encoding decodes as true exactly when (~p ^ Key1) + (~p ^ Key2) wraps to 0. */
  lemma DecodeFalse(k: BoolKeys, entropy: nat)
    ensures var p := XorB(FalsePattern(k), Noise(entropy));
      Decode(Encode(false, k, entropy), k) <==> AddB(XorB(NotB(p), k.k1), XorB(NotB(p), k.k2)) == 0
  {
    var p := XorB(FalsePattern(k), Noise(entropy));
    var s1, s2 := XorB(NotB(p), k.k1), XorB(NotB(p), k.k2);
    XorBCancel(SubB(p, s2), AddB(p, s1), VerifyMask(k));
    SubAddAgree(p, s1, s2);
  }

  /** For every first key there is a third key that makes xor with it cancel the pattern to ~Key1. */
  function CollidingKey3(key: byte): byte {
    XorB(XorB(key, FALSE_MAGIC), NotB(key))
  }

  /** Xor with a twice: Xor(a, Xor(a, b)) == b. */
  lemma XorBCancelLeft(a: byte, b: byte)
    ensures XorB(a, XorB(a, b)) == b
  {
    Mba.XorCommutes(a, b);
    Mba.XorCommutes(a, XorB(b, a));
    Mba.XorInvolution(b, a);
  }

  /** The colliding third key is a valid template key: it is never zero. */
  lemma CollidingKey3NonZero(key: byte)
    ensures CollidingKey3(key) != 0
  {
    var a, nk := XorB(key, FALSE_MAGIC), NotB(key);
    Mba.XorZero(a, nk);
    if a == nk {
      // key ^ 0x55 == ~key would give key ^ ~key == 0x55, yet it is 0xFF
      XorBCancelLeft(key, FALSE_MAGIC);
      assert Mba.Pow2(8) == 256;
      Mba.XorNot(8, key);
      assert false;
    }
  }

  /** With Key1 == Key2 and the colliding third key, the false pattern is ~Key1. */
  lemma CollidingPattern(key: byte)
    ensures FalsePattern(BoolKeys(key, key, CollidingKey3(key))) == NotB(key)
  {
    XorBCancelLeft(XorB(key, FALSE_MAGIC), NotB(key));
  }

  /** A false value reads back as true when Key1 == Key2 and the stored primary byte is ~Key1. */
  lemma FalseDecodesTrueWhen(k: BoolKeys, entropy: nat)
    requires k.k1 == k.k2 && XorB(FalsePattern(k), Noise(entropy)) == NotB(k.k1)
    ensures Decode(Encode(false, k, entropy), k)
  {
    var p := XorB(FalsePattern(k), Noise(entropy));
    assert NotB(p) == k.k1;
    Mba.XorZero(k.k1, k.k1);
    assert XorB(NotB(p), k.k1) == 0 && XorB(NotB(p), k.k2) == 0;
    DecodeFalse(k, entropy);
  }

  /** The zero entropy word leaves no noise. */
  lemma NoiseOfZero()
    ensures Noise(0) == 0
  {
    Mba.AndBelow(0, NOISE_MASK);
  }

  /** With Key1 == Key2 and the colliding third key, a false value stored with zero noise reads back as true. */
  lemma FalseDecodesTrue(key: byte)
    ensures CollidingKey3(key) != 0
    ensures var k := BoolKeys(key, key, CollidingKey3(key));
      Decode(Encode(false, k, 0), k)
  {
    CollidingKey3NonZero(key);
    var k := BoolKeys(key, key, CollidingKey3(key));
    NoiseOfZero();
    Mba.XorFixed(FalsePattern(k), 0);
    CollidingPattern(key);
    FalseDecodesTrueWhen(k, 0);
  }

  /**
   * `encode` corrected: a false value stores the complement of the byte a
   * true encoding would carry, so the check in `decode` can never match it.
   */
  function EncodeFixed(value: bool, k: BoolKeys, entropy: nat): Encoded {
    if value then Encode(true, k, entropy)
    else
      var p := XorB(FalsePattern(k), Noise(entropy));
      var s := XorB(NotB(p), k.k2);
      Encoded(p, s, NotB(ExpectedTrue(k, p)))
  }

  lemma DecodeEncodeFixed(value: bool, k: BoolKeys, entropy: nat)
    ensures Decode(EncodeFixed(value, k, entropy), k) == value
  {
    if value {
      DecodeTrue(k, entropy);
    } else {
      var e := EncodeFixed(false, k, entropy);
      assert e.tertiary == NotB(ExpectedTrue(k, e.primary));
      DecodeComplement(e, k);
    }
  }

  /** A tertiary byte that is the complement of the expected one never decodes as true. */
  lemma DecodeComplement(e: Encoded, k: BoolKeys)
    requires e.tertiary == NotB(ExpectedTrue(k, e.primary))
    ensures !Decode(e, k)
  {
    NotBDiffers(ExpectedTrue(k, e.primary));
  }

  lemma NotBDiffers(x: byte)
    ensures NotB(x) != x
  {
  }

  /** An `obfuscated_bool<Key1, Key2, Key3>`. */
  class ObfuscatedBool {
    const keys: BoolKeys
    var primary: byte
    var secondary: byte
    var tertiary: byte
    var accessCount: nat

    function Bytes(): Encoded
      reads this`primary, this`secondary, this`tertiary
    {
      Encoded(primary, secondary, tertiary)
    }

    /** `obfuscated_bool()` is the case `value == false`. */
    constructor (keys: BoolKeys, value: bool, entropy: nat)
      ensures this.keys == keys && accessCount == 0
      ensures Bytes() == Encode(value, keys, entropy)
    {
      this.keys := keys;
      accessCount := 0;
      new;
      Set(value, entropy);
    }

    /** `set(value)`, that is `encode(value)` with fresh noise. */
    method Set(value: bool, entropy: nat)
      modifies this`primary, this`secondary, this`tertiary
      ensures Bytes() == Encode(value, keys, entropy)
    {
      var noise := Noise(entropy);
      if value {
        primary := XorB(TruePattern(keys), noise);
        secondary := XorB(NotB(primary), keys.k1);
        tertiary := XorB(AddB(primary, secondary), VerifyMask(keys));
      } else {
        primary := XorB(FalsePattern(keys), noise);
        secondary := XorB(NotB(primary), keys.k2);
        tertiary := XorB(SubB(primary, secondary), VerifyMask(keys));
      }
    }

    /**
     * `get()`: counts the access (`check` on every 500th increment runs the
     * inline debugger check), decodes, and passes the result through
     * `obfuscate_bool`.
     */
    method Get(n: bv32, pTrue: Probe, pFalse: Probe, win32: bool) returns (r: bool, check: bool)
      requires accessCount < COUNT_MOD
      modifies this`accessCount
      ensures r == Decode(Bytes(), keys)
      ensures accessCount == NextCount(old(accessCount))
      ensures check <==> accessCount % 500 == 0
    {
      var count := NextCount(accessCount);
      accessCount := count;
      check := count % 500 == 0;
      var raw := Decode(Bytes(), keys);
      r := ObfuscateBool(raw, n, pTrue, pFalse, win32);
    }
  }
}
