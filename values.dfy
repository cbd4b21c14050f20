/**
 * Value containers of the value-obfuscation layer, integral types only:
 * `obfuscated_value`, `mba_obfuscated`, `constants::encrypted_constant`,
 * `constants::runtime_constant`, and the `CW_RAND_CT`/`CW_RAND_RT` range
 * macros that pick their keys.  Values are `w`-bit representations as in
 * module Mba; every random draw is a parameter.
 */
module Values {
  import opened Mba
  import opened Words

  /** `CW_RAND_CT(min, max)` and `CW_RAND_RT(min, max)`: min + r % (max - min + 1). */
  function RandRange(min: int, max: int, r: nat): (v: int)
    requires min <= max
    ensures min <= v <= max
  {
    min + r % (max - min + 1)
  }

  /** Every value of the range is drawn by some random word. */
  lemma RandRangeCovers(min: int, max: int, v: int)
    requires min <= v <= max
    ensures RandRange(min, max, v - min) == v
  {
    ModUnique(v - min, 0, v - min, max - min + 1);
  }

  /** `static_cast<T>(CW_RANDOM_RT())`: the low `w` bits of a random word. */
  function Truncate(w: nat, entropy: nat): (r: nat)
    ensures r < Pow2(w)
  {
    entropy % Pow2(w)
  }

  // ---------------------------------------------------------------------
  // obfuscated_value (integral path)
  // ---------------------------------------------------------------------

  /** `xor_key & 0xFF`, computed as the residue modulo 256 (see LowByteIsMask). */
  function LowByte(x: nat): (r: nat)
    ensures r <= x && r < 256
  {
    x % 256
  }

  lemma LowByteIsMask(x: nat)
    ensures LowByte(x) == And(x, 0xFF)
  {
    AndLowMask(x, 8);
    assert Pow2(8) == 256;
  }

  /** `set`: add the add key, xor the xor key, add the low byte of the xor key. */
  function EncodeValue(w: nat, val: nat, xorKey: nat, addKey: nat): (r: nat)
    requires val < Pow2(w) && xorKey < Pow2(w) && addKey < Pow2(w)
    ensures r < Pow2(w)
  {
    var t := AddMba(w, val, addKey);
    BitwiseBound(w, t, xorKey);
    AddMba(w, Xor(t, xorKey), LowByte(xorKey))
  }

  /** `get`: the steps of `set` undone in reverse order. */
  function DecodeValue(w: nat, stored: nat, xorKey: nat, addKey: nat): (r: nat)
    requires stored < Pow2(w) && xorKey < Pow2(w) && addKey < Pow2(w)
    ensures r < Pow2(w)
  {
    var t := SubMba(w, stored, LowByte(xorKey));
    BitwiseBound(w, t, xorKey);
    SubMba(w, Xor(t, xorKey), addKey)
  }

  /** The encoding is a bijection on `w`-bit values for every pair of keys. */
  lemma ValueRoundTrip(w: nat, v: nat, xorKey: nat, addKey: nat)
    requires v < Pow2(w) && xorKey < Pow2(w) && addKey < Pow2(w)
    ensures DecodeValue(w, EncodeValue(w, v, xorKey, addKey), xorKey, addKey) == v
    ensures EncodeValue(w, DecodeValue(w, v, xorKey, addKey), xorKey, addKey) == v
  {
    var low := LowByte(xorKey);
    var t := AddMba(w, v, addKey);
    BitwiseBound(w, t, xorKey);
    AddSubCancel(w, Xor(t, xorKey), low);
    XorInvolution(t, xorKey);
    AddSubCancel(w, v, addKey);
    var u := SubMba(w, v, low);
    BitwiseBound(w, u, xorKey);
    var s := Xor(u, xorKey);
    AddSubCancel(w, s, addKey);
    XorInvolution(u, xorKey);
    AddSubCancel(w, v, low);
  }

  /**
   * An `obfuscated_value<T>` for an integral `T` of `w` bits.  Only the
   * encoded `value` is stored; `ValueRoundTrip` is what makes `Get` return
   * the value last passed to `Set`.
   */
  class ObfuscatedValue {
    const w: nat
    const xorKey: nat
    const addKey: nat
    var value: nat
    var accessCount: nat

    ghost predicate Valid()
      reads this`value, this`accessCount
    {
      xorKey < Pow2(w) && addKey < Pow2(w) && value < Pow2(w) && accessCount < COUNT_MOD
    }

    /** Both keys are truncated random words; `obfuscated_value()` is the case `val == 0`. */
    constructor (w: nat, val: nat, xorEntropy: nat, addEntropy: nat)
      requires val < Pow2(w)
      ensures Valid() && this.w == w && accessCount == 0
      ensures xorKey == Truncate(w, xorEntropy) && addKey == Truncate(w, addEntropy)
      ensures value == EncodeValue(w, val, xorKey, addKey)
    {
      this.w := w;
      xorKey := Truncate(w, xorEntropy);
      addKey := Truncate(w, addEntropy);
      accessCount := 0;
      value := 0;
      new;
      Set(val);
    }

    method Set(val: nat)
      requires Valid() && val < Pow2(w)
      modifies this`value
      ensures Valid() && value == EncodeValue(w, val, xorKey, addKey)
    {
      var temp := AddMba(w, val, addKey);
      BitwiseBound(w, temp, xorKey);
      temp := Xor(temp, xorKey);
      value := AddMba(w, temp, LowByte(xorKey));
    }

    /**
     * `get`: counts the access, then decodes.  `check` says whether this
     * access is one on which the inline debugger check runs (every 1000th
     * increment).
     */
    method Get() returns (v: nat, check: bool)
      requires Valid()
      modifies this`accessCount
      ensures Valid() && v == DecodeValue(w, value, xorKey, addKey)
      ensures accessCount == NextCount(old(accessCount))
      ensures check <==> accessCount % 1000 == 0
    {
      var count := NextCount(accessCount);
      accessCount := count;
      check := count % 1000 == 0;
      var temp := SubMba(w, value, LowByte(xorKey));
      BitwiseBound(w, temp, xorKey);
      temp := Xor(temp, xorKey);
      v := SubMba(w, temp, addKey);
    }
  }

  // ---------------------------------------------------------------------
  // mba_obfuscated
  // ---------------------------------------------------------------------

  /** `set`: encoded = add_mba(val, key1) ^ key2. */
  function EncodeMba(w: nat, val: nat, key1: nat, key2: nat): (r: nat)
    requires val < Pow2(w) && key1 < Pow2(w) && key2 < Pow2(w)
    ensures r < Pow2(w)
  {
    BitwiseBound(w, AddMba(w, val, key1), key2);
    Xor(AddMba(w, val, key1), key2)
  }

  /** `get`: sub_mba(encoded ^ key2, key1). */
  function DecodeMba(w: nat, encoded: nat, key1: nat, key2: nat): (r: nat)
    requires encoded < Pow2(w) && key1 < Pow2(w) && key2 < Pow2(w)
    ensures r < Pow2(w)
  {
    BitwiseBound(w, encoded, key2);
    SubMba(w, Xor(encoded, key2), key1)
  }

  lemma MbaRoundTrip(w: nat, v: nat, key1: nat, key2: nat)
    requires v < Pow2(w) && key1 < Pow2(w) && key2 < Pow2(w)
    ensures DecodeMba(w, EncodeMba(w, v, key1, key2), key1, key2) == v
    ensures EncodeMba(w, DecodeMba(w, v, key1, key2), key1, key2) == v
  {
    var t := AddMba(w, v, key1);
    XorInvolution(t, key2);
    AddSubCancel(w, v, key1);
    BitwiseBound(w, v, key2);
    var u := Xor(v, key2);
    AddSubCancel(w, u, key1);
    XorInvolution(v, key2);
  }

  /** An `mba_obfuscated<T>` for an integral `T` of `w` bits. */
  class MbaObfuscated {
    const w: nat
    const key1: nat
    const key2: nat
    var encoded: nat
    ghost var plain: nat

    ghost predicate KeysValid() {
      key1 < Pow2(w) && key2 < Pow2(w)
    }

    ghost predicate Valid()
      reads this`encoded, this`plain
    {
      KeysValid() && plain < Pow2(w) && encoded == EncodeMba(w, plain, key1, key2)
    }

    /** `mba_obfuscated()` is the case `val == 0`. */
    constructor (w: nat, val: nat, entropy1: nat, entropy2: nat)
      requires val < Pow2(w)
      ensures Valid()
      ensures this.w == w && plain == val
      ensures key1 == Truncate(w, entropy1) && key2 == Truncate(w, entropy2)
    {
      this.w := w;
      key1 := Truncate(w, entropy1);
      key2 := Truncate(w, entropy2);
      new;
      Set(val);
    }

    method Set(val: nat)
      requires KeysValid() && val < Pow2(w)
      modifies this`encoded, this`plain
      ensures Valid() && plain == val
    {
      var temp := AddMba(w, val, key1);
      BitwiseBound(w, temp, key2);
      encoded := Xor(temp, key2);
      plain := val;
    }

    method Get() returns (v: nat)
      requires Valid()
      ensures v == plain
    {
      BitwiseBound(w, encoded, key2);
      var temp := Xor(encoded, key2);
      v := SubMba(w, temp, key1);
      MbaRoundTrip(w, plain, key1, key2);
    }
  }

  // ---------------------------------------------------------------------
  // constants
  // ---------------------------------------------------------------------

  /** The default key of `encrypted_constant`: `CW_RAND_CT(1, 255)` as a `uint8_t`. */
  function ConstantKey(r: nat): (key: nat)
    ensures 1 <= key <= 255
  {
    RandRange(1, 255, r)
  }

  /** `stored_encrypted = Value ^ Key`; a nonzero key always changes the stored bits. */
  function StoredEncrypted(w: nat, value: nat, key: nat): (r: nat)
    requires 8 <= w && value < Pow2(w) && 1 <= key <= 255
    ensures r < Pow2(w) && r != value
  {
    Pow2Monotone(8, w);
    assert Pow2(8) == 256;
    BitwiseBound(w, value, key);
    XorFixed(value, key);
    Xor(value, key)
  }

  /** `encrypted_constant::get`: stored ^ Key. */
  function ConstantGet(stored: nat, key: nat): nat {
    Xor(stored, key)
  }

  lemma ConstantRoundTrip(w: nat, value: nat, key: nat)
    requires 8 <= w && value < Pow2(w) && 1 <= key <= 255
    ensures ConstantGet(StoredEncrypted(w, value, key), key) == value
  {
    XorInvolution(value, key);
  }

  /** A `runtime_constant<T>` holds the xor-encrypted value and its key. */
  datatype RuntimeConstant = RuntimeConstant(encrypted: nat, key: nat)

  /** The constructor: a truncated random key, and the value xored with it. */
  function MakeRuntimeConstant(w: nat, value: nat, entropy: nat): (c: RuntimeConstant)
    requires value < Pow2(w)
    ensures c.key == Truncate(w, entropy)
    ensures c.encrypted < Pow2(w)
    ensures c.encrypted == value <==> c.key == 0
  {
    var key := Truncate(w, entropy);
    BitwiseBound(w, value, key);
    XorFixed(value, key);
    RuntimeConstant(Xor(value, key), key)
  }

  /** `runtime_constant::get`: encrypted ^ key. */
  function RuntimeGet(c: RuntimeConstant): nat {
    Xor(c.encrypted, c.key)
  }

  lemma RuntimeConstantRoundTrip(w: nat, value: nat, entropy: nat)
    requires value < Pow2(w)
    ensures RuntimeGet(MakeRuntimeConstant(w, value, entropy)) == value
  {
    XorInvolution(value, Truncate(w, entropy));
  }
}
