/**
 * `cloakwork::string_encrypt`: string literals kept XTEA-encrypted in the
 * image and decrypted in place on first use. `EncryptedString` and
 * `EncryptedWString` decrypt once and re-encrypt on destruction;
 * `LayeredEncryptedString` also rotates its key every ten accesses;
 * `StackEncryptedString` copies a decrypted string into a buffer that it
 * wipes on destruction.
 */
module Strings {
  import opened Words
  import opened Xtea
  import StackCipher
  import Hashing

  // ---------------------------------------------------------------------
  // encrypted_string<N, K0..K3>
  // ---------------------------------------------------------------------

  /**
   * A narrow string literal of `N` bytes (the terminating NUL included),
   * held as `Encrypted(plain, key)` until the first `get()`, as the
   * plaintext after it.
   */
  class EncryptedString {
    const key: Key128
    const data: array<bv8>
    var decrypted: bool
    ghost const plain: seq<bv8>

    /** The buffer holds the plaintext exactly when `decrypted` is set, the ciphertext otherwise. */
    ghost predicate Valid()
      reads this, data
    {
      data.Length == |plain| &&
      data[..] == (if decrypted then plain else Encrypted(plain, key))
    }

    /** The `constexpr` constructor: copy the literal, encrypt it under the compile-time key. */
    constructor (str: seq<bv8>, key: Key128)
      ensures Valid() && !decrypted
      ensures this.key == key && plain == str
      ensures data[..] == Encrypted(str, key)
      ensures fresh(data)
    {
      var buf := new bv8[|str|](i requires 0 <= i < |str| => str[i]);
      assert buf[..] == str;
      EncryptBuffer(buf, key);
      this.key := key;
      plain := str;
      data := buf;
      decrypted := false;
    }

    /** `get()`: decrypt in place on the first call; every call returns the plaintext buffer. */
    method Get() returns (r: array<bv8>)
      requires Valid()
      modifies this, data
      ensures Valid() && decrypted
      ensures r == data && r[..] == plain
      ensures old(decrypted) ==> unchanged(data)
    {
      if !decrypted {
        DecryptBuffer(data, key);
        BufferRoundTrip(plain, key);
        decrypted := true;
      }
      r := data;
    }

    /** The destructor: a decrypted buffer is encrypted again and the flag cleared. */
    method Destroy()
      requires Valid()
      modifies this, data
      ensures Valid() && !decrypted
      ensures data[..] == Encrypted(plain, key)
      ensures !old(decrypted) ==> unchanged(data)
    {
      if decrypted {
        EncryptBuffer(data, key);
        decrypted := false;
      }
    }
  }

  // ---------------------------------------------------------------------
  // layered_encrypted_string<N, K0..K3>
  // ---------------------------------------------------------------------

  /** The low 32 bits of a 64-bit word (`static_cast<uint32_t>`). */
  function Lo32(x: bv64): bv32 {
    (x & 0xFFFF_FFFF) as bv32
  }

  /**
   * `rekey()`: each compile-time key word xored with a 32-bit piece of the
   * runtime entropy — its low half, its high half, its product with the
   * golden-ratio constant and the product of its bits 16.. with the
   * SHA-256 constant 0x6A09E667 (64-bit products, truncated).
   */
  function Rekey(k: Key128, entropy: bv64): Key128 {
    [k[0] ^ Lo32(entropy),
     k[1] ^ Lo32(entropy >> 32),
     k[2] ^ Lo32(entropy * 0x9E37_79B9),
     k[3] ^ Lo32((entropy >> 16) * 0x6A09_E667)]
  }

  /** Whether the access with pre-increment count `count` re-keys: a positive multiple of 10. */
  predicate RekeyDue(count: nat) {
    count > 0 && count % 10 == 0
  }

  /**
   * The first ten accesses keep the key and the eleventh re-keys; after a
   * re-keying access the next nine do not re-key and the tenth does.
   */
  lemma RekeySchedule(count: nat, later: nat)
    ensures count < 10 ==> !RekeyDue(count)
    ensures RekeyDue(10)
    ensures RekeyDue(count) && count < later < count + 10 ==> !RekeyDue(later)
    ensures RekeyDue(count) ==> RekeyDue(count + 10)
  {
  }

  /**
   * A string encrypted under the compile-time key with the access counter
   * `access_count` and the key `current_key` it is currently encrypted
   * under.
   */
  class LayeredEncryptedString {
    const compileKey: Key128
    const data: array<bv8>
    var decrypted: bool
    var accessCount: nat
    var currentKey: Key128
    ghost const plain: seq<bv8>

    /** The buffer is the plaintext when decrypted, its encryption under the current key otherwise. */
    ghost predicate Valid()
      reads this, data
    {
      data.Length == |plain| && accessCount < COUNT_MOD &&
      data[..] == (if decrypted then plain else Encrypted(plain, currentKey))
    }

    /** The `constexpr` constructor: encrypted under the compile-time key, which is also the current one. */
    constructor (str: seq<bv8>, key: Key128)
      ensures Valid() && !decrypted && accessCount == 0
      ensures compileKey == key && currentKey == key && plain == str
      ensures data[..] == Encrypted(str, key)
      ensures fresh(data)
    {
      var buf := new bv8[|str|](i requires 0 <= i < |str| => str[i]);
      assert buf[..] == str;
      EncryptBuffer(buf, key);
      compileKey := key;
      currentKey := key;
      plain := str;
      data := buf;
      decrypted := false;
      accessCount := 0;
    }

    /**
     * `get()` as written: decrypt on first use; then, when the
     * pre-increment count is due, encrypt under the current key, re-key,
     * and decrypt under the NEW key. The buffer is then
     * `Decrypted(Encrypted(plain, old key), new key)`, not the plaintext.
     */
    method GetAsWritten(entropy: bv64) returns (r: array<bv8>)
      requires Valid()
      modifies this, data
      ensures decrypted && r == data
      ensures accessCount == NextCount(old(accessCount))
      ensures currentKey == if RekeyDue(old(accessCount)) then Rekey(compileKey, entropy) else old(currentKey)
      ensures r[..] == if RekeyDue(old(accessCount))
                       then Decrypted(Encrypted(plain, old(currentKey)), currentKey)
                       else plain
      ensures !RekeyDue(old(accessCount)) ==> Valid()
    {
      if !decrypted {
        DecryptBuffer(data, currentKey);
        BufferRoundTrip(plain, currentKey);
        decrypted := true;
      }
      var count := accessCount;
      accessCount := NextCount(accessCount);
      if RekeyDue(count) && decrypted {
        EncryptBuffer(data, currentKey);
        currentKey := Rekey(compileKey, entropy);
        DecryptBuffer(data, currentKey);
      }
      r := data;
    }

    /**
     * `get()` with the re-key moved before the re-encryption: the buffer
     * is encrypted and decrypted under the same new key, so the caller
     * always sees the plaintext and the key still rotates on schedule.
     */
    method Get(entropy: bv64) returns (r: array<bv8>)
      requires Valid()
      modifies this, data
      ensures Valid() && decrypted
      ensures r == data && r[..] == plain
      ensures accessCount == NextCount(old(accessCount))
      ensures currentKey == if RekeyDue(old(accessCount)) then Rekey(compileKey, entropy) else old(currentKey)
    {
      if !decrypted {
        DecryptBuffer(data, currentKey);
        BufferRoundTrip(plain, currentKey);
        decrypted := true;
      }
      var count := accessCount;
      accessCount := NextCount(accessCount);
      if RekeyDue(count) && decrypted {
        currentKey := Rekey(compileKey, entropy);
        EncryptBuffer(data, currentKey);
        DecryptBuffer(data, currentKey);
        BufferRoundTrip(plain, currentKey);
      }
      r := data;
    }

    /** The destructor: re-encrypt under the current key and clear the flag. */
    method Destroy()
      requires Valid()
      modifies this, data
      ensures Valid() && !decrypted
      ensures data[..] == Encrypted(plain, currentKey)
      ensures !old(decrypted) ==> unchanged(data)
    {
      if decrypted {
        EncryptBuffer(data, currentKey);
        decrypted := false;
      }
    }
  }

  /** Below one block, decrypting under `n` what was encrypted under `k` xors each byte with both key bytes. */
  lemma ShortRekeyIsDoubleMask(p: seq<bv8>, k: Key128, n: Key128)
    requires |p| < 8
    ensures Decrypted(Encrypted(p, k), n) == TailMask(TailMask(p, 0, k), 0, n)
  {
    ShortBufferIsMasked(p, k);
    ShortBufferIsMasked(Encrypted(p, k), n);
  }

  lemma FirstTailKeyByte(key: Key128)
    ensures TailKeyByte(key, 0) == Low8(key[0])
  {
  }

  lemma XorAssoc(a: bv8, b: bv8, c: bv8)
    ensures (a ^ b) ^ c == a ^ (b ^ c)
  {
  }

  /** The first byte masked under `k` then `n` is the plaintext byte xored with the low bytes of both first key words. */
  lemma DoubleMaskFirstByte(p: seq<bv8>, k: Key128, n: Key128)
    requires 0 < |p|
    ensures TailMask(TailMask(p, 0, k), 0, n)[0] == p[0] ^ (Low8(k[0]) ^ Low8(n[0]))
  {
    FirstTailKeyByte(k);
    FirstTailKeyByte(n);
    XorAssoc(p[0], TailKeyByte(k, 0), TailKeyByte(n, 0));
  }

  lemma LowByteOfXor(a: bv32, x: bv32)
    ensures Low8(a) ^ Low8(a ^ x) == Low8(x)
  {
  }

  lemma XorNonzeroChanges(b: bv8, x: bv8)
    requires x != 0
    ensures b ^ x != b
  {
  }

  lemma FirstByteDiffers(d: seq<bv8>, p: seq<bv8>)
    requires 0 < |d| && 0 < |p| && d[0] != p[0]
    ensures d != p
  {
  }

  /** Masking under `k` then `n` changes the first byte when the two keys' first bytes differ. */
  lemma DoubleMaskGarbles(p: seq<bv8>, k: Key128, n: Key128, x: bv8)
    requires 0 < |p|
    requires x == Low8(k[0]) ^ Low8(n[0]) && x != 0
    ensures TailMask(TailMask(p, 0, k), 0, n)[0] == p[0] ^ x
    ensures TailMask(TailMask(p, 0, k), 0, n) != p
  {
    var d := TailMask(TailMask(p, 0, k), 0, n);
    assert d[0] == p[0] ^ x by {
      DoubleMaskFirstByte(p, k, n);
    }
    assert d[0] != p[0] by {
      XorNonzeroChanges(p[0], x);
    }
    FirstByteDiffers(d, p);
  }

  /**
   * Decrypting a string shorter than one block under a key `n` whose
   * first word differs from that of the encryption key `k` in its low
   * byte garbles the first byte.
   */
  lemma ShortWrongKeyGarbles(p: seq<bv8>, k: Key128, n: Key128, x: bv8)
    requires 0 < |p| < 8
    requires x == Low8(k[0]) ^ Low8(n[0]) && x != 0
    ensures Decrypted(Encrypted(p, k), n)[0] == p[0] ^ x
    ensures Decrypted(Encrypted(p, k), n) != p
  {
    ShortRekeyIsDoubleMask(p, k, n);
    DoubleMaskGarbles(p, k, n, x);
  }

  /** The first word of the re-keyed key is the compile-time word xored with the low half of the entropy. */
  lemma RekeyFirstWord(k: Key128, entropy: bv64)
    ensures Low8(k[0]) ^ Low8(Rekey(k, entropy)[0]) == Low8(Lo32(entropy))
  {
    LowByteOfXor(k[0], Lo32(entropy));
  }

  /**
   * The as-written re-key garbles a string shorter than one block: its
   * first byte comes back xored with the low byte of the entropy.
   */
  lemma RekeyAsWrittenGarbles(p: seq<bv8>, k: Key128, entropy: bv64)
    requires 0 < |p| < 8
    requires Low8(Lo32(entropy)) != 0
    ensures Decrypted(Encrypted(p, k), Rekey(k, entropy))[0] == p[0] ^ Low8(Lo32(entropy))
    ensures Decrypted(Encrypted(p, k), Rekey(k, entropy)) != p
  {
    RekeyFirstWord(k, entropy);
    ShortWrongKeyGarbles(p, k, Rekey(k, entropy), Low8(Lo32(entropy)));
  }

  /**
   * The eleventh `get()` of a fresh layered string as written: the first
   * ten accesses return the plaintext and leave the key alone, the
   * eleventh re-keys and returns a buffer that differs from it.
   */
  method EleventhAccessAsWritten(str: seq<bv8>, key: Key128, entropy: bv64) returns (seen: seq<bv8>)
    requires 0 < |str| < 8
    requires Low8(Lo32(entropy)) != 0
    ensures seen != str
  {
    var s := new LayeredEncryptedString(str, key);
    var i := 0;
    while i < 10
      invariant 0 <= i <= 10
      invariant s.Valid() && s.accessCount == i
      invariant s.currentKey == key && s.compileKey == key && s.plain == str
      modifies s, s.data
    {
      RekeySchedule(i, i);
      var _ := s.GetAsWritten(entropy);
      i := i + 1;
    }
    RekeySchedule(10, 10);
    var r := s.GetAsWritten(entropy);
    seen := r[..];
    RekeyAsWrittenGarbles(str, key, entropy);
  }

  // ---------------------------------------------------------------------
  // stack_encrypted_string<N>
  // ---------------------------------------------------------------------

  function Min(a: nat, b: nat): nat {
    if a < b then a else b
  }

  /** A fresh `n`-byte buffer whose first `min(n, M)` bytes are copied from `src`. */
  method CopyPrefix(src: array<bv8>, n: nat) returns (b: array<bv8>)
    ensures fresh(b) && b.Length == n
    ensures b[..Min(n, src.Length)] == src[..Min(n, src.Length)]
  {
    b := new bv8[n];
    var i := 0;
    while i < n && i < src.Length
      invariant 0 <= i <= Min(n, src.Length)
      invariant b[..i] == src[..i]
      modifies b
    {
      b[i] := src[i];
      i := i + 1;
    }
  }

  /** A stack buffer of `N` bytes holding a copy of a decrypted `encrypted_string<M>`. */
  class StackEncryptedString {
    const buffer: array<bv8>

    /**
     * The constructor: `get()` the source string (which leaves it
     * decrypted) and copy its first `min(N, M)` bytes.
     */
    constructor (n: nat, enc: EncryptedString)
      requires enc.Valid()
      modifies enc, enc.data
      ensures enc.Valid() && enc.decrypted
      ensures buffer.Length == n
      ensures buffer[..Min(n, |enc.plain|)] == enc.plain[..Min(n, |enc.plain|)]
      ensures fresh(buffer)
    {
      var src := enc.Get();
      var b := CopyPrefix(src, n);
      buffer := b;
    }

    /** The destructor's secure wipe: every one of the `N` bytes becomes zero. */
    method Destroy()
      modifies buffer
      ensures forall i :: 0 <= i < buffer.Length ==> buffer[i] == 0
    {
      StackCipher.ZeroBuf(buffer);
    }
  }

  // ---------------------------------------------------------------------
  // encrypted_wstring<N, K0..K3>
  // ---------------------------------------------------------------------

  /** Each byte pair, low byte first, as one 16-bit character. */
  function WideChars(b: seq<bv8>): (r: seq<bv16>)
    ensures |r| == |b| / 2
  {
    seq(|b| / 2, i requires 0 <= i < |b| / 2 => Load16(b, 2 * i))
  }

  lemma CharBytes(c: bv16)
    ensures (Low8Of16(c) as bv16) | ((High8Of16(c) as bv16) << 8) == c
  {
  }

  lemma BytesChar(lo: bv8, hi: bv8)
    ensures var c := (lo as bv16) | ((hi as bv16) << 8); Low8Of16(c) == lo && High8Of16(c) == hi
  {
  }

  /** Character `i` read back from the byte image of `w` is `w[i]`. */
  lemma CharOfBytesAt(w: seq<bv16>, i: nat)
    requires i < |w|
    ensures Load16(Hashing.WideBytes(w), 2 * i) == w[i]
  {
    Hashing.WideBytesPair(w, i);
    LoadOfBytes(Hashing.WideBytes(w), 2 * i, w[i]);
  }

  /** Two bytes holding the low and high byte of `c` load back as `c`. */
  lemma LoadOfBytes(b: seq<bv8>, j: nat, c: bv16)
    requires j + 2 <= |b| && b[j] == Low8Of16(c) && b[j + 1] == High8Of16(c)
    ensures Load16(b, j) == c
  {
    CharBytes(c);
  }

  /** Byte `k` of the image of the characters read from `b` is `b[k]`. */
  lemma ByteOfCharsAt(b: seq<bv8>, k: nat)
    requires |b| % 2 == 0 && k < |b|
    ensures Hashing.WideBytes(WideChars(b))[k] == b[k]
  {
    var w := WideChars(b);
    var i := k / 2;
    Hashing.WideBytesPair(w, i);
    assert w[i] == Load16(b, 2 * i);
    BytesChar(b[2 * i], b[2 * i + 1]);
    assert k == 2 * i || k == 2 * i + 1;
  }

  /** Serialising then deserialising gives the characters back. */
  lemma WideCharsOfBytes(w: seq<bv16>)
    ensures WideChars(Hashing.WideBytes(w)) == w
  {
    var r := WideChars(Hashing.WideBytes(w));
    forall i | 0 <= i < |w|
      ensures r[i] == w[i]
    {
      CharOfBytesAt(w, i);
    }
  }

  /** Deserialising then serialising gives the bytes back. */
  lemma WideBytesOfChars(b: seq<bv8>, n: nat)
    requires |b| == 2 * n
    ensures Hashing.WideBytes(WideChars(b)) == b
  {
    var r := Hashing.WideBytes(WideChars(b));
    forall k | 0 <= k < |b|
      ensures r[k] == b[k]
    {
      ByteOfCharsAt(b, k);
    }
  }

  /** The wide ciphertext the constructor stores: the encrypted byte image read back as characters. */
  function WideEncrypted(w: seq<bv16>, key: Key128): (r: seq<bv16>)
    ensures |r| == |w|
  {
    WideChars(Encrypted(Hashing.WideBytes(w), key))
  }

  /** The wide decryption `get()` performs on the stored characters. */
  function WideDecrypted(w: seq<bv16>, key: Key128): (r: seq<bv16>)
    ensures |r| == |w|
  {
    WideChars(Decrypted(Hashing.WideBytes(w), key))
  }

  /** Decrypting the wide ciphertext gives the characters back, and the other way round. */
  lemma WideRoundTrip(w: seq<bv16>, key: Key128)
    ensures WideDecrypted(WideEncrypted(w, key), key) == w
    ensures WideEncrypted(WideDecrypted(w, key), key) == w
  {
    var b := Hashing.WideBytes(w);
    WideBytesOfChars(Encrypted(b, key), |w|);
    WideBytesOfChars(Decrypted(b, key), |w|);
    BufferRoundTrip(b, key);
    WideCharsOfBytes(w);
  }

  /** The serialisation loop: `bytes[2i]` and `bytes[2i+1]` are the low and high byte of character `i`. */
  method ToBytes(w: seq<bv16>) returns (bytes: array<bv8>)
    ensures fresh(bytes)
    ensures bytes[..] == Hashing.WideBytes(w)
  {
    bytes := new bv8[2 * |w|];
    var i := 0;
    while i < |w|
      invariant 0 <= i <= |w|
      invariant forall j | 0 <= j < i :: bytes[2 * j] == Low8Of16(w[j]) && bytes[2 * j + 1] == High8Of16(w[j])
      modifies bytes
    {
      bytes[2 * i] := Low8Of16(w[i]);
      bytes[2 * i + 1] := High8Of16(w[i]);
      i := i + 1;
    }
    ghost var r := Hashing.WideBytes(w);
    forall k | 0 <= k < 2 * |w|
      ensures bytes[k] == r[k]
    {
      var j := k / 2;
      Hashing.WideBytesPair(w, j);
      assert k == 2 * j || k == 2 * j + 1;
    }
  }

  /** The deserialisation loop: character `i` is `bytes[2i] | bytes[2i+1] << 8`. */
  method FromBytes(bytes: array<bv8>, data: array<bv16>)
    requires bytes.Length == 2 * data.Length
    modifies data
    ensures data[..] == WideChars(bytes[..])
  {
    var i := 0;
    while i < data.Length
      invariant 0 <= i <= data.Length
      invariant forall j | 0 <= j < i :: data[j] == Load16(bytes[..], 2 * j)
      modifies data
    {
      data[i] := (bytes[2 * i] as bv16) | ((bytes[2 * i + 1] as bv16) << 8);
      i := i + 1;
    }
  }

  /** A wide string literal of `N` 16-bit characters, kept as the characters of its encrypted byte image. */
  class EncryptedWString {
    const key: Key128
    const data: array<bv16>
    var decrypted: bool
    ghost const plain: seq<bv16>

    ghost predicate Valid()
      reads this, data
    {
      data.Length == |plain| &&
      data[..] == (if decrypted then plain else WideEncrypted(plain, key))
    }

    /** The `constexpr` constructor: serialise, encrypt the `2N` bytes, deserialise. */
    constructor (str: seq<bv16>, key: Key128)
      ensures Valid() && !decrypted
      ensures this.key == key && plain == str
      ensures fresh(data)
    {
      var bytes := ToBytes(str);
      EncryptBuffer(bytes, key);
      var buf := new bv16[|str|];
      FromBytes(bytes, buf);
      this.key := key;
      plain := str;
      data := buf;
      decrypted := false;
    }

    /** `get()`: on the first call, serialise, decrypt and deserialise in place; every call returns the characters. */
    method Get() returns (r: array<bv16>)
      requires Valid()
      modifies this, data
      ensures Valid() && decrypted
      ensures r == data && r[..] == plain
      ensures old(decrypted) ==> unchanged(data)
    {
      if !decrypted {
        var bytes := ToBytes(data[..]);
        DecryptBuffer(bytes, key);
        FromBytes(bytes, data);
        WideRoundTrip(plain, key);
        decrypted := true;
      }
      r := data;
    }

    /** The destructor: serialise, encrypt and deserialise again, then clear the flag. */
    method Destroy()
      requires Valid()
      modifies this, data
      ensures Valid() && !decrypted
      ensures data[..] == WideEncrypted(plain, key)
      ensures !old(decrypted) ==> unchanged(data)
    {
      if decrypted {
        var bytes := ToBytes(data[..]);
        EncryptBuffer(bytes, key);
        FromBytes(bytes, data);
        decrypted := false;
      }
    }
  }
}
