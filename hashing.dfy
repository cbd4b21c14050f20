/**
 * The 32-bit FNV-1a name hashes (`cloakwork::hash`), the fixed-length CPUID
 * vendor hashes and the reflected CRC-32 used for code integrity.
 *
 * Import hiding and every "known tool" probe compare a hash computed at
 * compile time against one computed at run time, so the contract that matters
 * is that both families compute the same reference function `Fnv1a` over the
 * same bytes. Each routine of the library is a method with a loop, proved
 * against that reference.
 */
module Hashing {
  import opened Words

  const FNV_BASIS: bv32 := 0x811c9dc5
  const FNV_PRIME: bv32 := 0x01000193

  /** One FNV-1a round on a 32-bit lane: xor, then multiply modulo 2^32. */
  function StepWord(h: bv32, w: bv32): bv32 {
    (h ^ w) * FNV_PRIME
  }

  /** One FNV-1a round on a byte (`hash ^= static_cast<uint8_t>(c); hash *= prime`). */
  function Step(h: bv32, b: bv8): bv32 {
    StepWord(h, b as bv32)
  }

  /** FNV-1a of `s` started from the accumulator `h`. */
  function Fold(h: bv32, s: seq<bv8>): bv32 {
    if s == [] then h else Step(Fold(h, s[..|s| - 1]), s[|s| - 1])
  }

  /** The reference FNV-1a hash of a byte string. */
  function Fnv1a(s: seq<bv8>): bv32 {
    Fold(FNV_BASIS, s)
  }

  /** Hashing is incremental: hashing `a + b` is hashing `b` from the hash of `a`. */
  lemma {:induction false} FoldAppend(h: bv32, a: seq<bv8>, b: seq<bv8>)
    ensures Fold(h, a + b) == Fold(Fold(h, a), b)
  {
    if b != [] {
      var b' := b[..|b| - 1];
      assert (a + b)[..|a + b| - 1] == a + b';
      FoldAppend(h, a, b');
    } else {
      assert a + b == a;
    }
  }

  lemma FoldSnoc(h: bv32, s: seq<bv8>, b: bv8)
    ensures Fold(h, s + [b]) == Step(Fold(h, s), b)
  {
    assert (s + [b])[..|s|] == s;
  }

  // ---------------------------------------------------------------------
  // ASCII case folding and wide characters
  // ---------------------------------------------------------------------

  /** `if (c >= 'A' && c <= 'Z') c += 32` on a byte. */
  function Lower(c: bv8): bv8 {
    if 0x41 <= c <= 0x5A then c + 32 else c
  }

  function LowerAll(s: seq<bv8>): (r: seq<bv8>)
    ensures |r| == |s| && forall k :: 0 <= k < |s| ==> r[k] == Lower(s[k])
  {
    seq(|s|, k requires 0 <= k < |s| => Lower(s[k]))
  }

  /** The same folding on a 16-bit `wchar_t`: only A-Z themselves are lowered. */
  function LowerWide(c: bv16): bv16 {
    if 0x41 <= c <= 0x5A then c + 32 else c
  }

  function LowerWideAll(w: seq<bv16>): (r: seq<bv16>)
    ensures |r| == |w| && forall k :: 0 <= k < |w| ==> r[k] == LowerWide(w[k])
  {
    seq(|w|, k requires 0 <= k < |w| => LowerWide(w[k]))
  }

  /**
   * The bytes a wide hash consumes, and the byte image of a wide string:
   * for every character its low byte, then its high byte.
   */
  function WideBytes(w: seq<bv16>): (r: seq<bv8>)
    ensures |r| == 2 * |w|
  {
    if w == [] then [] else WideBytes(w[..|w| - 1]) + [Low8Of16(w[|w| - 1]), High8Of16(w[|w| - 1])]
  }

  /** Bytes `2i` and `2i + 1` of the image are the low and the high byte of character `i`. */
  lemma {:induction false} WideBytesPair(w: seq<bv16>, i: nat)
    requires i < |w|
    ensures WideBytes(w)[2 * i] == Low8Of16(w[i]) && WideBytes(w)[2 * i + 1] == High8Of16(w[i])
    decreases |w|
  {
    var p := w[..|w| - 1];
    if i < |p| {
      WideBytesPair(p, i);
      assert w[i] == p[i];
    }
  }

  /** The low byte of every wide character (what `fnv1a_runtime_ci_w2a` consumes). */
  function LowBytes(w: seq<bv16>): (r: seq<bv8>)
    ensures |r| == |w| && forall k :: 0 <= k < |w| ==> r[k] == Low8Of16(w[k])
  {
    seq(|w|, k requires 0 <= k < |w| => Low8Of16(w[k]))
  }

  /** Two FNV rounds for one wide character, as the wide hashes do. */
  lemma FoldWideSnoc(h: bv32, w: seq<bv16>, c: bv16)
    ensures Fold(h, WideBytes(w + [c])) == Step(Step(Fold(h, WideBytes(w)), Low8Of16(c)), High8Of16(c))
  {
    assert (w + [c])[..|w|] == w;
    var x := WideBytes(w);
    assert WideBytes(w + [c]) == (x + [Low8Of16(c)]) + [High8Of16(c)];
    FoldSnoc(h, x + [Low8Of16(c)], High8Of16(c));
    FoldSnoc(h, x, Low8Of16(c));
  }

  /**
   * The library's promise behind CW_HASH_CI versus the loader's wide module
   * names: when every character fits in a byte, folding the wide string and
   * keeping the low bytes is folding the low bytes.
   */
  lemma W2aAgreesWithNarrowFolding(w: seq<bv16>)
    requires forall k :: 0 <= k < |w| ==> w[k] < 0x100
    ensures LowBytes(LowerWideAll(w)) == LowerAll(LowBytes(w))
  {
    forall k | 0 <= k < |w|
      ensures Low8Of16(LowerWide(w[k])) == Lower(Low8Of16(w[k]))
    {
      var c := w[k];
      assert c < 0x100;
    }
  }

  /** Without the premise the two disagree: U+0141 folds to itself but its low byte 'A' folds to 'a'. */
  lemma W2aDisagreesAboveLatin1()
    ensures LowBytes(LowerWideAll([0x0141])) != LowerAll(LowBytes([0x0141]))
  {
    assert LowBytes(LowerWideAll([0x0141]))[0] == 0x41;
    assert LowerAll(LowBytes([0x0141]))[0] == 0x61;
  }

  // ---------------------------------------------------------------------
  // one character more: how each family's hash of a prefix grows
  // ---------------------------------------------------------------------

  lemma PrefixStep(s: seq<bv8>, i: nat)
    requires i < |s|
    ensures Fnv1a(s[..i + 1]) == Step(Fnv1a(s[..i]), s[i])
  {
    assert s[..i + 1] == s[..i] + [s[i]];
    FoldSnoc(FNV_BASIS, s[..i], s[i]);
  }

  lemma WidePrefixStep(s: seq<bv16>, i: nat)
    requires i < |s|
    ensures Fnv1a(WideBytes(s[..i + 1])) == Step(Step(Fnv1a(WideBytes(s[..i])), Low8Of16(s[i])), High8Of16(s[i]))
  {
    assert s[..i + 1] == s[..i] + [s[i]];
    FoldWideSnoc(FNV_BASIS, s[..i], s[i]);
  }

  lemma CiPrefixStep(s: seq<bv8>, i: nat)
    requires i < |s|
    ensures Fnv1a(LowerAll(s[..i + 1])) == Step(Fnv1a(LowerAll(s[..i])), Lower(s[i]))
  {
    assert LowerAll(s[..i + 1]) == LowerAll(s[..i]) + [Lower(s[i])];
    FoldSnoc(FNV_BASIS, LowerAll(s[..i]), Lower(s[i]));
  }

  lemma CiWidePrefixStep(s: seq<bv16>, i: nat)
    requires i < |s|
    ensures var c := LowerWide(s[i]);
      Fnv1a(WideBytes(LowerWideAll(s[..i + 1]))) == Step(Step(Fnv1a(WideBytes(LowerWideAll(s[..i]))), Low8Of16(c)), High8Of16(c))
  {
    assert LowerWideAll(s[..i + 1]) == LowerWideAll(s[..i]) + [LowerWide(s[i])];
    FoldWideSnoc(FNV_BASIS, LowerWideAll(s[..i]), LowerWide(s[i]));
  }

  lemma W2aPrefixStep(s: seq<bv16>, i: nat)
    requires i < |s|
    ensures Fnv1a(LowBytes(LowerWideAll(s[..i + 1]))) == Step(Fnv1a(LowBytes(LowerWideAll(s[..i]))), Low8Of16(LowerWide(s[i])))
  {
    var c := LowerWide(s[i]);
    assert LowerWideAll(s[..i + 1]) == LowerWideAll(s[..i]) + [c];
    assert LowBytes(LowerWideAll(s[..i]) + [c]) == LowBytes(LowerWideAll(s[..i])) + [Low8Of16(c)];
    FoldSnoc(FNV_BASIS, LowBytes(LowerWideAll(s[..i])), Low8Of16(c));
  }

  // ---------------------------------------------------------------------
  // compile-time hashes (consteval in the library)
  // ---------------------------------------------------------------------

  /** `hash::fnv1a(str, len)`; CW_HASH passes the literal's length without its terminator. */
  method HashCt(str: seq<bv8>, len: nat) returns (h: bv32)
    requires len <= |str|
    ensures h == Fnv1a(str[..len])
  {
    h := FNV_BASIS;
    var i := 0;
    while i < len
      invariant i <= len && h == Fnv1a(str[..i])
    {
      PrefixStep(str, i);
      h := Step(h, str[i]);
      i := i + 1;
    }
  }

  /** `hash::fnv1a_wide(str, len)`: low byte then high byte of each character. */
  method HashWideCt(str: seq<bv16>, len: nat) returns (h: bv32)
    requires len <= |str|
    ensures h == Fnv1a(WideBytes(str[..len]))
  {
    h := FNV_BASIS;
    var i := 0;
    while i < len
      invariant i <= len && h == Fnv1a(WideBytes(str[..i]))
    {
      WidePrefixStep(str, i);
      h := Step(h, Low8Of16(str[i]));
      h := Step(h, High8Of16(str[i]));
      i := i + 1;
    }
  }

  /** `hash::fnv1a_ci(str, len)`: ASCII A-Z lowered before hashing, nothing else. */
  method HashCiCt(str: seq<bv8>, len: nat) returns (h: bv32)
    requires len <= |str|
    ensures h == Fnv1a(LowerAll(str[..len]))
  {
    h := FNV_BASIS;
    var i := 0;
    while i < len
      invariant i <= len && h == Fnv1a(LowerAll(str[..i]))
    {
      var c := Lower(str[i]);
      CiPrefixStep(str, i);
      h := Step(h, c);
      i := i + 1;
    }
  }

  // ---------------------------------------------------------------------
  // run-time hashes over NUL-terminated strings
  // ---------------------------------------------------------------------

  /** `hash::fnv1a_runtime(const char*)`: hashes up to the terminating NUL. */
  method HashRuntime(str: seq<bv8>) returns (h: bv32)
    requires Terminated(str)
    ensures h == Fnv1a(CStr(str))
  {
    h := FNV_BASIS;
    var i := 0;
    while str[i] != 0
      invariant i <= StrLen(str) && h == Fnv1a(str[..i])
      decreases StrLen(str) - i
    {
      PrefixStep(str, i);
      h := Step(h, str[i]);
      i := i + 1;
    }
  }

  /** `hash::fnv1a_runtime(const wchar_t*)`: two rounds per character, up to the NUL. */
  method HashRuntimeWide(str: seq<bv16>) returns (h: bv32)
    requires WTerminated(str)
    ensures h == Fnv1a(WideBytes(WCStr(str)))
  {
    h := FNV_BASIS;
    var i := 0;
    while str[i] != 0
      invariant i <= WStrLen(str) && h == Fnv1a(WideBytes(str[..i]))
      decreases WStrLen(str) - i
    {
      WidePrefixStep(str, i);
      h := Step(h, Low8Of16(str[i]));
      h := Step(h, High8Of16(str[i]));
      i := i + 1;
    }
  }

  /** `hash::fnv1a_runtime_ci(const char*)`. */
  method HashRuntimeCi(str: seq<bv8>) returns (h: bv32)
    requires Terminated(str)
    ensures h == Fnv1a(LowerAll(CStr(str)))
  {
    h := FNV_BASIS;
    var i := 0;
    while str[i] != 0
      invariant i <= StrLen(str) && h == Fnv1a(LowerAll(str[..i]))
      decreases StrLen(str) - i
    {
      var c := Lower(str[i]);
      CiPrefixStep(str, i);
      h := Step(h, c);
      i := i + 1;
    }
  }

  /** `hash::fnv1a_runtime_ci(const wchar_t*)`: fold A-Z, then two rounds per character. */
  method HashRuntimeCiWide(str: seq<bv16>) returns (h: bv32)
    requires WTerminated(str)
    ensures h == Fnv1a(WideBytes(LowerWideAll(WCStr(str))))
  {
    h := FNV_BASIS;
    var i := 0;
    while str[i] != 0
      invariant i <= WStrLen(str) && h == Fnv1a(WideBytes(LowerWideAll(str[..i])))
      decreases WStrLen(str) - i
    {
      var c := LowerWide(str[i]);
      CiWidePrefixStep(str, i);
      h := Step(h, Low8Of16(c));
      h := Step(h, High8Of16(c));
      i := i + 1;
    }
  }

  /**
   * `hash::fnv1a_runtime_ci_w2a`: fold A-Z on the wide character, then hash
   * only its low byte, so that loader names compare against CW_HASH_CI.
   */
  method HashRuntimeCiW2a(str: seq<bv16>) returns (h: bv32)
    requires WTerminated(str)
    ensures h == Fnv1a(LowBytes(LowerWideAll(WCStr(str))))
  {
    h := FNV_BASIS;
    var i := 0;
    while str[i] != 0
      invariant i <= WStrLen(str) && h == Fnv1a(LowBytes(LowerWideAll(str[..i])))
      decreases WStrLen(str) - i
    {
      var c := LowerWide(str[i]);
      W2aPrefixStep(str, i);
      h := Step(h, Low8Of16(c));
      i := i + 1;
    }
  }

  /**
   * What the hash agreement comes to for a string literal: the run-time hash
   * of the stored literal (its characters and terminator) is the compile-time
   * hash of its characters, in each of the three families.
   */
  lemma LiteralHashesAgree(t: seq<bv8>, rest: seq<bv8>)
    requires NulFree(t)
    ensures Terminated(t + [0] + rest)
    ensures Fnv1a(CStr(t + [0] + rest)) == Fnv1a((t + [0] + rest)[..|t|])
    ensures Fnv1a(LowerAll(CStr(t + [0] + rest))) == Fnv1a(LowerAll((t + [0] + rest)[..|t|]))
  {
    CStrOfLiteral(t, rest);
    assert (t + [0] + rest)[..|t|] == t;
  }

  /**
   * The same for a wide module name held by the loader: when every character
   * fits in a byte, `fnv1a_runtime_ci_w2a` of the stored name is `fnv1a_ci` of
   * its low bytes.
   */
  lemma LoaderNameMatchesCiHash(w: seq<bv16>, rest: seq<bv16>)
    requires WNulFree(w)
    requires forall k :: 0 <= k < |w| ==> w[k] < 0x100
    ensures WTerminated(w + [0] + rest)
    ensures Fnv1a(LowBytes(LowerWideAll(WCStr(w + [0] + rest)))) == Fnv1a(LowerAll(LowBytes(w)))
  {
    WCStrOfLiteral(w, rest);
    W2aAgreesWithNarrowFolding(w);
  }

  // ---------------------------------------------------------------------
  // the seed hash of `detail::fnv1a_hash`
  // ---------------------------------------------------------------------

  /** `static_cast<uint32_t>(char)`: a byte of 0x80 or more is sign-extended. */
  function SignExtend(b: bv8): bv32 {
    if b < 0x80 then b as bv32 else (b as bv32) | 0xFFFF_FF00
  }

  function FoldSigned(h: bv32, s: seq<bv8>): bv32 {
    if s == [] then h else StepWord(FoldSigned(h, s[..|s| - 1]), SignExtend(s[|s| - 1]))
  }

  /** `detail::fnv1a_hash(str, basis)`, used only to derive the compile-time seed. */
  method SeedHash(lit: seq<bv8>, basis: bv32) returns (h: bv32)
    requires |lit| >= 1
    ensures h == FoldSigned(basis, lit[..|lit| - 1])
  {
    h := basis;
    var i := 0;
    while i < |lit| - 1
      invariant i <= |lit| - 1 && h == FoldSigned(basis, lit[..i])
    {
      assert lit[..i + 1][..i] == lit[..i];
      var w: bv32 := if lit[i] < 0x80 then lit[i] as bv32 else (lit[i] as bv32) | 0xFFFF_FF00;
      h := StepWord(h, w);
      i := i + 1;
    }
  }

  /** On ASCII text the seed hash is the ordinary FNV-1a hash. */
  lemma {:induction false} SeedHashAgreesOnAscii(h: bv32, s: seq<bv8>)
    requires forall k :: 0 <= k < |s| ==> s[k] < 0x80
    ensures FoldSigned(h, s) == Fold(h, s)
  {
    if s != [] {
      SeedHashAgreesOnAscii(h, s[..|s| - 1]);
    }
  }

  /** A byte of 0x80 or more makes the two differ. */
  lemma SeedHashDiffersOnHighBytes()
    ensures FoldSigned(FNV_BASIS, [0x80]) != Fnv1a([0x80])
  {
    assert [0x80 as bv8][..0] == [];
    assert FoldSigned(FNV_BASIS, [0x80]) == StepWord(FNV_BASIS, 0xFFFF_FF80);
    assert Fnv1a([0x80]) == StepWord(FNV_BASIS, 0x80);
  }

  // ---------------------------------------------------------------------
  // CPUID vendor hashes
  // ---------------------------------------------------------------------

  /** `hash_vendor_12`: FNV-1a of exactly twelve bytes of a CPUID vendor buffer. */
  method HashVendor12(buf: seq<bv8>) returns (h: bv32)
    requires |buf| >= 12
    ensures h == Fnv1a(buf[..12])
  {
    h := FNV_BASIS;
    var i := 0;
    while i < 12
      invariant i <= 12 && h == Fnv1a(buf[..i])
    {
      PrefixStep(buf, i);
      h := Step(h, buf[i]);
      i := i + 1;
    }
  }

  function Zeros(n: nat): (r: seq<bv8>)
    ensures |r| == n && forall k :: 0 <= k < n ==> r[k] == 0
  {
    seq(n, k => 0)
  }

  lemma ZerosSnoc(p: seq<bv8>, m: nat)
    ensures p + Zeros(m + 1) == p + Zeros(m) + [0]
  {
  }

  /** The twelve bytes `hash_vendor_12_ct` hashes: at most twelve of the literal, padded with zeros. */
  function VendorPadded(buf: seq<bv8>, len: nat): (r: seq<bv8>)
    requires len <= |buf|
    ensures |r| == 12
  {
    var n := if len < 12 then len else 12;
    buf[..n] + Zeros(12 - n)
  }

  /** `hash_vendor_12_ct(buf, len)`. */
  method HashVendor12Ct(buf: seq<bv8>, len: nat) returns (h: bv32)
    requires len <= |buf|
    ensures h == Fnv1a(VendorPadded(buf, len))
  {
    h := FNV_BASIS;
    var n := if len < 12 then len else 12;
    var i := 0;
    while i < n
      invariant i <= n && h == Fnv1a(buf[..i])
    {
      PrefixStep(buf, i);
      h := Step(h, buf[i]);
      i := i + 1;
    }
    i := n;
    assert buf[..n] + Zeros(0) == buf[..n];
    while i < 12
      invariant n <= i <= 12 && h == Fnv1a(buf[..n] + Zeros(i - n))
    {
      ZerosSnoc(buf[..n], i - n);
      FoldSnoc(FNV_BASIS, buf[..n] + Zeros(i - n), 0);
      h := Step(h, 0);
      i := i + 1;
    }
  }

  /**
   * What the VM-vendor test relies on: `hash_vendor_12_ct(lit, len)` equals
   * `hash_vendor_12` of a CPUID buffer exactly when the buffer's first
   * twelve bytes are the literal's first `min(len, 12)` bytes followed by
   * zeros, and then the two hashes agree.
   */
  lemma VendorHashesAgree(lit: seq<bv8>, len: nat, buf: seq<bv8>)
    requires len <= |lit| && 12 <= |buf|
    ensures VendorPadded(lit, len) == buf[..12] <==>
      forall k :: 0 <= k < 12 ==> buf[k] == (if k < len then lit[k] else 0)
    ensures (forall k :: 0 <= k < 12 ==> buf[k] == (if k < len then lit[k] else 0)) ==>
      Fnv1a(VendorPadded(lit, len)) == Fnv1a(buf[..12])
  {
    var n := if len < 12 then len else 12;
    var v := VendorPadded(lit, len);
    assert forall k :: 0 <= k < 12 ==> v[k] == (if k < len then lit[k] else 0) by {
      forall k | 0 <= k < 12
        ensures v[k] == (if k < len then lit[k] else 0)
      {
        if k < n {
          assert v[k] == lit[..n][k];
        } else {
          assert v[k] == Zeros(12 - n)[k - n];
        }
      }
    }
  }

  // ---------------------------------------------------------------------
  // CRC-32 (IEEE 802.3, reflected, polynomial 0xEDB88320)
  // ---------------------------------------------------------------------

  const CRC_POLY: bv32 := 0xEDB8_8320

  /** One bit of the reflected shift register: shift right, xor the polynomial if bit 0 was set. */
  function CrcBit(crc: bv32): bv32 {
    (crc >> 1) ^ (CRC_POLY & (0 - (crc & 1)))
  }

  /** `n` register shifts. */
  function CrcBits(crc: bv32, n: nat): bv32
    decreases n
  {
    if n == 0 then crc else CrcBits(CrcBit(crc), n - 1)
  }

  lemma CrcBitsStep(crc: bv32, n: nat)
    ensures CrcBits(CrcBit(crc), n) == CrcBits(crc, n + 1)
  {
  }

  /** The register after absorbing one byte. */
  function CrcByte(crc: bv32, b: bv8): bv32 {
    CrcBits(crc ^ (b as bv32), 8)
  }

  lemma CrcByteUnfold(crc: bv32, b: bv8)
    ensures CrcByte(crc, b) == CrcBits(crc ^ (b as bv32), 8)
  {
  }

  /** The register after absorbing `s` from the initial value `crc`. */
  function CrcReg(crc: bv32, s: seq<bv8>): bv32 {
    if s == [] then crc else CrcByte(CrcReg(crc, s[..|s| - 1]), s[|s| - 1])
  }

  /** CRC-32 of IEEE 802.3: register preset to all ones, result complemented. */
  function Crc32(s: seq<bv8>): bv32 {
    !CrcReg(0xFFFF_FFFF, s)
  }

  /** The register over the check message, three digits at a time. */
  lemma Crc32Digits123()
    ensures CrcReg(0xFFFF_FFFF, [0x31, 0x32, 0x33]) == 0x77B7_9C2D
  {
    var s: seq<bv8> := [0x31, 0x32, 0x33];
    assert s[..0] == [];
    CrcRegSnoc(0xFFFF_FFFF, s, 0);
    assert CrcByte(0xFFFF_FFFF, 0x31) == 0x7C23_1048;
    CrcRegSnoc(0xFFFF_FFFF, s, 1);
    assert CrcByte(0x7C23_1048, 0x32) == 0xB0AC_BB32;
    CrcRegSnoc(0xFFFF_FFFF, s, 2);
    assert CrcByte(0xB0AC_BB32, 0x33) == 0x77B7_9C2D;
    assert s[..3] == s;
  }

  lemma Crc32Digits456()
    ensures CrcReg(0x77B7_9C2D, [0x34, 0x35, 0x36]) == 0xF68D_2C9E
  {
    var s: seq<bv8> := [0x34, 0x35, 0x36];
    assert s[..0] == [];
    CrcRegSnoc(0x77B7_9C2D, s, 0);
    assert CrcByte(0x77B7_9C2D, 0x34) == 0x641C_1F5C;
    CrcRegSnoc(0x77B7_9C2D, s, 1);
    assert CrcByte(0x641C_1F5C, 0x35) == 0x340A_C5E3;
    CrcRegSnoc(0x77B7_9C2D, s, 2);
    assert CrcByte(0x340A_C5E3, 0x36) == 0xF68D_2C9E;
    assert s[..3] == s;
  }

  lemma Crc32Digits789()
    ensures CrcReg(0xF68D_2C9E, [0x37, 0x38, 0x39]) == 0x340B_C6D9
  {
    var s: seq<bv8> := [0x37, 0x38, 0x39];
    assert s[..0] == [];
    CrcRegSnoc(0xF68D_2C9E, s, 0);
    assert CrcByte(0xF68D_2C9E, 0x37) == 0xAFFC_9660;
    CrcRegSnoc(0xF68D_2C9E, s, 1);
    assert CrcByte(0xAFFC_9660, 0x38) == 0x651F_2550;
    CrcRegSnoc(0xF68D_2C9E, s, 2);
    assert CrcByte(0x651F_2550, 0x39) == 0x340B_C6D9;
    assert s[..3] == s;
  }

  /** The standard check value: CRC-32 of the ASCII digits "123456789" is 0xCBF43926. */
  lemma Crc32CheckValue()
    ensures Crc32([0x31, 0x32, 0x33, 0x34, 0x35, 0x36, 0x37, 0x38, 0x39]) == 0xCBF4_3926
  {
    var d1: seq<bv8> := [0x31, 0x32, 0x33];
    var d2: seq<bv8> := [0x34, 0x35, 0x36];
    var d3: seq<bv8> := [0x37, 0x38, 0x39];
    Crc32Digits123();
    Crc32Digits456();
    Crc32Digits789();
    CrcRegAppend(0xFFFF_FFFF, d1, d2);
    CrcRegAppend(0xFFFF_FFFF, d1 + d2, d3);
    assert d1 + d2 + d3 == [0x31, 0x32, 0x33, 0x34, 0x35, 0x36, 0x37, 0x38, 0x39];
  }

  /** The register can absorb a message in pieces: CRC-32 of a concatenation continues from the first part. */
  lemma {:induction false} CrcRegAppend(crc: bv32, a: seq<bv8>, b: seq<bv8>)
    ensures CrcReg(crc, a + b) == CrcReg(CrcReg(crc, a), b)
  {
    if b != [] {
      var b' := b[..|b| - 1];
      assert (a + b)[..|a + b| - 1] == a + b';
      CrcRegAppend(crc, a, b');
    } else {
      assert a + b == a;
    }
  }

  lemma CrcRegSnoc(crc: bv32, s: seq<bv8>, i: nat)
    requires i < |s|
    ensures CrcReg(crc, s[..i + 1]) == CrcByte(CrcReg(crc, s[..i]), s[i])
  {
    assert s[..i + 1][..i] == s[..i];
  }

  /** The bitwise inner loop of `compute_crc32`: absorb one byte into the register. */
  method AbsorbByte(crc: bv32, b: bv8) returns (r: bv32)
    ensures r == CrcByte(crc, b)
  {
    CrcByteUnfold(crc, b);
    r := crc ^ (b as bv32);
    ghost var left: nat := 8;
    var j := 0;
    while j < 8
      invariant j <= 8 && left == 8 - j && CrcBits(r, left) == CrcByte(crc, b)
    {
      CrcBitsStep(r, left - 1);
      r := CrcBit(r);
      j := j + 1;
      left := left - 1;
    }
  }

  /** `anti_debug::compute_crc32(data, length)`: bytewise outer loop over the bitwise inner one. */
  method ComputeCrc32(data: seq<bv8>, length: nat) returns (r: bv32)
    requires length <= |data|
    ensures r == Crc32(data[..length])
  {
    var crc: bv32 := 0xFFFF_FFFF;
    var i := 0;
    while i < length
      invariant i <= length && crc == CrcReg(0xFFFF_FFFF, data[..i])
    {
      CrcRegSnoc(0xFFFF_FFFF, data, i);
      crc := AbsorbByte(crc, data[i]);
      i := i + 1;
    }
    r := !crc;
  }
}
