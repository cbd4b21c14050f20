/**
 * Byte-level helpers shared by the whole model: little-endian loads and
 * stores of 16-, 32- and 64-bit words, the low byte of a word, and the
 * NUL-terminated strings the library reads through `const char*` and
 * `const wchar_t*` pointers.
 */
module Words {

  /** The low byte of a 32-bit word (`static_cast<uint8_t>(w)`). */
  function Low8(w: bv32): bv8 {
    (w & 0xFF) as bv8
  }

  /** The low byte of a 16-bit word. */
  function Low8Of16(w: bv16): bv8 {
    (w & 0xFF) as bv8
  }

  /** The high byte of a 16-bit word. */
  function High8Of16(w: bv16): bv8 {
    (w >> 8) as bv8
  }

  /** The 32-bit word whose bytes, least significant first, are b0..b3. */
  function Pack32(b0: bv8, b1: bv8, b2: bv8, b3: bv8): bv32 {
    (b0 as bv32) | ((b1 as bv32) << 8) | ((b2 as bv32) << 16) | ((b3 as bv32) << 24)
  }

  lemma UnpackPack32(b0: bv8, b1: bv8, b2: bv8, b3: bv8)
    ensures var w := Pack32(b0, b1, b2, b3);
      Low8(w) == b0 && Low8(w >> 8) == b1 && Low8(w >> 16) == b2 && Low8(w >> 24) == b3
  {
  }

  lemma PackUnpack32(w: bv32)
    ensures Pack32(Low8(w), Low8(w >> 8), Low8(w >> 16), Low8(w >> 24)) == w
  {
  }

  /** The little-endian 32-bit word stored at s[i..i+4]. */
  function Load32(s: seq<bv8>, i: nat): bv32
    requires i + 4 <= |s|
  {
    Pack32(s[i], s[i + 1], s[i + 2], s[i + 3])
  }

  /** The little-endian 16-bit word stored at s[i..i+2]. */
  function Load16(s: seq<bv8>, i: nat): bv16
    requires i + 2 <= |s|
  {
    (s[i] as bv16) | ((s[i + 1] as bv16) << 8)
  }

  /** The four bytes of `w`, least significant first. */
  function Store32(w: bv32): (r: seq<bv8>)
    ensures |r| == 4
  {
    [Low8(w), Low8(w >> 8), Low8(w >> 16), Low8(w >> 24)]
  }

  /** Storing a loaded word gives the bytes back. */
  lemma StoreLoad32(s: seq<bv8>, i: nat)
    requires i + 4 <= |s|
    ensures Store32(Load32(s, i)) == s[i..i + 4]
  {
    UnpackPack32(s[i], s[i + 1], s[i + 2], s[i + 3]);
  }

  /** Loading a stored word gives the word back. */
  lemma LoadStore32(w: bv32)
    ensures Load32(Store32(w), 0) == w
  {
    PackUnpack32(w);
  }

  /** The 64-bit word whose low half is `lo` and high half is `hi`. */
  function Join64(lo: bv32, hi: bv32): bv64 {
    (lo as bv64) | ((hi as bv64) << 32)
  }

  lemma SplitJoin64(lo: bv32, hi: bv32)
    ensures var w := Join64(lo, hi); (w & 0xFFFF_FFFF) as bv32 == lo && (w >> 32) as bv32 == hi
  {
  }

  lemma JoinSplit64(w: bv64)
    ensures Join64((w & 0xFFFF_FFFF) as bv32, (w >> 32) as bv32) == w
  {
  }

  /** The little-endian 64-bit word stored at s[i..i+8]. */
  function Load64(s: seq<bv8>, i: nat): bv64
    requires i + 8 <= |s|
  {
    Join64(Load32(s, i), Load32(s, i + 4))
  }

  /** The eight bytes of `w`, least significant first. */
  function Store64(w: bv64): (r: seq<bv8>)
    ensures |r| == 8
  {
    Store32((w & 0xFFFF_FFFF) as bv32) + Store32((w >> 32) as bv32)
  }

  lemma LoadStore64(w: bv64)
    ensures Load64(Store64(w), 0) == w
  {
    var lo := (w & 0xFFFF_FFFF) as bv32;
    var hi := (w >> 32) as bv32;
    var s := Store64(w);
    assert s[..4] == Store32(lo) && s[4..] == Store32(hi);
    LoadStore32(lo);
    LoadStore32(hi);
    assert Load32(s, 0) == Load32(Store32(lo), 0);
    assert Load32(s, 4) == Load32(Store32(hi), 0);
    JoinSplit64(w);
  }

  lemma StoreLoad64(s: seq<bv8>)
    requires |s| == 8
    ensures Store64(Load64(s, 0)) == s
  {
    SplitJoin64(Load32(s, 0), Load32(s, 4));
    StoreLoad32(s, 0);
    StoreLoad32(s, 4);
    assert s == s[0..4] + s[4..8];
  }

  // ---------------------------------------------------------------------
  // NUL-terminated strings
  // ---------------------------------------------------------------------

  /** True when the buffer holds a terminating NUL, which every C string must. */
  predicate Terminated(s: seq<bv8>) {
    0 in s
  }

  /** True when no byte of `s` is NUL. */
  predicate NulFree(s: seq<bv8>) {
    0 !in s
  }

  /** The index of the first NUL of a terminated buffer (`strlen`). */
  function StrLen(s: seq<bv8>): (n: nat)
    requires Terminated(s)
    ensures n < |s| && s[n] == 0 && NulFree(s[..n])
    ensures forall k :: 0 <= k < n ==> s[k] != 0
  {
    if s[0] == 0 then 0 else
      assert 0 in s[1..];
      var n := 1 + StrLen(s[1..]);
      assert s[..n] == [s[0]] + s[1..][..n - 1];
      n
  }

  /** The characters of the C string stored at the start of `s`, without the NUL. */
  function CStr(s: seq<bv8>): (r: seq<bv8>)
    requires Terminated(s)
    ensures NulFree(r) && |r| < |s| && r == s[..|r|] && s[|r|] == 0
  {
    s[..StrLen(s)]
  }

  /** A NUL-free string followed by its terminator reads back as itself. */
  lemma {:induction false} CStrOfLiteral(t: seq<bv8>, rest: seq<bv8>)
    requires NulFree(t)
    ensures Terminated(t + [0] + rest) && CStr(t + [0] + rest) == t
  {
    var s := t + [0] + rest;
    assert s[|t|] == 0;
    if t == [] {
      assert s[0] == 0;
    } else {
      assert s[1..] == t[1..] + [0] + rest;
      assert t[0] != 0 by { assert t[0] in t; }
      CStrOfLiteral(t[1..], rest);
    }
  }

  /** A wide C string must hold a terminating NUL. */
  predicate WTerminated(s: seq<bv16>) {
    0 in s
  }

  predicate WNulFree(s: seq<bv16>) {
    0 !in s
  }

  /** `wcslen` of a terminated wide buffer. */
  function WStrLen(s: seq<bv16>): (n: nat)
    requires WTerminated(s)
    ensures n < |s| && s[n] == 0 && WNulFree(s[..n])
    ensures forall k :: 0 <= k < n ==> s[k] != 0
  {
    if s[0] == 0 then 0 else
      assert 0 in s[1..];
      var n := 1 + WStrLen(s[1..]);
      assert s[..n] == [s[0]] + s[1..][..n - 1];
      n
  }

  /** The characters of the wide C string at the start of `s`. */
  function WCStr(s: seq<bv16>): (r: seq<bv16>)
    requires WTerminated(s)
    ensures WNulFree(r) && |r| < |s| && r == s[..|r|] && s[|r|] == 0
  {
    s[..WStrLen(s)]
  }

  lemma {:induction false} WCStrOfLiteral(t: seq<bv16>, rest: seq<bv16>)
    requires WNulFree(t)
    ensures WTerminated(t + [0] + rest) && WCStr(t + [0] + rest) == t
  {
    var s := t + [0] + rest;
    assert s[|t|] == 0;
    if t == [] {
      assert s[0] == 0;
    } else {
      assert s[1..] == t[1..] + [0] + rest;
      assert t[0] != 0 by { assert t[0] in t; }
      WCStrOfLiteral(t[1..], rest);
    }
  }

  /** An `access_count` is a `uint32_t`: its increment wraps at 2^32. */
  const COUNT_MOD: nat := 0x1_0000_0000

  function NextCount(count: nat): (r: nat)
    requires count < COUNT_MOD
    ensures r < COUNT_MOD
    ensures r == 0 <==> count == COUNT_MOD - 1
    ensures count + 1 < COUNT_MOD ==> r == count + 1
  {
    (count + 1) % COUNT_MOD
  }
}
