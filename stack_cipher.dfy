/**
 * `cloakwork::internal_cipher`: the position-dependent xor that keeps
 * short strings out of reach of stack-string reconstruction, the routines
 * that decrypt into and wipe a stack buffer, and the `strstr` replacement.
 */
module StackCipher {
  import opened Words
  import opened Wrappers

  /**
   * The 32-bit subkey of position `i` under template key `key`: the
   * position (cast to 32 bits) times the golden-ratio constant, xored into
   * the key, then a xorshift-multiply finaliser. All arithmetic wraps.
   */
  function SubKey(key: bv32, i: nat): bv32 {
    var idx := (i % 0x1_0000_0000) as bv32;
    var s0 := key ^ (idx * 0x9E37_79B9);
    var s1 := s0 ^ (s0 >> 16);
    var s2 := s1 * 0x045D_9F3B;
    s2 ^ (s2 >> 13)
  }

  /** The byte position `i` is xored with: the low byte of its subkey. */
  function KeyByte(key: bv32, i: nat): bv8 {
    Low8(SubKey(key, i))
  }

  /** Byte `b` at position `i` xored with its key byte. */
  function XorAt(key: bv32, b: bv8, i: nat): bv8 {
    b ^ KeyByte(key, i)
  }

  lemma XorAtInvolution(key: bv32, b: bv8, i: nat)
    ensures XorAt(key, XorAt(key, b, i), i) == b
  {
  }

  /** Every byte of `s` xored with the key byte of its position. */
  function Keyed(key: bv32, s: seq<bv8>): (r: seq<bv8>)
    ensures |r| == |s| && forall i :: 0 <= i < |s| ==> r[i] == XorAt(key, s[i], i)
  {
    seq(|s|, i requires 0 <= i < |s| => XorAt(key, s[i], i))
  }

  /** The per-position xor is its own inverse: decrypting what was encrypted gives it back. */
  lemma KeyedInvolution(key: bv32, s: seq<bv8>)
    ensures Keyed(key, Keyed(key, s)) == s
  {
    forall i | 0 <= i < |s| ensures Keyed(key, Keyed(key, s))[i] == s[i] {
      XorAtInvolution(key, s[i], i);
    }
  }

  /** Two different strings never share an encryption under one key. */
  lemma KeyedInjective(key: bv32, s: seq<bv8>, t: seq<bv8>)
    requires Keyed(key, s) == Keyed(key, t)
    ensures s == t
  {
    KeyedInvolution(key, s);
    KeyedInvolution(key, t);
  }

  /** The `encrypted_buf<Key, N>` constructor: the N bytes of the literal, each keyed by position. */
  method EncryptedBuf(key: bv32, str: seq<bv8>) returns (data: array<bv8>)
    ensures fresh(data) && data[..] == Keyed(key, str)
  {
    data := new bv8[|str|];
    var i := 0;
    while i < |str|
      invariant i <= |str| && data.Length == |str|
      invariant forall j :: 0 <= j < i ==> data[j] == XorAt(key, str[j], j)
    {
      data[i] := XorAt(key, str[i], i);
      i := i + 1;
    }
  }

  /** `decrypt_to_stack(enc, out)`: each byte of `out` is the keyed byte of `enc` at that position. */
  method DecryptToStack(key: bv32, enc: array<bv8>, out: array<bv8>)
    requires enc.Length == out.Length && enc != out
    modifies out
    ensures out[..] == Keyed(key, enc[..])
  {
    var i := 0;
    while i < out.Length
      invariant i <= out.Length
      invariant forall j :: 0 <= j < i ==> out[j] == XorAt(key, enc[j], j)
    {
      out[i] := XorAt(key, enc[i], i);
      i := i + 1;
    }
  }

  /** `zero_buf(buf)`: every byte of the buffer becomes zero. */
  method ZeroBuf(buf: array<bv8>)
    modifies buf
    ensures forall i :: 0 <= i < buf.Length ==> buf[i] == 0
  {
    var i := 0;
    while i < buf.Length
      invariant i <= buf.Length
      invariant forall j :: 0 <= j < i ==> buf[j] == 0
    {
      buf[i] := 0;
      i := i + 1;
    }
  }

  /** A string decrypted to the stack from its `encrypted_buf` is the original literal. */
  method StackStringRoundTrip(key: bv32, str: seq<bv8>) returns (out: array<bv8>)
    ensures out[..] == str
  {
    var enc := EncryptedBuf(key, str);
    out := new bv8[enc.Length];
    DecryptToStack(key, enc, out);
    KeyedInvolution(key, str);
  }

  /** `needle` occurs in `hay` starting at `h`. */
  predicate OccursAt(hay: seq<bv8>, needle: seq<bv8>, h: nat) {
    h + |needle| <= |hay| && hay[h..h + |needle|] == needle
  }

  /** A differing byte inside the window rules out an occurrence there. */
  lemma MismatchAt(hay: seq<bv8>, needle: seq<bv8>, h: nat, n: nat)
    requires h + n < |hay| && n < |needle| && hay[h + n] != needle[n]
    ensures !OccursAt(hay, needle, h)
  {
    if h + |needle| <= |hay| {
      assert hay[h..h + |needle|][n] == hay[h + n];
    }
  }

  /**
   * The inner loop of `find_substr`: how many bytes of the needle match
   * the haystack from position `h` on, stopping at either terminator or
   * at the first difference.
   */
  method MatchRun(hs: seq<bv8>, ns: seq<bv8>, h: nat) returns (n: nat)
    requires Terminated(hs) && Terminated(ns) && h <= StrLen(hs)
    ensures h + n <= StrLen(hs) && n <= StrLen(ns)
    ensures CStr(hs)[h..h + n] == CStr(ns)[..n]
    ensures n == StrLen(ns) || h + n == StrLen(hs) || CStr(hs)[h + n] != CStr(ns)[n]
  {
    ghost var hay, nee := CStr(hs), CStr(ns);
    var h2 := h;
    n := 0;
    while hs[h2] != 0 && ns[n] != 0 && hs[h2] == ns[n]
      invariant h <= h2 <= |hay| && n <= |nee| && h2 == h + n
      invariant hay[h..h2] == nee[..n]
      decreases |hay| - h2
    {
      assert h2 < |hay| && n < |nee|;
      assert hay[h..h2 + 1] == hay[h..h2] + [hay[h2]];
      assert nee[..n + 1] == nee[..n] + [nee[n]];
      h2, n := h2 + 1, n + 1;
    }
  }

  /**
   * `find_substr(haystack, needle)` on C strings; a pointer is `None` when
   * null and otherwise the terminated buffer it points at; the result is
   * `None` for a null result and `Some(i)` for `haystack + i`.
   */
  method FindSubstr(haystack: Option<seq<bv8>>, needle: Option<seq<bv8>>) returns (r: Option<nat>)
    requires haystack.Some? ==> Terminated(haystack.value)
    requires needle.Some? ==> Terminated(needle.value)
    ensures haystack.None? ==> r.None?
    ensures haystack.Some? && (needle.None? || needle.value[0] == 0) ==> r == Some(0)
    ensures haystack.Some? && needle.Some? && needle.value[0] != 0 ==>
      var hay, nee := CStr(haystack.value), CStr(needle.value);
      (r.Some? ==> r.value < |hay| && OccursAt(hay, nee, r.value) &&
                   forall j :: 0 <= j < r.value ==> !OccursAt(hay, nee, j)) &&
      (r.None? ==> forall j :: 0 <= j <= |hay| ==> !OccursAt(hay, nee, j))
  {
    if haystack.None? || needle.None? || needle.value[0] == 0 {
      return if haystack.None? then None else Some(0);
    }
    var hs, ns := haystack.value, needle.value;
    ghost var hay, nee := CStr(hs), CStr(ns);
    var h := 0;
    while hs[h] != 0
      invariant h <= |hay|
      invariant forall j :: 0 <= j < h ==> !OccursAt(hay, nee, j)
      decreases |hay| - h
    {
      var n := MatchRun(hs, ns, h);
      if ns[n] == 0 {
        assert n == |nee|;
        return Some(h);
      }
      if h + n < |hay| {
        MismatchAt(hay, nee, h, n);
      }
      h := h + 1;
    }
    forall j | h <= j <= |hay| ensures !OccursAt(hay, nee, j) {
      assert |nee| > 0;
    }
    return None;
  }
}
