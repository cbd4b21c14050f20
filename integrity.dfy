/**
 * Code-integrity checks: an FNV-1a checksum over a function's bytes, a
 * wrapper that re-checks it every hundredth call, the hook-prologue and
 * breakpoint scans, and the order in which `comprehensive_check` combines
 * the debugger probes.
 *
 * A function's code is the byte sequence readable from its address.  These
 * routines run outside any `__try`, so a read past that sequence is a crash
 * the caller must rule out; the preconditions say exactly which bytes each
 * routine reads.
 */
module Integrity {
  import opened Words
  import opened Hashing
  import opened Wrappers
  import Opaque

  const INT3: bv8 := 0xCC
  /** The wrapper re-hashes on every call whose incremented count is a multiple of this. */
  const CHECK_PERIOD: nat := 100

  /** `integrity::computeHash`: FNV-1a over the first `size` bytes. */
  method ComputeHash(data: seq<bv8>, size: nat) returns (h: bv32)
    requires size <= |data|
    ensures h == Fnv1a(data[..size])
  {
    h := FNV_BASIS;
    var i := 0;
    while i < size
      invariant i <= size && h == Fnv1a(data[..i])
    {
      PrefixStep(data, i);
      h := Step(h, data[i]);
      i := i + 1;
    }
  }

  /**
   * `integrity_checked`: remembers the hash of the code at construction and
   * compares the code's current bytes with it.  The code may be patched
   * behind the wrapper's back, so its current bytes are a parameter of each
   * check.
   */
  class IntegrityChecked {
    const codeSize: nat
    const expectedHash: bv32
    var checkCount: nat

    predicate Valid()
      reads this
    {
      checkCount < COUNT_MOD
    }

    /** The check `verify()` and every hundredth call make. */
    predicate Intact(code: seq<bv8>)
      requires codeSize <= |code|
    {
      Fnv1a(code[..codeSize]) == expectedHash
    }

    constructor(code: seq<bv8>, size: nat)
      requires size <= |code|
      ensures Valid() && codeSize == size && checkCount == 0
      ensures Intact(code)
    {
      codeSize := size;
      var h := ComputeHash(code, size);
      expectedHash := h;
      checkCount := 0;
    }

    /** `verify()`: re-hash the code and compare. */
    method Verify(code: seq<bv8>) returns (ok: bool)
      requires codeSize <= |code|
      ensures ok <==> Intact(code)
    {
      var h := ComputeHash(code, codeSize);
      ok := h == expectedHash;
    }

    /**
     * `operator()` up to the wrapped call: bump the 32-bit counter and, on
     * every hundredth call, re-hash; `tampered` is the case in which the
     * anti-debug response fires.
     */
    method Call(code: seq<bv8>) returns (tampered: bool)
      requires Valid() && codeSize <= |code|
      modifies this
      ensures Valid() && checkCount == NextCount(old(checkCount))
      ensures tampered <==> checkCount % CHECK_PERIOD == 0 && !Intact(code)
    {
      checkCount := NextCount(checkCount);
      tampered := false;
      if checkCount % CHECK_PERIOD == 0 {
        var h := ComputeHash(code, codeSize);
        tampered := h != expectedHash;
      }
    }
  }

  /** Code still equal to what the wrapper was built from is never reported, whatever the count. */
  lemma UnpatchedNeverTampered(c: IntegrityChecked, built: seq<bv8>, code: seq<bv8>)
    requires c.codeSize <= |built| && c.Intact(built)
    requires c.codeSize <= |code| && code[..c.codeSize] == built[..c.codeSize]
    ensures c.Intact(code)
  {
  }

  // -------------------------------------------------------------------
  // Hook prologues
  // -------------------------------------------------------------------

  /** A prologue pattern: a byte, or `None` for a byte that is not compared. */
  type Pattern = seq<Option<bv8>>

  /**
   * What `detectHook` looks for: `jmp rel32`, `jmp [rip+disp32]`,
   * `mov rax, imm64`, `push imm32; ret` and `int3`.
   */
  const HOOK_PATTERNS: seq<Pattern> := [
    [Some(0xE9)],
    [Some(0xFF), Some(0x25)],
    [Some(0x48), Some(0xB8)],
    [Some(0x68), None, None, None, None, Some(0xC3)],
    [Some(INT3)]
  ]

  /** `code` begins with `pat`. */
  predicate StartsWith(code: seq<bv8>, pat: Pattern) {
    |pat| <= |code| && forall i :: 0 <= i < |pat| ==> pat[i].None? || code[i] == pat[i].value
  }

  /** The bytes `detectHook` reads exist: byte 0, byte 1 after `FF` or `48`, byte 5 after `68`. */
  predicate PrologueReadable(code: seq<bv8>) {
    |code| >= 1
    && ((code[0] == 0xFF || code[0] == 0x48) ==> |code| >= 2)
    && (code[0] == 0x68 ==> |code| >= 6)
  }

  /** The target defines `_WIN32`: user- or kernel-mode Windows. */
  predicate Win32(platform: Opaque.Platform) {
    platform != Opaque.Portable
  }

  /** The bytes `detectHook` reads on `platform`: none outside `_WIN32`. */
  predicate HookReadable(platform: Opaque.Platform, code: seq<bv8>) {
    Win32(platform) ==> PrologueReadable(code)
  }

  /**
   * `integrity::detectHook`, with its tests in the source's order.  Every
   * test sits inside `#ifdef _WIN32`; other builds return `false` at once.
   */
  function DetectHook(platform: Opaque.Platform, code: seq<bv8>): (r: bool)
    requires HookReadable(platform, code)
  {
    if !Win32(platform) then false
    else if code[0] == 0xE9 then true
    else if code[0] == 0xFF && code[1] == 0x25 then true
    else if code[0] == 0x48 && code[1] == 0xB8 then true
    else if code[0] == 0x68 && code[5] == 0xC3 then true
    else code[0] == INT3
  }

  /**
   * On `_WIN32` builds `detectHook` reports exactly the code that begins
   * with one of the hook patterns; on any other build it reports nothing.
   */
  lemma DetectHookMatchesPatterns(platform: Opaque.Platform, code: seq<bv8>)
    requires HookReadable(platform, code)
    ensures DetectHook(platform, code) <==>
      Win32(platform) && exists i :: 0 <= i < |HOOK_PATTERNS| && StartsWith(code, HOOK_PATTERNS[i])
  {
    if !Win32(platform) {
    } else if DetectHook(platform, code) {
      if code[0] == 0xE9 {
        assert StartsWith(code, HOOK_PATTERNS[0]);
      } else if code[0] == 0xFF && code[1] == 0x25 {
        assert StartsWith(code, HOOK_PATTERNS[1]);
      } else if code[0] == 0x48 && code[1] == 0xB8 {
        assert StartsWith(code, HOOK_PATTERNS[2]);
      } else if code[0] == 0x68 && code[5] == 0xC3 {
        assert StartsWith(code, HOOK_PATTERNS[3]);
      } else {
        assert StartsWith(code, HOOK_PATTERNS[4]);
      }
    } else {
      forall i | 0 <= i < |HOOK_PATTERNS|
        ensures !StartsWith(code, HOOK_PATTERNS[i])
      {
        assert HOOK_PATTERNS[i][0] != None;
      }
    }
  }

  /** The prologues of `fs` that `verifyFunctions` reads: each one up to the first hooked function. */
  predicate AllReadable(platform: Opaque.Platform, fs: seq<seq<bv8>>) {
    fs == [] || (HookReadable(platform, fs[0]) && (DetectHook(platform, fs[0]) || AllReadable(platform, fs[1..])))
  }

  /**
   * `verifyFunctions`: the fold `(!detectHook(f) && ...)`, left to right.
   * Outside `_WIN32` no prologue is hooked, so it always holds.
   */
  function VerifyFunctions(platform: Opaque.Platform, fs: seq<seq<bv8>>): (r: bool)
    requires AllReadable(platform, fs)
    ensures r <==> forall i :: 0 <= i < |fs| ==> HookReadable(platform, fs[i]) && !DetectHook(platform, fs[i])
    ensures !Win32(platform) ==> r
  {
    if fs == [] then true
    else if DetectHook(platform, fs[0]) then false
    else
      var r := VerifyFunctions(platform, fs[1..]);
      assert forall i :: 1 <= i < |fs| ==> fs[i] == fs[1..][i - 1];
      r
  }

  // -------------------------------------------------------------------
  // Breakpoints
  // -------------------------------------------------------------------

  /**
   * `has_breakpoints`: scan `size` bytes for `int3`, stopping at the first.
   * The bytes after the first `int3` are never read.
   */
  method HasBreakpoints(code: seq<bv8>, size: nat) returns (found: bool)
    requires size <= |code| || INT3 in code
    ensures found <==> exists i :: 0 <= i < size && i < |code| && code[i] == INT3
  {
    var i := 0;
    while i < size
      invariant i <= size && (i <= |code| || INT3 in code)
      invariant forall j :: 0 <= j < i && j < |code| ==> code[j] != INT3
      invariant i <= |code|
    {
      if code[i] == INT3 {
        return true;
      }
      i := i + 1;
    }
    return false;
  }

  // -------------------------------------------------------------------
  // comprehensive_check
  // -------------------------------------------------------------------

  /** A probe's outcome: it detected something, it did not, or it raised an exception. */
  datatype Answer = Detected | Clean | Raised

  /**
   * The six probes in the order `comprehensive_check` runs them:
   * debugger present, hardware breakpoints, timing, hiding tools, kernel
   * debugger, suspicious parent.  The first three run directly under the
   * outer `__try`; the last three each have their own.
   */
  const PROBE_COUNT: nat := 6
  const OUTER_PROBES: nat := 3

  /** The check from probe `i` on: an exception in one of the first three ends it with `false`. */
  function CheckFrom(probes: seq<Answer>, i: nat): (r: bool)
    requires |probes| == PROBE_COUNT
    decreases PROBE_COUNT - i
  {
    if i >= PROBE_COUNT then false
    else if probes[i] == Detected then true
    else if probes[i] == Raised && i < OUTER_PROBES then false
    else CheckFrom(probes, i + 1)
  }

  /** `comprehensive_check`. */
  function ComprehensiveCheck(probes: seq<Answer>): bool
    requires |probes| == PROBE_COUNT
  {
    CheckFrom(probes, 0)
  }

  /** No outer probe before `i` raised. */
  predicate Reaches(probes: seq<Answer>, i: nat)
    requires |probes| == PROBE_COUNT
  {
    forall j :: 0 <= j < i && j < OUTER_PROBES ==> probes[j] != Raised
  }

  /**
   * The check reports a debugger exactly when some probe detects one and
   * none of the outer probes before it raised.
   */
  lemma {:induction false} CheckFromDetects(probes: seq<Answer>, i: nat)
    requires |probes| == PROBE_COUNT && Reaches(probes, i)
    ensures CheckFrom(probes, i) <==> exists k :: i <= k < PROBE_COUNT && probes[k] == Detected && Reaches(probes, k)
    decreases PROBE_COUNT - i
  {
    if i < PROBE_COUNT && probes[i] != Detected {
      if probes[i] == Raised && i < OUTER_PROBES {
        assert forall k :: i < k < PROBE_COUNT ==> !Reaches(probes, k);
      } else {
        assert Reaches(probes, i + 1);
        CheckFromDetects(probes, i + 1);
      }
    }
  }

  lemma ComprehensiveCheckDetects(probes: seq<Answer>)
    requires |probes| == PROBE_COUNT
    ensures ComprehensiveCheck(probes) <==> exists k :: 0 <= k < PROBE_COUNT && probes[k] == Detected && Reaches(probes, k)
  {
    CheckFromDetects(probes, 0);
  }
}
