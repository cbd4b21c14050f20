/**
 * Syscall-number extraction from an `ntdll` stub (`getSyscallNumber`),
 * with the "halo's gate" fallback for a hooked stub: clean neighbouring
 * stubs lie 32 bytes apart, and their numbers differ by their distance in
 * stubs.
 *
 * Process memory is a partial map from addresses to bytes; reading an
 * address that is not mapped is an access violation, which the
 * `__try`/`__except` around the whole routine turns into `SYSCALL_ERROR`.
 * Reads follow the source's short-circuit order, so a byte that the code
 * never looks at may be unmapped without harm.
 */
module Syscall {
  import opened PeExports
  import opened Wrappers

  const SYSCALL_ERROR: u32 := 0xFFFF_FFFF
  /** Numbers at or above this are rejected as implausible. */
  const NUMBER_LIMIT: nat := 0x2000
  /** Distance between neighbouring stubs. */
  const STUB_SPACING: nat := 32
  /** Neighbours are tried at distances 1 to `HALO_LIMIT - 1`. */
  const HALO_LIMIT: nat := 500

  /** `mov r10, rcx; mov eax, imm32`. */
  const STUB_PREFIX: seq<byte> := [0x4C, 0x8B, 0xD1, 0xB8]
  const JMP_REL32: byte := 0xE9
  const JMP_INDIRECT: byte := 0xFF
  const MODRM_RIP: byte := 0x25
  const PUSH_IMM32: byte := 0x68
  const RET: byte := 0xC3
  const MOV_EAX: byte := 0xB8

  type Memory = map<address, byte>

  /** `p + k` in 64-bit pointer arithmetic. */
  function At(p: address, k: nat): address {
    (p + k) % ADDRESS_SPACE
  }

  /** `p - k` in 64-bit pointer arithmetic. */
  function Before(p: address, k: nat): address {
    (p - k) % ADDRESS_SPACE
  }

  /** The `DWORD` stored little-endian at `p + off`, or `None` if one of its bytes is unmapped. */
  function Imm32(mem: Memory, p: address, off: nat): Option<u32>
  {
    if At(p, off) in mem && At(p, off + 1) in mem && At(p, off + 2) in mem && At(p, off + 3) in mem then
      Some(mem[At(p, off)] as nat + 0x100 * mem[At(p, off + 1)] as nat
        + 0x1_0000 * mem[At(p, off + 2)] as nat + 0x100_0000 * mem[At(p, off + 3)] as nat)
    else None
  }

  /**
   * `p[i] == pat[i] && p[i+1] == pat[i+1] && ...`, evaluated left to right
   * and stopping at the first mismatch; `None` if a byte it reads is unmapped.
   */
  function MatchFrom(mem: Memory, p: address, pat: seq<byte>, i: nat): Option<bool>
    decreases |pat| - i
  {
    if i >= |pat| then Some(true)
    else if At(p, i) !in mem then None
    else if mem[At(p, i)] != pat[i] then Some(false)
    else MatchFrom(mem, p, pat, i + 1)
  }

  /** The bytes `pat[i..]` sit at `p + i` onwards. */
  predicate Holds(mem: Memory, p: address, pat: seq<byte>, i: nat) {
    forall j :: i <= j < |pat| ==> At(p, j) in mem && mem[At(p, j)] == pat[j]
  }

  /** The short-circuit comparison agrees with the plain statement that the pattern is there. */
  lemma {:induction false} MatchFromHolds(mem: Memory, p: address, pat: seq<byte>, i: nat)
    ensures MatchFrom(mem, p, pat, i) == Some(true) <==> Holds(mem, p, pat, i)
    ensures MatchFrom(mem, p, pat, i) == Some(false) ==> !Holds(mem, p, pat, i)
    decreases |pat| - i
  {
    if i < |pat| && At(p, i) in mem && mem[At(p, i)] == pat[i] {
      MatchFromHolds(mem, p, pat, i + 1);
    }
  }

  /** What a stub address holds: a clean stub with its number, something else, or a fault. */
  datatype Probe = Stub(number: u32) | NoStub | Unreadable

  /** The eight bytes `4C 8B D1 B8 imm32` sit at `p`. */
  predicate CleanStub(mem: Memory, p: address, number: u32) {
    Holds(mem, p, STUB_PREFIX, 0) && Imm32(mem, p, 4) == Some(number)
  }

  /** Test for `4C 8B D1 B8` at `p` and, if it is there, read the number after it. */
  function ReadStub(mem: Memory, p: address): (r: Probe)
    ensures r.Stub? ==> CleanStub(mem, p, r.number)
    ensures forall n: u32 :: CleanStub(mem, p, n) ==> r == Stub(n)
  {
    MatchFromHolds(mem, p, STUB_PREFIX, 0);
    match MatchFrom(mem, p, STUB_PREFIX, 0)
    case None => Unreadable
    case Some(false) => NoStub
    case Some(true) =>
      match Imm32(mem, p, 4)
      case None => Unreadable
      case Some(n) => Stub(n)
  }

  /** A syscall number the routine accepts. */
  type plausible = x: nat | x < NUMBER_LIMIT

  /** The outcome of one step of the search. */
  datatype Step = Found(n: plausible) | Continue | Violation

  /** The standard pattern at `func` itself. */
  function Standard(mem: Memory, func: address): Step {
    match ReadStub(mem, func)
    case Unreadable => Violation
    case NoStub => Continue
    case Stub(n) => if n < NUMBER_LIMIT then Found(n) else Continue
  }

  /** `is_hooked`: `jmp rel32`, `jmp [rip+disp32]`, or `push imm32; ret`. */
  function Hooked(mem: Memory, func: address): Option<bool> {
    if func !in mem then None
    else if mem[func] == JMP_REL32 then Some(true)
    else if mem[func] == JMP_INDIRECT then
      (if At(func, 1) in mem then Some(mem[At(func, 1)] == MODRM_RIP) else None)
    else if mem[func] == PUSH_IMM32 then
      (if At(func, 5) in mem then Some(mem[At(func, 5)] == RET) else None)
    else Some(false)
  }

  /**
   * The neighbour `offset` stubs above: its number plus `offset`.  As
   * written the sum is taken modulo 2^32; `fixed` rejects a sum that does
   * not fit instead.
   */
  function Up(mem: Memory, func: address, offset: nat, fixed: bool): (r: Step)
    ensures fixed && r.Found? ==> exists m: u32 :: CleanStub(mem, Before(func, STUB_SPACING * offset), m) && r.n == m + offset
    ensures !fixed && r.Found? ==> exists m: u32 :: CleanStub(mem, Before(func, STUB_SPACING * offset), m) && r.n == (m + offset) % WORD
  {
    match ReadStub(mem, Before(func, STUB_SPACING * offset))
    case Unreadable => Violation
    case NoStub => Continue
    case Stub(m) =>
      var n := if fixed then m + offset else (m + offset) % WORD;
      if n < NUMBER_LIMIT then Found(n) else Continue
  }

  /** The neighbour `offset` stubs below: its number minus `offset`, guarded against going negative. */
  function Down(mem: Memory, func: address, offset: nat): (r: Step)
    ensures r.Found? ==> exists m: u32 :: CleanStub(mem, At(func, STUB_SPACING * offset), m) && r.n + offset == m
  {
    match ReadStub(mem, At(func, STUB_SPACING * offset))
    case Unreadable => Violation
    case NoStub => Continue
    case Stub(m) =>
      if m >= offset && m - offset < NUMBER_LIMIT then Found(m - offset) else Continue
  }

  /** One iteration of the halo scan: above first, then below. */
  function Neighbour(mem: Memory, func: address, offset: nat, fixed: bool): Step {
    var u := Up(mem, func, offset, fixed);
    if u.Continue? then Down(mem, func, offset) else u
  }

  /** The halo scan from `offset` on; `Continue` when no neighbour answers. */
  function Halo(mem: Memory, func: address, offset: nat, fixed: bool): Step
    decreases HALO_LIMIT - offset
  {
    if offset >= HALO_LIMIT then Continue
    else
      var s := Neighbour(mem, func, offset, fixed);
      if s.Continue? then Halo(mem, func, offset + 1, fixed) else s
  }

  /** The legacy pattern `B8 imm32` at `func`. */
  function Legacy(mem: Memory, func: address): Step {
    if func !in mem then Violation
    else if mem[func] != MOV_EAX then Continue
    else
      match Imm32(mem, func, 1)
      case None => Violation
      case Some(n) => if n < NUMBER_LIMIT then Found(n) else Continue
  }

  /**
   * `getSyscallNumber`, given the address `getProcAddress` found for the
   * function (0 when the module or the export is missing).
   */
  function SyscallNumber(mem: Memory, func: address, fixed: bool): (r: u32)
    ensures r == SYSCALL_ERROR || r < NUMBER_LIMIT
  {
    if func == 0 then SYSCALL_ERROR
    else
      var s := Standard(mem, func);
      var s := if !s.Continue? then s else
        match Hooked(mem, func)
        case None => Violation
        case Some(hooked) => if hooked then Halo(mem, func, 1, fixed) else Continue;
      var s := if s.Continue? then Legacy(mem, func) else s;
      if s.Found? then s.n else SYSCALL_ERROR
  }

  /** A clean stub at `func` with a plausible number decides the result. */
  lemma StandardFirst(mem: Memory, func: address, n: u32, fixed: bool)
    requires func != 0 && CleanStub(mem, func, n) && n < NUMBER_LIMIT
    ensures SyscallNumber(mem, func, fixed) == n
  {
    assert ReadStub(mem, func) == Stub(n);
  }

  /** A halo scan that finds something found it at some neighbour, every nearer one answering nothing. */
  lemma {:induction false} HaloFound(mem: Memory, func: address, offset: nat, fixed: bool)
    requires !Halo(mem, func, offset, fixed).Continue?
    ensures exists k :: (offset <= k < HALO_LIMIT && Halo(mem, func, offset, fixed) == Neighbour(mem, func, k, fixed)
      && (forall j :: offset <= j < k ==> Neighbour(mem, func, j, fixed).Continue?))
    decreases HALO_LIMIT - offset
  {
    if !Neighbour(mem, func, offset, fixed).Continue? {
      assert offset <= offset < HALO_LIMIT;
    } else {
      HaloFound(mem, func, offset + 1, fixed);
      var k :| offset + 1 <= k < HALO_LIMIT && Halo(mem, func, offset + 1, fixed) == Neighbour(mem, func, k, fixed)
        && (forall j :: offset + 1 <= j < k ==> Neighbour(mem, func, j, fixed).Continue?);
      assert forall j :: offset <= j < k ==> Neighbour(mem, func, j, fixed).Continue?;
    }
  }

  /** The converse: the nearest neighbour that answers decides the scan. */
  lemma {:induction false} HaloNearest(mem: Memory, func: address, offset: nat, k: nat, fixed: bool)
    requires offset <= k < HALO_LIMIT && !Neighbour(mem, func, k, fixed).Continue?
    requires forall j :: offset <= j < k ==> Neighbour(mem, func, j, fixed).Continue?
    ensures Halo(mem, func, offset, fixed) == Neighbour(mem, func, k, fixed)
    decreases k - offset
  {
    if offset < k {
      HaloNearest(mem, func, offset + 1, k, fixed);
    }
  }

  /**
   * Every number the corrected routine returns is read from a clean stub:
   * the function's own, a neighbour `k` stubs above plus `k`, a neighbour
   * `k` stubs below minus `k`, or a legacy `B8 imm32` stub.
   */
  lemma CorrectedNumberSound(mem: Memory, func: address)
    requires SyscallNumber(mem, func, true) != SYSCALL_ERROR
    ensures var n := SyscallNumber(mem, func, true);
      CleanStub(mem, func, n)
      || (exists k, m: u32 :: 1 <= k < HALO_LIMIT && CleanStub(mem, Before(func, STUB_SPACING * k), m) && n == m + k)
      || (exists k, m: u32 :: 1 <= k < HALO_LIMIT && CleanStub(mem, At(func, STUB_SPACING * k), m) && n + k == m)
      || (func in mem && mem[func] == MOV_EAX && Imm32(mem, func, 1) == Some(n))
  {
    var n := SyscallNumber(mem, func, true);
    if Standard(mem, func).Continue? && Hooked(mem, func) == Some(true) && Halo(mem, func, 1, true).Found? {
      HaloFound(mem, func, 1, true);
      var k :| 1 <= k < HALO_LIMIT && Halo(mem, func, 1, true) == Neighbour(mem, func, k, true);
      if Up(mem, func, k, true).Found? {
        var m: u32 :| CleanStub(mem, Before(func, STUB_SPACING * k), m) && n == m + k;
      } else {
        var m: u32 :| CleanStub(mem, At(func, STUB_SPACING * k), m) && n + k == m;
      }
    }
  }

  /**
   * For a hooked stub whose own bytes give no answer, the nearest
   * neighbour that answers decides the result.
   */
  lemma NearestNeighbourDecides(mem: Memory, func: address, k: nat, fixed: bool)
    requires func != 0 && Standard(mem, func).Continue? && Hooked(mem, func) == Some(true)
    requires 1 <= k < HALO_LIMIT && Neighbour(mem, func, k, fixed).Found?
    requires forall j :: 1 <= j < k ==> Neighbour(mem, func, j, fixed).Continue?
    ensures SyscallNumber(mem, func, fixed) == Neighbour(mem, func, k, fixed).n
  {
    HaloNearest(mem, func, 1, k, fixed);
  }

  /** The written and the corrected upward probe differ only where the neighbour's number plus the offset passes 2^32. */
  lemma UpDiffersOnlyOnWrap(mem: Memory, func: address, offset: nat)
    requires Up(mem, func, offset, false) != Up(mem, func, offset, true)
    ensures exists m: u32 :: CleanStub(mem, Before(func, STUB_SPACING * offset), m) && m + offset >= WORD
  {
    var m := ReadStub(mem, Before(func, STUB_SPACING * offset)).number;
    assert m + offset >= WORD;
  }

  /**
   * Upward wrap-around: a hooked stub at 0x1000 whose upper neighbour is a
   * clean stub numbered 0xFFFF_FFFF.  As written, 0xFFFF_FFFF + 1 wraps to 0
   * and 0 comes back as the syscall number; the corrected scan rejects that
   * neighbour, and the routine then faults on the unmapped stub below.
   */
  lemma UpwardNeighbourWraps()
    ensures var mem := WrapExample();
      CleanStub(mem, 0x1000 - STUB_SPACING, 0xFFFF_FFFF)
      && SyscallNumber(mem, 0x1000, false) == 0
      && SyscallNumber(mem, 0x1000, true) == SYSCALL_ERROR
  {
    var mem := WrapExample();
    assert ReadStub(mem, 0x1000) == NoStub;
    assert Hooked(mem, 0x1000) == Some(true);
    assert CleanStub(mem, Before(0x1000, STUB_SPACING * 1), 0xFFFF_FFFF);
    assert Up(mem, 0x1000, 1, false) == Found(0);
    assert Up(mem, 0x1000, 1, true) == Continue;
    assert Down(mem, 0x1000, 1) == Violation;
  }

  /** A hooked `jmp rel32` at 0x1000 below a clean stub numbered 0xFFFF_FFFF. */
  function WrapExample(): (mem: Memory)
    ensures 0x1000 in mem && mem[0x1000] == JMP_REL32
  {
    map[0x1000 := JMP_REL32,
        0xFE0 := 0x4C, 0xFE1 := 0x8B, 0xFE2 := 0xD1, 0xFE3 := 0xB8,
        0xFE4 := 0xFF, 0xFE5 := 0xFF, 0xFE6 := 0xFF, 0xFE7 := 0xFF]
  }

  /**
   * `getSyscallNumber` with its scan loop: offsets 1 to 499, above before
   * below, stopping at the first neighbour that gives an answer.
   */
  method GetSyscallNumber(mem: Memory, func: address, fixed: bool) returns (r: u32)
    ensures r == SyscallNumber(mem, func, fixed)
  {
    if func == 0 {
      return SYSCALL_ERROR;
    }
    var s := Standard(mem, func);
    if s.Found? {
      return s.n;
    } else if s.Violation? {
      return SYSCALL_ERROR;
    }
    var hooked := Hooked(mem, func);
    if hooked.None? {
      return SYSCALL_ERROR;
    }
    if hooked.value {
      var offset := 1;
      while offset < HALO_LIMIT
        invariant 1 <= offset <= HALO_LIMIT
        invariant Halo(mem, func, 1, fixed) == Halo(mem, func, offset, fixed)
      {
        var up := Up(mem, func, offset, fixed);
        if up.Found? {
          return up.n;
        } else if up.Violation? {
          return SYSCALL_ERROR;
        }
        var down := Down(mem, func, offset);
        if down.Found? {
          return down.n;
        } else if down.Violation? {
          return SYSCALL_ERROR;
        }
        offset := offset + 1;
      }
    }
    var legacy := Legacy(mem, func);
    if legacy.Found? {
      return legacy.n;
    }
    return SYSCALL_ERROR;
  }
}
