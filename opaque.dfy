/**
 * The opaque predicates of `control_flow`: the eight `opaque_detail`
 * predicates, their per-call-site pairing in `opaque_true<N>` and
 * `opaque_false<N>`, and `indirect_branch`.  Stack addresses, time-stamp
 * readings, thread ids, return addresses and module bases are parameters;
 * `Platform` says which branch of the platform conditionals is compiled.
 */
module Opaque {
  import Bools

  /** User-mode Windows, kernel-mode Windows, or any other target. */
  datatype Platform = UserWindows | KernelWindows | Portable

  /** A `uint64_t`. */
  const U64_MOD: nat := 0x1_0000_0000_0000_0000
  type u64 = x: nat | x < U64_MOD

  /**
   * What one predicate call reads from the machine: the stack address, a
   * time-stamp reading, the two consecutive readings of predicate 7, the
   * thread id, the return address and the module base.
   */
  datatype Probe = Probe(sp: bv64, tsc: bv64, tscFirst: u64, tscLater: u64, tid: bv32, retAddr: bv64, moduleBase: bv64)

  /** `static_cast<uint32_t>` of a pointer-sized value. */
  function Low32(x: bv64): bv32 {
    (x & 0xFFFF_FFFF) as bv32
  }

  /** `static_cast<uint32_t>` of an `int`: its two's-complement bits. */
  function IntBits(x: int): bv32 {
    (x % 0x1_0000_0000) as bv32
  }

  /** Predicate 0: a multiply-xor-shift hash h of the stack address, then h + ~h. */
  function StackHashTrue(seed: int, sp: bv64): (r: bool)
    ensures r
  {
    var h0 := Low32(sp) ^ IntBits(seed);
    var h1 := h0 * 0x45D_9F3B;
    var h2 := h1 ^ (h1 >> 16);
    var h3 := h2 * 0x119D_E1F3;
    var h := h3 ^ (h3 >> 13);
    Bools.ComplementSum(h);
    h + !h == 0xFFFF_FFFF
  }

  /** Predicate 1: (tsc ^ sp) | ~(tsc ^ sp) is all ones. */
  function TscStackTrue(platform: Platform, sp: bv64, tsc: bv64): (r: bool)
    ensures r
  {
    if platform == Portable then true
    else
      var mixed := tsc ^ sp;
      Bools.OrComplement(mixed);
      (mixed | !mixed) == 0xFFFF_FFFF_FFFF_FFFF
  }

  /** One step of the Collatz-like transform. */
  function CollatzStep(v: bv32): bv32 {
    if v & 1 == 1 then v * 3 + 1 else v >> 1
  }

  /** The transform applied `n` times. */
  function Collatz(v: bv32, n: nat): bv32 {
    if n == 0 then v else CollatzStep(Collatz(v, n - 1))
  }

  /**
   * Predicate 2: three transform steps of the thread id with bit 8 set, then
   * the untransformed copy xored with itself.
   */
  method TidTransformTrue(platform: Platform, tid: bv32) returns (r: bool, v: bv32)
    ensures r
    ensures platform != Portable ==> v == Collatz(tid | 0x100, 3)
  {
    if platform == Portable {
      return true, tid;
    }
    v := tid | 0x100;
    var orig := v;
    var i := 0;
    while i < 3
      invariant 0 <= i <= 3
      invariant v == Collatz(orig, i)
    {
      v := CollatzStep(v);
      i := i + 1;
    }
    r := orig ^ orig == 0;
  }

  /** Predicate 3: a 16-bit Feistel-like mix of the stack address, subtracted from itself. */
  function MacEntropyTrue(seed: int, sp: bv64): (r: bool)
    ensures r
  {
    var addrBits := Low32(sp);
    var lo := (addrBits & 0xFFFF) as bv16;
    var hi := (addrBits >> 16) as bv16;
    var mixed := hi ^ (lo * 0x7F + (IntBits(seed) & 0xFFFF) as bv16);
    var diff := mixed as int - mixed as int;
    diff == 0
  }

  /** The low stack byte through (v * 7 + 3) & 0xFF, then (v * 11 + 5) & 0xFF. */
  function DualPathByte(sp: bv64): bv32 {
    var v0 := (sp & 0xFF) as bv32;
    var v1 := (v0 * 7 + 3) & 0xFF;
    (v1 * 11 + 5) & 0xFF
  }

  /** Predicate 4: the same computation along two paths agrees. */
  function DualPathTrue(sp: bv64): (r: bool)
    ensures r
  {
    DualPathByte(sp) == DualPathByte(sp)
  }

  /** Predicate 5: the return address xored with itself. */
  function RetAddrTrue(retAddr: bv64): (r: bool)
    ensures r
  {
    retAddr ^ retAddr == 0
  }

  /** Predicate 6: a hash of the module base, masked with zero. */
  function ModuleHashTrue(platform: Platform, base: bv64): (r: bool)
    ensures r
  {
    if platform == Portable then true
    else
      var h0 := Low32(base) * 0x85EB_CA6B;
      var h1 := h0 ^ (h0 >> 13);
      var h := h1 * 0xC2B2_AE35;
      h & 0 == 0
  }

  /** The bound the wrapped time-stamp difference is compared against. */
  const DELTA_BOUND: nat := 0xFFFF_FFFF_0000_0000

  /** Predicate 7: the difference t2 - t1 of two readings, wrapped to 64 bits, is below the bound. */
  function TscDeltaTrue(platform: Platform, t1: u64, t2: u64): bool {
    platform == Portable || (t2 - t1) % U64_MOD < DELTA_BOUND
  }

  /** Readings that do not go backwards, the later one below the bound, satisfy predicate 7. */
  lemma TscDeltaForward(platform: Platform, t1: u64, t2: u64)
    requires t1 <= t2 < DELTA_BOUND
    ensures TscDeltaTrue(platform, t1, t2)
  {
  }

  /**
   * On Windows, a later reading that is below the earlier one by at most
   * 2^32 (a migration to a core whose counter lags) fails predicate 7.
   */
  lemma TscDeltaBackward(platform: Platform, t1: u64, t2: u64)
    requires platform != Portable
    requires t2 < t1 <= t2 + 0x1_0000_0000
    ensures !TscDeltaTrue(platform, t1, t2)
  {
    assert (t2 - t1) % U64_MOD == U64_MOD + (t2 - t1);
  }

  /** C++ `%` on `int`: the remainder takes the sign of the dividend. */
  function CppRem(a: int, b: int): (r: int)
    requires b > 0
    ensures a >= 0 ==> 0 <= r < b
    ensures a < 0 ==> -b < r <= 0
  {
    if a >= 0 then a % b else -((-a) % b)
  }

  /** The predicate that `opaque_true<N>` selects first, and the one it chains second. */
  function PrimarySelector(n: int): int { CppRem(n, 8) }
  function SecondarySelector(n: int): int { CppRem(n * 3 + 1, 8) }

  /** Selectors 0 to 6 name an always-true predicate; every other value selects predicate 7. */
  predicate SelectsDelta(selector: int) {
    !(0 <= selector <= 6)
  }

  /** The one way a selected predicate can be false: it is predicate 7 and the readings fail it. */
  predicate SelectedHolds(selector: int, platform: Platform, p: Probe) {
    !SelectsDelta(selector) || TscDeltaTrue(platform, p.tscFirst, p.tscLater)
  }

  /** The outcome of `opaque_true<N>` given the probes of its two predicate calls. */
  predicate OpaqueOutcome(n: int, platform: Platform, first: Probe, second: Probe) {
    SelectedHolds(PrimarySelector(n), platform, first) && SelectedHolds(SecondarySelector(n), platform, second)
  }

  /** Calls the predicate `selector` names. */
  method Predicate(selector: int, seed: int, platform: Platform, p: Probe) returns (r: bool)
    ensures r == SelectedHolds(selector, platform, p)
  {
    if selector == 0 {
      r := StackHashTrue(seed, p.sp);
    } else if selector == 1 {
      r := TscStackTrue(platform, p.sp, p.tsc);
    } else if selector == 2 {
      var v;
      r, v := TidTransformTrue(platform, p.tid);
    } else if selector == 3 {
      r := MacEntropyTrue(seed, p.sp);
    } else if selector == 4 {
      r := DualPathTrue(p.sp);
    } else if selector == 5 {
      r := RetAddrTrue(p.retAddr);
    } else if selector == 6 {
      r := ModuleHashTrue(platform, p.moduleBase);
    } else {
      r := TscDeltaTrue(platform, p.tscFirst, p.tscLater);
    }
  }

  /**
   * `opaque_true<N>()`: the seed is the low byte of a local's address plus
   * N; the primary predicate is chained with the secondary one, called with
   * seed + 1, by `&&`.
   */
  method OpaqueTrue(n: int, seedAddr: bv64, platform: Platform, first: Probe, second: Probe) returns (r: bool)
    ensures r == OpaqueOutcome(n, platform, first, second)
  {
    var seed := ((seedAddr & 0xFF) as int) + n;
    r := Predicate(PrimarySelector(n), seed, platform, first);
    if r {
      r := Predicate(SecondarySelector(n), seed + 1, platform, second);
    }
  }

  /** `opaque_false<N>()` negates `opaque_true<N>()`. */
  method OpaqueFalse(n: int, seedAddr: bv64, platform: Platform, first: Probe, second: Probe) returns (r: bool)
    ensures r == !OpaqueOutcome(n, platform, first, second)
  {
    r := OpaqueTrue(n, seedAddr, platform, first, second);
    r := !r;
  }

  /**
   * For N in the default range [0, 7], `opaque_true<N>` is true on every
   * input unless N is 2 or 7, which select predicate 7 (secondary and
   * primary respectively); off Windows it is always true.
   */
  lemma {:induction false} OpaqueTrueHolds(n: int, platform: Platform, first: Probe, second: Probe)
    requires 0 <= n <= 7
    ensures platform == Portable ==> OpaqueOutcome(n, platform, first, second)
    ensures n != 2 && n != 7 ==> OpaqueOutcome(n, platform, first, second)
    ensures n == 7 ==> (OpaqueOutcome(n, platform, first, second) <==> TscDeltaTrue(platform, first.tscFirst, first.tscLater))
    ensures n == 2 ==> (OpaqueOutcome(n, platform, first, second) <==> TscDeltaTrue(platform, second.tscFirst, second.tscLater))
  {
    assert PrimarySelector(n) == n;
    if n == 0 {
      assert SecondarySelector(n) == 1;
    } else if n == 1 {
      assert SecondarySelector(n) == 4;
    } else if n == 2 {
      assert SecondarySelector(n) == 7;
    } else if n == 3 {
      assert SecondarySelector(n) == 2;
    } else if n == 4 {
      assert SecondarySelector(n) == 5;
    } else if n == 5 {
      assert SecondarySelector(n) == 0;
    } else if n == 6 {
      assert SecondarySelector(n) == 3;
    } else {
      assert SecondarySelector(n) == 6;
    }
  }

  /** On Windows, `opaque_true<7>` is false when the second reading lags the first. */
  lemma OpaqueTrueCanFail(first: Probe, second: Probe)
    requires first.tscFirst == 1 && first.tscLater == 0
    ensures !OpaqueOutcome(7, UserWindows, first, second)
  {
    OpaqueTrueHolds(7, UserWindows, first, second);
    TscDeltaBackward(UserWindows, 1, 0);
  }

  /**
   * `indirect_branch(value)` for a 64-bit integral `T`: one of five
   * identity rewrites, chosen by a random word modulo 5.
   */
  function IndirectBranch(value: bv64, random: bv64): (r: bv64)
    ensures r == value
  {
    var selector := (random as nat) % 5;
    if selector == 0 then XorZero(value)
    else if selector == 1 then ScaleByOne(value)
    else if selector == 2 then AddSubZero(value)
    else if selector == 3 then OrMaskedZero(value)
    else ShiftByZero(value)
  }

  /** `value ^ 0 ^ 0`. */
  function XorZero(value: bv64): (r: bv64)
    ensures r == value
  {
    value ^ 0 ^ 0
  }

  /** `(value * 1) / 1`. */
  function ScaleByOne(value: bv64): (r: bv64)
    ensures r == value
  {
    var m := value * 1;
    assert m == value;
    m / 1
  }

  /** `value + 0 - 0`. */
  function AddSubZero(value: bv64): (r: bv64)
    ensures r == value
  {
    value + 0 - 0
  }

  /** `value | (0 & ~0)`. */
  function OrMaskedZero(value: bv64): (r: bv64)
    ensures r == value
  {
    value | (0 & !0)
  }

  /** `(value << 0) >> 0`. */
  function ShiftByZero(value: bv64): (r: bv64)
    ensures r == value
  {
    (value << 0) >> 0
  }
}
