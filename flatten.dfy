/**
 * Control-flow flattening: the case-value derivations of `cfg_flatten`,
 * the dispatcher loop the `CW_FLAT_*` macros expand to, the fixed-shape
 * machine of `CW_PROTECT`, and `flattened_flow::execute`.
 *
 * User code is abstract: a block body is a function on an environment `E`,
 * conditions and switch selectors are functions of it, and a returned
 * value is a function of it into the result type `R`.  The outcome of each
 * `opaque_true<>()` call is an oracle indexed by the loop count at which it
 * is made (module Opaque says when those outcomes are true).
 */
module Flatten {
  import Mba

  /** The iteration ceiling of the `CW_FLAT_*` and `CW_PROTECT` loops. */
  const CEILING: nat := 16384

  /** The number of dead blocks every dispatcher carries. */
  const DEAD_COUNT: nat := 6

  lemma OddOr(h: bv32)
    ensures (h | 1) & 1 == 1
  {
  }

  /** `derive_state(block_id, seed)`: a keyed hash of the block id, forced odd. */
  function DeriveState(blockId: bv32, seed: bv32): (r: bv32)
    ensures r & 1 == 1
  {
    var h0 := blockId + seed;
    var h1 := h0 ^ (h0 >> 16);
    var h2 := h1 * 0x45D_9F3B;
    var h3 := h2 ^ (h2 >> 16);
    var h4 := h3 * 0x119D_E1F3;
    var h := h4 ^ (h4 >> 13);
    OddOr(h);
    h | 1
  }

  /** `derive_dead(index, seed)`: a differently keyed hash of the dead-block index, forced odd. */
  function DeriveDead(index: bv32, seed: bv32): (r: bv32)
    ensures r & 1 == 1
  {
    var h0 := (index + 0xDEAD_0000) ^ seed;
    var h1 := h0 ^ (h0 >> 15);
    var h2 := h1 * 0x2C1B_3C6D;
    var h3 := h2 ^ (h2 >> 15);
    var h4 := h3 * 0x297A_2D39;
    var h := h4 ^ (h4 >> 13);
    OddOr(h);
    h | 1
  }

  /**
   * The dead block that dead block `i` moves to when the (incremented) loop
   * count is `it`: 0 -> 1 -> 2 -> 3 -> (4 if the low byte of `it` exceeds
   * 128, else 0), 4 -> 5 -> 0.  Dead blocks only lead to dead blocks.
   */
  function DeadNext(i: nat, it: nat): (j: nat)
    requires i < DEAD_COUNT
    ensures j < DEAD_COUNT
  {
    if i == 3 then (if it % 256 > 128 then 4 else 0)
    else if i == 5 then 0
    else i + 1
  }

  /**
   * The case values of one dispatcher: the value of each block id, the six
   * dead-block values and the sentinel `_CW_FLAT_DEAD(0xFF)`.
   */
  datatype Labels = Labels(stateOf: bv32 -> bv32, dead: seq<bv32>, sentinel: bv32)

  predicate ValidLabels(l: Labels) {
    |l.dead| == DEAD_COUNT
  }

  /** The case values derived from the per-region seed. */
  function SeedLabels(seed: bv32): (l: Labels)
    ensures ValidLabels(l)
  {
    Labels(id => DeriveState(id, seed),
      [DeriveDead(0, seed), DeriveDead(1, seed), DeriveDead(2, seed),
       DeriveDead(3, seed), DeriveDead(4, seed), DeriveDead(5, seed)],
      DeriveDead(0xFF, seed))
  }

  /** Every case value a seed derives is odd. */
  lemma SeedLabelsOdd(seed: bv32, id: bv32)
    ensures SeedLabels(seed).stateOf(id) & 1 == 1
    ensures forall i :: 0 <= i < DEAD_COUNT ==> SeedLabels(seed).dead[i] & 1 == 1
    ensures SeedLabels(seed).sentinel & 1 == 1
  {
  }

  /** The first position of `d` in `s`, or `|s|` when it does not occur. */
  function IndexOf<T(==)>(s: seq<T>, d: T): (i: nat)
    ensures i <= |s|
    ensures i < |s| ==> s[i] == d
    ensures forall j :: 0 <= j < i ==> s[j] != d
  {
    if |s| == 0 then 0
    else if s[0] == d then 0
    else 1 + IndexOf(s[1..], d)
  }

  // ---------------------------------------------------------------------
  // CW_FLAT_*
  // ---------------------------------------------------------------------

  /** The transition macro that ends a block. */
  datatype Transition<-E, R> =
    | Goto(target: bv32)                                            // CW_FLAT_GOTO
    | GotoObf(target: bv32)                                         // CW_FLAT_GOTO_OBF
    | If(cond: E -> bool, onTrue: bv32, onFalse: bv32)              // CW_FLAT_IF
    | IfObf(cond: E -> bool, onTrue: bv32, onFalse: bv32)           // CW_FLAT_IF_OBF
    | Switch(sel: E -> int, arms: seq<(int, bv32)>, otherwise: bv32) // CW_FLAT_SWITCH2..4
    | Return(value: E -> R)                                         // CW_FLAT_RETURN
    | Exit                                                          // CW_FLAT_EXIT

  /** `CW_FLAT_BLOCK(id)`: the block's code, then its transition. */
  datatype Block<!E, R> = Block(id: bv32, body: E -> E, exit: Transition<E, R>)

  /** The loop variables: shared variables, `_cw_flat_res`, `_cw_flat_run`, `_cw_flat_it`, `_cw_flat_st`. */
  datatype Config<E, R> = Config(env: E, res: R, run: bool, it: nat, st: bv32)

  /**
   * What the compiler demands of a dispatcher: the case values of the
   * blocks, the dead blocks and the sentinel are pairwise distinct, and a
   * switch has two to four arms.
   */
  predicate WellFormed<E, R>(l: Labels, blocks: seq<Block<E, R>>) {
    && ValidLabels(l)
    && (forall i, j :: 0 <= i < j < |l.dead| ==> l.dead[i] != l.dead[j])
    && l.sentinel !in l.dead
    && (forall k :: 0 <= k < |blocks| ==> l.stateOf(blocks[k].id) !in l.dead && l.stateOf(blocks[k].id) != l.sentinel)
    && (forall j, k :: 0 <= j < k < |blocks| ==> l.stateOf(blocks[j].id) != l.stateOf(blocks[k].id))
    && (forall k :: 0 <= k < |blocks| && blocks[k].exit.Switch? ==> 2 <= |blocks[k].exit.arms| <= 4)
  }

  /** The first block whose case value is `d`, or `|blocks|`. */
  function BlockIndex<E, R>(l: Labels, blocks: seq<Block<E, R>>, d: bv32): (k: nat)
    ensures k <= |blocks|
    ensures k < |blocks| ==> l.stateOf(blocks[k].id) == d
    ensures forall j :: 0 <= j < k ==> l.stateOf(blocks[j].id) != d
  {
    if |blocks| == 0 then 0
    else if l.stateOf(blocks[0].id) == d then 0
    else 1 + BlockIndex(l, blocks[1..], d)
  }

  /** The block a switch goes to: the first arm whose value matches, else the default. */
  function SwitchTarget(v: int, arms: seq<(int, bv32)>, otherwise: bv32): (t: bv32)
    ensures (exists a :: a in arms && a.1 == t) || t == otherwise
  {
    if |arms| == 0 then otherwise
    else if arms[0].0 == v then arms[0].1
    else SwitchTarget(v, arms[1..], otherwise)
  }

  /** Runs a block's code and its transition; `opq` is the outcome of the opaque predicate it may call. */
  function Transit<E, R>(l: Labels, b: Block<E, R>, opq: bool, c: Config<E, R>): (c': Config<E, R>)
    requires ValidLabels(l)
    ensures c'.it == c.it
  {
    var env := b.body(c.env);
    match b.exit
    case Goto(t) => c.(env := env, st := l.stateOf(t))
    case GotoObf(t) => c.(env := env, st := if opq then l.stateOf(t) else l.dead[0])
    case If(cond, t, f) => c.(env := env, st := l.stateOf(if cond(env) then t else f))
    case IfObf(cond, t, f) =>
      c.(env := env, st := if cond(env) then (if opq then l.stateOf(t) else l.dead[0])
                           else (if opq then l.stateOf(f) else l.dead[1]))
    case Switch(sel, arms, otherwise) => c.(env := env, st := l.stateOf(SwitchTarget(sel(env), arms, otherwise)))
    case Return(value) => c.(env := env, res := value(env), run := false)
    case Exit => c.(env := env, run := false)
  }

  /**
   * One iteration of the dispatch loop: increment the count, then run the
   * case whose value is the state (a dead block, the sentinel, which
   * breaks without a transition, or a user block); a state that matches no
   * case clears `run`.
   */
  function Step<E, R>(l: Labels, blocks: seq<Block<E, R>>, oracle: nat -> bool, c: Config<E, R>): (c': Config<E, R>)
    requires ValidLabels(l)
    ensures c'.it == c.it + 1
  {
    var it := c.it + 1;
    var di := IndexOf(l.dead, c.st);
    if di < DEAD_COUNT then c.(it := it, st := l.dead[DeadNext(di, it)])
    else if c.st == l.sentinel then c.(it := it)
    else
      var k := BlockIndex(l, blocks, c.st);
      if k < |blocks| then Transit(l, blocks[k], oracle(it), c.(it := it))
      else c.(it := it, run := false)
  }

  /** The loop `while (_cw_flat_run && _cw_flat_it < 16384u)`. */
  function Run<E, R>(l: Labels, blocks: seq<Block<E, R>>, oracle: nat -> bool, c: Config<E, R>): Config<E, R>
    requires ValidLabels(l)
    decreases CEILING - c.it
  {
    if c.run && c.it < CEILING then Run(l, blocks, oracle, Step(l, blocks, oracle, c)) else c
  }

  /** `CW_FLAT_FUNC` and `CW_FLAT_ENTRY(entry)`: value-initialised result, running, count 0. */
  function Initial<E, R>(l: Labels, entry: bv32, env: E, zero: R): Config<E, R> {
    Config(env, zero, true, 0, l.stateOf(entry))
  }

  /** The loop stops only when `run` is cleared or the count reaches the ceiling. */
  lemma {:induction false} RunStops<E, R>(l: Labels, blocks: seq<Block<E, R>>, oracle: nat -> bool, c: Config<E, R>)
    requires ValidLabels(l) && c.it <= CEILING
    ensures var r := Run(l, blocks, oracle, c);
      c.it <= r.it <= CEILING && (!r.run || r.it == CEILING)
    decreases CEILING - c.it
  {
    if c.run && c.it < CEILING {
      RunStops(l, blocks, oracle, Step(l, blocks, oracle, c));
    }
  }

  /** A state that matches no case ends the loop at once, changing nothing else. */
  lemma DefaultStops<E, R>(l: Labels, blocks: seq<Block<E, R>>, oracle: nat -> bool, c: Config<E, R>)
    requires ValidLabels(l) && c.run && c.it < CEILING
    requires c.st !in l.dead && c.st != l.sentinel && BlockIndex(l, blocks, c.st) == |blocks|
    ensures var r := Run(l, blocks, oracle, c);
      !r.run && r.it == c.it + 1 && r.env == c.env && r.res == c.res
  {
  }

  /**
   * Once in a dead block, the loop cycles through dead blocks until the
   * ceiling: the shared variables and the result never change.
   */
  lemma {:induction false} DeadAbsorbing<E, R>(l: Labels, blocks: seq<Block<E, R>>, oracle: nat -> bool, c: Config<E, R>)
    requires ValidLabels(l) && c.run && c.it <= CEILING && c.st in l.dead
    ensures var r := Run(l, blocks, oracle, c);
      r.run && r.it == CEILING && r.st in l.dead && r.env == c.env && r.res == c.res
    decreases CEILING - c.it
  {
    if c.it < CEILING {
      var di := IndexOf(l.dead, c.st);
      var c' := Step(l, blocks, oracle, c);
      assert c'.st == l.dead[DeadNext(di, c.it + 1)];
      DeadAbsorbing(l, blocks, oracle, c');
    }
  }

  /** The sentinel case breaks without a transition, so the loop spins to the ceiling. */
  lemma {:induction false} SentinelSpins<E, R>(l: Labels, blocks: seq<Block<E, R>>, oracle: nat -> bool, c: Config<E, R>)
    requires ValidLabels(l) && l.sentinel !in l.dead
    requires c.run && c.it <= CEILING && c.st == l.sentinel
    ensures Run(l, blocks, oracle, c) == c.(it := CEILING)
    decreases CEILING - c.it
  {
    if c.it < CEILING {
      SentinelSpins(l, blocks, oracle, Step(l, blocks, oracle, c));
    }
  }

  /** A `CW_FLAT_RETURN` block stores its value and ends the loop. */
  lemma ReturnStops<E, R>(l: Labels, blocks: seq<Block<E, R>>, oracle: nat -> bool, c: Config<E, R>, k: nat)
    requires WellFormed(l, blocks) && c.run && c.it < CEILING
    requires k < |blocks| && c.st == l.stateOf(blocks[k].id) && blocks[k].exit.Return?
    ensures var r := Run(l, blocks, oracle, c);
      !r.run && r.it == c.it + 1 && r.res == blocks[k].exit.value(blocks[k].body(c.env))
  {
    assert IndexOf(l.dead, c.st) == DEAD_COUNT;
    assert BlockIndex(l, blocks, c.st) == k;
  }

  /**
   * When the opaque predicate of a `CW_FLAT_GOTO_OBF` or `CW_FLAT_IF_OBF`
   * block fails, control enters the dead cycle: the loop runs to the ceiling
   * and the result is never set again.
   */
  lemma ObfuscatedMiss<E, R>(l: Labels, blocks: seq<Block<E, R>>, oracle: nat -> bool, c: Config<E, R>, k: nat)
    requires WellFormed(l, blocks) && c.run && c.it < CEILING
    requires k < |blocks| && c.st == l.stateOf(blocks[k].id)
    requires (blocks[k].exit.GotoObf? || blocks[k].exit.IfObf?) && !oracle(c.it + 1)
    ensures var r := Run(l, blocks, oracle, c);
      r.run && r.it == CEILING && r.res == c.res
  {
    assert IndexOf(l.dead, c.st) == DEAD_COUNT;
    assert BlockIndex(l, blocks, c.st) == k;
    var c' := Step(l, blocks, oracle, c);
    assert c'.st == l.dead[0] || c'.st == l.dead[1];
    DeadAbsorbing(l, blocks, oracle, c');
  }

  /** Runs one user block: its code, then its transition (a `Transit` step). */
  method RunBlock<E, R>(l: Labels, b: Block<E, R>, opq: bool, env0: E, res0: R, it: nat, st0: bv32)
    returns (env: E, res: R, run: bool, st: bv32)
    requires ValidLabels(l)
    ensures Config(env, res, run, it, st) == Transit(l, b, opq, Config(env0, res0, true, it, st0))
  {
    env, res, run, st := b.body(env0), res0, true, st0;
    match b.exit {
      case Goto(t) =>
        st := l.stateOf(t);
      case GotoObf(t) =>
        st := if opq then l.stateOf(t) else l.dead[0];
      case If(cond, t, f) =>
        st := l.stateOf(if cond(env) then t else f);
      case IfObf(cond, t, f) =>
        if cond(env) {
          st := if opq then l.stateOf(t) else l.dead[0];
        } else {
          st := if opq then l.stateOf(f) else l.dead[1];
        }
      case Switch(sel, arms, otherwise) =>
        st := l.stateOf(SwitchTarget(sel(env), arms, otherwise));
      case Return(value) =>
        res := value(env);
        run := false;
      case Exit =>
        run := false;
    }
  }

  /**
   * The dispatcher of `CW_FLAT_FUNC(ret_type) ... CW_FLAT_END`: returns
   * `_cw_flat_res` once the loop stops.  The case values `l` are the
   * compile-time constants `SeedLabels(seed)` of the region's seed.
   */
  method Execute<E, R>(l: Labels, blocks: seq<Block<E, R>>, entry: bv32, env0: E, zero: R, oracle: nat -> bool)
    returns (res: R)
    requires ValidLabels(l)
    ensures res == Run(l, blocks, oracle, Initial(l, entry, env0, zero)).res
  {
    ghost var c0 := Initial(l, entry, env0, zero);
    var env, run, it, st := env0, true, 0, l.stateOf(entry);
    res := zero;
    while run && it < CEILING
      invariant it <= CEILING
      invariant Run(l, blocks, oracle, Config(env, res, run, it, st)) == Run(l, blocks, oracle, c0)
      decreases CEILING - it
    {
      ghost var before := Config(env, res, run, it, st);
      var d := st;
      it := it + 1;
      var di := IndexOf(l.dead, d);
      if di < DEAD_COUNT {
        st := l.dead[DeadNext(di, it)];
      } else if d == l.sentinel {
      } else {
        var k := BlockIndex(l, blocks, d);
        if k < |blocks| {
          env, res, run, st := RunBlock(l, blocks[k], oracle(it), env, res, it, st);
        } else {
          run := false;
        }
      }
      assert Config(env, res, run, it, st) == Step(l, blocks, oracle, before);
    }
  }

  // ---------------------------------------------------------------------
  // CW_PROTECT
  // ---------------------------------------------------------------------

  /** The loop variables of `CW_PROTECT`, and how many times the body has run. */
  datatype ProtectConfig<R> = ProtectConfig(res: R, run: bool, it: nat, st: bv32, calls: nat)

  const U32_MOD: nat := 0x1_0000_0000

  /** The five user states of `CW_PROTECT`: `_CW_FLAT_STATE(0)` to `_CW_FLAT_STATE(4)`. */
  function ProtectState(l: Labels, k: nat): bv32
    requires k < 5
  {
    l.stateOf(k as bv32)
  }

  /** The first of the five user states equal to `d`, or 5. */
  function ProtectIndex(l: Labels, d: bv32): (k: nat)
    ensures k <= 5
    ensures k < 5 ==> ProtectState(l, k) == d
    ensures forall j :: 0 <= j < k ==> ProtectState(l, j) != d
  {
    if ProtectState(l, 0) == d then 0
    else if ProtectState(l, 1) == d then 1
    else if ProtectState(l, 2) == d then 2
    else if ProtectState(l, 3) == d then 3
    else if ProtectState(l, 4) == d then 4
    else 5
  }

  /** The eleven case values of `CW_PROTECT` are pairwise distinct, as its switch demands. */
  predicate ProtectWellFormed(l: Labels) {
    && ValidLabels(l)
    && (forall i, j :: 0 <= i < j < |l.dead| ==> l.dead[i] != l.dead[j])
    && (forall k :: 0 <= k < 5 ==> ProtectState(l, k) !in l.dead)
    && (forall j, k :: 0 <= j < k < 5 ==> ProtectState(l, j) != ProtectState(l, k))
  }

  /** State 1's test: `(op * (op - 1u)) & 1u` with `op = _cw_flat_it | 2u`, in 32-bit arithmetic. */
  function ProtectGuard(it: nat): bool {
    var op := Mba.Or(it, 2) % U32_MOD;
    (op * ((op - 1) % U32_MOD)) % U32_MOD % 2 == 1
  }

  /** x mod an even m keeps the parity of x. */
  lemma ModEvenParity(x: int, m: int)
    requires m > 0 && m % 2 == 0
    ensures (x % m) % 2 == x % 2
  {
    var q, h := x / m, m / 2;
    assert m == 2 * h;
    assert x == q * m + x % m;
    assert q * m == 2 * (q * h);
    Mba.ModUnique(x, q * h + (x % m) / 2, (x % m) % 2, 2);
  }

  /** The product of two numbers of different parity is even. */
  lemma ProductEven(a: int, b: int)
    requires a % 2 != b % 2
    ensures (a * b) % 2 == 0
  {
    if a % 2 == 0 {
      assert a == 2 * (a / 2);
      assert a * b == 2 * ((a / 2) * b);
    } else {
      assert b == 2 * (b / 2);
      assert a * b == 2 * (a * (b / 2));
    }
  }

  /** The product of consecutive numbers is even, so state 1 always moves on to state 2. */
  lemma GuardNeverHolds(it: nat)
    ensures !ProtectGuard(it)
  {
    var op := Mba.Or(it, 2) % U32_MOD;
    var prev := (op - 1) % U32_MOD;
    ModEvenParity(op - 1, U32_MOD);
    ProductEven(op, prev);
    ModEvenParity(op * prev, U32_MOD);
  }

  /** One iteration of the `CW_PROTECT` loop; `value` is the result of the wrapped code. */
  function ProtectStep<R>(l: Labels, oracle: nat -> bool, value: R, c: ProtectConfig<R>): (c': ProtectConfig<R>)
    requires ValidLabels(l)
    ensures c'.it == c.it + 1
  {
    var it := c.it + 1;
    var di := IndexOf(l.dead, c.st);
    if di < DEAD_COUNT then c.(it := it, st := l.dead[DeadNext(di, it)])
    else
      var k := ProtectIndex(l, c.st);
      if k == 0 then c.(it := it, st := if oracle(it) then ProtectState(l, 1) else l.dead[0])
      else if k == 1 then c.(it := it, st := if ProtectGuard(it) then l.dead[3] else ProtectState(l, 2))
      else if k == 2 then c.(it := it, res := value, calls := c.calls + 1, st := ProtectState(l, 3))
      else if k == 3 then c.(it := it, st := if oracle(it) then ProtectState(l, 4) else l.dead[5])
      else c.(it := it, run := false)
  }

  function ProtectRun<R>(l: Labels, oracle: nat -> bool, value: R, c: ProtectConfig<R>): ProtectConfig<R>
    requires ValidLabels(l)
    decreases CEILING - c.it
  {
    if c.run && c.it < CEILING then ProtectRun(l, oracle, value, ProtectStep(l, oracle, value, c)) else c
  }

  function ProtectInitial<R>(l: Labels, zero: R): ProtectConfig<R> {
    ProtectConfig(zero, true, 0, ProtectState(l, 0), 0)
  }

  /** What every reachable `CW_PROTECT` configuration satisfies. */
  ghost predicate ProtectInv<R>(l: Labels, value: R, zero: R, c: ProtectConfig<R>)
    requires ValidLabels(l)
  {
    && c.calls <= 1
    && (c.calls == 0 ==> c.res == zero)
    && (c.calls == 1 ==> c.res == value && (c.st == ProtectState(l, 3) || c.st == ProtectState(l, 4) || c.st in l.dead))
  }

  lemma ProtectStepInv<R>(l: Labels, oracle: nat -> bool, value: R, zero: R, c: ProtectConfig<R>)
    requires ProtectWellFormed(l) && ProtectInv(l, value, zero, c)
    ensures ProtectInv(l, value, zero, ProtectStep(l, oracle, value, c))
  {
    var di := IndexOf(l.dead, c.st);
    var c' := ProtectStep(l, oracle, value, c);
    if di < DEAD_COUNT {
      assert c'.st in l.dead && c'.res == c.res && c'.calls == c.calls;
    } else {
      var k := ProtectIndex(l, c.st);
      if c.calls == 1 {
        assert k == 3 || k == 4;
        assert c'.calls == 1 && c'.res == value;
      }
    }
  }

  lemma {:induction false} ProtectRunInv<R>(l: Labels, oracle: nat -> bool, value: R, zero: R, c: ProtectConfig<R>)
    requires ProtectWellFormed(l) && ProtectInv(l, value, zero, c)
    ensures ProtectInv(l, value, zero, ProtectRun(l, oracle, value, c))
    decreases CEILING - c.it
  {
    if c.run && c.it < CEILING {
      ProtectStepInv(l, oracle, value, zero, c);
      ProtectRunInv(l, oracle, value, zero, ProtectStep(l, oracle, value, c));
    }
  }

  /**
   * `CW_PROTECT` runs the wrapped code at most once, and returns its result
   * if it ran and the value-initialised result otherwise.
   */
  lemma ProtectAtMostOnce<R>(l: Labels, oracle: nat -> bool, value: R, zero: R)
    requires ProtectWellFormed(l)
    ensures var r := ProtectRun(l, oracle, value, ProtectInitial(l, zero));
      r.calls <= 1 && r.res == (if r.calls == 1 then value else zero)
  {
    ProtectRunInv(l, oracle, value, zero, ProtectInitial(l, zero));
  }

  /**
   * When both opaque predicates hold, `CW_PROTECT` passes states 0 to 4 in
   * five iterations and returns the wrapped code's result, computed once.
   */
  lemma ProtectOnce<R>(l: Labels, oracle: nat -> bool, value: R, zero: R)
    requires ProtectWellFormed(l) && oracle(1) && oracle(4)
    ensures var r := ProtectRun(l, oracle, value, ProtectInitial(l, zero));
      r.res == value && r.calls == 1 && !r.run && r.it == 5
  {
    var c0 := ProtectInitial(l, zero);
    assert IndexOf(l.dead, ProtectState(l, 0)) == DEAD_COUNT && ProtectIndex(l, ProtectState(l, 0)) == 0;
    var c1 := ProtectStep(l, oracle, value, c0);
    assert c1.st == ProtectState(l, 1);
    assert IndexOf(l.dead, ProtectState(l, 1)) == DEAD_COUNT && ProtectIndex(l, ProtectState(l, 1)) == 1;
    GuardNeverHolds(2);
    var c2 := ProtectStep(l, oracle, value, c1);
    assert c2.st == ProtectState(l, 2);
    assert IndexOf(l.dead, ProtectState(l, 2)) == DEAD_COUNT && ProtectIndex(l, ProtectState(l, 2)) == 2;
    var c3 := ProtectStep(l, oracle, value, c2);
    assert c3.st == ProtectState(l, 3) && c3.res == value && c3.calls == 1;
    assert IndexOf(l.dead, ProtectState(l, 3)) == DEAD_COUNT && ProtectIndex(l, ProtectState(l, 3)) == 3;
    var c4 := ProtectStep(l, oracle, value, c3);
    assert c4.st == ProtectState(l, 4);
    assert IndexOf(l.dead, ProtectState(l, 4)) == DEAD_COUNT && ProtectIndex(l, ProtectState(l, 4)) == 4;
    var c5 := ProtectStep(l, oracle, value, c4);
    assert !c5.run && c5.it == 5;
    assert ProtectRun(l, oracle, value, c4) == c5;
    assert ProtectRun(l, oracle, value, c3) == ProtectRun(l, oracle, value, c4);
    assert ProtectRun(l, oracle, value, c2) == ProtectRun(l, oracle, value, c3);
    assert ProtectRun(l, oracle, value, c1) == ProtectRun(l, oracle, value, c2);
    assert ProtectRun(l, oracle, value, c0) == ProtectRun(l, oracle, value, c1);
  }

  /**
   * `CW_PROTECT(ret_type, code)`; `value` is what the wrapped code returns,
   * and `l` holds the case values `SeedLabels(seed)` of the region's seed.
   */
  method Protect<R>(l: Labels, value: R, zero: R, oracle: nat -> bool) returns (res: R)
    requires ValidLabels(l)
    ensures res == ProtectRun(l, oracle, value, ProtectInitial(l, zero)).res
  {
    ghost var c0 := ProtectInitial(l, zero);
    ghost var calls: nat := 0;
    var run, it, st := true, 0, ProtectState(l, 0);
    res := zero;
    while run && it < CEILING
      invariant it <= CEILING
      invariant ProtectRun(l, oracle, value, ProtectConfig(res, run, it, st, calls)) == ProtectRun(l, oracle, value, c0)
      decreases CEILING - it
    {
      ghost var before := ProtectConfig(res, run, it, st, calls);
      var d := st;
      it := it + 1;
      var di := IndexOf(l.dead, d);
      if di < DEAD_COUNT {
        st := l.dead[DeadNext(di, it)];
      } else {
        var k := ProtectIndex(l, d);
        if k == 0 {
          st := if oracle(it) then ProtectState(l, 1) else l.dead[0];
        } else if k == 1 {
          var op := Mba.Or(it, 2) % U32_MOD;
          if (op * ((op - 1) % U32_MOD)) % U32_MOD % 2 == 1 {
            st := l.dead[3];
          } else {
            st := ProtectState(l, 2);
          }
        } else if k == 2 {
          res := value;
          calls := calls + 1;
          st := ProtectState(l, 3);
        } else if k == 3 {
          st := if oracle(it) then ProtectState(l, 4) else l.dead[5];
        } else {
          run := false;
        }
      }
      assert ProtectConfig(res, run, it, st, calls) == ProtectStep(l, oracle, value, before);
    }
  }

  // ---------------------------------------------------------------------
  // flattened_flow::execute
  // ---------------------------------------------------------------------

  /** The iteration ceiling of `flattened_flow::execute`. */
  const FLOW_CEILING: nat := 64

  /** `state` (xor-encoded), `iter`, `result`, and how many times `func` has been called. */
  datatype FlowConfig<R> = FlowConfig(state: nat, iter: nat, result: R, calls: nat)

  /**
   * The eight `uint32_t` states S0..S7 are drawn from the disjoint ranges [10, 99],
   * [100, 199], ..., [700, 799], so they are pairwise distinct.
   */
  predicate FlowStates(s: seq<nat>) {
    |s| == 8 && forall i, j :: 0 <= i < j < 8 ==> s[i] != s[j]
  }

  /**
   * One iteration: decode the state with XK, count, and dispatch.  S0 -> S1;
   * S1 -> S2 or the fake S5; S2 calls `func` -> S3; S3 -> S4 or the fake S6;
   * S4 sets the count to 64; S5 -> S1; S6 -> S3; S7 -> S0; unknown -> S4.
   */
  function FlowStep<R>(xk: nat, s: seq<nat>, oracle: nat -> bool, value: R, c: FlowConfig<R>): (c': FlowConfig<R>)
    requires |s| == 8 && c.iter < FLOW_CEILING
    ensures c.iter < c'.iter <= FLOW_CEILING
  {
    var iter := c.iter + 1;
    var k := IndexOf(s, Mba.Xor(c.state, xk));
    if k == 0 then c.(iter := iter, state := Mba.Xor(s[1], xk))
    else if k == 1 then c.(iter := iter, state := if oracle(iter) then Mba.Xor(s[2], xk) else Mba.Xor(s[5], xk))
    else if k == 2 then c.(iter := iter, result := value, calls := c.calls + 1, state := Mba.Xor(s[3], xk))
    else if k == 3 then c.(iter := iter, state := if oracle(iter) then Mba.Xor(s[4], xk) else Mba.Xor(s[6], xk))
    else if k == 4 then c.(iter := FLOW_CEILING)
    else if k == 5 then c.(iter := iter, state := Mba.Xor(s[1], xk))
    else if k == 6 then c.(iter := iter, state := Mba.Xor(s[3], xk))
    else if k == 7 then c.(iter := iter, state := Mba.Xor(s[0], xk))
    else c.(iter := iter, state := Mba.Xor(s[4], xk))
  }

  function FlowRun<R>(xk: nat, s: seq<nat>, oracle: nat -> bool, value: R, c: FlowConfig<R>): FlowConfig<R>
    requires |s| == 8
    decreases FLOW_CEILING - c.iter
  {
    if c.iter < FLOW_CEILING then FlowRun(xk, s, oracle, value, FlowStep(xk, s, oracle, value, c)) else c
  }

  function FlowInitial<R>(xk: nat, s: seq<nat>, zero: R): FlowConfig<R>
    requires |s| == 8
  {
    FlowConfig(Mba.Xor(s[0], xk), 0, zero, 0)
  }

  /** The loop always ends with the count at exactly 64. */
  lemma {:induction false} FlowStops<R>(xk: nat, s: seq<nat>, oracle: nat -> bool, value: R, c: FlowConfig<R>)
    requires |s| == 8 && c.iter <= FLOW_CEILING
    ensures FlowRun(xk, s, oracle, value, c).iter == FLOW_CEILING
    decreases FLOW_CEILING - c.iter
  {
    if c.iter < FLOW_CEILING {
      FlowStops(xk, s, oracle, value, FlowStep(xk, s, oracle, value, c));
    }
  }

  ghost predicate FlowInv<R>(xk: nat, s: seq<nat>, value: R, zero: R, c: FlowConfig<R>)
    requires |s| == 8
  {
    && c.calls <= 1
    && (c.calls == 0 ==> c.result == zero)
    && (c.calls == 1 ==> c.result == value && (c.state == Mba.Xor(s[3], xk) || c.state == Mba.Xor(s[4], xk) || c.state == Mba.Xor(s[6], xk)))
  }

  lemma XorCancel(a: nat, k: nat)
    ensures Mba.Xor(Mba.Xor(a, k), k) == a
  {
    Mba.XorInvolution(a, k);
  }

  lemma FlowStepInv<R>(xk: nat, s: seq<nat>, oracle: nat -> bool, value: R, zero: R, c: FlowConfig<R>)
    requires FlowStates(s) && c.iter < FLOW_CEILING && FlowInv(xk, s, value, zero, c)
    ensures FlowInv(xk, s, value, zero, FlowStep(xk, s, oracle, value, c))
  {
    if c.calls == 1 {
      XorCancel(s[3], xk);
      XorCancel(s[4], xk);
      XorCancel(s[6], xk);
      var k := IndexOf(s, Mba.Xor(c.state, xk));
      assert k == 3 || k == 4 || k == 6;
    }
  }

  lemma {:induction false} FlowRunInv<R>(xk: nat, s: seq<nat>, oracle: nat -> bool, value: R, zero: R, c: FlowConfig<R>)
    requires FlowStates(s) && FlowInv(xk, s, value, zero, c)
    ensures FlowInv(xk, s, value, zero, FlowRun(xk, s, oracle, value, c))
    decreases FLOW_CEILING - c.iter
  {
    if c.iter < FLOW_CEILING {
      FlowStepInv(xk, s, oracle, value, zero, c);
      FlowRunInv(xk, s, oracle, value, zero, FlowStep(xk, s, oracle, value, c));
    }
  }

  /** `func` is called at most once; the result is its value if it was called, else `ResultType{}`. */
  lemma FlowAtMostOnce<R>(xk: nat, s: seq<nat>, oracle: nat -> bool, value: R, zero: R)
    requires FlowStates(s)
    ensures var r := FlowRun(xk, s, oracle, value, FlowInitial(xk, s, zero));
      r.calls <= 1 && r.result == (if r.calls == 1 then value else zero)
  {
    FlowRunInv(xk, s, oracle, value, zero, FlowInitial(xk, s, zero));
  }

  /** When the two opaque predicates hold, S0..S4 run in order and `func`'s value is returned. */
  lemma FlowOnce<R>(xk: nat, s: seq<nat>, oracle: nat -> bool, value: R, zero: R)
    requires FlowStates(s) && oracle(2) && oracle(4)
    ensures var r := FlowRun(xk, s, oracle, value, FlowInitial(xk, s, zero));
      r.result == value && r.calls == 1 && r.iter == FLOW_CEILING
  {
    XorCancel(s[0], xk);
    XorCancel(s[1], xk);
    XorCancel(s[2], xk);
    XorCancel(s[3], xk);
    XorCancel(s[4], xk);
    var c0 := FlowInitial(xk, s, zero);
    assert IndexOf(s, s[0]) == 0;
    var c1 := FlowStep(xk, s, oracle, value, c0);
    assert IndexOf(s, s[1]) == 1;
    var c2 := FlowStep(xk, s, oracle, value, c1);
    assert c2.state == Mba.Xor(s[2], xk);
    assert IndexOf(s, s[2]) == 2;
    var c3 := FlowStep(xk, s, oracle, value, c2);
    assert IndexOf(s, s[3]) == 3;
    var c4 := FlowStep(xk, s, oracle, value, c3);
    assert c4.state == Mba.Xor(s[4], xk) && c4.iter == 4;
    assert IndexOf(s, s[4]) == 4;
    var c5 := FlowStep(xk, s, oracle, value, c4);
    assert c5.iter == FLOW_CEILING && c5.result == value && c5.calls == 1;
    assert FlowRun(xk, s, oracle, value, c4) == c5;
    assert FlowRun(xk, s, oracle, value, c3) == FlowRun(xk, s, oracle, value, c4);
    assert FlowRun(xk, s, oracle, value, c2) == FlowRun(xk, s, oracle, value, c3);
    assert FlowRun(xk, s, oracle, value, c1) == FlowRun(xk, s, oracle, value, c2);
    assert FlowRun(xk, s, oracle, value, c0) == FlowRun(xk, s, oracle, value, c1);
  }

  /** `flattened_flow::execute(func, args...)`; `value` is what `func(args...)` returns. */
  method ExecuteFlow<R>(xk: nat, s: seq<nat>, value: R, zero: R, oracle: nat -> bool) returns (result: R)
    requires |s| == 8
    ensures result == FlowRun(xk, s, oracle, value, FlowInitial(xk, s, zero)).result
  {
    ghost var c0 := FlowInitial(xk, s, zero);
    ghost var calls: nat := 0;
    var state: nat := Mba.Xor(s[0], xk);
    var iter: nat := 0;
    result := zero;
    while iter < FLOW_CEILING
      invariant iter <= FLOW_CEILING
      invariant FlowRun(xk, s, oracle, value, FlowConfig(state, iter, result, calls)) == FlowRun(xk, s, oracle, value, c0)
      decreases FLOW_CEILING - iter
    {
      ghost var before := FlowConfig(state, iter, result, calls);
      var decoded := Mba.Xor(state, xk);
      iter := iter + 1;
      var k := IndexOf(s, decoded);
      if k == 0 {
        state := Mba.Xor(s[1], xk);
      } else if k == 1 {
        state := if oracle(iter) then Mba.Xor(s[2], xk) else Mba.Xor(s[5], xk);
      } else if k == 2 {
        result := value;
        calls := calls + 1;
        state := Mba.Xor(s[3], xk);
      } else if k == 3 {
        state := if oracle(iter) then Mba.Xor(s[4], xk) else Mba.Xor(s[6], xk);
      } else if k == 4 {
        iter := FLOW_CEILING;
      } else if k == 5 {
        state := Mba.Xor(s[1], xk);
      } else if k == 6 {
        state := Mba.Xor(s[3], xk);
      } else if k == 7 {
        state := Mba.Xor(s[0], xk);
      } else {
        state := Mba.Xor(s[4], xk);
      }
      assert FlowConfig(state, iter, result, calls) == FlowStep(xk, s, oracle, value, before);
    }
  }
}
