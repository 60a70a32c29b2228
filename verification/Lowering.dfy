/**
  The LLVM lowering as a function from an operation stream to a control-flow
  graph: basic blocks split at jump targets, a stack of pending false paths, and
  links from conditional jumps back to blocks already built.
*/
module Lowering {
  import opened Words
  import opened IR
  import opened Machine

  /** An instruction of a basic block; the last three are terminators. */
  datatype Instr =
    | Exec(at: nat, op: Op)
    | Ret(increment: Word)
    | Br(to: nat)
    | CondBr(cond: nat, whenTrue: nat, whenFalse: nat)

  predicate IsTerminator(i: Instr) { !i.Exec? }

  type Graph = seq<seq<Instr>>

  /**
    The state of a compilation: the function's basic blocks, the insertion
    point, `BlockStack`, `BlockJumpTargets`, the offsets with an LLVM value, and
    whether the compiler has aborted.
  */
  datatype LowerState = Lowered(
    blocks: Graph, current: nat, stack: seq<nat>, links: map<Word, nat>, values: set<nat>, aborted: bool)

  ghost predicate Valid(L: LowerState) {
    && L.current < |L.blocks|
    && (forall i :: 0 <= i < |L.stack| ==> L.stack[i] < |L.blocks|)
    && (forall r :: r in L.links ==> L.links[r] < |L.blocks|)
  }

  type Lower = L: LowerState | Valid(L) witness INITIAL

  const INITIAL := Lowered([[]], 0, [], map[], {}, false)

  /** Append at the insertion point. */
  function Put(L: Lower, i: Instr): Lower {
    L.(blocks := L.blocks[L.current := L.blocks[L.current] + [i]])
  }

  /** Straight operations the lowering has a case for. */
  predicate Supported(op: Op) {
    match op
    case Constant(_, _) => true
    case LoadContext(size, o) => size == 8 && ContextSlot(o)
    case StoreContext(size, o, _) => size == 8 && ContextSlot(o)
    case Syscall(args) => |args| == MAX_ARGS
    case Binary(_, _, _) => true
    case Select(_, args) => |args| == 4
    case Trunc32(_) => true
    case LoadMem(size, _, _) => size == 4 || size == 8
    case _ => false
  }

  function OpenBlock(L: Lower, rip: Word): Lower {
    var n := |L.blocks|;
    var split := Put(L, Br(n));
    split.(blocks := split.blocks + [[]], current := n, links := split.links[rip := n])
  }

  function LeaveBlock(L: Lower, increment: Word): Lower {
    var ended := Put(L, Ret(increment));
    if ended.stack == [] then ended
    else
      var top := |ended.stack| - 1;
      ended.(current := ended.stack[top], stack := ended.stack[..top])
  }

  function Branching(L: Lower, cond: nat, rip: Word): Lower {
    var truePath := |L.blocks|;
    var falsePath := truePath + 1;
    var branched := Put(L, CondBr(cond, if rip in L.links then L.links[rip] else truePath, falsePath));
    branched.(blocks := branched.blocks + [[], []], current := truePath, stack := branched.stack + [falsePath])
  }

  function Execute(L: Lower, at: nat, op: Op): Lower {
    var r := Put(L, Exec(at, op));
    if ProducesValue(op) then r.(values := r.values + {at}) else r
  }

  function Abort(L: Lower): Lower {
    L.(aborted := true)
  }

  /** `HandleIR` for the operation `op` at offset `at`. */
  function LowerOp(targets: set<Word>, at: nat, op: Op, L: Lower): Lower {
    if L.aborted then L
    else
      match op
      case BeginBlock => L
      case JumpTarget => L
      case RipMarker(r) => if r in targets then OpenBlock(L, r) else L
      case EndBlock(n) => LeaveBlock(L, n)
      case CondJump(c, _, r) => if c in L.values then Branching(L, c, r) else Abort(L)
      case op =>
        if Supported(op) && Arguments(op) <= L.values then Execute(L, at, op) else Abort(L)
  }

  /** The compiler's state before operation `k`. */
  function LowerUpTo(targets: set<Word>, p: seq<Op>, k: nat): Lower
    requires k <= |p|
  {
    if k == 0 then INITIAL
    else LowerOp(targets, OffsetOf(p, k - 1), p[k - 1], LowerUpTo(targets, p, k - 1))
  }

  /*** Jump targets ***/

  /** The guest addresses conditional jumps among the first `k` operations go to. */
  function JumpRips(p: seq<Op>, k: nat): set<Word>
    requires k <= |p|
  {
    if k == 0 then {}
    else if p[k - 1].CondJump? then JumpRips(p, k - 1) + {p[k - 1].ripTarget}
    else JumpRips(p, k - 1)
  }

  /** The stream offsets those jumps skip to. */
  function SkipOffsets(p: seq<Op>, k: nat): set<nat>
    requires k <= |p|
  {
    if k == 0 then {}
    else if p[k - 1].CondJump? then SkipOffsets(p, k - 1) + {p[k - 1].target}
    else SkipOffsets(p, k - 1)
  }

  /** The guest address of the instruction that operation `k - 1` belongs to. */
  function LocalRip(p: seq<Op>, k: nat, rip: Word): Word
    requires k <= |p|
  {
    if k == 0 then rip
    else if p[k - 1].RipMarker? then p[k - 1].rip
    else LocalRip(p, k - 1, rip)
  }

  /** The addresses of instructions that contain a target of a skip. */
  function LandingRips(p: seq<Op>, k: nat, rip: Word, skips: set<nat>): set<Word>
    requires k <= |p|
  {
    if k == 0 then {}
    else if p[k - 1].JumpTarget? || OffsetOf(p, k - 1) in skips then
      LandingRips(p, k - 1, rip, skips) + {LocalRip(p, k, rip)}
    else LandingRips(p, k - 1, rip, skips)
  }

  /** `FindJumpTargets`. */
  function Targets(p: seq<Op>, rip: Word): set<Word> {
    JumpRips(p, |p|) + LandingRips(p, |p|, rip, SkipOffsets(p, |p|))
  }

  lemma {:induction false} JumpsAreTargets(p: seq<Op>, n: nat, k: nat)
    requires k < n <= |p| && p[k].CondJump?
    ensures p[k].ripTarget in JumpRips(p, n)
  {
    if k < n - 1 {
      JumpsAreTargets(p, n - 1, k);
    }
  }

  /** Operation `j` is a landing: a jump target, or at an offset some conditional jump skips to. */
  ghost predicate Lands(p: seq<Op>, j: nat)
    requires j < |p|
  {
    p[j].JumpTarget? || exists k :: 0 <= k < |p| && p[k].CondJump? && p[k].target == OffsetOf(p, j)
  }

  lemma {:induction false} InJumpRips(p: seq<Op>, n: nat, r: Word)
    requires n <= |p|
    ensures r in JumpRips(p, n) <==> exists k :: 0 <= k < n && p[k].CondJump? && p[k].ripTarget == r
  {
    if n > 0 {
      InJumpRips(p, n - 1, r);
    }
  }

  lemma {:induction false} InSkipOffsets(p: seq<Op>, n: nat, offset: nat)
    requires n <= |p|
    ensures offset in SkipOffsets(p, n) <==> exists k :: 0 <= k < n && p[k].CondJump? && p[k].target == offset
  {
    if n > 0 {
      InSkipOffsets(p, n - 1, offset);
    }
  }

  lemma LandsExactly(p: seq<Op>, j: nat)
    requires j < |p|
    ensures Lands(p, j) <==> p[j].JumpTarget? || OffsetOf(p, j) in SkipOffsets(p, |p|)
  {
    hide OffsetOf, SkipOffsets;
    InSkipOffsets(p, |p|, OffsetOf(p, j));
  }

  lemma {:induction false} InLandingRips(p: seq<Op>, n: nat, rip: Word, r: Word)
    requires n <= |p|
    ensures r in LandingRips(p, n, rip, SkipOffsets(p, |p|))
            <==> exists j :: 0 <= j < n && Lands(p, j) && LocalRip(p, j + 1, rip) == r
  {
    hide OffsetOf, LocalRip, SkipOffsets, Lands;
    if n > 0 {
      InLandingRips(p, n - 1, rip, r);
      LandsExactly(p, n - 1);
      assert LocalRip(p, n - 1 + 1, rip) == LocalRip(p, n, rip);
    }
  }

  /**
    The targets are exactly the guest addresses of conditional jumps and the
    addresses of the instructions that contain a landing.
  */
  lemma TargetsExactly(p: seq<Op>, rip: Word, r: Word)
    ensures r in Targets(p, rip) <==>
              || (exists k :: 0 <= k < |p| && p[k].CondJump? && p[k].ripTarget == r)
              || (exists j :: 0 <= j < |p| && Lands(p, j) && LocalRip(p, j + 1, rip) == r)
  {
    hide LandingRips, LocalRip, Lands, SkipOffsets, JumpRips;
    InJumpRips(p, |p|, r);
    InLandingRips(p, |p|, rip, r);
  }

  /** `CompileCode`: the compiler's state after the whole stream. */
  function Compile(p: seq<Op>, rip: Word): Lower {
    LowerUpTo(Targets(p, rip), p, |p|)
  }

  /*** The meaning of a graph ***/

  /** Instruction `i` of block `b` and what follows, for at most `fuel` instructions. */
  function GraphRun(
      env: Environment, C: Graph, b: nat, i: nat, v: Values, s: State, fuel: nat): Outcome
    decreases fuel
  {
    if fuel == 0 then OutOfFuel
    else if b >= |C| || i >= |C[b]| then Stuck
    else
      match C[b][i]
      case Exec(at, op) =>
        (match Step(env, op, at, v, s)
         case Halt => Stuck
         case Next(v', s') => GraphRun(env, C, b, i + 1, v', s', fuel - 1))
      case Ret(n) => Done(s.(rip := Add(s.rip, n)))
      case Br(t) => GraphRun(env, C, t, 0, v, s, fuel - 1)
      case CondBr(c, t, f) => GraphRun(env, C, if Value(v, c) != 0 then t else f, 0, v, s, fuel - 1)
  }
}
