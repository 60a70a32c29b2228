/**
  The graph of a lowered stream behaves as the stream, and is well formed.
*/
module LoweringProofs {
  import opened Words
  import opened IR
  import opened Machine
  import opened BlockMeaning
  import opened Lowering

  /*** Streams with guarded exits ***/

  /** A conditional jump and the exit it guards, ending at the operation it skips to. */
  predicate GuardsExit(p: seq<Op>, k: nat)
    requires k < |p|
  {
    && p[k].CondJump? && k + 6 < |p|
    && IsStraight(p[k + 1]) && IsStraight(p[k + 2]) && IsStraight(p[k + 3])
    && p[k + 4].EndBlock? && p[k + 5].JumpTarget?
    && p[k].target == OffsetOf(p, k + 5)
  }

  predicate KnownKind(op: Op) {
    IsStraight(op) || op.BeginBlock? || op.JumpTarget? || op.RipMarker? || op.EndBlock? || op.CondJump?
  }

  /** The streams the builder produces: exits are guarded and the last operation ends the block. */
  ghost predicate Shaped(p: seq<Op>) {
    && |p| > 0 && p[|p| - 1].EndBlock?
    && (forall k :: 0 <= k < |p| && p[k].CondJump? ==> GuardsExit(p, k))
    && (forall k :: 0 <= k < |p| - 1 && p[k].EndBlock? ==> k >= 4 && p[k - 4].CondJump?)
    && (forall k :: 0 <= k < |p| ==> KnownKind(p[k]))
  }

  /*** The compiler only appends ***/

  ghost predicate Extends(C: Graph, D: Graph) {
    |C| <= |D| && forall b :: 0 <= b < |C| ==> C[b] <= D[b]
  }

  lemma StepExtends(targets: set<Word>, at: nat, op: Op, L: Lower)
    ensures Extends(L.blocks, LowerOp(targets, at, op, L).blocks)
    ensures L.aborted ==> LowerOp(targets, at, op, L).aborted
  {
    hide Supported, Arguments, ProducesValue;
  }

  lemma {:induction false} Monotone(targets: set<Word>, p: seq<Op>, j: nat, k: nat)
    requires j <= k <= |p|
    ensures Extends(LowerUpTo(targets, p, j).blocks, LowerUpTo(targets, p, k).blocks)
    ensures LowerUpTo(targets, p, j).aborted ==> LowerUpTo(targets, p, k).aborted
    decreases k - j
  {
    hide LowerOp, OffsetOf;
    if j < k {
      Monotone(targets, p, j, k - 1);
      StepExtends(targets, OffsetOf(p, k - 1), p[k - 1], LowerUpTo(targets, p, k - 1));
    }
  }

  lemma LowerUnfolds(targets: set<Word>, p: seq<Op>, k: nat)
    requires k < |p|
    ensures LowerUpTo(targets, p, k + 1) == LowerOp(targets, OffsetOf(p, k), p[k], LowerUpTo(targets, p, k))
  {
  }

  /** The instruction that operation `k` appends stands in the final graph at the insertion point. */
  lemma InstructionInGraph(targets: set<Word>, p: seq<Op>, k: nat, i: Instr)
    requires k < |p|
    requires var L, L' := LowerUpTo(targets, p, k), LowerUpTo(targets, p, k + 1);
             && L.current < |L'.blocks|
             && L'.blocks[L.current] == L.blocks[L.current] + [i]
    ensures var L, C := LowerUpTo(targets, p, k), LowerUpTo(targets, p, |p|).blocks;
            L.current < |C| && |L.blocks[L.current]| < |C[L.current]| && C[L.current][|L.blocks[L.current]|] == i
  {
    hide LowerUpTo;
    Monotone(targets, p, k + 1, |p|);
    var L, L' := LowerUpTo(targets, p, k), LowerUpTo(targets, p, k + 1);
    var C := LowerUpTo(targets, p, |p|).blocks;
    assert L'.blocks[L.current] <= C[L.current];
    assert L'.blocks[L.current][|L.blocks[L.current]|] == i;
  }

  /*** Links ***/

  /** Recorded links are exactly the target markers already lowered, at the start of their blocks. */
  lemma {:induction false} LinksAreMarkers(targets: set<Word>, p: seq<Op>, k: nat, r: Word)
    requires k <= |p| && r in targets && !LowerUpTo(targets, p, k).aborted
    ensures var m := LastMarker(p, k, r);
            var L := LowerUpTo(targets, p, k);
            && (r in L.links <==> m > 0)
            && (m > 0 ==>
                  var M := LowerUpTo(targets, p, m);
                  M.current == L.links[r] && M.blocks[M.current] == [])
    decreases k
  {
    hide LowerOp, OffsetOf, LowerUpTo, LastMarker;
    LastMarkerUnfolds(p, k, r);
    if k == 0 {
      LowerStarts(targets, p);
    } else {
      Monotone(targets, p, k - 1, k);
      LowerUnfolds(targets, p, k - 1);
      LinksAreMarkers(targets, p, k - 1, r);
      StepLinks(targets, OffsetOf(p, k - 1), p[k - 1], LowerUpTo(targets, p, k - 1), r);
    }
  }

  lemma LowerStarts(targets: set<Word>, p: seq<Op>)
    ensures LowerUpTo(targets, p, 0) == INITIAL
  {
  }

  lemma StepLinks(targets: set<Word>, at: nat, op: Op, L: Lower, r: Word)
    requires r in targets && !L.aborted
    ensures var L' := LowerOp(targets, at, op, L);
            if op == RipMarker(r) then
              r in L'.links && L'.current == L'.links[r] && L'.blocks[L'.current] == []
            else
              (r in L'.links <==> r in L.links) && (r in L.links ==> L'.links[r] == L.links[r])
  {
    hide Supported, Arguments, ProducesValue;
  }

  /*** Simulation ***/

  /** Where the graph continues before operation `k`. */
  function Position(targets: set<Word>, p: seq<Op>, k: nat): (nat, nat)
    requires k <= |p|
  {
    var L := LowerUpTo(targets, p, k);
    (L.current, |L.blocks[L.current]|)
  }

  /** One step of the graph at the position of operation `k`, or none. */
  datatype Move =
    | Stays
    | Returns(increment: Word)
    | Executes
    | Splits
    | Chooses

  function MoveOf(targets: set<Word>, op: Op): Move {
    match op
    case BeginBlock => Stays
    case JumpTarget => Stays
    case RipMarker(r) => if r in targets then Splits else Stays
    case EndBlock(n) => Returns(n)
    case CondJump(_, _, _) => Chooses
    case _ => Executes
  }

  /** The instruction an operation appends, if any. */
  function Appended(targets: set<Word>, at: nat, op: Op, L: Lower): seq<Instr> {
    match MoveOf(targets, op)
    case Stays => []
    case Executes => [Exec(at, op)]
    case Returns(n) => [Ret(n)]
    case Splits => [Br(|L.blocks|)]
    case Chooses =>
      var t := |L.blocks|;
      [CondBr(op.cond, if op.ripTarget in L.links then L.links[op.ripTarget] else t, t + 1)]
  }

  lemma StepAppends(targets: set<Word>, at: nat, op: Op, L: Lower)
    requires !LowerOp(targets, at, op, L).aborted
    ensures var L' := LowerOp(targets, at, op, L);
            && |L.blocks| <= |L'.blocks|
            && L'.blocks[L.current] == L.blocks[L.current] + Appended(targets, at, op, L)
            && (MoveOf(targets, op).Stays? || MoveOf(targets, op).Executes? ==> L'.current == L.current)
            && (MoveOf(targets, op).Splits? || MoveOf(targets, op).Chooses? ==>
                  L'.current == |L.blocks| && L'.blocks[L'.current] == [])
  {
    hide Supported, Arguments, ProducesValue;
  }

  /** What the lowering of operation `k` did, read off the final graph. */
  lemma GraphAtOperation(targets: set<Word>, p: seq<Op>, k: nat)
    requires k < |p| && !LowerUpTo(targets, p, |p|).aborted
    ensures var C, L := LowerUpTo(targets, p, |p|).blocks, LowerUpTo(targets, p, k);
            var (b, i) := Position(targets, p, k);
            var (b', i') := Position(targets, p, k + 1);
            var more, move := Appended(targets, OffsetOf(p, k), p[k], L), MoveOf(targets, p[k]);
            && (more != [] ==> b < |C| && i < |C[b]| && C[b][i] == more[0])
            && (move.Stays? ==> b' == b && i' == i)
            && (move.Executes? ==> b' == b && i' == i + 1)
            && (move.Splits? || move.Chooses? ==> b' == |L.blocks| && i' == 0)
  {
    hide OffsetOf, LowerUpTo, LowerOp, Appended, MoveOf;
    Monotone(targets, p, k + 1, |p|);
    LowerUnfolds(targets, p, k);
    var L := LowerUpTo(targets, p, k);
    var more := Appended(targets, OffsetOf(p, k), p[k], L);
    StepAppends(targets, OffsetOf(p, k), p[k], L);
    AppendedLength(targets, OffsetOf(p, k), p[k], L);
    if more != [] {
      assert more == [more[0]];
      InstructionInGraph(targets, p, k, more[0]);
    }
  }

  lemma AppendedLength(targets: set<Word>, at: nat, op: Op, L: Lower)
    ensures |Appended(targets, at, op, L)| == if MoveOf(targets, op).Stays? then 0 else 1
  {
  }

  /** The insertion point is at the true path `t` of a jump, whose false path, still empty, is on the stack. */
  ghost predicate Guarded(L: Lower, t: nat, stack: seq<nat>) {
    && L.current == t && L.stack == stack + [t + 1]
    && |L.blocks| == t + 2 && L.blocks[t + 1] == []
  }

  lemma JumpGuards(targets: set<Word>, at: nat, op: Op, L: Lower)
    requires op.CondJump? && !LowerOp(targets, at, op, L).aborted
    ensures Guarded(LowerOp(targets, at, op, L), |L.blocks|, L.stack)
  {
  }

  lemma StraightStaysGuarded(targets: set<Word>, at: nat, op: Op, L: Lower, t: nat, stack: seq<nat>)
    requires Guarded(L, t, stack) && IsStraight(op) && !LowerOp(targets, at, op, L).aborted
    ensures Guarded(LowerOp(targets, at, op, L), t, stack)
  {
    hide Supported, Arguments;
  }

  lemma EndTakesFalsePath(targets: set<Word>, at: nat, op: Op, L: Lower, t: nat, stack: seq<nat>)
    requires Guarded(L, t, stack) && op.EndBlock? && !L.aborted
    ensures var L' := LowerOp(targets, at, op, L);
            L'.current == t + 1 && L'.blocks[t + 1] == [] && L'.stack == stack
  {
    assert (stack + [t + 1])[..|stack|] == stack;
  }

  /** The false path of a conditional jump is where the operation it skips to continues. */
  lemma FalsePath(targets: set<Word>, p: seq<Op>, k: nat)
    requires k < |p| && p[k].CondJump? && GuardsExit(p, k) && !LowerUpTo(targets, p, |p|).aborted
    ensures Position(targets, p, k + 5) == (|LowerUpTo(targets, p, k).blocks| + 1, 0)
    ensures LowerUpTo(targets, p, k + 5).stack == LowerUpTo(targets, p, k).stack
  {
    hide OffsetOf, LowerUpTo, LowerOp, Guarded, IsStraight;
    var L0 := LowerUpTo(targets, p, k);
    var t := |L0.blocks|;
    Unaborted(targets, p, k + 1);
    LowerUnfolds(targets, p, k);
    JumpGuards(targets, OffsetOf(p, k), p[k], L0);
    ExitStep(targets, p, k + 1, t, L0.stack);
    ExitStep(targets, p, k + 2, t, L0.stack);
    ExitStep(targets, p, k + 3, t, L0.stack);
    Unaborted(targets, p, k + 4);
    LowerUnfolds(targets, p, k + 4);
    EndTakesFalsePath(targets, OffsetOf(p, k + 4), p[k + 4], LowerUpTo(targets, p, k + 4), t, L0.stack);
  }

  lemma Unaborted(targets: set<Word>, p: seq<Op>, k: nat)
    requires k <= |p| && !LowerUpTo(targets, p, |p|).aborted
    ensures !LowerUpTo(targets, p, k).aborted
  {
    hide LowerUpTo;
    Monotone(targets, p, k, |p|);
  }

  lemma ExitStep(targets: set<Word>, p: seq<Op>, k: nat, t: nat, stack: seq<nat>)
    requires k < |p| && IsStraight(p[k]) && !LowerUpTo(targets, p, |p|).aborted
    requires Guarded(LowerUpTo(targets, p, k), t, stack)
    ensures Guarded(LowerUpTo(targets, p, k + 1), t, stack)
  {
    hide OffsetOf, LowerUpTo, LowerOp, Guarded, IsStraight;
    Unaborted(targets, p, k + 1);
    LowerUnfolds(targets, p, k);
    StraightStaysGuarded(targets, OffsetOf(p, k), p[k], LowerUpTo(targets, p, k), t, stack);
  }

  lemma GraphRunUnfolds(env: Environment, C: Graph, b: nat, i: nat, v: Values, s: State, n: nat)
    requires n > 0 && b < |C| && i < |C[b]|
    ensures GraphRun(env, C, b, i, v, s, n) ==
            match C[b][i]
            case Exec(at, op) =>
              (match Step(env, op, at, v, s)
               case Halt => Stuck
               case Next(v', s') => GraphRun(env, C, b, i + 1, v', s', n - 1))
            case Ret(m) => Done(s.(rip := Add(s.rip, m)))
            case Br(t) => GraphRun(env, C, t, 0, v, s, n - 1)
            case CondBr(c, t, f) => GraphRun(env, C, if Value(v, c) != 0 then t else f, 0, v, s, n - 1)
  {
    hide Step;
  }

  /** What the walk over the stream does at operation `k`, in the terms of the graph's moves. */
  lemma RunAtOperation(env: Environment, targets: set<Word>, p: seq<Op>, k: nat, v: Values, s: State, fuel: nat)
    requires Shaped(p) && k < |p|
    ensures var r := Run(env, LOWERED, p, k, v, s, fuel);
            match MoveOf(targets, p[k])
            case Stays => k + 1 < |p| && r == Run(env, LOWERED, p, k + 1, v, s, fuel)
            case Splits => k + 1 < |p| && r == Run(env, LOWERED, p, k + 1, v, s, fuel)
            case Executes =>
              var q := Step(env, p[k], OffsetOf(p, k), v, s);
              k + 1 < |p| && r == if q.Halt? then Stuck else Run(env, LOWERED, p, k + 1, q.values, q.state, fuel)
            case Returns(n) => r == Done(s.(rip := Add(s.rip, n)))
            case Chooses =>
              var m := LastMarker(p, k, p[k].ripTarget);
              && GuardsExit(p, k)
              && r == if Value(v, p[k].cond) == 0 then Run(env, LOWERED, p, k + 5, v, s, fuel)
                      else if m == 0 then Run(env, LOWERED, p, k + 1, v, s, fuel)
                      else if fuel == 0 then OutOfFuel
                      else Run(env, LOWERED, p, m, v, s, fuel - 1)
  {
    hide Run, Step, OffsetOf, IsStraight, LastMarker, IndexFrom;
    match p[k]
    case CondJump(c, t, r) =>
      RunUnfoldsJump(env, LOWERED, p, k, v, s, fuel);
      IndexOfOffset(p, k + 5, k + 1);
    case BeginBlock => RunUnfoldsEnd(env, LOWERED, p, k, v, s, fuel);
    case JumpTarget => RunUnfoldsEnd(env, LOWERED, p, k, v, s, fuel);
    case RipMarker(_) => RunUnfoldsEnd(env, LOWERED, p, k, v, s, fuel);
    case EndBlock(_) => RunUnfoldsEnd(env, LOWERED, p, k, v, s, fuel);
    case op =>
      RunUnfoldsStraight(env, LOWERED, p, k, v, s, fuel);
  }

  /** Compiled without abort, with every jump's address among the targets. */
  ghost predicate Lowers(targets: set<Word>, p: seq<Op>) {
    && Shaped(p) && !LowerUpTo(targets, p, |p|).aborted
    && forall k :: 0 <= k < |p| && p[k].CondJump? ==> p[k].ripTarget in targets
  }

  /** A link leads to the position of the marker it was recorded at. */
  lemma LinkPosition(targets: set<Word>, p: seq<Op>, k: nat)
    requires Lowers(targets, p) && k < |p| && p[k].CondJump?
    ensures var m, L := LastMarker(p, k, p[k].ripTarget), LowerUpTo(targets, p, k);
            && (p[k].ripTarget in L.links <==> m > 0)
            && (m > 0 ==> Position(targets, p, m) == (L.links[p[k].ripTarget], 0))
  {
    hide LowerUpTo, Shaped, LastMarker;
    Monotone(targets, p, k, |p|);
    LinksAreMarkers(targets, p, k, p[k].ripTarget);
  }

  /** A run of the graph that ends is the run of the stream. */
  lemma {:induction false} GraphRefinesStream(
      env: Environment, targets: set<Word>, p: seq<Op>, k: nat, v: Values, s: State, n: nat, fuel: nat)
    requires Lowers(targets, p) && k < |p| && n <= fuel
    ensures var C, (b, i) := LowerUpTo(targets, p, |p|).blocks, Position(targets, p, k);
            var r := GraphRun(env, C, b, i, v, s, n);
            r != OutOfFuel ==> Run(env, LOWERED, p, k, v, s, fuel) == r
    decreases n, |p| - k
  {
    hide Run, Step, OffsetOf, LowerUpTo, Shaped, LastMarker, GraphRun, Position, GuardsExit, MoveOf;
    var C, L := LowerUpTo(targets, p, |p|).blocks, LowerUpTo(targets, p, k);
    var (b, i) := Position(targets, p, k);
    var move := MoveOf(targets, p[k]);
    GraphAtOperation(targets, p, k);
    RunAtOperation(env, targets, p, k, v, s, fuel);
    AppendedLength(targets, OffsetOf(p, k), p[k], L);
    if move.Stays? {
      GraphRefinesStream(env, targets, p, k + 1, v, s, n, fuel);
    } else if n == 0 {
      NoFuel(env, C, b, i, v, s);
    } else {
      GraphRunUnfolds(env, C, b, i, v, s, n);
      match move
      case Splits => GraphRefinesStream(env, targets, p, k + 1, v, s, n - 1, fuel);
      case Executes =>
        var q := Step(env, p[k], OffsetOf(p, k), v, s);
        if q.Next? {
          GraphRefinesStream(env, targets, p, k + 1, q.values, q.state, n - 1, fuel);
        }
      case Chooses =>
        ChoosesIsJump(targets, p[k]);
        LinkPosition(targets, p, k);
        FalsePath(targets, p, k);
        var m := LastMarker(p, k, p[k].ripTarget);
        if Value(v, p[k].cond) == 0 {
          GuardedExitFits(p, k);
          GraphRefinesStream(env, targets, p, k + 5, v, s, n - 1, fuel);
        } else if m == 0 {
          GuardedExitFits(p, k);
          GraphRefinesStream(env, targets, p, k + 1, v, s, n - 1, fuel);
        } else {
          GraphRefinesStream(env, targets, p, m, v, s, n - 1, fuel - 1);
        }
      case _ =>
    }
  }

  lemma ChoosesIsJump(targets: set<Word>, op: Op)
    ensures MoveOf(targets, op).Chooses? <==> op.CondJump?
  {
  }

  lemma GuardedExitFits(p: seq<Op>, k: nat)
    requires k < |p| && GuardsExit(p, k)
    ensures k + 6 < |p|
  {
  }

  lemma NoFuel(env: Environment, C: Graph, b: nat, i: nat, v: Values, s: State)
    ensures GraphRun(env, C, b, i, v, s, 0) == OutOfFuel
  {
  }

  /** A run of the stream that ends is a run of the graph with enough fuel. */
  lemma {:induction false} StreamRefinesGraph(
      env: Environment, targets: set<Word>, p: seq<Op>, k: nat, v: Values, s: State, fuel: nat) returns (n: nat)
    requires Lowers(targets, p) && k < |p|
    ensures var C, (b, i) := LowerUpTo(targets, p, |p|).blocks, Position(targets, p, k);
            var r := Run(env, LOWERED, p, k, v, s, fuel);
            r != OutOfFuel ==> GraphRun(env, C, b, i, v, s, n) == r
    decreases fuel, |p| - k
  {
    hide Run, Step, OffsetOf, LowerUpTo, Shaped, LastMarker, GraphRun, Position, GuardsExit, MoveOf;
    var C, L := LowerUpTo(targets, p, |p|).blocks, LowerUpTo(targets, p, k);
    var (b, i) := Position(targets, p, k);
    var move := MoveOf(targets, p[k]);
    GraphAtOperation(targets, p, k);
    RunAtOperation(env, targets, p, k, v, s, fuel);
    AppendedLength(targets, OffsetOf(p, k), p[k], L);
    if move.Stays? {
      n := StreamRefinesGraph(env, targets, p, k + 1, v, s, fuel);
      return;
    }
    n := 0;
    var r := Run(env, LOWERED, p, k, v, s, fuel);
    if move.Splits? {
      n := StreamRefinesGraph(env, targets, p, k + 1, v, s, fuel);
    } else if move.Executes? {
      var q := Step(env, p[k], OffsetOf(p, k), v, s);
      if q.Next? {
        n := StreamRefinesGraph(env, targets, p, k + 1, q.values, q.state, fuel);
      }
    } else if move.Chooses? {
      ChoosesIsJump(targets, p[k]);
      LinkPosition(targets, p, k);
      FalsePath(targets, p, k);
      GuardedExitFits(p, k);
      var m := LastMarker(p, k, p[k].ripTarget);
      if Value(v, p[k].cond) == 0 {
        n := StreamRefinesGraph(env, targets, p, k + 5, v, s, fuel);
      } else if m == 0 {
        n := StreamRefinesGraph(env, targets, p, k + 1, v, s, fuel);
      } else if fuel > 0 {
        n := StreamRefinesGraph(env, targets, p, m, v, s, fuel - 1);
      }
    }
    n := n + 1;
    GraphRunUnfolds(env, C, b, i, v, s, n);
  }
}
