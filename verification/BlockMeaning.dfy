/**
  The meaning of a block, instruction by instruction, and the proof that the
  walk over its operation stream has that meaning: no value crosses from one
  instruction to the next, so all guest state flows through the context.
*/
module BlockMeaning {
  import opened Words
  import opened Wrappers
  import opened IR
  import opened Machine
  import opened Handlers
  import opened HandlerShapes
  import opened Translate

  datatype FragmentOutcome = Falls(state: State) | Exits(state: State, target: Word) | Stops

  function FragmentRun(env: Environment, d: Dialect, f: Fragment, s: State): FragmentOutcome {
    match Straight(env, Body(f), 0, 0, map[], s)
    case Halt => Stops
    case Next(v, s') =>
      if f.Branch? && (Value(v, f.cond) != 0) == d.exitWhenTrue then Exits(s', f.ripTarget) else Falls(s')
  }

  /** One past the last of the first `n` instructions that lies at `rip`; 0 if there is none. */
  function LastAt(items: seq<Instruction>, n: nat, rip: Word): (j: nat)
    requires n <= |items|
    ensures j <= n
    ensures j > 0 ==> items[j - 1].rip == rip
  {
    if n == 0 then 0 else if items[n - 1].rip == rip then n else LastAt(items, n - 1, rip)
  }

  function FinishBlock(env: Environment, b: Block, s: State): Outcome {
    match b.rejected
    case None => Done(s.(rip := Add(s.rip, b.increment)))
    case Some(i) =>
      match Straight(env, Body(FragmentOf(i)), 0, 0, map[], s)
      case Halt => Stuck
      case Next(_, s') => Done(s'.(rip := Add(s'.rip, b.increment)))
  }

  /** The block's instructions from number `i` on. */
  function BlockRun(env: Environment, d: Dialect, b: Block, i: nat, s: State, fuel: nat): Outcome
    requires i <= |b.items|
    decreases fuel, |b.items| - i
  {
    if i == |b.items| then FinishBlock(env, b, s)
    else
      match FragmentRun(env, d, FragmentOf(b.items[i]), s)
      case Stops => Stuck
      case Falls(s') => BlockRun(env, d, b, i + 1, s', fuel)
      case Exits(s', r) =>
        var j := LastAt(b.items, i + 1, r);
        if !d.linksBackward || j == 0 then Done(s'.(rip := r))
        else if fuel == 0 then OutOfFuel
        else BlockRun(env, d, b, j - 1, s', fuel - 1)
  }

  ghost predicate GoodBlock(b: Block) {
    && (forall i :: 0 <= i < |b.items| ==> GoodFragment(FragmentOf(b.items[i])))
    && (b.rejected.Some? ==> FragmentOf(b.rejected.value).Plain? && GoodFragment(FragmentOf(b.rejected.value)))
  }

  /*** One placed fragment ***/

  lemma StraightPartOfRun(
      env: Environment, d: Dialect, p: seq<Op>, k: nat, ops: seq<Op>, v: Values, s: State, fuel: nat)
      returns (w: Values)
    requires AllStraight(ops) && Closed(ops)
    requires k + |ops| <= |p| && p[k..k + |ops|] == Shift(ops, OffsetOf(p, k))
    ensures match Straight(env, ops, 0, 0, map[], s)
            case Halt => Run(env, d, p, k, v, s, fuel) == Stuck
            case Next(u, s') =>
              && Run(env, d, p, k, v, s, fuel) == Run(env, d, p, k + |ops|, w, s', fuel)
              && Agree(w, u, OffsetOf(p, k), Defined(ops, |ops|))
  {
    hide Run, OffsetOf, Straight, Closed, IsStraight, Shift, Agree;
    var base := OffsetOf(p, k);
    var shifted := Shift(ops, base);
    ShiftIsStraight(ops, base);
    AgreeOnNothing(v, map[], base);
    NothingDefined(ops);
    PlacementDoesNotMatter(env, ops, base, 0, v, map[], s);
    RunOverStraight(env, d, p, k, shifted, 0, v, s, fuel);
    var q := Straight(env, shifted, base, 0, v, s);
    w := if q.Next? then q.values else v;
  }

  lemma AgreeOnNothing(v: Values, u: Values, d: nat)
    ensures Agree(v, u, d, {})
  {
  }

  lemma NothingDefined(ops: seq<Op>)
    ensures Defined(ops, 0) == {}
  {
  }

  lemma ShiftIsStraight(ops: seq<Op>, d: nat)
    ensures AllStraight(ops) <==> AllStraight(Shift(ops, d))
  {
    var shifted := Shift(ops, d);
    if AllStraight(shifted) {
      forall i | 0 <= i < |ops|
        ensures IsStraight(ops[i])
      {
        assert IsStraight(shifted[i]);
      }
    }
  }

  /** The exit code of a conditional jump stores the target address and leaves. */
  lemma ExitPartOfRun(
      env: Environment, d: Dialect, p: seq<Op>, k: nat, at: nat, cond: nat, r: Word, v: Values, s: State, fuel: nat)
    requires k + 6 <= |p| && p[k..k + 6] == ExitOps(at, cond, r) && OffsetOf(p, k) == at
    ensures Run(env, d, p, k + 1, v, s, fuel) == Done(s.(rip := r))
    ensures IndexFrom(p, at + 80, k + 1) == k + 5 && OffsetOf(p, k + 5) == at + 80
    ensures Run(env, d, p, k + 5, v, s, fuel) == Run(env, d, p, k + 6, v, s, fuel)
  {
    hide Run, OffsetOf, ExitOps;
    ExitOperations(p, k, at, cond, r);
    ExitOffsets(p, k, at, cond, r);
    IndexOfOffset(p, k + 5, k + 1);
    RunUnfoldsStraight(env, d, p, k + 1, v, s, fuel);
    var v1 := v[at + 24 := r];
    var s1 := s.(rip := r);
    RunUnfoldsStraight(env, d, p, k + 2, v1, s, fuel);
    RunUnfoldsStraight(env, d, p, k + 3, v1, s1, fuel);
    RunUnfoldsEnd(env, d, p, k + 4, v1, s1, fuel);
    RunUnfoldsEnd(env, d, p, k + 5, v, s, fuel);
  }

  lemma ExitOffsets(p: seq<Op>, k: nat, at: nat, cond: nat, r: Word)
    requires k + 6 <= |p| && p[k..k + 6] == ExitOps(at, cond, r) && OffsetOf(p, k) == at
    ensures OffsetOf(p, k + 1) == at + 24 && OffsetOf(p, k + 2) == at + 40
    ensures OffsetOf(p, k + 3) == at + 52 && OffsetOf(p, k + 4) == at + 64
    ensures OffsetOf(p, k + 5) == at + 80
  {
    hide OffsetOf, ExitOps;
    ExitOperations(p, k, at, cond, r);
    OffsetAdvances(p, k); OffsetAdvances(p, k + 1); OffsetAdvances(p, k + 2); OffsetAdvances(p, k + 3);
    OffsetAdvances(p, k + 4);
  }

  lemma ExitOperations(p: seq<Op>, k: nat, at: nat, cond: nat, r: Word)
    requires k + 6 <= |p| && p[k..k + 6] == ExitOps(at, cond, r)
    ensures p[k] == CondJump(cond, at + 80, r) && p[k + 1] == Constant(TYPE_I64, r)
    ensures p[k + 2] == p[k + 3] == StoreContext(8, RIP_OFFSET, at + 24)
    ensures p[k + 4] == EndBlock(0) && p[k + 5] == JumpTarget
  {
    var block := p[k..k + 6];
    assert p[k] == block[0] && p[k + 1] == block[1] && p[k + 2] == block[2] && p[k + 3] == block[3]
        && p[k + 4] == block[4] && p[k + 5] == block[5];
  }

  lemma OffsetAdvances(p: seq<Op>, k: nat)
    requires k < |p|
    ensures OffsetOf(p, k + 1) == OffsetOf(p, k) + SizeOf(p[k])
  {
    hide SizeOf;
  }

  lemma RunUnfoldsEnd(env: Environment, d: Dialect, p: seq<Op>, k: nat, v: Values, s: State, fuel: nat)
    requires k < |p|
    ensures p[k].EndBlock? ==> Run(env, d, p, k, v, s, fuel) == Done(s.(rip := Add(s.rip, p[k].increment)))
    ensures p[k].JumpTarget? || p[k].BeginBlock? || (p[k].RipMarker? && d.acceptsMarkers) ==>
              Run(env, d, p, k, v, s, fuel) == Run(env, d, p, k + 1, v, s, fuel)
  {
    hide Step, OffsetOf, LastMarker, IndexFrom;
  }

  lemma RunUnfoldsJump(env: Environment, d: Dialect, p: seq<Op>, k: nat, v: Values, s: State, fuel: nat)
    requires k < |p| && p[k].CondJump?
    ensures Run(env, d, p, k, v, s, fuel) ==
            if (Value(v, p[k].cond) != 0) == d.exitWhenTrue then
              var m := LastMarker(p, k, p[k].ripTarget);
              if !d.linksBackward || m == 0 then Run(env, d, p, k + 1, v, s, fuel)
              else if fuel == 0 then OutOfFuel
              else Run(env, d, p, m, v, s, fuel - 1)
            else
              var j := IndexFrom(p, p[k].target, k + 1);
              if OffsetOf(p, j) == p[k].target then Run(env, d, p, j, v, s, fuel) else Stuck
  {
    hide Step, OffsetOf, LastMarker, IndexFrom;
  }

  /*** Markers in the stream and instructions in the block ***/

  predicate IsMarker(op: Op) { op.RipMarker? }

  lemma {:induction false} NoMarkersBetween(p: seq<Op>, lo: nat, hi: nat, r: Word)
    requires lo <= hi <= |p| && forall k :: lo <= k < hi ==> !IsMarker(p[k])
    ensures LastMarker(p, hi, r) == LastMarker(p, lo, r)
    decreases hi
  {
    if lo < hi {
      assert !IsMarker(p[hi - 1]);
      NoMarkersBetween(p, lo, hi - 1, r);
    }
  }

  lemma FragmentHasNoMarker(f: Fragment, d: nat)
    requires GoodFragment(f)
    ensures forall k :: 0 <= k < |Flatten(f)| ==> !IsMarker(Flatten(f)[k]) && !IsMarker(Shift(Flatten(f), d)[k])
  {
    var ops := Flatten(f);
    forall k | 0 <= k < |ops|
      ensures !IsMarker(ops[k])
    {
      if k < |Body(f)| {
        assert IsStraight(Body(f)[k]);
      }
    }
  }

  /** Inside instruction `i`, the last marker for an address belongs to the last instruction there. */
  lemma {:induction false} MarkersAreInstructions(b: Block, p: seq<Op>, i: nat, k: nat, r: Word)
    requires GoodBlock(b) && Stream(b.items) <= p && i < |b.items|
    requires StartOf(b.items, i) < k <= StartOf(b.items, i + 1)
    ensures k <= |p|
    ensures LastMarker(p, k, r) ==
            var j := LastAt(b.items, i + 1, r); if j == 0 then 0 else StartOf(b.items, j - 1) + 1
    decreases i
  {
    hide Flatten, FragmentOf, Shift, OffsetOf, LastMarker, GoodFragment, Stream;
    var at := StartOf(b.items, i);
    InstructionInStream(b.items, i);
    var ops := Flatten(FragmentOf(b.items[i]));
    var base := OffsetOf(Stream(b.items), at + 1);
    FragmentHasNoMarker(FragmentOf(b.items[i]), base);
    forall q | at + 1 <= q < k
      ensures !IsMarker(p[q])
    {
      assert p[q] == Stream(b.items)[q] == Stream(b.items)[at + 1..at + 1 + |ops|][q - at - 1];
      assert !IsMarker(Shift(ops, base)[q - at - 1]);
    }
    NoMarkersBetween(p, at + 1, k, r);
    assert p[at] == RipMarker(b.items[i].rip);
    LastMarkerUnfolds(p, at + 1, r);
    if b.items[i].rip != r {
      if i == 0 {
        FirstOperation(b.items);
        assert p[0] == Stream(b.items)[0];
        LastMarkerUnfolds(p, 1, r);
        LastMarkerUnfolds(p, 0, r);
      } else {
        InstructionInStream(b.items, i - 1);
        MarkersAreInstructions(b, p, i - 1, at, r);
      }
    }
  }

  lemma LastMarkerUnfolds(p: seq<Op>, k: nat, r: Word)
    requires k <= |p|
    ensures LastMarker(p, k, r) ==
            if k == 0 then 0 else if p[k - 1] == RipMarker(r) then k else LastMarker(p, k - 1, r)
  {
  }

  lemma FirstOperation(items: seq<Instruction>)
    ensures StartOf(items, 0) == 1 && |Stream(items)| >= 1 && Stream(items)[0] == BeginBlock
  {
    StreamPrefix(items, 0);
    assert items[..0] == [];
    assert Stream(items)[..1][0] == Stream(items)[0];
  }

  /*** The stream means what the block means ***/

  /** Running the stream from instruction `i`, whatever was computed before it. */
  lemma {:induction false} RunFromInstruction(
      env: Environment, d: Dialect, b: Block, i: nat, v: Values, s: State, fuel: nat)
    requires GoodBlock(b) && d.acceptsMarkers && i <= |b.items|
    requires StartOf(b.items, i) <= |Assemble(b)|
    ensures Run(env, d, Assemble(b), StartOf(b.items, i), v, s, fuel) == BlockRun(env, d, b, i, s, fuel)
    decreases fuel, |b.items| - i
  {
    hide *;
    var p := Assemble(b);
    BlockRunUnfolds(env, d, b, i, s, fuel);
    if i == |b.items| {
      StartOfAll(b.items);
      RunTail(env, d, b, v, s, fuel);
    } else {
      var k := StartOf(b.items, i);
      PlacedInstruction(b, i);
      var f := FragmentOf(b.items[i]);
      RunUnfoldsEnd(env, d, p, k, v, s, fuel);
      var w := RunOverFragment(env, d, p, k + 1, f, v, s, fuel);
      match FragmentRun(env, d, f, s)
      case Stops =>
      case Falls(s') =>
        RunFromInstruction(env, d, b, i + 1, w, s', fuel);
      case Exits(s', r) =>
        LinkOfExit(b, i, r);
        var j := LastAt(b.items, i + 1, r);
        if d.linksBackward && j > 0 && fuel > 0 {
          PlacedInstruction(b, j - 1);
          RunFromInstruction(env, d, b, j - 1, w, s', fuel - 1);
          RunUnfoldsEnd(env, d, p, StartOf(b.items, j - 1), w, s', fuel - 1);
        }
    }
  }

  lemma StartOfAll(items: seq<Instruction>)
    ensures StartOf(items, |items|) == |Stream(items)|
  {
    hide Stream;
    assert items[..|items|] == items;
  }

  /** Instruction `i` of a block, in the block's whole stream. */
  lemma PlacedInstruction(b: Block, i: nat)
    requires GoodBlock(b) && i < |b.items|
    ensures var p, k, f := Assemble(b), StartOf(b.items, i), FragmentOf(b.items[i]);
            && GoodFragment(f)
            && k + 1 + |Flatten(f)| == StartOf(b.items, i + 1) <= |p|
            && p[k].RipMarker?
            && p[k + 1..k + 1 + |Flatten(f)|] == Shift(Flatten(f), OffsetOf(p, k + 1))
  {
    hide Flatten, FragmentOf, Shift, OffsetOf, GoodFragment, Stream, BeforeEnd, StartOf;
    StreamInBlock(b);
    InstructionInStream(b.items, i);
    PlacedInLongerStream(Stream(b.items), Assemble(b), StartOf(b.items, i) + 1, Flatten(FragmentOf(b.items[i])));
  }

  /** Where the conditional jump of instruction `i` finds the marker it links to. */
  lemma LinkOfExit(b: Block, i: nat, r: Word)
    requires GoodBlock(b) && i < |b.items|
    ensures var k := StartOf(b.items, i) + 1 + |Body(FragmentOf(b.items[i]))|;
            var j := LastAt(b.items, i + 1, r);
            && k <= |Assemble(b)| && j <= i + 1
            && LastMarker(Assemble(b), k, r) == if j == 0 then 0 else StartOf(b.items, j - 1) + 1
  {
    hide Flatten, FragmentOf, Shift, OffsetOf, GoodFragment, Stream, BeforeEnd, StartOf, LastMarker, LastAt, Assemble,
         Body;
    StreamInBlock(b);
    InstructionInStream(b.items, i);
    BranchLength(FragmentOf(b.items[i]));
    MarkersAreInstructions(b, Assemble(b), i, StartOf(b.items, i) + 1 + |Body(FragmentOf(b.items[i]))|, r);
  }

  lemma BlockRunUnfolds(env: Environment, d: Dialect, b: Block, i: nat, s: State, fuel: nat)
    requires i <= |b.items|
    ensures BlockRun(env, d, b, i, s, fuel) ==
            if i == |b.items| then FinishBlock(env, b, s)
            else
              match FragmentRun(env, d, FragmentOf(b.items[i]), s)
              case Stops => Stuck
              case Falls(s') => BlockRun(env, d, b, i + 1, s', fuel)
              case Exits(s', r) =>
                var j := LastAt(b.items, i + 1, r);
                if !d.linksBackward || j == 0 then Done(s'.(rip := r))
                else if fuel == 0 then OutOfFuel
                else BlockRun(env, d, b, j - 1, s', fuel - 1)
  {
    hide FinishBlock, FragmentRun, FragmentOf, LastAt;
  }

  lemma StreamInBlock(b: Block)
    ensures Stream(b.items) <= BeforeEnd(b) <= Assemble(b)
    ensures |Assemble(b)| == |BeforeEnd(b)| + 1 && Assemble(b)[|BeforeEnd(b)|] == EndBlock(b.increment)
  {
    hide Flatten, FragmentOf, Shift, OffsetOf, Stream;
  }

  lemma BranchLength(f: Fragment)
    ensures |Flatten(f)| == if f.Branch? then |Body(f)| + 6 else |Body(f)|
  {
  }

  lemma PlacedInLongerStream(p: seq<Op>, whole: seq<Op>, k: nat, ops: seq<Op>)
    requires p <= whole && k + |ops| <= |p| && p[k..k + |ops|] == Shift(ops, OffsetOf(p, k))
    ensures whole[k..k + |ops|] == Shift(ops, OffsetOf(whole, k))
  {
    hide Shift;
    assert whole == p + whole[|p|..];
    OffsetOfPrefix(p, whole[|p|..], k);
  }

  lemma RunOverFragment(
      env: Environment, d: Dialect, p: seq<Op>, k: nat, f: Fragment, v: Values, s: State, fuel: nat)
      returns (w: Values)
    requires GoodFragment(f)
    requires var ops := Flatten(f); k + |ops| <= |p| && p[k..k + |ops|] == Shift(ops, OffsetOf(p, k))
    ensures match FragmentRun(env, d, f, s)
            case Stops => Run(env, d, p, k, v, s, fuel) == Stuck
            case Falls(s') => Run(env, d, p, k, v, s, fuel) == Run(env, d, p, k + |Flatten(f)|, w, s', fuel)
            case Exits(s', r) =>
              Run(env, d, p, k, v, s, fuel) ==
              var m := LastMarker(p, k + |Body(f)|, r);
              if !d.linksBackward || m == 0 then Done(s'.(rip := r))
              else if fuel == 0 then OutOfFuel
              else Run(env, d, p, m, w, s', fuel - 1)
  {
    hide Run, OffsetOf, Straight, Closed, AllStraight, LastMarker, IndexFrom, Shift, Defined, ExitOps, Flatten;
    var ops, body := Flatten(f), Body(f);
    ShiftedBody(f, OffsetOf(p, k));
    SliceOfSlice(p, k, k + |ops|, |body|);
    w := StraightPartOfRun(env, d, p, k, body, v, s, fuel);
    var u := Straight(env, body, 0, 0, map[], s);
    if f.Branch? && u.Next? {
      RunOverExit(env, d, p, k, f, u.values, w, u.state, fuel);
    }
  }

  lemma RunOverExit(
      env: Environment, d: Dialect, p: seq<Op>, k: nat, f: Fragment, u: Values, w: Values, s: State, fuel: nat)
    requires f.Branch? && GoodFragment(f) && k + |f.test| <= |p|
    requires Agree(w, u, OffsetOf(p, k), Defined(f.test, |f.test|))
    requires var ops := Flatten(f); k + |ops| <= |p| && p[k..k + |ops|] == Shift(ops, OffsetOf(p, k))
    ensures Run(env, d, p, k + |f.test|, w, s, fuel) ==
            if (Value(u, f.cond) != 0) == d.exitWhenTrue then
              var m := LastMarker(p, k + |f.test|, f.ripTarget);
              if !d.linksBackward || m == 0 then Done(s.(rip := f.ripTarget))
              else if fuel == 0 then OutOfFuel
              else Run(env, d, p, m, w, s, fuel - 1)
            else Run(env, d, p, k + |Flatten(f)|, w, s, fuel)
  {
    hide Run, OffsetOf, Closed, AllStraight, LastMarker, IndexFrom, Shift, Defined, ExitOps, Flatten, Agree;
    var base, c := OffsetOf(p, k), k + |f.test|;
    var at := base + Length(f.test);
    PlacedExit(p, k, f);
    ExitOperations(p, c, at, f.cond + base, f.ripTarget);
    ExitPartOfRun(env, d, p, c, at, f.cond + base, f.ripTarget, w, s, fuel);
    RunUnfoldsJump(env, d, p, c, w, s, fuel);
    AgreeAt(w, u, base, Defined(f.test, |f.test|), f.cond);
  }

  /** The exit of a branch, in the stream where the branch is placed. */
  lemma PlacedExit(p: seq<Op>, k: nat, f: Fragment)
    requires f.Branch?
    requires var ops := Flatten(f); k + |ops| <= |p| && p[k..k + |ops|] == Shift(ops, OffsetOf(p, k))
    ensures var c, at := k + |f.test|, OffsetOf(p, k) + Length(f.test);
            && c + 6 == k + |Flatten(f)| <= |p| && OffsetOf(p, c) == at
            && p[c..c + 6] == ExitOps(at, f.cond + OffsetOf(p, k), f.ripTarget)
  {
    hide OffsetOf, Shift, ExitOps, Flatten;
    ShiftedBody(f, OffsetOf(p, k));
    SliceOfSlice(p, k, k + |Flatten(f)|, |f.test|);
    OffsetWithinShifted(p, k, f.test);
  }

  lemma ShiftedBody(f: Fragment, d: nat)
    ensures Shift(Flatten(f), d)[..|Body(f)|] == Shift(Body(f), d)
    ensures f.Branch? ==>
              Shift(Flatten(f), d)[|Body(f)|..] == ExitOps(d + Length(f.test), f.cond + d, f.ripTarget)
    ensures |Flatten(f)| == if f.Branch? then |Body(f)| + 6 else |Body(f)|
  {
    hide OffsetOf, ShiftOp, ExitOps;
    if f.Branch? {
      var exit := ExitOps(Length(f.test), f.cond, f.ripTarget);
      ShiftedExit(Length(f.test), f.cond, f.ripTarget, d);
      assert Shift(f.test + exit, d)[|f.test|..] == Shift(exit, d);
      assert Shift(f.test + exit, d)[..|f.test|] == Shift(f.test, d);
    }
  }

  lemma ShiftedExit(at: nat, cond: nat, ripTarget: Word, d: nat)
    ensures Shift(ExitOps(at, cond, ripTarget), d) == ExitOps(d + at, cond + d, ripTarget)
    ensures |ExitOps(at, cond, ripTarget)| == 6
  {
  }

  lemma SliceOfSlice<T>(s: seq<T>, a: nat, b: nat, n: nat)
    requires a + n <= b <= |s|
    ensures s[a..b][..n] == s[a..a + n] && s[a..b][n..] == s[a + n..b]
  {
  }

  lemma OffsetWithinShifted(p: seq<Op>, k: nat, ops: seq<Op>)
    requires k + |ops| <= |p| && p[k..k + |ops|] == Shift(ops, OffsetOf(p, k))
    ensures OffsetOf(p, k + |ops|) == OffsetOf(p, k) + Length(ops)
  {
    hide Shift;
    var shifted := Shift(ops, OffsetOf(p, k));
    OffsetWithin(p, k, shifted, |ops|);
    OffsetOfShift(ops, OffsetOf(p, k), |ops|);
  }

  /** After the last accepted instruction: a rejected one, if any, and the final increment. */
  lemma RunTail(env: Environment, d: Dialect, b: Block, v: Values, s: State, fuel: nat)
    requires GoodBlock(b) && d.acceptsMarkers
    requires |Stream(b.items)| <= |Assemble(b)|
    ensures Run(env, d, Assemble(b), |Stream(b.items)|, v, s, fuel) == FinishBlock(env, b, s)
  {
    hide Run, Flatten, FragmentOf, Shift, OffsetOf, GoodFragment, Stream, Straight, Closed;
    var p := Assemble(b);
    StreamInBlock(b);
    var n := |BeforeEnd(b)|;
    if b.rejected.None? {
      RunUnfoldsEnd(env, d, p, n, v, s, fuel);
    } else {
      var f := FragmentOf(b.rejected.value);
      var k := |Stream(b.items)|;
      AppendedInstruction(p, Stream(b.items), b.rejected.value);
      RunUnfoldsEnd(env, d, p, k, v, s, fuel);
      var w := RunOverFragment(env, d, p, k + 1, f, v, s, fuel);
      match FragmentRun(env, d, f, s)
      case Falls(s') => RunUnfoldsEnd(env, d, p, n, w, s', fuel);
      case _ =>
    }
  }

  /** The walk over a block's stream has the block's meaning, in every dialect that accepts markers. */
  lemma StreamMeansBlock(env: Environment, d: Dialect, b: Block, v: Values, s: State, fuel: nat)
    requires GoodBlock(b) && d.acceptsMarkers
    ensures Run(env, d, Assemble(b), 0, v, s, fuel) == BlockRun(env, d, b, 0, s, fuel)
  {
    hide Run, FragmentOf, Stream, BlockRun, BeforeEnd;
    StreamInBlock(b);
    FirstOperation(b.items);
    assert Assemble(b)[0] == Stream(b.items)[0];
    RunUnfoldsEnd(env, d, Assemble(b), 0, v, s, fuel);
    RunFromInstruction(env, d, b, 0, v, s, fuel);
  }
}
