/**
  The streams that block translation produces: local single assignment, guarded
  exits, and exactly one unguarded end.
*/
module StreamShape {
  import opened Words
  import opened Wrappers
  import opened IR
  import opened Machine
  import opened X86Tables
  import opened Decoder
  import opened Handlers
  import opened HandlerShapes
  import opened Translate
  import opened BlockMeaning
  import opened SuffixClosure
  import opened LoweringProofs

  /*** Local single assignment ***/

  /** The offsets of values computed since the last marker before operation `k`. */
  function DefinedSince(p: seq<Op>, k: nat): set<nat>
    requires k <= |p|
  {
    if k == 0 || p[k - 1].RipMarker? then {}
    else if ProducesValue(p[k - 1]) then DefinedSince(p, k - 1) + {OffsetOf(p, k - 1)}
    else DefinedSince(p, k - 1)
  }

  /** Every argument names a strictly earlier value of the same instruction. */
  ghost predicate LocalSSA(p: seq<Op>) {
    forall k :: 0 <= k < |p| ==> Arguments(p[k]) <= DefinedSince(p, k)
  }

  lemma ShiftedArguments(op: Op, d: nat, x: nat)
    ensures x + d in Arguments(ShiftOp(op, d)) <==> x in Arguments(op)
  {
    match op
    case Syscall(args) => ShiftedList(args, d, x, ShiftOp(op, d).arguments);
    case Select(_, args) => ShiftedList(args, d, x, ShiftOp(op, d).args);
    case _ =>
  }

  lemma ShiftedList(args: seq<nat>, d: nat, x: nat, shifted: seq<nat>)
    requires |shifted| == |args| && forall i :: 0 <= i < |args| ==> shifted[i] == args[i] + d
    ensures x + d in shifted <==> x in args
  {
    if x in args {
      var i :| 0 <= i < |args| && args[i] == x;
      assert shifted[i] == x + d;
    }
  }

  lemma ShiftedArgumentsAreLarge(op: Op, d: nat, y: nat)
    requires y in Arguments(ShiftOp(op, d))
    ensures y >= d
  {
    match op
    case Syscall(args) => var i :| 0 <= i < |args| && ShiftOp(op, d).arguments[i] == y;
    case Select(_, args) => var i :| 0 <= i < |args| && ShiftOp(op, d).args[i] == y;
    case _ =>
  }

  /** Behind a marker, a placed fragment defines exactly its own values. */
  lemma {:induction false} DefinedByFragment(p: seq<Op>, k: nat, ops: seq<Op>, j: nat, y: nat)
    requires 0 < k && k + |ops| <= |p| && j <= |ops|
    requires p[k - 1].RipMarker? && p[k..k + |ops|] == Shift(ops, OffsetOf(p, k))
    requires forall i :: 0 <= i < |ops| ==> !ops[i].RipMarker?
    ensures var d := OffsetOf(p, k);
            y in DefinedSince(p, k + j) <==> y >= d && y - d in Defined(ops, j)
  {
    hide OffsetOf, Shift, ShiftOp, ProducesValue, Defined, DefinedSince;
    DefinedUnfolds(ops, j);
    DefinedSinceUnfolds(p, k + j);
    if j > 0 {
      DefinedByFragment(p, k, ops, j - 1, y);
      assert p[k + j - 1] == p[k..k + |ops|][j - 1] == ShiftOp(ops[j - 1], OffsetOf(p, k));
      ShiftKeepsKind(ops[j - 1], OffsetOf(p, k));
      OffsetWithin(p, k, Shift(ops, OffsetOf(p, k)), j - 1);
      OffsetOfShift(ops, OffsetOf(p, k), j - 1);
    }
  }

  lemma ShiftKeepsKind(op: Op, d: nat)
    ensures ProducesValue(ShiftOp(op, d)) == ProducesValue(op) && ShiftOp(op, d).RipMarker? == op.RipMarker?
  {
  }

  lemma DefinedUnfolds(ops: seq<Op>, j: nat)
    requires j <= |ops|
    ensures Defined(ops, j) ==
            if j == 0 then {}
            else if ProducesValue(ops[j - 1]) then Defined(ops, j - 1) + {OffsetOf(ops, j - 1)}
            else Defined(ops, j - 1)
  {
    hide OffsetOf, ProducesValue;
  }

  lemma DefinedSinceUnfolds(p: seq<Op>, k: nat)
    requires k <= |p|
    ensures DefinedSince(p, k) ==
            if k == 0 || p[k - 1].RipMarker? then {}
            else if ProducesValue(p[k - 1]) then DefinedSince(p, k - 1) + {OffsetOf(p, k - 1)}
            else DefinedSince(p, k - 1)
  {
    hide OffsetOf, ProducesValue;
  }

  lemma PlacedOperationSSA(p: seq<Op>, k: nat, ops: seq<Op>, j: nat)
    requires 0 < k && k + |ops| <= |p| && j < |ops|
    requires p[k - 1].RipMarker? && p[k..k + |ops|] == Shift(ops, OffsetOf(p, k))
    requires forall i :: 0 <= i < |ops| ==> !ops[i].RipMarker?
    ensures Arguments(p[k + j]) <= DefinedSince(p, k + j) <==> Arguments(ops[j]) <= Defined(ops, j)
  {
    hide OffsetOf, Shift, ShiftOp, ProducesValue, Defined, DefinedSince, Arguments;
    var d := OffsetOf(p, k);
    assert p[k + j] == p[k..k + |ops|][j] == ShiftOp(ops[j], d);
    var here, since := Arguments(p[k + j]), DefinedSince(p, k + j);
    var local, defined := Arguments(ops[j]), Defined(ops, j);
    if local <= defined {
      forall y | y in here
        ensures y in since
      {
        ShiftedArgumentsAreLarge(ops[j], d, y);
        ShiftedArguments(ops[j], d, y - d);
        DefinedByFragment(p, k, ops, j, y);
      }
    }
    if here <= since {
      forall x | x in local
        ensures x in defined
      {
        ShiftedArguments(ops[j], d, x);
        assert x + d in here;
        DefinedByFragment(p, k, ops, j, x + d);
      }
    }
  }

  /** The arguments of operations `lo` to `hi` stay inside their instructions. */
  ghost predicate SSABetween(p: seq<Op>, lo: nat, hi: nat)
    requires lo <= hi <= |p|
  {
    forall k :: lo <= k < hi ==> Arguments(p[k]) <= DefinedSince(p, k)
  }

  /** A placed fragment names only its own earlier values exactly when it is closed. */
  lemma PlacedFragmentSSA(p: seq<Op>, k: nat, ops: seq<Op>)
    requires 0 < k && k + |ops| <= |p|
    requires p[k - 1].RipMarker? && p[k..k + |ops|] == Shift(ops, OffsetOf(p, k))
    requires forall i :: 0 <= i < |ops| ==> !ops[i].RipMarker?
    ensures SSABetween(p, k, k + |ops|) <==> Closed(ops)
  {
    hide OffsetOf, Shift, Defined, DefinedSince, Arguments;
    if Closed(ops) {
      forall q | k <= q < k + |ops|
        ensures Arguments(p[q]) <= DefinedSince(p, q)
      {
        PlacedOperationSSA(p, k, ops, q - k);
      }
    }
    if SSABetween(p, k, k + |ops|) {
      forall j | 0 <= j < |ops|
        ensures Arguments(ops[j]) <= Defined(ops, j)
      {
        var q := k + j;
        assert Arguments(p[q]) <= DefinedSince(p, q);
        PlacedOperationSSA(p, k, ops, j);
      }
    }
  }

  lemma {:induction false} DefinedPrefix(a: seq<Op>, b: seq<Op>, k: nat)
    requires k <= |a|
    ensures Defined(a + b, k) == Defined(a, k)
  {
    hide ProducesValue;
    if k > 0 {
      DefinedPrefix(a, b, k - 1);
      OffsetOfPrefix(a, b, k - 1);
    }
  }

  /** A fragment's operations are closed exactly when the fragment is good. */
  lemma FlattenedIsClosed(f: Fragment)
    requires AllStraight(Body(f)) && (f.Branch? ==> f.cond in Defined(f.test, |f.test|))
    ensures Closed(Flatten(f)) <==> GoodFragment(f)
  {
    hide OffsetOf, Defined, IsStraight, Arguments, ProducesValue;
    if f.Branch? {
      var ops, n := Flatten(f), |f.test|;
      var at := Length(f.test);
      forall j | 0 <= j <= n
        ensures Defined(ops, j) == Defined(f.test, j)
      {
        DefinedPrefix(f.test, ops[n..], j);
        assert ops == f.test + ops[n..];
      }
      OffsetOfPrefix(f.test, ops[n..], n);
      ExitIsClosed(ops, n, at, f);
      forall j | 0 <= j < n
        ensures Arguments(ops[j]) <= Defined(ops, j) <==> Arguments(f.test[j]) <= Defined(f.test, j)
      {
        assert ops[j] == f.test[j];
      }
    }
  }

  lemma ExitIsClosed(ops: seq<Op>, n: nat, at: nat, f: Fragment)
    requires f.Branch? && n == |f.test| && ops == Flatten(f) && at == OffsetOf(ops, n) == Length(f.test)
    requires f.cond in Defined(ops, n)
    ensures forall j :: n <= j < |ops| ==> Arguments(ops[j]) <= Defined(ops, j)
  {
    hide OffsetOf, Defined;
    var exit := ExitOps(at, f.cond, f.ripTarget);
    assert |ops| == n + 6;
    assert ops[n] == exit[0] && ops[n + 1] == exit[1] && ops[n + 2] == exit[2] && ops[n + 3] == exit[3]
        && ops[n + 4] == exit[4] && ops[n + 5] == exit[5];
    Advance(ops, n); Advance(ops, n + 1); Advance(ops, n + 2);
    assert {at + 24} <= Defined(ops, n + 2) && {at + 24} <= Defined(ops, n + 3);
    forall j | n <= j < |ops|
      ensures Arguments(ops[j]) <= Defined(ops, j)
    {
      assert j == n || j == n + 1 || j == n + 2 || j == n + 3 || j == n + 4 || j == n + 5;
    }
  }

  /*** Translated blocks ***/

  /** What translation guarantees of every instruction of a block, good or not. */
  ghost predicate FromHandlers(b: Block) {
    && (forall i :: 0 <= i < |b.items| ==>
          !Emit(b.items[i].handler, b.items[i].site).failed && b.items[i].handler != NoHandler)
    && (b.rejected.Some? ==>
          Emit(b.rejected.value.handler, b.rejected.value.site).failed && b.rejected.value.handler != NoHandler)
  }

  lemma TranslationsAreFromHandlers(memory: Memory, g: Guards, start: Word, b: Block)
    requires TranslationOf(memory, g, start) == Translated(b)
    ensures FromHandlers(b) && |b.items| > 0
  {
    hide Inspect, Translating, Emit;
    RejectedInstruction(memory, g, start, 0, 0);
    forall i | 0 <= i < |b.items|
      ensures !Emit(b.items[i].handler, b.items[i].site).failed && b.items[i].handler != NoHandler
    {
      AcceptedInstruction(memory, g, start, i);
      InspectedItem(memory, g, start, b.items[i].rip);
    }
  }

  predicate NoSelfReference(b: Block) {
    forall i :: 0 <= i < |b.items| ==> !SelfReferential(b.items[i].handler)
  }

  /** A translated block is good exactly when no JO, JB, JZ, JS or JP was accepted. */
  lemma GoodExactlyWhen(b: Block)
    requires FromHandlers(b)
    ensures GoodBlock(b) <==> NoSelfReference(b)
  {
    hide Emit, GoodFragment, SelfReferential;
    forall i | 0 <= i < |b.items|
      ensures GoodFragment(FragmentOf(b.items[i])) <==> !SelfReferential(b.items[i].handler)
    {
      AcceptedAreGood(b.items[i].handler, b.items[i].site);
    }
    if b.rejected.Some? {
      var i := b.rejected.value;
      RejectedOnlyCompute(i.handler, i.site);
      FragmentsAreStraight(i.handler, i.site);
      GoodPlain(FragmentOf(i));
    }
  }

  lemma GoodPlain(f: Fragment)
    requires f.Plain? && AllStraight(f.ops) && Closed(f.ops)
    ensures GoodFragment(f)
  {
  }

  lemma FragmentParts(i: Instruction)
    ensures var f := FragmentOf(i);
            && AllStraight(Body(f)) && (f.Branch? ==> f.cond in Defined(f.test, |f.test|))
            && forall j :: 0 <= j < |Flatten(f)| ==> !Flatten(f)[j].RipMarker?
  {
    hide Emit, Defined;
    FragmentsAreStraight(i.handler, i.site);
    FragmentsAreClosed(i.handler, i.site);
    var f := FragmentOf(i);
    forall j | 0 <= j < |Flatten(f)|
      ensures !Flatten(f)[j].RipMarker?
    {
      if j < |Body(f)| {
        assert IsStraight(Body(f)[j]);
      }
    }
  }

  lemma InstructionSSA(whole: seq<Op>, p: seq<Op>, i: Instruction)
    requires Append(p, i) <= whole
    ensures |p| < |Append(p, i)| <= |whole|
    ensures SSABetween(whole, |p|, |Append(p, i)|) <==> GoodFragment(FragmentOf(i))
  {
    hide Flatten, FragmentOf, Shift, OffsetOf, DefinedSince, Arguments, GoodFragment, Defined, AllStraight;
    var k, ops := |p|, Flatten(FragmentOf(i));
    AppendedInstruction(whole, p, i);
    FragmentParts(i);
    FlattenedIsClosed(FragmentOf(i));
    PlacedFragmentSSA(whole, k + 1, ops);
    MarkerHasNoArguments(i.rip);
    assert SSABetween(whole, k, k + 1 + |ops|) <==> SSABetween(whole, k + 1, k + 1 + |ops|);
  }

  lemma MarkerHasNoArguments(rip: Word)
    ensures Arguments(RipMarker(rip)) == {}
  {
  }

  lemma {:induction false} ItemsSSA(whole: seq<Op>, items: seq<Instruction>)
    requires Stream(items) <= whole
    ensures |Stream(items)| >= 1
    ensures SSABetween(whole, 0, |Stream(items)|) <==>
            forall i :: 0 <= i < |items| ==> GoodFragment(FragmentOf(items[i]))
    decreases |items|
  {
    hide Flatten, FragmentOf, Shift, OffsetOf, DefinedSince, GoodFragment;
    if items == [] {
      assert whole[0] == Stream(items)[0] == BeginBlock;
    } else {
      var n := |items| - 1;
      var p := Stream(items[..n]);
      AppendPrefix(p, items[n]);
      ItemsSSA(whole, items[..n]);
      InstructionSSA(whole, p, items[n]);
    }
  }

  /**
    Instruction-local single assignment of a translated stream: no value crosses
    a marker, exactly when no self-referential flag test was emitted.
  */
  lemma StreamIsLocalSSA(b: Block)
    requires FromHandlers(b)
    ensures LocalSSA(Assemble(b)) <==> NoSelfReference(b)
  {
    hide Flatten, FragmentOf, Shift, OffsetOf, DefinedSince, GoodFragment, Stream, Emit;
    var p := Assemble(b);
    StreamInBlock(b);
    GoodExactlyWhen(b);
    ItemsSSA(p, b.items);
    if b.rejected.Some? {
      InstructionSSA(p, Stream(b.items), b.rejected.value);
      RejectedOnlyCompute(b.rejected.value.handler, b.rejected.value.site);
      FragmentsAreStraight(b.rejected.value.handler, b.rejected.value.site);
      RejectedFragment(b.rejected.value);
      GoodPlain(FragmentOf(b.rejected.value));
    }
    assert Arguments(p[|p| - 1]) == {};
    assert LocalSSA(p) <==> SSABetween(p, 0, |p|);
    assert SSABetween(p, 0, |p|) <==> SSABetween(p, 0, |BeforeEnd(b)|);
  }

  lemma RejectedFragment(i: Instruction)
    ensures FragmentOf(i) == Emit(i.handler, i.site).fragment
  {
  }

  /*** Guarded exits ***/

  predicate OpShaped(p: seq<Op>, k: nat)
    requires k < |p|
  {
    && (p[k].CondJump? ==> GuardsExit(p, k))
    && (p[k].EndBlock? ==> k >= 4 && p[k - 4].CondJump?)
    && KnownKind(p[k])
  }

  ghost predicate ShapedBetween(p: seq<Op>, lo: nat, hi: nat)
    requires lo <= hi <= |p|
  {
    forall k :: lo <= k < hi ==> OpShaped(p, k)
  }

  /** The operations of one placed conditional exit. */
  lemma ExitShaped(p: seq<Op>, c: nat, at: nat, cond: nat, r: Word)
    requires c + 6 < |p| && p[c..c + 6] == ExitOps(at, cond, r) && OffsetOf(p, c) == at
    ensures ShapedBetween(p, c, c + 6)
  {
    hide OffsetOf, ExitOps;
    ExitOperations(p, c, at, cond, r);
    ExitOffsets(p, c, at, cond, r);
    assert OpShaped(p, c) && OpShaped(p, c + 1) && OpShaped(p, c + 2) && OpShaped(p, c + 3) && OpShaped(p, c + 4)
        && OpShaped(p, c + 5);
    forall k | c <= k < c + 6
      ensures OpShaped(p, k)
    {
      assert k == c || k == c + 1 || k == c + 2 || k == c + 3 || k == c + 4 || k == c + 5;
    }
  }

  lemma StraightShaped(p: seq<Op>, k: nat, ops: seq<Op>, d: nat)
    requires k + |ops| <= |p| && p[k..k + |ops|] == Shift(ops, d) && AllStraight(ops)
    ensures ShapedBetween(p, k, k + |ops|)
  {
    forall q | k <= q < k + |ops|
      ensures OpShaped(p, q)
    {
      assert p[q] == p[k..k + |ops|][q - k] == ShiftOp(ops[q - k], d);
      assert IsStraight(ops[q - k]);
    }
  }

  lemma InstructionShaped(whole: seq<Op>, p: seq<Op>, i: Instruction)
    requires Append(p, i) < whole
    ensures |p| < |Append(p, i)| <= |whole| && ShapedBetween(whole, |p|, |Append(p, i)|)
  {
    hide Flatten, FragmentOf, Shift, OffsetOf, Defined, AllStraight, OpShaped, Body, Append, ExitOps, OffsetOf;
    var k, f := |p|, FragmentOf(i);
    var ops, body := Flatten(f), Body(f);
    AppendedInstruction(whole, p, i);
    FragmentParts(i);
    var base := OffsetOf(whole, k + 1);
    ShiftedBody(f, base);
    SliceOfSlice(whole, k + 1, k + 1 + |ops|, |body|);
    MarkerShaped(whole, k);
    StraightShaped(whole, k + 1, body, base);
    if f.Branch? {
      var c := k + 1 + |body|;
      OffsetWithinShifted(whole, k + 1, body);
      BranchBody(f);
      ExitShaped(whole, c, base + Length(body), f.cond + base, f.ripTarget);
    }
  }

  lemma BranchBody(f: Fragment)
    ensures f.Branch? ==> Body(f) == f.test
  {
  }

  lemma MarkerShaped(p: seq<Op>, k: nat)
    requires k < |p|
    ensures p[k].RipMarker? || p[k].BeginBlock? ==> OpShaped(p, k)
  {
  }

  lemma {:induction false} ItemsShaped(whole: seq<Op>, items: seq<Instruction>)
    requires Stream(items) < whole
    ensures ShapedBetween(whole, 0, |Stream(items)|)
    decreases |items|
  {
    hide Flatten, FragmentOf, Shift, OffsetOf, OpShaped;
    if items == [] {
      assert whole[0] == Stream(items)[0] == BeginBlock;
      MarkerShaped(whole, 0);
    } else {
      var n := |items| - 1;
      var p := Stream(items[..n]);
      AppendPrefix(p, items[n]);
      ItemsShaped(whole, items[..n]);
      InstructionShaped(whole, p, items[n]);
    }
  }

  /** Every stream of a block has guarded exits and one unguarded end, its last operation. */
  lemma StreamIsShaped(b: Block)
    ensures Shaped(Assemble(b))
  {
    hide Flatten, FragmentOf, Shift, OffsetOf, Stream, GuardsExit;
    var p := Assemble(b);
    StreamInBlock(b);
    ItemsShaped(p, b.items);
    if b.rejected.Some? {
      InstructionShaped(p, Stream(b.items), b.rejected.value);
    }
    assert ShapedBetween(p, 0, |p| - 1);
    forall k | 0 <= k < |p|
      ensures (p[k].CondJump? ==> GuardsExit(p, k)) && KnownKind(p[k])
    {
      assert k < |p| - 1 ==> OpShaped(p, k);
    }
    forall k | 0 <= k < |p| - 1 && p[k].EndBlock?
      ensures k >= 4 && p[k - 4].CondJump?
    {
      assert OpShaped(p, k);
    }
  }
}
