/**
  What the blocks recorded by earlier compilations do to a later one: nothing,
  unless a conditional jump goes to an address that was recorded and that the
  stream itself has not marked yet.
*/
module StaleLinks {
  import opened Words
  import opened IR
  import opened Machine
  import opened Lowering
  import opened LoweringProofs
  import opened LLVMBackend

  /** A conditional jump to an address left over from an earlier function and not marked before it. */
  predicate JumpsToStale(p: seq<Op>, k: nat, stale: set<Word>)
    requires k < |p|
  {
    p[k].CondJump? && p[k].ripTarget in stale && LastMarker(p, k, p[k].ripTarget) == 0
  }

  lemma MoreValues(targets: set<Word>, at: nat, op: Op, L: Lower, more: set<nat>)
    requires !L.aborted && !LowerOp(targets, at, op, L).aborted
    ensures LowerOp(targets, at, op, L.(values := L.values + more))
         == (var M := LowerOp(targets, at, op, L); M.(values := M.values + more))
  {
    hide Supported, Arguments, ProducesValue, Execute;
    MoreValuesExecuted(at, op, L, more);
  }

  lemma MoreValuesExecuted(at: nat, op: Op, L: Lower, more: set<nat>)
    ensures Execute(L.(values := L.values + more), at, op)
         == (var M := Execute(L, at, op); M.(values := M.values + more))
  {
    hide ProducesValue;
    assert L.values + {at} + more == L.values + more + {at};
  }

  lemma {:induction false} StaleUpTo(targets: set<Word>, stale: set<Word>, values: set<nat>, p: seq<Op>, k: nat)
    requires k <= |p| && !LowerUpTo(targets, p, |p|).aborted
    requires forall j :: 0 <= j < |p| && p[j].CondJump? ==> p[j].ripTarget in targets
    ensures var L, M := LowerFrom(targets, stale, values, p, k), LowerUpTo(targets, p, k);
            && (L.aborted <==> exists j :: 0 <= j < k && JumpsToStale(p, j, stale))
            && (!L.aborted ==> L == M.(values := M.values + values))
  {
    hide LowerOp, OffsetOf, LowerUpTo, LowerFrom, LastMarker;
    if k == 0 {
      FirstState(targets, stale, values, p);
    } else {
      StaleUpTo(targets, stale, values, p, k - 1);
      Monotone(targets, p, k, |p|);
      Monotone(targets, p, k - 1, |p|);
      LowerFromUnfolds(targets, stale, values, p, k - 1);
      LowerUnfolds(targets, p, k - 1);
      var L, M := LowerFrom(targets, stale, values, p, k - 1), LowerUpTo(targets, p, k - 1);
      var op, at := p[k - 1], OffsetOf(p, k - 1);
      if L.aborted {
        AbortedStep(targets, stale, at, op, L);
      } else {
        if op.CondJump? {
          LinksAreMarkers(targets, p, k - 1, op.ripTarget);
        }
        assert HitsStale(stale, op, L) <==> JumpsToStale(p, k - 1, stale);
        MoreValues(targets, at, op, M, values);
      }
    }
  }

  lemma FirstState(targets: set<Word>, stale: set<Word>, values: set<nat>, p: seq<Op>)
    ensures LowerFrom(targets, stale, values, p, 0) == INITIAL.(values := values)
    ensures LowerUpTo(targets, p, 0) == INITIAL
  {
  }

  /**
    What earlier compilations leave behind: values never matter; recorded blocks
    break the function exactly when a conditional jump goes to one of their
    addresses before the stream has marked that address itself.
  */
  lemma StaleLinksMatterExactlyWhen(stale: set<Word>, values: set<nat>, p: seq<Op>, rip: Word)
    requires !Compile(p, rip).aborted
    ensures var L := LowerFrom(Targets(p, rip), stale, values, p, |p|);
            && (L.aborted <==> exists k :: 0 <= k < |p| && JumpsToStale(p, k, stale))
            && (!L.aborted ==> L.blocks == Compile(p, rip).blocks && L.stack == Compile(p, rip).stack)
  {
    hide LowerUpTo, LowerFrom, JumpsToStale;
    forall j | 0 <= j < |p| && p[j].CondJump?
      ensures p[j].ripTarget in Targets(p, rip)
    {
      JumpsAreTargets(p, |p|, j);
    }
    StaleUpTo(Targets(p, rip), stale, values, p, |p|);
  }

  /** An exit guarded by a constant, as a whole stream. */
  const ONE_EXIT: seq<Op> :=
    [Constant(16, 1), CondJump(0, 56, 0x2000), EndBlock(0), JumpTarget, EndBlock(2)]

  lemma ExampleCompiles()
    ensures !Compile(ONE_EXIT, 0x1000).aborted
  {
    hide LowerUpTo, LowerOp, OffsetOf, Targets;
    var p, T := ONE_EXIT, Targets(ONE_EXIT, 0x1000);
    FirstOffsetIsZero(p);
    LowerStarts(T, p);
    Proceeds(T, p, 0); Proceeds(T, p, 1); Proceeds(T, p, 2); Proceeds(T, p, 3); Proceeds(T, p, 4);
  }

  /** Compiled by itself that stream gives code; after a function that recorded its target it gives none. */
  lemma SecondFunctionFails(stale: set<Word>)
    requires 0x2000 in stale
    ensures !Compile(ONE_EXIT, 0x1000).aborted
    ensures LowerFrom(Targets(ONE_EXIT, 0x1000), stale, {}, ONE_EXIT, |ONE_EXIT|).aborted
  {
    hide Compile, LowerFrom, Targets;
    ExampleCompiles();
    StaleLinksMatterExactlyWhen(stale, {}, ONE_EXIT, 0x1000);
    assert JumpsToStale(ONE_EXIT, 1, stale);
  }

  lemma Proceeds(targets: set<Word>, p: seq<Op>, k: nat)
    requires k < |p| && !LowerUpTo(targets, p, k).aborted
    ensures var op, L, L' := p[k], LowerUpTo(targets, p, k), LowerUpTo(targets, p, k + 1);
            && L.values <= L'.values
            && (op.Constant? ==> !L'.aborted && OffsetOf(p, k) in L'.values)
            && (op.CondJump? && op.cond in L.values ==> !L'.aborted)
            && (op.JumpTarget? || op.EndBlock? ==> !L'.aborted)
  {
    hide OffsetOf, LowerUpTo;
    LowerUnfolds(targets, p, k);
  }

  lemma FirstOffsetIsZero(p: seq<Op>)
    ensures OffsetOf(p, 0) == 0
  {
  }
}
