/**
  When the lowering succeeds, and the well-formedness of the graph it builds.
*/
module GraphShape {
  import opened Words
  import opened IR
  import opened Machine
  import opened Lowering
  import opened LoweringProofs
  import opened StreamShape

  /*** When the compiler aborts ***/

  lemma {:induction false} SinceIsDefined(p: seq<Op>, k: nat)
    requires k <= |p|
    ensures DefinedSince(p, k) <= Defined(p, k)
  {
    hide OffsetOf, ProducesValue;
    if k > 0 && !p[k - 1].RipMarker? {
      SinceIsDefined(p, k - 1);
    }
  }

  /** The offsets with an LLVM value are those of the value-producing operations so far. */
  lemma {:induction false} ValuesAreDefined(targets: set<Word>, p: seq<Op>, k: nat)
    requires k <= |p| && !LowerUpTo(targets, p, k).aborted
    ensures LowerUpTo(targets, p, k).values == Defined(p, k)
  {
    hide OffsetOf, LowerOp, LowerUpTo, Defined;
    DefinedUnfolds(p, k);
    if k == 0 {
      LowerStarts(targets, p);
    } else {
      Monotone(targets, p, k - 1, k);
      LowerUnfolds(targets, p, k - 1);
      ValuesAreDefined(targets, p, k - 1);
      StepValues(targets, OffsetOf(p, k - 1), p[k - 1], LowerUpTo(targets, p, k - 1));
    }
  }

  lemma StepValues(targets: set<Word>, at: nat, op: Op, L: Lower)
    requires !L.aborted
    ensures var L' := LowerOp(targets, at, op, L);
            && (!L'.aborted ==> L'.values == if ProducesValue(op) then L.values + {at} else L.values)
            && (KnownKind(op) && Arguments(op) <= L.values ==>
                  (L'.aborted <==> IsStraight(op) && !Supported(op)))
  {
    hide Supported;
  }

  /**
    A stream of known operations in local single-assignment form compiles exactly
    when the lowering has a case for each.
  */
  lemma {:induction false} CompilesExactlyWhen(targets: set<Word>, p: seq<Op>, k: nat)
    requires k <= |p| && LocalSSA(p) && forall i :: 0 <= i < |p| ==> KnownKind(p[i])
    ensures LowerUpTo(targets, p, k).aborted <==> exists i :: 0 <= i < k && IsStraight(p[i]) && !Supported(p[i])
  {
    hide OffsetOf, LowerOp, LowerUpTo, Supported, IsStraight, Arguments, DefinedSince, KnownKind;
    if k == 0 {
      LowerStarts(targets, p);
    } else {
      CompilesExactlyWhen(targets, p, k - 1);
      LowerUnfolds(targets, p, k - 1);
      Monotone(targets, p, k - 1, k);
      if !LowerUpTo(targets, p, k - 1).aborted {
        ValuesAreDefined(targets, p, k - 1);
        SinceIsDefined(p, k - 1);
        assert Arguments(p[k - 1]) <= DefinedSince(p, k - 1);
        StepValues(targets, OffsetOf(p, k - 1), p[k - 1], LowerUpTo(targets, p, k - 1));
      }
    }
  }

  /*** Well-formed graphs ***/

  predicate Unterminated(block: seq<Instr>) {
    forall i :: 0 <= i < |block| ==> !IsTerminator(block[i])
  }

  /** Exactly one terminator, at the end. */
  predicate Terminated(block: seq<Instr>) {
    |block| > 0 && IsTerminator(block[|block| - 1]) && Unterminated(block[..|block| - 1])
  }

  /** Outside an exit: nothing is pending, and only the insertion block is unterminated. */
  ghost predicate Settled(L: Lower) {
    && L.stack == []
    && Unterminated(L.blocks[L.current])
    && forall b :: 0 <= b < |L.blocks| && b != L.current ==> Terminated(L.blocks[b])
  }

  lemma StraightSettled(targets: set<Word>, at: nat, op: Op, L: Lower)
    requires Settled(L) && !op.CondJump? && !op.EndBlock?
    ensures Settled(LowerOp(targets, at, op, L))
  {
    hide Supported, Arguments, ProducesValue;
  }

  /** A conditional jump together with its exit settles on the false path. */
  lemma ExitSettled(targets: set<Word>, p: seq<Op>, k: nat)
    requires k < |p| && p[k].CondJump? && GuardsExit(p, k) && !LowerUpTo(targets, p, |p|).aborted
    requires Settled(LowerUpTo(targets, p, k))
    ensures Settled(LowerUpTo(targets, p, k + 5))
    ensures forall j :: k <= j < k + 5 ==>
              var L := LowerUpTo(targets, p, j); Unterminated(L.blocks[L.current])
  {
    hide OffsetOf, LowerUpTo, LowerOp, IsStraight;
    var L0, L1 := LowerUpTo(targets, p, k), LowerUpTo(targets, p, k + 1);
    Monotone(targets, p, k + 1, |p|); Monotone(targets, p, k + 2, |p|); Monotone(targets, p, k + 3, |p|);
    Monotone(targets, p, k + 4, |p|); Monotone(targets, p, k + 5, |p|); Monotone(targets, p, k, |p|);
    LowerUnfolds(targets, p, k);
    var t := |L0.blocks|;
    BranchSettles(targets, OffsetOf(p, k), p[k], L0);
    var L2, L3, L4 := LowerUpTo(targets, p, k + 2), LowerUpTo(targets, p, k + 3), LowerUpTo(targets, p, k + 4);
    InsideExit(targets, p, k + 1, t);
    InsideExit(targets, p, k + 2, t);
    InsideExit(targets, p, k + 3, t);
    LowerUnfolds(targets, p, k + 4);
    LeavingSettles(targets, OffsetOf(p, k + 4), p[k + 4], L4, t);
    forall j | k <= j < k + 5
      ensures var L := LowerUpTo(targets, p, j); Unterminated(L.blocks[L.current])
    {
      assert j == k || j == k + 1 || j == k + 2 || j == k + 3 || j == k + 4;
    }
  }

  /** Inside an exit: the true path is the insertion block, the empty false path is pending. */
  ghost predicate Pending(L: Lower, t: nat) {
    && L.current == t && t + 2 == |L.blocks| && L.stack == [t + 1] && L.blocks[t + 1] == []
    && Unterminated(L.blocks[t])
    && forall b :: 0 <= b < t ==> Terminated(L.blocks[b])
  }

  lemma BranchSettles(targets: set<Word>, at: nat, op: Op, L: Lower)
    requires op.CondJump? && Settled(L) && !LowerOp(targets, at, op, L).aborted
    ensures Pending(LowerOp(targets, at, op, L), |L.blocks|)
  {
    var c := L.current;
    var L' := LowerOp(targets, at, op, L);
    assert L'.blocks[c][..|L'.blocks[c]| - 1] == L.blocks[c];
  }

  lemma StraightStep(targets: set<Word>, p: seq<Op>, k: nat)
    requires k < |p| && IsStraight(p[k]) && !LowerUpTo(targets, p, k + 1).aborted
    ensures var L, L' := LowerUpTo(targets, p, k), LowerUpTo(targets, p, k + 1);
            && L'.current == L.current && L'.stack == L.stack && |L'.blocks| == |L.blocks|
            && forall b :: 0 <= b < |L.blocks| && b != L.current ==> L'.blocks[b] == L.blocks[b]
  {
    hide OffsetOf, LowerUpTo, Supported, Arguments;
    LowerUnfolds(targets, p, k);
  }

  lemma InsideExit(targets: set<Word>, p: seq<Op>, k: nat, t: nat)
    requires k < |p| && IsStraight(p[k]) && !LowerUpTo(targets, p, k + 1).aborted
    requires Pending(LowerUpTo(targets, p, k), t)
    ensures Pending(LowerUpTo(targets, p, k + 1), t)
  {
    hide OffsetOf, LowerUpTo, Supported, Arguments, ProducesValue;
    Monotone(targets, p, k, k + 1);
    StraightStep(targets, p, k);
    LowerUnfolds(targets, p, k);
    StraightStays(targets, OffsetOf(p, k), p[k], LowerUpTo(targets, p, k));
  }

  lemma StraightStays(targets: set<Word>, at: nat, op: Op, L: Lower)
    requires IsStraight(op) && Unterminated(L.blocks[L.current])
    ensures var L' := LowerOp(targets, at, op, L);
            L.current < |L'.blocks| && Unterminated(L'.blocks[L.current])
  {
    hide Supported, Arguments;
  }

  lemma LeavingSettles(targets: set<Word>, at: nat, op: Op, L: Lower, t: nat)
    requires op.EndBlock? && Pending(L, t) && !L.aborted
    ensures Settled(LowerOp(targets, at, op, L))
  {
    var L' := LowerOp(targets, at, op, L);
    assert L'.blocks[t][..|L'.blocks[t]| - 1] == L.blocks[t];
  }

  /** The final end terminates the last open block. */
  lemma EndTerminates(targets: set<Word>, at: nat, op: Op, L: Lower)
    requires op.EndBlock? && Settled(L) && !L.aborted
    ensures var L' := LowerOp(targets, at, op, L);
            L'.stack == [] && forall b :: 0 <= b < |L'.blocks| ==> Terminated(L'.blocks[b])
  {
    var L' := LowerOp(targets, at, op, L);
    var c := L.current;
    assert L'.blocks[c][..|L'.blocks[c]| - 1] == L.blocks[c];
  }

  /** Operation `k` is not inside an exit. */
  ghost predicate Outside(p: seq<Op>, k: nat)
    requires k <= |p|
  {
    forall c :: 0 <= c < k && c + 4 >= k ==> !p[c].CondJump?
  }

  lemma {:induction false} SettledToTheEnd(targets: set<Word>, p: seq<Op>, k: nat)
    requires Shaped(p) && k < |p| && !LowerUpTo(targets, p, |p|).aborted
    requires Outside(p, k) && Settled(LowerUpTo(targets, p, k))
    ensures var L := LowerUpTo(targets, p, |p|);
            L.stack == [] && forall b :: 0 <= b < |L.blocks| ==> Terminated(L.blocks[b])
    ensures forall j :: k <= j < |p| ==>
              var L := LowerUpTo(targets, p, j); Unterminated(L.blocks[L.current])
    decreases |p| - k
  {
    hide OffsetOf, LowerUpTo, LowerOp, Terminated, Unterminated;
    Monotone(targets, p, k, |p|);
    LowerUnfolds(targets, p, k);
    if p[k].CondJump? {
      ExitSettled(targets, p, k);
      SettledToTheEnd(targets, p, k + 5);
    } else if p[k].EndBlock? {
      if k >= 4 {
        assert !p[k - 4].CondJump?;
      }
      assert k == |p| - 1;
      EndTerminates(targets, OffsetOf(p, k), p[k], LowerUpTo(targets, p, k));
    } else {
      StraightSettled(targets, OffsetOf(p, k), p[k], LowerUpTo(targets, p, k));
      SettledToTheEnd(targets, p, k + 1);
    }
  }

  /** Branches stay inside the function. */
  predicate TargetsWithin(i: Instr, n: nat) {
    match i
    case Exec(_, _) => true
    case Ret(_) => true
    case Br(t) => t < n
    case CondBr(_, t, f) => t < n && f < n
  }

  ghost predicate BranchesWithin(C: Graph) {
    forall b, i :: 0 <= b < |C| && 0 <= i < |C[b]| ==> TargetsWithin(C[b][i], |C|)
  }

  lemma StepBranchesWithin(targets: set<Word>, at: nat, op: Op, L: Lower)
    requires BranchesWithin(L.blocks)
    ensures BranchesWithin(LowerOp(targets, at, op, L).blocks)
  {
    hide Supported, Arguments, ProducesValue;
  }

  lemma {:induction false} AllBranchesWithin(targets: set<Word>, p: seq<Op>, k: nat)
    requires k <= |p|
    ensures BranchesWithin(LowerUpTo(targets, p, k).blocks)
  {
    hide OffsetOf, LowerOp, BranchesWithin;
    if k > 0 {
      AllBranchesWithin(targets, p, k - 1);
      StepBranchesWithin(targets, OffsetOf(p, k - 1), p[k - 1], LowerUpTo(targets, p, k - 1));
    } else {
      EmptyBranchesWithin();
    }
  }

  lemma EmptyBranchesWithin()
    ensures BranchesWithin([[]])
  {
  }

  /**
    The graph of a shaped stream is well formed: every basic block has exactly
    one terminator, at its end; branches stay inside the function; no false path
    is left pending; and no operation was ever appended to a terminated block.
  */
  lemma GraphIsWellFormed(p: seq<Op>, rip: Word)
    requires Shaped(p) && !Compile(p, rip).aborted
    ensures var L := Compile(p, rip);
            && L.stack == [] && BranchesWithin(L.blocks)
            && forall b :: 0 <= b < |L.blocks| ==> Terminated(L.blocks[b])
    ensures forall j :: 0 <= j < |p| ==>
              var L := LowerUpTo(Targets(p, rip), p, j); Unterminated(L.blocks[L.current])
  {
    hide LowerOp, Targets, OffsetOf, Terminated;
    LowerStarts(Targets(p, rip), p);
    AllBranchesWithin(Targets(p, rip), p, |p|);
    SettledToTheEnd(Targets(p, rip), p, 0);
  }
}
