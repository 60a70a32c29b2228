/**
  The LLVM backend as the program runs it: two passes that find jump targets,
  and one pass that lowers every operation, over fields that outlive a compilation.
*/
module LLVMBackend {
  import opened Words
  import opened Wrappers
  import opened IR
  import opened Machine
  import opened IRList
  import opened Lowering

  /** A basic block, which belongs to one particular function. */
  datatype BlockRef = BlockRef(owner: nat, block: nat)

  datatype Compiled = Code(graph: Graph) | Aborted

  /*** The specification: lowering with what an earlier compilation left behind ***/

  /** A conditional jump whose guest target is only known as a block of another function. */
  predicate HitsStale(stale: set<Word>, op: Op, L: Lower) {
    op.CondJump? && op.ripTarget !in L.links && op.ripTarget in stale
  }

  /**
    One operation, when `BlockJumpTargets` still holds the blocks of earlier
    functions for the addresses `stale`. A branch into another function is no
    valid code, which counts as aborting.
  */
  function LowerAmid(targets: set<Word>, stale: set<Word>, at: nat, op: Op, L: Lower): Lower {
    if !L.aborted && HitsStale(stale, op, L) then Abort(L) else LowerOp(targets, at, op, L)
  }

  function LowerFrom(targets: set<Word>, stale: set<Word>, values: set<nat>, p: seq<Op>, k: nat): Lower
    requires k <= |p|
  {
    if k == 0 then INITIAL.(values := values)
    else LowerAmid(targets, stale, OffsetOf(p, k - 1), p[k - 1], LowerFrom(targets, stale, values, p, k - 1))
  }

  /** The address, if any, that an operation records a block for. */
  function Opened(targets: set<Word>, op: Op): set<Word> {
    if op.RipMarker? && op.rip in targets then {op.rip} else {}
  }

  lemma LinksGrow(targets: set<Word>, stale: set<Word>, at: nat, op: Op, L: Lower)
    ensures !L.aborted ==>
              LowerAmid(targets, stale, at, op, L).links.Keys == L.links.Keys + Opened(targets, op)
  {
    hide Supported, Arguments, ProducesValue;
  }

  /** Entries replaced by a block of the function under construction no longer matter. */
  lemma SameStale(targets: set<Word>, stale: set<Word>, now: set<Word>, at: nat, op: Op, L: Lower)
    requires now <= stale <= now + L.links.Keys
    ensures LowerAmid(targets, now, at, op, L) == LowerAmid(targets, stale, at, op, L)
  {
    hide LowerOp;
  }

  lemma {:induction false} AbortedStays(
      targets: set<Word>, stale: set<Word>, values: set<nat>, p: seq<Op>, j: nat, k: nat)
    requires j <= k <= |p| && LowerFrom(targets, stale, values, p, j).aborted
    ensures LowerFrom(targets, stale, values, p, k) == LowerFrom(targets, stale, values, p, j)
    decreases k - j
  {
    hide OffsetOf, LowerOp, LowerFrom, HitsStale;
    if j < k {
      AbortedStays(targets, stale, values, p, j, k - 1);
      LowerFromUnfolds(targets, stale, values, p, k - 1);
      AbortedStep(targets, stale, OffsetOf(p, k - 1), p[k - 1], LowerFrom(targets, stale, values, p, k - 1));
    }
  }

  lemma AbortedStep(targets: set<Word>, stale: set<Word>, at: nat, op: Op, L: Lower)
    requires L.aborted
    ensures LowerAmid(targets, stale, at, op, L) == L
  {
  }

  lemma LowerFromUnfolds(targets: set<Word>, stale: set<Word>, values: set<nat>, p: seq<Op>, k: nat)
    requires k < |p|
    ensures LowerFrom(targets, stale, values, p, k + 1)
         == LowerAmid(targets, stale, OffsetOf(p, k), p[k], LowerFrom(targets, stale, values, p, k))
  {
    hide LowerAmid;
  }

  lemma LowerAmidUnfolds(targets: set<Word>, stale: set<Word>, at: nat, op: Op, L: Lower)
    requires !L.aborted
    ensures LowerAmid(targets, stale, at, op, L) ==
            match op
            case BeginBlock => L
            case JumpTarget => L
            case RipMarker(r) => if r in targets then OpenBlock(L, r) else L
            case EndBlock(n) => LeaveBlock(L, n)
            case CondJump(c, _, r) =>
              if c !in L.values || (r !in L.links && r in stale) then Abort(L) else Branching(L, c, r)
            case _ => if Supported(op) && Arguments(op) <= L.values then Execute(L, at, op) else Abort(L)
  {
    hide Supported, Arguments, OpenBlock, LeaveBlock, Branching, Execute, Abort;
  }

  class LLVM {
    var values: set<nat>
    var blockStack: seq<nat>
    var jumpTargets: set<Word>
    var blockJumpTargets: map<Word, BlockRef>
    var currentRip: Word

    /** The function being built, its number, and the builder's insertion point. */
    var blocks: Graph
    var owner: nat
    var insertion: nat
    var aborted: bool

    constructor ()
      ensures blockStack == [] && blockJumpTargets == map[] && values == {}
    {
      values, blockStack, jumpTargets, blockJumpTargets, currentRip := {}, [], {}, map[], 0;
      blocks, owner, insertion, aborted := [], 0, 0, false;
    }

    /** The recorded blocks of the function being built. */
    function Links(): map<Word, nat>
      reads this`blockJumpTargets, this`owner
    {
      map r | r in blockJumpTargets && blockJumpTargets[r].owner == owner :: blockJumpTargets[r].block
    }

    /** The addresses whose recorded block belongs to an earlier function. */
    function Stale(): set<Word>
      reads this`blockJumpTargets, this`owner
    {
      set r | r in blockJumpTargets && blockJumpTargets[r].owner != owner
    }

    ghost function Lowering(): LowerState
      reads this`blocks, this`insertion, this`blockStack, this`blockJumpTargets, this`owner, this`values, this`aborted
    {
      Lowered(blocks, insertion, blockStack, Links(), values, aborted)
    }

    /** No recorded block belongs to a function that does not exist yet. */
    ghost predicate Known()
      reads this`blockJumpTargets, this`owner
    {
      forall r :: r in blockJumpTargets ==> blockJumpTargets[r].owner <= owner
    }

    /** `builder->Create...` at the insertion point. */
    method Emit(i: Instr)
      requires insertion < |blocks|
      modifies this`blocks
      ensures blocks == old(blocks)[insertion := old(blocks)[insertion] + [i]]
    {
      blocks := blocks[insertion := blocks[insertion] + [i]];
    }

    /** A marker of a jump target: the current block ends in a branch to a new one. */
    method StartBlock(r: Word)
      requires Valid(Lowering()) && !aborted
      modifies this`blockJumpTargets, this`blocks, this`insertion
      ensures Lowering() == OpenBlock(old(Lowering()), r) && Stale() == old(Stale()) - {r}
      ensures blockJumpTargets.Keys == old(blockJumpTargets.Keys) + {r} && (old(Known()) ==> Known())
    {
      var newBlock := |blocks|;
      Emit(Br(newBlock));
      blocks := blocks + [[]];
      insertion := newBlock;
      blockJumpTargets := blockJumpTargets[r := BlockRef(owner, newBlock)];
      assert Links() == old(Links())[r := newBlock];
    }

    /** The end of a block: return, and continue with the false path pending last. */
    method Return(increment: Word)
      requires Valid(Lowering()) && !aborted
      modifies this`blockStack, this`blocks, this`insertion
      ensures Lowering() == LeaveBlock(old(Lowering()), increment) && Stale() == old(Stale())
    {
      Emit(Ret(increment));
      if blockStack != [] {
        insertion := blockStack[|blockStack| - 1];
        blockStack := blockStack[..|blockStack| - 1];
      }
      assert Links() == old(Links());
    }

    method Jump(cond: nat, r: Word)
      requires Valid(Lowering()) && !aborted
      modifies this`blockStack, this`blocks, this`insertion, this`aborted
      ensures Stale() == old(Stale())
      ensures var L := old(Lowering());
              Lowering() == if cond !in L.values || (r !in L.links && r in old(Stale())) then Abort(L)
                            else Branching(L, cond, r)
    {
      if cond !in values || (r in blockJumpTargets && blockJumpTargets[r].owner != owner) {
        aborted := true;
        assert Links() == old(Links());
        return;
      }
      var truePath := |blocks|;
      var falsePath := truePath + 1;
      Emit(CondBr(cond, if r in blockJumpTargets then blockJumpTargets[r].block else truePath, falsePath));
      blocks := blocks + [[], []];
      insertion := truePath;
      blockStack := blockStack + [falsePath];
      assert Links() == old(Links());
    }

    method Compute(offset: nat, op: Op)
      requires Valid(Lowering()) && !aborted
      modifies this`values, this`blocks, this`aborted
      ensures Stale() == old(Stale())
      ensures var L := old(Lowering());
              Lowering() == if Supported(op) && Arguments(op) <= L.values then Execute(L, offset, op) else Abort(L)
    {
      if !Supported(op) || !(Arguments(op) <= values) {
        aborted := true;
      } else {
        Emit(Exec(offset, op));
        if ProducesValue(op) {
          values := values + {offset};
        }
      }
      assert Links() == old(Links());
    }

    method HandleIR(offset: nat, op: Op)
      requires Valid(Lowering()) && !aborted
      modifies this`values, this`blockStack, this`blockJumpTargets, this`currentRip, this`blocks, this`insertion,
               this`aborted
      ensures Lowering() == LowerAmid(jumpTargets, old(Stale()), offset, op, old(Lowering()))
      ensures Stale() == old(Stale()) - Opened(jumpTargets, op) && (old(Known()) ==> Known())
      ensures blockJumpTargets.Keys == old(blockJumpTargets.Keys) + Opened(jumpTargets, op)
    {
      hide Supported, Arguments, ProducesValue, OpenBlock, LeaveBlock, Branching, Execute, Valid, Links, Stale,
           LowerAmid,
           Abort, Known;
      LowerAmidUnfolds(jumpTargets, Stale(), offset, op, Lowering());
      match op {
        case BeginBlock =>
        case JumpTarget =>
        case RipMarker(r) =>
          currentRip := r;
          if r in jumpTargets {
            StartBlock(r);
          }
        case EndBlock(n) => Return(n);
        case CondJump(c, _, r) => Jump(c, r);
        case _ => Compute(offset, op);
      }
    }

    /** A walk beyond the operations of the list fails, as reading past its end does. */
    method FindJumpTargets(ir: IntrusiveIRList, rip: Word) returns (ok: bool)
      requires ir.Valid()
      modifies this`jumpTargets
      ensures ir.sound ==> ok && jumpTargets == old(jumpTargets) + Targets(ir.ops, rip)
    {
      hide OpAt, OffsetOf, Represents, SizeOf, GetSize;
      var irTargets;
      ok, irTargets := CollectJumps(ir);
      if !ok {
        return;
      }
      var i, localRip := 0, rip;
      ghost var k, before := 0, jumpTargets;
      if ir.sound { AtOperation(ir.bytes, ir.currentOffset, ir.ops, 0); }
      while i != ir.currentOffset
        invariant ir.sound ==> k <= |ir.ops| && i == OffsetOf(ir.ops, k) && localRip == LocalRip(ir.ops, k, rip)
        invariant ir.sound ==> (i == ir.currentOffset <==> k == |ir.ops|)
        invariant ir.sound ==> jumpTargets == before + LandingRips(ir.ops, k, rip, irTargets)
        decreases |ir.bytes| - i
      {
        if ir.sound { AtOperation(ir.bytes, ir.currentOffset, ir.ops, k); }
        var next := ir.GetOp(i);
        if next.None? {
          return false;
        }
        FitsAt(ir.bytes, i);
        var op := next.value;
        if op.RipMarker? {
          localRip := op.rip;
        } else if op.JumpTarget? {
          jumpTargets := jumpTargets + {localRip};
        }
        if i in irTargets {
          jumpTargets := jumpTargets + {localRip};
        }
        i := i + SizeOf(op);
        k := k + 1;
      }
    }

    /** The first pass of `FindJumpTargets`. */
    method CollectJumps(ir: IntrusiveIRList) returns (ok: bool, irTargets: set<nat>)
      requires ir.Valid()
      modifies this`jumpTargets
      ensures ir.sound ==> ok && irTargets == SkipOffsets(ir.ops, |ir.ops|)
      ensures ir.sound ==> jumpTargets == old(jumpTargets) + JumpRips(ir.ops, |ir.ops|)
    {
      hide OpAt, OffsetOf, Represents, SizeOf, GetSize;
      ok, irTargets := true, {};
      var i := 0;
      ghost var k := 0;
      if ir.sound { AtOperation(ir.bytes, ir.currentOffset, ir.ops, 0); }
      while i != ir.currentOffset
        invariant ir.sound ==> k <= |ir.ops| && i == OffsetOf(ir.ops, k) && irTargets == SkipOffsets(ir.ops, k)
        invariant ir.sound ==> (i == ir.currentOffset <==> k == |ir.ops|)
        invariant ir.sound ==> jumpTargets == old(jumpTargets) + JumpRips(ir.ops, k)
        decreases |ir.bytes| - i
      {
        if ir.sound { AtOperation(ir.bytes, ir.currentOffset, ir.ops, k); }
        var next := ir.GetOp(i);
        if next.None? {
          return false, irTargets;
        }
        FitsAt(ir.bytes, i);
        var op := next.value;
        if op.CondJump? {
          irTargets := irTargets + {op.target};
          jumpTargets := jumpTargets + {op.ripTarget};
        }
        i := i + SizeOf(op);
        k := k + 1;
      }
    }

    /**
      One function per call. Nothing is cleared but the jump targets: values and
      recorded blocks of earlier calls stay. A false path still pending from an
      earlier function would receive code of this one, which counts as aborting.
    */
    method CompileCode(ir: IntrusiveIRList, rip: Word) returns (code: Compiled)
      requires ir.Valid() && Known()
      modifies this
      ensures Known()
      ensures ir.sound && old(blockStack) == [] ==>
                var L := LowerFrom(Targets(ir.ops, rip), old(blockJumpTargets.Keys), old(values), ir.ops, |ir.ops|);
                code == (if L.aborted then Aborted else Code(L.blocks)) && blockStack == L.stack
      ensures ir.sound ==> blockJumpTargets.Keys <= old(blockJumpTargets.Keys) + Targets(ir.ops, rip)
      ensures old(blockStack) != [] ==> code == Aborted
    {
      hide OffsetOf, Represents, LowerFrom, Links, Stale, Known, Targets;
      ghost var stale, before := blockJumpTargets.Keys, values;
      if blockStack != [] {
        return Aborted;
      }
      NewFunction();
      jumpTargets := {};
      var ok := FindJumpTargets(ir, rip);
      if !ok {
        return Aborted;
      }
      assert ir.sound ==> jumpTargets == Targets(ir.ops, rip);
      currentRip := rip;
      LowerAll(ir, stale, before);
      code := if aborted then Aborted else Code(blocks);
    }

    /** A function with an entry block; every block recorded before now belongs to another one. */
    method NewFunction()
      requires blockStack == [] && Known()
      modifies this`owner, this`blocks, this`insertion, this`aborted
      ensures Known() && Stale() == blockJumpTargets.Keys && Lowering() == INITIAL.(values := values)
    {
      owner := owner + 1;
      blocks, insertion, aborted := [[]], 0, false;
      assert forall r :: r in blockJumpTargets ==> blockJumpTargets[r].owner < owner;
      assert Links() == map[];
      assert Stale() == blockJumpTargets.Keys;
    }

    /** The loop of `CompileCode` over all operations; an abort ends it. */
    method LowerAll(ir: IntrusiveIRList, ghost stale: set<Word>, ghost before: set<nat>)
      requires ir.Valid() && Known() && stale == Stale() == blockJumpTargets.Keys
      requires Lowering() == INITIAL.(values := before)
      modifies this`values, this`blockStack, this`blockJumpTargets, this`currentRip, this`blocks, this`insertion,
               this`aborted
      ensures Known()
      ensures ir.sound ==> Lowering() == LowerFrom(jumpTargets, stale, before, ir.ops, |ir.ops|)
      ensures blockJumpTargets.Keys <= stale + jumpTargets
    {
      hide OpAt, OffsetOf, Represents, SizeOf, GetSize, LowerAmid, Links, Stale, Known;
      var i := 0;
      ghost var k := 0;
      if ir.sound { AtOperation(ir.bytes, ir.currentOffset, ir.ops, 0); }
      while i != ir.currentOffset
        invariant Known() && Valid(Lowering()) && !aborted
        invariant Stale() <= stale <= Stale() + Links().Keys && blockJumpTargets.Keys <= stale + jumpTargets
        invariant ir.sound ==> k <= |ir.ops| && i == OffsetOf(ir.ops, k)
        invariant ir.sound ==> (i == ir.currentOffset <==> k == |ir.ops|)
        invariant ir.sound ==> Lowering() == LowerFrom(jumpTargets, stale, before, ir.ops, k)
        decreases |ir.bytes| - i
      {
        if ir.sound { AtOperation(ir.bytes, ir.currentOffset, ir.ops, k); }
        var next := ir.GetOp(i);
        if next.None? {
          aborted := true;
          return;
        }
        FitsAt(ir.bytes, i);
        var op := next.value;
        ghost var L := Lowering();
        SameStale(jumpTargets, stale, Stale(), i, op, L);
        LinksGrow(jumpTargets, Stale(), i, op, L);
        HandleIR(i, op);
        if ir.sound {
          LowerFromUnfolds(jumpTargets, stale, before, ir.ops, k);
        }
        if aborted {
          if ir.sound {
            AbortedStays(jumpTargets, stale, before, ir.ops, k + 1, |ir.ops|);
          }
          return;
        }
        i := i + SizeOf(op);
        k := k + 1;
      }
    }
  }

  /** A walk that has reached operation `k` of a list. */
  lemma AtOperation(bytes: seq<byte>, end: nat, ops: seq<Op>, k: nat)
    requires Represents(bytes, end, ops) && k <= |ops|
    ensures OffsetOf(ops, 0) == 0 && (OffsetOf(ops, k) == end <==> k == |ops|)
    ensures k < |ops| ==>
              && OpAt(bytes, OffsetOf(ops, k)) == Some(ops[k])
              && OffsetOf(ops, k + 1) == OffsetOf(ops, k) + SizeOf(ops[k])
              && (OffsetOf(ops, k + 1) == end <==> k + 1 == |ops|)
  {
    hide OpAt, SizeOf, OffsetOf, Represents;
    FirstOffset(ops);
    LengthIs(bytes, end, ops);
    if k < |ops| {
      RepresentedAt(bytes, end, ops, k);
      OffsetsIncrease(ops, k + 1, |ops|);
    }
  }
}
