/**
  A conditional jump to an instruction that was already lowered becomes a branch
  inside the function. This file proves that such a branch is as good as storing
  the target address, leaving, and entering the block translated there, for any
  number of iterations.
*/
module LinkedLoops {
  import opened Words
  import opened Wrappers
  import opened IR
  import opened Machine
  import opened X86Tables
  import opened Decoder
  import opened Handlers
  import opened HandlerShapes
  import opened Translate
  import opened BlockMeaning
  import opened SuffixClosure
  import opened SuffixExactness

  /*** The instruction pointer during a block ***/

  predicate ReadsRip(op: Op) { op.LoadContext? && op.offset == RIP_OFFSET }
  predicate WritesRip(op: Op) { op.StoreContext? && op.offset == RIP_OFFSET }

  predicate NeverReadsRip(ops: seq<Op>) {
    forall i :: 0 <= i < |ops| ==> !ReadsRip(ops[i])
  }

  predicate NeverWritesRip(ops: seq<Op>) {
    forall i :: 0 <= i < |ops| ==> !WritesRip(ops[i])
  }

  predicate SetsRip(h: Handler) {
    h == JMPOp || h == RETOp
  }

  predicate LeavesRip(ops: seq<Op>) {
    NeverReadsRip(ops) && NeverWritesRip(ops)
  }

  lemma Together(a: seq<Op>, b: seq<Op>)
    requires LeavesRip(a) && LeavesRip(b)
    ensures LeavesRip(a + b)
  {
  }

  lemma FlagUpdatesLeaveRip(bit: nat, at: nat, value: nat)
    requires bit < 64
    ensures LeavesRip(SetFlagOps(bit, at, value)) && LeavesRip(SetCFOps(at, value))
    ensures LeavesRip(GetFlagBitOps(bit, true)) && LeavesRip(GetFlagBitOps(bit, false))
  {
    hide Shl;
  }

  lemma FlagWritersLeaveRip(x: Site)
    ensures LeavesRip(Body(AddImmModRMFragment(x).fragment))
    ensures LeavesRip(Body(BTFragment(x).fragment))
    ensures LeavesRip(Body(CMPFragment(x).fragment))
  {
    hide ModField, RegisterIndex, SignExtend8, SetFlagOps, SetCFOps, LeavesRip;
    FlagUpdatesLeaveRip(7, 76, 64);
    FlagUpdatesLeaveRip(6, 248, 224);
    FlagUpdatesLeaveRip(6, 84, 60);
    FlagUpdatesLeaveRip(6, 56, 44);
    var size := if x.flags.rex then 8 else if x.flags.opsize then 2 else 4;
    var sum := [ LoadReg(x.Rm()), Constant(TYPE_I64, x.Immediate8()), Binary(OpAdd, 0, 8), StoreReg(x.Rm(), 24),
                 Constant(TYPE_I64, size * 4 - 1), Binary(OpShr, 0, 48) ];
    var compare := [Constant(TYPE_I64, 1), Constant(TYPE_I64, 0), Select(CompEq, [24, 192, 208, 192])];
    SmallLeaveRip(sum);
    SmallLeaveRip(compare);
    Together(sum, SetFlagOps(7, 76, 64));
    Together(sum + SetFlagOps(7, 76, 64), compare);
    Together(sum + SetFlagOps(7, 76, 64) + compare, SetFlagOps(6, 248, 224));
    var modrm := if x.flags.rex then x.code[3] else x.code[2];
    var extract := [ LoadReg(RegisterIndex(RexB(x.Rex()), RmField(modrm))),
                     LoadReg(RegisterIndex(RexR(x.Rex()), RegField(modrm))),
                     Constant(TYPE_I8, 31), Binary(OpAnd, 8, 16), Binary(OpBitExtract, 0, 32) ];
    SmallLeaveRip(extract);
    Together(extract, SetCFOps(56, 44));
    var test := [ LoadReg(x.Reg()), LoadReg(x.Rm()), Binary(OpSub, 8, 0),
                  Constant(TYPE_I64, 1), Constant(TYPE_I64, 0), Select(CompEq, [0, 8, 44, 28]) ];
    SmallLeaveRip(test);
    Together(test, SetFlagOps(6, 84, 60));
    SmallLeaveRip([]);
  }

  lemma SmallLeaveRip(ops: seq<Op>)
    requires forall i :: 0 <= i < |ops| ==>
               (ops[i].LoadContext? || ops[i].StoreContext? ==> ops[i].offset != RIP_OFFSET)
    ensures LeavesRip(ops)
  {
  }

  lemma SumsAndRip(x: Site)
    ensures LeavesRip(Body(AddFragment(x).fragment)) && LeavesRip(Body(AddImmFragment(x).fragment))
  {
    hide ModField, RegField, RmField, RegisterIndex, SignExtend8, SignExtend16, SignExtend32;
  }

  lemma MoversAndRip(x: Site)
    ensures LeavesRip(Body(ShlImmFragment(x).fragment)) && LeavesRip(Body(XorFragment(x).fragment))
    ensures LeavesRip(Body(MovFragment(x).fragment)) && LeavesRip(Body(LEAFragment(x).fragment))
    ensures LeavesRip(SYSCALL_OPS)
  {
    hide ModField, RegField, RmField, RegisterIndex, SignExtend8, SignExtend16, SignExtend32;
  }

  /** Handlers do not read the instruction pointer; only JMP and RET write it. */
  lemma HandlersAndRip(h: Handler, x: Site)
    requires x.size <= MAX_INSTRUCTION && h != NoHandler
    ensures var ops := Body(Emit(h, x).fragment);
            && NeverReadsRip(ops)
            && (!Emit(h, x).failed && !SetsRip(h) ==> NeverWritesRip(ops))
            && (!Emit(h, x).failed && SetsRip(h) ==>
                  Emit(h, x).fragment.Plain? && |ops| > 0 && WritesRip(ops[|ops| - 1]))
  {
    hide AddFragment, AddImmFragment, AddImmModRMFragment, ShlImmFragment, XorFragment, MovFragment, BTFragment,
         LEAFragment, CMPFragment, SYSCALL_OPS, GetFlagBitOps, JccTarget, RegisterIndex, ModField, RmField;
    FlagWritersLeaveRip(x);
    SumsAndRip(x);
    MoversAndRip(x);
    if h.JccOp? {
      FlagUpdatesLeaveRip(FlagBit(h.condition), 0, 0);
    }
  }

  predicate EntryAgrees(info: InstInfo) {
    info.handler != NoHandler ==> (info.flags.setsRip <==> SetsRip(info.handler))
  }

  lemma TablesAgree(op: byte, reg: nat)
    ensures EntryAgrees(BaseOps(op)) && EntryAgrees(SecondBaseOps(op)) && EntryAgrees(ModRMOps(op, reg))
  {
  }

  lemma {:induction false} DecodedEntryAgrees(inst: seq<byte>, d: Scan)
    requires |inst| >= WINDOW && (d.info.Some? ==> EntryAgrees(d.info.value))
    ensures var r := DecodeFrom(TABLES, inst, d);
            r.Decoded? && r.info.Some? ==> EntryAgrees(r.info.value)
    decreases MAX_INSTRUCTION - d.size
  {
    hide BaseOps, SecondBaseOps, ModRMOps, EntryAgrees;
    if d.size < MAX_INSTRUCTION {
      TablesAgree(inst[d.size], RegField(inst[d.size + 1]));
      TablesAgree(inst[d.size + 1], 0);
      match DecodeStep(TABLES, inst, d)
      case Again(d') => DecodedEntryAgrees(inst, d');
      case Finished(d') =>
    }
  }

  lemma InspectionAgrees(memory: Memory, g: Guards, start: Word, at: Word)
    ensures var look := Inspect(memory, g, start, at);
            look.Dispatched? ==> (look.setsRip <==> SetsRip(look.item.handler)) && look.item.handler != NoHandler
  {
    hide Emit, CodeAt, BaseOps, SecondBaseOps, ModRMOps, DecodeFrom;
    DecodedEntryAgrees(CodeAt(memory, at), START);
  }

  ghost predicate SameButRip(s: State, t: State) {
    t == s.(rip := t.rip)
  }

  lemma StepWithoutRip(env: Environment, op: Op, at: nat, v: Values, s: State, t: State)
    requires SameButRip(s, t) && !ReadsRip(op)
    ensures Step(env, op, at, v, s).Halt? <==> Step(env, op, at, v, t).Halt?
    ensures Step(env, op, at, v, s).Next? ==>
              var r, q := Step(env, op, at, v, s), Step(env, op, at, v, t);
              && q.values == r.values && SameButRip(r.state, q.state)
              && if WritesRip(op) then q.state == r.state
                 else r.state.rip == s.rip && q.state.rip == t.rip
  {
    hide Compute, ShiftDefined, LoadWord;
  }

  /** Straight code that never reads the instruction pointer runs alike on two of them. */
  lemma {:induction false} StraightWithoutRip(
      env: Environment, ops: seq<Op>, i: nat, v: Values, s: State, t: State)
    requires i <= |ops| && SameButRip(s, t) && NeverReadsRip(ops)
    ensures Straight(env, ops, 0, i, v, s).Halt? <==> Straight(env, ops, 0, i, v, t).Halt?
    ensures Straight(env, ops, 0, i, v, s).Next? ==>
              var r, q := Straight(env, ops, 0, i, v, s), Straight(env, ops, 0, i, v, t);
              && q.values == r.values && SameButRip(r.state, q.state)
              && (NeverWritesRip(ops) ==> r.state.rip == s.rip && q.state.rip == t.rip)
              && (i < |ops| && WritesRip(ops[|ops| - 1]) ==> q.state == r.state)
    decreases |ops| - i
  {
    hide Step, OffsetOf, ReadsRip, Straight;
    StraightUnfolds(env, ops, 0, i, v, s);
    StraightUnfolds(env, ops, 0, i, v, t);
    if i < |ops| {
      StepWithoutRip(env, ops[i], 0 + OffsetOf(ops, i), v, s, t);
      var r, q := Step(env, ops[i], 0 + OffsetOf(ops, i), v, s), Step(env, ops[i], 0 + OffsetOf(ops, i), v, t);
      if r.Next? {
        StraightWithoutRip(env, ops, i + 1, r.values, r.state, q.state);
        if i + 1 == |ops| {
          StraightUnfolds(env, ops, 0, i + 1, r.values, r.state);
          StraightUnfolds(env, ops, 0, i + 1, q.values, q.state);
        }
      }
    }
  }

  /*** Translated blocks ***/

  /** A conditional jump of the block goes back to instruction `j`, or to itself. */
  ghost predicate LinkedTo(b: Block, j: nat)
    requires j < |b.items|
  {
    exists i :: j <= i < |b.items| && JumpsBackTo(b, i, j)
  }

  predicate JumpsBackTo(b: Block, i: nat, j: nat)
    requires j < |b.items| && i < |b.items|
  {
    FragmentOf(b.items[i]).Branch? && FragmentOf(b.items[i]).ripTarget == b.items[j].rip
  }

  /**
    A block together with what its translation guarantees, where the test of
    `JccOp` answers at each address the block jumps back to as it does at the
    block's own.
  */
  ghost predicate IsTranslation(memory: Memory, g: Guards, start: Word, b: Block) {
    && TranslationOf(memory, g, start) == Translated(b)
    && |b.items| < MAX_SIZE
    && GoodBlock(b)
    && forall j :: 0 <= j < |b.items| && LinkedTo(b, j) ==> g.jcc(start) == g.jcc(b.items[j].rip)
  }

  /**
    That condition is the least: at an address the block jumps back to, the rest
    of the block is its own translation exactly when the test answers alike.
  */
  lemma LinkedRestExactlyWhen(memory: Memory, g: Guards, start: Word, b: Block, j: nat)
    requires TranslationOf(memory, g, start) == Translated(b) && |b.items| < MAX_SIZE
    requires j < |b.items| && LinkedTo(b, j)
    ensures RestIsTranslation(memory, g, start, b, j) <==> g.jcc(start) == g.jcc(b.items[j].rip)
  {
    hide TranslationOf, RestIsTranslation, TestsGuard, FragmentOf;
    SuffixIsTranslationExactlyWhen(memory, g, start, b, j);
    var i :| j <= i < |b.items| && JumpsBackTo(b, i, j);
    BranchTests(b.items[i]);
    assert b.items[j..][i - j] == b.items[i];
  }

  lemma BranchTests(i: Instruction)
    requires FragmentOf(i).Branch?
    ensures TestsGuard(i)
  {
    hide AddFragment, AddImmFragment, AddImmModRMFragment, ShlImmFragment, XorFragment, MovFragment, BTFragment,
         JMPFragment, LEAFragment, CMPFragment, RET_OPS, SYSCALL_OPS, GetFlagBitOps, JccTarget;
    AlwaysPlain(i.site);
  }

  /** What the rest of this file uses about instruction `i` of a block entered with rip = `start`. */
  lemma InstructionFacts(env: Environment, d: Dialect, g: Guards, start: Word, b: Block, i: nat, s: State, t: State)
    requires TranslationOf(env.memory, g, start) == Translated(b) && i < |b.items|
    requires SameButRip(s, t)
    ensures var r, q := FragmentRun(env, d, FragmentOf(b.items[i]), s), FragmentRun(env, d, FragmentOf(b.items[i]), t);
            && (r.Stops? <==> q.Stops?) && (r.Falls? <==> q.Falls?)
            && (!r.Stops? ==> SameButRip(r.state, q.state))
            && (r.Exits? ==> q.target == r.target && r.state.rip == s.rip && q.state.rip == t.rip)
            && (r.Falls? && !SetsRip(b.items[i].handler) ==> r.state.rip == s.rip && q.state.rip == t.rip)
            && (r.Falls? && SetsRip(b.items[i].handler) ==>
                  q.state == r.state && i + 1 == |b.items| && b.rejected.None?
                  && Translating(env.memory, g, start, 0, 0).setsRip)
    ensures Translating(env.memory, g, start, 0, 0).setsRip && i + 1 == |b.items| ==> SetsRip(b.items[i].handler)
  {
    hide Emit, Translating, Inspect, Straight;
    AcceptedInstruction(env.memory, g, start, i);
    InspectionAgrees(env.memory, g, start, b.items[i].rip);
    var item := b.items[i];
    InspectedItem(env.memory, g, start, item.rip);
    HandlersAndRip(item.handler, item.site);
    StraightWithoutRip(env, Body(FragmentOf(item)), 0, map[], s, t);
  }

  /** A rejected fragment leaves the state alone or stops, whatever the instruction pointer. */
  lemma RejectedFacts(env: Environment, g: Guards, start: Word, b: Block, s: State, t: State)
    requires TranslationOf(env.memory, g, start) == Translated(b) && b.rejected.Some?
    ensures var ops := Body(FragmentOf(b.rejected.value));
            var r, q := Straight(env, ops, 0, 0, map[], s), Straight(env, ops, 0, 0, map[], t);
            (r.Halt? <==> q.Halt?) && (r.Next? ==> r.state == s && q.state == t)
  {
    hide Emit, Translating, Inspect, Straight;
    RejectedInstruction(env.memory, g, start, 0, 0);
    var i := b.rejected.value;
    RejectedHarmlessExactlyWhen(env, i.handler, i.site, s);
    RejectedHarmlessExactlyWhen(env, i.handler, i.site, t);
  }

  /** One pass over the rest of a block and over its own translation end alike. */
  lemma {:induction false} PassesAgree(
      env: Environment, g: Guards, start: Word, b: Block, i: nat, b': Block, k: nat, s: State, t: State)
    requires IsTranslation(env.memory, g, start, b) && i < |b.items| && i + k <= |b.items|
    requires g.jcc(start) == g.jcc(b.items[i].rip)
    requires TranslationOf(env.memory, g, b.items[i].rip) == Translated(b')
    requires SameButRip(s, t)
    requires if i + k == |b.items| && Translating(env.memory, g, start, 0, 0).setsRip then s == t
             else s.rip == start && t.rip == b.items[i].rip
    ensures |b'.items| == |b.items| - i
    ensures BlockRun(env, COMPLEMENTED, b, i + k, s, 0) == BlockRun(env, COMPLEMENTED, b', k, t, 0)
    decreases |b.items| - k
  {
    hide Translating, Inspect, FragmentOf, FragmentRun, Straight, GoodBlock, BlockRun;
    TranslationOfSuffix(env.memory, g, start, b, i);
    BlockRunUnfolds(env, COMPLEMENTED, b, i + k, s, 0);
    BlockRunUnfolds(env, COMPLEMENTED, b', k, t, 0);
    if i + k == |b.items| {
      if b.rejected.Some? {
        RejectedFacts(env, g, start, b, s, t);
      }
    } else {
      InstructionFacts(env, COMPLEMENTED, g, start, b, i + k, s, t);
      var f := FragmentOf(b.items[i + k]);
      assert b'.items[k] == b.items[i + k];
      var r, q := FragmentRun(env, COMPLEMENTED, f, s), FragmentRun(env, COMPLEMENTED, f, t);
      if r.Falls? {
        PassesAgree(env, g, start, b, i, b', k + 1, r.state, q.state);
      }
    }
  }

  /*** Entering blocks ***/

  /** One entry: translate at the instruction pointer and run that block once, without links. */
  function Enter(env: Environment, g: Guards, s: State): Outcome {
    match TranslationOf(env.memory, g, s.rip)
    case Translated(b) => Run(env, COMPLEMENTED, Assemble(b), 0, map[], s, 0)
    case _ => Stuck
  }

  /** `n` entries, one after the other. */
  function EnterMany(env: Environment, g: Guards, s: State, n: nat): Outcome
    decreases n
  {
    if n == 0 then Done(s)
    else
      match Enter(env, g, s)
      case Done(t) => EnterMany(env, g, t, n - 1)
      case other => other
  }

  /**
    How a pass over the rest of a block ends: by itself, or at a jump that the
    lowering links to instruction `j`.
  */
  lemma {:induction false} PassEnds(env: Environment, g: Guards, start: Word, b: Block, i: nat, s: State, fuel: nat)
    returns (linked: bool, j: nat, s': State)
    requires IsTranslation(env.memory, g, start, b) && i <= |b.items|
    requires s.rip == start || (i == |b.items| && Translating(env.memory, g, start, 0, 0).setsRip)
    ensures var pass, whole := BlockRun(env, COMPLEMENTED, b, i, s, 0), BlockRun(env, LOWERED, b, i, s, fuel);
            if linked then
              && j < |b.items| && LinkedTo(b, j) && s'.rip == start && pass == Done(s'.(rip := b.items[j].rip))
              && whole == if fuel == 0 then OutOfFuel else BlockRun(env, LOWERED, b, j, s', fuel - 1)
            else whole == pass && pass != OutOfFuel
    decreases |b.items| - i
  {
    hide Translating, Inspect, FragmentOf, FragmentRun, Straight, GoodBlock, BlockRun;
    linked, j, s' := false, 0, s;
    BlockRunUnfolds(env, COMPLEMENTED, b, i, s, 0);
    BlockRunUnfolds(env, LOWERED, b, i, s, fuel);
    if i < |b.items| {
      var f := FragmentOf(b.items[i]);
      SameFragmentRun(env, f, s);
      InstructionFacts(env, LOWERED, g, start, b, i, s, s);
      match FragmentRun(env, LOWERED, f, s)
      case Stops =>
      case Falls(t) =>
        linked, j, s' := PassEnds(env, g, start, b, i + 1, t, fuel);
      case Exits(t, r) =>
        var m := LastAt(b.items, i + 1, r);
        if m > 0 {
          linked, j, s' := true, m - 1, t;
          ExitIsJump(env, LOWERED, f, s);
          assert JumpsBackTo(b, i, j);
        }
    }
  }

  lemma ExitIsJump(env: Environment, d: Dialect, f: Fragment, s: State)
    ensures var r := FragmentRun(env, d, f, s); r.Exits? ==> f.Branch? && f.ripTarget == r.target
  {
  }

  lemma LinkedGuard(memory: Memory, g: Guards, start: Word, b: Block, j: nat)
    requires IsTranslation(memory, g, start, b) && j < |b.items| && LinkedTo(b, j)
    ensures g.jcc(start) == g.jcc(b.items[j].rip)
  {
    hide TranslationOf, GoodBlock, LinkedTo;
  }

  lemma SameFragmentRun(env: Environment, f: Fragment, s: State)
    ensures FragmentRun(env, COMPLEMENTED, f, s) == FragmentRun(env, LOWERED, f, s)
  {
  }

  /** An entry at the address of instruction `i` is a pass over the rest of the block. */
  lemma EntryIsPass(env: Environment, g: Guards, start: Word, b: Block, i: nat, s: State)
    requires IsTranslation(env.memory, g, start, b) && i < |b.items| && s.rip == start
    requires g.jcc(start) == g.jcc(b.items[i].rip)
    ensures Enter(env, g, s.(rip := b.items[i].rip)) == BlockRun(env, COMPLEMENTED, b, i, s, 0)
  {
    hide Translating, Inspect, FragmentOf, FragmentRun, GoodFragment, BlockRun, Run, Assemble;
    TranslationOfSuffix(env.memory, g, start, b, i);
    var t := s.(rip := b.items[i].rip);
    var b' := TranslationOf(env.memory, g, t.rip).block;
    PassesAgree(env, g, start, b, i, b', 0, s, t);
    StreamMeansBlock(env, COMPLEMENTED, b', map[], t, 0);
  }

  /** The linked run from instruction `i` on, and the same guest entering blocks instead. */
  lemma {:induction false} LinkedRunIsEntries(
      env: Environment, g: Guards, start: Word, b: Block, i: nat, s: State, fuel: nat) returns (n: nat)
    requires IsTranslation(env.memory, g, start, b) && i < |b.items| && s.rip == start
    requires g.jcc(start) == g.jcc(b.items[i].rip)
    ensures 1 <= n <= fuel + 1
    ensures var r := BlockRun(env, LOWERED, b, i, s, fuel);
            var e := EnterMany(env, g, s.(rip := b.items[i].rip), n);
            if r == OutOfFuel then
              n == fuel + 1 && e.Done? && exists j :: 0 <= j < |b.items| && e.state.rip == b.items[j].rip
            else e == r
    decreases fuel
  {
    hide IsTranslation, LinkedTo, BlockRun, Enter, EnterMany;
    var t := s.(rip := b.items[i].rip);
    EntryIsPass(env, g, start, b, i, s);
    var linked, j, s' := PassEnds(env, g, start, b, i, s, fuel);
    EntriesUnfold(env, g, t, 1);
    if !linked {
      n := 1;
      if Enter(env, g, t).Done? {
        EntriesUnfold(env, g, Enter(env, g, t).state, 0);
      }
    } else {
      var t' := s'.(rip := b.items[j].rip);
      if fuel == 0 {
        n := 1;
        EntriesUnfold(env, g, t', 0);
      } else {
        LinkedGuard(env.memory, g, start, b, j);
        n := LinkedRunIsEntries(env, g, start, b, j, s', fuel - 1);
        n := n + 1;
        EntriesUnfold(env, g, t, n);
      }
    }
  }

  lemma EntriesUnfold(env: Environment, g: Guards, s: State, n: nat)
    ensures EnterMany(env, g, s, n) ==
            if n == 0 then Done(s)
            else
              match Enter(env, g, s)
              case Done(t) => EnterMany(env, g, t, n - 1)
              case other => other
  {
    hide Enter;
  }

  /**
    Linked loops refine exit-and-re-enter. A run of the linked stream that ends
    after at most `fuel` linked branches is some number of separate entries, each
    of which translates at the instruction pointer, runs once and stores the next
    address; a run that has taken `fuel` links and wants another corresponds to
    `fuel + 1` entries that are still inside the block's addresses.
  */
  lemma LinkedLoopsRefineReentry(env: Environment, g: Guards, b: Block, s: State, fuel: nat) returns (n: nat)
    requires IsTranslation(env.memory, g, s.rip, b)
    ensures 1 <= n <= fuel + 1
    ensures var r := Run(env, LOWERED, Assemble(b), 0, map[], s, fuel);
            var e := EnterMany(env, g, s, n);
            if r == OutOfFuel then
              n == fuel + 1 && e.Done? && exists j :: 0 <= j < |b.items| && e.state.rip == b.items[j].rip
            else e == r
  {
    hide BlockRun, Run, EnterMany, Translating, GoodFragment, Assemble, Inspect;
    StreamMeansBlock(env, LOWERED, b, map[], s, fuel);
    AcceptedInstruction(env.memory, g, s.rip, 0);
    assert b.items[0].rip == s.rip;
    n := LinkedRunIsEntries(env, g, s.rip, b, 0, s, fuel);
    assert s.(rip := b.items[0].rip) == s;
  }
}
