/**
  Which translated blocks the LLVM backend has code for, by instruction: those
  without a 16-bit register operation and without a flag test that reads itself.
*/
module Compilable {
  import opened Words
  import opened Wrappers
  import opened IR
  import opened Machine
  import opened X86Tables
  import opened Decoder
  import opened Handlers
  import opened HandlerShapes
  import opened Translate
  import opened BlockMeaning
  import opened Lowering
  import opened LoweringProofs
  import opened StreamShape
  import opened GraphShape

  /** Every straight operation has a case in the lowering. */
  ghost predicate AllSupported(p: seq<Op>) {
    forall k :: 0 <= k < |p| && IsStraight(p[k]) ==> Supported(p[k])
  }

  /** The handlers that truncate, under an operand-size prefix without REX.W. */
  predicate WritesHalfWord(h: Handler, x: Site) {
    (h == AddOp || h == ShlImmOp || h == XorOp) && x.OperandSize() == 2
  }

  /** No accepted instruction is a 16-bit ADD, SHL or XOR, and a rejected one does not load two bytes. */
  ghost predicate NoHalfWords(b: Block) {
    && (forall i :: 0 <= i < |b.items| ==> !WritesHalfWord(b.items[i].handler, b.items[i].site))
    && (b.rejected.Some? ==> !LoadsHalfWord(b.rejected.value.handler, b.rejected.value.site))
  }

  /*** One fragment ***/

  lemma SumsSupported(x: Site)
    ensures !AddFragment(x).failed ==> (AllSupported(Flatten(AddFragment(x).fragment)) <==> x.OperandSize() != 2)
  {
    hide ModField, RegField, RmField, RegisterIndex, SignExtend32;
    var ops := Flatten(AddFragment(x).fragment);
    if !AddFragment(x).failed && x.OperandSize() == 2 {
      assert ops[|ops| - 2].Trunc16?;
    }
  }

  lemma ShiftsSupported(x: Site)
    ensures !ShlImmFragment(x).failed ==> (AllSupported(Flatten(ShlImmFragment(x).fragment)) <==> x.OperandSize() != 2)
    ensures !XorFragment(x).failed ==> (AllSupported(Flatten(XorFragment(x).fragment)) <==> x.OperandSize() != 2)
  {
    hide ModField, RegField, RmField, RegisterIndex, SignExtend8;
    var ops, more := Flatten(ShlImmFragment(x).fragment), Flatten(XorFragment(x).fragment);
    if !ShlImmFragment(x).failed && x.OperandSize() == 2 {
      assert ops[2].Trunc16?;
    }
    if !XorFragment(x).failed && x.OperandSize() == 2 {
      assert more[2].Trunc16?;
    }
  }

  lemma ImmediatesSupported(x: Site)
    ensures AllSupported(Flatten(AddImmFragment(x).fragment)) && AllSupported(Flatten(LEAFragment(x).fragment))
  {
    hide ModField, RegField, RmField, RegisterIndex, SignExtend8, SignExtend16, SignExtend32;
  }

  lemma MoversSupported(x: Site)
    ensures AllSupported(Flatten(MovFragment(x).fragment)) && AllSupported(Flatten(JMPFragment(x).fragment))
  {
    hide ModField, RegField, RmField, RegisterIndex;
  }

  lemma FixedSupported()
    ensures AllSupported(RET_OPS) && AllSupported(SYSCALL_OPS)
  {
  }

  lemma FlagUpdatesSupported(bit: nat, at: nat, value: nat)
    requires bit < 64
    ensures AllSupported(SetFlagOps(bit, at, value)) && AllSupported(SetCFOps(at, value))
  {
    hide Shl;
  }

  lemma WritersSupported(x: Site)
    ensures AllSupported(Flatten(AddImmModRMFragment(x).fragment))
    ensures AllSupported(Flatten(BTFragment(x).fragment)) && AllSupported(Flatten(CMPFragment(x).fragment))
  {
    hide ModField, RegisterIndex, SignExtend8, SetFlagOps, SetCFOps, AllSupported;
    FlagUpdatesSupported(7, 76, 64);
    FlagUpdatesSupported(6, 248, 224);
    FlagUpdatesSupported(6, 84, 60);
    FlagUpdatesSupported(6, 56, 44);
    var size := if x.flags.rex then 8 else if x.flags.opsize then 2 else 4;
    var sum := [ LoadReg(x.Rm()), Constant(TYPE_I64, x.Immediate8()), Binary(OpAdd, 0, 8), StoreReg(x.Rm(), 24),
                 Constant(TYPE_I64, size * 4 - 1), Binary(OpShr, 0, 48) ];
    var compare := [Constant(TYPE_I64, 1), Constant(TYPE_I64, 0), Select(CompEq, [24, 192, 208, 192])];
    FewSupported(sum);
    FewSupported(compare);
    JoinSupported(sum, SetFlagOps(7, 76, 64));
    JoinSupported(sum + SetFlagOps(7, 76, 64), compare);
    JoinSupported(sum + SetFlagOps(7, 76, 64) + compare, SetFlagOps(6, 248, 224));
    var modrm := if x.flags.rex then x.code[3] else x.code[2];
    var extract := [ LoadReg(RegisterIndex(RexB(x.Rex()), RmField(modrm))),
                     LoadReg(RegisterIndex(RexR(x.Rex()), RegField(modrm))),
                     Constant(TYPE_I8, 31), Binary(OpAnd, 8, 16), Binary(OpBitExtract, 0, 32) ];
    FewSupported(extract);
    JoinSupported(extract, SetCFOps(56, 44));
    var test := [ LoadReg(x.Reg()), LoadReg(x.Rm()), Binary(OpSub, 8, 0),
                  Constant(TYPE_I64, 1), Constant(TYPE_I64, 0), Select(CompEq, [0, 8, 44, 28]) ];
    FewSupported(test);
    JoinSupported(test, SetFlagOps(6, 84, 60));
    FewSupported([]);
  }

  lemma FewSupported(ops: seq<Op>)
    requires forall k :: 0 <= k < |ops| ==> Supported(ops[k])
    ensures AllSupported(ops)
  {
    hide Supported;
  }

  lemma JumpsSupported(c: Condition, x: Site)
    requires x.size <= MAX_INSTRUCTION
    ensures AllSupported(Flatten(JccFragment(c, x).fragment))
  {
    hide Shl, JccTarget, FlagBit, OffsetOf;
  }

  lemma HarmlessIsSupported(op: Op)
    ensures Harmless(op) ==> Supported(op)
  {
    hide ContextSlot;
  }

  /** An accepted fragment has a case for everything unless it is 16 bits wide, a rejected one unless it loads so. */
  lemma FragmentSupportedExactlyWhen(h: Handler, x: Site)
    requires x.size <= MAX_INSTRUCTION && h != NoHandler
    ensures AllSupported(Flatten(Emit(h, x).fragment))
            <==> if Emit(h, x).failed then !LoadsHalfWord(h, x) else !WritesHalfWord(h, x)
  {
    hide AddFragment, AddImmFragment, AddImmModRMFragment, ShlImmFragment, XorFragment, MovFragment, BTFragment,
         JMPFragment, LEAFragment, CMPFragment, JccFragment, RET_OPS, SYSCALL_OPS, LoadsHalfWord, Harmless, Supported;
    if Emit(h, x).failed {
      RejectedSupported(h, x);
    } else {
      SumsSupported(x);
      ShiftsSupported(x);
      ImmediatesSupported(x);
      MoversSupported(x);
      FixedSupported();
      WritersSupported(x);
      if h.JccOp? {
        JumpsSupported(h.condition, x);
      }
    }
  }

  lemma RejectedSupported(h: Handler, x: Site)
    requires x.size <= MAX_INSTRUCTION && Emit(h, x).failed
    ensures AllSupported(Flatten(Emit(h, x).fragment)) <==> !LoadsHalfWord(h, x)
  {
    hide Emit, LoadsHalfWord, Harmless, Supported;
    RejectedShape(h, x);
    RejectedOnlyCompute(h, x);
    var ops := Body(Emit(h, x).fragment);
    if LoadsHalfWord(h, x) {
      assert ops[1] == LoadMem(2, 0, NoIndex);
      HalfWordLoad();
    } else {
      forall k | 0 <= k < |ops|
        ensures Supported(ops[k])
      {
        HarmlessIsSupported(ops[k]);
      }
    }
  }

  lemma HalfWordLoad()
    ensures IsStraight(LoadMem(2, 0, NoIndex)) && !Supported(LoadMem(2, 0, NoIndex))
  {
  }

  /*** The stream ***/

  lemma ShiftSupported(ops: seq<Op>, d: nat)
    ensures AllSupported(Shift(ops, d)) <==> AllSupported(ops)
  {
    hide Supported, IsStraight;
    var shifted := Shift(ops, d);
    forall k | 0 <= k < |ops|
      ensures IsStraight(shifted[k]) == IsStraight(ops[k]) && Supported(shifted[k]) == Supported(ops[k])
    {
      ShiftOpSupported(ops[k], d);
    }
  }

  lemma ShiftOpSupported(op: Op, d: nat)
    ensures IsStraight(ShiftOp(op, d)) == IsStraight(op) && Supported(ShiftOp(op, d)) == Supported(op)
  {
  }

  lemma JoinSupported(p: seq<Op>, q: seq<Op>)
    ensures AllSupported(p + q) <==> AllSupported(p) && AllSupported(q)
  {
    hide Supported, IsStraight;
    var whole := p + q;
    assert forall k :: 0 <= k < |p| ==> whole[k] == p[k];
    assert forall k :: 0 <= k < |q| ==> whole[|p| + k] == q[k];
  }

  lemma AppendSupported(p: seq<Op>, i: Instruction)
    ensures AllSupported(Append(p, i)) <==> AllSupported(p) && AllSupported(Flatten(FragmentOf(i)))
  {
    hide Flatten, FragmentOf, Shift, AllSupported, OffsetOf;
    var ops := Shift(Flatten(FragmentOf(i)), Length(p) + 16);
    ShiftSupported(Flatten(FragmentOf(i)), Length(p) + 16);
    MarkerSupported(i.rip);
    JoinSupported(p, [RipMarker(i.rip)]);
    JoinSupported(p + [RipMarker(i.rip)], ops);
  }

  lemma MarkerSupported(rip: Word)
    ensures AllSupported([RipMarker(rip)]) && AllSupported([BeginBlock]) && AllSupported([EndBlock(rip)])
  {
  }

  lemma {:induction false} StreamSupported(items: seq<Instruction>)
    ensures AllSupported(Stream(items))
            <==> forall i :: 0 <= i < |items| ==> AllSupported(Flatten(FragmentOf(items[i])))
  {
    hide Append, FragmentOf, AllSupported, Flatten;
    if items == [] {
      MarkerSupported(0);
    } else {
      var n := |items| - 1;
      StreamSupported(items[..n]);
      AppendSupported(Stream(items[..n]), items[n]);
    }
  }

  /** The whole stream has a case for everything exactly when no instruction is 16 bits wide. */
  lemma SupportedExactlyWhen(b: Block)
    requires FromHandlers(b)
    ensures AllSupported(Assemble(b)) <==> NoHalfWords(b)
  {
    hide Emit, AllSupported, Flatten, Stream, Append, WritesHalfWord, LoadsHalfWord;
    forall i | 0 <= i < |b.items|
      ensures AllSupported(Flatten(FragmentOf(b.items[i]))) <==> !WritesHalfWord(b.items[i].handler, b.items[i].site)
    {
      FragmentSupportedExactlyWhen(b.items[i].handler, b.items[i].site);
    }
    StreamSupported(b.items);
    if b.rejected.Some? {
      var i := b.rejected.value;
      FragmentSupportedExactlyWhen(i.handler, i.site);
      AppendSupported(Stream(b.items), i);
    }
    MarkerSupported(b.increment);
    JoinSupported(BeforeEnd(b), [EndBlock(b.increment)]);
  }

  /*** Tests that read themselves ***/

  /** Operation `k` has its own offset among its arguments. */
  predicate ReadsItself(p: seq<Op>, k: nat)
    requires k < |p|
  {
    IsStraight(p[k]) && OffsetOf(p, k) in Arguments(p[k])
  }

  lemma {:induction false} DefinedBefore(p: seq<Op>, k: nat)
    requires k <= |p|
    ensures OffsetOf(p, k) !in Defined(p, k) && forall y :: y in Defined(p, k) ==> y < OffsetOf(p, k)
  {
    hide ProducesValue;
    if k > 0 {
      DefinedBefore(p, k - 1);
      OffsetsIncrease(p, k - 1, k);
    }
  }

  /** An operation that reads itself aborts the lowering: its own value does not exist yet. */
  lemma SelfReadAborts(targets: set<Word>, p: seq<Op>, k: nat)
    requires k < |p| && ReadsItself(p, k)
    ensures LowerUpTo(targets, p, |p|).aborted
  {
    hide LowerUpTo, OffsetOf, Defined, LowerOp;
    Monotone(targets, p, k + 1, |p|);
    Monotone(targets, p, k, k + 1);
    if !LowerUpTo(targets, p, k).aborted {
      ValuesAreDefined(targets, p, k);
      DefinedBefore(p, k);
      LowerUnfolds(targets, p, k);
      MissingAborts(targets, OffsetOf(p, k), p[k], LowerUpTo(targets, p, k));
    }
  }

  lemma MissingAborts(targets: set<Word>, at: nat, op: Op, L: Lower)
    requires IsStraight(op) && !(Arguments(op) <= L.values)
    ensures LowerOp(targets, at, op, L).aborted
  {
    hide Supported, Arguments;
  }

  lemma NegatingTestReadsItself(bit: nat)
    requires bit < 64
    ensures var ops := GetFlagBitOps(bit, true);
            |ops| == 7 && OffsetOf(ops, 6) == 80 && ops[6] == Binary(OpXor, 80, 8)
  {
    hide OffsetOf, Defined, ClosedUpTo, Shl;
    var ops := GetFlagBitOps(bit, true);
    Start(ops);
    Advance(ops, 0); Advance(ops, 1); Advance(ops, 2); Advance(ops, 3); Advance(ops, 4); Advance(ops, 5);
  }

  /** Wherever such a test is placed, its last operation reads itself. */
  lemma PlacedTestReadsItself(p: seq<Op>, at: nat, test: seq<Op>)
    requires |test| == 7 && OffsetOf(test, 6) == 80 && test[6] == Binary(OpXor, 80, 8)
    requires at + 7 <= |p| && p[at..at + 7] == Shift(test, OffsetOf(p, at))
    ensures ReadsItself(p, at + 6)
  {
    hide OffsetOf, Shift;
    var shifted := Shift(test, OffsetOf(p, at));
    OffsetWithin(p, at, shifted, 6);
    OffsetOfShift(test, OffsetOf(p, at), 6);
    assert p[at + 6] == p[at..at + 7][6];
  }

  lemma ReadsItselfLonger(p: seq<Op>, q: seq<Op>, k: nat)
    requires p <= q && k < |p| && ReadsItself(p, k)
    ensures ReadsItself(q, k)
  {
    hide OffsetOf;
    assert q == p + q[|p|..];
    OffsetOfPrefix(p, q[|p|..], k);
  }

  lemma SelfReferentialFragment(h: Handler, x: Site)
    requires x.size <= MAX_INSTRUCTION && SelfReferential(h) && !Emit(h, x).failed
    ensures Emit(h, x).fragment.Branch? && Emit(h, x).fragment.test == GetFlagBitOps(FlagBit(h.condition), true)
  {
    hide GetFlagBitOps, JccTarget, FlagBit;
  }

  /** The stream of an accepted JO, JB, JZ, JS or JP has an operation that reads itself. */
  lemma SelfReferenceInStream(b: Block, i: nat) returns (k: nat)
    requires i < |b.items| && SelfReferential(b.items[i].handler) && !Emit(b.items[i].handler, b.items[i].site).failed
    ensures k < |Assemble(b)| && ReadsItself(Assemble(b), k)
  {
    hide OffsetOf, Shift, Stream, GetFlagBitOps, Flatten, Emit, Assemble, BeforeEnd;
    StreamInBlock(b);
    InstructionInStream(b.items, i);
    var h, x, q, at := b.items[i].handler, b.items[i].site, Stream(b.items), StartOf(b.items, i) + 1;
    var f := FragmentOf(b.items[i]);
    SelfReferentialFragment(h, x);
    NegatingTestReadsItself(FlagBit(h.condition));
    ShiftedBody(f, OffsetOf(q, at));
    SliceOfSlice(q, at, at + |Flatten(f)|, 7);
    PlacedTestReadsItself(q, at, f.test);
    ReadsItselfLonger(q, Assemble(b), at + 6);
    k := at + 6;
  }
}
