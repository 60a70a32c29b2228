/**
  What every handler's output has in common: arguments name earlier values of
  the same fragment, accepted fragments contain no marker, and a rejected
  fragment has no effect on the CPU state.
*/
module HandlerShapes {
  import opened Words
  import opened IR
  import opened Machine
  import opened X86Tables
  import opened Decoder
  import opened Handlers

  /** One more operation of a closed sequence. */
  lemma Next(ops: seq<Op>, k: nat)
    requires k < |ops| && ClosedUpTo(ops, k) && Arguments(ops[k]) <= Defined(ops, k)
    ensures ClosedUpTo(ops, k + 1)
    ensures OffsetOf(ops, k + 1) == OffsetOf(ops, k) + SizeOf(ops[k])
    ensures Defined(ops, k + 1) ==
            if ProducesValue(ops[k]) then Defined(ops, k) + {OffsetOf(ops, k)} else Defined(ops, k)
  {
    hide Arguments, ProducesValue, SizeOf;
  }

  lemma Advance(ops: seq<Op>, k: nat)
    requires k < |ops|
    ensures OffsetOf(ops, k + 1) == OffsetOf(ops, k) + SizeOf(ops[k])
    ensures Defined(ops, k + 1) ==
            if ProducesValue(ops[k]) then Defined(ops, k) + {OffsetOf(ops, k)} else Defined(ops, k)
  {
    hide ProducesValue, SizeOf;
  }

  lemma Start(ops: seq<Op>)
    ensures ClosedUpTo(ops, 0) && OffsetOf(ops, 0) == 0 && Defined(ops, 0) == {}
  {
  }

  lemma FlagUpdate(ops: seq<Op>, k: nat, bit: nat, value: nat)
    requires bit < 64 && k + 9 <= |ops| && ClosedUpTo(ops, k) && value in Defined(ops, k)
    requires ops[k..k + 9] == SetFlagOps(bit, OffsetOf(ops, k), value)
    ensures ClosedUpTo(ops, k + 9)
    ensures OffsetOf(ops, k + 9) == OffsetOf(ops, k) + 116
    ensures Defined(ops, k) <= Defined(ops, k + 9)
  {
    hide OffsetOf, Defined, ClosedUpTo, Shl, SetFlagOps;
    FlagUpdateOperations(ops, k, bit, OffsetOf(ops, k), value);
    Next(ops, k); Next(ops, k + 1); Next(ops, k + 2); Next(ops, k + 3); Next(ops, k + 4);
    Next(ops, k + 5); Next(ops, k + 6); Next(ops, k + 7); Next(ops, k + 8);
  }

  lemma FlagUpdateOperations(ops: seq<Op>, k: nat, bit: nat, at: nat, value: nat)
    requires bit < 64 && k + 9 <= |ops| && ops[k..k + 9] == SetFlagOps(bit, at, value)
    ensures ops[k] == LoadContext(8, RFLAGS_OFFSET) && ops[k + 1] == Constant(TYPE_I64, 1)
    ensures ops[k + 2] == Constant(TYPE_I64, Shl(1, bit)) && ops[k + 3] == Constant(TYPE_I64, bit)
    ensures ops[k + 4] == Binary(OpAnd, value, at + 8) && ops[k + 5] == Binary(OpShl, at + 56, at + 40)
    ensures ops[k + 6] == Binary(OpNand, at, at + 24) && ops[k + 7] == Binary(OpOr, at + 68, at + 80)
    ensures ops[k + 8] == StoreContext(8, RFLAGS_OFFSET, at + 92)
  {
    hide Shl;
    var block := ops[k..k + 9];
    assert ops[k] == block[0] && ops[k + 1] == block[1] && ops[k + 2] == block[2] && ops[k + 3] == block[3]
        && ops[k + 4] == block[4] && ops[k + 5] == block[5] && ops[k + 6] == block[6] && ops[k + 7] == block[7]
        && ops[k + 8] == block[8];
  }

  lemma CarryUpdate(ops: seq<Op>, k: nat, value: nat)
    requires k + 6 <= |ops| && ClosedUpTo(ops, k) && value in Defined(ops, k)
    requires ops[k..k + 6] == SetCFOps(OffsetOf(ops, k), value)
    ensures ClosedUpTo(ops, k + 6)
  {
    hide OffsetOf, Defined, ClosedUpTo;
    var block := ops[k..k + 6];
    assert forall i :: 0 <= i < 6 ==> ops[k + i] == block[i];
    Next(ops, k); Next(ops, k + 1); Next(ops, k + 2); Next(ops, k + 3); Next(ops, k + 4); Next(ops, k + 5);
  }

  lemma AddTailClosed(ops: seq<Op>, k: nat, src: nat, dest: nat, size: nat)
    requires size == 2 || size == 4 || size == 8
    requires k <= |ops| && ClosedUpTo(ops, k) && src in Defined(ops, k)
    requires ops[k..] == AddTail(OffsetOf(ops, k), src, dest, size)
    ensures Closed(ops)
  {
    hide OffsetOf, Defined, ClosedUpTo;
    var block := ops[k..];
    assert forall i :: 0 <= i < |block| ==> ops[k + i] == block[i];
    Next(ops, k); Next(ops, k + 1); Next(ops, k + 2);
    if size != 8 {
      Next(ops, k + 3); Next(ops, k + 4); Next(ops, k + 5);
    }
  }

  lemma AddClosed(x: Site)
    ensures Closed(Flatten(AddFragment(x).fragment))
  {
    hide OffsetOf, Defined, ClosedUpTo, ModField, RegField, RmField, RegisterIndex, SignExtend32;
    var ops := Flatten(AddFragment(x).fragment);
    Start(ops);
    if ops != [] {
      Next(ops, 0);
      if x.Mod() == 3 {
        if !AddFragment(x).failed {
          assert ops[1..] == AddTail(8, 0, x.Rm(), x.OperandSize());
          AddTailClosed(ops, 1, 0, x.Rm(), x.OperandSize());
        }
      } else {
        Next(ops, 1);
        if x.Mod() == 2 {
          Next(ops, 2);
        } else if !AddFragment(x).failed {
          assert ops[2..] == AddTail(20, 8, x.Reg(), x.OperandSize());
          AddTailClosed(ops, 2, 8, x.Reg(), x.OperandSize());
        }
      }
    }
  }

  lemma AddImmClosed(x: Site)
    ensures Closed(Flatten(AddImmFragment(x).fragment))
  {
    hide OffsetOf, Defined, ClosedUpTo, SignExtend32, SignExtend16;
    var ops := Flatten(AddImmFragment(x).fragment);
    Start(ops);
    Next(ops, 0); Next(ops, 1); Next(ops, 2); Next(ops, 3);
  }

  lemma AddImmModRMClosed(x: Site)
    ensures Closed(Flatten(AddImmModRMFragment(x).fragment))
  {
    hide SignExtend8, SetFlagOps, RegisterIndex, ModField, RegField, RmField;
    if !AddImmModRMFragment(x).failed {
      var size := if x.flags.rex then 8 else if x.flags.opsize then 2 else 4;
      AddImmModRMOpsClosed(x.Rm(), x.Immediate8(), size);
    }
  }

  lemma AddImmModRMOpsClosed(r: nat, immediate: Word, size: nat)
    requires 1 <= size <= 8
    ensures Closed(
              [ LoadReg(r), Constant(TYPE_I64, immediate), Binary(OpAdd, 0, 8), StoreReg(r, 24),
                Constant(TYPE_I64, size * 4 - 1), Binary(OpShr, 0, 48) ]
              + SetFlagOps(7, 76, 64)
              + [Constant(TYPE_I64, 1), Constant(TYPE_I64, 0), Select(CompEq, [24, 192, 208, 192])]
              + SetFlagOps(6, 248, 224))
  {
    hide OffsetOf, Defined, ClosedUpTo, SetFlagOps;
    var sum := [ LoadReg(r), Constant(TYPE_I64, immediate), Binary(OpAdd, 0, 8), StoreReg(r, 24),
                 Constant(TYPE_I64, size * 4 - 1), Binary(OpShr, 0, 48) ];
    var compare := [Constant(TYPE_I64, 1), Constant(TYPE_I64, 0), Select(CompEq, [24, 192, 208, 192])];
    var ops := sum + SetFlagOps(7, 76, 64) + compare + SetFlagOps(6, 248, 224);
    FlagOpsCount(7, 76, 64);
    FlagOpsCount(6, 248, 224);
    assert ops[..6] == sum && ops[6..15] == SetFlagOps(7, 76, 64);
    assert ops[15..18] == compare && ops[18..27] == SetFlagOps(6, 248, 224);
    Start(ops);
    SumClosed(ops, sum, r, immediate, size);
    FlagUpdate(ops, 6, 7, 64);
    assert forall i :: 0 <= i < 3 ==> ops[15 + i] == compare[i];
    CompareClosed(ops, compare);
    FlagUpdate(ops, 18, 6, 224);
  }

  lemma SumClosed(ops: seq<Op>, sum: seq<Op>, r: nat, immediate: Word, size: nat)
    requires 1 <= size <= 8 && |ops| >= 6 && ops[..6] == sum
    requires sum == [ LoadReg(r), Constant(TYPE_I64, immediate), Binary(OpAdd, 0, 8), StoreReg(r, 24),
                      Constant(TYPE_I64, size * 4 - 1), Binary(OpShr, 0, 48) ]
    ensures ClosedUpTo(ops, 6) && OffsetOf(ops, 6) == 76 && {24, 64} <= Defined(ops, 6)
  {
    hide OffsetOf, Defined, ClosedUpTo;
    assert forall i :: 0 <= i < 6 ==> ops[i] == sum[i];
    Start(ops);
    Next(ops, 0); Next(ops, 1); Next(ops, 2); Next(ops, 3); Next(ops, 4); Next(ops, 5);
  }

  lemma CompareClosed(ops: seq<Op>, compare: seq<Op>)
    requires |ops| >= 18 && ClosedUpTo(ops, 15) && 24 in Defined(ops, 15) && OffsetOf(ops, 15) == 192
    requires compare == [Constant(TYPE_I64, 1), Constant(TYPE_I64, 0), Select(CompEq, [24, 192, 208, 192])]
    requires forall i :: 0 <= i < 3 ==> ops[15 + i] == compare[i]
    ensures ClosedUpTo(ops, 18) && OffsetOf(ops, 18) == 248 && 224 in Defined(ops, 18)
  {
    hide OffsetOf, Defined, ClosedUpTo;
    assert ops[15] == compare[0] && ops[15 + 1] == compare[1] && ops[15 + 2] == compare[2];
    Next(ops, 15); Next(ops, 16); Next(ops, 17);
  }

  lemma FlagOpsCount(bit: nat, at: nat, value: nat)
    requires bit < 64
    ensures |SetFlagOps(bit, at, value)| == 9
  {
  }

  lemma ShlImmClosed(x: Site)
    ensures Closed(Flatten(ShlImmFragment(x).fragment))
  {
    hide OffsetOf, Defined, ClosedUpTo, ModField, RegField, RmField, RegisterIndex, SignExtend8;
    var ops := Flatten(ShlImmFragment(x).fragment);
    Start(ops);
    if ops != [] {
      Next(ops, 0); Next(ops, 1); Next(ops, 2); Next(ops, 3);
      if x.OperandSize() != 8 {
        Next(ops, 4); Next(ops, 5);
      }
    }
  }

  lemma XorClosed(x: Site)
    ensures Closed(Flatten(XorFragment(x).fragment))
  {
    hide Closed, ModField, RegField, RmField, RegisterIndex;
    NothingClosed();
    WideXorClosed(x.Rm(), x.Reg());
    NarrowXorClosed(x.Rm(), x.Reg(), x.OperandSize());
  }

  lemma NothingClosed()
    ensures Closed([])
  {
  }

  lemma WideXorClosed(dest: nat, src: nat)
    ensures Closed([LoadReg(dest), LoadReg(src)] + [Binary(OpXor, 0, 8), StoreReg(dest, 16)])
  {
    hide OffsetOf, Defined, ClosedUpTo;
    var ops := [LoadReg(dest), LoadReg(src)] + [Binary(OpXor, 0, 8), StoreReg(dest, 16)];
    Start(ops);
    Next(ops, 0); Next(ops, 1); Next(ops, 2); Next(ops, 3);
  }

  lemma NarrowXorClosed(dest: nat, src: nat, size: nat)
    ensures Closed([LoadReg(dest), LoadReg(src)]
                   + [ TruncOp(size, 0), TruncOp(size, 8), Binary(OpXor, 16, 24), TruncOp(size, 32),
                       StoreReg(dest, 44) ])
  {
    hide OffsetOf, Defined, ClosedUpTo;
    var ops := [LoadReg(dest), LoadReg(src)]
      + [ TruncOp(size, 0), TruncOp(size, 8), Binary(OpXor, 16, 24), TruncOp(size, 32), StoreReg(dest, 44) ];
    Start(ops);
    Next(ops, 0); Next(ops, 1); Next(ops, 2); Next(ops, 3); Next(ops, 4); Next(ops, 5); Next(ops, 6);
  }

  lemma BTClosed(x: Site)
    ensures Closed(Flatten(BTFragment(x).fragment))
  {
    hide OffsetOf, Defined, ClosedUpTo, ModField, RegField, RmField, RegisterIndex;
    var ops := Flatten(BTFragment(x).fragment);
    Start(ops);
    if ops != [] {
      Next(ops, 0); Next(ops, 1); Next(ops, 2); Next(ops, 3); Next(ops, 4);
      assert ops[5..11] == SetCFOps(56, 44);
      CarryUpdate(ops, 5, 44);
    }
  }

  lemma MovClosed(x: Site)
    ensures Closed(Flatten(MovFragment(x).fragment))
  {
    hide OffsetOf, Defined, ClosedUpTo, ModField, RegField, RmField, RegisterIndex;
    var ops := Flatten(MovFragment(x).fragment);
    Start(ops);
    if ops != [] {
      Next(ops, 0); Next(ops, 1);
      if !x.flags.rex {
        Next(ops, 2);
      }
    }
  }

  lemma JMPClosed(x: Site)
    ensures Closed(Flatten(JMPFragment(x).fragment))
  {
    hide OffsetOf, Defined, ClosedUpTo, ModField, RegField, RmField, RegisterIndex;
    var ops := Flatten(JMPFragment(x).fragment);
    Start(ops);
    if ops != [] {
      Next(ops, 0); Next(ops, 1);
    }
  }

  lemma LEAClosed(x: Site)
    ensures Closed(Flatten(LEAFragment(x).fragment))
  {
    hide OffsetOf, Defined, ClosedUpTo, ModField, RegField, RmField, RegisterIndex, SignExtend32;
    var ops := Flatten(LEAFragment(x).fragment);
    Start(ops);
    if ops != [] {
      Next(ops, 0); Next(ops, 1); Next(ops, 2);
      if x.flags.modrm {
        Next(ops, 3);
      }
    }
  }

  lemma RETClosed()
    ensures Closed(RET_OPS)
  {
    hide OffsetOf, Defined, ClosedUpTo;
    Start(RET_OPS);
    Next(RET_OPS, 0); Next(RET_OPS, 1); Next(RET_OPS, 2); Next(RET_OPS, 3); Next(RET_OPS, 4); Next(RET_OPS, 5);
  }

  lemma CMPClosed(x: Site)
    ensures Closed(Flatten(CMPFragment(x).fragment))
  {
    hide Closed, ModField, RegField, RmField, RegisterIndex, SetFlagOps;
    NothingClosed();
    CMPOpsClosed(x.Reg(), x.Rm());
  }

  lemma CMPOpsClosed(src: nat, dest: nat)
    ensures Closed([ LoadReg(src), LoadReg(dest), Binary(OpSub, 8, 0),
                     Constant(TYPE_I64, 1), Constant(TYPE_I64, 0), Select(CompEq, [0, 8, 44, 28]) ]
                   + SetFlagOps(6, 84, 60))
  {
    hide OffsetOf, Defined, ClosedUpTo, SetFlagOps;
    var compare := [ LoadReg(src), LoadReg(dest), Binary(OpSub, 8, 0),
                     Constant(TYPE_I64, 1), Constant(TYPE_I64, 0), Select(CompEq, [0, 8, 44, 28]) ];
    var ops := compare + SetFlagOps(6, 84, 60);
    FlagOpsCount(6, 84, 60);
    Start(ops);
    Next(ops, 0); Next(ops, 1); Next(ops, 2); Next(ops, 3); Next(ops, 4); Next(ops, 5);
    assert ops[6..15] == SetFlagOps(6, 84, 60);
    FlagUpdate(ops, 6, 6, 60);
  }

  lemma SyscallClosed()
    ensures Closed(SYSCALL_OPS)
  {
    hide OffsetOf, Defined, ClosedUpTo;
    var ops := SYSCALL_OPS;
    Start(ops);
    Next(ops, 0); Next(ops, 1); Next(ops, 2); Next(ops, 3); Next(ops, 4); Next(ops, 5); Next(ops, 6);
    assert Defined(ops, 7) == {0, 8, 16, 24, 32, 40, 48};
    assert Arguments(ops[7]) <= {0, 8, 16, 24, 32, 40, 48};
    Next(ops, 7); Next(ops, 8);
  }

  /** The flag test of a conditional jump is closed exactly when it does not negate. */
  lemma GetFlagBitClosed(bit: nat, negate: bool)
    requires bit < 64
    ensures var ops := GetFlagBitOps(bit, negate);
            && (Closed(ops) <==> !negate)
            && GetFlagBitResult(negate) in Defined(ops, |ops|)
            && Length(ops) == if negate then 92 else 80
  {
    hide OffsetOf, Defined, ClosedUpTo, Shl;
    var ops := GetFlagBitOps(bit, negate);
    Start(ops);
    Next(ops, 0); Next(ops, 1); Next(ops, 2); Next(ops, 3); Next(ops, 4); Next(ops, 5);
    if negate {
      assert Arguments(ops[6]) == {80, 8};
      assert 80 !in Defined(ops, 6);
      LastClosed(ops);
      Advance(ops, 6);
    }
  }

  lemma LastClosed(ops: seq<Op>)
    requires ops != []
    ensures Closed(ops) ==> Arguments(ops[|ops| - 1]) <= Defined(ops, |ops| - 1)
  {
  }

  /*** The summary for all handlers ***/

  predicate AllStraight(ops: seq<Op>) {
    forall i :: 0 <= i < |ops| ==> IsStraight(ops[i])
  }

  /** Operations that compute a value and change nothing else. */
  predicate OnlyComputes(ops: seq<Op>) {
    forall i :: 0 <= i < |ops| ==> ProducesValue(ops[i]) && !ops[i].Syscall?
  }

  /** `JO`, `JB`, `JZ`, `JS` and `JP`, whose flag test goes through the negating XOR. */
  predicate SelfReferential(h: Handler) {
    h.JccOp? && !IsNegated(h.condition)
  }

  /** A fragment that the program's two users can give a meaning to. */
  predicate GoodFragment(f: Fragment) {
    match f
    case Plain(ops) => AllStraight(ops) && Closed(ops)
    case Branch(test, cond, _) => AllStraight(test) && Closed(test) && cond in Defined(test, |test|)
  }

  /** The parts of the fragment that are straight-line code. */
  function Body(f: Fragment): seq<Op> {
    match f
    case Plain(ops) => ops
    case Branch(test, _, _) => test
  }

  lemma FragmentsAreStraight(h: Handler, x: Site)
    requires x.size <= MAX_INSTRUCTION
    ensures AllStraight(Body(Emit(h, x).fragment))
  {
    hide AddFragment, AddImmFragment, AddImmModRMFragment, ShlImmFragment, XorFragment, MovFragment, BTFragment,
         JMPFragment, LEAFragment, CMPFragment, GetFlagBitOps, JccTarget, FlagBit;
    AlwaysPlain(x);
    MoversAreStraight(x);
    SumsAreStraight(x);
    WritersAreStraight(x);
    if h.JccOp? {
      TestsAreStraight(FlagBit(h.condition), !IsNegated(h.condition));
    }
  }

  lemma MoversAreStraight(x: Site)
    ensures AllStraight(Body(ShlImmFragment(x).fragment)) && AllStraight(Body(XorFragment(x).fragment))
    ensures AllStraight(Body(MovFragment(x).fragment)) && AllStraight(Body(JMPFragment(x).fragment))
    ensures AllStraight(Body(LEAFragment(x).fragment)) && AllStraight(Body(AddImmFragment(x).fragment))
  {
    hide ModField, RegField, RmField, RegisterIndex, SignExtend8, SignExtend16, SignExtend32;
  }

  lemma SumsAreStraight(x: Site)
    ensures AllStraight(Body(AddFragment(x).fragment))
  {
    hide ModField, RegField, RmField, RegisterIndex, SignExtend32;
  }

  lemma WritersAreStraight(x: Site)
    ensures AllStraight(Body(AddImmModRMFragment(x).fragment))
    ensures AllStraight(Body(BTFragment(x).fragment)) && AllStraight(Body(CMPFragment(x).fragment))
  {
    hide ModField, RegField, RmField, RegisterIndex, SignExtend8, SignExtend16, SignExtend32, Shl;
  }

  lemma TestsAreStraight(bit: nat, negate: bool)
    requires bit < 64
    ensures AllStraight(GetFlagBitOps(bit, negate))
  {
    hide Shl;
  }

  /** Every accepted instruction but the self-referential ones has a good fragment. */
  lemma AcceptedAreGood(h: Handler, x: Site)
    requires x.size <= MAX_INSTRUCTION && !Emit(h, x).failed
    ensures GoodFragment(Emit(h, x).fragment) <==> !SelfReferential(h)
  {
    FragmentsAreStraight(h, x);
    FragmentsAreClosed(h, x);
  }

  lemma FragmentsAreClosed(h: Handler, x: Site)
    requires x.size <= MAX_INSTRUCTION
    ensures Emit(h, x).fragment.Plain? ==>
              Closed(Body(Emit(h, x).fragment)) && !(!Emit(h, x).failed && SelfReferential(h))
    ensures Emit(h, x).fragment.Branch? ==>
              var f := Emit(h, x).fragment;
              && (Closed(f.test) <==> !SelfReferential(h))
              && f.cond in Defined(f.test, |f.test|)
  {
    hide AddFragment, AddImmFragment, AddImmModRMFragment, ShlImmFragment, XorFragment, MovFragment, BTFragment,
         JMPFragment, LEAFragment, CMPFragment, RET_OPS, SYSCALL_OPS, GetFlagBitOps, JccTarget, Defined, ClosedUpTo;
    AlwaysPlain(x);
    AddClosed(x);
    AddImmClosed(x);
    AddImmModRMClosed(x);
    ShlImmClosed(x);
    XorClosed(x);
    BTClosed(x);
    MovClosed(x);
    JMPClosed(x);
    LEAClosed(x);
    RETClosed();
    CMPClosed(x);
    SyscallClosed();
    Start([]);
    if h.JccOp? {
      GetFlagBitClosed(FlagBit(h.condition), !IsNegated(h.condition));
    }
  }

  lemma AlwaysPlain(x: Site)
    ensures AddFragment(x).fragment.Plain? && AddImmFragment(x).fragment.Plain?
    ensures AddImmModRMFragment(x).fragment.Plain? && ShlImmFragment(x).fragment.Plain?
    ensures XorFragment(x).fragment.Plain? && MovFragment(x).fragment.Plain? && BTFragment(x).fragment.Plain?
    ensures JMPFragment(x).fragment.Plain? && LEAFragment(x).fragment.Plain? && CMPFragment(x).fragment.Plain?
  {
    hide ModField, RegField, RmField, RegisterIndex, SignExtend8, SignExtend16, SignExtend32, SetFlagOps, SetCFOps,
         AddTail;
  }

  /** What a failing handler has appended: no store, no system call, no jump, no block end. */
  lemma RejectedOnlyCompute(h: Handler, x: Site)
    requires x.size <= MAX_INSTRUCTION && Emit(h, x).failed
    ensures var f := Emit(h, x).fragment;
            f.Plain? && OnlyComputes(f.ops) && Closed(f.ops) && (f.ops != [] ==> h == AddOp || h == LEAOp)
  {
    FragmentsAreClosed(h, x);
    hide ModField, RegField, RmField, RegisterIndex, SignExtend8, SignExtend16, SignExtend32, SetFlagOps, SetCFOps,
         AddTail, JccTarget, GetFlagBitOps, Closed;
  }

  /**
    The operands the handlers take: two registers, and for ADD also a register
    that holds an address. No handler of these takes a SIB byte, or an
    instruction that the decoder found to have no ModRM byte.
  */
  lemma AcceptedOperands(h: Handler, x: Site)
    requires x.size <= MAX_INSTRUCTION && !Emit(h, x).failed
    requires h == AddOp || h == AddImmModRMOp || h == ShlImmOp || h == XorOp || h == MovOp || h == JMPOp || h == CMPOp
    ensures x.flags.modrm && !x.flags.sib && (x.Mod() == 3 || (h == AddOp && x.Mod() == 0))
  {
    hide RegField, RmField, RegisterIndex, SignExtend8, SignExtend32, SetFlagOps, AddTail;
  }

  /** The one rejected fragment a backend cannot run: a two-byte memory load. */
  predicate LoadsHalfWord(h: Handler, x: Site) {
    && h == AddOp && x.Mod() == 0 && RegField(x.ModRM()) != 4 && x.OperandSize() == 2
    && (!x.flags.modrm || x.flags.sib)
  }

  /** Operations that cannot abort a backend and change nothing but their own value. */
  predicate Harmless(op: Op) {
    match op
    case Constant(_, _) => true
    case LoadContext(size, o) => size == 8 && ContextSlot(o)
    case Binary(kind, _, _) => kind == OpAdd
    case LoadMem(size, _, _) => size == 4 || size == 8
    case _ => false
  }

  lemma HarmlessStep(env: Environment, op: Op, at: nat, v: Values, s: State)
    requires Harmless(op)
    ensures var r := Step(env, op, at, v, s); r.Next? && r.state == s
  {
    hide LoadWord, ReadSlot, ContextSlot, Add;
  }

  lemma {:induction false} HarmlessRun(env: Environment, ops: seq<Op>, i: nat, v: Values, s: State)
    requires i <= |ops| && forall j :: 0 <= j < |ops| ==> Harmless(ops[j])
    ensures var r := Straight(env, ops, 0, i, v, s); r.Next? && r.state == s
    decreases |ops| - i
  {
    hide Straight, Harmless, OffsetOf, Step;
    StraightUnfolds(env, ops, 0, i, v, s);
    if i < |ops| {
      HarmlessStep(env, ops[i], 0 + OffsetOf(ops, i), v, s);
      var r := Step(env, ops[i], 0 + OffsetOf(ops, i), v, s);
      HarmlessRun(env, ops, i + 1, r.values, s);
    }
  }

  lemma RejectedShape(h: Handler, x: Site)
    requires x.size <= MAX_INSTRUCTION && Emit(h, x).failed
    ensures var ops := Body(Emit(h, x).fragment);
            if LoadsHalfWord(h, x) then ops == [LoadReg(x.Rm()), LoadMem(2, 0, NoIndex)]
            else forall j :: 0 <= j < |ops| ==> Harmless(ops[j])
  {
    hide ModField, RegField, RmField, SignExtend32, RegisterIndex, AddTail, SetFlagOps, SetCFOps, GetFlagBitOps,
         SignExtend8, SignExtend16, JccTarget;
  }

  /**
    A rejected fragment leaves the CPU state alone, except that an operand-size
    prefixed ADD of a SIB memory operand aborts the backend.
  */
  lemma RejectedHarmlessExactlyWhen(env: Environment, h: Handler, x: Site, s: State)
    requires x.size <= MAX_INSTRUCTION && Emit(h, x).failed
    ensures var r := Straight(env, Body(Emit(h, x).fragment), 0, 0, map[], s);
            if LoadsHalfWord(h, x) then r == Halt else r.Next? && r.state == s
  {
    hide Emit, Straight, LoadsHalfWord, RegisterIndex, Harmless;
    var ops := Body(Emit(h, x).fragment);
    RejectedShape(h, x);
    if LoadsHalfWord(h, x) {
      var v := AfterLoad(env, ops, 0, 0, map[], s, GregOffset(x.Rm()));
      StraightUnfolds(env, ops, 0, 1, v, s);
      assert Step(env, ops[1], 0 + OffsetOf(ops, 1), v, s) == Halt;
    } else {
      HarmlessRun(env, ops, 0, map[], s);
    }
  }
}
