/**
  What the handlers outside the simulated forms do to the CPU state, their
  departures from the architecture included.
*/
module OtherEffects {
  import opened Words
  import opened IR
  import opened Machine
  import opened X86Tables
  import opened Decoder
  import opened Handlers
  import opened HandlerShapes
  import opened Translate
  import opened BlockMeaning
  import opened Flags
  import opened Arithmetic
  import opened Effects

  lemma EndsInFalls(env: Environment, d: Dialect, i: Instruction, ops: seq<Op>, s: State, t: State)
    requires FragmentOf(i) == Plain(ops) && EndsIn(env, ops, s, t)
    ensures FragmentRun(env, d, FragmentOf(i), s) == Falls(t)
  {
    hide Straight, FragmentOf;
  }

  /*** Immediates ***/

  lemma SumEffect(env: Environment, reg: nat, flags: nat, constant: Word, s: State)
    requires reg < 16
    ensures EndsIn(env, [LoadReg(reg), Constant(flags, constant), Binary(OpAdd, 0, 8), StoreReg(reg, 24)], s,
              s.(gregs := s.gregs[reg := (s.gregs[reg] + constant) % M64]))
  {
    hide OffsetOf, Straight, Value;
    var ops := [LoadReg(reg), Constant(flags, constant), Binary(OpAdd, 0, 8), StoreReg(reg, 24)];
    var x := s.gregs[reg];
    Start(ops);
    AddIsSum(x, constant);
    var v1 := AfterLoad(env, ops, 0, 0, map[], s, GregOffset(reg));
    var v2 := AfterConstant(env, ops, 1, 8, v1, s, constant);
    var v3 := AfterBinary(env, ops, 2, 24, v2, s, OpAdd, 0, 8, x, constant);
    AfterStore(env, ops, 3, v3, s, GregOffset(reg), 24);
    AfterAll(env, ops, v3, s.(gregs := s.gregs[reg := Add(x, constant)]));
  }

  /** `AddImmOp` adds to the whole of RAX whatever the operand size, and touches no flag. */
  lemma AddImmEffect(env: Environment, d: Dialect, i: Instruction, s: State)
    requires i.handler == AddImmOp
    ensures var x := i.site;
            var immediate := if !x.flags.rex && x.flags.opsize then x.Immediate16() else x.Immediate32();
            FragmentRun(env, d, FragmentOf(i), s)
              == Falls(s.(gregs := s.gregs[REG_RAX := (s.gregs[REG_RAX] + immediate) % M64]))
  {
    hide EndsIn, SignExtend32, SignExtend16, FragmentRun;
    var x := i.site;
    var immediate := if !x.flags.rex && x.flags.opsize then x.Immediate16() else x.Immediate32();
    var kind := if x.flags.rex then TYPE_I64 else if x.flags.opsize then TYPE_I16 else TYPE_I32;
    var ops := [LoadReg(REG_RAX), Constant(kind, immediate), Binary(OpAdd, 0, 8), StoreReg(REG_RAX, 24)];
    SumEffect(env, REG_RAX, kind, immediate, s);
    EndsInFalls(env, d, i, ops, s, s.(gregs := s.gregs[REG_RAX := (s.gregs[REG_RAX] + immediate) % M64]));
  }

  /** The addition of `AddImmModRMOp`, and the shift that its sign flag comes from. */
  lemma SumAndSign(env: Environment, ops: seq<Op>, reg: nat, immediate: Word, size: nat, s: State) returns (w: Values)
    requires reg < 16 && 1 <= size <= 8 && |ops| >= 6
    requires ops[..6] == [ LoadReg(reg), Constant(TYPE_I64, immediate), Binary(OpAdd, 0, 8), StoreReg(reg, 24),
                           Constant(TYPE_I64, size * 4 - 1), Binary(OpShr, 0, 48) ]
    ensures var x := s.gregs[reg];
            && Straight(env, ops, 0, 0, map[], s)
            == Straight(env, ops, 0, 6, w, s.(gregs := s.gregs[reg := Add(x, immediate)]))
            && OffsetOf(ops, 6) == 76 && Value(w, 24) == Add(x, immediate) && Value(w, 64) == Shr(x, size * 4 - 1)
  {
    hide OffsetOf, Straight, Value, Shr, Add;
    var p := ops[..6];
    assert ops[0] == p[0] && ops[1] == p[1] && ops[2] == p[2] && ops[3] == p[3] && ops[4] == p[4] && ops[5] == p[5];
    var x := s.gregs[reg];
    Start(ops);
    var v1 := AfterLoad(env, ops, 0, 0, map[], s, GregOffset(reg));
    var v2 := AfterConstant(env, ops, 1, 8, v1, s, immediate);
    var v3 := AfterBinary(env, ops, 2, 24, v2, s, OpAdd, 0, 8, x, immediate);
    AfterStore(env, ops, 3, v3, s, GregOffset(reg), 24);
    var t := s.(gregs := s.gregs[reg := Add(x, immediate)]);
    var v4 := AfterConstant(env, ops, 4, 48, v3, t, size * 4 - 1);
    w := AfterBinary(env, ops, 5, 64, v4, t, OpShr, 0, 48, x, size * 4 - 1);
  }

  /** Its comparison: the sum against the constant 1. */
  lemma ComparedWithOne(env: Environment, ops: seq<Op>, v: Values, s: State) returns (w: Values)
    requires |ops| >= 18 && OffsetOf(ops, 15) == 192
    requires ops[15..18] == [Constant(TYPE_I64, 1), Constant(TYPE_I64, 0), Select(CompEq, [24, 192, 208, 192])]
    ensures Straight(env, ops, 0, 15, v, s) == Straight(env, ops, 0, 18, w, s) && OffsetOf(ops, 18) == 248
    ensures Value(w, 224) == if Value(v, 24) == 1 then 0 else 1
  {
    hide OffsetOf, Straight, Value;
    var p := ops[15..18];
    assert ops[15] == p[0] && ops[16] == p[1] && ops[17] == p[2];
    var v1 := AfterConstant(env, ops, 15, 192, v, s, 1);
    var v2 := AfterConstant(env, ops, 16, 208, v1, s, 0);
    w := AfterSelectEqual(env, ops, 17, 224, v2, s, [24, 192, 208, 192], if Value(v, 24) == 1 then 0 else 1);
  }

  /**
    `AddImmModRMOp`: the whole register is the sum; SF becomes bit 4*size-1 of the
    old value, and ZF is written complemented, of a comparison of the sum with 1.
  */
  lemma AddImmModRMEffect(env: Environment, d: Dialect, i: Instruction, s: State)
    requires i.handler == AddImmModRMOp && !Emit(i.handler, i.site).failed
    ensures var x := i.site;
            var size := if x.flags.rex then 8 else if x.flags.opsize then 2 else 4;
            var before := s.gregs[x.Rm()];
            var sum := (before + x.Immediate8()) % M64;
            var signed := FlagSet(s.rflags, 7, Bit(before, size * 4 - 1));
            FragmentRun(env, d, FragmentOf(i), s)
              == Falls(s.(gregs := s.gregs[x.Rm() := sum], rflags := FlagSet(signed, 6, if sum == 1 then 0 else 1)))
  {
    hide FragmentRun, EndsIn, RegisterIndex, ModField, RmField, SignExtend8, FlagSet, Bit, SetFlagOps;
    var x := i.site;
    var size := if x.flags.rex then 8 else if x.flags.opsize then 2 else 4;
    var t := AddImmModRMOps(env, x.Rm(), x.Immediate8(), size, s);
    EndsInFalls(env, d, i, AddImmediateOps(x.Rm(), x.Immediate8(), size), s, t);
  }

  function AddImmediateOps(reg: nat, immediate: Word, size: nat): seq<Op>
    requires 1 <= size <= 8
  {
    [ LoadReg(reg), Constant(TYPE_I64, immediate), Binary(OpAdd, 0, 8), StoreReg(reg, 24),
      Constant(TYPE_I64, size * 4 - 1), Binary(OpShr, 0, 48) ]
    + SetFlagOps(7, 76, 64)
    + [Constant(TYPE_I64, 1), Constant(TYPE_I64, 0), Select(CompEq, [24, 192, 208, 192])]
    + SetFlagOps(6, 248, 224)
  }

  lemma AddImmModRMOps(env: Environment, reg: nat, immediate: Word, size: nat, s: State) returns (t: State)
    requires reg < 16 && 1 <= size <= 8
    ensures EndsIn(env, AddImmediateOps(reg, immediate, size), s, t)
    ensures var sum := (s.gregs[reg] + immediate) % M64;
            var signed := FlagSet(s.rflags, 7, Bit(s.gregs[reg], size * 4 - 1));
            t == s.(gregs := s.gregs[reg := sum], rflags := FlagSet(signed, 6, if sum == 1 then 0 else 1))
  {
    hide OffsetOf, Straight, Value, Shr, FlagSet, Bit, SetFlagOps;
    var ops := AddImmediateOps(reg, immediate, size);
    PartsOf(reg, immediate, size);
    var w1 := SumAndSign(env, ops, reg, immediate, size, s);
    AddIsSum(s.gregs[reg], immediate);
    var s1 := s.(gregs := s.gregs[reg := Add(s.gregs[reg], immediate)]);
    var w2 := SetFlagEffect(env, ops, 6, 76, 7, 64, w1, s1);
    var s2 := s1.(rflags := FlagSet(s.rflags, 7, Shr(s.gregs[reg], size * 4 - 1)));
    var w3 := ComparedWithOne(env, ops, w2, s2);
    var w4 := SetFlagEffect(env, ops, 18, 248, 6, 224, w3, s2);
    t := s2.(rflags := FlagSet(s2.rflags, 6, Value(w3, 224)));
    AfterAll(env, ops, w4, t);
    SignBit(s.rflags, s.gregs[reg], size * 4 - 1);
  }

  lemma PartsOf(reg: nat, immediate: Word, size: nat)
    requires 1 <= size <= 8
    ensures var ops := AddImmediateOps(reg, immediate, size);
            && |ops| == 27
            && ops[..6] == [ LoadReg(reg), Constant(TYPE_I64, immediate), Binary(OpAdd, 0, 8), StoreReg(reg, 24),
                             Constant(TYPE_I64, size * 4 - 1), Binary(OpShr, 0, 48) ]
            && ops[6..15] == SetFlagOps(7, 76, 64) && ops[18..27] == SetFlagOps(6, 248, 224)
            && ops[15..18] == [Constant(TYPE_I64, 1), Constant(TYPE_I64, 0), Select(CompEq, [24, 192, 208, 192])]
  {
    hide SetFlagOps;
    FlagOpsCount(7, 76, 64);
    FlagOpsCount(6, 248, 224);
  }

  /** A flag takes bit 0 of what it is given: here bit `n` of the value. */
  lemma SignBit(flags: Word, x: Word, n: nat)
    requires n < 64
    ensures FlagSet(flags, 7, Shr(x, n)) == FlagSet(flags, 7, Bit(x, n))
  {
    hide FlagSet, Shr;
    BitOfShr(x, n, 0);
    var a, b := FlagSet(flags, 7, Shr(x, n)), FlagSet(flags, 7, Bit(x, n));
    forall k | 0 <= k < 64
      ensures Bit(a, k) == Bit(b, k)
    {
      FlagSetBits(flags, 7, Shr(x, n), k);
      FlagSetBits(flags, 7, Bit(x, n), k);
    }
    SameWords(a, b);
  }

  /*** System calls and memory operands ***/

  lemma SevenLoads(env: Environment, ops: seq<Op>, s: State) returns (w: Values)
    requires |ops| >= 7 && ops[..7] == SYSCALL_OPS[..7]
    ensures Straight(env, ops, 0, 0, map[], s) == Straight(env, ops, 0, 7, w, s) && OffsetOf(ops, 7) == 56
    ensures Value(w, 0) == s.gregs[REG_RAX] && Value(w, 8) == s.gregs[REG_RDI] && Value(w, 16) == s.gregs[REG_RSI]
    ensures Value(w, 24) == s.gregs[REG_RDX] && Value(w, 32) == s.gregs[REG_R10] && Value(w, 40) == s.gregs[REG_R8]
    ensures Value(w, 48) == s.gregs[REG_R9]
  {
    hide OffsetOf, Straight, Value;
    var p, q := ops[..7], SYSCALL_OPS[..7];
    assert ops[0] == p[0] == q[0] && ops[1] == p[1] == q[1] && ops[2] == p[2] == q[2] && ops[3] == p[3] == q[3]
        && ops[4] == p[4] == q[4] && ops[5] == p[5] == q[5] && ops[6] == p[6] == q[6];
    Start(ops);
    var v1 := AfterLoad(env, ops, 0, 0, map[], s, GregOffset(REG_RAX));
    var v2 := AfterLoad(env, ops, 1, 8, v1, s, GregOffset(REG_RDI));
    var v3 := AfterLoad(env, ops, 2, 16, v2, s, GregOffset(REG_RSI));
    var v4 := AfterLoad(env, ops, 3, 24, v3, s, GregOffset(REG_RDX));
    var v5 := AfterLoad(env, ops, 4, 32, v4, s, GregOffset(REG_R10));
    var v6 := AfterLoad(env, ops, 5, 40, v5, s, GregOffset(REG_R8));
    w := AfterLoad(env, ops, 6, 48, v6, s, GregOffset(REG_R9));
  }

  /** The call of the handler: number and six arguments in the kernel's register order. */
  lemma SyscallEffect(env: Environment, d: Dialect, i: Instruction, s: State)
    requires i.handler == SyscallOp
    ensures var call := [ s.gregs[REG_RAX], s.gregs[REG_RDI], s.gregs[REG_RSI], s.gregs[REG_RDX], s.gregs[REG_R10],
                          s.gregs[REG_R8], s.gregs[REG_R9] ];
            var calls := s.calls + [call];
            FragmentRun(env, d, FragmentOf(i), s)
              == Falls(s.(calls := calls, gregs := s.gregs[REG_RAX := env.handle(calls)]))
  {
    hide OffsetOf, Straight, Value, FragmentRun;
    var ops := SYSCALL_OPS;
    var call := [ s.gregs[REG_RAX], s.gregs[REG_RDI], s.gregs[REG_RSI], s.gregs[REG_RDX], s.gregs[REG_R10],
                  s.gregs[REG_R8], s.gregs[REG_R9] ];
    var w := SevenLoads(env, ops, s);
    StraightUnfolds(env, ops, 0, 7, w, s);
    var args := [0, 8, 16, 24, 32, 40, 48];
    assert seq(|args|, j requires 0 <= j < |args| => Value(w, args[j])) == call;
    var calls := s.calls + [call];
    var t := s.(calls := calls);
    var u := w[56 := env.handle(calls)];
    ValueAt(w, 56, env.handle(calls));
    AfterStore(env, ops, 8, u, t, GregOffset(REG_RAX), 56);
    AfterAll(env, ops, u, t.(gregs := t.gregs[REG_RAX := env.handle(calls)]));
    EndsInFalls(env, d, i, ops, s, t.(gregs := t.gregs[REG_RAX := env.handle(calls)]));
  }

  lemma ValueAt(v: Values, at: nat, x: Word)
    ensures Value(v[at := x], at) == x
  {
  }

  lemma AddMemoryWide(env: Environment, base: nat, dest: nat, s: State)
    requires base < 16 && dest < 16
    ensures EndsIn(env, [LoadReg(base), LoadMem(8, 0, NoIndex)] + AddTail(20, 8, dest, 8), s,
              s.(gregs := s.gregs[dest := (s.gregs[dest] + LoadWord(env.memory, s.gregs[base], 8)) % M64]))
  {
    hide OffsetOf, Straight, Value, LoadWord;
    var ops := [LoadReg(base), LoadMem(8, 0, NoIndex)] + AddTail(20, 8, dest, 8);
    var x, y := LoadWord(env.memory, s.gregs[base], 8), s.gregs[dest];
    Start(ops);
    AddIsSum(y, x);
    var v1 := AfterLoad(env, ops, 0, 0, map[], s, GregOffset(base));
    var v2 := AfterLoadMem(env, ops, 1, 8, v1, s, 8, 0);
    var v3 := AfterLoad(env, ops, 2, 20, v2, s, GregOffset(dest));
    var v4 := AfterBinary(env, ops, 3, 28, v3, s, OpAdd, 20, 8, y, x);
    AfterStore(env, ops, 4, v4, s, GregOffset(dest), 28);
    AfterAll(env, ops, v4, s.(gregs := s.gregs[dest := Add(y, x)]));
  }

  /** The 32-bit half of ADD behind the load of its memory operand: both operands truncated. */
  lemma TruncatedOperands(env: Environment, ops: seq<Op>, dest: nat, v: Values, s: State, x: Word) returns (w: Values)
    requires dest < 16 && |ops| == 8 && ops[2..] == AddTail(20, 8, dest, 4)
    requires OffsetOf(ops, 2) == 20 && Value(v, 8) == x
    ensures Straight(env, ops, 0, 2, v, s) == Straight(env, ops, 0, 5, w, s) && OffsetOf(ops, 5) == 44
    ensures Value(w, 28) == Truncate32(s.gregs[dest]) && Value(w, 36) == Truncate32(x)
  {
    hide OffsetOf, Straight, Value, Truncate32;
    var p := ops[2..];
    assert ops[2] == p[0] && ops[3] == p[1] && ops[4] == p[2];
    var v1 := AfterLoad(env, ops, 2, 20, v, s, GregOffset(dest));
    var v2 := AfterTrunc32(env, ops, 3, 28, v1, s, 20, s.gregs[dest]);
    w := AfterTrunc32(env, ops, 4, 36, v2, s, 8, x);
  }

  lemma TruncatedSum(env: Environment, ops: seq<Op>, dest: nat, v: Values, s: State, y: Word, x: Word)
    requires dest < 16 && |ops| == 8 && ops[2..] == AddTail(20, 8, dest, 4)
    requires OffsetOf(ops, 5) == 44 && Value(v, 28) == Truncate32(y) && Value(v, 36) == Truncate32(x)
    ensures var r := Straight(env, ops, 0, 5, v, s);
            r.Next? && r.state == s.(gregs := s.gregs[dest := (y + x) % M32])
  {
    hide OffsetOf, Straight, Value, Truncate32;
    var p := ops[2..];
    assert ops[5] == p[3] && ops[6] == p[4] && ops[7] == p[5];
    NarrowAdd(y, x);
    var sum := Add(Truncate32(y), Truncate32(x));
    var v1 := AfterBinary(env, ops, 5, 44, v, s, OpAdd, 28, 36, Truncate32(y), Truncate32(x));
    var v2 := AfterTrunc32(env, ops, 6, 56, v1, s, 44, sum);
    AfterStore(env, ops, 7, v2, s, GregOffset(dest), 56);
    AfterAll(env, ops, v2, s.(gregs := s.gregs[dest := Truncate32(sum)]));
  }

  lemma AddMemoryNarrow(env: Environment, base: nat, dest: nat, s: State)
    requires base < 16 && dest < 16
    ensures EndsIn(env, [LoadReg(base), LoadMem(4, 0, NoIndex)] + AddTail(20, 8, dest, 4), s,
              s.(gregs := s.gregs[dest := (s.gregs[dest] + LoadWord(env.memory, s.gregs[base], 4)) % M32]))
  {
    hide OffsetOf, Straight, Value, LoadWord, AddTail;
    TailLength(dest);
    var ops := [LoadReg(base), LoadMem(4, 0, NoIndex)] + AddTail(20, 8, dest, 4);
    Start(ops);
    var v1 := AfterLoad(env, ops, 0, 0, map[], s, GregOffset(base));
    var v2 := AfterLoadMem(env, ops, 1, 8, v1, s, 4, 0);
    var x := LoadWord(env.memory, s.gregs[base], 4);
    var v3 := TruncatedOperands(env, ops, dest, v2, s, x);
    TruncatedSum(env, ops, dest, v3, s, s.gregs[dest], x);
  }

  lemma TailLength(dest: nat)
    ensures |AddTail(20, 8, dest, 4)| == 6
  {
  }

  /**
    ADD with a register-indirect operand: the sum goes to the register, for the
    opcode of either direction, in 64 or 32 bits.
  */
  lemma AddMemoryEffect(env: Environment, d: Dialect, i: Instruction, s: State)
    requires i.handler == AddOp && !Emit(i.handler, i.site).failed && i.site.Mod() == 0 && i.site.OperandSize() != 2
    ensures var x, size := i.site, i.site.OperandSize();
            var loaded := LoadWord(env.memory, s.gregs[x.Rm()], size);
            FragmentRun(env, d, FragmentOf(i), s) == Falls(s.(
              gregs := s.gregs[x.Reg() := (s.gregs[x.Reg()] + loaded) % if size == 8 then M64 else M32]))
  {
    hide EndsIn, FragmentRun, LoadWord, RegisterIndex, ModField, RegField, RmField, AddTail;
    var x, size := i.site, i.site.OperandSize();
    var loaded := LoadWord(env.memory, s.gregs[x.Rm()], size);
    if size == 8 {
      AddMemoryWide(env, x.Rm(), x.Reg(), s);
    } else {
      AddMemoryNarrow(env, x.Rm(), x.Reg(), s);
    }
    EndsInFalls(env, d, i, [LoadReg(x.Rm()), LoadMem(size, 0, NoIndex)] + AddTail(20, 8, x.Reg(), size), s, s.(
      gregs := s.gregs[x.Reg() := (s.gregs[x.Reg()] + loaded) % if size == 8 then M64 else M32]));
  }

  /** ADD of two registers: the sum goes to the one named by `rm`, for the opcode of either direction. */
  lemma AddRegistersEffect(env: Environment, d: Dialect, i: Instruction, s: State)
    requires i.handler == AddOp && !Emit(i.handler, i.site).failed && i.site.Mod() == 3 && i.site.OperandSize() != 2
    ensures var x, size := i.site, i.site.OperandSize();
            FragmentRun(env, d, FragmentOf(i), s) == Falls(s.(
              gregs := s.gregs[x.Rm() := (s.gregs[x.Rm()] + s.gregs[x.Reg()]) % if size == 8 then M64 else M32]))
  {
    hide EndsIn, FragmentRun, RegisterIndex, ModField, RegField, RmField, AddTail;
    var x, size := i.site, i.site.OperandSize();
    if size == 8 {
      AddWide(env, x.Reg(), x.Rm(), s);
    } else {
      AddNarrow(env, x.Reg(), x.Rm(), s);
    }
    EndsInFalls(env, d, i, [LoadReg(x.Reg())] + AddTail(8, 0, x.Rm(), size), s, s.(
      gregs := s.gregs[x.Rm() := (s.gregs[x.Rm()] + s.gregs[x.Reg()]) % if size == 8 then M64 else M32]));
  }
}
