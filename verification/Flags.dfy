/**
  The flag updates: what the operations emitted by SetCF, SetZF, SetSF, SetOF
  and GetFlagBit compute, and the compare-and-branch pair built from them.
*/
module Flags {
  import opened Words
  import opened IR
  import opened Machine
  import opened X86Tables
  import opened Decoder
  import opened Handlers
  import opened HandlerShapes
  import opened Translate
  import opened BlockMeaning

  /*** The algebra ***/

  /** What `SetZF`, `SetSF` and `SetOF` store; with bit 0, what `SetCF` stores. */
  function FlagSet(flags: Word, bit: nat, w: Word): Word
    requires bit < 64
  {
    Or(Shl(And(w, 1), bit), AndNot(flags, Shl(1, bit)))
  }

  /** What `GetFlagBit` computes. */
  function FlagGet(flags: Word, bit: nat): Word
    requires bit < 64
  {
    Shr(And(flags, Shl(1, bit)), bit)
  }

  lemma {:induction false} BitOfOne(k: nat)
    ensures Bit(1, k) == if k == 0 then 1 else 0
  {
    if k > 0 {
      BitOfZero(k - 1);
    }
  }

  lemma BitOfMask(bit: nat, k: nat)
    requires bit < 64 && k < 64
    ensures Bit(Shl(1, bit), k) == if k == bit then 1 else 0
  {
    BitOfShl(1, bit, k);
    if k >= bit {
      BitOfOne(k - bit);
    }
  }

  lemma {:induction false} BitPastEnd(x: nat, n: nat, k: nat)
    requires x < Pow2(n) && k >= n
    ensures Bit(x, k) == 0
    decreases n
  {
    if n == 0 {
      BitOfZero(k);
    } else {
      BitPastEnd(x / 2, n - 1, k - 1);
    }
  }

  /** A flag update sets exactly its own bit, to bit 0 of the value, and keeps the other 63. */
  lemma FlagSetBits(flags: Word, bit: nat, w: Word, k: nat)
    requires bit < 64 && k < 64
    ensures Bit(FlagSet(flags, bit, w), k) == if k == bit then w % 2 else Bit(flags, k)
  {
    hide Bitwise, Shl;
    AndWithOne(w);
    BitOfBitwise(OrGate, Shl(And(w, 1), bit), AndNot(flags, Shl(1, bit)), k);
    BitOfBitwise(AndNotGate, flags, Shl(1, bit), k);
    BitOfMask(bit, k);
    BitOfShl(And(w, 1), bit, k);
    if k >= bit {
      BitOfOne(k - bit);
      BitOfZero(k - bit);
    }
  }

  /** Updates of different flags commute. */
  lemma FlagSetsCommute(flags: Word, b: nat, v: Word, c: nat, w: Word)
    requires b < 64 && c < 64 && b != c
    ensures FlagSet(FlagSet(flags, b, v), c, w) == FlagSet(FlagSet(flags, c, w), b, v)
  {
    hide FlagSet, Bit;
    var x, y := FlagSet(FlagSet(flags, b, v), c, w), FlagSet(FlagSet(flags, c, w), b, v);
    forall k | 0 <= k < 64
      ensures Bit(x, k) == Bit(y, k)
    {
      FlagSetBits(flags, b, v, k);
      FlagSetBits(flags, c, w, k);
      FlagSetBits(FlagSet(flags, b, v), c, w, k);
      FlagSetBits(FlagSet(flags, c, w), b, v, k);
    }
    SameWords(x, y);
  }

  /** Of two updates of the same flag the later one counts. */
  lemma FlagSetOverwrites(flags: Word, b: nat, v: Word, w: Word)
    requires b < 64
    ensures FlagSet(FlagSet(flags, b, v), b, w) == FlagSet(flags, b, w)
  {
    hide FlagSet, Bit;
    var x, y := FlagSet(FlagSet(flags, b, v), b, w), FlagSet(flags, b, w);
    forall k | 0 <= k < 64
      ensures Bit(x, k) == Bit(y, k)
    {
      FlagSetBits(flags, b, v, k);
      FlagSetBits(flags, b, w, k);
      FlagSetBits(FlagSet(flags, b, v), b, w, k);
    }
    SameWords(x, y);
  }

  /** Reading a flag yields its bit. */
  lemma FlagGetIsBit(flags: Word, bit: nat)
    requires bit < 64
    ensures FlagGet(flags, bit) == Bit(flags, bit)
  {
    hide Bitwise, Shl, Shr, Bit;
    var x := FlagGet(flags, bit);
    var y := Bit(flags, bit);
    forall k | 0 <= k < 64
      ensures Bit(x, k) == Bit(y, k)
    {
      BitOfShr(And(flags, Shl(1, bit)), bit, k);
      BitOfOne(k);
      BitOfZero(k);
      if k + bit < 64 {
        BitOfBitwise(AndGate, flags, Shl(1, bit), k + bit);
        BitOfMask(bit, k + bit);
      } else {
        Pow2SixtyFour();
        BitPastEnd(And(flags, Shl(1, bit)), 64, k + bit);
      }
    }
    SameWords(x, y);
  }

  /** Reading a flag after writing it yields bit 0 of the value written; other flags read as before. */
  lemma GetAfterSet(flags: Word, bit: nat, w: Word, other: nat)
    requires bit < 64 && other < 64
    ensures FlagGet(FlagSet(flags, bit, w), bit) == w % 2
    ensures other != bit ==> FlagGet(FlagSet(flags, bit, w), other) == FlagGet(flags, other)
  {
    hide FlagSet, FlagGet;
    FlagGetIsBit(FlagSet(flags, bit, w), bit);
    FlagGetIsBit(FlagSet(flags, bit, w), other);
    FlagGetIsBit(flags, other);
    FlagSetBits(flags, bit, w, bit);
    FlagSetBits(flags, bit, w, other);
  }

  /*** The emitted operations ***/

  /** The operands of a flag update: the flags, and the constants 1, the bit's mask and the bit. */
  lemma FlagOperands(env: Environment, ops: seq<Op>, k: nat, at: nat, bit: nat, v: Values, s: State)
    returns (w: Values)
    requires bit < 64 && k + 4 <= |ops| && at == OffsetOf(ops, k)
    requires ops[k] == LoadContext(8, RFLAGS_OFFSET) && ops[k + 1] == Constant(TYPE_I64, 1)
    requires ops[k + 2] == Constant(TYPE_I64, Shl(1, bit)) && ops[k + 3] == Constant(TYPE_I64, bit)
    ensures Straight(env, ops, 0, k, v, s) == Straight(env, ops, 0, k + 4, w, s)
    ensures Value(w, at) == s.rflags && Value(w, at + 8) == 1 && Value(w, at + 24) == Shl(1, bit)
    ensures Value(w, at + 40) == bit && OffsetOf(ops, k + 4) == at + 56
    ensures forall x: nat :: x < at || x >= at + 56 ==> Value(w, x) == Value(v, x)
  {
    hide OffsetOf, Straight, Shl, Value;
    var v1 := AfterLoad(env, ops, k, at, v, s, RFLAGS_OFFSET);
    var v2 := AfterConstant(env, ops, k + 1, at + 8, v1, s, 1);
    var v3 := AfterConstant(env, ops, k + 2, at + 24, v2, s, Shl(1, bit));
    w := AfterConstant(env, ops, k + 3, at + 40, v3, s, bit);
  }

  /** The nine operations of `SetZF`, `SetSF` or `SetOF`, anywhere in a straight sequence. */
  lemma SetFlagEffect(env: Environment, ops: seq<Op>, k: nat, at: nat, bit: nat, value: nat, v: Values, s: State)
    returns (w: Values)
    requires bit < 64 && k + 9 <= |ops| && value < at == OffsetOf(ops, k)
    requires ops[k..k + 9] == SetFlagOps(bit, at, value)
    ensures Straight(env, ops, 0, k, v, s)
         == Straight(env, ops, 0, k + 9, w, s.(rflags := FlagSet(s.rflags, bit, Value(v, value))))
    ensures OffsetOf(ops, k + 9) == at + 116
    ensures forall x: nat :: x < at ==> Value(w, x) == Value(v, x)
  {
    hide OffsetOf, Straight, And, Or, AndNot, Shl, Value, SetFlagOps;
    FlagUpdateOperations(ops, k, bit, at, value);
    var v4 := FlagOperands(env, ops, k, at, bit, v, s);
    var u, mask := Value(v, value), Shl(1, bit);
    var v5 := AfterBinary(env, ops, k + 4, at + 56, v4, s, OpAnd, value, at + 8, u, 1);
    var v6 := AfterBinary(env, ops, k + 5, at + 68, v5, s, OpShl, at + 56, at + 40, And(u, 1), bit);
    var v7 := AfterBinary(env, ops, k + 6, at + 80, v6, s, OpNand, at, at + 24, s.rflags, mask);
    w := AfterBinary(
      env, ops, k + 7, at + 92, v7, s, OpOr, at + 68, at + 80, Shl(And(u, 1), bit), AndNot(s.rflags, mask));
    AfterStore(env, ops, k + 8, w, s, RFLAGS_OFFSET, at + 92);
  }

  /** The six operations of `SetCF`. */
  lemma SetCFEffect(env: Environment, ops: seq<Op>, k: nat, at: nat, value: nat, v: Values, s: State)
    returns (w: Values)
    requires k + 6 <= |ops| && value < at == OffsetOf(ops, k)
    requires ops[k..k + 6] == SetCFOps(at, value)
    ensures Straight(env, ops, 0, k, v, s)
         == Straight(env, ops, 0, k + 6, w, s.(rflags := FlagSet(s.rflags, 0, Value(v, value))))
  {
    hide OffsetOf, Straight, And, Or, AndNot, Shl, Value;
    var block := ops[k..k + 6];
    assert ops[k] == block[0] && ops[k + 1] == block[1] && ops[k + 2] == block[2] && ops[k + 3] == block[3]
        && ops[k + 4] == block[4] && ops[k + 5] == block[5];
    var u := Value(v, value);
    ShlByZero(1);
    ShlByZero(And(u, 1));
    var v1 := AfterLoad(env, ops, k, at, v, s, RFLAGS_OFFSET);
    var v2 := AfterConstant(env, ops, k + 1, at + 8, v1, s, 1);
    var v3 := AfterBinary(env, ops, k + 2, at + 24, v2, s, OpAnd, value, at + 8, u, 1);
    var v4 := AfterBinary(env, ops, k + 3, at + 36, v3, s, OpNand, at, at + 8, s.rflags, 1);
    w := AfterBinary(env, ops, k + 4, at + 48, v4, s, OpOr, at + 24, at + 36, And(u, 1), AndNot(s.rflags, 1));
    AfterStore(env, ops, k + 5, w, s, RFLAGS_OFFSET, at + 48);
  }

  lemma ShlByZero(x: Word)
    ensures Shl(x, 0) == x
  {
  }

  /** The flag test of a conditional jump computes the flag, or, negating, the constant 1. */
  lemma GetFlagBitEffect(env: Environment, bit: nat, negate: bool, s: State)
    requires bit < 64
    ensures var r := Straight(env, GetFlagBitOps(bit, negate), 0, 0, map[], s);
            && r.Next? && r.state == s
            && Value(r.values, GetFlagBitResult(negate)) == if negate then 1 else Bit(s.rflags, bit)
  {
    hide OffsetOf, Straight, And, Shl, Shr, Bit, Xor, Value;
    var ops := GetFlagBitOps(bit, negate);
    Start(ops);
    NoValue(80);
    FlagGetIsBit(s.rflags, bit);
    var mask := Shl(1, bit);
    var v4 := FlagOperands(env, ops, 0, 0, bit, map[], s);
    var v5 := AfterBinary(env, ops, 4, 56, v4, s, OpAnd, 0, 24, s.rflags, mask);
    var v6 := AfterBinary(env, ops, 5, 68, v5, s, OpShr, 56, 40, And(s.rflags, mask), bit);
    if negate {
      XorOfZero();
      var v7 := AfterBinary(env, ops, 6, 80, v6, s, OpXor, 80, 8, 0, 1);
      AfterAll(env, ops, v7, s);
    } else {
      AfterAll(env, ops, v6, s);
    }
  }

  lemma NoValue(a: nat)
    ensures Value(map[], a) == 0
  {
  }

  lemma XorOfZero()
    ensures Xor(0, 1) == 1
  {
    assert Bitwise(XorGate, 0, 0) == 0;
  }

  /*** Conditional jumps ***/

  /** The displacement byte as a signed number. */
  function Signed8(b: byte): int { if b < 128 then b else b - 256 }

  /** A taken conditional jump goes to JITRIP + displacement + instruction size, modulo 2^64. */
  lemma JccTargetModulo(x: Site)
    requires x.size <= MAX_INSTRUCTION
    ensures JccTarget(x) == (x.jitRip + Signed8(x.Last(1)) + x.size) % M64
  {
  }

  /** `JccOp` of an emitted, non-negating condition exits on its flag, in the polarity of the backend. */
  lemma JccEffect(env: Environment, d: Dialect, i: Instruction, s: State)
    requires i.handler.JccOp? && !Emit(i.handler, i.site).failed
    ensures var c := i.handler.condition;
            var test := if IsNegated(c) then Bit(s.rflags, FlagBit(c)) == 1 else true;
            FragmentRun(env, d, FragmentOf(i), s) ==
              if test == d.exitWhenTrue then Exits(s, JccTarget(i.site)) else Falls(s)
  {
    hide Straight, GetFlagBitOps, JccTarget, Bit;
    var c := i.handler.condition;
    GetFlagBitEffect(env, FlagBit(c), !IsNegated(c), s);
  }

  /** `CMPOp` writes the zero flag complemented: 0 when the operands are equal. */
  lemma CMPEffect(env: Environment, d: Dialect, i: Instruction, s: State)
    requires i.handler == CMPOp && !Emit(i.handler, i.site).failed
    ensures var differ := s.gregs[i.site.Rm()] != s.gregs[i.site.Reg()];
            FragmentRun(env, d, FragmentOf(i), s)
              == Falls(s.(rflags := FlagSet(s.rflags, 6, if differ then 1 else 0)))
  {
    var x := i.site;
    CMPOpsEffect(env, x.Reg(), x.Rm(), s);
  }

  lemma CMPOpsEffect(env: Environment, src: nat, dest: nat, s: State)
    requires src < 16 && dest < 16
    ensures var ops := [ LoadReg(src), LoadReg(dest), Binary(OpSub, 8, 0),
                         Constant(TYPE_I64, 1), Constant(TYPE_I64, 0), Select(CompEq, [0, 8, 44, 28]) ]
                       + SetFlagOps(6, 84, 60);
            var r := Straight(env, ops, 0, 0, map[], s);
            r.Next? && r.state == s.(rflags := FlagSet(s.rflags, 6, if s.gregs[dest] != s.gregs[src] then 1 else 0))
  {
    hide OffsetOf, Straight, SetFlagOps, FlagSet, Sub, Value;
    var compare := [ LoadReg(src), LoadReg(dest), Binary(OpSub, 8, 0),
                     Constant(TYPE_I64, 1), Constant(TYPE_I64, 0), Select(CompEq, [0, 8, 44, 28]) ];
    var ops := compare + SetFlagOps(6, 84, 60);
    FlagOpsCount(6, 84, 60);
    assert ops[6..15] == SetFlagOps(6, 84, 60);
    Start(ops);
    var x, y := s.gregs[src], s.gregs[dest];
    var z := if x == y then 0 else 1;
    var v1 := AfterLoad(env, ops, 0, 0, map[], s, GregOffset(src));
    var v2 := AfterLoad(env, ops, 1, 8, v1, s, GregOffset(dest));
    var v3 := AfterBinary(env, ops, 2, 16, v2, s, OpSub, 8, 0, y, x);
    var v4 := AfterConstant(env, ops, 3, 28, v3, s, 1);
    var v5 := AfterConstant(env, ops, 4, 44, v4, s, 0);
    var v6 := AfterSelectEqual(env, ops, 5, 60, v5, s, [0, 8, 44, 28], z);
    var w := SetFlagEffect(env, ops, 6, 84, 6, 60, v6, s);
    AfterAll(env, ops, w, s.(rflags := FlagSet(s.rflags, 6, z)));
  }

  /**
    Compare and branch: CMP followed by JNE transfers to the jump's target
    exactly when the operands differ, in the polarity of the lowering; in the
    interpreter's polarity, exactly when they are equal. Otherwise the block
    continues behind the pair.
  */
  lemma CompareAndBranch(env: Environment, d: Dialect, b: Block, i: nat, s: State, fuel: nat)
    requires i + 1 < |b.items| && !d.linksBackward
    requires b.items[i].handler == CMPOp && !Emit(b.items[i].handler, b.items[i].site).failed
    requires b.items[i + 1].handler == JccOp(CC_NZ) && !Emit(b.items[i + 1].handler, b.items[i + 1].site).failed
    ensures var differ := s.gregs[b.items[i].site.Rm()] != s.gregs[b.items[i].site.Reg()];
            var s' := s.(rflags := FlagSet(s.rflags, 6, if differ then 1 else 0));
            var x := b.items[i + 1].site;
            BlockRun(env, d, b, i, s, fuel) ==
            if differ == d.exitWhenTrue then
              Done(s'.(rip := (x.jitRip + Signed8(x.Last(1)) + x.size) % M64))
            else BlockRun(env, d, b, i + 2, s', fuel)
  {
    hide FragmentRun, FragmentOf, FlagSet, BlockRun, Emit, LastAt, JccTarget, Bit;
    var differ := s.gregs[b.items[i].site.Rm()] != s.gregs[b.items[i].site.Reg()];
    var s' := s.(rflags := FlagSet(s.rflags, 6, if differ then 1 else 0));
    CMPEffect(env, d, b.items[i], s);
    JccEffect(env, d, b.items[i + 1], s');
    FlagSetBits(s.rflags, 6, if differ then 1 else 0, 6);
    JccTargetModulo(b.items[i + 1].site);
    BlockRunUnfolds(env, d, b, i, s, fuel);
    BlockRunUnfolds(env, d, b, i + 1, s', fuel);
  }
}
