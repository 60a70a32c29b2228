/** The effect of the operations emitted for each register form, on registers, flags and instruction pointer. */
module Effects {
  import opened Words
  import opened IR
  import opened Machine
  import opened Handlers
  import opened HandlerShapes
  import opened Flags
  import opened Arithmetic

  /** A straight sequence that ends in the state `t`. */
  ghost predicate EndsIn(env: Environment, ops: seq<Op>, s: State, t: State) {
    var r := Straight(env, ops, 0, 0, map[], s);
    r.Next? && r.state == t
  }

  lemma AddWide(env: Environment, src: nat, dest: nat, s: State)
    requires src < 16 && dest < 16
    ensures EndsIn(env, [LoadReg(src)] + AddTail(8, 0, dest, 8), s,
              s.(gregs := s.gregs[dest := (s.gregs[dest] + s.gregs[src]) % M64]))
  {
    hide OffsetOf, Straight, Value;
    var ops := [LoadReg(src)] + AddTail(8, 0, dest, 8);
    var x, y := s.gregs[src], s.gregs[dest];
    Start(ops);
    AddIsSum(y, x);
    var v1 := AfterLoad(env, ops, 0, 0, map[], s, GregOffset(src));
    var v2 := AfterLoad(env, ops, 1, 8, v1, s, GregOffset(dest));
    var v3 := AfterBinary(env, ops, 2, 16, v2, s, OpAdd, 8, 0, y, x);
    AfterStore(env, ops, 3, v3, s, GregOffset(dest), 16);
    AfterAll(env, ops, v3, s.(gregs := s.gregs[dest := Add(y, x)]));
  }

  lemma AddNarrow(env: Environment, src: nat, dest: nat, s: State)
    requires src < 16 && dest < 16
    ensures EndsIn(env, [LoadReg(src)] + AddTail(8, 0, dest, 4), s,
              s.(gregs := s.gregs[dest := (s.gregs[dest] + s.gregs[src]) % M32]))
  {
    hide OffsetOf, Straight, Value, Truncate32;
    var ops := [LoadReg(src)] + AddTail(8, 0, dest, 4);
    var x, y := s.gregs[src], s.gregs[dest];
    Start(ops);
    NarrowAdd(y, x);
    var v1 := AfterLoad(env, ops, 0, 0, map[], s, GregOffset(src));
    var v2 := AfterLoad(env, ops, 1, 8, v1, s, GregOffset(dest));
    var v3 := AfterTrunc32(env, ops, 2, 16, v2, s, 8, y);
    var v4 := AfterTrunc32(env, ops, 3, 24, v3, s, 0, x);
    var v5 := AfterBinary(env, ops, 4, 32, v4, s, OpAdd, 16, 24, Truncate32(y), Truncate32(x));
    var sum := Add(Truncate32(y), Truncate32(x));
    var v6 := AfterTrunc32(env, ops, 5, 44, v5, s, 32, sum);
    AfterStore(env, ops, 6, v6, s, GregOffset(dest), 44);
    AfterAll(env, ops, v6, s.(gregs := s.gregs[dest := Truncate32(sum)]));
  }

  lemma XorWide(env: Environment, src: nat, dest: nat, s: State)
    requires src < 16 && dest < 16
    ensures EndsIn(env, [LoadReg(dest), LoadReg(src)] + [Binary(OpXor, 0, 8), StoreReg(dest, 16)], s,
              s.(gregs := s.gregs[dest := Xor(s.gregs[dest], s.gregs[src])]))
  {
    hide OffsetOf, Straight, Value, Xor;
    var ops := [LoadReg(dest), LoadReg(src)] + [Binary(OpXor, 0, 8), StoreReg(dest, 16)];
    var x, y := s.gregs[src], s.gregs[dest];
    Start(ops);
    var v1 := AfterLoad(env, ops, 0, 0, map[], s, GregOffset(dest));
    var v2 := AfterLoad(env, ops, 1, 8, v1, s, GregOffset(src));
    var v3 := AfterBinary(env, ops, 2, 16, v2, s, OpXor, 0, 8, y, x);
    AfterStore(env, ops, 3, v3, s, GregOffset(dest), 16);
    AfterAll(env, ops, v3, s.(gregs := s.gregs[dest := Xor(y, x)]));
  }

  lemma XorNarrow(env: Environment, src: nat, dest: nat, s: State)
    requires src < 16 && dest < 16
    ensures EndsIn(env, [LoadReg(dest), LoadReg(src)]
                        + [ TruncOp(4, 0), TruncOp(4, 8), Binary(OpXor, 16, 24), TruncOp(4, 32), StoreReg(dest, 44) ],
                   s, s.(gregs := s.gregs[dest := Xor(s.gregs[dest] % M32, s.gregs[src] % M32)]))
  {
    hide OffsetOf, Straight, Value, Xor;
    var ops := [LoadReg(dest), LoadReg(src)]
             + [ TruncOp(4, 0), TruncOp(4, 8), Binary(OpXor, 16, 24), TruncOp(4, 32), StoreReg(dest, 44) ];
    var x, y := s.gregs[src], s.gregs[dest];
    Start(ops);
    NarrowXor(y, x);
    var v1 := AfterLoad(env, ops, 0, 0, map[], s, GregOffset(dest));
    var v2 := AfterLoad(env, ops, 1, 8, v1, s, GregOffset(src));
    var v3 := AfterTrunc32(env, ops, 2, 16, v2, s, 0, y);
    var v4 := AfterTrunc32(env, ops, 3, 24, v3, s, 8, x);
    var v5 := AfterBinary(env, ops, 4, 32, v4, s, OpXor, 16, 24, Truncate32(y), Truncate32(x));
    var z := Xor(Truncate32(y), Truncate32(x));
    var v6 := AfterTrunc32(env, ops, 5, 44, v5, s, 32, z);
    AfterStore(env, ops, 6, v6, s, GregOffset(dest), 44);
    AfterAll(env, ops, v6, s.(gregs := s.gregs[dest := Truncate32(z)]));
  }

  lemma MovBoth(env: Environment, src: nat, dest: nat, s: State)
    requires src < 16 && dest < 16
    ensures EndsIn(env, [LoadReg(src), StoreReg(dest, 0)], s, s.(gregs := s.gregs[dest := s.gregs[src]]))
    ensures EndsIn(env, [LoadReg(src), Trunc32(0), StoreReg(dest, 8)], s,
              s.(gregs := s.gregs[dest := s.gregs[src] % M32]))
  {
    hide OffsetOf, Straight, Value;
    var wide, narrow := [LoadReg(src), StoreReg(dest, 0)], [LoadReg(src), Trunc32(0), StoreReg(dest, 8)];
    var x := s.gregs[src];
    Start(wide);
    var v1 := AfterLoad(env, wide, 0, 0, map[], s, GregOffset(src));
    AfterStore(env, wide, 1, v1, s, GregOffset(dest), 0);
    AfterAll(env, wide, v1, s.(gregs := s.gregs[dest := x]));
    Start(narrow);
    var w1 := AfterLoad(env, narrow, 0, 0, map[], s, GregOffset(src));
    var w2 := AfterTrunc32(env, narrow, 1, 8, w1, s, 0, x);
    AfterStore(env, narrow, 2, w2, s, GregOffset(dest), 8);
    AfterAll(env, narrow, w2, s.(gregs := s.gregs[dest := Truncate32(x)]));
  }

  lemma ShlWide(env: Environment, dest: nat, amount: Word, s: State)
    requires dest < 16 && amount < 64
    ensures EndsIn(env, [LoadReg(dest), Constant(TYPE_I8, amount)] + [Binary(OpShl, 0, 8), StoreReg(dest, 24)], s,
              s.(gregs := s.gregs[dest := (s.gregs[dest] * Pow2(amount)) % M64]))
  {
    hide OffsetOf, Straight, Value, Shl, Pow2;
    var ops := [LoadReg(dest), Constant(TYPE_I8, amount)] + [Binary(OpShl, 0, 8), StoreReg(dest, 24)];
    var x := s.gregs[dest];
    Start(ops);
    ShlIsProduct(x, amount);
    var v1 := AfterLoad(env, ops, 0, 0, map[], s, GregOffset(dest));
    var v2 := AfterConstant(env, ops, 1, 8, v1, s, amount);
    var v3 := AfterBinary(env, ops, 2, 24, v2, s, OpShl, 0, 8, x, amount);
    AfterStore(env, ops, 3, v3, s, GregOffset(dest), 24);
    AfterAll(env, ops, v3, s.(gregs := s.gregs[dest := Shl(x, amount)]));
  }

  lemma ShlNarrow(env: Environment, dest: nat, amount: Word, s: State)
    requires dest < 16 && amount < 32
    ensures EndsIn(env, [LoadReg(dest), Constant(TYPE_I8, amount)]
                        + [TruncOp(4, 0), Binary(OpShl, 24, 8), TruncOp(4, 32), StoreReg(dest, 44)], s,
              s.(gregs := s.gregs[dest := (s.gregs[dest] * Pow2(amount)) % M32]))
  {
    hide OffsetOf, Straight, Value, Shl, Pow2, Truncate32;
    var ops := [LoadReg(dest), Constant(TYPE_I8, amount)]
             + [TruncOp(4, 0), Binary(OpShl, 24, 8), TruncOp(4, 32), StoreReg(dest, 44)];
    var x := s.gregs[dest];
    Start(ops);
    NarrowShl(x, amount);
    var v1 := AfterLoad(env, ops, 0, 0, map[], s, GregOffset(dest));
    var v2 := AfterConstant(env, ops, 1, 8, v1, s, amount);
    var v3 := AfterTrunc32(env, ops, 2, 24, v2, s, 0, x);
    var v4 := AfterBinary(env, ops, 3, 32, v3, s, OpShl, 24, 8, Truncate32(x), amount);
    var v5 := AfterTrunc32(env, ops, 4, 44, v4, s, 32, Shl(Truncate32(x), amount));
    AfterStore(env, ops, 5, v5, s, GregOffset(dest), 44);
    AfterAll(env, ops, v5, s.(gregs := s.gregs[dest := Truncate32(Shl(Truncate32(x), amount))]));
  }

  lemma BitTestEffect(env: Environment, src: nat, dest: nat, s: State)
    requires src < 16 && dest < 16
    ensures EndsIn(env, [ LoadReg(dest), LoadReg(src), Constant(TYPE_I8, 31), Binary(OpAnd, 8, 16),
                          Binary(OpBitExtract, 0, 32) ] + SetCFOps(56, 44), s,
              s.(rflags := s.rflags - s.rflags % 2 + Bit(s.gregs[dest], s.gregs[src] % 32)))
  {
    hide OffsetOf, Straight, Value, And, Shr, Bit, SetCFOps, FlagSet;
    var ops := [ LoadReg(dest), LoadReg(src), Constant(TYPE_I8, 31), Binary(OpAnd, 8, 16), Binary(OpBitExtract, 0, 32) ]
             + SetCFOps(56, 44);
    var x, y := s.gregs[src], s.gregs[dest];
    CarryOpsCount();
    assert ops[5..11] == SetCFOps(56, 44);
    Start(ops);
    AndWithThirtyOne(x);
    ExtractedBit(y, x % 32);
    CarryIsLastDigit(s.rflags, Bit(y, x % 32));
    var v1 := AfterLoad(env, ops, 0, 0, map[], s, GregOffset(dest));
    var v2 := AfterLoad(env, ops, 1, 8, v1, s, GregOffset(src));
    var v3 := AfterConstant(env, ops, 2, 16, v2, s, 31);
    var v4 := AfterBinary(env, ops, 3, 32, v3, s, OpAnd, 8, 16, x, 31);
    var v5 := AfterBinary(env, ops, 4, 44, v4, s, OpBitExtract, 0, 32, y, x % 32);
    var w := SetCFEffect(env, ops, 5, 56, 44, v5, s);
    AfterAll(env, ops, w, s.(rflags := FlagSet(s.rflags, 0, Bit(y, x % 32))));
  }

  lemma CarryOpsCount()
    ensures |SetCFOps(56, 44)| == 6
  {
  }

  lemma LeaEffect(env: Environment, base: nat, dest: nat, displacement: Word, s: State)
    requires base < 16 && dest < 16
    ensures EndsIn(env, [LoadReg(base), Constant(TYPE_I64, displacement), Binary(OpAdd, 0, 8)] + [StoreReg(dest, 24)],
                   s, s.(gregs := s.gregs[dest := (s.gregs[base] + displacement) % M64]))
  {
    hide OffsetOf, Straight, Value;
    var ops := [LoadReg(base), Constant(TYPE_I64, displacement), Binary(OpAdd, 0, 8)] + [StoreReg(dest, 24)];
    var x := s.gregs[base];
    Start(ops);
    AddIsSum(x, displacement);
    var v1 := AfterLoad(env, ops, 0, 0, map[], s, GregOffset(base));
    var v2 := AfterConstant(env, ops, 1, 8, v1, s, displacement);
    var v3 := AfterBinary(env, ops, 2, 24, v2, s, OpAdd, 0, 8, x, displacement);
    AfterStore(env, ops, 3, v3, s, GregOffset(dest), 24);
    AfterAll(env, ops, v3, s.(gregs := s.gregs[dest := Add(x, displacement)]));
  }

  lemma JmpEffect(env: Environment, src: nat, s: State)
    requires src < 16
    ensures EndsIn(env, [LoadReg(src), StoreContext(8, RIP_OFFSET, 0)], s, s.(rip := s.gregs[src]))
  {
    hide OffsetOf, Straight, Value;
    var ops := [LoadReg(src), StoreContext(8, RIP_OFFSET, 0)];
    Start(ops);
    var v1 := AfterLoad(env, ops, 0, 0, map[], s, GregOffset(src));
    AfterStore(env, ops, 1, v1, s, RIP_OFFSET, 0);
    AfterAll(env, ops, v1, s.(rip := s.gregs[src]));
  }

  lemma RetEffect(env: Environment, s: State)
    ensures var rsp := s.gregs[REG_RSP];
            EndsIn(env, RET_OPS, s,
              s.(rip := LoadWord(env.memory, rsp, 8), gregs := s.gregs[REG_RSP := (rsp + 8) % M64]))
  {
    hide OffsetOf, Straight, Value, LoadWord;
    var ops := RET_OPS;
    var rsp := s.gregs[REG_RSP];
    Start(ops);
    AddIsSum(rsp, 8);
    var v1 := AfterLoad(env, ops, 0, 0, map[], s, GregOffset(REG_RSP));
    var v2 := AfterConstant(env, ops, 1, 8, v1, s, 8);
    var v3 := AfterLoadMem(env, ops, 2, 24, v2, s, 8, 0);
    var v4 := AfterBinary(env, ops, 3, 36, v3, s, OpAdd, 0, 8, rsp, 8);
    AfterStore(env, ops, 4, v4, s, GregOffset(REG_RSP), 36);
    var t := s.(gregs := s.gregs[REG_RSP := Add(rsp, 8)]);
    AfterStore(env, ops, 5, v4, t, RIP_OFFSET, 24);
    AfterAll(env, ops, v4, t.(rip := LoadWord(env.memory, rsp, 8)));
  }
}
