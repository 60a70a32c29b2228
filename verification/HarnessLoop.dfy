/**
  The hand-built loop of the test harness: what its operations mean, and that
  the loop sums the words of an array.
*/
module HarnessLoop {
  import opened Words
  import opened Wrappers
  import opened IR
  import opened Machine
  import opened Arithmetic
  import opened Operators
  import opened IRList

  /** The two words of the context that `AllocateContext` provides. */
  datatype Context = Context(result: Word, index: Word)

  const RESULT: nat := 0
  const INDEX: nat := 8

  datatype Ended = Returned(value: Word) | Failed | OutOfJumps

  /**
    The meaning that the harness gives to operation `k` onwards, in a function
    called with one argument. `jumps` bounds the jumps taken.
  */
  function Execute(
      memory: Word -> byte, argument: Word, p: seq<Op>, k: nat, v: Values, c: Context, jumps: nat): Ended
    requires k <= |p|
    decreases jumps, |p| - k
  {
    if k == |p| then Failed
    else
      var at := OffsetOf(p, k);
      match p[k]
      case BeginFunction(_, _) => Execute(memory, argument, p, k + 1, v, c, jumps)
      case EndFunction => Execute(memory, argument, p, k + 1, v, c, jumps)
      case BeginBlock => Execute(memory, argument, p, k + 1, v, c, jumps)
      case EndBlock(_) => Execute(memory, argument, p, k + 1, v, c, jumps)
      case AllocateContext(_) => Execute(memory, argument, p, k + 1, v, c, jumps)
      case Return(a) => Returned(Value(v, a))
      case Jump(t) =>
        if jumps == 0 then OutOfJumps else Execute(memory, argument, p, IndexFrom(p, t, 0), v, c, jumps - 1)
      case CondJump(a, t, _) =>
        if Value(v, a) == 0 then Execute(memory, argument, p, k + 1, v, c, jumps)
        else if jumps == 0 then OutOfJumps
        else Execute(memory, argument, p, IndexFrom(p, t, 0), v, c, jumps - 1)
      case StoreContext(_, o, a) =>
        var w := Value(v, a);
        Execute(memory, argument, p, k + 1, v, if o == RESULT then c.(result := w) else c.(index := w), jumps)
      case op =>
        match Produced(memory, argument, op, v, c)
        case None => Failed
        case Some(w) => Execute(memory, argument, p, k + 1, v[at := w], c, jumps)
  }

  function Produced(memory: Word -> byte, argument: Word, op: Op, v: Values, c: Context): Option<Word> {
    match op
    case Constant(_, w) => Some(w)
    case LoadContext(_, o) => Some(if o == RESULT then c.result else c.index)
    case GetArgument(n) => if n == 0 then Some(argument) else None
    case Binary(kind, a, b) =>
      if (kind == OpAdd || kind == OpSub || kind == OpShl) && ShiftDefined(kind, Value(v, b)) then
        Some(Compute(kind, Value(v, a), Value(v, b)))
      else None
    case LoadMem(size, a, _) => if size == 4 || size == 8 then Some(LoadWord(memory, Value(v, a), size)) else None
    case _ => None
  }

  /** Up to the start of the loop body. */
  const HEADER: seq<Op> :=
    [ BeginFunction(1, true), BeginBlock, Constant(0, 0), AllocateContext(16), StoreContext(8, RESULT, 4),
      StoreContext(8, INDEX, 4), Jump(92), EndBlock(0), BeginBlock ]

  /** The part of the loop body that adds a word to the result. */
  const ADDING: seq<Op> :=
    [ LoadContext(8, INDEX), Constant(0, 3), GetArgument(0), Binary(OpShl, 93, 101), Binary(OpAdd, 125, 117),
      LoadMem(8, 137, NoIndex), LoadContext(8, RESULT), Binary(OpAdd, 149, 161), StoreContext(8, RESULT, 169) ]

  /** The loop's control, and the end. */
  function Control(count: Word): seq<Op> {
    [ Constant(0, 1), Binary(OpAdd, 93, 193), StoreContext(8, INDEX, 209), Constant(0, count), Binary(OpSub, 233, 209),
      CondJump(249, 92, 0), Jump(309), EndBlock(0), BeginBlock, LoadContext(8, RESULT), Return(310), EndBlock(0),
      EndFunction ]
  }

  /** The operations that `main` appends, for an array of `count` words instead of 10000. */
  function LoopProgram(count: Word): seq<Op> {
    HEADER + ADDING + Control(count)
  }

  const BODY: nat := 8
  const END: nat := 26

  /** Word `i` of the array. */
  function Element(memory: Word -> byte, words: Word, i: nat): Word {
    LoadWord(memory, (words + 8 * i) % M64, 8)
  }

  /** Byte `k` of word `i` lies 8 * i + k bytes behind the array's start. */
  lemma ElementByte(memory: Word -> byte, words: Word, i: nat, k: nat)
    requires k < 8
    ensures Element(memory, words, i) / Power256(k) % 256 == memory((words + 8 * i + k) % M64)
  {
    hide Load, Power256;
    var address := (words + 8 * i) % M64;
    LoadedByte(memory, address, 8, k);
    Remainder(address + k, M64, (words + 8 * i) / M64);
  }

  /** The sum of the first `n` words. */
  function Sum(memory: Word -> byte, words: Word, n: nat): nat {
    if n == 0 then 0 else Sum(memory, words, n - 1) + Element(memory, words, n - 1)
  }

  lemma ElementAddress(words: Word, i: Word)
    ensures Add(Shl(i, 3), words) == (words + 8 * i) % M64
  {
    ShlIsProduct(i, 3);
    assert Pow2(3) == 8;
    var q := (i * 8) / M64;
    assert i * 8 == q * M64 + Shl(i, 3);
    AddIsSum(Shl(i, 3), words);
    Remainder(Shl(i, 3) + words, M64, q);
  }

  lemma SumStep(memory: Word -> byte, words: Word, i: nat)
    ensures Add(Element(memory, words, i), Sum(memory, words, i) % M64) == Sum(memory, words, i + 1) % M64
  {
    hide Element;
    var e, s := Element(memory, words, i), Sum(memory, words, i);
    AddIsSum(e, s % M64);
    Remainder(e + s % M64, M64, s / M64);
  }

  lemma HeaderOperations(count: Word)
    ensures var p := LoopProgram(count);
            && |p| == 31 && p[0] == BeginFunction(1, true) && p[1] == BeginBlock && p[2] == Constant(0, 0)
            && p[3] == AllocateContext(16) && p[4] == StoreContext(8, RESULT, 4) && p[5] == StoreContext(8, INDEX, 4)
            && p[6] == Jump(92) && p[7] == EndBlock(0) && p[8] == BeginBlock
  {
    var p := LoopProgram(count);
    assert p[0] == HEADER[0] && p[1] == HEADER[1] && p[2] == HEADER[2] && p[3] == HEADER[3] && p[4] == HEADER[4]
        && p[5] == HEADER[5] && p[6] == HEADER[6] && p[7] == HEADER[7] && p[8] == HEADER[8];
  }

  lemma BodyOperations(count: Word)
    ensures var p := LoopProgram(count);
            && |p| == 31 && p[9] == LoadContext(8, INDEX) && p[10] == Constant(0, 3) && p[11] == GetArgument(0)
            && p[12] == Binary(OpShl, 93, 101) && p[13] == Binary(OpAdd, 125, 117) && p[14] == LoadMem(8, 137, NoIndex)
            && p[15] == LoadContext(8, RESULT) && p[16] == Binary(OpAdd, 149, 161)
            && p[17] == StoreContext(8, RESULT, 169)
  {
    hide Control;
    var p, q := LoopProgram(count), ADDING;
    ControlLength(count);
    assert p[9] == q[0] && p[10] == q[1] && p[11] == q[2] && p[12] == q[3] && p[13] == q[4] && p[14] == q[5]
        && p[15] == q[6] && p[16] == q[7] && p[17] == q[8];
  }

  lemma ControlLength(count: Word)
    ensures |Control(count)| == 13
  {
  }

  lemma TailOperations(count: Word)
    ensures var p := LoopProgram(count);
            && |p| == 31 && p[18] == Constant(0, 1) && p[19] == Binary(OpAdd, 93, 193)
            && p[20] == StoreContext(8, INDEX, 209) && p[21] == Constant(0, count) && p[22] == Binary(OpSub, 233, 209)
            && p[23] == CondJump(249, 92, 0) && p[24] == Jump(309) && p[25] == EndBlock(0) && p[26] == BeginBlock
            && p[27] == LoadContext(8, RESULT) && p[28] == Return(310)
  {
    var p, q := LoopProgram(count), Control(count);
    assert p[18] == q[0] && p[19] == q[1] && p[20] == q[2] && p[21] == q[3] && p[22] == q[4] && p[23] == q[5]
        && p[24] == q[6] && p[25] == q[7] && p[26] == q[8] && p[27] == q[9] && p[28] == q[10];
  }

  lemma HeaderOffsets(count: Word)
    ensures var p := LoopProgram(count);
            |p| == 31 && OffsetOf(p, 2) == 4 && OffsetOf(p, 8) == 92 && OffsetOf(p, 9) == 93
  {
    hide OffsetOf, LoopProgram;
    var p := LoopProgram(count);
    HeaderOperations(count);
    FirstAt(p);
    NextAt(p, 0); NextAt(p, 1); NextAt(p, 2); NextAt(p, 3); NextAt(p, 4); NextAt(p, 5); NextAt(p, 6); NextAt(p, 7);
    NextAt(p, 8);
  }

  lemma BodyOffsets(count: Word)
    ensures var p := LoopProgram(count);
            && |p| == 31 && OffsetOf(p, 9) == 93 && OffsetOf(p, 10) == 101 && OffsetOf(p, 11) == 117
            && OffsetOf(p, 12) == 125 && OffsetOf(p, 13) == 137 && OffsetOf(p, 14) == 149 && OffsetOf(p, 15) == 161
            && OffsetOf(p, 16) == 169 && OffsetOf(p, 18) == 193
  {
    hide OffsetOf, LoopProgram;
    var p := LoopProgram(count);
    HeaderOffsets(count);
    BodyOperations(count);
    NextAt(p, 9); NextAt(p, 10); NextAt(p, 11); NextAt(p, 12); NextAt(p, 13); NextAt(p, 14); NextAt(p, 15);
    NextAt(p, 16); NextAt(p, 17);
  }

  lemma TailOffsets(count: Word)
    ensures var p := LoopProgram(count);
            && |p| == 31 && OffsetOf(p, 18) == 193 && OffsetOf(p, 19) == 209 && OffsetOf(p, 21) == 233
            && OffsetOf(p, 22) == 249 && OffsetOf(p, 26) == 309 && OffsetOf(p, 27) == 310
  {
    hide OffsetOf, LoopProgram;
    var p := LoopProgram(count);
    BodyOffsets(count);
    TailOperations(count);
    NextAt(p, 18); NextAt(p, 19); NextAt(p, 20); NextAt(p, 21); NextAt(p, 22); NextAt(p, 23); NextAt(p, 24);
    NextAt(p, 25); NextAt(p, 26);
  }

  lemma FirstAt(p: seq<Op>)
    ensures OffsetOf(p, 0) == 0
  {
  }

  lemma NextAt(p: seq<Op>, k: nat)
    requires k < |p|
    ensures OffsetOf(p, k + 1) == OffsetOf(p, k) + SizeOf(p[k])
  {
    hide SizeOf;
  }

  /*** One operation at a time ***/

  /** Operation `k` produces a value. */
  lemma Produces(
      memory: Word -> byte, argument: Word, p: seq<Op>, k: nat, at: nat, v: Values, c: Context, jumps: nat, w: Word)
      returns (u: Values)
    requires k < |p| && OffsetOf(p, k) == at && Produced(memory, argument, p[k], v, c) == Some(w)
    ensures Execute(memory, argument, p, k, v, c, jumps) == Execute(memory, argument, p, k + 1, u, c, jumps)
    ensures Records(u, v, at, w)
  {
    hide OffsetOf, Compute, LoadWord, IndexFrom, ShiftDefined;
    u := v[at := w];
  }

  lemma Stores(
      memory: Word -> byte, argument: Word, p: seq<Op>, k: nat, v: Values, c: Context, jumps: nat)
    requires k < |p| && p[k].StoreContext?
    ensures Execute(memory, argument, p, k, v, c, jumps) ==
            Execute(memory, argument, p, k + 1, v,
                    if p[k].offset == RESULT then c.(result := Value(v, p[k].arg)) else c.(index := Value(v, p[k].arg)),
                    jumps)
  {
    hide OffsetOf, Produced, IndexFrom;
  }

  lemma Passes(
      memory: Word -> byte, argument: Word, p: seq<Op>, k: nat, v: Values, c: Context, jumps: nat)
    requires k < |p|
    requires p[k].BeginFunction? || p[k].BeginBlock? || p[k].AllocateContext?
    ensures Execute(memory, argument, p, k, v, c, jumps) == Execute(memory, argument, p, k + 1, v, c, jumps)
  {
    hide OffsetOf, Produced, IndexFrom;
  }

  lemma Jumps(
      memory: Word -> byte, argument: Word, p: seq<Op>, k: nat, landing: nat, v: Values, c: Context, jumps: nat)
    requires k < |p| && landing < |p| && jumps > 0
    requires p[k].Jump? || (p[k].CondJump? && Value(v, p[k].cond) != 0)
    requires p[k].target == OffsetOf(p, landing)
    ensures Execute(memory, argument, p, k, v, c, jumps) == Execute(memory, argument, p, landing, v, c, jumps - 1)
  {
    hide OffsetOf, Produced, IndexFrom;
    IndexOfOffset(p, landing, 0);
  }

  lemma FallsThrough(
      memory: Word -> byte, argument: Word, p: seq<Op>, k: nat, v: Values, c: Context, jumps: nat)
    requires k < |p| && p[k].CondJump? && Value(v, p[k].cond) == 0
    ensures Execute(memory, argument, p, k, v, c, jumps) == Execute(memory, argument, p, k + 1, v, c, jumps)
  {
    hide OffsetOf, Produced, IndexFrom;
  }

  lemma Returns(
      memory: Word -> byte, argument: Word, p: seq<Op>, k: nat, v: Values, c: Context, jumps: nat)
    requires k < |p| && p[k].Return?
    ensures Execute(memory, argument, p, k, v, c, jumps) == Returned(Value(v, p[k].arg))
  {
    hide OffsetOf, Produced, IndexFrom;
  }

  /*** The loop ***/

  /** The beginning of the body computes the address of the current word. */
  lemma BodyAddress(memory: Word -> byte, argument: Word, count: Word, v: Values, c: Context, jumps: nat)
    returns (u: Values)
    ensures var p := LoopProgram(count);
            && |p| == 31
            && Execute(memory, argument, p, BODY, v, c, jumps) == Execute(memory, argument, p, 14, u, c, jumps)
    ensures Value(u, 93) == c.index && Value(u, 137) == Add(Shl(c.index, 3), argument)
  {
    hide OffsetOf, LoopProgram, Execute, LoadWord, Value, Shl, Add;
    var p := LoopProgram(count);
    HeaderOperations(count);
    BodyOperations(count);
    BodyOffsets(count);
    var i := c.index;
    Passes(memory, argument, p, 8, v, c, jumps);
    var v1 := Produces(memory, argument, p, 9, 93, v, c, jumps, i);
    var v2 := Produces(memory, argument, p, 10, 101, v1, c, jumps, 3);
    var v3 := Produces(memory, argument, p, 11, 117, v2, c, jumps, argument);
    var v4 := Produces(memory, argument, p, 12, 125, v3, c, jumps, Shl(i, 3));
    u := Produces(memory, argument, p, 13, 137, v4, c, jumps, Add(Shl(i, 3), argument));
  }

  lemma AddsElement(memory: Word -> byte, argument: Word, count: Word, v: Values, c: Context, jumps: nat)
    returns (u: Values)
    requires Value(v, 137) == Add(Shl(c.index, 3), argument)
    ensures var p := LoopProgram(count);
            && |p| == 31
            && Execute(memory, argument, p, 14, v, c, jumps)
            == Execute(
                 memory, argument, p, 18, u, c.(result := Add(Element(memory, argument, c.index), c.result)), jumps)
    ensures Value(u, 93) == Value(v, 93)
  {
    hide OffsetOf, LoopProgram, Execute, LoadWord, Value, Shl, Add;
    var p := LoopProgram(count);
    var element := Element(memory, argument, c.index);
    ElementAddress(argument, c.index);
    BodyOperations(count);
    BodyOffsets(count);
    var v6 := Produces(memory, argument, p, 14, 149, v, c, jumps, element);
    var v7 := Produces(memory, argument, p, 15, 161, v6, c, jumps, c.result);
    u := Produces(memory, argument, p, 16, 169, v7, c, jumps, Add(element, c.result));
    Stores(memory, argument, p, 17, u, c, jumps);
  }

  /** The first half of the body adds the current word to the result. */
  lemma BodyAdds(memory: Word -> byte, argument: Word, count: Word, v: Values, c: Context, jumps: nat)
    returns (u: Values)
    ensures var p := LoopProgram(count);
            && |p| == 31
            && Execute(memory, argument, p, BODY, v, c, jumps)
            == Execute(
                 memory, argument, p, 18, u, c.(result := Add(Element(memory, argument, c.index), c.result)), jumps)
    ensures Value(u, 93) == c.index
  {
    hide LoopProgram, Execute, Value, Shl, Add;
    var v5 := BodyAddress(memory, argument, count, v, c, jumps);
    u := AddsElement(memory, argument, count, v5, c, jumps);
  }

  /** The second half advances the index and leaves the loop exactly when it reaches the count. */
  lemma BodyEnds(memory: Word -> byte, argument: Word, count: Word, v: Values, c: Context, jumps: nat)
    returns (u: Values)
    requires Value(v, 93) == c.index && jumps > 0
    ensures var p, c' := LoopProgram(count), c.(index := Add(c.index, 1));
            && |p| == 31
            && Execute(memory, argument, p, 18, v, c, jumps)
            == if Add(c.index, 1) == count then Returned(c.result)
               else Execute(memory, argument, p, BODY, u, c', jumps - 1)
  {
    hide OffsetOf, LoopProgram, Execute, Value;
    var p := LoopProgram(count);
    TailOperations(count);
    TailOffsets(count);
    HeaderOffsets(count);
    var next := Add(c.index, 1);
    var v1 := Produces(memory, argument, p, 18, 193, v, c, jumps, 1);
    var v2 := Produces(memory, argument, p, 19, 209, v1, c, jumps, next);
    Stores(memory, argument, p, 20, v2, c, jumps);
    var c' := c.(index := next);
    var v3 := Produces(memory, argument, p, 21, 233, v2, c', jumps, count);
    u := Produces(memory, argument, p, 22, 249, v3, c', jumps, Sub(count, next));
    if next == count {
      FallsThrough(memory, argument, p, 23, u, c', jumps);
      Jumps(memory, argument, p, 24, END, u, c', jumps);
      Passes(memory, argument, p, END, u, c', jumps - 1);
      var v4 := Produces(memory, argument, p, 27, 310, u, c', jumps - 1, c'.result);
      Returns(memory, argument, p, 28, v4, c', jumps - 1);
    } else {
      Jumps(memory, argument, p, 23, BODY, u, c', jumps);
    }
  }

  /** From pass `i` of the loop on: the invariant is that the result is the sum of the first `i` words. */
  lemma {:induction false} LoopFrom(memory: Word -> byte, argument: Word, count: Word, i: nat, v: Values, jumps: nat)
    requires i < count && jumps >= count - i
    ensures |LoopProgram(count)| == 31
    ensures Execute(memory, argument, LoopProgram(count), BODY, v, Context(Sum(memory, argument, i) % M64, i), jumps)
         == Returned(Sum(memory, argument, count) % M64)
    decreases count - i
  {
    hide LoopProgram, Execute, Element, Sum;
    var c := Context(Sum(memory, argument, i) % M64, i);
    var u := BodyAdds(memory, argument, count, v, c, jumps);
    var sum := Sum(memory, argument, i + 1) % M64;
    SumStep(memory, argument, i);
    var w := BodyEnds(memory, argument, count, u, c.(result := sum), jumps);
    if i + 1 < count {
      LoopFrom(memory, argument, count, i + 1, w, jumps - 1);
    }
  }

  /**
    Called on an array, the function returns the sum of its words modulo 2^64, for
    every positive count and whatever the context held before.
  */
  lemma LoopSums(memory: Word -> byte, argument: Word, count: Word, c: Context, jumps: nat)
    requires count > 0 && jumps > count
    ensures Execute(memory, argument, LoopProgram(count), 0, map[], c, jumps)
         == Returned(Sum(memory, argument, count) % M64)
  {
    hide OffsetOf, LoopProgram, Execute, Value, Sum;
    var p := LoopProgram(count);
    HeaderOperations(count);
    HeaderOffsets(count);
    Passes(memory, argument, p, 0, map[], c, jumps);
    Passes(memory, argument, p, 1, map[], c, jumps);
    var v := Produces(memory, argument, p, 2, 4, map[], c, jumps, 0);
    Passes(memory, argument, p, 3, v, c, jumps);
    Stores(memory, argument, p, 4, v, c, jumps);
    Stores(memory, argument, p, 5, v, c.(result := 0), jumps);
    Jumps(memory, argument, p, 6, BODY, v, Context(0, 0), jumps);
    EmptySum(memory, argument);
    LoopFrom(memory, argument, count, 0, v, jumps - 1);
  }

  lemma EmptySum(memory: Word -> byte, argument: Word)
    ensures Sum(memory, argument, 0) == 0
  {
  }

  /*** Building the program ***/

  /** Room for `n` more operations, and nothing lost so far. */
  ghost predicate Roomy(ir: IntrusiveIRList, n: nat)
    reads ir
  {
    ir.Valid() && ir.sound && ir.currentOffset + LARGEST_OP * n <= |ir.bytes| < M32 && LARGEST_OP <= |ir.bytes|
  }

  /**
    Appends an operation. Fields that the program leaves unassigned, like a jump's
    target at first, are 0 as in a new vector.
  */
  method Place(ir: IntrusiveIRList, op: Op, ghost n: nat) returns (p: Pointer)
    requires Roomy(ir, n + 1) && Encodable(op)
    modifies ir
    ensures Roomy(ir, n) && ir.ops == old(ir.ops) + [op] && p == Pointer(ir.storage, old(ir.currentOffset))
    ensures ir.currentOffset == old(ir.currentOffset) + SizeOf(op) && ir.storage == old(ir.storage)
  {
    hide Encodable, OffsetOf, Represents;
    OneOp(op);
    p := ir.Put(op);
  }

  lemma ConstantFits(flags: nat, w: Word)
    requires flags < 256
    ensures Encodable(Constant(flags, w)) && Encodable(AllocateContext(w)) && Encodable(EndBlock(w))
  {
    Widths();
    hide Power256;
  }

  lemma AccessFits(o: nat, a: nat)
    requires o < M32 && a < M32
    ensures Encodable(LoadContext(8, o)) && Encodable(StoreContext(8, o, a)) && Encodable(LoadMem(8, a, NoIndex))
  {
    Widths();
    hide Power256;
  }

  lemma CombinationFits(kind: BinaryKind, a: nat, b: nat)
    requires a < M32 && b < M32
    ensures Encodable(Binary(kind, a, b)) && Encodable(CondJump(a, b, 0)) && Encodable(Jump(a)) && Encodable(Return(a))
  {
    Widths();
    hide Power256;
  }

  lemma MarkFits()
    ensures Encodable(BeginBlock) && Encodable(EndFunction) && Encodable(BeginFunction(1, true))
    ensures Encodable(GetArgument(0))
  {
    Widths();
    hide Power256;
  }

  method PlaceConstant(ir: IntrusiveIRList, w: Word, ghost n: nat) returns (at: nat)
    requires Roomy(ir, n + 1)
    modifies ir
    ensures Roomy(ir, n) && ir.ops == old(ir.ops) + [Constant(0, w)] && at == old(ir.currentOffset)
    ensures ir.currentOffset == old(ir.currentOffset) + 16 && ir.storage == old(ir.storage)
  {
    hide Encodable, Roomy;
    ConstantFits(0, w);
    var p := Place(ir, Constant(0, w), n);
    at := p.offset;
  }

  method PlaceLoad(ir: IntrusiveIRList, o: nat, ghost n: nat) returns (at: nat)
    requires Roomy(ir, n + 1) && o < M32
    modifies ir
    ensures Roomy(ir, n) && ir.ops == old(ir.ops) + [LoadContext(8, o)] && at == old(ir.currentOffset)
    ensures ir.currentOffset == old(ir.currentOffset) + 8 && ir.storage == old(ir.storage)
  {
    hide Encodable, Roomy;
    AccessFits(o, 0);
    var p := Place(ir, LoadContext(8, o), n);
    at := p.offset;
  }

  method PlaceStore(ir: IntrusiveIRList, o: nat, value: nat, ghost n: nat)
    requires Roomy(ir, n + 1) && o < M32 && value < M32
    modifies ir
    ensures Roomy(ir, n) && ir.ops == old(ir.ops) + [StoreContext(8, o, value)]
    ensures ir.currentOffset == old(ir.currentOffset) + 12 && ir.storage == old(ir.storage)
  {
    hide Encodable, Roomy;
    AccessFits(o, value);
    var _ := Place(ir, StoreContext(8, o, value), n);
  }

  method PlaceBinary(ir: IntrusiveIRList, kind: BinaryKind, a: nat, b: nat, ghost n: nat) returns (at: nat)
    requires Roomy(ir, n + 1) && a < M32 && b < M32
    modifies ir
    ensures Roomy(ir, n) && ir.ops == old(ir.ops) + [Binary(kind, a, b)] && at == old(ir.currentOffset)
    ensures ir.currentOffset == old(ir.currentOffset) + 12 && ir.storage == old(ir.storage)
  {
    hide Encodable, Roomy;
    CombinationFits(kind, a, b);
    var p := Place(ir, Binary(kind, a, b), n);
    at := p.offset;
  }

  method PlaceMark(ir: IntrusiveIRList, op: Op, ghost n: nat) returns (at: nat)
    requires Roomy(ir, n + 1) && (op == BeginBlock || op == EndBlock(0) || op == EndFunction)
    modifies ir
    ensures Roomy(ir, n) && ir.ops == old(ir.ops) + [op] && at == old(ir.currentOffset)
    ensures ir.currentOffset == old(ir.currentOffset) + SizeOf(op) && ir.storage == old(ir.storage)
  {
    hide Encodable, Roomy, SizeOf;
    MarkFits();
    ConstantFits(0, 0);
    var p := Place(ir, op, n);
    at := p.offset;
  }

  /** A forward jump, whose target is written later. */
  method PlaceJump(ir: IntrusiveIRList, ghost n: nat) returns (p: Pointer)
    requires Roomy(ir, n + 1)
    modifies ir
    ensures Roomy(ir, n) && ir.ops == old(ir.ops) + [Jump(0)] && p == Pointer(ir.storage, old(ir.currentOffset))
    ensures ir.currentOffset == old(ir.currentOffset) + 8 && ir.storage == old(ir.storage)
  {
    hide Encodable, Roomy;
    CombinationFits(OpAdd, 0, 0);
    p := Place(ir, Jump(0), n);
  }

  method PatchJump(ir: IntrusiveIRList, p: Pointer, target: nat, ghost k: nat, ghost n: nat)
    requires Roomy(ir, n) && p.storage == ir.storage && target < M32
    requires k < |ir.ops| && ir.ops[k].Jump? && p.offset == OffsetOf(ir.ops, k)
    modifies ir
    ensures Roomy(ir, n) && ir.ops == old(ir.ops)[k := Jump(target)]
    ensures ir.currentOffset == old(ir.currentOffset) && ir.storage == old(ir.storage)
  {
    hide OffsetOf, Represents;
    ghost var before := ir.bytes;
    RepresentedAt(before, ir.currentOffset, ir.ops, k);
    NewHeader(before, p.offset);
    Widths();
    ir.Write(p, k, Field(4, 4, target));
    PatchedJump(before, ir.bytes, p.offset, target);
  }

  lemma PatchedJump(a: seq<byte>, b: seq<byte>, at: nat, target: nat)
    requires at + 8 <= |a| && a[at] == 9 && target < M32 && b == Written(a, at + 4, 4, target)
    ensures OpAt(b, at) == Some(Jump(target))
  {
    hide Read, Written;
    Widths();
    ReadWritten(a, at + 4, 4, target);
  }

  lemma RoomyLength(ir: IntrusiveIRList, n: nat)
    requires Roomy(ir, n)
    ensures Length(ir.ops) == ir.currentOffset
  {
    hide OffsetOf;
  }

  /** Up to the loop's first block; the header's jump is patched when that block begins. */
  method BuildHeader(ir: IntrusiveIRList) returns (body: nat)
    requires Roomy(ir, 31) && ir.ops == [] && ir.currentOffset == 0
    modifies ir
    ensures Roomy(ir, 22) && ir.ops == HEADER && ir.currentOffset == 93 && body == 92
  {
    hide Encodable, Roomy;
    MarkFits();
    ConstantFits(0, 16);
    var _ := Place(ir, BeginFunction(1, true), 30);
    var _ := PlaceMark(ir, BeginBlock, 29);
    var result := PlaceConstant(ir, 0, 28);
    var _ := Place(ir, AllocateContext(16), 27);
    PlaceStore(ir, RESULT, result, 26);
    PlaceStore(ir, INDEX, result, 25);
    var jump := PlaceJump(ir, 24);
    var _ := PlaceMark(ir, EndBlock(0), 23);
    body := PlaceMark(ir, BeginBlock, 22);
    assert ir.ops == HEADER[6 := Jump(0)];
    HeaderSoFar();
    PatchJump(ir, jump, body, 6, 22);
  }

  lemma HeaderSoFar()
    ensures OffsetOf(HEADER[6 := Jump(0)], 6) == 68
  {
    var p := HEADER[6 := Jump(0)];
    hide OffsetOf;
    FirstAt(p);
    NextAt(p, 0); NextAt(p, 1); NextAt(p, 2); NextAt(p, 3); NextAt(p, 4); NextAt(p, 5);
  }

  /** Adding the current word to the result. */
  method BuildAdding(ir: IntrusiveIRList) returns (index: nat)
    requires Roomy(ir, 22) && ir.currentOffset == 93
    modifies ir
    ensures Roomy(ir, 13) && ir.ops == old(ir.ops) + ADDING && ir.currentOffset == 193 && index == 93
  {
    hide Encodable, Roomy;
    MarkFits();
    index := PlaceLoad(ir, INDEX, 21);
    var scale := PlaceConstant(ir, 3, 20);
    var argument := Place(ir, GetArgument(0), 19);
    var scaled := PlaceBinary(ir, OpShl, index, scale, 18);
    var address := PlaceBinary(ir, OpAdd, scaled, argument.offset, 17);
    AccessFits(0, address);
    var element := Place(ir, LoadMem(8, address, NoIndex), 16);
    var result := PlaceLoad(ir, RESULT, 15);
    var sum := PlaceBinary(ir, OpAdd, element.offset, result, 14);
    PlaceStore(ir, RESULT, sum, 13);
  }

  /** The loop's control and the end of the function. */
  method BuildControl(ir: IntrusiveIRList, count: Word, body: nat, index: nat)
    requires Roomy(ir, 13) && ir.currentOffset == 193 && body == 92 && index == 93
    modifies ir
    ensures Roomy(ir, 0) && ir.ops == old(ir.ops) + Control(count)
  {
    hide Encodable, Roomy;
    ghost var before := ir.ops;
    var jump := BuildBranch(ir, count, body, index);
    ghost var k := |before| + 6;
    var _ := PlaceMark(ir, EndBlock(0), 5);
    var end := PlaceMark(ir, BeginBlock, 4);
    RoomyLength(ir, 4);
    BranchInPlace(ir.ops, before + BranchOps(count));
    PatchJump(ir, jump, end, k, 4);
    assert ir.ops == before + BranchOps(count)[6 := Jump(end)] + [EndBlock(0), BeginBlock];
    var result := PlaceLoad(ir, RESULT, 3);
    CombinationFits(OpAdd, result, 0);
    var _ := Place(ir, Return(result), 2);
    var _ := PlaceMark(ir, EndBlock(0), 1);
    var _ := PlaceMark(ir, EndFunction, 0);
  }

  /** The control up to its jump out of the loop, whose target is still open. */
  function BranchOps(count: Word): seq<Op> {
    [ Constant(0, 1), Binary(OpAdd, 93, 193), StoreContext(8, INDEX, 209), Constant(0, count), Binary(OpSub, 233, 209),
      CondJump(249, 92, 0), Jump(0) ]
  }

  method BuildBranch(ir: IntrusiveIRList, count: Word, body: nat, index: nat) returns (jump: Pointer)
    requires Roomy(ir, 13) && ir.currentOffset == 193 && body == 92 && index == 93
    modifies ir
    ensures Roomy(ir, 6) && ir.ops == old(ir.ops) + BranchOps(count) && ir.currentOffset == 293
    ensures jump == Pointer(ir.storage, 285)
  {
    hide Encodable, Roomy;
    var one := PlaceConstant(ir, 1, 12);
    var next := PlaceBinary(ir, OpAdd, index, one, 11);
    PlaceStore(ir, INDEX, next, 10);
    var limit := PlaceConstant(ir, count, 9);
    var remaining := PlaceBinary(ir, OpSub, limit, next, 8);
    CombinationFits(OpAdd, remaining, body);
    var _ := Place(ir, CondJump(remaining, body, 0), 7);
    jump := PlaceJump(ir, 6);
  }

  lemma BranchInPlace(p: seq<Op>, front: seq<Op>)
    requires front != [] && front[|front| - 1] == Jump(0) && p == front + [EndBlock(0), BeginBlock] && Length(p) == 310
    ensures OffsetOf(p, |front| - 1) == 285
  {
    hide OffsetOf;
    var k := |front| - 1;
    assert p[k] == front[k] && p[k + 1] == EndBlock(0) && p[k + 2] == BeginBlock;
    NextAt(p, k); NextAt(p, k + 1); NextAt(p, k + 2);
  }

  /** The list that `main` builds is the program. */
  method BuildLoop(count: Word) returns (ir: IntrusiveIRList)
    ensures fresh(ir) && ir.Valid() && ir.sound && ir.ops == LoopProgram(count)
    ensures Walk(ir.bytes, 0, ir.currentOffset) == Some(LoopProgram(count))
  {
    hide LoopProgram, Represents;
    ir := new IntrusiveIRList(8 * 1024 * 1024);
    var body := BuildHeader(ir);
    var index := BuildAdding(ir);
    BuildControl(ir, count, body, index);
    WalkRecovers(ir.bytes, ir.currentOffset, ir.ops);
    ProgramParts(count);
  }

  lemma ProgramParts(count: Word)
    ensures LoopProgram(count) == HEADER + ADDING + Control(count)
  {
  }
}
