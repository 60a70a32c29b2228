/**
  Translating again from an instruction inside a block yields the rest of that
  block: the same instructions, and the same stream moved by one constant.
*/
module SuffixClosure {
  import opened Words
  import opened Wrappers
  import opened IR
  import opened X86Tables
  import opened Decoder
  import opened Handlers
  import opened HandlerShapes
  import opened Translate

  /*** Instructions ***/

  /** Inspection depends on the block's start only through the test of `JccOp`. */
  lemma InspectionDependsOnGuard(memory: Memory, g: Guards, start: Word, other: Word, at: Word)
    requires g.jcc(start) == g.jcc(other)
    ensures Inspect(memory, g, start, at) == Inspect(memory, g, other, at)
  {
    hide Decode, CodeAt, Emit;
  }

  /** The loop of another block that stands at the same address continues alike. */
  lemma {:induction false} SameAddressSameRest(
      memory: Memory, g: Guards, start: Word, length: Word, count: nat, start': Word, length': Word, count': nat)
    requires count' <= count < MAX_SIZE
    requires Add(start, length) == Add(start', length') && g.jcc(start) == g.jcc(start')
    requires count + |Translating(memory, g, start, length, count).items| < MAX_SIZE
    ensures var r := Translating(memory, g, start, length, count);
            var r' := Translating(memory, g, start', length', count');
            && r'.items == r.items && r'.rejected == r.rejected && r'.unknown == r.unknown
            && r'.setsRip == r.setsRip && Add(start', r'.length) == Add(start, r.length)
    decreases MAX_SIZE - count
  {
    hide Inspect;
    InspectionDependsOnGuard(memory, g, start, start', Add(start, length));
    match Inspect(memory, g, start, Add(start, length))
    case Dispatched(item, failed, ends, sets) =>
      if !failed {
        var size := item.site.size;
        AddAssoc(start, length, size);
        AddAssoc(start', length', size);
        if !(ends || sets) {
          SameAddressSameRest(
            memory, g, start, Add(length, size), count + 1, start', Add(length', size), count' + 1);
        }
      }
    case _ =>
  }

  /** The bytes of the first `i` instructions. */
  function BytesBefore(items: seq<Instruction>, i: nat): Word
    requires i <= |items|
  {
    if i == 0 then 0 else Add(BytesBefore(items, i - 1), items[i - 1].site.size)
  }

  /** The loop's state when it reaches instruction `i`. */
  lemma {:induction false} LoopReaches(memory: Memory, g: Guards, start: Word, i: nat)
    requires i < |Translating(memory, g, start, 0, 0).items|
    ensures var items := Translating(memory, g, start, 0, 0).items;
            && i < MAX_SIZE
            && var r := Translating(memory, g, start, BytesBefore(items, i), i);
               var whole := Translating(memory, g, start, 0, 0);
               && r.items == items[i..]
               && r == whole.(items := items[i..])
  {
    hide Inspect;
    var whole := Translating(memory, g, start, 0, 0);
    if i == 0 {
      assert whole.items[0..] == whole.items;
    } else {
      LoopReaches(memory, g, start, i - 1);
      var r := Translating(memory, g, start, BytesBefore(whole.items, i - 1), i - 1);
      assert r.items[0] == whole.items[i - 1];
      assert r.items[1..] == whole.items[i..];
    }
  }

  /** What the loop knows about an accepted instruction. */
  lemma AcceptedInstruction(memory: Memory, g: Guards, start: Word, i: nat)
    requires i < |Translating(memory, g, start, 0, 0).items|
    ensures var r := Translating(memory, g, start, 0, 0);
            var item := r.items[i];
            && item.rip == Add(start, BytesBefore(r.items, i))
            && var look := Inspect(memory, g, start, item.rip);
               && look.Dispatched? && look.item == item && !look.failed
               && (i + 1 < |r.items| ==> !look.setsRip && !look.endsBlock)
               && (i + 1 == |r.items| ==> look.setsRip == r.setsRip && (look.setsRip ==> r.rejected == None))
  {
    hide Inspect;
    LoopReaches(memory, g, start, i);
    var r := Translating(memory, g, start, 0, 0);
    var at := Add(start, BytesBefore(r.items, i));
    InspectedItem(memory, g, start, at);
    var rest := Translating(memory, g, start, BytesBefore(r.items, i), i);
    assert rest.items == r.items[i..];
    assert rest.items[0] == r.items[i];
    if i + 1 == |r.items| && !Inspect(memory, g, start, at).setsRip {
      LastDoesNotSetRip(memory, g, start, BytesBefore(r.items, i), i);
    }
  }

  /** The loop that accepts nothing more. */
  lemma NothingMore(memory: Memory, g: Guards, start: Word, length: Word, count: nat)
    requires count < MAX_SIZE && Translating(memory, g, start, length, count).items == []
    ensures var r := Translating(memory, g, start, length, count);
            match Inspect(memory, g, start, Add(start, length))
            case NotDecoded => r.unknown && r.rejected == None
            case NotDispatched => !r.unknown && r.rejected == None
            case Dispatched(item, failed, _, _) => failed && !r.unknown && r.rejected == Some(item)
  {
    hide Inspect, Translating;
    TranslatingUnfolds(memory, g, start, length, count);
  }

  /** The last accepted instruction ended the loop, or the loop went on behind it and accepted nothing. */
  lemma BehindTheLast(memory: Memory, g: Guards, start: Word, n: nat)
    requires n > 0 && n == |Translating(memory, g, start, 0, 0).items| < MAX_SIZE
    ensures var r := Translating(memory, g, start, 0, 0);
            if EndsHere(Inspect(memory, g, start, r.items[n - 1].rip)) then r.rejected == None && !r.unknown
            else r == Translating(memory, g, start, BytesBefore(r.items, n), n).(items := r.items)
                 && Translating(memory, g, start, BytesBefore(r.items, n), n).items == []
  {
    hide Inspect, Translating;
    var r := Translating(memory, g, start, 0, 0);
    AcceptedInstruction(memory, g, start, n - 1);
    LoopReaches(memory, g, start, n - 1);
    var rest := Translating(memory, g, start, BytesBefore(r.items, n - 1), n - 1);
    assert rest.items == r.items[n - 1..] == [r.items[n - 1]];
    TranslatingUnfolds(memory, g, start, BytesBefore(r.items, n - 1), n - 1);
  }

  /**
    Why the loop ends where it does: its last instruction ends blocks, or the
    instruction behind it is unknown, or locked or without a handler, or rejected.
  */
  lemma LoopEndsBecause(memory: Memory, g: Guards, start: Word)
    requires |Translating(memory, g, start, 0, 0).items| < MAX_SIZE
    ensures var r := Translating(memory, g, start, 0, 0);
            var n := |r.items|;
            if n > 0 && EndsHere(Inspect(memory, g, start, r.items[n - 1].rip)) then r.rejected == None && !r.unknown
            else
              match Inspect(memory, g, start, Add(start, BytesBefore(r.items, n)))
              case NotDecoded => r.unknown && r.rejected == None
              case NotDispatched => !r.unknown && r.rejected == None
              case Dispatched(item, failed, _, _) => failed && !r.unknown && r.rejected == Some(item)
  {
    hide Inspect, Translating, EndsHere;
    var r := Translating(memory, g, start, 0, 0);
    var n := |r.items|;
    if n > 0 {
      BehindTheLast(memory, g, start, n);
    }
    if n == 0 || !EndsHere(Inspect(memory, g, start, r.items[n - 1].rip)) {
      NothingMore(memory, g, start, BytesBefore(r.items, n), n);
    }
  }

  predicate EndsHere(look: Inspection) {
    look.Dispatched? && (look.endsBlock || look.setsRip)
  }

  lemma InspectedItem(memory: Memory, g: Guards, start: Word, at: Word)
    ensures var look := Inspect(memory, g, start, at);
            look.Dispatched? ==>
              && look.item.rip == at && look.failed == Emit(look.item.handler, look.item.site).failed
              && look.item.handler != NoHandler
              && look.item.site.jitRip == at
  {
    hide Decode, CodeAt, Emit;
  }

  lemma LastDoesNotSetRip(memory: Memory, g: Guards, start: Word, length: Word, count: nat)
    requires count < MAX_SIZE
    requires var look := Inspect(memory, g, start, Add(start, length));
             look.Dispatched? && !look.failed && !look.setsRip
    requires |Translating(memory, g, start, length, count).items| == 1
    ensures !Translating(memory, g, start, length, count).setsRip
  {
    hide Inspect;
    var look := Inspect(memory, g, start, Add(start, length));
    if !look.endsBlock && count + 1 < MAX_SIZE {
      var r := Translating(memory, g, start, Add(length, look.item.site.size), count + 1);
      assert r.items == [];
    }
  }

  /** The instruction the loop ended on, when a handler rejected it. */
  lemma {:induction false} RejectedInstruction(memory: Memory, g: Guards, start: Word, length: Word, count: nat)
    requires count < MAX_SIZE
    ensures var r := Translating(memory, g, start, length, count).rejected;
            r.Some? ==>
              && r.value.handler != NoHandler
              && Emit(r.value.handler, r.value.site).failed
    decreases MAX_SIZE - count
  {
    hide Inspect;
    var at := Add(start, length);
    InspectedItem(memory, g, start, at);
    match Inspect(memory, g, start, at)
    case Dispatched(item, failed, ends, sets) =>
      if !failed && !(ends || sets || count + 1 >= MAX_SIZE) {
        RejectedInstruction(memory, g, start, Add(length, item.site.size), count + 1);
      }
    case _ =>
  }

  /**
    The block translated at the address of instruction `i` has the remaining
    instructions. Both blocks end at the same address, unless an instruction
    that sets the instruction pointer ended them; then both increments are 0.
    The instruction limit is the one way a block may end that does not depend
    on the address alone.
  */
  lemma TranslationOfSuffix(memory: Memory, g: Guards, start: Word, b: Block, i: nat)
    requires TranslationOf(memory, g, start) == Translated(b)
    requires i < |b.items| < MAX_SIZE
    requires g.jcc(start) == g.jcc(b.items[i].rip)
    ensures var t := TranslationOf(memory, g, b.items[i].rip);
            && t.Translated?
            && t.block.items == b.items[i..] && t.block.rejected == b.rejected
            && b.items[i].rip == Add(start, BytesBefore(b.items, i))
            && if Translating(memory, g, start, 0, 0).setsRip then b.increment == 0 == t.block.increment
               else Add(b.items[i].rip, t.block.increment) == Add(start, b.increment)
  {
    hide Inspect, Translating;
    LoopReaches(memory, g, start, i);
    AcceptedInstruction(memory, g, start, i);
    SameAddressSameRest(memory, g, start, BytesBefore(b.items, i), i, b.items[i].rip, 0, 0);
  }

  /** With the program's own address tests the suffix of a block need not be its translation. */
  lemma GuardsBreakSuffix(memory: Memory, at: Word)
    requires at != 0x402350
    requires var look := Inspect(memory, SOURCE_GUARDS, 0x402350, at);
             look.Dispatched? && !look.failed && look.item.handler.JccOp?
    ensures TranslationOf(memory, SOURCE_GUARDS, at) == NothingTranslated
  {
    hide Decode, CodeAt, JccTarget;
    assert Inspect(memory, SOURCE_GUARDS, at, at).failed;
    assert Add(at, 0) == at;
  }

  /*** Streams ***/

  lemma ShiftTwice(ops: seq<Op>, d: nat, e: nat)
    ensures Shift(Shift(ops, d), e) == Shift(ops, d + e)
  {
    forall i | 0 <= i < |ops|
      ensures ShiftOp(ShiftOp(ops[i], d), e) == ShiftOp(ops[i], d + e)
    {
      ShiftOpTwice(ops[i], d, e);
    }
  }

  lemma ShiftOpTwice(op: Op, d: nat, e: nat)
    ensures ShiftOp(ShiftOp(op, d), e) == ShiftOp(op, d + e)
  {
    match op
    case Syscall(args) =>
      assert ShiftOp(ShiftOp(op, d), e).arguments == ShiftOp(op, d + e).arguments;
    case Select(_, args) =>
      assert ShiftOp(ShiftOp(op, d), e).args == ShiftOp(op, d + e).args;
    case _ =>
  }

  lemma ShiftConcatenation(a: seq<Op>, b: seq<Op>, d: nat)
    ensures Shift(a + b, d) == Shift(a, d) + Shift(b, d)
  {
    hide ShiftOp;
  }

  /** One more instruction on both sides. */
  lemma AppendMoves(p: seq<Op>, q: seq<Op>, k: nat, d: nat, i: Instruction)
    requires k <= |p| && |q| >= 1 && p[k..] == Shift(q[1..], d) && Length(p) == Length(q) + d
    ensures var p', q' := Append(p, i), Append(q, i);
            p'[k..] == Shift(q'[1..], d) && Length(p') == Length(q') + d
  {
    hide Append, Appended, Shift, OffsetOf;
    var tp, tq := Appended(Length(p), i), Appended(Length(q), i);
    AppendedMoves(Length(q), d, i);
    AppendIsConcatenation(p, i);
    AppendIsConcatenation(q, i);
    ShiftConcatenation(q[1..], tq, d);
    assert (q + tq)[1..] == q[1..] + tq;
    assert (p + tp)[k..] == p[k..] + tp;
    OffsetOfSuffix(p, tp, |tp|);
    OffsetOfSuffix(q, tq, |tq|);
    OffsetOfShift(tq, d, |tq|);
  }

  lemma AppendedMoves(at: nat, d: nat, i: Instruction)
    ensures Appended(at + d, i) == Shift(Appended(at, i), d)
  {
    hide Flatten, FragmentOf, Shift, OffsetOf;
    var ops := Flatten(FragmentOf(i));
    ShiftTwice(ops, at + 16, d);
    ShiftMarker(i.rip, d);
    ShiftConcatenation([RipMarker(i.rip)], Shift(ops, at + 16), d);
  }

  lemma ShiftMarker(rip: Word, d: nat)
    ensures Shift([RipMarker(rip)], d) == [RipMarker(rip)]
  {
  }

  /** The tail of a stream is the stream of the tail, moved by one constant. */
  lemma {:induction false} StreamOfSuffix(items: seq<Instruction>, i: nat, n: nat)
    requires i <= n <= |items|
    ensures var p, q := Stream(items[..n]), Stream(items[i..n]);
            var d := Length(Stream(items[..i])) - 1;
            && d >= 0 && |q| >= 1 && q[0] == BeginBlock
            && StartOf(items, i) <= |p|
            && p[StartOf(items, i)..] == Shift(q[1..], d) && Length(p) == Length(q) + d
    decreases n - i
  {
    hide Flatten, FragmentOf, Shift, OffsetOf;
    var d := Length(Stream(items[..i])) - 1;
    StreamLength(items[..i]);
    if n == i {
      assert items[i..n] == [];
      assert Stream([]) == [BeginBlock];
      OneOperation();
    } else {
      StreamOfSuffix(items, i, n - 1);
      assert items[..n][..n - 1] == items[..n - 1];
      assert items[i..n][..n - 1 - i] == items[i..n - 1];
      AppendMoves(Stream(items[..n - 1]), Stream(items[i..n - 1]), StartOf(items, i), d, items[n - 1]);
      assert Stream(items[..n]) == Append(Stream(items[..n - 1]), items[n - 1]);
      assert Stream(items[i..n]) == Append(Stream(items[i..n - 1]), items[n - 1]);
    }
  }

  lemma OneOperation()
    ensures Length([BeginBlock]) == 1
    ensures Shift([], 0) == []
  {
    assert OffsetOf([BeginBlock], 1) == OffsetOf([BeginBlock], 0) + 1;
  }

  lemma {:induction false} StreamLength(items: seq<Instruction>)
    ensures Length(Stream(items)) >= 1 && |Stream(items)| >= 1 && Stream(items)[0] == BeginBlock
  {
    hide Append, OffsetOf;
    if items == [] {
      OneOperation();
    } else {
      var n := |items| - 1;
      StreamLength(items[..n]);
      AppendGrows(Stream(items[..n]), items[n]);
    }
  }

  lemma AppendGrows(p: seq<Op>, i: Instruction)
    ensures p <= Append(p, i) && Length(p) <= Length(Append(p, i))
  {
    hide Append, Appended, OffsetOf;
    AppendIsConcatenation(p, i);
    var tail := Appended(Length(p), i);
    OffsetOfPrefix(p, tail, |p|);
    OffsetsIncrease(p + tail, |p|, |p + tail|);
  }

  lemma AppendPrefix(p: seq<Op>, i: Instruction)
    ensures p <= Append(p, i) && |Append(p, i)| > |p|
  {
    hide Flatten, FragmentOf, Shift, OffsetOf;
  }

  lemma AddCancels(x: Word, y: Word, z: Word)
    ensures Add(x, y) == Add(x, z) ==> y == z
  {
  }
}
