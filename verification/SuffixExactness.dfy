/**
  The test of `JccOp` looks at the address of the block and not of the
  instruction, so whether the rest of a block is its own translation depends on
  it. This file says exactly when.
*/
module SuffixExactness {
  import opened Words
  import opened Wrappers
  import opened IR
  import opened Machine
  import opened X86Tables
  import opened Decoder
  import opened Handlers
  import opened HandlerShapes
  import opened Translate
  import opened BlockMeaning
  import opened SuffixClosure

  /*** Conditional jumps need the guard ***/

  ghost predicate NoJumps(p: seq<Op>) {
    forall k :: 0 <= k < |p| ==> !p[k].CondJump? && !p[k].JumpTarget?
  }

  lemma PlainUnlessEnabled(h: Handler, x: Site)
    requires x.size <= MAX_INSTRUCTION && !x.jccEnabled
    ensures Emit(h, x).fragment.Plain?
  {
    hide AddFragment, AddImmFragment, AddImmModRMFragment, ShlImmFragment, XorFragment, MovFragment, BTFragment,
         JMPFragment, LEAFragment, CMPFragment, RET_OPS, SYSCALL_OPS, GetFlagBitOps, JccTarget;
    AlwaysPlain(x);
  }

  lemma AppendNoJumps(p: seq<Op>, i: Instruction)
    requires NoJumps(p) && FragmentOf(i).Plain?
    ensures NoJumps(Append(p, i))
  {
    hide Emit, Shift;
    FragmentsAreStraight(i.handler, i.site);
    var ops := Flatten(FragmentOf(i));
    var shifted := Shift(ops, Length(p) + 16);
    forall k | 0 <= k < |ops|
      ensures !shifted[k].CondJump? && !shifted[k].JumpTarget?
    {
      assert IsStraight(Body(FragmentOf(i))[k]);
    }
  }

  lemma {:induction false} StreamNoJumps(items: seq<Instruction>)
    requires forall i :: 0 <= i < |items| ==> FragmentOf(items[i]).Plain?
    ensures NoJumps(Stream(items))
  {
    hide Append, FragmentOf;
    if items != [] {
      var n := |items| - 1;
      StreamNoJumps(items[..n]);
      AppendNoJumps(Stream(items[..n]), items[n]);
    }
  }

  lemma InspectedGuard(memory: Memory, g: Guards, start: Word, at: Word)
    ensures var look := Inspect(memory, g, start, at);
            look.Dispatched? ==> look.item.site.jccEnabled == g.jcc(start)
  {
    hide Decode, CodeAt, Emit;
  }

  /** The instruction that ended the loop saw the same guard. */
  lemma {:induction false} RejectedGuard(memory: Memory, g: Guards, start: Word, length: Word, count: nat)
    requires count < MAX_SIZE
    ensures var r := Translating(memory, g, start, length, count).rejected;
            r.Some? ==> r.value.site.jccEnabled == g.jcc(start)
    decreases MAX_SIZE - count
  {
    hide Inspect, Translating;
    TranslatingUnfolds(memory, g, start, length, count);
    var at := Add(start, length);
    InspectedGuard(memory, g, start, at);
    match Inspect(memory, g, start, at)
    case Dispatched(item, failed, ends, sets) =>
      if !failed && !(ends || sets || count + 1 >= MAX_SIZE) {
        RejectedGuard(memory, g, start, Add(length, item.site.size), count + 1);
      }
    case _ =>
  }

  /** The stream of a block at an address that is not enabled has no jump and no jump target. */
  lemma DisabledHasNoJumps(memory: Memory, g: Guards, start: Word, b: Block)
    requires TranslationOf(memory, g, start) == Translated(b) && !g.jcc(start)
    ensures NoJumps(Assemble(b))
  {
    hide Inspect, Translating, Stream, Append, Emit;
    forall i | 0 <= i < |b.items|
      ensures FragmentOf(b.items[i]).Plain?
    {
      AcceptedInstruction(memory, g, start, i);
      InspectedGuard(memory, g, start, b.items[i].rip);
      PlainUnlessEnabled(b.items[i].handler, b.items[i].site);
    }
    StreamNoJumps(b.items);
    RejectedGuard(memory, g, start, 0, 0);
    if b.rejected.Some? {
      PlainUnlessEnabled(b.rejected.value.handler, b.rejected.value.site);
      AppendNoJumps(Stream(b.items), b.rejected.value);
    }
  }

  /*** The loop under two answers of the test ***/

  /** The instructions on which the answer decides. Of the accepted ones, those are all conditional jumps. */
  predicate TestsGuard(i: Instruction) {
    i.handler.JccOp? && IsSingleFlag(i.handler.condition) && !i.site.flags.sib
  }

  /** The same operations, whatever the handler was told about the guard. */
  predicate SameOperations(i: Instruction, j: Instruction) {
    i.rip == j.rip && FragmentOf(i) == FragmentOf(j)
  }

  lemma GuardDecides(h: Handler, x: Site, y: Site)
    requires y == x.(jccEnabled := y.jccEnabled) && x.size <= MAX_INSTRUCTION
    ensures var tests := h.JccOp? && IsSingleFlag(h.condition) && !x.flags.sib;
            if tests then Emit(h, x).failed == !x.jccEnabled && (!Emit(h, x).failed <==> Emit(h, x).fragment.Branch?)
            else Emit(h, y) == Emit(h, x) && (h.JccOp? ==> Emit(h, x).failed)
  {
    hide GetFlagBitOps, JccTarget, RegisterIndex, ModField, RegField, RmField, SignExtend8, SignExtend16, SignExtend32,
         AddTail, SetFlagOps, SetCFOps;
  }

  lemma TwoAnswers(memory: Memory, g: Guards, start: Word, other: Word, at: Word)
    ensures var look, look' := Inspect(memory, g, start, at), Inspect(memory, g, other, at);
            match look
            case Dispatched(item, failed, ends, sets) =>
              && look'.Dispatched? && look'.endsBlock == ends && look'.setsRip == sets
              && look'.item.rip == item.rip && look'.item.site.size == item.site.size
              && (TestsGuard(look'.item) <==> TestsGuard(item))
              && (if TestsGuard(item) then look'.failed == !g.jcc(other) && failed == !g.jcc(start)
                  else look'.failed == failed && SameOperations(item, look'.item))
              && (!failed ==> (TestsGuard(item) <==> item.handler.JccOp?))
              && (!failed && TestsGuard(item) ==> FragmentOf(item).Branch?)
            case _ => look' == look
  {
    hide Decode, CodeAt, Emit;
    var look, look' := Inspect(memory, g, start, at), Inspect(memory, g, other, at);
    if look.Dispatched? {
      GuardDecides(look.item.handler, look.item.site, look'.item.site);
      GuardDecides(look'.item.handler, look'.item.site, look.item.site);
    }
  }

  ghost predicate NoneTests(items: seq<Instruction>) {
    forall k :: 0 <= k < |items| ==> !TestsGuard(items[k])
  }

  ghost predicate AllSame(items: seq<Instruction>, items': seq<Instruction>) {
    && |items'| == |items|
    && forall k :: 0 <= k < |items| ==> SameOperations(items[k], items'[k])
  }

  /** The other block's loop goes on where this one was stopped by the test. */
  ghost predicate GoesOn(r: Rest, r': Rest) {
    && |r.items| < |r'.items| && TestsGuard(r'.items[|r.items|]) && FragmentOf(r'.items[|r.items|]).Branch?
  }

  /**
    Two loops at one address whose test answers differently: as long as no
    accepted instruction depends on it they continue alike.
  */
  lemma {:induction false} SameAddressOtherAnswer(
      memory: Memory, g: Guards, start: Word, length: Word, count: nat, start': Word, length': Word, count': nat)
    requires count' <= count < MAX_SIZE
    requires Add(start, length) == Add(start', length')
    requires count + |Translating(memory, g, start, length, count).items| < MAX_SIZE
    requires NoneTests(Translating(memory, g, start, length, count).items)
    ensures var r := Translating(memory, g, start, length, count);
            var r' := Translating(memory, g, start', length', count');
            if r.rejected.Some? && TestsGuard(r.rejected.value) then
              g.jcc(start') ==> GoesOn(r, r')
            else
              && AllSame(r.items, r'.items)
              && (r.rejected.Some? <==> r'.rejected.Some?)
              && (r.rejected.Some? ==> SameOperations(r.rejected.value, r'.rejected.value))
              && r'.unknown == r.unknown && r'.setsRip == r.setsRip && Add(start', r'.length) == Add(start, r.length)
    decreases MAX_SIZE - count
  {
    hide Inspect, Translating, TestsGuard, SameOperations, FragmentOf;
    var at := Add(start, length);
    TwoAnswers(memory, g, start, start', at);
    TwoAnswers(memory, g, start', start, at);
    TranslatingUnfolds(memory, g, start, length, count);
    TranslatingUnfolds(memory, g, start', length', count');
    match Inspect(memory, g, start, at)
    case Dispatched(item, failed, ends, sets) =>
      if !failed {
        var size := item.site.size;
        AddAssoc(start, length, size);
        AddAssoc(start', length', size);
        var r := Translating(memory, g, start, length, count);
        assert r.items[0] == item;
        if !(ends || sets || count + 1 >= MAX_SIZE) {
          var q := Translating(memory, g, start, Add(length, size), count + 1);
          assert r.items[1..] == q.items;
          assert NoneTests(q.items) by {
            forall k | 0 <= k < |q.items| ensures !TestsGuard(q.items[k]) { assert q.items[k] == r.items[k + 1]; }
          }
          SameAddressOtherAnswer(
            memory, g, start, Add(length, size), count + 1, start', Add(length', size), count' + 1);
          var r', q' := Translating(memory, g, start', length', count'),
                        Translating(memory, g, start', Add(length', size), count' + 1);
          assert r'.items[1..] == q'.items;
          if |q.items| < |q'.items| {
            assert r'.items[|r.items|] == q'.items[|q.items|];
          }
        }
      }
    case _ =>
  }

  /*** Streams ***/

  lemma {:induction false} SameStreams(items: seq<Instruction>, items': seq<Instruction>)
    requires AllSame(items, items')
    ensures Stream(items') == Stream(items)
  {
    hide Append, Appended, SameOperations;
    if items != [] {
      var n := |items| - 1;
      forall k | 0 <= k < n
        ensures SameOperations(items[..n][k], items'[..n][k])
      {
        assert SameOperations(items[k], items'[k]);
      }
      SameStreams(items[..n], items'[..n]);
      assert SameOperations(items[n], items'[n]);
      SameAppend(Stream(items[..n]), items[n], items'[n]);
    }
  }

  lemma SameAppend(p: seq<Op>, i: Instruction, j: Instruction)
    requires SameOperations(i, j)
    ensures Append(p, j) == Append(p, i)
  {
    hide FragmentOf, Shift, OffsetOf, Flatten;
  }

  /**
    The stream of `b'` is `BeginBlock`, the operations of `b` from instruction `i`
    on with every offset reduced by `d`, and its own `EndBlock`.
  */
  ghost predicate MovedBy(b: Block, i: nat, b': Block, d: nat)
    requires i < |b.items|
  {
    var p, q, k := Assemble(b), Assemble(b'), StartOf(b.items, i);
    && k < |p| && |q| >= 2 && q[0] == BeginBlock
    && p[k..|p| - 1] == Shift(q[1..|q| - 1], d)
    && p[|p| - 1] == EndBlock(b.increment) && q[|q| - 1] == EndBlock(b'.increment)
  }

  /** The same instructions, up to what their handlers were told, make the stream moved by one constant. */
  lemma SameRestMoves(b: Block, i: nat, b': Block) returns (d: nat)
    requires i < |b.items| && AllSame(b.items[i..], b'.items)
    requires b.rejected.Some? <==> b'.rejected.Some?
    requires b.rejected.Some? ==> SameOperations(b.rejected.value, b'.rejected.value)
    ensures MovedBy(b, i, b', d)
  {
    hide Flatten, FragmentOf, Shift, OffsetOf, Stream, Append, AllSame, SameOperations;
    StreamOfSuffix(b.items, i, |b.items|);
    StreamLength(b.items[..i]);
    d := Length(Stream(b.items[..i])) - 1;
    assert b.items[..|b.items|] == b.items;
    assert b.items[i..|b.items|] == b.items[i..];
    SameStreams(b.items[i..], b'.items);
    var p, q, k := Stream(b.items), Stream(b'.items), StartOf(b.items, i);
    if b.rejected.Some? {
      AppendMoves(p, q, k, d, b.rejected.value);
      AppendPrefix(p, b.rejected.value);
      AppendPrefix(q, b.rejected.value);
      SameAppend(q, b.rejected.value, b'.rejected.value);
    }
    InstructionInStream(b.items, i);
    var p', q' := BeforeEnd(b), BeforeEnd(b');
    StreamLength(b'.items);
    assert p'[k..] == Shift(q'[1..], d);
    assert Assemble(b)[k..|p'|] == p'[k..];
    assert Assemble(b')[1..|q'|] == q'[1..];
  }

  /*** The exact condition ***/

  /** Some instruction from number `i` on, or the rejected one, asks for the guard. */
  ghost predicate Asks(b: Block, i: nat)
    requires i <= |b.items|
  {
    !NoneTests(b.items[i..]) || (b.rejected.Some? && TestsGuard(b.rejected.value))
  }

  /** The block at the address of instruction `i` is the rest of `b`: its stream moved by one constant. */
  ghost predicate RestIsTranslation(memory: Memory, g: Guards, start: Word, b: Block, i: nat)
    requires i < |b.items|
  {
    match TranslationOf(memory, g, b.items[i].rip)
    case Translated(b') =>
      && (exists d :: MovedBy(b, i, b', d))
      && (if Translating(memory, g, start, 0, 0).setsRip then b.increment == 0 == b'.increment
          else Add(BytesBefore(b.items, i), b'.increment) == b.increment)
    case _ => false
  }

  lemma RestAlike(memory: Memory, g: Guards, start: Word, b: Block, i: nat)
    requires TranslationOf(memory, g, start) == Translated(b) && i < |b.items| < MAX_SIZE
    requires g.jcc(start) == g.jcc(b.items[i].rip) || !Asks(b, i)
    ensures var t := TranslationOf(memory, g, b.items[i].rip);
            && t.Translated? && AllSame(b.items[i..], t.block.items)
            && (b.rejected.Some? <==> t.block.rejected.Some?)
            && (b.rejected.Some? ==> SameOperations(b.rejected.value, t.block.rejected.value))
            && b.items[i].rip == Add(start, BytesBefore(b.items, i))
            && if Translating(memory, g, start, 0, 0).setsRip then b.increment == 0 == t.block.increment
               else Add(b.items[i].rip, t.block.increment) == Add(start, b.increment)
  {
    hide Inspect, Translating, TestsGuard, FragmentOf;
    AcceptedInstruction(memory, g, start, i);
    if g.jcc(start) == g.jcc(b.items[i].rip) {
      TranslationOfSuffix(memory, g, start, b, i);
    } else {
      LoopReaches(memory, g, start, i);
      SameAddressOtherAnswer(memory, g, start, BytesBefore(b.items, i), i, b.items[i].rip, 0, 0);
    }
  }

  lemma RestIsTranslationIf(memory: Memory, g: Guards, start: Word, b: Block, i: nat)
    requires TranslationOf(memory, g, start) == Translated(b) && i < |b.items| < MAX_SIZE
    requires g.jcc(start) == g.jcc(b.items[i].rip) || !Asks(b, i)
    ensures RestIsTranslation(memory, g, start, b, i)
  {
    hide Translating, TranslationOf, MovedBy, AllSame, SameOperations, Asks;
    RestAlike(memory, g, start, b, i);
    var b' := TranslationOf(memory, g, b.items[i].rip).block;
    var d := SameRestMoves(b, i, b');
    AddAssoc(start, BytesBefore(b.items, i), b'.increment);
    AddCancels(start, Add(BytesBefore(b.items, i), b'.increment), b.increment);
  }

  /** An accepted conditional jump puts its jump behind the first operation of its instruction. */
  lemma {:induction false} JumpInStream(items: seq<Instruction>, i: nat, l: nat) returns (m: nat)
    requires i <= l < |items| && FragmentOf(items[l]).Branch?
    ensures StartOf(items, i) < m < |Stream(items)| && Stream(items)[m].CondJump?
    decreases l - i
  {
    hide FragmentOf, Shift, OffsetOf, Stream;
    if i < l {
      m := JumpInStream(items, i + 1, l);
      InstructionInStream(items, i);
    } else {
      InstructionInStream(items, l);
      var ops, k := Flatten(FragmentOf(items[l])), StartOf(items, l);
      var n := |FragmentOf(items[l]).test|;
      m := k + 1 + n;
      assert ops[n].CondJump?;
      ShiftKeepsJump(ops, OffsetOf(Stream(items), k + 1), n);
      assert Stream(items)[m] == Stream(items)[k + 1..k + 1 + |ops|][n];
    }
  }

  lemma ShiftKeepsJump(ops: seq<Op>, d: nat, n: nat)
    requires n < |ops|
    ensures Shift(ops, d)[n].CondJump? <==> ops[n].CondJump?
  {
  }

  /** What an accepted or rejected instruction that asks for the guard was told. */
  lemma AskedAndTold(memory: Memory, g: Guards, start: Word, b: Block)
    requires TranslationOf(memory, g, start) == Translated(b)
    ensures forall l :: 0 <= l < |b.items| && TestsGuard(b.items[l]) ==>
                          g.jcc(start) && FragmentOf(b.items[l]).Branch?
    ensures b.rejected.Some? && TestsGuard(b.rejected.value) ==> !g.jcc(start)
  {
    hide Inspect, Translating, Emit;
    forall l | 0 <= l < |b.items| && TestsGuard(b.items[l])
      ensures g.jcc(start) && FragmentOf(b.items[l]).Branch?
    {
      var i := b.items[l];
      AcceptedInstruction(memory, g, start, l);
      InspectedGuard(memory, g, start, i.rip);
      InspectedItem(memory, g, start, i.rip);
      GuardDecides(i.handler, i.site, i.site);
    }
    if b.rejected.Some? {
      var i := b.rejected.value;
      RejectedInstruction(memory, g, start, 0, 0);
      RejectedGuard(memory, g, start, 0, 0);
      GuardDecides(i.handler, i.site, i.site);
    }
  }

  ghost predicate HasJump(p: seq<Op>, k: nat) {
    exists m :: k <= m < |p| && p[m].CondJump?
  }

  /** Moving a stream keeps its jumps. */
  lemma MovedHasJump(b: Block, i: nat, b': Block, d: nat)
    requires i < |b.items| && MovedBy(b, i, b', d)
    ensures HasJump(Assemble(b), StartOf(b.items, i)) <==> HasJump(Assemble(b'), 0)
  {
    hide Stream, Shift, Assemble, HasJump;
    SameJumps(Assemble(b), StartOf(b.items, i), Assemble(b'), d);
  }

  lemma SameJumps(p: seq<Op>, k: nat, q: seq<Op>, d: nat)
    requires k < |p| && |q| >= 2 && p[k..|p| - 1] == Shift(q[1..|q| - 1], d)
    requires !q[0].CondJump? && !q[|q| - 1].CondJump? && !p[|p| - 1].CondJump?
    ensures HasJump(p, k) <==> HasJump(q, 0)
  {
    hide Shift;
    var moved, inner := p[k..|p| - 1], q[1..|q| - 1];
    ShiftLength(inner, d);
    if HasJump(p, k) {
      var m :| k <= m < |p| && p[m].CondJump?;
      assert moved[m - k] == p[m];
      ShiftKeepsJump(inner, d, m - k);
      assert inner[m - k] == q[m - k + 1];
    }
    if HasJump(q, 0) {
      var m :| 0 <= m < |q| && q[m].CondJump?;
      assert inner[m - 1] == q[m];
      ShiftKeepsJump(inner, d, m - 1);
      assert moved[m - 1] == p[k + m - 1];
    }
  }

  lemma ShiftLength(ops: seq<Op>, d: nat)
    ensures |Shift(ops, d)| == |ops|
  {
  }

  /** When the answers differ and matter, one of the two streams has a conditional jump and the other none. */
  lemma OneHasAJump(memory: Memory, g: Guards, start: Word, b: Block, i: nat, b': Block)
    requires TranslationOf(memory, g, start) == Translated(b) && i < |b.items| < MAX_SIZE
    requires TranslationOf(memory, g, b.items[i].rip) == Translated(b')
    requires g.jcc(start) != g.jcc(b.items[i].rip) && Asks(b, i)
    ensures HasJump(Assemble(b), StartOf(b.items, i)) == g.jcc(start)
    ensures HasJump(Assemble(b'), 0) == !g.jcc(start)
  {
    hide Inspect, Translating, TestsGuard, FragmentOf, Stream, Shift, Append;
    AskedAndTold(memory, g, start, b);
    StreamInBlock(b);
    StreamInBlock(b');
    if g.jcc(start) {
      DisabledHasNoJumps(memory, g, b.items[i].rip, b');
      var l :| 0 <= l < |b.items[i..]| && TestsGuard(b.items[i..][l]);
      var m := JumpInStream(b.items, i, i + l);
      assert Assemble(b)[m].CondJump?;
    } else {
      DisabledHasNoJumps(memory, g, start, b);
      AcceptedInstruction(memory, g, start, i);
      LoopReaches(memory, g, start, i);
      SameAddressOtherAnswer(memory, g, start, BytesBefore(b.items, i), i, b.items[i].rip, 0, 0);
      var m := JumpInStream(b'.items, 0, |b.items| - i);
      assert Assemble(b')[m].CondJump?;
    }
  }

  /**
    Suffix closure of translation: the rest of a block from instruction `i` on is
    what translating at that instruction's address yields, exactly when the test
    of `JccOp` answers alike at both addresses or is not asked from there on.
  */
  lemma SuffixIsTranslationExactlyWhen(memory: Memory, g: Guards, start: Word, b: Block, i: nat)
    requires TranslationOf(memory, g, start) == Translated(b) && i < |b.items| < MAX_SIZE
    ensures RestIsTranslation(memory, g, start, b, i) <==> g.jcc(start) == g.jcc(b.items[i].rip) || !Asks(b, i)
  {
    hide Translating, TranslationOf, MovedBy, Asks, HasJump, Assemble, Stream;
    if g.jcc(start) == g.jcc(b.items[i].rip) || !Asks(b, i) {
      RestIsTranslationIf(memory, g, start, b, i);
    } else if TranslationOf(memory, g, b.items[i].rip).Translated? {
      var b' := TranslationOf(memory, g, b.items[i].rip).block;
      OneHasAJump(memory, g, start, b, i, b');
      forall d: nat | MovedBy(b, i, b', d)
        ensures false
      {
        MovedHasJump(b, i, b', d);
      }
    }
  }
}
