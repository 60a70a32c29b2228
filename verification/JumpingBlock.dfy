/**
  Two blocks with a conditional jump under the program's own address test. One
  goes back to its own start, where the linked loop refines entering the block
  again; the other goes back to its second instruction, where it does not.
*/
module JumpingBlock {
  import opened Words
  import opened Wrappers
  import opened IR
  import opened Machine
  import opened X86Tables
  import opened Decoder
  import opened DecoderRoundTrip
  import opened Handlers
  import opened HandlerShapes
  import opened Translate
  import opened BlockMeaning
  import opened SuffixClosure
  import opened SuffixExactness
  import opened LinkedLoops
  import opened Flags
  import opened StreamShape
  import opened Simulation
  import opened Compilable

  /*** JNE rel8 ***/

  lemma ShortJumpDecodes(code: Code)
    requires code[0] == 0x75
    ensures Decode(TABLES, code) == Decoded(Some(Inst(NONE, 1, JccOp(CC_NZ))), START.flags, 2)
  {
    hide Decode, SecondBaseOps, ModRMOps, ModField, RmField, RegField;
    var e := Encoding([], None, false, 0x75, None, None, [], [code[1]]);
    var rest := code[2..];
    assert Bytes(e) == [0x75, code[1]];
    assert code == Bytes(e) + rest;
    RecoversOne(TABLES, e, rest);
  }

  lemma SecondByte(memory: Memory, at: Word)
    ensures CodeAt(memory, at)[1] == memory(Add(at, 1))
  {
    assert WINDOW >= 2;
    assert Fetch(memory, at, WINDOW)[1..] == Fetch(memory, Add(at, 1), WINDOW - 1);
  }

  /** JNE wherever it lies: accepted where the block's own address is enabled. */
  lemma InspectedShortJump(memory: Memory, g: Guards, start: Word, at: Word)
    requires memory(at) == 0x75
    ensures var look := Inspect(memory, g, start, at);
            && look.Dispatched? && !look.endsBlock && !look.setsRip && look.failed == !g.jcc(start)
            && look.item.rip == at == look.item.site.jitRip && look.item.site.size == 2
            && look.item.handler == JccOp(CC_NZ) && TestsGuard(look.item)
            && look.item.site.Last(1) == memory(Add(at, 1))
  {
    hide Fetch, Decode, GetFlagBitOps, JccTarget;
    FirstByte(memory, at);
    SecondByte(memory, at);
    ShortJumpDecodes(CodeAt(memory, at));
  }

  /** One more accepted instruction that does not end the block. */
  lemma GoesOnWith(memory: Memory, g: Guards, start: Word, length: nat, count: nat, size: nat)
    requires count + 1 < MAX_SIZE && length + size < M64
    requires var look := Inspect(memory, g, start, Add(start, length));
             look.Dispatched? && !look.failed && !look.endsBlock && !look.setsRip && look.item.site.size == size
    ensures var r := Translating(memory, g, start, length + size, count + 1);
            Translating(memory, g, start, length, count)
              == r.(items := [Inspect(memory, g, start, Add(start, length)).item] + r.items)
  {
    hide Inspect, Translating;
    TranslatingUnfolds(memory, g, start, length, count);
  }

  /** RET ends the block. */
  lemma EndsWith(memory: Memory, g: Guards, start: Word, length: nat, count: nat)
    requires count < MAX_SIZE && length + 1 < M64
    requires var look := Inspect(memory, g, start, Add(start, length));
             look.Dispatched? && !look.failed && look.setsRip && look.item.site.size == 1
    ensures Translating(memory, g, start, length, count)
         == Rest([Inspect(memory, g, start, Add(start, length)).item], None, false, true, length + 1)
  {
    hide Inspect, Translating;
    TranslatingUnfolds(memory, g, start, length, count);
  }

  lemma BackTo(start: Word, at: Word)
    requires at < 16
    ensures Add(Add(Add(start, at), SignExtend8(0xFD)), 2) == Add(start, (at + M64 - 1) % M64)
    ensures Add(start, 0) == start && Add(Add(start, 1), 1) == Add(start, 2) && Add(Add(start, 1), 2) == Add(start, 3)
    ensures Add(Add(start, 2), 1) == Add(start, 3)
  {
  }

  /*** Back to the block's own start ***/

  /** NOP; JNE back to it; RET. */
  predicate LoopBytes(memory: Memory, start: Word) {
    && memory(start) == 0x90 && memory(Add(start, 1)) == 0x75 && memory(Add(start, 2)) == 0xFD
    && memory(Add(start, 3)) == 0xC3
  }

  lemma LoopItems(memory: Memory, g: Guards, start: Word) returns (b: Block)
    requires LoopBytes(memory, start) && g.jcc(start)
    ensures TranslationOf(memory, g, start) == Translated(b) && |b.items| == 3 && b.rejected == None
    ensures b.items[0].handler == NoOp && b.items[0].rip == start
    ensures b.items[1].handler == JccOp(CC_NZ) && JccTarget(b.items[1].site) == start
    ensures b.items[2].handler == RETOp
  {
    hide Inspect, Translating, Parse;
    PlainInstruction(memory, g, start, start);
    PlainInstruction(memory, g, start, Add(start, 3));
    InspectedShortJump(memory, g, start, Add(start, 1));
    InspectedItem(memory, g, start, start);
    BackTo(start, 1);
    GoesOnWith(memory, g, start, 0, 0, 1);
    GoesOnWith(memory, g, start, 1, 1, 2);
    EndsWith(memory, g, start, 3, 2);
    b := TranslationOf(memory, g, start).block;
  }

  lemma JumpAndPlain(i: Instruction)
    ensures i.handler == NoOp ==> FragmentOf(i).Plain? && Body(FragmentOf(i)) == []
    ensures i.handler == RETOp ==> FragmentOf(i).Plain?
    ensures i.handler == JccOp(CC_NZ) && !Emit(i.handler, i.site).failed ==>
              FragmentOf(i).Branch? && FragmentOf(i).ripTarget == JccTarget(i.site)
  {
    hide GetFlagBitOps, JccTarget;
  }

  /** The block links back, meets what the linked-loop results ask for, and compiles. */
  lemma LoopLinks(memory: Memory, g: Guards, start: Word) returns (b: Block)
    requires LoopBytes(memory, start) && g.jcc(start)
    ensures IsTranslation(memory, g, start, b) && LinkedTo(b, 0) && NoHalfWords(b)
  {
    hide TranslationOf, Emit, FragmentOf, JccTarget, GoodBlock;
    b := LoopItems(memory, g, start);
    TranslationsAreFromHandlers(memory, g, start, b);
    GoodExactlyWhen(b);
    JumpAndPlain(b.items[0]);
    JumpAndPlain(b.items[1]);
    JumpAndPlain(b.items[2]);
    assert JumpsBackTo(b, 1, 0);
  }

  /** In particular at the one address where the program enables conditional jumps. */
  lemma ProgramLoopLinks(memory: Memory) returns (b: Block)
    requires LoopBytes(memory, 0x402350)
    ensures IsTranslation(memory, SOURCE_GUARDS, 0x402350, b) && LinkedTo(b, 0) && NoHalfWords(b)
  {
    hide IsTranslation, LinkedTo, NoHalfWords, LoopBytes;
    b := LoopLinks(memory, SOURCE_GUARDS, 0x402350);
  }

  /*** Back to the second instruction ***/

  /** NOP; NOP; JNE back to the second; RET. */
  predicate InnerLoopBytes(memory: Memory, start: Word) {
    && memory(start) == 0x90 && memory(Add(start, 1)) == 0x90 && memory(Add(start, 2)) == 0x75
    && memory(Add(start, 3)) == 0xFD && memory(Add(start, 4)) == 0xC3
  }

  lemma InnerLoopItems(memory: Memory, g: Guards, start: Word) returns (b: Block)
    requires InnerLoopBytes(memory, start) && g.jcc(start)
    ensures TranslationOf(memory, g, start) == Translated(b) && |b.items| == 4 && b.rejected == None
    ensures b.items[0].handler == NoOp == b.items[1].handler
    ensures b.items[0].rip == start && b.items[1].rip == Add(start, 1) && b.items[2].rip == Add(start, 2)
    ensures b.items[2].handler == JccOp(CC_NZ) && JccTarget(b.items[2].site) == Add(start, 1)
    ensures b.items[3].handler == RETOp
  {
    hide Inspect, Translating, Parse;
    PlainInstruction(memory, g, start, start);
    PlainInstruction(memory, g, start, Add(start, 1));
    PlainInstruction(memory, g, start, Add(start, 4));
    InspectedShortJump(memory, g, start, Add(start, 2));
    InspectedItem(memory, g, start, start);
    InspectedItem(memory, g, start, Add(start, 1));
    BackTo(start, 2);
    GoesOnWith(memory, g, start, 0, 0, 1);
    GoesOnWith(memory, g, start, 1, 1, 1);
    GoesOnWith(memory, g, start, 2, 2, 2);
    EndsWith(memory, g, start, 4, 3);
    b := TranslationOf(memory, g, start).block;
  }

  /** Entered at the second instruction where that address is not enabled, the block is that instruction alone. */
  lemma InnerEntry(memory: Memory, g: Guards, start: Word) returns (b: Block)
    requires InnerLoopBytes(memory, start) && !g.jcc(Add(start, 1))
    ensures TranslationOf(memory, g, Add(start, 1)) == Translated(b)
    ensures |b.items| == 1 && b.items[0].handler == NoOp && b.items[0].site.size == 1
    ensures b.rejected.Some? && b.rejected.value.handler == JccOp(CC_NZ)
  {
    hide Inspect, Translating, Parse;
    var at := Add(start, 1);
    PlainInstruction(memory, g, at, at);
    InspectedShortJump(memory, g, at, Add(start, 2));
    BackTo(start, 2);
    BackTo(at, 2);
    GoesOnWith(memory, g, at, 0, 0, 1);
    TranslatingUnfolds(memory, g, at, 1, 1);
    b := TranslationOf(memory, g, at).block;
  }

  lemma InnerJump(memory: Memory, g: Guards, start: Word)
    requires InnerLoopBytes(memory, start) && !g.jcc(Add(start, 2))
    ensures TranslationOf(memory, g, Add(start, 2)) == NothingTranslated
  {
    hide Inspect, Translating;
    var at := Add(start, 2);
    InspectedShortJump(memory, g, at, at);
    BackTo(start, 2);
    BackTo(at, 2);
    TranslatingUnfolds(memory, g, at, 0, 0);
  }

  lemma NopFalls(env: Environment, d: Dialect, i: Instruction, s: State)
    requires i.handler == NoOp
    ensures FragmentRun(env, d, FragmentOf(i), s) == Falls(s)
  {
    JumpAndPlain(i);
  }

  lemma JumpExits(env: Environment, d: Dialect, i: Instruction, s: State)
    requires i.handler == JccOp(CC_NZ) && !Emit(i.handler, i.site).failed && Bit(s.rflags, 6) == 1 && d.exitWhenTrue
    ensures FragmentRun(env, d, FragmentOf(i), s) == Exits(s, JccTarget(i.site))
  {
    hide Emit, FragmentOf, FragmentRun, Bit;
    JccEffect(env, d, i, s);
  }

  /** The linked run goes round the inner loop for ever. */
  lemma {:induction false} InnerLoopSpins(env: Environment, b: Block, start: Word, i: nat, s: State, fuel: nat)
    requires |b.items| == 4 && i <= 2 && Bit(s.rflags, 6) == 1
    requires b.items[0].handler == NoOp == b.items[1].handler
    requires b.items[2].handler == JccOp(CC_NZ) && !Emit(b.items[2].handler, b.items[2].site).failed
    requires b.items[1].rip == Add(start, 1) == JccTarget(b.items[2].site) && b.items[2].rip == Add(start, 2)
    ensures BlockRun(env, LOWERED, b, i, s, fuel) == OutOfFuel
    decreases fuel, 2 - i
  {
    hide FragmentRun, FragmentOf, BlockRun, Emit, JccTarget, Bit, FinishBlock;
    BlockRunUnfolds(env, LOWERED, b, i, s, fuel);
    if i < 2 {
      NopFalls(env, LOWERED, b.items[i], s);
      InnerLoopSpins(env, b, start, i + 1, s, fuel);
    } else {
      JumpExits(env, LOWERED, b.items[2], s);
      assert LastAt(b.items, 3, Add(start, 1)) == 2;
      if fuel > 0 {
        InnerLoopSpins(env, b, start, 1, s, fuel - 1);
      }
    }
  }

  /** Entered block by block, it leaves the loop at the jump, which by itself is not translated. */
  lemma InnerLoopEntries(env: Environment, g: Guards, b: Block, s: State)
    requires InnerLoopBytes(env.memory, s.rip) && Bit(s.rflags, 6) == 1
    requires g.jcc(s.rip) && !g.jcc(Add(s.rip, 1)) && !g.jcc(Add(s.rip, 2))
    requires TranslationOf(env.memory, g, s.rip) == Translated(b) && GoodBlock(b) && FromHandlers(b)
    ensures var t, u := s.(rip := Add(s.rip, 1)), s.(rip := Add(s.rip, 2));
            Enter(env, g, s) == Done(t) && Enter(env, g, t) == Done(u) && Enter(env, g, u) == Stuck
  {
    hide TranslationOf, FragmentRun, FragmentOf, BlockRun, Emit, JccTarget, Bit, GoodFragment, Run, Assemble,
         LoadsHalfWord, InnerLoopBytes, FinishBlock;
    var start := s.rip;
    var _ := InnerLoopItems(env.memory, g, start);
    BackTo(start, 2);
    StreamMeansBlock(env, COMPLEMENTED, b, map[], s, 0);
    BlockRunUnfolds(env, COMPLEMENTED, b, 0, s, 0);
    BlockRunUnfolds(env, COMPLEMENTED, b, 1, s, 0);
    BlockRunUnfolds(env, COMPLEMENTED, b, 2, s, 0);
    NopFalls(env, COMPLEMENTED, b.items[0], s);
    NopFalls(env, COMPLEMENTED, b.items[1], s);
    JumpExits(env, COMPLEMENTED, b.items[2], s);
    InnerJump(env.memory, g, start);
    InnerEntryEnds(env, g, start, s.(rip := Add(start, 1)));
  }

  lemma InnerEntryEnds(env: Environment, g: Guards, start: Word, t: State)
    requires InnerLoopBytes(env.memory, start) && !g.jcc(Add(start, 1)) && t.rip == Add(start, 1)
    ensures Enter(env, g, t) == Done(t.(rip := Add(start, 2)))
  {
    hide TranslationOf, FragmentRun, FragmentOf, BlockRun, Emit, Run, Assemble, InnerLoopBytes, FinishBlock, GoodBlock,
         SelfReferential, BytesBefore;
    var b := InnerEntry(env.memory, g, start);
    TranslationsAreFromHandlers(env.memory, g, t.rip, b);
    assert NoSelfReference(b) by { NopDoesNotReferToItself(); }
    GoodExactlyWhen(b);
    StreamMeansBlock(env, COMPLEMENTED, b, map[], t, 0);
    BlockRunUnfolds(env, COMPLEMENTED, b, 0, t, 0);
    BlockRunUnfolds(env, COMPLEMENTED, b, 1, t, 0);
    NopFalls(env, COMPLEMENTED, b.items[0], t);
    RejectedEnd(env, g, t.rip, b, t);
    OneByte(b.items);
    BackTo(start, 2);
  }

  lemma NopDoesNotReferToItself()
    ensures !SelfReferential(NoOp)
  {
  }

  lemma OneByte(items: seq<Instruction>)
    requires |items| == 1 && items[0].site.size == 1
    ensures BytesBefore(items, 1) == 1
  {
  }

  /**
    Without equal answers at the address jumped to, the linked loop is not entering
    again: it spins for ever where the third entry finds nothing to translate.
  */
  lemma InnerLoopIsNotReentry(env: Environment, g: Guards, s: State, fuel: nat, n: nat) returns (b: Block)
    requires InnerLoopBytes(env.memory, s.rip) && Bit(s.rflags, 6) == 1
    requires g.jcc(s.rip) && !g.jcc(Add(s.rip, 1)) && !g.jcc(Add(s.rip, 2))
    ensures TranslationOf(env.memory, g, s.rip) == Translated(b) && |b.items| == 4 && GoodBlock(b)
    ensures Run(env, LOWERED, Assemble(b), 0, map[], s, fuel) == OutOfFuel
    ensures EnterMany(env, g, s, n + 3) == Stuck
  {
    hide TranslationOf, GoodBlock, Run, Assemble, BlockRun, Enter, EnterMany, Emit, FragmentOf, Bit, JccTarget,
         InnerLoopBytes;
    var start := s.rip;
    b := InnerLoopItems(env.memory, g, start);
    TranslationsAreFromHandlers(env.memory, g, start, b);
    GoodExactlyWhen(b);
    StreamMeansBlock(env, LOWERED, b, map[], s, fuel);
    InnerLoopSpins(env, b, start, 0, s, fuel);
    InnerLoopEntries(env, g, b, s);
    var t, u := s.(rip := Add(start, 1)), s.(rip := Add(start, 2));
    EntriesUnfold(env, g, s, n + 3);
    EntriesUnfold(env, g, t, n + 2);
    EntriesUnfold(env, g, u, n + 1);
  }
}
