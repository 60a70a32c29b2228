/**
  The run loop: block translation into the builder, the operation-list cache,
  the code cache, and the loop that looks up, compiles, runs and falls back.
*/
module Core {
  import opened Words
  import opened Wrappers
  import opened IR
  import opened Machine
  import opened X86Tables
  import opened Decoder
  import opened Handlers
  import opened Translate
  import opened Lowering
  import LoweringProofs
  import opened StreamShape
  import opened GraphShape
  import opened IRList
  import opened Builder
  import opened LLVMBackend
  import opened StaleLinks

  /*** The translation loop against the translation function ***/

  function Prefixed(items: seq<Instruction>, r: Rest): Rest {
    r.(items := items + r.items)
  }

  /** The stream after the instructions accepted so far and the one rejected, if any. */
  function StreamSoFar(items: seq<Instruction>, rejected: Option<Instruction>): seq<Op> {
    if rejected.Some? then Translate.Append(Stream(items), rejected.value) else Stream(items)
  }

  lemma StreamSoFarIsBeforeEnd(b: Block)
    ensures StreamSoFar(b.items, b.rejected) == BeforeEnd(b)
  {
  }

  /** One more instruction behind the stream of a block that starts at offset 0. */
  lemma StreamExtends(v0: View, v: View, w: View, p: seq<Op>, i: Instruction)
    requires v0.length == 0 && Extends(v0, v, p)
    requires Extends(v, w, [RipMarker(i.rip)] + Shift(Flatten(FragmentOf(i)), v.length + 16))
    ensures Extends(v0, w, Translate.Append(p, i))
  {
    hide Shift, OffsetOf, Flatten, FragmentOf, Translate.Append, Extends;
    var ops := Flatten(FragmentOf(i));
    var actual, intended := [RipMarker(i.rip)] + Shift(ops, v.length + 16), Appended(Length(p), i);
    ExtendsTwice(v0, v, w, p, actual);
    AppendIsConcatenation(p, i);
    AppendedLength(p, i, v.length);
    LengthWhenSound(v0, v, p);
    SoundBefore(v, w, actual);
    ReplaceTail(v0, w, p + actual, p + intended);
  }

  lemma AppendedLength(p: seq<Op>, i: Instruction, at: nat)
    ensures Length(p + ([RipMarker(i.rip)] + Shift(Flatten(FragmentOf(i)), at + 16)))
         == Length(p + Appended(Length(p), i))
  {
    hide Shift, OffsetOf, Flatten, FragmentOf;
    var ops := Flatten(FragmentOf(i));
    var a, b := Shift(ops, at + 16), Shift(ops, Length(p) + 16);
    LengthOfShift(ops, at + 16);
    LengthOfShift(ops, Length(p) + 16);
    OffsetOfSuffix([RipMarker(i.rip)], a, |a|);
    OffsetOfSuffix([RipMarker(i.rip)], b, |b|);
    OffsetOfSuffix(p, [RipMarker(i.rip)] + a, |a| + 1);
    OffsetOfSuffix(p, [RipMarker(i.rip)] + b, |b| + 1);
  }

  lemma LengthWhenSound(v0: View, v: View, p: seq<Op>)
    requires Extends(v0, v, p)
    ensures v.sound ==> v.length == v0.length + Length(p)
  {
  }

  lemma SoundBefore(v: View, w: View, p: seq<Op>)
    requires Extends(v, w, p)
    ensures w.sound ==> v.sound
  {
  }

  lemma ReplaceTail(a: View, b: View, x: seq<Op>, y: seq<Op>)
    requires Extends(a, b, x) && Length(x) == Length(y) && (b.sound ==> x == y)
    ensures Extends(a, b, y)
  {
  }

  lemma PrefixedNothing(r: Rest)
    ensures Prefixed([], r) == r
  {
  }

  /** One pass of the loop, seen from the start of the block. */
  lemma LoopStep(memory: Memory, g: Guards, start: Word, length: Word, count: nat, items: seq<Instruction>)
    requires count < MAX_SIZE
    ensures var whole := Prefixed(items, Translating(memory, g, start, length, count));
            match Inspect(memory, g, start, Add(start, length))
            case NotDecoded => whole == Rest(items, None, true, false, length)
            case NotDispatched => whole == Rest(items, None, false, false, length)
            case Dispatched(item, failed, endsBlock, setsRip) =>
              if failed then whole == Rest(items, Some(item), false, false, length)
              else
                var next := Add(length, item.site.size);
                whole ==
                if endsBlock || setsRip || count + 1 >= MAX_SIZE then Rest(items + [item], None, false, setsRip, next)
                else Prefixed(items + [item], Translating(memory, g, start, next, count + 1))
  {
    hide Inspect, Translating;
    TranslatingUnfolds(memory, g, start, length, count);
    match Inspect(memory, g, start, Add(start, length))
    case Dispatched(item, failed, endsBlock, setsRip) =>
      if !failed && !(endsBlock || setsRip || count + 1 >= MAX_SIZE) {
        var r := Translating(memory, g, start, Add(length, item.site.size), count + 1);
        assert items + ([item] + r.items) == (items + [item]) + r.items;
      }
    case _ =>
  }

  lemma StreamOfOneMore(items: seq<Instruction>, i: Instruction)
    ensures Stream(items + [i]) == Translate.Append(Stream(items), i)
  {
    hide Translate.Append;
    assert (items + [i])[..|items|] == items;
  }

  predicate IsInstruction(d: Decoded) {
    d.Decoded? && d.info.Some? && 0 < d.size <= MAX_INSTRUCTION
  }

  function ItemAt(g: Guards, rip: Word, at: Word, code: Code, d: Decoded): Instruction
    requires IsInstruction(d)
  {
    Item(at, d.info.value.handler, Site(code, d.flags, d.size, at, g.cmp(at), g.jcc(rip)))
  }

  /** What the loop of `CompileBlock` finds in one pass. */
  lemma InspectIs(memory: Memory, g: Guards, start: Word, at: Word, decoded: Decoded)
    requires decoded == Decode(TABLES, CodeAt(memory, at))
    ensures decoded.Decoded? ==> 0 < decoded.size <= MAX_INSTRUCTION
    ensures Inspect(memory, g, start, at) ==
            if decoded.Overrun? || decoded.info.None? then NotDecoded
            else if decoded.flags.lock || decoded.info.value.handler == NoHandler then NotDispatched
            else
              var item, flags := ItemAt(g, start, at, CodeAt(memory, at), decoded), decoded.info.value.flags;
              Dispatched(item, Emit(item.handler, item.site).failed, flags.blockEnd, flags.setsRip)
  {
    hide Decode, Fetch, Emit;
    SizeInRange(TABLES, CodeAt(memory, at), START);
    var code := CodeAt(memory, at);
    assert Decode(TABLES, code) == DecodeFrom(TABLES, code, START) by { DecodeIs(code); }
  }

  lemma DecodeIs(code: Code)
    ensures Decode(TABLES, code) == DecodeFrom(TABLES, code, START)
  {
    hide DecodeFrom;
  }

  lemma StreamStarts()
    ensures StreamSoFar([], None) == [BeginBlock]
  {
  }

  /** The operations of a fresh translation, if there is one. */
  function FreshStream(memory: Memory, g: Guards, rip: Word): Option<seq<Op>> {
    match TranslationOf(memory, g, rip)
    case Translated(b) => Some(Assemble(b))
    case _ => None
  }

  /** How long the builder's list gets while it translates at `rip`. */
  function StreamLength(memory: Memory, g: Guards, rip: Word): nat {
    var r := Translating(memory, g, rip, 0, 0);
    Length(StreamSoFar(r.items, r.rejected)) + 16
  }

  predicate Fits(memory: Memory, g: Guards, rip: Word, capacity: nat) {
    StreamLength(memory, g, rip) <= capacity && StreamLength(memory, g, rip) < M32
  }

  /** A finished block: the list holds the fresh stream, and nothing was lost if it fits. */
  lemma BlockComplete(
      memory: Memory, g: Guards, rip: Word, v0: View, v1: View, v2: View,
      items: seq<Instruction>, rejected: Option<Instruction>, setsRip: bool, length: Word)
    requires v0.length == 0 && (v0.sound ==> v0.ops == []) && items != []
    requires Translating(memory, g, rip, 0, 0) == Rest(items, rejected, false, setsRip, length)
    requires Extends(v0, v1, StreamSoFar(items, rejected))
    requires Extends(v1, v2, [EndBlock(if setsRip then 0 else length)])
    ensures v2.sound ==> v0.sound && FreshStream(memory, g, rip) == Some(v2.ops)
    ensures v0.sound && Fits(memory, g, rip, v0.capacity) ==> v2.sound && v2.capacity == v0.capacity
  {
    hide Translating, Extends, Stream, Translate.Append, OffsetOf;
    var b := Block(items, rejected, if setsRip then 0 else length);
    var end := [EndBlock(b.increment)];
    ExtendsTwice(v0, v1, v2, StreamSoFar(items, rejected), end);
    OneOp(end[0]);
    OffsetOfSuffix(StreamSoFar(items, rejected), end, 1);
    ExtendsMeans(v0, v2, StreamSoFar(items, rejected) + end);
    StreamSoFarIsBeforeEnd(b);
    assert TranslationOf(memory, g, rip) == Translated(b);
    assert v2.sound ==> v2.ops == BeforeEnd(b) + end;
  }

  /** An abandoned block: the list is reset, but what was lost stays lost. */
  lemma BlockAbandoned(
      memory: Memory, g: Guards, rip: Word, v0: View, v1: View, items: seq<Instruction>, rejected: Option<Instruction>)
    requires v0.length == 0
    requires Translating(memory, g, rip, 0, 0).items == items && Translating(memory, g, rip, 0, 0).rejected == rejected
    requires Extends(v0, v1, StreamSoFar(items, rejected))
    ensures v1.sound ==> v0.sound
    ensures v0.sound && Fits(memory, g, rip, v0.capacity) ==> v1.sound && v1.capacity == v0.capacity
  {
    hide Translating, Extends, Stream, Translate.Append, OffsetOf;
    ExtendsMeans(v0, v1, StreamSoFar(items, rejected));
  }

  lemma ExtendsMeans(a: View, b: View, more: seq<Op>)
    requires Extends(a, b, more)
    ensures b.sound ==> a.sound && b.ops == a.ops + more
    ensures a.sound && a.length + Length(more) <= a.capacity && a.length + Length(more) < M32 ==>
              b.sound && b.capacity == a.capacity
  {
  }

  datatype LoopResult = Unknown | Nothing | Accepted(setsRip: bool, length: Word)

  class Translator {
    const builder: OpDispatchBuilder

    /** `JITRIP`, which the handlers read. */
    var jitRip: Word

    constructor ()
      ensures builder.Valid() && fresh(builder) && fresh(builder.irList)
      ensures !builder.decodeFailure && builder.irList.sound && builder.irList.ops == []
      ensures builder.irList.currentOffset == 0 && |builder.irList.bytes| == INITIAL_SIZE
      ensures builder.ripLocations == map[]
    {
      builder := new OpDispatchBuilder();
      jitRip := 0;
    }

    /** Between compilations the builder is empty and has not failed. */
    ghost predicate Idle()
      reads builder, builder.irList
    {
      && builder.Valid() && !builder.decodeFailure && builder.ripLocations == map[]
      && builder.irList.currentOffset == 0 && (builder.irList.sound ==> builder.irList.ops == [])
    }

    /** A finished translation is copied out of the builder, which is then emptied. */
    method TranslateAndReset(memory: Memory, g: Guards, rip: Word) returns (r: LoopResult, list: IntrusiveIRList?)
      requires Idle()
      modifies this, builder, builder.irList
      ensures Idle() && (builder.irList.sound ==> old(builder.irList.sound))
      ensures old(builder.irList.sound) && Fits(memory, g, rip, old(|builder.irList.bytes|)) ==>
                builder.irList.sound && |builder.irList.bytes| == old(|builder.irList.bytes|)
      ensures var whole := Translating(memory, g, rip, 0, 0);
              && (r.Unknown? <==> whole.unknown) && (r.Nothing? <==> !whole.unknown && whole.items == [])
      ensures r.Accepted? ==>
                && list != null && fresh(list) && list.Valid() && list.sound == builder.irList.sound
                && (list.sound ==> FreshStream(memory, g, rip) == Some(list.ops))
    {
      hide Translating, Extends, Stream, TranslationOf, Assemble, StreamSoFar, OffsetOf, FreshStream, StreamLength;
      list := null;
      ghost var v0 := builder.irList.Seen();
      ghost var items, rejected;
      r, items, rejected := TranslateBlock(memory, g, rip);
      ghost var v1 := builder.irList.Seen();
      if r.Accepted? {
        builder.AppendControl(EndBlock(if r.setsRip then 0 else r.length));
        BlockComplete(memory, g, rip, v0, v1, builder.irList.Seen(), items, rejected, r.setsRip, r.length);
        builder.TraceOf();
        list := new IntrusiveIRList.Copy(builder.irList);
      } else {
        BlockAbandoned(memory, g, rip, v0, v1, items, rejected);
      }
      builder.ResetWorkingList();
    }

    /** Marker and handler for one decoded instruction, if it has a handler and is not locked. */
    method TryInstruction(
        g: Guards, rip: Word, code: Code, decoded: Decoded, ghost v0: View, ghost items: seq<Instruction>)
        returns (hadDispatchError: bool, ghost rejected: Option<Instruction>)
      requires builder.Valid() && !builder.decodeFailure && IsInstruction(decoded)
      requires v0.length == 0 && Extends(v0, builder.irList.Seen(), Stream(items))
      modifies builder, builder.irList
      ensures builder.Valid() && (rejected.None? ==> !builder.decodeFailure)
      ensures var item := ItemAt(g, rip, jitRip, code, decoded);
              var dispatched := !decoded.flags.lock && item.handler != NoHandler;
              && hadDispatchError == (!dispatched || Emit(item.handler, item.site).failed)
              && rejected == (if dispatched && hadDispatchError then Some(item) else None)
              && Extends(v0, builder.irList.Seen(),
                         if hadDispatchError then StreamSoFar(items, rejected) else Stream(items + [item]))
    {
      hide Extends, Emit, Stream, Translate.Append;
      hadDispatchError, rejected := false, None;
      var handler := decoded.info.value.handler;
      if decoded.flags.lock {
        hadDispatchError := true;
      } else if handler != NoHandler {
        var site := Site(code, decoded.flags, decoded.size, jitRip, g.cmp(jitRip), g.jcc(rip));
        ghost var item := ItemAt(g, rip, jitRip, code, decoded);
        ghost var v := builder.irList.Seen();
        builder.TranslateInstruction(jitRip, handler, site);
        StreamExtends(v0, v, builder.irList.Seen(), Stream(items), item);
        StreamOfOneMore(items, item);
        if builder.decodeFailure {
          hadDispatchError := true;
          rejected := Some(item);
        }
      } else {
        hadDispatchError := true;
      }
    }

    /** The loop of `CompileBlock`, which appends one instruction after another. */
    method TranslateBlock(memory: Memory, g: Guards, rip: Word)
      returns (r: LoopResult, ghost items: seq<Instruction>, ghost rejected: Option<Instruction>)
      requires builder.Valid() && !builder.decodeFailure && builder.irList.currentOffset == 0
      modifies this, builder, builder.irList
      ensures builder.Valid()
      ensures var whole := Translating(memory, g, rip, 0, 0);
              && whole.items == items && whole.rejected == rejected
              && match r
                 case Unknown => whole.unknown
                 case Nothing => !whole.unknown && items == []
                 case Accepted(setsRip, length) =>
                   items != [] && whole == Rest(items, rejected, false, setsRip, length)
      ensures Extends(old(builder.irList.Seen()), builder.irList.Seen(), StreamSoFar(items, rejected))
    {
      hide Translating, Inspect, Prefixed, Extends, Emit, Stream, Translate.Append, CodeAt, Decode, Add,
           OpDispatchBuilder.Valid;
      ghost var v0 := builder.irList.Seen();
      PrefixedNothing(Translating(memory, g, rip, 0, 0));
      items, rejected := [], None;
      builder.AppendControl(BeginBlock);
      StreamStarts();
      var length, count: nat, done, setsRip := 0, 0, false, false;
      while !done
        invariant builder.Valid() && (rejected.None? ==> !builder.decodeFailure)
        invariant Extends(v0, builder.irList.Seen(), StreamSoFar(items, rejected))
        invariant !done ==> count == |items| < MAX_SIZE && rejected.None? && !setsRip
        invariant !done ==>
                    Translating(memory, g, rip, 0, 0) == Prefixed(items, Translating(memory, g, rip, length, count))
        invariant done ==>
                    items != [] && Translating(memory, g, rip, 0, 0) == Rest(items, rejected, false, setsRip, length)
        decreases !done, MAX_SIZE - count
      {
        LoopStep(memory, g, rip, length, count, items);
        var at := Add(rip, length);
        var code := CodeAt(memory, at);
        var decoded := GetInstInfo(TABLES, code);
        InspectIs(memory, g, rip, at, decoded);
        if decoded.Overrun? || decoded.info.None? {
          return Unknown, items, rejected;
        }
        var info := decoded.info.value;
        jitRip := at;
        var hadDispatchError;
        hadDispatchError, rejected := TryInstruction(g, rip, code, decoded, v0, items);
        if !hadDispatchError {
          length := Add(length, decoded.size);
          count := count + 1;
          items := items + [ItemAt(g, rip, at, code, decoded)];
        }
        if hadDispatchError {
          if count == 0 {
            return Nothing, items, rejected;
          }
          done := true;
        }
        if info.flags.blockEnd {
          done := true;
        }
        if !hadDispatchError && info.flags.setsRip {
          done := true;
          setsRip := true;
        }
        if count >= MAX_SIZE {
          done := true;
        }
      }
      r := Accepted(setsRip, length);
    }
  }

  /*** The caches ***/

  class BlockCache {
    var blocks: map<Word, Graph>

    constructor ()
      ensures blocks == map[]
    {
      blocks := map[];
    }

    method FindBlock(address: Word) returns (found: Option<Graph>)
      ensures found == if address in blocks then Some(blocks[address]) else None
    {
      found := if address in blocks then Some(blocks[address]) else None;
    }

    /** An insertion that finds the key taken changes nothing, and the program asserts against it. */
    method AddBlockMapping(address: Word, code: Graph) returns (inserted: bool)
      modifies this
      ensures inserted == (address !in old(blocks))
      ensures blocks == if inserted then old(blocks)[address := code] else old(blocks)
    {
      inserted := address !in blocks;
      if inserted {
        blocks := blocks[address := code];
      }
    }
  }

  /** The code that a stored stream compiles to, on its own. */
  predicate IsCodeOf(code: Graph, p: seq<Op>, rip: Word) {
    !Compile(p, rip).aborted ==> code == Compile(p, rip).blocks
  }

  lemma TranslationIs(memory: Memory, g: Guards, rip: Word)
    ensures var r := Translating(memory, g, rip, 0, 0);
            && (TranslationOf(memory, g, rip).UnknownEncoding? <==> r.unknown)
            && (FreshStream(memory, g, rip).None? <==> r.unknown || r.items == [])
  {
    hide Translating, Assemble;
  }

  /** A fresh stream leaves no false path pending, whatever earlier compilations left behind. */
  lemma CompiledFresh(memory: Memory, g: Guards, stale: set<Word>, values: set<nat>, p: seq<Op>, rip: Word)
    requires FreshStream(memory, g, rip) == Some(p)
    ensures var L := LowerFrom(Targets(p, rip), stale, values, p, |p|);
            !L.aborted && !Compile(p, rip).aborted ==> L.blocks == Compile(p, rip).blocks && L.stack == []
  {
    hide LowerFrom, Targets, Compile, Assemble, TranslationOf, LoweringProofs.Shaped;
    if !Compile(p, rip).aborted {
      StaleLinksMatterExactlyWhen(stale, values, p, rip);
      StreamIsShaped(TranslationOf(memory, g, rip).block);
      GraphIsWellFormed(p, rip);
    }
  }

  datatype CompileResult = Cached(code: Graph) | NoBlock | Died

  class ThreadState {
    const translator: Translator
    const blockcache: BlockCache
    const backend: LLVM
    var irlists: map<Word, IntrusiveIRList>
    var cpuState: State
    var stopRunning: bool

    constructor (initial: State)
      ensures Valid() && Sound() && irlists == map[] && cpuState == initial && !stopRunning
      ensures fresh(translator) && fresh(translator.builder) && fresh(translator.builder.irList)
      ensures fresh(blockcache) && fresh(backend) && blockcache.blocks == map[]
      ensures backend.blockStack == [] && backend.blockJumpTargets == map[]
      ensures Capacity() == INITIAL_SIZE
    {
      translator := new Translator();
      blockcache := new BlockCache();
      backend := new LLVM();
      irlists := map[];
      cpuState := initial;
      stopRunning := false;
    }

    ghost function Capacity(): nat
      reads translator.builder.irList
    {
      |translator.builder.irList.bytes|
    }

    /** Every stored list is intact. */
    ghost predicate ListsIntact()
      reads this`irlists, irlists.Values
    {
      forall r :: r in irlists ==> irlists[r].Valid() && irlists[r] != translator.builder.irList
    }

    /** Between compilations; and only addresses with a stored list have code. */
    ghost predicate Valid()
      reads this`irlists, translator.builder, translator.builder.irList, blockcache, backend, irlists.Values
    {
      translator.Idle() && ListsIntact() && backend.Known() && blockcache.blocks.Keys <= irlists.Keys
    }

    /** Nothing the builder ever wrote was lost. */
    ghost predicate Sound()
      reads translator.builder.irList
    {
      translator.builder.irList.sound
    }

    /** Every stored list is the fresh translation at its key. */
    ghost predicate ListsFresh(memory: Memory, g: Guards)
      reads this`irlists, irlists.Values
    {
      forall r :: r in irlists ==> irlists[r].sound && FreshStream(memory, g, r) == Some(irlists[r].ops)
    }

    /** Both caches agree with a fresh translation at each of their keys. */
    ghost predicate Coherent(memory: Memory, g: Guards)
      reads this`irlists, irlists.Values, blockcache, backend
    {
      && ListsFresh(memory, g) && backend.blockStack == []
      && forall r :: r in blockcache.blocks ==>
           r in irlists && IsCodeOf(blockcache.blocks[r], irlists[r].ops, r)
    }

    lemma StoredList(memory: Memory, g: Guards, r: Word)
      requires r in irlists
      ensures ListsIntact() ==> irlists[r].Valid()
      ensures ListsFresh(memory, g) ==> irlists[r].sound && FreshStream(memory, g, r) == Some(irlists[r].ops)
    {
      hide FreshStream;
    }

    /** The part of `CompileBlock` for an address without a stored list. */
    method StoreTranslation(memory: Memory, g: Guards) returns (r: LoopResult)
      requires Valid() && cpuState.rip !in irlists
      modifies this`irlists, this`stopRunning, translator, translator.builder, translator.builder.irList
      ensures Valid() && cpuState == old(cpuState)
      ensures var whole := Translating(memory, g, cpuState.rip, 0, 0);
              && (r.Unknown? <==> whole.unknown) && (r.Nothing? <==> !whole.unknown && whole.items == [])
      ensures stopRunning == (old(stopRunning) || r.Unknown?)
      ensures Sound() ==> old(Sound())
      ensures old(Sound()) && Fits(memory, g, cpuState.rip, old(Capacity())) ==>
                Sound() && Capacity() == old(Capacity())
      ensures if r.Accepted? then
                && cpuState.rip in irlists && fresh(irlists[cpuState.rip])
                && irlists == old(irlists)[cpuState.rip := irlists[cpuState.rip]]
                && irlists[cpuState.rip].sound == Sound()
                && (Sound() ==> FreshStream(memory, g, cpuState.rip) == Some(irlists[cpuState.rip].ops))
              else irlists == old(irlists)
      ensures Sound() && old(Coherent(memory, g)) ==> Coherent(memory, g)
    {
      hide Translating, FreshStream, StreamLength, Fits, IsCodeOf, Translator.Idle;
      var list;
      r, list := translator.TranslateAndReset(memory, g, cpuState.rip);
      if r.Accepted? {
        InsertList(memory, g, list);
      } else if r.Unknown? {
        stopRunning := true;
      }
    }

    /** `irlists.emplace`, for a key that is not taken. */
    method InsertList(memory: Memory, g: Guards, list: IntrusiveIRList)
      requires cpuState.rip !in irlists && list.Valid() && list != translator.builder.irList
      modifies this`irlists
      ensures irlists == old(irlists)[cpuState.rip := list]
      ensures old(ListsIntact()) ==> ListsIntact()
      ensures list.sound && FreshStream(memory, g, cpuState.rip) == Some(list.ops) && old(Coherent(memory, g)) ==>
                Coherent(memory, g)
    {
      hide FreshStream, IsCodeOf;
      irlists := irlists[cpuState.rip := list];
    }

    /** The part of `CompileBlock` behind the stored list. */
    method CompileStored(memory: Memory, g: Guards) returns (r: CompileResult)
      requires Valid() && cpuState.rip in irlists
      modifies blockcache, backend
      ensures Valid() && !r.NoBlock?
      ensures old(Coherent(memory, g)) && cpuState.rip !in old(blockcache.blocks) ==>
                var p := irlists[cpuState.rip].ops;
                var L := LowerFrom(
                  Targets(p, cpuState.rip), old(backend.blockJumpTargets.Keys), old(backend.values), p, |p|);
                if L.aborted then r == Died
                else
                  && r == Cached(L.blocks)
                  && blockcache.blocks == old(blockcache.blocks)[cpuState.rip := L.blocks]
                  && backend.blockJumpTargets.Keys
                     <= old(backend.blockJumpTargets.Keys) + Targets(p, cpuState.rip)
                  && (!Compile(p, cpuState.rip).aborted ==> Coherent(memory, g))
    {
      hide TranslationOf, LowerFrom, Targets, Compile, FreshStream, ListsIntact, ListsFresh;
      StoredList(memory, g, cpuState.rip);
      var rip, list := cpuState.rip, irlists[cpuState.rip];
      if FreshStream(memory, g, rip) == Some(list.ops) {
        CompiledFresh(memory, g, backend.blockJumpTargets.Keys, backend.values, list.ops, rip);
      }
      var code := backend.CompileCode(list, rip);
      if code.Aborted? {
        return Died;
      }
      var inserted := blockcache.AddBlockMapping(rip, code.graph);
      if !inserted {
        return Died;
      }
      r := Cached(code.graph);
    }

    /**
      `CompileBlock`. What the backend makes of the stored list depends on what it
      kept from earlier compilations.
    */
    method CompileBlock(memory: Memory, g: Guards) returns (r: CompileResult)
      requires Valid()
      modifies this`irlists, this`stopRunning, translator, translator.builder, translator.builder.irList, blockcache,
               backend
      ensures Valid() && cpuState == old(cpuState)
      ensures Sound() ==> old(Sound())
      ensures old(Sound()) && Fits(memory, g, cpuState.rip, old(Capacity())) ==>
                Sound() && Capacity() == old(Capacity())
      ensures Sound() && old(Coherent(memory, g)) && cpuState.rip !in old(blockcache.blocks) ==>
                && stopRunning == (old(stopRunning) || TranslationOf(memory, g, cpuState.rip).UnknownEncoding?)
                && (r.NoBlock? <==> FreshStream(memory, g, cpuState.rip).None?)
                && match FreshStream(memory, g, cpuState.rip)
                   case None =>
                     blockcache.blocks == old(blockcache.blocks) && irlists == old(irlists) && Coherent(memory, g)
                     && backend.blockJumpTargets == old(backend.blockJumpTargets)
                   case Some(p) =>
                     var L := LowerFrom(
                       Targets(p, cpuState.rip), old(backend.blockJumpTargets.Keys), old(backend.values), p, |p|);
                     if L.aborted then r == Died
                     else
                       && r == Cached(L.blocks)
                       && blockcache.blocks == old(blockcache.blocks)[cpuState.rip := L.blocks]
                       && backend.blockJumpTargets.Keys
                          <= old(backend.blockJumpTargets.Keys) + Targets(p, cpuState.rip)
                       && (!Compile(p, cpuState.rip).aborted ==> Coherent(memory, g))
    {
      hide TranslationOf, Translating, LowerFrom, Targets, Compile, StreamLength, FreshStream, ListsIntact,
           ListsFresh, IsCodeOf;
      var rip := cpuState.rip;
      TranslationIs(memory, g, rip);
      if rip !in irlists {
        var t := StoreTranslation(memory, g);
        if !t.Accepted? {
          return NoBlock;
        }
      }
      StoredList(memory, g, rip);
      r := CompileStored(memory, g);
    }
  }
}
