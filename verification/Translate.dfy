/**
  Block translation as a function of guest memory: the instructions the loop of
  `CompileBlock` accepts from an address, and the operation stream they make.
*/
module Translate {
  import opened Words
  import opened Wrappers
  import opened IR
  import opened Machine
  import opened X86Tables
  import opened Decoder
  import opened Handlers
  import opened HandlerShapes

  type Memory = Word -> byte

  /**
    The address tests that enable `CMPOp` (on the instruction's address) and
    `JccOp` (on the address of the block being compiled).
  */
  datatype Guards = Guards(cmp: Word -> bool, jcc: Word -> bool)

  const SOURCE_GUARDS := Guards(rip => rip == 0x402366, rip => rip == 0x402350)

  const MAX_SIZE: nat := 0xFFFF_FFFF

  function Fetch(memory: Memory, address: Word, n: nat): (code: seq<byte>)
    ensures |code| == n
    decreases n
  {
    if n == 0 then [] else [memory(address)] + Fetch(memory, Add(address, 1), n - 1)
  }

  function CodeAt(memory: Memory, address: Word): Code {
    Fetch(memory, address, WINDOW)
  }

  /** One instruction handed to a handler. */
  datatype Item = Item(rip: Word, handler: Handler, site: Site)

  type Instruction = i: Item | 0 < i.site.size <= MAX_INSTRUCTION
    witness Item(0, NoOp, Site(seq(WINDOW, _ => 0), START.flags, 1, 0, false, false))

  function FragmentOf(i: Instruction): Fragment {
    Emit(i.handler, i.site).fragment
  }

  /** What one pass of the translation loop finds at an address. */
  datatype Inspection =
    | NotDecoded
    | NotDispatched
    | Dispatched(item: Instruction, failed: bool, endsBlock: bool, setsRip: bool)

  function Inspect(memory: Memory, g: Guards, start: Word, at: Word): Inspection {
    var code := CodeAt(memory, at);
    SizeInRange(TABLES, code, START);
    match Decode(TABLES, code)
    case Overrun => NotDecoded
    case Decoded(None, _, _) => NotDecoded
    case Decoded(Some(info), flags, size) =>
      if flags.lock || info.handler == NoHandler then NotDispatched
      else
        var site := Site(code, flags, size, at, g.cmp(at), g.jcc(start));
        Dispatched(
          Item(at, info.handler, site), Emit(info.handler, site).failed, info.flags.blockEnd, info.flags.setsRip)
  }

  /** How the loop continues from `length` bytes and `count` instructions into the block. */
  datatype Rest = Rest(
    items: seq<Instruction>, rejected: Option<Instruction>, unknown: bool, setsRip: bool, length: Word)

  function Translating(memory: Memory, g: Guards, start: Word, length: Word, count: nat): Rest
    requires count < MAX_SIZE
    decreases MAX_SIZE - count
  {
    match Inspect(memory, g, start, Add(start, length))
    case NotDecoded => Rest([], None, true, false, length)
    case NotDispatched => Rest([], None, false, false, length)
    case Dispatched(item, failed, endsBlock, setsRip) =>
      if failed then Rest([], Some(item), false, false, length)
      else
        var next := Add(length, item.site.size);
        if endsBlock || setsRip || count + 1 >= MAX_SIZE then Rest([item], None, false, setsRip, next)
        else
          var r := Translating(memory, g, start, next, count + 1);
          r.(items := [item] + r.items)
  }

  lemma TranslatingUnfolds(memory: Memory, g: Guards, start: Word, length: Word, count: nat)
    requires count < MAX_SIZE
    ensures Translating(memory, g, start, length, count) ==
            match Inspect(memory, g, start, Add(start, length))
            case NotDecoded => Rest([], None, true, false, length)
            case NotDispatched => Rest([], None, false, false, length)
            case Dispatched(item, failed, endsBlock, setsRip) =>
              if failed then Rest([], Some(item), false, false, length)
              else
                var next := Add(length, item.site.size);
                if endsBlock || setsRip || count + 1 >= MAX_SIZE then Rest([item], None, false, setsRip, next)
                else
                  var r := Translating(memory, g, start, next, count + 1);
                  r.(items := [item] + r.items)
  {
    hide Inspect;
  }

  datatype Block = Block(items: seq<Instruction>, rejected: Option<Instruction>, increment: Word)

  datatype Translation = UnknownEncoding | NothingTranslated | Translated(block: Block)

  function TranslationOf(memory: Memory, g: Guards, start: Word): Translation {
    var r := Translating(memory, g, start, 0, 0);
    if r.unknown then UnknownEncoding
    else if r.items == [] then NothingTranslated
    else Translated(Block(r.items, r.rejected, if r.setsRip then 0 else r.length))
  }

  /*** The stream of a block ***/

  /** `AddRIPMarker` and the handler, after the stream `p`. */
  function Append(p: seq<Op>, i: Instruction): seq<Op> {
    p + [RipMarker(i.rip)] + Shift(Flatten(FragmentOf(i)), Length(p) + 16)
  }

  /** What `Append` adds to a stream of length `at`. */
  function Appended(at: nat, i: Instruction): seq<Op> {
    [RipMarker(i.rip)] + Shift(Flatten(FragmentOf(i)), at + 16)
  }

  lemma AppendIsConcatenation(p: seq<Op>, i: Instruction)
    ensures Append(p, i) == p + Appended(Length(p), i)
  {
    hide Flatten, FragmentOf, Shift, OffsetOf;
  }

  function Stream(items: seq<Instruction>): seq<Op> {
    if |items| == 0 then [BeginBlock]
    else Append(Stream(items[..|items| - 1]), items[|items| - 1])
  }

  function BeforeEnd(b: Block): seq<Op> {
    if b.rejected.Some? then Append(Stream(b.items), b.rejected.value) else Stream(b.items)
  }

  function Assemble(b: Block): seq<Op> {
    BeforeEnd(b) + [EndBlock(b.increment)]
  }

  /** The operations of instruction `i`, and where they start. */
  function StartOf(items: seq<Instruction>, i: nat): nat
    requires i <= |items|
  {
    |Stream(items[..i])|
  }

  lemma {:induction false} StreamPrefix(items: seq<Instruction>, i: nat)
    requires i <= |items|
    ensures StartOf(items, i) <= |Stream(items)|
    ensures Stream(items)[..StartOf(items, i)] == Stream(items[..i])
    decreases |items| - i
  {
    hide Flatten, FragmentOf, Shift, OffsetOf;
    if i == |items| {
      assert items[..i] == items;
    } else {
      StreamPrefix(items, i + 1);
      assert items[..i + 1][..i] == items[..i];
      var q := Append(Stream(items[..i]), items[i]);
      assert Stream(items[..i + 1]) == q;
      assert q[..StartOf(items, i)] == Stream(items[..i]);
      assert Stream(items)[..StartOf(items, i)] == Stream(items)[..StartOf(items, i + 1)][..StartOf(items, i)];
    }
  }

  /** Instruction `i` of a block: its marker and its shifted fragment. */
  lemma InstructionInStream(items: seq<Instruction>, i: nat)
    requires i < |items|
    ensures var k, ops := StartOf(items, i), Flatten(FragmentOf(items[i]));
            && k + 1 + |ops| == StartOf(items, i + 1) <= |Stream(items)|
            && Stream(items)[k] == RipMarker(items[i].rip)
            && Stream(items)[k + 1..k + 1 + |ops|] == Shift(ops, OffsetOf(Stream(items), k + 1))
  {
    hide Flatten, FragmentOf, Shift, OffsetOf, Stream, Append;
    var whole, p := Stream(items), Stream(items[..i]);
    assert Append(p, items[i]) <= whole && StartOf(items, i + 1) == |Append(p, items[i])| by {
      StreamPrefix(items, i + 1);
      StreamUnfolds(items, i);
    }
    AppendedInstruction(whole, p, items[i]);
  }

  lemma StreamUnfolds(items: seq<Instruction>, i: nat)
    requires i < |items|
    ensures Stream(items[..i + 1]) == Append(Stream(items[..i]), items[i])
  {
    hide Append;
    assert items[..i + 1][..i] == items[..i];
  }

  /** An instruction appended after `p`, seen in a longer stream. */
  lemma AppendedInstruction(whole: seq<Op>, p: seq<Op>, i: Instruction)
    requires Append(p, i) <= whole
    ensures var k, ops := |p|, Flatten(FragmentOf(i));
            && k + 1 + |ops| == |Append(p, i)|
            && whole[k] == RipMarker(i.rip)
            && whole[k + 1..k + 1 + |ops|] == Shift(ops, OffsetOf(whole, k + 1))
            && OffsetOf(whole, k + 1) == Length(p) + 16
  {
    hide Flatten, FragmentOf, Shift, Append, OffsetOf;
    AppendIsConcatenation(p, i);
    var added := Appended(Length(p), i);
    var rest := added + whole[|p + added|..];
    assert whole == p + rest;
    OffsetOfPrefix(p, rest, |p|);
    assert whole[|p|] == added[0];
    OffsetAfterMarker(whole, |p|);
    assert whole[|p| + 1..|p| + |added|] == added[1..];
  }

  lemma OffsetAfterMarker(p: seq<Op>, k: nat)
    requires k < |p| && p[k].RipMarker?
    ensures OffsetOf(p, k + 1) == OffsetOf(p, k) + 16
  {
  }
}
