/**
  From bytes in guest memory to the handler that translates them: what the
  fields of an encoding mean, which opcodes have handlers, and how the
  translation loop sees a well-formed encoding.
*/
module Encodings {
  import opened Words
  import opened Wrappers
  import opened Machine
  import opened X86Tables
  import opened Decoder
  import opened DecoderRoundTrip
  import opened Handlers
  import opened Translate
  import opened SuffixClosure

  /*** Fields ***/

  /** The three fields of a ModRM or SIB byte, from the lowest. */
  lemma ModRMFields(mod: nat, reg: nat, rm: nat)
    requires mod < 4 && reg < 8 && rm < 8
    ensures var m := 64 * mod + 8 * reg + rm;
            ModField(m) == mod && RegField(m) == reg && RmField(m) == rm
  {
  }

  /** REX is 0100WRXB. */
  lemma RexFields(w: nat, r: nat, x: nat, b: nat)
    requires w < 2 && r < 2 && x < 2 && b < 2
    ensures var rex := 0x40 + 8 * w + 4 * r + 2 * x + b;
            IsRex(rex) && RexW(rex) == w && RexR(rex) == r && RexX(rex) == x && RexB(rex) == b
  {
  }

  /** The register file's order of the sixteen encoded registers: rax, rcx, rdx, rbx, rsp, rbp, rsi, rdi, r8 to r15. */
  function Encoded(n: nat): (r: nat)
    requires n < 16
    ensures r < 16
  {
    [0, 2, 3, 1, 7, 6, 4, 5, 8, 9, 10, 11, 12, 13, 14, 15][n]
  }

  lemma RegisterIs(n: nat)
    requires n < 16
    ensures RegisterIndex(n / 8, n % 8) == Encoded(n)
  {
  }

  /*** Guest memory ***/

  /** These bytes lie at that address, which may go past 2^64 to 0. */
  ghost predicate BytesAt(memory: Memory, at: Word, bytes: seq<byte>) {
    forall k :: 0 <= k < |bytes| ==> memory((at + k) % M64) == bytes[k]
  }

  lemma {:induction false} FetchedByte(memory: Memory, at: Word, n: nat, k: nat)
    requires k < n
    ensures Fetch(memory, at, n)[k] == memory((at + k) % M64)
    decreases n
  {
    if k > 0 {
      FetchedByte(memory, Add(at, 1), n - 1, k - 1);
      assert Fetch(memory, at, n)[1..] == Fetch(memory, Add(at, 1), n - 1);
    }
  }

  /** The decoder's window shows the bytes from the address on. */
  lemma WindowShows(memory: Memory, at: Word, bytes: seq<byte>)
    requires BytesAt(memory, at, bytes) && |bytes| <= WINDOW
    ensures CodeAt(memory, at)[..|bytes|] == bytes
  {
    hide Fetch;
    forall k | 0 <= k < |bytes|
      ensures CodeAt(memory, at)[k] == bytes[k]
    {
      FetchedByte(memory, at, WINDOW, k);
    }
  }

  /*** Installed handlers ***/

  const BASE_HANDLERS: seq<(byte, Handler)> :=
    [ (0x00, UnknownOp), (0x01, AddOp), (0x02, UnknownOp), (0x03, AddOp), (0x04, UnknownOp), (0x05, AddImmOp),
      (0x31, XorOp), (0x39, CMPOp), (0x89, MovOp), (0x8D, LEAOp), (0x90, NoOp), (0xC3, RETOp) ]

  /** The condition of the opcode 0x70 + c. */
  function ConditionOf(c: nat): Condition
    requires c < 16
  {
    [ CC_OF, CC_NOF, CC_C, CC_NC, CC_Z, CC_NZ, CC_BE, CC_NBE, CC_S, CC_NS, CC_P, CC_NP, CC_L, CC_NL, CC_LE, CC_NLE ][c]
  }

  lemma InstalledBase(i: nat)
    requires i < |BASE_HANDLERS|
    ensures BaseOps(BASE_HANDLERS[i].0).handler == BASE_HANDLERS[i].1
  {
  }

  lemma InstalledJump(i: nat)
    requires i < 16
    ensures BaseOps(0x70 + i) == Inst(NONE, 1, JccOp(ConditionOf(i)))
  {
  }

  /** No other one-byte opcode has a handler. */
  lemma NothingElseInstalled(op: byte)
    ensures BaseOps(op).handler != NoHandler ==>
              0x70 <= op < 0x80 || op in {0x00, 0x01, 0x02, 0x03, 0x04, 0x05, 0x31, 0x39, 0x89, 0x8D, 0x90, 0xC3}
  {
  }

  /** Of two-byte opcodes, and of those told apart by the `reg` field. */
  lemma InstalledElsewhere(op: byte, reg: nat)
    ensures SecondBaseOps(op).handler
         == if op == 0x05 then SyscallOp else if op == 0x1F then NoOp else if op == 0xA3 then BTOp else NoHandler
    ensures ModRMOps(op, reg).handler
         == if (op, reg) == (0x83, 0) then AddImmModRMOp else if (op, reg) == (0xC1, 4) then ShlImmOp
            else if (op, reg) == (0xFF, 4) then JMPOp else NoHandler
  {
  }

  /*** A well-formed encoding in memory ***/

  /** The byte behind a two-byte opcode does not divert the decoder. */
  ghost predicate Undiverted(memory: Memory, at: Word, e: Encoding) {
    e.escape ==> !Diverts(memory((at + |Lead(e)| + 2) % M64))
  }

  lemma DecodesInMemory(memory: Memory, at: Word, e: Encoding)
    requires WellFormed(TABLES, e) && BytesAt(memory, at, Bytes(e)) && Undiverted(memory, at, e)
    ensures Decode(TABLES, CodeAt(memory, at)) == Expected(TABLES, e)
  {
    hide Decode, Fetch, EntryOf, FlagsOf, Diverts, BaseOps, SecondBaseOps, ModRMOps, DisplacementSize, ImmediateSizeOf,
         RexW, RexX, RexR, RexB, IsPrefixByte, IsPrefixType, HasRex, Bytes, Operands;
    var code := CodeAt(memory, at);
    var rest := code[|Bytes(e)|..];
    WindowShows(memory, at, Bytes(e));
    assert code == Bytes(e) + rest;
    Layout(e, rest);
    if e.escape {
      var n := |Lead(e)| + 2;
      FetchedByte(memory, at, WINDOW, n);
      assert Opcode(e) + Operands(e) + rest == Opcode(e) + (Operands(e) + rest);
      assert code[n] == code[|Lead(e)|..][2] == (Operands(e) + rest)[0];
    }
    RecoversOne(TABLES, e, rest);
  }

  /** How the translation loop sees a well-formed encoding: dispatched unless locked or without a handler. */
  lemma EncodingDispatches(memory: Memory, g: Guards, start: Word, at: Word, e: Encoding)
    requires WellFormed(TABLES, e) && BytesAt(memory, at, Bytes(e)) && Undiverted(memory, at, e)
    ensures var look, info := Inspect(memory, g, start, at), EntryOf(TABLES, e);
            if 0xF0 in e.prefixes || info.handler == NoHandler then look == NotDispatched
            else
              && look.Dispatched?
              && look.item == Item(
                   at, info.handler, Site(CodeAt(memory, at), FlagsOf(e), |Bytes(e)|, at, g.cmp(at), g.jcc(start)))
              && look.failed == Emit(info.handler, look.item.site).failed
              && look.endsBlock == info.flags.blockEnd && look.setsRip == info.flags.setsRip
  {
    hide Decode, Fetch, EntryOf, Bytes, Emit, Undiverted, WellFormed;
    DecodesInMemory(memory, at, e);
  }
}
