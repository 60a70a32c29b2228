/**
  Well-formed encodings, written down from the Intel 64 and IA-32 SDM, volume
  2A, sections 2.1.3, 2.1.5 and 2.2.1, and the proof that the decoder recovers
  their boundaries and flags.
*/
module DecoderRoundTrip {
  import opened Words
  import opened Wrappers
  import opened X86Tables
  import opened Decoder

  datatype Encoding = Encoding(
    prefixes: seq<byte>, rex: Option<byte>, escape: bool, opcode: byte,
    modrm: Option<byte>, sib: Option<byte>, displacement: seq<byte>, immediate: seq<byte>)

  function OptionalByte(b: Option<byte>): seq<byte> {
    if b.Some? then [b.value] else []
  }

  function Opcode(e: Encoding): seq<byte> {
    (if e.escape then [0x0F] else []) + [e.opcode]
  }

  function Operands(e: Encoding): seq<byte> {
    OptionalByte(e.modrm) + OptionalByte(e.sib) + e.displacement + e.immediate
  }

  function Bytes(e: Encoding): seq<byte> {
    e.prefixes + OptionalByte(e.rex) + Opcode(e) + Operands(e)
  }

  /** The table entry of an encoding. */
  function EntryOf(T: Tables, e: Encoding): InstInfo {
    if e.escape then T.second(e.opcode)
    else if T.base(e.opcode).kind == TypeModRMTable && e.modrm.Some? then T.modrm(e.opcode, RegField(e.modrm.value))
    else T.base(e.opcode)
  }

  predicate IsPrefixByte(T: Tables, b: byte) {
    b == 0x66 || b == 0x67 || b == 0xF0 || (IsPrefixType(T.base(b).kind) && b != 0x0F && !IsRex(b))
  }

  /** Tables 2-2 and 2-3: the bytes of displacement an addressing form takes. */
  function DisplacementSize(modrm: Option<byte>, sib: Option<byte>): nat {
    match modrm
    case None => 0
    case Some(m) =>
      match ModField(m)
      case 1 => 1
      case 2 => 4
      case 0 =>
        if RmField(m) == 5 then 4
        else if sib.Some? && RmField(sib.value) == 5 then 4
        else 0
      case _ => 0
  }

  /** 0x66 halves an operand-sized immediate, REX.W doubles a 64-bit one. */
  function ImmediateSizeOf(info: InstInfo, rexW: bool, opsize: bool): nat {
    if rexW && info.flags.displaceMul2 then 2 * info.moreBytes
    else if opsize && info.flags.displaceDiv2 then info.moreBytes / 2
    else info.moreBytes
  }

  predicate HasRex(e: Encoding, bit: byte -> nat) {
    e.rex.Some? && bit(e.rex.value) == 1
  }

  predicate WellFormed(T: Tables, e: Encoding) {
    var info := EntryOf(T, e);
    && (forall i :: 0 <= i < |e.prefixes| ==> IsPrefixByte(T, e.prefixes[i]))
    && (e.rex.Some? ==> IsRex(e.rex.value))
    && (!e.escape ==> e.opcode != 0x0F && !IsRex(e.opcode) && !IsPrefixByte(T, e.opcode))
    && (!e.escape && T.base(e.opcode).kind == TypeModRMTable ==> e.modrm.Some?)
    && !IsPrefixType(info.kind) && info.kind != TypeUnknown
    && (e.modrm.Some? <==> info.flags.hasModRM && !info.flags.rexInByte)
    && (e.sib.Some? <==> e.modrm.Some? && ModField(e.modrm.value) != 3 && RmField(e.modrm.value) == 4)
    && |e.displacement| == DisplacementSize(e.modrm, e.sib)
    && |e.immediate| == ImmediateSizeOf(info, HasRex(e, RexW), 0x66 in e.prefixes)
    && (HasRex(e, RexR) || HasRex(e, RexB) ==> e.modrm.Some? || info.flags.rexInByte)
    && (HasRex(e, RexX) ==> e.sib.Some?)
    && !(HasRex(e, RexW) && 0x66 in e.prefixes)
    && |Bytes(e)| <= 15
  }

  function FlagsOf(e: Encoding): DecodeFlags {
    DecodeFlags(
      e.rex.Some?, 0x66 in e.prefixes, 0x67 in e.prefixes, e.modrm.Some?, e.sib.Some?, 0xF0 in e.prefixes)
  }

  function Expected(T: Tables, e: Encoding): Decoded {
    Decoded(Some(EntryOf(T, e)), FlagsOf(e), |Bytes(e)|)
  }

  /** The values of the third byte that divert the decoder's two-byte case. */
  predicate Diverts(b: byte) {
    b == 0x0F || b == 0x38 || b == 0x3A
  }

  /** The byte that follows a two-byte opcode, in the stream `Bytes(e) + rest`. */
  function ByteAfterOpcode(e: Encoding, rest: seq<byte>): byte
    requires |rest| > 0
  {
    (Operands(e) + rest)[0]
  }

  /*** The prefix loop ***/

  function AfterPrefix(T: Tables, d: Scan, b: byte): Scan {
    var n := d.(size := d.size + 1);
    if b == 0x66 then n.(narrowing := true, flags := n.flags.(opsize := true))
    else if b == 0x67 then n.(flags := n.flags.(adsize := true))
    else if b == 0xF0 then n.(flags := n.flags.(lock := true))
    else n.(info := Some(T.base(b)))
  }

  function AfterPrefixes(T: Tables, d: Scan, ps: seq<byte>): Scan
    decreases |ps|
  {
    if ps == [] then d else AfterPrefixes(T, AfterPrefix(T, d, ps[0]), ps[1..])
  }

  /** `r` is `d` after a run of prefixes with these properties. */
  ghost predicate Advanced(r: Scan, d: Scan, length: nat, opsize: bool, adsize: bool, lock: bool) {
    && r.size == d.size + length
    && r.narrowing == (d.narrowing || opsize)
    && r.flags.opsize == (d.flags.opsize || opsize)
    && r.flags.adsize == (d.flags.adsize || adsize)
    && r.flags.lock == (d.flags.lock || lock)
    && r.flags.rex == d.flags.rex && r.flags.modrm == d.flags.modrm && r.flags.sib == d.flags.sib
    && r.rexModRM == d.rexModRM && r.rexSib == d.rexSib && r.widening == d.widening
  }

  lemma AdvancedOnce(T: Tables, d: Scan, b: byte)
    ensures Advanced(AfterPrefix(T, d, b), d, 1, b == 0x66, b == 0x67, b == 0xF0)
  {
  }

  lemma {:induction false} AfterPrefixesFields(T: Tables, d: Scan, ps: seq<byte>)
    ensures Advanced(AfterPrefixes(T, d, ps), d, |ps|, 0x66 in ps, 0x67 in ps, 0xF0 in ps)
    decreases |ps|
  {
    hide AfterPrefix;
    if ps != [] {
      AdvancedOnce(T, d, ps[0]);
      AfterPrefixesFields(T, AfterPrefix(T, d, ps[0]), ps[1..]);
      InSplit(0x66, ps);
      InSplit(0x67, ps);
      InSplit(0xF0, ps);
    }
  }

  lemma InSplit(b: byte, ps: seq<byte>)
    requires ps != []
    ensures b in ps <==> b == ps[0] || b in ps[1..]
  {
    assert ps == [ps[0]] + ps[1..];
  }

  lemma {:induction false} PrefixLoop(T: Tables, inst: seq<byte>, d: Scan, ps: seq<byte>)
    requires |inst| >= WINDOW && d.size + |ps| < MAX_INSTRUCTION
    requires inst[d.size..d.size + |ps|] == ps
    requires forall i :: 0 <= i < |ps| ==> IsPrefixByte(T, ps[i])
    ensures DecodeFrom(T, inst, d) == DecodeFrom(T, inst, AfterPrefixes(T, d, ps))
    decreases |ps|
  {
    if ps != [] {
      assert inst[d.size] == ps[0];
      assert IsPrefixByte(T, ps[0]);
      var n := AfterPrefix(T, d, ps[0]);
      assert DecodeStep(T, inst, d) == Again(n);
      assert inst[n.size..n.size + |ps[1..]|] == ps[1..];
      PrefixLoop(T, inst, n, ps[1..]);
    }
  }

  function AfterRex(T: Tables, d: Scan, e: Encoding): Scan {
    if e.rex.None? then d
    else d.(
      size := d.size + 1, info := Some(T.base(e.rex.value)),
      rexModRM := d.rexModRM || HasRex(e, RexR) || HasRex(e, RexB),
      rexSib := d.rexSib || HasRex(e, RexX),
      widening := d.widening || HasRex(e, RexW),
      flags := d.flags.(rex := true))
  }

  /*** One instruction ***/

  function Lead(e: Encoding): seq<byte> {
    e.prefixes + OptionalByte(e.rex)
  }

  /** The decoder's state when it reaches the opcode. */
  function AtOpcode(T: Tables, e: Encoding): Scan {
    AfterRex(T, AfterPrefixes(T, START, e.prefixes), e)
  }

  lemma Layout(e: Encoding, rest: seq<byte>)
    ensures var inst := Bytes(e) + rest;
            && inst[..|e.prefixes|] == e.prefixes
            && (e.rex.Some? ==> inst[|e.prefixes|] == e.rex.value)
            && |Lead(e)| <= |inst| && inst[|Lead(e)|..] == Opcode(e) + Operands(e) + rest
            && |Bytes(e)| == |Lead(e)| + |Opcode(e)| + |Operands(e)|
  {
    assert Bytes(e) + rest == Lead(e) + (Opcode(e) + Operands(e) + rest);
  }

  lemma RexStep(T: Tables, e: Encoding, inst: seq<byte>, d: Scan)
    requires d.size < MAX_INSTRUCTION && |inst| >= WINDOW
    requires e.rex.Some? && IsRex(e.rex.value) && inst[d.size] == e.rex.value
    ensures DecodeStep(T, inst, d) == Again(AfterRex(T, d, e))
  {
    hide NormalOp, RexR, RexB, RexX, RexW;
  }

  lemma ReachesOpcode(T: Tables, e: Encoding, rest: seq<byte>)
    requires WellFormed(T, e) && |Bytes(e) + rest| >= WINDOW && |rest| > 0
    ensures Decode(T, Bytes(e) + rest) == DecodeFrom(T, Bytes(e) + rest, AtOpcode(T, e))
    ensures AtOpcode(T, e).size == |Lead(e)| < MAX_INSTRUCTION
  {
    hide EntryOf, ImmediateSizeOf, DisplacementSize, ModField, RegField, RmField, DecodeStep, IsPrefixByte, IsRex;
    hide HasRex, Operands, Bytes;
    var inst := Bytes(e) + rest;
    Layout(e, rest);
    AfterPrefixesFields(T, START, e.prefixes);
    assert inst[0..|e.prefixes|] == e.prefixes;
    PrefixLoop(T, inst, START, e.prefixes);
    if e.rex.Some? {
      RexStep(T, e, inst, AfterPrefixes(T, START, e.prefixes));
    }
  }

  /** At the opcode, `NormalOp` counts exactly the operand bytes. */
  lemma CountsOperands(T: Tables, e: Encoding, inst: seq<byte>, d: Scan)
    requires WellFormed(T, e) && |inst| >= WINDOW
    requires d.size <= MAX_INSTRUCTION && Operands(e) <= inst[d.size..]
    requires d.rexModRM == (HasRex(e, RexR) || HasRex(e, RexB)) && d.rexSib == HasRex(e, RexX)
    requires d.widening == HasRex(e, RexW) && d.narrowing == (0x66 in e.prefixes)
    requires d.flags == DecodeFlags(
               e.rex.Some?, 0x66 in e.prefixes, 0x67 in e.prefixes, false, false, 0xF0 in e.prefixes)
    ensures NormalOp(inst, EntryOf(T, e), d) ==
            Finished(d.(size := d.size + |Operands(e)|, flags := FlagsOf(e), info := Some(EntryOf(T, e))))
  {
    hide EntryOf, IsPrefixType, IsRex, IsPrefixByte, RexW, RexX, RexB, RexR, HasRex, Opcode;
    var info := EntryOf(T, e);
    var takesModRM := TakesModRM(info, d);
    assert takesModRM == e.modrm.Some?;
    var modrm, sib := inst[d.size], inst[d.size + 1];
    if e.modrm.Some? {
      assert modrm == inst[d.size..][0] == Operands(e)[0] == e.modrm.value;
    }
    assert TakesSib(takesModRM, modrm, d) == e.sib.Some?;
    if e.sib.Some? {
      assert sib == inst[d.size..][1] == Operands(e)[1] == e.sib.value;
    }
    assert DisplacementBytes(takesModRM, e.sib.Some?, modrm, sib) == |e.displacement|;
  }

  /** The opcode's pass of the loop is `NormalOp` on the instruction's own table entry. */
  lemma OpcodeStep(T: Tables, e: Encoding, inst: seq<byte>, d: Scan)
    requires |inst| >= WINDOW && d.size + |Opcode(e)| <= MAX_INSTRUCTION
    requires if e.escape then inst[d.size] == 0x0F && inst[d.size + 1] == e.opcode && !Diverts(inst[d.size + 2])
             else inst[d.size] == e.opcode && e.opcode != 0x0F && !IsRex(e.opcode) && !IsPrefixByte(T, e.opcode)
    requires !e.escape && T.base(e.opcode).kind == TypeModRMTable ==>
               e.modrm.Some? && inst[d.size + 1] == e.modrm.value
    ensures DecodeStep(T, inst, d) == NormalOp(inst, EntryOf(T, e), d.(size := d.size + |Opcode(e)|))
  {
    hide NormalOp, RegField;
  }

  /** The bytes from the opcode on. */
  lemma OpcodeInPlace(e: Encoding, inst: seq<byte>, rest: seq<byte>, at: nat)
    requires |rest| > 0 && at <= |inst| && inst[at..] == Opcode(e) + Operands(e) + rest
    ensures var n := at + |Opcode(e)|;
            && n + |Operands(e)| <= |inst| && inst[n..] == Operands(e) + rest && Operands(e) <= inst[n..]
            && inst[n] == ByteAfterOpcode(e, rest)
            && (e.modrm.Some? ==> inst[n] == e.modrm.value)
            && inst[n - 1] == e.opcode && (e.escape ==> inst[at] == 0x0F)
  {
    var tail := inst[at..];
    assert tail == Opcode(e) + (Operands(e) + rest);
    assert tail[|Opcode(e)|..] == Operands(e) + rest;
    assert inst[at..][|Opcode(e)|..] == inst[at + |Opcode(e)|..];
    assert tail[0] == inst[at] && tail[|Opcode(e)| - 1] == inst[at + |Opcode(e)| - 1];
  }

  /** One instruction is recovered, provided the byte after a two-byte opcode does not divert the decoder. */
  lemma RecoversOne(T: Tables, e: Encoding, rest: seq<byte>)
    requires WellFormed(T, e) && |Bytes(e) + rest| >= WINDOW && |rest| > 0
    requires e.escape ==> !Diverts(ByteAfterOpcode(e, rest))
    ensures Decode(T, Bytes(e) + rest) == Expected(T, e)
  {
    hide Bytes, Operands, NormalOp, IsPrefixByte, IsRex, DisplacementSize, ImmediateSizeOf, AtOpcode, EntryOf,
         FlagsOf, IsPrefixType, HasRex, ByteAfterOpcode, DecodeStep, Lead, Decode, Diverts;
    var inst := Bytes(e) + rest;
    Layout(e, rest);
    ReachesOpcode(T, e, rest);
    OpcodeFields(T, e);
    var d := AtOpcode(T, e);
    OpcodeInPlace(e, inst, rest, d.size);
    OpcodeStep(T, e, inst, d);
    CountsOperands(T, e, inst, d.(size := d.size + |Opcode(e)|));
  }

  lemma OpcodeFields(T: Tables, e: Encoding)
    ensures var d := AtOpcode(T, e);
            && d.rexModRM == (HasRex(e, RexR) || HasRex(e, RexB)) && d.rexSib == HasRex(e, RexX)
            && d.widening == HasRex(e, RexW) && d.narrowing == (0x66 in e.prefixes)
            && d.flags == DecodeFlags(
                 e.rex.Some?, 0x66 in e.prefixes, 0x67 in e.prefixes, false, false, 0xF0 in e.prefixes)
  {
    hide RexW, RexX, RexR, RexB;
    AfterPrefixesFields(T, START, e.prefixes);
  }

  /** And with the program's tables a diverting byte always loses the instruction. */
  lemma DivertedIsLost(e: Encoding, rest: seq<byte>)
    requires WellFormed(TABLES, e) && |Bytes(e) + rest| >= WINDOW && |rest| > 0 && e.escape
    requires Diverts(ByteAfterOpcode(e, rest))
    ensures Decode(TABLES, Bytes(e) + rest) != Expected(TABLES, e)
  {
    hide NormalOp, ImmediateSizeOf, DisplacementSize, BaseOps, SecondBaseOps, ModRMOps, Operands, ByteAfterOpcode,
         Bytes, IsPrefixByte, IsRex, RexW, RexX, RexB, RexR, HasRex, AfterPrefixes, FlagsOf;
    var inst := Bytes(e) + rest;
    Layout(e, rest);
    ReachesOpcode(TABLES, e, rest);
    var d := AtOpcode(TABLES, e);
    OpcodeInPlace(e, inst, rest, d.size);
    SecondIsNoPrefix(e.opcode);
    EntryBeforeOpcode(TABLES, START, e.prefixes);
    RexEntry(e);
  }

  lemma RexEntry(e: Encoding)
    ensures e.rex.Some? && IsRex(e.rex.value) ==> BaseOps(e.rex.value).kind == TypeRexPrefix
  {
  }

  lemma SecondIsNoPrefix(op: byte)
    ensures SecondBaseOps(op).kind == TypeInst || SecondBaseOps(op).kind == TypeUnknown
  {
  }

  lemma {:induction false} EntryBeforeOpcode(T: Tables, d: Scan, ps: seq<byte>)
    requires T == TABLES && (d.info.Some? ==> d.info.value.kind != TypeInst)
    requires forall i :: 0 <= i < |ps| ==> IsPrefixByte(T, ps[i])
    ensures var r := AfterPrefixes(T, d, ps); r.info.Some? ==> r.info.value.kind != TypeInst
    decreases |ps|
  {
    if ps != [] {
      assert IsPrefixByte(T, ps[0]);
      EntryBeforeOpcode(T, AfterPrefix(T, d, ps[0]), ps[1..]);
    }
  }

  /** Exactly when the decoder recovers a well-formed instruction. */
  lemma RecoversExactlyWhen(e: Encoding, rest: seq<byte>)
    requires WellFormed(TABLES, e) && |Bytes(e) + rest| >= WINDOW && |rest| > 0
    ensures Decode(TABLES, Bytes(e) + rest) == Expected(TABLES, e)
            <==> (e.escape ==> !Diverts(ByteAfterOpcode(e, rest)))
  {
    if e.escape && Diverts(ByteAfterOpcode(e, rest)) {
      DivertedIsLost(e, rest);
    } else {
      RecoversOne(TABLES, e, rest);
    }
  }

  /*** Whole streams ***/

  function Concatenate(es: seq<Encoding>): seq<byte> {
    if es == [] then [] else Bytes(es[0]) + Concatenate(es[1..])
  }

  function StreamBytes(es: seq<Encoding>, rest: seq<byte>): seq<byte> {
    Concatenate(es) + rest
  }

  /** `n` calls of the decoder, each at the end of the instruction before. */
  function DecodeMany(T: Tables, code: seq<byte>, n: nat): seq<Decoded>
    decreases n
  {
    if n == 0 || |code| < WINDOW then []
    else
      var r := Decode(T, code);
      if r.Overrun? || r.size > |code| then [r] else [r] + DecodeMany(T, code[r.size..], n - 1)
  }

  ghost predicate NoneDiverts(es: seq<Encoding>, rest: seq<byte>)
    requires |rest| > 0
    decreases |es|
  {
    es != [] ==>
    && (es[0].escape ==> !Diverts(ByteAfterOpcode(es[0], StreamBytes(es[1..], rest))))
    && NoneDiverts(es[1..], rest)
  }

  function ExpectedMany(T: Tables, es: seq<Encoding>): (r: seq<Decoded>) {
    if es == [] then [] else [Expected(T, es[0])] + ExpectedMany(T, es[1..])
  }

  lemma SplitFirst(es: seq<Encoding>, rest: seq<byte>)
    requires es != []
    ensures var code, tail := StreamBytes(es, rest), StreamBytes(es[1..], rest);
            && code == Bytes(es[0]) + tail && code[|Bytes(es[0])|..] == tail && |tail| >= |rest|
  {
    hide Bytes;
    assert Concatenate(es) + rest == Bytes(es[0]) + (Concatenate(es[1..]) + rest);
  }

  predicate AllWellFormed(T: Tables, es: seq<Encoding>) {
    forall i :: 0 <= i < |es| ==> WellFormed(T, es[i])
  }

  lemma WellFormedTail(T: Tables, es: seq<Encoding>)
    requires es != [] && AllWellFormed(T, es)
    ensures WellFormed(T, es[0]) && AllWellFormed(T, es[1..])
  {
    hide WellFormed;
  }

  /** Repeated decoding of a concatenation recovers every boundary and all flags. */
  lemma {:induction false} RecoversStream(T: Tables, es: seq<Encoding>, rest: seq<byte>)
    requires |rest| >= WINDOW && NoneDiverts(es, rest) && AllWellFormed(T, es)
    ensures DecodeMany(T, StreamBytes(es, rest), |es|) == ExpectedMany(T, es)
    decreases |es|
  {
    hide *;
    if es == [] {
      NothingToDecode(T, rest);
    } else {
      DecodesFirst(T, es, rest);
      RecoversStream(T, es[1..], rest);
      ExpectedUnfolds(T, es);
    }
  }

  lemma DecodesFirst(T: Tables, es: seq<Encoding>, rest: seq<byte>)
    requires es != [] && |rest| >= WINDOW && NoneDiverts(es, rest) && AllWellFormed(T, es)
    ensures NoneDiverts(es[1..], rest) && AllWellFormed(T, es[1..])
    ensures DecodeMany(T, StreamBytes(es, rest), |es|)
         == [Expected(T, es[0])] + DecodeMany(T, StreamBytes(es[1..], rest), |es[1..]|)
  {
    hide Decode, DecodeMany, WellFormed, Bytes, EntryOf, FlagsOf, NoneDiverts, ByteAfterOpcode, Concatenate,
         StreamBytes, AllWellFormed, Diverts;
    var e, code, tail := es[0], StreamBytes(es, rest), StreamBytes(es[1..], rest);
    SplitFirst(es, rest);
    NoneDivertsUnfolds(es, rest);
    WellFormedTail(T, es);
    RecoversOne(T, e, tail);
    DecodeManyUnfolds(T, code, |es|);
  }

  /**
    With the program's tables, a stream is recovered exactly when no two-byte
    opcode is followed by a diverting byte.
  */
  lemma {:induction false} RecoversStreamExactlyWhen(es: seq<Encoding>, rest: seq<byte>)
    requires |rest| >= WINDOW && AllWellFormed(TABLES, es)
    ensures DecodeMany(TABLES, StreamBytes(es, rest), |es|) == ExpectedMany(TABLES, es) <==> NoneDiverts(es, rest)
    decreases |es|
  {
    hide *;
    if es == [] {
      NothingToDecode(TABLES, rest);
      NoneDivertsExactlyWhen(es, rest);
    } else {
      FirstExactlyWhen(es, rest);
      RecoversStreamExactlyWhen(es[1..], rest);
    }
  }

  /** A stream is recovered exactly when its first instruction and the others are. */
  lemma FirstExactlyWhen(es: seq<Encoding>, rest: seq<byte>)
    requires es != [] && |rest| >= WINDOW && AllWellFormed(TABLES, es)
    ensures AllWellFormed(TABLES, es[1..])
    ensures NoneDiverts(es, rest) <==>
              NoneDiverts(es[1..], rest)
              && (es[0].escape ==> !Diverts(ByteAfterOpcode(es[0], StreamBytes(es[1..], rest))))
    ensures DecodeMany(TABLES, StreamBytes(es, rest), |es|) == ExpectedMany(TABLES, es) <==>
              DecodeMany(TABLES, StreamBytes(es[1..], rest), |es[1..]|) == ExpectedMany(TABLES, es[1..])
              && (es[0].escape ==> !Diverts(ByteAfterOpcode(es[0], StreamBytes(es[1..], rest))))
  {
    hide Decode, DecodeMany, WellFormed, Bytes, EntryOf, FlagsOf, NoneDiverts, ByteAfterOpcode, Concatenate,
         StreamBytes, AllWellFormed, Diverts, ExpectedMany;
    var e, code, tail := es[0], StreamBytes(es, rest), StreamBytes(es[1..], rest);
    SplitFirst(es, rest);
    NoneDivertsExactlyWhen(es, rest);
    WellFormedTail(TABLES, es);
    RecoversExactlyWhen(e, tail);
    DecodeManyUnfolds(TABLES, code, |es|);
    ExpectedUnfolds(TABLES, es);
    var decoded, expected := DecodeMany(TABLES, code, |es|), ExpectedMany(TABLES, es);
    assert expected[0] == Expected(TABLES, e) && expected[1..] == ExpectedMany(TABLES, es[1..]);
    assert decoded[0] == Decode(TABLES, code);
    if decoded[0] == expected[0] {
      assert decoded[1..] == DecodeMany(TABLES, tail, |es| - 1);
      assert decoded == [decoded[0]] + decoded[1..] && expected == [expected[0]] + expected[1..];
    }
  }

  lemma NoneDivertsExactlyWhen(es: seq<Encoding>, rest: seq<byte>)
    requires |rest| >= WINDOW
    ensures NoneDiverts(es, rest) == (
              es != [] ==>
                && (es[0].escape ==> !Diverts(ByteAfterOpcode(es[0], StreamBytes(es[1..], rest))))
                && NoneDiverts(es[1..], rest))
  {
    hide StreamBytes, ByteAfterOpcode, Diverts;
  }

  /** CPUID and SYSCALL. */
  const CPUID := Encoding([], None, true, 0xA2, None, None, [], [])
  const SYSCALL := Encoding([], None, true, 0x05, None, None, [], [])

  /** The bytes 0F A2 0F 05: the decoder takes three of them for one instruction it does not know. */
  lemma DivertedPair(rest: seq<byte>)
    requires |rest| >= WINDOW
    ensures var es := [CPUID, SYSCALL];
            && AllWellFormed(TABLES, es)
            && Decode(TABLES, StreamBytes(es, rest)) == Decoded(None, START.flags, 3)
            && DecodeMany(TABLES, StreamBytes(es, rest), 2) != ExpectedMany(TABLES, es)
  {
    var es, code := [CPUID, SYSCALL], [0x0F, 0xA2, 0x0F, 0x05] + rest;
    assert es[1..] == [SYSCALL];
    assert Concatenate([SYSCALL]) == Bytes(SYSCALL) + [] == [0x0F, 0x05];
    assert Concatenate(es) == Bytes(CPUID) + Concatenate([SYSCALL]) == [0x0F, 0xA2, 0x0F, 0x05];
    assert StreamBytes(es, rest) == code;
    assert !NoneDiverts(es, rest);
    RecoversStreamExactlyWhen(es, rest);
  }

  lemma NothingToDecode(T: Tables, rest: seq<byte>)
    ensures DecodeMany(T, StreamBytes([], rest), 0) == [] == ExpectedMany(T, [])
  {
  }

  lemma NoneDivertsUnfolds(es: seq<Encoding>, rest: seq<byte>)
    requires es != [] && |rest| > 0 && NoneDiverts(es, rest)
    ensures es[0].escape ==> !Diverts(ByteAfterOpcode(es[0], StreamBytes(es[1..], rest)))
    ensures NoneDiverts(es[1..], rest)
  {
    hide StreamBytes, ByteAfterOpcode;
  }

  lemma DecodeManyUnfolds(T: Tables, code: seq<byte>, n: nat)
    requires n > 0 && |code| >= WINDOW
    ensures var r := Decode(T, code);
            DecodeMany(T, code, n) ==
            if r.Overrun? || r.size > |code| then [r] else [r] + DecodeMany(T, code[r.size..], n - 1)
  {
    hide Decode;
  }

  lemma ExpectedUnfolds(T: Tables, es: seq<Encoding>)
    requires es != []
    ensures ExpectedMany(T, es) == [Expected(T, es[0])] + ExpectedMany(T, es[1..])
  {
    hide Expected;
  }
}
