/**
  Guest instructions by their encodings, with the meaning the architecture gives
  them, and the proof that a translated block of such instructions has the
  effect of executing them one at a time.

  As in the program, ADD, XOR and SHL leave the flags alone.
*/
module Simulation {
  import opened Words
  import opened Wrappers
  import opened IR
  import opened Machine
  import opened X86Tables
  import opened Decoder
  import opened DecoderRoundTrip
  import opened Handlers
  import opened HandlerShapes
  import opened Translate
  import opened BlockMeaning
  import opened SuffixClosure
  import opened LinkedLoops
  import opened Flags
  import opened StreamShape
  import opened Effects

  /*** The guest's instructions ***/

  datatype Guest =
    | AddReg(wide: bool, dest: nat, src: nat)
    | XorReg(wide: bool, dest: nat, src: nat)
    | MovReg(wide: bool, dest: nat, src: nat)
    | ShlReg(wide: bool, dest: nat, amount: nat)
    | BitTest(dest: nat, src: nat)
    | Lea(dest: nat, base: nat, displacement: Word)
    | Nop
    | JmpReg(src: nat)
    | Ret

  datatype Parsed = Parsed(guest: Guest, length: nat)

  predicate HasRexPrefix(code: Code) { IsRex(code[0]) }
  function RexOf(code: Code): byte { if HasRexPrefix(code) then code[0] else 0 }

  /** Where the opcode lies. */
  function At(code: Code): nat { if HasRexPrefix(code) then 1 else 0 }

  function RegOf(code: Code, modrm: byte): (r: nat)
    ensures r < 16
  {
    RegisterIndex(RexR(RexOf(code)), RegField(modrm))
  }

  function RmOf(code: Code, modrm: byte): (r: nat)
    ensures r < 16
  {
    RegisterIndex(RexB(RexOf(code)), RmField(modrm))
  }

  /** The forms treated here: an optional REX prefix without X, and no legacy prefix. */
  function Parse(code: Code): Option<Parsed> {
    var p := At(code);
    var op, m := code[p], code[p + 1];
    var w := RexW(RexOf(code)) == 1;
    var register := ModField(m) == 3;
    if RexX(RexOf(code)) == 1 then None
    else if op == 0x01 && register then Some(Parsed(AddReg(w, RmOf(code, m), RegOf(code, m)), p + 2))
    else if op == 0x31 && register then Some(Parsed(XorReg(w, RmOf(code, m), RegOf(code, m)), p + 2))
    else if op == 0x89 && register && (w || !HasRexPrefix(code)) then
      Some(Parsed(MovReg(w, RmOf(code, m), RegOf(code, m)), p + 2))
    else if op == 0xC1 && register && RegField(m) == 4 && code[p + 2] < (if w then 64 else 32) then
      Some(Parsed(ShlReg(w, RmOf(code, m), code[p + 2]), p + 3))
    else if op == 0x0F && m == 0xA3 && ModField(code[p + 2]) == 3 && !w then
      Some(Parsed(BitTest(RmOf(code, code[p + 2]), RegOf(code, code[p + 2])), p + 3))
    else if op == 0x8D && w && ModField(m) == 2 && RmField(m) != 4 then
      Some(Parsed(
        Lea(RegOf(code, m), RmOf(code, m), SignExtend32(code[p + 2], code[p + 3], code[p + 4], code[p + 5])), p + 6))
    else if op == 0x90 && !HasRexPrefix(code) then Some(Parsed(Nop, 1))
    else if op == 0xFF && register && RegField(m) == 4 then Some(Parsed(JmpReg(RmOf(code, m)), p + 2))
    else if op == 0xC3 && !HasRexPrefix(code) then Some(Parsed(Ret, 1))
    else None
  }

  ghost predicate RegistersInRange(i: Guest) {
    match i
    case AddReg(_, d, r) => d < 16 && r < 16
    case XorReg(_, d, r) => d < 16 && r < 16
    case MovReg(_, d, r) => d < 16 && r < 16
    case ShlReg(w, d, n) => d < 16 && n < if w then 64 else 32
    case BitTest(d, r) => d < 16 && r < 16
    case Lea(d, b, _) => d < 16 && b < 16
    case JmpReg(r) => r < 16
    case _ => true
  }

  /** What an instruction does, apart from advancing the instruction pointer. */
  function Effect(env: Environment, i: Guest, s: State): State
    requires RegistersInRange(i)
  {
    match i
    case AddReg(wide, d, r) =>
      s.(gregs := s.gregs[d := (s.gregs[d] + s.gregs[r]) % if wide then M64 else M32])
    case XorReg(wide, d, r) =>
      s.(gregs := s.gregs[d := if wide then ExclusiveOr(s.gregs[d], s.gregs[r])
                                else ExclusiveOr(s.gregs[d] % M32, s.gregs[r] % M32)])
    case MovReg(wide, d, r) =>
      s.(gregs := s.gregs[d := s.gregs[r] % if wide then M64 else M32])
    case ShlReg(wide, d, n) =>
      s.(gregs := s.gregs[d := (s.gregs[d] * Pow2(n)) % if wide then M64 else M32])
    case BitTest(d, r) =>
      s.(rflags := s.rflags - s.rflags % 2 + Bit(s.gregs[d], s.gregs[r] % 32))
    case Lea(d, b, displacement) =>
      s.(gregs := s.gregs[d := (s.gregs[b] + displacement) % M64])
    case Nop => s
    case JmpReg(r) => s.(rip := s.gregs[r])
    case Ret =>
      var rsp := s.gregs[REG_RSP];
      s.(rip := LoadWord(env.memory, rsp, 8), gregs := s.gregs[REG_RSP := (rsp + 8) % M64])
  }

  predicate Jumps(i: Guest) { i.JmpReg? || i.Ret? }

  /** One guest instruction. */
  function GuestStep(env: Environment, s: State): Option<State> {
    match Parse(CodeAt(env.memory, s.rip))
    case None => None
    case Some(Parsed(i, length)) =>
      ParsedInRange(CodeAt(env.memory, s.rip));
      var t := Effect(env, i, s);
      Some(if Jumps(i) then t else t.(rip := (s.rip + length) % M64))
  }

  /** `n` guest instructions. */
  function GuestRun(env: Environment, s: State, n: nat): Option<State>
    decreases n
  {
    if n == 0 then Some(s)
    else
      match GuestStep(env, s)
      case None => None
      case Some(t) => GuestRun(env, t, n - 1)
  }

  lemma ParsedInRange(code: Code)
    ensures Parse(code).Some? ==>
              RegistersInRange(Parse(code).value.guest) && 0 < Parse(code).value.length <= MAX_INSTRUCTION
  {
    hide RegOf, RmOf, ModField, RegField, RmField, RexW, RexX, SignExtend32;
  }

  /*** Decoding the forms ***/

  function HandlerOf(i: Guest): Handler {
    match i
    case AddReg(_, _, _) => AddOp
    case XorReg(_, _, _) => XorOp
    case MovReg(_, _, _) => MovOp
    case ShlReg(_, _, _) => ShlImmOp
    case BitTest(_, _) => BTOp
    case Lea(_, _, _) => LEAOp
    case Nop => NoOp
    case JmpReg(_) => JMPOp
    case Ret => RETOp
  }

  /** The encoding of a form. */
  function EncodingOf(code: Code): Encoding {
    var p := At(code);
    var rex: Option<byte> := if HasRexPrefix(code) then Some(code[0]) else None;
    var op, m := code[p], code[p + 1];
    if op == 0x0F then Encoding([], rex, true, m, Some(code[p + 2]), None, [], [])
    else if op == 0x90 || op == 0xC3 then Encoding([], rex, false, op, None, None, [], [])
    else if op == 0x8D then Encoding([], rex, false, op, Some(m), None, code[p + 2..p + 6], [])
    else if op == 0xC1 then Encoding([], rex, false, op, Some(m), None, [], [code[p + 2]])
    else Encoding([], rex, false, op, Some(m), None, [], [])
  }

  lemma FormBytes(code: Code)
    requires Parse(code).Some?
    ensures Bytes(EncodingOf(code)) == code[..Parse(code).value.length]
  {
    hide Parse, EncodingOf, Opcode, Operands;
    var e, p, n := EncodingOf(code), At(code), Parse(code).value.length;
    FormTail(code);
    FormLead(code);
    var lead, tail := code[..p], code[p..n];
    assert Bytes(e) == lead + tail;
    assert code[..n] == lead + tail;
  }

  lemma FormLead(code: Code)
    ensures [] + OptionalByte(if HasRexPrefix(code) then Some(code[0]) else None) == code[..At(code)]
  {
  }

  lemma FormTail(code: Code)
    requires Parse(code).Some?
    ensures var e, p, n := EncodingOf(code), At(code), Parse(code).value.length;
            && p <= n <= |code| && Opcode(e) + Operands(e) == code[p..n]
            && e.prefixes == [] && e.rex == if HasRexPrefix(code) then Some(code[0]) else None
  {
    hide Parse, HasRexPrefix, Opcode, Operands;
    ParsedInRange(code);
    FormLength(code);
    OperandBytesOf(EncodingOf(code));
    TailBytes(code, At(code));
  }

  /** One, two, three and six bytes of the code. */
  lemma TailBytes(code: Code, p: nat)
    requires p <= 1
    ensures code[p..p + 1] == [code[p]] && code[p..p + 2] == [code[p]] + ([code[p + 1]] + [])
    ensures code[p..p + 3] == [code[p]] + ([code[p + 1]] + ([] + [code[p + 2]]))
    ensures code[p..p + 3] == [code[p], code[p + 1]] + ([code[p + 2]] + ([] + []))
    ensures code[p..p + 6] == [code[p]] + ([code[p + 1]] + (code[p + 2..p + 6] + []))
  {
  }

  /** The bytes of an encoding without a SIB byte. */
  lemma OperandBytesOf(e: Encoding)
    requires e.sib == None
    ensures Opcode(e) == if e.escape then [0x0F, e.opcode] else [e.opcode]
    ensures Operands(e) == (if e.modrm.Some? then [e.modrm.value] else []) + (e.displacement + e.immediate)
    ensures e.modrm == None && e.displacement == [] && e.immediate == [] ==> Operands(e) == []
  {
  }

  lemma FormLength(code: Code)
    requires Parse(code).Some?
    ensures var op := code[At(code)];
            Parse(code).value.length - At(code) ==
            if op == 0x0F || op == 0xC1 then 3 else if op == 0x8D then 6 else if op == 0x90 || op == 0xC3 then 1 else 2
  {
    hide RegOf, RmOf, SignExtend32, ModField, RegField, RmField, RexW, RexX;
  }

  /** The table entries the forms use. */
  lemma FormEntries()
    ensures BaseOps(0x01) == Inst(MODRM_DIV2, 0, AddOp) && BaseOps(0x31) == Inst(MODRM, 0, XorOp)
    ensures BaseOps(0x89) == Inst(MODRM, 0, MovOp) && BaseOps(0x8D) == Inst(MODRM, 0, LEAOp)
    ensures BaseOps(0x90) == Inst(NONE, 0, NoOp) && BaseOps(0xC3) == Inst(SETS_RIP, 0, RETOp)
  {
  }

  lemma ExtendedFormEntries()
    ensures BaseOps(0xC1).kind == TypeModRMTable && ModRMOps(0xC1, 4) == Inst(MODRM, 1, ShlImmOp)
    ensures BaseOps(0xFF).kind == TypeModRMTable
    ensures ModRMOps(0xFF, 4) == Inst(MODRM.(blockEnd := true, setsRip := true), 0, JMPOp)
    ensures SecondBaseOps(0xA3) == Inst(MODRM, 0, BTOp)
  {
  }

  lemma FormOpcode(code: Code)
    requires Parse(code).Some?
    ensures var op := code[At(code)];
            op == 0x01 || op == 0x31 || op == 0x89 || op == 0xC1 || op == 0x0F || op == 0x8D || op == 0x90 ||
            op == 0xFF || op == 0xC3
  {
    hide RegOf, RmOf, SignExtend32, ModField, RegField, RmField, RexW, RexX;
  }

  lemma FormEntry(code: Code)
    requires Parse(code).Some?
    ensures var e, info := EncodingOf(code), EntryOf(TABLES, EncodingOf(code));
            && info.handler == HandlerOf(Parse(code).value.guest)
            && info.kind == TypeInst && !info.flags.rexInByte
            && (info.flags.hasModRM <==> e.modrm.Some?)
            && |e.immediate| == info.moreBytes && (info.flags.displaceMul2 ==> false)
            && (!e.escape && BaseOps(e.opcode).kind == TypeModRMTable ==> e.modrm.Some?)
  {
    hide RegOf, RmOf, SignExtend32, ModField, RegField, RmField, RexW, RexX, HasRexPrefix, BaseOps, SecondBaseOps,
         ModRMOps;
    FormEntries();
    ExtendedFormEntries();
    FormOpcode(code);
  }

  /** No legacy prefix, no SIB byte, and a displacement only for LEA. */
  lemma FormOperands(code: Code)
    requires Parse(code).Some?
    ensures var e := EncodingOf(code);
            && e.prefixes == [] && e.sib == None && e.rex == (if HasRexPrefix(code) then Some(code[0]) else None)
            && !HasRex(e, RexX)
            && (e.modrm.Some? ==>
                  |e.displacement| == DisplacementSize(e.modrm, None)
                  && (ModField(e.modrm.value) == 3 || RmField(e.modrm.value) != 4)
                  && (e.escape ==> ModField(e.modrm.value) == 3))
            && (e.modrm.None? ==> e.displacement == [] && e.rex.None? && !e.escape)
            && (!e.escape ==> e.opcode == code[At(code)] && e.opcode != 0x0F)
  {
    hide RegOf, RmOf, SignExtend32, RmField, RegField, RexW;
    FormOpcode(code);
  }

  lemma FormIsWellFormed(code: Code)
    requires Parse(code).Some?
    ensures WellFormed(TABLES, EncodingOf(code))
  {
    hide Parse, EncodingOf, BaseOps, SecondBaseOps, ModRMOps, ModField, RmField, RegField, EntryOf,
         Bytes, RexX, RexR, RexB;
    FormBytes(code);
    ParsedInRange(code);
    FormEntry(code);
    FormOperands(code);
    FormOpcode(code);
    FormEntries();
    ExtendedFormEntries();
  }

  /** The decoder on a form: its handler, its length and no flag but REX and ModRM. */
  lemma FormDecodes(code: Code)
    requires Parse(code).Some?
    ensures var e := EncodingOf(code);
            Decode(TABLES, code) == Decoded(
              Some(EntryOf(TABLES, e)),
              DecodeFlags(HasRexPrefix(code), false, false, e.modrm.Some?, false, false),
              Parse(code).value.length)
  {
    hide Parse, EncodingOf, DisplacementSize, RmField, RegField, EntryOf, Bytes, RexX, RexR, RexB, Decode, WellFormed;
    FormBytes(code);
    ParsedInRange(code);
    FormOperands(code);
    FormIsWellFormed(code);
    var e := EncodingOf(code);
    var rest := code[Parse(code).value.length..];
    assert code == Bytes(e) + rest;
    assert e.modrm.Some? ==> (Operands(e) + rest)[0] == e.modrm.value;
    RecoversOne(TABLES, e, rest);
  }

  /*** The handlers on the forms ***/

  /** An instruction as the translator sees it, decoded as the form `p`. */
  ghost predicate HasForm(i: Instruction, p: Parsed) {
    && Parse(i.site.code) == Some(p)
    && i.handler == HandlerOf(p.guest) && i.site.size == p.length
    && i.site.flags == DecodeFlags(
         HasRexPrefix(i.site.code), false, false, EncodingOf(i.site.code).modrm.Some?, false, false)
  }

  /** And accepted. */
  ghost predicate IsForm(i: Instruction, p: Parsed) {
    HasForm(i, p) && !Emit(i.handler, i.site).failed
  }

  /** The handler reads the same fields of the code as the form. */
  lemma FormFields(i: Instruction, p: Parsed)
    requires HasForm(i, p)
    ensures var x, code := i.site, i.site.code;
            && x.Rex() == RexOf(code) && x.flags.rex == HasRexPrefix(code)
            && x.ModRM() == code[At(code) + 1]
            && x.Reg() == RegOf(code, x.ModRM()) && x.Rm() == RmOf(code, x.ModRM())
            && x.OperandSize() == (if RexW(RexOf(code)) == 1 then 8 else 4)
            && x.Last(1) == code[p.length - 1]
            && (p.length >= 4 ==>
                  x.Immediate32()
                  == SignExtend32(code[p.length - 4], code[p.length - 3], code[p.length - 2], code[p.length - 1]))
  {
    hide Parse, EncodingOf, Emit, SignExtend32, HandlerOf;
    ParsedInRange(i.site.code);
  }

  /** The fragment of each form. */
  lemma AddFragmentOfForm(i: Instruction, p: Parsed)
    requires IsForm(i, p) && p.guest.AddReg?
    ensures FragmentOf(i) == Plain([LoadReg(p.guest.src)] + AddTail(8, 0, p.guest.dest, if p.guest.wide then 8 else 4))
  {
    hide RegOf, RmOf, RegisterIndex, RmField, RexX, SignExtend32, AddTail, RexR, RexB, LoadReg;
    FormFields(i, p);
  }

  lemma ArithmeticForm(env: Environment, i: Instruction, p: Parsed, s: State)
    requires IsForm(i, p) && (p.guest.AddReg? || p.guest.XorReg?) && RegistersInRange(p.guest)
    ensures FragmentOf(i).Plain? && EndsIn(env, FragmentOf(i).ops, s, Effect(env, p.guest, s))
  {
    hide RegOf, RmOf, RegisterIndex, ModField, RegField, RmField, RexX, SignExtend32, EndsIn, AddTail, RexR, RexB,
         Xor, ExclusiveOr;
    FormFields(i, p);
    match p.guest
    case AddReg(wide, d, r) =>
      AddFragmentOfForm(i, p);
      if wide { AddWide(env, r, d, s); } else { AddNarrow(env, r, d, s); }
    case XorReg(wide, d, r) =>
      XorIsExclusiveOr(s.gregs[d], s.gregs[r]);
      XorIsExclusiveOr(s.gregs[d] % M32, s.gregs[r] % M32);
      if wide { XorWide(env, r, d, s); } else { XorNarrow(env, r, d, s); }
  }

  lemma MoveForm(env: Environment, i: Instruction, p: Parsed, s: State)
    requires IsForm(i, p) && (p.guest.MovReg? || p.guest.Lea? || p.guest.ShlReg?) && RegistersInRange(p.guest)
    ensures FragmentOf(i).Plain? && EndsIn(env, FragmentOf(i).ops, s, Effect(env, p.guest, s))
  {
    hide RegOf, RmOf, RegisterIndex, ModField, RegField, RmField, RexX, SignExtend32, EndsIn, RexR, RexB, Pow2;
    FormFields(i, p);
    match p.guest
    case MovReg(wide, d, r) =>
      MovBoth(env, r, d, s);
    case Lea(d, b, displacement) =>
      LeaEffect(env, b, d, displacement, s);
    case ShlReg(wide, d, n) =>
      ShiftForm(env, i, p, s);
  }

  lemma ShiftForm(env: Environment, i: Instruction, p: Parsed, s: State)
    requires IsForm(i, p) && p.guest.ShlReg? && RegistersInRange(p.guest)
    ensures FragmentOf(i).Plain? && EndsIn(env, FragmentOf(i).ops, s, Effect(env, p.guest, s))
  {
    hide RegOf, RmOf, RegisterIndex, ModField, RegField, RmField, RexX, SignExtend32, EndsIn, RexR, RexB, Pow2;
    FormFields(i, p);
    var ShlReg(wide, d, n) := p.guest;
    if wide { ShlWide(env, d, n, s); } else { ShlNarrow(env, d, n, s); }
  }

  lemma OtherForm(env: Environment, i: Instruction, p: Parsed, s: State)
    requires IsForm(i, p) && (p.guest.JmpReg? || p.guest.Ret? || p.guest.Nop? || p.guest.BitTest?)
    requires RegistersInRange(p.guest)
    ensures FragmentOf(i).Plain? && EndsIn(env, FragmentOf(i).ops, s, Effect(env, p.guest, s))
  {
    hide RegOf, RmOf, RegisterIndex, RegField, RmField, RexX, SignExtend32, EndsIn, RexR, RexB, LoadWord, Bit, SetCFOps,
         RET_OPS;
    FormFields(i, p);
    match p.guest
    case JmpReg(r) => JmpEffect(env, r, s);
    case Ret => RetEffect(env, s);
    case Nop => NoEffect(env, s);
    case BitTest(d, r) =>
      BitTestFields(i, p);
      BitTestEffect(env, r, d, s);
    case _ =>
  }

  lemma NoEffect(env: Environment, s: State)
    ensures EndsIn(env, [], s, s)
  {
  }

  lemma BitTestFields(i: Instruction, p: Parsed)
    requires IsForm(i, p) && p.guest.BitTest?
    ensures FragmentOf(i) == Plain(
              [ LoadReg(p.guest.dest), LoadReg(p.guest.src), Constant(TYPE_I8, 31), Binary(OpAnd, 8, 16),
                Binary(OpBitExtract, 0, 32) ] + SetCFOps(56, 44))
  {
    hide RegisterIndex, RexX, SignExtend32, SetCFOps, LoadReg, RexR, RexB, RegField, RmField;
    FormFields(i, p);
  }

  /** An accepted form has the effect the architecture gives it. */
  lemma FormEffect(env: Environment, d: Dialect, i: Instruction, p: Parsed, s: State)
    requires IsForm(i, p) && RegistersInRange(p.guest)
    ensures FragmentRun(env, d, FragmentOf(i), s) == Falls(Effect(env, p.guest, s))
    ensures SetsRip(i.handler) <==> Jumps(p.guest)
  {
    hide Emit, Effect, IsForm, Straight;
    if p.guest.AddReg? || p.guest.XorReg? {
      ArithmeticForm(env, i, p, s);
    } else if p.guest.MovReg? || p.guest.Lea? || p.guest.ShlReg? {
      MoveForm(env, i, p, s);
    } else {
      OtherForm(env, i, p, s);
    }
    HandlerIsOfForm(i, p);
  }

  lemma HandlerIsOfForm(i: Instruction, p: Parsed)
    requires IsForm(i, p)
    ensures i.handler == HandlerOf(p.guest)
  {
  }

  /** The translation loop dispatches every instruction of a known form as that form. */
  lemma FormDispatches(memory: Memory, g: Guards, start: Word, at: Word)
    requires Parse(CodeAt(memory, at)).Some?
    ensures var look, p := Inspect(memory, g, start, at), Parse(CodeAt(memory, at)).value;
            && look.Dispatched? && look.item.site.code == CodeAt(memory, at)
            && HasForm(look.item, p) && RegistersInRange(p.guest)
            && look.endsBlock == look.setsRip == Jumps(p.guest)
  {
    hide Decode, CodeAt, Emit, Parse, EncodingOf, RegistersInRange, EntryOf, HasRexPrefix, Jumps;
    var code := CodeAt(memory, at);
    FormDecodes(code);
    FormEntry(code);
    FormEnds(code);
    ParsedInRange(code);
  }

  lemma FormEnds(code: Code)
    requires Parse(code).Some?
    ensures var flags := EntryOf(TABLES, EncodingOf(code)).flags;
            flags.blockEnd == flags.setsRip == Jumps(Parse(code).value.guest)
  {
    hide RegOf, RmOf, SignExtend32, ModField, RegField, RmField, RexW, RexX, HasRexPrefix, BaseOps, SecondBaseOps,
         ModRMOps;
    FormEntries();
    ExtendedFormEntries();
    FormOpcode(code);
  }

  /** An inspected instruction of a known form is decoded as that form. */
  lemma InspectedForm(memory: Memory, g: Guards, start: Word, at: Word)
    requires var look := Inspect(memory, g, start, at);
             look.Dispatched? && !look.failed && Parse(look.item.site.code).Some?
    ensures var item := Inspect(memory, g, start, at).item;
            && item.site.code == CodeAt(memory, at)
            && IsForm(item, Parse(item.site.code).value) && RegistersInRange(Parse(item.site.code).value.guest)
  {
    hide Decode, CodeAt, Emit, Parse, HasForm, RegistersInRange;
    assert Inspect(memory, g, start, at).item.site.code == CodeAt(memory, at);
    FormDispatches(memory, g, start, at);
  }

  /**
    A form is accepted exactly when it is not a LEA whose destination has 4 in the
    `reg` field, that is RSP or R12: the handler takes it for a SIB byte.
  */
  lemma FormAcceptedExactlyWhen(i: Instruction, p: Parsed)
    requires HasForm(i, p)
    ensures Emit(i.handler, i.site).failed <==>
              p.guest.Lea? && RegField(i.site.code[At(i.site.code) + 1]) == 4
  {
    hide RegOf, RmOf, RegisterIndex, RegField, RmField, RexX, SignExtend32, RexR, RexB, SetCFOps, RET_OPS, AddTail;
    FormFields(i, p);
  }

  /** Every form in memory is dispatched, and if accepted the operations it becomes do what it is specified to do. */
  lemma FormIsTranslated(env: Environment, d: Dialect, g: Guards, start: Word, at: Word, s: State)
    requires Parse(CodeAt(env.memory, at)).Some?
    ensures var look, p := Inspect(env.memory, g, start, at), Parse(CodeAt(env.memory, at)).value;
            && look.Dispatched? && look.endsBlock == look.setsRip == Jumps(p.guest) && look.item.site.size == p.length
            && (look.failed <==> p.guest.Lea? && RegField(CodeAt(env.memory, at)[At(CodeAt(env.memory, at)) + 1]) == 4)
            && RegistersInRange(p.guest)
            && (!look.failed ==> FragmentRun(env, d, FragmentOf(look.item), s) == Falls(Effect(env, p.guest, s)))
  {
    hide Inspect, Parse, CodeAt, Emit, Effect, FragmentRun, FragmentOf, RegField, Jumps, HasRexPrefix, EncodingOf;
    FormDispatches(env.memory, g, start, at);
    InspectedItem(env.memory, g, start, at);
    var i, p := Inspect(env.memory, g, start, at).item, Parse(CodeAt(env.memory, at)).value;
    FormAcceptedExactlyWhen(i, p);
    if !Emit(i.handler, i.site).failed {
      FormEffect(env, d, i, p, s);
    }
  }

  /*** Whole blocks ***/

  /** Every accepted instruction is of a form above, and a rejected one does not abort the backend. */
  ghost predicate OnlyForms(b: Block) {
    && (forall i :: 0 <= i < |b.items| ==> Parse(b.items[i].site.code).Some?)
    && (b.rejected.Some? ==> !LoadsHalfWord(b.rejected.value.handler, b.rejected.value.site))
  }

  lemma BlockLength(memory: Memory, g: Guards, start: Word)
    requires |Translating(memory, g, start, 0, 0).items| > 0
    ensures var r := Translating(memory, g, start, 0, 0);
            r.length == BytesBefore(r.items, |r.items|)
  {
    hide Inspect, Translating;
    var r := Translating(memory, g, start, 0, 0);
    var i := |r.items| - 1;
    LoopReaches(memory, g, start, i);
    assert r.items[i..] == [r.items[i]];
    LastLength(memory, g, start, BytesBefore(r.items, i), i);
  }

  lemma LastLength(memory: Memory, g: Guards, start: Word, length: Word, count: nat)
    requires count < MAX_SIZE && |Translating(memory, g, start, length, count).items| == 1
    ensures var r := Translating(memory, g, start, length, count);
            r.length == Add(length, r.items[0].site.size)
  {
    hide Inspect;
    match Inspect(memory, g, start, Add(start, length))
    case Dispatched(item, failed, ends, sets) =>
      if !failed && !ends && !sets && count + 1 < MAX_SIZE {
        var r := Translating(memory, g, start, Add(length, item.site.size), count + 1);
        assert r.items == [];
      }
    case _ =>
  }

  /**
    The end of a block that a rejected instruction ended: what its handler left
    behind stops the backend if it loads two bytes; otherwise it does nothing, and
    the instruction pointer advances by the bytes of the accepted instructions.
  */
  lemma RejectedEnd(env: Environment, g: Guards, start: Word, b: Block, s: State)
    requires TranslationOf(env.memory, g, start) == Translated(b) && b.rejected.Some?
    ensures FinishBlock(env, b, s) ==
            if LoadsHalfWord(b.rejected.value.handler, b.rejected.value.site) then Stuck
            else Done(s.(rip := Add(s.rip, BytesBefore(b.items, |b.items|))))
  {
    hide Inspect, Translating, Emit, Straight, LoadsHalfWord;
    BlockLength(env.memory, g, start);
    RejectedInstruction(env.memory, g, start, 0, 0);
    AcceptedInstruction(env.memory, g, start, |b.items| - 1);
    RejectedHarmlessExactlyWhen(env, b.rejected.value.handler, b.rejected.value.site, s);
  }

  /** A block ended early means its accepted prefix, from every instruction on, unless it loads two bytes. */
  lemma {:induction false} EarlyEndIsPrefix(
      env: Environment, d: Dialect, g: Guards, start: Word, b: Block, i: nat, s: State, fuel: nat)
    requires TranslationOf(env.memory, g, start) == Translated(b) && b.rejected.Some? && i <= |b.items|
    requires !LoadsHalfWord(b.rejected.value.handler, b.rejected.value.site)
    ensures BlockRun(env, d, b, i, s, fuel)
         == BlockRun(env, d, Block(b.items, None, BytesBefore(b.items, |b.items|)), i, s, fuel)
    decreases fuel, |b.items| - i
  {
    hide Inspect, TranslationOf, FragmentOf, FragmentRun, LoadsHalfWord, FinishBlock, BlockRun, LastAt, BytesBefore;
    var prefix := Block(b.items, None, BytesBefore(b.items, |b.items|));
    BlockRunUnfolds(env, d, b, i, s, fuel);
    BlockRunUnfolds(env, d, prefix, i, s, fuel);
    if i == |b.items| {
      RejectedEnd(env, g, start, b, s);
      FinishesPlainly(env, prefix, s);
    } else {
      match FragmentRun(env, d, FragmentOf(b.items[i]), s)
      case Stops =>
      case Falls(t) => EarlyEndIsPrefix(env, d, g, start, b, i + 1, t, fuel);
      case Exits(t, r) =>
        var j := LastAt(b.items, i + 1, r);
        if d.linksBackward && j > 0 && fuel > 0 {
          EarlyEndIsPrefix(env, d, g, start, b, j - 1, t, fuel - 1);
        }
    }
  }

  lemma FinishesPlainly(env: Environment, b: Block, s: State)
    requires b.rejected.None?
    ensures FinishBlock(env, b, s) == Done(s.(rip := Add(s.rip, b.increment)))
  {
  }

  /** The guest's state that corresponds to the block's state before instruction `i`. */
  function GuestView(memory: Memory, g: Guards, start: Word, b: Block, i: nat, s: State): State
    requires i <= |b.items|
  {
    if i == |b.items| && Translating(memory, g, start, 0, 0).setsRip then s
    else s.(rip := Add(start, BytesBefore(b.items, i)))
  }

  lemma EndOfBlock(env: Environment, d: Dialect, g: Guards, start: Word, b: Block, s: State)
    requires TranslationOf(env.memory, g, start) == Translated(b) && OnlyForms(b)
    requires Translating(env.memory, g, start, 0, 0).setsRip || s.rip == start
    ensures FinishBlock(env, b, s) == Done(GuestView(env.memory, g, start, b, |b.items|, s))
  {
    hide Inspect, Translating, Emit, Straight, LoadsHalfWord;
    BlockLength(env.memory, g, start);
    if b.rejected.Some? {
      RejectedEnd(env, g, start, b, s);
    }
    if Translating(env.memory, g, start, 0, 0).setsRip {
      AcceptedInstruction(env.memory, g, start, |b.items| - 1);
    }
  }

  /** The block from instruction `i` on, and the guest from there on. */
  lemma {:induction false} BlockSimulatesGuest(
      env: Environment, d: Dialect, g: Guards, start: Word, b: Block, i: nat, s: State, fuel: nat)
    requires TranslationOf(env.memory, g, start) == Translated(b) && OnlyForms(b)
    requires i <= |b.items|
    requires s.rip == start || (i == |b.items| && Translating(env.memory, g, start, 0, 0).setsRip)
    ensures var t := GuestRun(env, GuestView(env.memory, g, start, b, i, s), |b.items| - i);
            t.Some? && BlockRun(env, d, b, i, s, fuel) == Done(t.value)
    decreases |b.items| - i
  {
    hide Inspect, Translating, Emit, BlockRun, FragmentRun, FragmentOf, Parse, Effect, GuestRun, IsForm, CodeAt, Fetch,
         LastAt, GuestStep;
    var a := GuestView(env.memory, g, start, b, i, s);
    GuestRunUnfolds(env, a, |b.items| - i);
    BlockRunUnfolds(env, d, b, i, s, fuel);
    if i == |b.items| {
      EndOfBlock(env, d, g, start, b, s);
    } else {
      var item := b.items[i];
      AcceptedInstruction(env.memory, g, start, i);
      InspectedForm(env.memory, g, start, item.rip);
      InspectedItem(env.memory, g, start, item.rip);
      var p := Parse(item.site.code).value;
      FormEffect(env, d, item, p, s);
      InstructionFacts(env, d, g, start, b, i, s, a);
      FormEffect(env, d, item, p, a);
      IsFormLength(item, p);
      var t := Effect(env, p.guest, s);
      AddAssoc(start, BytesBefore(b.items, i), item.site.size);
      StepOfForm(env, a, p);
      BlockSimulatesGuest(env, d, g, start, b, i + 1, t, fuel);
    }
  }

  lemma IsFormLength(i: Instruction, p: Parsed)
    requires IsForm(i, p)
    ensures i.site.size == p.length
  {
  }

  lemma StepOfForm(env: Environment, a: State, p: Parsed)
    requires Parse(CodeAt(env.memory, a.rip)) == Some(p) && RegistersInRange(p.guest)
    ensures p.length <= MAX_INSTRUCTION
    ensures var t := Effect(env, p.guest, a);
            GuestStep(env, a) == Some(if Jumps(p.guest) then t else t.(rip := Add(a.rip, p.length)))
  {
    hide Parse, Effect;
    ParsedInRange(CodeAt(env.memory, a.rip));
  }

  lemma GuestRunUnfolds(env: Environment, s: State, n: nat)
    ensures GuestRun(env, s, n) ==
            if n == 0 then Some(s)
            else
              match GuestStep(env, s)
              case None => None
              case Some(t) => GuestRun(env, t, n - 1)
  {
    hide GuestStep;
  }

  lemma FormsAreGood(memory: Memory, g: Guards, start: Word, b: Block)
    requires TranslationOf(memory, g, start) == Translated(b) && OnlyForms(b)
    ensures GoodBlock(b)
  {
    hide Inspect, Translating, Emit, Parse, GoodFragment;
    TranslationsAreFromHandlers(memory, g, start, b);
    forall i | 0 <= i < |b.items|
      ensures !SelfReferential(b.items[i].handler)
    {
      AcceptedInstruction(memory, g, start, i);
      InspectedForm(memory, g, start, b.items[i].rip);
      HandlerIsOfForm(b.items[i], Parse(b.items[i].site.code).value);
    }
    GoodExactlyWhen(b);
  }

  /** None of the forms is 16 bits wide. */
  lemma FormIsNoHalfWord(i: Instruction, p: Parsed)
    requires IsForm(i, p)
    ensures i.site.OperandSize() != 2
  {
    hide Emit, EncodingOf, RegOf, RmOf, HandlerOf;
    FormFields(i, p);
  }

  /**
    Block translation simulation: the stream built from the guest's bytes, run
    once, ends in the state the guest reaches by executing the accepted
    instructions one at a time.
  */
  lemma TranslationSimulatesGuest(env: Environment, d: Dialect, g: Guards, b: Block, s: State, fuel: nat)
    requires TranslationOf(env.memory, g, s.rip) == Translated(b) && OnlyForms(b) && d.acceptsMarkers
    ensures var t := GuestRun(env, s, |b.items|);
            t.Some? && Run(env, d, Assemble(b), 0, map[], s, fuel) == Done(t.value)
  {
    hide Inspect, Translating, Emit, BlockRun, Run, GuestRun, GoodFragment, GoodBlock, Assemble;
    FormsAreGood(env.memory, g, s.rip, b);
    StreamMeansBlock(env, d, b, map[], s, fuel);
    BlockSimulatesGuest(env, d, g, s.rip, b, 0, s, fuel);
    assert s.(rip := Add(s.rip, 0)) == s;
  }

  /*** A block ***/

  lemma FirstByte(memory: Memory, at: Word)
    ensures CodeAt(memory, at)[0] == memory(at)
  {
  }

  /** NOP and RET wherever they lie: their entries, and how the loop continues. */
  lemma PlainInstruction(memory: Memory, g: Guards, start: Word, at: Word)
    requires memory(at) == 0x90 || memory(at) == 0xC3
    ensures var look := Inspect(memory, g, start, at);
            && look.Dispatched? && !look.failed && look.item.site.size == 1
            && look.item.site.code == CodeAt(memory, at) && Parse(look.item.site.code).Some?
            && look.item.handler == (if memory(at) == 0x90 then NoOp else RETOp)
            && (look.setsRip <==> memory(at) == 0xC3) && (look.endsBlock <==> memory(at) == 0xC3)
  {
    hide Fetch, Decode, RegOf, RmOf, BaseOps, SecondBaseOps, ModRMOps;
    var code := CodeAt(memory, at);
    FirstByte(memory, at);
    FormEntries();
    FormDecodes(code);
  }

  /** NOP followed by RET is a block of two instructions, whatever lies around it. */
  lemma NopThenRet(memory: Memory, g: Guards, start: Word)
    requires memory(start) == 0x90 && memory(Add(start, 1)) == 0xC3
    ensures var t := TranslationOf(memory, g, start);
            t.Translated? && |t.block.items| == 2 && t.block.increment == 0 && OnlyForms(t.block)
  {
    hide Inspect, Parse;
    PlainInstruction(memory, g, start, start);
    PlainInstruction(memory, g, start, Add(start, 1));
    assert Add(start, 0) == start && Add(0, 1) == 1;
  }
}
