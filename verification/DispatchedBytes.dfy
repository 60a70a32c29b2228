/**
  The instructions outside the simulated forms byte by byte: which bytes lead to
  which handler, and what the operations it emits then do.
*/
module DispatchedBytes {
  import opened Words
  import opened Wrappers
  import opened IR
  import opened Machine
  import opened X86Tables
  import opened Decoder
  import opened DecoderRoundTrip
  import opened Handlers
  import opened HandlerShapes
  import opened Translate
  import opened BlockMeaning
  import opened Flags
  import opened Effects
  import opened Operators
  import opened Simulation
  import opened OtherEffects
  import opened Encodings
  import opened GuestBytes

  /*** Encodings of one opcode byte ***/

  function RexOption(short: bool, w: nat, reg: nat, rm: nat): Option<byte>
    requires w < 2 && reg < 16 && rm < 16
  {
    if short then None else Some(0x40 + 8 * w + 4 * (reg / 8) + rm / 8)
  }

  /** An instruction with a ModRM byte that takes neither SIB byte nor displacement. */
  function ModRMEncoding(
      short: bool, w: nat, op: byte, mod: nat, reg: nat, rm: nat, immediate: seq<byte>): Encoding
    requires Encodable(short, w, reg, rm) && mod < 4
  {
    Encoding([], RexOption(short, w, reg, rm), false, op, Some(ModRMByte(mod, reg, rm)), None, [], immediate)
  }

  predicate NoExtraBytes(mod: nat, rm: nat) {
    mod == 3 || (mod == 0 && rm % 8 != 4 && rm % 8 != 5)
  }

  /** The bytes of such an instruction. */
  function ModRMBytes(short: bool, w: nat, op: byte, mod: nat, reg: nat, rm: nat, immediate: seq<byte>): seq<byte>
    requires Encodable(short, w, reg, rm) && mod < 4
  {
    RexBytes(short, w, reg, rm) + [op, ModRMByte(mod, reg, rm)] + immediate
  }

  lemma EncodingBytes(short: bool, w: nat, op: byte, mod: nat, reg: nat, rm: nat, immediate: seq<byte>)
    requires Encodable(short, w, reg, rm) && mod < 4
    ensures Bytes(ModRMEncoding(short, w, op, mod, reg, rm, immediate))
         == ModRMBytes(short, w, op, mod, reg, rm, immediate)
  {
    hide ModRMByte;
  }

  /** The entry the tables have for it. */
  function ModRMEntry(op: byte, reg: nat): InstInfo {
    if BaseOps(op).kind == TypeModRMTable then ModRMOps(op, reg % 8) else BaseOps(op)
  }

  function ModRMHandler(op: byte): Handler {
    if op == 0x39 then CMPOp else if op == 0x83 then AddImmModRMOp else if op == 0x89 then MovOp else AddOp
  }

  lemma ModRMIsWellFormed(short: bool, w: nat, op: byte, mod: nat, reg: nat, rm: nat, immediate: seq<byte>)
    requires Encodable(short, w, reg, rm) && mod < 4 && NoExtraBytes(mod, rm)
    requires op == 0x01 || op == 0x03 || op == 0x39 || op == 0x89 || (op == 0x83 && reg % 8 == 0)
    requires |immediate| == if op == 0x83 then 1 else 0
    ensures var e := ModRMEncoding(short, w, op, mod, reg, rm, immediate);
            && WellFormed(TABLES, e) && !e.escape && e.prefixes == []
            && EntryOf(TABLES, e) == Inst(if op == 0x01 then MODRM_DIV2 else MODRM, |immediate|,
                                          ModRMHandler(op))
  {
    hide ModField, RegField, RmField, RexW, RexX, RexR, RexB, ModRMByte, IsRex, BaseOps, SecondBaseOps, ModRMOps;
    RexFields(w, reg / 8, 0, rm / 8);
    ModRMFields(mod, reg % 8, rm % 8);
    ModRMByteIs(mod, reg, rm);
    NoPrefix(op);
    Entries();
  }

  lemma ModRMByteIs(mod: nat, reg: nat, rm: nat)
    requires mod < 4 && reg < 16 && rm < 16
    ensures ModRMByte(mod, reg, rm) == 64 * mod + 8 * (reg % 8) + rm % 8
  {
  }

  lemma NoPrefix(op: byte)
    ensures op < 0x40 ==> !IsRex(op)
    ensures op >= 0x50 ==> !IsRex(op)
  {
  }

  lemma Entries()
    ensures BaseOps(0x01) == Inst(MODRM_DIV2, 0, AddOp) && BaseOps(0x03) == Inst(MODRM, 0, AddOp)
    ensures BaseOps(0x39) == Inst(MODRM, 0, CMPOp) && BaseOps(0x89) == Inst(MODRM, 0, MovOp)
    ensures BaseOps(0x05) == Inst(DIV2, 4, AddImmOp)
    ensures BaseOps(0x83).kind == TypeModRMTable && ModRMOps(0x83, 0) == Inst(MODRM, 1, AddImmModRMOp)
    ensures SecondBaseOps(0x05) == Inst(END, 0, SyscallOp) && SecondBaseOps(0x1F) == Inst(MODRM, 0, NoOp)
  {
  }

  /** What the handler finds in the instruction it is given. */
  ghost predicate Shows(x: Site, short: bool, w: nat, mod: nat, reg: nat, rm: nat, immediate: seq<byte>)
    requires reg < 16 && rm < 16
  {
    && x.flags == DecodeFlags(!short, false, false, true, false, false)
    && x.size == (if short then 2 else 3) + |immediate| && x.size <= MAX_INSTRUCTION
    && x.Mod() == mod && x.Reg() == Encoded(reg) && x.Rm() == Encoded(rm)
    && RegField(x.ModRM()) == reg % 8
    && x.OperandSize() == (if w == 1 then 8 else 4)
    && (|immediate| == 1 ==> x.Last(1) == immediate[0])
  }

  lemma SiteShows(x: Site, short: bool, w: nat, op: byte, mod: nat, reg: nat, rm: nat, immediate: seq<byte>)
    requires Encodable(short, w, reg, rm) && mod < 4 && |immediate| <= 1 && !IsRex(op)
    requires ModRMBytes(short, w, op, mod, reg, rm, immediate) <= x.code
    requires x.flags == DecodeFlags(!short, false, false, true, false, false)
    requires x.size == (if short then 2 else 3) + |immediate|
    ensures Shows(x, short, w, mod, reg, rm, immediate)
  {
    hide RegisterIndex, ModField, RegField, RmField, RexW, RexX, RexR, RexB, IsRex, Encoded, ModRMByte;
    var b := ModRMBytes(short, w, op, mod, reg, rm, immediate);
    assert RexBytes(short, w, reg, rm) <= x.code;
    LeadIs(x.code, short, w, reg, rm);
    assert x.ModRM() == ModRMByte(mod, reg, rm) by {
      assert b[|b| - |immediate| - 1] == ModRMByte(mod, reg, rm);
    }
    if |immediate| == 1 {
      assert b[|b| - 1] == immediate[0];
    }
  }

  lemma ModRMDispatches(
      memory: Memory, g: Guards, start: Word, at: Word, short: bool, w: nat, op: byte, mod: nat, reg: nat, rm: nat,
      immediate: seq<byte>)
    requires Encodable(short, w, reg, rm) && mod < 4 && NoExtraBytes(mod, rm)
    requires op == 0x01 || op == 0x03 || op == 0x39 || op == 0x89 || (op == 0x83 && reg % 8 == 0)
    requires |immediate| == if op == 0x83 then 1 else 0
    requires BytesAt(memory, at, ModRMBytes(short, w, op, mod, reg, rm, immediate))
    ensures var look := Inspect(memory, g, start, at);
            && look.Dispatched? && !look.endsBlock && !look.setsRip
            && look.failed == Emit(look.item.handler, look.item.site).failed
            && look.item.handler == ModRMHandler(op)
            && Shows(look.item.site, short, w, mod, reg, rm, immediate)
            && look.item.site.cmpEnabled == g.cmp(at)
  {
    hide Inspect, EntryOf, WellFormed, FlagsOf, Bytes, ModRMByte, Fetch, Emit, Shows, ModRMEncoding;
    var e := ModRMEncoding(short, w, op, mod, reg, rm, immediate);
    EncodingBytes(short, w, op, mod, reg, rm, immediate);
    ModRMIsWellFormed(short, w, op, mod, reg, rm, immediate);
    EncodingDispatches(memory, g, start, at, e);
    WindowShows(memory, at, Bytes(e));
    NoPrefix(op);
    FlagsOfModRM(short, w, op, mod, reg, rm, immediate);
    SiteShows(Inspect(memory, g, start, at).item.site, short, w, op, mod, reg, rm, immediate);
  }

  lemma FlagsOfModRM(short: bool, w: nat, op: byte, mod: nat, reg: nat, rm: nat, immediate: seq<byte>)
    requires Encodable(short, w, reg, rm) && mod < 4
    ensures var e := ModRMEncoding(short, w, op, mod, reg, rm, immediate);
            FlagsOf(e) == DecodeFlags(!short, false, false, true, false, false) && !e.escape && e.prefixes == []
  {
    hide ModRMByte;
  }

  /*** What the instructions do ***/

  /** The outcome of an accepted instruction that does not end its block. */
  ghost predicate Does(
      env: Environment, d: Dialect, g: Guards, start: Word, at: Word, size: nat, s: State, t: State)
  {
    var look := Inspect(env.memory, g, start, at);
    && look.Dispatched? && !look.failed && !look.endsBlock && !look.setsRip && look.item.site.size == size
    && FragmentRun(env, d, FragmentOf(look.item), s) == Falls(t)
  }

  /**
    ADD with the opcodes 01 and 03 and a register-indirect operand: whichever the
    direction, the word at the address is added to the register in `reg`.
  */
  lemma AddMemoryBytes(
      env: Environment, d: Dialect, g: Guards, start: Word, at: Word, s: State, op: byte, short: bool, w: nat,
      reg: nat, rm: nat, loaded: Word)
    requires (op == 0x01 || op == 0x03) && Encodable(short, w, reg, rm) && NoExtraBytes(0, rm) && reg % 8 != 4
    requires BytesAt(env.memory, at, ModRMBytes(short, w, op, 0, reg, rm, []))
    requires HoldsWord(env.memory, s.gregs[Encoded(rm)], loaded)
    ensures var x := Encoded(reg);
            Does(env, d, g, start, at, if short then 2 else 3, s,
                 s.(gregs := s.gregs[x := (s.gregs[x] + loaded) % Modulus(w)]))
  {
    hide Inspect, FragmentRun, LoadWord, Encoded, ModRMByte, BytesAt, HoldsWord, Emit;
    ModRMDispatches(env.memory, g, start, at, short, w, op, 0, reg, rm, []);
    var i := Inspect(env.memory, g, start, at).item;
    AddAccepted(i.site);
    LoadedWord(env.memory, s.gregs[Encoded(rm)], loaded);
    LoadIsPrefix(env.memory, s.gregs[Encoded(rm)]);
    AddMemoryEffect(env, d, i, s);
    LowSum(s.gregs[Encoded(reg)], loaded);
  }

  lemma AddAccepted(x: Site)
    requires x.flags.modrm && !x.flags.sib && x.size <= MAX_INSTRUCTION
    ensures x.Mod() == 3 || (x.Mod() == 0 && RegField(x.ModRM()) != 4) <==> !Emit(AddOp, x).failed
  {
    hide ModField, RegField, RmField, RegisterIndex, SignExtend32, AddTail;
  }

  lemma LowSum(x: Word, y: Word)
    ensures (x + y % M32) % M32 == (x + y) % M32
  {
  }

  /**
    ADD of two registers with the opcode 03: the sum goes to the register in `rm`,
    as with the opcode 01, and not to the one in `reg`.
  */
  lemma AddRegistersBytes(
      env: Environment, d: Dialect, g: Guards, start: Word, at: Word, s: State, op: byte, short: bool, w: nat,
      reg: nat, rm: nat)
    requires (op == 0x01 || op == 0x03) && Encodable(short, w, reg, rm)
    requires BytesAt(env.memory, at, ModRMBytes(short, w, op, 3, reg, rm, []))
    ensures var x := Encoded(rm);
            Does(env, d, g, start, at, if short then 2 else 3, s,
                 s.(gregs := s.gregs[x := (s.gregs[x] + s.gregs[Encoded(reg)]) % Modulus(w)]))
  {
    hide Inspect, FragmentRun, Encoded, ModRMByte, BytesAt, Emit;
    ModRMDispatches(env.memory, g, start, at, short, w, op, 3, reg, rm, []);
    var i := Inspect(env.memory, g, start, at).item;
    AddAccepted(i.site);
    AddRegistersEffect(env, d, i, s);
  }

  /** MOV with a REX prefix copies the whole register even where the prefix does not ask for 64 bits. */
  lemma MovRexBytes(
      env: Environment, d: Dialect, g: Guards, start: Word, at: Word, s: State, w: nat, reg: nat, rm: nat)
    requires Encodable(false, w, reg, rm) && BytesAt(env.memory, at, ModRMBytes(false, w, 0x89, 3, reg, rm, []))
    ensures Does(env, d, g, start, at, 3, s, s.(gregs := s.gregs[Encoded(rm) := s.gregs[Encoded(reg)]]))
  {
    hide Inspect, FragmentRun, Encoded, ModRMByte, BytesAt, Emit, EndsIn;
    ModRMDispatches(env.memory, g, start, at, false, w, 0x89, 3, reg, rm, []);
    var i := Inspect(env.memory, g, start, at).item;
    MovWhole(i.site);
    MovBoth(env, Encoded(reg), Encoded(rm), s);
    EndsInFalls(env, d, i, [LoadReg(Encoded(reg)), StoreReg(Encoded(rm), 0)], s,
                s.(gregs := s.gregs[Encoded(rm) := s.gregs[Encoded(reg)]]));
  }

  lemma MovWhole(x: Site)
    requires x.flags.modrm && !x.flags.sib && x.flags.rex && !x.flags.opsize
    requires x.size <= MAX_INSTRUCTION && x.Mod() == 3
    ensures Emit(MovOp, x) == Accept([LoadReg(x.Reg()), StoreReg(x.Rm(), 0)])
  {
    hide ModField, RegField, RmField, RegisterIndex;
  }

  /** CMP of two registers, accepted at an enabled address only: ZF, bit 6, becomes 0 for equal operands. */
  lemma CompareBytes(
      env: Environment, d: Dialect, g: Guards, start: Word, at: Word, s: State, short: bool, w: nat, reg: nat, rm: nat)
    requires Encodable(short, w, reg, rm) && BytesAt(env.memory, at, ModRMBytes(short, w, 0x39, 3, reg, rm, []))
    ensures var look := Inspect(env.memory, g, start, at); look.Dispatched? && look.failed == !g.cmp(at)
    ensures g.cmp(at) ==>
              var differ := s.gregs[Encoded(rm)] != s.gregs[Encoded(reg)];
              Does(env, d, g, start, at, if short then 2 else 3, s,
                   s.(rflags := FlagSet(s.rflags, 6, if differ then 1 else 0)))
  {
    hide Inspect, FragmentRun, Encoded, ModRMByte, BytesAt, FlagSet, Emit;
    ModRMDispatches(env.memory, g, start, at, short, w, 0x39, 3, reg, rm, []);
    var i := Inspect(env.memory, g, start, at).item;
    CompareAccepted(i.site);
    if g.cmp(at) {
      CMPEffect(env, d, i, s);
    }
  }

  lemma CompareAccepted(x: Site)
    requires x.flags.modrm && !x.flags.sib && x.size <= MAX_INSTRUCTION && x.Mod() == 3
    ensures Emit(CMPOp, x).failed == !x.cmpEnabled
  {
    hide ModField, RegField, RmField, RegisterIndex, SetFlagOps;
  }

  /**
    ADD of a byte with the opcode 83 /0: the signed byte is added to the whole
    register; SF, bit 7, and ZF, bit 6, are written as the handler has them.
  */
  lemma AddByteBytes(
      env: Environment, d: Dialect, g: Guards, start: Word, at: Word, s: State, short: bool, w: nat, rm: nat,
      immediate: byte)
    requires Encodable(short, w, 0, rm) && BytesAt(env.memory, at, ModRMBytes(short, w, 0x83, 3, 0, rm, [immediate]))
    ensures var x := Encoded(rm);
            var sum := (s.gregs[x] + Signed8(immediate)) % M64;
            var sign := Bit(s.gregs[x], if short then 15 else 31);
            var flags := FlagSet(FlagSet(s.rflags, 7, sign), 6, if sum == 1 then 0 else 1);
            Does(env, d, g, start, at, if short then 3 else 4, s, s.(gregs := s.gregs[x := sum], rflags := flags))
  {
    hide Inspect, FragmentRun, Encoded, ModRMByte, BytesAt, FlagSet, Bit, Emit, SignExtend8, Signed8;
    ModRMDispatches(env.memory, g, start, at, short, w, 0x83, 3, 0, rm, [immediate]);
    var i := Inspect(env.memory, g, start, at).item;
    AddByteAccepted(i.site);
    AddImmModRMEffect(env, d, i, s);
    SignedByte(s.gregs[Encoded(rm)], immediate);
  }

  lemma AddByteAccepted(x: Site)
    requires x.flags.modrm && !x.flags.sib && x.size <= MAX_INSTRUCTION && x.Mod() == 3
    ensures !Emit(AddImmModRMOp, x).failed
  {
    hide ModField, RegField, RmField, RegisterIndex, SetFlagOps, SignExtend8;
  }

  lemma SignedByte(x: Word, b: byte)
    ensures (x + SignExtend8(b)) % M64 == (x + Signed8(b)) % M64
  {
  }

  /*** Without a ModRM byte ***/

  /** ADD to rax of an immediate: with an operand-size prefix two bytes, with REX.W or without a prefix four. */
  function AddImmediateEncoding(lead: byte, immediate: seq<byte>): Encoding {
    if lead == 0x66 then Encoding([0x66], None, false, 0x05, None, None, [], immediate)
    else if lead == 0x48 then Encoding([], Some(0x48), false, 0x05, None, None, [], immediate)
    else Encoding([], None, false, 0x05, None, None, [], immediate)
  }

  function AddImmediateBytes(lead: byte, immediate: seq<byte>): seq<byte> {
    if lead == 0x66 || lead == 0x48 then [lead, 0x05] + immediate else [0x05] + immediate
  }

  /** The signed integer in two bytes. */
  function Signed16(b: seq<byte>): int
    requires |b| == 2
  {
    var b0: int, b1: int := b[0], b[1];
    b0 + 0x100 * if b1 < 128 then b1 else b1 - 256
  }

  lemma AddImmediateIsWellFormed(lead: byte, immediate: seq<byte>)
    requires |immediate| == if lead == 0x66 then 2 else 4
    ensures var e := AddImmediateEncoding(lead, immediate);
            && Bytes(e) == AddImmediateBytes(lead, immediate) && WellFormed(TABLES, e) && !e.escape
            && EntryOf(TABLES, e) == Inst(DIV2, 4, AddImmOp)
            && FlagsOf(e) == DecodeFlags(lead == 0x48, lead == 0x66, false, false, false, false)
            && 0xF0 !in e.prefixes
  {
    hide ModField, RegField, RmField, BaseOps;
    Entries();
    assert BaseOps(0x66).kind == TypeLegacyPrefix by { LegacyPrefix(); }
    RexFields(1, 0, 0, 0);
  }

  lemma LegacyPrefix()
    ensures BaseOps(0x66).kind == TypeLegacyPrefix
  {
  }

  /** ADD rax, immediate: the whole of rax, register 0, takes the signed sum, and no flag changes. */
  lemma AddImmediateStep(
      env: Environment, d: Dialect, g: Guards, start: Word, at: Word, s: State, lead: byte, immediate: seq<byte>)
    requires |immediate| == if lead == 0x66 then 2 else 4
    requires BytesAt(env.memory, at, AddImmediateBytes(lead, immediate))
    ensures var value := if lead == 0x66 then Signed16(immediate) else Signed32(immediate);
            Does(env, d, g, start, at, if lead == 0x66 then 4 else if lead == 0x48 then 6 else 5, s,
                 s.(gregs := s.gregs[0 := (s.gregs[0] + value) % M64]))
  {
    hide Inspect, FragmentRun, BytesAt, WellFormed, EntryOf, FlagsOf, Bytes, Fetch, Emit, SignExtend16, SignExtend32,
         Signed16, Signed32;
    var e := AddImmediateEncoding(lead, immediate);
    AddImmediateIsWellFormed(lead, immediate);
    EncodingDispatches(env.memory, g, start, at, e);
    WindowShows(env.memory, at, Bytes(e));
    var i := Inspect(env.memory, g, start, at).item;
    ImmediateAccepted(i.site);
    ImmediateShows(i.site, lead, immediate);
    AddImmEffect(env, d, i, s);
    SumModulo(s.gregs[0], if lead == 0x66 then Signed16(immediate) else Signed32(immediate));
  }

  lemma ImmediateAccepted(x: Site)
    requires x.size <= MAX_INSTRUCTION
    ensures !Emit(AddImmOp, x).failed && !Emit(SyscallOp, x).failed && !Emit(NoOp, x).failed
  {
    hide SignExtend16, SignExtend32, SYSCALL_OPS;
  }

  /** The immediate is what the instruction ends in. */
  lemma LastBytes(x: Site, front: seq<byte>, immediate: seq<byte>)
    requires front + immediate <= x.code && x.size == |front + immediate| <= MAX_INSTRUCTION
    ensures forall k :: 1 <= k <= |immediate| ==> x.Last(k) == immediate[|immediate| - k]
  {
    var b := front + immediate;
    forall k | 1 <= k <= |immediate|
      ensures x.Last(k) == immediate[|immediate| - k]
    {
      assert x.code[|b| - k] == b[|b| - k];
    }
  }

  lemma ImmediateShows(x: Site, lead: byte, immediate: seq<byte>)
    requires |immediate| == if lead == 0x66 then 2 else 4
    requires AddImmediateBytes(lead, immediate) <= x.code && x.size == |AddImmediateBytes(lead, immediate)|
    ensures lead == 0x66 ==> x.Immediate16() == Signed16(immediate) % M64
    ensures lead != 0x66 ==> x.Immediate32() == Signed32(immediate) % M64
  {
    hide SignExtend32, Signed32, SignExtend16, Signed16;
    LastBytes(x, if lead == 0x66 || lead == 0x48 then [lead, 0x05] else [0x05], immediate);
    if lead == 0x66 {
      SignExtendsTwo(immediate);
    } else {
      SignExtends(immediate);
    }
  }

  lemma SignExtendsTwo(b: seq<byte>)
    requires |b| == 2
    ensures SignExtend16(b[0], b[1]) == Signed16(b) % M64
  {
  }

  const SYSCALL_BYTES: seq<byte> := [0x0F, 0x05]

  /**
    SYSCALL: unless the byte behind it diverts the decoder, it ends its block, and
    calls the handler once with rax, rdi, rsi, rdx, r10, r8 and r9, by their
    numbers, whose answer goes to rax.
  */
  lemma SyscallBytes(env: Environment, d: Dialect, g: Guards, start: Word, at: Word, s: State)
    requires BytesAt(env.memory, at, SYSCALL_BYTES) && !Diverts(env.memory((at + 2) % M64))
    ensures var look := Inspect(env.memory, g, start, at);
            var r := s.gregs;
            var calls := s.calls + [[r[0], r[5], r[4], r[3], r[10], r[8], r[9]]];
            && look.Dispatched? && !look.failed && look.endsBlock && !look.setsRip && look.item.site.size == 2
            && FragmentRun(env, d, FragmentOf(look.item), s)
               == Falls(s.(calls := calls, gregs := r[0 := env.handle(calls)]))
  {
    hide Inspect, FragmentRun, BytesAt, WellFormed, EntryOf, FlagsOf, Bytes, Fetch, Emit, Diverts;
    SyscallIsWellFormed();
    EncodingDispatches(env.memory, g, start, at, SYSCALL);
    var i := Inspect(env.memory, g, start, at).item;
    ImmediateAccepted(i.site);
    SyscallEffect(env, d, i, s);
  }

  lemma SyscallIsWellFormed()
    ensures Bytes(SYSCALL) == [0x0F, 0x05] && WellFormed(TABLES, SYSCALL)
    ensures EntryOf(TABLES, SYSCALL) == Inst(END, 0, SyscallOp)
  {
    assert Bytes(SYSCALL) == [] + [] + ([0x0F] + [0x05]) + ([] + [] + [] + []);
  }

  /** Every encoding of the two-byte NOP, whatever its operand and prefixes but LOCK, does nothing and goes on. */
  lemma NopBytes(env: Environment, d: Dialect, g: Guards, start: Word, at: Word, s: State, e: Encoding)
    requires WellFormed(TABLES, e) && e.escape && e.opcode == 0x1F && 0xF0 !in e.prefixes
    requires BytesAt(env.memory, at, Bytes(e)) && Undiverted(env.memory, at, e)
    ensures Does(env, d, g, start, at, |Bytes(e)|, s, s)
  {
    hide Inspect, FragmentRun, BytesAt, WellFormed, FlagsOf, Bytes, Fetch, Emit, Undiverted, BaseOps, SecondBaseOps,
         ModRMOps;
    EncodingDispatches(env.memory, g, start, at, e);
    Entries();
    var i := Inspect(env.memory, g, start, at).item;
    ImmediateAccepted(i.site);
    NoOpFalls(env, d, i, s);
  }

  lemma NoOpFalls(env: Environment, d: Dialect, i: Instruction, s: State)
    requires i.handler == NoOp
    ensures FragmentRun(env, d, FragmentOf(i), s) == Falls(s)
  {
  }

  /*** Short jumps ***/

  /** The flag behind the opcodes 70 to 7F, two of which share one; those left out test several flags. */
  function FlagOf(c: nat): Option<nat>
    requires c < 16
  {
    match c / 2
    case 0 => Some(11)
    case 1 => Some(0)
    case 2 => Some(6)
    case 4 => Some(7)
    case 5 => Some(2)
    case _ => None
  }

  lemma ConditionIs(c: nat)
    requires c < 16
    ensures IsSingleFlag(ConditionOf(c)) <==> FlagOf(c).Some?
    ensures FlagOf(c).Some? ==> FlagBit(ConditionOf(c)) == FlagOf(c).value
    ensures IsNegated(ConditionOf(c)) <==> FlagOf(c).Some? && c % 2 == 1
  {
  }

  lemma ShortJumpIsWellFormed(c: nat, displacement: byte)
    requires c < 16
    ensures var e := Encoding([], None, false, 0x70 + c, None, None, [], [displacement]);
            && Bytes(e) == [0x70 + c, displacement] && WellFormed(TABLES, e)
            && EntryOf(TABLES, e) == Inst(NONE, 1, JccOp(ConditionOf(c)))
            && FlagsOf(e) == DecodeFlags(false, false, false, false, false, false)
  {
    hide ModField, RegField, RmField, BaseOps, ConditionOf;
    InstalledJump(c);
    NoPrefix(0x70 + c);
  }

  /**
    The opcodes 70 to 7F: accepted at an enabled block's address and for a single
    flag only. The odd ones leave if their flag is set, or if it is clear, in the
    two polarities; the even ones always or never. They leave for the signed
    displacement behind the instruction.
  */
  lemma ShortJumpBytes(
      env: Environment, d: Dialect, g: Guards, start: Word, at: Word, s: State, c: nat, displacement: byte)
    requires c < 16 && BytesAt(env.memory, at, [0x70 + c, displacement])
    ensures var look := Inspect(env.memory, g, start, at);
            && look.Dispatched? && !look.endsBlock && !look.setsRip && look.item.site.size == 2
            && (!look.failed <==> g.jcc(start) && FlagOf(c).Some?)
            && (!look.failed ==>
                  var test := c % 2 == 0 || Bit(s.rflags, FlagOf(c).value) == 1;
                  FragmentRun(env, d, FragmentOf(look.item), s)
                    == if test == d.exitWhenTrue then Exits(s, (at + 2 + Signed8(displacement)) % M64) else Falls(s))
  {
    hide Inspect, FragmentRun, BytesAt, WellFormed, EntryOf, FlagsOf, Bytes, Fetch, Emit, Bit, JccTarget, ConditionOf,
         FlagOf, FlagBit, IsNegated, IsSingleFlag;
    var e := Encoding([], None, false, 0x70 + c, None, None, [], [displacement]);
    ShortJumpIsWellFormed(c, displacement);
    EncodingDispatches(env.memory, g, start, at, e);
    WindowShows(env.memory, at, Bytes(e));
    ConditionIs(c);
    var i := Inspect(env.memory, g, start, at).item;
    JumpAccepted(ConditionOf(c), i.site);
    if g.jcc(start) && FlagOf(c).Some? {
      JccEffect(env, d, i, s);
      JccTargetModulo(i.site);
    }
  }

  lemma JumpAccepted(c: Condition, x: Site)
    requires x.size <= MAX_INSTRUCTION && !x.flags.sib
    ensures !Emit(JccOp(c), x).failed <==> x.jccEnabled && IsSingleFlag(c)
  {
    hide GetFlagBitOps, JccTarget, FlagBit;
  }
}
