/**
  The guest's instructions byte by byte: what executing each treated encoding
  does, with registers by their numbers, words by their digits and bytes, and
  displacements as signed integers.
*/
module GuestBytes {
  import opened Words
  import opened Wrappers
  import opened IR
  import opened Machine
  import opened X86Tables
  import opened Decoder
  import opened Handlers
  import opened HandlerShapes
  import opened Translate
  import opened BlockMeaning
  import opened Operators
  import opened Simulation
  import opened Encodings

  /*** Encodings ***/

  /** A REX prefix 0100WR0B, or none. */
  function RexBytes(short: bool, w: nat, reg: nat, rm: nat): seq<byte>
    requires w < 2 && reg < 16 && rm < 16
  {
    if short then [] else [0x40 + 8 * w + 4 * (reg / 8) + rm / 8]
  }

  /** Without a prefix operands are 32 bits wide and only eight registers can be named. */
  predicate Encodable(short: bool, w: nat, reg: nat, rm: nat) {
    w < 2 && reg < 16 && rm < 16 && (short ==> w == 0 && reg < 8 && rm < 8)
  }

  function ModRMByte(mod: nat, reg: nat, rm: nat): byte
    requires mod < 4 && reg < 16 && rm < 16
  {
    64 * mod + 8 * (reg % 8) + rm % 8
  }

  /** Two registers named by a ModRM byte behind the opcode. */
  function TwoRegisters(short: bool, w: nat, opcode: seq<byte>, reg: nat, rm: nat): seq<byte>
    requires Encodable(short, w, reg, rm)
  {
    RexBytes(short, w, reg, rm) + opcode + [ModRMByte(3, reg, rm)]
  }

  /** What the parser sees of the prefix and of a ModRM byte. */
  lemma LeadIs(code: Code, short: bool, w: nat, reg: nat, rm: nat)
    requires Encodable(short, w, reg, rm) && RexBytes(short, w, reg, rm) <= code
    requires short ==> !IsRex(code[0])
    ensures HasRexPrefix(code) == !short && At(code) == if short then 0 else 1
    ensures RexW(RexOf(code)) == w && RexX(RexOf(code)) == 0
    ensures forall mod :: 0 <= mod < 4 ==>
              var m := ModRMByte(mod, reg, rm);
              ModField(m) == mod && RegField(m) == reg % 8 && RmField(m) == rm % 8
              && RegOf(code, m) == Encoded(reg) && RmOf(code, m) == Encoded(rm)
  {
    hide RegisterIndex, ModField, RegField, RmField, RexW, RexX, RexR, RexB, IsRex, Encoded;
    RexFields(w, reg / 8, 0, rm / 8);
    RegisterIs(reg);
    RegisterIs(rm);
    if short {
      NoRex();
    }
    forall mod | 0 <= mod < 4
      ensures var m := ModRMByte(mod, reg, rm);
              ModField(m) == mod && RegField(m) == reg % 8 && RmField(m) == rm % 8
              && RegOf(code, m) == Encoded(reg) && RmOf(code, m) == Encoded(rm)
    {
      ModRMFields(mod, reg % 8, rm % 8);
    }
  }

  lemma NoRex()
    ensures RexW(0) == RexX(0) == RexR(0) == RexB(0) == 0
  {
  }

  lemma ParsesRegisters(code: Code, short: bool, w: nat, op: byte, reg: nat, rm: nat)
    requires Encodable(short, w, reg, rm) && TwoRegisters(short, w, [op], reg, rm) <= code
    requires op == 0x01 || op == 0x31 || op == 0x89
    ensures var n, x, y := (if short then 2 else 3), Encoded(rm), Encoded(reg);
            Parse(code) ==
            if op == 0x01 then Some(Parsed(AddReg(w == 1, x, y), n))
            else if op == 0x31 then Some(Parsed(XorReg(w == 1, x, y), n))
            else if w == 1 || short then Some(Parsed(MovReg(w == 1, x, y), n))
            else None
  {
    hide RegOf, RmOf, ModField, RegField, RmField, RexW, RexX, ModRMByte, RexBytes, Encoded;
    Leads(short, w, [op], reg, rm, code);
    LeadIs(code, short, w, reg, rm);
  }

  /** Where the bytes of such an encoding lie. */
  lemma Leads(short: bool, w: nat, opcode: seq<byte>, reg: nat, rm: nat, code: Code)
    requires Encodable(short, w, reg, rm) && TwoRegisters(short, w, opcode, reg, rm) <= code && |opcode| > 0
    requires !IsRex(opcode[0])
    ensures var p := if short then 0 else 1;
            && RexBytes(short, w, reg, rm) <= code && (short ==> !IsRex(code[0]))
            && p + |opcode| < |code| && code[p..p + |opcode|] == opcode && code[p + |opcode|] == ModRMByte(3, reg, rm)
            && code[p] == opcode[0]
  {
    hide ModRMByte, IsRex;
    var b := TwoRegisters(short, w, opcode, reg, rm);
    var p := if short then 0 else 1;
    assert b[p..p + |opcode|] == opcode && b[p + |opcode|] == ModRMByte(3, reg, rm);
  }

  /** SHL and JMP have their opcode's second half, 4, in the `reg` field. */
  lemma ParsesExtended(code: Code, short: bool, w: nat, op: byte, rm: nat, amount: byte)
    requires Encodable(short, w, 4, rm) && TwoRegisters(short, w, [op], 4, rm) + [amount] <= code
    requires op == 0xC1 || op == 0xFF
    ensures var n, x := (if short then 2 else 3), Encoded(rm);
            Parse(code) ==
            if op == 0xFF then Some(Parsed(JmpReg(x), n))
            else if amount < (if w == 1 then 64 else 32) then Some(Parsed(ShlReg(w == 1, x, amount), n + 1))
            else None
  {
    hide RegOf, RmOf, ModField, RegField, RmField, RexW, RexX, ModRMByte, Encoded;
    var b := TwoRegisters(short, w, [op], 4, rm);
    var p := if short then 0 else 1;
    assert (b + [amount])[|b|] == amount;
    assert |b| == p + 2 && code[p + 2] == amount;
    Leads(short, w, [op], 4, rm, code);
    LeadIs(code, short, w, 4, rm);
  }

  lemma ParsesBitTest(code: Code, short: bool, reg: nat, rm: nat)
    requires Encodable(short, 0, reg, rm) && TwoRegisters(short, 0, [0x0F, 0xA3], reg, rm) <= code
    ensures Parse(code) == Some(Parsed(BitTest(Encoded(rm), Encoded(reg)), if short then 3 else 4))
  {
    hide RegOf, RmOf, ModField, RegField, RmField, RexW, RexX, ModRMByte, RexBytes, Encoded;
    var p, opcode: seq<byte> := if short then 0 else 1, [0x0F, 0xA3];
    Leads(short, 0, opcode, reg, rm, code);
    assert code[p + 1] == code[p..p + |opcode|][1] == 0xA3;
    assert code[p + 2] == ModRMByte(3, reg, rm);
    LeadIs(code, short, 0, reg, rm);
  }

  /** LEA with REX.W and a displacement of 32 bits; `rm` 4 would ask for a SIB byte. */
  function LeaBytes(reg: nat, base: nat, displacement: seq<byte>): seq<byte>
    requires reg < 16 && base < 16
  {
    RexBytes(false, 1, reg, base) + [0x8D, ModRMByte(2, reg, base)] + displacement
  }

  /** The signed integer in four bytes, the lowest first. */
  function Signed32(b: seq<byte>): int
    requires |b| == 4
  {
    var b0: int, b1: int, b2: int, b3: int := b[0], b[1], b[2], b[3];
    b0 + 0x100 * b1 + 0x1_0000 * b2 + 0x100_0000 * if b3 < 128 then b3 else b3 - 256
  }

  lemma SignExtends(b: seq<byte>)
    requires |b| == 4
    ensures SignExtend32(b[0], b[1], b[2], b[3]) == Signed32(b) % M64
  {
  }

  lemma ParsesLea(code: Code, reg: nat, base: nat, displacement: seq<byte>)
    requires reg < 16 && base < 16 && base % 8 != 4 && |displacement| == 4
    requires LeaBytes(reg, base, displacement) <= code
    ensures Parse(code) == Some(Parsed(Lea(Encoded(reg), Encoded(base), Signed32(displacement) % M64), 7))
  {
    hide RegOf, RmOf, ModField, RegField, RmField, RexW, RexX, ModRMByte, Encoded, SignExtend32, Signed32;
    var b := LeaBytes(reg, base, displacement);
    assert b[1] == 0x8D && b[2] == ModRMByte(2, reg, base);
    assert displacement == [code[3], code[4], code[5], code[6]];
    assert RexBytes(false, 1, reg, base) <= code;
    LeadIs(code, false, 1, reg, base);
    SignExtends(displacement);
  }

  lemma ParsesOneByte(code: Code)
    ensures code[0] == 0x90 ==> Parse(code) == Some(Parsed(Nop, 1))
    ensures code[0] == 0xC3 ==> Parse(code) == Some(Parsed(Ret, 1))
  {
    hide RegOf, RmOf;
    NoRex();
  }

  /*** One instruction of the guest ***/

  lemma StepOfBytes(env: Environment, s: State, bytes: seq<byte>, i: Guest)
    requires BytesAt(env.memory, s.rip, bytes) && |bytes| <= MAX_INSTRUCTION
    requires Parse(CodeAt(env.memory, s.rip)) == Some(Parsed(i, |bytes|))
    ensures RegistersInRange(i)
    ensures var t := Effect(env, i, s);
            GuestStep(env, s) == Some(if Jumps(i) then t else t.(rip := (s.rip + |bytes|) % M64))
  {
    hide Parse, Effect, Fetch;
    ParsedInRange(CodeAt(env.memory, s.rip));
  }

  /** The state behind an instruction of `n` bytes that gives a register a value. */
  function Assigned(s: State, register: nat, value: Word, n: nat): State
    requires register < 16
  {
    s.(gregs := s.gregs[register := value], rip := (s.rip + n) % M64)
  }

  /** The modulus of 64-bit operations and of those that clear the upper half. */
  function Modulus(w: nat): nat {
    if w == 1 then 0x1_0000_0000_0000_0000 else 0x1_0000_0000
  }

  /** ADD r/m, r. */
  lemma AddBytes(env: Environment, s: State, short: bool, w: nat, reg: nat, rm: nat)
    requires Encodable(short, w, reg, rm) && BytesAt(env.memory, s.rip, TwoRegisters(short, w, [0x01], reg, rm))
    ensures var x, y := Encoded(rm), Encoded(reg);
            GuestStep(env, s)
              == Some(Assigned(s, x, (s.gregs[x] + s.gregs[y]) % Modulus(w), if short then 2 else 3))
  {
    hide Parse, Fetch, GuestStep, ModRMByte, Encoded;
    var bytes := TwoRegisters(short, w, [0x01], reg, rm);
    WindowShows(env.memory, s.rip, bytes);
    ParsesRegisters(CodeAt(env.memory, s.rip), short, w, 0x01, reg, rm);
    StepOfBytes(env, s, bytes, AddReg(w == 1, Encoded(rm), Encoded(reg)));
  }

  /** MOV r/m, r. */
  lemma MovBytes(env: Environment, s: State, short: bool, w: nat, reg: nat, rm: nat)
    requires Encodable(short, w, reg, rm) && BytesAt(env.memory, s.rip, TwoRegisters(short, w, [0x89], reg, rm))
    requires short || w == 1
    ensures GuestStep(env, s)
         == Some(Assigned(s, Encoded(rm), s.gregs[Encoded(reg)] % Modulus(w), if short then 2 else 3))
  {
    hide Parse, Fetch, GuestStep, ModRMByte, Encoded;
    var bytes := TwoRegisters(short, w, [0x89], reg, rm);
    WindowShows(env.memory, s.rip, bytes);
    ParsesRegisters(CodeAt(env.memory, s.rip), short, w, 0x89, reg, rm);
    StepOfBytes(env, s, bytes, MovReg(w == 1, Encoded(rm), Encoded(reg)));
  }

  /** XOR r/m, r: every digit of the result is the sum of the operands' digits modulo 2. */
  lemma XorBytes(env: Environment, s: State, short: bool, w: nat, reg: nat, rm: nat) returns (value: Word)
    requires Encodable(short, w, reg, rm) && BytesAt(env.memory, s.rip, TwoRegisters(short, w, [0x31], reg, rm))
    ensures var x, y := Encoded(rm), Encoded(reg);
            && GuestStep(env, s) == Some(Assigned(s, x, value, if short then 2 else 3))
            && (forall k: nat :: Bit(value, k)
                  == (Bit(s.gregs[x] % Modulus(w), k) + Bit(s.gregs[y] % Modulus(w), k)) % 2)
            && (x == y ==> value == 0)
  {
    hide Parse, Fetch, GuestStep, ModRMByte, Encoded, Bit, ExclusiveOr, Xor;
    var bytes := TwoRegisters(short, w, [0x31], reg, rm);
    var x, y := Encoded(rm), Encoded(reg);
    WindowShows(env.memory, s.rip, bytes);
    ParsesRegisters(CodeAt(env.memory, s.rip), short, w, 0x31, reg, rm);
    StepOfBytes(env, s, bytes, XorReg(w == 1, x, y));
    var a, b: Word := s.gregs[x] % Modulus(w), s.gregs[y] % Modulus(w);
    value := ExclusiveOr(a, b);
    XorIsExclusiveOr(a, b);
    forall k: nat
      ensures Bit(value, k) == (Bit(a, k) + Bit(b, k)) % 2
    {
      XorDigits(a, b, k);
    }
    XorDigits(a, b, 0);
  }

  /** SHL r/m, imm8. */
  lemma ShlBytes(env: Environment, s: State, short: bool, w: nat, rm: nat, amount: byte)
    requires Encodable(short, w, 4, rm) && amount < if w == 1 then 64 else 32
    requires BytesAt(env.memory, s.rip, TwoRegisters(short, w, [0xC1], 4, rm) + [amount])
    ensures var x := Encoded(rm);
            GuestStep(env, s)
              == Some(Assigned(s, x, (s.gregs[x] * Pow2(amount)) % Modulus(w), if short then 3 else 4))
  {
    hide Parse, Fetch, GuestStep, ModRMByte, Encoded, Pow2;
    var bytes := TwoRegisters(short, w, [0xC1], 4, rm) + [amount];
    WindowShows(env.memory, s.rip, bytes);
    ParsesExtended(CodeAt(env.memory, s.rip), short, w, 0xC1, rm, amount);
    StepOfBytes(env, s, bytes, ShlReg(w == 1, Encoded(rm), amount));
  }

  function DigitAt(x: Word, k: nat): (digit: nat)
    ensures digit < 2
  {
    x / Pow2(k) % 2
  }

  /** Bit 0 of the flags replaced. */
  function WithCarry(flags: Word, digit: nat): Word
    requires digit < 2
  {
    flags / 2 * 2 + digit
  }

  /** BT r/m32, r32: the carry flag, bit 0, becomes the digit the other register names modulo 32. */
  lemma BitTestBytes(env: Environment, s: State, short: bool, reg: nat, rm: nat)
    requires Encodable(short, 0, reg, rm)
    requires BytesAt(env.memory, s.rip, TwoRegisters(short, 0, [0x0F, 0xA3], reg, rm))
    ensures var digit := DigitAt(s.gregs[Encoded(rm)], s.gregs[Encoded(reg)] % 32);
            GuestStep(env, s)
              == Some(s.(rflags := WithCarry(s.rflags, digit), rip := (s.rip + if short then 3 else 4) % M64))
  {
    hide Parse, Fetch, GuestStep, ModRMByte, Encoded, Bit, Pow2;
    var bytes := TwoRegisters(short, 0, [0x0F, 0xA3], reg, rm);
    WindowShows(env.memory, s.rip, bytes);
    ParsesBitTest(CodeAt(env.memory, s.rip), short, reg, rm);
    StepOfBytes(env, s, bytes, BitTest(Encoded(rm), Encoded(reg)));
    BitIsQuotient(s.gregs[Encoded(rm)], s.gregs[Encoded(reg)] % 32);
  }

  /** LEA r64, [r64 + disp32]. */
  lemma LeaStep(env: Environment, s: State, reg: nat, base: nat, displacement: seq<byte>)
    requires reg < 16 && base < 16 && base % 8 != 4 && |displacement| == 4
    requires BytesAt(env.memory, s.rip, LeaBytes(reg, base, displacement))
    ensures GuestStep(env, s)
         == Some(Assigned(s, Encoded(reg), (s.gregs[Encoded(base)] + Signed32(displacement)) % M64, 7))
  {
    hide Parse, Fetch, GuestStep, ModRMByte, Encoded, Signed32;
    var bytes := LeaBytes(reg, base, displacement);
    WindowShows(env.memory, s.rip, bytes);
    ParsesLea(CodeAt(env.memory, s.rip), reg, base, displacement);
    StepOfBytes(env, s, bytes, Lea(Encoded(reg), Encoded(base), Signed32(displacement) % M64));
    SumModulo(s.gregs[Encoded(base)], Signed32(displacement));
  }

  lemma SumModulo(x: Word, d: int)
    ensures (x + d % M64) % M64 == (x + d) % M64
  {
  }

  /** JMP r64. */
  lemma JmpBytes(env: Environment, s: State, short: bool, w: nat, rm: nat)
    requires Encodable(short, w, 4, rm) && BytesAt(env.memory, s.rip, TwoRegisters(short, w, [0xFF], 4, rm))
    ensures GuestStep(env, s) == Some(s.(rip := s.gregs[Encoded(rm)]))
  {
    hide Parse, Fetch, GuestStep, ModRMByte, Encoded;
    var bytes := TwoRegisters(short, w, [0xFF], 4, rm);
    var code := CodeAt(env.memory, s.rip);
    WindowShows(env.memory, s.rip, bytes);
    assert bytes + [code[|bytes|]] <= code;
    ParsesExtended(code, short, w, 0xFF, rm, code[|bytes|]);
    StepOfBytes(env, s, bytes, JmpReg(Encoded(rm)));
  }

  /** NOP, and RET, which goes to the word on top of the stack, register 7, and pops it. */
  lemma OneByteSteps(env: Environment, s: State, top: Word)
    ensures env.memory(s.rip) == 0x90 ==> GuestStep(env, s) == Some(s.(rip := (s.rip + 1) % M64))
    ensures env.memory(s.rip) == 0xC3 && HoldsWord(env.memory, s.gregs[7], top) ==>
              GuestStep(env, s) == Some(s.(rip := top, gregs := s.gregs[7 := (s.gregs[7] + 8) % M64]))
  {
    hide Parse, Fetch, GuestStep, LoadWord, HoldsWord;
    FirstByte(env.memory, s.rip);
    ParsesOneByte(CodeAt(env.memory, s.rip));
    LoadedWord(env.memory, s.gregs[7], top);
    if env.memory(s.rip) == 0x90 {
      StepOfBytes(env, s, [0x90], Nop);
    } else if env.memory(s.rip) == 0xC3 {
      StepOfBytes(env, s, [0xC3], Ret);
    }
  }
}
