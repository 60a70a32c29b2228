/**
  The opcode handlers: the operations each of them appends for one decoded
  instruction. Offsets are relative to the first operation the handler appends;
  `IR.Shift` moves a fragment to the place where the builder puts it.
*/
module Handlers {
  import opened Words
  import opened IR
  import opened Machine
  import opened X86Tables
  import opened Decoder

  const REG_RAX: nat := 0
  const REG_RBX: nat := 1
  const REG_RCX: nat := 2
  const REG_RDX: nat := 3
  const REG_RSI: nat := 4
  const REG_RDI: nat := 5
  const REG_RBP: nat := 6
  const REG_RSP: nat := 7
  const REG_R8: nat := 8
  const REG_R9: nat := 9
  const REG_R10: nat := 10

  /** `MapModRMToReg`: the register file's index of an encoded register. */
  function RegisterIndex(rex: nat, bits: nat): (r: nat)
    requires rex < 2 && bits < 8
    ensures r < 16
  {
    if rex == 1 then 8 + bits
    else
      match bits
      case 0 => REG_RAX
      case 1 => REG_RCX
      case 2 => REG_RDX
      case 3 => REG_RBX
      case 4 => REG_RSP
      case 5 => REG_RBP
      case 6 => REG_RSI
      case _ => REG_RDI
  }

  type Code = s: seq<byte> | |s| == WINDOW witness seq(WINDOW, _ => 0)

  /**
    What a handler sees of the instruction it translates. The two booleans are
    the outcomes of the address tests in `CMPOp` and `JccOp`.
  */
  datatype Site = Site(
    code: Code, flags: DecodeFlags, size: nat, jitRip: Word, cmpEnabled: bool, jccEnabled: bool)
  {
    function Rex(): byte { if flags.rex then code[0] else 0 }
    function ModRM(): byte { if flags.rex then code[2] else code[1] }
    function Mod(): nat { ModField(ModRM()) }
    function Reg(): nat { RegisterIndex(RexR(Rex()), RegField(ModRM())) }
    function Rm(): nat { RegisterIndex(RexB(Rex()), RmField(ModRM())) }

    /** The byte `k` before the end of the instruction. */
    function Last(k: nat): byte {
      if k <= size <= MAX_INSTRUCTION && k > 0 then code[size - k] else 0
    }

    function Immediate8(): Word { SignExtend8(Last(1)) }
    function Immediate16(): Word { SignExtend16(Last(2), Last(1)) }
    function Immediate32(): Word { SignExtend32(Last(4), Last(3), Last(2), Last(1)) }

    /** The operand size most handlers compute. */
    function OperandSize(): nat {
      if flags.rex && RexW(code[0]) == 1 then 8 else if flags.opsize then 2 else 4
    }
  }

  /**
    What a handler appends: plain straight-line operations, or a test followed
    by a guarded exit (`JccOp`).
  */
  datatype Fragment =
    | Plain(ops: seq<Op>)
    | Branch(test: seq<Op>, cond: nat, ripTarget: Word)

  datatype Emitted = Emitted(fragment: Fragment, failed: bool)

  /** The exit of `JccOp`, whose conditional jump lies at offset `at`. */
  function ExitOps(at: nat, cond: nat, ripTarget: Word): seq<Op> {
    [ CondJump(cond, at + 80, ripTarget),
      Constant(TYPE_I64, ripTarget),
      StoreContext(8, RIP_OFFSET, at + 24),
      StoreContext(8, RIP_OFFSET, at + 24),
      EndBlock(0),
      JumpTarget ]
  }

  function Flatten(f: Fragment): seq<Op> {
    match f
    case Plain(ops) => ops
    case Branch(test, cond, ripTarget) => test + ExitOps(Length(test), cond, ripTarget)
  }

  /*** Shared pieces ***/

  function LoadReg(r: nat): Op { LoadContext(8, GregOffset(r)) }
  function StoreReg(r: nat, arg: nat): Op { StoreContext(8, GregOffset(r), arg) }

  function TruncOp(size: nat, arg: nat): Op {
    if size == 4 then Trunc32(arg) else Trunc16(arg)
  }

  /** `SetCF`, appended at offset `at`. */
  function SetCFOps(at: nat, value: nat): seq<Op> {
    [ LoadContext(8, RFLAGS_OFFSET),
      Constant(TYPE_I64, 1),
      Binary(OpAnd, value, at + 8),
      Binary(OpNand, at, at + 8),
      Binary(OpOr, at + 24, at + 36),
      StoreContext(8, RFLAGS_OFFSET, at + 48) ]
  }

  /** `SetZF`, `SetSF` and `SetOF`, which differ in the bit, appended at offset `at`. */
  function SetFlagOps(bit: nat, at: nat, value: nat): seq<Op>
    requires bit < 64
  {
    [ LoadContext(8, RFLAGS_OFFSET),
      Constant(TYPE_I64, 1),
      Constant(TYPE_I64, Shl(1, bit)),
      Constant(TYPE_I64, bit),
      Binary(OpAnd, value, at + 8),
      Binary(OpShl, at + 56, at + 40),
      Binary(OpNand, at, at + 24),
      Binary(OpOr, at + 68, at + 80),
      StoreContext(8, RFLAGS_OFFSET, at + 92) ]
  }

  /** `GetFlagBit` at the start of a fragment. The negating XOR reads itself. */
  function GetFlagBitOps(bit: nat, negate: bool): seq<Op>
    requires bit < 64
  {
    [ LoadContext(8, RFLAGS_OFFSET),
      Constant(TYPE_I64, 1),
      Constant(TYPE_I64, Shl(1, bit)),
      Constant(TYPE_I64, bit),
      Binary(OpAnd, 0, 24),
      Binary(OpShr, 56, 40) ] + if negate then [Binary(OpXor, 80, 8)] else []
  }

  function GetFlagBitResult(negate: bool): nat { if negate then 80 else 68 }

  /*** The handlers ***/

  function Accept(ops: seq<Op>): Emitted { Emitted(Plain(ops), false) }
  function Reject(ops: seq<Op>): Emitted { Emitted(Plain(ops), true) }

  /** The part of `AddOp` after the source operand, which is value `src`. */
  function AddTail(at: nat, src: nat, dest: nat, size: nat): seq<Op> {
    if size == 8 then
      [LoadReg(dest), Binary(OpAdd, at, src), StoreReg(dest, at + 8)]
    else
      [ LoadReg(dest), TruncOp(size, at), TruncOp(size, src), Binary(OpAdd, at + 8, at + 16),
        TruncOp(size, at + 24), StoreReg(dest, at + 36) ]
  }

  function AddFragment(x: Site): Emitted {
    var bad := !x.flags.modrm || x.flags.sib;
    var size := x.OperandSize();
    if x.Mod() != 3 && RegField(x.ModRM()) != 4 then
      if x.Mod() == 2 then
        Reject([LoadReg(x.Rm()), Constant(TYPE_I64, x.Immediate32()), Binary(OpAdd, 0, 8)])
      else if x.Mod() == 0 then
        var source := [LoadReg(x.Rm()), LoadMem(size, 0, NoIndex)];
        if bad then Reject(source) else Accept(source + AddTail(20, 8, x.Reg(), size))
      else Reject([])
    else if x.Mod() == 3 then
      var source := [LoadReg(x.Reg())];
      if bad then Reject(source) else Accept(source + AddTail(8, 0, x.Rm(), size))
    else Reject([])
  }

  function AddImmFragment(x: Site): Emitted {
    var constant :=
      if x.flags.rex then Constant(TYPE_I64, x.Immediate32())
      else if x.flags.opsize then Constant(TYPE_I16, x.Immediate16())
      else Constant(TYPE_I32, x.Immediate32());
    Accept([LoadReg(REG_RAX), constant, Binary(OpAdd, 0, 8), StoreReg(REG_RAX, 24)])
  }

  function AddImmModRMFragment(x: Site): Emitted {
    if !x.flags.modrm || x.flags.sib || x.Mod() != 3 then Reject([])
    else
      var size := if x.flags.rex then 8 else if x.flags.opsize then 2 else 4;
      Accept(
        [ LoadReg(x.Rm()), Constant(TYPE_I64, x.Immediate8()), Binary(OpAdd, 0, 8), StoreReg(x.Rm(), 24),
          Constant(TYPE_I64, size * 4 - 1), Binary(OpShr, 0, 48) ]
        + SetFlagOps(7, 76, 64)
        + [Constant(TYPE_I64, 1), Constant(TYPE_I64, 0), Select(CompEq, [24, 192, 208, 192])]
        + SetFlagOps(6, 248, 224))
  }

  function ShlImmFragment(x: Site): Emitted {
    if !x.flags.modrm || x.flags.sib || x.Mod() != 3 then Reject([])
    else
      var size := x.OperandSize();
      var operands := [LoadReg(x.Rm()), Constant(TYPE_I8, x.Immediate8())];
      if size == 8 then
        Accept(operands + [Binary(OpShl, 0, 8), StoreReg(x.Rm(), 24)])
      else
        Accept(operands + [TruncOp(size, 0), Binary(OpShl, 24, 8), TruncOp(size, 32), StoreReg(x.Rm(), 44)])
  }

  function XorFragment(x: Site): Emitted {
    if !x.flags.modrm || x.flags.sib || x.Mod() != 3 then Reject([])
    else
      var size := x.OperandSize();
      var operands := [LoadReg(x.Rm()), LoadReg(x.Reg())];
      if size == 8 then
        Accept(operands + [Binary(OpXor, 0, 8), StoreReg(x.Rm(), 16)])
      else
        Accept(operands + [ TruncOp(size, 0), TruncOp(size, 8), Binary(OpXor, 16, 24), TruncOp(size, 32),
                            StoreReg(x.Rm(), 44) ])
  }

  function MovFragment(x: Site): Emitted {
    if !x.flags.modrm || x.flags.opsize || x.flags.sib || x.Mod() != 3 then Reject([])
    else if x.flags.rex then Accept([LoadReg(x.Reg()), StoreReg(x.Rm(), 0)])
    else Accept([LoadReg(x.Reg()), Trunc32(0), StoreReg(x.Rm(), 8)])
  }

  function BTFragment(x: Site): Emitted {
    var modrm := if x.flags.rex then x.code[3] else x.code[2];
    if !x.flags.modrm || x.flags.opsize || x.flags.sib || ModField(modrm) != 3 then Reject([])
    else
      var dest := RegisterIndex(RexB(x.Rex()), RmField(modrm));
      var src := RegisterIndex(RexR(x.Rex()), RegField(modrm));
      Accept(
        [ LoadReg(dest), LoadReg(src), Constant(TYPE_I8, 31), Binary(OpAnd, 8, 16), Binary(OpBitExtract, 0, 32) ]
        + SetCFOps(56, 44))
  }

  function JMPFragment(x: Site): Emitted {
    if !x.flags.modrm || x.flags.sib || x.Mod() != 3 then Reject([])
    else Accept([LoadReg(x.Rm()), StoreContext(8, RIP_OFFSET, 0)])
  }

  function LEAFragment(x: Site): Emitted {
    if !x.flags.rex || x.Mod() != 2 || RegField(x.ModRM()) == 4 then Reject([])
    else
      var address := [LoadReg(x.Rm()), Constant(TYPE_I64, x.Immediate32()), Binary(OpAdd, 0, 8)];
      if !x.flags.modrm then Reject(address) else Accept(address + [StoreReg(x.Reg(), 24)])
  }

  function CMPFragment(x: Site): Emitted {
    if !x.flags.modrm || x.flags.sib || x.Mod() != 3 || !x.cmpEnabled then Reject([])
    else
      Accept(
        [ LoadReg(x.Reg()), LoadReg(x.Rm()), Binary(OpSub, 8, 0),
          Constant(TYPE_I64, 1), Constant(TYPE_I64, 0), Select(CompEq, [0, 8, 44, 28]) ]
        + SetFlagOps(6, 84, 60))
  }

  predicate IsNegated(c: Condition) {
    c == CC_NOF || c == CC_NC || c == CC_NZ || c == CC_NS || c == CC_NP
  }

  /** Conditions `JccOp` translates: those of a single flag. */
  predicate IsSingleFlag(c: Condition) {
    IsNegated(c) || c == CC_OF || c == CC_C || c == CC_Z || c == CC_S || c == CC_P
  }

  function FlagBit(c: Condition): (bit: nat)
    ensures bit < 64
  {
    match c
    case CC_NOF => 11
    case CC_OF => 11
    case CC_NZ => 6
    case CC_Z => 6
    case CC_NS => 7
    case CC_S => 7
    case CC_NP => 2
    case CC_P => 2
    case _ => 0
  }

  function JccTarget(x: Site): Word
    requires x.size <= MAX_INSTRUCTION
  {
    Add(Add(x.jitRip, x.Immediate8()), x.size)
  }

  function JccFragment(c: Condition, x: Site): Emitted
    requires x.size <= MAX_INSTRUCTION
  {
    if x.flags.sib || !IsSingleFlag(c) || !x.jccEnabled then Reject([])
    else
      var negate := !IsNegated(c);
      Emitted(Branch(GetFlagBitOps(FlagBit(c), negate), GetFlagBitResult(negate), JccTarget(x)), false)
  }

  const RET_OPS: seq<Op> :=
    [ LoadReg(REG_RSP), Constant(TYPE_I64, 8), LoadMem(8, 0, NoIndex), Binary(OpAdd, 0, 8),
      StoreReg(REG_RSP, 36), StoreContext(8, RIP_OFFSET, 24) ]

  const SYSCALL_OPS: seq<Op> :=
    [ LoadReg(REG_RAX), LoadReg(REG_RDI), LoadReg(REG_RSI), LoadReg(REG_RDX), LoadReg(REG_R10), LoadReg(REG_R8),
      LoadReg(REG_R9), Syscall([0, 8, 16, 24, 32, 40, 48]), StoreReg(REG_RAX, 56) ]

  /** What the dispatched handler appends and whether it sets `DecodeFailure`. */
  function Emit(h: Handler, x: Site): Emitted
    requires x.size <= MAX_INSTRUCTION
  {
    match h
    case NoHandler => Reject([])
    case UnknownOp => Reject([])
    case AddOp => AddFragment(x)
    case AddImmOp => AddImmFragment(x)
    case AddImmModRMOp => AddImmModRMFragment(x)
    case ShlImmOp => ShlImmFragment(x)
    case XorOp => XorFragment(x)
    case MovOp => MovFragment(x)
    case BTOp => BTFragment(x)
    case JMPOp => JMPFragment(x)
    case LEAOp => LEAFragment(x)
    case CMPOp => CMPFragment(x)
    case JccOp(c) => JccFragment(c, x)
    case RETOp => Accept(RET_OPS)
    case SyscallOp => Accept(SYSCALL_OPS)
    case NoOp => Accept([])
  }
}
