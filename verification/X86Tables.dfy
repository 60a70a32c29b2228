/**
  The instruction tables: what the decoder needs to know about an opcode and
  which handler translates it.
*/
module X86Tables {
  import opened Words

  datatype InstType =
    | TypeUnknown
    | TypeLegacyPrefix
    | TypePrefix
    | TypeRexPrefix
    | TypeModRMTable
    | TypeInst
    | TypeInvalid

  datatype Condition =
    | CC_OF | CC_NOF | CC_C | CC_NC | CC_Z | CC_NZ | CC_BE | CC_NBE
    | CC_S | CC_NS | CC_P | CC_NP | CC_L | CC_NL | CC_LE | CC_NLE

  datatype Handler =
    | NoHandler
    | UnknownOp
    | AddOp
    | AddImmOp
    | AddImmModRMOp
    | ShlImmOp
    | XorOp
    | MovOp
    | BTOp
    | JMPOp
    | LEAOp
    | CMPOp
    | JccOp(condition: Condition)
    | RETOp
    | SyscallOp
    | NoOp

  datatype InstFlags = InstFlags(
    hasModRM: bool, displaceMul2: bool, displaceDiv2: bool, rexInByte: bool,
    blockEnd: bool, setsRip: bool)

  datatype InstInfo = InstInfo(kind: InstType, flags: InstFlags, moreBytes: nat, handler: Handler)

  /** The three tables. The last is indexed by opcode and `reg` field. */
  datatype Tables = Tables(
    base: byte -> InstInfo, second: byte -> InstInfo, modrm: (byte, nat) -> InstInfo)

  const NONE := InstFlags(false, false, false, false, false, false)
  const MODRM := NONE.(hasModRM := true)
  const DIV2 := NONE.(displaceDiv2 := true)
  const MODRM_DIV2 := MODRM.(displaceDiv2 := true)
  const IN_BYTE := NONE.(rexInByte := true)
  const END := NONE.(blockEnd := true)
  const SETS_RIP := END.(setsRip := true)

  const UNKNOWN := InstInfo(TypeUnknown, NONE, 0, NoHandler)

  function Inst(flags: InstFlags, more: nat, handler: Handler): InstInfo {
    InstInfo(TypeInst, flags, more, handler)
  }

  function ShortJump(op: byte): Condition
    requires 0x70 <= op <= 0x7F
  {
    match op
    case 0x70 => CC_OF
    case 0x71 => CC_NOF
    case 0x72 => CC_C
    case 0x73 => CC_NC
    case 0x74 => CC_Z
    case 0x75 => CC_NZ
    case 0x76 => CC_BE
    case 0x77 => CC_NBE
    case 0x78 => CC_S
    case 0x79 => CC_NS
    case 0x7A => CC_P
    case 0x7B => CC_NP
    case 0x7C => CC_L
    case 0x7D => CC_NL
    case 0x7E => CC_LE
    case _ => CC_NLE
  }

  predicate IsLegacyPrefix(op: byte) {
    op == 0x66 || op == 0x67 || op == 0x2E || op == 0x3E || op == 0x26 || op == 0x64 ||
    op == 0x65 || op == 0x36 || op == 0xF0 || op == 0xF2 || op == 0xF3
  }

  predicate IsRex(op: byte) {
    0x40 <= op <= 0x4F
  }

  predicate UsesModRMTable(op: byte) {
    op == 0x80 || op == 0x81 || op == 0x83 || op == 0xC0 || op == 0xC1 || 0xD0 <= op <= 0xD3 ||
    op == 0xD8 || op == 0xF6 || op == 0xF7 || op == 0xFF
  }

  function BaseOps(op: byte): InstInfo {
    if IsLegacyPrefix(op) then InstInfo(TypeLegacyPrefix, NONE, 0, NoHandler)
    else if IsRex(op) then InstInfo(TypeRexPrefix, NONE, 0, NoHandler)
    else if UsesModRMTable(op) then InstInfo(TypeModRMTable, MODRM, 3, NoHandler)
    else if op == 0x00 || op == 0x02 || op == 0x04 then UNKNOWN.(handler := UnknownOp)
    else if op == 0x01 then Inst(MODRM_DIV2, 0, AddOp)
    else if op == 0x03 then Inst(MODRM, 0, AddOp)
    else if op == 0x05 then Inst(DIV2, 4, AddImmOp)
    else if op == 0x31 then Inst(MODRM, 0, XorOp)
    else if op == 0x39 then Inst(MODRM, 0, CMPOp)
    else if op == 0x89 then Inst(MODRM, 0, MovOp)
    else if op == 0x8D then Inst(MODRM, 0, LEAOp)
    else if op == 0x90 then Inst(NONE, 0, NoOp)
    else if op == 0xC3 then Inst(SETS_RIP, 0, RETOp)
    else if 0x70 <= op <= 0x7F then Inst(NONE, 1, JccOp(ShortJump(op)))
    else if 0x08 <= op <= 0x0B || 0x20 <= op <= 0x23 || op == 0x2B || op == 0x30 || 0x32 <= op <= 0x33 ||
            op == 0x38 || 0x3A <= op <= 0x3B || op == 0x63 || 0x84 <= op <= 0x85 || op == 0x88 ||
            0x8A <= op <= 0x8C || op == 0x8E then Inst(MODRM, 0, NoHandler)
    else if op == 0x29 then Inst(MODRM_DIV2, 0, NoHandler)
    else if op == 0x25 || op == 0x2D || op == 0xA9 then Inst(DIV2, 4, NoHandler)
    else if op == 0x2C || op == 0x3C || op == 0xA8 then Inst(NONE, 1, NoHandler)
    else if op == 0x3D then Inst(IN_BYTE.(displaceDiv2 := true), 4, NoHandler)
    else if 0x50 <= op <= 0x5F then Inst(IN_BYTE, 0, NoHandler)
    else if op == 0x69 then Inst(MODRM_DIV2, 4, NoHandler)
    else if op == 0x98 || op == 0x99 || 0xA0 <= op <= 0xA3 || 0xAA <= op <= 0xAB then Inst(NONE, 0, NoHandler)
    else if 0xB0 <= op <= 0xB7 then Inst(IN_BYTE, 1, NoHandler)
    else if 0xB8 <= op <= 0xBF then Inst(IN_BYTE.(displaceDiv2 := true, displaceMul2 := true), 4, NoHandler)
    else if op == 0xC2 then Inst(SETS_RIP, 0, NoHandler)
    else if op == 0xC6 then Inst(MODRM, 1, NoHandler)
    else if op == 0xC7 then Inst(MODRM, 4, NoHandler)
    else if op == 0xE8 || op == 0xE9 then Inst(SETS_RIP.(displaceDiv2 := true), 4, NoHandler)
    else if op == 0xEB then Inst(SETS_RIP, 1, NoHandler)
    else if op == 0x82 || 0xC4 <= op <= 0xC5 || 0xD4 <= op <= 0xD6 then InstInfo(TypeInvalid, NONE, 0, NoHandler)
    else UNKNOWN
  }

  function SecondBaseOps(op: byte): InstInfo {
    if op == 0x05 then Inst(END, 0, SyscallOp)
    else if op == 0x1F then Inst(MODRM, 0, NoOp)
    else if op == 0xA3 then Inst(MODRM, 0, BTOp)
    else if op == 0x31 || op == 0xA2 then Inst(NONE, 0, NoHandler)
    else if 0x80 <= op <= 0x8F then Inst(DIV2, 4, NoHandler)
    else if op == 0xBA || op == 0x70 || op == 0x72 || op == 0x73 then Inst(MODRM, 1, NoHandler)
    else if 0x40 <= op <= 0x4F || 0x6E <= op <= 0x6F || 0x7E <= op <= 0x7F || 0x90 <= op <= 0x9F ||
            op == 0xAF || 0xB0 <= op <= 0xB1 || 0xB6 <= op <= 0xB7 || 0xBC <= op <= 0xBF ||
            0x10 <= op <= 0x11 || 0x16 <= op <= 0x17 || op == 0x29 || op == 0xEB || 0x60 <= op <= 0x62 ||
            op == 0x66 || op == 0x6A || 0x6C <= op <= 0x6D || op == 0x74 || op == 0x76 || op == 0xD4 ||
            0xD6 <= op <= 0xD7 || op == 0xEF || op == 0xFE then Inst(MODRM, 0, NoHandler)
    else UNKNOWN
  }

  function ModRMOps(op: byte, reg: nat): InstInfo {
    if op == 0x83 && reg == 0 then Inst(MODRM, 1, AddImmModRMOp)
    else if op == 0xC1 && reg == 4 then Inst(MODRM, 1, ShlImmOp)
    else if op == 0xFF && reg == 4 then Inst(MODRM.(blockEnd := true, setsRip := true), 0, JMPOp)
    else if (op == 0x80 || op == 0x83 || op == 0xC0 || op == 0xC1) && reg < 8 then Inst(MODRM, 1, NoHandler)
    else if op == 0x81 && reg < 8 then Inst(MODRM_DIV2, 4, NoHandler)
    else if 0xD0 <= op <= 0xD3 && reg < 8 then Inst(MODRM, 0, NoHandler)
    else if op == 0xF6 && (reg <= 1 || reg == 6) then Inst(MODRM, 1, NoHandler)
    else if op == 0xF6 && reg == 4 then Inst(MODRM, 0, NoHandler)
    else if op == 0xF7 && reg <= 1 then Inst(MODRM_DIV2, 4, NoHandler)
    else if op == 0xF7 && 2 <= reg < 8 then Inst(MODRM, 0, NoHandler)
    else if op == 0xFF && (reg <= 1 || reg == 6) then Inst(MODRM, 0, NoHandler)
    else if op == 0xFF && (reg <= 3 || reg == 5) then Inst(MODRM.(blockEnd := true, setsRip := true), 0, NoHandler)
    else UNKNOWN
  }

  const TABLES := Tables(BaseOps, SecondBaseOps, ModRMOps)

  /** The assertion handler for unknown opcodes can never be dispatched to. */
  lemma UnknownOpIsUnreachable(op: byte, reg: nat)
    ensures BaseOps(op).handler == UnknownOp ==> BaseOps(op).kind == TypeUnknown
    ensures SecondBaseOps(op).handler != UnknownOp && ModRMOps(op, reg).handler != UnknownOp
  {
  }
}
