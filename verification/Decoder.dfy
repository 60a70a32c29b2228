/**
  The table-driven instruction decoder: a loop over prefix bytes followed by
  one opcode, whose result is a table entry, flags and a length.
*/
module Decoder {
  import opened Words
  import opened Wrappers
  import opened X86Tables

  datatype DecodeFlags = DecodeFlags(
    rex: bool, opsize: bool, adsize: bool, modrm: bool, sib: bool, lock: bool)

  /**
    `Overrun` stands for a write past the decoder's 15-byte buffer, after which
    the program's behaviour is undefined.
  */
  datatype Decoded = Overrun | Decoded(info: Option<InstInfo>, flags: DecodeFlags, size: nat)

  const MAX_INSTRUCTION: nat := 15

  /** How far past the instruction the decoder may look. */
  const WINDOW: nat := MAX_INSTRUCTION + 2

  /** The decoder's local variables. */
  datatype Scan = Scan(
    size: nat, rexModRM: bool, rexSib: bool, widening: bool, narrowing: bool,
    flags: DecodeFlags, info: Option<InstInfo>)

  const START := Scan(0, false, false, false, false, DecodeFlags(false, false, false, false, false, false), None)

  function ModField(modrm: byte): nat { modrm / 64 }
  function RegField(modrm: byte): nat { modrm / 8 % 8 }
  function RmField(modrm: byte): nat { modrm % 8 }
  function RexW(rex: byte): nat { rex / 8 % 2 }
  function RexR(rex: byte): nat { rex / 4 % 2 }
  function RexX(rex: byte): nat { rex / 2 % 2 }
  function RexB(rex: byte): nat { rex % 2 }

  predicate IsPrefixType(kind: InstType) {
    kind == TypePrefix || kind == TypeLegacyPrefix
  }

  /*** What follows an opcode ***/

  function TakesModRM(info: InstInfo, d: Scan): bool {
    (info.flags.hasModRM || d.rexModRM) && !info.flags.rexInByte
  }

  function TakesSib(takesModRM: bool, modrm: byte, d: Scan): bool {
    d.rexSib || (takesModRM && ModField(modrm) != 3 && RmField(modrm) == 4)
  }

  function DisplacementBytes(takesModRM: bool, takesSib: bool, modrm: byte, sib: byte): nat {
    if !takesModRM then 0
    else
      var byMod :=
        if ModField(modrm) == 1 then 1
        else if ModField(modrm) == 2 then 4
        else if ModField(modrm) == 0 && RmField(modrm) == 5 then 4
        else 0;
      if takesSib && RmField(sib) == 5 && byMod == 0 then 4 else byMod
  }

  function ImmediateBytes(info: InstInfo, widening: bool, narrowing: bool): nat {
    var wide := if info.flags.displaceMul2 && widening then info.moreBytes * 2 else info.moreBytes;
    if info.flags.displaceDiv2 && narrowing then wide / 2 else wide
  }

  datatype StepResult = Again(again: Scan) | Finished(final: Scan)

  /** `NormalOp`: the opcode at `d.size - 1` has the table entry `info`. */
  function NormalOp(inst: seq<byte>, info: InstInfo, d: Scan): (r: StepResult)
    requires d.size <= MAX_INSTRUCTION && |inst| >= WINDOW
    ensures r.Again? ==> r.again.size == d.size
    ensures r.Finished? ==> r.final.size >= d.size
  {
    if IsPrefixType(info.kind) then Again(d.(info := Some(info)))
    else
      var modrm, sib := inst[d.size], inst[d.size + 1];
      var takesModRM := TakesModRM(info, d);
      var takesSib := TakesSib(takesModRM, modrm, d);
      var additional :=
        (if takesModRM then 1 else 0) + (if takesSib then 1 else 0)
        + DisplacementBytes(takesModRM, takesSib, modrm, sib)
        + ImmediateBytes(info, d.widening, d.narrowing);
      var flags := d.flags.(modrm := d.flags.modrm || takesModRM, sib := d.flags.sib || takesSib);
      Finished(d.(size := d.size + additional, flags := flags, info := Some(info)))
  }

  /** One pass from the label `OnceMore`. */
  function DecodeStep(T: Tables, inst: seq<byte>, d0: Scan): (r: StepResult)
    requires d0.size < MAX_INSTRUCTION && |inst| >= WINDOW
    ensures r.Again? ==> r.again.size > d0.size
  {
    var op := inst[d0.size];
    var d := d0.(size := d0.size + 1);
    if op == 0x0F then
      // The switch looks at the byte after the two-byte opcode.
      if d.size == MAX_INSTRUCTION then Finished(d.(size := MAX_INSTRUCTION + 1)) else
      var e := d.(size := d.size + 1);
      var third := inst[e.size];
      if third == 0x0F then Finished(e.(size := e.size + 1))
      else if third == 0x38 || third == 0x3A then Finished(e)
      else NormalOp(inst, T.second(inst[e.size - 1]), e)
    else if op == 0x66 then Again(d.(narrowing := true, flags := d.flags.(opsize := true)))
    else if op == 0x67 then Again(d.(flags := d.flags.(adsize := true)))
    else if IsRex(op) then
      Again(d.(
        info := Some(T.base(op)),
        rexModRM := d.rexModRM || RexR(op) == 1 || RexB(op) == 1,
        rexSib := d.rexSib || RexX(op) == 1,
        widening := d.widening || RexW(op) == 1,
        flags := d.flags.(rex := true)))
    else if op == 0xF0 then Again(d.(flags := d.flags.(lock := true)))
    else if T.base(op).kind == TypeModRMTable then
      NormalOp(inst, T.modrm(op, RegField(inst[d.size])), d)
    else NormalOp(inst, T.base(op), d)
  }

  /** An entry of unknown type is no entry. */
  function Conclude(d: Scan): Decoded {
    if d.size > MAX_INSTRUCTION then Overrun
    else Decoded(if d.info.Some? && d.info.value.kind == TypeUnknown then None else d.info, d.flags, d.size)
  }

  function DecodeFrom(T: Tables, inst: seq<byte>, d: Scan): Decoded
    requires |inst| >= WINDOW
    decreases MAX_INSTRUCTION - d.size
  {
    if d.size >= MAX_INSTRUCTION then Overrun
    else
      match DecodeStep(T, inst, d)
      case Again(d') => DecodeFrom(T, inst, d')
      case Finished(d') => Conclude(d')
  }

  function Decode(T: Tables, inst: seq<byte>): Decoded
    requires |inst| >= WINDOW
  {
    DecodeFrom(T, inst, START)
  }

  lemma {:induction false} SizeInRange(T: Tables, inst: seq<byte>, d: Scan)
    requires |inst| >= WINDOW
    ensures DecodeFrom(T, inst, d).Decoded? ==> d.size < DecodeFrom(T, inst, d).size <= MAX_INSTRUCTION
    decreases MAX_INSTRUCTION - d.size
  {
    if d.size < MAX_INSTRUCTION {
      match DecodeStep(T, inst, d)
      case Again(d') => SizeInRange(T, inst, d');
      case Finished(d') =>
    }
  }

  /** The decoder as the program runs it. */
  method GetInstInfo(T: Tables, inst: seq<byte>) returns (decoded: Decoded)
    requires |inst| >= WINDOW
    ensures decoded == Decode(T, inst)
    ensures decoded.Decoded? ==> 0 < decoded.size <= MAX_INSTRUCTION
  {
    SizeInRange(T, inst, START);
    var d, doAgain := START, true;
    while doAgain
      invariant Decode(T, inst) == if doAgain then DecodeFrom(T, inst, d) else Conclude(d)
      decreases doAgain, MAX_INSTRUCTION - d.size
    {
      hide DecodeStep, Conclude;
      if d.size >= MAX_INSTRUCTION {
        return Overrun;
      }
      doAgain, d := OnceMore(T, inst, d);
    }
    decoded := Conclude(d);
  }

  /** The code between the label `OnceMore` and the backward `goto`. */
  method OnceMore(T: Tables, inst: seq<byte>, d0: Scan) returns (doAgain: bool, d: Scan)
    requires d0.size < MAX_INSTRUCTION && |inst| >= WINDOW
    ensures DecodeStep(T, inst, d0) == if doAgain then Again(d) else Finished(d)
  {
    hide NormalOp, Conclude, IsPrefixType, BaseOps, SecondBaseOps, ModRMOps;
    doAgain := false;
    d := d0;
    var op := inst[d.size];
    d := d.(size := d.size + 1);
    if op == 0x0F {
      if d.size == MAX_INSTRUCTION {
        d := d.(size := d.size + 1);
        return;
      }
      d := d.(size := d.size + 1);
      if inst[d.size] == 0x0F {
        d := d.(size := d.size + 1);
      } else if inst[d.size] != 0x38 && inst[d.size] != 0x3A {
        doAgain, d := OperandBytes(inst, T.second(inst[d.size - 1]), d);
      }
    } else if op == 0x66 {
      d := d.(narrowing := true, flags := d.flags.(opsize := true));
      doAgain := true;
    } else if op == 0x67 {
      d := d.(flags := d.flags.(adsize := true));
      doAgain := true;
    } else if IsRex(op) {
      d := d.(info := Some(T.base(op)));
      if RexR(op) == 1 || RexB(op) == 1 {
        d := d.(rexModRM := true);
      }
      if RexX(op) == 1 {
        d := d.(rexSib := true);
      }
      if RexW(op) == 1 {
        d := d.(widening := true);
      }
      d := d.(flags := d.flags.(rex := true));
      doAgain := true;
    } else if op == 0xF0 {
      d := d.(flags := d.flags.(lock := true));
      doAgain := true;
    } else if T.base(op).kind == TypeModRMTable {
      doAgain, d := OperandBytes(inst, T.modrm(op, RegField(inst[d.size])), d);
    } else {
      doAgain, d := OperandBytes(inst, T.base(op), d);
    }
  }

  /** The closure `NormalOp` and the loop that reads the additional bytes. */
  method OperandBytes(inst: seq<byte>, info: InstInfo, d0: Scan) returns (doAgain: bool, d: Scan)
    requires d0.size <= MAX_INSTRUCTION && |inst| >= WINDOW
    ensures NormalOp(inst, info, d0) == if doAgain then Again(d) else Finished(d)
  {
    hide DisplacementBytes, ImmediateBytes, TakesSib, IsPrefixType, ModField, RmField;
    d := d0.(info := Some(info));
    doAgain := IsPrefixType(info.kind);
    if doAgain {
      return;
    }
    var hasModRM := info.flags.hasModRM || d.rexModRM;
    if info.flags.rexInByte {
      hasModRM := false;
    }
    var hasSib, displacement := AddressBytes(hasModRM, inst[d.size], inst[d.size + 1], d0);
    var immediate := ImmediateSize(info, d0);
    var additional, flags := displacement + immediate, d.flags;
    if hasModRM {
      additional, flags := additional + 1, flags.(modrm := true);
    }
    if hasSib {
      additional, flags := additional + 1, flags.(sib := true);
    }
    d := d.(size := d.size + additional, flags := flags);
  }

  method AddressBytes(hasModRM: bool, modrm: byte, sib: byte, d: Scan) returns (hasSib: bool, displacement: nat)
    ensures hasSib == TakesSib(hasModRM, modrm, d)
    ensures displacement == DisplacementBytes(hasModRM, hasSib, modrm, sib)
  {
    hasSib, displacement := d.rexSib, 0;
    if hasModRM {
      hasSib := hasSib || (ModField(modrm) != 3 && RmField(modrm) == 4);
      if ModField(modrm) == 1 {
        displacement := 1;
      } else if ModField(modrm) == 2 {
        displacement := 4;
      } else if ModField(modrm) == 0 && RmField(modrm) == 5 {
        displacement := 4;
      }
      if hasSib && RmField(sib) == 5 && displacement == 0 {
        displacement := 4;
      }
    }
  }

  method ImmediateSize(info: InstInfo, d: Scan) returns (bytes: nat)
    ensures bytes == ImmediateBytes(info, d.widening, d.narrowing)
  {
    bytes := info.moreBytes;
    if info.flags.displaceMul2 && d.widening {
      bytes := bytes * 2;
    }
    if info.flags.displaceDiv2 && d.narrowing {
      bytes := bytes / 2;
    }
  }
}
