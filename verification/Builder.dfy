/**
  The builder: the opcode handlers as the program runs them, appending
  operations to the byte list and patching the conditional jump.
*/
module Builder {
  import opened Words
  import opened Wrappers
  import opened IR
  import opened Machine
  import opened X86Tables
  import opened Decoder
  import opened Handlers
  import opened IRList

  const INITIAL_SIZE: nat := 8 * 1024 * 1024

  /** The operands a handler passes fit the fields of the operation. */
  predicate InRange(op: Op) {
    && WellFormedOp(op)
    && (forall a :: a in Arguments(op) ==> a < M32)
    && match op
       case Constant(flags, _) => flags < 256
       case LoadContext(size, o) => size < 256 && o < M32
       case StoreContext(size, o, _) => size < 256 && o < M32
       case LoadMem(size, _, i) => size < 256 && i.NoIndex?
       case CondJump(_, t, _) => t < M32
       case GetArgument(_) => false
       case AllocateContext(_) => false
       case BeginFunction(_, _) => false
       case Jump(_) => false
       case _ => true
  }

  lemma InRangeIsEncodable(op: Op)
    requires InRange(op)
    ensures Encodable(op)
  {
    Widths();
    hide Power256;
    match op {
      case StoreContext(_, _, a) => assert a in Arguments(op);
      case CondJump(c, _, _) => assert c in Arguments(op);
      case Return(a) => assert a in Arguments(op);
      case Binary(_, a, b) => assert a in Arguments(op) && b in Arguments(op);
      case Trunc32(a) => assert a in Arguments(op);
      case Trunc16(a) => assert a in Arguments(op);
      case LoadMem(_, a, _) => assert a in Arguments(op);
      case _ =>
    }
    forall f | f in Fields(op)
      ensures f.value < Power256(f.width)
    {
      if op.Syscall? {
        var i :| 0 <= i < |op.arguments| && f == Field(4 + 4 * i, 4, op.arguments[i]);
        assert op.arguments[i] in Arguments(op);
      } else if op.Select? && f != Fields(op)[0] {
        var i :| 0 <= i < |op.args| && f == Field(8 + 4 * i, 4, op.args[i]);
        assert op.args[i] in Arguments(op);
      }
    }
  }

  lemma ShiftOne(done: seq<Op>, rel: Op, d: nat)
    ensures Shift(done + [rel], d) == Shift(done, d) + [ShiftOp(rel, d)]
    ensures Length(Shift(done, d)) == Length(done)
    ensures Length(done + [rel]) == Length(done) + SizeOf(rel)
  {
    hide SizeOf;
    OffsetOfShift(done, d, |done|);
    LastOffset(done, rel);
    OffsetOfPrefix(done, [rel], |done|);
  }

  /** One more operation of a handler's fragment, at its final place. */
  lemma ExtendsByOne(start: View, before: View, after: View, done: seq<Op>, op: Op, rel: Op)
    requires Extends(start, before, Shift(done, start.length)) && Extends(before, after, [op])
    requires before.sound ==> op == ShiftOp(rel, start.length)
    ensures Extends(start, after, Shift(done + [rel], start.length))
    ensures before.sound ==> before.length == start.length + Length(done)
  {
    hide Shift, OffsetOf;
    ShiftOne(done, rel, start.length);
    OneOp(op);
    if before.sound {
      ExtendsTwice(start, before, after, Shift(done, start.length), [op]);
    } else {
      ShiftOne(done, rel, 0);
      OneOp(rel);
      LengthOfShift(done + [rel], start.length);
    }
  }

  lemma LengthOfShift(ops: seq<Op>, d: nat)
    ensures Length(Shift(ops, d)) == Length(ops)
  {
    OffsetOfShift(ops, d, |ops|);
  }

  lemma ExtendsNothing(v: View)
    ensures Extends(v, v, Shift([], v.length)) && Length([]) == 0
  {
    assert v.ops + [] == v.ops;
  }

  class OpDispatchBuilder {
    const irList: IntrusiveIRList
    var ripLocations: map<Word, nat>
    var decodeFailure: bool

    /** The list when the current handler started, and what the handler appended since. */
    ghost var start: View
    ghost var emitted: seq<Op>

    ghost predicate Valid()
      reads this`start, this`emitted, irList
    {
      && irList.Valid() && LARGEST_OP <= |irList.bytes|
      && Extends(start, irList.Seen(), Shift(emitted, start.length))
    }

    constructor ()
      ensures Valid() && fresh(irList) && !decodeFailure && ripLocations == map[]
      ensures irList.sound && irList.ops == [] && irList.currentOffset == 0 && |irList.bytes| == INITIAL_SIZE
    {
      irList := new IntrusiveIRList(INITIAL_SIZE);
      ripLocations := map[];
      decodeFailure := false;
      new;
      start, emitted := irList.Seen(), [];
      ExtendsNothing(start);
    }

    /** The beginning of a handler's trace. */
    ghost method Begin()
      requires irList.Valid() && LARGEST_OP <= |irList.bytes|
      modifies this`start, this`emitted
      ensures Valid() && start == irList.Seen() && emitted == []
    {
      start, emitted := irList.Seen(), [];
      ExtendsNothing(start);
    }

    /** `AllocateOp` and the assignments to the fields of the new operation. */
    method Append(op: Op, ghost rel: Op) returns (at: nat)
      requires Valid() && InRange(op) && SizeOf(rel) == SizeOf(op)
      requires irList.sound ==> op == ShiftOp(rel, start.length)
      modifies irList, this`emitted
      ensures Valid() && emitted == old(emitted) + [rel] && Length(emitted) == Length(old(emitted)) + SizeOf(rel)
      ensures at < M32 && (irList.sound ==> old(irList.sound) && at == start.length + Length(old(emitted)))
    {
      hide OpAt, OffsetOf, SizeOf, Represents, Opcode, Shift, ShiftOp, Encodable, InRange, Arguments;
      ghost var before, done := irList.Seen(), emitted;
      InRangeIsEncodable(op);
      var p := irList.Put(op);
      at := p.offset;
      emitted := emitted + [rel];
      ExtendsByOne(start, before, irList.Seen(), done, op, rel);
      ShiftOne(done, rel, 0);
    }

    lemma Here()
      requires Valid()
      ensures irList.currentOffset < M32
      ensures irList.sound ==> irList.currentOffset == start.length + Length(emitted)
    {
      hide OffsetOf, Shift;
      LengthOfShift(emitted, start.length);
    }

    /*** Shared pieces; `rel` is where a value lies in the handler's fragment ***/

    method LoadContext(offset: nat, size: nat) returns (at: nat)
      requires Valid() && offset < M32 && size < 256
      modifies irList, this`emitted
      ensures Valid() && emitted == old(emitted) + [Op.LoadContext(size, offset)]
      ensures Length(emitted) == Length(old(emitted)) + 8
      ensures at < M32 && (irList.sound ==> old(irList.sound) && at == start.length + Length(old(emitted)))
    {
      at := Append(Op.LoadContext(size, offset), Op.LoadContext(size, offset));
    }

    method StoreContext(value: nat, offset: nat, size: nat, ghost rel: nat)
      requires Valid() && value < M32 && offset < M32 && size < 256 && (irList.sound ==> value == start.length + rel)
      modifies irList, this`emitted
      ensures Valid() && emitted == old(emitted) + [Op.StoreContext(size, offset, rel)]
      ensures Length(emitted) == Length(old(emitted)) + 12 && (irList.sound ==> old(irList.sound))
    {
      var _ := Append(Op.StoreContext(size, offset, value), Op.StoreContext(size, offset, rel));
    }

    method EmitConstant(flags: nat, w: Word) returns (at: nat)
      requires Valid() && flags < 256
      modifies irList, this`emitted
      ensures Valid() && emitted == old(emitted) + [Constant(flags, w)]
      ensures Length(emitted) == Length(old(emitted)) + 16
      ensures at < M32 && (irList.sound ==> old(irList.sound) && at == start.length + Length(old(emitted)))
    {
      at := Append(Constant(flags, w), Constant(flags, w));
    }

    method Combine(kind: BinaryKind, a: nat, b: nat, ghost relA: nat, ghost relB: nat) returns (at: nat)
      requires Valid() && a < M32 && b < M32
      requires irList.sound ==> a == start.length + relA && b == start.length + relB
      modifies irList, this`emitted
      ensures Valid() && emitted == old(emitted) + [Binary(kind, relA, relB)]
      ensures Length(emitted) == Length(old(emitted)) + 12
      ensures at < M32 && (irList.sound ==> old(irList.sound) && at == start.length + Length(old(emitted)))
    {
      at := Append(Binary(kind, a, b), Binary(kind, relA, relB));
    }

    method Truncate(value: nat, size: nat, ghost rel: nat) returns (at: nat, ghost relAt: nat)
      requires Valid() && value < M32 && (irList.sound ==> value == start.length + rel)
      requires size == 2 || size == 4 || size == 8
      modifies irList, this`emitted
      ensures Valid() && emitted == old(emitted) + if size == 8 then [] else [TruncOp(size, rel)]
      ensures Length(emitted) == Length(old(emitted)) + if size == 8 then 0 else 8
      ensures at < M32 && (irList.sound ==> old(irList.sound) && at == start.length + relAt)
      ensures relAt == if size == 8 then rel else Length(old(emitted))
    {
      at, relAt := value, rel;
      if size != 8 {
        relAt := Length(emitted);
        at := Append(TruncOp(size, value), TruncOp(size, rel));
      }
    }

    method SetCF(value: nat, ghost rel: nat)
      requires Valid() && value < M32 && (irList.sound ==> value == start.length + rel)
      modifies irList, this`emitted
      ensures Valid() && emitted == old(emitted) + SetCFOps(Length(old(emitted)), rel)
    {
      hide Valid, Extends, Shift, OffsetOf, Represents, Shl, InRange;
      ghost var at := Length(emitted);
      var flags := LoadContext(RFLAGS_OFFSET, 8);
      var one := EmitConstant(TYPE_I64, 1);
      var low := Combine(OpAnd, value, one, rel, at + 8);
      var cleared := Combine(OpNand, flags, one, at, at + 8);
      var joined := Combine(OpOr, low, cleared, at + 24, at + 36);
      StoreContext(joined, RFLAGS_OFFSET, 8, at + 48);
    }

    /** The flags, and the constants 1, the bit's mask and the bit. */
    method FlagOperands(bit: nat) returns (flags: nat, one: nat, mask: nat, shift: nat)
      requires Valid() && bit < 64
      modifies irList, this`emitted
      ensures Valid() && Length(emitted) == Length(old(emitted)) + 56
      ensures emitted == old(emitted) + [ Op.LoadContext(8, RFLAGS_OFFSET), Constant(TYPE_I64, 1),
                                          Constant(TYPE_I64, Shl(1, bit)), Constant(TYPE_I64, bit) ]
      ensures flags < M32 && one < M32 && mask < M32 && shift < M32
      ensures irList.sound ==>
                var at := start.length + Length(old(emitted));
                old(irList.sound) && flags == at && one == at + 8 && mask == at + 24 && shift == at + 40
    {
      hide Valid, Extends, Shift, OffsetOf, Represents, Shl, InRange;
      flags := LoadContext(RFLAGS_OFFSET, 8);
      one := EmitConstant(TYPE_I64, 1);
      mask := EmitConstant(TYPE_I64, Shl(1, bit));
      shift := EmitConstant(TYPE_I64, bit);
    }

    /** `SetZF`, `SetSF` and `SetOF`: bits 6, 7 and 11. */
    method SetFlag(bit: nat, value: nat, ghost rel: nat)
      requires Valid() && bit < 64 && value < M32 && (irList.sound ==> value == start.length + rel)
      modifies irList, this`emitted
      ensures Valid() && emitted == old(emitted) + SetFlagOps(bit, Length(old(emitted)), rel)
      ensures Length(emitted) == Length(old(emitted)) + 116 && (irList.sound ==> old(irList.sound))
    {
      hide Valid, Extends, Shift, OffsetOf, Represents, Shl, InRange;
      ghost var at := Length(emitted);
      var flags, one, mask, shift := FlagOperands(bit);
      var low := Combine(OpAnd, value, one, rel, at + 8);
      var moved := Combine(OpShl, low, shift, at + 56, at + 40);
      var cleared := Combine(OpNand, flags, mask, at, at + 24);
      var joined := Combine(OpOr, moved, cleared, at + 68, at + 80);
      StoreContext(joined, RFLAGS_OFFSET, 8, at + 92);
    }

    /** The negating XOR is allocated first and then takes itself as an operand. */
    method GetFlagBit(bit: nat, negate: bool) returns (at: nat)
      requires Valid() && emitted == [] && bit < 64
      modifies irList, this`emitted
      ensures Valid() && emitted == GetFlagBitOps(bit, negate)
      ensures at < M32 && (irList.sound ==> old(irList.sound) && at == start.length + GetFlagBitResult(negate))
    {
      hide Valid, Extends, Shift, OffsetOf, Represents, Shl, InRange;
      ExtendsNothing(start);
      var flags, one, mask, shift := FlagOperands(bit);
      var masked := Combine(OpAnd, flags, mask, 0, 24);
      at := Combine(OpShr, masked, shift, 56, 40);
      if negate {
        Here();
        var itself := irList.GetOffset();
        at := Combine(OpXor, itself, one, 80, 8);
      }
    }

    /*** The handlers ***/

    method AddTail(src: nat, dest: nat, size: nat, ghost rel: nat)
      requires Valid() && src < M32 && (irList.sound ==> src == start.length + rel) && dest < 16
      requires size == 2 || size == 4 || size == 8
      modifies irList, this`emitted
      ensures Valid() && emitted == old(emitted) + Handlers.AddTail(Length(old(emitted)), rel, dest, size)
    {
      hide Valid, Extends, Shift, OffsetOf, Represents;
      ghost var at := Length(emitted);
      var old1 := LoadContext(GregOffset(dest), 8);
      var left, relLeft := Truncate(old1, size, at);
      var right, relRight := Truncate(src, size, rel);
      ghost var relSum := Length(emitted);
      var sum := Combine(OpAdd, left, right, relLeft, relRight);
      var result, relResult := Truncate(sum, size, relSum);
      StoreContext(result, GregOffset(dest), 8, relResult);
    }

    /** An address of the form `[register + disp32]`. */
    method Displaced(base: nat, displacement: Word) returns (at: nat)
      requires Valid() && emitted == [] && base < 16
      modifies irList, this`emitted
      ensures Valid()
      ensures emitted == [LoadReg(base), Constant(TYPE_I64, displacement), Binary(OpAdd, 0, 8)]
      ensures at < M32 && (irList.sound ==> old(irList.sound) && at == start.length + 24)
    {
      hide Valid, Extends, Shift, OffsetOf, Represents, SetFlagOps;
      ExtendsNothing(start);
      var register := LoadContext(GregOffset(base), 8);
      var constant := EmitConstant(TYPE_I64, displacement);
      at := Combine(OpAdd, register, constant, 0, 8);
    }

    /** A source operand `[register]`. */
    method Indirect(base: nat, size: nat) returns (at: nat)
      requires Valid() && emitted == [] && base < 16 && size < 256
      modifies irList, this`emitted
      ensures Valid()
      ensures emitted == [LoadReg(base), LoadMem(size, 0, NoIndex)] && Length(emitted) == 20
      ensures at < M32 && (irList.sound ==> old(irList.sound) && at == start.length + 8)
    {
      hide Valid, Extends, Shift, OffsetOf, Represents, SetFlagOps;
      ExtendsNothing(start);
      var register := LoadContext(GregOffset(base), 8);
      at := Append(LoadMem(size, register, NoIndex), LoadMem(size, 0, NoIndex));
    }

    method AddOp(x: Site)
      requires Valid() && emitted == [] && !decodeFailure
      modifies irList, this`emitted, this`decodeFailure
      ensures Valid() && emitted == Flatten(AddFragment(x).fragment) && decodeFailure == AddFragment(x).failed
    {
      hide Valid, Extends, Shift, OffsetOf, Represents, RegisterIndex, ModField, RegField, RmField;
      ExtendsNothing(start);
      decodeFailure := !x.flags.modrm || x.flags.sib;
      var size, src, dest := x.OperandSize(), 0, 0;
      ghost var rel := 0;
      if x.Mod() != 3 && RegField(x.ModRM()) != 4 {
        dest := x.Reg();
        if x.Mod() == 2 {
          decodeFailure := true;
          src := Displaced(x.Rm(), x.Immediate32());
        } else if x.Mod() == 0 {
          src := Indirect(x.Rm(), size);
          rel := 8;
        } else {
          decodeFailure := true;
        }
      } else if x.Mod() == 3 {
        dest := x.Rm();
        src := LoadContext(GregOffset(x.Reg()), 8);
      } else {
        decodeFailure := true;
      }
      if decodeFailure {
        return;
      }
      AddTail(src, dest, size, rel);
    }

    method AddImmOp(x: Site)
      requires Valid() && emitted == [] && !decodeFailure
      modifies irList, this`emitted, this`decodeFailure
      ensures Valid() && emitted == Flatten(AddImmFragment(x).fragment) && decodeFailure == AddImmFragment(x).failed
    {
      hide Valid, Extends, Shift, OffsetOf, Represents, RegisterIndex, ModField, RegField, RmField;
      ExtendsNothing(start);
      var left := LoadContext(GregOffset(REG_RAX), 8);
      var right;
      if x.flags.rex {
        right := EmitConstant(TYPE_I64, x.Immediate32());
      } else if x.flags.opsize {
        right := EmitConstant(TYPE_I16, x.Immediate16());
      } else {
        right := EmitConstant(TYPE_I32, x.Immediate32());
      }
      var sum := Combine(OpAdd, left, right, 0, 8);
      StoreContext(sum, GregOffset(REG_RAX), 8, 24);
    }

    method AddImmModRMOp(x: Site)
      requires Valid() && emitted == [] && !decodeFailure
      modifies irList, this`emitted, this`decodeFailure
      ensures Valid() && emitted == Flatten(AddImmModRMFragment(x).fragment)
      ensures decodeFailure == AddImmModRMFragment(x).failed
    {
      hide Valid, Extends, Shift, OffsetOf, Represents, RegisterIndex, ModField, RmField, SetFlagOps, SignExtend8,
           AddImmModRMFragment;
      ExtendsNothing(start);
      AddImmModRMParts(x);
      decodeFailure := !x.flags.modrm || x.flags.sib || x.Mod() != 3;
      if decodeFailure {
        return;
      }
      var size := if x.flags.rex then 8 else if x.flags.opsize then 2 else 4;
      var src, sum := AddConstant(x.Rm(), x.Immediate8());
      SetSign(src, size);
      SetZero(sum);
    }

    /** The part of `AddImmModRMOp` that adds. */
    method AddConstant(reg: nat, constant: Word) returns (src: nat, sum: nat)
      requires Valid() && emitted == [] && reg < 16
      modifies irList, this`emitted
      ensures Valid()
      ensures emitted == [LoadReg(reg), Constant(TYPE_I64, constant), Binary(OpAdd, 0, 8), StoreReg(reg, 24)]
      ensures Length(emitted) == 48 && src < M32 && sum < M32
      ensures irList.sound ==> old(irList.sound) && src == start.length && sum == start.length + 24
    {
      hide Valid, Extends, Shift, OffsetOf, Represents, SetFlagOps;
      ExtendsNothing(start);
      src := LoadContext(GregOffset(reg), 8);
      var immediate := EmitConstant(TYPE_I64, constant);
      sum := Combine(OpAdd, src, immediate, 0, 8);
      StoreContext(sum, GregOffset(reg), 8, 24);
    }

    /** The part of `AddImmModRMOp` that sets SF. */
    method SetSign(src: nat, size: nat)
      requires Valid() && 1 <= size <= 8 && src < M32 && (irList.sound ==> src == start.length)
      requires Length(emitted) == 48
      modifies irList, this`emitted
      ensures Valid() && Length(emitted) == 192 && (irList.sound ==> old(irList.sound))
      ensures emitted == old(emitted) + [Constant(TYPE_I64, size * 4 - 1), Binary(OpShr, 0, 48)] + SetFlagOps(7, 76, 64)
    {
      hide Valid, Extends, Shift, OffsetOf, Represents, SetFlagOps;
      var shift := EmitConstant(TYPE_I64, size * 4 - 1);
      var sign := Combine(OpShr, src, shift, 0, 48);
      SetFlag(7, sign, 64);
    }

    /** The part of `AddImmModRMOp` that sets ZF. */
    method SetZero(sum: nat)
      requires Valid() && sum < M32 && (irList.sound ==> sum == start.length + 24)
      requires Length(emitted) == 192
      modifies irList, this`emitted
      ensures Valid()
      ensures emitted == old(emitted)
                         + [Constant(TYPE_I64, 1), Constant(TYPE_I64, 0), Select(CompEq, [24, 192, 208, 192])]
                         + SetFlagOps(6, 248, 224)
    {
      hide Valid, Extends, Shift, OffsetOf, Represents, SetFlagOps;
      var one := EmitConstant(TYPE_I64, 1);
      var zero := EmitConstant(TYPE_I64, 0);
      var select := Append(Select(CompEq, [sum, one, zero, one]), Select(CompEq, [24, 192, 208, 192]));
      SetFlag(6, select, 224);
    }

    method ShlImmOp(x: Site)
      requires Valid() && emitted == [] && !decodeFailure
      modifies irList, this`emitted, this`decodeFailure
      ensures Valid() && emitted == Flatten(ShlImmFragment(x).fragment) && decodeFailure == ShlImmFragment(x).failed
    {
      hide Valid, Extends, Shift, OffsetOf, Represents, RegisterIndex, ModField, RegField, RmField;
      ExtendsNothing(start);
      decodeFailure := !x.flags.modrm || x.flags.sib || x.Mod() != 3;
      if decodeFailure {
        return;
      }
      var size := x.OperandSize();
      var left := LoadContext(GregOffset(x.Rm()), 8);
      var amount := EmitConstant(TYPE_I8, x.Immediate8());
      var src, relSrc := Truncate(left, size, 0);
      ghost var relShl := Length(emitted);
      var shifted := Combine(OpShl, src, amount, relSrc, 8);
      var result, relResult := Truncate(shifted, size, relShl);
      StoreContext(result, GregOffset(x.Rm()), 8, relResult);
    }

    method XorOp(x: Site)
      requires Valid() && emitted == [] && !decodeFailure
      modifies irList, this`emitted, this`decodeFailure
      ensures Valid() && emitted == Flatten(XorFragment(x).fragment) && decodeFailure == XorFragment(x).failed
    {
      hide Valid, Extends, Shift, OffsetOf, Represents, RegisterIndex, ModField, RegField, RmField;
      ExtendsNothing(start);
      decodeFailure := !x.flags.modrm || x.flags.sib || x.Mod() != 3;
      if decodeFailure {
        return;
      }
      ExclusiveOr(x.Rm(), x.Reg(), x.OperandSize());
    }

    /** The part of `XorOp` behind the checks. */
    method ExclusiveOr(dest: nat, src: nat, size: nat)
      requires Valid() && emitted == [] && dest < 16 && src < 16 && (size == 2 || size == 4 || size == 8)
      modifies irList, this`emitted
      ensures Valid()
      ensures emitted == [LoadReg(dest), LoadReg(src)] +
                         if size == 8 then [Binary(OpXor, 0, 8), StoreReg(dest, 16)]
                         else [ TruncOp(size, 0), TruncOp(size, 8), Binary(OpXor, 16, 24), TruncOp(size, 32),
                                StoreReg(dest, 44) ]
    {
      hide Valid, Extends, Shift, OffsetOf, Represents, SetFlagOps;
      ExtendsNothing(start);
      var x := LoadContext(GregOffset(dest), 8);
      var y := LoadContext(GregOffset(src), 8);
      var left, relLeft := Truncate(x, size, 0);
      var right, relRight := Truncate(y, size, 8);
      ghost var relXor := Length(emitted);
      var both := Combine(OpXor, left, right, relLeft, relRight);
      var result, relResult := Truncate(both, size, relXor);
      StoreContext(result, GregOffset(dest), 8, relResult);
    }

    method MovOp(x: Site)
      requires Valid() && emitted == [] && !decodeFailure
      modifies irList, this`emitted, this`decodeFailure
      ensures Valid() && emitted == Flatten(MovFragment(x).fragment) && decodeFailure == MovFragment(x).failed
    {
      hide Valid, Extends, Shift, OffsetOf, Represents, RegisterIndex, ModField, RegField, RmField;
      ExtendsNothing(start);
      decodeFailure := !x.flags.modrm || x.flags.opsize || x.flags.sib || x.Mod() != 3;
      if decodeFailure {
        return;
      }
      var result := LoadContext(GregOffset(x.Reg()), 8);
      ghost var rel := 0;
      if !x.flags.rex {
        result, rel := Truncate(result, 4, 0);
      }
      StoreContext(result, GregOffset(x.Rm()), 8, rel);
    }

    method BTOp(x: Site)
      requires Valid() && emitted == [] && !decodeFailure
      modifies irList, this`emitted, this`decodeFailure
      ensures Valid() && emitted == Flatten(BTFragment(x).fragment) && decodeFailure == BTFragment(x).failed
    {
      hide Valid, Extends, Shift, OffsetOf, Represents, RegisterIndex, ModField;
      ExtendsNothing(start);
      var modrm := if x.flags.rex then x.code[3] else x.code[2];
      decodeFailure := !x.flags.modrm || x.flags.opsize || x.flags.sib || ModField(modrm) != 3;
      if decodeFailure {
        return;
      }
      var tested := LoadContext(GregOffset(RegisterIndex(RexB(x.Rex()), RmField(modrm))), 8);
      var position := LoadContext(GregOffset(RegisterIndex(RexR(x.Rex()), RegField(modrm))), 8);
      var mask := EmitConstant(TYPE_I8, 31);
      var masked := Combine(OpAnd, position, mask, 8, 16);
      var extracted := Combine(OpBitExtract, tested, masked, 0, 32);
      SetCF(extracted, 44);
    }

    method JMPOp(x: Site)
      requires Valid() && emitted == [] && !decodeFailure
      modifies irList, this`emitted, this`decodeFailure
      ensures Valid() && emitted == Flatten(JMPFragment(x).fragment) && decodeFailure == JMPFragment(x).failed
    {
      hide Valid, Extends, Shift, OffsetOf, Represents, RegisterIndex, ModField, RegField, RmField;
      ExtendsNothing(start);
      decodeFailure := !x.flags.modrm || x.flags.sib || x.Mod() != 3;
      if decodeFailure {
        return;
      }
      var target := LoadContext(GregOffset(x.Rm()), 8);
      StoreContext(target, RIP_OFFSET, 8, 0);
    }

    method LEAOp(x: Site)
      requires Valid() && emitted == [] && !decodeFailure
      modifies irList, this`emitted, this`decodeFailure
      ensures Valid() && emitted == Flatten(LEAFragment(x).fragment) && decodeFailure == LEAFragment(x).failed
    {
      hide Valid, Extends, Shift, OffsetOf, Represents, RegisterIndex, ModField, RegField, RmField;
      ExtendsNothing(start);
      decodeFailure := !x.flags.modrm;
      var src, dest := 0, 0;
      if x.flags.rex && x.Mod() == 2 && RegField(x.ModRM()) != 4 {
        dest := x.Reg();
        src := Displaced(x.Rm(), x.Immediate32());
      } else {
        decodeFailure := true;
      }
      if decodeFailure {
        return;
      }
      StoreContext(src, GregOffset(dest), 8, 24);
    }

    method CMPOp(x: Site)
      requires Valid() && emitted == [] && !decodeFailure
      modifies irList, this`emitted, this`decodeFailure
      ensures Valid() && emitted == Flatten(CMPFragment(x).fragment) && decodeFailure == CMPFragment(x).failed
    {
      hide Valid, Extends, Shift, OffsetOf, Represents, RegisterIndex, ModField, RegField, RmField;
      ExtendsNothing(start);
      decodeFailure := !x.flags.modrm || x.flags.sib || x.Mod() != 3 || !x.cmpEnabled;
      if decodeFailure {
        return;
      }
      Compare(x.Reg(), x.Rm());
    }

    /** The part of `CMPOp` behind the checks. */
    method Compare(srcReg: nat, destReg: nat)
      requires Valid() && emitted == [] && srcReg < 16 && destReg < 16
      modifies irList, this`emitted
      ensures Valid()
      ensures emitted ==
                [ LoadReg(srcReg), LoadReg(destReg), Binary(OpSub, 8, 0),
                  Constant(TYPE_I64, 1), Constant(TYPE_I64, 0), Select(CompEq, [0, 8, 44, 28]) ]
                + SetFlagOps(6, 84, 60)
    {
      hide Valid, Extends, Shift, OffsetOf, Represents, SetFlagOps;
      ExtendsNothing(start);
      var src := LoadContext(GregOffset(srcReg), 8);
      var dest := LoadContext(GregOffset(destReg), 8);
      var _ := Combine(OpSub, dest, src, 8, 0);
      var one := EmitConstant(TYPE_I64, 1);
      var zero := EmitConstant(TYPE_I64, 0);
      var select := Append(Select(CompEq, [src, dest, zero, one]), Select(CompEq, [0, 8, 44, 28]));
      SetFlag(6, select, 60);
    }

    method RETOp()
      requires Valid() && emitted == []
      modifies irList, this`emitted
      ensures Valid() && emitted == RET_OPS
    {
      hide Valid, Extends, Shift, OffsetOf, Represents;
      ExtendsNothing(start);
      var stack := LoadContext(GregOffset(REG_RSP), 8);
      var eight := EmitConstant(TYPE_I64, 8);
      var target := Append(LoadMem(8, stack, NoIndex), LoadMem(8, 0, NoIndex));
      var popped := Combine(OpAdd, stack, eight, 0, 8);
      StoreContext(popped, GregOffset(REG_RSP), 8, 36);
      StoreContext(target, RIP_OFFSET, 8, 24);
    }

    /** The seven registers of a system call, the call, and its result. */
    method SyscallOp()
      requires Valid() && emitted == []
      modifies irList, this`emitted
      ensures Valid() && emitted == SYSCALL_OPS
    {
      hide Valid, Extends, Shift, OffsetOf, Represents;
      ExtendsNothing(start);
      var registers := [REG_RAX, REG_RDI, REG_RSI, REG_RDX, REG_R10, REG_R8, REG_R9];
      var arguments: seq<nat>, i: nat := [], 0;
      while i < MAX_ARGS
        invariant 0 <= i <= MAX_ARGS == |registers| && |arguments| == i
        invariant Valid() && emitted == SYSCALL_OPS[..i] && Length(emitted) == 8 * i
        invariant forall j :: 0 <= j < i ==> arguments[j] < M32
        invariant irList.sound ==> old(irList.sound) && forall j :: 0 <= j < i ==> arguments[j] == start.length + 8 * j
      {
        var argument := LoadContext(GregOffset(registers[i]), 8);
        assert SYSCALL_OPS[i] == LoadReg(registers[i]);
        arguments := arguments + [argument];
        i := i + 1;
      }
      ghost var rel := Syscall([0, 8, 16, 24, 32, 40, 48]);
      if irList.sound {
        assert Syscall(arguments) == ShiftOp(rel, start.length);
      }
      assert InRange(Syscall(arguments));
      var result := Append(Syscall(arguments), rel);
      StoreContext(result, GregOffset(REG_RAX), 8, 56);
    }

    method EndBlock(increment: Word)
      requires Valid()
      modifies irList, this`emitted
      ensures Valid() && emitted == old(emitted) + [Op.EndBlock(increment)]
      ensures Length(emitted) == Length(old(emitted)) + 16 && (irList.sound ==> old(irList.sound))
    {
      var _ := Append(Op.EndBlock(increment), Op.EndBlock(increment));
    }

    /** A conditional jump whose target field is not written yet. */
    method BeginJump(cond: nat, ripTarget: Word) returns (p: Pointer, ghost t: nat)
      requires irList.Valid() && LARGEST_OP <= |irList.bytes| && cond < M32
      modifies irList
      ensures irList.Valid() && p.storage == irList.storage && p.offset + 24 <= |irList.bytes|
      ensures LARGEST_OP <= |irList.bytes|
      ensures Extends(old(irList.Seen()), irList.Seen(), [CondJump(cond, t, ripTarget)])
      ensures irList.sound ==> |irList.ops| > 0 && OffsetOf(irList.ops, |irList.ops| - 1) == p.offset
    {
      hide OffsetOf, Represents, Extends, OpAt, Written, Power256, HasStruct;
      ghost var before := irList.Seen();
      p := irList.AllocateOp(10);
      ghost var blank, placeholder := irList.Seen(), OpAt(irList.bytes, p.offset).value;
      ghost var k: nat := if |irList.ops| > 0 then |irList.ops| - 1 else 0;
      HeaderSize(irList.bytes, p.offset, CondJump(0, 0, 0));
      Widths();
      ghost var b0, ops0 := irList.bytes, irList.ops;
      if irList.sound {
        RepresentedAt(b0, irList.currentOffset, ops0, k);
      }
      irList.Write(p, k, Field(4, 4, cond));
      ghost var b1, ops1 := irList.bytes, irList.ops;
      HeaderSize(b1, p.offset, CondJump(0, 0, 0));
      if irList.sound {
        OffsetOfUpdate(ops0, k, ops1[k]);
      }
      irList.Write(p, k, Field(16, 8, ripTarget));
      if irList.sound {
        OffsetOfUpdate(ops1, k, irList.ops[k]);
      }
      t := TwoFields(b0, b1, irList.bytes, p.offset, cond, ripTarget);
      FilledIn(before, blank, irList.Seen(), placeholder, CondJump(cond, t, ripTarget));
    }

    /** The assignment that completes a conditional jump, through the pointer kept since its allocation. */
    method PatchTarget(p: Pointer, target: nat, ghost k: nat, ghost jump: Op)
      requires irList.Valid() && p.offset + 24 <= |irList.bytes| && target < M32 && jump.CondJump?
      requires irList.sound ==> k < |irList.ops| && p.offset == OffsetOf(irList.ops, k) && irList.ops[k] == jump
      modifies irList`bytes, irList`ops, irList`sound
      ensures irList.Valid() && |irList.bytes| == |old(irList.bytes)|
      ensures irList.sound == (old(irList.sound) && p.storage == irList.storage)
      ensures irList.sound ==> irList.ops == old(irList.ops)[k := jump.(target := target)]
    {
      hide OffsetOf, Represents;
      ghost var before := irList.bytes;
      if irList.sound {
        RepresentedAt(before, irList.currentOffset, irList.ops, k);
        NewHeader(before, p.offset);
      }
      Widths();
      irList.Write(p, k, Field(8, 4, target));
      if irList.sound {
        PatchedField(before, irList.bytes, p.offset, target);
      }
    }

    method JccOp(c: Condition, x: Site)
      requires Valid() && emitted == [] && !decodeFailure && x.size <= MAX_INSTRUCTION
      modifies irList, this`start, this`emitted, this`decodeFailure
      ensures Valid() && start == old(start)
      ensures emitted == Flatten(JccFragment(c, x).fragment) && decodeFailure == JccFragment(c, x).failed
    {
      hide Valid, Extends, Shift, OffsetOf, Represents, GetFlagBitOps, JccTarget;
      decodeFailure := x.flags.sib || !IsSingleFlag(c) || !x.jccEnabled;
      if decodeFailure {
        return;
      }
      GuardedExit(FlagBit(c), !IsNegated(c), JccTarget(x));
    }

    /** The exit block of `JccOp` and the target behind it. */
    method LeaveTo(ripTarget: Word) returns (target: nat)
      requires Valid() && emitted == []
      modifies irList, this`emitted
      ensures Valid() && emitted == ExitTail(ripTarget)
      ensures target < M32 && (irList.sound ==> target == start.length + 56)
    {
      hide Valid, Extends, Shift, OffsetOf, Represents;
      ExtendsNothing(start);
      var constant := EmitConstant(TYPE_I64, ripTarget);
      StoreContext(constant, RIP_OFFSET, 8, 0);
      StoreContext(constant, RIP_OFFSET, 8, 0);
      EndBlock(0);
      target := Append(JumpTarget, JumpTarget);
    }

    /** The part of `JccOp` behind the checks. */
    method GuardedExit(bit: nat, negate: bool, ripTarget: Word)
      requires Valid() && emitted == [] && bit < 64
      modifies irList, this`start, this`emitted
      ensures Valid() && start == old(start)
      ensures emitted == Flatten(Branch(GetFlagBitOps(bit, negate), GetFlagBitResult(negate), ripTarget))
    {
      hide Extends, Shift, OffsetOf, Represents, GetFlagBitOps, ExitOps, ExitTail;
      ghost var v0 := start;
      var cond := GetFlagBit(bit, negate);
      ghost var v1, test := irList.Seen(), emitted;
      var jump, t := BeginJump(cond, ripTarget);
      ghost var k: nat := if |irList.ops| > 0 then |irList.ops| - 1 else 0;
      ghost var v2 := irList.Seen();
      Begin();
      var target := LeaveTo(ripTarget);
      ghost var v3 := irList.Seen();
      JumpInPlace(v1, v2, v3, Shift(emitted, v2.length), k, CondJump(cond, t, ripTarget));
      PatchTarget(jump, target, k, CondJump(cond, t, ripTarget));
      start, emitted := v0, Flatten(Branch(test, GetFlagBitResult(negate), ripTarget));
      Patched(v0, v1, v2, v3, irList.Seen(), test, GetFlagBitResult(negate), cond, t, target, ripTarget);
    }

    /*** What the translation loop calls ***/

    method BeginBlock()
      requires Valid()
      modifies irList, this`emitted
      ensures Valid() && emitted == old(emitted) + [Op.BeginBlock]
    {
      var _ := Append(Op.BeginBlock, Op.BeginBlock);
    }

    /** `BeginBlock` or `EndBlock`, seen from outside a handler. */
    method AppendControl(op: Op)
      requires Valid() && (op.BeginBlock? || op.EndBlock?)
      modifies irList, this`start, this`emitted
      ensures Valid() && Extends(old(irList.Seen()), irList.Seen(), [op])
    {
      hide Extends, Shift, OffsetOf, Represents;
      TraceOf();
      Begin();
      if op.BeginBlock? {
        BeginBlock();
      } else {
        EndBlock(op.increment);
      }
      TraceOf();
      assert Shift([] + [op], start.length) == [op] by { ShiftOne([], op, start.length); }
    }

    /** The trace as a fact about the list. */
    lemma TraceOf()
      requires Valid()
      ensures irList.Valid() && LARGEST_OP <= |irList.bytes|
      ensures Extends(start, irList.Seen(), Shift(emitted, start.length))
    {
      hide Extends, Shift;
    }

    method AddRIPMarker(rip: Word)
      requires Valid()
      modifies irList, this`emitted, this`ripLocations
      ensures Valid() && emitted == old(emitted) + [RipMarker(rip)]
      ensures ripLocations.Keys == old(ripLocations).Keys + {rip}
      ensures irList.sound ==> old(irList.sound) && ripLocations == old(ripLocations)[rip := old(irList.currentOffset)]
    {
      hide Valid, Extends, Shift, OffsetOf, Represents;
      Here();
      var marker := Append(RipMarker(rip), RipMarker(rip));
      ripLocations := ripLocations[rip := marker];
    }

    method ResetWorkingList()
      requires Valid()
      modifies this, irList`currentOffset, irList`ops
      ensures Valid() && ripLocations == map[] && !decodeFailure
      ensures irList.currentOffset == 0 && (irList.sound ==> irList.ops == [])
      ensures start == irList.Seen() && emitted == []
    {
      ripLocations := map[];
      irList.Reset();
      decodeFailure := false;
      Begin();
    }

    /** `std::invoke` of the handler in the table entry. */
    method Dispatch(h: Handler, x: Site)
      requires Valid() && !decodeFailure && x.size <= MAX_INSTRUCTION
      modifies irList, this`start, this`emitted, this`decodeFailure
      ensures Valid() && start == old(irList.Seen())
      ensures emitted == Flatten(Emit(h, x).fragment) && decodeFailure == Emit(h, x).failed
    {
      hide Valid, Extends, Shift, OffsetOf, Represents, AddFragment, AddImmFragment, AddImmModRMFragment,
           ShlImmFragment, XorFragment, MovFragment, BTFragment, JMPFragment, LEAFragment, CMPFragment, JccFragment,
           RET_OPS, SYSCALL_OPS;
      TraceOf();
      Begin();
      match h {
        case AddOp => AddOp(x);
        case AddImmOp => AddImmOp(x);
        case AddImmModRMOp => AddImmModRMOp(x);
        case ShlImmOp => ShlImmOp(x);
        case XorOp => XorOp(x);
        case MovOp => MovOp(x);
        case BTOp => BTOp(x);
        case JMPOp => JMPOp(x);
        case LEAOp => LEAOp(x);
        case CMPOp => CMPOp(x);
        case JccOp(c) => JccOp(c, x);
        case RETOp => RETOp();
        case SyscallOp => SyscallOp();
        case NoOp =>
        case NoHandler => decodeFailure := true;
        case UnknownOp => decodeFailure := true;
      }
    }

    /** One instruction of a block: its marker and its handler. */
    method TranslateInstruction(rip: Word, h: Handler, x: Site)
      requires Valid() && !decodeFailure && x.size <= MAX_INSTRUCTION
      modifies this, irList
      ensures Valid() && decodeFailure == Emit(h, x).failed && ripLocations.Keys == old(ripLocations).Keys + {rip}
      ensures Extends(old(irList.Seen()), irList.Seen(),
                      [RipMarker(rip)] + Shift(Flatten(Emit(h, x).fragment), old(irList.currentOffset) + 16))
    {
      hide Extends, Shift, OffsetOf, Represents, Flatten, Emit;
      ghost var v0 := irList.Seen();
      Begin();
      ExtendsNothing(start);
      AddRIPMarker(rip);
      ghost var v1 := irList.Seen();
      Dispatch(h, x);
      MarkerAndFragment(v0, v1, irList.Seen(), RipMarker(rip), Flatten(Emit(h, x).fragment));
    }
  }

  lemma MarkerAndFragment(a: View, b: View, c: View, marker: Op, ops: seq<Op>)
    requires marker.RipMarker? && Extends(a, b, Shift([] + [marker], a.length)) && Extends(b, c, Shift(ops, b.length))
    ensures Extends(a, c, [marker] + Shift(ops, a.length + 16))
  {
    hide Shift, OffsetOf;
    ShiftOne([], marker, a.length);
    assert Shift([] + [marker], a.length) == [marker];
    OneOp(marker);
    ExtendsTwice(a, b, c, [marker], Shift(ops, b.length));
    LengthOfShift(ops, b.length);
    LengthOfShift(ops, a.length + 16);
    OffsetOfSuffix([marker], Shift(ops, b.length), |ops|);
    OffsetOfSuffix([marker], Shift(ops, a.length + 16), |ops|);
  }

  /** What `JccOp` appends behind its conditional jump, relative to the end of the jump. */
  function ExitTail(ripTarget: Word): seq<Op> {
    [ Constant(TYPE_I64, ripTarget), StoreContext(8, RIP_OFFSET, 0), StoreContext(8, RIP_OFFSET, 0), EndBlock(0),
      JumpTarget ]
  }

  lemma ExitSplits(at: nat, cond: nat, ripTarget: Word, d: nat)
    ensures Shift(ExitOps(at, cond, ripTarget), d)
         == [CondJump(cond + d, at + 80 + d, ripTarget)] + Shift(ExitTail(ripTarget), at + d + 24)
    ensures Length(ExitTail(ripTarget)) == 57 && Length(ExitOps(at, cond, ripTarget)) == 81
  {
    var tail, exit := ExitTail(ripTarget), ExitOps(at, cond, ripTarget);
    OffsetAfter(tail, 0); OffsetAfter(tail, 1); OffsetAfter(tail, 2); OffsetAfter(tail, 3); OffsetAfter(tail, 4);
    OffsetAfter(exit, 0); OffsetAfter(exit, 1); OffsetAfter(exit, 2); OffsetAfter(exit, 3); OffsetAfter(exit, 4);
    OffsetAfter(exit, 5);
  }

  lemma OffsetAfter(ops: seq<Op>, k: nat)
    requires k < |ops|
    ensures OffsetOf(ops, 0) == 0 && OffsetOf(ops, k + 1) == OffsetOf(ops, k) + SizeOf(ops[k])
  {
    hide SizeOf;
  }

  /** The conditional jump is still where it was after its exit has been appended. */
  lemma JumpInPlace(v1: View, v2: View, v3: View, tail: seq<Op>, k: nat, jump: Op)
    requires Extends(v1, v2, [jump]) && Extends(v2, v3, tail)
    requires |v2.ops| > 0 ==> k == |v2.ops| - 1
    ensures v2.capacity <= v3.capacity
    ensures v3.sound ==>
              v2.sound && k == |v1.ops| < |v3.ops| && v3.ops[k] == jump && OffsetOf(v3.ops, k) == OffsetOf(v2.ops, k)
  {
    hide OffsetOf;
    if v3.sound {
      OffsetOfPrefix(v2.ops, tail, k);
    }
  }

  /** The fragment of `AddImmModRMOp` in the parts it is appended in. */
  lemma AddImmModRMParts(x: Site)
    ensures var r, failed := AddImmModRMFragment(x), !x.flags.modrm || x.flags.sib || x.Mod() != 3;
            && r.failed == failed && (failed ==> Flatten(r.fragment) == [])
            && (!failed ==>
                  var size := if x.flags.rex then 8 else if x.flags.opsize then 2 else 4;
                  Flatten(r.fragment) ==
                  [ LoadReg(x.Rm()), Constant(TYPE_I64, x.Immediate8()), Binary(OpAdd, 0, 8), StoreReg(x.Rm(), 24) ]
                  + [Constant(TYPE_I64, size * 4 - 1), Binary(OpShr, 0, 48)] + SetFlagOps(7, 76, 64)
                  + [Constant(TYPE_I64, 1), Constant(TYPE_I64, 0), Select(CompEq, [24, 192, 208, 192])]
                  + SetFlagOps(6, 248, 224))
  {
    hide RegisterIndex, ModField, RmField, SetFlagOps, SignExtend8;
    var reg, constant := x.Rm(), x.Immediate8();
    var last := (if x.flags.rex then 8 else if x.flags.opsize then 2 else 4) * 4 - 1;
    assert [LoadReg(reg), Constant(TYPE_I64, constant), Binary(OpAdd, 0, 8), StoreReg(reg, 24)]
           + [Constant(TYPE_I64, last), Binary(OpShr, 0, 48)]
        == [ LoadReg(reg), Constant(TYPE_I64, constant), Binary(OpAdd, 0, 8), StoreReg(reg, 24),
             Constant(TYPE_I64, last), Binary(OpShr, 0, 48) ];
  }

  /** A branch whose target was patched in is the fragment of the handler, at its place. */
  lemma Patched(
      v0: View, v1: View, v2: View, v3: View, v4: View, test: seq<Op>, rel: nat, cond: nat, t: nat, target: nat,
      ripTarget: Word)
    requires Extends(v0, v1, Shift(test, v0.length)) && (v1.sound ==> cond == v0.length + rel)
    requires Extends(v1, v2, [CondJump(cond, t, ripTarget)])
    requires Extends(v2, v3, Shift(ExitTail(ripTarget), v2.length)) && (v3.sound ==> target == v2.length + 56)
    requires v4 == v3.(ops := v4.ops, sound := v3.sound && v2.storage == v3.storage)
    requires v4.sound ==>
               |v1.ops| < |v3.ops| && v4.ops == v3.ops[|v1.ops| := CondJump(cond, target, ripTarget)]
    ensures Extends(v0, v4, Shift(test + ExitOps(Length(test), rel, ripTarget), v0.length))
  {
    hide Shift, OffsetOf, ExitOps, ExitTail;
    var d, at := v0.length, Length(test);
    var exit, tail := ExitOps(at, rel, ripTarget), ExitTail(ripTarget);
    ExitSplits(at, rel, ripTarget, d);
    LengthOfShift(test, d);
    LengthOfShift(tail, v2.length);
    LengthOfShift(test + exit, d);
    OffsetOfSuffix(test, exit, |exit|);
    OneOp(CondJump(cond, t, ripTarget));
    if v4.sound {
      assert v2.length == at + d + 24;
      var jump, patched := CondJump(cond, t, ripTarget), CondJump(cond, target, ripTarget);
      PatchedOps(v0.ops, Shift(test, d), jump, patched, Shift(tail, v2.length), v3.ops);
      ShiftJoins(test, exit, d);
    }
  }

  lemma PatchedOps(front: seq<Op>, test: seq<Op>, jump: Op, patched: Op, tail: seq<Op>, ops: seq<Op>)
    requires ops == front + test + [jump] + tail
    ensures ops[|front + test| := patched] == front + (test + ([patched] + tail))
  {
  }

  lemma ShiftJoins(a: seq<Op>, b: seq<Op>, d: nat)
    ensures Shift(a + b, d) == Shift(a, d) + Shift(b, d)
  {
    hide ShiftOp;
  }

  lemma JumpStruct(bytes: seq<byte>, at: nat)
    requires at + 24 <= |bytes| && bytes[at] == 10
    ensures OpAt(bytes, at)
         == Some(CondJump(Read(bytes, at + 4, 4), Read(bytes, at + 8, 4), Read(bytes, at + 16, 8)))
  {
    hide Read;
  }

  /** A conditional jump of which only the condition and the guest address were written. */
  lemma TwoFields(b0: seq<byte>, b1: seq<byte>, b2: seq<byte>, at: nat, cond: nat, rip: Word) returns (t: nat)
    requires at + 24 <= |b0| && b0[at] == 10 && cond < M32
    requires b1 == Written(b0, at + 4, 4, cond) && b2 == Written(b1, at + 16, 8, rip)
    ensures OpAt(b2, at) == Some(CondJump(cond, t, rip))
  {
    hide Read, Written;
    Widths();
    ReadWritten(b0, at + 4, 4, cond);
    ReadWritten(b1, at + 16, 8, rip);
    ReadIsLocal(b1, b2, at + 4, 4);
    JumpStruct(b2, at);
    t := Read(b2, at + 8, 4);
  }

  lemma PatchedField(a: seq<byte>, b: seq<byte>, at: nat, target: nat)
    requires at + 24 <= |a| && a[at] == 10 && target < M32 && b == Written(a, at + 8, 4, target)
    ensures OpAt(a, at).Some? && OpAt(a, at).value.CondJump?
    ensures OpAt(b, at) == Some(OpAt(a, at).value.(target := target))
  {
    hide Read, Written;
    Widths();
    ReadWritten(a, at + 8, 4, target);
    ReadIsLocal(a, b, at + 4, 4);
    ReadIsLocal(a, b, at + 16, 8);
    JumpStruct(a, at);
    JumpStruct(b, at);
  }

}
