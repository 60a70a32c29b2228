/**
  The intrusive operation list: a byte vector that grows by doubling, in which
  operations are laid out as structures, written field by field through
  pointers, and read back by walking from one operation to the next.
*/
module IRList {
  import opened Words
  import opened Wrappers
  import opened IR

  /*** Structure fields in a byte vector ***/

  /** The little-endian field of `width` bytes at `at`. */
  function Read(bytes: seq<byte>, at: nat, width: nat): (v: nat)
    requires at + width <= |bytes|
    ensures v < Power256(width)
    decreases width
  {
    if width == 0 then 0 else bytes[at] + 256 * Read(bytes, at + 1, width - 1)
  }

  function Written(bytes: seq<byte>, at: nat, width: nat, v: nat): (r: seq<byte>)
    requires at + width <= |bytes|
    ensures |r| == |bytes|
    ensures forall i :: 0 <= i < |bytes| && !(at <= i < at + width) ==> r[i] == bytes[i]
    decreases width
  {
    if width == 0 then bytes else Written(bytes[at := v % 256], at + 1, width - 1, v / 256)
  }

  lemma {:induction false} ReadIsLocal(a: seq<byte>, b: seq<byte>, at: nat, width: nat)
    requires at + width <= |a| && at + width <= |b|
    requires forall i :: at <= i < at + width ==> a[i] == b[i]
    ensures Read(a, at, width) == Read(b, at, width)
    decreases width
  {
    if width > 0 {
      ReadIsLocal(a, b, at + 1, width - 1);
    }
  }

  /** A field that fits its width reads back as written. */
  lemma {:induction false} ReadWritten(bytes: seq<byte>, at: nat, width: nat, v: nat)
    requires at + width <= |bytes| && v < Power256(width)
    ensures Read(Written(bytes, at, width, v), at, width) == v
    decreases width
  {
    if width > 0 {
      var once := bytes[at := v % 256];
      ReadWritten(once, at + 1, width - 1, v / 256);
      assert Written(bytes, at, width, v)[at] == once[at];
    }
  }

  /*** Operations in a byte vector ***/

  const OP_CALL: byte := 11
  const OP_EXTERN_CALL: byte := 12
  const OP_LASTOP: byte := 30

  /** The `IROps` number of an operation. */
  function Opcode(op: Op): byte {
    match op
    case Constant(_, _) => 0
    case LoadContext(_, _) => 1
    case StoreContext(_, _, _) => 2
    case BeginFunction(_, _) => 3
    case EndFunction => 4
    case GetArgument(_) => 5
    case AllocateContext(_) => 6
    case BeginBlock => 7
    case EndBlock(_) => 8
    case Jump(_) => 9
    case CondJump(_, _, _) => 10
    case Syscall(_) => 13
    case Return(_) => 14
    case Binary(kind, _, _) =>
      (match kind
       case OpAdd => 15
       case OpSub => 16
       case OpOr => 17
       case OpXor => 18
       case OpShl => 19
       case OpShr => 20
       case OpAnd => 21
       case OpNand => 22
       case OpBitExtract => 23)
    case Select(_, _) => 24
    case Trunc32(_) => 25
    case Trunc16(_) => 26
    case LoadMem(_, _, _) => 27
    case JumpTarget => 28
    case RipMarker(_) => 29
  }

  const IR_SIZES: seq<nat> :=
    [16, 8, 12, 3, 1, 8, 24, 1, 16, 8, 24, 8, 8, 32, 8, 12, 12, 12, 12, 12, 12, 12, 12, 12, 24, 8, 8, 12, 1, 16]

  /** `IRSizes`, indexed by operation number. */
  function GetSize(code: byte): (n: nat)
    requires code < OP_LASTOP
    ensures 1 <= n <= 32
  {
    IR_SIZES[code]
  }

  function KindOf(code: byte): BinaryKind
    requires 15 <= code <= 23
  {
    match code
    case 15 => OpAdd
    case 16 => OpSub
    case 17 => OpOr
    case 18 => OpXor
    case 19 => OpShl
    case 20 => OpShr
    case 21 => OpAnd
    case 22 => OpNand
    case _ => OpBitExtract
  }

  const NO_INDEX: nat := 0xFFFF_FFFF

  function ReadIndex(v: nat): Index {
    if v == NO_INDEX then NoIndex else IndexAt(v)
  }

  /** Whether the operation number is one that this model has an operation for. */
  predicate IsModelled(code: byte) {
    code < OP_LASTOP && code != OP_CALL && code != OP_EXTERN_CALL
  }

  predicate HasStruct(bytes: seq<byte>, at: nat) {
    at < |bytes| && IsModelled(bytes[at]) && at + GetSize(bytes[at]) <= |bytes|
  }

  predicate IsControl(code: byte) {
    3 <= code <= 14 || code == 28 || code == 29
  }

  /** A function, block, branch or marker structure, seen through its header. */
  function ControlStruct(bytes: seq<byte>, at: nat): (op: Op)
    requires HasStruct(bytes, at) && IsControl(bytes[at])
    ensures SizeOf(op) == GetSize(bytes[at])
  {
    Widths();
    var code := bytes[at];
    if code == 3 then BeginFunction(Read(bytes, at + 1, 1), Read(bytes, at + 2, 1) != 0)
    else if code == 4 then EndFunction
    else if code == 5 then GetArgument(Read(bytes, at + 1, 1))
    else if code == 6 then AllocateContext(Read(bytes, at + 8, 8))
    else if code == 7 then BeginBlock
    else if code == 8 then EndBlock(Read(bytes, at + 8, 8))
    else if code == 9 then Jump(Read(bytes, at + 4, 4))
    else if code == 10 then CondJump(Read(bytes, at + 4, 4), Read(bytes, at + 8, 4), Read(bytes, at + 16, 8))
    else if code == 13 then
      Syscall(seq(MAX_ARGS, i requires 0 <= i < MAX_ARGS => Read(bytes, at + 4 + 4 * i, 4)))
    else if code == 14 then Return(Read(bytes, at + 4, 4))
    else if code == 28 then JumpTarget
    else RipMarker(Read(bytes, at + 8, 8))
  }

  /** The structure at byte offset `at`, seen through its header. */
  function StructAt(bytes: seq<byte>, at: nat): (op: Op)
    requires HasStruct(bytes, at)
    ensures SizeOf(op) == GetSize(bytes[at])
  {
    Widths();
    var code := bytes[at];
    if IsControl(code) then ControlStruct(bytes, at)
    else if code == 0 then Constant(Read(bytes, at + 1, 1), Read(bytes, at + 8, 8))
    else if code == 1 then LoadContext(Read(bytes, at + 1, 1), Read(bytes, at + 4, 4))
    else if code == 2 then StoreContext(Read(bytes, at + 1, 1), Read(bytes, at + 4, 4), Read(bytes, at + 8, 4))
    else if 15 <= code <= 23 then Binary(KindOf(code), Read(bytes, at + 4, 4), Read(bytes, at + 8, 4))
    else if code == 24 then
      Select(if Read(bytes, at + 4, 4) == 0 then CompEq else CompNeq,
             seq(4, i requires 0 <= i < 4 => Read(bytes, at + 8 + 4 * i, 4)))
    else if code == 25 then Trunc32(Read(bytes, at + 4, 4))
    else if code == 26 then Trunc16(Read(bytes, at + 4, 4))
    else LoadMem(Read(bytes, at + 1, 1), Read(bytes, at + 4, 4), ReadIndex(Read(bytes, at + 8, 4)))
  }

  /** The operation at a byte offset; none if the header is foreign or the structure is cut off. */
  function OpAt(bytes: seq<byte>, at: nat): Option<Op> {
    if HasStruct(bytes, at) then Some(StructAt(bytes, at)) else None
  }

  datatype Field = Field(at: nat, width: nat, value: nat)

  function IndexValue(i: Index): nat {
    if i.NoIndex? then NO_INDEX else i.value
  }

  /** The fields a program assigns after allocating an operation. */
  function Fields(op: Op): seq<Field> {
    match op
    case Constant(flags, w) => [Field(1, 1, flags), Field(8, 8, w)]
    case LoadContext(size, o) => [Field(1, 1, size), Field(4, 4, o)]
    case StoreContext(size, o, a) => [Field(1, 1, size), Field(4, 4, o), Field(8, 4, a)]
    case BeginFunction(n, r) => [Field(1, 1, n), Field(2, 1, if r then 1 else 0)]
    case GetArgument(n) => [Field(1, 1, n)]
    case AllocateContext(n) => [Field(8, 8, n)]
    case EndBlock(n) => [Field(8, 8, n)]
    case Jump(t) => [Field(4, 4, t)]
    case CondJump(c, t, r) => [Field(4, 4, c), Field(8, 4, t), Field(16, 8, r)]
    case Syscall(args) => seq(|args|, i requires 0 <= i < |args| => Field(4 + 4 * i, 4, args[i]))
    case Return(a) => [Field(4, 4, a)]
    case Binary(_, a, b) => [Field(4, 4, a), Field(8, 4, b)]
    case Select(c, args) =>
      [Field(4, 4, if c.CompEq? then 0 else 1)]
      + seq(|args|, i requires 0 <= i < |args| => Field(8 + 4 * i, 4, args[i]))
    case Trunc32(a) => [Field(4, 4, a)]
    case Trunc16(a) => [Field(4, 4, a)]
    case LoadMem(size, a, i) => [Field(1, 1, size), Field(4, 4, a), Field(8, 4, IndexValue(i))]
    case RipMarker(r) => [Field(8, 8, r)]
    case _ => []
  }

  /** The field values fit the structure, and the argument arrays have their declared lengths. */
  predicate Encodable(op: Op) {
    && WellFormedOp(op)
    && (op.LoadMem? && op.index.IndexAt? ==> op.index.value != NO_INDEX)
    && forall f :: f in Fields(op) ==> f.value < Power256(f.width)
  }

  ghost predicate Holds(bytes: seq<byte>, at: nat, op: Op) {
    && at + SizeOf(op) <= |bytes| && bytes[at] == Opcode(op)
    && forall f :: f in Fields(op) ==> f.at + f.width <= SizeOf(op) && Read(bytes, at + f.at, f.width) == f.value
  }

  /** The size table agrees with the structures. */
  lemma SizesAgree(op: Op)
    ensures IsModelled(Opcode(op)) && GetSize(Opcode(op)) == SizeOf(op)
  {
  }

  lemma FieldReads(bytes: seq<byte>, at: nat, op: Op, i: nat)
    requires Holds(bytes, at, op) && i < |Fields(op)|
    ensures var f := Fields(op)[i];
            f.at + f.width <= SizeOf(op) && Read(bytes, at + f.at, f.width) == f.value
  {
    hide Read, Fields;
    assert Fields(op)[i] in Fields(op);
  }

  lemma HeldSyscall(bytes: seq<byte>, at: nat, args: seq<nat>)
    requires |args| == MAX_ARGS && Holds(bytes, at, Syscall(args))
    ensures OpAt(bytes, at) == Some(Syscall(args))
  {
    hide Read, Power256, Holds, StructAt;
    HeldHeader(bytes, at, Syscall(args));
    forall i | 0 <= i < MAX_ARGS
      ensures Read(bytes, at + 4 + 4 * i, 4) == args[i]
    {
      FieldReads(bytes, at, Syscall(args), i);
    }
    assert args == seq(MAX_ARGS, i requires 0 <= i < MAX_ARGS => Read(bytes, at + 4 + 4 * i, 4));
    assert StructAt(bytes, at) == Syscall(args) by { SyscallStruct(bytes, at); }
  }

  lemma SyscallStruct(bytes: seq<byte>, at: nat)
    requires at + 32 <= |bytes| && bytes[at] == 13
    ensures StructAt(bytes, at)
         == Syscall(seq(MAX_ARGS, i requires 0 <= i < MAX_ARGS => Read(bytes, at + 4 + 4 * i, 4)))
  {
    hide Read;
  }

  lemma HeldSelect(bytes: seq<byte>, at: nat, c: Comparison, args: seq<nat>)
    requires |args| == 4 && Holds(bytes, at, Select(c, args))
    ensures OpAt(bytes, at) == Some(Select(c, args))
  {
    hide Read, Power256, Holds, StructAt;
    var op := Select(c, args);
    HeldHeader(bytes, at, op);
    FieldReads(bytes, at, op, 0);
    FieldReads(bytes, at, op, 1);
    FieldReads(bytes, at, op, 2);
    FieldReads(bytes, at, op, 3);
    FieldReads(bytes, at, op, 4);
    assert args == seq(4, i requires 0 <= i < 4 => Read(bytes, at + 8 + 4 * i, 4));
    assert StructAt(bytes, at) == op by { SelectStruct(bytes, at); }
  }

  lemma SelectStruct(bytes: seq<byte>, at: nat)
    requires at + 24 <= |bytes| && bytes[at] == 24
    ensures StructAt(bytes, at)
         == Select(if Read(bytes, at + 4, 4) == 0 then CompEq else CompNeq,
                   seq(4, i requires 0 <= i < 4 => Read(bytes, at + 8 + 4 * i, 4)))
  {
    hide Read;
  }

  /** A structure whose header and fields were written reads back as the operation. */
  lemma HeldIsRead(bytes: seq<byte>, at: nat, op: Op)
    requires Encodable(op) && Holds(bytes, at, op)
    ensures OpAt(bytes, at) == Some(op)
  {
    hide Read, Power256, Holds;
    HeldHeader(bytes, at, op);
    SizesAgree(op);
    if op.Syscall? {
      HeldSyscall(bytes, at, op.arguments);
    } else if op.Select? {
      HeldSelect(bytes, at, op.comparison, op.args);
    } else {
      var n := |Fields(op)|;
      if n > 0 { FieldReads(bytes, at, op, 0); }
      if n > 1 { FieldReads(bytes, at, op, 1); }
      if n > 2 { FieldReads(bytes, at, op, 2); }
    }
  }

  lemma HeldHeader(bytes: seq<byte>, at: nat, op: Op)
    requires Holds(bytes, at, op)
    ensures at + SizeOf(op) <= |bytes| && bytes[at] == Opcode(op)
  {
  }

  lemma FieldsAreLocal(a: seq<byte>, b: seq<byte>, at: nat, n: nat)
    requires at + n <= |a| && at + n <= |b| && a[at..at + n] == b[at..at + n]
    ensures forall o: nat, w: nat :: at <= o && o + w <= at + n ==> Read(a, o, w) == Read(b, o, w)
  {
    forall o: nat, w: nat | at <= o && o + w <= at + n
      ensures Read(a, o, w) == Read(b, o, w)
    {
      forall i | o <= i < o + w
        ensures a[i] == b[i]
      {
        assert a[at..at + n][i - at] == b[at..at + n][i - at];
      }
      ReadIsLocal(a, b, o, w);
    }
  }

  lemma ControlIsLocal(a: seq<byte>, b: seq<byte>, at: nat)
    requires HasStruct(a, at) && HasStruct(b, at) && a[at] == b[at] && IsControl(a[at])
    requires var n := GetSize(a[at]);
             forall o: nat, w: nat :: at <= o && o + w <= at + n ==> Read(a, o, w) == Read(b, o, w)
    ensures ControlStruct(a, at) == ControlStruct(b, at)
  {
    hide Read;
    if a[at] == 13 {
      var x, y := ControlStruct(a, at).arguments, ControlStruct(b, at).arguments;
      assert forall i :: 0 <= i < MAX_ARGS ==> x[i] == Read(a, at + 4 + 4 * i, 4);
      assert x == y;
    }
  }

  /** An operation is determined by the bytes of its own structure. */
  lemma OpIsLocal(a: seq<byte>, b: seq<byte>, at: nat)
    requires OpAt(a, at).Some?
    requires var n := SizeOf(OpAt(a, at).value); at + n <= |b| && at + n <= |a| && a[at..at + n] == b[at..at + n]
    ensures OpAt(b, at) == OpAt(a, at)
  {
    hide Read;
    var n := GetSize(a[at]);
    assert a[at] == a[at..at + n][0] == b[at..at + n][0] == b[at];
    FieldsAreLocal(a, b, at, n);
    if IsControl(a[at]) {
      ControlIsLocal(a, b, at);
    } else if a[at] == 24 {
      var x, y := StructAt(a, at).args, StructAt(b, at).args;
      assert forall i :: 0 <= i < 4 ==> x[i] == Read(a, at + 8 + 4 * i, 4);
      assert x == y;
    }
  }

  /*** Walking from operation to operation ***/

  /** The operations met by stepping from `at` to `end` with `GetSize`. */
  function Walk(bytes: seq<byte>, at: nat, end: nat): Option<seq<Op>>
    decreases end - at
  {
    if at == end then Some([])
    else if at > end then None
    else
      match OpAt(bytes, at)
      case None => None
      case Some(op) =>
        match Walk(bytes, at + SizeOf(op), end)
        case None => None
        case Some(ops) => Some([op] + ops)
  }

  /** `bytes[..end]` is the layout of the operations `ops`. */
  ghost predicate Represents(bytes: seq<byte>, end: nat, ops: seq<Op>) {
    && end == Length(ops) <= |bytes|
    && forall k :: 0 <= k < |ops| ==> OpAt(bytes, OffsetOf(ops, k)) == Some(ops[k])
  }

  lemma WalkUnfolds(bytes: seq<byte>, at: nat, end: nat, op: Op)
    requires at < end && OpAt(bytes, at) == Some(op)
    ensures Walk(bytes, at, end) ==
            var rest := Walk(bytes, at + SizeOf(op), end);
            if rest.None? then None else Some([op] + rest.value)
  {
    hide OpAt, SizeOf;
  }

  lemma RepresentedAt(bytes: seq<byte>, end: nat, ops: seq<Op>, k: nat)
    requires Represents(bytes, end, ops) && k < |ops|
    ensures OpAt(bytes, OffsetOf(ops, k)) == Some(ops[k])
    ensures OffsetOf(ops, k + 1) == OffsetOf(ops, k) + SizeOf(ops[k]) && OffsetOf(ops, k) < OffsetOf(ops, k + 1) <= end
  {
    hide OpAt, SizeOf;
    OffsetsIncrease(ops, k + 1, |ops|);
  }

  lemma {:induction false} WalkFrom(bytes: seq<byte>, end: nat, ops: seq<Op>, k: nat)
    requires Represents(bytes, end, ops) && k <= |ops|
    ensures Walk(bytes, OffsetOf(ops, k), end) == Some(ops[k..])
    decreases |ops| - k
  {
    hide OpAt, SizeOf, OffsetOf, Represents, Walk;
    if k < |ops| {
      RepresentedAt(bytes, end, ops, k);
      WalkFrom(bytes, end, ops, k + 1);
      WalkUnfolds(bytes, OffsetOf(ops, k), end, ops[k]);
      assert ops[k..] == [ops[k]] + ops[k + 1..];
    } else {
      WalkEnds(bytes, end, ops);
      assert ops[k..] == [];
    }
  }

  lemma WalkEnds(bytes: seq<byte>, end: nat, ops: seq<Op>)
    requires Represents(bytes, end, ops)
    ensures Walk(bytes, OffsetOf(ops, |ops|), end) == Some([])
  {
  }

  /** Walking recovers exactly the operations laid out, and only those. */
  lemma WalkRecovers(bytes: seq<byte>, end: nat, ops: seq<Op>)
    requires end <= |bytes|
    ensures Represents(bytes, end, ops) <==> Walk(bytes, 0, end) == Some(ops)
  {
    if Represents(bytes, end, ops) {
      WalkFrom(bytes, end, ops, 0);
      assert ops[0..] == ops;
    } else if Walk(bytes, 0, end) == Some(ops) {
      WalkLaysOut(bytes, 0, end, ops);
    }
  }

  lemma {:induction false} WalkLaysOut(bytes: seq<byte>, at: nat, end: nat, ops: seq<Op>)
    requires Walk(bytes, at, end) == Some(ops)
    ensures end == at + Length(ops)
    ensures forall k :: 0 <= k < |ops| ==> OpAt(bytes, at + OffsetOf(ops, k)) == Some(ops[k])
    decreases end - at
  {
    hide OpAt, SizeOf, OffsetOf;
    if at < end {
      var op, rest := ops[0], ops[1..];
      assert OpAt(bytes, at) == Some(op);
      WalkLaysOut(bytes, at + SizeOf(op), end, rest);
      FirstOffset(ops);
      assert Length(ops) == SizeOf(op) + Length(rest) by { LaterOffset(ops, |rest|); }
      forall k | 0 <= k < |ops|
        ensures OpAt(bytes, at + OffsetOf(ops, k)) == Some(ops[k])
      {
        if k > 0 {
          LaterOffset(ops, k - 1);
        }
      }
    } else {
      FirstOffset([]);
    }
  }

  lemma FirstOffset(ops: seq<Op>)
    ensures OffsetOf(ops, 0) == 0
  {
  }

  lemma LaterOffset(ops: seq<Op>, k: nat)
    requires k + 1 <= |ops|
    ensures OffsetOf(ops, k + 1) == SizeOf(ops[0]) + OffsetOf(ops[1..], k)
  {
    hide SizeOf;
    assert ops == [ops[0]] + ops[1..];
    OneOp(ops[0]);
    OffsetOfSuffix([ops[0]], ops[1..], k);
  }

  lemma OneOp(op: Op)
    ensures Length([op]) == SizeOf(op)
  {
    assert OffsetOf([op], 1) == OffsetOf([op], 0) + SizeOf([op][0]);
  }

  /** One more structure behind the others; the bytes before it may have been moved. */
  lemma RepresentsLonger(a: seq<byte>, b: seq<byte>, end: nat, ops: seq<Op>, op: Op)
    requires Represents(a, end, ops) && end <= |b| && b[..end] == a[..end] && OpAt(b, end) == Some(op)
    ensures end + SizeOf(op) <= |b| && Represents(b, end + SizeOf(op), ops + [op])
  {
    hide OpAt, SizeOf, OffsetOf;
    RepresentsElsewhere(a, b, end, ops);
    OffsetOfPrefix(ops, [op], |ops|);
    LastOffset(ops, op);
    FitsAt(b, end);
    forall k | 0 <= k < |ops| + 1
      ensures OpAt(b, OffsetOf(ops + [op], k)) == Some((ops + [op])[k])
    {
      if k < |ops| {
        OffsetOfPrefix(ops, [op], k);
      }
    }
  }

  lemma FitsAt(bytes: seq<byte>, at: nat)
    requires OpAt(bytes, at).Some?
    ensures at + SizeOf(OpAt(bytes, at).value) <= |bytes|
  {
  }

  lemma LastOffset(ops: seq<Op>, op: Op)
    ensures Length(ops + [op]) == OffsetOf(ops + [op], |ops|) + SizeOf(op)
  {
    hide SizeOf;
  }

  lemma WithinPrefix(bytes: seq<byte>, end: nat, at: nat, n: nat)
    requires at + n <= end <= |bytes|
    ensures bytes[..end][at..at + n] == bytes[at..at + n]
  {
  }

  /** Only the bytes up to the end matter. */
  lemma RepresentsElsewhere(a: seq<byte>, b: seq<byte>, end: nat, ops: seq<Op>)
    requires Represents(a, end, ops) && end <= |b| && b[..end] == a[..end]
    ensures Represents(b, end, ops)
  {
    hide OpAt, SizeOf, OffsetOf;
    forall k | 0 <= k < |ops|
      ensures OpAt(b, OffsetOf(ops, k)) == Some(ops[k])
    {
      RepresentedAt(a, end, ops, k);
      var at, n := OffsetOf(ops, k), SizeOf(ops[k]);
      WithinPrefix(a, end, at, n);
      WithinPrefix(b, end, at, n);
      OpIsLocal(a, b, at);
    }
  }

  /** `b` differs from `a` at most in the fields of the structure of `n` bytes at `at`. */
  ghost predicate SameOutside(a: seq<byte>, b: seq<byte>, at: nat, n: nat) {
    |a| == |b| && forall i :: 0 <= i < |a| && !(at < i < at + n) ==> b[i] == a[i]
  }

  /** Writing fields of operation `k` changes that operation, in its own kind, and no other. */
  lemma RepresentsPatched(a: seq<byte>, b: seq<byte>, end: nat, ops: seq<Op>, k: nat)
    requires Represents(a, end, ops) && k < |ops| && SameOutside(a, b, OffsetOf(ops, k), SizeOf(ops[k]))
    ensures OpAt(b, OffsetOf(ops, k)).Some?
    ensures var op := OpAt(b, OffsetOf(ops, k)).value;
            SizeOf(op) == SizeOf(ops[k]) && Opcode(op) == Opcode(ops[k]) && Represents(b, end, ops[k := op])
  {
    hide StructAt, SizeOf, OffsetOf, OpAt;
    RepresentedAt(a, end, ops, k);
    var at := OffsetOf(ops, k);
    SameHeader(a, b, at, SizeOf(ops[k]));
    var op := OpAt(b, at).value;
    var changed := ops[k := op];
    OffsetsUnmoved(ops, changed, |ops|);
    forall j | 0 <= j < |ops|
      ensures OpAt(b, OffsetOf(changed, j)) == Some(changed[j])
    {
      OffsetsUnmoved(ops, changed, j);
      RepresentedAt(a, end, ops, j);
      if j != k {
        var o, n := OffsetOf(ops, j), SizeOf(ops[j]);
        if j < k { OffsetsIncrease(ops, j + 1, k); } else { OffsetsIncrease(ops, k + 1, j); }
        assert a[o..o + n] == b[o..o + n];
        OpIsLocal(a, b, o);
      }
    }
  }

  lemma SameHeader(a: seq<byte>, b: seq<byte>, at: nat, n: nat)
    requires OpAt(a, at).Some? && SizeOf(OpAt(a, at).value) == n && SameOutside(a, b, at, n)
    ensures OpAt(b, at).Some?
    ensures var x, y := OpAt(a, at).value, OpAt(b, at).value; SizeOf(y) == n && Opcode(y) == Opcode(x)
  {
    hide StructAt;
    OpcodeAt(a, at);
    OpcodeAt(b, at);
  }

  lemma OpcodeAt(bytes: seq<byte>, at: nat)
    requires HasStruct(bytes, at)
    ensures Opcode(StructAt(bytes, at)) == bytes[at]
  {
    hide Read;
  }

  lemma {:induction false} OffsetsUnmoved(a: seq<Op>, b: seq<Op>, k: nat)
    requires |a| == |b| && k <= |a| && forall j :: 0 <= j < |a| ==> SizeOf(a[j]) == SizeOf(b[j])
    ensures OffsetOf(a, k) == OffsetOf(b, k)
  {
    hide SizeOf;
    if k > 0 {
      OffsetsUnmoved(a, b, k - 1);
    }
  }

  /*** The list ***/

  /** What `AllocateOp` returns: a position in one particular allocation of the vector. */
  datatype Pointer = Pointer(storage: nat, offset: nat)

  const LARGEST_OP: nat := 32

  /** Doubling once makes room for every operation exactly when the vector is not smaller than the largest. */
  lemma DoublingSuffices(size: nat)
    ensures (forall offset: nat, n: nat :: offset <= size && n <= LARGEST_OP ==> HasRoom(size, offset, n))
            <==> size >= LARGEST_OP
  {
    if size < LARGEST_OP {
      assert !HasRoom(size, size, LARGEST_OP);
    }
  }

  /** Whether `n` bytes at `offset` fit, if need be after one doubling. */
  predicate HasRoom(size: nat, offset: nat, n: nat) {
    offset + n <= if offset + n > size then 2 * size else size
  }

  /** A list as its users see it. */
  datatype View = View(ops: seq<Op>, length: nat, capacity: nat, storage: nat, sound: bool)

  /**
    `b` is `a` with `more` appended, if nothing was lost on the way; and nothing
    is lost as long as the operations fit in the vector and offsets in 32 bits.
  */
  ghost predicate Extends(a: View, b: View, more: seq<Op>) {
    && a.capacity <= b.capacity && (a.capacity == b.capacity ==> a.storage == b.storage)
    && (b.sound ==> a.sound && b.ops == a.ops + more && b.length == a.length + Length(more))
    && (a.sound && a.length + Length(more) <= a.capacity && a.length + Length(more) < M32 ==>
          b.sound && b.capacity == a.capacity)
  }

  lemma ExtendsTwice(a: View, b: View, c: View, x: seq<Op>, y: seq<Op>)
    requires Extends(a, b, x) && Extends(b, c, y)
    ensures Extends(a, c, x + y)
  {
    OffsetOfSuffix(x, y, |y|);
    assert a.ops + x + y == a.ops + (x + y);
  }

  lemma NewHeader(bytes: seq<byte>, at: nat)
    requires HasStruct(bytes, at)
    ensures OpAt(bytes, at).Some?
    ensures var op := OpAt(bytes, at).value; Opcode(op) == bytes[at] && SizeOf(op) == GetSize(bytes[at])
  {
    hide StructAt;
    OpcodeAt(bytes, at);
  }

  lemma LengthIs(bytes: seq<byte>, end: nat, ops: seq<Op>)
    requires Represents(bytes, end, ops)
    ensures end == OffsetOf(ops, |ops|)
  {
  }

  /** The fields of a structure lie behind its header, one after the other. */
  lemma FieldsInOrder(op: Op)
    requires WellFormedOp(op)
    ensures forall i :: 0 <= i < |Fields(op)| ==>
              0 < Fields(op)[i].at && Fields(op)[i].at + Fields(op)[i].width <= SizeOf(op)
    ensures forall i, j :: 0 <= i < j < |Fields(op)| ==> Fields(op)[i].at + Fields(op)[i].width <= Fields(op)[j].at
  {
  }

  /** Filling in the fields of a freshly blank operation. */
  lemma FilledIn(before: View, blank: View, after: View, placeholder: Op, op: Op)
    requires Extends(before, blank, [placeholder]) && SizeOf(placeholder) == SizeOf(op)
    requires after == blank.(ops := after.ops)
    requires after.sound ==> |blank.ops| > 0 && after.ops == blank.ops[..|blank.ops| - 1] + [op]
    ensures Extends(before, after, [op])
  {
    OneOp(placeholder);
    OneOp(op);
  }

  lemma FieldsOf(op: Op)
    requires Encodable(op)
    ensures forall i :: 0 <= i < |Fields(op)| ==>
              && 0 < Fields(op)[i].at && Fields(op)[i].at + Fields(op)[i].width <= SizeOf(op)
              && Fields(op)[i].value < Power256(Fields(op)[i].width)
    ensures forall i, j :: 0 <= i < j < |Fields(op)| ==> Fields(op)[i].at + Fields(op)[i].width <= Fields(op)[j].at
  {
    FieldsInOrder(op);
  }

  lemma HeaderSize(bytes: seq<byte>, at: nat, op: Op)
    requires at < |bytes| && bytes[at] == Opcode(op)
    ensures OpAt(bytes, at).Some? ==> SizeOf(OpAt(bytes, at).value) == SizeOf(op)
  {
    hide StructAt;
    SizesAgree(op);
  }

  lemma OffsetOfUpdate(ops: seq<Op>, k: nat, op: Op)
    requires k < |ops|
    ensures OffsetOf(ops[k := op], k) == OffsetOf(ops, k)
  {
    var a := ops[..k];
    assert ops == a + ops[k..] && ops[k := op] == a + ops[k := op][k..];
    OffsetOfPrefix(a, ops[k..], k);
    OffsetOfPrefix(a, ops[k := op][k..], k);
  }

  /** Writing field `i` sets it and leaves the fields before it as they are. */
  lemma OtherFields(bytes: seq<byte>, at: nat, fields: seq<Field>, i: nat)
    requires i < |fields|
    requires forall j :: 0 <= j <= i ==> at + fields[j].at + fields[j].width <= |bytes|
    requires forall j :: 0 <= j < i ==> fields[j].at + fields[j].width <= fields[i].at
    requires fields[i].value < Power256(fields[i].width)
    ensures var b := Written(bytes, at + fields[i].at, fields[i].width, fields[i].value);
            && Read(b, at + fields[i].at, fields[i].width) == fields[i].value
            && forall j :: 0 <= j < i ==>
                 Read(b, at + fields[j].at, fields[j].width) == Read(bytes, at + fields[j].at, fields[j].width)
  {
    hide Read, Written, Power256;
    var f := fields[i];
    var b := Written(bytes, at + f.at, f.width, f.value);
    ReadWritten(bytes, at + f.at, f.width, f.value);
    forall j | 0 <= j < i
      ensures Read(b, at + fields[j].at, fields[j].width) == Read(bytes, at + fields[j].at, fields[j].width)
    {
      ReadIsLocal(b, bytes, at + fields[j].at, fields[j].width);
    }
  }

  lemma HoldsFields(bytes: seq<byte>, at: nat, op: Op)
    requires at + SizeOf(op) <= |bytes| && bytes[at] == Opcode(op)
    requires forall i :: 0 <= i < |Fields(op)| ==>
               && Fields(op)[i].at + Fields(op)[i].width <= SizeOf(op)
               && Read(bytes, at + Fields(op)[i].at, Fields(op)[i].width) == Fields(op)[i].value
    ensures Holds(bytes, at, op)
  {
    hide Read, Fields, Opcode;
  }

  class IntrusiveIRList {
    var currentOffset: nat
    var bytes: seq<byte>
    var storage: nat

    /** The operations written so far; meaningful while `sound`. */
    ghost var ops: seq<Op>

    /** No write went through a pointer into a freed vector, and no offset wrapped around. */
    ghost var sound: bool

    ghost predicate Valid()
      reads this
    {
      currentOffset <= |bytes| && currentOffset < M32 && (sound ==> Represents(bytes, currentOffset, ops))
    }

    ghost function Seen(): View
      reads this
    {
      View(ops, currentOffset, |bytes|, storage, sound)
    }

    constructor (initialSize: nat)
      ensures Valid() && sound && ops == [] && currentOffset == 0 && |bytes| == initialSize
    {
      currentOffset := 0;
      bytes := seq(initialSize, _ => 0);
      storage := 0;
      ops := [];
      sound := true;
    }

    constructor Copy(other: IntrusiveIRList)
      requires other.Valid()
      ensures Valid() && currentOffset == other.currentOffset == |bytes|
      ensures sound == other.sound && (sound ==> ops == other.ops)
    {
      currentOffset := other.currentOffset;
      bytes := if other.currentOffset == 0 then [] else other.bytes[..other.currentOffset];
      storage := 0;
      ops := other.ops;
      sound := other.sound;
      new;
      if sound {
        RepresentsElsewhere(other.bytes, bytes, currentOffset, ops);
      }
    }

    method CheckSize(n: nat)
      requires Valid() && n <= LARGEST_OP <= |bytes|
      modifies this`bytes, this`storage
      ensures Valid() && old(bytes) <= bytes && currentOffset + n <= |bytes|
      ensures if currentOffset + n > |old(bytes)| then |bytes| == 2 * |old(bytes)| && storage == old(storage) + 1
              else bytes == old(bytes) && storage == old(storage)
    {
      if currentOffset + n > |bytes| {
        var grown := bytes + seq(|bytes|, _ => 0);
        if sound {
          RepresentsElsewhere(bytes, grown, currentOffset, ops);
        }
        bytes := grown;
        storage := storage + 1;
      }
    }

    /** Only the header is written: the other fields hold whatever the vector held there. */
    method AllocateOp(code: byte) returns (p: Pointer)
      requires Valid() && IsModelled(code) && LARGEST_OP <= |bytes|
      modifies this
      ensures Valid() && p == Pointer(storage, old(currentOffset))
      ensures p.offset + GetSize(code) <= |bytes| && bytes[p.offset] == code
      ensures OpAt(bytes, p.offset).Some? && Opcode(OpAt(bytes, p.offset).value) == code
      ensures Extends(old(Seen()), Seen(), [OpAt(bytes, p.offset).value])
      ensures sound ==> |ops| > 0 && OffsetOf(ops, |ops| - 1) == p.offset
    {
      hide OpAt, OffsetOf, SizeOf, Represents, Opcode;
      var n := GetSize(code);
      CheckSize(n);
      ghost var before := bytes;
      bytes := bytes[currentOffset := code];
      p := Pointer(storage, currentOffset);
      NewHeader(bytes, currentOffset);
      ghost var op := OpAt(bytes, currentOffset).value;
      OneOp(op);
      sound := sound && currentOffset + n < M32;
      if sound {
        assert bytes[..currentOffset] == before[..currentOffset];
        RepresentsLonger(before, bytes, currentOffset, ops, op);
        LengthIs(before, currentOffset, ops);
        OffsetOfPrefix(ops, [op], |ops|);
      }
      ops := ops + [op];
      currentOffset := (currentOffset + n) % 0x1_0000_0000;
    }

    /**
      An assignment to a field of operation `k`. Through a pointer into a vector
      that has been replaced since, it does not reach the list.
    */
    method Write(p: Pointer, ghost k: nat, field: Field)
      requires Valid() && 0 < field.at && p.offset + field.at + field.width <= |bytes|
      requires sound ==> k < |ops| && p.offset == OffsetOf(ops, k) && field.at + field.width <= SizeOf(ops[k])
      modifies this`bytes, this`ops, this`sound
      ensures Valid() && |bytes| == |old(bytes)| && sound == (old(sound) && p.storage == storage)
      ensures p.storage == storage ==> bytes == Written(old(bytes), p.offset + field.at, field.width, field.value)
      ensures sound ==> OpAt(bytes, p.offset).Some? && ops == old(ops)[k := OpAt(bytes, p.offset).value]
    {
      if p.storage == storage {
        ghost var before := bytes;
        bytes := Written(bytes, p.offset + field.at, field.width, field.value);
        if sound {
          RepresentsPatched(before, bytes, currentOffset, ops, k);
          ops := ops[k := OpAt(bytes, p.offset).value];
        }
      } else {
        sound := false;
      }
    }

    /** Assigns every field of the operation allocated last. */
    method WriteFields(p: Pointer, op: Op)
      requires Valid() && Encodable(op) && p.storage == storage
      requires p.offset + SizeOf(op) <= |bytes| && bytes[p.offset] == Opcode(op)
      requires sound ==> |ops| > 0 && p.offset == OffsetOf(ops, |ops| - 1)
      modifies this`bytes, this`ops, this`sound
      ensures Valid() && |bytes| == |old(bytes)| && sound == old(sound)
      ensures sound ==> ops == old(ops)[..|old(ops)| - 1] + [op]
    {
      hide OpAt, SizeOf, OffsetOf, Represents, Fields, Opcode, Encodable, WellFormedOp, Holds, Read, Written, Power256;
      FieldsOf(op);
      var fields, i := Fields(op), 0;
      ghost var k: nat := if |ops| > 0 then |ops| - 1 else 0;
      ghost var before := ops;
      if sound {
        RepresentedAt(bytes, currentOffset, before, k);
        assert before == before[k := before[k]];
      }
      while i < |fields|
        invariant 0 <= i <= |fields|
        invariant Valid() && |bytes| == |old(bytes)| && sound == old(sound)
        invariant bytes[p.offset] == Opcode(op)
        invariant sound ==> k < |ops| == |before|
        invariant sound ==> OpAt(bytes, p.offset).Some? && p.offset == OffsetOf(ops, k)
        invariant sound ==> ops == before[k := OpAt(bytes, p.offset).value]
        invariant forall j :: 0 <= j < i ==>
                    Read(bytes, p.offset + fields[j].at, fields[j].width) == fields[j].value
      {
        ghost var bytes0, ops0 := bytes, ops;
        HeaderSize(bytes0, p.offset, op);
        Write(p, k, fields[i]);
        OtherFields(bytes0, p.offset, fields, i);
        if sound {
          OffsetOfUpdate(ops0, k, OpAt(bytes, p.offset).value);
        }
        i := i + 1;
      }
      HoldsFields(bytes, p.offset, op);
      HeldIsRead(bytes, p.offset, op);
      if sound {
        assert before[k := op] == before[..k] + [op];
      }
    }

    /** An operation with all its fields. */
    method Put(op: Op) returns (p: Pointer)
      requires Valid() && Encodable(op) && LARGEST_OP <= |bytes|
      modifies this
      ensures Valid() && p == Pointer(storage, old(currentOffset)) && p.offset + SizeOf(op) <= |bytes|
      ensures Extends(old(Seen()), Seen(), [op])
    {
      hide OpAt, OffsetOf, SizeOf, Represents, Opcode, Encodable;
      ghost var before := Seen();
      SizesAgree(op);
      p := AllocateOp(Opcode(op));
      ghost var blank, placeholder := Seen(), OpAt(bytes, p.offset).value;
      HeaderSize(bytes, p.offset, op);
      WriteFields(p, op);
      FilledIn(before, blank, Seen(), placeholder, op);
    }

    method Reset()
      requires Valid()
      modifies this`currentOffset, this`ops
      ensures Valid() && currentOffset == 0 && (sound ==> ops == [])
    {
      currentOffset := 0;
      ops := [];
    }

    function GetOffset(): nat
      reads this
    {
      currentOffset
    }

    /** The operation a caller sees through the header at `offset`. */
    function GetOp(offset: nat): Option<Op>
      reads this
    {
      OpAt(bytes, offset)
    }

    /** Stepping through the list visits exactly the operations written. */
    lemma WalkSeesOps()
      requires Valid() && sound
      ensures Walk(bytes, 0, currentOffset) == Some(ops)
      ensures forall k :: 0 <= k < |ops| ==> GetOp(OffsetOf(ops, k)) == Some(ops[k])
    {
      WalkRecovers(bytes, currentOffset, ops);
    }
  }
}
