/**
  The linear intermediate representation: operations, their sizes in the byte
  stream, and the byte offsets by which operations name each other.
*/
module IR {
  import opened Words

  datatype BinaryKind = OpAdd | OpSub | OpOr | OpXor | OpShl | OpShr | OpAnd | OpNand | OpBitExtract

  datatype Comparison = CompEq | CompNeq

  /** The second argument of a memory load; the program writes `~0` for none. */
  datatype Index = NoIndex | IndexAt(value: nat)

  /**
    One operation. Arguments and jump targets are byte offsets into the stream
    (`AlignmentType`); context offsets are byte offsets into the CPU state.
  */
  datatype Op =
    | Constant(flags: nat, constant: Word)
    | LoadContext(size: nat, offset: nat)
    | StoreContext(size: nat, offset: nat, arg: nat)
    | BeginFunction(argumentCount: nat, hasReturn: bool)
    | EndFunction
    | GetArgument(argument: nat)
    | AllocateContext(bytes: Word)
    | BeginBlock
    | EndBlock(increment: Word)
    | Jump(target: nat)
    | CondJump(cond: nat, target: nat, ripTarget: Word)
    | Syscall(arguments: seq<nat>)
    | Return(arg: nat)
    | Binary(kind: BinaryKind, left: nat, right: nat)
    | Select(comparison: Comparison, args: seq<nat>)
    | Trunc32(arg: nat)
    | Trunc16(arg: nat)
    | LoadMem(size: nat, base: nat, index: Index)
    | JumpTarget
    | RipMarker(rip: Word)

  const MAX_ARGS: nat := 7

  const TYPE_I8: nat := 2
  const TYPE_I16: nat := 4
  const TYPE_I32: nat := 8
  const TYPE_I64: nat := 16

  /** The size of an operation's structure in the byte stream. */
  function SizeOf(op: Op): (n: nat)
    ensures 1 <= n <= 32
  {
    match op
    case Constant(_, _) => 16
    case LoadContext(_, _) => 8
    case StoreContext(_, _, _) => 12
    case BeginFunction(_, _) => 3
    case EndFunction => 1
    case GetArgument(_) => 8
    case AllocateContext(_) => 24
    case BeginBlock => 1
    case EndBlock(_) => 16
    case Jump(_) => 8
    case CondJump(_, _, _) => 24
    case Syscall(_) => 32
    case Return(_) => 8
    case Binary(_, _, _) => 12
    case Select(_, _) => 24
    case Trunc32(_) => 8
    case Trunc16(_) => 8
    case LoadMem(_, _, _) => 12
    case JumpTarget => 1
    case RipMarker(_) => 16
  }

  /** The byte offset of operation `k`; for `k == |ops|`, the stream's length. */
  function OffsetOf(ops: seq<Op>, k: nat): nat
    requires k <= |ops|
  {
    if k == 0 then 0 else OffsetOf(ops, k - 1) + SizeOf(ops[k - 1])
  }

  function Length(ops: seq<Op>): nat {
    OffsetOf(ops, |ops|)
  }

  /** The first operation at or after a byte offset, searching from `k`. */
  function IndexFrom(ops: seq<Op>, offset: nat, k: nat): (j: nat)
    requires k <= |ops|
    ensures k <= j <= |ops|
    decreases |ops| - k
  {
    if k == |ops| || OffsetOf(ops, k) >= offset then k else IndexFrom(ops, offset, k + 1)
  }

  /** The stream offsets an operation reads values from. */
  function Arguments(op: Op): set<nat> {
    match op
    case StoreContext(_, _, a) => {a}
    case CondJump(c, _, _) => {c}
    case Syscall(args) => set a | a in args
    case Return(a) => {a}
    case Binary(_, a, b) => {a, b}
    case Select(_, args) => set a | a in args
    case Trunc32(a) => {a}
    case Trunc16(a) => {a}
    case LoadMem(_, a, i) => if i.NoIndex? then {a} else {a, i.value}
    case _ => {}
  }

  predicate ProducesValue(op: Op) {
    op.Constant? || op.LoadContext? || op.Syscall? || op.Binary? || op.Select? ||
    op.Trunc32? || op.Trunc16? || op.LoadMem?
  }

  /** Operations that neither transfer control nor mark a position. */
  predicate IsStraight(op: Op) {
    ProducesValue(op) || op.StoreContext?
  }

  predicate WellFormedOp(op: Op) {
    && (op.Syscall? ==> |op.arguments| == MAX_ARGS)
    && (op.Select? ==> |op.args| == 4)
  }

  /*** Moving operations to another offset ***/

  function ShiftOp(op: Op, d: nat): (r: Op)
    ensures SizeOf(r) == SizeOf(op)
  {
    match op
    case StoreContext(n, o, a) => StoreContext(n, o, a + d)
    case CondJump(c, t, r) => CondJump(c + d, t + d, r)
    case Syscall(args) => Syscall(seq(|args|, i requires 0 <= i < |args| => args[i] + d))
    case Return(a) => Return(a + d)
    case Jump(t) => Jump(t + d)
    case Binary(k, a, b) => Binary(k, a + d, b + d)
    case Select(c, args) => Select(c, seq(|args|, i requires 0 <= i < |args| => args[i] + d))
    case Trunc32(a) => Trunc32(a + d)
    case Trunc16(a) => Trunc16(a + d)
    case LoadMem(n, a, i) => LoadMem(n, a + d, if i.NoIndex? then NoIndex else IndexAt(i.value + d))
    case _ => op
  }

  function Shift(ops: seq<Op>, d: nat): (r: seq<Op>)
    ensures |r| == |ops|
    ensures forall i :: 0 <= i < |ops| ==> r[i] == ShiftOp(ops[i], d)
  {
    seq(|ops|, i requires 0 <= i < |ops| => ShiftOp(ops[i], d))
  }

  lemma {:induction false} OffsetOfPrefix(a: seq<Op>, b: seq<Op>, k: nat)
    requires k <= |a|
    ensures OffsetOf(a + b, k) == OffsetOf(a, k)
  {
    if k > 0 {
      OffsetOfPrefix(a, b, k - 1);
    }
  }

  lemma {:induction false} OffsetOfSuffix(a: seq<Op>, b: seq<Op>, k: nat)
    requires k <= |b|
    ensures OffsetOf(a + b, |a| + k) == Length(a) + OffsetOf(b, k)
  {
    if k == 0 {
      OffsetOfPrefix(a, b, |a|);
    } else {
      OffsetOfSuffix(a, b, k - 1);
      assert (a + b)[|a| + k - 1] == b[k - 1];
    }
  }

  /** Later operations lie at strictly larger offsets. */
  lemma {:induction false} OffsetsIncrease(ops: seq<Op>, i: nat, j: nat)
    requires i <= j <= |ops|
    ensures OffsetOf(ops, i) + (j - i) <= OffsetOf(ops, j)
    decreases j - i
  {
    if i < j {
      OffsetsIncrease(ops, i, j - 1);
    }
  }

  lemma {:induction false} OffsetOfShift(ops: seq<Op>, d: nat, k: nat)
    requires k <= |ops|
    ensures OffsetOf(Shift(ops, d), k) == OffsetOf(ops, k)
  {
    if k > 0 {
      OffsetOfShift(ops, d, k - 1);
    }
  }

  /** Looking up an operation's own offset finds that operation. */
  lemma {:induction false} IndexOfOffset(ops: seq<Op>, k: nat, from: nat)
    requires from <= k <= |ops|
    ensures IndexFrom(ops, OffsetOf(ops, k), from) == k
    decreases k - from
  {
    if from < k {
      OffsetsIncrease(ops, from, k);
      IndexOfOffset(ops, k, from + 1);
    } else if k < |ops| {
      assert OffsetOf(ops, k) >= OffsetOf(ops, k);
    }
  }

  /*** Local single assignment ***/

  /** The offsets of the value-producing operations among the first `k`. */
  function Defined(ops: seq<Op>, k: nat): set<nat>
    requires k <= |ops|
  {
    if k == 0 then {}
    else if ProducesValue(ops[k - 1]) then Defined(ops, k - 1) + {OffsetOf(ops, k - 1)}
    else Defined(ops, k - 1)
  }

  /** Every argument names a strictly earlier value of the same sequence. */
  predicate ClosedUpTo(ops: seq<Op>, k: nat)
    requires k <= |ops|
  {
    forall i :: 0 <= i < k ==> Arguments(ops[i]) <= Defined(ops, i)
  }

  predicate Closed(ops: seq<Op>) {
    ClosedUpTo(ops, |ops|)
  }
}
