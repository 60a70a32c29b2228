/**
  The CPU state and the meaning of operation streams: a step for every
  straight-line operation, and the walk over a whole stream.
*/
module Machine {
  import opened Words
  import opened IR

  type Registers = s: seq<Word> | |s| == 16 witness seq(16, _ => 0)

  /**
    `X86State` without the vector registers, plus the history of system calls
    (the arguments of every call made so far), through which an uninterpreted
    system-call handler may depend on everything the guest asked before.
  */
  datatype State = State(
    rip: Word, gregs: Registers, gs: Word, fs: Word, rflags: Word, calls: seq<seq<Word>>)

  /** Guest memory, which no operation writes, and the system-call handler. */
  datatype Environment = Environment(memory: Word -> byte, handle: seq<seq<Word>> -> Word)

  const RIP_OFFSET: nat := 0
  const GREGS_OFFSET: nat := 8
  const XMM_OFFSET: nat := 136
  const GS_OFFSET: nat := 392
  const FS_OFFSET: nat := 400
  const RFLAGS_OFFSET: nat := 408

  function GregOffset(r: nat): nat {
    GREGS_OFFSET + 8 * r
  }

  /** Context offsets both backends give a meaning to. */
  predicate ContextSlot(offset: nat) {
    || offset == RIP_OFFSET
    || (GREGS_OFFSET <= offset < XMM_OFFSET && offset % 8 == 0)
    || offset == GS_OFFSET || offset == FS_OFFSET || offset == RFLAGS_OFFSET
  }

  function ReadSlot(s: State, offset: nat): Word
    requires ContextSlot(offset)
  {
    if offset == RIP_OFFSET then s.rip
    else if offset < XMM_OFFSET then s.gregs[(offset - GREGS_OFFSET) / 8]
    else if offset == GS_OFFSET then s.gs
    else if offset == FS_OFFSET then s.fs
    else s.rflags
  }

  function WriteSlot(s: State, offset: nat, w: Word): State
    requires ContextSlot(offset)
  {
    if offset == RIP_OFFSET then s.(rip := w)
    else if offset < XMM_OFFSET then s.(gregs := s.gregs[(offset - GREGS_OFFSET) / 8 := w])
    else if offset == GS_OFFSET then s.(gs := w)
    else if offset == FS_OFFSET then s.(fs := w)
    else s.(rflags := w)
  }

  /** A little-endian load of `n` bytes. */
  function Load(memory: Word -> byte, address: Word, n: nat): nat
    decreases n
  {
    if n == 0 then 0 else memory(address) + 256 * Load(memory, Add(address, 1), n - 1)
  }

  lemma {:induction false} LoadBound(memory: Word -> byte, address: Word, n: nat)
    ensures Load(memory, address, n) < Pow2(8 * n)
    decreases n
  {
    if n > 0 {
      LoadBound(memory, Add(address, 1), n - 1);
      var m := 8 * n;
      assert Pow2(m - 4) == 16 * Pow2(m - 8) by {
        assert Pow2(m - 6) == 4 * Pow2(m - 8);
      }
      assert Pow2(m) == 16 * Pow2(m - 4) by {
        assert Pow2(m - 2) == 4 * Pow2(m - 4);
      }
    }
  }

  function LoadWord(memory: Word -> byte, address: Word, n: nat): Word
    requires n == 4 || n == 8
  {
    LoadBound(memory, address, n);
    Pow2ThirtyTwo();
    Pow2SixtyFour();
    Load(memory, address, n)
  }

  /** The values computed so far, by stream offset; a missing one reads as 0. */
  type Values = map<nat, Word>

  function Value(v: Values, offset: nat): Word {
    if offset in v then v[offset] else 0
  }

  datatype Flow = Halt | Next(values: Values, state: State)

  /** A shift by 64 or more is undefined in both backends. */
  predicate ShiftDefined(kind: BinaryKind, right: Word) {
    kind == OpShl || kind == OpShr || kind == OpBitExtract ==> right < 64
  }

  function Compute(kind: BinaryKind, x: Word, y: Word): Word
    requires ShiftDefined(kind, y)
  {
    match kind
    case OpAdd => Add(x, y)
    case OpSub => Sub(x, y)
    case OpOr => Or(x, y)
    case OpXor => Xor(x, y)
    case OpShl => Shl(x, y)
    case OpShr => Shr(x, y)
    case OpAnd => And(x, y)
    case OpNand => AndNot(x, y)
    case OpBitExtract => And(Shr(x, y), 1)
  }

  /** One straight-line operation at stream offset `at`. */
  function Step(env: Environment, op: Op, at: nat, v: Values, s: State): Flow {
    match op
    case Constant(_, w) => Next(v[at := w], s)
    case LoadContext(size, o) =>
      if size == 8 && ContextSlot(o) then Next(v[at := ReadSlot(s, o)], s) else Halt
    case StoreContext(size, o, a) =>
      if size == 8 && ContextSlot(o) then Next(v, WriteSlot(s, o, Value(v, a))) else Halt
    case Binary(kind, a, b) =>
      var x, y := Value(v, a), Value(v, b);
      if ShiftDefined(kind, y) then Next(v[at := Compute(kind, x, y)], s) else Halt
    case Select(c, args) =>
      if |args| != 4 then Halt else
      var equal := Value(v, args[0]) == Value(v, args[1]);
      Next(v[at := if equal == c.CompEq? then Value(v, args[2]) else Value(v, args[3])], s)
    case Trunc32(a) => Next(v[at := Truncate32(Value(v, a))], s)
    case Trunc16(a) => Next(v[at := Truncate16(Value(v, a))], s)
    case LoadMem(size, a, i) =>
      var address := if i.NoIndex? then Value(v, a) else Add(Value(v, a), Value(v, i.value));
      if size == 4 || size == 8 then Next(v[at := LoadWord(env.memory, address, size)], s) else Halt
    case Syscall(args) =>
      var call := seq(|args|, i requires 0 <= i < |args| => Value(v, args[i]));
      var calls := s.calls + [call];
      Next(v[at := env.handle(calls)], s.(calls := calls))
    case _ => Halt
  }

  /** Operations `i` onwards of a straight sequence placed at offset `base`. */
  function Straight(env: Environment, ops: seq<Op>, base: nat, i: nat, v: Values, s: State): Flow
    requires i <= |ops|
    decreases |ops| - i
  {
    if i == |ops| then Next(v, s)
    else
      match Step(env, ops[i], base + OffsetOf(ops, i), v, s)
      case Halt => Halt
      case Next(v', s') => Straight(env, ops, base, i + 1, v', s')
  }

  datatype Outcome = Done(state: State) | Stuck | OutOfFuel

  /**
    What the backends disagree on. The interpreter skips the exit of a
    conditional jump when the condition is nonzero and has no case for markers.
    The LLVM lowering takes the exit when it is nonzero, accepts markers, and
    replaces an exit to an instruction it has already lowered by a branch to it.
  */
  datatype Dialect = Dialect(exitWhenTrue: bool, acceptsMarkers: bool, linksBackward: bool)

  const INTERPRETER := Dialect(false, false, false)
  const COMPLEMENTED := Dialect(true, true, false)
  const LOWERED := Dialect(true, true, true)

  /** One past the last marker for `rip` among the first `k` operations; 0 if there is none. */
  function LastMarker(p: seq<Op>, k: nat, rip: Word): (m: nat)
    requires k <= |p|
    ensures m <= k
    ensures m > 0 ==> p[m - 1] == RipMarker(rip)
  {
    if k == 0 then 0
    else if p[k - 1] == RipMarker(rip) then k
    else LastMarker(p, k - 1, rip)
  }

  /** The walk over a stream, from operation `k`; `fuel` bounds the backward links taken. */
  function Run(env: Environment, d: Dialect, p: seq<Op>, k: nat, v: Values, s: State, fuel: nat): Outcome
    requires k <= |p|
    decreases fuel, |p| - k
  {
    if k == |p| then Done(s)
    else
      match p[k]
      case BeginBlock => Run(env, d, p, k + 1, v, s, fuel)
      case JumpTarget => Run(env, d, p, k + 1, v, s, fuel)
      case RipMarker(_) => if d.acceptsMarkers then Run(env, d, p, k + 1, v, s, fuel) else Stuck
      case EndBlock(n) => Done(s.(rip := Add(s.rip, n)))
      case CondJump(c, t, r) =>
        if (Value(v, c) != 0) == d.exitWhenTrue then
          var m := LastMarker(p, k, r);
          if !d.linksBackward || m == 0 then Run(env, d, p, k + 1, v, s, fuel)
          else if fuel == 0 then OutOfFuel
          else Run(env, d, p, m, v, s, fuel - 1)
        else
          var j := IndexFrom(p, t, k + 1);
          if OffsetOf(p, j) == t then Run(env, d, p, j, v, s, fuel) else Stuck
      case op =>
        match Step(env, op, OffsetOf(p, k), v, s)
        case Halt => Stuck
        case Next(v', s') => Run(env, d, p, k + 1, v', s', fuel)
  }

  lemma RunUnfoldsStraight(env: Environment, d: Dialect, p: seq<Op>, k: nat, v: Values, s: State, fuel: nat)
    requires k < |p| && IsStraight(p[k])
    ensures var r := Step(env, p[k], OffsetOf(p, k), v, s);
            Run(env, d, p, k, v, s, fuel) ==
            if r.Halt? then Stuck else Run(env, d, p, k + 1, r.values, r.state, fuel)
  {
    hide Step, OffsetOf, LastMarker, IndexFrom;
  }

  /*** Straight-line code does not depend on where it is placed ***/

  /** `v`, seen at distance `d`, agrees with `u` on the offsets in `scope`. */
  ghost predicate Agree(v: Values, u: Values, d: nat, scope: set<nat>) {
    forall x :: x in scope ==> Value(v, x + d) == Value(u, x)
  }

  lemma AgreeAfter(v: Values, u: Values, d: nat, scope: set<nat>, at: nat, w: Word)
    requires Agree(v, u, d, scope)
    ensures Agree(v[at + d := w], u[at := w], d, scope + {at})
  {
  }

  lemma SameArguments(op: Op, args: seq<nat>, d: nat, v: Values, u: Values)
    requires Arguments(op) == set a | a in args
    requires forall a :: a in Arguments(op) ==> Value(v, a + d) == Value(u, a)
    ensures forall i :: 0 <= i < |args| ==> Value(v, args[i] + d) == Value(u, args[i])
  {
    hide Value;
    forall i | 0 <= i < |args|
      ensures Value(v, args[i] + d) == Value(u, args[i])
    {
      assert args[i] in Arguments(op);
    }
  }

  /** The same outcome at distance `d`: the same state and the same new value, if there is one. */
  ghost predicate Shifted(op: Op, at: nat, d: nat, v: Values, u: Values, r: Flow, q: Flow) {
    && (r.Halt? <==> q.Halt?)
    && (r.Next? ==>
          && q.state == r.state
          && if ProducesValue(op) then
               at in r.values && r.values == u[at := r.values[at]] && q.values == v[at + d := r.values[at]]
             else r.values == u && q.values == v)
  }

  lemma ShiftedSyscall(env: Environment, args: seq<nat>, at: nat, d: nat, v: Values, u: Values, s: State)
    requires forall i :: 0 <= i < |args| ==> Value(v, args[i] + d) == Value(u, args[i])
    ensures var op := Syscall(args);
            Shifted(op, at, d, v, u, Step(env, op, at, u, s), Step(env, ShiftOp(op, d), at + d, v, s))
  {
    hide Value;
    var shifted := ShiftOp(Syscall(args), d).arguments;
    assert seq(|args|, i requires 0 <= i < |args| => Value(u, args[i]))
        == seq(|shifted|, i requires 0 <= i < |shifted| => Value(v, shifted[i]));
  }

  lemma ShiftedSelect(env: Environment, op: Op, at: nat, d: nat, v: Values, u: Values, s: State)
    requires op.Select? && forall i :: 0 <= i < |op.args| ==> Value(v, op.args[i] + d) == Value(u, op.args[i])
    ensures Shifted(op, at, d, v, u, Step(env, op, at, u, s), Step(env, ShiftOp(op, d), at + d, v, s))
  {
    hide Value;
  }

  lemma ShiftedMemory(env: Environment, op: Op, at: nat, d: nat, v: Values, u: Values, s: State)
    requires op.LoadMem? || op.StoreContext? || op.LoadContext?
    requires forall a :: a in Arguments(op) ==> Value(v, a + d) == Value(u, a)
    ensures Shifted(op, at, d, v, u, Step(env, op, at, u, s), Step(env, ShiftOp(op, d), at + d, v, s))
  {
    hide LoadWord, ReadSlot, WriteSlot, ContextSlot, Value, Add;
    match op
    case LoadMem(_, a, i) =>
      assert a in Arguments(op);
      assert i.IndexAt? ==> i.value in Arguments(op);
    case StoreContext(_, _, a) =>
      assert a in Arguments(op);
    case _ =>
  }

  lemma ShiftedArithmetic(env: Environment, op: Op, at: nat, d: nat, v: Values, u: Values, s: State)
    requires op.Constant? || op.Binary? || op.Trunc32? || op.Trunc16?
    requires forall a :: a in Arguments(op) ==> Value(v, a + d) == Value(u, a)
    ensures Shifted(op, at, d, v, u, Step(env, op, at, u, s), Step(env, ShiftOp(op, d), at + d, v, s))
  {
    hide Compute, ShiftDefined, Truncate32, Truncate16, Value;
    match op
    case Binary(_, a, b) =>
      assert a in Arguments(op) && b in Arguments(op);
    case Trunc32(a) =>
      assert a in Arguments(op);
    case Trunc16(a) =>
      assert a in Arguments(op);
    case _ =>
  }

  /** What an operation does depends on its arguments' values only. */
  lemma ShiftedResult(env: Environment, op: Op, at: nat, d: nat, v: Values, u: Values, s: State)
    requires IsStraight(op) && forall a :: a in Arguments(op) ==> Value(v, a + d) == Value(u, a)
    ensures Shifted(op, at, d, v, u, Step(env, op, at, u, s), Step(env, ShiftOp(op, d), at + d, v, s))
  {
    hide Step, ShiftOp, Value, Shifted;
    match op
    case Select(_, args) =>
      SameArguments(op, args, d, v, u);
      ShiftedSelect(env, op, at, d, v, u, s);
    case Syscall(args) =>
      SameArguments(op, args, d, v, u);
      ShiftedSyscall(env, args, at, d, v, u, s);
    case LoadMem(_, _, _) => ShiftedMemory(env, op, at, d, v, u, s);
    case StoreContext(_, _, _) => ShiftedMemory(env, op, at, d, v, u, s);
    case LoadContext(_, _) => ShiftedMemory(env, op, at, d, v, u, s);
    case _ => ShiftedArithmetic(env, op, at, d, v, u, s);
  }

  /** A step at another place, on values that agree, leaves values that agree. */
  lemma ShiftedStep(env: Environment, op: Op, at: nat, d: nat, v: Values, u: Values, scope: set<nat>, s: State)
    requires IsStraight(op) && Arguments(op) <= scope && Agree(v, u, d, scope)
    ensures Step(env, op, at, u, s).Halt? <==> Step(env, ShiftOp(op, d), at + d, v, s).Halt?
    ensures Step(env, op, at, u, s).Next? ==>
              var r, q := Step(env, op, at, u, s), Step(env, ShiftOp(op, d), at + d, v, s);
              && q.state == r.state
              && Agree(q.values, r.values, d, if ProducesValue(op) then scope + {at} else scope)
  {
    hide Step, ShiftOp, Agree, Value, Arguments, ProducesValue, IsStraight;
    forall a | a in Arguments(op)
      ensures Value(v, a + d) == Value(u, a)
    {
      assert a in scope;
      AgreeAt(v, u, d, scope, a);
    }
    ShiftedResult(env, op, at, d, v, u, s);
    var r := Step(env, op, at, u, s);
    if ProducesValue(op) && r.Next? {
      AgreeAfter(v, u, d, scope, at, r.values[at]);
    }
  }

  lemma AgreeAt(v: Values, u: Values, d: nat, scope: set<nat>, x: nat)
    requires Agree(v, u, d, scope) && x in scope
    ensures Value(v, x + d) == Value(u, x)
  {
  }

  /**
    A closed straight sequence has the same effect on the CPU state at every
    place and whatever values were computed before it.
  */
  lemma {:induction false} PlacementDoesNotMatter(
      env: Environment, ops: seq<Op>, d: nat, i: nat, v: Values, u: Values, s: State)
    requires i <= |ops| && Closed(ops)
    requires forall j :: 0 <= j < |ops| ==> IsStraight(ops[j])
    requires Agree(v, u, d, Defined(ops, i))
    ensures Straight(env, ops, 0, i, u, s).Halt? <==> Straight(env, Shift(ops, d), d, i, v, s).Halt?
    ensures Straight(env, ops, 0, i, u, s).Next? ==>
              var r, q := Straight(env, ops, 0, i, u, s), Straight(env, Shift(ops, d), d, i, v, s);
              q.state == r.state && Agree(q.values, r.values, d, Defined(ops, |ops|))
    decreases |ops| - i
  {
    hide *;
    var ops' := Shift(ops, d);
    StraightUnfolds(env, ops, 0, i, u, s);
    StraightUnfolds(env, ops', d, i, v, s);
    if i < |ops| {
      var at := OffsetOf(ops, i);
      OffsetOfShift(ops, d, i);
      ClosedAt(ops, i);
      ShiftedStep(env, ops[i], at, d, v, u, Defined(ops, i), s);
      var r, q := Step(env, ops[i], at, u, s), Step(env, ops'[i], d + OffsetOf(ops', i), v, s);
      if r.Next? {
        PlacementDoesNotMatter(env, ops, d, i + 1, q.values, r.values, r.state);
      }
    }
  }

  lemma StraightUnfolds(env: Environment, ops: seq<Op>, base: nat, i: nat, v: Values, s: State)
    requires i <= |ops|
    ensures i == |ops| ==> Straight(env, ops, base, i, v, s) == Next(v, s)
    ensures i < |ops| ==>
              var r := Step(env, ops[i], base + OffsetOf(ops, i), v, s);
              Straight(env, ops, base, i, v, s) ==
              if r.Halt? then Halt else Straight(env, ops, base, i + 1, r.values, r.state)
  {
    hide Step, OffsetOf;
  }

  /*** One operation of a straight sequence at a time ***/

  /** `w` is `v` with the value `x` recorded at offset `at`. */
  ghost predicate Records(w: Values, v: Values, at: nat, x: Word) {
    forall a: nat :: Value(w, a) == if a == at then x else Value(v, a)
  }

  lemma AfterConstant(env: Environment, ops: seq<Op>, i: nat, at: nat, v: Values, s: State, x: Word)
    returns (w: Values)
    requires i < |ops| && ops[i].Constant? && ops[i].constant == x && at == OffsetOf(ops, i)
    ensures Straight(env, ops, 0, i, v, s) == Straight(env, ops, 0, i + 1, w, s)
    ensures Records(w, v, at, x) && OffsetOf(ops, i + 1) == at + 16
  {
    StraightUnfolds(env, ops, 0, i, v, s);
    w := v[at := x];
  }

  lemma AfterLoad(env: Environment, ops: seq<Op>, i: nat, at: nat, v: Values, s: State, o: nat)
    returns (w: Values)
    requires i < |ops| && ops[i] == LoadContext(8, o) && ContextSlot(o) && at == OffsetOf(ops, i)
    ensures Straight(env, ops, 0, i, v, s) == Straight(env, ops, 0, i + 1, w, s)
    ensures Records(w, v, at, ReadSlot(s, o)) && OffsetOf(ops, i + 1) == at + 8
  {
    hide ReadSlot;
    StraightUnfolds(env, ops, 0, i, v, s);
    w := v[at := ReadSlot(s, o)];
  }

  lemma AfterStore(env: Environment, ops: seq<Op>, i: nat, v: Values, s: State, o: nat, a: nat)
    requires i < |ops| && ops[i] == StoreContext(8, o, a) && ContextSlot(o)
    ensures Straight(env, ops, 0, i, v, s) == Straight(env, ops, 0, i + 1, v, WriteSlot(s, o, Value(v, a)))
    ensures OffsetOf(ops, i + 1) == OffsetOf(ops, i) + 12
  {
    hide WriteSlot;
    StraightUnfolds(env, ops, 0, i, v, s);
  }

  lemma AfterBinary(
      env: Environment, ops: seq<Op>, i: nat, at: nat, v: Values, s: State,
      kind: BinaryKind, a: nat, b: nat, x: Word, y: Word) returns (w: Values)
    requires i < |ops| && ops[i] == Binary(kind, a, b) && at == OffsetOf(ops, i)
    requires x == Value(v, a) && y == Value(v, b) && ShiftDefined(kind, y)
    ensures Straight(env, ops, 0, i, v, s) == Straight(env, ops, 0, i + 1, w, s)
    ensures Records(w, v, at, Compute(kind, x, y)) && OffsetOf(ops, i + 1) == at + 12
  {
    hide Compute;
    StraightUnfolds(env, ops, 0, i, v, s);
    w := v[at := Compute(kind, x, y)];
  }

  lemma AfterTrunc32(env: Environment, ops: seq<Op>, i: nat, at: nat, v: Values, s: State, a: nat, x: Word)
    returns (w: Values)
    requires i < |ops| && ops[i] == Trunc32(a) && at == OffsetOf(ops, i) && x == Value(v, a)
    ensures Straight(env, ops, 0, i, v, s) == Straight(env, ops, 0, i + 1, w, s)
    ensures Records(w, v, at, Truncate32(x)) && OffsetOf(ops, i + 1) == at + 8
  {
    hide Truncate32;
    StraightUnfolds(env, ops, 0, i, v, s);
    w := v[at := Truncate32(x)];
  }

  lemma AfterSelectEqual(
      env: Environment, ops: seq<Op>, i: nat, at: nat, v: Values, s: State, args: seq<nat>, x: Word)
      returns (w: Values)
    requires i < |ops| && ops[i] == Select(CompEq, args) && |args| == 4 && at == OffsetOf(ops, i)
    requires x == if Value(v, args[0]) == Value(v, args[1]) then Value(v, args[2]) else Value(v, args[3])
    ensures Straight(env, ops, 0, i, v, s) == Straight(env, ops, 0, i + 1, w, s)
    ensures Records(w, v, at, x) && OffsetOf(ops, i + 1) == at + 24
  {
    StraightUnfolds(env, ops, 0, i, v, s);
    w := v[at := x];
  }

  lemma AfterLoadMem(env: Environment, ops: seq<Op>, i: nat, at: nat, v: Values, s: State, size: nat, a: nat)
    returns (w: Values)
    requires i < |ops| && (size == 4 || size == 8) && ops[i] == LoadMem(size, a, NoIndex) && at == OffsetOf(ops, i)
    ensures Straight(env, ops, 0, i, v, s) == Straight(env, ops, 0, i + 1, w, s)
    ensures Records(w, v, at, LoadWord(env.memory, Value(v, a), size)) && OffsetOf(ops, i + 1) == at + 12
  {
    hide LoadWord;
    StraightUnfolds(env, ops, 0, i, v, s);
    w := v[at := LoadWord(env.memory, Value(v, a), size)];
  }

  lemma AfterAll(env: Environment, ops: seq<Op>, v: Values, s: State)
    ensures Straight(env, ops, 0, |ops|, v, s) == Next(v, s)
  {
  }

  lemma ClosedAt(ops: seq<Op>, i: nat)
    requires i < |ops| && Closed(ops)
    ensures Arguments(ops[i]) <= Defined(ops, i)
    ensures Defined(ops, i + 1) ==
            if ProducesValue(ops[i]) then Defined(ops, i) + {OffsetOf(ops, i)} else Defined(ops, i)
  {
    hide Arguments, ProducesValue;
  }

  /** Running a stream over a straight stretch is running that stretch. */
  lemma {:induction false} RunOverStraight(
      env: Environment, d: Dialect, p: seq<Op>, k: nat, ops: seq<Op>, i: nat, v: Values, s: State, fuel: nat)
    requires i <= |ops| && k + |ops| <= |p| && p[k..k + |ops|] == ops
    requires forall j :: 0 <= j < |ops| ==> IsStraight(ops[j])
    ensures match Straight(env, ops, OffsetOf(p, k), i, v, s)
            case Halt => Run(env, d, p, k + i, v, s, fuel) == Stuck
            case Next(v', s') => Run(env, d, p, k + i, v, s, fuel) == Run(env, d, p, k + |ops|, v', s', fuel)
    decreases |ops| - i
  {
    hide Step, Run, IsStraight, OffsetOf, Straight;
    StraightUnfolds(env, ops, OffsetOf(p, k), i, v, s);
    if i < |ops| {
      assert p[k + i] == ops[i];
      OffsetWithin(p, k, ops, i);
      RunUnfoldsStraight(env, d, p, k + i, v, s, fuel);
      var r := Step(env, ops[i], OffsetOf(p, k) + OffsetOf(ops, i), v, s);
      if r.Next? {
        RunOverStraight(env, d, p, k, ops, i + 1, r.values, r.state, fuel);
      }
    }
  }

  lemma OffsetWithin(p: seq<Op>, k: nat, ops: seq<Op>, i: nat)
    requires i <= |ops| && k + |ops| <= |p| && p[k..k + |ops|] == ops
    ensures OffsetOf(p, k + i) == OffsetOf(p, k) + OffsetOf(ops, i)
  {
    var a, b := p[..k], p[k..];
    assert p == a + b;
    assert b == ops + p[k + |ops|..];
    OffsetOfPrefix(a, b, k);
    OffsetOfSuffix(a, b, i);
    OffsetOfPrefix(ops, p[k + |ops|..], i);
  }
}
