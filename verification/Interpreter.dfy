/**
  The interpreter as the program runs it: one loop over byte offsets, a map of
  values, and the thread's CPU state updated in place.
*/
module Interpreter {
  import opened Words
  import opened Wrappers
  import opened IR
  import opened Machine
  import opened IRList
  import opened BlockMeaning
  import opened LoweringProofs
  import opened LLVMBackend

  class Thread {
    var cpuState: State

    constructor (initial: State)
      ensures cpuState == initial
    {
      cpuState := initial;
    }

    /** The cases of the switch that compute a value or store one; anything else aborts. */
    method Execute(env: Environment, op: Op, i: nat, values: Values) returns (ok: bool, after: Values)
      modifies this
      ensures Step(env, op, i, values, old(cpuState)) == if ok then Next(after, cpuState) else Halt
      ensures !ok ==> cpuState == old(cpuState)
    {
      hide Compute, LoadWord, ReadSlot, WriteSlot, ContextSlot, ShiftDefined, Truncate32, Truncate16, Add;
      ok, after := true, values;
      match op {
        case Constant(_, w) =>
          after := after[i := w];
        case LoadContext(size, o) =>
          if size != 8 || !ContextSlot(o) {
            return false, values;
          }
          after := after[i := ReadSlot(cpuState, o)];
        case StoreContext(size, o, a) =>
          if size != 8 || !ContextSlot(o) {
            return false, values;
          }
          cpuState := WriteSlot(cpuState, o, Value(values, a));
        case Binary(kind, a, b) =>
          if !ShiftDefined(kind, Value(values, b)) {
            return false, values;
          }
          after := after[i := Compute(kind, Value(values, a), Value(values, b))];
        case Select(c, args) =>
          if |args| != 4 {
            return false, values;
          }
          var equal := Value(values, args[0]) == Value(values, args[1]);
          after := after[i := if equal == c.CompEq? then Value(values, args[2]) else Value(values, args[3])];
        case Trunc32(a) =>
          after := after[i := Truncate32(Value(values, a))];
        case Trunc16(a) =>
          after := after[i := Truncate16(Value(values, a))];
        case LoadMem(size, a, index) =>
          var src := Value(values, a);
          if index.IndexAt? {
            src := Add(src, Value(values, index.value));
          }
          if size != 4 && size != 8 {
            return false, values;
          }
          after := after[i := LoadWord(env.memory, src, size)];
        case Syscall(args) =>
          var call := seq(|args|, j requires 0 <= j < |args| => Value(values, args[j]));
          cpuState := cpuState.(calls := cpuState.calls + [call]);
          after := after[i := env.handle(cpuState.calls)];
        case _ =>
          ok := false;
      }
    }

    /** The body of the loop, at the operation `k` that lies at offset `i`. */
    method Visit(env: Environment, ir: IntrusiveIRList, acceptsMarkers: bool, i: nat, values: Values, ghost k: nat)
      returns (aborted: bool, end: bool, next: nat, after: Values, ghost k': nat)
      requires ir.Valid() && ir.sound && Shaped(ir.ops) && k < |ir.ops| && i == OffsetOf(ir.ops, k)
      modifies this
      ensures var d := Dialect(false, acceptsMarkers, false);
              var r := Run(env, d, ir.ops, k, values, old(cpuState), 0);
              if aborted then r == Stuck
              else if end then r == Done(cpuState)
              else
                && k < k' <= |ir.ops| && next == OffsetOf(ir.ops, k')
                && r == Run(env, d, ir.ops, k', after, cpuState, 0)
    {
      hide Step, Run, OpAt, OffsetOf, SizeOf, Represents, Shaped, IsStraight, GuardsExit;
      AtOperation(ir.bytes, ir.currentOffset, ir.ops, k);
      ShapedWalk(env, Dialect(false, acceptsMarkers, false), ir.ops, k, values, cpuState);
      var op := ir.GetOp(i).value;
      aborted, end, next, after, k' := false, false, i + SizeOf(op), values, k + 1;
      match op {
        case BeginBlock =>
        case JumpTarget =>
        case EndBlock(n) =>
          cpuState := cpuState.(rip := Add(cpuState.rip, n));
          end := true;
        case CondJump(c, t, _) =>
          if Value(values, c) != 0 {
            next, k' := t, k + 5;
          }
        case RipMarker(_) =>
          aborted := !acceptsMarkers;
        case _ =>
          var ok;
          ok, after := Execute(env, op, i, values);
          aborted := !ok;
      }
    }

    /**
      The walk. `acceptsMarkers` is false of the program, whose switch has no case
      for markers. The result says whether the walk ended or aborted.
    */
    method TestCompilation(env: Environment, ir: IntrusiveIRList, acceptsMarkers: bool) returns (finished: bool)
      requires ir.Valid() && ir.sound && Shaped(ir.ops)
      modifies this
      ensures var r := Run(env, Dialect(false, acceptsMarkers, false), ir.ops, 0, map[], old(cpuState), 0);
              if finished then r == Done(cpuState) else r == Stuck
    {
      hide Run, OpAt, OffsetOf, Represents, Shaped;
      var i, values, end := 0, map[], false;
      ghost var d, p, k := Dialect(false, acceptsMarkers, false), ir.ops, 0;
      AtOperation(ir.bytes, ir.currentOffset, p, 0);
      while i != ir.currentOffset && !end
        invariant end || (k <= |p| && i == OffsetOf(p, k) && (i == ir.currentOffset <==> k == |p|))
        invariant Run(env, d, p, 0, map[], old(cpuState), 0) ==
                  if end then Done(cpuState) else Run(env, d, p, k, values, cpuState, 0)
        decreases !end, |p| - k
      {
        var aborted;
        aborted, end, i, values, k := Visit(env, ir, acceptsMarkers, i, values, k);
        if aborted {
          return false;
        }
        if !end {
          AtOperation(ir.bytes, ir.currentOffset, p, k);
        }
      }
      finished := true;
      RunAtEnd(env, d, p, values, cpuState);
    }
  }

  lemma RunAtEnd(env: Environment, d: Dialect, p: seq<Op>, v: Values, s: State)
    ensures Run(env, d, p, |p|, v, s, 0) == Done(s)
  {
  }

  /** One step of the walk over a built stream, in the interpreter's polarity. */
  lemma ShapedWalk(env: Environment, d: Dialect, p: seq<Op>, k: nat, v: Values, s: State)
    requires Shaped(p) && k < |p| && !d.exitWhenTrue && !d.linksBackward
    ensures match p[k]
            case BeginBlock => Run(env, d, p, k, v, s, 0) == Run(env, d, p, k + 1, v, s, 0)
            case JumpTarget => Run(env, d, p, k, v, s, 0) == Run(env, d, p, k + 1, v, s, 0)
            case EndBlock(n) => Run(env, d, p, k, v, s, 0) == Done(s.(rip := Add(s.rip, n)))
            case CondJump(c, t, _) =>
              && k + 6 < |p| && t == OffsetOf(p, k + 5)
              && Run(env, d, p, k, v, s, 0) == Run(env, d, p, if Value(v, c) != 0 then k + 5 else k + 1, v, s, 0)
            case RipMarker(_) =>
              Run(env, d, p, k, v, s, 0) == if d.acceptsMarkers then Run(env, d, p, k + 1, v, s, 0) else Stuck
            case op =>
              var r := Step(env, op, OffsetOf(p, k), v, s);
              Run(env, d, p, k, v, s, 0) == if r.Halt? then Stuck else Run(env, d, p, k + 1, r.values, r.state, 0)
  {
    hide Step, OffsetOf, LastMarker, IndexFrom, Run, IsStraight, Shaped, GuardsExit;
    KindAt(p, k);
    if p[k].CondJump? {
      RunUnfoldsJump(env, d, p, k, v, s, 0);
      TargetAt(p, k);
      IndexOfOffset(p, k + 5, k + 1);
    } else if IsStraight(p[k]) {
      RunUnfoldsStraight(env, d, p, k, v, s, 0);
      StraightKinds(p[k]);
    } else if p[k].RipMarker? && !d.acceptsMarkers {
      RunStopsAtMarker(env, d, p, k, v, s);
    } else {
      RunUnfoldsEnd(env, d, p, k, v, s, 0);
    }
  }

  lemma KindAt(p: seq<Op>, k: nat)
    requires Shaped(p) && k < |p|
    ensures KnownKind(p[k]) && (p[k].CondJump? ==> GuardsExit(p, k))
  {
  }

  lemma TargetAt(p: seq<Op>, k: nat)
    requires k < |p| && GuardsExit(p, k)
    ensures k + 6 < |p| && p[k].target == OffsetOf(p, k + 5)
  {
  }

  lemma StraightKinds(op: Op)
    requires IsStraight(op)
    ensures !op.BeginBlock? && !op.JumpTarget? && !op.EndBlock? && !op.CondJump? && !op.RipMarker?
  {
  }

  lemma RunStopsAtMarker(env: Environment, d: Dialect, p: seq<Op>, k: nat, v: Values, s: State)
    requires k < |p| && p[k].RipMarker? && !d.acceptsMarkers
    ensures Run(env, d, p, k, v, s, 0) == Stuck
  {
    hide Step, OffsetOf;
  }
}
