/**
  The two backends on translated blocks: the lowered graph agrees with the walk
  over the stream, linked graphs agree with separate entries, and the
  interpreter's walk always makes progress.
*/
module Backends {
  import opened Words
  import opened IR
  import opened Machine
  import opened Handlers
  import opened HandlerShapes
  import opened Translate
  import opened BlockMeaning
  import opened SuffixClosure
  import opened LinkedLoops
  import opened Lowering
  import opened LoweringProofs
  import opened StreamShape
  import opened GraphShape
  import opened Compilable

  /**
    A translated block compiles exactly when it has no 16-bit register operation
    and no flag test that reads itself; then every jump leads to a recorded block.
  */
  lemma BlockCompilesExactlyWhen(b: Block, rip: Word)
    requires FromHandlers(b)
    ensures var p := Assemble(b);
            && (!Compile(p, rip).aborted <==> NoHalfWords(b) && NoSelfReference(b))
            && (NoHalfWords(b) && NoSelfReference(b) ==> Lowers(Targets(p, rip), p))
  {
    hide Assemble, LowerUpTo, Shaped, Supported, IsStraight, Emit, LocalSSA, NoHalfWords, SelfReferential, ReadsItself;
    var p := Assemble(b);
    if NoSelfReference(b) {
      StreamIsShaped(b);
      StreamIsLocalSSA(b);
      ShapedKinds(p);
      SupportedExactlyWhen(b);
      CompilesExactlyWhen(Targets(p, rip), p, |p|);
      forall k | 0 <= k < |p| && p[k].CondJump?
        ensures p[k].ripTarget in Targets(p, rip)
      {
        JumpsAreTargets(p, |p|, k);
      }
    } else {
      var i :| 0 <= i < |b.items| && SelfReferential(b.items[i].handler);
      var k := SelfReferenceInStream(b, i);
      SelfReadAborts(Targets(p, rip), p, k);
    }
  }

  lemma ShapedKinds(p: seq<Op>)
    requires Shaped(p)
    ensures |p| > 0 && forall i :: 0 <= i < |p| ==> KnownKind(p[i])
  {
  }

  /*** Graphs without links ***/

  /** No conditional jump goes to an instruction that precedes it in the stream. */
  ghost predicate NoBackwardLink(p: seq<Op>) {
    forall k :: 0 <= k < |p| && p[k].CondJump? ==> LastMarker(p, k, p[k].ripTarget) == 0
  }

  lemma {:induction false} LinksUnused(env: Environment, p: seq<Op>, k: nat, v: Values, s: State, fuel: nat)
    requires NoBackwardLink(p) && k <= |p|
    ensures Run(env, LOWERED, p, k, v, s, fuel) == Run(env, COMPLEMENTED, p, k, v, s, 0)
    ensures Run(env, COMPLEMENTED, p, k, v, s, 0) != OutOfFuel
    decreases |p| - k
  {
    hide Step, OffsetOf, LastMarker, IndexFrom;
    if k < |p| {
      match p[k]
      case EndBlock(_) =>
      case CondJump(c, t, r) =>
        assert LastMarker(p, k, p[k].ripTarget) == 0;
        LinksUnused(env, p, k + 1, v, s, fuel);
        LinksUnused(env, p, IndexFrom(p, t, k + 1), v, s, fuel);
      case BeginBlock => LinksUnused(env, p, k + 1, v, s, fuel);
      case JumpTarget => LinksUnused(env, p, k + 1, v, s, fuel);
      case RipMarker(_) => LinksUnused(env, p, k + 1, v, s, fuel);
      case op =>
        match Step(env, op, OffsetOf(p, k), v, s)
        case Halt =>
        case Next(v', s') => LinksUnused(env, p, k + 1, v', s', fuel);
    }
  }

  /**
    Backend agreement: without a backward link, the graph reaches the final CPU
    state that the walk with complemented conditional jumps reaches, and every
    run of the graph that ends is that run.
  */
  lemma BackendsAgree(env: Environment, b: Block, rip: Word, s: State, n: nat) returns (enough: nat)
    requires FromHandlers(b) && NoSelfReference(b) && NoHalfWords(b) && NoBackwardLink(Assemble(b))
    ensures var p := Assemble(b);
            var C, walk := Compile(p, rip).blocks, Run(env, COMPLEMENTED, p, 0, map[], s, 0);
            && GraphRun(env, C, 0, 0, map[], s, enough) == walk != OutOfFuel
            && (GraphRun(env, C, 0, 0, map[], s, n) == walk || GraphRun(env, C, 0, 0, map[], s, n) == OutOfFuel)
  {
    hide Assemble, LowerUpTo, Shaped, GraphRun, Run, NoBackwardLink, NoHalfWords, Targets;
    var p := Assemble(b);
    BlockCompilesExactlyWhen(b, rip);
    var targets := Targets(p, rip);
    EntryPosition(targets, p);
    NotEmpty(b);
    LinksUnused(env, p, 0, map[], s, n);
    LinksUnused(env, p, 0, map[], s, 0);
    GraphRefinesStream(env, targets, p, 0, map[], s, n, n);
    enough := StreamRefinesGraph(env, targets, p, 0, map[], s, 0);
  }

  /** More fuel does not change a run of the graph that ends. */
  lemma {:induction false} MoreFuel(
      env: Environment, C: Graph, b: nat, i: nat, v: Values, s: State, n: nat, more: nat)
    requires n <= more && GraphRun(env, C, b, i, v, s, n) != OutOfFuel
    ensures GraphRun(env, C, b, i, v, s, more) == GraphRun(env, C, b, i, v, s, n)
    decreases n
  {
    hide Step, GraphRun;
    if n == 0 {
      NoFuel(env, C, b, i, v, s);
    } else if b >= |C| || i >= |C[b]| {
      NoInstruction(env, C, b, i, v, s, n);
      NoInstruction(env, C, b, i, v, s, more);
    } else {
      GraphRunUnfolds(env, C, b, i, v, s, n);
      GraphRunUnfolds(env, C, b, i, v, s, more);
      match C[b][i]
      case Exec(at, op) =>
        var q := Step(env, op, at, v, s);
        if q.Next? { MoreFuel(env, C, b, i + 1, q.values, q.state, n - 1, more - 1); }
      case Ret(_) =>
      case Br(t) => MoreFuel(env, C, t, 0, v, s, n - 1, more - 1);
      case CondBr(c, t, f) => MoreFuel(env, C, if Value(v, c) != 0 then t else f, 0, v, s, n - 1, more - 1);
    }
  }

  lemma NoInstruction(env: Environment, C: Graph, b: nat, i: nat, v: Values, s: State, n: nat)
    requires n > 0 && (b >= |C| || i >= |C[b]|)
    ensures GraphRun(env, C, b, i, v, s, n) == Stuck
  {
  }

  lemma EntryPosition(targets: set<Word>, p: seq<Op>)
    ensures Position(targets, p, 0) == (0, 0)
  {
    LowerStarts(targets, p);
  }

  lemma NotEmpty(b: Block)
    ensures |Assemble(b)| > 0
  {
    hide BeforeEnd;
  }

  /*** Linked graphs ***/

  /**
    A run of the linked graph that ends is some number of entries: translate at
    the instruction pointer, run once, store the next address.
  */
  lemma LinkedGraphRefinesReentry(env: Environment, g: Guards, b: Block, s: State, n: nat) returns (entries: nat)
    requires IsTranslation(env.memory, g, s.rip, b) && NoHalfWords(b)
    ensures var r := GraphRun(env, Compile(Assemble(b), s.rip).blocks, 0, 0, map[], s, n);
            r != OutOfFuel ==> entries >= 1 && EnterMany(env, g, s, entries) == r
  {
    hide Assemble, LowerUpTo, Shaped, GraphRun, Run, NoHalfWords, Targets, GoodBlock, EnterMany, TranslationOf;
    TranslationsAreFromHandlers(env.memory, g, s.rip, b);
    GoodExactlyWhen(b);
    BlockCompilesExactlyWhen(b, s.rip);
    var p := Assemble(b);
    var targets := Targets(p, s.rip);
    EntryPosition(targets, p);
    NotEmpty(b);
    GraphRefinesStream(env, targets, p, 0, map[], s, n, n);
    entries := LinkedLoopsRefineReentry(env, g, b, s, n);
  }

  /**
    Conversely, when the linked stream ends, so does the graph, in the state
    those entries reach.
  */
  lemma ReentryIsReachedByGraph(env: Environment, g: Guards, b: Block, s: State, links: nat)
    returns (n: nat, entries: nat)
    requires IsTranslation(env.memory, g, s.rip, b) && NoHalfWords(b)
    ensures 1 <= entries <= links + 1
    ensures var r := GraphRun(env, Compile(Assemble(b), s.rip).blocks, 0, 0, map[], s, n);
            var e := EnterMany(env, g, s, entries);
            if Run(env, LOWERED, Assemble(b), 0, map[], s, links) == OutOfFuel then
              entries == links + 1 && e.Done? && exists j :: 0 <= j < |b.items| && e.state.rip == b.items[j].rip
            else r == e
  {
    hide Assemble, LowerUpTo, Shaped, GraphRun, Run, NoHalfWords, Targets, GoodBlock, EnterMany, TranslationOf;
    TranslationsAreFromHandlers(env.memory, g, s.rip, b);
    GoodExactlyWhen(b);
    BlockCompilesExactlyWhen(b, s.rip);
    var p := Assemble(b);
    EntryPosition(Targets(p, s.rip), p);
    NotEmpty(b);
    entries := LinkedLoopsRefineReentry(env, g, b, s, links);
    n := StreamRefinesGraph(env, Targets(p, s.rip), p, 0, map[], s, links);
  }

  /*** The interpreter ***/

  /** As written, the interpreter aborts on every stream of a translated block: it has no case for markers. */
  lemma InterpreterAbortsOnMarkers(env: Environment, b: Block, s: State)
    requires |b.items| > 0
    ensures Run(env, INTERPRETER, Assemble(b), 0, map[], s, 0) == Stuck
  {
    hide FragmentOf, Shift, OffsetOf, Stream;
    StreamInBlock(b);
    FirstOperation(b.items);
    InstructionInStream(b.items, 0);
    var p := Assemble(b);
    assert p[0] == Stream(b.items)[0] && p[1] == Stream(b.items)[1];
  }

  /** The operations a walk visits, in order. */
  function Visited(env: Environment, d: Dialect, p: seq<Op>, k: nat, v: Values, s: State): seq<nat>
    requires k <= |p|
    decreases |p| - k
  {
    if k == |p| then []
    else
      match p[k]
      case BeginBlock => [k] + Visited(env, d, p, k + 1, v, s)
      case JumpTarget => [k] + Visited(env, d, p, k + 1, v, s)
      case RipMarker(_) => if d.acceptsMarkers then [k] + Visited(env, d, p, k + 1, v, s) else [k]
      case EndBlock(n) => [k]
      case CondJump(c, t, r) =>
        if (Value(v, c) != 0) == d.exitWhenTrue then [k] + Visited(env, d, p, k + 1, v, s)
        else [k] + Visited(env, d, p, IndexFrom(p, t, k + 1), v, s)
      case op =>
        match Step(env, op, OffsetOf(p, k), v, s)
        case Halt => [k]
        case Next(v', s') => [k] + Visited(env, d, p, k + 1, v', s')
  }

  predicate Increasing(path: seq<nat>) {
    forall i :: 0 <= i < |path| - 1 ==> path[i] < path[i + 1]
  }

  /**
    A walk from operation `k` that stayed on operations, at strictly increasing
    offsets, and met an `EndBlock` at its last stop, if it finished, and nowhere
    else; it failed only at an operation without meaning.
  */
  ghost predicate Progress(p: seq<Op>, k: nat, path: seq<nat>, r: Outcome) {
    && |path| > 0 && path[0] == k && Increasing(path) && path[|path| - 1] < |p|
    && (forall i :: 0 <= i < |path| - 1 ==> path[i] < |p| && !p[path[i]].EndBlock?)
    && (r.Done? <==> p[path[|path| - 1]].EndBlock?)
    && (r.Stuck? <==> IsStraight(p[path[|path| - 1]]))
  }

  lemma OneStep(p: seq<Op>, k: nat, next: nat, path: seq<nat>, r: Outcome)
    requires k < next && k < |p| && !p[k].EndBlock? && Progress(p, next, path, r)
    ensures Progress(p, k, [k] + path, r)
  {
    hide IsStraight;
    var longer := [k] + path;
    assert longer[|longer| - 1] == path[|path| - 1];
    forall i | 0 <= i < |longer| - 1
      ensures longer[i] < longer[i + 1] && longer[i] < |p| && !p[longer[i]].EndBlock?
    {
      if i > 0 {
        assert longer[i] == path[i - 1];
        assert path[i - 1] < path[i - 1 + 1];
      }
    }
  }

  lemma LastStep(p: seq<Op>, k: nat, r: Outcome)
    requires k < |p| && (if p[k].EndBlock? then r.Done? else IsStraight(p[k]) && r.Stuck?)
    ensures Progress(p, k, [k], r)
  {
  }

  /** Every walk over a shaped stream makes progress and stops at exactly one `EndBlock`. */
  lemma {:induction false} WalkMakesProgress(env: Environment, d: Dialect, p: seq<Op>, k: nat, v: Values, s: State)
    requires Shaped(p) && k < |p| && d.acceptsMarkers && !d.linksBackward
    ensures Progress(p, k, Visited(env, d, p, k, v, s), Run(env, d, p, k, v, s, 0))
    decreases |p| - k
  {
    hide Step, OffsetOf, IndexFrom, IsStraight, Shaped, Run, Visited, Progress, GuardsExit;
    VisitedUnfolds(env, d, p, k, v, s);
    ShapedAt(p, k);
    var r := Run(env, d, p, k, v, s, 0);
    if p[k].EndBlock? {
      RunUnfoldsEnd(env, d, p, k, v, s, 0);
      LastStep(p, k, r);
    } else if IsStraight(p[k]) {
      StraightVisit(env, d, p, k, v, s);
      RunUnfoldsStraight(env, d, p, k, v, s, 0);
      var q := Step(env, p[k], OffsetOf(p, k), v, s);
      if q.Next? {
        WalkMakesProgress(env, d, p, k + 1, q.values, q.state);
        OneStep(p, k, k + 1, Visited(env, d, p, k + 1, q.values, q.state), r);
      } else {
        LastStep(p, k, r);
      }
    } else {
      var next := k + 1;
      if p[k].CondJump? {
        RunUnfoldsJump(env, d, p, k, v, s, 0);
        if (Value(v, p[k].cond) != 0) != d.exitWhenTrue {
          GuardTarget(p, k);
          IndexOfOffset(p, k + 5, k + 1);
          next := k + 5;
        }
      } else {
        RunUnfoldsEnd(env, d, p, k, v, s, 0);
      }
      GuardTarget(p, k);
      WalkMakesProgress(env, d, p, next, v, s);
      OneStep(p, k, next, Visited(env, d, p, next, v, s), r);
    }
  }

  lemma StraightVisit(env: Environment, d: Dialect, p: seq<Op>, k: nat, v: Values, s: State)
    requires k < |p| && IsStraight(p[k])
    ensures var q := Step(env, p[k], OffsetOf(p, k), v, s);
            Visited(env, d, p, k, v, s) ==
            if q.Halt? then [k] else [k] + Visited(env, d, p, k + 1, q.values, q.state)
  {
    hide Step, OffsetOf, IndexFrom;
  }

  lemma ShapedAt(p: seq<Op>, k: nat)
    requires Shaped(p) && k < |p|
    ensures KnownKind(p[k]) && (k == |p| - 1 ==> p[k].EndBlock?) && (p[k].CondJump? ==> GuardsExit(p, k))
    ensures IsStraight(p[k]) ==> !p[k].EndBlock?
  {
  }

  lemma GuardTarget(p: seq<Op>, k: nat)
    requires k < |p|
    ensures GuardsExit(p, k) ==> k + 6 < |p| && p[k].target == OffsetOf(p, k + 5)
  {
  }

  lemma VisitedUnfolds(env: Environment, d: Dialect, p: seq<Op>, k: nat, v: Values, s: State)
    requires k < |p| && d.acceptsMarkers
    ensures Visited(env, d, p, k, v, s) ==
            match p[k]
            case BeginBlock => [k] + Visited(env, d, p, k + 1, v, s)
            case JumpTarget => [k] + Visited(env, d, p, k + 1, v, s)
            case RipMarker(_) => [k] + Visited(env, d, p, k + 1, v, s)
            case EndBlock(n) => [k]
            case CondJump(c, t, r) =>
              if (Value(v, c) != 0) == d.exitWhenTrue then [k] + Visited(env, d, p, k + 1, v, s)
              else [k] + Visited(env, d, p, IndexFrom(p, t, k + 1), v, s)
            case op =>
              match Step(env, op, OffsetOf(p, k), v, s)
              case Halt => [k]
              case Next(v', s') => [k] + Visited(env, d, p, k + 1, v', s')
  {
    hide Step, OffsetOf, IndexFrom;
  }
}
