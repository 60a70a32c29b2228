/**
  The run loop with its caches, against the same loop that translates and
  compiles afresh at every step.
*/
module RunLoop {
  import opened Words
  import opened Wrappers
  import opened IR
  import opened Machine
  import opened X86Tables
  import opened Decoder
  import opened Handlers
  import opened HandlerShapes
  import opened Translate
  import opened BlockMeaning
  import opened SuffixClosure
  import opened SuffixExactness
  import opened Lowering
  import LoweringProofs
  import opened StreamShape
  import opened GraphShape
  import opened Compilable
  import opened Backends
  import opened LLVMBackend
  import opened StaleLinks
  import opened Simulation
  import opened Builder
  import opened Core

  /*** Without caches ***/

  datatype Ended = Running(state: State) | Stopped(state: State) | Crashed

  /** The loop leaves when the instruction pointer is 0. */
  function AfterRun(s: State): Ended {
    if s.rip == 0 then Stopped(s) else Running(s)
  }

  /**
    One pass of the loop that keeps nothing: translate at the instruction
    pointer, compile, run; `fallback` stands for the foreign emulator, and `fuel`
    bounds the instructions the compiled code may execute.
  */
  function CachelessStep(env: Environment, g: Guards, fallback: State -> State, s: State, fuel: nat): Ended {
    match TranslationOf(env.memory, g, s.rip)
    case UnknownEncoding => Stopped(fallback(s))
    case NothingTranslated => AfterRun(fallback(s))
    case Translated(b) =>
      var C := Compile(Assemble(b), s.rip);
      if C.aborted then Crashed
      else
        match GraphRun(env, C.blocks, 0, 0, map[], s, fuel)
        case Done(s') => AfterRun(s')
        case _ => Crashed
  }

  function CachelessRun(env: Environment, g: Guards, fallback: State -> State, s: State, n: nat, fuel: nat): Ended
    decreases n
  {
    if n == 0 then Running(s)
    else
      match CachelessStep(env, g, fallback, s, fuel)
      case Running(s') => CachelessRun(env, g, fallback, s', n - 1, fuel)
      case ended => ended
  }

  /*** Conditional jumps need the guard ***/

  lemma {:induction false} NoTargets(p: seq<Op>, k: nat, rip: Word)
    requires k <= |p| && NoJumps(p)
    ensures JumpRips(p, k) == {} && SkipOffsets(p, k) == {} && LandingRips(p, k, rip, {}) == {}
  {
    hide OffsetOf, LocalRip;
    if k > 0 {
      NoTargets(p, k - 1, rip);
    }
  }

  /** Only a block at an enabled address records blocks for jump targets, or looks for them. */
  lemma TargetsNeedGuard(memory: Memory, g: Guards, start: Word, p: seq<Op>, rip: Word)
    requires FreshStream(memory, g, start) == Some(p) && !g.jcc(start)
    ensures Targets(p, rip) == {} && NoJumps(p)
  {
    hide TranslationOf, Assemble;
    DisabledHasNoJumps(memory, g, start, TranslationOf(memory, g, start).block);
    NoTargets(p, |p|, rip);
  }

  /*** When compilation fails ***/

  /** Whatever values are left from earlier, an operation without a case aborts. */
  lemma {:induction false} UnsupportedAborts(
      targets: set<Word>, stale: set<Word>, values: set<nat>, p: seq<Op>, k: nat, j: nat)
    requires j < k <= |p| && IsStraight(p[j]) && !Supported(p[j])
    ensures LowerFrom(targets, stale, values, p, k).aborted
    decreases k
  {
    hide OffsetOf, LowerFrom, LowerAmid, IsStraight, Supported;
    LowerFromUnfolds(targets, stale, values, p, k - 1);
    var L := LowerFrom(targets, stale, values, p, k - 1);
    if j < k - 1 {
      UnsupportedAborts(targets, stale, values, p, k - 1, j);
      AbortedStep(targets, stale, OffsetOf(p, k - 1), p[k - 1], L);
    } else {
      UnsupportedStep(targets, stale, OffsetOf(p, j), p[j], L);
    }
  }

  lemma UnsupportedStep(targets: set<Word>, stale: set<Word>, at: nat, op: Op, L: Lower)
    requires IsStraight(op) && !Supported(op)
    ensures LowerAmid(targets, stale, at, op, L).aborted
  {
    hide Supported, Arguments;
  }

  /**
    With what the backend kept from earlier functions, a fresh stream compiles as
    by itself, unless a jump goes to a stale address.
  */
  lemma CompilesAsFresh(memory: Memory, g: Guards, stale: set<Word>, values: set<nat>, b: Block, rip: Word)
    requires TranslationOf(memory, g, rip) == Translated(b) && NoSelfReference(b)
    requires forall k :: 0 <= k < |Assemble(b)| ==> !JumpsToStale(Assemble(b), k, stale)
    ensures var p := Assemble(b);
            LowerFrom(Targets(p, rip), stale, values, p, |p|).aborted <==> Compile(p, rip).aborted
  {
    hide LowerFrom, Targets, Compile, Assemble, TranslationOf, IsStraight, Supported, JumpsToStale,
         LoweringProofs.Lowers, NoHalfWords;
    var p := Assemble(b);
    TranslationsAreFromHandlers(memory, g, rip, b);
    BlockCompilesExactlyWhen(b, rip);
    SupportedExactlyWhen(b);
    if Compile(p, rip).aborted {
      var j :| 0 <= j < |p| && IsStraight(p[j]) && !Supported(p[j]);
      UnsupportedAborts(Targets(p, rip), stale, values, p, |p|, j);
    } else {
      StaleLinksMatterExactlyWhen(stale, values, p, rip);
    }
  }

  /*** With the caches ***/

  /** The program's own test enables conditional jumps in the block at one address. */
  ghost predicate AtMostOneBlock(g: Guards) {
    forall x, y :: g.jcc(x) && g.jcc(y) ==> x == y
  }

  /** Every stream fits in a list of that capacity. */
  ghost predicate AllFit(memory: Memory, g: Guards, capacity: nat) {
    forall rip: Word :: Fits(memory, g, rip, capacity)
  }

  /** No block accepts a jump on OF, CF, ZF, SF or PF itself. */
  ghost predicate NoneSelfReferential(memory: Memory, g: Guards) {
    forall rip: Word :: TranslationOf(memory, g, rip).Translated? ==>
                          NoSelfReference(TranslationOf(memory, g, rip).block)
  }

  /** The backend recorded blocks only while compiling an enabled address, which then has code. */
  ghost predicate LinksConfined(g: Guards, keys: set<Word>, cached: set<Word>) {
    keys == {} || exists r :: r in cached && g.jcc(r)
  }

  /** Code is only kept for streams that compile by themselves. */
  ghost predicate CodeCompiles(memory: Memory, g: Guards, cached: set<Word>) {
    forall r :: r in cached ==>
      FreshStream(memory, g, r).Some? && !Compile(FreshStream(memory, g, r).value, r).aborted
  }

  ghost predicate Good(t: ThreadState, memory: Memory, g: Guards)
    reads t`irlists, t.irlists.Values, t.blockcache, t.backend
  {
    var cached := t.blockcache.blocks.Keys;
    && t.Coherent(memory, g) && CodeCompiles(memory, g, cached)
    && LinksConfined(g, t.backend.blockJumpTargets.Keys, cached)
  }

  lemma NoStaleJumps(memory: Memory, g: Guards, rip: Word, p: seq<Op>, keys: set<Word>, cached: set<Word>)
    requires FreshStream(memory, g, rip) == Some(p) && AtMostOneBlock(g)
    requires LinksConfined(g, keys, cached) && rip !in cached
    ensures forall k :: 0 <= k < |p| ==> !JumpsToStale(p, k, keys)
  {
    hide FreshStream, Targets;
    if !g.jcc(rip) {
      TargetsNeedGuard(memory, g, rip, p, rip);
    }
  }

  lemma StaysConfined(
      memory: Memory, g: Guards, rip: Word, p: seq<Op>, keys: set<Word>, keys': set<Word>, cached: set<Word>)
    requires FreshStream(memory, g, rip) == Some(p)
    requires LinksConfined(g, keys, cached) && keys' <= keys + Targets(p, rip)
    ensures LinksConfined(g, keys', cached + {rip})
  {
    hide FreshStream, Targets;
    if g.jcc(rip) {
      assert rip in cached + {rip};
    } else {
      TargetsNeedGuard(memory, g, rip, p, rip);
      if keys' != {} {
        var r :| r in cached && g.jcc(r);
        assert r in cached + {rip};
      }
    }
  }

  lemma FreshCompilation(
      memory: Memory, g: Guards, keys: set<Word>, values: set<nat>, cached: set<Word>, rip: Word)
    requires TranslationOf(memory, g, rip).Translated? && NoneSelfReferential(memory, g)
    requires AtMostOneBlock(g) && LinksConfined(g, keys, cached) && rip !in cached
    ensures var b := TranslationOf(memory, g, rip).block;
            var p := Assemble(b);
            var L := LowerFrom(Targets(p, rip), keys, values, p, |p|);
            && FreshStream(memory, g, rip) == Some(p)
            && (L.aborted <==> Compile(p, rip).aborted) && (!L.aborted ==> L.blocks == Compile(p, rip).blocks)
  {
    hide TranslationOf, Compile, Assemble, Targets, LowerFrom, LinksConfined, JumpsToStale;
    var b := TranslationOf(memory, g, rip).block;
    var p := Assemble(b);
    assert FreshStream(memory, g, rip) == Some(p);
    NoStaleJumps(memory, g, rip, p, keys, cached);
    CompilesAsFresh(memory, g, keys, values, b, rip);
    CompiledFresh(memory, g, keys, values, p, rip);
  }

  /** What `CompileBlock` returns, in the terms of the cacheless loop. */
  method CompileMissing(t: ThreadState, env: Environment, g: Guards) returns (r: CompileResult)
    requires t.Valid() && t.cpuState.rip !in t.blockcache.blocks
    modifies t`irlists, t`stopRunning, t.translator, t.translator.builder, t.translator.builder.irList, t.blockcache,
             t.backend
    ensures t.Valid() && t.cpuState == old(t.cpuState) && (t.Sound() ==> old(t.Sound()))
    ensures old(t.Sound()) && AllFit(env.memory, g, old(t.Capacity())) ==>
              t.Sound() && t.Capacity() == old(t.Capacity())
    ensures t.Sound() && old(Good(t, env.memory, g)) && AtMostOneBlock(g) && NoneSelfReferential(env.memory, g) ==>
              && t.stopRunning == (old(t.stopRunning) || TranslationOf(env.memory, g, t.cpuState.rip).UnknownEncoding?)
              && (r != Died ==> Good(t, env.memory, g))
              && match TranslationOf(env.memory, g, t.cpuState.rip)
                 case Translated(b) =>
                   var C := Compile(Assemble(b), t.cpuState.rip);
                   r == if C.aborted then Died else Cached(C.blocks)
                 case _ => r == NoBlock
  {
    hide TranslationOf, Compile, Assemble, Targets, LowerFrom, LinksConfined, IsCodeOf, CodeCompiles, FreshStream,
         ThreadState.Valid, ThreadState.Coherent;
    ghost var rip, memory := t.cpuState.rip, env.memory;
    ghost var keys, values, cached := t.backend.blockJumpTargets.Keys, t.backend.values, t.blockcache.blocks.Keys;
    ghost var good := Good(t, memory, g) && AtMostOneBlock(g) && NoneSelfReferential(memory, g);
    FreshIs(memory, g, rip);
    if good && TranslationOf(memory, g, rip).Translated? {
      FreshCompilation(memory, g, keys, values, cached, rip);
    }
    r := t.CompileBlock(env.memory, g);
    if good && t.Sound() && r.Cached? {
      assert t.blockcache.blocks.Keys == cached + {rip};
      StaysGood(memory, g, rip, keys, t.backend.blockJumpTargets.Keys, cached);
    }
  }

  lemma FreshIs(memory: Memory, g: Guards, rip: Word)
    ensures FreshStream(memory, g, rip) ==
            match TranslationOf(memory, g, rip)
            case Translated(b) => Some(Assemble(b))
            case _ => None
  {
    hide TranslationOf, Assemble;
  }

  lemma StaysGood(memory: Memory, g: Guards, rip: Word, keys: set<Word>, keys': set<Word>, cached: set<Word>)
    requires FreshStream(memory, g, rip).Some? && !Compile(FreshStream(memory, g, rip).value, rip).aborted
    requires CodeCompiles(memory, g, cached) && LinksConfined(g, keys, cached)
    requires keys' <= keys + Targets(FreshStream(memory, g, rip).value, rip)
    ensures CodeCompiles(memory, g, cached + {rip}) && LinksConfined(g, keys', cached + {rip})
  {
    hide FreshStream, Compile, Targets, LinksConfined;
    StaysConfined(memory, g, rip, FreshStream(memory, g, rip).value, keys, keys', cached);
  }

  /*** The run loop ***/

  /** One pass of `ExecutionThread` up to its pause, the exit on a zero instruction pointer included. */
  method ExecuteOnce(t: ThreadState, env: Environment, g: Guards, fallback: State -> State, fuel: nat)
    returns (ended: Ended)
    requires t.Valid() && !t.stopRunning
    modifies t`irlists, t`stopRunning, t`cpuState, t.translator, t.translator.builder, t.translator.builder.irList,
             t.blockcache, t.backend
    ensures t.Valid() && (t.Sound() ==> old(t.Sound())) && (ended.Running? ==> !t.stopRunning)
    ensures old(t.Sound()) && AllFit(env.memory, g, old(t.Capacity())) ==>
              t.Sound() && t.Capacity() == old(t.Capacity())
    ensures t.Sound() && old(Good(t, env.memory, g)) && AtMostOneBlock(g) && NoneSelfReferential(env.memory, g) ==>
              && (ended != Crashed ==> Good(t, env.memory, g) && t.cpuState == ended.state)
              && ended == CachelessStep(env, g, fallback, old(t.cpuState), fuel)
  {
    hide TranslationOf, Compile, Assemble, GraphRun, LinksConfined, IsCodeOf, CodeCompiles, ThreadState.Valid,
         ThreadState.Coherent, FreshStream;
    ghost var good := Good(t, env.memory, g) && AtMostOneBlock(g) && NoneSelfReferential(env.memory, g);
    var s := t.cpuState;
    FreshIs(env.memory, g, s.rip);
    var code := t.blockcache.FindBlock(s.rip);
    if code.Some? {
      if good { CachedCode(t, env.memory, g, s.rip); }
    } else {
      var r := CompileMissing(t, env, g);
      if r.Died? {
        return Crashed;
      }
      code := if r.Cached? then Some(r.code) else None;
    }
    if code.Some? {
      var outcome := GraphRun(env, code.value, 0, 0, map[], s, fuel);
      if !outcome.Done? {
        return Crashed;
      }
      t.cpuState := outcome.state;
    } else {
      t.cpuState := fallback(s);
    }
    ended := if t.cpuState.rip == 0 || t.stopRunning then Stopped(t.cpuState) else Running(t.cpuState);
  }

  lemma CachedCode(t: ThreadState, memory: Memory, g: Guards, rip: Word)
    requires Good(t, memory, g) && rip in t.blockcache.blocks
    ensures FreshStream(memory, g, rip).Some?
    ensures var C := Compile(FreshStream(memory, g, rip).value, rip);
            !C.aborted && t.blockcache.blocks[rip] == C.blocks
  {
    hide FreshStream, Compile;
  }

  /** What the cached loop is proved under. */
  ghost predicate Ready(t: ThreadState, memory: Memory, g: Guards)
    reads t`irlists, t.irlists.Values, t.blockcache, t.backend
  {
    Good(t, memory, g) && AtMostOneBlock(g) && NoneSelfReferential(memory, g)
  }

  /** The loop ended as the cacheless loop ends from `s`, and left the caches coherent. */
  ghost predicate Faithful(
      t: ThreadState, env: Environment, g: Guards, fallback: State -> State, s: State, n: nat, fuel: nat, ended: Ended)
    reads t`irlists, t`cpuState, t.irlists.Values, t.blockcache, t.backend
  {
    && (ended != Crashed ==> Good(t, env.memory, g) && t.cpuState == ended.state)
    && ended == CachelessRun(env, g, fallback, s, n, fuel)
  }

  /**
    `ExecutionThread`, for `n` passes. With the caches it goes through the same
    CPU states as without them, and leaves them coherent.
  */
  method ExecutionThread(t: ThreadState, env: Environment, g: Guards, fallback: State -> State, n: nat, fuel: nat)
    returns (ended: Ended)
    requires t.Valid() && !t.stopRunning
    modifies t`irlists, t`stopRunning, t`cpuState, t.translator, t.translator.builder, t.translator.builder.irList,
             t.blockcache, t.backend
    ensures t.Valid() && (t.Sound() ==> old(t.Sound()))
    ensures old(t.Sound()) && AllFit(env.memory, g, old(t.Capacity())) ==>
              t.Sound() && t.Capacity() == old(t.Capacity())
    ensures t.Sound() && old(Ready(t, env.memory, g)) ==>
              Faithful(t, env, g, fallback, old(t.cpuState), n, fuel, ended)
  {
    hide CachelessStep, CachelessRun, ThreadState.Valid, Good, AllFit, AtMostOneBlock, NoneSelfReferential;
    ghost var good := Ready(t, env.memory, g);
    ended := Running(t.cpuState);
    var i := 0;
    while i < n && ended.Running?
      invariant 0 <= i <= n && t.Valid() && (t.Sound() ==> old(t.Sound())) && (ended.Running? ==> !t.stopRunning)
      invariant old(t.Sound()) && AllFit(env.memory, g, old(t.Capacity())) ==>
                  t.Sound() && t.Capacity() == old(t.Capacity())
      invariant t.Sound() && good ==>
                  CachelessRun(env, g, fallback, old(t.cpuState), n, fuel) ==
                  if ended.Running? then CachelessRun(env, g, fallback, t.cpuState, n - i, fuel) else ended
      invariant t.Sound() && good && ended != Crashed ==> Good(t, env.memory, g) && t.cpuState == ended.state
    {
      CachelessUnfolds(env, g, fallback, t.cpuState, n - i, fuel);
      ended := ExecuteOnce(t, env, g, fallback, fuel);
      i := i + 1;
    }
    CachelessUnfolds(env, g, fallback, t.cpuState, 0, fuel);
  }

  lemma CachelessUnfolds(env: Environment, g: Guards, fallback: State -> State, s: State, n: nat, fuel: nat)
    ensures CachelessRun(env, g, fallback, s, n, fuel) ==
            if n == 0 then Running(s)
            else
              match CachelessStep(env, g, fallback, s, fuel)
              case Running(s') => CachelessRun(env, g, fallback, s', n - 1, fuel)
              case ended => ended
  {
    hide CachelessStep;
  }

  /*** End to end ***/

  lemma FormsArePlain(memory: Memory, g: Guards, start: Word, b: Block)
    requires TranslationOf(memory, g, start) == Translated(b) && OnlyForms(b)
    ensures NoJumps(Assemble(b))
  {
    hide Inspect, Translating, Stream, Translate.Append, Parse, Emit;
    TranslationsAreFromHandlers(memory, g, start, b);
    forall i | 0 <= i < |b.items|
      ensures FragmentOf(b.items[i]).Plain?
    {
      AcceptedInstruction(memory, g, start, i);
      InspectedForm(memory, g, start, b.items[i].rip);
      HandlerIsOfForm(b.items[i], Parse(b.items[i].site.code).value);
      PlainUnlessJump(b.items[i].handler, b.items[i].site);
    }
    StreamNoJumps(b.items);
    if b.rejected.Some? {
      RejectedOnlyCompute(b.rejected.value.handler, b.rejected.value.site);
      AppendNoJumps(Stream(b.items), b.rejected.value);
    }
  }

  lemma PlainUnlessJump(h: Handler, x: Site)
    requires x.size <= MAX_INSTRUCTION && !h.JccOp?
    ensures Emit(h, x).fragment.Plain?
  {
    hide AddFragment, AddImmFragment, AddImmModRMFragment, ShlImmFragment, XorFragment, MovFragment, BTFragment,
         JMPFragment, LEAFragment, CMPFragment, RET_OPS, SYSCALL_OPS, JccFragment;
    AlwaysPlain(x);
  }

  /** A block of the treated forms always compiles. */
  lemma FormsCompile(memory: Memory, g: Guards, start: Word, b: Block)
    requires TranslationOf(memory, g, start) == Translated(b) && OnlyForms(b)
    ensures NoHalfWords(b) && NoSelfReference(b) && !Compile(Assemble(b), start).aborted
  {
    hide TranslationOf, GoodBlock, Emit, Parse, Inspect, IsForm, Compile, Assemble, LoweringProofs.Lowers,
         LoadsHalfWord;
    FormsAreGood(memory, g, start, b);
    TranslationsAreFromHandlers(memory, g, start, b);
    GoodExactlyWhen(b);
    forall i | 0 <= i < |b.items|
      ensures !WritesHalfWord(b.items[i].handler, b.items[i].site)
    {
      AcceptedForm(memory, g, start, b, i);
      FormIsNoHalfWord(b.items[i], Parse(b.items[i].site.code).value);
    }
    BlockCompilesExactlyWhen(b, start);
  }

  lemma AcceptedForm(memory: Memory, g: Guards, start: Word, b: Block, i: nat)
    requires TranslationOf(memory, g, start) == Translated(b) && OnlyForms(b) && i < |b.items|
    ensures IsForm(b.items[i], Parse(b.items[i].site.code).value)
  {
    hide Translating, Emit, Parse, Inspect, IsForm;
    AcceptedInstruction(memory, g, start, i);
    InspectedForm(memory, g, start, b.items[i].rip);
  }

  /**
    From guest bytes to compiled code: one pass of the run loop over a block of
    the treated forms ends in the state that the guest reaches by executing the
    block's instructions one at a time, given enough fuel, and never in another.
  */
  lemma CompiledBlockSimulatesGuest(env: Environment, g: Guards, fallback: State -> State, b: Block, s: State)
    returns (enough: nat)
    requires TranslationOf(env.memory, g, s.rip) == Translated(b) && OnlyForms(b)
    ensures var t := GuestRun(env, s, |b.items|);
            t.Some? && forall fuel: nat ::
              var r := CachelessStep(env, g, fallback, s, fuel);
              r == AfterRun(t.value) || (fuel < enough && r == Crashed)
  {
    hide TranslationOf, Assemble, GuestRun, Compile, GraphRun, Run, NoHalfWords, Parse, Targets, NoSelfReference,
         FromHandlers;
    FormsArePlain(env.memory, g, s.rip, b);
    TranslationsAreFromHandlers(env.memory, g, s.rip, b);
    FormsCompile(env.memory, g, s.rip, b);
    TranslationSimulatesGuest(env, COMPLEMENTED, g, b, s, 0);
    enough := BackendsAgree(env, b, s.rip, s, 0);
    forall fuel: nat
      ensures var r := CachelessStep(env, g, fallback, s, fuel);
              r == AfterRun(GuestRun(env, s, |b.items|).value) || (fuel < enough && r == Crashed)
    {
      var _ := BackendsAgree(env, b, s.rip, s, fuel);
      if fuel >= enough {
        MoreFuel(env, Compile(Assemble(b), s.rip).blocks, 0, 0, map[], s, enough, fuel);
      }
    }
  }
}
