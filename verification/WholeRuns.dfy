/**
  Whole runs of the loop against the guest's own execution: over blocks of the
  treated forms, and with the foreign emulator taking over where nothing is
  translated.
*/
module WholeRuns {
  import opened Words
  import opened Wrappers
  import opened IR
  import opened Machine
  import opened X86Tables
  import opened Decoder
  import opened DecoderRoundTrip
  import opened Handlers
  import opened Translate
  import opened Lowering
  import opened StreamShape
  import opened Simulation
  import opened Encodings
  import opened Builder
  import opened Core
  import opened RunLoop

  /*** Blocks of the treated forms ***/

  /** Every block that `n` passes of the loop reach is of the treated forms. */
  ghost predicate ReachesForms(env: Environment, g: Guards, s: State, n: nat)
    decreases n
  {
    n > 0 ==>
      match TranslationOf(env.memory, g, s.rip)
      case Translated(b) =>
        var t := GuestRun(env, s, |b.items|);
        OnlyForms(b) && (t.Some? && t.value.rip != 0 ==> ReachesForms(env, g, t.value, n - 1))
      case _ => false
  }

  lemma ReachesFormsUnfolds(env: Environment, g: Guards, s: State, n: nat)
    requires n > 0 && ReachesForms(env, g, s, n)
    ensures TranslationOf(env.memory, g, s.rip).Translated?
    ensures var b := TranslationOf(env.memory, g, s.rip).block;
            var t := GuestRun(env, s, |b.items|);
            OnlyForms(b) && |b.items| > 0 && (t.Some? && t.value.rip != 0 ==> ReachesForms(env, g, t.value, n - 1))
  {
    hide GuestRun, OnlyForms, Translating;
  }

  lemma {:induction false} GuestRunsCompose(env: Environment, s: State, m: nat, n: nat)
    requires GuestRun(env, s, m).Some?
    ensures GuestRun(env, s, m + n) == GuestRun(env, GuestRun(env, s, m).value, n)
    decreases m
  {
    hide GuestRun, GuestStep;
    GuestRunUnfolds(env, s, m);
    if m > 0 {
      GuestRunUnfolds(env, s, m + n);
      GuestRunsCompose(env, GuestStep(env, s).value, m - 1, n);
    }
  }

  /**
    Whole runs: while the loop reaches blocks of the treated forms only, it ends
    in a state of the guest's own execution, at least one guest instruction
    further for every pass, given enough fuel, and never in another state.
  */
  lemma {:induction false} RunSimulatesGuest(env: Environment, g: Guards, fallback: State -> State, s: State, n: nat)
    returns (k: nat, enough: nat)
    requires ReachesForms(env, g, s, n)
    ensures var t := GuestRun(env, s, k);
            && t.Some? && (n == 0 ==> k == 0) && (t.value.rip != 0 ==> k >= n)
            && forall fuel: nat ::
                 var r := CachelessRun(env, g, fallback, s, n, fuel);
                 r == (if n == 0 then Running(t.value) else AfterRun(t.value)) || (fuel < enough && r == Crashed)
    decreases n
  {
    hide CachelessRun, CachelessStep, GuestRun, ReachesForms, TranslationOf, OnlyForms;
    GuestRunUnfolds(env, s, 0);
    k, enough := 0, 0;
    if n == 0 {
      forall fuel: nat
        ensures CachelessRun(env, g, fallback, s, n, fuel) == Running(s)
      {
        CachelessUnfolds(env, g, fallback, s, n, fuel);
      }
      return;
    }
    ReachesFormsUnfolds(env, g, s, n);
    var b := TranslationOf(env.memory, g, s.rip).block;
    enough := CompiledBlockSimulatesGuest(env, g, fallback, b, s);
    k := |b.items|;
    var t := GuestRun(env, s, k).value;
    var more, rest := 0, 0;
    if t.rip != 0 {
      more, rest := RunSimulatesGuest(env, g, fallback, t, n - 1);
      GuestRunsCompose(env, s, k, more);
      k := k + more;
    }
    var last := enough;
    enough := if rest > last then rest else last;
    forall fuel: nat
      ensures var r := CachelessRun(env, g, fallback, s, n, fuel);
              r == AfterRun(GuestRun(env, s, k).value) || (fuel < enough && r == Crashed)
    {
      CachelessUnfolds(env, g, fallback, s, n, fuel);
      var first := CachelessStep(env, g, fallback, s, fuel);
      assert first == AfterRun(t) || (fuel < last && first == Crashed);
      if t.rip != 0 {
        var others := CachelessRun(env, g, fallback, t, n - 1, fuel);
      }
    }
  }

  /** A run from `s` that did not crash ended in a state of the guest's own execution. */
  ghost predicate EndsAsGuest(env: Environment, s: State, n: nat, ended: Ended) {
    ended != Crashed ==>
      exists k: nat :: GuestRun(env, s, k) == Some(ended.state) && (ended.Running? ==> k >= n)
  }

  /*** With the foreign emulator ***/

  function Iterate(step: State -> State, s: State, n: nat): State
    decreases n
  {
    if n == 0 then s else Iterate(step, step(s), n - 1)
  }

  lemma {:induction false} IterateTwice(step: State -> State, s: State, m: nat, n: nat)
    ensures Iterate(step, s, m + n) == Iterate(step, Iterate(step, s, m), n)
    decreases m
  {
    if m > 0 {
      IterateTwice(step, step(s), m - 1, n);
    }
  }

  /** The emulator executes one instruction of the guest, at least where that is a treated form. */
  ghost predicate Emulates(env: Environment, fallback: State -> State) {
    forall s: State :: GuestStep(env, s).Some? ==> GuestStep(env, s) == Some(fallback(s))
  }

  lemma {:induction false} GuestRunIsIterated(env: Environment, fallback: State -> State, s: State, n: nat)
    requires Emulates(env, fallback) && GuestRun(env, s, n).Some?
    ensures GuestRun(env, s, n) == Some(Iterate(fallback, s, n))
    decreases n
  {
    hide GuestStep;
    if n > 0 {
      GuestRunIsIterated(env, fallback, fallback(s), n - 1);
    }
  }

  /** How many instructions the next pass of the loop executes, and whether it goes on by itself after them. */
  datatype Pass = Executes(instructions: nat) | LeavesToEmulator | GivesUp

  function NextPass(env: Environment, g: Guards, s: State): Pass {
    match TranslationOf(env.memory, g, s.rip)
    case Translated(b) => Executes(|b.items|)
    case NothingTranslated => LeavesToEmulator
    case UnknownEncoding => GivesUp
  }

  /** The instructions of a pass: the emulator executes one. */
  function Instructions(p: Pass): nat {
    if p.Executes? then p.instructions else 1
  }

  /** In `n` passes of the loop every block that is translated is of the treated forms. */
  ghost predicate OnlyFormsTranslated(env: Environment, g: Guards, fallback: State -> State, s: State, n: nat)
    decreases n
  {
    n > 0 ==>
      var t, look := TranslationOf(env.memory, g, s.rip), NextPass(env, g, s);
      var s' := Iterate(fallback, s, Instructions(look));
      && (t.Translated? ==> OnlyForms(t.block))
      && (s'.rip != 0 && !look.GivesUp? ==> OnlyFormsTranslated(env, g, fallback, s', n - 1))
  }

  /**
    How `n` passes from `s` end: `k` instructions further. If the loop is still
    running that is at least one for every pass; it has stopped only where the
    guest went to address 0 or an encoding was unknown.
  */
  ghost predicate EndsAfter(
      env: Environment, g: Guards, fallback: State -> State, s: State, n: nat, k: nat, ended: Ended)
  {
    match ended
    case Running(t) => t == Iterate(fallback, s, k) && k >= n && if n == 0 then k == 0 else t.rip != 0
    case Stopped(t) =>
      && k > 0 && t == Iterate(fallback, s, k)
      && (t.rip == 0 || NextPass(env, g, Iterate(fallback, s, k - 1)).GivesUp?)
    case Crashed => false
  }

  /** One pass, whoever executes it. */
  lemma PassIsIterated(env: Environment, g: Guards, fallback: State -> State, s: State) returns (enough: nat)
    requires Emulates(env, fallback)
    requires TranslationOf(env.memory, g, s.rip).Translated? ==> OnlyForms(TranslationOf(env.memory, g, s.rip).block)
    ensures var look := NextPass(env, g, s);
            var t := Iterate(fallback, s, Instructions(look));
            && Instructions(look) > 0
            && forall fuel: nat ::
                 var r := CachelessStep(env, g, fallback, s, fuel);
                 || r == (if t.rip == 0 || look.GivesUp? then Stopped(t) else Running(t))
                 || (fuel < enough && r == Crashed)
  {
    hide TranslationOf, OnlyForms, GuestRun, Emulates, Assemble, Compile, GraphRun;
    enough := 0;
    match TranslationOf(env.memory, g, s.rip)
    case Translated(b) =>
      TranslationsAreFromHandlers(env.memory, g, s.rip, b);
      enough := CompiledBlockSimulatesGuest(env, g, fallback, b, s);
      GuestRunIsIterated(env, fallback, s, |b.items|);
    case _ => IterateOnce(fallback, s);
  }

  lemma IterateOnce(step: State -> State, s: State)
    ensures Iterate(step, s, 1) == step(s)
  {
    assert Iterate(step, step(s), 0) == step(s);
  }

  lemma EndsLater(
      env: Environment, g: Guards, fallback: State -> State, s: State, m: nat, n: nat, k: nat, ended: Ended)
    requires n > 0 && m > 0 && EndsAfter(env, g, fallback, Iterate(fallback, s, m), n - 1, k, ended)
    requires Iterate(fallback, s, m).rip != 0
    ensures EndsAfter(env, g, fallback, s, n, m + k, ended)
  {
    hide NextPass, Iterate;
    IterateTwice(fallback, s, m, k);
    if ended.Stopped? {
      IterateTwice(fallback, s, m, k - 1);
      assert m + (k - 1) == m + k - 1;
    }
  }

  /**
    Whole runs: if every block translated is of the treated forms and the emulator
    executes one instruction at a time, `n` passes execute the guest's
    instructions one after the other, translated or not, given enough fuel.
  */
  lemma {:induction false} RunExecutesGuest(env: Environment, g: Guards, fallback: State -> State, s: State, n: nat)
    returns (k: nat, ended: Ended, enough: nat)
    requires Emulates(env, fallback) && OnlyFormsTranslated(env, g, fallback, s, n)
    ensures EndsAfter(env, g, fallback, s, n, k, ended)
    ensures forall fuel: nat ::
              var r := CachelessRun(env, g, fallback, s, n, fuel); r == ended || (fuel < enough && r == Crashed)
    decreases n
  {
    hide CachelessRun, CachelessStep, TranslationOf, NextPass, Emulates, OnlyForms, Iterate;
    k, ended, enough := 0, Running(s), 0;
    if n == 0 {
      IterateNot(fallback, s);
      forall fuel: nat
        ensures CachelessRun(env, g, fallback, s, n, fuel) == Running(s)
      {
        CachelessUnfolds(env, g, fallback, s, n, fuel);
      }
      return;
    }
    enough := PassIsIterated(env, g, fallback, s);
    var look := NextPass(env, g, s);
    var m := Instructions(look);
    var t := Iterate(fallback, s, m);
    var first, rest := enough, 0;
    PassGivesUp(env, g, fallback, s);
    if t.rip == 0 || look.GivesUp? {
      k, ended := m, Stopped(t);
    } else {
      k, ended, rest := RunExecutesGuest(env, g, fallback, t, n - 1);
      EndsLater(env, g, fallback, s, m, n, k, ended);
      k := m + k;
    }
    enough := if rest > first then rest else first;
    forall fuel: nat
      ensures var r := CachelessRun(env, g, fallback, s, n, fuel); r == ended || (fuel < enough && r == Crashed)
    {
      CachelessUnfolds(env, g, fallback, s, n, fuel);
      var r := CachelessStep(env, g, fallback, s, fuel);
      assert r == (if t.rip == 0 || look.GivesUp? then Stopped(t) else Running(t)) || (fuel < first && r == Crashed);
      if r.Running? {
        var others := CachelessRun(env, g, fallback, t, n - 1, fuel);
      }
    }
  }

  lemma IterateNot(step: State -> State, s: State)
    ensures Iterate(step, s, 0) == s
  {
  }

  /** A pass that gives up is one instruction of the emulator. */
  lemma PassGivesUp(env: Environment, g: Guards, fallback: State -> State, s: State)
    ensures NextPass(env, g, s).GivesUp? ==> Instructions(NextPass(env, g, s)) == 1 && Iterate(fallback, s, 0) == s
  {
    hide TranslationOf;
  }

  /*** Where the emulator takes over ***/

  /** PUSH r64: an encoding without a handler, alone in its pass, is executed by the emulator. */
  lemma PushIsEmulated(env: Environment, g: Guards, fallback: State -> State, s: State, r: nat, fuel: nat)
    requires r < 8 && env.memory(s.rip) == 0x50 + r
    ensures CachelessStep(env, g, fallback, s, fuel)
         == if fallback(s).rip == 0 then Stopped(fallback(s)) else Running(fallback(s))
  {
    hide Inspect, WellFormed, Bytes, EntryOf, Fetch, Translating, BytesAt;
    var e := Encoding([], None, false, 0x50 + r, None, None, [], []);
    PushEncoding(r);
    assert BytesAt(env.memory, s.rip, [0x50 + r]) by { OneByteAt(env.memory, s.rip); }
    EncodingDispatches(env.memory, g, s.rip, s.rip, e);
    TranslatingUnfolds(env.memory, g, s.rip, 0, 0);
    assert Add(s.rip, 0) == s.rip;
  }

  lemma OneByteAt(memory: Memory, at: Word)
    ensures BytesAt(memory, at, [memory(at)])
  {
  }

  lemma PushEncoding(r: nat)
    requires r < 8
    ensures var e := Encoding([], None, false, 0x50 + r, None, None, [], []);
            && Bytes(e) == [0x50 + r] && WellFormed(TABLES, e) && EntryOf(TABLES, e) == Inst(IN_BYTE, 0, NoHandler)
  {
    hide BaseOps, ModField, RegField, RmField;
    PushEntries(0x50 + r);
  }

  lemma PushEntries(op: byte)
    ensures 0x50 <= op <= 0x57 ==> BaseOps(op) == Inst(IN_BYTE, 0, NoHandler)
    ensures op == 0x06 ==> BaseOps(op) == UNKNOWN
  {
  }

  /** An opcode of unknown type ends the run: the emulator executes one instruction, and the loop stops. */
  lemma UnknownStops(env: Environment, g: Guards, fallback: State -> State, s: State, fuel: nat)
    requires env.memory(s.rip) == 0x06
    ensures CachelessStep(env, g, fallback, s, fuel) == Stopped(fallback(s))
  {
    hide Fetch, Translating, RegField;
    FirstByte(env.memory, s.rip);
    UnknownDecodes(CodeAt(env.memory, s.rip));
    TranslatingUnfolds(env.memory, g, s.rip, 0, 0);
    assert Add(s.rip, 0) == s.rip;
  }

  lemma UnknownDecodes(code: Code)
    requires code[0] == 0x06
    ensures Decode(TABLES, code).Decoded? && Decode(TABLES, code).info == None
  {
    hide BaseOps, ModField, RmField, RegField;
    PushEntries(0x06);
  }

  /*** The loop with its caches ***/

  /** Empty caches are coherent, and the program's test enables jumps in the block at one address only. */
  lemma NewThreadIsReady(t: ThreadState, memory: Memory)
    requires t.irlists == map[] && t.blockcache.blocks == map[]
    requires t.backend.blockStack == [] && t.backend.blockJumpTargets == map[]
    requires NoneSelfReferential(memory, SOURCE_GUARDS)
    ensures Ready(t, memory, SOURCE_GUARDS)
  {
    hide NoneSelfReferential, FreshStream, IsCodeOf, Compile;
  }

  /** The whole loop, from empty caches and with the program's own address tests. */
  method Start(initial: State, env: Environment, fallback: State -> State, n: nat, fuel: nat)
    returns (t: ThreadState, ended: Ended)
    ensures t.Valid() && (AllFit(env.memory, SOURCE_GUARDS, INITIAL_SIZE) ==> t.Sound())
    ensures t.Sound() && NoneSelfReferential(env.memory, SOURCE_GUARDS) ==>
              Faithful(t, env, SOURCE_GUARDS, fallback, initial, n, fuel, ended)
    ensures t.Sound() && NoneSelfReferential(env.memory, SOURCE_GUARDS)
            && ReachesForms(env, SOURCE_GUARDS, initial, n) ==>
              EndsAsGuest(env, initial, n, ended)
    ensures t.Sound() && NoneSelfReferential(env.memory, SOURCE_GUARDS) && Emulates(env, fallback)
            && OnlyFormsTranslated(env, SOURCE_GUARDS, fallback, initial, n) ==>
              ended == Crashed || exists k :: EndsAfter(env, SOURCE_GUARDS, fallback, initial, n, k, ended)
  {
    hide CachelessRun, NoneSelfReferential, Ready, AllFit, ThreadState.Valid, GuestRun, ReachesForms, Good, Emulates,
         OnlyFormsTranslated, EndsAfter;
    t := new ThreadState(initial);
    if NoneSelfReferential(env.memory, SOURCE_GUARDS) {
      NewThreadIsReady(t, env.memory);
    }
    ended := ExecutionThread(t, env, SOURCE_GUARDS, fallback, n, fuel);
    if ReachesForms(env, SOURCE_GUARDS, initial, n) {
      var k, enough := RunSimulatesGuest(env, SOURCE_GUARDS, fallback, initial, n);
    }
    if Emulates(env, fallback) && OnlyFormsTranslated(env, SOURCE_GUARDS, fallback, initial, n) {
      var k, last, enough := RunExecutesGuest(env, SOURCE_GUARDS, fallback, initial, n);
    }
  }
}
