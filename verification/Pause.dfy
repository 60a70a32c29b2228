/**
  The pause protocol between a thread that maps memory on all threads and the
  others, as a system of atomic steps: any number of threads, in any order.
*/
module Pause {
  import opened Wrappers

  /**
    Where a thread is. A thread executes blocks; after each it may see the pause
    flag, announce itself, spin until the flag is cleared, and take itself off
    the count. A system call inside a block may map memory: set the flag, wait
    until all others are counted, map, clear the flag.
  */
  datatype Place = Executing | Announcing | Spinning | Leaving | Awaiting | Mapping | Exited

  datatype System = System(places: seq<Place>, pauseThreads: bool, numThreadsPaused: nat)

  datatype Action =
    | RunBlock | SeePause | Increment | SeeClear | Decrement | SetPause | SeeAllPaused | MapOne | ClearPause | Exit

  datatype Move = Move(thread: nat, action: Action)

  function Act(s: System, m: Move): Option<System> {
    if m.thread >= |s.places| then None
    else
      var i := m.thread;
      match (s.places[i], m.action)
      case (Executing, RunBlock) => Some(s)
      case (Executing, Exit) => Some(s.(places := s.places[i := Exited]))
      case (Executing, SeePause) => if s.pauseThreads then Some(s.(places := s.places[i := Announcing])) else None
      case (Announcing, Increment) =>
        Some(s.(places := s.places[i := Spinning], numThreadsPaused := s.numThreadsPaused + 1))
      case (Spinning, SeeClear) => if s.pauseThreads then None else Some(s.(places := s.places[i := Leaving]))
      case (Leaving, Decrement) =>
        if s.numThreadsPaused == 0 then None
        else Some(s.(places := s.places[i := Executing], numThreadsPaused := s.numThreadsPaused - 1))
      case (Executing, SetPause) => Some(s.(places := s.places[i := Awaiting], pauseThreads := true))
      case (Awaiting, SeeAllPaused) =>
        if s.numThreadsPaused == |s.places| - 1 then Some(s.(places := s.places[i := Mapping])) else None
      case (Mapping, MapOne) => Some(s)
      case (Mapping, ClearPause) => Some(s.(places := s.places[i := Executing], pauseThreads := false))
      case _ => None
  }

  function Play(s: System, moves: seq<Move>): Option<System>
    decreases |moves|
  {
    if moves == [] then Some(s)
    else
      match Act(s, moves[0])
      case None => None
      case Some(s') => Play(s', moves[1..])
  }

  lemma PlayFirst(s: System, m: Move, rest: seq<Move>)
    ensures Play(s, [m] + rest) == if Act(s, m).None? then None else Play(Act(s, m).value, rest)
  {
    assert ([m] + rest)[1..] == rest;
  }

  /*** The count ***/

  predicate Between(p: Place) { p == Spinning || p == Leaving }

  /** The threads between their increment and their decrement. */
  function Paused(places: seq<Place>): nat {
    if places == [] then 0
    else Paused(places[..|places| - 1]) + if Between(places[|places| - 1]) then 1 else 0
  }

  predicate Counted(s: System) {
    s.numThreadsPaused == Paused(s.places)
  }

  lemma {:induction false} PausedUpdate(places: seq<Place>, i: nat, p: Place)
    requires i < |places|
    ensures Paused(places[i := p]) + (if Between(places[i]) then 1 else 0)
         == Paused(places) + (if Between(p) then 1 else 0)
  {
    var n := |places| - 1;
    if i == n {
      assert places[i := p][..n] == places[..n];
    } else {
      assert places[i := p][..n] == places[..n][i := p];
      PausedUpdate(places[..n], i, p);
    }
  }

  /** In every run, the counter is the number of threads between increment and decrement. */
  lemma {:induction false} CountIsExact(s: System, moves: seq<Move>)
    requires Counted(s)
    ensures Play(s, moves).Some? ==> Counted(Play(s, moves).value) && |Play(s, moves).value.places| == |s.places|
    decreases |moves|
  {
    if moves != [] && Act(s, moves[0]).Some? {
      ActCounts(s, moves[0]);
      CountIsExact(Act(s, moves[0]).value, moves[1..]);
    }
  }

  lemma ActCounts(s: System, m: Move)
    requires Counted(s) && Act(s, m).Some?
    ensures Counted(Act(s, m).value) && |Act(s, m).value.places| == |s.places|
  {
    var s' := Act(s, m).value;
    PausedUpdate(s.places, m.thread, s'.places[m.thread]);
    assert s'.places == s.places[m.thread := s'.places[m.thread]];
  }

  /** Decrementing never goes below zero: a thread that leaves is counted. */
  lemma DecrementIsPossible(s: System, i: nat)
    requires Counted(s) && i < |s.places| && s.places[i] == Leaving
    ensures Act(s, Move(i, Decrement)).Some?
  {
    PausedUpdate(s.places, i, Executing);
  }

  /** How many of the threads are neither spinning nor leaving. */
  lemma {:induction false} PausedBound(places: seq<Place>, out: set<nat>)
    requires forall i :: i in out ==> i < |places| && !Between(places[i])
    ensures Paused(places) + |out| <= |places|
    decreases |places|
  {
    if places == [] {
      assert out == {};
    } else {
      var n := |places| - 1;
      var rest := out - {n};
      PausedBound(places[..n], rest);
      if n in out {
        assert out == rest + {n};
      } else {
        assert out == rest;
      }
    }
  }

  /** When the count is all threads but one, every thread but the waiting one is counted. */
  lemma AllOthersCounted(places: seq<Place>, m: nat)
    requires m < |places| && !Between(places[m]) && Paused(places) == |places| - 1
    ensures forall i :: 0 <= i < |places| && i != m ==> Between(places[i])
  {
    forall i | 0 <= i < |places| && i != m
      ensures Between(places[i])
    {
      if !Between(places[i]) {
        PausedBound(places, {m, i});
      }
    }
  }

  /** When the wait ends, the others all spin exactly when none of them is on its way out. */
  lemma WaitEndsSafelyExactlyWhen(s: System, m: nat)
    requires Counted(s) && m < |s.places| && s.places[m] == Awaiting && Act(s, Move(m, SeeAllPaused)).Some?
    ensures (forall i :: 0 <= i < |s.places| && i != m ==> s.places[i] == Spinning) <==> Leaving !in s.places
  {
    AllOthersCounted(s.places, m);
    forall i | 0 <= i < |s.places| && Leaving !in s.places && i != m
      ensures s.places[i] == Spinning
    {
      assert s.places[i] in s.places;
    }
  }

  /*** One round ***/

  /** A round of mapper `m` that began with nobody on the way out. */
  ghost predicate InRound(s: System, m: nat) {
    && Counted(s) && m < |s.places| && s.pauseThreads
    && (s.places[m] == Awaiting || s.places[m] == Mapping)
    && (forall i :: 0 <= i < |s.places| && i != m ==>
          s.places[i] == Executing || s.places[i] == Announcing || s.places[i] == Spinning || s.places[i] == Exited)
    && (s.places[m] == Mapping ==> forall i :: 0 <= i < |s.places| && i != m ==> s.places[i] == Spinning)
  }

  /** No step of these begins or ends a round. */
  predicate WithinRound(moves: seq<Move>) {
    forall k :: 0 <= k < |moves| ==> moves[k].action != ClearPause && moves[k].action != SetPause
  }

  lemma StaysInRound(s: System, m: nat, move: Move)
    requires InRound(s, m) && Act(s, move).Some?
    requires move.action != ClearPause && move.action != SetPause
    ensures InRound(Act(s, move).value, m)
  {
    ActCounts(s, move);
    if move.action == SeeAllPaused {
      AllOthersCounted(s.places, m);
    }
  }

  /**
    One round with one mapper, begun with nobody on the way out: from the end of its
    wait until it clears the flag, every other thread is in its spin loop.
  */
  lemma {:induction false} QuietWhileMapping(s: System, m: nat, moves: seq<Move>)
    requires InRound(s, m)
    requires WithinRound(moves)
    requires Play(s, moves).Some?
    ensures var t := Play(s, moves).value;
            InRound(t, m) && (t.places[m] == Mapping ==>
              forall i :: 0 <= i < |t.places| && i != m ==> t.places[i] == Spinning)
    decreases |moves|
  {
    if moves != [] {
      StaysInRound(s, m, moves[0]);
      QuietWhileMapping(Act(s, moves[0]).value, m, moves[1..]);
    }
  }

  /** Setting the flag begins such a round if nobody is on the way out and nobody else maps. */
  lemma RoundBegins(s: System, m: nat)
    requires Counted(s) && m < |s.places| && s.places[m] == Executing && Leaving !in s.places
    requires forall i :: 0 <= i < |s.places| ==> s.places[i] != Awaiting && s.places[i] != Mapping
    ensures Act(s, Move(m, SetPause)).Some? && InRound(Act(s, Move(m, SetPause)).value, m)
  {
    ActCounts(s, Move(m, SetPause));
    forall i | 0 <= i < |s.places|
      ensures s.places[i] != Leaving
    {
      assert s.places[i] in s.places;
    }
  }

  /** While the mapper maps, no other thread can take any step: none of them runs a block. */
  lemma OthersCannotMove(s: System, m: nat, move: Move)
    requires InRound(s, m) && s.places[m] == Mapping && move.thread != m
    ensures Act(s, move).None?
  {
  }

  /*** Which rounds are safe ***/

  ghost predicate OthersSpin(s: System, m: nat) {
    forall i :: 0 <= i < |s.places| && i != m ==> s.places[i] == Spinning
  }

  /** However the round goes on, the mapper only maps while all others spin. */
  ghost predicate SafeRound(s: System, m: nat)
    requires m < |s.places|
  {
    forall moves :: WithinRound(moves) && Play(s, moves).Some? ==>
      var t := Play(s, moves).value;
      m < |t.places| && (t.places[m] == Mapping ==> OthersSpin(t, m))
  }

  /** A thread that is not counted while the round lasts: the mapper waits for it in vain. */
  predicate Blocks(p: Place) { p == Exited || p == Awaiting || p == Mapping }

  lemma {:induction false} BlockedWait(s: System, m: nat, other: nat, moves: seq<Move>)
    requires Counted(s) && m < |s.places| && other < |s.places| && m != other
    requires s.places[m] == Awaiting && Blocks(s.places[other]) && WithinRound(moves)
    ensures Play(s, moves).Some? ==>
              var t := Play(s, moves).value; |t.places| == |s.places| && t.places[m] == Awaiting
    decreases |moves|
  {
    if moves != [] && Act(s, moves[0]).Some? {
      assert moves[0].action != ClearPause && moves[0].action != SetPause;
      ActCounts(s, moves[0]);
      PausedBound(s.places, {m, other});
      BlockedWait(Act(s, moves[0]).value, m, other, moves[1..]);
    }
  }

  lemma {:induction false} AllCounted(places: seq<Place>, m: nat)
    requires m < |places| && !Between(places[m])
    requires forall i :: 0 <= i < |places| && i != m ==> Between(places[i])
    ensures Paused(places) == |places| - 1
  {
    var n := |places| - 1;
    if m < n {
      AllCounted(places[..n], m);
    } else {
      EveryoneCounted(places[..n]);
    }
  }

  lemma {:induction false} EveryoneCounted(places: seq<Place>)
    requires forall i :: 0 <= i < |places| ==> Between(places[i])
    ensures Paused(places) == |places|
  {
    if places != [] {
      EveryoneCounted(places[..|places| - 1]);
    }
  }

  /**
    A schedule: from thread `i` on, everyone who executes sees the flag, announces
    itself and spins, the leaving threads do nothing, and the mapper's wait ends.
  */
  lemma {:induction false} WaitCanEnd(s: System, m: nat, i: nat) returns (moves: seq<Move>)
    requires Counted(s) && s.pauseThreads && m < |s.places| && s.places[m] == Awaiting && i <= |s.places|
    requires forall k :: 0 <= k < |s.places| && k != m ==> !Blocks(s.places[k]) && (k < i ==> Between(s.places[k]))
    ensures WithinRound(moves) && Play(s, moves).Some?
    ensures var t := Play(s, moves).value;
            && |t.places| == |s.places| && t.places[m] == Mapping
            && forall k :: 0 <= k < |s.places| && s.places[k] == Leaving ==> t.places[k] == Leaving
    decreases |s.places| - i
  {
    if i == |s.places| {
      var seen := Move(m, SeeAllPaused);
      AllCounted(s.places, m);
      moves := [seen] + [];
      PlayFirst(s, seen, []);
    } else if i == m || Between(s.places[i]) {
      moves := WaitCanEnd(s, m, i + 1);
    } else if s.places[i] == Announcing {
      var counted := Move(i, Increment);
      ActCounts(s, counted);
      var rest := WaitCanEnd(Act(s, counted).value, m, i + 1);
      moves := [counted] + rest;
      PlayFirst(s, counted, rest);
    } else {
      var see, counted := Move(i, SeePause), Move(i, Increment);
      ActCounts(s, see);
      var s' := Act(s, see).value;
      ActCounts(s', counted);
      var rest := WaitCanEnd(Act(s', counted).value, m, i + 1);
      moves := [see] + ([counted] + rest);
      PlayFirst(s', counted, rest);
      PlayFirst(s, see, [counted] + rest);
    }
  }

  /**
    The round a thread begins by setting the flag is safe exactly when, at that
    moment, nobody is on the way out, or some other thread keeps the wait from
    ending at all.
  */
  lemma RoundIsSafeExactlyWhen(s: System, m: nat)
    requires Counted(s) && m < |s.places| && s.places[m] == Executing
    ensures SafeRound(Act(s, Move(m, SetPause)).value, m)
            <==> Leaving !in s.places || exists i :: 0 <= i < |s.places| && Blocks(s.places[i])
  {
    var begin := Move(m, SetPause);
    ActCounts(s, begin);
    var s' := Act(s, begin).value;
    if i :| 0 <= i < |s.places| && Blocks(s.places[i]) {
      forall moves | WithinRound(moves) && Play(s', moves).Some?
        ensures var t := Play(s', moves).value; m < |t.places| && t.places[m] == Awaiting
      {
        BlockedWait(s', m, i, moves);
      }
    } else if Leaving !in s.places {
      RoundBegins(s, m);
      forall moves | WithinRound(moves) && Play(s', moves).Some?
        ensures var t := Play(s', moves).value; m < |t.places| && (t.places[m] == Mapping ==> OthersSpin(t, m))
      {
        QuietWhileMapping(s', m, moves);
      }
    } else {
      var l :| 0 <= l < |s.places| && s.places[l] == Leaving;
      var moves := WaitCanEnd(s', m, 0);
      assert s'.places[l] == Leaving;
    }
  }

  /*** Between rounds ***/

  /** Nobody announces itself, and only threads of `spinning` spin. */
  ghost predicate Draining(s: System, spinning: set<nat>) {
    !s.pauseThreads && forall i :: 0 <= i < |s.places| ==>
      s.places[i] != Announcing && (s.places[i] == Spinning ==> i in spinning)
  }

  /** Once the flag is clear and nobody is announcing itself, no thread joins the spinning ones until it is set. */
  lemma {:induction false} NobodyJoins(s: System, spinning: set<nat>, moves: seq<Move>)
    requires Draining(s, spinning) && forall k :: 0 <= k < |moves| ==> moves[k].action != SetPause
    ensures Play(s, moves).Some? ==> Draining(Play(s, moves).value, spinning)
    decreases |moves|
  {
    if moves != [] && Act(s, moves[0]).Some? {
      assert moves[0].action != SetPause;
      NobodyJoins(Act(s, moves[0]).value, spinning, moves[1..]);
    }
  }

  /** And a spinning thread can always leave, count itself off and go on. */
  lemma SpinnerGoesOn(s: System, i: nat)
    requires Counted(s) && !s.pauseThreads && i < |s.places| && s.places[i] == Spinning
    ensures var r := Play(s, [Move(i, SeeClear), Move(i, Decrement)]);
            && r.Some? && r.value.places == s.places[i := Executing]
            && r.value.numThreadsPaused == s.numThreadsPaused - 1
  {
    var leave, off := Move(i, SeeClear), Move(i, Decrement);
    ActCounts(s, leave);
    var s' := Act(s, leave).value;
    DecrementIsPossible(s', i);
    assert [leave, off] == [leave] + ([off] + []);
    PlayFirst(s, leave, [off] + []);
    PlayFirst(s', off, []);
  }

  /*** Rounds that begin too early, and rounds that never end ***/

  /** Two threads; the second has seen the flag cleared but has not decremented yet. */
  const LATE := System([Executing, Leaving], false, 1)

  lemma PlayStep(s: System, m: Move, t: System, rest: seq<Move>, last: System)
    requires Act(s, m) == Some(t) && Play(t, rest) == Some(last)
    ensures Play(s, [m] + rest) == Some(last)
  {
    PlayFirst(s, m, rest);
  }

  lemma PlayNothing(s: System)
    ensures Play(s, []) == Some(s)
  {
  }

  lemma TwoThreads(a: Place, b: Place, c: Place)
    ensures [a, b][0 := c] == [c, b] && [a, b][1 := c] == [a, c]
  {
  }

  /** A round of the first thread leads there, from both threads executing. */
  lemma LateIsReachable()
    ensures var moves := [ Move(0, SetPause), Move(1, SeePause), Move(1, Increment), Move(0, SeeAllPaused),
                           Move(0, ClearPause), Move(1, SeeClear) ];
            Play(System([Executing, Executing], false, 0), moves) == Some(LATE)
  {
    hide Play;
    var m0, m1, m2 := Move(0, SetPause), Move(1, SeePause), Move(1, Increment);
    var m3, m4, m5 := Move(0, SeeAllPaused), Move(0, ClearPause), Move(1, SeeClear);
    var s0 := System([Executing, Executing], false, 0);
    var s1, s2 := System([Awaiting, Executing], true, 0), System([Awaiting, Announcing], true, 0);
    var s3, s4 := System([Awaiting, Spinning], true, 1), System([Mapping, Spinning], true, 1);
    var s5 := System([Executing, Spinning], false, 1);
    TwoThreads(Executing, Executing, Awaiting);
    TwoThreads(Awaiting, Executing, Announcing);
    TwoThreads(Awaiting, Announcing, Spinning);
    TwoThreads(Awaiting, Spinning, Mapping);
    TwoThreads(Mapping, Spinning, Executing);
    TwoThreads(Executing, Spinning, Leaving);
    PlayNothing(LATE);
    PlayStep(s5, m5, LATE, [], LATE);
    PlayStep(s4, m4, s5, [m5] + [], LATE);
    PlayStep(s3, m3, s4, [m4] + ([m5] + []), LATE);
    PlayStep(s2, m2, s3, [m3] + ([m4] + ([m5] + [])), LATE);
    PlayStep(s1, m1, s2, [m2] + ([m3] + ([m4] + ([m5] + []))), LATE);
    PlayStep(s0, m0, s1, [m1] + ([m2] + ([m3] + ([m4] + ([m5] + [])))), LATE);
    assert [m0, m1, m2, m3, m4, m5] == [m0] + ([m1] + ([m2] + ([m3] + ([m4] + ([m5] + [])))));
  }

  /** From there the first thread maps while the second runs a block. */
  lemma LateLeaverRunsDuringMapping()
    ensures Counted(LATE)
    ensures var moves := [Move(0, SetPause), Move(0, SeeAllPaused), Move(1, Decrement), Move(1, RunBlock)];
            var t := Play(LATE, moves);
            t.Some? && t.value.places[0] == Mapping && t.value.places[1] == Executing
  {
    var m0, m1, m2, m3 := Move(0, SetPause), Move(0, SeeAllPaused), Move(1, Decrement), Move(1, RunBlock);
    var s1 := Act(LATE, m0).value;
    var s2 := Act(s1, m1).value;
    var s3 := Act(s2, m2).value;
    assert [m0, m1, m2, m3] == [m0] + [m1, m2, m3];
    assert [m1, m2, m3] == [m1] + [m2, m3] && [m2, m3] == [m2] + [m3] && [m3] == [m3] + [];
    PlayFirst(LATE, m0, [m1, m2, m3]);
    PlayFirst(s1, m1, [m2, m3]);
    PlayFirst(s2, m2, [m3]);
    PlayFirst(s3, m3, []);
    assert LATE.places[..1] == [Executing];
  }

  /** A thread that will never be counted again. */
  predicate NeverCounts(p: Place) { p == Awaiting || p == Exited }

  /**
    A mapper waits forever once another thread maps too or has exited: in every
    run both stay where they are.
  */
  lemma {:induction false} WaitsForever(s: System, m: nat, other: nat, moves: seq<Move>)
    requires Counted(s) && m < |s.places| && other < |s.places| && m != other
    requires s.places[m] == Awaiting && NeverCounts(s.places[other])
    ensures Play(s, moves).Some? ==>
              var t := Play(s, moves).value;
              && |t.places| == |s.places|
              && t.places[m] == Awaiting && t.places[other] == s.places[other]
    decreases |moves|
  {
    if moves != [] && Act(s, moves[0]).Some? {
      ActCounts(s, moves[0]);
      PausedBound(s.places, {m, other});
      WaitsForever(Act(s, moves[0]).value, m, other, moves[1..]);
    }
  }
}
