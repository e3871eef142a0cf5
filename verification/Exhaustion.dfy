/** Stream ids that never come back: what a failed allocation does for good, and which calls keep their id. */
module Exhaustion {
  import opened Wrappers
  import opened Bytes
  import opened Config
  import opened Frames
  import opened Fragments
  import opened History
  import opened Multiplex
  import opened Multiplexing
  import opened Progress

  /** Nothing keeps this message from its last frame but its own turn: it has released its id, or needs none. */
  predicate PastTheIdLock(c: Call)
  {
    !IsDataCall(c) || EarlyReleased(c) || FinalWritten(c)
  }

  /** Whoever's allocation failed holds the id lock; so nobody is about to release an id. */
  lemma {:induction false} NobodyReleases(s: State, t: nat, max: nat)
    requires Inv(s, max) && t < |s.calls| && Exhausted(s.calls[t])
    ensures s.idLock == Some(t)
    ensures forall u :: 0 <= u < |s.calls| ==> CallOk(s.calls[u], max) && !s.calls[u].pc.IdLocked?
  {
    hide LogOk, IdsOk, EarlyReleaseOk;
    forall u | 0 <= u < |s.calls|
      ensures CallOk(s.calls[u], max) && !s.calls[u].pc.IdLocked?
    {
      assert CallOk(s.calls[u], max) && HoldsIds(s.calls[t]);
    }
  }

  lemma {:induction false} StaysExhausted(s: State, step: Step, t: nat, max: nat)
    requires Enabled(s, step) && t < |s.calls| && Exhausted(s.calls[t])
    ensures t < |Apply(s, step, max).calls| && Exhausted(Apply(s, step, max).calls[t])
  {
    hide IsFinal;
  }

  lemma {:induction false} StaysBehind(s: State, step: Step, u: nat, max: nat)
    requires Enabled(s, step) && u < |s.calls| && CallOk(s.calls[u], max) && !s.calls[u].pc.IdLocked?
    requires !PastTheIdLock(s.calls[u])
    ensures u < |Apply(s, step, max).calls| && !PastTheIdLock(Apply(s, step, max).calls[u])
  {
  }

  lemma {:induction false} NewcomersAreBehind(s: State, step: Step, u: nat, max: nat)
    requires Enabled(s, step)
    ensures |s.calls| <= |Apply(s, step, max).calls|
    ensures |s.calls| <= u < |Apply(s, step, max).calls| ==>
              !IsDataCall(Apply(s, step, max).calls[u]) || !PastTheIdLock(Apply(s, step, max).calls[u])
  {
  }

  /**
   * A failed allocation returns with the id lock held, and nobody ever unlocks it: from then on no further call gets
   * past the id lock, in any continuation.
   */
  lemma {:induction false} ExhaustionIsForever(s: State, step: Step, t: nat, u: nat, max: nat)
    requires 1 <= max && Inv(s, max) && Enabled(s, step)
    requires t < |s.calls| && Exhausted(s.calls[t])
    ensures var s' := Apply(s, step, max);
            && |s.calls| <= |s'.calls| && Exhausted(s'.calls[t]) && s'.idLock == Some(t)
            && (u < |s.calls| && !PastTheIdLock(s.calls[u]) ==> !PastTheIdLock(s'.calls[u]))
            && (|s.calls| <= u < |s'.calls| ==> !IsDataCall(s'.calls[u]) || !PastTheIdLock(s'.calls[u]))
  {
    hide Inv, Apply, Enabled, CallOk, Exhausted, PastTheIdLock;
    NobodyReleases(s, t, max);
    StaysExhausted(s, step, t, max);
    StepKeeps(s, step, max);
    NobodyReleases(Apply(s, step, max), t, max);
    NewcomersAreBehind(s, step, u, max);
    if u < |s.calls| && !PastTheIdLock(s.calls[u]) {
      StaysBehind(s, step, u, max);
    }
  }

  lemma {:induction false} ExhaustedForGood(s: State, steps: seq<Step>, s': State, t: nat, u: nat, max: nat)
    requires 1 <= max && Inv(s, max) && Continues(s, steps, s', max)
    requires t < |s.calls| && Exhausted(s.calls[t])
    requires u < |s.calls| && !PastTheIdLock(s.calls[u])
    ensures t < |s'.calls| && s'.idLock == Some(t)
    ensures u < |s'.calls| && !FinalWritten(s'.calls[u])
    decreases |steps|
  {
    if steps != [] {
      ExhaustionIsForever(s, steps[0], t, u, max);
      hide Inv, Apply, Enabled;
      StepKeeps(s, steps[0], max);
      ExhaustedForGood(Apply(s, steps[0], max), steps[1..], s', t, u, max);
    } else {
      assert HoldsIds(s.calls[t]);
    }
  }

  // ---------------------------------------------------------------- ids that are kept

  lemma {:induction false} DoneStays(s: State, step: Step, t: nat, max: nat)
    requires Enabled(s, step) && t < |s.calls| && s.calls[t].pc == Done
    ensures t < |Apply(s, step, max).calls| && Apply(s, step, max).calls[t] == s.calls[t]
  {
    hide IsFinal;
  }

  lemma {:induction false} DoneForGood(s: State, steps: seq<Step>, s': State, t: nat, max: nat)
    requires 1 <= max && Inv(s, max) && Continues(s, steps, s', max) && t < |s.calls| && s.calls[t].pc == Done
    ensures Inv(s', max) && t < |s'.calls| && s'.calls[t] == s.calls[t]
    decreases |steps|
  {
    if steps != [] {
      hide Inv, Apply, Enabled;
      DoneStays(s, steps[0], t, max);
      StepKeeps(s, steps[0], max);
      DoneForGood(Apply(s, steps[0], max), steps[1..], s', t, max);
    }
  }

  /** The id is reserved, and on behalf of this call. */
  predicate Keeps(s: State, t: nat)
    requires t < |s.calls|
  {
    s.calls[t].owns && s.calls[t].sid in s.inUse
  }

  lemma {:induction false} ReturnedOwner(s: State, max: nat, t: nat)
    requires Inv(s, max) && !s.broken && t < |s.calls|
    requires IsDataCall(s.calls[t]) && s.calls[t].pc == Done && s.calls[t].sid > 0
    ensures Keeps(s, t) <==> !FinalWritten(s.calls[t])
  {
    hide LastOf, Orderly, LocksOk, EarlyReleaseOk, FinalWritten;
    assert CallOk(s.calls[t], max) && LinkOk(s);
  }

  /**
   * A data call that has returned keeps its id exactly when its final frame was not written: when a status check
   * failed, or when it cancelled its message. And what it keeps it keeps in every continuation.
   */
  lemma {:induction false} UnfinishedCallsKeepTheirIds(s: State, steps: seq<Step>, s': State, max: nat, t: nat)
    requires 1 <= max && Reachable(s, max) && !s.broken && t < |s.calls| && Continues(s, steps, s', max)
    requires IsDataCall(s.calls[t]) && s.calls[t].pc == Done && s.calls[t].sid > 0
    ensures Keeps(s, t) <==> !FinalWritten(s.calls[t])
    ensures t < |s'.calls| && s'.calls[t] == s.calls[t]
    ensures Keeps(s', t) <==> Keeps(s, t)
  {
    ReachableInv(s, max);
    ReturnedOwner(s, max, t);
    DoneForGood(s, steps, s', t, max);
    hide LogOk, LocksOk, EarlyReleaseOk, CallOk, FinalWritten, Continues, Reachable, Orderly;
  }

  // ---------------------------------------------------------------- examples

  lemma {:induction false} TwoSpawned(job: Job, max: nat)
    requires JobOk(job)
    ensures var c := Call(job, false, Begin, 0, false, 0);
            Reachable(INITIAL.(calls := [c, c], status := Ready), max)
  {
    hide Reachable;
    StartReachable(max);
    var c, s := Call(job, false, Begin, 0, false, 0), INITIAL.(status := Ready);
    ReachNext(INITIAL, SetStatus(Ready), s, max);
    ReachNext(s, Spawn(job, false), s.(calls := [c]), max);
    ReachNext(s.(calls := [c]), Spawn(job, false), s.(calls := [c, c]), max);
  }

  /** Exhaustion does happen: with MaxStreams 1, a second dispatch while the first is under way. */
  lemma {:induction false} ExhaustionExample(op: byte)
    requires !IsControl(op)
    ensures var c := Call(Job(op, [Frag([], Final)]), false, Begin, 0, false, 0);
            var s := State([c.(pc := Check(0), sid := 1, owns := true), c.(pc := Done)],
                           Some(1), None, 1, {1}, Ready, false, []);
            Reachable(s, 1) && Exhausted(s.calls[1]) && !PastTheIdLock(s.calls[0])
  {
    hide Reachable;
    var c := Call(Job(op, [Frag([], Final)]), false, Begin, 0, false, 0);
    var first, waiting := c.(pc := Check(0), sid := 1, owns := true), c.(pc := Allocating);
    TwoSpawned(c.job, 1);
    var s0 := INITIAL.(calls := [c, c], status := Ready);
    var s1 := s0.(calls := [waiting, c], idLock := Some(0));
    var s2 := s0.(calls := [first, c], lastStream := 1, inUse := {1});
    var s3 := s2.(calls := [first, waiting], idLock := Some(1));
    ReachNext(s0, Start(0), s1, 1);
    ReachNext(s1, Allocate(0), s2, 1);
    ReachNext(s2, Start(1), s3, 1);
    ReachNext(s3, Allocate(1), s3.(calls := [first, c.(pc := Done)]), 1);
  }

  /** With MaxStreams 2: the first call holds id 1, the second has id 2. */
  lemma {:induction false} TwoIdsTaken(c: Call)
    requires c == Call(c.job, false, Begin, 0, false, 0) && JobOk(c.job) && IsDataCall(c)
    ensures Reachable(State([c.(pc := Check(0), sid := 1, owns := true), c.(pc := Check(0), sid := 2, owns := true)],
                            None, None, 2, {1, 2}, Ready, false, []), 2)
  {
    hide Reachable, JobOk;
    var first, second := c.(pc := Check(0), sid := 1, owns := true), c.(pc := Check(0), sid := 2, owns := true);
    var waiting := c.(pc := Allocating);
    TwoSpawned(c.job, 2);
    var s0 := INITIAL.(calls := [c, c], status := Ready);
    var s1 := s0.(calls := [waiting, c], idLock := Some(0));
    var s2 := s0.(calls := [first, c], lastStream := 1, inUse := {1});
    var s3 := s2.(calls := [first, waiting], idLock := Some(1));
    ReachNext(s0, Start(0), s1, 2);
    ReachNext(s1, Allocate(0), s2, 2);
    ReachNext(s2, Start(1), s3, 2);
    ReachNext(s3, Allocate(1), s0.(calls := [first, second], lastStream := 2, inUse := {1, 2}), 2);
  }

  /** The second finishes, so that id 2 is free again. */
  lemma {:induction false} SecondFinishes(first: Call, c: Call)
    requires c.pc == Check(0) && |c.job.frags| == 1 && IsFinal(c, 0) && IsDataCall(c) && c.sid == 2 && c.owns
    requires Reachable(State([first, c], None, None, 2, {1, 2}, Ready, false, []), 2)
    ensures Reachable(State([first, c.(pc := Done, owns := false, written := 1)],
                            None, None, 2, {1}, Ready, false, [Event(1, 2, c.job, 0)]), 2)
  {
    hide Reachable;
    var s0 := State([first, c], None, None, 2, {1, 2}, Ready, false, []);
    var s1 := s0.(calls := [first, c.(pc := Want(0))]);
    var s2 := s0.(calls := [first, c.(pc := Locked(0))], writeLock := Some(1));
    var s3 := s2.(calls := [first, c.(pc := IdLocked(0))], idLock := Some(1));
    var s4 := s2.(calls := [first, c.(pc := Copying(0), owns := false)], inUse := {1});
    ReachNext(s0, CheckStatus(1), s1, 2);
    ReachNext(s1, LockWrite(1), s2, 2);
    ReachNext(s2, LockIds(1), s3, 2);
    assert {1, 2} - {2} == {1};
    ReachNext(s3, ReleaseId(1), s4, 2);
    ReachNext(s4, Copy(1), State([first, c.(pc := Done, owns := false, written := 1)],
                                 None, None, 2, {1}, Ready, false, [Event(1, 2, c.job, 0)]), 2);
  }

  /** A third dispatch is then refused, though id 2 is free: above the cursor there is nothing, and id 1 is taken. */
  lemma {:induction false} FreeIdRefused(op: byte)
    requires !IsControl(op)
    ensures var c := Call(Job(op, [Frag([], Final)]), false, Begin, 0, false, 0);
            var s := State([c.(pc := Check(0), sid := 1, owns := true), c.(pc := Done, sid := 2, written := 1),
                            c.(pc := Done)],
                           Some(2), None, 1, {1}, Ready, false, [Event(1, 2, c.job, 0)]);
            Reachable(s, 2) && Exhausted(s.calls[2]) && 2 !in s.inUse
  {
    hide Reachable;
    var c := Call(Job(op, [Frag([], Final)]), false, Begin, 0, false, 0);
    var first, second := c.(pc := Check(0), sid := 1, owns := true), c.(pc := Done, sid := 2, written := 1);
    TwoIdsTaken(c);
    SecondFinishes(first, c.(pc := Check(0), sid := 2, owns := true));
    var s0 := State([first, second], None, None, 2, {1}, Ready, false, [Event(1, 2, c.job, 0)]);
    var s1 := s0.(calls := [first, second, c]);
    var s2 := s0.(calls := [first, second, c.(pc := Allocating)], idLock := Some(2));
    ReachNext(s0, Spawn(c.job, false), s1, 2);
    ReachNext(s1, Start(2), s2, 2);
    ReachNext(s2, Allocate(2), s2.(calls := [first, second, c.(pc := Done)], lastStream := 1), 2);
  }

  /** With MaxStreams 1: a call on its way to its only frame has given its id back. */
  lemma {:induction false} OneReleases(c: Call, other: Call)
    requires c.pc == Check(0) && |c.job.frags| == 1 && IsFinal(c, 0) && IsDataCall(c) && c.sid == 1 && c.owns
    requires Reachable(State([c, other], None, None, 1, {1}, Ready, false, []), 1)
    ensures Reachable(State([c.(pc := Copying(0), owns := false), other], None, Some(0), 1, {}, Ready, false, []), 1)
  {
    hide Reachable;
    var s0 := State([c, other], None, None, 1, {1}, Ready, false, []);
    var s1 := s0.(calls := [c.(pc := Want(0)), other]);
    var s2 := s0.(calls := [c.(pc := Locked(0)), other], writeLock := Some(0));
    var s3 := s2.(calls := [c.(pc := IdLocked(0)), other], idLock := Some(0));
    ReachNext(s0, CheckStatus(0), s1, 1);
    ReachNext(s1, LockWrite(0), s2, 1);
    ReachNext(s2, LockIds(0), s3, 1);
    assert {1} - {1} == {};
    ReachNext(s3, ReleaseId(0), s2.(calls := [c.(pc := Copying(0), owns := false), other], inUse := {}), 1);
  }

  /** The early release is real: two calls in flight have the same id, one of them about to write its final frame. */
  lemma {:induction false} EarlyReleaseExample(op: byte)
    requires !IsControl(op)
    ensures var c := Call(Job(op, [Frag([], Final)]), false, Check(0), 1, true, 0);
            var s := State([c.(pc := Copying(0), owns := false), c], None, Some(0), 1, {1}, Ready, false, []);
            Reachable(s, 1) && InFlight(s.calls[0]) && InFlight(s.calls[1]) && s.calls[0].sid == s.calls[1].sid
  {
    hide Reachable;
    var c := Call(Job(op, [Frag([], Final)]), false, Begin, 0, false, 0);
    var first, waiting := c.(pc := Check(0), sid := 1, owns := true), c.(pc := Allocating);
    var released := first.(pc := Copying(0), owns := false);
    TwoSpawned(c.job, 1);
    var s0 := INITIAL.(calls := [c, c], status := Ready);
    var s1 := s0.(calls := [waiting, c], idLock := Some(0));
    ReachNext(s0, Start(0), s1, 1);
    ReachNext(s1, Allocate(0), State([first, c], None, None, 1, {1}, Ready, false, []), 1);
    OneReleases(first, c);
    var s2 := State([released, c], None, Some(0), 1, {}, Ready, false, []);
    var s3 := s2.(calls := [released, waiting], idLock := Some(1));
    ReachNext(s2, Start(1), s3, 1);
    ReachNext(s3, Allocate(1), s2.(calls := [released, first], inUse := {1}), 1);
  }

  // ---------------------------------------------------------------- the largest id

  /** All calls have returned, no id is in use, and the cursor is at `last`. */
  function AtRest(calls: seq<Call>, last: nat, log: seq<Event>): (s: State)
  {
    State(calls, None, None, last, {}, Ready, false, log)
  }

  /** One more dispatch takes the next id. */
  lemma {:induction false} NextIdTaken(cs: seq<Call>, last: nat, log: seq<Event>, job: Job, max: nat)
    requires Reachable(AtRest(cs, last, log), max) && last < max && JobOk(job) && !IsControl(job.op)
    ensures var c := Call(job, false, Check(0), last + 1, true, 0);
            Reachable(State(cs + [c], None, None, last + 1, {last + 1}, Ready, false, log), max)
  {
    hide Reachable, JobOk;
    var c := Call(job, false, Begin, 0, false, 0);
    var s0 := AtRest(cs, last, log);
    var s1 := s0.(calls := cs + [c]);
    var s2 := s0.(calls := cs + [c.(pc := Allocating)], idLock := Some(|cs|));
    var s3 := s0.(calls := cs + [c.(pc := Check(0), sid := last + 1, owns := true)], lastStream := last + 1,
                  inUse := {last + 1});
    ReachNext(s0, Spawn(job, false), s1, max);
    ReachNext(s1, Start(|cs|), s2, max);
    ReachNext(s2, Allocate(|cs|), s3, max);
  }

  /** And gives it back with its only frame. */
  lemma {:induction false} LastCallFinishes(cs: seq<Call>, c: Call, log: seq<Event>, max: nat)
    requires c.pc == Check(0) && |c.job.frags| == 1 && IsFinal(c, 0) && IsDataCall(c) && c.owns
    requires Reachable(State(cs + [c], None, None, c.sid, {c.sid}, Ready, false, log), max)
    ensures Reachable(AtRest(cs + [c.(pc := Done, owns := false, written := 1)], c.sid,
                             log + [Event(|cs|, c.sid, c.job, 0)]), max)
  {
    hide Reachable;
    var t := |cs|;
    var s0 := State(cs + [c], None, None, c.sid, {c.sid}, Ready, false, log);
    var s1 := s0.(calls := cs + [c.(pc := Want(0))]);
    var s2 := s0.(calls := cs + [c.(pc := Locked(0))], writeLock := Some(t));
    var s3 := s2.(calls := cs + [c.(pc := IdLocked(0))], idLock := Some(t));
    var s4 := s2.(calls := cs + [c.(pc := Copying(0), owns := false)], inUse := {});
    ReachNext(s0, CheckStatus(t), s1, max);
    ReachNext(s1, LockWrite(t), s2, max);
    ReachNext(s2, LockIds(t), s3, max);
    assert {c.sid} - {c.sid} == {};
    ReachNext(s3, ReleaseId(t), s4, max);
    ReachNext(s4, Copy(t), AtRest(cs + [c.(pc := Done, owns := false, written := 1)], c.sid,
                                  log + [Event(t, c.sid, c.job, 0)]), max);
  }

  /** So any id up to the limit comes to be used, one dispatch after the other. */
  lemma {:induction false} EveryIdIsUsed(job: Job, n: nat, max: nat)
    requires n <= max && |job.frags| == 1 && job.frags[0].mark == Final && !IsControl(job.op)
    ensures exists cs, log :: Reachable(AtRest(cs, n, log), max)
                              && (n > 0 ==> log != [] && log[|log| - 1] == Event(|log| - 1, n, job, 0))
                              && |cs| == |log|
  {
    if n == 0 {
      StartReachable(max);
      hide Reachable;
      ReachNext(INITIAL, SetStatus(Ready), AtRest([], 0, []), max);
    } else {
      hide Reachable;
      EveryIdIsUsed(job, n - 1, max);
      var cs, log :| Reachable(AtRest(cs, n - 1, log), max) && |cs| == |log|;
      NextIdTaken(cs, n - 1, log, job, max);
      var c := Call(job, false, Check(0), n, true, 0);
      LastCallFinishes(cs, c, log, max);
      var cs', log' := cs + [c.(pc := Done, owns := false, written := 1)], log + [Event(|cs|, n, job, 0)];
      assert Reachable(AtRest(cs', n, log'), max) && log'[|log'| - 1] == Event(|log'| - 1, n, job, 0);
    }
  }

  /**
   * The limit `setup` admits is too large by one: with MaxStreams 32768 there is a run, without any failure on this
   * side, that hands out id 32768 and so makes the peer stop.
   */
  lemma {:induction false} LargestIdIsHandedOut(op: byte)
    requires !IsControl(op)
    ensures Settled(Settings(true, MAX_STREAMS_IN_THEORY, DEFAULT_CHUNK_SIZE, DEFAULT_BUFFER_SIZE, false, None))
    ensures exists s :: && Reachable(s, MAX_STREAMS_IN_THEORY) && !s.broken && AllOk(s.log)
                        && (exists i :: 0 <= i < |s.log| && s.log[i].sid == MAX_STREAMS_IN_THEORY)
                        && Halted(s.log)
  {
    var job := Job(op, [Frag([], Final)]);
    EveryIdIsUsed(job, MAX_STREAMS_IN_THEORY, MAX_STREAMS_IN_THEORY);
    hide Reachable;
    var cs, log :| && Reachable(AtRest(cs, MAX_STREAMS_IN_THEORY, log), MAX_STREAMS_IN_THEORY)
                   && log != [] && log[|log| - 1] == Event(|log| - 1, MAX_STREAMS_IN_THEORY, job, 0);
    var s := AtRest(cs, MAX_STREAMS_IN_THEORY, log);
    ReachableInv(s, MAX_STREAMS_IN_THEORY);
    assert HaltsReceiver(s.log[|s.log| - 1]);
  }
}
