/** Deadlock freedom of the stream-mode locks, and what a failed allocation does to it. */
module Progress {
  import opened Wrappers
  import opened History
  import opened Multiplex
  import opened Multiplexing

  /** The call a step belongs to; None for steps of the surroundings. */
  function Mover(step: Step): (t: Option<nat>)
  {
    match step
    case Spawn(_, _) => None
    case SetStatus(_) => None
    case BreakSocket => None
    case Start(t) => Some(t)
    case Allocate(t) => Some(t)
    case CheckStatus(t) => Some(t)
    case LockWrite(t) => Some(t)
    case LockIds(t) => Some(t)
    case ReleaseId(t) => Some(t)
    case Copy(t) => Some(t)
  }

  /** The step a call would take next. */
  function NextStep(c: Call, t: nat): (step: Step)
    requires c.pc != Done
    ensures Mover(step) == Some(t)
  {
    match c.pc
    case Begin => Start(t)
    case Allocating => Allocate(t)
    case Check(_) => CheckStatus(t)
    case Want(_) => LockWrite(t)
    case Locked(_) => LockIds(t)
    case IdLocked(_) => ReleaseId(t)
    case Copying(_) => Copy(t)
  }

  ghost predicate NoneExhausted(s: State)
  {
    forall t :: 0 <= t < |s.calls| ==> !Exhausted(s.calls[t])
  }

  ghost predicate CanMove(s: State)
  {
    exists t :: 0 <= t < |s.calls| && s.calls[t].pc != Done && Enabled(s, NextStep(s.calls[t], t))
  }

  lemma {:induction false} SomeoneMoves(s: State, u: nat)
    requires LocksOk(s) && NoneExhausted(s)
    requires u < |s.calls| && s.calls[u].pc != Done
    ensures CanMove(s)
  {
    if s.idLock.Some? {
      var t := s.idLock.value;
      assert HoldsIds(s.calls[t]) && Enabled(s, NextStep(s.calls[t], t));
    } else if s.writeLock.Some? {
      var t := s.writeLock.value;
      assert HoldsWrite(s.calls[t]) && Enabled(s, NextStep(s.calls[t], t));
    } else {
      assert Enabled(s, NextStep(s.calls[u], u));
    }
  }

  /** As long as no allocation has failed, an unfinished call means that some call can take a step. */
  lemma {:induction false} NoDeadlock(s: State, max: nat, u: nat)
    requires 1 <= max && Reachable(s, max) && NoneExhausted(s)
    requires u < |s.calls| && s.calls[u].pc != Done
    ensures CanMove(s)
  {
    hide CanMove, NoneExhausted, Orderly, LogOk, IdsOk, EarlyReleaseOk, CallOk, LocksOk;
    ReachableInv(s, max);
    SomeoneMoves(s, u);
  }

  /** The lock order: who waits for the write lock holds neither lock; so it is never taken twice. */
  lemma {:induction false} LockOrder(s: State, max: nat, t: nat)
    requires 1 <= max && Reachable(s, max) && t < |s.calls| && s.calls[t].pc.Want?
    ensures s.writeLock != Some(t)
    ensures s.idLock == Some(t) <==> Exhausted(s.calls[t])
  {
    ReachableInv(s, max);
    hide LogOk, IdsOk, EarlyReleaseOk;
  }

  /**
   * Control messages take no part in any of this: a control call holds nothing, has no id, and until it has returned
   * can always take its next step, whoever holds the locks, even after a failed allocation.
   */
  lemma {:induction false} ControlNeverWaits(s: State, max: nat, t: nat)
    requires 1 <= max && Reachable(s, max) && t < |s.calls| && s.calls[t].job.op >= 8
    ensures s.calls[t].sid == 0 && !s.calls[t].owns && s.writeLock != Some(t) && s.idLock != Some(t)
    ensures s.calls[t].pc != Done ==> Enabled(s, NextStep(s.calls[t], t))
  {
    ReachableInv(s, max);
    hide LogOk, IdsOk, EarlyReleaseOk, Reachable;
    assert CallOk(s.calls[t], max);
  }

  /** Every reserved id belongs to a data call that has not written its final frame. */
  lemma {:induction false} ReservedIdsAreUsed(s: State, max: nat, id: nat)
    requires 1 <= max && Reachable(s, max) && id in s.inUse
    ensures exists t :: 0 <= t < |s.calls| && s.calls[t].owns && s.calls[t].sid == id
                        && s.calls[t].job.op < 8 && !FinalWritten(s.calls[t])
  {
    ReachableInv(s, max);
    hide LogOk, LocksOk, EarlyReleaseOk, Reachable;
    var t :| 0 <= t < |s.calls| && s.calls[t].owns && s.calls[t].sid == id;
    assert CallOk(s.calls[t], max);
  }

  /** Nothing but a lock somebody holds ever keeps a call from its next step. */
  lemma {:induction false} OnlyLocksBlock(s: State, max: nat, t: nat)
    requires 1 <= max && Reachable(s, max) && t < |s.calls| && s.calls[t].pc != Done
    ensures var c := s.calls[t];
            !Enabled(s, NextStep(c, t)) <==>
              || (c.pc == Begin && c.job.op < 8 && s.idLock.Some?)
              || (c.pc.Want? && s.writeLock.Some?)
              || (c.pc.Locked? && s.idLock.Some?)
  {
  }

  // ---------------------------------------------------------------- termination

  /** A bound on the steps a call still has to take. */
  function Rank(c: Call): (r: nat)
  {
    var n := |c.job.frags|;
    var left := match c.pc {
      case Begin => 6 * n + 2
      case Allocating => 6 * n + 1
      case Check(k) => 6 * (n - k)
      case Want(k) => 6 * (n - k) - 1
      case Locked(k) => 6 * (n - k) - 2
      case IdLocked(k) => 6 * (n - k) - 3
      case Copying(k) => 6 * (n - k) - 4
      case Done => 0
    };
    if left < 0 then 0 else left
  }

  function Ranks(calls: seq<Call>): (rs: seq<nat>)
    ensures |rs| == |calls|
  {
    seq(|calls|, t requires 0 <= t < |calls| => Rank(calls[t]))
  }

  function Total(calls: seq<Call>): (r: nat)
  {
    Sum(Ranks(calls))
  }

  lemma {:induction false} TotalPut(calls: seq<Call>, t: nat, c: Call)
    requires t < |calls|
    ensures Total(calls[t := c]) == Total(calls) - Rank(calls[t]) + Rank(c)
  {
    hide Rank, Sum;
    SumPut(Ranks(calls), t, Rank(c));
    assert Ranks(calls[t := c]) == Ranks(calls)[t := Rank(c)];
  }

  lemma {:induction false} TotalSnoc(calls: seq<Call>, c: Call)
    ensures Total(calls + [c]) == Total(calls) + Rank(c)
  {
    hide Rank, Sum;
    SumSnoc(Ranks(calls), Rank(c));
    assert Ranks(calls + [c]) == Ranks(calls) + [Rank(c)];
  }

  /** A call that moves only changes its own program counter and loses at least one from its bound. */
  lemma {:induction false} CallStepDecreases(s: State, step: Step, t: nat, max: nat)
    requires Enabled(s, step) && Mover(step) == Some(t) && (t < |s.calls| ==> CallOk(s.calls[t], max))
    ensures t < |s.calls| && |Apply(s, step, max).calls| == |s.calls|
    ensures Apply(s, step, max).calls == s.calls[t := Apply(s, step, max).calls[t]]
    ensures Rank(Apply(s, step, max).calls[t]) < Rank(s.calls[t])
  {
    hide FinalWritten, EarlyReleased;
  }

  /** Steps from a given state on. */
  ghost predicate Continues(s: State, steps: seq<Step>, s': State, max: nat)
    decreases |steps|
  {
    if steps == [] then s' == s
    else Enabled(s, steps[0]) && Continues(Apply(s, steps[0], max), steps[1..], s', max)
  }

  /** How many steps of a schedule calls take. */
  function Moves(steps: seq<Step>): (n: nat)
  {
    if steps == [] then 0 else (if Mover(steps[0]).Some? then 1 else 0) + Moves(steps[1..])
  }

  /** What a step adds to the work ahead: the fragments of a new call. */
  function Added(step: Step): (n: nat)
  {
    match step
    case Spawn(job, viaReader) => Rank(Call(job, viaReader, Begin, 0, false, 0))
    case _ => 0
  }

  function Budget(steps: seq<Step>): (n: nat)
  {
    if steps == [] then 0 else Added(steps[0]) + Budget(steps[1..])
  }

  lemma {:induction false} TotalStep(s: State, step: Step, max: nat)
    requires Inv(s, max) && Enabled(s, step)
    ensures Total(Apply(s, step, max).calls) + Moves([step]) <= Total(s.calls) + Added(step)
  {
    hide Rank, Total, LogOk, LocksOk, IdsOk, EarlyReleaseOk, CallOk;
    assert Moves([step]) == (if Mover(step).Some? then 1 else 0) + Moves([step][1..]);
    if Mover(step).Some? {
      var t := Mover(step).value;
      CallStepDecreases(s, step, t, max);
      TotalPut(s.calls, t, Apply(s, step, max).calls[t]);
    } else if step.Spawn? {
      TotalSnoc(s.calls, Call(step.job, step.viaReader, Begin, 0, false, 0));
    }
  }

  /**
   * Under any schedule, whatever else happens in between, the calls take at most as many steps as their fragments
   * allow, those of calls that arrive meanwhile included.
   */
  lemma {:induction false} CallsComeToAnEnd(s: State, steps: seq<Step>, s': State, max: nat)
    requires 1 <= max && Inv(s, max) && Continues(s, steps, s', max)
    ensures Moves(steps) + Total(s'.calls) <= Total(s.calls) + Budget(steps)
    decreases |steps|
  {
    if steps != [] {
      hide Inv, Apply, Enabled, Rank, Total, Added, Mover;
      var next := Apply(s, steps[0], max);
      TotalStep(s, steps[0], max);
      assert Moves([steps[0]]) == (if Mover(steps[0]).Some? then 1 else 0) + Moves([steps[0]][1..]);
      StepKeeps(s, steps[0], max);
      CallsComeToAnEnd(next, steps[1..], s', max);
    }
  }

  /** No call can take a step. */
  ghost predicate Stuck(s: State)
  {
    forall step :: Mover(step).Some? ==> !Enabled(s, step)
  }

  ghost predicate AllReturned(s: State)
  {
    forall t :: 0 <= t < |s.calls| ==> s.calls[t].pc == Done
  }

  /** So a schedule that goes on as long as it can, with no failed allocation, ends with every call returned. */
  lemma {:induction false} StuckIffReturned(s: State, max: nat)
    requires 1 <= max && Reachable(s, max) && NoneExhausted(s)
    ensures Stuck(s) <==> AllReturned(s)
  {
    hide Reachable, NoneExhausted;
    if !AllReturned(s) {
      var u :| 0 <= u < |s.calls| && s.calls[u].pc != Done;
      NoDeadlock(s, max, u);
      var t :| 0 <= t < |s.calls| && s.calls[t].pc != Done && Enabled(s, NextStep(s.calls[t], t));
      assert Mover(NextStep(s.calls[t], t)).Some?;
    }
  }

  lemma {:induction false} ContinuesFrom(s: State, step: Step, steps: seq<Step>, s': State, max: nat)
    requires Enabled(s, step) && Mover(step).Some? && Continues(Apply(s, step, max), steps, s', max)
    ensures Continues(s, [step] + steps, s', max) && Moves([step] + steps) == 1 + Moves(steps)
  {
    hide Apply, Enabled, Mover;
    assert ([step] + steps)[1..] == steps;
  }

  lemma {:induction false} NextIsCloser(s: State, step: Step, max: nat)
    requires 1 <= max && Inv(s, max) && Enabled(s, step) && Mover(step).Some?
    ensures Inv(Apply(s, step, max), max) && Total(Apply(s, step, max).calls) < Total(s.calls)
  {
    hide Inv, Apply, Enabled, Total;
    TotalStep(s, step, max);
    StepKeeps(s, step, max);
    assert Moves([step]) == 1 + Moves([step][1..]) && Added(step) == 0;
  }

  /** And from every reachable state the calls alone can bring it to such an end. */
  lemma {:induction false} SomeScheduleEnds(s: State, max: nat)
    requires 1 <= max && Inv(s, max)
    ensures exists steps, s' :: Continues(s, steps, s', max) && Moves(steps) == |steps| && Stuck(s')
    decreases Total(s.calls)
  {
    hide Inv, Apply, Enabled, Total, Mover;
    if Stuck(s) {
      assert Continues(s, [], s, max) && Moves([]) == 0;
    } else {
      var step :| Mover(step).Some? && Enabled(s, step);
      hide Stuck;
      NextIsCloser(s, step, max);
      SomeScheduleEnds(Apply(s, step, max), max);
      var steps, s' :| Continues(Apply(s, step, max), steps, s', max) && Moves(steps) == |steps| && Stuck(s');
      ContinuesFrom(s, step, steps, s', max);
    }
  }
}
