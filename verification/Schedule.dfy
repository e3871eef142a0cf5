/** What a schedule asks for, and what its run makes of it: which calls there are, what they write, which ones fail. */
module Schedule {
  import opened Wrappers
  import opened Fragments
  import opened Allocator
  import opened History
  import opened Multiplex

  /** A call somebody makes: of `Dispatch`, or of `DispatchReader`. */
  datatype Invocation = Invocation(job: Job, viaReader: bool)

  /** The calls made in a schedule, in order. */
  function Asked(steps: seq<Step>): (rs: seq<Invocation>)
  {
    if steps == [] then []
    else
      var n := |steps| - 1;
      Asked(steps[..n]) + (if steps[n].Spawn? then [Invocation(steps[n].job, steps[n].viaReader)] else [])
  }

  /** Each call made is there, in its place, with what it was given; and there are as many as were made. */
  lemma {:induction false} AskedAt(steps: seq<Step>, i: nat)
    requires i < |steps|
    ensures steps[i].Spawn? ==>
              && |Asked(steps[..i])| < |Asked(steps)|
              && Asked(steps)[|Asked(steps[..i])|] == Invocation(steps[i].job, steps[i].viaReader)
    ensures |Asked(steps[..i + 1])| == |Asked(steps[..i])| + if steps[i].Spawn? then 1 else 0
  {
    assert steps[..i + 1][..i] == steps[..i];
    var n := |steps| - 1;
    if i < n {
      AskedAt(steps[..n], i);
      assert steps[..n][..i] == steps[..i];
    } else {
      assert steps[..i + 1] == steps;
    }
  }

  /** Their jobs. */
  function Jobs(steps: seq<Step>): (jobs: seq<Job>)
    ensures |jobs| == |Asked(steps)|
    ensures forall t :: 0 <= t < |jobs| ==> jobs[t] == Asked(steps)[t].job
  {
    var rs := Asked(steps);
    seq(|rs|, t requires 0 <= t < |rs| => rs[t].job)
  }

  /** The status the schedule has set last. */
  function StatusSet(steps: seq<Step>): (status: Status)
  {
    if steps == [] then YetReady
    else
      var n := |steps| - 1;
      if steps[n].SetStatus? then steps[n].status else StatusSet(steps[..n])
  }

  /** The calls are those asked for, and every frame on the wire is of what was asked of its call. */
  ghost predicate AsAsked(rs: seq<Invocation>, s: State)
  {
    && |s.calls| == |rs|
    && (forall t :: 0 <= t < |rs| ==> s.calls[t].job == rs[t].job && s.calls[t].viaReader == rs[t].viaReader)
    && (forall i :: 0 <= i < |s.log| ==> s.log[i].t < |rs| && s.log[i].job == rs[s.log[i].t].job)
  }

  lemma {:induction false} StepAsked(rs: seq<Invocation>, s: State, step: Step, max: nat)
    requires AsAsked(rs, s) && Enabled(s, step)
    ensures AsAsked(rs + (if step.Spawn? then [Invocation(step.job, step.viaReader)] else []), Apply(s, step, max))
  {
    hide IsFinal, JobOk, Search;
  }

  lemma {:induction false} StepSurroundings(s: State, step: Step, max: nat)
    requires Enabled(s, step)
    ensures Apply(s, step, max).status == if step.SetStatus? then step.status else s.status
    ensures Apply(s, step, max).broken <==> s.broken || step == BreakSocket
  {
  }

  lemma {:induction false} CallsAreAsAsked(steps: seq<Step>, max: nat, s: State)
    requires Run(steps, max) == Some(s)
    ensures AsAsked(Asked(steps), s)
    ensures s.status == StatusSet(steps) && (s.broken <==> BreakSocket in steps)
  {
    if steps != [] {
      var n := |steps| - 1;
      var prev := Run(steps[..n], max).value;
      CallsAreAsAsked(steps[..n], max, prev);
      assert steps == steps[..n] + [steps[n]];
      StepAsked(Asked(steps[..n]), prev, steps[n], max);
      StepSurroundings(prev, steps[n], max);
      hide AsAsked, Apply, Enabled;
    }
  }

  // ---------------------------------------------------------------- what a call has written

  /** Which of its fragments call t has put on the wire, in order. */
  function Written(log: seq<Event>, t: nat): (ks: seq<nat>)
  {
    if log == [] then []
    else
      var n := |log| - 1;
      Written(log[..n], t) + (if log[n].t == t then [log[n].k] else [])
  }

  lemma {:induction false} WrittenSnoc(log: seq<Event>, e: Event, t: nat)
    ensures Written(log + [e], t) == Written(log, t) + if e.t == t then [e.k] else []
  {
    assert (log + [e])[..|log|] == log;
  }

  lemma {:induction false} WrittenIsLogged(log: seq<Event>, t: nat, k: nat)
    requires k in Written(log, t)
    ensures exists i :: 0 <= i < |log| && log[i].t == t && log[i].k == k
  {
    var n := |log| - 1;
    if k in Written(log[..n], t) {
      WrittenIsLogged(log[..n], t, k);
      var i :| 0 <= i < n && log[..n][i].t == t && log[..n][i].k == k;
      assert log[i].t == t && log[i].k == k;
    } else {
      assert log[n].t == t && log[n].k == k;
    }
  }

  function UpTo(n: nat): (ks: seq<nat>)
  {
    seq(n, k => k)
  }

  /** What a step writes: one more fragment of the call that copies, unless the socket is broken. */
  lemma {:induction false} StepWrites(s: State, step: Step, t: nat, max: nat)
    requires Enabled(s, step)
    requires t < |s.calls| ==> CallOk(s.calls[t], max)
    ensures var c' := Apply(s, step, max).calls;
            && |s.calls| <= |c'|
            && (t < |s.calls| ==>
                  c'[t].written == s.calls[t].written + (if step == Copy(t) && !s.broken then 1 else 0))
            && (|s.calls| <= t < |c'| ==> c'[t].written == 0)
            && (t < |s.calls| ==>
                  Written(Apply(s, step, max).log, t)
                  == Written(s.log, t) + if step == Copy(t) && !s.broken then [s.calls[t].written] else [])
  {
    hide IsFinal, JobOk, Search, Written;
    if step.Copy? && !s.broken {
      WrittenSnoc(s.log, Event(step.t, s.calls[step.t].sid, s.calls[step.t].job, s.calls[step.t].pc.k), t);
    }
  }

  /** A step of call t fails: it finds no id (which only `Dispatch` heeds), the status wrong, or the socket broken. */
  predicate FailsAt(s: State, step: Step, t: nat, max: nat)
  {
    && t < |s.calls|
    && (|| (step == Allocate(t) && !s.calls[t].viaReader && Search(s.lastStream, s.inUse, max).None?)
        || (step == CheckStatus(t) && s.status != Ready)
        || (step == Copy(t) && s.broken))
  }

  predicate HasFailed(steps: seq<Step>, t: nat, max: nat)
  {
    steps != [] &&
    var n := |steps| - 1;
    || HasFailed(steps[..n], t, max)
    || (Run(steps[..n], max).Some? && FailsAt(Run(steps[..n], max).value, steps[n], t, max))
  }

  /** How far call t has come, if there is such a call. */
  ghost predicate CallSofar(s: State, t: nat, failed: bool)
  {
    && Written(s.log, t) == UpTo(if t < |s.calls| then s.calls[t].written else 0)
    && (t >= |s.calls| ==> !failed)
    && (t < |s.calls| ==> (s.calls[t].pc == Done <==> failed || s.calls[t].written == |s.calls[t].job.frags|))
  }

  predicate IsOf(step: Step, t: nat)
  {
    || step == Start(t) || step == Allocate(t) || step == CheckStatus(t) || step == LockWrite(t)
    || step == LockIds(t) || step == ReleaseId(t) || step == Copy(t)
  }

  lemma {:induction false} OthersStay(s: State, step: Step, t: nat, max: nat)
    requires Enabled(s, step) && t < |s.calls| && !IsOf(step, t)
    ensures Apply(s, step, max).calls[t] == s.calls[t] && !FailsAt(s, step, t, max)
  {
    hide IsFinal, Search;
  }

  lemma {:induction false} OwnStep(s: State, step: Step, t: nat, max: nat)
    requires Enabled(s, step) && t < |s.calls| && CallOk(s.calls[t], max) && IsOf(step, t)
    ensures var c' := Apply(s, step, max).calls[t];
            && s.calls[t].pc != Done && c'.job == s.calls[t].job
            && (c'.pc == Done <==> FailsAt(s, step, t, max) || c'.written == |c'.job.frags|)
  {
    assert s.calls[t].job.frags != [];
    hide IsFinal, Search, JobOk;
  }

  lemma {:induction false} StepReturns(s: State, step: Step, t: nat, failed: bool, max: nat)
    requires Enabled(s, step) && t < |s.calls| && CallOk(s.calls[t], max)
    requires s.calls[t].pc == Done <==> failed || s.calls[t].written == |s.calls[t].job.frags|
    ensures var c' := Apply(s, step, max).calls[t];
            c'.pc == Done <==> failed || FailsAt(s, step, t, max) || c'.written == |c'.job.frags|
  {
    if IsOf(step, t) {
      OwnStep(s, step, t, max);
    } else {
      OthersStay(s, step, t, max);
    }
    hide Apply, Enabled, FailsAt, CallOk;
  }

  /** A call not made yet has written nothing, and starts out so. */
  lemma {:induction false} NewcomersStep(s: State, step: Step, t: nat, max: nat)
    requires Enabled(s, step) && t >= |s.calls|
    requires forall i :: 0 <= i < |s.log| ==> s.log[i].t < |s.calls|
    ensures !FailsAt(s, step, t, max) && Written(Apply(s, step, max).log, t) == Written(s.log, t)
    ensures t < |Apply(s, step, max).calls| ==>
              var c := Apply(s, step, max).calls[t]; c.pc == Begin && c.written == 0 && c.job.frags != []
  {
    hide IsFinal, Search, Written;
    if step.Copy? && !s.broken {
      WrittenSnoc(s.log, Event(step.t, s.calls[step.t].sid, s.calls[step.t].job, s.calls[step.t].pc.k), t);
    }
  }

  lemma {:induction false} StepSofar(s: State, step: Step, t: nat, failed: bool, max: nat)
    requires Enabled(s, step) && CallSofar(s, t, failed)
    requires t < |s.calls| ==> CallOk(s.calls[t], max)
    requires forall i :: 0 <= i < |s.log| ==> s.log[i].t < |s.calls|
    ensures CallSofar(Apply(s, step, max), t, failed || FailsAt(s, step, t, max))
  {
    hide Written, CallOk;
    StepWrites(s, step, t, max);
    if t < |s.calls| {
      StepReturns(s, step, t, failed, max);
      hide Apply, Enabled, FailsAt;
      assert UpTo(s.calls[t].written) + [s.calls[t].written] == UpTo(s.calls[t].written + 1);
    } else {
      NewcomersStep(s, step, t, max);
      hide Apply, Enabled, FailsAt;
    }
  }

  lemma {:induction false} EveryCallSofar(steps: seq<Step>, max: nat, s: State, t: nat)
    requires 1 <= max && Run(steps, max) == Some(s)
    ensures CallSofar(s, t, HasFailed(steps, t, max))
  {
    if steps != [] {
      var n := |steps| - 1;
      var prev := Run(steps[..n], max).value;
      EveryCallSofar(steps[..n], max, prev, t);
      RunKeeps(steps[..n], max);
      CallsAreAsAsked(steps[..n], max, prev);
      hide Apply, Enabled, CallSofar, FailsAt, LocksOk, IdsOk, EarlyReleaseOk, LogOk, CallOk;
      StepSofar(prev, steps[n], t, HasFailed(steps[..n], t, max), max);
    }
  }

  /**
   * What has each call written? Its fragments in order, each once, as many as it counts; and it has returned if and
   * only if it failed or that was all of them.
   */
  lemma {:induction false} WhatCallsWrite(steps: seq<Step>, max: nat, s: State, t: nat)
    requires 1 <= max && Run(steps, max) == Some(s) && t < |s.calls|
    ensures t < |Jobs(steps)| && s.calls[t].job == Jobs(steps)[t]
    ensures Written(s.log, t) == UpTo(s.calls[t].written)
    ensures s.calls[t].pc == Done <==> HasFailed(steps, t, max) || s.calls[t].written == |Jobs(steps)[t].frags|
  {
    EveryCallSofar(steps, max, s, t);
    CallsAreAsAsked(steps, max, s);
    hide Written, HasFailed, Run;
  }

  lemma {:induction false} DoneIsSilent(s: State, step: Step, t: nat, max: nat)
    requires Enabled(s, step) && t < |s.calls| && CallOk(s.calls[t], max) && s.calls[t].pc == Done
    ensures Written(Apply(s, step, max).log, t) == Written(s.log, t)
  {
    StepWrites(s, step, t, max);
  }

  /** The last step of a run; and a call that has failed before it stays as it is. */
  lemma {:induction false} LastStep(steps: seq<Step>, max: nat, s: State, t: nat)
    requires 1 <= max && Run(steps, max) == Some(s) && steps != []
    ensures var n := |steps| - 1;
            && Run(steps[..n], max).Some?
            && (HasFailed(steps[..n], t, max) ==>
                  HasFailed(steps, t, max) && Written(s.log, t) == Written(Run(steps[..n], max).value.log, t))
  {
    var n := |steps| - 1;
    var prev := Run(steps[..n], max).value;
    if HasFailed(steps[..n], t, max) {
      EveryCallSofar(steps[..n], max, prev, t);
      RunKeeps(steps[..n], max);
      hide Apply, Enabled, Written, LocksOk, IdsOk, EarlyReleaseOk, LogOk, CallOk, UpTo;
      DoneIsSilent(prev, steps[n], t, max);
    }
  }

  /** Whatever has failed writes nothing more, however the run goes on. */
  lemma {:induction false} FailedCallsAreSilent(steps: seq<Step>, n: nat, max: nat, s: State, t: nat)
    requires 1 <= max && Run(steps, max) == Some(s) && n <= |steps| && HasFailed(steps[..n], t, max)
    ensures Run(steps[..n], max).Some? && HasFailed(steps, t, max)
    ensures Written(s.log, t) == Written(Run(steps[..n], max).value.log, t)
  {
    if n == |steps| {
      assert steps[..n] == steps;
    } else {
      var m := |steps| - 1;
      hide Run, HasFailed, Written;
      LastStep(steps, max, s, t);
      assert steps[..m][..n] == steps[..n];
      FailedCallsAreSilent(steps[..m], n, max, Run(steps[..m], max).value, t);
    }
  }

  /** A broken socket takes nothing more. */
  lemma {:induction false} NothingAfterTheBreak(steps: seq<Step>, n: nat, max: nat, s: State)
    requires Run(steps, max) == Some(s) && n <= |steps| && BreakSocket in steps[..n]
    ensures Run(steps[..n], max).Some? && s.log == Run(steps[..n], max).value.log
  {
    if n == |steps| {
      assert steps[..n] == steps;
    } else {
      var m := |steps| - 1;
      var prev := Run(steps[..m], max).value;
      assert steps[..m][..n] == steps[..n];
      NothingAfterTheBreak(steps[..m], n, max, prev);
      CallsAreAsAsked(steps[..m], max, prev);
      assert BreakSocket in steps[..m];
      hide AsAsked;
    }
  }

  /**
   * A failed allocation gives no id: `Dispatch` returns, `DispatchReader` goes on to its first status check with id 0;
   * either way the id lock stays taken, no id becomes reserved, and the search will start over.
   */
  lemma {:induction false} FailedAllocation(s: State, t: nat, max: nat)
    requires Inv(s, max) && Enabled(s, Allocate(t)) && Search(s.lastStream, s.inUse, max).None?
    ensures var s', c := Apply(s, Allocate(t), max), s.calls[t];
            && s'.calls[t] == c.(pc := if c.viaReader then Check(0) else Done) && c.sid == 0 && !c.owns
            && s'.idLock == Some(t) == s.idLock && s'.inUse == s.inUse && s'.lastStream == 1
            && (forall u :: 0 <= u < |s.calls| && u != t ==> s'.calls[u] == s.calls[u])
            && Exhausted(s'.calls[t])
            && (c.viaReader && s.status == Ready && s.writeLock == None ==>
                  Enabled(s', CheckStatus(t)) && Enabled(Apply(s', CheckStatus(t), max), LockWrite(t)))
  {
    hide LogOk, IdsOk, EarlyReleaseOk, Search;
    assert CallOk(s.calls[t], max) && HoldsIds(s.calls[t]);
  }
}
