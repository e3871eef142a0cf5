/**
 * What a schedule of calls without streams asks for, and what its run makes of it: which calls there are, in which
 * order they take the lock, which of them fail, and what is triggered.
 */
module SerialSchedule {
  import opened Wrappers
  import opened Fragments
  import opened Receiver
  import opened Multiplex
  import opened Serial

  /** The jobs of the calls made in a schedule, in order. */
  function Asked(steps: seq<SStep>): (jobs: seq<Job>)
  {
    if steps == [] then []
    else
      var n := |steps| - 1;
      Asked(steps[..n]) + (if steps[n].Arrive? then [steps[n].job] else [])
  }

  /** Each call made is there, in its place, with its job; and there are as many as were made. */
  lemma {:induction false} AskedAt(steps: seq<SStep>, i: nat)
    requires i < |steps|
    ensures steps[i].Arrive? ==>
              |Asked(steps[..i])| < |Asked(steps)| && Asked(steps)[|Asked(steps[..i])|] == steps[i].job
    ensures |Asked(steps[..i + 1])| == |Asked(steps[..i])| + if steps[i].Arrive? then 1 else 0
  {
    assert steps[..i + 1][..i] == steps[..i];
    var n := |steps| - 1;
    if i < n {
      AskedAt(steps[..n], i);
      assert steps[..n][..i] == steps[..i];
    } else {
      assert steps[..i + 1] == steps;
    }
  }

  /** The calls that take the lock, in order. */
  function LocksTaken(steps: seq<SStep>): (ts: seq<nat>)
  {
    if steps == [] then []
    else
      var n := |steps| - 1;
      LocksTaken(steps[..n]) + (if steps[n].TakeLock? then [steps[n].t] else [])
  }

  /** The status the schedule has set last. */
  function StatusSet(steps: seq<SStep>): (status: Status)
  {
    if steps == [] then YetReady
    else
      var n := |steps| - 1;
      if steps[n].NewStatus? then steps[n].status else StatusSet(steps[..n])
  }

  predicate HasJobs(calls: seq<SCall>, jobs: seq<Job>)
  {
    |calls| == |jobs| && forall t :: 0 <= t < |jobs| ==> calls[t].job == jobs[t]
  }

  lemma {:induction false} StepAsked(s: SState, step: SStep, jobs: seq<Job>)
    requires HasJobs(s.calls, jobs) && CanDo(s, step)
    ensures HasJobs(Do(s, step).calls, jobs + (if step.Arrive? then [step.job] else []))
    ensures Do(s, step).order == s.order + (if step.TakeLock? then [step.t] else [])
    ensures Do(s, step).status == if step.NewStatus? then step.status else s.status
    ensures Do(s, step).broken <==> s.broken || step == Break
  {
    hide JobOk, PlainFrame;
  }

  /** The calls are those asked for; lock order, status and socket are as the schedule has them. */
  lemma {:induction false} CallsAreAsAsked(steps: seq<SStep>, s: SState)
    requires Play(steps) == Some(s)
    ensures HasJobs(s.calls, Asked(steps)) && s.order == LocksTaken(steps)
    ensures s.status == StatusSet(steps) && (s.broken <==> Break in steps)
  {
    if steps != [] {
      var n := |steps| - 1;
      var prev := Play(steps[..n]).value;
      CallsAreAsAsked(steps[..n], prev);
      assert steps == steps[..n] + [steps[n]];
      StepAsked(prev, steps[n], Asked(steps[..n]));
      hide Do, CanDo, HasJobs;
    }
  }

  // ---------------------------------------------------------------- calls that fail

  /** Some step of call t fails: it reads a status other than ready, or finds the socket broken. */
  predicate FailsAt(s: SState, step: SStep, t: nat)
  {
    (step == ReadStatus(t) && s.status != Ready) || (step == WriteFrame(t) && s.broken)
  }

  predicate HasFailed(steps: seq<SStep>, t: nat)
  {
    steps != [] &&
    var n := |steps| - 1;
    HasFailed(steps[..n], t) || (Play(steps[..n]).Some? && FailsAt(Play(steps[..n]).value, steps[n], t))
  }

  predicate IsOf(step: SStep, t: nat)
  {
    step == TakeLock(t) || step == ReadStatus(t) || step == WriteFrame(t)
  }

  /** A call has returned if and only if it failed or wrote all its frames. */
  predicate Accounted(s: SState, t: nat, failed: bool)
  {
    && (t >= |s.calls| ==> !failed)
    && (t < |s.calls| ==> (s.calls[t].pc == Returned <==> failed || s.calls[t].written == |s.calls[t].job.frags|))
  }

  lemma {:induction false} OwnStep(s: SState, step: SStep, t: nat)
    requires CanDo(s, step) && t < |s.calls| && SCallOk(s.calls[t]) && IsOf(step, t)
    ensures |Do(s, step).calls| == |s.calls|
    ensures var c' := Do(s, step).calls[t];
            && s.calls[t].pc != Returned && c'.job == s.calls[t].job
            && (c'.pc == Returned <==> FailsAt(s, step, t) || c'.written == |c'.job.frags|)
  {
    assert s.calls[t].job.frags != [];
    hide JobOk, PlainFrame;
  }

  lemma {:induction false} OthersStay(s: SState, step: SStep, t: nat)
    requires CanDo(s, step) && t < |s.calls| && !IsOf(step, t)
    ensures t < |Do(s, step).calls| && Do(s, step).calls[t] == s.calls[t] && !FailsAt(s, step, t)
  {
    hide JobOk, PlainFrame;
  }

  lemma {:induction false} NewcomersStep(s: SState, step: SStep, t: nat)
    requires CanDo(s, step) && t >= |s.calls|
    ensures !FailsAt(s, step, t)
    ensures t < |Do(s, step).calls| ==>
              var c := Do(s, step).calls[t]; c.pc == Waiting && c.written == 0 && JobOk(c.job)
  {
    hide PlainFrame;
  }

  lemma {:induction false} StepAccounted(s: SState, step: SStep, t: nat, failed: bool)
    requires CanDo(s, step) && Accounted(s, t, failed) && (t < |s.calls| ==> SCallOk(s.calls[t]))
    ensures Accounted(Do(s, step), t, failed || FailsAt(s, step, t))
  {
    hide Do, CanDo, SCallOk, FailsAt;
    if t >= |s.calls| {
      NewcomersStep(s, step, t);
    } else if IsOf(step, t) {
      OwnStep(s, step, t);
      assert !failed && s.calls[t].written != |s.calls[t].job.frags|;
    } else {
      OthersStay(s, step, t);
    }
  }

  lemma {:induction false} EveryCallAccounted(steps: seq<SStep>, s: SState, t: nat)
    requires Play(steps) == Some(s)
    ensures Accounted(s, t, HasFailed(steps, t))
  {
    if steps != [] {
      var n := |steps| - 1;
      var prev := Play(steps[..n]).value;
      EveryCallAccounted(steps[..n], prev, t);
      PlayKeeps(steps[..n]);
      hide Do, CanDo, Accounted, FailsAt, SCallOk, OrderOk, Blocks;
      StepAccounted(prev, steps[n], t, HasFailed(steps[..n], t));
    }
  }

  lemma {:induction false} ReturnedStays(s: SState, step: SStep, t: nat)
    requires CanDo(s, step) && t < |s.calls| && s.calls[t].pc == Returned
    ensures t < |Do(s, step).calls| && Do(s, step).calls[t] == s.calls[t]
  {
    hide JobOk, PlainFrame;
  }

  lemma {:induction false} FailedCallsStay(steps: seq<SStep>, n: nat, s: SState, t: nat)
    requires Play(steps) == Some(s) && n <= |steps|
    ensures Play(steps[..n]).Some?
    ensures HasFailed(steps[..n], t) ==>
              && t < |Play(steps[..n]).value.calls| && t < |s.calls| && HasFailed(steps, t)
              && s.calls[t] == Play(steps[..n]).value.calls[t]
  {
    if n == |steps| {
      assert steps[..n] == steps;
      EveryCallAccounted(steps, s, t);
    } else {
      var m := |steps| - 1;
      var prev := Play(steps[..m]).value;
      assert steps[..m][..n] == steps[..n];
      FailedCallsStay(steps[..m], n, prev, t);
      EveryCallAccounted(steps[..m], prev, t);
      if HasFailed(steps[..m], t) {
        ReturnedStays(prev, steps[m], t);
      }
    }
  }

  /** Returned means failed, or written in full; and whatever has failed writes nothing more. */
  lemma {:induction false} WhatCallsWrite(steps: seq<SStep>, n: nat, s: SState, t: nat)
    requires Play(steps) == Some(s) && n <= |steps| && t < |s.calls|
    ensures t < |Asked(steps)| && s.calls[t].job == Asked(steps)[t]
    ensures s.calls[t].pc == Returned <==> HasFailed(steps, t) || s.calls[t].written == |Asked(steps)[t].frags|
    ensures Play(steps[..n]).Some?
    ensures HasFailed(steps[..n], t) ==>
              && t < |Play(steps[..n]).value.calls| && HasFailed(steps, t)
              && s.calls[t] == Play(steps[..n]).value.calls[t]
  {
    CallsAreAsAsked(steps, s);
    EveryCallAccounted(steps, s, t);
    FailedCallsStay(steps, n, s, t);
    hide Play, HasFailed, Asked;
  }

  // ---------------------------------------------------------------- what is triggered, read off what was asked for

  /** What the first w frames of a job say: a control message each, but one close message; or the whole message. */
  function Said(job: Job, w: nat): (ms: seq<Message>)
    requires w <= |job.frags|
  {
    if job.op == 8 then (if w == 0 then [] else [Message(job.op, job.frags[0].payload)])
    else if job.op > 8 then seq(w, k requires 0 <= k < w => Message(job.op, job.frags[k].payload))
    else if w > 0 && w == |job.frags| && job.frags[w - 1].mark == Final then [Message(job.op, Concat(job.frags))]
    else []
  }

  /** How many frames each call has written. */
  function Counts(calls: seq<SCall>): (ws: seq<nat>)
    ensures |ws| == |calls|
  {
    seq(|calls|, t requires 0 <= t < |calls| => calls[t].written)
  }

  predicate Fit(jobs: seq<Job>, ws: seq<nat>, order: seq<nat>)
  {
    && |ws| == |jobs| && (forall t :: 0 <= t < |jobs| ==> ws[t] <= |jobs[t].frags|)
    && forall i :: 0 <= i < |order| ==> order[i] < |jobs|
  }

  predicate Closes(job: Job, w: nat)
  {
    job.op == 8 && w > 0
  }

  /** What the calls say, in lock order, up to a close message. */
  function SaidAll(jobs: seq<Job>, ws: seq<nat>, order: seq<nat>): (ms: seq<Message>)
    requires Fit(jobs, ws, order)
  {
    if order == [] then []
    else
      var t := order[0];
      Said(jobs[t], ws[t]) + (if Closes(jobs[t], ws[t]) then [] else SaidAll(jobs, ws, order[1..]))
  }

  predicate ClosedIn(jobs: seq<Job>, ws: seq<nat>, order: seq<nat>)
    requires Fit(jobs, ws, order)
  {
    order != [] && (Closes(jobs[order[0]], ws[order[0]]) || ClosedIn(jobs, ws, order[1..]))
  }

  lemma {:induction false} SaidSnoc(jobs: seq<Job>, ws: seq<nat>, order: seq<nat>, t: nat)
    requires Fit(jobs, ws, order) && t < |jobs|
    ensures Fit(jobs, ws, order + [t])
    ensures SaidAll(jobs, ws, order + [t])
         == SaidAll(jobs, ws, order) + if ClosedIn(jobs, ws, order) then [] else Said(jobs[t], ws[t])
    ensures ClosedIn(jobs, ws, order + [t]) <==> ClosedIn(jobs, ws, order) || Closes(jobs[t], ws[t])
  {
    hide Said, Closes;
    if order == [] {
      assert order + [t] == [t] && [t][1..] == [];
    } else {
      assert (order + [t])[1..] == order[1..] + [t];
      SaidSnoc(jobs, ws, order[1..], t);
    }
  }

  lemma {:induction false} SaidIsIntended(c: SCall)
    requires SCallOk(c)
    ensures Said(c.job, c.written) == Intended(c)
  {
    ControlMessagesAt(c.job, c.written);
    hide Concat;
  }

  lemma {:induction false} SaidIsMeant(calls: seq<SCall>, jobs: seq<Job>, order: seq<nat>)
    requires forall i :: 0 <= i < |order| ==> order[i] < |calls|
    requires forall t :: 0 <= t < |calls| ==> SCallOk(calls[t])
    requires HasJobs(calls, jobs)
    ensures Fit(jobs, Counts(calls), order)
    ensures SaidAll(jobs, Counts(calls), order) == Meant(calls, order)
    ensures ClosedIn(jobs, Counts(calls), order) <==> AfterCalls(calls, order).stopped
  {
    assert forall t :: 0 <= t < |calls| ==> calls[t].written <= |calls[t].job.frags|;
    if order != [] {
      var n := |order| - 1;
      var t := order[n];
      assert order == order[..n] + [t];
      assert SCallOk(calls[t]);
      hide SCallOk, AfterBlock, Intended, Said, SaidAll, ClosedIn;
      SaidIsMeant(calls, jobs, order[..n]);
      SaidSnoc(jobs, Counts(calls), order[..n], t);
      SaidIsIntended(calls[t]);
      StopsAtClose(AfterCalls(calls, order[..n]), calls[t]);
    }
  }

  // ---------------------------------------------------------------- the main results

  /**
   * Under any number of concurrent callers the wire is the frames of what they asked for, block after block, in the
   * order the write lock was taken; only the last block can still be growing, and its call holds the lock.
   */
  lemma {:induction false} WireIsSerial(steps: seq<SStep>, s: SState)
    requires Play(steps) == Some(s)
    ensures HasJobs(s.calls, Asked(steps)) && s.order == LocksTaken(steps)
    ensures forall i :: 0 <= i < |s.order| ==> s.order[i] < |s.calls|
    ensures forall t :: 0 <= t < |s.calls| ==> SCallOk(s.calls[t])
    ensures s.wire == Blocks(s.calls, s.order)
    ensures forall i, j :: 0 <= i < j < |s.order| ==> s.order[i] != s.order[j]
    ensures forall i :: 0 <= i < |s.order| - 1 ==> s.calls[s.order[i]].pc == Returned
    ensures forall t :: 0 <= t < |s.calls| && Busy(s.calls[t]) ==> s.order != [] && s.order[|s.order| - 1] == t
  {
    assert Played(s);
    PlayedInv(s);
    CallsAreAsAsked(steps, s);
    hide SCallOk, Blocks, Played, Play;
  }

  /** What the handlers see is what was said, if and only if no completed message met the remains of another. */
  lemma {:induction false} SaidIffNothingFound(steps: seq<SStep>, s: SState)
    requires Play(steps) == Some(s)
    ensures forall i :: 0 <= i < |s.order| ==> s.order[i] < |s.calls|
    ensures forall t :: 0 <= t < |s.calls| ==> SCallOk(s.calls[t])
    ensures Fit(Asked(steps), Counts(s.calls), LocksTaken(steps)) && AllCallsOk(InOrder(s.calls, s.order))
    ensures Demux(s.wire).delivered == SaidAll(Asked(steps), Counts(s.calls), LocksTaken(steps))
       <==> NothingFound(InOrder(s.calls, s.order))
  {
    hide SCallOk, AfterCalls, Demux, Meant, NothingFound, Play, Blocks;
    WireIsSerial(steps, s);
    DemuxBlocks(s.calls, s.order);
    SaidIsMeant(s.calls, Asked(steps), s.order);
    MeantIffUndisturbed(s.calls, s.order);
    UndisturbedIffNothingFound(s.calls, s.order);
  }

  /**
   * Non-stream dispatches serialise: if every call that took the lock before the last finished writing its message,
   * the receiver has triggered exactly what was asked for, whole, in the order the write lock was taken.
   */
  lemma {:induction false} DispatchesSerialise(steps: seq<SStep>, s: SState)
    requires Play(steps) == Some(s)
    requires forall i :: 0 <= i < |s.order| - 1 ==>
               s.order[i] < |s.calls| && SCallOk(s.calls[s.order[i]]) && FinishesWriting(s.calls[s.order[i]])
    ensures Fit(Asked(steps), Counts(s.calls), LocksTaken(steps))
    ensures Demux(s.wire).delivered == SaidAll(Asked(steps), Counts(s.calls), LocksTaken(steps))
    ensures Demux(s.wire).pending.Keys <= {0}
  {
    WireIsSerial(steps, s);
    hide SCallOk, FinishesWriting, AfterBlock, Intended, Demux, Play;
    DemuxBlocks(s.calls, s.order);
    OnlyKeyZero(s.calls, s.order);
    SaidIsMeant(s.calls, Asked(steps), s.order);
    MeantIffUndisturbed(s.calls, s.order);
    if s.order != [] {
      FinishedLeavesNothing(s.calls, s.order[..|s.order| - 1]);
    }
  }
}
