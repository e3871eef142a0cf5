/** What holds in every run of the stream-mode protocol. */
module Multiplexing {
  import opened Wrappers
  import opened Bytes
  import opened Frames
  import opened Fragments
  import opened Receiver
  import opened History
  import opened Multiplex
  import opened Schedule

  /** A state some schedule leads to. */
  ghost predicate Reachable(s: State, max: nat)
  {
    exists steps :: Run(steps, max) == Some(s)
  }

  lemma {:induction false} OrderlyOf(s: State, max: nat)
    requires Inv(s, max)
    ensures Orderly(s.log)
  {
    hide CallOk, LocksOk, IdsOk, EarlyReleaseOk, LinkOk, Orderly, LastOf;
  }

  lemma {:induction false} ReachableInv(s: State, max: nat)
    requires 1 <= max && Reachable(s, max)
    ensures Inv(s, max) && Orderly(s.log) && AllOk(s.log)
  {
    hide Inv;
    var steps :| Run(steps, max) == Some(s);
    RunKeeps(steps, max);
    OrderlyOf(s, max);
    OrderlyOk(s.log);
  }

  lemma {:induction false} ReachNext(s: State, step: Step, next: State, max: nat)
    requires Reachable(s, max) && Enabled(s, step)
    requires next.calls == Apply(s, step, max).calls && next == Apply(s, step, max).(calls := next.calls)
    ensures Reachable(next, max)
  {
    hide Apply, Enabled;
    var steps :| Run(steps, max) == Some(s);
    assert (steps + [step])[..|steps|] == steps;
    assert Run(steps + [step], max) == Some(Apply(s, step, max));
  }

  lemma {:induction false} StartReachable(max: nat)
    ensures Reachable(INITIAL, max)
  {
    assert Run([], max) == Some(INITIAL);
  }

  lemma {:induction false} LogMatches(jobs: seq<Job>, log: seq<Event>, n: nat)
    requires AllOk(log) && n <= |log|
    requires forall i :: 0 <= i < |log| ==> log[i].t < |jobs| && log[i].job == jobs[log[i].t]
    ensures AllOk(log[..n]) && JobsMatch(jobs, log[..n])
  {
    forall i | 0 <= i < n
      ensures MatchesAt(jobs, log[..n][i])
    {
      assert EventOk(log[i]);
    }
  }

  /** What a schedule leads to is reachable, and made of what it asked for. */
  lemma {:induction false} RunFacts(steps: seq<Step>, s: State, max: nat, n: nat)
    requires 1 <= max && Run(steps, max) == Some(s) && n <= |s.log|
    ensures Reachable(s, max) && Orderly(s.log[..n]) && AllOk(s.log) && AllOk(s.log[..n])
    ensures JobsMatch(Jobs(steps), s.log[..n])
  {
    assert Reachable(s, max);
    hide Run, Inv, Orderly, Asked;
    CallsAreAsAsked(steps, max, s);
    hide Reachable;
    ReachableInv(s, max);
    OrderlyPrefix(s.log, n);
    LogMatches(Jobs(steps), s.log, n);
  }

  /**
   * For any number of concurrent calls and any schedule, however much of the wire the receiver has consumed: it has
   * triggered exactly the messages, of those the schedule asked for, whose last frame it saw (up to the frame that
   * stops it), in the order of those frames, with their types and whole payloads; and its pending map holds, for each
   * message begun and not finished, under its id, exactly the frames received of it, and nothing else.
   */
  lemma {:induction false} MultiplexingIsCorrect(steps: seq<Step>, s: State, max: nat, n: nat)
    requires 1 <= max && Run(steps, max) == Some(s) && n <= |s.log|
    ensures AllOk(s.log[..n]) && JobsMatch(Jobs(steps), s.log[..n])
    ensures var jobs, log, r := Jobs(steps), s.log[..n], Demux(WireOf(s.log[..n]));
            && r.delivered == Served(jobs, log)
            && (r.stopped <==> exists i :: 0 <= i < n && EndsService(jobs[log[i].t], log[i].sid))
            && (!r.stopped ==> PendingExact(r.pending, LastOf(log)))
  {
    RunFacts(steps, s, max, n);
    hide Run, Served, Expected, Orderly, EndsService;
    DemuxIsCorrect(s.log[..n]);
    ServedIsExpected(Jobs(steps), s.log[..n]);
  }

  lemma {:induction false} OnTheWire(s: State, max: nat, t: nat)
    requires 1 <= max && Reachable(s, max) && !s.broken && t < |s.calls|
    ensures var c, last := s.calls[t], LastOf(s.log);
            && JobOk(c.job) && c.written <= |c.job.frags|
            && (t in last <==> c.written > 0)
            && (t in last ==> last[t] == Event(t, c.sid, c.job, c.written - 1))
  {
    ReachableInv(s, max);
    hide LastOf, Orderly;
    assert LinkOk(s) && CallOk(s.calls[t], max);
  }

  lemma {:induction false} UnfinishedOwns(s: State, max: nat, t: nat)
    requires 1 <= max && Reachable(s, max) && !s.broken && t < |s.calls|
    requires IsDataCall(s.calls[t]) && s.calls[t].sid > 0 && !FinalWritten(s.calls[t])
    ensures s.calls[t].owns || (EarlyReleased(s.calls[t]) && s.writeLock == Some(t))
  {
    ReachableInv(s, max);
    hide LastOf, Orderly, CallOk, IdsOk, EarlyReleaseOk, FinalWritten;
    assert LinkOk(s);
  }

  /** Whatever is on the wire was written by one of the calls. */
  lemma {:induction false} WrittenByCalls(s: State, max: nat, t: nat)
    requires 1 <= max && Reachable(s, max) && t in LastOf(s.log)
    ensures t < |s.calls|
  {
    ReachableInv(s, max);
    hide LastOf, Orderly, CallOk, IdsOk, EarlyReleaseOk, LocksOk, LinkOk;
  }

  /** Of the messages open on the wire, each is that of a call which still owns the id, or is about to finish. */
  lemma {:induction false} OpenMessagesAreOwned(s: State, max: nat, t: nat)
    requires 1 <= max && Reachable(s, max) && !s.broken
    requires t in LastOf(s.log) && Open(LastOf(s.log)[t]) && LastOf(s.log)[t].sid > 0
    ensures t < |s.calls|
    ensures LastOf(s.log)[t].sid == s.calls[t].sid
    ensures s.calls[t].owns || (EarlyReleased(s.calls[t]) && s.writeLock == Some(t))
  {
    hide Reachable, LastOf, EarlyReleased;
    WrittenByCalls(s, max, t);
    OnTheWire(s, max, t);
    UnfinishedOwns(s, max, t);
  }

  /**
   * Id ownership survives the early release: between two frames of one message no frame of another message carries
   * its id, in any reachable state.
   */
  lemma {:induction false} OwnershipSurvivesEarlyRelease(s: State, max: nat, i: nat, j: nat, k: nat)
    requires 1 <= max && Reachable(s, max)
    requires i < j < k < |s.log| && IsData(s.log[i]) && IsData(s.log[j])
    requires s.log[i].t == s.log[k].t && s.log[i].sid == s.log[j].sid
    ensures s.log[j].t == s.log[i].t
  {
    ReachableInv(s, max);
    NoInterleaving(s.log, i, j, k);
  }

  /** In flight: past its allocation, not returned. */
  predicate InFlight(c: Call)
  {
    Writing(c) && c.sid > 0
  }

  /**
   * Two calls in flight have different ids, except in the one window the early release opens: then the one that
   * released the id holds the write lock for its last frame, and the other has not written anything.
   */
  lemma {:induction false} InFlightIdsDistinct(s: State, max: nat, t: nat, u: nat)
    requires 1 <= max && Reachable(s, max)
    requires t < u < |s.calls| && InFlight(s.calls[t]) && InFlight(s.calls[u]) && s.calls[t].sid == s.calls[u].sid
    ensures || (EarlyReleased(s.calls[t]) && s.writeLock == Some(t) && s.calls[u].owns && s.calls[u].written == 0)
            || (EarlyReleased(s.calls[u]) && s.writeLock == Some(u) && s.calls[t].owns && s.calls[t].written == 0)
  {
    ReachableInv(s, max);
    hide LogOk, Orderly;
    assert CallOk(s.calls[t], max) && CallOk(s.calls[u], max);
    assert EarlyReleased(s.calls[t]) ==> HoldsWrite(s.calls[t]);
    assert EarlyReleased(s.calls[u]) ==> HoldsWrite(s.calls[u]);
  }

  // ---------------------------------------------------------------- when everything is delivered

  /** Only these can stop the receiver: a close message, a frame of a call that got no id, and the id 32768. */
  lemma {:induction false} WhatStopsTheReceiver(s: State, max: nat, i: nat)
    requires 1 <= max <= MAX_STREAMS_IN_THEORY && Reachable(s, max) && !s.broken && i < |s.log|
    ensures AllOk(s.log)
    ensures HaltsReceiver(s.log[i]) <==>
              || s.log[i].job.op == CLOSE_OP
              || (IsData(s.log[i]) && (s.log[i].sid == 0 || s.log[i].sid == MAX_STREAMS_IN_THEORY))
    ensures s.log[i].t < |s.calls|
    ensures IsData(s.log[i]) && s.log[i].sid == 0 ==> Exhausted(s.calls[s.log[i].t])
  {
    ReachableInv(s, max);
    Advances(s.log, i);
    OrderlyLast(s.log);
    hide LastOf, Orderly;
    var c := s.calls[s.log[i].t];
    assert LinkOk(s) && CallOk(c, max);
    assert c.written > 0 && c.sid == s.log[i].sid && c.job == s.log[i].job;
  }

  lemma {:induction false} BoundedIds(s: State, max: nat, i: nat)
    requires 1 <= max && Reachable(s, max) && !s.broken && i < |s.log|
    ensures s.log[i].sid <= max
  {
    ReachableInv(s, max);
    Advances(s.log, i);
    hide LastOf, Orderly;
    assert LinkOk(s) && CallOk(s.calls[s.log[i].t], max);
  }

  lemma {:induction false} CompletedIffFinal(s: State, max: nat, t: nat)
    requires 1 <= max && Reachable(s, max) && !s.broken && t < |s.calls|
    ensures AllOk(s.log)
    ensures Completions(s.log, t) == if FinalWritten(s.calls[t]) then 1 else 0
  {
    hide Inv, LastOf, Orderly, Completions, Reachable;
    ReachableInv(s, max);
    CompletedExactlyOnce(s.log, t);
    OnTheWire(s, max, t);
  }

  lemma {:induction false} NothingEndsService(steps: seq<Step>, s: State, max: nat, i: nat)
    requires 1 <= max < MAX_STREAMS_IN_THEORY && Run(steps, max) == Some(s) && !s.broken && i < |s.log|
    requires forall t :: 0 <= t < |s.calls| ==> !Exhausted(s.calls[t])
    requires forall t :: 0 <= t < |Jobs(steps)| ==> Jobs(steps)[t].op != CLOSE_OP
    ensures s.log[i].t < |Jobs(steps)| && !EndsService(Jobs(steps)[s.log[i].t], s.log[i].sid)
  {
    CallsAreAsAsked(steps, max, s);
    assert Reachable(s, max);
    hide Run, Reachable, Exhausted;
    WhatStopsTheReceiver(s, max, i);
    BoundedIds(s, max, i);
  }

  /**
   * With MaxStreams at most 32767, no failed allocation and no close message asked for, the receiver never stops, and
   * it has triggered every message that was written in full, once, in wire order.
   */
  lemma {:induction false} EverythingIsDelivered(steps: seq<Step>, s: State, max: nat)
    requires 1 <= max < MAX_STREAMS_IN_THEORY && Run(steps, max) == Some(s) && !s.broken
    requires forall t :: 0 <= t < |s.calls| ==> !Exhausted(s.calls[t])
    requires forall t :: 0 <= t < |Jobs(steps)| ==> Jobs(steps)[t].op != CLOSE_OP
    ensures AllOk(s.log) && JobsMatch(Jobs(steps), s.log)
    ensures Demux(WireOf(s.log)).delivered == AllTold(Jobs(steps), s.log)
    ensures forall t :: 0 <= t < |s.calls| && IsDataCall(s.calls[t]) ==>
              Completions(s.log, t) == if FinalWritten(s.calls[t]) then 1 else 0
  {
    RunFacts(steps, s, max, |s.log|);
    assert s.log[..|s.log|] == s.log;
    forall i | 0 <= i < |s.log|
      ensures !EndsService(Jobs(steps)[s.log[i].t], s.log[i].sid)
    {
      NothingEndsService(steps, s, max, i);
    }
    hide Run, Reachable, EndsService, FinalWritten, Exhausted, Orderly, Completions, Jobs;
    MultiplexingIsCorrect(steps, s, max, |s.log|);
    ServedUnlessEnded(Jobs(steps), s.log);
    forall t | 0 <= t < |s.calls| && IsDataCall(s.calls[t])
      ensures Completions(s.log, t) == if FinalWritten(s.calls[t]) then 1 else 0
    {
      CompletedIffFinal(s, max, t);
    }
  }

  // ---------------------------------------------------------------- Dispatch and DispatchReader

  function DispatchJob(op: byte, p: seq<byte>, limit: nat): (job: Job)
    requires limit > 0
  {
    Job(op, SplitSpec(p, limit))
  }

  function ReaderJob(op: byte, rs: seq<ReadResult>): (job: Job)
  {
    Job(op, ReaderFrags(rs))
  }

  /** Both kinds of call are calls of the step system, once the source of a `DispatchReader` has ended. */
  lemma {:induction false} JobsAreOk(op: byte, p: seq<byte>, limit: nat, rs: seq<ReadResult>)
    requires limit > 0
    ensures JobOk(DispatchJob(op, p, limit))
    ensures HowEnded(rs) != NoError ==> JobOk(ReaderJob(op, rs))
  {
    SplitIsPartition(p, limit);
    if rs != [] {
      ReaderFragsFacts(rs);
    }
  }

  lemma {:induction false} DispatchIsTold(op: byte, p: seq<byte>, limit: nat, k: nat)
    requires limit > 0 && !IsControl(op) && k < |SplitSpec(p, limit)|
    ensures Told(DispatchJob(op, p, limit), k) == if (k + 1) * limit >= |p| then [Message(op, p)] else []
  {
    hide SplitSpec, Concat, ChunkCount;
    SplitIsPartition(p, limit);
    SplitAt(p, limit, k);
    ChunkOfRest(|p|, limit, k);
    Times(k, k, limit);
  }

  lemma {:induction false} ReaderIsTold(op: byte, rs: seq<ReadResult>, k: nat)
    requires !IsControl(op) && k < |ReaderFrags(rs)|
    ensures k < |rs|
    ensures Told(ReaderJob(op, rs), k)
         == if rs[k].end == AtEof then [Message(op, Flatten(Data(rs[..k + 1])))] else []
  {
    hide ReaderFrags, Concat, Flatten;
    ReaderFragsAt(rs);
    ReaderFragsFacts(rs);
    DataReadIs(rs);
  }

  /**
   * A data message is triggered at its last chunk with exactly the bytes handed to `Dispatch`; or at the read that
   * reports EOF, with exactly what was read up to then. No other of its frames triggers anything.
   */
  lemma {:induction false} PayloadsSurvive(op: byte, p: seq<byte>, limit: nat, rs: seq<ReadResult>, k: nat)
    requires limit > 0 && !IsControl(op)
    ensures var job := DispatchJob(op, p, limit);
            k < |job.frags| ==> Told(job, k) == if (k + 1) * limit >= |p| then [Message(op, p)] else []
    ensures var job := ReaderJob(op, rs);
            k < |job.frags| ==>
              && k < |rs|
              && Told(job, k) == if rs[k].end == AtEof then [Message(op, Flatten(Data(rs[..k + 1])))] else []
  {
    if k < |SplitSpec(p, limit)| {
      DispatchIsTold(op, p, limit, k);
    }
    if k < |ReaderFrags(rs)| {
      ReaderIsTold(op, rs, k);
    }
  }

  // ---------------------------------------------------------------- cancellation

  /** A cancelled message is never delivered, its id never used again, in any run. */
  lemma {:induction false} CancelledInRuns(s: State, max: nat, i: nat)
    requires 1 <= max && Reachable(s, max) && i < |s.log| && CancelledAt(s.log, i)
    ensures AllOk(s.log) && Completions(s.log, s.log[i].t) == 0
    ensures forall j | i < j < |s.log| && IsData(s.log[j]) :: s.log[j].sid != s.log[i].sid
  {
    ReachableInv(s, max);
    CancelledIsNeverDelivered(s.log, i, |s.log|);
    forall j | i < j < |s.log| && IsData(s.log[j])
      ensures s.log[j].sid != s.log[i].sid
    {
      CancelledIdIsDead(s.log, i, j);
    }
  }
}
