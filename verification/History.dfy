/**
 * Histories of stream-mode writes, and why demultiplexing them by a 15-bit, reusable stream id loses nothing.
 * An event records which call wrote a frame; the wire shows only the frame.
 */
module History {
  import opened Bytes
  import opened Frames
  import opened Fragments
  import opened Receiver

  /** Fragment k of call t, written under stream id `sid` (0 for control messages). */
  datatype Event = Event(t: nat, sid: nat, job: Job, k: nat)

  predicate EventOk(e: Event)
  {
    e.k < |e.job.frags| && WellMarked(e.job.frags)
  }

  predicate IsData(e: Event)
  {
    !IsControl(e.job.op)
  }

  function FragOf(e: Event): (f: Frag)
    requires EventOk(e)
  {
    e.job.frags[e.k]
  }

  /** The frame `assemble` makes of it in stream mode; control messages carry no stream head and are always final. */
  function FrameOf(e: Event): (f: Frame)
    requires EventOk(e)
  {
    var g := FragOf(e);
    if IsData(e) then Frame(e.job.op, g.mark == Final, false, true, e.sid, g.mark == Cancel, g.payload)
    else Frame(e.job.op, true, false, false, 0, false, g.payload)
  }

  predicate AllOk(log: seq<Event>)
  {
    forall i :: 0 <= i < |log| ==> EventOk(log[i])
  }

  function WireOf(log: seq<Event>): (fs: seq<Frame>)
    requires AllOk(log)
    ensures |fs| == |log|
    ensures forall i :: 0 <= i < |log| ==> fs[i] == FrameOf(log[i])
  {
    seq(|log|, i requires 0 <= i < |log| => FrameOf(log[i]))
  }

  /** The last event of every call that wrote something. */
  function LastOf(log: seq<Event>): (m: map<nat, Event>)
  {
    if log == [] then map[]
    else var e := log[|log| - 1]; LastOf(log[..|log| - 1])[e.t := e]
  }

  /** A message of which frames are on the wire but not its final one. */
  predicate Open(e: Event)
  {
    EventOk(e) && IsData(e) && FragOf(e).mark != Final
  }

  /** The next event is the next fragment of its call, and no message is open under the id of a first fragment. */
  ghost predicate Fits(log: seq<Event>, e: Event)
  {
    var last := LastOf(log);
    && EventOk(e)
    && (if e.t in last then e == last[e.t].(k := last[e.t].k + 1)
        else e.k == 0 && (IsData(e) ==> forall u <- last :: Open(last[u]) ==> last[u].sid != e.sid))
  }

  /** Every call writes its fragments in order, and a new message never shares an open id. */
  ghost predicate Orderly(log: seq<Event>)
  {
    log == [] || (Orderly(log[..|log| - 1]) && Fits(log[..|log| - 1], log[|log| - 1]))
  }

  // ---------------------------------------------------------------- what should be delivered

  /** The message an event completes: all of a control frame, or a data message at its final fragment. */
  function Completed(e: Event): (ms: seq<Message>)
    requires EventOk(e)
  {
    if !IsData(e) then [Message(e.job.op, FragOf(e).payload)]
    else if FragOf(e).mark == Final then [Message(e.job.op, Concat(e.job.frags))]
    else []
  }

  predicate HaltsReceiver(e: Event)
    requires EventOk(e)
  {
    Stops(FrameOf(e))
  }

  /** Some frame of the history makes the receiver return. */
  predicate Halted(log: seq<Event>)
    requires AllOk(log)
  {
    exists i :: 0 <= i < |log| && HaltsReceiver(log[i])
  }

  /** The completed messages in the order their last frames were written, up to the frame the receiver stops at. */
  function Expected(log: seq<Event>): (ms: seq<Message>)
    requires AllOk(log)
  {
    if log == [] then []
    else
      var prev, e := log[..|log| - 1], log[|log| - 1];
      if Halted(prev) || (IsData(e) && BadId(FrameOf(e))) then Expected(prev) else Expected(prev) + Completed(e)
  }

  /** What a receiver holds of a message after these of its fragments: all of them, or just the cancelling one. */
  function Held(frags: seq<Frag>): (p: seq<byte>)
    requires frags != []
  {
    var last := frags[|frags| - 1];
    if last.mark == Cancel then last.payload else Concat(frags)
  }

  /** The pending entry of an open message. */
  function Entry(e: Event): (m: Message)
    requires Open(e)
  {
    Message(e.job.op, Held(e.job.frags[..e.k + 1]))
  }

  // ---------------------------------------------------------------- facts about orderly histories

  lemma {:induction false} OrderlyOk(log: seq<Event>)
    requires Orderly(log)
    ensures AllOk(log)
  {
    if log != [] {
      OrderlyOk(log[..|log| - 1]);
    }
  }

  lemma {:induction false} OrderlyPrefix(log: seq<Event>, n: nat)
    requires Orderly(log) && n <= |log|
    ensures Orderly(log[..n])
  {
    if n < |log| {
      OrderlyPrefix(log[..|log| - 1], n);
      assert log[..|log| - 1][..n] == log[..n];
    } else {
      assert log[..n] == log;
    }
  }

  lemma {:induction false} OrderlyAt(log: seq<Event>, n: nat)
    requires Orderly(log) && n < |log|
    ensures Orderly(log[..n]) && Fits(log[..n], log[n])
  {
    OrderlyPrefix(log, n + 1);
    assert log[..n + 1][..n] == log[..n];
  }

  lemma {:induction false} LastOfSnoc(log: seq<Event>, e: Event)
    ensures LastOf(log + [e]) == LastOf(log)[e.t := e]
  {
    assert (log + [e])[..|log|] == log;
  }

  /** At most one message is open under an id. */
  ghost predicate OneOpenPerId(last: map<nat, Event>)
  {
    forall t, u | t in last && u in last && Open(last[t]) && Open(last[u]) && last[t].sid == last[u].sid :: t == u
  }

  ghost predicate LastOk(last: map<nat, Event>)
  {
    forall t | t in last :: EventOk(last[t]) && last[t].t == t
  }

  lemma {:induction false} OrderlyLast(log: seq<Event>)
    requires Orderly(log)
    ensures OneOpenPerId(LastOf(log)) && LastOk(LastOf(log))
  {
    if log != [] {
      var prev, e := log[..|log| - 1], log[|log| - 1];
      OrderlyLast(prev);
      if e.t in LastOf(prev) {
        assert e.k - 1 == LastOf(prev)[e.t].k;
        assert IsData(e) ==> Open(LastOf(prev)[e.t]);
      }
    }
  }

  // ---------------------------------------------------------------- demultiplexing is correct

  /** The pending map holds one entry for each open message, under its id, with exactly the frames received of it. */
  ghost predicate PendingExact(pending: map<nat, Message>, last: map<nat, Event>)
  {
    && (forall t | t in last && Open(last[t]) :: last[t].sid in pending && pending[last[t].sid] == Entry(last[t]))
    && (forall id | id in pending :: exists t :: t in last && Open(last[t]) && last[t].sid == id)
  }

  /** What the receiver has of message e.t before event e: nothing, or its earlier fragments. */
  ghost predicate ReadyFor(pending: map<nat, Message>, e: Event)
    requires EventOk(e)
  {
    if e.k == 0 then e.sid !in pending
    else e.sid in pending && pending[e.sid] == Message(e.job.op, Concat(e.job.frags[..e.k]))
  }

  lemma {:induction false} BeforeEvent(log: seq<Event>, e: Event, pending: map<nat, Message>)
    requires Orderly(log) && Fits(log, e) && IsData(e)
    requires PendingExact(pending, LastOf(log))
    ensures ReadyFor(pending, e)
  {
    hide Concat;
    var last := LastOf(log);
    OrderlyLast(log);
    if e.t in last {
      var p := last[e.t];
      assert FragOf(p).mark == More && p.job.frags[..p.k + 1] == e.job.frags[..e.k];
      assert e.job.frags[..e.k][e.k - 1] == FragOf(p);
      assert Entry(p) == Message(e.job.op, Concat(e.job.frags[..e.k]));
    }
  }

  lemma {:induction false} HeldSnoc(e: Event)
    requires EventOk(e)
    ensures Held(e.job.frags[..e.k + 1])
         == if FragOf(e).mark == Cancel then FragOf(e).payload else Concat(e.job.frags[..e.k]) + FragOf(e).payload
  {
    assert e.job.frags[..e.k + 1] == e.job.frags[..e.k] + [FragOf(e)];
    ConcatSnoc(e.job.frags[..e.k], FragOf(e));
  }

  /** One data frame: it completes its message exactly at the final fragment, and otherwise becomes its entry. */
  lemma {:induction false} DataFrameEffect(r: RState, e: Event)
    requires EventOk(e) && IsData(e) && !BadId(FrameOf(e)) && !r.stopped && ReadyFor(r.pending, e)
    ensures RecvStep(r, FrameOf(e))
         == if FragOf(e).mark == Final
            then r.(pending := r.pending - {e.sid}, delivered := r.delivered + Completed(e))
            else r.(pending := r.pending[e.sid := Entry(e)])
  {
    hide Concat;
    HeldSnoc(e);
    if e.k == 0 {
      assert e.job.frags[..0] == [];
      EmptyConcat(e.job.frags[..0]);
      assert [] + FragOf(e).payload == FragOf(e).payload;
      assert r.pending - {e.sid} == r.pending;
    }
    if FragOf(e).mark == Final {
      assert e.k + 1 == |e.job.frags| && e.job.frags[..e.k + 1] == e.job.frags;
    } else if FragOf(e).mark == Cancel {
      assert (r.pending - {e.sid})[e.sid := Entry(e)] == r.pending[e.sid := Entry(e)];
    }
  }

  /** The receiver after the whole history: stopped exactly when it had to, everything delivered, pending exact. */
  ghost predicate Coupled(log: seq<Event>)
    requires AllOk(log)
  {
    var r := Demux(WireOf(log));
    && (r.stopped <==> Halted(log))
    && r.delivered == Expected(log)
    && (!r.stopped ==> PendingExact(r.pending, LastOf(log)))
  }

  lemma {:induction false} WireSnoc(log: seq<Event>, e: Event)
    requires AllOk(log) && EventOk(e)
    ensures AllOk(log + [e]) && WireOf(log + [e]) == WireOf(log) + [FrameOf(e)]
    ensures Demux(WireOf(log + [e])) == RecvStep(Demux(WireOf(log)), FrameOf(e))
    ensures Halted(log + [e]) <==> Halted(log) || HaltsReceiver(e)
  {
    var log' := log + [e];
    assert log'[|log|] == e && forall i :: 0 <= i < |log| ==> log'[i] == log[i];
    assert WireOf(log') == WireOf(log) + [FrameOf(e)];
    DemuxSnoc(NOTHING_YET, WireOf(log), FrameOf(e));
  }

  lemma {:induction false} ExpectedSnoc(log: seq<Event>, e: Event)
    requires AllOk(log) && EventOk(e)
    ensures AllOk(log + [e])
    ensures Expected(log + [e])
         == Expected(log) + (if Halted(log) || (IsData(e) && BadId(FrameOf(e))) then [] else Completed(e))
  {
    assert (log + [e])[..|log|] == log;
  }

  lemma {:induction false} PendingStep(log: seq<Event>, e: Event, pending: map<nat, Message>)
    requires Orderly(log) && Fits(log, e) && IsData(e)
    requires PendingExact(pending, LastOf(log))
    ensures PendingExact(if FragOf(e).mark == Final then pending - {e.sid} else pending[e.sid := Entry(e)],
                         LastOf(log)[e.t := e])
  {
    hide Held;
    var last, last' := LastOf(log), LastOf(log)[e.t := e];
    OrderlyLast(log);
    LastOfSnoc(log, e);
    assert Orderly(log + [e]) by {
      assert (log + [e])[..|log|] == log;
    }
    OrderlyLast(log + [e]);
    if e.t in last {
      assert Open(last[e.t]);
    }
    var pending' := if FragOf(e).mark == Final then pending - {e.sid} else pending[e.sid := Entry(e)];
    forall t | t in last' && Open(last'[t])
      ensures last'[t].sid in pending' && pending'[last'[t].sid] == Entry(last'[t])
    {
      if t != e.t {
        assert Open(last[t]);
        assert last[t].sid != e.sid;
      }
    }
    forall id | id in pending'
      ensures exists t :: t in last' && Open(last'[t]) && last'[t].sid == id
    {
      if id != e.sid {
        var t :| t in last && Open(last[t]) && last[t].sid == id;
        assert t != e.t;
        assert last'[t] == last[t];
      } else {
        assert last'[e.t] == e;
      }
    }
  }

  lemma {:induction false} ControlPending(log: seq<Event>, e: Event, pending: map<nat, Message>)
    requires Orderly(log) && Fits(log, e) && !IsData(e)
    requires PendingExact(pending, LastOf(log))
    ensures PendingExact(pending, LastOf(log)[e.t := e])
  {
    hide Held;
    var last, last' := LastOf(log), LastOf(log)[e.t := e];
    assert e.t in last ==> !Open(last[e.t]);
    forall id | id in pending
      ensures exists t :: t in last' && Open(last'[t]) && last'[t].sid == id
    {
      var t :| t in last && Open(last[t]) && last[t].sid == id;
      assert last'[t] == last[t];
    }
  }

  lemma {:induction false} CoupledStep(log: seq<Event>, e: Event)
    requires AllOk(log) && Orderly(log) && Coupled(log) && Fits(log, e)
    ensures AllOk(log + [e]) && Coupled(log + [e])
  {
    hide Held, Concat, LastOf, PendingExact, Orderly, Expected, Halted;
    WireSnoc(log, e);
    ExpectedSnoc(log, e);
    LastOfSnoc(log, e);
    var r := Demux(WireOf(log));
    if !r.stopped {
      if IsData(e) {
        BeforeEvent(log, e, r.pending);
        PendingStep(log, e, r.pending);
        if !BadId(FrameOf(e)) {
          DataFrameEffect(r, e);
        }
      } else {
        ControlPending(log, e, r.pending);
      }
    }
  }

  /** Demultiplexing by stream id is correct for every orderly history. */
  lemma {:induction false} DemuxIsCorrect(log: seq<Event>)
    requires Orderly(log)
    ensures AllOk(log) && Coupled(log)
  {
    if log == [] {
      assert WireOf(log) == [];
    } else {
      var n := |log| - 1;
      DemuxIsCorrect(log[..n]);
      assert log == log[..n] + [log[n]];
      CoupledStep(log[..n], log[n]);
    }
  }

  // ---------------------------------------------------------------- what is delivered, read off what was asked for

  /** `jobs` says what each call was asked to write: the history has fragments of these and no others. */
  predicate JobsMatch(jobs: seq<Job>, log: seq<Event>)
  {
    forall i :: 0 <= i < |log| ==>
      log[i].t < |jobs| && log[i].job == jobs[log[i].t] && log[i].k < |jobs[log[i].t].frags|
  }

  /** What fragment k of a job makes its receiver trigger. */
  function Told(job: Job, k: nat): (ms: seq<Message>)
    requires k < |job.frags|
  {
    if job.op >= 8 then [Message(job.op, job.frags[k].payload)]
    else if job.frags[k].mark == Final then [Message(job.op, Concat(job.frags))]
    else []
  }

  /** A data frame whose id the wire cannot carry. */
  predicate Lost(job: Job, sid: nat)
  {
    job.op < 8 && (sid == 0 || sid >= 32768)
  }

  /** What is triggered: each message with its last frame, as far as the first close message or lost frame. */
  function Served(jobs: seq<Job>, log: seq<Event>): (ms: seq<Message>)
    requires JobsMatch(jobs, log)
  {
    if log == [] then []
    else
      var job := jobs[log[0].t];
      if Lost(job, log[0].sid) then []
      else if job.op == 8 then Told(job, log[0].k)
      else Told(job, log[0].k) + Served(jobs, log[1..])
  }

  /** The same without stopping. */
  function AllTold(jobs: seq<Job>, log: seq<Event>): (ms: seq<Message>)
    requires JobsMatch(jobs, log)
  {
    if log == [] then [] else Told(jobs[log[0].t], log[0].k) + AllTold(jobs, log[1..])
  }

  predicate EndsService(job: Job, sid: nat)
  {
    Lost(job, sid) || job.op == 8
  }

  predicate MatchesAt(jobs: seq<Job>, e: Event)
  {
    e.t < |jobs| && e.job == jobs[e.t] && e.k < |jobs[e.t].frags|
  }

  /** Some frame of the history ends the service. */
  predicate Ended(jobs: seq<Job>, log: seq<Event>)
    requires JobsMatch(jobs, log)
  {
    exists i :: 0 <= i < |log| && EndsService(jobs[log[i].t], log[i].sid)
  }

  lemma {:induction false} MatchParts(jobs: seq<Job>, a: seq<Event>, b: seq<Event>)
    requires JobsMatch(jobs, a) && JobsMatch(jobs, b)
    ensures JobsMatch(jobs, a + b)
    ensures Ended(jobs, a + b) <==> Ended(jobs, a) || Ended(jobs, b)
  {
    hide EndsService;
    assert forall i :: 0 <= i < |a| ==> (a + b)[i] == a[i];
    assert forall i :: 0 <= i < |b| ==> (a + b)[|a| + i] == b[i];
  }

  lemma {:induction false} ServedSnoc(jobs: seq<Job>, log: seq<Event>, e: Event)
    requires JobsMatch(jobs, log) && MatchesAt(jobs, e)
    ensures JobsMatch(jobs, log + [e])
    ensures Served(jobs, log + [e])
         == Served(jobs, log) + if Ended(jobs, log) || Lost(jobs[e.t], e.sid) then [] else Told(jobs[e.t], e.k)
  {
    hide Told;
    MatchParts(jobs, log, [e]);
    if log == [] {
      assert log + [e] == [e] && [e][1..] == [];
    } else {
      assert log == [log[0]] + log[1..] && (log + [e])[1..] == log[1..] + [e];
      MatchParts(jobs, [log[0]], log[1..]);
      assert Ended(jobs, [log[0]]) <==> EndsService(jobs[log[0].t], log[0].sid);
      hide Ended, JobsMatch;
      ServedSnoc(jobs, log[1..], e);
    }
  }

  lemma {:induction false} SameOfOne(jobs: seq<Job>, e: Event)
    requires EventOk(e) && MatchesAt(jobs, e)
    ensures Told(jobs[e.t], e.k) == Completed(e)
    ensures Lost(jobs[e.t], e.sid) <==> IsData(e) && BadId(FrameOf(e))
    ensures JobsMatch(jobs, [e]) && (Ended(jobs, [e]) <==> HaltsReceiver(e))
  {
    assert EndsService(jobs[e.t], e.sid) <==> HaltsReceiver(e);
    assert Ended(jobs, [e]) <==> EndsService(jobs[[e][0].t], [e][0].sid);
  }

  /** One event more. */
  lemma {:induction false} ServedStep(jobs: seq<Job>, prev: seq<Event>, e: Event)
    requires AllOk(prev) && EventOk(e) && JobsMatch(jobs, prev) && MatchesAt(jobs, e)
    requires Served(jobs, prev) == Expected(prev) && (Halted(prev) <==> Ended(jobs, prev))
    ensures AllOk(prev + [e]) && JobsMatch(jobs, prev + [e])
    ensures Served(jobs, prev + [e]) == Expected(prev + [e])
    ensures Halted(prev + [e]) <==> Ended(jobs, prev + [e])
  {
    hide Served, Expected, Halted, Ended, Told, Completed, Demux, WireOf, Lost, FrameOf, HaltsReceiver;
    SameOfOne(jobs, e);
    ServedSnoc(jobs, prev, e);
    ExpectedSnoc(prev, e);
    WireSnoc(prev, e);
    MatchParts(jobs, prev, [e]);
  }

  /** It is what the history's own events say. */
  lemma {:induction false} ServedIsExpected(jobs: seq<Job>, log: seq<Event>)
    requires AllOk(log) && JobsMatch(jobs, log)
    ensures Served(jobs, log) == Expected(log)
    ensures Halted(log) <==> Ended(jobs, log)
  {
    if log != [] {
      var prev, e := log[..|log| - 1], log[|log| - 1];
      assert log == prev + [e];
      ServedIsExpected(jobs, prev);
      hide Served, Expected, Halted, Ended;
      ServedStep(jobs, prev, e);
    }
  }

  lemma {:induction false} ServedUnlessEnded(jobs: seq<Job>, log: seq<Event>)
    requires JobsMatch(jobs, log)
    requires forall i :: 0 <= i < |log| ==> !EndsService(jobs[log[i].t], log[i].sid)
    ensures Served(jobs, log) == AllTold(jobs, log)
  {
    if log != [] {
      ServedUnlessEnded(jobs, log[1..]);
    }
  }

  // ---------------------------------------------------------------- order, ownership, cancellation

  /** Once a call has written, it stays in the record of last events, with its id and its fragments only advancing. */
  lemma {:induction false} Advances(log: seq<Event>, i: nat)
    requires Orderly(log) && i < |log|
    ensures log[i].t in LastOf(log)
    ensures var l := LastOf(log)[log[i].t]; l == log[i].(k := l.k) && log[i].k <= l.k
  {
    var n := |log| - 1;
    if i < n {
      Advances(log[..n], i);
    }
  }

  /** Every fragment is written at most once, and in order: later events of a call have larger indexes. */
  lemma {:induction false} WrittenOnceInOrder(log: seq<Event>, i: nat, j: nat)
    requires Orderly(log) && i < j < |log| && log[i].t == log[j].t
    ensures log[j] == log[i].(k := log[j].k) && log[i].k < log[j].k
  {
    hide Orderly;
    OrderlyAt(log, j);
    Advances(log[..j], i);
  }

  lemma {:induction false} LastIsSomeEvent(log: seq<Event>, t: nat)
    requires t in LastOf(log)
    ensures exists j :: 0 <= j < |log| && log[j] == LastOf(log)[t] && log[j].t == t
  {
    var n := |log| - 1;
    if log[n].t != t {
      LastIsSomeEvent(log[..n], t);
      var j :| 0 <= j < n && log[..n][j] == LastOf(log[..n])[t] && log[..n][j].t == t;
      assert log[j] == LastOf(log)[t];
    } else {
      assert log[n] == LastOf(log)[t];
    }
  }

  /** A call that will write again is open now. */
  lemma {:induction false} StillOpen(log: seq<Event>, n: nat, i: nat, k: nat)
    requires Orderly(log) && i < n <= k < |log| && log[i].t == log[k].t && IsData(log[i])
    ensures log[i].t in LastOf(log[..n]) && Open(LastOf(log[..n])[log[i].t])
    ensures LastOf(log[..n])[log[i].t].sid == log[i].sid
  {
    hide Orderly;
    OrderlyPrefix(log, n);
    Advances(log[..n], i);
    OrderlyAt(log, k);
    assert exists j :: i <= j < n && log[j] == LastOf(log[..n])[log[i].t] by {
      LastIsSomeEvent(log[..n], log[i].t);
      var j :| 0 <= j < n && log[..n][j] == LastOf(log[..n])[log[i].t];
      if j < i {
        WrittenOnceInOrder(log, j, i);
      }
    }
    var j :| i <= j < n && log[j] == LastOf(log[..n])[log[i].t];
    WrittenOnceInOrder(log, j, k);
    OrderlyOk(log);
    assert EventOk(log[k]);
  }

  /** Between two frames of a message no other message uses its id: messages under one id never interleave. */
  lemma {:induction false} NoInterleaving(log: seq<Event>, i: nat, j: nat, k: nat)
    requires Orderly(log) && i < j < k < |log|
    requires IsData(log[i]) && IsData(log[j]) && log[i].t == log[k].t && log[i].sid == log[j].sid
    ensures log[j].t == log[i].t
  {
    hide Orderly;
    StillOpen(log, j, i, k);
    StillOpen(log, j + 1, i, k);
    OrderlyPrefix(log, j + 1);
    OrderlyLast(log[..j + 1]);
    OrderlyAt(log, j);
    OrderlyLast(log[..j]);
    assert log[..j + 1] == log[..j] + [log[j]];
    LastOfSnoc(log[..j], log[j]);
    if log[j].t in LastOf(log[..j]) {
      assert log[j].k > 0 && Open(LastOf(log[..j])[log[j].t]);
    }
  }

  /** How often message t was completed. */
  function Completions(log: seq<Event>, t: nat): (n: nat)
    requires AllOk(log)
  {
    if log == [] then 0
    else
      var e := log[|log| - 1];
      Completions(log[..|log| - 1], t) + if e.t == t && FragOf(e).mark == Final then 1 else 0
  }

  /** Exactly once if the final fragment was written, never otherwise. */
  lemma {:induction false} CompletedExactlyOnce(log: seq<Event>, t: nat)
    requires Orderly(log) && AllOk(log)
    ensures Completions(log, t)
         == if t in LastOf(log) && EventOk(LastOf(log)[t]) && FragOf(LastOf(log)[t]).mark == Final then 1 else 0
  {
    if log != [] {
      var prev, e := log[..|log| - 1], log[|log| - 1];
      CompletedExactlyOnce(prev, t);
      OrderlyLast(prev);
      if e.t == t && t in LastOf(prev) {
        assert FragOf(LastOf(prev)[t]).mark == More;
      }
    }
  }

  predicate CancelledAt(log: seq<Event>, i: nat)
    requires i < |log|
  {
    EventOk(log[i]) && IsData(log[i]) && FragOf(log[i]).mark == Cancel
  }

  /** The cancelling frame stays the last of its call. */
  lemma {:induction false} CancelIsLast(log: seq<Event>, i: nat, n: nat)
    requires Orderly(log) && i < n <= |log| && CancelledAt(log, i)
    ensures Orderly(log[..n])
    ensures log[i].t in LastOf(log[..n]) && LastOf(log[..n])[log[i].t] == log[i]
  {
    hide Orderly, LastOf;
    OrderlyPrefix(log, n);
    Advances(log[..n], i);
    OrderlyLast(log[..n]);
  }

  /** After a cancel frame its id is dead: no data frame of any message carries it again. */
  lemma {:induction false} CancelledIdIsDead(log: seq<Event>, i: nat, j: nat)
    requires Orderly(log) && i < j < |log| && CancelledAt(log, i) && IsData(log[j])
    ensures log[j].sid != log[i].sid
  {
    hide Orderly, LastOf;
    CancelIsLast(log, i, j);
    CancelIsLast(log, i, j + 1);
    OrderlyAt(log, j);
    OrderlyLast(log[..j]);
    OrderlyLast(log[..j + 1]);
    assert log[..j + 1] == log[..j] + [log[j]];
    LastOfSnoc(log[..j], log[j]);
    assert Open(log[i]);
  }

  /**
   * So the entry it left behind stays as it is for as long as the receiver runs, and its message is never
   * completed.
   */
  lemma {:induction false} CancelledIsNeverDelivered(log: seq<Event>, i: nat, n: nat)
    requires Orderly(log) && AllOk(log) && i < n <= |log| && CancelledAt(log, i)
    ensures Completions(log, log[i].t) == 0
    ensures !Halted(log[..n]) ==>
              var pending := Demux(WireOf(log[..n])).pending;
              log[i].sid in pending && pending[log[i].sid] == Message(log[i].job.op, FragOf(log[i]).payload)
  {
    hide Orderly, LastOf, Completions, Demux, WireOf, Expected;
    assert log[..|log|] == log;
    CancelIsLast(log, i, |log|);
    CompletedExactlyOnce(log, log[i].t);
    CancelIsLast(log, i, n);
    DemuxIsCorrect(log[..n]);
    HeldSnoc(log[i]);
    assert Open(log[i]);
  }
}
