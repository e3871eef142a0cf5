/** From the callers' payloads to the peer's handlers: the protocol, the codec and the receiver together. */
module EndToEnd {
  import opened Wrappers
  import opened Bytes
  import opened Masking
  import opened Frames
  import opened Wire
  import opened Fragments
  import opened Receiver
  import opened History
  import opened Multiplex
  import opened Schedule
  import opened Multiplexing
  import S = Serial
  import T = SerialSchedule
  import C = Codec

  /** What the handlers are triggered with when `bytes` arrive on a fresh connection; see `Reading.Start`. */
  function Triggered(bytes: seq<byte>, peer: Peer, full: nat -> bool): (ms: seq<Message>)
    requires PrivateMaskOk(peer.extra)
  {
    Demux(DecodeAll(bytes, 0, peer, full)).delivered
  }

  /** What arrives of a byte stream that breaks off after n bytes, if it gets that far. */
  function Cut(bytes: seq<byte>, n: nat): (s: seq<byte>)
    ensures s <= bytes
  {
    if n < |bytes| then bytes[..n] else bytes
  }

  // ---------------------------------------------------------------- what the calls write is what the codec writes

  lemma {:induction false} WritesAt(opt: C.SendOptions, op: byte, p: seq<byte>, limit: nat, keys: seq<seq<byte>>,
                                    k: nat)
    requires limit > 0 && |keys| == ChunkCount(|p|, limit) && k < |keys|
    ensures var xs, frags := C.Writes(opt, op, p, limit, keys), SplitSpec(p, limit);
            && |xs| == |frags| == |keys|
            && frags[k].mark != Cancel
            && xs[k] == Sent(C.FrameFor(opt, op, frags[k].mark == Final, frags[k].payload),
                             if opt.mask then Some(keys[k]) else None)
    decreases |p|
  {
    hide ChunkCount, C.FrameFor;
    if |p| > limit {
      ChunkCountStep(|p|, limit);
      ChunkCountIsCeiling(|p| - limit, limit);
      WritesAt(opt, op, p[limit..], limit, keys[1..], if k == 0 then 0 else k - 1);
    } else {
      OneChunk(p, limit);
    }
  }

  /** The k-th frame `Dispatch` assembles from the caller's buffer is the k-th event of its call. */
  lemma {:induction false} WritesOfDispatch(op: byte, p: seq<byte>, limit: nat, keys: seq<seq<byte>>,
                                              t: nat, sid: nat, isClient: bool, k: nat)
    requires limit > 0 && |keys| == ChunkCount(|p|, limit) && k < |keys|
    ensures var xs, job := C.Writes(C.Patched(isClient, true, op, sid), op, p, limit, keys), DispatchJob(op, p, limit);
            && |xs| == |job.frags| == |keys| && EventOk(Event(t, sid, job, k))
            && xs[k].frame == FrameOf(Event(t, sid, job, k))
            && xs[k].key == if isClient then Some(keys[k]) else None
  {
    hide ChunkCount;
    var opt := C.Patched(isClient, true, op, sid);
    SplitIsPartition(p, limit);
    WritesAt(opt, op, p, limit, keys, k);
    assert WellMarked(SplitSpec(p, limit));
  }

  /** So is, of either kind of call, the frame assembled from a fragment, with the cancel bit for a failed read. */
  lemma {:induction false} AssembledIsTheEvent(e: Event, isClient: bool)
    requires EventOk(e)
    ensures var g := FragOf(e);
            var opt := C.Patched(isClient, true, e.job.op, e.sid).(cancel := g.mark == Cancel);
            C.FrameFor(opt, e.job.op, g.mark == Final, g.payload) == FrameOf(e)
  {
  }

  /** Without streams it is the k-th frame of the call's block. */
  lemma {:induction false} WritesAreTheBlock(op: byte, p: seq<byte>, limit: nat, keys: seq<seq<byte>>,
                                             isClient: bool, k: nat)
    requires limit > 0 && |keys| == ChunkCount(|p|, limit) && k < |keys|
    ensures var xs, job := C.Writes(C.Patched(isClient, false, op, 0), op, p, limit, keys),
                           DispatchJob(op, p, limit);
            |xs| == |job.frags| == |keys| && xs[k].frame == S.PlainFrame(job, k)
  {
    hide ChunkCount;
    SplitIsPartition(p, limit);
    WritesAt(C.Patched(isClient, false, op, 0), op, p, limit, keys, k);
  }

  lemma {:induction false} SameCount(opt: C.SendOptions, op: byte, rs: seq<ReadResult>, keys: seq<seq<byte>>)
    requires |keys| == |rs|
    ensures |C.ReaderWrites(opt, op, rs, keys)| == |ReaderFrags(rs)| <= |keys|
  {
    hide C.FrameFor;
    if rs != [] {
      SameCount(opt, op, rs[1..], keys[1..]);
    }
  }

  lemma {:induction false} ReaderWritesAt(opt: C.SendOptions, op: byte, rs: seq<ReadResult>, keys: seq<seq<byte>>,
                                          k: nat)
    requires |keys| == |rs| && k < |ReaderFrags(rs)|
    ensures var xs, frags := C.ReaderWrites(opt, op, rs, keys), ReaderFrags(rs);
            && |xs| == |frags| <= |keys|
            && xs[k] == Sent(C.FrameFor(opt.(cancel := frags[k].mark == Cancel), op, frags[k].mark == Final,
                                        frags[k].payload),
                             if opt.mask then Some(keys[k]) else None)
  {
    hide C.FrameFor;
    if rs[0].end == NoError && k > 0 {
      ReaderWritesAt(opt, op, rs[1..], keys[1..], k - 1);
    } else if rs[0].end == NoError {
      SameCount(opt, op, rs[1..], keys[1..]);
    }
  }

  /** The k-th frame `DispatchReader` assembles in its vessel is the k-th event of its call. */
  lemma {:induction false} WritesOfReader(op: byte, rs: seq<ReadResult>, keys: seq<seq<byte>>,
                                                    t: nat, sid: nat, isClient: bool, k: nat)
    requires |keys| == |rs| && HowEnded(rs) != NoError && k < |ReaderFrags(rs)|
    ensures var xs, job := C.ReaderWrites(C.Patched(isClient, true, op, sid), op, rs, keys), ReaderJob(op, rs);
            && |xs| == |job.frags| <= |keys| && EventOk(Event(t, sid, job, k))
            && xs[k].frame == FrameOf(Event(t, sid, job, k))
            && xs[k].key == if isClient then Some(keys[k]) else None
  {
    hide C.FrameFor, FrameOf;
    ReaderFragsFacts(rs);
    ReaderWritesAt(C.Patched(isClient, true, op, sid), op, rs, keys, k);
    AssembledIsTheEvent(Event(t, sid, ReaderJob(op, rs), k), isClient);
  }

  /** Without streams it is the k-th frame of the call's block. */
  lemma {:induction false} ReaderWritesAreTheBlock(op: byte, rs: seq<ReadResult>, keys: seq<seq<byte>>,
                                                   isClient: bool, k: nat)
    requires |keys| == |rs| && k < |ReaderFrags(rs)|
    ensures var xs, job := C.ReaderWrites(C.Patched(isClient, false, op, 0), op, rs, keys), ReaderJob(op, rs);
            |xs| == |job.frags| && xs[k].frame == S.PlainFrame(job, k)
  {
    ReaderWritesAt(C.Patched(isClient, false, op, 0), op, rs, keys, k);
  }

  /** In every run a frame on the wire, if its call was asked to dispatch p, is the one `Dispatch` assembles of p. */
  lemma {:induction false} WritesAreTheEvents(steps: seq<Step>, s: State, max: nat, i: nat, op: byte, p: seq<byte>,
                                              limit: nat, keys: seq<seq<byte>>, isClient: bool)
    requires 1 <= max && Run(steps, max) == Some(s) && i < |s.log| && limit > 0 && |keys| == ChunkCount(|p|, limit)
    requires s.log[i].t < |Asked(steps)|
    requires Asked(steps)[s.log[i].t] == Invocation(DispatchJob(op, p, limit), false)
    ensures var e, xs := s.log[i], C.Writes(C.Patched(isClient, true, op, s.log[i].sid), op, p, limit, keys);
            && EventOk(e) && e.k < |xs| == |keys| && e.t < |s.calls| && !s.calls[e.t].viaReader
            && FrameOf(e) == xs[e.k].frame && xs[e.k].key == if isClient then Some(keys[e.k]) else None
  {
    var e := s.log[i];
    RunFacts(steps, s, max, |s.log|);
    CallsAreAsAsked(steps, max, s);
    assert e.job == DispatchJob(op, p, limit) && EventOk(e);
    hide Run, Asked, ChunkCount, C.Writes, FrameOf, Reachable, Orderly;
    SplitIsPartition(p, limit);
    WritesOfDispatch(op, p, limit, keys, e.t, e.sid, isClient, e.k);
  }

  /** And if it was asked to read from a source, the one `DispatchReader` assembles of what it reads. */
  lemma {:induction false} ReaderWritesAreTheEvents(steps: seq<Step>, s: State, max: nat, i: nat, op: byte,
                                                    rs: seq<ReadResult>, keys: seq<seq<byte>>, isClient: bool)
    requires 1 <= max && Run(steps, max) == Some(s) && i < |s.log| && |keys| == |rs| && HowEnded(rs) != NoError
    requires s.log[i].t < |Asked(steps)| && Asked(steps)[s.log[i].t] == Invocation(ReaderJob(op, rs), true)
    ensures var e, xs := s.log[i], C.ReaderWrites(C.Patched(isClient, true, op, s.log[i].sid), op, rs, keys);
            && EventOk(e) && e.k < |xs| <= |keys| && e.t < |s.calls| && s.calls[e.t].viaReader
            && FrameOf(e) == xs[e.k].frame && xs[e.k].key == if isClient then Some(keys[e.k]) else None
  {
    var e := s.log[i];
    RunFacts(steps, s, max, |s.log|);
    CallsAreAsAsked(steps, max, s);
    assert e.job == ReaderJob(op, rs) && EventOk(e);
    hide Run, Asked, C.ReaderWrites, FrameOf, Reachable, Orderly;
    WritesOfReader(op, rs, keys, e.t, e.sid, isClient, e.k);
  }

  // ---------------------------------------------------------------- stream mode

  /** A message type fits its four bits, and frame sizes fit an int64. */
  predicate JobFits(job: Job)
  {
    job.op < 16 && forall k :: 0 <= k < |job.frags| ==> |job.frags[k].payload| + STREAM_BYTES < INT64_LIMIT
  }

  /** `xs` are the writes a history stands for, each with the mask key it was given. */
  predicate WritesOf(xs: seq<Sent>, log: seq<Event>)
    requires AllOk(log)
  {
    && FramesOf(xs) == WireOf(log) && KeysOk(xs)
    && forall i :: 0 <= i < |log| ==> JobFits(log[i].job)
  }

  lemma {:induction false} LogStep(s: State, step: Step, max: nat)
    requires Enabled(s, step)
    ensures var log := Apply(s, step, max).log;
            log == s.log || exists t: nat, k, job :: t < |s.calls| && log == s.log + [Event(t, s.calls[t].sid, job, k)]
  {
  }

  /** Stream ids on the wire are within the limit, even after the socket broke. */
  lemma {:induction false} WireIds(steps: seq<Step>, max: nat)
    requires 1 <= max && Run(steps, max).Some?
    ensures forall i :: 0 <= i < |Run(steps, max).value.log| ==> Run(steps, max).value.log[i].sid <= max
  {
    if steps != [] {
      var n := |steps| - 1;
      RunKeeps(steps[..n], max);
      WireIds(steps[..n], max);
      var s := Run(steps[..n], max).value;
      assert forall t :: 0 <= t < |s.calls| ==> CallOk(s.calls[t], max);
      hide Inv, Run, CallOk;
      LogStep(s, steps[n], max);
    }
  }

  lemma {:induction false} WritesAreOk(s: State, max: nat, xs: seq<Sent>)
    requires 1 <= max <= MAX_STREAMS_IN_THEORY && Reachable(s, max) && AllOk(s.log) && WritesOf(xs, s.log)
    ensures AllSentOk(xs)
  {
    var steps :| Run(steps, max) == Some(s);
    WireIds(steps, max);
    hide Reachable, Run;
    forall i | 0 <= i < |xs|
      ensures SentOk(xs[i])
    {
      assert xs[i].frame == FramesOf(xs)[i] == FrameOf(s.log[i]);
      assert JobFits(s.log[i].job) && EventOk(s.log[i]);
    }
  }

  /** What the receiver triggers after the first k frames, of those the schedule asked for. */
  lemma {:induction false} ServedByPrefix(steps: seq<Step>, s: State, max: nat, k: nat)
    requires 1 <= max && Run(steps, max) == Some(s) && k <= |s.log|
    ensures AllOk(s.log) && JobsMatch(Jobs(steps), s.log) && JobsMatch(Jobs(steps), s.log[..k])
    ensures Demux(WireOf(s.log)[..k]).delivered == Served(Jobs(steps), s.log[..k]) <= Served(Jobs(steps), s.log)
  {
    hide Demux, Run, Served, EndsService, PendingExact, Jobs, LastOf, FrameOf;
    assert s.log[..|s.log|] == s.log;
    MultiplexingIsCorrect(steps, s, max, k);
    MultiplexingIsCorrect(steps, s, max, |s.log|);
    assert WireOf(s.log)[..k] == WireOf(s.log[..k]);
    PrefixDelivers(WireOf(s.log), k);
  }

  /**
   * Safety of the whole. For any calls and any schedule, any mask keys, wherever the byte stream is cut and whichever
   * header reads come back short: what the peer's handlers are triggered with is a prefix of the messages the schedule
   * asked for and the wire completed, whole and in order; precisely, those completed by the frames that came out.
   */
  lemma {:induction false} NothingIsInvented(steps: seq<Step>, s: State, max: nat, xs: seq<Sent>, n: nat, peer: Peer,
                                             full: nat -> bool)
    requires 1 <= max <= MAX_STREAMS_IN_THEORY && Run(steps, max) == Some(s) && PrivateMaskOk(peer.extra)
    requires AllOk(s.log) && WritesOf(xs, s.log)
    ensures AllSentOk(xs) && JobsMatch(Jobs(steps), s.log)
    ensures var arrived := Cut(WireBytes(xs, peer.extra), n);
            var k := Survivors(xs, |arrived|, 0, peer, full);
            && k <= |s.log| && JobsMatch(Jobs(steps), s.log[..k])
            && Triggered(arrived, peer, full) == Served(Jobs(steps), s.log[..k])
    ensures Triggered(Cut(WireBytes(xs, peer.extra), n), peer, full) <= Served(Jobs(steps), s.log)
  {
    assert Reachable(s, max);
    WritesAreOk(s, max, xs);
    hide Survivors, WireBytes, DecodeAll, Demux, Reachable, Run, Served, JobsMatch, Jobs, WireOf;
    var w := WireBytes(xs, peer.extra);
    var m := |Cut(w, n)|;
    assert Cut(w, n) == w[..m];
    PrefixSafety(xs, m, 0, peer, full);
    ServedByPrefix(steps, s, max, Survivors(xs, m, 0, peer, full));
  }

  /** The two ends fit each other: handshake agreed on, control payloads small, frames within the reader's limits. */
  predicate PeerFits(peer: Peer, log: seq<Event>, isClient: bool)
    requires AllOk(log)
  {
    && peer.streamable && peer.fromClient == isClient
    && forall i :: 0 <= i < |log| ==>
         && log[i].job.op >= 1
         && (IsControl(log[i].job.op) ==> |FragOf(log[i]).payload| <= 125)
         && WithinLimits(|Body(FrameOf(log[i]))|, peer)
  }

  lemma {:induction false} WireAcceptable(log: seq<Event>, xs: seq<Sent>, peer: Peer, isClient: bool)
    requires AllOk(log) && WritesOf(xs, log) && PeerFits(peer, log, isClient)
    requires forall i :: 0 <= i < |log| && IsData(log[i]) ==> 1 <= log[i].sid < MAX_STREAMS_IN_THEORY
    requires forall i :: 0 <= i < |xs| ==> xs[i].key.Some? == isClient
    ensures forall i :: 0 <= i < |xs| ==> Acceptable(xs[i].frame, xs[i].key.Some?, peer)
  {
    hide WithinLimits;
    forall i | 0 <= i < |xs|
      ensures Acceptable(xs[i].frame, xs[i].key.Some?, peer)
    {
      assert xs[i].frame == FramesOf(xs)[i] == FrameOf(log[i]);
    }
  }

  lemma {:induction false} TheirFrames(xs: seq<Sent>, log: seq<Event>)
    requires AllOk(log) && WritesOf(xs, log)
    ensures FramesOf(xs) == WireOf(log)
  {
  }

  lemma {:induction false} AllIdsFit(s: State, max: nat)
    requires 1 <= max < MAX_STREAMS_IN_THEORY && Reachable(s, max) && !s.broken && AllOk(s.log)
    requires forall t :: 0 <= t < |s.calls| ==> !Exhausted(s.calls[t])
    ensures forall i :: 0 <= i < |s.log| && IsData(s.log[i]) ==> 1 <= s.log[i].sid < MAX_STREAMS_IN_THEORY
  {
    hide Reachable, Exhausted;
    forall i | 0 <= i < |s.log| && IsData(s.log[i])
      ensures 1 <= s.log[i].sid < MAX_STREAMS_IN_THEORY
    {
      WhatStopsTheReceiver(s, max, i);
      BoundedIds(s, max, i);
    }
  }

  /**
   * Completeness of the whole. With MaxStreams at most 32767, no failed allocation, no close message, a peer that
   * agreed on streams, and full reads, every message the schedule asked for and the calls wrote in full is triggered,
   * once, whole, in the order its last frame was written.
   */
  lemma {:induction false} EverythingArrives(steps: seq<Step>, s: State, max: nat, xs: seq<Sent>, isClient: bool,
                                             peer: Peer, full: nat -> bool)
    requires 1 <= max < MAX_STREAMS_IN_THEORY && Run(steps, max) == Some(s) && !s.broken && PrivateMaskOk(peer.extra)
    requires AllOk(s.log) && WritesOf(xs, s.log) && PeerFits(peer, s.log, isClient)
    requires forall i :: 0 <= i < |xs| ==> xs[i].key.Some? == isClient
    requires forall t :: 0 <= t < |s.calls| ==> !Exhausted(s.calls[t])
    requires forall t :: 0 <= t < |Jobs(steps)| ==> Jobs(steps)[t].op != CLOSE_OP
    requires forall p: nat :: full(p)
    ensures JobsMatch(Jobs(steps), s.log)
    ensures Triggered(WireBytes(xs, peer.extra), peer, full) == AllTold(Jobs(steps), s.log)
    ensures forall t :: 0 <= t < |s.calls| && IsDataCall(s.calls[t]) ==>
              Completions(s.log, t) == if FinalWritten(s.calls[t]) then 1 else 0
  {
    assert Reachable(s, max);
    hide Run, WireBytes, DecodeAll, Demux, Reachable, AllTold, Acceptable, Exhausted, Completions, FinalWritten;
    AllIdsFit(s, max);
    WritesAreOk(s, max, xs);
    WireAcceptable(s.log, xs, peer, isClient);
    TheirFrames(xs, s.log);
    hide WritesOf, PeerFits, Jobs;
    RoundTrip(xs, 0, peer, full);
    EverythingIsDelivered(steps, s, max);
  }

  // ---------------------------------------------------------------- without streams

  /**
   * The same on a connection without streams, in every run: a prefix of what the receiver makes of the whole blocks;
   * and uncut and read in full, exactly what the callers asked for and wrote in full, in lock order, if and only if
   * no completed message met the remains of an abandoned one.
   */
  lemma {:induction false} NothingIsInventedSerially(steps: seq<S.SStep>, s: S.SState, xs: seq<Sent>, n: nat,
                                                     peer: Peer, full: nat -> bool)
    requires S.Play(steps) == Some(s) && PrivateMaskOk(peer.extra)
    requires FramesOf(xs) == s.wire && AllSentOk(xs)
    ensures forall i :: 0 <= i < |s.order| ==> s.order[i] < |s.calls|
    ensures forall t :: 0 <= t < |s.calls| ==> S.SCallOk(s.calls[t])
    ensures T.Fit(T.Asked(steps), T.Counts(s.calls), T.LocksTaken(steps)) && S.AllCallsOk(S.InOrder(s.calls, s.order))
    ensures var said := T.SaidAll(T.Asked(steps), T.Counts(s.calls), T.LocksTaken(steps));
            var some, all := Triggered(Cut(WireBytes(xs, peer.extra), n), peer, full),
                             Triggered(WireBytes(xs, peer.extra), peer, full);
            && some <= S.AfterCalls(s.calls, s.order).delivered
            && (S.NothingFound(S.InOrder(s.calls, s.order)) ==> some <= said)
            && ((forall p: nat :: full(p))
                && (forall i :: 0 <= i < |xs| ==> Acceptable(xs[i].frame, xs[i].key.Some?, peer)) ==>
                  && all == S.AfterCalls(s.calls, s.order).delivered
                  && (all == said <==> S.NothingFound(S.InOrder(s.calls, s.order))))
  {
    hide Survivors, DecodeAll, Demux, T.SaidAll, S.SCallOk, S.AfterCalls, S.NothingFound, S.Blocks, Acceptable;
    hide WireBytes, S.Play, T.Fit, T.Asked, T.LocksTaken, T.Counts;
    var w := WireBytes(xs, peer.extra);
    var m := |Cut(w, n)|;
    assert Cut(w, n) == w[..m];
    PrefixSafety(xs, m, 0, peer, full);
    PrefixDelivers(s.wire, Survivors(xs, m, 0, peer, full));
    T.WireIsSerial(steps, s);
    S.DemuxBlocks(s.calls, s.order);
    T.SaidIffNothingFound(steps, s);
    if forall p: nat :: full(p) {
      RoundTrip(xs, 0, peer, full);
    }
  }
}
