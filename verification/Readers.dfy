/** `Dispatch` and `DispatchReader` of the same bytes, as the receiver sees them. */
module Readers {
  import opened Bytes
  import opened Frames
  import opened Fragments
  import opened Receiver
  import opened History
  import opened Multiplexing
  import S = Serial

  /** The history of one call writing its first n fragments with nothing else on the wire. */
  function Alone(t: nat, sid: nat, job: Job, n: nat): (log: seq<Event>)
    requires n <= |job.frags|
    ensures |log| == n
  {
    seq(n, (k: nat) => Event(t, sid, job, k))
  }

  /** What such a history puts on the wire. */
  function AloneOnWire(t: nat, sid: nat, job: Job): (fs: seq<Frame>)
    requires WellMarked(job.frags)
  {
    WireOf(Alone(t, sid, job, |job.frags|))
  }

  lemma {:induction false} AloneSnoc(r: RState, t: nat, sid: nat, job: Job, n: nat)
    requires WellMarked(job.frags) && n < |job.frags|
    ensures var log, e := Alone(t, sid, job, n), Event(t, sid, job, n);
            && AllOk(log) && Alone(t, sid, job, n + 1) == log + [e]
            && WireOf(log + [e]) == WireOf(log) + [FrameOf(e)]
            && DemuxFrom(r, WireOf(log + [e])) == RecvStep(DemuxFrom(r, WireOf(log)), FrameOf(e))
  {
    hide RecvStep, DemuxFrom, FrameOf;
    var log, e := Alone(t, sid, job, n), Event(t, sid, job, n);
    WireSnoc(log, e);
    DemuxSnoc(r, WireOf(log), FrameOf(e));
  }

  /** One more fragment that announces more. */
  lemma {:induction false} NextPart(q: RState, e: Event)
    requires EventOk(e) && IsData(e) && !BadId(FrameOf(e)) && !q.stopped && ReadyFor(q.pending, e)
    requires FragOf(e).mark == More
    ensures RecvStep(q, FrameOf(e))
         == q.(pending := q.pending[e.sid := Message(e.job.op, Concat(e.job.frags[..e.k + 1]))])
  {
    hide RecvStep, Concat;
    DataFrameEffect(q, e);
    assert e.job.frags[..e.k + 1][e.k] == FragOf(e);
  }

  lemma {:induction false} StillOk(log: seq<Event>, e: Event)
    requires AllOk(log) && EventOk(e)
    ensures AllOk(log + [e])
  {
  }

  /** The receiver after the first n fragments, short of the last. */
  function WithPart(r: RState, sid: nat, job: Job, n: nat): (r': RState)
    requires n <= |job.frags|
  {
    if n == 0 then r else r.(pending := r.pending[sid := Message(job.op, Concat(job.frags[..n]))])
  }

  lemma {:induction false} PartStep(r: RState, t: nat, sid: nat, job: Job, n: nat)
    requires WellMarked(job.frags) && n + 1 < |job.frags| && !IsControl(job.op) && 1 <= sid < MAX_STREAMS_IN_THEORY
    requires !r.stopped && sid !in r.pending
    ensures EventOk(Event(t, sid, job, n))
    ensures RecvStep(WithPart(r, sid, job, n), FrameOf(Event(t, sid, job, n))) == WithPart(r, sid, job, n + 1)
  {
    hide RecvStep, Concat, Held;
    var q, e := WithPart(r, sid, job, n), Event(t, sid, job, n);
    NextPart(q, e);
    assert q.pending[sid := Message(job.op, Concat(job.frags[..n + 1]))]
        == r.pending[sid := Message(job.op, Concat(job.frags[..n + 1]))];
  }

  /** Short of its last fragment, a data message only sits in the pending map. */
  lemma {:induction false} PartOfMessage(r: RState, t: nat, sid: nat, job: Job, n: nat)
    requires WellMarked(job.frags) && n < |job.frags| && !IsControl(job.op) && 1 <= sid < MAX_STREAMS_IN_THEORY
    requires !r.stopped && sid !in r.pending
    ensures AllOk(Alone(t, sid, job, n))
    ensures DemuxFrom(r, WireOf(Alone(t, sid, job, n))) == WithPart(r, sid, job, n)
  {
    hide RecvStep, FrameOf;
    if n == 0 {
      assert WireOf(Alone(t, sid, job, 0)) == [];
    } else {
      hide DemuxFrom, WireOf, Alone, WithPart, AllOk, EventOk, WellMarked;
      PartOfMessage(r, t, sid, job, n - 1);
      AloneSnoc(r, t, sid, job, n - 1);
      PartStep(r, t, sid, job, n - 1);
      StillOk(Alone(t, sid, job, n - 1), Event(t, sid, job, n - 1));
    }
  }

  /** A whole data message adds itself to what was delivered and leaves no trace in the pending map. */
  lemma {:induction false} WholeMessage(r: RState, t: nat, sid: nat, job: Job)
    requires WellMarked(job.frags) && job.frags[|job.frags| - 1].mark == Final
    requires !IsControl(job.op) && 1 <= sid < MAX_STREAMS_IN_THEORY && !r.stopped && sid !in r.pending
    ensures DemuxFrom(r, AloneOnWire(t, sid, job))
         == r.(delivered := r.delivered + [Message(job.op, Concat(job.frags))])
  {
    hide RecvStep, Concat, DemuxFrom;
    var n := |job.frags| - 1;
    PartOfMessage(r, t, sid, job, n);
    AloneSnoc(r, t, sid, job, n);
    var q := DemuxFrom(r, WireOf(Alone(t, sid, job, n)));
    DataFrameEffect(q, Event(t, sid, job, n));
    assert q.pending - {sid} == r.pending;
  }

  /**
   * For the receiver the two are the same: whatever it holds of other messages, a data message read from a source in
   * any pattern of short reads, empty reads, and data arriving together with EOF, does to it what `Dispatch` of the
   * same bytes does.
   */
  lemma {:induction false} ReaderEqualsDispatch(r: RState, op: byte, sid: nat, rs: seq<ReadResult>, limit: nat)
    requires limit > 0 && HowEnded(rs) == AtEof && !IsControl(op) && 1 <= sid < MAX_STREAMS_IN_THEORY
    requires !r.stopped && sid !in r.pending
    ensures var a, b, p := ReaderJob(op, rs), DispatchJob(op, DataRead(rs), limit), DataRead(rs);
            && WellMarked(a.frags) && WellMarked(b.frags)
            && DemuxFrom(r, AloneOnWire(0, sid, a)) == r.(delivered := r.delivered + [Message(op, p)])
            && DemuxFrom(r, AloneOnWire(0, sid, b)) == r.(delivered := r.delivered + [Message(op, p)])
  {
    hide Concat, DemuxFrom, AloneOnWire;
    ReaderFragsFacts(rs);
    SplitIsPartition(DataRead(rs), limit);
    WholeMessage(r, 0, sid, ReaderJob(op, rs));
    WholeMessage(r, 0, sid, DispatchJob(op, DataRead(rs), limit));
  }

  /** The same on a connection without streams, whatever an abandoned message has left pending. */
  lemma {:induction false} SerialReaderEqualsDispatch(r: RState, op: byte, rs: seq<ReadResult>, limit: nat)
    requires limit > 0 && HowEnded(rs) == AtEof && !IsControl(op) && !r.stopped
    ensures var a, b, p := ReaderJob(op, rs), DispatchJob(op, DataRead(rs), limit), DataRead(rs);
            var r' := r.(pending := r.pending - {0}, delivered := r.delivered + [S.Extended(r, op, p)]);
            && DemuxFrom(r, S.Block(a, |a.frags|)) == r'
            && DemuxFrom(r, S.Block(b, |b.frags|)) == r'
  {
    hide Concat, DemuxFrom, S.Block, S.Extended;
    var a, b := ReaderJob(op, rs), DispatchJob(op, DataRead(rs), limit);
    ReaderFragsFacts(rs);
    SplitIsPartition(DataRead(rs), limit);
    S.FinalBlock(r, a, |a.frags|);
    S.FinalBlock(r, b, |b.frags|);
    assert a.frags[..|a.frags|] == a.frags && b.frags[..|b.frags|] == b.frags;
  }

  // ---------------------------------------------------------------- control messages

  lemma {:induction false} ControlOnWire(job: Job, n: nat)
    requires WellMarked(job.frags) && n <= |job.frags| && IsControl(job.op)
    ensures AllOk(Alone(0, 0, job, n)) && WireOf(Alone(0, 0, job, n)) == S.Block(job, n)
  {
    if n > 0 {
      ControlOnWire(job, n - 1);
      AloneSnoc(NOTHING_YET, 0, 0, job, n - 1);
    }
  }

  lemma {:induction false} ControlDelivers(r: RState, job: Job)
    requires WellMarked(job.frags) && IsControl(job.op) && !r.stopped
    ensures DemuxFrom(r, AloneOnWire(0, 0, job)).delivered
         == r.delivered + S.ControlMessages(job, |job.frags|)
  {
    ControlOnWire(job, |job.frags|);
    S.ControlBlock(r, job, |job.frags|);
  }

  /** Ends in its one final fragment, so its payloads determine it. */
  predicate Ends(frags: seq<Frag>)
  {
    WellMarked(frags) && frags[|frags| - 1].mark == Final
  }

  lemma {:induction false} SameControlMessages(a: Job, b: Job)
    requires Ends(a.frags) && Ends(b.frags) && a.op == b.op
    ensures S.ControlMessages(a, |a.frags|) == S.ControlMessages(b, |b.frags|)
       <==> if a.op == CLOSE_OP then a.frags[0].payload == b.frags[0].payload else a.frags == b.frags
  {
    S.ControlMessagesAt(a, |a.frags|);
    S.ControlMessagesAt(b, |b.frags|);
    var x, y := S.ControlMessages(a, |a.frags|), S.ControlMessages(b, |b.frags|);
    hide S.ControlMessages;
    if a.op != CLOSE_OP && x == y {
      forall i | 0 <= i < |a.frags|
        ensures a.frags[i] == b.frags[i]
      {
        assert x[i] == y[i];
      }
    }
  }

  lemma {:induction false} OneRead(rs: seq<ReadResult>)
    requires HowEnded(rs) == AtEof
    ensures Ends(ReaderFrags(rs)) && ReaderFrags(rs)[0].payload == rs[0].data
    ensures rs[0].end == AtEof <==> ReaderFrags(rs) == [Frag(DataRead(rs), Final)]
  {
    ReaderFragsFacts(rs);
    if rs[0].end == NoError {
      ReaderFragsFacts(rs[1..]);
      assert |ReaderFrags(rs)| == 1 + |ReaderFrags(rs[1..])|;
    }
  }

  lemma {:induction false} SamePrefix<T>(s: seq<T>, a: seq<T>, b: seq<T>)
    ensures s + a == s + b <==> a == b
  {
    if s + a == s + b {
      assert a == (s + a)[|s|..] == (s + b)[|s|..] == b;
    }
  }

  /**
   * Control messages are final frame by frame, so for them the two are the same exactly when the reads happened to
   * be the chunks; a receiver stops at the first frame of a close message, so for that it is enough that the first
   * read was the first chunk.
   */
  lemma {:induction false} ControlReaderEqualsIff(r: RState, op: byte, rs: seq<ReadResult>, limit: nat)
    requires limit > 0 && HowEnded(rs) == AtEof && IsControl(op) && !r.stopped
    ensures var a, b, p := ReaderJob(op, rs), DispatchJob(op, DataRead(rs), limit), DataRead(rs);
            && WellMarked(a.frags) && WellMarked(b.frags)
            && (DemuxFrom(r, AloneOnWire(0, 0, a)).delivered == DemuxFrom(r, AloneOnWire(0, 0, b)).delivered
                <==> if op == CLOSE_OP then rs[0].data == (if |p| <= limit then p else p[..limit])
                     else ReaderFrags(rs) == SplitSpec(p, limit))
  {
    var a, b := ReaderJob(op, rs), DispatchJob(op, DataRead(rs), limit);
    OneRead(rs);
    SplitIsPartition(DataRead(rs), limit);
    assert Ends(b.frags);
    ControlDelivers(r, a);
    ControlDelivers(r, b);
    SameControlMessages(a, b);
    hide DemuxFrom, AloneOnWire, S.ControlMessages;
    SamePrefix(r.delivered, S.ControlMessages(a, |a.frags|), S.ControlMessages(b, |b.frags|));
  }

  /**
   * In particular for payloads of one chunk, as all legal control payloads are: pings and pongs are the same exactly
   * when the source reports EOF together with its first data; a close message when the first read has all the data.
   */
  lemma {:induction false} LegalControlEqualsIff(r: RState, op: byte, rs: seq<ReadResult>, limit: nat)
    requires limit > 0 && HowEnded(rs) == AtEof && IsControl(op) && !r.stopped && |DataRead(rs)| <= limit
    ensures var a, b := ReaderJob(op, rs), DispatchJob(op, DataRead(rs), limit);
            && WellMarked(a.frags) && WellMarked(b.frags)
            && (DemuxFrom(r, AloneOnWire(0, 0, a)).delivered == DemuxFrom(r, AloneOnWire(0, 0, b)).delivered
                <==> if op == CLOSE_OP then rs[0].data == DataRead(rs) else rs[0].end == AtEof)
  {
    hide DemuxFrom, AloneOnWire;
    ControlReaderEqualsIff(r, op, rs, limit);
    OneRead(rs);
  }

  lemma {:induction false} PingOf(op: byte, frags: seq<Frag>)
    requires WellMarked(frags) && (op == 9 || op == 10)
    ensures Demux(AloneOnWire(0, 0, Job(op, frags))).delivered
         == seq(|frags|, i requires 0 <= i < |frags| => Message(op, frags[i].payload))
  {
    hide AloneOnWire, DemuxFrom, S.ControlMessages;
    ControlDelivers(NOTHING_YET, Job(op, frags));
    S.ControlMessagesAt(Job(op, frags), |frags|);
  }

  /** A source that reports EOF on a read of its own makes two messages of one ping. */
  lemma {:induction false} ControlReaderSplits(op: byte)
    requires op == 9 || op == 10
    ensures var rs := [ReadResult([1], NoError), ReadResult([], AtEof)];
            var a, b := ReaderJob(op, rs), DispatchJob(op, DataRead(rs), 4096);
            && WellMarked(a.frags) && WellMarked(b.frags)
            && Demux(AloneOnWire(0, 0, a)).delivered == [Message(op, [1]), Message(op, [])]
            && Demux(AloneOnWire(0, 0, b)).delivered == [Message(op, [1])]
  {
    var rs := [ReadResult([1], NoError), ReadResult([], AtEof)];
    assert rs[1..] == [ReadResult([], AtEof)];
    assert ReaderFrags(rs) == [Frag([1], More), Frag([], Final)] && DataRead(rs) == [1];
    assert SplitSpec([1], 4096) == [Frag([1], Final)];
    hide SplitSpec, ReaderFrags, DataRead, AloneOnWire, Demux;
    PingOf(op, [Frag([1], More), Frag([], Final)]);
    PingOf(op, [Frag([1], Final)]);
  }
}
