/** What the handshake is for: two agreeing ends with settled configurations, and everything dispatched arrives. */
module Agreement {
  import opened Wrappers
  import opened Bytes
  import opened Masking
  import opened Frames
  import opened Wire
  import opened Fragments
  import opened Receiver
  import opened History
  import opened Multiplex
  import opened Schedule
  import opened Multiplexing
  import opened EndToEnd
  import opened Config
  import opened Handshake
  import S = Serial
  import T = SerialSchedule

  /** A connection between two ends that have both come through the handshake; `toServer` says who sends. */
  datatype Link = Link(client: Settings, server: Settings, toServer: bool, maxPayload: int)
  {
    function Sender(): Settings
    {
      if toServer then client else server
    }

    function Receiver(): Settings
    {
      if toServer then server else client
    }

    /** Settled configurations, no protocol header overridden, and both ends accepted. */
    ghost predicate Agreed()
    {
      && Settled(client) && Settled(server) && client.maxStreams >= -(INT64_LIMIT as int)
      && ServerSide(server, ClientRequest(client, NO_EXTRA)).Some?
      && ClientSide(client, ServerSide(server, ClientRequest(client, NO_EXTRA)).value.1).Some?
    }

    /** The receiving end, as its `Start` sees it. */
    ghost function Peer(): Peer
      requires Agreed()
    {
      var (mine, answer) := ServerSide(server, ClientRequest(client, NO_EXTRA)).value;
      var nego := if toServer then mine else ClientSide(client, answer).value;
      Frames.Peer(nego.streamable, nego.compressable, toServer,
                  Receiver().privateMask, Receiver().bufferSize, maxPayload)
    }

    /** Both ends enable streams, at most one enables compression, and they share a private mask, if any. */
    predicate Streams()
    {
      && client.enableStreams && server.enableStreams && server.maxStreams > 0
      && !(client.enableCompress && server.enableCompress)
      && client.privateMask == server.privateMask
    }

    /** One end at least does without streams; compression and private mask as above. */
    predicate Plain()
    {
      && !(client.enableStreams && server.enableStreams && server.maxStreams > 0)
      && !(client.enableCompress && server.enableCompress)
      && client.privateMask == server.privateMask
    }

    /** A full chunk of the sender, with so many bytes in front, is within the receiver's limits. */
    predicate ChunksFit(head: nat)
    {
      && Sender().chunkSize + head <= Receiver().bufferSize
      && (maxPayload == 0 || Sender().chunkSize + head <= maxPayload)
    }
  }

  // ---------------------------------------------------------------- what is asked for, and what should come of it

  /** A call in its caller's terms: `Dispatch` of these bytes, or `DispatchReader` of a source with these reads. */
  datatype Ask = OfBytes(op: byte, p: seq<byte>) | OfReader(op: byte, rs: seq<ReadResult>)

  function InvocationOf(a: Ask, chunk: nat): (r: Invocation)
    requires chunk > 0
  {
    match a
    case OfBytes(op, p) => Invocation(DispatchJob(op, p, chunk), false)
    case OfReader(op, rs) => Invocation(ReaderJob(op, rs), true)
  }

  /** Types the receiver accepts, control payloads of at most 125 bytes, sources that end, reads that fit the vessel. */
  predicate LegalAsk(a: Ask, chunk: nat)
  {
    && 1 <= a.op < 16
    && match a
       case OfBytes(op, p) => IsControl(op) ==> |p| <= 125
       case OfReader(op, rs) =>
         && HowEnded(rs) != NoError
         && forall i :: 0 <= i < |rs| ==> |rs[i].data| <= chunk && (IsControl(op) ==> |rs[i].data| <= 125)
  }

  /**
   * What the k-th frame of a call completes: of `Dispatch` the one that reaches the end of the payload completes it;
   * of `DispatchReader` the one whose read reports EOF completes all that was read, but control frames are complete
   * one by one.
   */
  function Finished(a: Ask, chunk: nat, k: nat): (ms: seq<Message>)
  {
    match a
    case OfBytes(op, p) => if (k + 1) * chunk >= |p| then [Message(op, p)] else []
    case OfReader(op, rs) =>
      if k >= |rs| then []
      else if op >= 8 then [Message(op, rs[k].data)]
      else if rs[k].end == AtEof then [Message(op, Flatten(Data(rs[..k + 1])))]
      else []
  }

  predicate LogOf(asks: seq<Ask>, chunk: nat, log: seq<Event>)
    requires chunk > 0
  {
    forall i :: 0 <= i < |log| ==>
      var e := log[i];
      && e.t < |asks| && LegalAsk(asks[e.t], chunk)
      && e.job == InvocationOf(asks[e.t], chunk).job && e.k < |e.job.frags|
  }

  /** What the frames of a history complete, in order. */
  function Arrived(asks: seq<Ask>, chunk: nat, log: seq<Event>): (ms: seq<Message>)
    requires chunk > 0 && LogOf(asks, chunk, log)
  {
    if log == [] then [] else Finished(asks[log[0].t], chunk, log[0].k) + Arrived(asks, chunk, log[1..])
  }

  lemma {:induction false} FramesAreSmall(a: Ask, chunk: nat, k: nat)
    requires chunk >= 125 && LegalAsk(a, chunk) && k < |InvocationOf(a, chunk).job.frags|
    ensures var g := InvocationOf(a, chunk).job.frags[k];
            |g.payload| <= chunk && (IsControl(a.op) ==> |g.payload| <= 125)
  {
    hide ChunkCount, Concat;
    match a
    case OfBytes(op, p) => SplitIsPartition(p, chunk);
    case OfReader(op, rs) => ReaderFragsAt(rs);
  }

  lemma {:induction false} ToldIsFinished(a: Ask, chunk: nat, k: nat)
    requires chunk >= 125 && LegalAsk(a, chunk) && k < |InvocationOf(a, chunk).job.frags|
    ensures Told(InvocationOf(a, chunk).job, k) == Finished(a, chunk, k)
  {
    hide Concat, Flatten;
    match a {
      case OfBytes(op, p) =>
        if IsControl(op) {
          assert SplitSpec(p, chunk) == [Frag(p, Final)];
        } else {
          PayloadsSurvive(op, p, chunk, [], k);
        }
      case OfReader(op, rs) =>
        ReaderFragsAt(rs);
        if !IsControl(op) {
          PayloadsSurvive(op, [], chunk, rs, k);
        }
    }
  }

  lemma {:induction false} ToldIsArrived(asks: seq<Ask>, chunk: nat, jobs: seq<Job>, log: seq<Event>)
    requires chunk >= 125 && LogOf(asks, chunk, log) && JobsMatch(jobs, log)
    ensures AllTold(jobs, log) == Arrived(asks, chunk, log)
  {
    if log != [] {
      var e := log[0];
      assert e.job == InvocationOf(asks[e.t], chunk).job;
      ToldIsFinished(asks[e.t], chunk, e.k);
      hide InvocationOf, Told, Finished, LegalAsk;
      ToldIsArrived(asks, chunk, jobs, log[1..]);
    }
  }

  /** What agreement gives: streams on both sides, no compression, clients masking, ids of at least 1. */
  lemma {:induction false} AgreedPeer(link: Link)
    requires link.Agreed() && link.Streams()
    ensures var peer := link.Peer();
            && peer.streamable && !peer.compressable && peer.fromClient == link.toServer
            && peer.extra == link.Sender().privateMask && PrivateMaskOk(peer.extra)
            && 1 <= link.Sender().maxStreams <= MAX_STREAMS_IN_THEORY
            && link.Sender().chunkSize > 0
  {
    hide ServerSide, ClientSide, ClientRequest, SetupSpec;
    BothSidesAgree(link.client, link.server);
    SettledFacts(link.client);
    SettledFacts(link.server);
  }

  lemma {:induction false} TypeOf(a: Ask, chunk: nat)
    requires chunk > 0 && LegalAsk(a, chunk)
    ensures InvocationOf(a, chunk).job.op == a.op && a.op >= 1
  {
  }

  /** The peer of an agreed link fits every history of legal calls (section 5.5 of RFC 6455 on control frames). */
  lemma {:induction false} AgreedPeersFit(link: Link, asks: seq<Ask>, log: seq<Event>)
    requires link.Agreed() && link.Streams() && link.ChunksFit(STREAM_BYTES)
    requires link.Sender().chunkSize >= 125 && AllOk(log) && LogOf(asks, link.Sender().chunkSize, log)
    ensures PeerFits(link.Peer(), log, link.toServer)
  {
    AgreedPeer(link);
    hide ServerSide, ClientSide, ClientRequest, Settled, InvocationOf, LegalAsk, StreamHead;
    forall i | 0 <= i < |log|
      ensures && 1 <= log[i].job.op
              && (IsControl(log[i].job.op) ==> |FragOf(log[i]).payload| <= 125)
              && WithinLimits(|Body(FrameOf(log[i]))|, link.Peer())
    {
      var e, chunk := log[i], link.Sender().chunkSize;
      assert EventOk(e) && e.job == InvocationOf(asks[e.t], chunk).job && LegalAsk(asks[e.t], chunk);
      TypeOf(asks[e.t], chunk);
      FramesAreSmall(asks[e.t], chunk, e.k);
    }
  }

  /** The calls of the schedule are these. */
  ghost predicate AsksOf(asks: seq<Ask>, chunk: nat, steps: seq<Step>)
    requires chunk > 0
  {
    && |Asked(steps)| == |asks|
    && forall t :: 0 <= t < |asks| ==> LegalAsk(asks[t], chunk) && Asked(steps)[t] == InvocationOf(asks[t], chunk)
  }

  lemma {:induction false} LogIsOfAsks(asks: seq<Ask>, chunk: nat, steps: seq<Step>, s: State, max: nat)
    requires chunk > 0 && 1 <= max && Run(steps, max) == Some(s) && AsksOf(asks, chunk, steps) && AllOk(s.log)
    ensures LogOf(asks, chunk, s.log)
  {
    CallsAreAsAsked(steps, max, s);
    hide Run, Asked, LegalAsk, InvocationOf;
    forall i | 0 <= i < |s.log|
      ensures var e := s.log[i];
              && e.t < |asks| && LegalAsk(asks[e.t], chunk)
              && e.job == InvocationOf(asks[e.t], chunk).job && e.k < |e.job.frags|
    {
      assert EventOk(s.log[i]);
    }
  }

  lemma {:induction false} NoCloseAsked(asks: seq<Ask>, chunk: nat, steps: seq<Step>)
    requires chunk > 0 && AsksOf(asks, chunk, steps) && forall t :: 0 <= t < |asks| ==> asks[t].op != CLOSE_OP
    ensures forall t :: 0 <= t < |Jobs(steps)| ==> Jobs(steps)[t].op != CLOSE_OP
  {
    hide Asked, InvocationOf, LegalAsk;
    forall t | 0 <= t < |asks|
      ensures InvocationOf(asks[t], chunk).job.op != CLOSE_OP
    {
      TypeOf(asks[t], chunk);
    }
  }

  /**
   * From the handshake to the handlers: over an agreed streaming link, with a limit below 32768, chunks that fit, no
   * failed allocation, no close message and full reads, whatever is asked of `Dispatch` and `DispatchReader` and
   * written in full is triggered on the other side: those bytes, once, in the order the last frames were written.
   * (Settled chunk sizes are all of 4096 bytes or more.)
   */
  lemma {:induction false} MessagesArrive(link: Link, asks: seq<Ask>, steps: seq<Step>, s: State, xs: seq<Sent>,
                                          full: nat -> bool)
    requires link.Agreed() && link.Streams() && link.ChunksFit(STREAM_BYTES)
    requires 125 <= link.Sender().chunkSize && 0 < link.Sender().maxStreams < MAX_STREAMS_IN_THEORY
    requires Run(steps, link.Sender().maxStreams) == Some(s) && !s.broken
    requires AsksOf(asks, link.Sender().chunkSize, steps) && AllOk(s.log) && WritesOf(xs, s.log)
    requires forall i :: 0 <= i < |xs| ==> xs[i].key.Some? == link.toServer
    requires forall t :: 0 <= t < |s.calls| ==> !Exhausted(s.calls[t])
    requires forall t :: 0 <= t < |asks| ==> asks[t].op != CLOSE_OP
    requires forall p: nat :: full(p)
    ensures PrivateMaskOk(link.Sender().privateMask) && PrivateMaskOk(link.Peer().extra)
    ensures LogOf(asks, link.Sender().chunkSize, s.log)
    ensures Triggered(WireBytes(xs, link.Sender().privateMask), link.Peer(), full)
         == Arrived(asks, link.Sender().chunkSize, s.log)
    ensures forall t :: 0 <= t < |s.calls| && IsDataCall(s.calls[t]) ==>
              Completions(s.log, t) == if FinalWritten(s.calls[t]) then 1 else 0
  {
    var chunk, max := link.Sender().chunkSize, link.Sender().maxStreams;
    AgreedPeer(link);
    LogIsOfAsks(asks, chunk, steps, s, max);
    AgreedPeersFit(link, asks, s.log);
    NoCloseAsked(asks, chunk, steps);
    hide Triggered, WireBytes, AllTold, Completions, FinalWritten, Exhausted, Arrived, LogOf, JobsMatch, Jobs;
    hide Run, PeerFits, ServerSide, ClientSide, ClientRequest, Settled, AsksOf;
    EverythingArrives(steps, s, max, xs, link.toServer, link.Peer(), full);
    ToldIsArrived(asks, chunk, Jobs(steps), s.log);
  }

  /** The message a call is for. */
  function Whole(a: Ask): (m: Message)
  {
    match a
    case OfBytes(op, p) => Message(op, p)
    case OfReader(op, rs) => Message(op, DataRead(rs))
  }

  lemma {:induction false} ArrivedContains(asks: seq<Ask>, chunk: nat, log: seq<Event>, i: nat, m: Message)
    requires chunk > 0 && LogOf(asks, chunk, log) && i < |log| && log[i].t < |asks|
    requires m in Finished(asks[log[i].t], chunk, log[i].k)
    ensures m in Arrived(asks, chunk, log)
  {
    hide LegalAsk, InvocationOf, Finished;
    if i > 0 {
      ArrivedContains(asks, chunk, log[1..], i - 1, m);
    }
  }

  /** The last frame of a call that is not cancelled completes it. */
  lemma {:induction false} LastFrameFinishes(a: Ask, chunk: nat)
    requires chunk >= 125 && LegalAsk(a, chunk) && (a.OfReader? ==> HowEnded(a.rs) == AtEof && !IsControl(a.op))
    ensures var n := |InvocationOf(a, chunk).job.frags|; n > 0 && Whole(a) in Finished(a, chunk, n - 1)
  {
    hide Concat, Flatten, ChunkCount;
    match a
    case OfBytes(op, p) =>
      SplitIsPartition(p, chunk);
      ChunkCountIsCeiling(|p|, chunk);
    case OfReader(op, rs) =>
      ReaderFragsFacts(rs);
      ReaderFragsAt(rs);
      DataReadIs(rs);
  }

  /**
   * So when such a call returns and has not failed, its message is among those triggered; a `DispatchReader` of a
   * control message, and one whose source failed, apart.
   */
  lemma {:induction false} SuccessArrives(link: Link, asks: seq<Ask>, steps: seq<Step>, s: State, t: nat)
    requires link.Agreed() && link.Streams() && 125 <= link.Sender().chunkSize && 0 < link.Sender().maxStreams
    requires Run(steps, link.Sender().maxStreams) == Some(s)
    requires AsksOf(asks, link.Sender().chunkSize, steps) && LogOf(asks, link.Sender().chunkSize, s.log)
    requires t < |asks| && t < |s.calls| && s.calls[t].pc == Done && !HasFailed(steps, t, link.Sender().maxStreams)
    requires asks[t].OfReader? ==> HowEnded(asks[t].rs) == AtEof && !IsControl(asks[t].op)
    ensures Whole(asks[t]) in Arrived(asks, link.Sender().chunkSize, s.log)
  {
    var chunk, max := link.Sender().chunkSize, link.Sender().maxStreams;
    WhatCallsWrite(steps, max, s, t);
    LastFrameFinishes(asks[t], chunk);
    hide Run, HasFailed, Asked, InvocationOf, LegalAsk, Finished, Whole, Arrived, Written;
    var k := |Jobs(steps)[t].frags| - 1;
    assert UpTo(k + 1)[k] == k;
    WrittenIsLogged(s.log, t, k);
    var i :| 0 <= i < |s.log| && s.log[i].t == t && s.log[i].k == k;
    ArrivedContains(asks, chunk, s.log, i, Whole(asks[t]));
  }

  // ---------------------------------------------------------------- without streams

  /** What the first w frames of a call say; all of them are its chunks, or its reads up to the first error. */
  function SaidOf(a: Ask, chunk: nat, w: nat): (ms: seq<Message>)
  {
    match a
    case OfBytes(op, p) => if w > 0 && w * chunk >= |p| then [Message(op, p)] else []
    case OfReader(op, rs) =>
      if w == 0 || w > |rs| then []
      else if op == 8 then [Message(op, rs[0].data)]
      else if op > 8 then seq(w, k requires 0 <= k < w => Message(op, rs[k].data))
      else if rs[w - 1].end == AtEof then [Message(op, Flatten(Data(rs[..w])))]
      else []
  }

  lemma {:induction false} SaidByBytes(op: byte, p: seq<byte>, chunk: nat, w: nat)
    requires chunk >= 125 && LegalAsk(OfBytes(op, p), chunk) && w <= |SplitSpec(p, chunk)|
    ensures T.Said(DispatchJob(op, p, chunk), w) == SaidOf(OfBytes(op, p), chunk, w)
  {
    hide Concat, ChunkCount;
    SplitIsPartition(p, chunk);
    if IsControl(op) {
      assert SplitSpec(p, chunk) == [Frag(p, Final)];
    } else if w > 0 {
      SplitAt(p, chunk, w - 1);
      ChunkOfRest(|p|, chunk, w - 1);
      Times(w - 1, w, chunk);
    }
  }

  lemma {:induction false} SaidByReader(op: byte, rs: seq<ReadResult>, w: nat)
    requires HowEnded(rs) != NoError && w <= |ReaderFrags(rs)|
    ensures T.Said(ReaderJob(op, rs), w) == SaidOf(OfReader(op, rs), 1, w)
  {
    hide Concat, Flatten, ReaderFrags;
    ReaderFragsAt(rs);
    ReaderFragsFacts(rs);
    DataReadIs(rs);
  }

  lemma {:induction false} SaidByAsk(a: Ask, chunk: nat, w: nat)
    requires chunk >= 125 && LegalAsk(a, chunk) && w <= |InvocationOf(a, chunk).job.frags|
    ensures T.Said(InvocationOf(a, chunk).job, w) == SaidOf(a, chunk, w)
  {
    hide T.Said;
    match a
    case OfBytes(op, p) => SaidByBytes(op, p, chunk, w);
    case OfReader(op, rs) => SaidByReader(op, rs, w);
  }

  /** What the calls say, in lock order, up to a close message. */
  function SaidByAll(asks: seq<Ask>, chunk: nat, ws: seq<nat>, order: seq<nat>): (ms: seq<Message>)
    requires |ws| == |asks| && forall i :: 0 <= i < |order| ==> order[i] < |asks|
  {
    if order == [] then []
    else
      var t := order[0];
      SaidOf(asks[t], chunk, ws[t])
      + (if asks[t].op == 8 && ws[t] > 0 then [] else SaidByAll(asks, chunk, ws, order[1..]))
  }

  /** The calls of the schedule are these. */
  ghost predicate PlainAsksOf(asks: seq<Ask>, chunk: nat, steps: seq<S.SStep>)
    requires chunk > 0
  {
    && |T.Asked(steps)| == |asks|
    && forall t :: 0 <= t < |asks| ==> LegalAsk(asks[t], chunk) && T.Asked(steps)[t] == InvocationOf(asks[t], chunk).job
  }

  lemma {:induction false} SaidByAllIs(asks: seq<Ask>, chunk: nat, steps: seq<S.SStep>, ws: seq<nat>, order: seq<nat>)
    requires chunk >= 125 && PlainAsksOf(asks, chunk, steps) && T.Fit(T.Asked(steps), ws, order)
    ensures T.SaidAll(T.Asked(steps), ws, order) == SaidByAll(asks, chunk, ws, order)
  {
    hide T.Asked, LegalAsk, InvocationOf, T.Said, SaidOf;
    if order != [] {
      var t := order[0];
      SaidByAsk(asks[t], chunk, ws[t]);
      TypeOf(asks[t], chunk);
      SaidByAllIs(asks, chunk, steps, ws, order[1..]);
    }
  }

  lemma {:induction false} PlainPeer(link: Link)
    requires link.Agreed() && link.Plain()
    ensures var peer := link.Peer();
            && !peer.streamable && !peer.compressable && peer.fromClient == link.toServer
            && peer.extra == link.Sender().privateMask && PrivateMaskOk(peer.extra)
            && link.Sender().chunkSize >= DEFAULT_CHUNK_SIZE
  {
    hide ServerSide, ClientSide, ClientRequest, SetupSpec;
    BothSidesAgree(link.client, link.server);
    SettledFacts(link.client);
    SettledFacts(link.server);
  }

  lemma {:induction false} BlockAt(job: Job, w: nat, k: nat)
    requires k < w <= |job.frags|
    ensures S.Block(job, w)[k] == S.PlainFrame(job, k)
  {
    if k < w - 1 {
      BlockAt(job, w - 1, k);
    }
  }

  /** Every frame on the wire is one of the blocks'. */
  lemma {:induction false} FromSomeBlock(calls: seq<S.SCall>, order: seq<nat>, i: nat)
    requires forall j :: 0 <= j < |order| ==> order[j] < |calls|
    requires forall t :: 0 <= t < |calls| ==> S.SCallOk(calls[t])
    requires i < |S.Blocks(calls, order)|
    ensures exists t, k :: 0 <= t < |calls| && 0 <= k < |calls[t].job.frags|
                           && S.Blocks(calls, order)[i] == S.PlainFrame(calls[t].job, k)
  {
    assert forall t :: 0 <= t < |calls| ==> calls[t].written <= |calls[t].job.frags|;
    hide S.SCallOk, S.Block, S.PlainFrame;
    var n := |order| - 1;
    var front := S.Blocks(calls, order[..n]);
    if i < |front| {
      FromSomeBlock(calls, order[..n], i);
    } else {
      var c := calls[order[n]];
      BlockAt(c.job, c.written, i - |front|);
      assert S.Blocks(calls, order)[i] == S.PlainFrame(c.job, i - |front|);
    }
  }

  lemma {:induction false} PlainFrameFits(link: Link, a: Ask, k: nat)
    requires link.Agreed() && link.Plain() && link.ChunksFit(0) && LegalAsk(a, link.Sender().chunkSize)
    requires link.Sender().chunkSize >= 125 && k < |InvocationOf(a, link.Sender().chunkSize).job.frags|
    ensures Acceptable(S.PlainFrame(InvocationOf(a, link.Sender().chunkSize).job, k), link.toServer, link.Peer())
  {
    PlainPeer(link);
    TypeOf(a, link.Sender().chunkSize);
    FramesAreSmall(a, link.Sender().chunkSize, k);
    hide ServerSide, ClientSide, ClientRequest, Settled, InvocationOf, LegalAsk;
  }

  lemma {:induction false} PlainFramesFit(link: Link, asks: seq<Ask>, steps: seq<S.SStep>, s: S.SState, i: nat)
    requires link.Agreed() && link.Plain() && link.ChunksFit(0) && link.Sender().chunkSize >= 125
    requires S.Play(steps) == Some(s) && PlainAsksOf(asks, link.Sender().chunkSize, steps) && i < |s.wire|
    ensures Acceptable(s.wire[i], link.toServer, link.Peer())
  {
    var chunk := link.Sender().chunkSize;
    T.WireIsSerial(steps, s);
    FromSomeBlock(s.calls, s.order, i);
    hide ServerSide, ClientSide, ClientRequest, Settled, InvocationOf, LegalAsk, T.Asked, Acceptable;
    hide S.Play, S.PlainFrame, S.SCallOk, S.Blocks;
    var t, k :| 0 <= t < |s.calls| && 0 <= k < |s.calls[t].job.frags| && s.wire[i] == S.PlainFrame(s.calls[t].job, k);
    PlainFrameFits(link, asks[t], k);
  }

  /**
   * The same over an agreed link without streams: with chunks that fit and full reads, exactly what is asked of
   * `Dispatch` and `DispatchReader` and written in full is triggered, those bytes, in the order the write lock was
   * taken, up to a close message: if and only if no completed message met the remains of an abandoned one.
   */
  lemma {:induction false} PlainMessagesArrive(link: Link, asks: seq<Ask>, steps: seq<S.SStep>, s: S.SState,
                                               xs: seq<Sent>, full: nat -> bool)
    requires link.Agreed() && link.Plain() && link.ChunksFit(0) && link.Sender().chunkSize >= 125
    requires S.Play(steps) == Some(s) && PlainAsksOf(asks, link.Sender().chunkSize, steps)
    requires FramesOf(xs) == s.wire && AllSentOk(xs)
    requires forall i :: 0 <= i < |xs| ==> xs[i].key.Some? == link.toServer
    requires forall p: nat :: full(p)
    ensures PrivateMaskOk(link.Sender().privateMask) && PrivateMaskOk(link.Peer().extra)
    ensures |s.calls| == |asks| && forall i :: 0 <= i < |T.LocksTaken(steps)| ==> T.LocksTaken(steps)[i] < |asks|
    ensures forall i :: 0 <= i < |s.order| ==> s.order[i] < |s.calls|
    ensures forall t :: 0 <= t < |s.calls| ==> S.SCallOk(s.calls[t])
    ensures S.AllCallsOk(S.InOrder(s.calls, s.order))
    ensures Triggered(WireBytes(xs, link.Sender().privateMask), link.Peer(), full)
            == SaidByAll(asks, link.Sender().chunkSize, T.Counts(s.calls), T.LocksTaken(steps))
       <==> S.NothingFound(S.InOrder(s.calls, s.order))
  {
    var chunk, peer := link.Sender().chunkSize, link.Peer();
    PlainPeer(link);
    T.WireIsSerial(steps, s);
    forall i | 0 <= i < |xs|
      ensures Acceptable(xs[i].frame, xs[i].key.Some?, peer)
    {
      PlainFramesFit(link, asks, steps, s, i);
      assert xs[i].frame == FramesOf(xs)[i];
    }
    NothingIsInventedSerially(steps, s, xs, 0, peer, full);
    SaidByAllIs(asks, chunk, steps, T.Counts(s.calls), s.order);
  }
}
