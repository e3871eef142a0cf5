/**
 * The second half of the loop in `Start` (TriggerOnStart off): pending messages by stream id, merging, triggering;
 * and the imperative receiver that keeps them in a map it updates.
 */
module Receiver {
  import opened Bytes
  import opened Frames

  /** A message under assembly, and a message handed to the handlers. */
  datatype Message = Message(op: byte, payload: seq<byte>)

  datatype RState = RState(pending: map<nat, Message>, delivered: seq<Message>, stopped: bool)

  const NOTHING_YET := RState(map[], [], false)

  const CLOSE_OP: byte := 8

  /** Stream ids that do not survive the wire: 0, left by a failed allocation, and 32768, which needs the cancel bit. */
  predicate BadId(f: Frame)
  {
    f.stream && (f.sid == 0 || f.sid >= MAX_STREAMS_IN_THEORY)
  }

  /** Frames after which `Start` returns. */
  predicate Stops(f: Frame)
  {
    BadId(f) || f.op == CLOSE_OP
  }

  /** A cancel bit drops whatever is pending for the id. */
  function Cancelled(r: RState, f: Frame): (r': RState)
  {
    if f.stream && f.cancel then r.(pending := r.pending - {f.sid}) else r
  }

  /** A data frame meets the pending message of its stream id, if there is one. */
  function Accept(r: RState, f: Frame): (r': RState)
    ensures r'.stopped == r.stopped
  {
    if f.sid in r.pending then
      var p := r.pending[f.sid];
      var merged := Message(p.op, p.payload + f.payload);
      if f.fin then r.(pending := r.pending - {f.sid}, delivered := r.delivered + [merged])
      else r.(pending := r.pending[f.sid := merged])
    else if f.fin then r.(delivered := r.delivered + [Message(f.op, f.payload)])
    else r.(pending := r.pending[f.sid := Message(f.op, f.payload)])
  }

  /** One turn of the loop: the cancel bit is honoured first, then the frame counts as any other. */
  function RecvStep(r: RState, f: Frame): (r': RState)
    ensures r.delivered <= r'.delivered
    ensures r.stopped ==> r' == r
    ensures !r.stopped ==> (r'.stopped <==> Stops(f))
  {
    if r.stopped then r
    else if BadId(f) then r.(stopped := true)
    else if IsControl(f.op) then
      Cancelled(r, f).(delivered := r.delivered + [Message(f.op, f.payload)], stopped := f.op == CLOSE_OP)
    else Accept(Cancelled(r, f), f)
  }

  function DemuxFrom(r: RState, fs: seq<Frame>): (r': RState)
  {
    if fs == [] then r else RecvStep(DemuxFrom(r, fs[..|fs| - 1]), fs[|fs| - 1])
  }

  /** The receiver after a sequence of frames. */
  function Demux(fs: seq<Frame>): (r: RState)
  {
    DemuxFrom(NOTHING_YET, fs)
  }

  lemma {:induction false} DemuxSnoc(r: RState, fs: seq<Frame>, f: Frame)
    ensures DemuxFrom(r, fs + [f]) == RecvStep(DemuxFrom(r, fs), f)
  {
    assert (fs + [f])[..|fs|] == fs;
  }

  lemma {:induction false} DemuxConcat(r: RState, a: seq<Frame>, b: seq<Frame>)
    ensures DemuxFrom(r, a + b) == DemuxFrom(DemuxFrom(r, a), b)
  {
    if b == [] {
      assert a + b == a;
    } else {
      hide RecvStep;
      var n := |b| - 1;
      DemuxConcat(r, a, b[..n]);
      assert a + b == (a + b[..n]) + [b[n]];
      DemuxSnoc(r, a + b[..n], b[n]);
    }
  }

  /** More frames only add to what was delivered. */
  lemma {:induction false} DeliveredGrows(r: RState, fs: seq<Frame>)
    ensures r.delivered <= DemuxFrom(r, fs).delivered
    ensures r.stopped ==> DemuxFrom(r, fs) == r
  {
    hide RecvStep;
    if fs != [] {
      DeliveredGrows(r, fs[..|fs| - 1]);
    }
  }

  /** A receiver that sees only the first frames delivers a prefix of what it would have delivered. */
  lemma {:induction false} PrefixDelivers(fs: seq<Frame>, k: nat)
    requires k <= |fs|
    ensures Demux(fs[..k]).delivered <= Demux(fs).delivered
    ensures Demux(fs[..k]).stopped ==> Demux(fs) == Demux(fs[..k])
  {
    assert fs == fs[..k] + fs[k..];
    DemuxConcat(NOTHING_YET, fs[..k], fs[k..]);
    DeliveredGrows(Demux(fs[..k]), fs[k..]);
  }

  /** The receiving side of a Connection: `pendingStreams`, and the messages its handlers were triggered with. */
  class Inbox {
    var pendingStreams: map<nat, Message>
    var triggered: seq<Message>
    var done: bool

    ghost function State(): (r: RState)
      reads this
    {
      RState(pendingStreams, triggered, done)
    }

    constructor ()
      ensures State() == NOTHING_YET
    {
      pendingStreams, triggered, done := map[], [], false;
    }

    method TriggerMessage(m: Message)
      modifies this`triggered
      ensures triggered == old(triggered) + [m]
    {
      triggered := triggered + [m];
    }

    /** The body of the loop after the frame is decoded. */
    method Handle(f: Frame)
      requires !done
      modifies this
      ensures State() == RecvStep(old(State()), f)
    {
      if f.stream {
        if f.sid == 0 || f.sid >= MAX_STREAMS_IN_THEORY {
          done := true;
          return;
        }
        if f.cancel {
          pendingStreams := pendingStreams - {f.sid};
        }
      }
      if IsControl(f.op) {
        TriggerMessage(Message(f.op, f.payload));
        done := f.op == CLOSE_OP;
        return;
      }
      if f.sid in pendingStreams {
        var pending := pendingStreams[f.sid];
        pendingStreams := pendingStreams[f.sid := Message(pending.op, pending.payload + f.payload)];
        if f.fin {
          TriggerMessage(pendingStreams[f.sid]);
          pendingStreams := pendingStreams - {f.sid};
        }
      } else if !f.fin {
        pendingStreams := pendingStreams[f.sid := Message(f.op, f.payload)];
      } else {
        TriggerMessage(Message(f.op, f.payload));
      }
    }
  }
}
