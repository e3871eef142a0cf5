/**
 * What demultiplexing makes of any frames whatever, from any sender: each message is put together from the data frames
 * with its key since the last one that ended a message with that key, or cancelled it.
 */
module Assembly {
  import opened Bytes
  import opened Frames
  import opened Receiver

  /** A part of a message with this key. */
  predicate IsPart(f: Frame, key: nat)
  {
    f.op < 8 && f.sid == key
  }

  /** A frame of any type whose cancel bit is set drops what there is under its id; a part then counts as the first. */
  predicate Drops(f: Frame, key: nat)
  {
    f.stream && f.cancel && f.sid == key
  }

  /** From which frame on, of the first n, the parts belong to a message with this key that is still unfinished. */
  function Since(fs: seq<Frame>, n: nat, key: nat): (start: nat)
    requires n <= |fs|
    ensures start <= n
  {
    if n == 0 then 0
    else if IsPart(fs[n - 1], key) && fs[n - 1].fin then n
    else if Drops(fs[n - 1], key) then n - 1
    else Since(fs, n - 1, key)
  }

  /** The parts with this key among frames a to n. */
  function Parts(fs: seq<Frame>, a: nat, n: nat, key: nat): (parts: seq<Frame>)
    requires a <= n <= |fs|
    decreases n
  {
    if n == a then [] else Parts(fs, a, n - 1, key) + (if IsPart(fs[n - 1], key) then [fs[n - 1]] else [])
  }

  function Payload(parts: seq<Frame>): (p: seq<byte>)
  {
    if parts == [] then [] else Payload(parts[..|parts| - 1]) + parts[|parts| - 1].payload
  }

  /** The type of the first part, and all payloads in order. */
  function Assembled(parts: seq<Frame>): (m: Message)
    requires parts != []
  {
    Message(parts[0].op, Payload(parts))
  }

  /** What a frame finds of its message. */
  function Found(f: Frame, parts: seq<Frame>): (found: seq<Frame>)
  {
    if Drops(f, f.sid) then [] else parts
  }

  /** What frame n triggers: a control message; or, at a final part, the message it ends. */
  function Triggers(fs: seq<Frame>, n: nat): (ms: seq<Message>)
    requires n < |fs|
  {
    var f := fs[n];
    if f.op >= 8 then [Message(f.op, f.payload)]
    else if !f.fin then []
    else [Assembled(Found(f, Parts(fs, Since(fs, n, f.sid), n, f.sid)) + [f])]
  }

  predicate StopsBefore(fs: seq<Frame>, n: nat)
    requires n <= |fs|
  {
    exists i :: 0 <= i < n && Stops(fs[i])
  }

  /** What the first n frames trigger, up to a close message or a stream frame with an impossible id. */
  function TriggersAll(fs: seq<Frame>, n: nat): (ms: seq<Message>)
    requires n <= |fs|
  {
    if n == 0 then []
    else if StopsBefore(fs, n - 1) || BadId(fs[n - 1]) then TriggersAll(fs, n - 1)
    else TriggersAll(fs, n - 1) + Triggers(fs, n - 1)
  }

  /** What there is of a message, as the receiver holds it. */
  predicate Holds(pending: map<nat, Message>, key: nat, parts: seq<Frame>)
  {
    (key in pending <==> parts != []) && (key in pending ==> pending[key] == Assembled(parts))
  }

  /** Under each key exactly the unfinished message with that key. */
  ghost predicate PendingIs(pending: map<nat, Message>, fs: seq<Frame>, n: nat)
    requires n <= |fs|
  {
    forall key: nat :: Holds(pending, key, Parts(fs, Since(fs, n, key), n, key))
  }

  lemma {:induction false} AssembledSnoc(parts: seq<Frame>, f: Frame)
    ensures Payload(parts + [f]) == Payload(parts) + f.payload
    ensures parts != [] ==> Assembled(parts + [f]) == Message(parts[0].op, Assembled(parts).payload + f.payload)
    ensures parts == [] ==> Assembled(parts + [f]) == Message(f.op, f.payload)
  {
    assert (parts + [f])[..|parts|] == parts;
    if parts == [] {
      assert Payload(parts + [f]) == [] + f.payload == f.payload;
    }
  }

  /** One frame, seen from another key. */
  lemma {:induction false} OtherKey(fs: seq<Frame>, n: nat, next: nat, key: nat)
    requires next == n + 1 <= |fs| && fs[n].sid != key
    ensures Parts(fs, Since(fs, next, key), next, key) == Parts(fs, Since(fs, n, key), n, key)
  {
  }

  /** And from its own. */
  lemma {:induction false} OwnKey(fs: seq<Frame>, n: nat, next: nat)
    requires next == n + 1 <= |fs|
    ensures var f := fs[n];
            var had := Found(f, Parts(fs, Since(fs, n, f.sid), n, f.sid));
            Parts(fs, Since(fs, next, f.sid), next, f.sid)
            == if f.op >= 8 then had else if f.fin then [] else had + [f]
  {
    assert Parts(fs, n, n, fs[n].sid) == [];
  }

  /** One frame on top of what was held under its key. */
  lemma {:induction false} FrameOnTop(r: RState, f: Frame, parts: seq<Frame>)
    requires !r.stopped && !BadId(f) && Holds(r.pending, f.sid, parts)
    ensures Holds(RecvStep(r, f).pending, f.sid,
                  if f.op >= 8 then Found(f, parts) else if f.fin then [] else Found(f, parts) + [f])
    ensures f.op >= 8 ==> RecvStep(r, f).delivered == r.delivered + [Message(f.op, f.payload)]
    ensures f.op < 8 && f.fin ==> RecvStep(r, f).delivered == r.delivered + [Assembled(Found(f, parts) + [f])]
    ensures f.op < 8 && !f.fin ==> RecvStep(r, f).delivered == r.delivered
    ensures forall key | key != f.sid ::
              && (key in RecvStep(r, f).pending <==> key in r.pending)
              && (key in r.pending ==> RecvStep(r, f).pending[key] == r.pending[key])
  {
    AssembledSnoc(Found(f, parts), f);
    hide Payload;
  }

  lemma {:induction false} DeliveredNext(r: RState, fs: seq<Frame>, n: nat)
    requires n < |fs| && !r.stopped && !BadId(fs[n]) && PendingIs(r.pending, fs, n)
    ensures RecvStep(r, fs[n]).delivered == r.delivered + Triggers(fs, n)
  {
    hide RecvStep, Assembled, Since, Parts, Found, Holds;
    assert Holds(r.pending, fs[n].sid, Parts(fs, Since(fs, n, fs[n].sid), n, fs[n].sid));
    FrameOnTop(r, fs[n], Parts(fs, Since(fs, n, fs[n].sid), n, fs[n].sid));
    assert r.delivered + [] == r.delivered;
  }

  lemma {:induction false} PendingNext(r: RState, fs: seq<Frame>, n: nat, next: nat)
    requires next == n + 1 <= |fs| && !r.stopped && !BadId(fs[n]) && PendingIs(r.pending, fs, n)
    ensures PendingIs(RecvStep(r, fs[n]).pending, fs, next)
  {
    var f := fs[n];
    OwnKey(fs, n, next);
    hide RecvStep, Assembled, Since, Parts, Found, Triggers;
    FrameOnTop(r, f, Parts(fs, Since(fs, n, f.sid), n, f.sid));
    forall key: nat
      ensures Holds(RecvStep(r, f).pending, key, Parts(fs, Since(fs, next, key), next, key))
    {
      if key != f.sid {
        OtherKey(fs, n, next, key);
        assert Holds(r.pending, key, Parts(fs, Since(fs, n, key), n, key));
      }
    }
  }

  /** The receiver after n frames. */
  ghost predicate HasAssembled(r: RState, fs: seq<Frame>, n: nat)
    requires n <= |fs|
  {
    && (r.stopped <==> StopsBefore(fs, n))
    && r.delivered == TriggersAll(fs, n)
    && (!r.stopped ==> PendingIs(r.pending, fs, n))
  }

  lemma {:induction false} StopsNext(fs: seq<Frame>, n: nat, next: nat)
    requires next == n + 1 <= |fs|
    ensures StopsBefore(fs, next) <==> StopsBefore(fs, n) || Stops(fs[n])
  {
  }

  lemma {:induction false} OneFrameMore(r: RState, fs: seq<Frame>, n: nat, next: nat)
    requires next == n + 1 <= |fs| && HasAssembled(r, fs, n)
    ensures HasAssembled(RecvStep(r, fs[n]), fs, next)
  {
    StopsNext(fs, n, next);
    if !r.stopped && !BadId(fs[n]) {
      PendingNext(r, fs, n, next);
      DeliveredNext(r, fs, n);
      hide RecvStep, PendingIs, Triggers, StopsBefore;
    } else {
      assert RecvStep(r, fs[n]).delivered == r.delivered;
      hide RecvStep, PendingIs, Triggers, StopsBefore;
    }
  }

  lemma {:induction false} NothingAssembled(fs: seq<Frame>)
    ensures HasAssembled(NOTHING_YET, fs, 0)
  {
  }

  lemma {:induction false} FramesAssembled(fs: seq<Frame>, n: nat)
    requires n <= |fs|
    ensures HasAssembled(Demux(fs[..n]), fs, n)
  {
    hide RecvStep, HasAssembled;
    if n == 0 {
      assert fs[..0] == [];
      NothingAssembled(fs);
    } else {
      FramesAssembled(fs, n - 1);
      assert fs[..n] == fs[..n - 1] + [fs[n - 1]];
      DemuxSnoc(NOTHING_YET, fs[..n - 1], fs[n - 1]);
      OneFrameMore(Demux(fs[..n - 1]), fs, n - 1, n);
    }
  }

  /**
   * After any frames of any sender: the receiver has stopped exactly if a frame made it; it has triggered, frame by
   * frame up to there, each control message and at each final part the message of the parts since the last end or
   * cancel; and it holds the parts of every unfinished message, under its key, and nothing else.
   */
  lemma {:induction false} DemuxAnyFrames(fs: seq<Frame>, n: nat)
    requires n <= |fs|
    ensures var r := Demux(fs[..n]);
            && (r.stopped <==> StopsBefore(fs, n))
            && r.delivered == TriggersAll(fs, n)
            && (!r.stopped ==> PendingIs(r.pending, fs, n))
  {
    FramesAssembled(fs, n);
  }
}
