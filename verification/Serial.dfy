/**
 * Without streams: each `Dispatch` or `DispatchReader` holds the write lock from its first frame to its return, so the
 * wire is a sequence of blocks, one a call, in the order the lock was taken.
 */
module Serial {
  import opened Wrappers
  import opened Bytes
  import opened Frames
  import opened Fragments
  import opened Receiver
  import opened Multiplex

  datatype SPc = Waiting | Checking(k: nat) | Writing(k: nat) | Returned

  datatype SCall = SCall(job: Job, pc: SPc, written: nat)

  /** `order`: the calls in the order they took the write lock. */
  datatype SState = SState(
    calls: seq<SCall>, writeLock: Option<nat>, order: seq<nat>, status: Status, broken: bool, wire: seq<Frame>)

  datatype SStep =
    | Arrive(job: Job)
    | TakeLock(t: nat)
    | ReadStatus(t: nat)
    | WriteFrame(t: nat)
    | NewStatus(status: Status)
    | Break

  const START := SState([], None, [], YetReady, false, [])

  /** No stream head, no cancel bit: a cancelling fragment goes out as one that announces more. */
  function PlainFrame(job: Job, k: nat): (f: Frame)
    requires k < |job.frags|
  {
    var g := job.frags[k];
    Frame(job.op, IsControl(job.op) || g.mark == Final, false, false, 0, false, g.payload)
  }

  predicate CanDo(s: SState, step: SStep)
  {
    match step
    case Arrive(job) => JobOk(job)
    case TakeLock(t) => t < |s.calls| && s.calls[t].pc == Waiting && s.writeLock == None
    case ReadStatus(t) => t < |s.calls| && s.calls[t].pc.Checking?
    case WriteFrame(t) => t < |s.calls| && s.calls[t].pc.Writing? && s.calls[t].pc.k < |s.calls[t].job.frags|
    case NewStatus(status) => status != YetReady
    case Break => true
  }

  /** Returning runs the deferred unlock. */
  function Return(s: SState, t: nat, c: SCall): (s': SState)
    requires t < |s.calls|
  {
    s.(calls := s.calls[t := c.(pc := Returned)], writeLock := None)
  }

  function Do(s: SState, step: SStep): (s': SState)
    requires CanDo(s, step)
  {
    match step
    case Arrive(job) => s.(calls := s.calls + [SCall(job, Waiting, 0)])
    case TakeLock(t) =>
      s.(calls := s.calls[t := s.calls[t].(pc := Checking(0))], writeLock := Some(t), order := s.order + [t])
    case ReadStatus(t) =>
      var c := s.calls[t];
      if s.status != Ready then Return(s, t, c) else s.(calls := s.calls[t := c.(pc := Writing(c.pc.k))])
    case WriteFrame(t) =>
      var c, k := s.calls[t], s.calls[t].pc.k;
      if s.broken then Return(s, t, c)
      else
        var c' := c.(pc := Checking(k + 1), written := k + 1);
        var s' := s.(wire := s.wire + [PlainFrame(c.job, k)]);
        if k + 1 < |c.job.frags| then s'.(calls := s.calls[t := c']) else Return(s', t, c')
    case NewStatus(status) => s.(status := status)
    case Break => s.(broken := true)
  }

  function Play(steps: seq<SStep>): (s: Option<SState>)
  {
    if steps == [] then Some(START)
    else
      var n := |steps| - 1;
      match Play(steps[..n])
      case None => None
      case Some(s) => if CanDo(s, steps[n]) then Some(Do(s, steps[n])) else None
  }

  // ---------------------------------------------------------------- the wire

  /** The frames a call has written. */
  function Block(job: Job, w: nat): (fs: seq<Frame>)
    requires w <= |job.frags|
    ensures |fs| == w
  {
    if w == 0 then [] else Block(job, w - 1) + [PlainFrame(job, w - 1)]
  }

  predicate SCallOk(c: SCall)
  {
    && JobOk(c.job)
    && c.written <= |c.job.frags|
    && (c.pc == Waiting ==> c.written == 0)
    && (c.pc.Checking? ==> c.written == c.pc.k < |c.job.frags|)
    && (c.pc.Writing? ==> c.written == c.pc.k < |c.job.frags|)
  }

  function Blocks(calls: seq<SCall>, order: seq<nat>): (fs: seq<Frame>)
    requires forall i :: 0 <= i < |order| ==> order[i] < |calls|
    requires forall t :: 0 <= t < |calls| ==> SCallOk(calls[t])
  {
    if order == [] then []
    else
      var n := |order| - 1;
      Blocks(calls, order[..n]) + Block(calls[order[n]].job, calls[order[n]].written)
  }

  predicate Busy(c: SCall)
  {
    c.pc.Checking? || c.pc.Writing?
  }

  /** The lock is held by the last call that took it, until it returns; no call takes it twice. */
  ghost predicate OrderOk(s: SState)
  {
    && (forall i :: 0 <= i < |s.order| ==> s.order[i] < |s.calls|)
    && (forall i, j :: 0 <= i < j < |s.order| ==> s.order[i] != s.order[j])
    && (forall t :: 0 <= t < |s.calls| && t !in s.order ==> s.calls[t].pc == Waiting)
    && (forall t :: 0 <= t < |s.calls| ==> (s.writeLock == Some(t) <==> Busy(s.calls[t])))
    && (forall i :: 0 <= i < |s.order| - 1 ==> s.calls[s.order[i]].pc == Returned)
    && (s.order != [] ==> s.calls[s.order[|s.order| - 1]].pc != Waiting)
    && (s.writeLock.Some? ==> s.order != [] && s.writeLock.value == s.order[|s.order| - 1])
  }

  ghost predicate SInv(s: SState)
  {
    && (forall t :: 0 <= t < |s.calls| ==> SCallOk(s.calls[t]))
    && OrderOk(s)
    && s.wire == Blocks(s.calls, s.order)
  }

  /** Blocks of calls that did not change stay as they are. */
  lemma {:induction false} SameBlocks(a: seq<SCall>, b: seq<SCall>, order: seq<nat>)
    requires forall i :: 0 <= i < |order| ==> order[i] < |a| && order[i] < |b|
    requires forall t :: 0 <= t < |a| ==> SCallOk(a[t])
    requires forall t :: 0 <= t < |b| ==> SCallOk(b[t])
    requires forall i :: 0 <= i < |order| ==>
               a[order[i]].job == b[order[i]].job && a[order[i]].written == b[order[i]].written
    ensures Blocks(a, order) == Blocks(b, order)
  {
    hide SCallOk;
    if order != [] {
      SameBlocks(a, b, order[..|order| - 1]);
    }
  }

  lemma {:induction false} ArriveKeeps(s: SState, job: Job)
    requires SInv(s) && JobOk(job)
    ensures SInv(Do(s, Arrive(job)))
  {
    var s' := Do(s, Arrive(job));
    assert SCallOk(s'.calls[|s.calls|]);
    hide SCallOk, JobOk;
    SameBlocks(s.calls, s'.calls, s.order);
  }

  lemma {:induction false} BlocksSnoc(calls: seq<SCall>, order: seq<nat>, t: nat)
    requires forall i :: 0 <= i < |order| ==> order[i] < |calls|
    requires forall u :: 0 <= u < |calls| ==> SCallOk(calls[u])
    requires t < |calls|
    ensures Blocks(calls, order + [t]) == Blocks(calls, order) + Block(calls[t].job, calls[t].written)
  {
    hide SCallOk;
    assert (order + [t])[..|order|] == order;
  }

  lemma {:induction false} WaitingNotInOrder(s: SState, t: nat)
    requires OrderOk(s) && t < |s.calls| && s.calls[t].pc == Waiting
    ensures t !in s.order
  {
    assert forall i :: 0 <= i < |s.order| ==> s.calls[s.order[i]].pc != Waiting;
  }

  /** The previous holder, if any, has returned. */
  lemma {:induction false} LastReturned(s: SState)
    requires OrderOk(s) && s.writeLock == None && s.order != []
    ensures s.calls[s.order[|s.order| - 1]].pc == Returned
  {
    var t := s.order[|s.order| - 1];
    assert !Busy(s.calls[t]);
  }

  lemma {:induction false} TakeLockOrder(s: SState, t: nat)
    requires OrderOk(s) && CanDo(s, TakeLock(t))
    ensures OrderOk(Do(s, TakeLock(t)))
  {
    hide SCallOk, JobOk;
    var s' := Do(s, TakeLock(t));
    WaitingNotInOrder(s, t);
    if s.order != [] {
      LastReturned(s);
    }
    assert forall i :: 0 <= i < |s.order| ==> s'.calls[s'.order[i]] == s.calls[s.order[i]];
    assert forall i :: 0 <= i < |s.order| ==> s.calls[s.order[i]].pc == Returned;
    forall u | 0 <= u < |s'.calls| && u !in s'.order
      ensures s'.calls[u].pc == Waiting
    {
      assert s'.order == s.order + [t];
    }
  }

  lemma {:induction false} OrderInRange(s: SState)
    requires OrderOk(s)
    ensures forall i :: 0 <= i < |s.order| ==> s.order[i] < |s.calls|
  {
  }

  lemma {:induction false} TakeLockKeeps(s: SState, t: nat)
    requires SInv(s) && CanDo(s, TakeLock(t))
    ensures SInv(Do(s, TakeLock(t)))
  {
    var s' := Do(s, TakeLock(t));
    assert SCallOk(s.calls[t]) && SCallOk(s'.calls[t]) && Block(s'.calls[t].job, 0) == [];
    TakeLockOrder(s, t);
    WaitingNotInOrder(s, t);
    hide SCallOk, OrderOk, Block;
    assert forall i :: 0 <= i < |s.order| ==> s.order[i] < |s.calls| by {
      assert OrderOk(s);
      OrderInRange(s);
    }
    SameBlocks(s.calls, s'.calls, s.order);
    BlocksSnoc(s'.calls, s.order, t);
  }

  /** What the lock holder does to its own call, short of writing. */
  lemma {:induction false} HolderKeeps(s: SState, s': SState, t: nat)
    requires SInv(s) && t < |s.calls| && Busy(s.calls[t])
    requires s'.order == s.order && s'.wire == s.wire && |s'.calls| == |s.calls|
    requires forall u :: 0 <= u < |s.calls| && u != t ==> s'.calls[u] == s.calls[u]
    requires s'.calls[t] == s.calls[t].(pc := s'.calls[t].pc) && SCallOk(s'.calls[t]) && s'.calls[t].pc != Waiting
    requires s'.writeLock == if Busy(s'.calls[t]) then s.writeLock else None
    ensures SInv(s')
  {
    hide SCallOk;
    SameBlocks(s.calls, s'.calls, s.order);
  }

  lemma {:induction false} WriteOrder(s: SState, t: nat)
    requires OrderOk(s) && CanDo(s, WriteFrame(t)) && !s.broken
    ensures OrderOk(Do(s, WriteFrame(t)))
    ensures s.order != [] && s.order[|s.order| - 1] == t
    ensures forall i :: 0 <= i < |s.order| - 1 ==> s.order[i] < |s.calls| && s.order[i] != t
  {
    assert Busy(s.calls[t]);
  }

  /** One more frame in the last block. */
  lemma {:induction false} LastBlockGrows(a: seq<SCall>, b: seq<SCall>, order: seq<nat>, t: nat)
    requires order != [] && order[|order| - 1] == t && t < |a| == |b|
    requires forall i :: 0 <= i < |order| ==> order[i] < |a|
    requires forall i :: 0 <= i < |order| - 1 ==> order[i] != t
    requires forall u :: 0 <= u < |a| ==> SCallOk(a[u]) && SCallOk(b[u])
    requires forall u :: 0 <= u < |a| && u != t ==> b[u] == a[u]
    requires b[t].job == a[t].job && b[t].written == a[t].written + 1
    ensures Blocks(b, order) == Blocks(a, order) + [PlainFrame(a[t].job, a[t].written)]
  {
    var n := |order| - 1;
    assert SCallOk(a[t]) && SCallOk(b[t]);
    var was, now, f := Block(a[t].job, a[t].written), Block(a[t].job, a[t].written + 1),
                         PlainFrame(a[t].job, a[t].written);
    assert now == was + [f];
    hide SCallOk, PlainFrame, Block;
    SameBlocks(a, b, order[..n]);
    var front := Blocks(a, order[..n]);
    assert front + (was + [f]) == (front + was) + [f];
  }

  lemma {:induction false} WriteKeeps(s: SState, t: nat)
    requires SInv(s) && CanDo(s, WriteFrame(t)) && !s.broken
    ensures SInv(Do(s, WriteFrame(t)))
  {
    var s' := Do(s, WriteFrame(t));
    WriteOrder(s, t);
    OrderInRange(s);
    assert SCallOk(s.calls[t]) && SCallOk(s'.calls[t]);
    hide SCallOk, PlainFrame, Block, Blocks, OrderOk;
    LastBlockGrows(s.calls, s'.calls, s.order, t);
  }

  lemma {:induction false} SStepKeeps(s: SState, step: SStep)
    requires SInv(s) && CanDo(s, step)
    ensures SInv(Do(s, step))
  {
    match step
    case Arrive(job) => ArriveKeeps(s, job);
    case TakeLock(t) => TakeLockKeeps(s, t);
    case ReadStatus(t) => HolderKeeps(s, Do(s, step), t);
    case WriteFrame(t) =>
      if s.broken {
        HolderKeeps(s, Do(s, step), t);
      } else {
        WriteKeeps(s, t);
      }
    case NewStatus(_) =>
    case Break =>
  }

  lemma {:induction false} PlayKeeps(steps: seq<SStep>)
    ensures Play(steps).Some? ==> SInv(Play(steps).value)
  {
    if steps != [] {
      hide SInv, Do;
      var n := |steps| - 1;
      PlayKeeps(steps[..n]);
      if Play(steps).Some? {
        SStepKeeps(Play(steps[..n]).value, steps[n]);
      }
    } else {
      assert Blocks(START.calls, START.order) == [];
    }
  }

  // ---------------------------------------------------------------- what the receiver makes of it

  /** A call has written its message in full. */
  predicate Whole(c: SCall)
    requires SCallOk(c)
  {
    c.written == |c.job.frags| && c.job.frags[c.written - 1].mark == Final
  }

  /** After a close message the receiver looks at nothing more. */
  function ControlMessages(job: Job, w: nat): (ms: seq<Message>)
    requires w <= |job.frags|
  {
    if w == 0 then []
    else if job.op == CLOSE_OP && w > 1 then ControlMessages(job, w - 1)
    else ControlMessages(job, w - 1) + [Message(job.op, job.frags[w - 1].payload)]
  }

  /** A message for every frame, except that nothing follows a close message. */
  lemma {:induction false} ControlMessagesAt(job: Job, n: nat)
    requires n <= |job.frags|
    ensures var ms := ControlMessages(job, n);
            && (job.op == CLOSE_OP && n > 0 ==> ms == [Message(job.op, job.frags[0].payload)])
            && (job.op != CLOSE_OP ==>
                  |ms| == n && forall i :: 0 <= i < n ==> ms[i] == Message(job.op, job.frags[i].payload))
  {
    if n > 0 {
      ControlMessagesAt(job, n - 1);
    }
  }

  /** The messages the caller meant: the whole message, or of a control call a message for every frame. */
  function Intended(c: SCall): (ms: seq<Message>)
    requires SCallOk(c)
  {
    if IsControl(c.job.op) then ControlMessages(c.job, c.written)
    else if Whole(c) then [Message(c.job.op, Concat(c.job.frags))]
    else []
  }

  /** What is pending, with these bytes added. */
  function Extended(r: RState, op: byte, p: seq<byte>): (m: Message)
  {
    if 0 in r.pending then Message(r.pending[0].op, r.pending[0].payload + p) else Message(op, p)
  }

  /** The receiver after one call's block. */
  function AfterBlock(r: RState, c: SCall): (r': RState)
    requires SCallOk(c)
  {
    if r.stopped || c.written == 0 then r
    else if IsControl(c.job.op) then
      r.(delivered := r.delivered + ControlMessages(c.job, c.written), stopped := c.job.op == CLOSE_OP)
    else
      var m := Extended(r, c.job.op, Concat(c.job.frags[..c.written]));
      if Whole(c) then r.(pending := r.pending - {0}, delivered := r.delivered + [m])
      else r.(pending := r.pending[0 := m])
  }

  lemma {:induction false} ControlStep(r: RState, job: Job, k: nat)
    requires IsControl(job.op) && k < |job.frags| && !r.stopped
    ensures RecvStep(r, PlainFrame(job, k))
         == r.(delivered := r.delivered + [Message(job.op, job.frags[k].payload)], stopped := job.op == CLOSE_OP)
  {
  }

  /** From the state after w - 1 frames to that after w. */
  lemma {:induction false} NextControl(r: RState, job: Job, w: nat)
    requires IsControl(job.op) && 0 < w <= |job.frags| && !r.stopped
    ensures var q := r.(delivered := r.delivered + ControlMessages(job, w - 1),
                        stopped := w - 1 > 0 && job.op == CLOSE_OP);
            RecvStep(q, PlainFrame(job, w - 1))
            == r.(delivered := r.delivered + ControlMessages(job, w), stopped := job.op == CLOSE_OP)
  {
    hide RecvStep, PlainFrame;
    var d, m := ControlMessages(job, w - 1), Message(job.op, job.frags[w - 1].payload);
    var q := r.(delivered := r.delivered + d, stopped := w - 1 > 0 && job.op == CLOSE_OP);
    if q.stopped {
      assert ControlMessages(job, w) == d;
    } else {
      ControlStep(q, job, w - 1);
      assert ControlMessages(job, w) == d + [m];
      hide ControlMessages;
      assert (r.delivered + d) + [m] == r.delivered + (d + [m]);
    }
  }

  lemma {:induction false} ControlBlock(r: RState, job: Job, w: nat)
    requires IsControl(job.op) && w <= |job.frags| && !r.stopped
    ensures DemuxFrom(r, Block(job, w))
         == r.(delivered := r.delivered + ControlMessages(job, w), stopped := w > 0 && job.op == CLOSE_OP)
  {
    hide RecvStep, PlainFrame;
    if w == 0 {
      assert Block(job, 0) == [] && r.delivered + ControlMessages(job, 0) == r.delivered;
    } else {
      DemuxSnoc(r, Block(job, w - 1), PlainFrame(job, w - 1));
      assert Block(job, w) == Block(job, w - 1) + [PlainFrame(job, w - 1)];
      hide DemuxFrom, Block;
      ControlBlock(r, job, w - 1);
      NextControl(r, job, w);
    }
  }

  lemma {:induction false} TakeSnoc(frags: seq<Frag>, w: nat)
    requires 0 < w <= |frags|
    ensures Concat(frags[..w]) == Concat(frags[..w - 1]) + frags[w - 1].payload
    ensures w == 1 ==> Concat(frags[..w]) == frags[0].payload
  {
    assert frags[..w] == frags[..w - 1] + [frags[w - 1]];
    if w == 1 {
      assert Concat(frags[..0]) == [];
    }
    hide Concat;
    ConcatSnoc(frags[..w - 1], frags[w - 1]);
    if w == 1 {
      assert [] + frags[0].payload == frags[0].payload;
    }
  }

  lemma {:induction false} ExtendedTwice(r: RState, op: byte, p: seq<byte>, more: seq<byte>)
    ensures var m := Extended(r, op, p);
            Extended(r, op, p + more) == Message(m.op, m.payload + more)
  {
    if 0 in r.pending {
      assert r.pending[0].payload + (p + more) == (r.pending[0].payload + p) + more;
    }
  }

  /** One data frame: it is added to what is pending, and delivers that if it is final. */
  lemma {:induction false} DataStep(r: RState, job: Job, k: nat)
    requires !IsControl(job.op) && k < |job.frags| && !r.stopped
    ensures var m := Extended(r, job.op, job.frags[k].payload);
            RecvStep(r, PlainFrame(job, k))
            == if job.frags[k].mark == Final then r.(pending := r.pending - {0}, delivered := r.delivered + [m])
               else r.(pending := r.pending[0 := m])
  {
    if 0 !in r.pending {
      assert r.pending - {0} == r.pending;
    }
  }

  lemma {:induction false} PutTwice(m: map<nat, Message>, x: Message, y: Message)
    ensures m[0 := x][0 := y] == m[0 := y] && m[0 := x] - {0} == m - {0}
  {
  }

  /** A data block that has not reached its end only adds to what is pending. */
  lemma {:induction false} OpenBlock(r: RState, job: Job, w: nat)
    requires !IsControl(job.op) && JobOk(job) && 0 < w <= |job.frags| && !r.stopped
    requires job.frags[w - 1].mark != Final
    ensures DemuxFrom(r, Block(job, w)) == r.(pending := r.pending[0 := Extended(r, job.op, Concat(job.frags[..w]))])
  {
    hide RecvStep, PlainFrame, Concat;
    TakeSnoc(job.frags, w);
    DemuxSnoc(r, Block(job, w - 1), PlainFrame(job, w - 1));
    if w == 1 {
      assert Block(job, 0) == [];
      DataStep(r, job, 0);
    } else {
      OpenBlock(r, job, w - 1);
      hide DemuxFrom, Block;
      var m := Extended(r, job.op, Concat(job.frags[..w - 1]));
      var q := r.(pending := r.pending[0 := m]);
      DataStep(q, job, w - 1);
      ExtendedTwice(r, job.op, Concat(job.frags[..w - 1]), job.frags[w - 1].payload);
      PutTwice(r.pending, m, Extended(q, job.op, job.frags[w - 1].payload));
    }
  }

  /** A whole data block delivers what was pending, with everything added. */
  lemma {:induction false} FinalBlock(r: RState, job: Job, w: nat)
    requires !IsControl(job.op) && JobOk(job) && 0 < w <= |job.frags| && !r.stopped
    requires job.frags[w - 1].mark == Final
    ensures DemuxFrom(r, Block(job, w))
         == r.(pending := r.pending - {0}, delivered := r.delivered + [Extended(r, job.op, Concat(job.frags[..w]))])
  {
    hide RecvStep, PlainFrame, Concat;
    TakeSnoc(job.frags, w);
    DemuxSnoc(r, Block(job, w - 1), PlainFrame(job, w - 1));
    if w == 1 {
      assert Block(job, 0) == [];
      DataStep(r, job, 0);
    } else {
      OpenBlock(r, job, w - 1);
      hide DemuxFrom, Block;
      var m := Extended(r, job.op, Concat(job.frags[..w - 1]));
      var q := r.(pending := r.pending[0 := m]);
      DataStep(q, job, w - 1);
      ExtendedTwice(r, job.op, Concat(job.frags[..w - 1]), job.frags[w - 1].payload);
      PutTwice(r.pending, m, m);
    }
  }

  lemma {:induction false} BlockEffect(r: RState, c: SCall)
    requires SCallOk(c)
    ensures DemuxFrom(r, Block(c.job, c.written)) == AfterBlock(r, c)
  {
    if r.stopped {
      DeliveredGrows(r, Block(c.job, c.written));
    } else if c.written > 0 {
      if IsControl(c.job.op) {
        ControlBlock(r, c.job, c.written);
      } else if Whole(c) {
        FinalBlock(r, c.job, c.written);
      } else {
        OpenBlock(r, c.job, c.written);
      }
    }
  }

  /** The receiver after all blocks, call by call in lock order. */
  function AfterCalls(calls: seq<SCall>, order: seq<nat>): (r: RState)
    requires forall i :: 0 <= i < |order| ==> order[i] < |calls|
    requires forall t :: 0 <= t < |calls| ==> SCallOk(calls[t])
  {
    if order == [] then NOTHING_YET
    else AfterBlock(AfterCalls(calls, order[..|order| - 1]), calls[order[|order| - 1]])
  }

  lemma {:induction false} LastCall(calls: seq<SCall>, order: seq<nat>)
    requires forall i :: 0 <= i < |order| ==> order[i] < |calls|
    requires forall t :: 0 <= t < |calls| ==> SCallOk(calls[t])
    requires order != []
    ensures var n := |order| - 1;
            var c := calls[order[n]];
            && SCallOk(c)
            && Blocks(calls, order) == Blocks(calls, order[..n]) + Block(c.job, c.written)
            && AfterCalls(calls, order) == AfterBlock(AfterCalls(calls, order[..n]), c)
  {
    var c := calls[order[|order| - 1]];
    assert SCallOk(c);
    hide SCallOk, AfterBlock, Block;
  }

  lemma {:induction false} DemuxBlocks(calls: seq<SCall>, order: seq<nat>)
    requires forall i :: 0 <= i < |order| ==> order[i] < |calls|
    requires forall t :: 0 <= t < |calls| ==> SCallOk(calls[t])
    ensures Demux(Blocks(calls, order)) == AfterCalls(calls, order)
  {
    if order == [] {
      assert Blocks(calls, order) == [];
    } else {
      var n := |order| - 1;
      var c := calls[order[n]];
      LastCall(calls, order);
      hide SCallOk, AfterBlock, AfterCalls, DemuxFrom, Block, Blocks;
      DemuxBlocks(calls, order[..n]);
      DemuxConcat(NOTHING_YET, Blocks(calls, order[..n]), Block(c.job, c.written));
      BlockEffect(AfterCalls(calls, order[..n]), c);
    }
  }

  // ---------------------------------------------------------------- the main results

  ghost predicate Played(s: SState)
  {
    exists steps :: Play(steps) == Some(s)
  }

  lemma {:induction false} PlayedInv(s: SState)
    requires Played(s)
    ensures SInv(s)
    ensures forall i :: 0 <= i < |s.order| ==> s.order[i] < |s.calls|
    ensures forall t :: 0 <= t < |s.calls| ==> SCallOk(s.calls[t])
  {
    var steps :| Play(steps) == Some(s);
    PlayKeeps(steps);
    OrderInRange(s);
  }

  /** The only pending key is 0. */
  lemma {:induction false} OnlyKeyZero(calls: seq<SCall>, order: seq<nat>)
    requires forall i :: 0 <= i < |order| ==> order[i] < |calls|
    requires forall t :: 0 <= t < |calls| ==> SCallOk(calls[t])
    ensures AfterCalls(calls, order).pending.Keys <= {0}
  {
    if order != [] {
      OnlyKeyZero(calls, order[..|order| - 1]);
      var c := calls[order[|order| - 1]];
      assert SCallOk(c);
      hide SCallOk;
    }
  }

  /** What the callers meant to send, in lock order, up to a close message. */
  function Meant(calls: seq<SCall>, order: seq<nat>): (ms: seq<Message>)
    requires forall i :: 0 <= i < |order| ==> order[i] < |calls|
    requires forall t :: 0 <= t < |calls| ==> SCallOk(calls[t])
  {
    if order == [] then []
    else
      var prev, c := order[..|order| - 1], calls[order[|order| - 1]];
      if AfterCalls(calls, prev).stopped then Meant(calls, prev) else Meant(calls, prev) + Intended(c)
  }

  /** No message is completed on top of something an abandoned call left behind, unless that changes nothing. */
  predicate MeetsNothing(r: RState, c: SCall)
    requires SCallOk(c)
  {
    !r.stopped && !IsControl(c.job.op) && Whole(c) && 0 in r.pending ==>
      r.pending[0].op == c.job.op && r.pending[0].payload == []
  }

  predicate Undisturbed(calls: seq<SCall>, order: seq<nat>)
    requires forall i :: 0 <= i < |order| ==> order[i] < |calls|
    requires forall t :: 0 <= t < |calls| ==> SCallOk(calls[t])
  {
    order == [] ||
    (Undisturbed(calls, order[..|order| - 1])
     && MeetsNothing(AfterCalls(calls, order[..|order| - 1]), calls[order[|order| - 1]]))
  }

  lemma {:induction false} LeftUnit<T>(a: seq<T>, b: seq<T>)
    ensures a + b == b <==> a == []
  {
    assert |a + b| == |a| + |b|;
    assert a == [] ==> a + b == b;
  }

  lemma {:induction false} OneCallMeant(r: RState, c: SCall)
    requires SCallOk(c) && !r.stopped
    ensures |AfterBlock(r, c).delivered| == |r.delivered| + |Intended(c)|
    ensures AfterBlock(r, c).delivered == r.delivered + Intended(c) <==> MeetsNothing(r, c)
  {
    var p := Concat(c.job.frags);
    if Whole(c) && !IsControl(c.job.op) {
      assert c.job.frags[..c.written] == c.job.frags;
      assert AfterBlock(r, c).delivered[|r.delivered|] == Extended(r, c.job.op, p);
      if 0 in r.pending {
        LeftUnit(r.pending[0].payload, p);
      }
    } else if c.written == 0 {
      assert Intended(c) == [];
    }
  }

  lemma {:induction false} StoppedIsInert(r: RState, c: SCall)
    requires SCallOk(c) && r.stopped
    ensures AfterBlock(r, c) == r && MeetsNothing(r, c)
  {
  }

  /**
   * Handlers see exactly the messages the callers meant, in write-lock order, if and only if no completed message
   * met the remains of an abandoned one.
   */
  lemma {:induction false} MeantIffUndisturbed(calls: seq<SCall>, order: seq<nat>)
    requires forall i :: 0 <= i < |order| ==> order[i] < |calls|
    requires forall t :: 0 <= t < |calls| ==> SCallOk(calls[t])
    ensures |AfterCalls(calls, order).delivered| == |Meant(calls, order)|
    ensures AfterCalls(calls, order).delivered == Meant(calls, order) <==> Undisturbed(calls, order)
  {
    if order != [] {
      var prev, c := order[..|order| - 1], calls[order[|order| - 1]];
      var r := AfterCalls(calls, prev);
      MeantIffUndisturbed(calls, prev);
      assert SCallOk(c);
      hide SCallOk, MeetsNothing, AfterBlock, Intended;
      if !r.stopped {
        OneCallMeant(r, c);
        var a, b := AfterBlock(r, c).delivered, Meant(calls, prev) + Intended(c);
        assert r.delivered <= a by {
          BlockEffect(r, c);
          DeliveredGrows(r, Block(c.job, c.written));
        }
        assert a == r.delivered + a[|r.delivered|..];
        assert a == b ==> a[..|r.delivered|] == b[..|r.delivered|] == Meant(calls, prev);
      } else {
        StoppedIsInert(r, c);
      }
    }
  }

  // ---------------------------------------------------------------- the same condition, over the calls alone

  /** The calls that took the lock, in that order. */
  function InOrder(calls: seq<SCall>, order: seq<nat>): (cs: seq<SCall>)
    requires forall i :: 0 <= i < |order| ==> order[i] < |calls|
    requires forall t :: 0 <= t < |calls| ==> SCallOk(calls[t])
    ensures |cs| == |order|
    ensures forall i :: 0 <= i < |cs| ==> SCallOk(cs[i])
  {
    seq(|order|, i requires 0 <= i < |order| => calls[order[i]])
  }

  predicate WholeData(c: SCall)
    requires SCallOk(c)
  {
    !IsControl(c.job.op) && Whole(c)
  }

  /** A data message begun and not finished. */
  predicate Abandoned(c: SCall)
    requires SCallOk(c)
  {
    !IsControl(c.job.op) && c.written > 0 && !Whole(c)
  }

  function DataOf(c: SCall): (p: seq<byte>)
    requires SCallOk(c)
  {
    Concat(c.job.frags[..c.written])
  }

  ghost predicate AllCallsOk(cs: seq<SCall>)
  {
    forall i :: 0 <= i < |cs| ==> SCallOk(cs[i])
  }

  /** Call k abandoned its message, and no whole data message was written between it and call n. */
  ghost predicate LeftFor(cs: seq<SCall>, k: nat, n: nat)
    requires n <= |cs| && AllCallsOk(cs)
  {
    k < n && Abandoned(cs[k]) && forall m :: k < m < n ==> !WholeData(cs[m])
  }

  /** It is the first such call. */
  ghost predicate FirstLeftFor(cs: seq<SCall>, k: nat, n: nat)
    requires n <= |cs| && AllCallsOk(cs)
  {
    LeftFor(cs, k, n) && forall m: nat :: m < k ==> !LeftFor(cs, m, n)
  }

  /** A close message was written before call n. */
  ghost predicate ClosedBefore(cs: seq<SCall>, n: nat)
    requires n <= |cs|
  {
    exists k :: 0 <= k < n && cs[k].job.op == CLOSE_OP && cs[k].written > 0
  }

  /** What call n finds of abandoned messages has no data, and the first of it is of call n's type. */
  ghost predicate FindsNothing(cs: seq<SCall>, n: nat)
    requires n < |cs| && AllCallsOk(cs)
  {
    forall k: nat :: LeftFor(cs, k, n) ==>
      DataOf(cs[k]) == [] && (FirstLeftFor(cs, k, n) ==> cs[k].job.op == cs[n].job.op)
  }

  /** Every whole data message before a close message found nothing. */
  ghost predicate NothingFound(cs: seq<SCall>)
    requires AllCallsOk(cs)
  {
    forall n :: 0 <= n < |cs| && WholeData(cs[n]) && !ClosedBefore(cs, n) ==> FindsNothing(cs, n)
  }

  /** What the receiver holds pending is what the abandoned calls left, from the first one's type on. */
  ghost predicate HoldsWhatWasLeft(pending: map<nat, Message>, cs: seq<SCall>, n: nat)
    requires n <= |cs| && AllCallsOk(cs)
  {
    && (0 in pending <==> exists k: nat :: LeftFor(cs, k, n))
    && (0 in pending ==>
          && (pending[0].payload == [] <==> forall k: nat :: LeftFor(cs, k, n) ==> DataOf(cs[k]) == [])
          && (exists k: nat :: FirstLeftFor(cs, k, n) && cs[k].job.op == pending[0].op))
  }

  lemma {:induction false} OnlyOneFirst(cs: seq<SCall>, j: nat, k: nat, n: nat)
    requires n <= |cs| && AllCallsOk(cs) && FirstLeftFor(cs, j, n) && FirstLeftFor(cs, k, n)
    ensures j == k
  {
    hide LeftFor, SCallOk;
  }

  /** What was left for the next call: nothing after a whole message, else what there was and this call's part. */
  lemma {:induction false} LeftNext(cs: seq<SCall>, n: nat, k: nat)
    requires n < |cs| && AllCallsOk(cs)
    ensures LeftFor(cs, k, n + 1) <==>
              !WholeData(cs[n]) && (LeftFor(cs, k, n) || (k == n && Abandoned(cs[n])))
  {
    hide SCallOk;
    assert SCallOk(cs[n]);
    if LeftFor(cs, k, n + 1) {
      assert k < n ==> forall m :: k < m < n ==> !WholeData(cs[m]);
    }
  }

  lemma {:induction false} Exclusive(c: SCall)
    requires SCallOk(c)
    ensures !(WholeData(c) && Abandoned(c))
  {
  }

  lemma {:induction false} LeftNextAll(cs: seq<SCall>, n: nat, next: nat)
    requires n < |cs| && AllCallsOk(cs) && next == n + 1
    ensures forall k: nat :: LeftFor(cs, k, next) ==>
              !WholeData(cs[n]) && (LeftFor(cs, k, n) || (k == n && Abandoned(cs[n])))
    ensures forall k: nat :: LeftFor(cs, k, n) ==> k < n && (!WholeData(cs[n]) ==> LeftFor(cs, k, next))
    ensures Abandoned(cs[n]) ==> LeftFor(cs, n, next)
  {
    Exclusive(cs[n]);
    forall k: nat
      ensures LeftFor(cs, k, next) <==> !WholeData(cs[n]) && (LeftFor(cs, k, n) || (k == n && Abandoned(cs[n])))
    {
      LeftNext(cs, n, k);
    }
  }

  lemma {:induction false} EmptyParts<T>(a: seq<T>, b: seq<T>)
    ensures a + b == [] <==> a == [] && b == []
  {
    assert |a + b| == |a| + |b|;
  }

  lemma {:induction false} AbandonedEffect(r: RState, c: SCall)
    requires SCallOk(c) && !r.stopped && Abandoned(c)
    ensures AfterBlock(r, c).pending == r.pending[0 := Extended(r, c.job.op, DataOf(c))]
  {
  }

  /** A call that leaves a part adds to what is held. */
  lemma {:induction false} PartIsHeld(r: RState, cs: seq<SCall>, n: nat)
    requires n < |cs| && AllCallsOk(cs) && !r.stopped && Abandoned(cs[n])
    requires HoldsWhatWasLeft(r.pending, cs, n)
    ensures HoldsWhatWasLeft(AfterBlock(r, cs[n]).pending, cs, n + 1)
  {
    hide SCallOk, Concat, LeftFor, Abandoned, Whole, WholeData;
    assert SCallOk(cs[n]) && !WholeData(cs[n]) && Abandoned(cs[n]) by {
      Exclusive(cs[n]);
    }
    LeftNextAll(cs, n, n + 1);
    assert LeftFor(cs, n, n + 1);
    AbandonedEffect(r, cs[n]);
    var m := Extended(r, cs[n].job.op, DataOf(cs[n]));
    if 0 in r.pending {
      var k: nat :| FirstLeftFor(cs, k, n) && cs[k].job.op == r.pending[0].op;
      assert FirstLeftFor(cs, k, n + 1);
      EmptyParts(r.pending[0].payload, DataOf(cs[n]));
    } else {
      assert FirstLeftFor(cs, n, n + 1);
    }
  }

  /** The other calls either clear what is held or leave it alone. */
  lemma {:induction false} RestIsHeld(r: RState, cs: seq<SCall>, n: nat)
    requires n < |cs| && AllCallsOk(cs) && !r.stopped && !Abandoned(cs[n])
    requires HoldsWhatWasLeft(r.pending, cs, n)
    ensures HoldsWhatWasLeft(AfterBlock(r, cs[n]).pending, cs, n + 1)
  {
    assert SCallOk(cs[n]);
    var pending := AfterBlock(r, cs[n]).pending;
    assert pending == if WholeData(cs[n]) then r.pending - {0} else r.pending;
    hide SCallOk, Concat, LeftFor, Abandoned, Whole, WholeData, AfterBlock;
    LeftNextAll(cs, n, n + 1);
    if 0 in pending {
      var k: nat :| FirstLeftFor(cs, k, n) && cs[k].job.op == r.pending[0].op;
      assert FirstLeftFor(cs, k, n + 1);
    }
  }

  lemma {:induction false} NothingLeftAtFirst(cs: seq<SCall>)
    requires AllCallsOk(cs)
    ensures HoldsWhatWasLeft(map[], cs, 0)
  {
  }

  lemma {:induction false} StopsAtClose(r: RState, c: SCall)
    requires SCallOk(c)
    ensures AfterBlock(r, c).stopped <==> r.stopped || (c.job.op == CLOSE_OP && c.written > 0)
  {
  }

  /** The receiver after the first n calls: stopped exactly by a close message, and otherwise holding what was left. */
  lemma {:induction false} ReceiverHoldsWhatWasLeft(calls: seq<SCall>, order: seq<nat>, n: nat)
    requires forall i :: 0 <= i < |order| ==> order[i] < |calls|
    requires forall t :: 0 <= t < |calls| ==> SCallOk(calls[t])
    requires n <= |order|
    ensures var r, cs := AfterCalls(calls, order[..n]), InOrder(calls, order);
            && (r.stopped <==> ClosedBefore(cs, n))
            && (!r.stopped ==> HoldsWhatWasLeft(r.pending, cs, n))
  {
    var cs := InOrder(calls, order);
    hide SCallOk, AfterBlock, LeftFor, HoldsWhatWasLeft, Abandoned;
    if n == 0 {
      NothingLeftAtFirst(cs);
    } else {
      ReceiverHoldsWhatWasLeft(calls, order, n - 1);
      assert order[..n][..n - 1] == order[..n - 1];
      var r := AfterCalls(calls, order[..n - 1]);
      StopsAtClose(r, cs[n - 1]);
      assert ClosedBefore(cs, n) <==>
               ClosedBefore(cs, n - 1) || (cs[n - 1].job.op == CLOSE_OP && cs[n - 1].written > 0);
      if !r.stopped {
        if Abandoned(cs[n - 1]) {
          PartIsHeld(r, cs, n - 1);
        } else {
          RestIsHeld(r, cs, n - 1);
        }
      }
    }
  }

  /** One call: the receiver's state and the calls before it agree on whether it meets anything. */
  lemma {:induction false} MeetsNothingIffFindsNothing(r: RState, cs: seq<SCall>, n: nat)
    requires n < |cs| && AllCallsOk(cs) && (r.stopped <==> ClosedBefore(cs, n))
    requires !r.stopped ==> HoldsWhatWasLeft(r.pending, cs, n)
    ensures SCallOk(cs[n])
    ensures MeetsNothing(r, cs[n]) <==> (WholeData(cs[n]) && !ClosedBefore(cs, n) ==> FindsNothing(cs, n))
  {
    assert SCallOk(cs[n]);
    hide SCallOk, LeftFor, Whole, ClosedBefore, DataOf;
    if !r.stopped && 0 in r.pending {
      var k: nat :| FirstLeftFor(cs, k, n) && cs[k].job.op == r.pending[0].op;
      forall j: nat | FirstLeftFor(cs, j, n)
        ensures j == k
      {
        OnlyOneFirst(cs, j, k, n);
      }
    }
  }

  lemma {:induction false} NthCall(calls: seq<SCall>, order: seq<nat>, n: nat)
    requires forall i :: 0 <= i < |order| ==> order[i] < |calls|
    requires forall t :: 0 <= t < |calls| ==> SCallOk(calls[t])
    requires n < |order|
    ensures InOrder(calls, order)[n] == calls[order[n]]
  {
  }

  lemma {:induction false} UndisturbedAt(calls: seq<SCall>, order: seq<nat>)
    requires forall i :: 0 <= i < |order| ==> order[i] < |calls|
    requires forall t :: 0 <= t < |calls| ==> SCallOk(calls[t])
    ensures Undisturbed(calls, order) <==>
              forall n :: 0 <= n < |order| ==> MeetsNothing(AfterCalls(calls, order[..n]), calls[order[n]])
  {
    hide SCallOk, MeetsNothing, AfterCalls;
    if order != [] {
      var n := |order| - 1;
      UndisturbedAt(calls, order[..n]);
      assert forall i :: 0 <= i <= n ==> order[..n][..i] == order[..i];
    }
  }

  /**
   * The condition of `MeantIffUndisturbed` over the calls alone: for every whole data message written before any
   * close message, whatever was abandoned since the last whole one has no data, and the first of it is of its type.
   */
  lemma {:induction false} UndisturbedIffNothingFound(calls: seq<SCall>, order: seq<nat>)
    requires forall i :: 0 <= i < |order| ==> order[i] < |calls|
    requires forall t :: 0 <= t < |calls| ==> SCallOk(calls[t])
    ensures AllCallsOk(InOrder(calls, order))
    ensures Undisturbed(calls, order) <==> NothingFound(InOrder(calls, order))
  {
    var cs := InOrder(calls, order);
    hide SCallOk, InOrder, FindsNothing, MeetsNothing, ClosedBefore, WholeData, HoldsWhatWasLeft;
    forall n | 0 <= n < |order|
      ensures MeetsNothing(AfterCalls(calls, order[..n]), calls[order[n]])
         <==> (WholeData(cs[n]) && !ClosedBefore(cs, n) ==> FindsNothing(cs, n))
    {
      ReceiverHoldsWhatWasLeft(calls, order, n);
      NthCall(calls, order, n);
      MeetsNothingIffFindsNothing(AfterCalls(calls, order[..n]), cs, n);
    }
    UndisturbedAt(calls, order);
  }

  // ---------------------------------------------------------------- finished calls

  /** Calls that wrote nothing, or control frames, or their message in full. */
  predicate FinishesWriting(c: SCall)
    requires SCallOk(c)
  {
    c.written == 0 || IsControl(c.job.op) || Whole(c)
  }

  lemma {:induction false} FinishedLeavesNothing(calls: seq<SCall>, order: seq<nat>)
    requires forall i :: 0 <= i < |order| ==> order[i] < |calls|
    requires forall t :: 0 <= t < |calls| ==> SCallOk(calls[t])
    requires forall i :: 0 <= i < |order| ==> FinishesWriting(calls[order[i]])
    ensures Undisturbed(calls, order) && AfterCalls(calls, order).pending == map[]
  {
    if order != [] {
      var c := calls[order[|order| - 1]];
      assert SCallOk(c) && FinishesWriting(c);
      FinishedLeavesNothing(calls, order[..|order| - 1]);
      hide SCallOk;
    }
  }

  lemma {:induction false} PlayNext(s: SState, step: SStep, next: SState)
    requires Played(s) && CanDo(s, step)
    requires next.calls == Do(s, step).calls && next.order == Do(s, step).order && next.wire == Do(s, step).wire
    requires next == Do(s, step).(calls := next.calls, order := next.order, wire := next.wire)
    ensures Played(next)
  {
    hide Do, CanDo;
    var steps :| Play(steps) == Some(s);
    assert (steps + [step])[..|steps|] == steps;
    assert Play(steps + [step]) == Some(Do(s, step));
  }

  lemma {:induction false} TwoArrived(a: Job, b: Job)
    requires JobOk(a) && JobOk(b)
    ensures Played(START.(calls := [SCall(a, Waiting, 0), SCall(b, Waiting, 0)], status := Ready))
  {
    assert Play([]) == Some(START) && Played(START);
    hide Played, JobOk;
    var s, x := START.(status := Ready), SCall(a, Waiting, 0);
    PlayNext(START, NewStatus(Ready), s);
    PlayNext(s, Arrive(a), s.(calls := [x]));
    PlayNext(s.(calls := [x]), Arrive(b), s.(calls := [x, SCall(b, Waiting, 0)]));
  }

  /** The first call writes one frame of data and then the frame that would cancel a stream. */
  lemma {:induction false} FirstAbandons(a: Job, b: SCall)
    requires |a.frags| == 2 && JobOk(a) && b.pc == Waiting
    requires Played(START.(calls := [SCall(a, Waiting, 0), b], status := Ready))
    ensures Played(SState([SCall(a, Returned, 2), b], None, [0], Ready, false, [PlainFrame(a, 0), PlainFrame(a, 1)]))
  {
    hide Played, JobOk, PlainFrame;
    var f, g := PlainFrame(a, 0), PlainFrame(a, 1);
    var s0 := START.(calls := [SCall(a, Waiting, 0), b], status := Ready);
    var s1 := s0.(calls := [SCall(a, Checking(0), 0), b], writeLock := Some(0), order := [0]);
    var s2 := s1.(calls := [SCall(a, SPc.Writing(0), 0), b]);
    var s3 := s1.(calls := [SCall(a, Checking(1), 1), b], wire := [f]);
    var s4 := s3.(calls := [SCall(a, SPc.Writing(1), 1), b]);
    PlayNext(s0, TakeLock(0), s1);
    PlayNext(s1, ReadStatus(0), s2);
    PlayNext(s2, WriteFrame(0), s3);
    PlayNext(s3, ReadStatus(0), s4);
    PlayNext(s4, WriteFrame(0), SState([SCall(a, Returned, 2), b], None, [0], Ready, false, [f, g]));
  }

  lemma {:induction false} SecondFollows(a: SCall, b: Job, wire: seq<Frame>)
    requires a.pc == Returned && |b.frags| == 1
    requires Played(SState([a, SCall(b, Waiting, 0)], None, [0], Ready, false, wire))
    ensures Played(SState([a, SCall(b, Returned, 1)], None, [0, 1], Ready, false, wire + [PlainFrame(b, 0)]))
  {
    hide Played, PlainFrame;
    var s0 := SState([a, SCall(b, Waiting, 0)], None, [0], Ready, false, wire);
    var s1 := s0.(calls := [a, SCall(b, Checking(0), 0)], writeLock := Some(1), order := [0, 1]);
    var s2 := s1.(calls := [a, SCall(b, SPc.Writing(0), 0)]);
    PlayNext(s0, TakeLock(1), s1);
    PlayNext(s1, ReadStatus(1), s2);
    PlayNext(s2, WriteFrame(1),
             SState([a, SCall(b, Returned, 1)], None, [0, 1], Ready, false, wire + [PlainFrame(b, 0)]));
  }

  /** The first call's frames leave its byte pending, and the second call's completes it. */
  lemma {:induction false} FrameByFrame(a: Job, b: Job, r: RState)
    requires a == Job(a.op, [Frag([7], More), Frag([], Cancel)]) && b == Job(a.op, [Frag([9], Final)])
    requires !IsControl(a.op) && r == RState(map[0 := Message(a.op, [7])], [], false)
    ensures RecvStep(NOTHING_YET, PlainFrame(a, 0)) == r && RecvStep(r, PlainFrame(a, 1)) == r
    ensures RecvStep(r, PlainFrame(b, 0)).delivered == [Message(a.op, [7, 9])]
  {
    hide RecvStep, PlainFrame;
    DataStep(NOTHING_YET, a, 0);
    DataStep(r, a, 1);
    DataStep(r, b, 0);
    assert [7] + [] == [7] && [7] + [9] == [7, 9];
    assert Extended(r, a.op, []) == Message(a.op, [7]) && Extended(r, b.op, [9]) == Message(a.op, [7, 9]);
    assert r.pending[0 := Message(a.op, [7])] == r.pending;
  }

  /** What the receiver makes of the three frames. */
  lemma {:induction false} ThreeFrames(a: Job, b: Job)
    requires a == Job(a.op, [Frag([7], More), Frag([], Cancel)]) && b == Job(a.op, [Frag([9], Final)])
    requires !IsControl(a.op)
    ensures Demux([PlainFrame(a, 0), PlainFrame(a, 1)] + [PlainFrame(b, 0)]).delivered == [Message(a.op, [7, 9])]
  {
    var f, g, h := PlainFrame(a, 0), PlainFrame(a, 1), PlainFrame(b, 0);
    assert DemuxFrom(NOTHING_YET, []) == NOTHING_YET;
    FrameByFrame(a, b, RState(map[0 := Message(a.op, [7])], [], false));
    hide RecvStep, PlainFrame, DemuxFrom;
    DemuxSnoc(NOTHING_YET, [], f);
    assert [] + [f] == [f] && [f] + [g] == [f, g];
    DemuxSnoc(NOTHING_YET, [f], g);
    DemuxSnoc(NOTHING_YET, [f, g], h);
  }

  /** A run in which an abandoned message changes the next one: its bytes are put in front. */
  lemma {:induction false} AbandonedExample(op: byte)
    requires !IsControl(op)
    ensures var a, b := Job(op, [Frag([7], More), Frag([], Cancel)]), Job(op, [Frag([9], Final)]);
            var s := SState([SCall(a, Returned, 2), SCall(b, Returned, 1)], None, [0, 1], Ready, false,
                            [PlainFrame(a, 0), PlainFrame(a, 1)] + [PlainFrame(b, 0)]);
            Played(s) && Demux(s.wire).delivered == [Message(op, [7, 9])]
  {
    hide Played, PlainFrame, Demux;
    var a, b := Job(op, [Frag([7], More), Frag([], Cancel)]), Job(op, [Frag([9], Final)]);
    TwoArrived(a, b);
    FirstAbandons(a, SCall(b, Waiting, 0));
    SecondFollows(SCall(a, Returned, 2), b, [PlainFrame(a, 0), PlainFrame(a, 1)]);
    ThreeFrames(a, b);
  }

  /** Deadlock freedom: while a call has not returned, some call can take a step. */
  lemma {:induction false} SerialNoDeadlock(s: SState, u: nat)
    requires Played(s) && u < |s.calls| && s.calls[u].pc != Returned
    ensures exists t :: 0 <= t < |s.calls| &&
              (CanDo(s, TakeLock(t)) || CanDo(s, ReadStatus(t)) || CanDo(s, WriteFrame(t)))
  {
    PlayedInv(s);
    if s.writeLock.Some? {
      var t := s.writeLock.value;
      assert s.order[|s.order| - 1] == t && Busy(s.calls[t]) && SCallOk(s.calls[t]);
      assert CanDo(s, ReadStatus(t)) || CanDo(s, WriteFrame(t));
    } else {
      assert !Busy(s.calls[u]);
      assert CanDo(s, TakeLock(u));
    }
  }

  /** Nothing but the lock, held by another call, keeps a call from its next step. */
  lemma {:induction false} OnlyTheLockBlocks(s: SState, t: nat)
    requires Played(s) && t < |s.calls|
    ensures match s.calls[t].pc
            case Waiting => CanDo(s, TakeLock(t)) <==> s.writeLock == None
            case Checking(_) => CanDo(s, ReadStatus(t)) && s.writeLock == Some(t)
            case Writing(_) => CanDo(s, WriteFrame(t)) && s.writeLock == Some(t)
            case Returned => s.writeLock != Some(t)
  {
    PlayedInv(s);
    assert SCallOk(s.calls[t]) && (s.writeLock == Some(t) <==> Busy(s.calls[t]));
  }

  // ---------------------------------------------------------------- termination

  /** A bound on the steps a call still has to take. */
  function Rank(c: SCall): (r: nat)
  {
    var n := |c.job.frags|;
    var left := match c.pc {
      case Waiting => 2 * n + 1
      case Checking(k) => 2 * (n - k)
      case Writing(k) => 2 * (n - k) - 1
      case Returned => 0
    };
    if left < 0 then 0 else left
  }

  function Ranks(calls: seq<SCall>): (rs: seq<nat>)
    ensures |rs| == |calls|
  {
    seq(|calls|, t requires 0 <= t < |calls| => Rank(calls[t]))
  }

  function Total(calls: seq<SCall>): (r: nat)
  {
    Sum(Ranks(calls))
  }

  lemma {:induction false} TotalPut(calls: seq<SCall>, t: nat, c: SCall)
    requires t < |calls|
    ensures Total(calls[t := c]) == Total(calls) - Rank(calls[t]) + Rank(c)
  {
    hide Rank, Sum;
    SumPut(Ranks(calls), t, Rank(c));
    assert Ranks(calls[t := c]) == Ranks(calls)[t := Rank(c)];
  }

  lemma {:induction false} TotalSnoc(calls: seq<SCall>, c: SCall)
    ensures Total(calls + [c]) == Total(calls) + Rank(c)
  {
    hide Rank, Sum;
    SumSnoc(Ranks(calls), Rank(c));
    assert Ranks(calls + [c]) == Ranks(calls) + [Rank(c)];
  }

  predicate CallStep(step: SStep)
  {
    step.TakeLock? || step.ReadStatus? || step.WriteFrame?
  }

  lemma {:induction false} CallStepDecreases(s: SState, step: SStep)
    requires SInv(s) && CanDo(s, step) && CallStep(step)
    ensures Do(s, step).calls == s.calls[step.t := Do(s, step).calls[step.t]]
    ensures Rank(Do(s, step).calls[step.t]) < Rank(s.calls[step.t])
  {
    assert SCallOk(s.calls[step.t]);
    hide OrderOk, Blocks;
  }

  /** Steps from a given state on. */
  ghost predicate PlaysOn(s: SState, steps: seq<SStep>, s': SState)
    decreases |steps|
  {
    if steps == [] then s' == s else CanDo(s, steps[0]) && PlaysOn(Do(s, steps[0]), steps[1..], s')
  }

  /** How many steps of a schedule calls take. */
  function Moves(steps: seq<SStep>): (n: nat)
  {
    if steps == [] then 0 else (if CallStep(steps[0]) then 1 else 0) + Moves(steps[1..])
  }

  /** What a step adds to the work ahead: the fragments of a new call. */
  function Added(step: SStep): (n: nat)
  {
    if step.Arrive? then Rank(SCall(step.job, Waiting, 0)) else 0
  }

  function Budget(steps: seq<SStep>): (n: nat)
  {
    if steps == [] then 0 else Added(steps[0]) + Budget(steps[1..])
  }

  lemma {:induction false} TotalStep(s: SState, step: SStep)
    requires SInv(s) && CanDo(s, step)
    ensures Total(Do(s, step).calls) + (if CallStep(step) then 1 else 0) <= Total(s.calls) + Added(step)
  {
    hide Rank, Total, SCallOk, OrderOk;
    if CallStep(step) {
      CallStepDecreases(s, step);
      TotalPut(s.calls, step.t, Do(s, step).calls[step.t]);
    } else if step.Arrive? {
      TotalSnoc(s.calls, SCall(step.job, Waiting, 0));
    }
  }

  /** Under any schedule, whatever else happens in between, the calls take at most as many steps as this. */
  lemma {:induction false} SerialCallsComeToAnEnd(s: SState, steps: seq<SStep>, s': SState)
    requires SInv(s) && PlaysOn(s, steps, s')
    ensures Moves(steps) + Total(s'.calls) <= Total(s.calls) + Budget(steps)
    decreases |steps|
  {
    if steps != [] {
      hide SInv, Do, CanDo, Rank, Total, Added, CallStep;
      TotalStep(s, steps[0]);
      SStepKeeps(s, steps[0]);
      SerialCallsComeToAnEnd(Do(s, steps[0]), steps[1..], s');
    }
  }

  /** No call can take a step. */
  ghost predicate Stuck(s: SState)
  {
    forall step :: CallStep(step) ==> !CanDo(s, step)
  }

  /** So a schedule that goes on as long as it can ends with every call returned. */
  lemma {:induction false} StuckIffReturned(s: SState)
    requires Played(s)
    ensures Stuck(s) <==> forall t :: 0 <= t < |s.calls| ==> s.calls[t].pc == Returned
  {
    hide Played;
    if u :| 0 <= u < |s.calls| && s.calls[u].pc != Returned {
      SerialNoDeadlock(s, u);
      var t :| 0 <= t < |s.calls| && (CanDo(s, TakeLock(t)) || CanDo(s, ReadStatus(t)) || CanDo(s, WriteFrame(t)));
      assert CallStep(TakeLock(t)) && CallStep(ReadStatus(t)) && CallStep(WriteFrame(t));
    }
  }
}
