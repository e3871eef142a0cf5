/**
 * Reading a message while it arrives (TriggerOnStart on, Synchronize off): `merge`, one `ReadIter` call, `Read`,
 * the consumer of the channel, and `cleanClose`, which takes no lock.
 */
module ChunkReader {
  import opened Wrappers
  import opened Bytes

  datatype Chan = Chan(queue: seq<seq<byte>>, closed: bool)

  /** How far the `ReadIter` call has come. Between Entered and Finished it holds updateLock. */
  datatype ReaderPc =
    | Idle
    | Entered      // locked
    | Flagged      // poolReading is set, the channel is not made yet
    | Made         // the channel is made, the buffered bytes are not sent yet
    | Sent         // the buffered bytes are in the channel
    | Finished     // returned the channel

  /** The connection's goroutine inside `merge` on behalf of a reader by chunks; it holds updateLock there. */
  datatype ConnPc = Free | Sending(payload: seq<byte>, fin: bool) | Closing

  /**
   * `buffer` is entity, `complete` is isComplete; `arrived` are all payload bytes received so far and `ended` says
   * that the final frame was among them. A message is in the connection's map while it is `pending` and not
   * `cancelled`: a cancel frame takes it out without closing anything. `taken` is what the consumer got from the
   * channel, `readOut` what `Read` returned. A send on, or a close of, a closed or missing channel panics.
   */
  datatype State = State(
    buffer: seq<byte>, complete: bool, pending: bool, chan: Option<Chan>, cap: nat,
    reader: ReaderPc, conn: ConnPc, cancelled: bool, cleaned: bool, panicked: bool,
    arrived: seq<byte>, ended: bool, taken: seq<seq<byte>>, readOut: seq<seq<byte>>)

  datatype Step =
    | Arrive(payload: seq<byte>, fin: bool)   // Start merges the next frame of this message
    | PoolSend
    | PoolClose
    | Enter
    | SetFlag
    | Make
    | SendBuffer
    | Finish
    | Consume
    | ReadAll
    | Cancel                                  // Start meets a frame that cancels this message's stream
    | CleanClose

  /** The message when its first frame has been handed to the handler. */
  function Begin(payload: seq<byte>, fin: bool, chanSize: nat): (s: State)
  {
    State(payload, fin, !fin, None, chanSize, Idle, Free, false, false, false, payload, fin, [], [])
  }

  predicate PoolReading(s: State)
  {
    s.reader != Idle && s.reader != Entered
  }

  predicate InMap(s: State)
  {
    s.pending && !s.cancelled
  }

  predicate LockFree(s: State)
  {
    s.conn == Free && (s.reader == Idle || s.reader == Finished)
  }

  predicate Enabled(s: State, step: Step)
  {
    && !s.panicked
    && match step {
         case Arrive(_, _) => InMap(s) && !s.cleaned && LockFree(s)
         case PoolSend => s.conn.Sending? && s.chan.Some? && (s.chan.value.closed || |s.chan.value.queue| < s.cap)
         case PoolClose => s.conn.Closing? && s.chan.Some?
         case Enter => s.reader == Idle && LockFree(s)
         case SetFlag => s.reader == Entered
         case Make => s.reader == Flagged
         case SendBuffer =>
           s.reader == Made && s.chan.Some? && (s.chan.value.closed || |s.chan.value.queue| < s.cap)
         case Finish => s.reader == Sent && s.chan.Some?
         case Consume => s.reader == Finished && s.chan.Some? && s.chan.value.queue != []
         case ReadAll => LockFree(s)
         case Cancel => InMap(s) && s.conn == Free && !s.cleaned
         case CleanClose => s.conn == Free && !s.cleaned
       }
  }

  function Send(s: State, payload: seq<byte>): (s': State)
    requires s.chan.Some?
  {
    if s.chan.value.closed then s.(panicked := true)
    else s.(chan := Some(Chan(s.chan.value.queue + [payload], false)))
  }

  function Close(s: State): (s': State)
  {
    if s.chan.None? || s.chan.value.closed then s.(panicked := true)
    else s.(chan := Some(Chan(s.chan.value.queue, true)))
  }

  function Apply(s: State, step: Step): (s': State)
    requires Enabled(s, step)
  {
    match step
    case Arrive(payload, fin) =>
      var s' := s.(arrived := s.arrived + payload, ended := fin);
      if PoolReading(s) then s'.(conn := Sending(payload, fin))
      else s'.(buffer := s.buffer + payload, complete := fin, pending := !fin)
    case PoolSend =>
      Send(s, s.conn.payload).(conn := if s.conn.fin then Closing else Free)
    case PoolClose => Close(s).(conn := Free, pending := false)
    case Enter => s.(reader := Entered)
    case SetFlag => s.(reader := Flagged)
    case Make => s.(chan := Some(Chan([], false)), reader := Made)
    case SendBuffer =>
      var s' := Send(s, s.buffer);
      if s'.panicked then s' else s'.(buffer := [], reader := Sent)
    case Finish => (if s.complete then Close(s) else s).(reader := Finished)
    case Consume =>
      s.(chan := Some(Chan(s.chan.value.queue[1..], s.chan.value.closed)), taken := s.taken + [s.chan.value.queue[0]])
    case ReadAll =>
      // MsgYetComplete unless the message is complete
      if s.complete then s.(readOut := s.readOut + [s.buffer], buffer := []) else s
    case Cancel => s.(cancelled := true)
    case CleanClose =>
      var s' := s.(cleaned := true);
      if InMap(s) && !s.complete && PoolReading(s) then Close(s') else s'
  }

  function Run(init: State, steps: seq<Step>): (s: Option<State>)
  {
    if steps == [] then Some(init)
    else
      var n := |steps| - 1;
      match Run(init, steps[..n])
      case None => None
      case Some(s) => if Enabled(s, steps[n]) then Some(Apply(s, steps[n])) else None
  }

  // ---------------------------------------------------------------- invariant

  function Queued(s: State): (p: seq<byte>)
  {
    if s.chan.Some? then Flatten(s.chan.value.queue) else []
  }

  function InHand(s: State): (p: seq<byte>)
  {
    if s.conn.Sending? then s.conn.payload else []
  }

  /** Bytes the user has, bytes in the channel, bytes in the buffer, and the chunk `merge` is about to send. */
  function Everywhere(s: State): (p: seq<byte>)
  {
    Flatten(s.readOut) + Flatten(s.taken) + Queued(s) + s.buffer + InHand(s)
  }

  predicate IsClosed(s: State)
  {
    s.chan.Some? && s.chan.value.closed
  }

  /** The deferred cleanClose struck a ReadIter that was about to send: it will panic at its next step. */
  predicate Doomed(s: State)
  {
    s.panicked || (s.reader == Made && IsClosed(s))
  }

  predicate Shape(s: State)
  {
    && s.cap >= 1
    && (s.chan.Some? <==> s.reader == Made || s.reader == Sent || s.reader == Finished)
    && (s.reader == Made && s.chan.Some? ==> s.chan.value.queue == [])
    && (s.reader == Sent || s.reader == Finished ==> s.buffer == [])
    && (s.chan.Some? ==> |s.chan.value.queue| <= s.cap)
    && (s.conn != Free ==> s.reader == Finished && InMap(s) && !s.complete && !IsClosed(s) && !s.cleaned)
    && (s.conn.Sending? ==> s.ended == s.conn.fin)
    && (s.conn.Closing? ==> s.ended)
    && (s.conn == Free ==> s.ended == !s.pending)
    && (s.complete ==> s.ended && !s.pending)
    && (s.reader != Finished ==> s.ended == s.complete)
    && (s.reader != Finished ==> s.taken == [])
    && (IsClosed(s) ==> s.cleaned || !s.pending)
    && (s.reader == Sent && s.complete ==> !IsClosed(s))
    && (s.reader == Finished && !s.pending ==> IsClosed(s))
    && (s.readOut != [] ==> s.complete)
  }

  lemma {:induction false} BeginOk(payload: seq<byte>, fin: bool, chanSize: nat)
    requires chanSize >= 1
    ensures Shape(Begin(payload, fin, chanSize)) && !Doomed(Begin(payload, fin, chanSize))
  {
  }

  /** Only cleanClose can bring a reader by chunks down, and only while ReadIter is about to send. */
  predicate Window(s: State)
  {
    InMap(s) && !s.complete && (s.reader == Flagged || s.reader == Made)
  }

  lemma {:induction false} StepShape(s: State, step: Step)
    requires Shape(s) && !Doomed(s) && Enabled(s, step)
    ensures !Doomed(Apply(s, step)) ==> Shape(Apply(s, step))
    ensures Doomed(Apply(s, step)) <==> step.CleanClose? && Window(s)
  {
  }

  // ---------------------------------------------------------------- conservation

  lemma {:induction false} ConsumeMoves(taken: seq<seq<byte>>, queue: seq<seq<byte>>)
    requires queue != []
    ensures Flatten(taken + [queue[0]]) + Flatten(queue[1..]) == Flatten(taken) + Flatten(queue)
  {
    FlattenSnoc(taken, queue[0]);
  }

  /** Sending the whole buffer into a channel that had nothing. */
  lemma {:induction false} SendConserves(s: State, payload: seq<byte>)
    requires s.chan.Some? && !IsClosed(s)
    ensures Queued(Send(s, payload)) == Queued(s) + payload
  {
    FlattenSnoc(s.chan.value.queue, payload);
  }

  lemma {:induction false} ConsumeConserves(s: State)
    requires Shape(s) && Enabled(s, Consume)
    ensures Everywhere(Apply(s, Consume)) == Everywhere(s)
  {
    var q := s.chan.value.queue;
    ConsumeMoves(s.taken, q);
    hide Flatten;
    var r, t, t' := Flatten(s.readOut), Flatten(s.taken), Flatten(s.taken + [q[0]]);
    assert r + t' + Flatten(q[1..]) == r + (t' + Flatten(q[1..])) == r + (t + Flatten(q)) == r + t + Flatten(q);
  }

  lemma {:induction false} SameQueue(s: State, s': State)
    requires s'.chan == s.chan
    ensures Queued(s') == Queued(s)
  {
  }

  lemma {:induction false} ArriveConserves(s: State, payload: seq<byte>, fin: bool)
    requires Shape(s) && Enabled(s, Arrive(payload, fin))
    ensures Everywhere(Apply(s, Arrive(payload, fin))) == Everywhere(s) + payload
  {
    hide Flatten, Shape, Queued;
    var a := Flatten(s.readOut) + Flatten(s.taken) + Queued(s);
    assert a + (s.buffer + payload) + [] == a + s.buffer + [] + payload;
    assert a + s.buffer + payload == a + s.buffer + [] + payload;
    SameQueue(s, Apply(s, Arrive(payload, fin)));
  }

  lemma {:induction false} PoolSendConserves(s: State)
    requires Shape(s) && Enabled(s, PoolSend)
    ensures Everywhere(Apply(s, PoolSend)) == Everywhere(s)
  {
    hide Flatten;
    SendConserves(s, s.conn.payload);
    var a, p := Flatten(s.readOut) + Flatten(s.taken), s.conn.payload;
    assert a + (Queued(s) + p) + [] + [] == a + Queued(s) + [] + p;
  }

  lemma {:induction false} SendBufferConserves(s: State)
    requires Shape(s) && !Doomed(s) && Enabled(s, SendBuffer)
    ensures Everywhere(Apply(s, SendBuffer)) == Everywhere(s)
  {
    hide Flatten;
    SendConserves(s, s.buffer);
    var a := Flatten(s.readOut) + Flatten(s.taken);
    assert a + (Queued(s) + s.buffer) + [] + [] == a + Queued(s) + s.buffer + [];
  }

  lemma {:induction false} EmptyFlat()
    ensures Flatten<byte>([]) == []
  {
  }

  /** The other steps move no bytes. */
  lemma {:induction false} OtherStepsMoveNothing(s: State, step: Step)
    requires Shape(s) && !Doomed(s) && Enabled(s, step)
    requires !step.Arrive? && !step.PoolSend? && !step.SendBuffer? && !step.Consume? && !step.ReadAll?
    ensures Everywhere(Apply(s, step)) == Everywhere(s) && Apply(s, step).arrived == s.arrived
  {
    hide Flatten;
    EmptyFlat();
  }

  lemma {:induction false} MovedToUser(r: seq<byte>, b: seq<byte>, t: seq<byte>, q: seq<byte>)
    requires b == [] || (t == [] && q == [])
    ensures (r + b) + t + q + [] + [] == r + t + q + b + []
  {
  }

  lemma {:induction false} ReadAllConserves(s: State)
    requires Shape(s) && !Doomed(s) && Enabled(s, ReadAll)
    ensures Everywhere(Apply(s, ReadAll)) == Everywhere(s)
  {
    if s.complete {
      FlattenSnoc(s.readOut, s.buffer);
      EmptyFlat();
      assert s.reader != Idle ==> s.buffer == [];
      assert s.reader == Idle ==> s.taken == [] && Queued(s) == [];
      hide Flatten, Queued, Shape, Doomed;
      SameQueue(s, Apply(s, ReadAll));
      MovedToUser(Flatten(s.readOut), s.buffer, Flatten(s.taken), Queued(s));
    }
  }

  lemma {:induction false} StepConserves(s: State, step: Step)
    requires Shape(s) && !Doomed(s) && Enabled(s, step) && Everywhere(s) == s.arrived
    ensures Everywhere(Apply(s, step)) == Apply(s, step).arrived
  {
    hide Flatten, Shape, Everywhere, Doomed;
    match step
    case Arrive(payload, fin) => ArriveConserves(s, payload, fin);
    case PoolSend => PoolSendConserves(s);
    case SendBuffer => SendBufferConserves(s);
    case Consume => ConsumeConserves(s);
    case ReadAll => ReadAllConserves(s);
    case _ => OtherStepsMoveNothing(s, step);
  }

  /** How a doomed run looks: the reader is about to send on the closed channel, or already did. */
  predicate DoomedShape(s: State)
  {
    Doomed(s) && (!s.panicked ==> s.cleaned && s.conn == Free)
  }

  lemma {:induction false} BecomesDoomed(s: State, step: Step)
    requires Shape(s) && !Doomed(s) && Enabled(s, step) && Doomed(Apply(s, step))
    ensures DoomedShape(Apply(s, step))
  {
  }

  lemma {:induction false} DoomedPanicsNext(s: State, step: Step)
    requires DoomedShape(s) && Enabled(s, step)
    ensures step == SendBuffer && Apply(s, step) == s.(panicked := true)
  {
  }

  // ---------------------------------------------------------------- every run

  /** A run of one message whose first frame carried `p` (and was its last if `fin`), read with ReadIter(chanSize). */
  ghost predicate Reached(p: seq<byte>, fin: bool, chanSize: nat, steps: seq<Step>, s: State)
  {
    chanSize >= 1 && Run(Begin(p, fin, chanSize), steps) == Some(s)
  }

  /** The payloads of the frames that arrived after the first, in order. */
  function Payloads(steps: seq<Step>): (ps: seq<seq<byte>>)
  {
    if steps == [] then []
    else
      var n := |steps| - 1;
      Payloads(steps[..n]) + (if steps[n].Arrive? then [steps[n].payload] else [])
  }

  /** Every byte that arrived: the first frame's payload, then those of the others. */
  function Received(p: seq<byte>, steps: seq<Step>): (bytes: seq<byte>)
  {
    p + Flatten(Payloads(steps))
  }

  /** The last frame that arrived, the first one included, was final. */
  predicate FinalCame(fin: bool, steps: seq<Step>)
  {
    if steps == [] then fin
    else if steps[|steps| - 1].Arrive? then steps[|steps| - 1].fin
    else FinalCame(fin, steps[..|steps| - 1])
  }

  /** Some cleanClose of the run came while ReadIter was about to send. */
  ghost predicate StruckInWindow(init: State, steps: seq<Step>)
  {
    exists i :: 0 <= i < |steps| && steps[i].CleanClose?
                && Run(init, steps[..i]).Some? && Window(Run(init, steps[..i]).value)
  }

  ghost predicate RunOk(init: State, steps: seq<Step>, s: State)
  {
    && Everywhere(s) == s.arrived
    && (Doomed(s) <==> StruckInWindow(init, steps))
    && (if Doomed(s) then DoomedShape(s) else Shape(s))
  }

  lemma {:induction false} StruckSnoc(init: State, steps: seq<Step>)
    requires steps != [] && Run(init, steps).Some?
    ensures var n := |steps| - 1;
            && Run(init, steps[..n]).Some?
            && (StruckInWindow(init, steps) <==>
                  StruckInWindow(init, steps[..n])
                  || (steps[n].CleanClose? && Window(Run(init, steps[..n]).value)))
  {
    hide Window, Apply, Enabled;
    var n := |steps| - 1;
    forall i | 0 <= i <= n
      ensures steps[..n][..i] == steps[..i]
    {
    }
    if StruckInWindow(init, steps) {
      var i :| 0 <= i < |steps| && steps[i].CleanClose?
               && Run(init, steps[..i]).Some? && Window(Run(init, steps[..i]).value);
      if i < n {
        assert steps[..n][i].CleanClose? && Window(Run(init, steps[..n][..i]).value);
      }
    }
    if StruckInWindow(init, steps[..n]) {
      var i :| 0 <= i < n && steps[..n][i].CleanClose?
               && Run(init, steps[..n][..i]).Some? && Window(Run(init, steps[..n][..i]).value);
      assert steps[i].CleanClose? && Window(Run(init, steps[..i]).value);
    }
  }

  lemma {:induction false} DoomedRunStep(s: State, step: Step)
    requires DoomedShape(s) && Enabled(s, step) && Everywhere(s) == s.arrived
    ensures DoomedShape(Apply(s, step)) && Everywhere(Apply(s, step)) == Apply(s, step).arrived
    ensures !step.CleanClose?
  {
    DoomedPanicsNext(s, step);
  }

  lemma {:induction false} EveryRun(p: seq<byte>, fin: bool, chanSize: nat, steps: seq<Step>, s: State)
    requires Reached(p, fin, chanSize, steps, s)
    ensures RunOk(Begin(p, fin, chanSize), steps, s)
  {
    var init := Begin(p, fin, chanSize);
    if steps == [] {
      BeginOk(p, fin, chanSize);
      EmptyFlat();
      assert Everywhere(init) == [] + [] + [] + p + [];
    } else {
      var n := |steps| - 1;
      StruckSnoc(init, steps);
      var prev := Run(init, steps[..n]).value;
      hide StruckInWindow, Everywhere, Shape, Apply, Enabled, Window, Doomed, DoomedShape, Begin;
      EveryRun(p, fin, chanSize, steps[..n], prev);
      if Doomed(prev) {
        DoomedRunStep(prev, steps[n]);
      } else {
        StepShape(prev, steps[n]);
        StepConserves(prev, steps[n]);
        if Doomed(s) {
          BecomesDoomed(prev, steps[n]);
        }
      }
    }
  }

  /** Sending touches nothing but the channel. */
  lemma {:induction false} SendKeeps(s: State, payload: seq<byte>)
    requires s.chan.Some?
    ensures var s' := Send(s, payload); s' == s.(chan := s'.chan, panicked := s'.panicked)
  {
  }

  lemma {:induction false} StepRecords(s: State, step: Step)
    requires Enabled(s, step)
    ensures Apply(s, step).arrived == s.arrived + (if step.Arrive? then step.payload else [])
    ensures Apply(s, step).ended == if step.Arrive? then step.fin else s.ended
  {
    match step
    case PoolSend => SendKeeps(s, s.conn.payload);
    case SendBuffer => SendKeeps(s, s.buffer);
    case _ =>
  }

  /** What the state records of the frames is what the run's frames were. */
  lemma {:induction false} RecordsTheFrames(p: seq<byte>, fin: bool, chanSize: nat, steps: seq<Step>, s: State)
    requires Reached(p, fin, chanSize, steps, s)
    ensures s.arrived == Received(p, steps) && s.ended == FinalCame(fin, steps)
  {
    if steps == [] {
      EmptyFlat();
      assert p + [] == p;
    } else {
      hide Apply, Enabled, Flatten;
      var n := |steps| - 1;
      var prev := Run(Begin(p, fin, chanSize), steps[..n]).value;
      RecordsTheFrames(p, fin, chanSize, steps[..n], prev);
      StepRecords(prev, steps[n]);
      var ps := Payloads(steps[..n]);
      if steps[n].Arrive? {
        FlattenSnoc(ps, steps[n].payload);
        assert (p + Flatten(ps)) + steps[n].payload == p + (Flatten(ps) + steps[n].payload);
      } else {
        assert Payloads(steps) == ps + [] == ps;
        assert Received(p, steps) == Received(p, steps[..n]);
        assert s.arrived == Received(p, steps[..n]) + [] == Received(p, steps[..n]);
      }
    }
  }

  // ---------------------------------------------------------------- the main results

  /**
   * Conservation: however frames arrive, whenever ReadIter is called and the consumer receives, the bytes the user
   * has, then those in the channel, then those in the buffer (then the chunk merge is holding) are exactly the
   * payload bytes received so far, in order.
   */
  lemma {:induction false} ChunksAreConserved(p: seq<byte>, fin: bool, chanSize: nat, steps: seq<Step>, s: State)
    requires Reached(p, fin, chanSize, steps, s)
    ensures Flatten(s.readOut) + Flatten(s.taken) + Queued(s) + s.buffer + InHand(s) == Received(p, steps)
  {
    EveryRun(p, fin, chanSize, steps, s);
    RecordsTheFrames(p, fin, chanSize, steps, s);
  }

  /**
   * The channel is closed at most once and never sent on after closing, exactly as long as no cleanClose strikes
   * while a ReadIter call is between setting poolReading and sending the buffered bytes.
   */
  lemma {:induction false} CloseIsSafeOutsideTheWindow(p: seq<byte>, fin: bool, chanSize: nat, steps: seq<Step>,
                                                       s: State)
    requires Reached(p, fin, chanSize, steps, s)
    ensures Doomed(s) <==> StruckInWindow(Begin(p, fin, chanSize), steps)
    ensures !StruckInWindow(Begin(p, fin, chanSize), steps) ==> !s.panicked
  {
    EveryRun(p, fin, chanSize, steps, s);
  }

  lemma {:induction false} RunSnoc(init: State, steps: seq<Step>, step: Step)
    ensures Run(init, steps + [step])
         == match Run(init, steps)
            case None => None
            case Some(s) => if Enabled(s, step) then Some(Apply(s, step)) else None
  {
    assert (steps + [step])[..|steps|] == steps;
  }

  lemma {:induction false} EmptyRun(init: State)
    ensures Run(init, []) == Some(init)
  {
  }

  lemma {:induction false} StepCap(s: State, step: Step)
    requires Enabled(s, step)
    ensures Apply(s, step).cap == s.cap
  {
    match step
    case PoolSend => assert Send(s, s.conn.payload).cap == s.cap;
    case SendBuffer => assert Send(s, s.buffer).cap == s.cap;
    case _ =>
  }

  lemma {:induction false} CapacityFixed(p: seq<byte>, fin: bool, chanSize: nat, steps: seq<Step>, s: State)
    requires Reached(p, fin, chanSize, steps, s)
    ensures s.cap == chanSize
  {
    if steps != [] {
      hide Apply, Enabled;
      var n := |steps| - 1;
      var prev := Run(Begin(p, fin, chanSize), steps[..n]).value;
      CapacityFixed(p, fin, chanSize, steps[..n], prev);
      StepCap(prev, steps[n]);
    }
  }

  lemma {:induction false} StepCleans(s: State, step: Step)
    requires Enabled(s, step)
    ensures Apply(s, step).cleaned <==> s.cleaned || step == CleanClose
    ensures Apply(s, step).cancelled <==> s.cancelled || step == Cancel
  {
    match step
    case PoolSend => SendKeeps(s, s.conn.payload);
    case SendBuffer => SendKeeps(s, s.buffer);
    case _ =>
  }

  lemma {:induction false} RecordsTheRest(p: seq<byte>, fin: bool, chanSize: nat, steps: seq<Step>, s: State)
    requires Reached(p, fin, chanSize, steps, s)
    ensures s.cleaned <==> CleanClose in steps
    ensures s.cancelled <==> Cancel in steps
  {
    if steps != [] {
      hide Apply, Enabled;
      var n := |steps| - 1;
      var prev := Run(Begin(p, fin, chanSize), steps[..n]).value;
      RecordsTheRest(p, fin, chanSize, steps[..n], prev);
      StepCleans(prev, steps[n]);
      assert steps == steps[..n] + [steps[n]];
    }
  }

  /**
   * Once ReadIter has returned and merge is not at work: the channel is closed if and only if a final frame came, or
   * cleanClose. When it is closed and drained the user has every byte received. It never holds more than chanSize
   * chunks.
   */
  lemma {:induction false} IterationYieldsTheMessage(p: seq<byte>, fin: bool, chanSize: nat, steps: seq<Step>, s: State)
    requires Reached(p, fin, chanSize, steps, s) && !Doomed(s) && s.reader == Finished
    ensures s.chan.Some? && |s.chan.value.queue| <= chanSize
    ensures IsClosed(s) ==> FinalCame(fin, steps) || CleanClose in steps
    ensures s.conn == Free && FinalCame(fin, steps) ==> IsClosed(s)
    ensures IsClosed(s) && s.chan.value.queue == [] ==> Flatten(s.readOut) + Flatten(s.taken) == Received(p, steps)
  {
    EveryRun(p, fin, chanSize, steps, s);
    CapacityFixed(p, fin, chanSize, steps, s);
    RecordsTheFrames(p, fin, chanSize, steps, s);
    RecordsTheRest(p, fin, chanSize, steps, s);
    hide Flatten, StruckInWindow, Received, FinalCame;
  }

  lemma {:induction false} DoomedIsDoomed(s: State)
    requires DoomedShape(s)
    ensures Doomed(s)
  {
  }

  /** What `Read` has returned so far: nothing, or the whole message and after that nothing. */
  predicate OnlyFirst(readOut: seq<seq<byte>>, whole: seq<byte>)
  {
    readOut != [] ==> readOut[0] == whole && forall i :: 1 <= i < |readOut| ==> readOut[i] == []
  }

  /** Of a message nobody reads by chunks. */
  ghost predicate ReadsOk(s: State)
  {
    && (s.readOut != [] ==> s.ended)
    && (s.reader == Idle || s.reader == Entered ==>
          OnlyFirst(s.readOut, s.arrived) && (s.readOut != [] ==> s.buffer == []))
  }

  lemma {:induction false} ReadAllReads(s: State)
    requires Shape(s) && !Doomed(s) && Everywhere(s) == s.arrived && Enabled(s, ReadAll) && ReadsOk(s)
    ensures ReadsOk(Apply(s, ReadAll))
  {
    if s.complete && s.reader == Idle && s.readOut == [] {
      EmptyFlat();
      assert s.buffer == s.arrived by {
        assert Everywhere(s) == [] + [] + [] + s.buffer + [];
      }
    }
    hide Everywhere, Flatten;
  }

  lemma {:induction false} StepReads(s: State, step: Step)
    requires Shape(s) && !Doomed(s) && Everywhere(s) == s.arrived && Enabled(s, step) && ReadsOk(s)
    ensures ReadsOk(Apply(s, step))
  {
    hide Everywhere, Flatten;
    if step == ReadAll {
      ReadAllReads(s);
    }
  }

  lemma {:induction false} EveryRunReads(p: seq<byte>, fin: bool, chanSize: nat, steps: seq<Step>, s: State)
    requires Reached(p, fin, chanSize, steps, s) && !Doomed(s)
    ensures ReadsOk(s)
  {
    if steps != [] {
      hide Apply, Enabled, Shape, Doomed, DoomedShape, Everywhere, StruckInWindow, ReadsOk;
      var n := |steps| - 1;
      var prev := Run(Begin(p, fin, chanSize), steps[..n]).value;
      EveryRun(p, fin, chanSize, steps[..n], prev);
      if Doomed(prev) {
        DoomedRunStep(prev, steps[n]);
        DoomedIsDoomed(s);
      } else {
        EveryRunReads(p, fin, chanSize, steps[..n], prev);
        StepReads(prev, steps[n]);
      }
    }
  }

  /**
   * `Read` refuses a message of which the final frame has not come. Without ReadIter, the first that is not refused
   * returns the whole message, and later ones nothing.
   */
  lemma {:induction false} ReadReturnsTheMessage(p: seq<byte>, fin: bool, chanSize: nat, steps: seq<Step>, s: State)
    requires Reached(p, fin, chanSize, steps, s) && !Doomed(s)
    ensures !FinalCame(fin, steps) ==>
              s.readOut == [] && (Enabled(s, ReadAll) ==> Apply(s, ReadAll) == s)
    ensures s.reader == Idle ==> OnlyFirst(s.readOut, Received(p, steps))
    ensures s.reader == Idle && FinalCame(fin, steps) ==>
              && Enabled(s, ReadAll)
              && var next := if s.readOut == [] then Received(p, steps) else [];
                 Apply(s, ReadAll).readOut == s.readOut + [next]
  {
    EveryRun(p, fin, chanSize, steps, s);
    EveryRunReads(p, fin, chanSize, steps, s);
    RecordsTheFrames(p, fin, chanSize, steps, s);
    if s.reader == Idle && s.readOut == [] {
      EmptyFlat();
      assert s.buffer == s.arrived by {
        assert Shape(s) && Everywhere(s) == [] + [] + [] + s.buffer + [];
      }
    }
  }

  function InChannel(s: State): (queue: seq<seq<byte>>)
  {
    if s.chan.Some? then s.chan.value.queue else []
  }

  /** A ReadIter call that has the lock goes on. */
  lemma {:induction false} ReaderGoesOn(s: State)
    requires Shape(s) && !Doomed(s)
    ensures match s.reader
            case Idle => s.conn == Free && Enabled(s, Enter)
            case Entered => Enabled(s, SetFlag)
            case Flagged => Enabled(s, Make)
            case Made => Enabled(s, SendBuffer)
            case Sent => Enabled(s, Finish)
            case Finished => InChannel(s) != [] ==> Enabled(s, Consume)
  {
  }

  lemma {:induction false} MergeGoesOn(s: State)
    requires Shape(s) && !Doomed(s)
    ensures s.conn.Sending? ==>
              (Enabled(s, PoolSend) <==> |InChannel(s)| < s.cap) && (!Enabled(s, PoolSend) ==> Enabled(s, Consume))
    ensures s.conn.Closing? ==> Enabled(s, PoolClose)
  {
  }

  lemma {:induction false} NextFrameComes(s: State, q: seq<byte>, last: bool)
    requires Shape(s) && !Doomed(s) && s.conn == Free && (s.reader == Idle || s.reader == Finished)
    requires !s.ended && !s.cleaned && !s.cancelled
    ensures Enabled(s, Arrive(q, last))
  {
  }

  /**
   * Who waits for whom: merge only for room in the channel, and then there is something to receive; ReadIter for
   * nobody once it has the lock; the consumer only for something to receive; and the next frame of an unfinished
   * message only for a ReadIter call under way.
   */
  lemma {:induction false} BlockedOnlyByTheConsumer(p: seq<byte>, fin: bool, chanSize: nat, steps: seq<Step>, s: State)
    requires Reached(p, fin, chanSize, steps, s) && !Doomed(s)
    ensures s.conn.Sending? ==>
              && (Enabled(s, PoolSend) <==> |InChannel(s)| < chanSize)
              && (!Enabled(s, PoolSend) ==> Enabled(s, Consume))
    ensures s.conn.Closing? ==> Enabled(s, PoolClose)
    ensures match s.reader
            case Idle => s.conn == Free && Enabled(s, Enter)
            case Entered => Enabled(s, SetFlag)
            case Flagged => Enabled(s, Make)
            case Made => Enabled(s, SendBuffer)
            case Sent => Enabled(s, Finish)
            case Finished => InChannel(s) != [] ==> Enabled(s, Consume)
    ensures s.conn == Free && (s.reader == Idle || s.reader == Finished) ==>
              || FinalCame(fin, steps) || CleanClose in steps || Cancel in steps
              || forall q, last :: Enabled(s, Arrive(q, last))
  {
    EveryRun(p, fin, chanSize, steps, s);
    CapacityFixed(p, fin, chanSize, steps, s);
    RecordsTheFrames(p, fin, chanSize, steps, s);
    RecordsTheRest(p, fin, chanSize, steps, s);
    ReaderGoesOn(s);
    MergeGoesOn(s);
    hide Everywhere, StruckInWindow, Received, FinalCame, Run, Shape, Doomed, Enabled, InChannel;
    if s.conn == Free && (s.reader == Idle || s.reader == Finished) && !s.ended && !s.cleaned && !s.cancelled {
      forall q, last
        ensures Enabled(s, Arrive(q, last))
      {
        NextFrameComes(s, q, last);
      }
    }
  }

  // ---------------------------------------------------------------- an iteration

  ghost predicate Reaches(init: State, s: State)
  {
    exists steps :: Run(init, steps) == Some(s)
  }

  lemma {:induction false} ReachNext(init: State, s: State, step: Step, next: State)
    requires Reaches(init, s) && Enabled(s, step) && next == Apply(s, step)
    ensures Reaches(init, next)
  {
    hide Apply, Enabled;
    var steps :| Run(init, steps) == Some(s);
    RunSnoc(init, steps, step);
    assert Run(init, steps + [step]) == Some(next);
  }

  /** ReadIter while a message is unfinished: it makes a channel. */
  lemma {:induction false} ReaderEnters(p: seq<byte>, cap: nat)
    requires cap >= 1
    ensures var init := Begin(p, false, cap);
            Reaches(init, init.(chan := Some(Chan([], false)), reader := Made))
  {
    var init := Begin(p, false, cap);
    EmptyRun(init);
    assert Reaches(init, init);
    hide Reaches;
    ReachNext(init, init, Enter, init.(reader := Entered));
    ReachNext(init, init.(reader := Entered), SetFlag, init.(reader := Flagged));
    ReachNext(init, init.(reader := Flagged), Make, init.(chan := Some(Chan([], false)), reader := Made));
  }

  /** And returns it with the bytes so far. */
  lemma {:induction false} ReaderStarts(p: seq<byte>, cap: nat)
    requires cap >= 1
    ensures var init := Begin(p, false, cap);
            Reaches(init, init.(buffer := [], chan := Some(Chan([p], false)), reader := Finished))
  {
    hide Reaches;
    var init := Begin(p, false, cap);
    ReaderEnters(p, cap);
    var made := init.(chan := Some(Chan([], false)), reader := Made);
    var sent := init.(buffer := [], chan := Some(Chan([p], false)), reader := Sent);
    assert [] + [p] == [p];
    ReachNext(init, made, SendBuffer, sent);
    ReachNext(init, sent, Finish, sent.(reader := Finished));
  }

  /** The window is real: cleanClose takes no lock, so it can close a channel that ReadIter is about to send on. */
  lemma {:induction false} RaceExample(p: seq<byte>)
    ensures exists s :: Reaches(Begin(p, false, 1), s) && s.panicked
  {
    hide Reaches;
    var init := Begin(p, false, 1);
    ReaderEnters(p, 1);
    var made := init.(chan := Some(Chan([], false)), reader := Made);
    var closed := made.(chan := Some(Chan([], true)), cleaned := true);
    ReachNext(init, made, CleanClose, closed);
    ReachNext(init, closed, SendBuffer, closed.(panicked := true));
  }

  /** What the channel holds and what was taken from it, while an iteration goes on; `conn` is merge's part. */
  function Iterating(init: State, chan: Chan, conn: ConnPc, taken: seq<seq<byte>>, arrived: seq<byte>, ended: bool)
    : (s: State)
  {
    init.(buffer := [], chan := Some(chan), reader := Finished, conn := conn, taken := taken,
          arrived := arrived, ended := ended, pending := !chan.closed)
  }

  lemma {:induction false} LastChunk(p: seq<byte>, q: seq<byte>)
    requires Reaches(Begin(p, false, 1),
                     Iterating(Begin(p, false, 1), Chan([], false), Sending(q, true), [p], p + q, true))
    ensures Reaches(Begin(p, false, 1), Iterating(Begin(p, false, 1), Chan([], true), Free, [p, q], p + q, true))
  {
    hide Reaches;
    var init := Begin(p, false, 1);
    var s2 := Iterating(init, Chan([], false), Sending(q, true), [p], p + q, true);
    var s3 := Iterating(init, Chan([q], false), Closing, [p], p + q, true);
    assert [] + [q] == [q];
    ReachNext(init, s2, PoolSend, s3);
    var s4 := Iterating(init, Chan([q], true), Free, [p], p + q, true);
    ReachNext(init, s3, PoolClose, s4);
    assert [p] + [q] == [p, q] && [q][1..] == [];
    ReachNext(init, s4, Consume, Iterating(init, Chan([], true), Free, [p, q], p + q, true));
  }

  /**
   * An iteration with room for one chunk: the last frame waits until the first chunk is received; then the consumer
   * gets the rest and sees the end.
   */
  lemma {:induction false} IterationExample(p: seq<byte>, q: seq<byte>)
    ensures var init := Begin(p, false, 1);
            var waiting := Iterating(init, Chan([p], false), Sending(q, true), [], p + q, true);
            && Reaches(init, waiting) && !Enabled(waiting, PoolSend)
            && Reaches(init, Iterating(init, Chan([], true), Free, [p, q], p + q, true))
  {
    ReaderStarts(p, 1);
    var init := Begin(p, false, 1);
    hide Reaches;
    var s0 := Iterating(init, Chan([p], false), Free, [], p, false);
    assert s0 == init.(buffer := [], chan := Some(Chan([p], false)), reader := Finished);
    var s1 := Iterating(init, Chan([p], false), Sending(q, true), [], p + q, true);
    ReachNext(init, s0, Arrive(q, true), s1);
    var s2 := Iterating(init, Chan([], false), Sending(q, true), [p], p + q, true);
    assert [] + [p] == [p] && [p][1..] == [];
    ReachNext(init, s1, Consume, s2);
    LastChunk(p, q);
  }

  // ---------------------------------------------------------------- readers left waiting

  /** The message will not be finished, and no channel of it is closed. */
  predicate Stranded(s: State)
  {
    Shape(s) && s.pending && (s.cleaned || s.cancelled) && !IsClosed(s)
  }

  /** What strands a message: a cancel frame, or a cleanClose before ReadIter has set poolReading. */
  predicate Strands(s: State, step: Step)
  {
    step.Cancel? || (step.CleanClose? && InMap(s) && (s.reader == Idle || s.reader == Entered))
  }

  lemma {:induction false} StepStrands(s: State, step: Step)
    requires Shape(s) && !Doomed(s) && Enabled(s, step) && !Doomed(Apply(s, step))
    ensures Stranded(Apply(s, step)) <==> Stranded(s) || Strands(s, step)
  {
    StepShape(s, step);
  }

  /** Some step of the run stranded the message. */
  ghost predicate WasStranded(init: State, steps: seq<Step>)
    requires Run(init, steps).Some?
  {
    steps != [] &&
    var n := |steps| - 1;
    WasStranded(init, steps[..n]) || Strands(Run(init, steps[..n]).value, steps[n])
  }

  /** In every run that has not panicked and is not about to: a message is stranded exactly if such a step came. */
  lemma {:induction false} StrandedIff(p: seq<byte>, fin: bool, chanSize: nat, steps: seq<Step>, s: State)
    requires Reached(p, fin, chanSize, steps, s) && !Doomed(s)
    ensures Stranded(s) <==> WasStranded(Begin(p, fin, chanSize), steps)
  {
    if steps != [] {
      hide Apply, Enabled, Shape, Stranded, Strands, Doomed, DoomedShape, Everywhere, StruckInWindow;
      var n := |steps| - 1;
      var prev := Run(Begin(p, fin, chanSize), steps[..n]).value;
      EveryRun(p, fin, chanSize, steps[..n], prev);
      if Doomed(prev) {
        DoomedRunStep(prev, steps[n]);
        DoomedIsDoomed(s);
      } else {
        StrandedIff(p, fin, chanSize, steps[..n], prev);
        StepStrands(prev, steps[n]);
      }
    }
  }

  /** Steps from a given state on. */
  ghost predicate Continues(s: State, steps: seq<Step>, s': State)
    decreases |steps|
  {
    if steps == [] then s' == s else Enabled(s, steps[0]) && Continues(Apply(s, steps[0]), steps[1..], s')
  }

  lemma {:induction false} StrandedStep(s: State, step: Step)
    requires Stranded(s) && !Doomed(s) && Enabled(s, step)
    ensures Stranded(Apply(s, step)) && !Doomed(Apply(s, step))
  {
  }

  /** A stranded message stays stranded, whatever follows: nothing ever closes a channel made for it. */
  lemma {:induction false} StrandedForGood(s: State, steps: seq<Step>, s': State)
    requires Stranded(s) && !Doomed(s) && Continues(s, steps, s')
    ensures Stranded(s') && !Doomed(s')
    decreases |steps|
  {
    if steps != [] {
      hide Stranded, Doomed, Apply, Enabled;
      StrandedStep(s, steps[0]);
      StrandedForGood(Apply(s, steps[0]), steps[1..], s');
    }
  }

  /** ReadIter has returned and its channel is empty. */
  predicate Drained(s: State)
  {
    s.reader == Finished && s.chan.Some? && s.chan.value.queue == []
  }

  lemma {:induction false} DrainedStep(s: State, step: Step)
    requires Stranded(s) && !Doomed(s) && Drained(s) && Enabled(s, step)
    ensures Drained(Apply(s, step)) && Apply(s, step).taken == s.taken
  {
  }

  /** Its consumer waits for ever: once it has taken what there was, nothing more comes and the channel stays open. */
  lemma {:induction false} ConsumerWaitsForEver(s: State, steps: seq<Step>, s': State)
    requires Stranded(s) && !Doomed(s) && Drained(s) && Continues(s, steps, s')
    ensures Drained(s') && s'.taken == s.taken && !IsClosed(s')
    decreases |steps|
  {
    if steps != [] {
      hide Stranded, Doomed, Drained, Apply, Enabled;
      StrandedStep(s, steps[0]);
      DrainedStep(s, steps[0]);
      ConsumerWaitsForEver(Apply(s, steps[0]), steps[1..], s');
    }
  }
}
