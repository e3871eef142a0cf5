/**
 * Stream mode: any number of concurrent `Dispatch` and `DispatchReader` calls on one connection, as a step system.
 * A step is what happens between two points where another goroutine can be scheduled.
 */
module Multiplex {
  import opened Wrappers
  import opened Frames
  import opened Fragments
  import opened Allocator
  import opened History

  datatype Status = YetReady | Ready | Closed | Timeout

  /** Where a call stands; k is the fragment it is about to write. */
  datatype Pc =
    | Begin
    | Allocating           // inside patchMsg, holding streamIdLock
    | Check(k: nat)        // about to read the status in writeSingleFrame
    | Want(k: nat)         // waiting for writeLock
    | Locked(k: nat)       // final frame: holds writeLock, wants streamIdLock
    | IdLocked(k: nat)     // final frame: holds both locks
    | Copying(k: nat)      // about to copy the frame to the connection
    | Done                 // returned

  /** `owns`: its id is in inUseStreams on its behalf. `written`: how many of its frames are on the wire. */
  datatype Call = Call(job: Job, viaReader: bool, pc: Pc, sid: nat, owns: bool, written: nat)

  datatype State = State(
    calls: seq<Call>, idLock: Option<nat>, writeLock: Option<nat>,
    lastStream: nat, inUse: set<nat>, status: Status, broken: bool, log: seq<Event>)

  datatype Step =
    | Spawn(job: Job, viaReader: bool)
    | Start(t: nat)
    | Allocate(t: nat)
    | CheckStatus(t: nat)
    | LockWrite(t: nat)
    | LockIds(t: nat)
    | ReleaseId(t: nat)
    | Copy(t: nat)
    | SetStatus(status: Status)
    | BreakSocket

  const INITIAL := State([], None, None, 0, {}, YetReady, false, [])

  /** What a call can be asked to write: fragments that end with the final or with a cancelling one. */
  predicate JobOk(job: Job)
  {
    WellMarked(job.frags) && job.frags[|job.frags| - 1].mark != More
  }

  predicate IsDataCall(c: Call)
  {
    !IsControl(c.job.op)
  }

  predicate IsFinal(c: Call, k: nat)
  {
    k < |c.job.frags| && c.job.frags[k].mark == Final
  }

  predicate Enabled(s: State, step: Step)
  {
    match step
    case Spawn(job, _) => JobOk(job)
    case Start(t) =>
      t < |s.calls| && s.calls[t].pc == Begin && (IsDataCall(s.calls[t]) ==> s.idLock == None)
    case Allocate(t) => t < |s.calls| && s.calls[t].pc == Allocating
    case CheckStatus(t) => t < |s.calls| && s.calls[t].pc.Check?
    case LockWrite(t) => t < |s.calls| && s.calls[t].pc.Want? && s.writeLock == None
    case LockIds(t) => t < |s.calls| && s.calls[t].pc.Locked? && s.idLock == None
    case ReleaseId(t) => t < |s.calls| && s.calls[t].pc.IdLocked?
    case Copy(t) => t < |s.calls| && s.calls[t].pc.Copying?
    case SetStatus(status) => status != YetReady
    case BreakSocket => true
  }

  function Put(s: State, t: nat, c: Call): (s': State)
    requires t < |s.calls|
  {
    s.(calls := s.calls[t := c])
  }

  /** `patchMsg` under streamIdLock. On failure it returns without unlocking; only `Dispatch` heeds the error. */
  function DoAllocate(s: State, t: nat, max: nat): (s': State)
    requires t < |s.calls|
  {
    var c := s.calls[t];
    match Search(s.lastStream, s.inUse, max)
    case Some(id) =>
      Put(s, t, c.(sid := id, owns := true, pc := Check(0)))
        .(lastStream := id, inUse := s.inUse + {id}, idLock := None)
    case None =>
      Put(s, t, c.(pc := if c.viaReader then Check(0) else Done)).(lastStream := 1)
  }

  /** The copy, with the deferred unlock. A write to a broken connection fails, and the call returns the error. */
  function DoCopy(s: State, t: nat): (s': State)
    requires t < |s.calls| && s.calls[t].pc.Copying?
  {
    var c, k := s.calls[t], s.calls[t].pc.k;
    var writeLock := if IsDataCall(c) then None else s.writeLock;
    if s.broken then Put(s, t, c.(pc := Done)).(writeLock := writeLock)
    else
      Put(s, t, c.(pc := if k + 1 < |c.job.frags| then Check(k + 1) else Done, written := k + 1))
        .(writeLock := writeLock, log := s.log + [Event(t, c.sid, c.job, k)])
  }

  function Apply(s: State, step: Step, max: nat): (s': State)
    requires Enabled(s, step)
  {
    match step
    case Spawn(job, viaReader) => s.(calls := s.calls + [Call(job, viaReader, Begin, 0, false, 0)])
    case Start(t) =>
      if IsDataCall(s.calls[t]) then Put(s, t, s.calls[t].(pc := Allocating)).(idLock := Some(t))
      else Put(s, t, s.calls[t].(pc := Check(0)))
    case Allocate(t) => DoAllocate(s, t, max)
    case CheckStatus(t) =>
      var c := s.calls[t];
      Put(s, t, c.(pc := if s.status != Ready then Done
                         else if IsDataCall(c) then Want(c.pc.k) else Copying(c.pc.k)))
    case LockWrite(t) =>
      var c := s.calls[t];
      Put(s, t, c.(pc := if IsFinal(c, c.pc.k) then Locked(c.pc.k) else Copying(c.pc.k))).(writeLock := Some(t))
    case LockIds(t) => Put(s, t, s.calls[t].(pc := IdLocked(s.calls[t].pc.k))).(idLock := Some(t))
    case ReleaseId(t) =>
      var c := s.calls[t];
      Put(s, t, c.(pc := Copying(c.pc.k), owns := false)).(inUse := s.inUse - {c.sid}, idLock := None)
    case Copy(t) => DoCopy(s, t)
    case SetStatus(status) => s.(status := status)
    case BreakSocket => s.(broken := true)
  }

  /** The state after a schedule, if every step of it was possible. */
  function Run(steps: seq<Step>, max: nat): (s: Option<State>)
  {
    if steps == [] then Some(INITIAL)
    else
      var n := |steps| - 1;
      match Run(steps[..n], max)
      case None => None
      case Some(s) => if Enabled(s, steps[n]) then Some(Apply(s, steps[n], max)) else None
  }

  // ---------------------------------------------------------------- invariant

  /** Its allocation failed: a `Dispatch` that returned the error, or a `DispatchReader` that went on with id 0. */
  predicate Exhausted(c: Call)
  {
    IsDataCall(c) && c.sid == 0 && c.pc != Begin && c.pc != Allocating
  }

  predicate HoldsWrite(c: Call)
  {
    IsDataCall(c) && (c.pc.Locked? || c.pc.IdLocked? || c.pc.Copying?)
  }

  predicate HoldsIds(c: Call)
  {
    IsDataCall(c) && (c.pc == Allocating || c.pc.IdLocked? || Exhausted(c))
  }

  /** Its id is out of inUseStreams but its final frame is not on the wire yet. */
  predicate EarlyReleased(c: Call)
  {
    IsDataCall(c) && c.pc.Copying? && IsFinal(c, c.pc.k)
  }

  predicate FinalWritten(c: Call)
  {
    c.written > 0 && IsFinal(c, c.written - 1)
  }

  /** Past its allocation and not returned. */
  predicate Writing(c: Call)
  {
    IsDataCall(c) && c.pc != Begin && c.pc != Allocating && c.pc != Done
  }

  /** One call's own fields fit together. */
  predicate CallOk(c: Call, max: nat)
  {
    && JobOk(c.job)
    && c.written <= |c.job.frags|
    && c.sid <= max
    && (c.owns ==> IsDataCall(c) && c.sid > 0)
    && (IsControl(c.job.op) ==> c.sid == 0)
    && (EarlyReleased(c) ==> !c.owns)
    && (Writing(c) && c.sid > 0 && !EarlyReleased(c) ==> c.owns)
    && (FinalWritten(c) ==> !c.owns)
    && match c.pc {
         case Begin => c.written == 0 && c.sid == 0
         case Allocating => c.written == 0 && c.sid == 0 && IsDataCall(c)
         case Check(k) => c.written == k < |c.job.frags|
         case Want(k) => c.written == k < |c.job.frags| && IsDataCall(c)
         case Locked(k) => c.written == k && IsFinal(c, k) && IsDataCall(c)
         case IdLocked(k) => c.written == k && IsFinal(c, k) && IsDataCall(c) && c.sid > 0
         case Copying(k) => c.written == k < |c.job.frags|
         case Done => true
       }
  }

  ghost predicate LocksOk(s: State)
  {
    && (s.writeLock.Some? ==> s.writeLock.value < |s.calls|)
    && (s.idLock.Some? ==> s.idLock.value < |s.calls|)
    && (forall t :: 0 <= t < |s.calls| ==>
          && (s.writeLock == Some(t) <==> HoldsWrite(s.calls[t]))
          && (s.idLock == Some(t) <==> HoldsIds(s.calls[t])))
  }

  /** Reserved ids are the owners' ids, each with one owner. */
  ghost predicate IdsOk(s: State)
  {
    && (forall t :: 0 <= t < |s.calls| && s.calls[t].owns ==> s.calls[t].sid in s.inUse)
    && (forall id | id in s.inUse :: exists t :: 0 <= t < |s.calls| && s.calls[t].owns && s.calls[t].sid == id)
    && (forall t, u | 0 <= t < |s.calls| && 0 <= u < |s.calls| && s.calls[t].owns && s.calls[u].owns
                      && s.calls[t].sid == s.calls[u].sid :: t == u)
  }

  /** Whoever takes an early released id has written nothing yet. */
  ghost predicate EarlyReleaseOk(s: State)
  {
    forall t, u | 0 <= t < |s.calls| && 0 <= u < |s.calls| && EarlyReleased(s.calls[t])
                  && s.calls[u].owns && s.calls[u].sid == s.calls[t].sid :: s.calls[u].written == 0
  }

  /** The wire shows of each call what the call has written, and an unfinished message still owns its id. */
  ghost predicate LinkOk(s: State)
  {
    forall t :: 0 <= t < |s.calls| ==> var c := s.calls[t];
      && (t in LastOf(s.log) <==> c.written > 0)
      && (c.written > 0 ==> LastOf(s.log)[t] == Event(t, c.sid, c.job, c.written - 1))
      && (IsDataCall(c) && c.sid > 0 && !FinalWritten(c) && !EarlyReleased(c) ==> c.owns)
  }

  ghost predicate LogOk(s: State)
  {
    && Orderly(s.log)
    && (forall t | t in LastOf(s.log) :: t < |s.calls|)
    && (!s.broken ==> LinkOk(s))
  }

  ghost predicate Inv(s: State, max: nat)
  {
    && (forall t :: 0 <= t < |s.calls| ==> CallOk(s.calls[t], max))
    && s.lastStream <= max
    && LocksOk(s) && IdsOk(s) && EarlyReleaseOk(s) && LogOk(s)
  }

  // ---------------------------------------------------------------- one call's transitions

  lemma {:induction false} FreshCall(job: Job, viaReader: bool, max: nat)
    requires JobOk(job)
    ensures var c := Call(job, viaReader, Begin, 0, false, 0);
            CallOk(c, max) && !HoldsWrite(c) && !HoldsIds(c) && !EarlyReleased(c)
  {
  }

  lemma {:induction false} AllocatedCall(c: Call, id: nat, max: nat)
    requires CallOk(c, max) && c.pc == Allocating && 1 <= id <= max
    ensures var c' := c.(sid := id, owns := true, pc := Check(0));
            && CallOk(c', max) && HoldsIds(c) && !HoldsWrite(c) && !HoldsIds(c') && !HoldsWrite(c')
            && !EarlyReleased(c) && !EarlyReleased(c') && !c.owns && c.written == 0
  {
  }

  lemma {:induction false} UnallocatedCall(c: Call, pc: Pc, max: nat)
    requires CallOk(c, max) && c.pc == Allocating && (pc == Done || pc == Check(0))
    ensures var c' := c.(pc := pc);
            && CallOk(c', max) && HoldsIds(c) && !HoldsWrite(c) && HoldsIds(c') && !HoldsWrite(c')
            && !EarlyReleased(c) && !EarlyReleased(c')
  {
  }

  lemma {:induction false} ReleasedCall(c: Call, max: nat)
    requires CallOk(c, max) && c.pc.IdLocked?
    ensures var c' := c.(pc := Copying(c.pc.k), owns := false);
            && CallOk(c', max) && HoldsIds(c) && HoldsWrite(c) && !HoldsIds(c') && HoldsWrite(c')
            && !EarlyReleased(c) && EarlyReleased(c') && c.owns
  {
  }

  lemma {:induction false} CopiedCall(c: Call, broken: bool, max: nat)
    requires CallOk(c, max) && c.pc.Copying?
    ensures var k := c.pc.k;
            var c' := if broken then c.(pc := Done)
                      else c.(pc := if k + 1 < |c.job.frags| then Check(k + 1) else Done, written := k + 1);
            && CallOk(c', max) && (HoldsWrite(c) <==> IsDataCall(c)) && !HoldsWrite(c')
            && (HoldsIds(c') <==> HoldsIds(c)) && !EarlyReleased(c') && k < |c.job.frags|
            && (!broken && IsDataCall(c) && c.sid > 0 && !FinalWritten(c') ==> c.owns)
  {
  }

  // ---------------------------------------------------------------- every step keeps the invariant

  lemma {:induction false} InitInv(max: nat)
    ensures Inv(INITIAL, max)
  {
  }

  /** Only a fresh call is added. */
  ghost predicate OnlyAdds(s: State, s': State)
  {
    && |s'.calls| == |s.calls| + 1
    && (forall t :: 0 <= t < |s.calls| ==> s'.calls[t] == s.calls[t])
    && s' == s.(calls := s'.calls)
    && var c := s'.calls[|s.calls|];
       !c.owns && c.written == 0 && c.sid == 0 && !HoldsWrite(c) && !HoldsIds(c) && !EarlyReleased(c)
  }

  lemma {:induction false} SpawnIds(s: State, s': State)
    requires IdsOk(s) && OnlyAdds(s, s')
    ensures IdsOk(s')
  {
    hide HoldsWrite, HoldsIds, EarlyReleased;
    forall id | id in s'.inUse
      ensures exists t :: 0 <= t < |s'.calls| && s'.calls[t].owns && s'.calls[t].sid == id
    {
      var t :| 0 <= t < |s.calls| && s.calls[t].owns && s.calls[t].sid == id;
      assert s'.calls[t] == s.calls[t];
    }
  }

  lemma {:induction false} SpawnLog(s: State, s': State)
    requires LogOk(s) && OnlyAdds(s, s')
    ensures LogOk(s')
  {
    hide HoldsWrite, HoldsIds, EarlyReleased, FinalWritten, LastOf, Orderly;
  }

  lemma {:induction false} SpawnLocks(s: State, s': State)
    requires LocksOk(s) && EarlyReleaseOk(s) && OnlyAdds(s, s')
    ensures LocksOk(s') && EarlyReleaseOk(s')
  {
    hide HoldsWrite, HoldsIds, EarlyReleased;
  }

  lemma {:induction false} SpawnKeeps(s: State, job: Job, viaReader: bool, max: nat)
    requires Inv(s, max) && JobOk(job)
    ensures Inv(Apply(s, Spawn(job, viaReader), max), max)
  {
    var s' := Apply(s, Spawn(job, viaReader), max);
    FreshCall(job, viaReader, max);
    assert OnlyAdds(s, s');
    SpawnIds(s, s');
    SpawnLog(s, s');
    SpawnLocks(s, s');
    hide LastOf, Orderly, CallOk, LogOk, IdsOk, LocksOk, EarlyReleaseOk, OnlyAdds;
  }

  ghost predicate OnlyCall(s: State, s': State, t: nat)
  {
    t < |s.calls| && |s'.calls| == |s.calls| && forall u :: 0 <= u < |s.calls| && u != t ==> s'.calls[u] == s.calls[u]
  }

  /** Nobody's ownership changes. */
  lemma {:induction false} SameOwners(s: State, s': State, t: nat)
    requires IdsOk(s) && OnlyCall(s, s', t) && s'.inUse == s.inUse
    requires s'.calls[t].owns == s.calls[t].owns && s'.calls[t].sid == s.calls[t].sid
    ensures IdsOk(s')
  {
    forall id | id in s'.inUse
      ensures exists u :: 0 <= u < |s'.calls| && s'.calls[u].owns && s'.calls[u].sid == id
    {
      var u :| 0 <= u < |s.calls| && s.calls[u].owns && s.calls[u].sid == id;
      assert s'.calls[u].owns && s'.calls[u].sid == id;
    }
  }

  /** A step that only moves one call's program counter and the locks. */
  ghost predicate OnlyMoves(s: State, s': State, t: nat)
  {
    && OnlyCall(s, s', t)
    && s'.calls[t] == s.calls[t].(pc := s'.calls[t].pc)
    && s'.inUse == s.inUse && s'.log == s.log && s'.broken == s.broken
    && EarlyReleased(s'.calls[t]) == EarlyReleased(s.calls[t])
  }

  lemma {:induction false} MoveEarly(s: State, s': State, t: nat)
    requires EarlyReleaseOk(s) && OnlyMoves(s, s', t)
    ensures EarlyReleaseOk(s')
  {
    hide EarlyReleased;
  }

  lemma {:induction false} SameFinal(c: Call, pc: Pc)
    ensures FinalWritten(c.(pc := pc)) == FinalWritten(c)
  {
  }

  lemma {:induction false} MoveLinks(s: State, s': State, t: nat)
    requires LinkOk(s) && OnlyMoves(s, s', t)
    ensures LinkOk(s')
  {
    hide LastOf, EarlyReleased, FinalWritten, IsFinal;
    SameFinal(s.calls[t], s'.calls[t].pc);
  }

  lemma {:induction false} MoveLog(s: State, s': State, t: nat)
    requires LogOk(s) && OnlyMoves(s, s', t)
    ensures LogOk(s')
  {
    hide LastOf, Orderly, EarlyReleased, LinkOk;
    if !s.broken {
      MoveLinks(s, s', t);
    }
  }

  lemma {:induction false} MoveKeeps(s: State, s': State, t: nat, max: nat)
    requires Inv(s, max) && OnlyMoves(s, s', t)
    ensures IdsOk(s') && EarlyReleaseOk(s') && LogOk(s')
  {
    hide LocksOk, CallOk, EarlyReleased, IdsOk, EarlyReleaseOk, LogOk;
    SameOwners(s, s', t);
    MoveEarly(s, s', t);
    MoveLog(s, s', t);
  }

  /** The call moves on, taking a lock if it was free and keeping what it holds. */
  ghost predicate Moves(s: State, s': State, t: nat, max: nat)
  {
    && OnlyMoves(s, s', t) && s'.lastStream == s.lastStream
    && CallOk(s'.calls[t], max)
    && s'.writeLock == (if HoldsWrite(s'.calls[t]) then Some(t) else s.writeLock)
    && s'.idLock == (if HoldsIds(s'.calls[t]) then Some(t) else s.idLock)
    && (HoldsWrite(s'.calls[t]) && !HoldsWrite(s.calls[t]) ==> s.writeLock == None)
    && (HoldsIds(s'.calls[t]) && !HoldsIds(s.calls[t]) ==> s.idLock == None)
    && (HoldsWrite(s.calls[t]) ==> HoldsWrite(s'.calls[t])) && (HoldsIds(s.calls[t]) ==> HoldsIds(s'.calls[t]))
  }

  /** What the invariant says of one call and the locks. */
  ghost predicate OneCallOk(s: State, t: nat, max: nat)
  {
    && t < |s.calls| && CallOk(s.calls[t], max)
    && (s.writeLock == Some(t) <==> HoldsWrite(s.calls[t])) && (s.idLock == Some(t) <==> HoldsIds(s.calls[t]))
  }

  lemma {:induction false} InvAt(s: State, t: nat, max: nat)
    requires Inv(s, max) && t < |s.calls|
    ensures OneCallOk(s, t, max)
  {
    hide LogOk, IdsOk, EarlyReleaseOk, CallOk, HoldsWrite, HoldsIds;
  }

  lemma {:induction false} StartMoves(s: State, t: nat, max: nat)
    requires OneCallOk(s, t, max) && Enabled(s, Start(t))
    ensures Moves(s, Apply(s, Start(t), max), t, max)
  {
    hide FinalWritten;
    SameFinal(s.calls[t], Apply(s, Start(t), max).calls[t].pc);
  }

  lemma {:induction false} CheckMoves(s: State, t: nat, max: nat)
    requires OneCallOk(s, t, max) && Enabled(s, CheckStatus(t))
    ensures Moves(s, Apply(s, CheckStatus(t), max), t, max)
  {
    hide JobOk, FinalWritten;
    var c := s.calls[t];
    SameFinal(c, Apply(s, CheckStatus(t), max).calls[t].pc);
    assert IsDataCall(c) || !c.owns;
  }

  lemma {:induction false} LockMoves(s: State, t: nat, max: nat)
    requires OneCallOk(s, t, max) && Enabled(s, LockWrite(t))
    ensures Moves(s, Apply(s, LockWrite(t), max), t, max)
  {
    hide JobOk, FinalWritten;
    SameFinal(s.calls[t], Apply(s, LockWrite(t), max).calls[t].pc);
  }

  lemma {:induction false} LockIdsMoves(s: State, t: nat, max: nat)
    requires OneCallOk(s, t, max) && Enabled(s, LockIds(t))
    ensures Moves(s, Apply(s, LockIds(t), max), t, max)
  {
    hide JobOk, FinalWritten;
    SameFinal(s.calls[t], Apply(s, LockIds(t), max).calls[t].pc);
  }

  lemma {:induction false} MovesKeeps(s: State, s': State, t: nat, max: nat)
    requires Inv(s, max) && Moves(s, s', t, max)
    ensures Inv(s', max)
  {
    hide LogOk, IdsOk, EarlyReleaseOk, CallOk, HoldsWrite, HoldsIds, EarlyReleased;
    MoveKeeps(s, s', t, max);
  }

  lemma {:induction false} MovingStepKeeps(s: State, step: Step, t: nat, max: nat)
    requires Inv(s, max) && Enabled(s, step)
    requires step == Start(t) || step == CheckStatus(t) || step == LockWrite(t) || step == LockIds(t)
    ensures Inv(Apply(s, step, max), max)
  {
    hide Inv, Apply, Moves, OneCallOk;
    assert t < |s.calls|;
    hide Enabled;
    InvAt(s, t, max);
    match step {
      case Start(_) => StartMoves(s, t, max);
      case CheckStatus(_) => CheckMoves(s, t, max);
      case LockWrite(_) => LockMoves(s, t, max);
      case LockIds(_) => LockIdsMoves(s, t, max);
    }
    MovesKeeps(s, Apply(s, step, max), t, max);
  }

  lemma {:induction false} AllocateIds(s: State, s': State, t: nat, id: nat)
    requires IdsOk(s) && OnlyCall(s, s', t) && id !in s.inUse && !s.calls[t].owns
    requires s'.inUse == s.inUse + {id}
    requires s'.calls[t].owns && s'.calls[t].sid == id
    ensures IdsOk(s')
  {
    forall i | i in s'.inUse
      ensures exists u :: 0 <= u < |s'.calls| && s'.calls[u].owns && s'.calls[u].sid == i
    {
      if i in s.inUse {
        var u :| 0 <= u < |s.calls| && s.calls[u].owns && s.calls[u].sid == i;
        assert s'.calls[u] == s.calls[u];
      } else {
        assert s'.calls[t].owns && s'.calls[t].sid == i;
      }
    }
  }

  /** The new owner has written nothing, so it may share its id with an early released one. */
  lemma {:induction false} AllocateEarly(s: State, s': State, t: nat)
    requires EarlyReleaseOk(s) && OnlyCall(s, s', t)
    requires !EarlyReleased(s'.calls[t]) && s'.calls[t].written == 0
    ensures EarlyReleaseOk(s')
  {
    hide EarlyReleased;
  }

  lemma {:induction false} AllocateLog(s: State, s': State, t: nat)
    requires LogOk(s) && OnlyCall(s, s', t) && s'.log == s.log && s'.broken == s.broken
    requires s.calls[t].written == 0 && s'.calls[t].written == 0 && s'.calls[t].owns
    ensures LogOk(s')
  {
    hide LastOf, Orderly, EarlyReleased, FinalWritten;
  }

  /** The id a call is given is nobody else's, and the call has written nothing yet. */
  lemma {:induction false} NewIdIsFree(s: State, t: nat, max: nat)
    requires 1 <= max && Inv(s, max) && Enabled(s, Allocate(t))
    ensures var c := Apply(s, Allocate(t), max).calls[t];
            && (c.owns <==> Search(s.lastStream, s.inUse, max).Some?)
            && (c.owns ==>
                  && 1 <= c.sid <= max && c.written == 0 && c.sid !in s.inUse
                  && (forall u :: 0 <= u < |s.calls| && s.calls[u].owns ==> s.calls[u].sid != c.sid)
                  && Search(s.lastStream, s.inUse, max) == Some(c.sid))
    ensures var s2, c := Apply(s, Allocate(t), max), Apply(s, Allocate(t), max).calls[t];
            c.owns ==>
              s2.lastStream == c.sid && s2.inUse == s.inUse + {c.sid} && s2.idLock == None && c.pc == Check(0)
  {
    hide LastOf, Orderly, LocksOk, EarlyReleaseOk, LogOk, Search;
    SearchIsExact(s.lastStream, s.inUse, max);
    assert CallOk(s.calls[t], max);
  }

  lemma {:induction false} AllocateKeeps(s: State, t: nat, max: nat)
    requires 1 <= max && Inv(s, max) && Enabled(s, Allocate(t))
    ensures Inv(Apply(s, Allocate(t), max), max)
  {
    hide LastOf, Orderly, IdsOk, Search;
    var s', c := Apply(s, Allocate(t), max), s.calls[t];
    SearchIsExact(s.lastStream, s.inUse, max);
    hide CallOk, HoldsWrite, HoldsIds, EarlyReleased, FinalWritten;
    if Search(s.lastStream, s.inUse, max).None? {
      UnallocatedCall(c, s'.calls[t].pc, max);
      MoveKeeps(s, s', t, max);
    } else {
      AllocatedCall(c, s'.lastStream, max);
      AllocateIds(s, s', t, s'.lastStream);
      AllocateEarly(s, s', t);
      AllocateLog(s, s', t);
      hide LogOk, EarlyReleaseOk;
    }
  }

  lemma {:induction false} ReleaseIds(s: State, s': State, t: nat)
    requires IdsOk(s) && OnlyCall(s, s', t) && s.calls[t].owns
    requires s'.inUse == s.inUse - {s.calls[t].sid}
    requires !s'.calls[t].owns
    ensures IdsOk(s')
  {
    forall id | id in s'.inUse
      ensures exists u :: 0 <= u < |s'.calls| && s'.calls[u].owns && s'.calls[u].sid == id
    {
      var u :| 0 <= u < |s.calls| && s.calls[u].owns && s.calls[u].sid == id;
      assert s'.calls[u] == s.calls[u];
    }
  }

  lemma {:induction false} ReleaseEarly(s: State, s': State, t: nat)
    requires IdsOk(s) && EarlyReleaseOk(s) && OnlyCall(s, s', t) && s.calls[t].owns
    requires !s'.calls[t].owns && s'.calls[t].sid == s.calls[t].sid
    ensures EarlyReleaseOk(s')
  {
    hide EarlyReleased;
  }

  lemma {:induction false} ReleaseLocks(s: State, s': State, t: nat)
    requires LocksOk(s) && OnlyCall(s, s', t) && s'.idLock == None && s'.writeLock == s.writeLock
    requires HoldsIds(s.calls[t]) && !HoldsIds(s'.calls[t])
    requires HoldsWrite(s.calls[t]) && HoldsWrite(s'.calls[t])
    ensures LocksOk(s')
  {
    hide HoldsWrite, HoldsIds;
  }

  lemma {:induction false} ReleaseLog(s: State, s': State, t: nat)
    requires LogOk(s) && OnlyCall(s, s', t) && s'.log == s.log && s'.broken == s.broken
    requires s'.calls[t] == s.calls[t].(pc := s'.calls[t].pc, owns := false) && EarlyReleased(s'.calls[t])
    ensures LogOk(s')
  {
    hide LastOf, Orderly, EarlyReleased;
  }

  /** The early release gives up the call's own id: it was reserved, and all other reservations stand. */
  lemma {:induction false} ReleasesOwnIdOnly(s: State, t: nat, max: nat)
    requires Inv(s, max) && Enabled(s, ReleaseId(t))
    ensures var s', id := Apply(s, ReleaseId(t), max), s.calls[t].sid;
            && s.calls[t].owns && id in s.inUse && id !in s'.inUse && !s'.calls[t].owns
            && forall u :: 0 <= u < |s.calls| && u != t && s.calls[u].owns ==>
                 s'.calls[u] == s.calls[u] && s.calls[u].sid in s'.inUse
  {
    ReleasedCall(s.calls[t], max);
    hide LastOf, Orderly, LocksOk, EarlyReleaseOk, LogOk, CallOk;
  }

  lemma {:induction false} ReleaseKeeps(s: State, t: nat, max: nat)
    requires Inv(s, max) && Enabled(s, ReleaseId(t))
    ensures Inv(Apply(s, ReleaseId(t), max), max)
  {
    var s', c := Apply(s, ReleaseId(t), max), s.calls[t];
    ReleasedCall(c, max);
    hide LastOf, Orderly, IdsOk, EarlyReleaseOk, LogOk, LocksOk, CallOk, HoldsWrite, HoldsIds, EarlyReleased;
    ReleaseIds(s, s', t);
    ReleaseEarly(s, s', t);
    ReleaseLocks(s, s', t);
    ReleaseLog(s, s', t);
  }

  /** The copied frame fits the history: this is where the write lock over release and copy is needed. */
  lemma {:induction false} CopyFits(s: State, t: nat, max: nat)
    requires Inv(s, max) && Enabled(s, Copy(t)) && !s.broken
    ensures Fits(s.log, Event(t, s.calls[t].sid, s.calls[t].job, s.calls[t].pc.k))
  {
    hide LastOf, Orderly;
    var c, last := s.calls[t], LastOf(s.log);
    if t !in last && IsDataCall(c) {
      forall u | u in last && Open(last[u])
        ensures last[u].sid != c.sid
      {
        var d := s.calls[u];
        assert last[u] == Event(u, d.sid, d.job, d.written - 1);
        assert !FinalWritten(d) && IsDataCall(d);
        assert HoldsWrite(c) && s.writeLock == Some(t) && !HoldsWrite(d);
        assert c.sid == 0 ==> Exhausted(c) && s.idLock == Some(t);
        assert d.sid == 0 ==> Exhausted(d) && s.idLock == Some(u);
        assert c.sid > 0 ==> c.owns || EarlyReleased(c);
        assert d.sid > 0 ==> d.owns;
      }
    }
  }

  lemma {:induction false} CopyEarly(s: State, t: nat, max: nat)
    requires Inv(s, max) && Enabled(s, Copy(t))
    ensures EarlyReleaseOk(Apply(s, Copy(t), max))
  {
    hide LastOf, Orderly, IdsOk, LogOk;
    var s' := Apply(s, Copy(t), max);
    assert !EarlyReleased(s'.calls[t]);
    forall u, v | 0 <= u < |s'.calls| && 0 <= v < |s'.calls| && EarlyReleased(s'.calls[u])
                  && s'.calls[v].owns && s'.calls[v].sid == s'.calls[u].sid
      ensures s'.calls[v].written == 0
    {
      assert u != t && s.calls[u] == s'.calls[u];
      assert HoldsWrite(s.calls[u]) && !HoldsWrite(s.calls[t]);
      assert s.calls[v].owns && s.calls[v].sid == s.calls[u].sid;
    }
  }

  lemma {:induction false} CopyLinks(s: State, s': State, t: nat, e: Event)
    requires LinkOk(s) && OnlyCall(s, s', t) && s'.log == s.log + [e]
    requires var c := s'.calls[t];
             && c.written > 0 && e == Event(t, c.sid, c.job, c.written - 1)
             && (IsDataCall(c) && c.sid > 0 && !FinalWritten(c) ==> c.owns)
    ensures LinkOk(s')
  {
    LastOfSnoc(s.log, e);
    hide LastOf, FinalWritten, EarlyReleased;
  }

  lemma {:induction false} CopyLog(s: State, t: nat, max: nat)
    requires Inv(s, max) && Enabled(s, Copy(t))
    ensures LogOk(Apply(s, Copy(t), max))
  {
    hide LinkOk, LocksOk, IdsOk, EarlyReleaseOk;
    if !s.broken {
      var e := Event(t, s.calls[t].sid, s.calls[t].job, s.calls[t].pc.k);
      CopyFits(s, t, max);
      CopiedCall(s.calls[t], false, max);
      CopyLinks(s, Apply(s, Copy(t), max), t, e);
      LastOfSnoc(s.log, e);
      assert (s.log + [e])[..|s.log|] == s.log;
    }
  }

  lemma {:induction false} CopyLocks(s: State, s': State, t: nat)
    requires LocksOk(s) && OnlyCall(s, s', t) && s'.idLock == s.idLock
    requires s'.writeLock == if IsDataCall(s.calls[t]) then None else s.writeLock
    requires (HoldsWrite(s.calls[t]) <==> IsDataCall(s.calls[t])) && !HoldsWrite(s'.calls[t])
    requires HoldsIds(s'.calls[t]) <==> HoldsIds(s.calls[t])
    ensures LocksOk(s')
  {
    hide HoldsWrite, HoldsIds;
  }

  lemma {:induction false} CopyShape(s: State, t: nat, max: nat)
    requires Inv(s, max) && Enabled(s, Copy(t))
    ensures var s' := Apply(s, Copy(t), max);
            && OnlyCall(s, s', t) && CallOk(s'.calls[t], max) && s'.lastStream == s.lastStream
            && IdsOk(s') && LocksOk(s')
  {
    hide LogOk, EarlyReleaseOk;
    var s' := Apply(s, Copy(t), max);
    CopiedCall(s.calls[t], s.broken, max);
    SameOwners(s, s', t);
    CopyLocks(s, s', t);
  }

  lemma {:induction false} CopyKeeps(s: State, t: nat, max: nat)
    requires Inv(s, max) && Enabled(s, Copy(t))
    ensures Inv(Apply(s, Copy(t), max), max)
  {
    hide Apply, Enabled, LogOk, EarlyReleaseOk, IdsOk, CallOk, LocksOk;
    CopyShape(s, t, max);
    CopyEarly(s, t, max);
    CopyLog(s, t, max);
  }

  /** The status changing and the socket breaking happen outside the calls. */
  lemma {:induction false} OutsideKeeps(s: State, step: Step, max: nat)
    requires Inv(s, max) && Enabled(s, step) && (step.SetStatus? || step.BreakSocket?)
    ensures Inv(Apply(s, step, max), max)
  {
    hide CallOk, HoldsWrite, HoldsIds, EarlyReleased, FinalWritten, Orderly, LastOf;
  }

  lemma {:induction false} StepKeeps(s: State, step: Step, max: nat)
    requires 1 <= max && Inv(s, max) && Enabled(s, step)
    ensures Inv(Apply(s, step, max), max)
  {
    hide Inv, Apply;
    match step
    case Spawn(job, viaReader) => SpawnKeeps(s, job, viaReader, max);
    case Allocate(t) => AllocateKeeps(s, t, max);
    case ReleaseId(t) => ReleaseKeeps(s, t, max);
    case Copy(t) => CopyKeeps(s, t, max);
    case SetStatus(_) => OutsideKeeps(s, step, max);
    case BreakSocket => OutsideKeeps(s, step, max);
    case Start(t) => MovingStepKeeps(s, step, t, max);
    case CheckStatus(t) => MovingStepKeeps(s, step, t, max);
    case LockWrite(t) => MovingStepKeeps(s, step, t, max);
    case LockIds(t) => MovingStepKeeps(s, step, t, max);
  }

  lemma {:induction false} RunKeeps(steps: seq<Step>, max: nat)
    requires 1 <= max
    ensures Run(steps, max).Some? ==> Inv(Run(steps, max).value, max)
  {
    if steps == [] {
      InitInv(max);
    } else {
      var n := |steps| - 1;
      RunKeeps(steps[..n], max);
      if Run(steps, max).Some? {
        StepKeeps(Run(steps[..n], max).value, steps[n], max);
      }
    }
  }
}
