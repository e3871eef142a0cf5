/** `updateStatus` and `OnReady`: the status handlers see a chain, and readiness is announced at most once. */
module StatusEvents {
  import opened Multiplex

  /** What a status handler is told: the status before, and the new one it was registered for. */
  datatype Event = Event(prev: Status, now: Status)

  /** The status after a run of updates. */
  function StatusAfter(updates: seq<Status>): (s: Status)
  {
    if updates == [] then YetReady else updates[|updates| - 1]
  }

  /** The events of a run of updates: one for every update that changes the status. */
  function EventsOf(updates: seq<Status>): (es: seq<Event>)
  {
    if updates == [] then []
    else
      var prev, s := updates[..|updates| - 1], updates[|updates| - 1];
      EventsOf(prev) + (if StatusAfter(prev) == s then [] else [Event(StatusAfter(prev), s)])
  }

  /** Each event starts where the one before ended, and none repeats a status. */
  ghost predicate Chain(es: seq<Event>, last: Status)
  {
    && (forall i :: 0 <= i < |es| ==> es[i].prev != es[i].now)
    && (forall i :: 0 <= i < |es| - 1 ==> es[i + 1].prev == es[i].now)
    && (if es == [] then last == YetReady else es[0].prev == YetReady && es[|es| - 1].now == last)
  }

  lemma {:induction false} EventsFormAChain(updates: seq<Status>)
    ensures Chain(EventsOf(updates), StatusAfter(updates))
  {
    if updates != [] {
      EventsFormAChain(updates[..|updates| - 1]);
    }
  }

  /** Update i is to another status than the update before it; the first, to another than yet-ready. */
  predicate Changes(updates: seq<Status>, i: nat)
    requires i < |updates|
  {
    updates[i] != (if i == 0 then YetReady else updates[i - 1])
  }

  function ChangesOf(updates: seq<Status>): (places: set<nat>)
  {
    set i: nat | i < |updates| && Changes(updates, i)
  }

  lemma {:induction false} ChangesSnoc(updates: seq<Status>)
    requires updates != []
    ensures var n := |updates| - 1;
            |ChangesOf(updates)| == |ChangesOf(updates[..n])| + if Changes(updates, n) then 1 else 0
  {
    var n := |updates| - 1;
    assert forall i: nat :: i < n ==> (Changes(updates, i) <==> Changes(updates[..n], i));
    assert n !in ChangesOf(updates[..n]);
    assert ChangesOf(updates) == ChangesOf(updates[..n]) + if Changes(updates, n) then {n} else {};
  }

  /** As many events as changes: no other update is told. */
  lemma {:induction false} OnlyChangesAreTold(updates: seq<Status>)
    ensures |EventsOf(updates)| == |ChangesOf(updates)|
  {
    if updates == [] {
      assert ChangesOf(updates) == {};
    } else {
      OnlyChangesAreTold(updates[..|updates| - 1]);
      ChangesSnoc(updates);
    }
  }

  /** Every update that changes the status is told, in its place, with what the status was and what it is now. */
  lemma {:induction false} EveryChangeIsTold(updates: seq<Status>, i: nat)
    requires i < |updates| && Changes(updates, i)
    ensures |EventsOf(updates[..i])| < |EventsOf(updates)|
    ensures EventsOf(updates)[|EventsOf(updates[..i])|]
         == Event(if i == 0 then YetReady else updates[i - 1], updates[i])
  {
    var n := |updates| - 1;
    if i < n {
      EveryChangeIsTold(updates[..n], i);
      assert updates[..n][..i] == updates[..i];
    }
  }

  // ---------------------------------------------------------------- OnReady

  /** What happens to the handler of StatusReady: an update, `OnReady`, or another `OnStatus(StatusReady, ...)`. */
  datatype Act = Update(s: Status) | Register | Replace

  function UpdatesOf(acts: seq<Act>): (updates: seq<Status>)
  {
    if acts == [] then []
    else
      var prev, a := acts[..|acts| - 1], acts[|acts| - 1];
      UpdatesOf(prev) + (if a.Update? then [a.s] else [])
  }

  /** Whether the handler in place is that of `OnReady`: the last one set is the one that counts. */
  predicate Registered(acts: seq<Act>)
  {
    acts != [] &&
    var prev, a := acts[..|acts| - 1], acts[|acts| - 1];
    a.Register? || (a.Update? && Registered(prev))
  }

  /** How often an `OnReady` action has been run: at updates from yet-ready to ready, while it is in place. */
  function Fired(acts: seq<Act>): (n: nat)
  {
    if acts == [] then 0
    else
      var prev, a := acts[..|acts| - 1], acts[|acts| - 1];
      Fired(prev) + if a == Update(Ready) && StatusAfter(UpdatesOf(prev)) == YetReady && Registered(prev) then 1 else 0
  }

  /** It is in place from a call of `OnReady` until another action is set. */
  lemma {:induction false} InPlaceSince(acts: seq<Act>)
    ensures Registered(acts) <==>
              exists i :: 0 <= i < |acts| && acts[i] == Register && forall j :: i < j < |acts| ==> acts[j] != Replace
  {
    if acts != [] {
      var n := |acts| - 1;
      InPlaceSince(acts[..n]);
      if Registered(acts) && !acts[n].Register? {
        var i :| 0 <= i < n && acts[..n][i] == Register && forall j :: i < j < n ==> acts[..n][j] != Replace;
        assert acts[i] == Register;
      }
      if i :| 0 <= i < |acts| && acts[i] == Register && forall j :: i < j < |acts| ==> acts[j] != Replace {
        if i < n {
          assert acts[..n][i] == Register && acts[n] != Replace;
          assert forall j :: i < j < n ==> acts[..n][j] != Replace;
        }
      }
    }
  }

  /** No call of `updateStatus` passes StatusYetReady. */
  predicate NeverBack(acts: seq<Act>)
  {
    forall i :: 0 <= i < |acts| ==> acts[i] != Update(YetReady)
  }

  ghost predicate FirstUpdate(acts: seq<Act>, i: nat)
  {
    i < |acts| && acts[i].Update? && forall j :: 0 <= j < i ==> !acts[j].Update?
  }

  /** The first status change is to ready, and `OnReady` is in place when it comes. */
  ghost predicate ReadyFirst(acts: seq<Act>)
  {
    exists i: nat :: FirstUpdate(acts, i) && acts[i] == Update(Ready) && Registered(acts[..i])
  }

  lemma {:induction false} StillYetReady(acts: seq<Act>)
    requires NeverBack(acts)
    ensures UpdatesOf(acts) == [] <==> forall j :: 0 <= j < |acts| ==> !acts[j].Update?
    ensures StatusAfter(UpdatesOf(acts)) == YetReady <==> UpdatesOf(acts) == []
  {
    if acts != [] {
      StillYetReady(acts[..|acts| - 1]);
    }
  }

  lemma {:induction false} FirstInPrefix(acts: seq<Act>, i: nat)
    requires i < |acts| - 1
    ensures FirstUpdate(acts[..|acts| - 1], i) <==> FirstUpdate(acts, i)
    ensures acts[..|acts| - 1][i] == acts[i] && acts[..|acts| - 1][..i] == acts[..i]
  {
  }

  lemma {:induction false} ReadyFirstSnoc(acts: seq<Act>)
    requires acts != []
    ensures var n := |acts| - 1;
            ReadyFirst(acts) <==>
              ReadyFirst(acts[..n]) || (FirstUpdate(acts, n) && acts[n] == Update(Ready) && Registered(acts[..n]))
  {
    hide Registered;
    var n := |acts| - 1;
    if ReadyFirst(acts) {
      var i: nat :| FirstUpdate(acts, i) && acts[i] == Update(Ready) && Registered(acts[..i]);
      if i < n {
        FirstInPrefix(acts, i);
      }
    }
    if ReadyFirst(acts[..n]) {
      var i: nat :| FirstUpdate(acts[..n], i) && acts[..n][i] == Update(Ready) && Registered(acts[..n][..i]);
      hide FirstUpdate;
      FirstInPrefix(acts, i);
    }
  }

  /**
   * An `OnReady` action runs at most once, and it runs exactly when the connection's first status change is to ready
   * and the action is in place then: registered before, and not replaced. A connection closed before `Start` never
   * runs it, even if `Start` is called afterwards.
   */
  lemma {:induction false} OnReadyFiresOnce(acts: seq<Act>)
    requires NeverBack(acts)
    ensures Fired(acts) == if ReadyFirst(acts) then 1 else 0
  {
    if acts != [] {
      var n := |acts| - 1;
      OnReadyFiresOnce(acts[..n]);
      StillYetReady(acts[..n]);
      ReadyFirstSnoc(acts);
      assert forall j :: 0 <= j < n ==> acts[..n][j] == acts[j];
      if ReadyFirst(acts[..n]) {
        var i: nat :| FirstUpdate(acts[..n], i);
        assert acts[i].Update?;
      }
    }
  }

  /** The status of a Connection, what its status handlers were told, and how often an `OnReady` action was run. */
  class Announcer {
    var status: Status
    var told: seq<Event>
    var onReady: bool          // the handler of StatusReady is one set by OnReady
    var fired: nat
    ghost var acts: seq<Act>

    ghost predicate Valid()
      reads this
    {
      && status == StatusAfter(UpdatesOf(acts)) && told == EventsOf(UpdatesOf(acts))
      && onReady == Registered(acts) && fired == Fired(acts)
    }

    constructor ()
      ensures Valid() && acts == []
    {
      status, told, onReady, fired, acts := YetReady, [], false, 0, [];
    }

    method OnReady()
      requires Valid()
      modifies this
      ensures Valid() && acts == old(acts) + [Register]
    {
      acts := acts + [Register];
      assert acts[..|acts| - 1] == old(acts);
      assert UpdatesOf(acts) == UpdatesOf(old(acts));
      onReady := true;
    }

    /** `OnStatus(StatusReady, ...)` with another action. */
    method OnStatus()
      requires Valid()
      modifies this
      ensures Valid() && acts == old(acts) + [Replace]
    {
      acts := acts + [Replace];
      assert acts[..|acts| - 1] == old(acts);
      assert UpdatesOf(acts) == UpdatesOf(old(acts));
      onReady := false;
    }

    method UpdateStatus(s: Status)
      requires Valid()
      modifies this
      ensures Valid() && acts == old(acts) + [Update(s)]
    {
      acts := acts + [Update(s)];
      assert acts[..|acts| - 1] == old(acts);
      assert UpdatesOf(acts)[..|UpdatesOf(acts)| - 1] == UpdatesOf(old(acts));
      var prevStatus := status;
      if prevStatus == s {
        return;
      }
      status := s;
      told := told + [Event(prevStatus, s)];
      if s == Ready && onReady {
        // the action `OnReady` wraps looks at where the status comes from
        if prevStatus == YetReady {
          fired := fired + 1;
        }
      }
    }
  }
}
