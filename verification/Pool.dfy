/** The connection pool: one map and two lists that have to agree, and the broadcasts that rely on it. */
module Pool {
  import opened Wrappers
  import opened Bytes
  import opened Frames
  import opened Masking
  import Fragments
  import C = Codec

  function Occurrences<T(==)>(s: seq<T>, x: T): (n: nat)
  {
    multiset(s)[x]
  }

  /** `s` without the first `x`. */
  function WithoutFirst<T(==)>(s: seq<T>, x: T): (r: seq<T>)
    ensures x !in s ==> r == s
  {
    if s == [] then [] else if s[0] == x then s[1..] else [s[0]] + WithoutFirst(s[1..], x)
  }

  lemma {:induction false} WithoutFirstAt<T>(s: seq<T>, x: T, i: nat)
    requires i < |s| && s[i] == x && x !in s[..i]
    ensures WithoutFirst(s, x) == s[..i] + s[i + 1..]
  {
    if i > 0 {
      assert s[0] in s[..i];
      assert s[1..][..i - 1] == s[..i][1..];
      WithoutFirstAt(s[1..], x, i - 1);
      assert s[1..][i..] == s[i + 1..];
      assert s[..i] == [s[0]] + s[1..][..i - 1];
    }
  }

  lemma {:induction false} WithoutFirstCount<T>(s: seq<T>, x: T)
    ensures multiset(WithoutFirst(s, x)) == multiset(s) - multiset{x}
  {
    if s != [] {
      assert s == [s[0]] + s[1..];
      if s[0] != x {
        WithoutFirstCount(s[1..], x);
      }
    }
  }

  predicate NoDuplicates<T(==)>(s: seq<T>)
  {
    forall i, j :: 0 <= i < j < |s| ==> s[i] != s[j]
  }

  lemma {:induction false} RestOf<T>(s: seq<T>, i: nat, rest: seq<T>)
    requires NoDuplicates(s) && i < |s| && rest == s[..i] + s[i + 1..]
    ensures NoDuplicates(rest)
    ensures forall x :: x in rest <==> x in s && x != s[i]
  {
    assert forall j :: 0 <= j < |rest| ==> rest[j] == (if j < i then s[j] else s[j + 1]);
    forall x | x in s && x != s[i]
      ensures x in rest
    {
      var j :| 0 <= j < |s| && s[j] == x;
      assert if j < i then rest[j] == x else rest[j - 1] == x;
    }
  }

  /** A message handed to a connection: its type, and its payload at that moment. */
  datatype Sent = Sent(op: byte, payload: seq<byte>)

  /** One more message, of this type; if `exact`, with this payload. */
  predicate WasSent(before: seq<Sent>, now: seq<Sent>, op: byte, p: seq<byte>, exact: bool)
  {
    && |now| == |before| + 1 && now[..|before|] == before
    && now[|before|].op == op && (exact ==> now[|before|].payload == p)
  }

  /** Whom a broadcast is for. */
  datatype Audience = Everyone | Clients | Servers | InGroup(group: string) | Named(name: string) | AllBut(name: string)

  predicate Meant(a: Audience, c: Connection)
    reads c`name, c`group
  {
    match a
    case Everyone => true
    case Clients => c.isClient
    case Servers => !c.isClient
    case InGroup(group) => c.group == group
    case Named(name) => c.name == name
    case AllBut(name) => c.name != name
  }

  type ChunkSize = n: nat | n > 0 witness 1

  type PrivateMask = e: Option<seq<byte>> | PrivateMaskOk(e) witness None

  class Connection {
    var hasNode: bool             // Add gives it a node: a name and a group
    var name: string
    var group: string
    const isClient: bool
    const streamable: bool        // as negotiated
    const chunkSize: ChunkSize
    const privateMask: PrivateMask
    var eventPool: seq<string>    // the names of the handlers applied to it
    var outbox: seq<Sent>         // the messages dispatched on it

    constructor (isClient: bool, streamable: bool, chunkSize: ChunkSize, privateMask: PrivateMask)
      ensures this.isClient == isClient && this.streamable == streamable && !hasNode
      ensures this.chunkSize == chunkSize && this.privateMask == privateMask
      ensures eventPool == [] && outbox == []
    {
      this.isClient, this.streamable, hasNode := isClient, streamable, false;
      this.chunkSize, this.privateMask := chunkSize, privateMask;
      name, group, eventPool, outbox := "", "", [], [];
    }

    /** Clients mask, and only a stream head makes them copy the payload first. */
    predicate MasksInPlace(op: byte)
    {
      isClient && !(streamable && !IsControl(op))
    }

    method Apply(handler: string)
      modifies this`eventPool
      ensures eventPool == old(eventPool) + [handler]
    {
      eventPool := eventPool + [handler];
    }

    /** Drops the first handler of that name, if there is one. */
    method Revoke(handler: string)
      modifies this`eventPool
      ensures eventPool == WithoutFirst(old(eventPool), handler)
    {
      var idx := -1;
      for i := 0 to |eventPool|
        invariant eventPool == old(eventPool)
        invariant idx == -1 && handler !in eventPool[..i]
      {
        if eventPool[i] == handler {
          idx := i;
          break;
        }
      }
      if idx >= 0 {
        WithoutFirstAt(eventPool, handler, idx);
        eventPool := eventPool[..idx] + eventPool[idx + 1..];
      }
    }

    /** It masks in place exactly if some dispatch, with some mask keys, leaves another payload than it was given. */
    lemma {:induction false} MasksInPlaceIff(op: byte, sid: nat)
      ensures MasksInPlace(op) <==>
                exists p, keys :: |keys| == Fragments.ChunkCount(|p|, chunkSize) && C.FourBytes(keys)
                  && C.Leftover(C.Patched(isClient, streamable, op, sid), p, chunkSize, keys, privateMask) != p
    {
      hide C.Leftover, Fragments.ChunkCount;
      C.MasksInPlaceIff(C.Patched(isClient, streamable, op, sid), chunkSize, privateMask);
    }

    /** A mask key for each chunk, of four bytes that may be anything. */
    static method MaskKeys(n: nat) returns (keys: seq<seq<byte>>)
      ensures |keys| == n && C.FourBytes(keys)
    {
      keys := [];
      for i := 0 to n
        invariant |keys| == i && C.FourBytes(keys)
      {
        var a: byte, b: byte, c: byte, d: byte := *, *, *, *;
        keys := keys + [[a, b, c, d]];
      }
    }

    /** The chunks of the payload are assembled in the buffer they came in. */
    method Dispatch(op: byte, payload: array<byte>)
      modifies this`outbox, payload
      ensures outbox == old(outbox) + [Sent(op, old(payload[..]))]
      ensures !MasksInPlace(op) ==> payload[..] == old(payload[..])
      ensures exists sid, keys :: |keys| == Fragments.ChunkCount(payload.Length, chunkSize) && C.FourBytes(keys)
                && payload[..] == C.Leftover(C.Patched(isClient, streamable, op, sid), old(payload[..]), chunkSize,
                                             keys, privateMask)
    {
      hide Fragments.ChunkCount, C.Leftover, C.Writes;
      ghost var p := payload[..];
      outbox := outbox + [Sent(op, payload[..])];
      var sid: nat := *;
      var opt := C.Patched(isClient, streamable, op, sid);
      var keys := MaskKeys(Fragments.ChunkCount(payload.Length, chunkSize));
      var wire := C.DispatchBytes(payload, op, opt, chunkSize, keys, privateMask);
      if !MasksInPlace(op) {
        C.LeftoverUntouched(opt, p, chunkSize, keys, privateMask);
      }
    }
  }

  class Pool {
    var clients: seq<Connection>
    var servers: seq<Connection>
    var entryMap: map<string, Connection>
    const name: string
    const size: int

    constructor (name: string, size: int)
      ensures this.name == name && this.size == size
      ensures Valid() && entryMap == map[] && clients == [] && servers == []
    {
      this.name, this.size := name, size;
      clients, servers, entryMap := [], [], map[];
    }

    ghost predicate ListOk(list: seq<Connection>, isClient: bool)
      reads this, list
    {
      && NoDuplicates(list)
      && forall i :: 0 <= i < |list| ==>
           list[i].isClient == isClient && list[i].name in entryMap && entryMap[list[i].name] == list[i]
    }

    /** The map's keys are the members' names, each member is in exactly the list of its kind and once, and carries
        the pool's handler exactly once; a nonzero size bounds the map. */
    ghost predicate Valid()
      reads this, clients, servers, entryMap.Values
    {
      && (forall n | n in entryMap :: entryMap[n].hasNode && entryMap[n].name == n)
      && ListOk(clients, true) && ListOk(servers, false)
      && (forall n | n in entryMap :: entryMap[n] in (if entryMap[n].isClient then clients else servers))
      && (size != 0 ==> |entryMap| == 0 || |entryMap| <= size)
      && (forall n | n in entryMap :: Occurrences(entryMap[n].eventPool, name) == 1)
    }

    ghost function Members(): (cs: set<Connection>)
      reads this
    {
      entryMap.Values
    }

    /** A member is what its name leads to, and is in the list of its kind. */
    lemma {:induction false} MemberByName(c: Connection)
      requires Valid()
      ensures c in Members() ==> c.name in entryMap && entryMap[c.name] == c
      ensures c in Members() ==> c in (if c.isClient then clients else servers)
      ensures c.name in entryMap ==> var d := entryMap[c.name];
                d.name == c.name && d in Members() && d in (if d.isClient then clients else servers)
    {
    }

    /** Each member carries the handler once. */
    lemma {:induction false} MemberHandlers(c: Connection)
      requires Valid()
      ensures c in Members() ==> Occurrences(c.eventPool, name) == 1
    {
    }

    lemma {:induction false} OnlyUnderItsName(c: Connection)
      requires Valid()
      ensures forall n | n in entryMap && entryMap[n] == c :: n == c.name
    {
    }

    /** A connection that is in the map under another name than its own breaks the agreement. */
    lemma {:induction false} MisnamedMember(n: string)
      requires n in entryMap && entryMap[n].name != n
      ensures !Valid()
    {
    }

    /**
     * The members' own state, and nothing else, matters to the pool. (In the two-state lemmas `new` marks parameters
     * whose place in the old state is a stated requirement.)
     */
    twostate lemma {:induction false} SameMembers()
      requires old(Valid())
      requires entryMap == old(entryMap) && clients == old(clients) && servers == old(servers)
      requires forall c | c in Members() :: c.name == old(c.name) && c.hasNode == old(c.hasNode)
      requires forall c | c in Members() :: c.eventPool == old(c.eventPool)
      ensures Valid()
    {
      assert forall i :: 0 <= i < |clients| ==> clients[i] in Members();
      assert forall i :: 0 <= i < |servers| ==> servers[i] in Members();
    }

    twostate lemma {:induction false} ListGrows(new c: Connection, new list: seq<Connection>, isClient: bool)
      requires old(allocated(c)) && old(allocated(list))
      requires old(ListOk(list, isClient))
      requires c !in old(Members()) && c.name !in old(entryMap) && entryMap == old(entryMap)[c.name := c]
      requires forall d | d in old(Members()) :: d.name == old(d.name)
      ensures ListOk(list, isClient)
      ensures c.isClient == isClient ==> ListOk(list + [c], isClient)
    {
      forall i | 0 <= i < |list|
        ensures list[i] in old(Members()) && list[i] != c && list[i].name == old(list[i].name) && list[i].name != c.name
      {
        assert old(entryMap[list[i].name]) == list[i];
      }
    }

    /** The members so far are members still, as they were. */
    twostate lemma {:induction false} OldMembersStay(new c: Connection)
      requires old(allocated(c))
      requires c.hasNode
      requires old(Valid())
      requires c !in old(Members()) && c.name !in old(entryMap) && entryMap == old(entryMap)[c.name := c]
      requires forall d | d in old(Members()) :: d.name == old(d.name) && d.hasNode == old(d.hasNode)
      requires forall d | d in old(Members()) :: d.eventPool == old(d.eventPool)
      requires clients == old(clients) + (if c.isClient then [c] else [])
      requires servers == old(servers) + (if !c.isClient then [c] else [])
      ensures forall n | n in old(entryMap) ::
                && n != c.name && entryMap[n] == old(entryMap[n]) && entryMap[n].hasNode && entryMap[n].name == n
                && Occurrences(entryMap[n].eventPool, name) == 1
                && entryMap[n] in (if entryMap[n].isClient then clients else servers)
    {
      hide ListOk, Occurrences;
      assert forall n | n in old(entryMap) :: old(entryMap[n]) in old(Members());
    }

    /** With everybody else in place, agreement is up to the newcomer's handlers. */
    lemma {:induction false} NewcomerVerdict(c: Connection)
      requires c.name in entryMap && entryMap[c.name] == c && c.hasNode
      requires ListOk(clients, true) && ListOk(servers, false) && c in (if c.isClient then clients else servers)
      requires size == 0 || |entryMap| <= size
      requires forall n | n in entryMap && n != c.name ::
                 && entryMap[n].hasNode && entryMap[n].name == n
                 && Occurrences(entryMap[n].eventPool, name) == 1
                 && entryMap[n] in (if entryMap[n].isClient then clients else servers)
      ensures Valid() <==> Occurrences(c.eventPool, name) == 1
    {
      hide ListOk, Occurrences;
    }

    twostate lemma {:induction false} ListsGrow(new c: Connection)
      requires old(allocated(c))
      requires old(Valid())
      requires c !in old(Members()) && c.name !in old(entryMap) && entryMap == old(entryMap)[c.name := c]
      requires forall d | d in old(Members()) :: d.name == old(d.name)
      requires clients == old(clients) + (if c.isClient then [c] else [])
      requires servers == old(servers) + (if !c.isClient then [c] else [])
      ensures ListOk(clients, true) && ListOk(servers, false) && c in (if c.isClient then clients else servers)
    {
      hide ListOk, Occurrences;
      ListGrows(c, old(clients), true);
      ListGrows(c, old(servers), false);
      if c.isClient {
        assert servers == old(servers);
      } else {
        assert clients == old(clients);
      }
    }

    twostate lemma {:induction false} MemberAdded(new c: Connection)
      requires old(allocated(c))
      requires c.hasNode
      requires old(Valid())
      requires c !in old(Members()) && c.name !in old(entryMap) && entryMap == old(entryMap)[c.name := c]
      requires size == 0 || |old(entryMap)| < size
      requires forall d | d in old(Members()) :: d.name == old(d.name) && d.hasNode == old(d.hasNode)
      requires forall d | d in old(Members()) :: d.eventPool == old(d.eventPool)
      requires clients == old(clients) + (if c.isClient then [c] else [])
      requires servers == old(servers) + (if !c.isClient then [c] else [])
      ensures Valid() <==> Occurrences(c.eventPool, name) == 1
    {
      hide Valid, ListOk, Occurrences;
      ListsGrow(c);
      OldMembersStay(c);
      assert |entryMap| == |old(entryMap)| + 1;
      NewcomerVerdict(c);
    }

    /** The state changes of `Add`. */
    method Admit(c: Connection, name: string, group: string) returns (ok: bool)
      modifies this, c
      ensures c.hasNode && c.name == name && c.group == group && c.outbox == old(c.outbox)
      ensures ok <==> name !in old(entryMap) && (size == 0 || |old(entryMap)| < size)
      ensures entryMap == if ok then old(entryMap)[name := c] else old(entryMap)
      ensures c.eventPool == old(c.eventPool) + (if ok then [this.name] else [])
      ensures clients == old(clients) + (if ok && c.isClient then [c] else [])
      ensures servers == old(servers) + (if ok && !c.isClient then [c] else [])
    {
      c.hasNode, c.name, c.group := true, name, group;
      if c.name in entryMap {
        return false;
      }
      if size != 0 && |entryMap| >= size {
        return false;
      }
      c.Apply(this.name);
      entryMap := entryMap[c.name := c];
      if c.isClient {
        clients := clients + [c];
      } else {
        servers := servers + [c];
      }
      ok := true;
    }

    twostate lemma {:induction false} RefusalVerdict(new c: Connection)
      requires old(allocated(c)) && old(Valid())
      requires c.hasNode
      requires entryMap == old(entryMap) && clients == old(clients) && servers == old(servers)
      requires forall d | d in old(Members()) && d != c :: d.name == old(d.name) && d.hasNode == old(d.hasNode)
      requires forall d | d in old(Members()) && d != c :: d.eventPool == old(d.eventPool)
      requires c.eventPool == old(c.eventPool)
      ensures Valid() <==> (c in old(Members()) ==> c.name == old(c.name))
    {
      assert c in old(Members()) ==> old(entryMap[c.name]) == c && old(c.name) in entryMap;
      hide Valid;
      if c !in Members() || c.name == old(c.name) {
        SameMembers();
      } else {
        MisnamedMember(old(c.name));
      }
    }

    twostate lemma {:induction false} AdmissionVerdict(new c: Connection)
      requires old(allocated(c)) && old(Valid())
      requires c.hasNode
      requires c.name !in old(entryMap) && entryMap == old(entryMap)[c.name := c]
      requires size == 0 || |old(entryMap)| < size
      requires forall d | d in old(Members()) && d != c :: d.name == old(d.name) && d.hasNode == old(d.hasNode)
      requires forall d | d in old(Members()) && d != c :: d.eventPool == old(d.eventPool)
      requires c.eventPool == old(c.eventPool) + [name]
      requires clients == old(clients) + (if c.isClient then [c] else [])
      requires servers == old(servers) + (if !c.isClient then [c] else [])
      ensures Valid() <==> c !in old(Members()) && name !in old(c.eventPool)
    {
      assert c in old(Members()) ==> old(entryMap[c.name]) == c && old(c.name) in old(entryMap);
      hide Valid;
      if c in old(Members()) {
        MisnamedMember(old(c.name));
      } else {
        MemberAdded(c);
        assert multiset(c.eventPool) == multiset(old(c.eventPool)) + multiset{name};
      }
    }

    /** `Add`. `random` stands for the key made up when no name is given. */
    method Add(c: Connection, name: string, group: string, random: string) returns (ok: bool)
      requires Valid()
      modifies this, c
      ensures var n := if name == "" then random else name;
              && c.hasNode && c.name == n && c.group == group && c.outbox == old(c.outbox)
              && (ok <==> n !in old(entryMap) && (size == 0 || |old(entryMap)| < size))
              && entryMap == (if ok then old(entryMap)[n := c] else old(entryMap))
              && c.eventPool == old(c.eventPool) + (if ok then [this.name] else [])
              && clients == old(clients) + (if ok && c.isClient then [c] else [])
              && servers == old(servers) + (if ok && !c.isClient then [c] else [])
      // Agreement survives exactly when c is new to the pool and carries no handler of it yet, or when c is already
      // a member and is added under its own name again, which fails.
      ensures Valid() <==>
                if ok then c !in old(Members()) && this.name !in old(c.eventPool)
                else c in old(Members()) ==> c.name == old(c.name)
    {
      hide Valid;
      ok := Admit(c, if name == "" then random else name, group);
      if ok {
        AdmissionVerdict(c);
      } else {
        RefusalVerdict(c);
      }
    }

    /** The position of the connection of that name in a list, or -1. */
    method Find(list: seq<Connection>, n: string) returns (idx: int)
      ensures -1 <= idx < |list|
      ensures idx >= 0 ==> list[idx].name == n && forall i :: 0 <= i < idx ==> list[i].name != n
      ensures idx == -1 ==> forall i :: 0 <= i < |list| ==> list[i].name != n
    {
      for i := 0 to |list|
        invariant forall j :: 0 <= j < i ==> list[j].name != n
      {
        if list[i].name == n {
          return i;
        }
      }
      idx := -1;
    }

    /** In a list that agrees with the map, a name finds the member of that name, if it is of the list's kind. */
    lemma {:induction false} FoundIsMember(list: seq<Connection>, isClient: bool, n: string, idx: int)
      requires Valid() && list == (if isClient then clients else servers)
      requires -1 <= idx < |list|
      requires idx >= 0 ==> list[idx].name == n
      requires idx == -1 ==> forall i :: 0 <= i < |list| ==> list[i].name != n
      ensures idx >= 0 <==> n in entryMap && entryMap[n].isClient == isClient
      ensures idx >= 0 ==> list[idx] == entryMap[n] && entryMap[n] !in list[..idx]
    {
      if n in entryMap && entryMap[n].isClient == isClient {
        var i :| 0 <= i < |list| && list[i] == entryMap[n];
        assert list[i].name == n;
      }
    }

    ghost function Hit(c: Connection): (hit: bool)
      reads this, c, entryMap.Values
    {
      c.name in entryMap && entryMap[c.name].isClient == c.isClient
    }

    ghost function Without(list: seq<Connection>, c: Connection, isClient: bool): (r: seq<Connection>)
      reads this, c, entryMap.Values
    {
      if c.isClient == isClient && Hit(c) then WithoutFirst(list, entryMap[c.name]) else list
    }

    /** Where in the list of c's kind the connection of c's name is: it is the one the map holds, if of that kind. */
    method Locate(c: Connection) returns (idx: int)
      requires Valid()
      ensures -1 <= idx < |if c.isClient then clients else servers|
      ensures idx >= 0 <==> Hit(c)
      ensures var list := if c.isClient then clients else servers;
              idx >= 0 ==> list[idx] == entryMap[c.name] && entryMap[c.name] !in list[..idx]
      ensures Without(clients, c, true)
           == if idx >= 0 && c.isClient then WithoutFirst(clients, entryMap[c.name]) else clients
      ensures Without(servers, c, false)
           == if idx >= 0 && !c.isClient then WithoutFirst(servers, entryMap[c.name]) else servers
    {
      hide Valid, WithoutFirst;
      idx := Find(if c.isClient then clients else servers, c.name);
      FoundIsMember(if c.isClient then clients else servers, c.isClient, c.name, idx);
    }

    /** A list without the element at idx, which is the first of its kind. */
    static method Cut(list: seq<Connection>, idx: nat, ghost d: Connection) returns (rest: seq<Connection>)
      requires idx < |list| && list[idx] == d && d !in list[..idx]
      ensures rest == list[..idx] + list[idx + 1..] == WithoutFirst(list, d)
    {
      WithoutFirstAt(list, d, idx);
      rest := list[..idx] + list[idx + 1..];
    }

    twostate lemma {:induction false} ListShrinks(new c: Connection, new was: seq<Connection>,
                                                  new list: seq<Connection>, isClient: bool)
      requires old(allocated(c) && allocated(was) && allocated(list))
      requires old(ListOk(was, isClient)) && entryMap == old(entryMap) - {c.name} && c.name == old(c.name)
      requires c.name in old(entryMap) && old(entryMap[c.name]).name == c.name
      requires forall d | d in old(Members()) :: d.name == old(d.name)
      requires if old(entryMap[c.name]) in was
               then exists i :: 0 <= i < |was| && was[i] == old(entryMap[c.name]) && list == was[..i] + was[i + 1..]
               else list == was
      ensures ListOk(list, isClient)
      ensures forall d | d in was && d != old(entryMap[c.name]) :: d in list
    {
      forall i | 0 <= i < |was|
        ensures was[i] in old(Members()) && was[i].name == old(was[i].name)
        ensures was[i] != old(entryMap[c.name]) ==> was[i].name != c.name
      {
        assert old(entryMap[was[i].name]) == was[i];
      }
      if old(entryMap[c.name]) in was {
        var i :| 0 <= i < |was| && was[i] == old(entryMap[c.name]) && list == was[..i] + was[i + 1..];
        RestOf(was, i, list);
      }
      hide NoDuplicates;
      forall i | 0 <= i < |list|
        ensures list[i] in was && list[i] != old(entryMap[c.name])
      {
      }
    }

    /** The other members are untouched when one leaves. */
    twostate lemma {:induction false} OthersStay(new c: Connection, new d: Connection)
      requires old(allocated(c) && allocated(d))
      requires old(Valid()) && c.name == old(c.name) && c.name in old(entryMap) && d == old(entryMap[c.name])
      requires entryMap == old(entryMap) - {c.name}
      requires forall e | e in old(Members()) ::
                 && e.name == old(e.name) && e.hasNode == old(e.hasNode)
                 && (e != c ==> e.eventPool == old(e.eventPool))
      requires c in old(Members()) ==> c == d
      ensures forall n | n in entryMap ::
                && n != c.name && entryMap[n] == old(entryMap[n]) && entryMap[n] != d && entryMap[n].name == n
                && entryMap[n].hasNode
                && Occurrences(entryMap[n].eventPool, name) == 1
                && entryMap[n] in old(if entryMap[n].isClient then clients else servers)
    {
      hide ListOk, Occurrences;
      forall n | n in entryMap
        ensures entryMap[n] in old(Members()) && old(entryMap[n].name) == n && old(d.name) == c.name
      {
      }
    }

    twostate lemma {:induction false} ListsShrink(new c: Connection, new d: Connection, idx: nat)
      requires old(allocated(c) && allocated(d))
      requires old(Valid()) && c.name == old(c.name) && c.name in old(entryMap) && d == old(entryMap[c.name])
      requires entryMap == old(entryMap) - {c.name}
      requires forall e | e in old(Members()) :: e.name == old(e.name)
      requires idx < |old(if d.isClient then clients else servers)|
      requires old(if d.isClient then clients else servers)[idx] == d
      requires if d.isClient then clients == old(clients)[..idx] + old(clients)[idx + 1..] && servers == old(servers)
               else servers == old(servers)[..idx] + old(servers)[idx + 1..] && clients == old(clients)
      ensures ListOk(clients, true) && ListOk(servers, false)
      ensures forall e | e in old(clients) && e != d :: e in clients
      ensures forall e | e in old(servers) && e != d :: e in servers
    {
      assert old(d.name) == c.name;
      assert d in old(clients) ==> d.isClient;
      assert d in old(servers) ==> !d.isClient;
      hide ListOk, Occurrences;
      if d.isClient {
        ListShrinks(c, old(clients), clients, true);
        ListShrinks(c, old(servers), servers, false);
      } else {
        ListShrinks(c, old(servers), servers, false);
        ListShrinks(c, old(clients), clients, true);
      }
    }

    /** Dropping the member of that name from the map and from the list of its kind keeps everything in agreement. */
    twostate lemma {:induction false} MemberRemoved(new c: Connection, new d: Connection, idx: nat)
      requires old(allocated(c) && allocated(d))
      requires old(Valid()) && c.name == old(c.name) && c.name in old(entryMap) && d == old(entryMap[c.name])
      requires entryMap == old(entryMap) - {c.name}
      requires forall e | e in old(Members()) ::
                 && e.name == old(e.name) && e.hasNode == old(e.hasNode)
                 && (e != c ==> e.eventPool == old(e.eventPool))
      requires idx < |old(if d.isClient then clients else servers)|
      requires old(if d.isClient then clients else servers)[idx] == d
      requires if d.isClient then clients == old(clients)[..idx] + old(clients)[idx + 1..] && servers == old(servers)
               else servers == old(servers)[..idx] + old(servers)[idx + 1..] && clients == old(clients)
      requires c in old(Members()) ==> c == d
      ensures Valid()
    {
      hide ListOk, Occurrences;
      assert size != 0 ==> |entryMap| == 0 || |entryMap| <= size;
      ListsShrink(c, d, idx);
      OthersStay(c, d);
    }

    /** A name that stays in a list but not in the map breaks the agreement. */
    lemma {:induction false} StrayInList(d: Connection, isClient: bool)
      requires d in (if isClient then clients else servers) && d.name !in entryMap
      ensures !Valid()
    {
      var list := if isClient then clients else servers;
      var i :| 0 <= i < |list| && list[i] == d;
      assert list[i].name !in entryMap;
    }

    lemma {:induction false} KindOfHit(c: Connection)
      ensures c.name in entryMap ==> (Hit(c) <==> entryMap[c.name].isClient == c.isClient)
      ensures c.name !in entryMap ==> !Hit(c) && entryMap - {c.name} == entryMap
    {
    }

    /** The state changes of `remove`. */
    method Detach(c: Connection) returns (idx: int)
      requires Valid()
      modifies this, c`eventPool
      ensures entryMap == old(entryMap) - {c.name}
      ensures c.eventPool == WithoutFirst(old(c.eventPool), name)
      ensures idx >= 0 <==> old(Hit(c))
      ensures var list := old(if c.isClient then clients else servers);
              && -1 <= idx < |list|
              && (idx >= 0 ==> list[idx] == old(entryMap[c.name]))
              && clients == (if idx >= 0 && c.isClient then list[..idx] + list[idx + 1..] else old(clients))
              && servers == (if idx >= 0 && !c.isClient then list[..idx] + list[idx + 1..] else old(servers))
      ensures clients == old(Without(clients, c, true)) && servers == old(Without(servers, c, false))
    {
      hide Valid, WithoutFirst, Without, Hit;
      KindOfHit(c);
      ghost var d := if c.name in entryMap then entryMap[c.name] else c;
      idx := Locate(c);
      entryMap := entryMap - {c.name};
      c.Revoke(name);
      if idx >= 0 {
        if c.isClient {
          clients := Cut(clients, idx, d);
        } else {
          servers := Cut(servers, idx, d);
        }
      }
    }

    twostate lemma {:induction false} DetachVerdict(new c: Connection, idx: int)
      requires old(allocated(c))
      requires old(Valid()) && c.name == old(c.name) && entryMap == old(entryMap) - {c.name}
      requires forall e | e in old(Members()) ::
                 && e.name == old(e.name) && e.hasNode == old(e.hasNode)
                 && (e != c ==> e.eventPool == old(e.eventPool))
      requires idx >= 0 <==> old(Hit(c))
      requires c.name !in old(entryMap) ==> c !in old(Members())
      requires var list := old(if c.isClient then clients else servers);
               && -1 <= idx < |list|
               && (idx >= 0 ==> list[idx] == old(entryMap[c.name]))
               && clients == (if idx >= 0 && c.isClient then list[..idx] + list[idx + 1..] else old(clients))
               && servers == (if idx >= 0 && !c.isClient then list[..idx] + list[idx + 1..] else old(servers))
      ensures Valid() <==> (c.name in old(entryMap) ==> old(Hit(c)))
    {
      if idx >= 0 {
        assert old(c in Members()) ==> c == old(entryMap[c.name]);
        hide Valid, Hit;
        MemberRemoved(c, old(entryMap[c.name]), idx);
      } else if c.name in old(entryMap) {
        var d := old(entryMap[c.name]);
        assert d in (if d.isClient then clients else servers) && d.name == c.name;
        hide Valid, Hit;
        StrayInList(d, d.isClient);
      } else {
        hide Valid, Hit;
        assert old(entryMap) - {c.name} == old(entryMap);
        SameMembers();
      }
    }

    /**
     * `remove`. It goes by name: what leaves the map is whatever has c's name, what leaves a list is the connection
     * of that name in the list of c's kind, and the handler is taken off c.
     */
    method Remove(c: Connection)
      requires Valid() && c.hasNode
      modifies this, c`eventPool
      ensures entryMap == old(entryMap) - {c.name}
      ensures clients == old(Without(clients, c, true)) && servers == old(Without(servers, c, false))
      ensures c.eventPool == WithoutFirst(old(c.eventPool), name)
      // Agreement survives exactly when no connection of the other kind has taken the name meanwhile.
      ensures Valid() <==> (c.name in old(entryMap) ==> old(Hit(c)))
    {
      hide Valid, WithoutFirst, Without, Hit;
      MemberByName(c);
      var idx := Detach(c);
      DetachVerdict(c, idx);
    }

    lemma {:induction false} NotLocated(c: Connection)
      ensures c.name !in entryMap ==>
                entryMap - {c.name} == entryMap && Without(clients, c, true) == clients
                && Without(servers, c, false) == servers
    {
    }

    /**
     * `CastOut`. A member is gone from map, lists and its own handlers; casting out whoever has no place in the pool,
     * and so a second time, changes nothing; and the pool agrees afterwards exactly as after `Remove`.
     */
    method CastOut(c: Connection)
      requires Valid() && c.hasNode
      modifies this, c`eventPool
      ensures entryMap == old(entryMap) - {c.name} && c.name !in entryMap
      ensures clients == old(Without(clients, c, true)) && servers == old(Without(servers, c, false))
      ensures c.eventPool == WithoutFirst(old(c.eventPool), name)
      ensures Valid() <==> (c.name in old(entryMap) ==> old(Hit(c)))
      ensures old(c in Members()) ==> Valid() && c !in Members() && name !in c.eventPool
      ensures old(c.name !in entryMap && name !in c.eventPool) ==>
                entryMap == old(entryMap) && clients == old(clients) && servers == old(servers)
                && c.eventPool == old(c.eventPool)
    {
      hide Valid, ListOk;
      MemberByName(c);
      MemberHandlers(c);
      OnlyUnderItsName(c);
      WithoutFirstCount(c.eventPool, name);
      NotLocated(c);
      hide Without, WithoutFirst;
      Remove(c);
      assert forall n | n in entryMap :: entryMap[n] != c;
      assert Occurrences(c.eventPool, name) == if name in old(c.eventPool)
        then old(Occurrences(c.eventPool, name)) - 1 else 0;
    }

    lemma {:induction false} KeysAreNames()
      requires Valid()
      ensures forall n | n in entryMap :: entryMap[n].hasNode && entryMap[n].name == n
      ensures forall c | c in Members() :: c.name in entryMap && entryMap[c.name] == c
    {
    }

    /** The pool goes by names, so it casts out whoever the name leads to. */
    method CastOutByName(n: string) returns (ok: bool)
      requires Valid()
      modifies this, (if n in entryMap then {entryMap[n]} else {})`eventPool
      ensures Valid() && entryMap == old(entryMap) - {n} && n !in entryMap
      ensures ok <==> n in old(entryMap)
    {
      hide Without, WithoutFirst;
      KeysAreNames();
      hide Valid;
      ok := n in entryMap;
      if ok {
        var c := entryMap[n];
        assert c in Members();
        CastOut(c);
      } else {
        assert entryMap - {n} == entryMap;
      }
    }

    // -------------------------------------------------------------- broadcasts

    ghost function Recipients(a: Audience): (cs: set<Connection>)
      reads this, entryMap.Values
    {
      set c | c in Members() && Meant(a, c)
    }

    /** No connection that is meant changes the buffer it is handed. */
    predicate Quiet(a: Audience, op: byte)
      reads this, entryMap.Values
    {
      forall n | n in entryMap && Meant(a, entryMap[n]) :: !entryMap[n].MasksInPlace(op)
    }

    /** Each recipient was sent one message of this type, the other members nothing; with what, `exact` says. */
    twostate predicate Reached(a: Audience, op: byte, p: seq<byte>, exact: bool)
      reads this, entryMap.Values
    {
      && entryMap == old(entryMap)
      && forall c | c in Members() ::
           if old(Meant(a, c)) then WasSent(old(c.outbox), c.outbox, op, p, exact) else c.outbox == old(c.outbox)
    }

    lemma {:induction false} ListsAreKinds()
      requires Valid()
      ensures NoDuplicates(clients) && NoDuplicates(servers)
      ensures forall c | c in clients :: c in Members() && c.isClient
      ensures forall c | c in servers :: c in Members() && !c.isClient
      ensures forall c | c in Members() :: c in (if c.isClient then clients else servers)
    {
    }

    /** A list agrees with the map if and only if it lists the members of its kind, each once. */
    lemma {:induction false} ListIs(list: seq<Connection>, isClient: bool)
      requires forall n | n in entryMap :: entryMap[n].name == n
      ensures (ListOk(list, isClient)
               && forall n | n in entryMap && entryMap[n].isClient == isClient :: entryMap[n] in list)
         <==> (forall i, j :: 0 <= i < j < |list| ==> list[i] != list[j])
              && forall c :: c in list <==> c in entryMap.Values && c.isClient == isClient
    {
      if forall c :: c in list <==> c in entryMap.Values && c.isClient == isClient {
        forall i | 0 <= i < |list|
          ensures list[i].isClient == isClient && list[i].name in entryMap && entryMap[list[i].name] == list[i]
        {
          assert list[i] in list;
        }
      }
      assert forall n | n in entryMap :: entryMap[n] in entryMap.Values;
    }

    /**
     * Agreement in other words: the map's keys are its members' names, the two lists are the members of either kind,
     * each listed once, the size is kept, and every member has the pool's handler once.
     */
    lemma {:induction false} AgreementIs()
      ensures Valid() <==>
                && (forall n | n in entryMap :: entryMap[n].hasNode && entryMap[n].name == n)
                && (forall i, j :: 0 <= i < j < |clients| ==> clients[i] != clients[j])
                && (forall i, j :: 0 <= i < j < |servers| ==> servers[i] != servers[j])
                && (forall c :: c in clients <==> c in entryMap.Values && c.isClient)
                && (forall c :: c in servers <==> c in entryMap.Values && !c.isClient)
                && (size == 0 || |entryMap| == 0 || |entryMap| <= size)
                && (forall c | c in entryMap.Values :: multiset(c.eventPool)[name] == 1)
    {
      if forall n | n in entryMap :: entryMap[n].name == n {
        ListIs(clients, true);
        ListIs(servers, false);
        hide ListOk;
      }
    }

    /** One turn of the loop over the map; `exact` promises that nobody has changed the buffer, nor will this one. */
    static method Offer(a: Audience, n: string, c: Connection, op: byte, payload: array<byte>,
                        ghost p: seq<byte>, ghost exact: bool)
      requires c.name == n
      requires exact ==> payload[..] == p && (Meant(a, c) ==> !c.MasksInPlace(op))
      modifies c`outbox, payload
      ensures if Meant(a, c) then WasSent(old(c.outbox), c.outbox, op, p, exact) else c.outbox == old(c.outbox)
      ensures exact ==> payload[..] == p
    {
      if (if a.AllBut? then n != a.name else Meant(a, c)) {
        c.Dispatch(op, payload);
      }
    }

    method OfferToAll(a: Audience, op: byte, payload: array<byte>)
      requires forall n | n in entryMap :: entryMap[n].name == n
      modifies Members()`outbox, payload
      ensures Reached(a, op, old(payload[..]), old(Quiet(a, op)))
      ensures old(Quiet(a, op)) ==> payload[..] == old(payload[..])
    {
      hide Meant, WasSent;
      ghost var quiet, p := Quiet(a, op), payload[..];
      var names := entryMap.Keys;
      while names != {}
        invariant names <= entryMap.Keys
        invariant quiet ==> payload[..] == p
        invariant forall n | n in names :: entryMap[n].outbox == old(entryMap[n].outbox)
        invariant forall n | n in entryMap && n !in names ::
                    if old(Meant(a, entryMap[n]))
                    then WasSent(old(entryMap[n].outbox), entryMap[n].outbox, op, p, quiet)
                    else entryMap[n].outbox == old(entryMap[n].outbox)
      {
        var n :| n in names;
        names := names - {n};
        Offer(a, n, entryMap[n], op, payload, p, quiet);
      }
    }

    /**
     * The loop over the map that `Dispatch`, `ToGroup` and `Except` share; the map is visited in any order. Every
     * recipient gets the payload as it was handed in, provided none of them masks it in place.
     */
    method Broadcast(a: Audience, op: byte, payload: array<byte>)
      requires Valid()
      modifies Members()`outbox, payload
      ensures Valid() && Reached(a, op, old(payload[..]), old(Quiet(a, op)))
      ensures old(Quiet(a, op)) ==> payload[..] == old(payload[..])
    {
      KeysAreNames();
      hide Valid, Meant, Reached, Quiet;
      OfferToAll(a, op, payload);
      SameMembers();
    }

    static lemma {:induction false} JustSent(before: seq<Sent>, op: byte, sent: seq<byte>, p: seq<byte>, exact: bool)
      requires exact ==> sent == p
      ensures WasSent(before, before + [Sent(op, sent)], op, p, exact)
    {
    }

    /** A loop over a list without duplicates. */
    static method SendEach(list: seq<Connection>, op: byte, payload: array<byte>)
      requires NoDuplicates(list)
      modifies list`outbox, payload
      ensures var quiet := forall c | c in list :: !c.MasksInPlace(op);
              && (forall c | c in list :: WasSent(old(c.outbox), c.outbox, op, old(payload[..]), quiet))
              && (quiet ==> payload[..] == old(payload[..]))
    {
      hide WasSent;
      ghost var quiet, p := forall c | c in list :: !c.MasksInPlace(op), payload[..];
      for i := 0 to |list|
        invariant quiet ==> payload[..] == p
        invariant forall j :: i <= j < |list| ==> list[j].outbox == old(list[j].outbox)
        invariant forall j :: 0 <= j < i ==> WasSent(old(list[j].outbox), list[j].outbox, op, p, quiet)
      {
        ghost var sent := payload[..];
        list[i].Dispatch(op, payload);
        JustSent(old(list[i].outbox), op, sent, p, quiet);
      }
    }

    method SendToList(list: seq<Connection>, op: byte, payload: array<byte>)
      requires Valid() && NoDuplicates(list) && forall c | c in list :: c in Members()
      modifies Members()`outbox, payload
      ensures Valid()
      ensures var quiet := forall c | c in list :: !c.MasksInPlace(op);
              && (forall c | c in Members() ::
                    if c in list then WasSent(old(c.outbox), c.outbox, op, old(payload[..]), quiet)
                    else c.outbox == old(c.outbox))
              && (quiet ==> payload[..] == old(payload[..]))
    {
      hide Valid, NoDuplicates, WasSent;
      SendEach(list, op, payload);
      SameMembers();
    }

    lemma {:induction false} QuietList(list: seq<Connection>, a: Audience, op: byte)
      requires forall c | c in Members() :: c in list <==> Meant(a, c)
      requires forall c | c in list :: c in Members()
      ensures Quiet(a, op) <==> forall c | c in list :: !c.MasksInPlace(op)
      ensures a == Servers ==> Quiet(a, op)
    {
    }

    /** The list of a kind is that audience. */
    lemma {:induction false} ListOfKind(toClients: bool, op: byte)
      requires Valid()
      ensures var list, a := if toClients then clients else servers, if toClients then Clients else Servers;
              && NoDuplicates(list) && (forall c | c in list :: c in Members())
              && (forall c | c in Members() :: c in list <==> Meant(a, c))
              && (Quiet(a, op) <==> forall c | c in list :: !c.MasksInPlace(op))
      ensures !toClients ==> Quiet(Servers, op)
    {
      ListsAreKinds();
      hide Valid, NoDuplicates;
      QuietList(if toClients then clients else servers, if toClients then Clients else Servers, op);
    }

    /** `ToClients` and `ToServers`; servers never mask, so to them the payload is exact. */
    method ToKind(toClients: bool, op: byte, payload: array<byte>)
      requires Valid()
      modifies Members()`outbox, payload
      ensures Valid() && Reached(if toClients then Clients else Servers, op, old(payload[..]),
                                 old(Quiet(if toClients then Clients else Servers, op)))
      ensures !toClients ==> old(Quiet(Servers, op)) && payload[..] == old(payload[..])
    {
      hide Valid, NoDuplicates, WasSent, Quiet, Meant;
      ListOfKind(toClients, op);
      SendToList(if toClients then clients else servers, op, payload);
    }

    lemma {:induction false} NamedIs(n: string)
      requires Valid()
      ensures forall c | c in Members() :: Meant(Named(n), c) <==> n in entryMap && c == entryMap[n]
    {
      KeysAreNames();
      hide Valid;
    }

    /** One recipient at most, so its payload is exact whatever it does to the buffer. */
    method ToPick(name: string, op: byte, payload: array<byte>) returns (found: bool)
      requires Valid()
      modifies Members()`outbox, payload
      ensures Valid() && Reached(Named(name), op, old(payload[..]), true)
      ensures found <==> name in entryMap
    {
      hide Valid, WasSent, Quiet, Meant;
      NamedIs(name);
      found := name in entryMap;
      if found {
        var c := entryMap[name];
        c.Dispatch(op, payload);
        JustSent(old(c.outbox), op, old(payload[..]), old(payload[..]), true);
      }
      SameMembers();
    }

    /** Everyone is the clients and the servers, without overlap, and these are the two lists. */
    lemma {:induction false} EveryoneByKind()
      requires Valid()
      ensures Recipients(Everyone) == Members() == Recipients(Clients) + Recipients(Servers)
      ensures Recipients(Clients) !! Recipients(Servers)
      ensures Recipients(Clients) == (set c | c in clients) && Recipients(Servers) == (set c | c in servers)
    {
      ListsAreKinds();
      hide Valid, NoDuplicates;
    }

    /** Everyone is the one of a given name, if any, and all the others, without overlap. */
    lemma {:induction false} EveryoneByName(n: string)
      requires Valid()
      ensures Recipients(Everyone) == Recipients(AllBut(n)) + Recipients(Named(n))
      ensures Recipients(AllBut(n)) !! Recipients(Named(n))
      ensures Recipients(Named(n)) == (if n in entryMap then {entryMap[n]} else {})
    {
      KeysAreNames();
      hide Valid;
    }

    ghost function Groups(): (gs: set<string>)
      reads this, entryMap.Values
    {
      set c | c in Members() :: c.group
    }

    /** Everyone is the groups' members, no two groups sharing one. */
    lemma {:induction false} EveryoneByGroup()
      ensures forall g :: Recipients(InGroup(g)) == set c | c in Members() && c.group == g
      ensures Recipients(Everyone) == set g, c | g in Groups() && c in Recipients(InGroup(g)) :: c
      ensures forall g, h | g != h :: Recipients(InGroup(g)) !! Recipients(InGroup(h))
    {
      forall c | c in Recipients(Everyone)
        ensures c.group in Groups() && c in Recipients(InGroup(c.group))
      {
      }
    }
  }

  // ---------------------------------------------------------------- whole runs

  /** What is done to a pool: connection i joins under a name, is cast out, or whoever has a name is cast out. */
  datatype Op =
    | Join(i: nat, name: string, group: string, random: string)
    | Leave(i: nat)
    | LeaveByName(name: string)

  function NameOf(op: Op): (n: string)
    requires op.Join?
  {
    if op.name == "" then op.random else op.name
  }

  /** Each connection is added once, and names are not reused. */
  predicate Disciplined(ops: seq<Op>, n: nat)
  {
    && (forall k :: 0 <= k < |ops| && !ops[k].LeaveByName? ==> ops[k].i < n)
    && (forall j, k | 0 <= j < k < |ops| && ops[j].Join? && ops[k].Join? ::
          ops[j].i != ops[k].i && NameOf(ops[j]) != NameOf(ops[k]))
  }

  /** Who is a member after one more operation, by name and number. */
  function After(m: map<string, nat>, op: Op, size: int): (m': map<string, nat>)
  {
    match op
    case Join(i, _, _, _) => if NameOf(op) in m || (size != 0 && |m| >= size) then m else m[NameOf(op) := i]
    case Leave(i) => map n | n in m && m[n] != i :: m[n]
    case LeaveByName(n) => m - {n}
  }

  /** Who is a member after the first operations on an empty pool. */
  function Outcome(ops: seq<Op>, done: nat, size: int): (m: map<string, nat>)
    requires done <= |ops|
  {
    if done == 0 then map[] else After(Outcome(ops, done - 1, size), ops[done - 1], size)
  }

  ghost predicate Follows(entries: map<string, Connection>, conns: seq<Connection>, m: map<string, nat>)
  {
    entries.Keys == m.Keys && forall n | n in m :: m[n] < |conns| && entries[n] == conns[m[n]]
  }

  lemma {:induction false} SameSize(entries: map<string, Connection>, conns: seq<Connection>, m: map<string, nat>)
    requires Follows(entries, conns, m)
    ensures |entries| == |m|
  {
    assert |entries| == |entries.Keys| && |m| == |m.Keys|;
  }

  lemma {:induction false} FollowsLeave(entries: map<string, Connection>, conns: seq<Connection>, m: map<string, nat>,
                                        i: nat, name: string, size: int)
    requires Follows(entries, conns, m) && NoDuplicates(conns) && i < |conns|
    requires forall n | n in entries && entries[n] == conns[i] :: n == name
    requires name in entries ==> entries[name] == conns[i]
    ensures Follows(entries - {name}, conns, After(m, Leave(i), size))
  {
    forall n | n in m
      ensures m[n] == i <==> n == name
    {
    }
  }

  /** Connection i was added by operation k, and got its name there. */
  ghost predicate JoinedBy(conns: seq<Connection>, ops: seq<Op>, i: nat, k: nat)
    requires i < |conns| && k < |ops|
    reads conns
  {
    ops[k].Join? && ops[k].i == i && conns[i].hasNode && conns[i].name == NameOf(ops[k])
  }

  /** After the first operations: the members are among the connections that joined, the others carry no handler. */
  ghost predicate Sofar(p: Pool, conns: seq<Connection>, ops: seq<Op>, done: nat, joined: map<nat, nat>)
    requires done <= |ops|
    reads p, conns
  {
    && (forall i | i in joined :: i < |conns| && joined[i] < done && JoinedBy(conns, ops, i, joined[i]))
    && (forall n | n in p.entryMap :: exists i :: i in joined && i < |conns| && p.entryMap[n] == conns[i])
    && (forall i | 0 <= i < |conns| && (forall k | 0 <= k < done && ops[k].Join? :: ops[k].i != i) ::
          p.name !in conns[i].eventPool)
  }

  lemma {:induction false} NotYetMember(p: Pool, conns: seq<Connection>, ops: seq<Op>, done: nat, joined: map<nat, nat>)
    requires done < |ops| && Disciplined(ops, |conns|) && ops[done].Join? && NoDuplicates(conns)
    requires Sofar(p, conns, ops, done, joined)
    ensures ops[done].i !in joined && conns[ops[done].i] !in p.Members() && p.name !in conns[ops[done].i].eventPool
  {
    var c := conns[ops[done].i];
    forall i | i in joined
      ensures i < |conns| && i != ops[done].i
    {
      assert JoinedBy(conns, ops, i, joined[i]);
    }
    forall n | n in p.entryMap
      ensures p.entryMap[n] != c
    {
      var i :| i in joined && i < |conns| && p.entryMap[n] == conns[i];
    }
  }

  lemma {:induction false} SameNameSameOp(ops: seq<Op>, n: nat, j: nat, k: nat)
    requires Disciplined(ops, n) && j < |ops| && k < |ops| && ops[j].Join? && ops[k].Join?
    requires NameOf(ops[j]) == NameOf(ops[k])
    ensures j == k
  {
  }

  lemma {:induction false} JoinedIsWhoItSays(p: Pool, conns: seq<Connection>, ops: seq<Op>, done: nat,
                                             joined: map<nat, nat>, i: nat)
    requires done <= |ops| && Disciplined(ops, |conns|) && p.Valid()
    requires Sofar(p, conns, ops, done, joined) && i in joined
    ensures i < |conns| && conns[i].hasNode && (conns[i].name in p.entryMap ==> p.entryMap[conns[i].name] == conns[i])
  {
    p.KeysAreNames();
    assert JoinedBy(conns, ops, i, joined[i]);
    hide Pool.Valid, Disciplined;
    var n := conns[i].name;
    if n in p.entryMap {
      var j :| j in joined && j < |conns| && p.entryMap[n] == conns[j];
      assert JoinedBy(conns, ops, i, joined[i]) && JoinedBy(conns, ops, j, joined[j]);
      SameNameSameOp(ops, |conns|, joined[i], joined[j]);
    }
  }

  /** Connection i has just joined, or been refused. */
  twostate lemma {:induction false} SofarGrows(p: Pool, new conns: seq<Connection>, new ops: seq<Op>, new k: nat,
                             new joined: map<nat, nat>, new ok: bool)
    requires old(allocated(conns))
    requires NoDuplicates(conns) && k < |ops| && ops[k].Join? && ops[k].i < |conns|
    requires old(Sofar(p, conns, ops, k, joined)) && ops[k].i !in joined
    requires conns[ops[k].i].hasNode && conns[ops[k].i].name == NameOf(ops[k])
    requires p.entryMap == if ok then old(p.entryMap)[NameOf(ops[k]) := conns[ops[k].i]] else old(p.entryMap)
    requires forall j :: 0 <= j < |conns| && conns[j] != conns[ops[k].i] ==>
               && conns[j].name == old(conns[j].name) && conns[j].hasNode == old(conns[j].hasNode)
               && conns[j].eventPool == old(conns[j].eventPool)
    ensures Sofar(p, conns, ops, k + 1, if ok then joined[ops[k].i := k] else joined)
  {
    var joined' := if ok then joined[ops[k].i := k] else joined;
    forall i | i in joined
      ensures i < |conns| && conns[i] != conns[ops[k].i] && JoinedBy(conns, ops, i, joined[i])
    {
      assert old(JoinedBy(conns, ops, i, joined[i]));
    }
    assert JoinedBy(conns, ops, ops[k].i, k);
    forall n | n in p.entryMap
      ensures exists i :: i in joined' && i < |conns| && p.entryMap[n] == conns[i]
    {
      if ok && n == NameOf(ops[k]) {
        assert ops[k].i in joined' && p.entryMap[n] == conns[ops[k].i];
      } else {
        var i :| i in joined && i < |conns| && old(p.entryMap[n]) == conns[i];
        assert i in joined';
      }
    }
  }

  method DoJoin(p: Pool, conns: seq<Connection>, ops: seq<Op>, k: nat, joined: map<nat, nat>)
    returns (joined': map<nat, nat>)
    requires p.Valid() && NoDuplicates(conns) && Disciplined(ops, |conns|) && k < |ops| && ops[k].Join?
    requires Sofar(p, conns, ops, k, joined)
    modifies p, conns
    ensures p.Valid() && Sofar(p, conns, ops, k + 1, joined')
    ensures var n, was := NameOf(ops[k]), old(p.entryMap);
            p.entryMap == if n in was || (p.size != 0 && |was| >= p.size) then was else was[n := conns[ops[k].i]]
  {
    var op := ops[k];
    NotYetMember(p, conns, ops, k, joined);
    assert op.i < |conns|;
    hide Pool.Valid, Disciplined, NoDuplicates, Sofar;
    var ok := p.Add(conns[op.i], op.name, op.group, op.random);
    joined' := if ok then joined[op.i := k] else joined;
    SofarGrows(p, conns, ops, k, joined, ok);
  }

  /** Casting out connection i, which had joined, touches no connection that has not. */
  twostate lemma {:induction false} SofarShrinks(p: Pool, new conns: seq<Connection>, new ops: seq<Op>, new k: nat,
                               new joined: map<nat, nat>, new i: nat)
    requires old(allocated(conns))
    requires NoDuplicates(conns) && k < |ops| && !ops[k].Join? && old(Sofar(p, conns, ops, k, joined)) && i in joined
    requires forall n | n in p.entryMap :: n in old(p.entryMap) && p.entryMap[n] == old(p.entryMap[n])
    requires i < |conns|
    requires forall j :: 0 <= j < |conns| ==>
               conns[j].name == old(conns[j].name) && conns[j].hasNode == old(conns[j].hasNode)
    requires forall j :: 0 <= j < |conns| && conns[j] != conns[i] ==> conns[j].eventPool == old(conns[j].eventPool)
    ensures Sofar(p, conns, ops, k + 1, joined)
  {
    forall j | j in joined
      ensures j < |conns| && joined[j] < k + 1 && JoinedBy(conns, ops, j, joined[j])
    {
      assert old(JoinedBy(conns, ops, j, joined[j]));
    }
    assert old(JoinedBy(conns, ops, i, joined[i]));
  }

  lemma {:induction false} NothingChanges(p: Pool, conns: seq<Connection>, ops: seq<Op>, k: nat, joined: map<nat, nat>)
    requires k < |ops| && !ops[k].Join? && Sofar(p, conns, ops, k, joined)
    ensures Sofar(p, conns, ops, k + 1, joined)
  {
  }

  lemma {:induction false} NoMember(p: Pool, conns: seq<Connection>, ops: seq<Op>, k: nat, joined: map<nat, nat>,
                                    i: nat)
    requires k < |ops| && i < |conns| && NoDuplicates(conns) && Sofar(p, conns, ops, k, joined) && i !in joined
    ensures forall n | n in p.entryMap :: p.entryMap[n] != conns[i]
  {
    forall n | n in p.entryMap
      ensures p.entryMap[n] != conns[i]
    {
      var j :| j in joined && j < |conns| && p.entryMap[n] == conns[j];
    }
  }

  lemma {:induction false} FollowsNobody(entries: map<string, Connection>, conns: seq<Connection>, m: map<string, nat>,
                                         i: nat, size: int)
    requires Follows(entries, conns, m) && i < |conns|
    requires forall n | n in entries :: entries[n] != conns[i]
    ensures Follows(entries, conns, After(m, Leave(i), size))
  {
  }

  lemma {:induction false} LeaveFollows(p: Pool, conns: seq<Connection>, ops: seq<Op>, k: nat, joined: map<nat, nat>,
                                        m: map<string, nat>, i: nat)
    requires p.Valid() && NoDuplicates(conns) && Disciplined(ops, |conns|) && k < |ops| && i < |conns|
    requires Sofar(p, conns, ops, k, joined) && Follows(p.entryMap, conns, m)
    ensures Follows(if i in joined then p.entryMap - {conns[i].name} else p.entryMap, conns,
                    After(m, Leave(i), p.size))
  {
    p.KeysAreNames();
    if i in joined {
      JoinedIsWhoItSays(p, conns, ops, k, joined, i);
      hide Pool.Valid, Disciplined, Sofar;
      FollowsLeave(p.entryMap, conns, m, i, conns[i].name, p.size);
    } else {
      hide Pool.Valid, Disciplined;
      NoMember(p, conns, ops, k, joined, i);
      FollowsNobody(p.entryMap, conns, m, i, p.size);
    }
  }

  method DoLeave(p: Pool, conns: seq<Connection>, ops: seq<Op>, k: nat, joined: map<nat, nat>,
                 ghost m: map<string, nat>)
    requires p.Valid() && NoDuplicates(conns) && Disciplined(ops, |conns|) && k < |ops| && ops[k].Leave?
    requires Sofar(p, conns, ops, k, joined) && Follows(p.entryMap, conns, m)
    modifies p, conns
    ensures p.Valid() && Sofar(p, conns, ops, k + 1, joined)
    ensures Follows(p.entryMap, conns, After(m, ops[k], p.size))
  {
    var i := ops[k].i;
    assert i < |conns|;
    LeaveFollows(p, conns, ops, k, joined, m, i);
    if i in joined {
      JoinedIsWhoItSays(p, conns, ops, k, joined, i);
    }
    hide Pool.Valid, Disciplined, NoDuplicates, Sofar, Follows;
    if i in joined {
      p.CastOut(conns[i]);
      SofarShrinks(p, conns, ops, k, joined, i);
    } else {
      NothingChanges(p, conns, ops, k, joined);
    }
  }

  lemma {:induction false} MemberHasJoined(p: Pool, conns: seq<Connection>, ops: seq<Op>, k: nat,
                                           joined: map<nat, nat>, n: string)
    requires k < |ops| && Sofar(p, conns, ops, k, joined) && n in p.entryMap
    ensures exists i :: i in joined && i < |conns| && p.entryMap[n] == conns[i]
  {
  }

  method DoLeaveByName(p: Pool, conns: seq<Connection>, ops: seq<Op>, k: nat, joined: map<nat, nat>)
    requires p.Valid() && NoDuplicates(conns) && Disciplined(ops, |conns|) && k < |ops| && ops[k].LeaveByName?
    requires Sofar(p, conns, ops, k, joined)
    modifies p, conns
    ensures p.Valid() && Sofar(p, conns, ops, k + 1, joined)
    ensures p.entryMap == old(p.entryMap) - {ops[k].name}
  {
    hide Pool.Valid, Disciplined, NoDuplicates, Sofar;
    var n := ops[k].name;
    if n in p.entryMap {
      MemberHasJoined(p, conns, ops, k, joined, n);
      ghost var i :| i in joined && i < |conns| && p.entryMap[n] == conns[i];
      var _ := p.CastOutByName(n);
      SofarShrinks(p, conns, ops, k, joined, i);
    } else {
      NothingChanges(p, conns, ops, k, joined);
    }
  }

  lemma {:induction false} FollowsJoin(was: map<string, Connection>, conns: seq<Connection>, m: map<string, nat>,
                                       op: Op, size: int)
    requires Follows(was, conns, m) && op.Join? && op.i < |conns|
    ensures Follows(if NameOf(op) in was || (size != 0 && |was| >= size) then was else was[NameOf(op) := conns[op.i]],
                    conns, After(m, op, size))
  {
    SameSize(was, conns, m);
  }

  lemma {:induction false} FollowsLeaveByName(was: map<string, Connection>, conns: seq<Connection>,
                                              m: map<string, nat>, n: string, size: int)
    requires Follows(was, conns, m)
    ensures Follows(was - {n}, conns, After(m, LeaveByName(n), size))
  {
  }

  method DoNext(p: Pool, conns: seq<Connection>, ops: seq<Op>, k: nat, joined: map<nat, nat>, ghost m: map<string, nat>)
    returns (joined': map<nat, nat>)
    requires p.Valid() && NoDuplicates(conns) && Disciplined(ops, |conns|) && k < |ops|
    requires Sofar(p, conns, ops, k, joined) && Follows(p.entryMap, conns, m)
    modifies p, conns
    ensures p.Valid() && Sofar(p, conns, ops, k + 1, joined')
    ensures Follows(p.entryMap, conns, After(m, ops[k], p.size))
  {
    assert ops[k].Join? ==> ops[k].i < |conns|;
    hide Pool.Valid, NoDuplicates, Sofar, Follows, Disciplined;
    joined' := joined;
    if ops[k].Join? {
      FollowsJoin(p.entryMap, conns, m, ops[k], p.size);
      joined' := DoJoin(p, conns, ops, k, joined);
    } else if ops[k].Leave? {
      DoLeave(p, conns, ops, k, joined, m);
    } else {
      FollowsLeaveByName(p.entryMap, conns, m, ops[k].name, p.size);
      DoLeaveByName(p, conns, ops, k, joined);
    }
  }

  lemma {:induction false} NobodyYet(p: Pool, conns: seq<Connection>, ops: seq<Op>)
    requires p.entryMap == map[] && forall i :: 0 <= i < |conns| ==> p.name !in conns[i].eventPool
    ensures Sofar(p, conns, ops, 0, map[]) && Follows(p.entryMap, conns, Outcome(ops, 0, p.size))
  {
  }

  /**
   * In every run in which each connection is added once, only successfully added connections are cast out and names
   * are not reused, the pool stays in agreement, and its members are those who joined and have not been cast out.
   */
  method Replay(p: Pool, conns: seq<Connection>, ops: seq<Op>)
    requires p.Valid() && p.entryMap == map[]
    requires NoDuplicates(conns) && forall i :: 0 <= i < |conns| ==> p.name !in conns[i].eventPool
    requires Disciplined(ops, |conns|)
    modifies p, conns
    ensures p.Valid() && Follows(p.entryMap, conns, Outcome(ops, |ops|, p.size))
  {
    var joined: map<nat, nat> := map[];
    NobodyYet(p, conns, ops);
    hide Pool.Valid, NoDuplicates, Sofar, Follows, Disciplined, After;
    for k := 0 to |ops|
      invariant p.Valid()
      invariant Sofar(p, conns, ops, k, joined)
      invariant Follows(p.entryMap, conns, Outcome(ops, k, p.size))
    {
      joined := DoNext(p, conns, ops, k, joined, Outcome(ops, k, p.size));
    }
  }
}
