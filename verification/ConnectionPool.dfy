/** The connection pool: connections by id, an index of them by protocol, and its counters. */
module ConnectionPools {
  import opened Sums

  class Connection {
    const id: string
    var protocol: string
    var isActive: bool
    var healthy: bool
    var lastUsed: int
    var requestCount: nat

    constructor (id: string, now: int)
      ensures this.id == id && protocol == "" && isActive && healthy && lastUsed == now && requestCount == 0
    {
      this.id, protocol, isActive, healthy, lastUsed, requestCount := id, "", true, true, now, 0;
    }

    predicate Usable()
      reads this
    {
      isActive && healthy
    }

    predicate IsIdle(maxIdleTime: int, now: int)
      reads this
    {
      now - lastUsed > maxIdleTime
    }
  }

  // ----- The index

  type Groups = map<string, seq<Connection>>

  /** s without its first connection named id. */
  function Without(s: seq<Connection>, id: string): (r: seq<Connection>)
    ensures |s| - 1 <= |r| <= |s|
    ensures forall c :: c in r ==> c in s
    ensures forall c :: c in s && c.id != id ==> c in r
  {
    if s == [] then []
    else if s[0].id == id then s[1..]
    else [s[0]] + Without(s[1..], id)
  }

  function Group(groups: Groups, p: string): seq<Connection> {
    if p in groups then groups[p] else []
  }

  /** A group that loses its last connection disappears. */
  function Ungroup(groups: Groups, p: string, id: string): Groups {
    var rest := Without(Group(groups, p), id);
    if p !in groups then groups else if rest == [] then groups - {p} else groups[p := rest]
  }

  function Regroup(groups: Groups, p: string, c: Connection): Groups {
    groups[p := Group(groups, p) + [c]]
  }

  function Leave(groups: Groups, p: string, id: string): Groups {
    if p != "" then Ungroup(groups, p, id) else groups
  }

  ghost predicate Distinct(s: seq<Connection>) {
    forall i, j :: 0 <= i < j < |s| ==> s[i].id != s[j].id
  }

  /** Group p lists the pooled connections whose protocol is p, each once. */
  ghost predicate GroupExact(conns: map<string, Connection>, protocols: map<string, string>, groups: Groups,
      p: string) {
    && (p in groups ==> groups[p] != [])
    && Distinct(Group(groups, p))
    && (forall c :: c in Group(groups, p) ==>
        c.id in conns && c.id in protocols && conns[c.id] == c && protocols[c.id] == p)
    && (forall k :: k in conns && k in protocols && protocols[k] == p ==> conns[k] in Group(groups, p))
  }

  ghost predicate Named(conns: map<string, Connection>, protocols: map<string, string>) {
    protocols.Keys == conns.Keys && forall k :: k in conns ==> conns[k].id == k
  }

  predicate IsName(p: string) { p != "" }

  /** Connections are pooled under their own ids, and every group with a name is exact. */
  ghost predicate IndexExact(conns: map<string, Connection>, protocols: map<string, string>, groups: Groups) {
    Named(conns, protocols) && forall p {:trigger IsName(p)} :: IsName(p) ==> GroupExact(conns, protocols, groups, p)
  }

  lemma DistinctTail(s: seq<Connection>)
    requires s != [] && Distinct(s)
    ensures Distinct(s[1..]) && forall c :: c in s[1..] ==> c.id != s[0].id
  {
    assert forall i :: 0 <= i < |s| - 1 ==> s[1..][i] == s[i + 1];
  }

  lemma DistinctCons(c: Connection, s: seq<Connection>)
    requires Distinct(s) && forall d :: d in s ==> d.id != c.id
    ensures Distinct([c] + s)
  {
    assert forall i :: 0 <= i < |s| ==> s[i] in s;
  }

  lemma {:induction false} WithoutDistinct(s: seq<Connection>, id: string)
    requires Distinct(s)
    ensures Distinct(Without(s, id)) && forall c :: c in Without(s, id) ==> c.id != id
  {
    if s == [] {
    } else {
      DistinctTail(s);
      WithoutDistinct(s[1..], id);
      if s[0].id != id { DistinctCons(s[0], Without(s[1..], id)); }
    }
  }

  /** Taking a connection out of its group, out of the pool or not, leaves every other group exact. */
  lemma LeaveExact(conns: map<string, Connection>, protocols: map<string, string>, groups: Groups, id: string,
      p: string)
    requires Named(conns, protocols) && id in conns && IsName(p)
    requires GroupExact(conns, protocols, groups, p)
    ensures GroupExact(conns - {id}, protocols - {id}, Leave(groups, protocols[id], id), p)
  {
    WithoutDistinct(Group(groups, p), id);
  }

  lemma JoinExact(conns: map<string, Connection>, protocols: map<string, string>, groups: Groups, c: Connection,
      q: string, p: string)
    requires Named(conns, protocols) && c.id !in conns && IsName(p)
    requires GroupExact(conns, protocols, groups, p)
    ensures GroupExact(conns[c.id := c], protocols[c.id := q], Regroup(groups, q, c), p)
  {
    var g := Group(groups, p);
    assert forall i :: 0 <= i < |g| ==> g[i] in g;
    assert q == p ==> (g + [c])[|g|] == c;
  }

  lemma AddExact(conns: map<string, Connection>, protocols: map<string, string>, groups: Groups, c: Connection)
    requires IndexExact(conns, protocols, groups) && c.id !in conns
    ensures IndexExact(conns[c.id := c], protocols[c.id := ""], groups)
  {
    var conns', protocols' := conns[c.id := c], protocols[c.id := ""];
    forall p | IsName(p) ensures GroupExact(conns', protocols', groups, p) {
      assert GroupExact(conns, protocols, groups, p);
    }
  }

  /** Taking a connection out of the pool and out of its group keeps the index exact. */
  lemma RemoveExact(conns: map<string, Connection>, protocols: map<string, string>, groups: Groups, id: string)
    requires IndexExact(conns, protocols, groups) && id in conns
    ensures IndexExact(conns - {id}, protocols - {id}, Leave(groups, protocols[id], id))
  {
    var conns', protocols', left := conns - {id}, protocols - {id}, Leave(groups, protocols[id], id);
    forall p | IsName(p) ensures GroupExact(conns', protocols', left, p) {
      LeaveExact(conns, protocols, groups, id, p);
    }
  }

  /** Moving a connection to protocol q keeps every named group exact; the index as a whole stays free of
      a group for the empty name, which nothing ever leaves, exactly when q is not empty. */
  lemma MoveExact(conns: map<string, Connection>, protocols: map<string, string>, groups: Groups, id: string, q: string)
    requires IndexExact(conns, protocols, groups) && id in conns
    ensures var moved := Regroup(Leave(groups, protocols[id], id), q, conns[id]);
            IndexExact(conns, protocols[id := q], moved) && ("" in moved <==> "" in groups || q == "")
  {
    var left, protocols' := Leave(groups, protocols[id], id), protocols[id := q];
    var moved := Regroup(left, q, conns[id]);
    RemoveExact(conns, protocols, groups, id);
    assert (conns - {id})[id := conns[id]] == conns;
    assert (protocols - {id})[id := q] == protocols';
    forall p | IsName(p) ensures GroupExact(conns, protocols', moved, p) {
      JoinExact(conns - {id}, protocols - {id}, left, conns[id], q, p);
    }
  }

  lemma {:induction false} WithoutAt(s: seq<Connection>, id: string, i: nat)
    requires i < |s| && s[i].id == id && forall j :: 0 <= j < i ==> s[j].id != id
    ensures Without(s, id) == s[..i] + s[i + 1..]
  {
    if i > 0 {
      WithoutAt(s[1..], id, i - 1);
      assert s[1..][..i - 1] == s[1..i] && s[1..][i..] == s[i + 1..];
      assert [s[0]] + (s[1..i] + s[i + 1..]) == s[..i] + s[i + 1..];
    }
  }

  lemma {:induction false} WithoutNone(s: seq<Connection>, id: string)
    requires forall j :: 0 <= j < |s| ==> s[j].id != id
    ensures Without(s, id) == s
  {
    if s == [] {
    } else {
      WithoutNone(s[1..], id);
    }
  }

  /** The group of the empty name only grows: nothing that leaves a group leaves this one. */
  lemma NamelessGrows(groups: Groups, p: string, id: string, q: string, c: Connection)
    ensures Group(Leave(groups, p, id), "") == Group(groups, "")
    ensures Group(Regroup(Leave(groups, p, id), q, c), "") == Group(groups, "") + if q == "" then [c] else []
  {
    assert Group(groups, "") + [] == Group(groups, "");
  }

  predicate Pooled(conns: map<string, Connection>, c: Connection) {
    c.id in conns && conns[c.id] == c
  }

  /** The listed connections are pooled until they are gone. */
  ghost predicate NamelessTracked(conns: map<string, Connection>, listed: seq<Connection>, gone: set<Connection>) {
    && (forall k :: k in conns ==> conns[k] !in gone)
    && (forall c :: c in listed ==> Pooled(conns, c) || c in gone)
  }

  lemma TrackAdd(conns: map<string, Connection>, listed: seq<Connection>, gone: set<Connection>, c: Connection)
    requires NamelessTracked(conns, listed, gone) && c.id !in conns && c !in gone
    ensures NamelessTracked(conns[c.id := c], listed, gone)
  {
  }

  lemma TrackJoin(conns: map<string, Connection>, listed: seq<Connection>, gone: set<Connection>, c: Connection)
    requires NamelessTracked(conns, listed, gone) && Pooled(conns, c)
    ensures NamelessTracked(conns, listed + [c], gone)
  {
  }

  lemma TrackRemove(conns: map<string, Connection>, listed: seq<Connection>, gone: set<Connection>, ids: set<string>)
    requires NamelessTracked(conns, listed, gone) && forall k :: k in conns ==> conns[k].id == k
    ensures NamelessTracked(conns - ids, listed, gone + Of(conns, ids))
  {
  }

  // ----- What the idle cleaner removes

  function Elements(s: seq<string>): set<string> {
    set k | k in s
  }

  lemma Visit(all: set<string>, toVisit: set<string>, k: string)
    requires k in toVisit
    ensures all - (toVisit - {k}) == if k in all then all - toVisit + {k} else all - toVisit
    ensures |all - (toVisit - {k})| == |all - toVisit| + if k in all then 1 else 0
  {
    assert all - (toVisit - {k}) == if k in all then all - toVisit + {k} else all - toVisit;
  }

  lemma ElementsAppend(s: seq<string>, k: string)
    ensures Elements(s + [k]) == Elements(s) + {k}
  {
  }

  lemma {:induction false} ElementsFew(s: seq<string>)
    ensures |Elements(s)| <= |s|
  {
    if s == [] {
    } else {
      var n := |s| - 1;
      ElementsFew(s[..n]);
      ElementsAppend(s[..n], s[n]);
      assert s == s[..n] + [s[n]];
    }
  }

  // A list without repetition: the element after a prefix is not in it.
  lemma {:induction false} ElementsPrefix(s: seq<string>, i: nat)
    requires |Elements(s)| == |s| && i < |s|
    ensures s[i] !in Elements(s[..i]) && Elements(s[..i + 1]) == Elements(s[..i]) + {s[i]}
  {
    assert s[..i + 1] == s[..i] + [s[i]];
    ElementsAppend(s[..i], s[i]);
    assert Elements(s) == Elements(s[..i + 1]) + Elements(s[i + 1..]) by {
      assert s == s[..i + 1] + s[i + 1..];
    }
    ElementsFew(s[..i]);
    ElementsFew(s[i + 1..]);
  }

  lemma {:induction false} PrefixCount(s: seq<string>, n: nat)
    requires |Elements(s)| == |s| && n <= |s|
    ensures |Elements(s[..n])| == n && Elements(s[..n]) <= Elements(s)
  {
    if n > 0 {
      PrefixCount(s, n - 1);
      ElementsPrefix(s, n - 1);
    }
  }

  /** The connections pooled under these ids. */
  ghost function Of(m: map<string, Connection>, ids: set<string>): set<Connection> {
    set k | k in ids && k in m :: m[k]
  }

  lemma OfTwice(m: map<string, Connection>, s: seq<string>, i: nat)
    requires i < |s|
    ensures Of(m, Elements(s[..i + 1]))
            == if s[i] in m - Elements(s[..i]) then Of(m, Elements(s[..i])) + {m[s[i]]} else Of(m, Elements(s[..i]))
  {
    assert s[..i + 1] == s[..i] + [s[i]];
    ElementsAppend(s[..i], s[i]);
  }

  /** The ids that were visited are counted if active, and listed once if idle. */
  ghost predicate Scanned(active: set<string>, idleSet: set<string>, toVisit: set<string>, idle: seq<string>,
      count: int)
  {
    count == |active - toVisit| && |idle| == |Elements(idle)| && Elements(idle) == idleSet - toVisit
  }

  lemma ScanNone(active: set<string>, idleSet: set<string>, toVisit: set<string>)
    requires active <= toVisit && idleSet <= toVisit
    ensures Scanned(active, idleSet, toVisit, [], 0)
  {
    assert active - toVisit == {};
  }

  lemma ScanOne(active: set<string>, idleSet: set<string>, toVisit: set<string>, idle: seq<string>, count: int,
      id: string)
    requires Scanned(active, idleSet, toVisit, idle, count) && id in toVisit
    ensures Scanned(active, idleSet, toVisit - {id}, if id in idleSet then idle + [id] else idle,
                count + if id in active then 1 else 0)
  {
    Visit(active, toVisit, id);
    Visit(idleSet, toVisit, id);
    ElementsAppend(idle, id);
  }

  lemma ScanAll(active: set<string>, idleSet: set<string>, idle: seq<string>, count: int)
    requires Scanned(active, idleSet, {}, idle, count)
    ensures count == |active| && |idle| == |Elements(idle)| && Elements(idle) == idleSet
  {
    assert active - {} == active && idleSet - {} == idleSet;
  }

  lemma MinusTwice(m: map<string, Connection>, s: seq<string>, i: nat)
    requires i < |s|
    ensures m - Elements(s[..i]) - {s[i]} == m - Elements(s[..i + 1])
  {
    assert s[..i + 1] == s[..i] + [s[i]];
    ElementsAppend(s[..i], s[i]);
  }

  /** How many connections one cleaning removes. */
  function Cleaned(active: nat, idle: nat, min: int): (n: nat)
    ensures n <= idle
    ensures active >= min ==> active - n >= min
    ensures active < min ==> n == 0
    ensures n < idle ==> active - n <= min
  {
    if active - min <= 0 then 0 else if idle > active - min then active - min else idle
  }

  lemma SameSize(a: set<string>, b: set<string>)
    requires a <= b && |a| >= |b|
    ensures a == b
  {
    assert b == a + (b - a);
  }

  lemma SizeWithout(m: map<string, Connection>, id: string)
    requires id in m
    ensures |m - {id}| == |m| - 1
  {
    assert m == (m - {id})[id := m[id]];
  }

  /** No active connection was unused for longer than the limit. */
  ghost predicate NoneIdle(conns: map<string, Connection>, maxIdleTime: int, now: int)
    reads conns.Values
  {
    forall k :: k in conns && conns[k].isActive ==> now - conns[k].lastUsed <= maxIdleTime
  }

  // ----- The pool

  class ConnectionPool {
    const maxConnections: int
    const minConnections: int
    const maxIdleTime: int
    var connections: map<string, Connection>
    var protocolMap: Groups
    var total: int
    var created: int
    var closed: int
    var errors: int
    var running: bool
    ghost var dropped: nat           // connections that Close let go without counting them
    ghost var gone: set<Connection>  // those that were removed before

    ghost function Protocols(): (m: map<string, string>)
      reads this`connections, connections.Values
      ensures m.Keys == connections.Keys
    {
      map k | k in connections :: connections[k].protocol
    }

    ghost predicate Indexed()
      reads this, connections.Values
    {
      IndexExact(connections, Protocols(), protocolMap)
    }

    ghost predicate Counted()
      reads this
    {
      && total == created - closed == |connections| + dropped
      && (running ==> dropped == 0)
      && (connections == map[] || |connections| <= maxConnections)
    }

    /** What is listed under the empty name is pooled until it is removed; Perform shows that this stays so. */
    ghost predicate Tracked()
      reads this
    {
      NamelessTracked(connections, Group(protocolMap, ""), gone)
    }

    ghost predicate Valid()
      reads this, connections.Values
    {
      Indexed() && Counted()
    }

    constructor (maxConnections: int, minConnections: int, maxIdleTime: int)
      ensures Valid() && Tracked() && connections == map[] && protocolMap == map[] && running
      ensures this.maxConnections == maxConnections && this.minConnections == minConnections
          && this.maxIdleTime == maxIdleTime
    {
      this.maxConnections, this.minConnections, this.maxIdleTime := maxConnections, minConnections, maxIdleTime;
      connections, protocolMap := map[], map[];
      total, created, closed, errors, running, dropped, gone := 0, 0, 0, 0, true, 0, {};
    }

    /** `id` is the new UUID. A full pool refuses the connection and returns the empty id. */
    method AddConnection(id: string, now: int) returns (r: string)
      requires Valid() && id !in connections
      modifies this`connections, this`created, this`total, this`errors
      ensures Valid()
      ensures old(|connections|) >= maxConnections ==>
          r == "" && connections == old(connections) && errors == old(errors) + 1
      ensures old(|connections|) < maxConnections ==>
                && r == id && id in connections && connections == old(connections)[id := connections[id]]
                && fresh(connections[id]) && connections[id].Usable() && errors == old(errors)
    {
      if |connections| >= maxConnections {
        errors := errors + 1;
        return "";
      }
      var c := new Connection(id, now);
      AddExact(connections, Protocols(), protocolMap, c);
      Store(c);
      r := id;
    }

    method Store(c: Connection)
      requires Counted() && c.id !in connections && |connections| < maxConnections
      modifies this`connections, this`created, this`total
      ensures Counted() && connections == old(connections)[c.id := c]
      ensures Protocols() == old(Protocols())[c.id := c.protocol]
    {
      connections := connections[c.id := c];
      created, total := created + 1, total + 1;
    }

    method Forget(id: string)
      requires Counted() && id in connections
      modifies this`connections, this`closed, this`total, this`gone
      ensures Counted() && connections == old(connections) - {id} && closed == old(closed) + 1
      ensures Protocols() == old(Protocols()) - {id} && gone == old(gone) + {old(connections)[id]}
    {
      SizeWithout(connections, id);
      gone := gone + {connections[id]};
      connections := connections - {id};
      closed, total := closed + 1, total - 1;
    }

    /** Marks the connection used, if it can be. */
    method GetConnection(id: string, now: int) returns (r: Option<Connection>)
      requires Valid()
      modifies if id in connections then {connections[id]} else {}
      ensures Valid()
      ensures r == if id in connections && old(connections[id].isActive && connections[id].healthy)
                   then Some(connections[id]) else None
      ensures r.Some? ==> r.value.lastUsed == now
    {
      r := None;
      if id in connections && connections[id].Usable() {
        ghost var protocols := Protocols();
        connections[id].lastUsed := now;
        assert Protocols() == protocols;
        r := Some(connections[id]);
      }
    }

    /** The first usable connection of the protocol with the fewest requests. */
    method FewestRequests(conns: seq<Connection>) returns (best: Option<Connection>, ghost at: int)
      ensures best.None? ==> forall i :: 0 <= i < |conns| ==> !conns[i].Usable()
      ensures best.Some? ==> 0 <= at < |conns| && best.value == conns[at] && conns[at].Usable()
      ensures best.Some? ==> forall i :: 0 <= i < |conns| && conns[i].Usable() ==>
                && conns[at].requestCount <= conns[i].requestCount
                && (i < at ==> conns[at].requestCount < conns[i].requestCount)
    {
      best, at := None, -1;
      var minRequests: int := -1;
      for i := 0 to |conns|
        invariant best.None? <==> minRequests == -1
        invariant best.None? ==> forall j :: 0 <= j < i ==> !conns[j].Usable()
        invariant best.Some? ==> 0 <= at < i && best.value == conns[at] && conns[at].Usable()
        invariant best.Some? ==> minRequests == conns[at].requestCount
        invariant best.Some? ==> forall j :: 0 <= j < i && conns[j].Usable() ==>
                    && conns[at].requestCount <= conns[j].requestCount
                    && (j < at ==> conns[at].requestCount < conns[j].requestCount)
      {
        if conns[i].Usable() {
          var requests := conns[i].requestCount;
          if minRequests == -1 || requests < minRequests {
            minRequests, best, at := requests, Some(conns[i]), i;
          }
        }
      }
    }

    /** Marks the one with the fewest requests used. */
    method UseFewest(conns: seq<Connection>, now: int) returns (r: Option<Connection>)
      modifies conns
      ensures forall c :: c in conns ==>
                && c.Usable() == old(c.Usable()) && c.requestCount == old(c.requestCount)
                && c.protocol == old(c.protocol) && c.lastUsed == if r == Some(c) then now else old(c.lastUsed)
      ensures r.None? ==> forall c :: c in conns ==> !c.Usable()
      ensures r.Some? ==> r.value in conns && r.value.Usable()
      ensures r.Some? ==> forall c :: c in conns && c.Usable() ==> r.value.requestCount <= c.requestCount
    {
      ghost var at;
      r, at := FewestRequests(conns);
      if r.Some? { r.value.lastUsed := now; }
    }

    /** A usable connection of the group with the fewest requests. The groups with a name hold exactly the pooled
        connections of that protocol; of the group of the empty name those are pooled that were not removed. */
    method GetConnectionByProtocol(p: string, now: int) returns (r: Option<Connection>)
      requires Valid()
      modifies Group(protocolMap, p)
      ensures Valid()
      ensures forall c :: c in Group(protocolMap, p) ==>
                && c.Usable() == old(c.Usable()) && c.requestCount == old(c.requestCount)
                && c.protocol == old(c.protocol) && c.lastUsed == if r == Some(c) then now else old(c.lastUsed)
      ensures r.None? ==> forall c :: c in Group(protocolMap, p) ==> !c.Usable()
      ensures r.Some? ==> r.value in Group(protocolMap, p) && r.value.Usable()
      ensures r.Some? ==> forall c :: c in Group(protocolMap, p) && c.Usable() ==>
          r.value.requestCount <= c.requestCount
      ensures p != "" ==> forall c :: c in Group(protocolMap, p) <==> c in connections.Values && c.protocol == p
      ensures p == "" && Tracked() ==>
          forall c :: c in Group(protocolMap, p) ==> (Pooled(connections, c) <==> c !in gone)
    {
      ghost var protocols := Protocols();
      r := None;
      if p in protocolMap && |protocolMap[p]| != 0 {
        r := UseFewest(protocolMap[p], now);
      }
      assert Protocols() == protocols;
      if IsName(p) { NamedGroup(p); }
    }

    lemma NamedGroup(p: string)
      requires Indexed() && IsName(p)
      ensures forall c :: c in Group(protocolMap, p) <==> c in connections.Values && c.protocol == p
    {
      assert GroupExact(connections, Protocols(), protocolMap, p);
      forall c | c in Group(protocolMap, p) ensures c in connections.Values && c.protocol == p {
        assert c.id in connections;
      }
    }

    /** Takes the connection out of the group by scanning for its id. */
    method RemoveFromProtocolMap(p: string, id: string)
      modifies this`protocolMap
      ensures protocolMap == Ungroup(old(protocolMap), p, id)
    {
      if p !in protocolMap { return; }
      var conns := protocolMap[p];
      var i := 0;
      while i < |conns|
        invariant 0 <= i <= |conns| && protocolMap == old(protocolMap)
        invariant forall j :: 0 <= j < i ==> conns[j].id != id
      {
        if conns[i].id == id {
          WithoutAt(conns, id, i);
          protocolMap := protocolMap[p := conns[..i] + conns[i + 1..]];
          break;
        }
        i := i + 1;
      }
      if i == |conns| { WithoutNone(conns, id); }
      if |protocolMap[p]| == 0 { protocolMap := protocolMap - {p}; }
    }

    method UpdateConnectionProtocol(id: string, p: string) returns (ok: bool)
      requires Valid()
      modifies this`protocolMap, (if id in connections then {connections[id]} else {})`protocol
      ensures Valid() && ok == (id in connections)
      ensures !ok ==> protocolMap == old(protocolMap)
      ensures ok ==> && Protocols() == old(Protocols())[id := p]
                     && protocolMap == Regroup(Leave(old(protocolMap), old(connections[id].protocol), id), p,
                         connections[id])
      ensures Group(protocolMap, "") == old(Group(protocolMap, "")) + if ok && p == "" then [connections[id]] else []
    {
      if id !in connections { return false; }
      var c := connections[id];
      ghost var protocols := Protocols();
      MoveExact(connections, protocols, protocolMap, id, p);
      NamelessGrows(protocolMap, c.protocol, id, p, c);
      LeaveGroup(c);
      SetProtocol(c, p);
      JoinGroup(p, c);
      ok := true;
    }

    method SetProtocol(c: Connection, p: string)
      requires Named(connections, Protocols()) && c.id in connections && connections[c.id] == c
      modifies c`protocol
      ensures c.protocol == p && Protocols() == old(Protocols())[c.id := p]
    {
      assert forall k :: k in connections && k != c.id ==> connections[k] != c;
      c.protocol := p;
    }

    method LeaveGroup(c: Connection)
      modifies this`protocolMap
      ensures protocolMap == Leave(old(protocolMap), c.protocol, c.id)
    {
      if c.protocol != "" { RemoveFromProtocolMap(c.protocol, c.id); }
    }

    method JoinGroup(p: string, c: Connection)
      modifies this`protocolMap
      ensures protocolMap == Regroup(old(protocolMap), p, c)
    {
      if p !in protocolMap { protocolMap := protocolMap[p := []]; }
      protocolMap := protocolMap[p := protocolMap[p] + [c]];
    }

    method RemoveConnection(id: string)
      requires Valid()
      modifies this`connections, this`protocolMap, this`closed, this`total, this`gone
      ensures Valid() && connections == old(connections) - {id}
      ensures closed - old(closed) == if old(id in connections) then 1 else 0
      ensures protocolMap
              == if old(id in connections) then Leave(old(protocolMap), old(connections)[id].protocol, id)
                 else old(protocolMap)
      ensures Group(protocolMap, "") == old(Group(protocolMap, ""))
      ensures gone == if old(id in connections) then old(gone) + {old(connections)[id]} else old(gone)
    {
      if id !in connections { return; }
      var c := connections[id];
      NamelessGrows(protocolMap, c.protocol, id, "", c);
      Drop(c);
    }

    method Drop(c: Connection)
      requires Valid() && c.id in connections && connections[c.id] == c
      modifies this`connections, this`protocolMap, this`closed, this`total, this`gone
      ensures Valid() && connections == old(connections) - {c.id} && closed == old(closed) + 1
      ensures protocolMap == Leave(old(protocolMap), old(c.protocol), c.id) && gone == old(gone) + {c}
    {
      ghost var conns, protocols, left := connections, Protocols(), Leave(protocolMap, c.protocol, c.id);
      LeaveGroup(c);
      Forget(c.id);
      assert Indexed() by {
        RemoveExact(conns, protocols, old(protocolMap), c.id);
        assert connections == conns - {c.id} && Protocols() == protocols - {c.id} && protocolMap == left;
      }
    }

    // ----- Idle cleaning

    ghost function Active(): set<string>
      reads this`connections, connections.Values
    {
      set k | k in connections && connections[k].isActive
    }

    ghost function Idle(now: int): set<string>
      reads this`connections, connections.Values
    {
      set k | k in connections && connections[k].isActive && now - connections[k].lastUsed > maxIdleTime
    }

    /** Idle are the active connections that were not used for longer than the limit. */
    lemma IdleIff(k: string, now: int)
      ensures k in Idle(now)
              <==> k in connections && connections[k].isActive && now > connections[k].lastUsed + maxIdleTime
    {
    }

    twostate lemma ActiveAfter(removed: set<string>)
      requires connections == old(connections) - removed && removed <= old(Active())
      requires forall k :: k in connections ==> connections[k].isActive == old(connections[k].isActive)
      ensures |Active()| == |old(Active())| - |removed|
    {
      assert Active() == old(Active()) - removed;
    }

    /** What the cleaner counts and collects, in the map's arbitrary order. */
    method ScanIdle(now: int) returns (idle: seq<string>, activeCount: int)
      ensures activeCount == |Active()| && |idle| == |Elements(idle)| && Elements(idle) == Idle(now)
    {
      idle, activeCount := [], 0;
      var toVisit := connections.Keys;
      ghost var active, idleSet := Active(), Idle(now);
      ScanNone(active, idleSet, toVisit);
      while toVisit != {}
        invariant toVisit <= connections.Keys && Scanned(active, idleSet, toVisit, idle, activeCount)
        decreases toVisit
      {
        var id :| id in toVisit;
        ScanOne(active, idleSet, toVisit, idle, activeCount, id);
        assert (id in active <==> connections[id].isActive)
            && (id in idleSet <==> connections[id].isActive && connections[id].IsIdle(maxIdleTime, now));
        toVisit := toVisit - {id};
        if connections[id].isActive {
          activeCount := activeCount + 1;
          if connections[id].IsIdle(maxIdleTime, now) { idle := idle + [id]; }
        }
      }
      ScanAll(active, idleSet, idle, activeCount);
    }

    method RemoveNext(ids: seq<string>, i: nat, ghost all: map<string, Connection>, ghost before: set<Connection>)
      requires Valid() && i < |ids|
      requires connections == all - Elements(ids[..i]) && gone == before + Of(all, Elements(ids[..i]))
      modifies this`connections, this`protocolMap, this`closed, this`total, this`gone
      ensures Valid() && Group(protocolMap, "") == old(Group(protocolMap, ""))
      ensures connections == all - Elements(ids[..i + 1]) && gone == before + Of(all, Elements(ids[..i + 1]))
    {
      OfTwice(all, ids, i);
      MinusTwice(all, ids, i);
      RemoveConnection(ids[i]);
    }

    method RemoveFirst(ids: seq<string>, n: nat)
      requires Valid() && n <= |ids|
      modifies this`connections, this`protocolMap, this`closed, this`total, this`gone
      ensures Valid() && connections == old(connections) - Elements(ids[..n])
      ensures gone == old(gone) + Of(old(connections), Elements(ids[..n]))
      ensures Group(protocolMap, "") == old(Group(protocolMap, ""))
    {
      ghost var all, before, nameless := connections, gone, Group(protocolMap, "");
      for i := 0 to n
        invariant Valid() && connections == all - Elements(ids[..i]) && Group(protocolMap, "") == nameless
        invariant gone == before + Of(all, Elements(ids[..i]))
      {
        RemoveNext(ids, i, all, before);
      }
    }

    /** The cleaner removes the first n of the ids it collected. */
    method ChooseIdle(now: int) returns (idle: seq<string>, n: nat)
      ensures n <= |idle| && Elements(idle[..n]) <= Idle(now) <= Active()
      ensures |Elements(idle[..n])| == Cleaned(|Active()|, |Idle(now)|, minConnections)
    {
      var activeCount;
      idle, activeCount := ScanIdle(now);
      n := 0;
      var maxToRemove := activeCount - minConnections;
      if maxToRemove > 0 && |idle| > 0 {
        n := |idle|;
        if n > maxToRemove { n := maxToRemove; }
      }
      PrefixCount(idle, n);
    }

    method RemoveChosen(idle: seq<string>, n: nat)
      requires Valid() && n <= |idle| && Elements(idle[..n]) <= Active()
      modifies this`connections, this`protocolMap, this`closed, this`total, this`gone
      ensures Valid() && connections == old(connections) - Elements(idle[..n])
      ensures gone == old(gone) + Of(old(connections), Elements(idle[..n]))
      ensures |Active()| == old(|Active()|) - |Elements(idle[..n])|
      ensures Group(protocolMap, "") == old(Group(protocolMap, ""))
    {
      RemoveFirst(idle, n);
      ActiveAfter(Elements(idle[..n]));
    }

    method RemoveIdle(now: int) returns (ghost removed: set<string>)
      requires Valid()
      modifies this`connections, this`protocolMap, this`closed, this`total, this`gone
      ensures Valid() && connections == old(connections) - removed && removed <= old(Idle(now))
      ensures gone == old(gone) + Of(old(connections), removed)
      ensures |removed| == Cleaned(old(|Active()|), old(|Idle(now)|), minConnections)
      ensures |Active()| == old(|Active()|) - |removed|
      ensures Group(protocolMap, "") == old(Group(protocolMap, ""))
    {
      var idle, n := ChooseIdle(now);
      removed := Elements(idle[..n]);
      RemoveChosen(idle, n);
    }

    lemma IdleRemoved(now: int, all: map<string, Connection>, idle: set<string>, removed: set<string>)
      requires connections == all - removed && removed <= idle && |removed| >= |idle|
      requires forall k :: k in all && all[k].isActive && now - all[k].lastUsed > maxIdleTime ==> k in idle
      ensures NoneIdle(connections, maxIdleTime, now)
    {
      SameSize(removed, idle);
    }

    /** With no other call between its scan and its removals: removes idle connections, all of them or as many as leave
        the minimum active, and no others. */
    method CleanIdleConnections(now: int) returns (ghost removed: set<string>)
      requires Valid()
      modifies this`connections, this`protocolMap, this`closed, this`total, this`gone
      ensures Valid() && connections == old(connections) - removed && removed <= old(Idle(now))
      ensures gone == old(gone) + Of(old(connections), removed)
      ensures |Active()| > minConnections ==> NoneIdle(connections, maxIdleTime, now)
      ensures |removed| == Cleaned(old(|Active()|), old(|Idle(now)|), minConnections)
      ensures |Active()| == old(|Active()|) - |removed|
      ensures Group(protocolMap, "") == old(Group(protocolMap, ""))
    {
      ghost var all, idle := connections, Idle(now);
      removed := RemoveIdle(now);
      if |removed| >= |idle| { IdleRemoved(now, all, idle, removed); }
    }

    method Close()
      requires Valid()
      modifies this`connections, this`protocolMap, this`running, this`dropped
      ensures Valid() && !running && total == old(total)
      ensures if old(running) then connections == map[] && protocolMap == map[] && dropped == |old(connections)|
              else connections == old(connections) && protocolMap == old(protocolMap) && dropped == old(dropped)
    {
      if !running { return; }
      running := false;
      dropped := dropped + |connections|;
      connections, protocolMap := map[], map[];
    }
  }

  // ----- Runs of the object

  datatype Op = Add(id: string, now: int) | Update(id: string, p: string) | Remove(id: string) | Clean(now: int)

  lemma OfOne(m: map<string, Connection>, id: string)
    ensures Of(m, {id}) == (if id in m then {m[id]} else {}) && (id !in m ==> m - {id} == m)
  {
  }

  method PerformAdd(pool: ConnectionPool, id: string, now: int)
    requires pool.Valid() && pool.Tracked()
    modifies pool, pool.connections.Values
    ensures pool.Valid() && pool.Tracked() && Group(old(pool.protocolMap), "") <= Group(pool.protocolMap, "")
    ensures forall c :: c in pool.connections.Values ==> c in old(pool.connections).Values || fresh(c)
  {
    ghost var conns, listed, gone := pool.connections, Group(pool.protocolMap, ""), pool.gone;
    if id in pool.connections { return; }
    var r := pool.AddConnection(id, now);
    if id in pool.connections { TrackAdd(conns, listed, gone, pool.connections[id]); }
  }

  method PerformUpdate(pool: ConnectionPool, id: string, p: string)
    requires pool.Valid() && pool.Tracked()
    modifies pool, pool.connections.Values
    ensures pool.Valid() && pool.Tracked() && Group(old(pool.protocolMap), "") <= Group(pool.protocolMap, "")
    ensures forall c :: c in pool.connections.Values ==> c in old(pool.connections).Values || fresh(c)
  {
    ghost var conns, listed, gone := pool.connections, Group(pool.protocolMap, ""), pool.gone;
    var ok := pool.UpdateConnectionProtocol(id, p);
    if ok { TrackJoin(conns, listed, gone, conns[id]); }
  }

  method PerformRemove(pool: ConnectionPool, id: string)
    requires pool.Valid() && pool.Tracked()
    modifies pool, pool.connections.Values
    ensures pool.Valid() && pool.Tracked() && Group(old(pool.protocolMap), "") <= Group(pool.protocolMap, "")
    ensures forall c :: c in pool.connections.Values ==> c in old(pool.connections).Values || fresh(c)
  {
    OfOne(pool.connections, id);
    TrackRemove(pool.connections, Group(pool.protocolMap, ""), pool.gone, {id});
    pool.RemoveConnection(id);
  }

  method PerformClean(pool: ConnectionPool, now: int)
    requires pool.Valid() && pool.Tracked()
    modifies pool, pool.connections.Values
    ensures pool.Valid() && pool.Tracked() && Group(old(pool.protocolMap), "") <= Group(pool.protocolMap, "")
    ensures forall c :: c in pool.connections.Values ==> c in old(pool.connections).Values || fresh(c)
  {
    ghost var conns, listed, gone := pool.connections, Group(pool.protocolMap, ""), pool.gone;
    var removed := pool.CleanIdleConnections(now);
    TrackRemove(conns, listed, gone, removed);
  }

  method PerformOne(pool: ConnectionPool, op: Op)
    requires pool.Valid() && pool.Tracked()
    modifies pool, pool.connections.Values
    ensures pool.Valid() && pool.Tracked() && Group(old(pool.protocolMap), "") <= Group(pool.protocolMap, "")
    ensures forall c :: c in pool.connections.Values ==> c in old(pool.connections).Values || fresh(c)
  {
    match op
    case Add(id, now) => PerformAdd(pool, id, now);
    case Update(id, p) => PerformUpdate(pool, id, p);
    case Remove(id) => PerformRemove(pool, id);
    case Clean(now) => PerformClean(pool, now);
  }

  /** Over any run of operations before Close, with new ids for new connections: whatever was listed under the empty
      name stays listed there, and is pooled exactly while it has not been removed. Only GetConnectionByProtocol("")
      reads that group. */
  method Perform(pool: ConnectionPool, ops: seq<Op>)
    requires pool.Valid() && pool.Tracked()
    modifies pool, pool.connections.Values
    ensures pool.Valid() && pool.Tracked() && Group(old(pool.protocolMap), "") <= Group(pool.protocolMap, "")
  {
    ghost var mine := pool.connections.Values;
    for i := 0 to |ops|
      invariant pool.Valid() && pool.Tracked() && Group(old(pool.protocolMap), "") <= Group(pool.protocolMap, "")
      invariant forall c :: c in pool.connections.Values ==> c in mine || fresh(c)
    {
      PerformOne(pool, ops[i]);
    }
  }

  method RemovedIsListed(maxConnections: int, minConnections: int, maxIdleTime: int, now: int)
    returns (pool: ConnectionPool, ghost c: Connection)
    requires maxConnections >= 1
    ensures fresh(pool) && pool.Valid() && pool.connections == map[]
    ensures fresh(c) && Group(pool.protocolMap, "") == [c] && c.Usable()
  {
    pool := new ConnectionPool(maxConnections, minConnections, maxIdleTime);
    var id := pool.AddConnection("a", now);
    c := pool.connections["a"];
    var ok := pool.UpdateConnectionProtocol("a", "");
    pool.RemoveConnection("a");
  }

  /** So a removed connection can be handed out: one that was moved to the empty name. */
  method RemovedIsHandedOut(maxConnections: int, minConnections: int, maxIdleTime: int, now: int)
    returns (pool: ConnectionPool, r: Option<Connection>)
    requires maxConnections >= 1
    ensures fresh(pool) && pool.Valid() && pool.connections == map[]
    ensures r.Some? && r.value.Usable()
  {
    ghost var c;
    pool, c := RemovedIsListed(maxConnections, minConnections, maxIdleTime, now);
    assert c in Group(pool.protocolMap, "");
    r := pool.GetConnectionByProtocol("", now);
  }
}
