/** The message bus's subscriptions and its index of them by topic. */
module MessageBuses {
  import opened Separators

  datatype Subscription = Subscription(topic: string, connection: string, active: bool)

  type Subscriptions = map<string, Subscription>
  type Topics = map<string, seq<string>>

  /** s without its first element id. */
  function Without(s: seq<string>, id: string): (r: seq<string>)
    ensures forall k :: k in r ==> k in s
    ensures forall k :: k in s && k != id ==> k in r
  {
    if s == [] then []
    else if s[0] == id then s[1..]
    else [s[0]] + Without(s[1..], id)
  }

  function Listed(topics: Topics, t: string): seq<string> {
    if t in topics then topics[t] else []
  }

  function AddTo(topics: Topics, t: string, id: string): Topics {
    topics[t := Listed(topics, t) + [id]]
  }

  /** A topic that loses its last subscriber disappears. */
  function RemoveFrom(topics: Topics, t: string, id: string): Topics {
    var rest := Without(Listed(topics, t), id);
    if t !in topics then topics else if rest == [] then topics - {t} else topics[t := rest]
  }

  ghost predicate Distinct(s: seq<string>) {
    forall i, j :: 0 <= i < j < |s| ==> s[i] != s[j]
  }

  /** Topic t lists the subscriptions to it, each once. */
  ghost predicate TopicExact(subs: Subscriptions, topics: Topics, t: string) {
    && (t in topics ==> topics[t] != [])
    && Distinct(Listed(topics, t))
    && (forall id :: id in Listed(topics, t) <==> id in subs && subs[id].topic == t)
  }

  ghost predicate IndexExact(subs: Subscriptions, topics: Topics) {
    forall t :: TopicExact(subs, topics, t)
  }

  lemma {:induction false} WithoutDistinct(s: seq<string>, id: string)
    requires Distinct(s)
    ensures Distinct(Without(s, id)) && id !in Without(s, id)
  {
    if s == [] {
    } else {
      WithoutDistinct(s[1..], id);
      var r := Without(s[1..], id);
      assert s[0] !in s[1..];
      if s[0] != id {
        assert forall i :: 0 <= i < |r| ==> r[i] in s[1..];
      }
    }
  }

  /** Removing a subscription from the bus and from its topic keeps the index exact. */
  lemma RemoveExact(subs: Subscriptions, topics: Topics, id: string)
    requires IndexExact(subs, topics) && id in subs
    ensures IndexExact(subs - {id}, RemoveFrom(topics, subs[id].topic, id))
  {
    var subs', topics' := subs - {id}, RemoveFrom(topics, subs[id].topic, id);
    forall t ensures TopicExact(subs', topics', t) {
      assert TopicExact(subs, topics, t);
      WithoutDistinct(Listed(topics, t), id);
    }
  }

  /** Subscribing keeps the index exact exactly when the new id is unused: where it meets an old one, the old topic
      keeps an id that is no longer its own, or lists it twice. */
  lemma SubscribeExactIff(subs: Subscriptions, topics: Topics, id: string, sub: Subscription)
    requires IndexExact(subs, topics)
    ensures IndexExact(subs[id := sub], AddTo(topics, sub.topic, id)) <==> id !in subs
  {
    var subs', topics' := subs[id := sub], AddTo(topics, sub.topic, id);
    var n := |Listed(topics, sub.topic)|;
    assert Listed(topics', sub.topic)[n] == id;
    if id in subs {
      var t := subs[id].topic;
      assert TopicExact(subs, topics, t);
      if t == sub.topic {
        var i :| 0 <= i < n && Listed(topics, t)[i] == id;
        assert Listed(topics', t)[i] == Listed(topics', t)[n];
      } else {
        assert id in Listed(topics', t);
      }
      assert !TopicExact(subs', topics', t);
    } else {
      forall t ensures TopicExact(subs', topics', t) {
        assert TopicExact(subs, topics, t);
        var l := Listed(topics, t);
        assert forall i :: 0 <= i < |l| ==> l[i] in l;
      }
    }
  }

  lemma {:induction false} WithoutAt(s: seq<string>, id: string, i: nat)
    requires i < |s| && s[i] == id && id !in s[..i]
    ensures Without(s, id) == s[..i] + s[i + 1..]
  {
    if i > 0 {
      assert s[0] in s[..i];
      assert s[1..][..i - 1] == s[1..i] && s[1..][i..] == s[i + 1..];
      WithoutAt(s[1..], id, i - 1);
      assert [s[0]] + (s[1..i] + s[i + 1..]) == s[..i] + s[i + 1..];
    }
  }

  lemma {:induction false} WithoutNone(s: seq<string>, id: string)
    requires id !in s
    ensures Without(s, id) == s
  {
    if s == [] {
    } else {
      WithoutNone(s[1..], id);
    }
  }

  /** The subscriptions whose connection is not among those that are gone. */
  function Staying(subs: Subscriptions, gone: set<string>): Subscriptions {
    map id | id in subs && subs[id].connection !in gone :: subs[id]
  }

  /** What routeMessage collects: the active subscriptions among the listed ids. */
  function Targets(subs: Subscriptions, ids: seq<string>): (r: seq<string>)
    ensures forall id :: id in r <==> id in ids && id in subs && subs[id].active
  {
    if ids == [] then []
    else
      var before := Targets(subs, ids[..|ids| - 1]);
      var last := ids[|ids| - 1];
      assert ids == ids[..|ids| - 1] + [last];
      if last in subs && subs[last].active then before + [last] else before
  }

  lemma {:induction false} TargetsDistinct(subs: Subscriptions, ids: seq<string>)
    requires Distinct(ids)
    ensures Distinct(Targets(subs, ids))
    decreases |ids|
  {
    if ids == [] {
    } else {
      var n := |ids| - 1;
      TargetsDistinct(subs, ids[..n]);
      assert ids[n] !in ids[..n];
      var before := Targets(subs, ids[..n]);
      assert forall i :: 0 <= i < |before| ==> before[i] in before;
    }
  }

  // ----- The id of a subscription

  function Digit(d: nat): char
    requires d < 10
  {
    "0123456789"[d]
  }

  function Decimal(n: nat): (s: string)
    ensures s != [] && '_' !in s
  {
    if n < 10 then [Digit(n)] else Decimal(n / 10) + [Digit(n % 10)]
  }

  /** Connection, topic and time in nanoseconds, joined by underscores. */
  function SubscriptionID(connection: string, topic: string, nanos: nat): string {
    Joined(Joined(connection, '_', topic), '_', Decimal(nanos))
  }

  lemma {:induction false} DecimalUnique(m: nat, n: nat)
    requires Decimal(m) == Decimal(n)
    ensures m == n
  {
    var s := Decimal(m);
    assert m < 10 <==> |s| == 1;
    assert n < 10 <==> |s| == 1;
    if m >= 10 {
      assert s[..|s| - 1] == Decimal(m / 10) == Decimal(n / 10);
      assert s[|s| - 1] == Digit(m % 10) == Digit(n % 10);
      DecimalUnique(m / 10, n / 10);
    }
  }

  /** Two ids meet exactly when they were made at the same nanosecond, of the same connection and topic or of names
      whose underscores shift a part from one to the other. */
  lemma IdsMeetIff(c: string, t: string, n: nat, c': string, t': string, n': nat)
    ensures SubscriptionID(c, t, n) == SubscriptionID(c', t', n')
            <==> n == n' && ((c == c' && t == t') || Shifted('_', c, t, c', t') || Shifted('_', c', t', c, t))
  {
    LastPart('_', Joined(c, '_', t), Decimal(n), Joined(c', '_', t'), Decimal(n'));
    if Decimal(n) == Decimal(n') { DecimalUnique(n, n'); }
    JoinedMeetIff('_', c, t, c', t');
  }

  class MessageBus {
    const maxConnections: int
    var connections: set<string>
    var subscriptions: Subscriptions
    var topicSubs: Topics

    ghost predicate Indexed()
      reads this
    {
      IndexExact(subscriptions, topicSubs)
    }

    /** Every subscription belongs to a registered connection. */
    ghost predicate NoOrphans()
      reads this
    {
      forall id :: id in subscriptions ==> subscriptions[id].connection in connections
    }

    ghost predicate Valid()
      reads this
    {
      Indexed() && NoOrphans()
    }

    constructor (maxConnections: int)
      ensures Valid() && connections == {} && subscriptions == map[] && topicSubs == map[]
      ensures this.maxConnections == maxConnections
    {
      this.maxConnections := maxConnections;
      connections, subscriptions, topicSubs := {}, map[], map[];
    }

    /** Fails when the bus is full, also for a connection that is registered already. */
    method RegisterConnection(id: string) returns (ok: bool)
      requires Valid()
      modifies this`connections
      ensures Valid() && ok == (|old(connections)| < maxConnections)
      ensures connections == if ok then old(connections) + {id} else old(connections)
    {
      if |connections| >= maxConnections { return false; }
      connections := connections + {id};
      ok := true;
    }

    /** `nanos` is the clock in nanoseconds. */
    method Subscribe(connection: string, topic: string, nanos: nat) returns (ok: bool, id: string)
      requires Valid()
      modifies this`subscriptions, this`topicSubs
      ensures ok == (connection in connections) && NoOrphans()
      ensures topicSubs == if ok then AddTo(old(topicSubs), topic, id) else old(topicSubs)
      ensures id == if ok then SubscriptionID(connection, topic, nanos) else ""
      ensures Indexed() <==> !ok || old(SubscriptionID(connection, topic, nanos) !in subscriptions)
      ensures subscriptions
              == if ok then old(subscriptions)[id := Subscription(topic, connection, true)] else old(subscriptions)
    {
      if connection !in connections { return false, ""; }
      id := SubscriptionID(connection, topic, nanos);
      var sub := Subscription(topic, connection, true);
      SubscribeExactIff(subscriptions, topicSubs, id, sub);
      subscriptions := subscriptions[id := sub];
      AddSubscriptionToTopic(topic, id);
      ok := true;
    }

    method AddSubscriptionToTopic(t: string, id: string)
      modifies this`topicSubs
      ensures topicSubs == AddTo(old(topicSubs), t, id)
    {
      if t in topicSubs {
        topicSubs := topicSubs[t := topicSubs[t] + [id]];
      } else {
        assert [] + [id] == [id];
        topicSubs := topicSubs[t := [id]];
      }
    }

    method RemoveSubscriptionFromTopic(t: string, id: string)
      modifies this`topicSubs
      ensures topicSubs == RemoveFrom(old(topicSubs), t, id)
    {
      if t !in topicSubs { return; }
      var ids := topicSubs[t];
      var i := 0;
      while i < |ids|
        invariant 0 <= i <= |ids| && topicSubs == old(topicSubs) && id !in ids[..i]
      {
        if ids[i] == id {
          WithoutAt(ids, id, i);
          topicSubs := topicSubs[t := ids[..i] + ids[i + 1..]];
          break;
        }
        i := i + 1;
      }
      if i == |ids| { WithoutNone(ids, id); }
      if |topicSubs[t]| == 0 { topicSubs := topicSubs - {t}; }
    }

    method Unsubscribe(id: string) returns (ok: bool)
      requires Valid()
      modifies this`subscriptions, this`topicSubs
      ensures Valid() && ok == old(id in subscriptions) && subscriptions == old(subscriptions) - {id}
    {
      if id !in subscriptions {
        assert subscriptions - {id} == subscriptions;
        return false;
      }
      RemoveExact(subscriptions, topicSubs, id);
      RemoveSubscriptionFromTopic(subscriptions[id].topic, id);
      subscriptions := subscriptions - {id};
      ok := true;
    }

    /** Drops a connection and every subscription of it, in the map's arbitrary order. */
    method UnregisterConnection(connection: string)
      requires Valid()
      modifies this
      ensures Valid() && connections == old(connections) - {connection}
      ensures subscriptions == Staying(old(subscriptions), {connection})
    {
      DropSubscriptions(connection);
      connections := connections - {connection};
    }

    method DropSubscriptions(connection: string)
      requires Indexed()
      modifies this`subscriptions, this`topicSubs
      ensures Indexed() && subscriptions == Staying(old(subscriptions), {connection})
    {
      ghost var all := subscriptions;
      var toVisit := subscriptions.Keys;
      while toVisit != {}
        invariant Indexed() && toVisit <= subscriptions.Keys
        invariant forall id :: id in subscriptions <==> id in all && (id in toVisit || all[id].connection != connection)
        invariant forall id :: id in subscriptions ==> subscriptions[id] == all[id]
        decreases toVisit
      {
        var id :| id in toVisit;
        toVisit := toVisit - {id};
        if subscriptions[id].connection == connection {
          RemoveExact(subscriptions, topicSubs, id);
          RemoveSubscriptionFromTopic(subscriptions[id].topic, id);
          subscriptions := subscriptions - {id};
        }
      }
    }

    /** Drops the connections found inactive, with their subscriptions. */
    method Cleanup(inactive: set<string>)
      requires Valid()
      modifies this
      ensures Valid() && connections == old(connections) - inactive
      ensures subscriptions == Staying(old(subscriptions), inactive * old(connections))
    {
      ghost var all, registered := subscriptions, connections;
      var toVisit := inactive * connections;
      ghost var gone: set<string> := {};
      while toVisit != {}
        invariant Valid() && toVisit + gone == inactive * registered
        invariant connections == registered - gone && subscriptions == Staying(all, gone)
        decreases toVisit
      {
        var connection :| connection in toVisit;
        toVisit := toVisit - {connection};
        UnregisterConnection(connection);
        gone := gone + {connection};
      }
    }

    /** A message goes to exactly the active subscriptions of its topic, to each once, in order of subscription. */
    method RouteTargets(topic: string) returns (targets: seq<string>)
      requires Valid()
      ensures Distinct(targets) && targets == Targets(subscriptions, Listed(topicSubs, topic))
      ensures forall id :: id in targets <==>
          id in subscriptions && subscriptions[id].topic == topic && subscriptions[id].active
    {
      assert TopicExact(subscriptions, topicSubs, topic);
      TargetsDistinct(subscriptions, Listed(topicSubs, topic));
      targets := [];
      if topic !in topicSubs { return; }
      var ids := topicSubs[topic];
      for i := 0 to |ids|
        invariant targets == Targets(subscriptions, ids[..i])
      {
        assert ids[..i + 1][..i] == ids[..i];
        if ids[i] in subscriptions && subscriptions[ids[i]].active { targets := targets + [ids[i]]; }
      }
      assert ids[..|ids|] == ids;
    }
  }

  /** Subscribing twice to one topic in one nanosecond: the topic then lists the one id twice. */
  method SubscribeTwice(maxConnections: int, connection: string, topic: string, nanos: nat) returns (bus: MessageBus)
    requires maxConnections >= 1
    ensures fresh(bus) && !bus.Indexed() 
    ensures exists id :: Listed(bus.topicSubs, topic) == [id, id] && bus.subscriptions.Keys == {id}
  {
    bus := new MessageBus(maxConnections);
    var registered := bus.RegisterConnection(connection);
    var ok, first := bus.Subscribe(connection, topic, nanos);
    assert bus.subscriptions.Keys == {first} && Listed(bus.topicSubs, topic) == [first];
    var again, second := bus.Subscribe(connection, topic, nanos);
    assert second == first;
    assert Listed(bus.topicSubs, topic) == [first, first];
    assert bus.subscriptions.Keys == {first};
  }
}
