/** When RouterCache finds what was set: the converse of CacheRuns.HitIsLatest, and what its counters count. */
module CacheRetention {
  import opened Sums
  import opened CacheModel
  import opened CacheRuns

  // ----- What an event evicts

  /** The keys that these picks evict, one after the other. */
  function PickedKeys(cfg: Config, c: Cache, needed: nat, choices: seq<Pick>): set<string>
    requires Evicts(cfg, c, needed, choices)
    decreases |choices|
  {
    if choices == [] then {}
    else {c.order[choices[0].i].key} + PickedKeys(cfg, Evict(c, choices[0]), needed, choices[1..])
  }

  /** The key that is evicted after the new entry was placed, because there is one entry too many. */
  function LastPicked(cfg: Config, c: Cache, ev: Event): set<string>
    requires ev.Set? && cfg.enabled && Legal(cfg, c, ev)
  {
    if Overfull(cfg, Inserted(cfg, c, ev)) then {Inserted(cfg, c, ev).order[ev.last.i].key} else {}
  }

  function Picked(cfg: Config, c: Cache, ev: Event): set<string>
    requires ev.Set? && cfg.enabled && Legal(cfg, c, ev)
  {
    PickedKeys(cfg, c, SizeOf(ev.value), ev.choices) + LastPicked(cfg, c, ev)
  }

  function Expiry(cfg: Config, evs: seq<Event>, key: string): int {
    var latest := LatestSet(cfg, evs, key);
    if latest.Some? then latest.value.expire else 0
  }

  /** The latest Set of the key took place, and since then no Delete or Clear, no eviction picked it, and no Get of it
      or cleanup came after its expiry. */
  predicate Kept(cfg: Config, start: int, evs: seq<Event>, key: string)
    requires IsRun(cfg, start, evs)
    decreases |evs|
  {
    if evs == [] then false
    else
      var before, c := Kept(cfg, start, Front(evs), key), After(cfg, start, Front(evs));
      match Last(evs)
      case Set(k, _, _, _, _, _, _) =>
        if !cfg.enabled then before
        else if k == key then key !in LastPicked(cfg, c, Last(evs))
        else before && key !in Picked(cfg, c, Last(evs))
      case Get(k, now, _) => before && (k == key && cfg.enabled ==> now <= Expiry(cfg, Front(evs), key))
      case Cleanup(now) => before && now <= Expiry(cfg, Front(evs), key)
      case Delete(k) => before && k != key
      case Clear => false
      case SetPolicy(_) => before
  }

  // ----- Which keys a step keeps

  lemma HasIff(order: seq<Entry>, key: string)
    ensures Has(order, key) <==> exists e :: e in order && e.key == key
  {
    if Has(order, key) { assert order[IndexOf(order, key)] in order; }
  }

  lemma HasRemove(order: seq<Entry>, i: nat, key: string)
    requires DistinctKeys(order) && i < |order|
    ensures Has(RemoveAt(order, i), key) <==> Has(order, key) && key != order[i].key
  {
    RemovedKey(order, i);
    HasIff(order, key);
    HasIff(RemoveAt(order, i), key);
    if Has(order, key) && key != order[i].key {
      var j := IndexOf(order, key);
      assert RemoveAt(order, i)[if j < i then j else j - 1] == order[j];
    }
  }

  lemma {:induction false} HasAfterSpace(cfg: Config, c: Cache, needed: nat, choices: seq<Pick>, key: string)
    requires Core(c) && Evicts(cfg, c, needed, choices)
    ensures var s := AfterSpace(cfg, c, needed, choices);
            Has(s.order, key) <==> Has(c.order, key) && key !in PickedKeys(cfg, c, needed, choices)
    decreases |choices|
  {
    if choices == [] {
    } else {
      HasRemove(c.order, choices[0].i, key);
      EvictKeepsCore(c, choices[0]);
      HasAfterSpace(cfg, Evict(c, choices[0]), needed, choices[1..], key);
    }
  }

  lemma HasAppend(order: seq<Entry>, e: Entry, key: string)
    ensures Has(order + [e], key) <==> Has(order, key) || key == e.key
  {
    HasIff(order, key);
    HasIff(order + [e], key);
    assert (order + [e])[|order|] == e;
    if Has(order, key) { assert (order + [e])[IndexOf(order, key)] == order[IndexOf(order, key)]; }
  }

  lemma HasDisplace(c: Cache, key: string, other: string)
    requires Core(c)
    ensures Has(Displace(c, key).order, other) <==> Has(c.order, other) && other != key
  {
    if Has(c.order, key) { HasRemove(c.order, IndexOf(c.order, key), other); }
  }

  lemma HasInserted(cfg: Config, c: Cache, ev: Event, key: string)
    requires Inv(cfg, c) && ev.Set? && cfg.enabled && Legal(cfg, c, ev)
    ensures var ins := Inserted(cfg, c, ev);
            Has(ins.order, key)
            <==> ev.key == key || (Has(c.order, key) && key !in PickedKeys(cfg, c, SizeOf(ev.value), ev.choices))
  {
    var size := SizeOf(ev.value);
    SpaceKeepsCore(cfg, c, size, ev.choices);
    HasAfterSpace(cfg, c, size, ev.choices, key);
    var s := AfterSpace(cfg, c, size, ev.choices);
    HasDisplace(s, ev.key, key);
    HasAppend(Displace(s, ev.key).order, NewEntry(cfg, ev), key);
  }

  lemma HasTrimmed(cfg: Config, ins: Cache, last: Pick, key: string)
    requires DistinctKeys(ins.order) && (Overfull(cfg, ins) ==> last.i < |ins.order|)
    ensures Overfull(cfg, ins) ==>
              (Has(Evict(ins, last).order, key) <==> Has(ins.order, key) && key != ins.order[last.i].key)
  {
    if Overfull(cfg, ins) { HasRemove(ins.order, last.i, key); }
  }

  lemma HasSet(cfg: Config, c: Cache, ev: Event, key: string)
    requires Inv(cfg, c) && ev.Set? && cfg.enabled && Legal(cfg, c, ev)
    ensures Has(Apply(cfg, c, ev).order, key)
            <==> if ev.key == key then key !in LastPicked(cfg, c, ev)
                 else Has(c.order, key) && key !in Picked(cfg, c, ev)
  {
    HasInserted(cfg, c, ev, key);
    InsertedCore(cfg, c, ev);
    HasTrimmed(cfg, Inserted(cfg, c, ev), ev.last, key);
  }

  lemma HasGet(cfg: Config, c: Cache, k: string, now: int, at: int, key: string)
    requires Inv(cfg, c) && cfg.enabled && c.clock <= now <= at
    ensures Has(Apply(cfg, c, Get(k, now, at)).order, key)
            <==> Has(c.order, key) && (k == key ==> now <= c.order[IndexOf(c.order, key)].expire)
  {
    if Has(c.order, k) {
      var i := IndexOf(c.order, k);
      var e := c.order[i];
      HasRemove(c.order, i, key);
      HasAppend(RemoveAt(c.order, i), e.(access := at, hits := e.hits + 1), key);
    }
  }

  lemma HasCleanup(c: Cache, now: int, key: string)
    requires Core(c)
    ensures Has(Live(c.order, now), key) <==> Has(c.order, key) && now <= c.order[IndexOf(c.order, key)].expire
  {
    LiveFacts(c.order, now);
    HasIff(c.order, key);
    HasIff(Live(c.order, now), key);
    if Has(c.order, key) {
      assert c.order[IndexOf(c.order, key)] in c.order;
      forall e | e in c.order && e.key == key ensures e == c.order[IndexOf(c.order, key)] {
        var j :| 0 <= j < |c.order| && c.order[j] == e;
      }
    }
  }

  /** After any run the cache holds an entry of the key if and only if it was kept. */
  lemma {:induction false} HeldIffKept(cfg: Config, start: int, evs: seq<Event>, key: string)
    requires IsRun(cfg, start, evs)
    ensures Has(After(cfg, start, evs).order, key) <==> Kept(cfg, start, evs, key)
    decreases |evs|
  {
    if evs == [] {
    } else {
      var c, ev := After(cfg, start, Front(evs)), Last(evs);
      HeldIffKept(cfg, start, Front(evs), key);
      RunInv(cfg, start, Front(evs));
      HeldUntil(cfg, start, Front(evs), key);
      match ev
      case Set(_, _, _, _, _, _, _) => if cfg.enabled { HasSet(cfg, c, ev, key); }
      case Get(k, now, at) => if cfg.enabled { HasGet(cfg, c, k, now, at, key); }
      case Cleanup(now) => HasCleanup(c, now, key);
      case Delete(k) => if Has(c.order, k) { HasRemove(c.order, IndexOf(c.order, k), key); }
      case Clear =>
      case SetPolicy(_) =>
    }
  }

  lemma HeldUntil(cfg: Config, start: int, evs: seq<Event>, key: string)
    requires IsRun(cfg, start, evs)
    ensures var order := After(cfg, start, evs).order;
            Has(order, key) ==> LatestSet(cfg, evs, key).Some?
                                && order[IndexOf(order, key)].expire == Expiry(cfg, evs, key)
                                && order[IndexOf(order, key)].value == LatestSet(cfg, evs, key).value.value
  {
    RunUpToDate(cfg, start, evs);
    var order := After(cfg, start, evs).order;
    if Has(order, key) { assert UpToDate(cfg, evs, order[IndexOf(order, key)]); }
  }

  /** After any run a Get returns the value of the latest Set of its key exactly when the cache is enabled, the Set has
      not expired, and the key was kept; else it returns nothing. */
  lemma GetReturnsIff(cfg: Config, start: int, evs: seq<Event>, key: string, now: int)
    requires IsRun(cfg, start, evs)
    ensures GetResult(cfg, After(cfg, start, evs), key, now)
            == if cfg.enabled && Kept(cfg, start, evs, key) && now <= Expiry(cfg, evs, key)
                  && LatestSet(cfg, evs, key).Some?
               then Some(LatestSet(cfg, evs, key).value.value) else None
  {
    HeldIffKept(cfg, start, evs, key);
    HeldUntil(cfg, start, evs, key);
  }

  lemma OneMore<T>(a: seq<T>, b: seq<T>)
    requires b != []
    ensures Front(a + b) == a + Front(b) && Last(a + b) == Last(b)
  {
  }

  lemma {:induction false} KeptThroughGets(cfg: Config, start: int, evs: seq<Event>, gets: seq<Event>, key: string)
    requires IsRun(cfg, start, evs + gets) && IsRun(cfg, start, evs) && Kept(cfg, start, evs, key)
    requires forall i :: 0 <= i < |gets| ==>
        gets[i].Get? && (gets[i].key == key ==> gets[i].now <= Expiry(cfg, evs, key))
    ensures Kept(cfg, start, evs + gets, key) && LatestSet(cfg, evs + gets, key) == LatestSet(cfg, evs, key)
    decreases |gets|
  {
    if gets == [] {
      assert evs + gets == evs;
    } else {
      OneMore(evs, gets);
      KeptThroughGets(cfg, start, evs, Front(gets), key);
    }
  }

  lemma RunOneMore(cfg: Config, start: int, evs: seq<Event>, ev: Event)
    requires IsRun(cfg, start, evs) && Legal(cfg, After(cfg, start, evs), ev)
    ensures Front(evs + [ev]) == evs && Last(evs + [ev]) == ev && IsRun(cfg, start, evs + [ev])
  {
    var r := evs + [ev];
    assert Front(r) == evs && Last(r) == ev;
  }

  lemma KeptAfterSet(cfg: Config, start: int, evs: seq<Event>)
    requires cfg.enabled && evs != [] && Last(evs).Set? && IsRun(cfg, start, evs)
    requires Last(evs).key !in LastPicked(cfg, After(cfg, start, Front(evs)), Last(evs))
    ensures var ev := Last(evs);
            Kept(cfg, start, evs, ev.key)
            && LatestSet(cfg, evs, ev.key)
               == Some(Latest(ev.value, ev.made + if ev.ttl == 0 then cfg.ttl else ev.ttl))
  {
  }

  /** After a Set that its own last eviction does not pick, any number of Gets before the expiry, of whatever keys and
      with no other operation in between, leave the next Get its value. */
  lemma ServedAgain(cfg: Config, start: int, evs: seq<Event>, ev: Event, gets: seq<Event>, now: int)
    requires cfg.enabled && ev.Set? && IsRun(cfg, start, evs) && Legal(cfg, After(cfg, start, evs), ev)
    requires IsRun(cfg, start, evs + [ev] + gets) && ev.key !in LastPicked(cfg, After(cfg, start, evs), ev)
    requires var expiry := ev.made + if ev.ttl == 0 then cfg.ttl else ev.ttl;
             now <= expiry && forall i :: 0 <= i < |gets| ==> gets[i].Get? && gets[i].now <= expiry
    ensures GetResult(cfg, After(cfg, start, evs + [ev] + gets), ev.key, now) == Some(ev.value)
  {
    RunOneMore(cfg, start, evs, ev);
    KeptAfterSet(cfg, start, evs + [ev]);
    KeptThroughGets(cfg, start, evs + [ev], gets, ev.key);
    GetReturnsIff(cfg, start, evs + [ev] + gets, ev.key, now);
  }

  // ----- What the counters count

  /** Gets since the last Clear, and those of them that returned a value. */
  function Gets(cfg: Config, evs: seq<Event>): nat
    decreases |evs|
  {
    if evs == [] || Last(evs).Clear? then 0
    else Gets(cfg, Front(evs)) + if Last(evs).Get? && cfg.enabled then 1 else 0
  }

  function Served(cfg: Config, start: int, evs: seq<Event>): nat
    requires IsRun(cfg, start, evs)
    decreases |evs|
  {
    if evs == [] || Last(evs).Clear? then 0
    else
      var ev, c := Last(evs), After(cfg, start, Front(evs));
      Served(cfg, start, Front(evs)) + if ev.Get? && GetResult(cfg, c, ev.key, ev.now).Some? then 1 else 0
  }

  /** After any run Hits and Misses are the Gets since the last Clear that returned a value, and the others. */
  lemma {:induction false} CountersExact(cfg: Config, start: int, evs: seq<Event>)
    requires IsRun(cfg, start, evs)
    ensures var c := After(cfg, start, evs);
            c.hits == Served(cfg, start, evs) && c.hits + c.misses == Gets(cfg, evs)
    decreases |evs|
  {
    if evs == [] {
    } else {
      CountersExact(cfg, start, Front(evs));
      CountersKeep(cfg, After(cfg, start, Front(evs)), Last(evs));
    }
  }

  lemma {:induction false} SpaceKeepsCounters(cfg: Config, c: Cache, needed: nat, choices: seq<Pick>)
    requires Evicts(cfg, c, needed, choices)
    ensures var s := AfterSpace(cfg, c, needed, choices);
            s.hits == c.hits && s.misses == c.misses && s.policy == c.policy && s.evictions == c.evictions + |choices|
    decreases |choices|
  {
    if choices == [] {
    } else {
      SpaceKeepsCounters(cfg, Evict(c, choices[0]), needed, choices[1..]);
    }
  }

  predicate Hit(cfg: Config, c: Cache, ev: Event) {
    ev.Get? && GetResult(cfg, c, ev.key, ev.now).Some?
  }

  lemma CountersKeep(cfg: Config, c: Cache, ev: Event)
    requires Legal(cfg, c, ev)
    ensures var c' := Apply(cfg, c, ev);
            && c'.hits == (if ev.Clear? then 0 else if Hit(cfg, c, ev) then c.hits + 1 else c.hits)
            && c'.misses == (if ev.Clear? then 0
                             else if ev.Get? && cfg.enabled && !Hit(cfg, c, ev) then c.misses + 1 else c.misses)
            && c'.policy == if ev.SetPolicy? then ev.policy else c.policy
  {
    if ev.Set? && cfg.enabled { SpaceKeepsCounters(cfg, c, SizeOf(ev.value), ev.choices); }
  }

  /** The time of the latest Set of the key or of the latest Get of it that returned a value, and how many such Gets
      there were since the Set. */
  function Uses(cfg: Config, start: int, evs: seq<Event>, key: string): (int, nat)
    requires IsRun(cfg, start, evs)
    decreases |evs|
  {
    if evs == [] then (start, 0)
    else
      var (time, uses) := Uses(cfg, start, Front(evs), key);
      var c := After(cfg, start, Front(evs));
      match Last(evs)
      case Set(k, _, _, _, _, at, _) => if k == key && cfg.enabled then (at, 0) else (time, uses)
      case Get(k, now, at) =>
        if k == key && GetResult(cfg, c, key, now).Some? then (at, uses + 1) else (time, uses)
      case _ => (time, uses)
  }

  /** After any run an entry's access time and hit count are those. */
  lemma {:induction false} UsesExact(cfg: Config, start: int, evs: seq<Event>)
    requires IsRun(cfg, start, evs)
    ensures forall e :: e in After(cfg, start, evs).order ==> (e.access, e.hits) == Uses(cfg, start, evs, e.key)
    decreases |evs|
  {
    if evs == [] {
    } else {
      var c, ev := After(cfg, start, Front(evs)), Last(evs);
      UsesExact(cfg, start, Front(evs));
      RunInv(cfg, start, Front(evs));
      forall e | e in After(cfg, start, evs).order ensures (e.access, e.hits) == Uses(cfg, start, evs, e.key) {
        if ev.Get? {
          UsedEntries(cfg, c, ev.key, ev.now, ev.at, e);
        } else if ev.Set? && cfg.enabled {
          SetEntries(cfg, c, ev, e);
        } else {
          OtherEntries(cfg, c, ev, e);
        }
      }
    }
  }

  lemma UsedEntries(cfg: Config, c: Cache, key: string, now: int, at: int, e: Entry)
    requires Inv(cfg, c) && c.clock <= now <= at && e in Apply(cfg, c, Get(key, now, at)).order
    ensures if e.key == key && GetHits(cfg, c, key, now)
            then exists o :: o in c.order && o.key == key && e == o.(access := at, hits := o.hits + 1)
            else e in c.order
  {
    if GetHits(cfg, c, key, now) {
      var i := IndexOf(c.order, key);
      assert c.order[i] in c.order;
      RemovedKey(c.order, i);
    } else if cfg.enabled && Has(c.order, key) {
      RemovedKey(c.order, IndexOf(c.order, key));
    }
  }

  /** The policy in force: the latest that was set, and LRU at first. */
  function Chosen(evs: seq<Event>): Policy
    decreases |evs|
  {
    if evs == [] then LRU else if Last(evs).SetPolicy? then Last(evs).policy else Chosen(Front(evs))
  }

  lemma {:induction false} PolicyIsChosen(cfg: Config, start: int, evs: seq<Event>)
    requires IsRun(cfg, start, evs)
    ensures After(cfg, start, evs).policy == Chosen(evs)
    decreases |evs|
  {
    if evs == [] {
    } else {
      PolicyIsChosen(cfg, start, Front(evs));
      CountersKeep(cfg, After(cfg, start, Front(evs)), Last(evs));
    }
  }

  /** What each policy evicts, at any moment of a Set: LRU and FIFO an entry that was not used after any other, LFU one
      that was not hit more often than any other since its Set, and TTL an expired one, or if none has expired one
      that was not used after any other. */
  lemma PickIsPolicy(c: Cache, p: Pick)
    requires Core(c) && MayEvict(c, p)
    ensures var e := c.order[p.i];
            match c.policy
            case LRU => forall o :: o in c.order ==> e.access <= o.access
            case FIFO => forall o :: o in c.order ==> e.access <= o.access
            case LFU => forall o :: o in c.order ==> e.hits <= o.hits
            case TTL => p.now > e.expire || forall o :: o in c.order ==> e.access <= o.access && p.now <= o.expire
  {
  }

  lemma {:induction false} PicksArePolicies(cfg: Config, c: Cache, needed: nat, choices: seq<Pick>, k: nat)
    requires Core(c) && Evicts(cfg, c, needed, choices) && k < |choices|
    ensures Evicts(cfg, c, needed, choices[..k])
    ensures var s := AfterSpace(cfg, c, needed, choices[..k]);
            && Core(s) && MayEvict(s, choices[k]) && s.policy == c.policy && (forall e :: e in s.order ==> e in c.order)
            && s.memory + needed > cfg.maxMemory
    decreases |choices|
  {
    if k == 0 {
    } else {
      EvictKeepsCore(c, choices[0]);
      RemovedKey(c.order, choices[0].i);
      PicksArePolicies(cfg, Evict(c, choices[0]), needed, choices[1..], k - 1);
      assert choices[..k][1..] == choices[1..][..k - 1];
    }
  }

  /** So over runs, with the policy in force: what is evicted to make space is under LRU and FIFO a key whose latest Set
      or served Get is no later than any other's, under LFU one that was served no more often since its Set than any
      other, and under TTL one whose Set has expired, unless none has. */
  lemma EvictsByPolicy(cfg: Config, start: int, evs: seq<Event>, ev: Event, k: nat)
    requires IsRun(cfg, start, evs) && cfg.enabled && ev.Set? && Legal(cfg, After(cfg, start, evs), ev)
    requires k < |ev.choices|
    ensures Evicts(cfg, After(cfg, start, evs), SizeOf(ev.value), ev.choices[..k])
    ensures var s := AfterSpace(cfg, After(cfg, start, evs), SizeOf(ev.value), ev.choices[..k]);
            && s.memory + SizeOf(ev.value) > cfg.maxMemory && ev.choices[k].i < |s.order|
            && var key := s.order[ev.choices[k].i].key;
               match Chosen(evs)
               case LRU => UsedFirst(cfg, start, evs, s.order, key)
               case FIFO => UsedFirst(cfg, start, evs, s.order, key)
               case LFU => forall o :: o in s.order ==> Uses(cfg, start, evs, key).1 <= Uses(cfg, start, evs, o.key).1
               case TTL => ev.choices[k].now > Expiry(cfg, evs, key)
                           || (UsedFirst(cfg, start, evs, s.order, key)
                               && forall o :: o in s.order ==> ev.choices[k].now <= Expiry(cfg, evs, o.key))
  {
    var c := After(cfg, start, evs);
    RunInv(cfg, start, evs);
    RunUpToDate(cfg, start, evs);
    UsesExact(cfg, start, evs);
    PolicyIsChosen(cfg, start, evs);
    PicksArePolicies(cfg, c, SizeOf(ev.value), ev.choices, k);
    var s := AfterSpace(cfg, c, SizeOf(ev.value), ev.choices[..k]);
    PickIsPolicy(s, ev.choices[k]);
    forall o | o in s.order
      ensures (o.access, o.hits) == Uses(cfg, start, evs, o.key) && o.expire == Expiry(cfg, evs, o.key)
    {
      assert UpToDate(cfg, evs, o);
    }
    assert s.order[ev.choices[k].i] in s.order;
  }

  ghost predicate UsedFirst(cfg: Config, start: int, evs: seq<Event>, order: seq<Entry>, key: string)
    requires IsRun(cfg, start, evs)
  {
    forall o :: o in order ==> Uses(cfg, start, evs, key).0 <= Uses(cfg, start, evs, o.key).0
  }

  /** Nothing is evicted without need: to make space only while the new value does not fit, and once more only if the
      entries then outnumber MaxSize. */
  lemma EvictsForRoom(cfg: Config, c: Cache, ev: Event)
    requires Inv(cfg, c) && cfg.enabled && ev.Set? && Legal(cfg, c, ev)
    ensures ev.choices == [] <==> c.memory + SizeOf(ev.value) <= cfg.maxMemory || c.order == []
    ensures var others := |c.order| - |ev.choices|
                          - if Has(AfterSpace(cfg, c, SizeOf(ev.value), ev.choices).order, ev.key) then 1 else 0;
            var c' := Apply(cfg, c, ev);
            && c'.evictions == c.evictions + |ev.choices| + (if others + 1 > cfg.maxSize then 1 else 0)
            && |c'.order| == if others + 1 > cfg.maxSize then others else others + 1
  {
    SpaceKeepsCounters(cfg, c, SizeOf(ev.value), ev.choices);
    SpaceKeepsCore(cfg, c, SizeOf(ev.value), ev.choices);
  }

  /** A cleanup leaves exactly the entries that have not expired, and counts the others as evicted. */
  lemma CleanupExact(cfg: Config, c: Cache, now: int)
    requires now >= c.clock
    ensures var c' := Apply(cfg, c, Cleanup(now));
            && (forall e :: e in c'.order <==> e in c.order && now <= e.expire)
            && c'.evictions - c.evictions == |c.order| - |c'.order|
  {
    LiveFacts(c.order, now);
  }

  // ----- What the memory total adds up

  function Lengths(order: seq<Entry>): nat {
    if order == [] then 0
    else Lengths(order[1..]) + match order[0].value
                               case Text(s) => |s|
                               case Bytes(b) => |b|
                               case _ => 0
  }

  function Numbers(order: seq<Entry>): nat {
    if order == [] then 0 else Numbers(order[1..]) + if order[0].value.Number? then 1 else 0
  }

  function Flags(order: seq<Entry>): nat {
    if order == [] then 0 else Flags(order[1..]) + if order[0].value.Flag? then 1 else 0
  }

  function Others(order: seq<Entry>): nat {
    if order == [] then 0 else Others(order[1..]) + if order[0].value.Other? then 1 else 0
  }

  lemma {:induction false} Sized(order: seq<Entry>)
    requires forall e :: e in order ==> e.size == SizeOf(e.value)
    ensures Memory(order) == Lengths(order) + 8 * Numbers(order) + Flags(order) + 256 * Others(order)
  {
    if order == [] {
    } else {
      assert order[0] in order && forall e :: e in order[1..] ==> e in order;
      Sized(order[1..]);
    }
  }

  lemma {:induction false} SizesExact(cfg: Config, start: int, evs: seq<Event>)
    requires IsRun(cfg, start, evs)
    ensures forall e :: e in After(cfg, start, evs).order ==> e.size == SizeOf(e.value)
    decreases |evs|
  {
    if evs == [] {
    } else {
      var c, ev := After(cfg, start, Front(evs)), Last(evs);
      SizesExact(cfg, start, Front(evs));
      RunInv(cfg, start, Front(evs));
      forall e | e in After(cfg, start, evs).order ensures e.size == SizeOf(e.value) {
        if ev.Get? {
          UsedEntries(cfg, c, ev.key, ev.now, ev.at, e);
        } else if ev.Set? && cfg.enabled {
          SetEntries(cfg, c, ev, e);
        } else {
          OtherEntries(cfg, c, ev, e);
        }
      }
    }
  }

  /** After any run the memory total is what the values held take: strings and byte slices their length, numbers 8,
      booleans 1, anything else 256. */
  lemma MemoryExact(cfg: Config, start: int, evs: seq<Event>)
    requires IsRun(cfg, start, evs)
    ensures var c := After(cfg, start, evs);
            c.memory == Lengths(c.order) + 8 * Numbers(c.order) + Flags(c.order) + 256 * Others(c.order)
  {
    RunInv(cfg, start, evs);
    SizesExact(cfg, start, evs);
    Sized(After(cfg, start, evs).order);
  }
}
