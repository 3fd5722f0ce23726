/** RouterCache over whole runs: it refines a map that may forget, and LRU caches include smaller ones. */
module CacheRuns {
  import opened Sums
  import opened CacheModel

  // Runs are read from the end: the last event acts on the cache that the earlier ones leave.

  function Last<T>(s: seq<T>): T
    requires s != []
  {
    s[|s| - 1]
  }

  function Front<T>(s: seq<T>): (r: seq<T>)
    requires s != []
    ensures |r| == |s| - 1
  {
    s[..|s| - 1]
  }

  predicate IsRun(cfg: Config, start: int, evs: seq<Event>)
    decreases |evs|, 0
  {
    evs == [] || (IsRun(cfg, start, Front(evs)) && Legal(cfg, After(cfg, start, Front(evs)), Last(evs)))
  }

  function After(cfg: Config, start: int, evs: seq<Event>): Cache
    requires IsRun(cfg, start, evs)
    decreases |evs|, 1
  {
    if evs == [] then EMPTY.(clock := start) else Apply(cfg, After(cfg, start, Front(evs)), Last(evs))
  }

  /** Over any run, under any policies: each key is listed once, in access-time order; the memory total is
      the sum of the sizes; the entries are at most MaxSize; and memory is within its limit unless
      exactly one entry remains. */
  lemma {:induction false} RunInv(cfg: Config, start: int, evs: seq<Event>)
    requires IsRun(cfg, start, evs)
    ensures Inv(cfg, After(cfg, start, evs))
    decreases |evs|
  {
    if evs == [] {
    } else {
      RunInv(cfg, start, Front(evs));
      StepKeepsInv(cfg, After(cfg, start, Front(evs)), Last(evs));
    }
  }

  // ----- Refinement of a map that may forget

  datatype Latest = Latest(value: Value, expire: int)

  /** The latest Set of `key` since its last Delete or Clear. */
  function LatestSet(cfg: Config, evs: seq<Event>, key: string): Option<Latest>
    decreases |evs|
  {
    if evs == [] then None
    else match Last(evs)
      case Set(k, v, ttl, _, made, _, _) =>
        if cfg.enabled && k == key then Some(Latest(v, made + (if ttl == 0 then cfg.ttl else ttl)))
        else LatestSet(cfg, Front(evs), key)
      case Delete(k) => if k == key then None else LatestSet(cfg, Front(evs), key)
      case Clear => None
      case _ => LatestSet(cfg, Front(evs), key)
  }

  predicate UpToDate(cfg: Config, evs: seq<Event>, e: Entry) {
    LatestSet(cfg, evs, e.key) == Some(Latest(e.value, e.expire))
  }

  predicate SameData(o: Entry, e: Entry) {
    o.key == e.key && o.value == e.value && o.expire == e.expire
  }

  // Every entry after a step is the new one, or an old one up to its access time and hit count.
  lemma SetEntries(cfg: Config, c: Cache, ev: Event, e: Entry)
    requires Inv(cfg, c) && Legal(cfg, c, ev) && ev.Set? && cfg.enabled && e in Apply(cfg, c, ev).order
    ensures e == NewEntry(cfg, ev) || (e in c.order && e.key != ev.key)
  {
    var s := AfterSpace(cfg, c, SizeOf(ev.value), ev.choices);
    SpaceKeepsCore(cfg, c, SizeOf(ev.value), ev.choices);
    DisplaceKeepsCore(s, ev.key);
    assert e in Inserted(cfg, c, ev).order;
  }

  lemma GetEntries(cfg: Config, c: Cache, key: string, now: int, at: int, e: Entry)
    requires Inv(cfg, c) && c.clock <= now <= at && e in Apply(cfg, c, Get(key, now, at)).order
    ensures exists o :: o in c.order && SameData(o, e)
  {
    if GetHits(cfg, c, key, now) {
      var o := c.order[IndexOf(c.order, key)];
      assert o in c.order;
      if e == o.(access := at, hits := o.hits + 1) {
        assert SameData(o, e);
      } else {
        assert e in c.order && SameData(e, e);
      }
    } else {
      assert e in c.order && SameData(e, e);
    }
  }

  lemma OtherEntries(cfg: Config, c: Cache, ev: Event, e: Entry)
    requires Inv(cfg, c) && Legal(cfg, c, ev) && e in Apply(cfg, c, ev).order
    requires !ev.Get? && !(ev.Set? && cfg.enabled)
    ensures e in c.order && !(ev.Delete? && ev.key == e.key) && !ev.Clear?
  {
    if ev.Cleanup? { LiveFacts(c.order, ev.now); }
    if ev.Delete? && Has(c.order, ev.key) {
      var i := IndexOf(c.order, ev.key);
      var j :| 0 <= j < |RemoveAt(c.order, i)| && RemoveAt(c.order, i)[j] == e;
      assert e == c.order[if j < i then j else j + 1];
    }
  }

  lemma {:induction false} RunUpToDate(cfg: Config, start: int, evs: seq<Event>)
    requires IsRun(cfg, start, evs)
    ensures forall e :: e in After(cfg, start, evs).order ==> UpToDate(cfg, evs, e)
    decreases |evs|
  {
    if evs == [] {
    } else {
      var c := After(cfg, start, Front(evs));
      RunUpToDate(cfg, start, Front(evs));
      RunInv(cfg, start, Front(evs));
      forall e | e in After(cfg, start, evs).order ensures UpToDate(cfg, evs, e) {
        StepUpToDate(cfg, c, evs, e);
      }
    }
  }

  lemma StepUpToDate(cfg: Config, c: Cache, evs: seq<Event>, e: Entry)
    requires evs != [] && Inv(cfg, c) && Legal(cfg, c, Last(evs)) && e in Apply(cfg, c, Last(evs)).order
    requires forall o :: o in c.order ==> UpToDate(cfg, Front(evs), o)
    ensures UpToDate(cfg, evs, e)
  {
    var ev := Last(evs);
    if ev.Get? {
      GetEntries(cfg, c, ev.key, ev.now, ev.at, e);
      var o :| o in c.order && SameData(o, e);
      assert UpToDate(cfg, Front(evs), o);
    } else if ev.Set? && cfg.enabled {
      SetEntries(cfg, c, ev, e);
      assert e in c.order ==> UpToDate(cfg, Front(evs), e);
    } else {
      OtherEntries(cfg, c, ev, e);
      assert UpToDate(cfg, Front(evs), e);
    }
  }

  /** After any run, a Get hit returns exactly the value of the latest Set of that key since its last
      Delete or Clear, and that Set has not expired. */
  lemma HitIsLatest(cfg: Config, start: int, evs: seq<Event>, key: string, now: int)
    requires IsRun(cfg, start, evs) && GetHits(cfg, After(cfg, start, evs), key, now)
    ensures var latest := LatestSet(cfg, evs, key);
            latest.Some? && now <= latest.value.expire
            && GetResult(cfg, After(cfg, start, evs), key, now) == Some(latest.value.value)
  {
    RunUpToDate(cfg, start, evs);
    var c := After(cfg, start, evs);
    assert UpToDate(cfg, evs, c.order[IndexOf(c.order, key)]);
  }

  /** Sets that found no entry of their key, since the last Clear. */
  function FreshInserts(cfg: Config, start: int, evs: seq<Event>): nat
    requires IsRun(cfg, start, evs)
    decreases |evs|
  {
    if evs == [] then 0
    else
      var before, c, ev := FreshInserts(cfg, start, Front(evs)), After(cfg, start, Front(evs)), Last(evs);
      if ev.Clear? then 0
      else if ev.Set? && cfg.enabled && !Has(AfterSpace(cfg, c, SizeOf(ev.value), ev.choices).order, ev.key)
      then before + 1
      else before
  }

  /** After any run, every fresh insert since the last Clear is still an entry or was counted as an eviction. */
  lemma {:induction false} InsertsBalance(cfg: Config, start: int, evs: seq<Event>)
    requires IsRun(cfg, start, evs)
    ensures FreshInserts(cfg, start, evs) == |After(cfg, start, evs).order| + After(cfg, start, evs).evictions
    decreases |evs|
  {
    if evs == [] {
    } else {
      var c, ev := After(cfg, start, Front(evs)), Last(evs);
      InsertsBalance(cfg, start, Front(evs));
      RunInv(cfg, start, Front(evs));
      if ev.Set? && cfg.enabled {
        SpaceKeepsCore(cfg, c, SizeOf(ev.value), ev.choices);
      }
    }
  }
}
