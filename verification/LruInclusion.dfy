/** LRU inclusion: of two LRU caches fed the same operations, the smaller one's recency list stays a
    subsequence of the larger one's, so every hit in the smaller is a hit in the larger. */
module LruInclusion {
  import opened CacheModel
  import opened CacheRuns

  predicate Sub(a: seq<Entry>, b: seq<Entry>)
    decreases |b|
  {
    a == [] || (b != [] && if a[0] == b[0] then Sub(a[1..], b[1..]) else Sub(a, b[1..]))
  }

  function Without(order: seq<Entry>, key: string): (r: seq<Entry>)
    ensures |r| <= |order|
  {
    if order == [] then []
    else if order[0].key == key then Without(order[1..], key)
    else [order[0]] + Without(order[1..], key)
  }

  lemma {:induction false} SubDropHead(a: seq<Entry>, b: seq<Entry>)
    requires Sub(a, b) && a != []
    ensures Sub(a[1..], b)
    decreases |b|, 1
  {
    if a[0] == b[0] {
      if |a| > 1 {
        SubSkip(a[1..], b);
      }
    } else {
      SubDropHead(a, b[1..]);
      if |a| > 1 {
        SubSkip(a[1..], b);
      }
    }
  }

  // A subsequence of the tail is one of the whole.
  lemma {:induction false} SubSkip(a: seq<Entry>, b: seq<Entry>)
    requires b != [] && Sub(a, b[1..])
    ensures Sub(a, b)
    decreases |b|, 0
  {
    if a != [] && a[0] == b[0] {
      SubDropHead(a, b[1..]);
    }
  }

  lemma SubDropBoth(a: seq<Entry>, b: seq<Entry>)
    requires Sub(a, b) && a != []
    ensures Sub(a[1..], b[1..])
  {
    if a[0] != b[0] {
      SubDropHead(a, b[1..]);
    }
  }

  lemma {:induction false} SubAppend(a: seq<Entry>, b: seq<Entry>, e: Entry)
    requires Sub(a, b)
    ensures Sub(a + [e], b + [e])
    decreases |b|
  {
    if b == [] {
      assert a + [e] == [e];
    } else if a == [] {
      SubAppend([], b[1..], e);
      assert (b + [e])[1..] == b[1..] + [e];
      assert [] + [e] == [e];
      SubSkip([e], b + [e]);
    } else {
      assert (a + [e])[1..] == a[1..] + [e];
      assert (b + [e])[1..] == b[1..] + [e];
      if a[0] == b[0] { SubAppend(a[1..], b[1..], e); } else { SubAppend(a, b[1..], e); }
    }
  }

  // Filtering both lists by the same test keeps the subsequence, and drops no more from the smaller.
  lemma {:induction false} SubWithout(a: seq<Entry>, b: seq<Entry>, key: string)
    requires Sub(a, b)
    ensures Sub(Without(a, key), Without(b, key))
    ensures |a| - |Without(a, key)| <= |b| - |Without(b, key)|
    decreases |b|
  {
    if a == [] {
    } else if a[0] == b[0] {
      SubWithout(a[1..], b[1..], key);
      if a[0].key != key {
        var x, y := Without(a[1..], key), Without(b[1..], key);
        assert ([a[0]] + x)[1..] == x && ([b[0]] + y)[1..] == y;
      }
    } else {
      SubWithout(a, b[1..], key);
      if b[0].key != key {
        var y := Without(b[1..], key);
        assert ([b[0]] + y)[1..] == y;
        SubSkip(Without(a, key), [b[0]] + y);
      }
    }
  }

  lemma {:induction false} SubLive(a: seq<Entry>, b: seq<Entry>, now: int)
    requires Sub(a, b)
    ensures Sub(Live(a, now), Live(b, now))
    ensures |a| - |Live(a, now)| <= |b| - |Live(b, now)|
    decreases |b|
  {
    if a == [] {
    } else if a[0] == b[0] {
      SubLive(a[1..], b[1..], now);
      if !Expired(a[0], now) {
        var x, y := Live(a[1..], now), Live(b[1..], now);
        assert ([a[0]] + x)[1..] == x && ([b[0]] + y)[1..] == y;
      }
    } else {
      SubLive(a, b[1..], now);
      if !Expired(b[0], now) {
        var y := Live(b[1..], now);
        assert ([b[0]] + y)[1..] == y;
        SubSkip(Live(a, now), [b[0]] + y);
      }
    }
  }

  lemma {:induction false} SubFacts(a: seq<Entry>, b: seq<Entry>)
    requires Sub(a, b)
    ensures |a| <= |b| && Memory(a) <= Memory(b)
    ensures forall e :: e in a ==> e in b
    decreases |b|
  {
    if a == [] {
    } else if a[0] == b[0] {
      SubFacts(a[1..], b[1..]);
      assert forall e :: e in a ==> e == a[0] || e in a[1..];
    } else {
      SubFacts(a, b[1..]);
    }
  }

  // Removing the entry of a key is filtering the key out, as keys are distinct.
  lemma {:induction false} RemoveIsWithout(order: seq<Entry>, key: string)
    requires DistinctKeys(order)
    ensures Without(order, key) == if Has(order, key) then RemoveAt(order, IndexOf(order, key)) else order
  {
    if order == [] {
    } else {
      var rest := order[1..];
      RemoveIsWithout(rest, key);
      if order[0].key == key {
        assert forall j :: 0 <= j < |rest| ==> rest[j] == order[j + 1];
        assert !Has(rest, key);
      } else if Has(order, key) {
        RemoveAtNext(order, IndexOf(rest, key));
      }
    }
  }

  lemma RemoveAtNext(order: seq<Entry>, i: nat)
    requires i + 1 < |order|
    ensures RemoveAt(order, i + 1) == [order[0]] + RemoveAt(order[1..], i)
  {
  }

  lemma SameEntry(a: seq<Entry>, b: seq<Entry>, key: string)
    requires Sub(a, b) && DistinctKeys(b) && Has(a, key)
    ensures Has(b, key) && b[IndexOf(b, key)] == a[IndexOf(a, key)]
  {
    SubFacts(a, b);
    var e := a[IndexOf(a, key)];
    assert e in b;
    var j :| 0 <= j < |b| && b[j] == e;
    assert IndexOf(b, key) <= j;
  }

  /** LRU throughout, and no eviction to make space: the picks are empty. */
  predicate Calm(ev: Event) {
    !ev.SetPolicy? && (ev.Set? ==> ev.choices == [] && ev.last.i == 0)
  }

  predicate Comparable(small: Config, large: Config) {
    && small.maxSize <= large.maxSize
    && small.enabled == large.enabled && small.ttl == large.ttl && small.maxMemory == large.maxMemory
  }

  /** The smaller list is a subsequence of the larger, and the smaller cache has no more free room. */
  predicate Included(small: Config, large: Config, s: Cache, l: Cache) {
    && Inv(small, s) && Inv(large, l)
    && s.policy == LRU && l.policy == LRU && s.clock == l.clock
    && Sub(s.order, l.order)
    && Cap(small) - |s.order| <= Cap(large) - |l.order|
  }

  function Trim(order: seq<Entry>, maxSize: int): seq<Entry> {
    if |order| > maxSize && order != [] then order[1..] else order
  }

  // When the larger list overflows, the smaller one is full too, so both drop their oldest entry.
  lemma TrimSub(small: Config, large: Config, a: seq<Entry>, b: seq<Entry>, e: Entry)
    requires Comparable(small, large) && Sub(a, b) && |a| <= Cap(small) && |b| <= Cap(large)
    requires Cap(small) - |a| <= Cap(large) - |b|
    ensures var a', b' := Trim(a + [e], small.maxSize), Trim(b + [e], large.maxSize);
            Sub(a', b') && Cap(small) - |a'| <= Cap(large) - |b'|
  {
    SubAppend(a, b, e);
    if |a + [e]| > small.maxSize {
      SubDropBoth(a + [e], b + [e]);
      SubDropHead(a + [e], b + [e]);
    }
  }

  // A calm Set, as a function of the list.
  lemma CalmOrder(cfg: Config, c: Cache, ev: Event)
    requires DistinctKeys(c.order) && c.policy == LRU && ev.Set? && cfg.enabled && Legal(cfg, c, ev)
    requires MakesSpace(cfg, c, SizeOf(ev.value), [])
    ensures Apply(cfg, c, ev).order == Trim(Without(c.order, ev.key) + [NewEntry(cfg, ev)], cfg.maxSize)
    ensures Apply(cfg, c, ev).policy == LRU && Apply(cfg, c, ev).clock == ev.last.now
  {
    assert AfterSpace(cfg, c, SizeOf(ev.value), []) == c;
    RemoveIsWithout(c.order, ev.key);
    var ins := Inserted(cfg, c, ev);
    assert ins.order == Without(c.order, ev.key) + [NewEntry(cfg, ev)];
    assert RemoveAt(ins.order, 0) == ins.order[1..];
  }

  lemma CalmSet(cfg: Config, c: Cache, ev: Event)
    requires Inv(cfg, c) && c.policy == LRU && ev.Set? && Calm(ev) && cfg.enabled
    requires c.clock <= ev.made <= ev.at <= ev.last.now
    requires MakesSpace(cfg, c, SizeOf(ev.value), [])
    ensures Legal(cfg, c, ev) && Inv(cfg, Apply(cfg, c, ev))
    ensures Apply(cfg, c, ev).order == Trim(Without(c.order, ev.key) + [NewEntry(cfg, ev)], cfg.maxSize)
    ensures Apply(cfg, c, ev).policy == LRU && Apply(cfg, c, ev).clock == ev.last.now
  {
    assert AfterSpace(cfg, c, SizeOf(ev.value), []) == c;
    SetKeepsInv(cfg, c, ev);
    CalmOrder(cfg, c, ev);
  }

  lemma NoPressure(cfg: Config, c: Cache, needed: nat)
    ensures MakesSpace(cfg, c, needed, []) <==> !More(cfg, c, needed)
  {
    assert AfterSpace(cfg, c, needed, []) == c;
  }

  lemma SetIncluded(small: Config, large: Config, s: Cache, l: Cache, ev: Event)
    requires Comparable(small, large) && Included(small, large, s, l) && small.enabled
    requires ev.Set? && Calm(ev) && Legal(large, l, ev)
    ensures Legal(small, s, ev)
    ensures Included(small, large, Apply(small, s, ev), Apply(large, l, ev))
  {
    SubFacts(s.order, l.order);
    NoPressure(large, l, SizeOf(ev.value));
    NoPressure(small, s, SizeOf(ev.value));
    CalmSet(large, l, ev);
    CalmSet(small, s, ev);
    SubWithout(s.order, l.order, ev.key);
    TrimSub(small, large, Without(s.order, ev.key), Without(l.order, ev.key), NewEntry(small, ev));
  }

  function Touched(e: Entry, now: int): Entry {
    e.(access := now, hits := e.hits + 1)
  }

  // A Get, as a function of the list.
  lemma GetOrder(cfg: Config, c: Cache, key: string, now: int, at: int)
    requires Inv(cfg, c) && c.clock <= now <= at && cfg.enabled
    ensures var c' := Apply(cfg, c, Get(key, now, at));
            && Inv(cfg, c') && c'.policy == c.policy && c'.clock == at
            && c'.order == Without(c.order, key)
               + (if GetHits(cfg, c, key, now) then [Touched(c.order[IndexOf(c.order, key)], at)] else [])
    ensures !Has(c.order, key) ==> Without(c.order, key) == c.order
  {
    StepKeepsInv(cfg, c, Get(key, now, at));
    RemoveIsWithout(c.order, key);
    var rest := Without(c.order, key);
    if !Has(c.order, key) {
      assert rest + [] == rest;
    } else if GetHits(cfg, c, key, now) {
      assert Touch(c, IndexOf(c.order, key), at).order == rest + [Touched(c.order[IndexOf(c.order, key)], at)];
    } else {
      assert rest + [] == rest;
      assert RemoveKey(c, key).order == rest;
    }
  }

  lemma GetIncluded(small: Config, large: Config, s: Cache, l: Cache, key: string, now: int, at: int)
    requires Comparable(small, large) && Included(small, large, s, l) && l.clock <= now <= at && small.enabled
    ensures Included(small, large, Apply(small, s, Get(key, now, at)), Apply(large, l, Get(key, now, at)))
  {
    GetOrder(small, s, key, now, at);
    GetOrder(large, l, key, now, at);
    SubWithout(s.order, l.order, key);
    var a, b := Without(s.order, key), Without(l.order, key);
    assert a + [] == a && b + [] == b;
    if Has(s.order, key) {
      SameEntry(s.order, l.order, key);
      SubAppend(a, b, Touched(s.order[IndexOf(s.order, key)], at));
    } else if GetHits(large, l, key, now) {
      HasShorter(l.order, key);
      SubExtend(a, b, Touched(l.order[IndexOf(l.order, key)], at));
    }
  }

  lemma HasShorter(order: seq<Entry>, key: string)
    requires DistinctKeys(order) && Has(order, key)
    ensures |Without(order, key)| == |order| - 1
  {
    RemoveIsWithout(order, key);
  }

  lemma {:induction false} SubExtend(a: seq<Entry>, b: seq<Entry>, e: Entry)
    requires Sub(a, b)
    ensures Sub(a, b + [e])
    decreases |b|
  {
    if a == [] {
    } else {
      assert (b + [e])[1..] == b[1..] + [e];
      if a[0] == b[0] { SubExtend(a[1..], b[1..], e); } else { SubExtend(a, b[1..], e); }
    }
  }

  lemma StepIncluded(small: Config, large: Config, s: Cache, l: Cache, ev: Event)
    requires Comparable(small, large) && Included(small, large, s, l)
    requires Calm(ev) && Legal(large, l, ev)
    ensures Legal(small, s, ev)
    ensures Included(small, large, Apply(small, s, ev), Apply(large, l, ev))
  {
    match ev
    case Get(key, now, at) => if small.enabled { GetIncluded(small, large, s, l, key, now, at); }
    case Set(_, _, _, _, _, _, _) => if small.enabled { SetIncluded(small, large, s, l, ev); }
    case Delete(key) =>
      StepKeepsInv(small, s, ev);
      StepKeepsInv(large, l, ev);
      RemoveIsWithout(s.order, key);
      RemoveIsWithout(l.order, key);
      SubWithout(s.order, l.order, key);
    case Cleanup(now) =>
      StepKeepsInv(small, s, ev);
      StepKeepsInv(large, l, ev);
      SubLive(s.order, l.order, now);
    case Clear =>
  }

  lemma {:induction false} RunIncluded(small: Config, large: Config, start: int, evs: seq<Event>)
    requires Comparable(small, large) && IsRun(large, start, evs)
    requires forall i :: 0 <= i < |evs| ==> Calm(evs[i])
    ensures IsRun(small, start, evs)
    ensures Included(small, large, After(small, start, evs), After(large, start, evs))
    decreases |evs|
  {
    if evs == [] {
    } else {
      RunIncluded(small, large, start, Front(evs));
      StepIncluded(small, large, After(small, start, Front(evs)), After(large, start, Front(evs)), Last(evs));
    }
  }

  /** LRU inclusion over any run of Get, Set, Delete, Clear and cleanup that puts no memory pressure on
      the larger cache: the smaller one needs no other picks, its recency list is a subsequence, and
      every hit in it is a hit in the larger one, with the same value. */
  lemma LruInclusionHolds(small: Config, large: Config, start: int, evs: seq<Event>, key: string, now: int)
    requires Comparable(small, large) && IsRun(large, start, evs)
    requires forall i :: 0 <= i < |evs| ==> Calm(evs[i])
    ensures IsRun(small, start, evs)
    ensures Sub(After(small, start, evs).order, After(large, start, evs).order)
    ensures GetHits(small, After(small, start, evs), key, now) ==>
              && GetHits(large, After(large, start, evs), key, now)
              && GetResult(small, After(small, start, evs), key, now)
                  == GetResult(large, After(large, start, evs), key, now)
  {
    RunIncluded(small, large, start, evs);
    var s, l := After(small, start, evs), After(large, start, evs);
    if Has(s.order, key) { SameEntry(s.order, l.order, key); }
  }
}
