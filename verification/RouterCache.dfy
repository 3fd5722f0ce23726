/** RouterCache: a map of entry objects, their recency list, a memory total and counters, updated in place. */
module RouterCaches {
  import opened Sums
  import opened CacheModel

  class CacheEntry {
    const key: string
    const value: Value
    const expireTime: int
    const size: nat
    var accessTime: int
    var hitCount: nat

    constructor (key: string, value: Value, expireTime: int, now: int, size: nat)
      ensures Snapshot() == Entry(key, value, expireTime, now, 0, size)
    {
      this.key, this.value, this.expireTime, this.size := key, value, expireTime, size;
      accessTime, hitCount := now, 0;
    }

    ghost function Snapshot(): Entry
      reads this
    {
      Entry(key, value, expireTime, accessTime, hitCount, size)
    }
  }

  ghost function Snap(es: seq<CacheEntry>): seq<Entry>
    reads es
  {
    seq(|es|, i requires 0 <= i < |es| reads es => es[i].Snapshot())
  }

  /** The map and the list hold the same entries, each once, under their own keys. */
  ghost predicate Indexes(entries: map<string, CacheEntry>, order: seq<CacheEntry>) {
    && (forall i :: 0 <= i < |order| ==> order[i].key in entries && entries[order[i].key] == order[i])
    && (forall k :: k in entries ==> entries[k].key == k && entries[k] in order)
    && (forall i, j :: 0 <= i < j < |order| ==> order[i] != order[j])
  }

  lemma IndexDrop(entries: map<string, CacheEntry>, order: seq<CacheEntry>, i: nat)
    requires Indexes(entries, order) && i < |order|
    ensures Indexes(entries - {order[i].key}, RemoveAt(order, i))
    ensures order[i] !in order[..i] && forall e :: e in RemoveAt(order, i) ==> e in order
  {
    var m, s := entries - {order[i].key}, RemoveAt(order, i);
    forall k | k in m ensures m[k].key == k && m[k] in s {
      var j :| 0 <= j < |order| && order[j] == entries[k];
      assert j != i;
      assert s[if j < i then j else j - 1] == entries[k];
    }
    forall j | 0 <= j < |s| ensures s[j].key in m && m[s[j].key] == s[j] {
      assert s[j] == order[if j < i then j else j + 1];
    }
  }

  lemma IndexAdd(entries: map<string, CacheEntry>, order: seq<CacheEntry>, e: CacheEntry)
    requires Indexes(entries, order) && e.key !in entries
    ensures Indexes(entries[e.key := e], order + [e])
  {
    var m, s := entries[e.key := e], order + [e];
    assert s[|order|] == e;
    forall k | k in m ensures m[k].key == k && m[k] in s {
      if k != e.key { assert entries[k] in order; }
    }
    forall j | 0 <= j < |order| ensures order[j] != e { assert order[j].key in entries; }
  }

  lemma IndexMove(entries: map<string, CacheEntry>, order: seq<CacheEntry>, i: nat)
    requires Indexes(entries, order) && i < |order|
    ensures Indexes(entries, RemoveAt(order, i) + [order[i]])
  {
    var e := order[i];
    IndexDrop(entries, order, i);
    IndexAdd(entries - {e.key}, RemoveAt(order, i), e);
    assert (entries - {e.key})[e.key := e] == entries;
  }

  lemma IndexSize(entries: map<string, CacheEntry>, order: seq<CacheEntry>)
    requires Indexes(entries, order)
    ensures |entries| == |order|
  {
    var keys := seq(|order|, i requires 0 <= i < |order| => order[i].key);
    DistinctCount(keys);
    forall k | k in entries ensures k in keys {
      var i :| 0 <= i < |order| && order[i] == entries[k];
      assert keys[i] == k;
    }
    assert entries.Keys == set k | k in keys;
  }

  lemma NotRemaining(order: seq<CacheEntry>, i: nat)
    requires i < |order| && forall j, k :: 0 <= j < k < |order| ==> order[j] != order[k]
    ensures order[i] !in RemoveAt(order, i)
  {
    var s := RemoveAt(order, i);
    forall j | 0 <= j < |s| ensures s[j] != order[i] {
      assert s[j] == order[if j < i then j else j + 1];
    }
  }

  lemma SnapRemove(order: seq<CacheEntry>, i: nat)
    requires i < |order|
    ensures Snap(RemoveAt(order, i)) == RemoveAt(Snap(order), i)
  {
  }

  lemma SnapAdd(order: seq<CacheEntry>, e: CacheEntry)
    ensures Snap(order + [e]) == Snap(order) + [e.Snapshot()]
  {
  }

  /** Readings of the clock, one after the other. */
  ghost predicate Forward(readings: nat -> int) {
    forall i, j :: 0 <= i <= j ==> readings(i) <= readings(j)
  }

  /** Every eviction, the expiry and the stamp use the next reading. */
  ghost predicate TimedBy(ev: Event, readings: nat -> int)
    requires ev.Set?
  {
    var n := |ev.choices|;
    && (forall k :: 0 <= k < n ==> ev.choices[k].now == readings(k))
    && ev.made == readings(if ev.ttl == 0 then n + 1 else n) && ev.at == readings(n + 2)
    && ev.last.now == readings(n + 3)
  }

  class RouterCache {
    const cfg: Config
    var entries: map<string, CacheEntry>
    var accessOrder: seq<CacheEntry>
    var currentMemory: int
    var hits: nat
    var misses: nat
    var evictions: nat
    var evictionPolicy: Policy
    ghost var clock: int  // the latest time seen

    ghost function View(): Cache
      reads this, accessOrder
    {
      Cache(Snap(accessOrder), currentMemory, hits, misses, evictions, evictionPolicy, clock)
    }

    ghost predicate Indexed()
      reads this
    {
      Indexes(entries, accessOrder)
    }

    ghost predicate Valid()
      reads this, accessOrder
    {
      Indexed() && Inv(cfg, View())
    }

    constructor (cfg: Config, ghost start: int)
      ensures Valid() && View() == EMPTY.(clock := start) && this.cfg == cfg
    {
      this.cfg := cfg;
      entries, accessOrder := map[], [];
      currentMemory, hits, misses, evictions := 0, 0, 0, 0;
      evictionPolicy, clock := LRU, start;
    }

    lemma Position(key: string)
      requires Indexed()
      ensures key in entries <==> Has(View().order, key)
      ensures key in entries ==> accessOrder[IndexOf(View().order, key)] == entries[key]
    {
      if key in entries {
        var i :| 0 <= i < |accessOrder| && accessOrder[i] == entries[key];
        assert View().order[i].key == key;
        assert IndexOf(View().order, key) <= i;
        var j := IndexOf(View().order, key);
        assert View().order[j].key == accessOrder[j].key;
      } else {
        forall i | 0 <= i < |View().order| ensures View().order[i].key != key {
          assert accessOrder[i].key in entries;
        }
      }
    }

    /** Removes the entry if it is listed; scans for it by identity. */
    method RemoveFromAccessOrder(entry: CacheEntry, ghost at: nat)
      requires at < |accessOrder| ==> accessOrder[at] == entry && entry !in accessOrder[..at]
      requires at >= |accessOrder| ==> entry !in accessOrder
      modifies this`accessOrder
      ensures accessOrder == if at < |old(accessOrder)| then RemoveAt(old(accessOrder), at) else old(accessOrder)
    {
      for i := 0 to |accessOrder|
        invariant accessOrder == old(accessOrder) && entry !in accessOrder[..i]
      {
        if accessOrder[i] == entry {
          accessOrder := accessOrder[..i] + accessOrder[i + 1..];
          break;
        }
      }
    }

    method RemoveEntry(key: string)
      requires Indexed()
      modifies this`entries, this`accessOrder, this`currentMemory, this`evictions
      ensures Indexed() && View() == RemoveKey(old(View()), key) && entries == old(entries) - {key}
      ensures forall e :: e in accessOrder ==> e in old(accessOrder)
    {
      Position(key);
      if key !in entries { return; }
      var entry := entries[key];
      ghost var i := IndexOf(View().order, key);
      IndexDrop(entries, accessOrder, i);
      SnapRemove(accessOrder, i);
      entries := entries - {key};
      RemoveFromAccessOrder(entry, i);
      currentMemory := currentMemory - entry.size;
      evictions := evictions + 1;
    }

    method EvictLRU() returns (ghost i: nat)
      requires Indexed() && accessOrder != []
      modifies this`entries, this`accessOrder, this`currentMemory, this`evictions
      ensures Indexed() && i == 0 && View() == CacheModel.RemoveEntry(old(View()), 0)
      ensures forall e :: e in accessOrder ==> e in old(accessOrder)
    {
      var oldest := accessOrder[0];
      Position(oldest.key);
      assert IndexOf(View().order, oldest.key) == 0;
      i := 0;
      RemoveEntry(oldest.key);
    }

    /** Scans the map, in no particular order, for the fewest hits. */
    method EvictLFU() returns (ghost i: nat)
      requires Indexed() && accessOrder != []
      modifies this`entries, this`accessOrder, this`currentMemory, this`evictions
      ensures Indexed() && i < |old(View()).order| && View() == CacheModel.RemoveEntry(old(View()), i)
      ensures forall j :: 0 <= j < |old(View()).order| ==> old(View()).order[i].hits <= old(View()).order[j].hits
      ensures forall e :: e in accessOrder ==> e in old(accessOrder)
    {
      var minHitCount, leastUsedKey := -1, "";
      var toVisit := entries.Keys;
      while toVisit != {}
        invariant toVisit <= entries.Keys && minHitCount >= -1
        invariant minHitCount == -1 <==> toVisit == entries.Keys
        invariant minHitCount >= 0 ==> leastUsedKey in entries && entries[leastUsedKey].hitCount == minHitCount
        invariant forall k :: k in entries && k !in toVisit ==> minHitCount <= entries[k].hitCount
        decreases toVisit
      {
        var key :| key in toVisit;
        toVisit := toVisit - {key};
        if minHitCount == -1 || entries[key].hitCount < minHitCount {
          minHitCount, leastUsedKey := entries[key].hitCount, key;
        }
      }
      assert accessOrder[0].key in entries;
      Position(leastUsedKey);
      i := IndexOf(View().order, leastUsedKey);
      forall j | 0 <= j < |View().order| ensures View().order[i].hits <= View().order[j].hits {
        assert accessOrder[j].key in entries && View().order[j].hits == accessOrder[j].hitCount;
      }
      RemoveEntry(leastUsedKey);
    }

    /** Evicts some expired entry, or the least recently used one if none has expired. */
    method EvictExpired(now: int) returns (ghost i: nat)
      requires Indexed() && accessOrder != []
      modifies this`entries, this`accessOrder, this`currentMemory, this`evictions
      ensures Indexed() && i < |old(View()).order| && View() == CacheModel.RemoveEntry(old(View()), i)
      ensures Expired(old(View()).order[i], now)
              || (i == 0 && forall j :: 0 <= j < |old(View()).order| ==> !Expired(old(View()).order[j], now))
      ensures forall e :: e in accessOrder ==> e in old(accessOrder)
    {
      var toVisit := entries.Keys;
      while toVisit != {}
        invariant toVisit <= entries.Keys && Indexed() && View() == old(View()) && accessOrder == old(accessOrder)
        invariant forall k :: k in entries && k !in toVisit ==> now <= entries[k].expireTime
        decreases toVisit
      {
        var key :| key in toVisit;
        toVisit := toVisit - {key};
        if now > entries[key].expireTime {
          Position(key);
          i := IndexOf(View().order, key);
          RemoveEntry(key);
          return;
        }
      }
      forall j | 0 <= j < |View().order| ensures !Expired(View().order[j], now) {
        assert accessOrder[j].key in entries && View().order[j].expire == accessOrder[j].expireTime;
      }
      i := EvictLRU();
    }

    method EvictOldest(now: int) returns (ghost i: nat)
      requires Indexed() && accessOrder != []
      modifies this`entries, this`accessOrder, this`currentMemory, this`evictions, this`clock
      ensures Indexed() && Evictable(old(View()), now, i) && View() == Evict(old(View()), Pick(i, now))
      ensures forall e :: e in accessOrder ==> e in old(accessOrder)
    {
      match evictionPolicy {
        case LRU => i := EvictLRU();
        case LFU => i := EvictLFU();
        case TTL => i := EvictExpired(now);
        case FIFO => i := EvictLRU();
      }
      SeeTime(now);
    }

    ghost method SeeTime(now: int)
      modifies this`clock
      ensures View() == old(View()).(clock := now)
    {
      clock := now;
      assert View().order == old(View()).order;
    }

    method EvictNext(needed: nat, now: int, ghost start: Cache, ghost choices: seq<Pick>) returns (ghost p: Pick)
      requires Indexed() && accessOrder != [] && now >= clock
      requires Evicts(cfg, start, needed, choices) && View() == AfterSpace(cfg, start, needed, choices)
      requires currentMemory + needed > cfg.maxMemory
      modifies this`entries, this`accessOrder, this`currentMemory, this`evictions, this`clock
      ensures Indexed() && p.now == now == clock && |accessOrder| == |old(accessOrder)| - 1
      ensures Evicts(cfg, start, needed, choices + [p]) && View() == AfterSpace(cfg, start, needed, choices + [p])
      ensures forall e :: e in accessOrder ==> e in old(accessOrder)
    {
      ghost var before := View();
      ghost var i := EvictOldest(now);
      p := Pick(i, now);
      EvictsOneMore(cfg, start, needed, choices, p);
      assert |View().order| == |accessOrder| && |before.order| == |View().order| + 1;
    }

    /** Terminates because every turn removes an entry of both the map and the list. */
    method EvictToMakeSpace(needed: nat, readings: nat -> int) returns (taken: nat, ghost choices: seq<Pick>)
      requires Indexed() && Forward(readings) && readings(0) >= clock
      modifies this`entries, this`accessOrder, this`currentMemory, this`evictions, this`clock
      ensures Indexed() && MakesSpace(cfg, old(View()), needed, choices) && taken == |choices|
      ensures View() == AfterSpace(cfg, old(View()), needed, choices) && clock <= readings(taken)
      ensures forall k :: 0 <= k < taken ==> choices[k].now == readings(k)
      ensures forall e :: e in accessOrder ==> e in old(accessOrder)
    {
      taken, choices := 0, [];
      IndexSize(entries, accessOrder);
      while currentMemory + needed > cfg.maxMemory && |entries| > 0
        invariant Indexed() && |entries| == |accessOrder| && taken == |choices| && clock <= readings(taken)
        invariant Evicts(cfg, old(View()), needed, choices)
        invariant View() == AfterSpace(cfg, old(View()), needed, choices)
        invariant forall k :: 0 <= k < taken ==> choices[k].now == readings(k)
        invariant forall e :: e in accessOrder ==> e in old(accessOrder)
        decreases |accessOrder|
      {
        ghost var p := EvictNext(needed, readings(taken), old(View()), choices);
        choices := choices + [p];
        taken := taken + 1;
        IndexSize(entries, accessOrder);
      }
    }

    /** `now` is read for the expiry and `at` for the stamp of a hit. */
    method Get(key: string, now: int, at: int) returns (r: Option<Value>)
      requires Valid() && clock <= now <= at
      modifies this, accessOrder
      ensures Valid() && r == GetResult(cfg, old(View()), key, now)
      ensures View() == Apply(cfg, old(View()), Event.Get(key, now, at))
    {
      StepKeepsInv(cfg, View(), Event.Get(key, now, at));
      if !cfg.enabled { return None; }
      r := Find(key, now, at);
    }

    method Find(key: string, now: int, at: int) returns (r: Option<Value>)
      requires Indexed() && cfg.enabled && clock <= now <= at
      modifies this, accessOrder
      ensures Indexed() && r == GetResult(cfg, old(View()), key, now)
      ensures View() == Apply(cfg, old(View()), Event.Get(key, now, at))
    {
      Position(key);
      if key !in entries {
        misses, clock := misses + 1, at;
        assert View().order == old(View()).order;
        return None;
      }
      var entry := entries[key];
      if now > entry.expireTime {
        DropStale(key);
        clock := at;
        assert View().order == RemoveKey(old(View()), key).order;
        return None;
      }
      RecordHit(entry, at);
      clock := at;
      assert View().order == Touch(old(View()), IndexOf(old(View()).order, key), at).order;
      r := Some(entry.value);
    }

    method DropStale(key: string)
      requires Indexed()
      modifies this`entries, this`accessOrder, this`currentMemory, this`evictions, this`misses
      ensures Indexed() && View() == RemoveKey(old(View()), key).(misses := old(misses) + 1)
    {
      RemoveEntry(key);
      misses := misses + 1;
      assert View().order == RemoveKey(old(View()), key).order;
    }

    method Stamp(entry: CacheEntry, now: int, ghost others: seq<CacheEntry>)
      requires entry !in others
      modifies this`hits, entry
      ensures hits == old(hits) + 1 && Snap(others) == old(Snap(others))
      ensures entry.Snapshot() == old(entry.Snapshot()).(access := now, hits := old(entry.hitCount) + 1)
    {
      entry.accessTime := now;
      entry.hitCount := entry.hitCount + 1;
      hits := hits + 1;
    }

    method RecordHit(entry: CacheEntry, now: int)
      requires Indexed() && entry.key in entries && entries[entry.key] == entry
      modifies this`accessOrder, this`hits, entry
      ensures Indexed() && Has(old(View()).order, entry.key)
      ensures View() == Touch(old(View()), IndexOf(old(View()).order, entry.key), now)
    {
      Position(entry.key);
      ghost var i := IndexOf(View().order, entry.key);
      ghost var others := RemoveAt(accessOrder, i);
      NotRemaining(accessOrder, i);
      SnapRemove(accessOrder, i);
      Stamp(entry, now, others);
      UpdateAccessOrder(entry, i);
      SnapAdd(others, entry);
    }

    /** Moves a listed entry to the end. */
    method UpdateAccessOrder(entry: CacheEntry, ghost i: nat)
      requires Indexed() && i < |accessOrder| && accessOrder[i] == entry
      modifies this`accessOrder
      ensures Indexed() && accessOrder == RemoveAt(old(accessOrder), i) + [entry]
    {
      IndexDrop(entries, accessOrder, i);
      IndexMove(entries, accessOrder, i);
      RemoveFromAccessOrder(entry, i);
      accessOrder := accessOrder + [entry];
    }

    /** The clock is read anew for every eviction, for the expiry, again when the time to live is the default, and for
        the stamp. The event says what was picked for eviction on the way. */
    method Set(key: string, value: Value, ttl: int, readings: nat -> int) returns (ghost ev: Event)
      requires Valid() && Forward(readings) && readings(0) >= clock
      modifies this, accessOrder
      ensures Valid() && ev.Set? && ev.key == key && ev.value == value && ev.ttl == ttl && TimedBy(ev, readings)
      ensures Legal(cfg, old(View()), ev) && View() == Apply(cfg, old(View()), ev)
    {
      if !cfg.enabled {
        var made := readings(if ttl == 0 then 1 else 0);
        return Event.Set(key, value, ttl, [], made, readings(2), Pick(0, readings(3)));
      }
      var taken;
      ghost var choices;
      taken, choices := MakeSpace(SizeOf(value), readings);
      var made := readings(taken);
      if ttl == 0 { made := readings(taken + 1); }
      ev := SetInRoom(key, value, ttl, made, readings(taken + 2), readings(taken + 3), old(View()), choices);
    }

    method SetInRoom(key: string, value: Value, ttl: int, made: int, at: int, end: int, ghost start: Cache,
        ghost choices: seq<Pick>)
      returns (ghost ev: Event)
      requires Indexed() && cfg.enabled && Inv(cfg, start) && clock <= made <= at <= end
      requires MakesSpace(cfg, start, SizeOf(value), choices)
      requires View() == AfterSpace(cfg, start, SizeOf(value), choices)
      modifies this`entries, this`accessOrder, this`currentMemory, this`evictions, this`clock
      ensures Valid() && ev.Set? && ev == Event.Set(key, value, ttl, choices, made, at, ev.last)
      ensures ev.last.now == end
      ensures Legal(cfg, start, ev) && View() == Apply(cfg, start, ev)
    {
      ghost var room := View();
      ghost var i, placed;
      i, placed := Place(key, value, made + (if ttl == 0 then cfg.ttl else ttl), at, end, SizeOf(value));
      ev := Event.Set(key, value, ttl, choices, made, at, Pick(i, end));
      SetInSteps(cfg, start, ev, room, placed, View());
    }

    method Place(key: string, value: Value, expireTime: int, at: int, end: int, entrySize: nat)
      returns (ghost i: nat, ghost placed: Cache)
      requires Indexed()
      modifies this`entries, this`accessOrder, this`currentMemory, this`evictions, this`clock
      ensures Indexed() && (Overfull(cfg, placed) ==> Evictable(placed, end, i))
      ensures placed
              == Insert(Displace(old(View()), key), Entry(key, value, expireTime, at, 0, entrySize)).(clock := at)
      ensures View() == if Overfull(cfg, placed) then Evict(placed, Pick(i, end)) else placed.(clock := end)
    {
      Replace(key, value, expireTime, at, entrySize);
      placed := View();
      i := Trim(end);
    }

    /** Evicts one more if there are too many entries. */
    method Trim(now: int) returns (ghost i: nat)
      requires Indexed() && (Overfull(cfg, View()) ==> accessOrder != [])
      modifies this`entries, this`accessOrder, this`currentMemory, this`evictions, this`clock
      ensures Indexed() && (Overfull(cfg, old(View())) ==> Evictable(old(View()), now, i))
      ensures View() == if Overfull(cfg, old(View())) then Evict(old(View()), Pick(i, now))
                        else old(View()).(clock := now)
      ensures forall e :: e in accessOrder ==> e in old(accessOrder)
    {
      i := 0;
      IndexSize(entries, accessOrder);
      if |entries| > cfg.maxSize {
        i := EvictOldest(now);
      } else {
        SeeTime(now);
      }
    }

    method MakeSpace(entrySize: nat, readings: nat -> int) returns (taken: nat, ghost choices: seq<Pick>)
      requires Indexed() && Forward(readings) && readings(0) >= clock
      modifies this`entries, this`accessOrder, this`currentMemory, this`evictions, this`clock
      ensures Indexed() && MakesSpace(cfg, old(View()), entrySize, choices) && taken == |choices|
      ensures View() == AfterSpace(cfg, old(View()), entrySize, choices) && clock <= readings(taken)
      ensures forall k :: 0 <= k < taken ==> choices[k].now == readings(k)
      ensures forall e :: e in accessOrder ==> e in old(accessOrder)
    {
      taken, choices := 0, [];
      if currentMemory + entrySize > cfg.maxMemory {
        taken, choices := EvictToMakeSpace(entrySize, readings);
      }
    }

    /** Drops an existing entry of the key and inserts the new one at the end. */
    method Replace(key: string, value: Value, expireTime: int, at: int, entrySize: nat)
      requires Indexed()
      modifies this`entries, this`accessOrder, this`currentMemory, this`clock
      ensures Indexed()
      ensures View()
              == Insert(Displace(old(View()), key), Entry(key, value, expireTime, at, 0, entrySize)).(clock := at)
    {
      DropExisting(key);
      Append(key, value, expireTime, at, entrySize);
      SeeTime(at);
    }

    /** An existing entry of the key leaves the list and the total, but is not counted as evicted. */
    method DropExisting(key: string)
      requires Indexed()
      modifies this`entries, this`accessOrder, this`currentMemory
      ensures Indexed() && View() == Displace(old(View()), key) && key !in entries
      ensures forall e :: e in accessOrder ==> e in old(accessOrder)
    {
      Position(key);
      if key in entries {
        var existing := entries[key];
        ghost var i := IndexOf(View().order, key);
        IndexDrop(entries, accessOrder, i);
        SnapRemove(accessOrder, i);
        assert existing.key == key;
        currentMemory := currentMemory - existing.size;
        RemoveFromAccessOrder(existing, i);
        entries := entries - {key};
      }
    }

    method Append(key: string, value: Value, expireTime: int, now: int, size: nat)
      requires Indexed() && key !in entries
      modifies this`entries, this`accessOrder, this`currentMemory
      ensures Indexed() && View() == Insert(old(View()), Entry(key, value, expireTime, now, 0, size))
    {
      var entry := new CacheEntry(key, value, expireTime, now, size);
      IndexAdd(entries, accessOrder, entry);
      SnapAdd(accessOrder, entry);
      entries := entries[key := entry];
      accessOrder := accessOrder + [entry];
      currentMemory := currentMemory + size;
    }

    method Delete(key: string)
      requires Valid()
      modifies this, accessOrder
      ensures Valid() && View() == Apply(cfg, old(View()), Event.Delete(key))
    {
      StepKeepsInv(cfg, View(), Event.Delete(key));
      RemoveEntry(key);
    }

    method Clear()
      requires Valid()
      modifies this
      ensures Valid() && View() == Apply(cfg, old(View()), Event.Clear)
    {
      StepKeepsInv(cfg, View(), Event.Clear);
      entries, accessOrder := map[], [];
      currentMemory, hits, misses, evictions := 0, 0, 0, 0;
      assert View().order == [];
    }

    method SetEvictionPolicy(policy: Policy)
      requires Valid()
      modifies this
      ensures Valid() && View() == Apply(cfg, old(View()), Event.SetPolicy(policy))
    {
      StepKeepsInv(cfg, View(), Event.SetPolicy(policy));
      evictionPolicy := policy;
      assert View().order == old(View()).order;
    }

    method RemoveExpired(key: string, now: int)
      requires Indexed() && Core(View()) && key in entries && now > entries[key].expireTime
      modifies this`entries, this`accessOrder, this`currentMemory, this`evictions
      ensures Indexed() && Core(View()) && Live(View().order, now) == old(Live(View().order, now))
      ensures entries == old(entries) - {key} && evictions + |accessOrder| == old(evictions) + |old(accessOrder)|
    {
      Position(key);
      ghost var i := IndexOf(View().order, key);
      LiveRemove(View().order, i, now);
      RemoveKeepsCore(View(), i);
      RemoveEntry(key);
      assert |View().order| == |accessOrder|;
    }

    /** Collects the expired keys, then removes them one by one. */
    method RemoveAllExpired(now: int)
      requires Indexed() && Core(View())
      modifies this`entries, this`accessOrder, this`currentMemory, this`evictions
      ensures Indexed() && Core(View()) && View().order == old(Live(View().order, now))
      ensures evictions + |accessOrder| == old(evictions) + |old(accessOrder)|
    {
      var expired := set k | k in entries && now > entries[k].expireTime;
      ghost var live := Live(View().order, now);
      while expired != {}
        invariant Indexed() && Core(View())
        invariant expired == set k | k in entries && now > entries[k].expireTime
        invariant Live(View().order, now) == live
        invariant evictions + |accessOrder| == old(evictions) + |old(accessOrder)|
        decreases expired
      {
        var key :| key in expired;
        RemoveExpired(key, now);
        expired := expired - {key};
      }
      assert forall k :: k in entries ==> k !in expired;
      NoneExpired(now);
    }

    lemma NoneExpired(now: int)
      requires Indexed() && forall k :: k in entries ==> now <= entries[k].expireTime
      ensures Live(View().order, now) == View().order
    {
      forall j | 0 <= j < |View().order| ensures !Expired(View().order[j], now) {
        assert accessOrder[j].key in entries && View().order[j].expire == accessOrder[j].expireTime;
      }
      LiveAll(View().order, now);
    }

    method Cleanup(now: int)
      requires Valid() && now >= clock
      modifies this, accessOrder
      ensures Valid() && View() == Apply(cfg, old(View()), Event.Cleanup(now))
    {
      StepKeepsInv(cfg, View(), Event.Cleanup(now));
      RemoveAllExpired(now);
      clock := now;
      assert |View().order| == |accessOrder| && |old(View()).order| == |old(accessOrder)|;
    }
  }

  lemma {:induction false} DistinctCount(s: seq<string>)
    requires forall i, j :: 0 <= i < j < |s| ==> s[i] != s[j]
    ensures |set x | x in s| == |s|
  {
    if s == [] {
    } else {
      DistinctCount(s[1..]);
      assert (set x | x in s) == {s[0]} + (set x | x in s[1..]);
    }
  }
}
