/**
 What RouterCache computes, as functions on values: one entry list in access order, the memory
 total and the counters. Where the code picks among map entries in no particular order, the
 event carries the index that was picked, and `Legal` says which picks the policy allows. Each reading of the clock
 within an operation is a time of its own.
 */
module CacheModel {
  import opened Sums

  datatype Value = Text(s: string) | Bytes(b: seq<int>) | Number(n: int) | Flag(f: bool) | Other(id: int)

  function SizeOf(v: Value): nat {
    match v
    case Text(s) => |s|
    case Bytes(b) => |b|
    case Number(_) => 8
    case Flag(_) => 1
    case Other(_) => 256
  }

  datatype Entry = Entry(key: string, value: Value, expire: int, access: int, hits: nat, size: nat)

  datatype Policy = LRU | LFU | TTL | FIFO

  datatype Config = Config(enabled: bool, maxSize: int, ttl: int, maxMemory: nat)

  datatype Cache = Cache(
    order: seq<Entry>, memory: int, hits: nat, misses: nat, evictions: nat, policy: Policy, clock: int)

  const EMPTY := Cache([], 0, 0, 0, 0, LRU, 0)

  /** Which entry is evicted, and the time when it was looked for. */
  datatype Pick = Pick(i: nat, now: int)

  /** Get looks at the expiry at `now` and stamps a hit at `at`; Set evicts `choices` to make space, counts the expiry
      from `made`, stamps the entry at `at`, and evicts `last` if there are then too many. */
  datatype Event =
    | Get(key: string, now: int, at: int)
    | Set(key: string, value: Value, ttl: int, choices: seq<Pick>, made: int, at: int, last: Pick)
    | Delete(key: string)
    | Clear
    | Cleanup(now: int)
    | SetPolicy(policy: Policy)

  predicate Expired(e: Entry, now: int) { now > e.expire }

  /** The index of the entry of `key`, or the length of the list. */
  function IndexOf(order: seq<Entry>, key: string): (i: nat)
    ensures i <= |order|
    ensures i < |order| ==> order[i].key == key
    ensures forall j :: 0 <= j < i ==> order[j].key != key
  {
    if order == [] || order[0].key == key then 0 else 1 + IndexOf(order[1..], key)
  }

  predicate Has(order: seq<Entry>, key: string) {
    IndexOf(order, key) < |order|
  }

  function RemoveAt<T>(s: seq<T>, i: nat): (r: seq<T>)
    requires i < |s|
    ensures |r| == |s| - 1
  {
    s[..i] + s[i + 1..]
  }

  function Memory(order: seq<Entry>): nat {
    if order == [] then 0 else order[0].size + Memory(order[1..])
  }

  /** removeEntry of the entry at index i: it counts as an eviction whatever the reason. */
  function RemoveEntry(c: Cache, i: nat): Cache
    requires i < |c.order|
  {
    c.(order := RemoveAt(c.order, i), memory := c.memory - c.order[i].size, evictions := c.evictions + 1)
  }

  function RemoveKey(c: Cache, key: string): Cache {
    if Has(c.order, key) then RemoveEntry(c, IndexOf(c.order, key)) else c
  }

  /** The entries that evictOldest may pick under a policy. */
  predicate Evictable(c: Cache, now: int, i: nat) {
    && i < |c.order|
    && match c.policy
       case LFU => forall j :: 0 <= j < |c.order| ==> c.order[i].hits <= c.order[j].hits
       case TTL => Expired(c.order[i], now) || (i == 0 && forall j :: 0 <= j < |c.order| ==> !Expired(c.order[j], now))
       case LRU => i == 0
       case FIFO => i == 0
  }

  /** evictToMakeSpace goes on while there is too little room and an entry left. */
  predicate More(cfg: Config, c: Cache, needed: nat) {
    c.memory + needed > cfg.maxMemory && c.order != []
  }

  function Evict(c: Cache, p: Pick): Cache
    requires p.i < |c.order|
  {
    RemoveEntry(c, p.i).(clock := p.now)
  }

  predicate MayEvict(c: Cache, p: Pick) {
    p.now >= c.clock && Evictable(c, p.now, p.i)
  }

  predicate Evicts(cfg: Config, c: Cache, needed: nat, choices: seq<Pick>)
    decreases |choices|
  {
    choices == [] ||
    (More(cfg, c, needed) && MayEvict(c, choices[0]) && Evicts(cfg, Evict(c, choices[0]), needed, choices[1..]))
  }

  function AfterSpace(cfg: Config, c: Cache, needed: nat, choices: seq<Pick>): Cache
    requires Evicts(cfg, c, needed, choices)
    decreases |choices|
  {
    if choices == [] then c else AfterSpace(cfg, Evict(c, choices[0]), needed, choices[1..])
  }

  /** The picks of a whole evictToMakeSpace: legal ones, and it stops only when it has to. */
  predicate MakesSpace(cfg: Config, c: Cache, needed: nat, choices: seq<Pick>) {
    Evicts(cfg, c, needed, choices) && !More(cfg, AfterSpace(cfg, c, needed, choices), needed)
  }

  lemma {:induction false} EvictsOneMore(cfg: Config, c: Cache, needed: nat, choices: seq<Pick>, p: Pick)
    requires Evicts(cfg, c, needed, choices)
    requires var s := AfterSpace(cfg, c, needed, choices); More(cfg, s, needed) && MayEvict(s, p)
    ensures Evicts(cfg, c, needed, choices + [p])
    ensures AfterSpace(cfg, c, needed, choices + [p]) == Evict(AfterSpace(cfg, c, needed, choices), p)
    decreases |choices|
  {
    if choices == [] {
      assert Evicts(cfg, Evict(c, p), needed, []);
    } else {
      EvictsOneMore(cfg, Evict(c, choices[0]), needed, choices[1..], p);
      assert (choices + [p])[1..] == choices[1..] + [p];
    }
  }

  // Dropping the old entry of a key that is set again is not an eviction.
  function Displace(c: Cache, key: string): Cache {
    if Has(c.order, key)
    then c.(order := RemoveAt(c.order, IndexOf(c.order, key)), memory := c.memory - c.order[IndexOf(c.order, key)].size)
    else c
  }

  function Insert(c: Cache, e: Entry): Cache {
    c.(order := c.order + [e], memory := c.memory + e.size)
  }

  function NewEntry(cfg: Config, ev: Event): Entry
    requires ev.Set?
  {
    Entry(ev.key, ev.value, ev.made + (if ev.ttl == 0 then cfg.ttl else ev.ttl), ev.at, 0, SizeOf(ev.value))
  }

  function Inserted(cfg: Config, c: Cache, ev: Event): Cache
    requires ev.Set? && MakesSpace(cfg, c, SizeOf(ev.value), ev.choices)
  {
    Insert(Displace(AfterSpace(cfg, c, SizeOf(ev.value), ev.choices), ev.key), NewEntry(cfg, ev)).(clock := ev.at)
  }

  predicate Overfull(cfg: Config, c: Cache) {
    |c.order| > cfg.maxSize
  }

  predicate Legal(cfg: Config, c: Cache, ev: Event) {
    match ev
    case Get(_, now, at) => c.clock <= now <= at
    case Cleanup(now) => now >= c.clock
    case Set(_, value, _, choices, made, at, last) =>
      cfg.enabled ==>
        && MakesSpace(cfg, c, SizeOf(value), choices)
        && AfterSpace(cfg, c, SizeOf(value), choices).clock <= made <= at <= last.now
        && (Overfull(cfg, Inserted(cfg, c, ev)) ==> Evictable(Inserted(cfg, c, ev), last.now, last.i))
    case _ => true
  }

  /** Get on a live entry: it becomes the most recent one. */
  function Touch(c: Cache, i: nat, now: int): Cache
    requires i < |c.order|
  {
    var e := c.order[i];
    c.(order := RemoveAt(c.order, i) + [e.(access := now, hits := e.hits + 1)], hits := c.hits + 1)
  }

  function GetHits(cfg: Config, c: Cache, key: string, now: int): bool {
    cfg.enabled && Has(c.order, key) && !Expired(c.order[IndexOf(c.order, key)], now)
  }

  function GetResult(cfg: Config, c: Cache, key: string, now: int): Option<Value> {
    if GetHits(cfg, c, key, now) then Some(c.order[IndexOf(c.order, key)].value) else None
  }

  function Live(order: seq<Entry>, now: int): (r: seq<Entry>)
    ensures |r| <= |order|
  {
    if order == [] then []
    else if Expired(order[0], now) then Live(order[1..], now)
    else [order[0]] + Live(order[1..], now)
  }

  function Apply(cfg: Config, c: Cache, ev: Event): Cache
    requires Legal(cfg, c, ev)
  {
    match ev
    case Get(key, now, at) =>
      if !cfg.enabled then c
      else if !Has(c.order, key) then c.(misses := c.misses + 1, clock := at)
      else if Expired(c.order[IndexOf(c.order, key)], now) then
        var c' := RemoveKey(c, key);
        c'.(misses := c'.misses + 1, clock := at)
      else Touch(c, IndexOf(c.order, key), at).(clock := at)
    case Set(_, _, _, _, _, _, last) =>
      if !cfg.enabled then c
      else if Overfull(cfg, Inserted(cfg, c, ev)) then Evict(Inserted(cfg, c, ev), last)
      else Inserted(cfg, c, ev).(clock := last.now)
    case Delete(key) => RemoveKey(c, key)
    case Clear => c.(order := [], memory := 0, hits := 0, misses := 0, evictions := 0)
    case Cleanup(now) =>
      var live := Live(c.order, now);
      c.(order := live, memory := c.memory - (Memory(c.order) - Memory(live)),
         evictions := c.evictions + (|c.order| - |live|), clock := now)
    case SetPolicy(p) => c.(policy := p)
  }

  // ----- The invariant

  predicate DistinctKeys(order: seq<Entry>) {
    forall i, j :: 0 <= i < j < |order| ==> order[i].key != order[j].key
  }

  predicate InAccessOrder(order: seq<Entry>, clock: int) {
    && (forall i, j :: 0 <= i < j < |order| ==> order[i].access <= order[j].access)
    && (forall i :: 0 <= i < |order| ==> order[i].access <= clock)
  }

  function Cap(cfg: Config): nat { if cfg.maxSize < 0 then 0 else cfg.maxSize }

  predicate Inv(cfg: Config, c: Cache) {
    && DistinctKeys(c.order)
    && InAccessOrder(c.order, c.clock)
    && c.memory == Memory(c.order)
    && |c.order| <= Cap(cfg)
    && (c.memory <= cfg.maxMemory || |c.order| == 1)
  }

  // What removals keep, at any moment inside an operation.
  predicate Core(c: Cache) {
    && DistinctKeys(c.order)
    && InAccessOrder(c.order, c.clock)
    && c.memory == Memory(c.order)
  }

  lemma {:induction false} MemoryConcat(a: seq<Entry>, b: seq<Entry>)
    ensures Memory(a + b) == Memory(a) + Memory(b)
  {
    if a == [] {
      assert a + b == b;
    } else {
      assert (a + b)[1..] == a[1..] + b;
      MemoryConcat(a[1..], b);
    }
  }

  lemma MemoryRemove(order: seq<Entry>, i: nat)
    requires i < |order|
    ensures Memory(RemoveAt(order, i)) == Memory(order) - order[i].size
  {
    MemoryConcat(order[..i], order[i + 1..]);
    MemoryConcat(order[..i], order[i..]);
    assert order == order[..i] + order[i..];
  }

  lemma RemoveKeepsCore(c: Cache, i: nat)
    requires Core(c) && i < |c.order|
    ensures Core(RemoveEntry(c, i))
  {
    MemoryRemove(c.order, i);
  }

  lemma EvictKeepsCore(c: Cache, p: Pick)
    requires Core(c) && p.i < |c.order| && p.now >= c.clock
    ensures Core(Evict(c, p))
  {
    RemoveKeepsCore(c, p.i);
  }

  lemma {:induction false} SpaceKeepsCore(cfg: Config, c: Cache, needed: nat, choices: seq<Pick>)
    requires Core(c) && Evicts(cfg, c, needed, choices)
    ensures var s := AfterSpace(cfg, c, needed, choices);
            && Core(s) && s.clock >= c.clock
            && |s.order| + s.evictions == |c.order| + c.evictions
            && |s.order| <= |c.order|
            && (forall e :: e in s.order ==> e in c.order)
    decreases |choices|
  {
    if choices == [] {
    } else {
      EvictKeepsCore(c, choices[0]);
      SpaceKeepsCore(cfg, Evict(c, choices[0]), needed, choices[1..]);
    }
  }

  lemma {:induction false} LiveRemove(order: seq<Entry>, i: nat, now: int)
    requires i < |order| && Expired(order[i], now)
    ensures Live(RemoveAt(order, i), now) == Live(order, now)
  {
    if i == 0 {
      assert RemoveAt(order, 0) == order[1..];
    } else {
      LiveRemove(order[1..], i - 1, now);
      assert RemoveAt(order, i) == [order[0]] + RemoveAt(order[1..], i - 1);
    }
  }

  lemma {:induction false} LiveAll(order: seq<Entry>, now: int)
    requires forall i :: 0 <= i < |order| ==> !Expired(order[i], now)
    ensures Live(order, now) == order
  {
    if order == [] {
    } else {
      LiveAll(order[1..], now);
    }
  }

  lemma AppendKeepsCore(c: Cache, e: Entry)
    requires Core(c) && !Has(c.order, e.key) && e.access >= c.clock
    ensures Core(Insert(c, e).(clock := e.access))
  {
    MemoryConcat(c.order, [e]);
  }

  lemma RemovedKey(order: seq<Entry>, i: nat)
    requires DistinctKeys(order) && i < |order|
    ensures forall e :: e in RemoveAt(order, i) ==> e in order && e.key != order[i].key
  {
    var r := RemoveAt(order, i);
    forall j | 0 <= j < |r| ensures r[j] in order && r[j].key != order[i].key {
      assert r[j] == order[if j < i then j else j + 1];
    }
  }

  lemma DisplaceKeepsCore(c: Cache, key: string)
    requires Core(c)
    ensures var d := Displace(c, key);
            Core(d) && !Has(d.order, key) && d.clock == c.clock && |d.order| <= |c.order| && d.memory <= c.memory
    ensures forall e :: e in Displace(c, key).order ==> e in c.order && e.key != key
  {
    if Has(c.order, key) {
      var i := IndexOf(c.order, key);
      RemoveKeepsCore(c, i);
      RemovedKey(c.order, i);
      assert Displace(c, key).order == RemoveEntry(c, i).order;
    }
  }

  lemma {:induction false} LiveFacts(order: seq<Entry>, now: int)
    ensures Memory(Live(order, now)) <= Memory(order)
    ensures forall e :: e in Live(order, now) <==> e in order && !Expired(e, now)
  {
    if order == [] {
    } else {
      LiveFacts(order[1..], now);
      assert forall e :: e in order <==> e == order[0] || e in order[1..];
    }
  }

  lemma {:induction false} LiveKeeps(order: seq<Entry>, now: int, clock: int)
    requires DistinctKeys(order) && InAccessOrder(order, clock)
    ensures DistinctKeys(Live(order, now)) && InAccessOrder(Live(order, now), clock)
  {
    if order == [] {
    } else {
      LiveKeeps(order[1..], now, clock);
      LiveFacts(order[1..], now);
      if !Expired(order[0], now) { ConsKeeps(order, Live(order[1..], now), clock); }
    }
  }

  lemma ConsKeeps(order: seq<Entry>, rest: seq<Entry>, clock: int)
    requires DistinctKeys(order) && InAccessOrder(order, clock) && order != []
    requires DistinctKeys(rest) && InAccessOrder(rest, clock) && forall e :: e in rest ==> e in order[1..]
    ensures DistinctKeys([order[0]] + rest) && InAccessOrder([order[0]] + rest, clock)
  {
    forall j | 0 <= j < |rest| ensures rest[j].key != order[0].key && order[0].access <= rest[j].access {
      assert rest[j] in order[1..];
    }
  }

  // The eviction of the entry too many, if there is one.
  lemma TrimKeepsInv(cfg: Config, c: Cache, last: Pick)
    requires Core(c) && |c.order| <= Cap(cfg) + 1 && (c.memory <= cfg.maxMemory || |c.order| == 1)
    requires last.now >= c.clock
    requires Overfull(cfg, c) ==> last.i < |c.order|
    ensures Inv(cfg, if Overfull(cfg, c) then Evict(c, last) else c.(clock := last.now))
  {
    if Overfull(cfg, c) { EvictKeepsCore(c, last); }
  }

  lemma InsertedCore(cfg: Config, c: Cache, ev: Event)
    requires Inv(cfg, c) && ev.Set? && Legal(cfg, c, ev) && cfg.enabled
    ensures var ins := Inserted(cfg, c, ev);
            Core(ins) && |ins.order| <= Cap(cfg) + 1 && (ins.memory <= cfg.maxMemory || |ins.order| == 1)
  {
    var size := SizeOf(ev.value);
    SpaceKeepsCore(cfg, c, size, ev.choices);
    var s := AfterSpace(cfg, c, size, ev.choices);
    DisplaceKeepsCore(s, ev.key);
    AppendKeepsCore(Displace(s, ev.key), NewEntry(cfg, ev));
  }

  lemma SetKeepsInv(cfg: Config, c: Cache, ev: Event)
    requires Inv(cfg, c) && ev.Set? && Legal(cfg, c, ev) && cfg.enabled
    ensures Inv(cfg, Apply(cfg, c, ev))
  {
    InsertedCore(cfg, c, ev);
    TrimKeepsInv(cfg, Inserted(cfg, c, ev), ev.last);
  }

  // The parts of a Set: space is made, the new entry placed, and one too many evicted.
  lemma SetInSteps(cfg: Config, c: Cache, ev: Event, room: Cache, placed: Cache, done: Cache)
    requires Inv(cfg, c) && ev.Set? && cfg.enabled && MakesSpace(cfg, c, SizeOf(ev.value), ev.choices)
    requires room == AfterSpace(cfg, c, SizeOf(ev.value), ev.choices)
    requires room.clock <= ev.made <= ev.at <= ev.last.now
    requires placed == Insert(Displace(room, ev.key), NewEntry(cfg, ev)).(clock := ev.at)
    requires Overfull(cfg, placed) ==> Evictable(placed, ev.last.now, ev.last.i)
    requires done == if Overfull(cfg, placed) then Evict(placed, ev.last) else placed.(clock := ev.last.now)
    ensures Legal(cfg, c, ev) && done == Apply(cfg, c, ev) && Inv(cfg, done)
  {
    SetKeepsInv(cfg, c, ev);
  }

  lemma TouchKeepsInv(cfg: Config, c: Cache, i: nat, now: int)
    requires Inv(cfg, c) && i < |c.order| && now >= c.clock
    ensures Inv(cfg, Touch(c, i, now).(clock := now))
  {
    var removed := RemoveEntry(c, i);
    RemoveKeepsCore(c, i);
    var e := c.order[i].(access := now, hits := c.order[i].hits + 1);
    assert !Has(removed.order, e.key);
    AppendKeepsCore(removed, e);
    assert Insert(removed, e).order == Touch(c, i, now).order;
  }

  /** Every operation, under every policy, keeps the invariant. */
  lemma StepKeepsInv(cfg: Config, c: Cache, ev: Event)
    requires Inv(cfg, c) && Legal(cfg, c, ev)
    ensures Inv(cfg, Apply(cfg, c, ev))
  {
    match ev
    case Get(key, now, at) =>
      if cfg.enabled && Has(c.order, key) {
        var i := IndexOf(c.order, key);
        RemoveKeepsCore(c, i);
        TouchKeepsInv(cfg, c, i, at);
      }
    case Set(_, _, _, _, _, _, _) =>
      if cfg.enabled { SetKeepsInv(cfg, c, ev); }
    case Delete(key) =>
      if Has(c.order, key) { RemoveKeepsCore(c, IndexOf(c.order, key)); }
    case Cleanup(now) =>
      LiveFacts(c.order, now);
      LiveKeeps(c.order, now, c.clock);
    case Clear =>
    case SetPolicy(_) =>
  }
}
