/**
 Idle cleaning of the connection pool while other calls go on: the scan is one critical section and each removal
 another, and connections are added, used and removed by others in between.
 */
module ConnectionCleaning {
  import opened ConnectionPools

  datatype Config = Config(max: int, min: int, maxIdle: int)

  datatype Conn = Conn(active: bool, lastUsed: int)

  /** `todo` are the removals the cleaner still has to make. The rest records what happened since its last scan: the
      active connections it counted, those it chose, those that others added and removed, and those they used. */
  datatype State = State(
    conns: map<string, Conn>,
    clock: int,
    todo: seq<string>,
    counted: set<string>,
    chosen: set<string>,
    added: set<string>,
    removed: set<string>,
    used: set<string>)

  datatype Action =
    | Scan(idle: seq<string>, now: int)  // in the map's arbitrary order
    | RemoveNext                         // the cleaner removes the next connection it chose
    | Join(id: string, now: int)
    | Use(id: string, now: int)
    | Drop(id: string, now: int)       // by anyone else: a caller, or the health checker

  function Active(conns: map<string, Conn>): set<string> {
    set k | k in conns && conns[k].active
  }

  function Idle(cfg: Config, conns: map<string, Conn>, now: int): set<string> {
    set k | k in conns && conns[k].active && now - conns[k].lastUsed > cfg.maxIdle
  }

  /** Each id is listed once. */
  predicate Once(s: seq<string>) {
    |Elements(s)| == |s|
  }

  predicate Enabled(cfg: Config, s: State, a: Action) {
    match a
    case Scan(idle, now) => now >= s.clock && s.todo == [] && Once(idle) && Elements(idle) == Idle(cfg, s.conns, now)
    case RemoveNext => s.todo != []
    case Join(id, now) => now >= s.clock && |s.conns| < cfg.max && id !in s.conns && id !in s.counted && id !in s.added
    case Use(id, now) => now >= s.clock && id in s.conns
    case Drop(id, now) => now >= s.clock && id in s.conns
  }

  /** How many of the idle connections a scan chooses. */
  function Chosen(cfg: Config, conns: map<string, Conn>, idle: seq<string>): (n: nat)
    ensures n <= |idle|
  {
    Cleaned(|Active(conns)|, |idle|, cfg.min)
  }

  function Apply(cfg: Config, s: State, a: Action): State
    requires Enabled(cfg, s, a)
  {
    match a
    case Scan(idle, now) =>
      var todo := idle[..Chosen(cfg, s.conns, idle)];
      State(s.conns, now, todo, Active(s.conns), Elements(todo), {}, {}, {})
    case RemoveNext => s.(conns := s.conns - {s.todo[0]}, todo := s.todo[1..])
    case Join(id, now) => s.(conns := s.conns[id := Conn(true, now)], clock := now, added := s.added + {id})
    case Use(id, now) => s.(conns := s.conns[id := s.conns[id].(lastUsed := now)], clock := now, used := s.used + {id})
    case Drop(id, now) =>
      s.(conns := s.conns - {id}, clock := now, removed := if s.conns[id].active then s.removed + {id} else s.removed)
  }

  ghost predicate IsRun(cfg: Config, s: State, acts: seq<Action>)
    decreases |acts|
  {
    acts == [] || (Enabled(cfg, s, acts[0]) && IsRun(cfg, Apply(cfg, s, acts[0]), acts[1..]))
  }

  ghost function Final(cfg: Config, s: State, acts: seq<Action>): State
    requires IsRun(cfg, s, acts)
    decreases |acts|
  {
    if acts == [] then s else Final(cfg, Apply(cfg, s, acts[0]), acts[1..])
  }

  function Empty(clock: int): State {
    State(map[], clock, [], {}, {}, {}, {}, {})
  }

  // ----- What a cleaning leaves

  /** Since the scan, the active connections are those counted and added, less those removed by others or the cleaner.
      */
  ghost predicate Balanced(s: State) {
    && Once(s.todo) && Elements(s.todo) <= s.chosen <= s.counted && s.counted !! s.added
        && s.removed <= s.counted + s.added
    && Active(s.conns) == s.counted + s.added - (s.removed + (s.chosen - Elements(s.todo)))
    && (forall k :: k in s.conns && k !in Active(s.conns) ==> k !in s.counted && k !in s.added)
  }

  /** The scan chose no more than the minimum allows, and only connections that are idle unless used since. */
  ghost predicate Rationed(cfg: Config, s: State) {
    && (|s.chosen| + cfg.min <= |s.counted| || |s.chosen| == 0)
    && (forall k :: k in s.todo && k in s.conns && k !in s.used ==> s.clock - s.conns[k].lastUsed > cfg.maxIdle)
  }

  lemma DropFirst(s: seq<string>)
    requires Once(s) && s != []
    ensures Once(s[1..]) && s[0] !in s[1..] && Elements(s) == Elements(s[1..]) + {s[0]}
  {
    assert s == [s[0]] + s[1..];
    ElementsFew(s[1..]);
    assert Elements(s) == Elements(s[1..]) + {s[0]};
  }

  lemma ScanStep(cfg: Config, s: State, idle: seq<string>, now: int)
    requires Enabled(cfg, s, Scan(idle, now))
    ensures Balanced(Apply(cfg, s, Scan(idle, now))) && Rationed(cfg, Apply(cfg, s, Scan(idle, now)))
  {
    var n := Chosen(cfg, s.conns, idle);
    PrefixCount(idle, n);
    var s' := Apply(cfg, s, Scan(idle, now));
    assert forall k :: k in s'.todo ==> k in Elements(s'.todo);
  }

  lemma ActiveWithout(conns: map<string, Conn>, k: string)
    ensures Active(conns - {k}) == Active(conns) - {k}
  {
  }

  lemma OneLess(all: set<string>, removed: set<string>, chosen: set<string>, rest: set<string>, k: string)
    requires rest + {k} <= chosen && k !in rest
    ensures all - (removed + (chosen - (rest + {k}))) - {k} == all - (removed + (chosen - rest))
  {
  }

  /** The scan chooses among exactly the connections that are active and were not used for longer than the limit. */
  lemma ScanFinds(cfg: Config, s: State, idle: seq<string>, now: int)
    requires Enabled(cfg, s, Scan(idle, now))
    ensures forall k :: k in idle
                        <==> k in s.conns && s.conns[k].active && now - s.conns[k].lastUsed > cfg.maxIdle
  {
    assert forall k :: k in idle <==> k in Elements(idle);
  }

  lemma RemoveNextStep(cfg: Config, s: State)
    requires s.todo != [] && Balanced(s)
    ensures Balanced(Apply(cfg, s, RemoveNext))
  {
    DropFirst(s.todo);
    ActiveWithout(s.conns, s.todo[0]);
    OneLess(s.counted + s.added, s.removed, s.chosen, Elements(s.todo[1..]), s.todo[0]);
  }

  lemma AddStep(cfg: Config, s: State, id: string, now: int)
    requires Enabled(cfg, s, Join(id, now)) && Balanced(s)
    ensures Balanced(Apply(cfg, s, Join(id, now)))
  {
    assert Active(s.conns[id := Conn(true, now)]) == Active(s.conns) + {id};
  }

  lemma UseStep(cfg: Config, s: State, id: string, now: int)
    requires Enabled(cfg, s, Use(id, now)) && Balanced(s)
    ensures Balanced(Apply(cfg, s, Use(id, now)))
  {
    assert Active(Apply(cfg, s, Use(id, now)).conns) == Active(s.conns);
  }

  lemma RemoveStep(cfg: Config, s: State, id: string, now: int)
    requires Enabled(cfg, s, Drop(id, now)) && Balanced(s)
    ensures Balanced(Apply(cfg, s, Drop(id, now)))
  {
    assert id in Active(s.conns) <==> s.conns[id].active;
    ActiveWithout(s.conns, id);
  }

  lemma CleaningStep(cfg: Config, s: State, a: Action)
    requires Enabled(cfg, s, a) && Balanced(s) && Rationed(cfg, s)
    ensures Balanced(Apply(cfg, s, a)) && Rationed(cfg, Apply(cfg, s, a))
  {
    match a
    case Scan(idle, now) => ScanStep(cfg, s, idle, now);
    case RemoveNext =>
      RemoveNextStep(cfg, s);
      assert forall k :: k in s.todo[1..] ==> k in s.todo;
    case Join(id, now) =>
      AddStep(cfg, s, id, now);
      assert forall k :: k in s.todo ==> k in Elements(s.todo);
    case Use(id, now) => UseStep(cfg, s, id, now);
    case Drop(id, now) => RemoveStep(cfg, s, id, now);
  }

  lemma {:induction false} CleaningRun(cfg: Config, s: State, acts: seq<Action>)
    requires IsRun(cfg, s, acts) && Balanced(s) && Rationed(cfg, s)
    ensures Balanced(Final(cfg, s, acts)) && Rationed(cfg, Final(cfg, s, acts))
    decreases |acts|
  {
    if acts == [] {
    } else {
      CleaningStep(cfg, s, acts[0]);
      CleaningRun(cfg, Apply(cfg, s, acts[0]), acts[1..]);
    }
  }

  lemma EmptyBalanced(cfg: Config, clock: int)
    ensures Balanced(Empty(clock)) && Rationed(cfg, Empty(clock))
  {
    assert Active(map[]) == {};
    assert Elements([]) == {};
  }

  lemma ActiveCount(s: State)
    requires Balanced(s)
    ensures var gone := s.removed + (s.chosen - Elements(s.todo));
            |Active(s.conns)| == |s.counted| + |s.added| - |gone|
    ensures |s.removed + s.chosen| == |s.chosen| + |s.removed - s.chosen|
  {
    var all, gone := s.counted + s.added, s.removed + (s.chosen - Elements(s.todo));
    assert all == (all - gone) + gone;
    assert s.removed + s.chosen == s.chosen + (s.removed - s.chosen);
  }

  lemma SubsetCount(a: set<string>, b: set<string>)
    requires a <= b
    ensures |a| <= |b|
  {
    assert b == a + (b - a);
  }

  /** At every moment of every run, the active connections are at least the minimum, or as many as the last scan
      counted if that was fewer, plus what others added since and less what others removed that the scan had not
      chosen. */
  lemma ActiveAtLeast(cfg: Config, clock: int, acts: seq<Action>)
    requires IsRun(cfg, Empty(clock), acts)
    ensures var s := Final(cfg, Empty(clock), acts);
            |Active(s.conns)| + |s.removed - s.chosen|
            >= |s.added| + if |s.counted| >= cfg.min then cfg.min else |s.counted|
  {
    EmptyBalanced(cfg, clock);
    CleaningRun(cfg, Empty(clock), acts);
    var s := Final(cfg, Empty(clock), acts);
    ActiveCount(s);
    SubsetCount(s.removed + (s.chosen - Elements(s.todo)), s.removed + s.chosen);
  }

  /** The pool never holds more connections than its maximum. */
  lemma {:induction false} AtMostMaximum(cfg: Config, s: State, acts: seq<Action>)
    requires IsRun(cfg, s, acts) && (|s.conns| <= cfg.max || s.conns == map[])
    ensures |Final(cfg, s, acts).conns| <= cfg.max || Final(cfg, s, acts).conns == map[]
    decreases |acts|
  {
    if acts == [] {
    } else {
      AtMostStep(cfg, s, acts[0]);
      AtMostMaximum(cfg, Apply(cfg, s, acts[0]), acts[1..]);
    }
  }

  lemma AtMostStep(cfg: Config, s: State, a: Action)
    requires Enabled(cfg, s, a) && (|s.conns| <= cfg.max || s.conns == map[])
    ensures |Apply(cfg, s, a).conns| <= cfg.max || Apply(cfg, s, a).conns == map[]
  {
    match a
    case RemoveNext => FewerConns(s.conns, s.todo[0]);
    case Drop(id, _) => FewerConns(s.conns, id);
    case _ =>
  }

  lemma FewerConns(conns: map<string, Conn>, k: string)
    ensures |conns - {k}| <= |conns| && (conns == map[] ==> conns - {k} == map[])
  {
    if k in conns {
      assert conns == (conns - {k})[k := conns[k]];
    } else {
      assert conns - {k} == conns;
    }
  }

  /** When a cleaning is done the minimum is met if and only if others removed, beside the connections it chose, no more
      than it had to spare and others added. */
  lemma MinimumMetIff(cfg: Config, clock: int, acts: seq<Action>)
    requires IsRun(cfg, Empty(clock), acts) && Final(cfg, Empty(clock), acts).todo == []
    ensures var s := Final(cfg, Empty(clock), acts);
            |Active(s.conns)| >= cfg.min <==> |s.removed - s.chosen| <= |s.counted| - |s.chosen| - cfg.min + |s.added|
  {
    EmptyBalanced(cfg, clock);
    CleaningRun(cfg, Empty(clock), acts);
    var s := Final(cfg, Empty(clock), acts);
    ActiveCount(s);
    assert s.chosen - Elements(s.todo) == s.chosen;
  }

  /** What the cleaner removes next is still idle unless it was used since the scan. */
  lemma StillIdle(cfg: Config, clock: int, acts: seq<Action>)
    requires IsRun(cfg, Empty(clock), acts)
    ensures var s := Final(cfg, Empty(clock), acts);
            forall k :: k in s.todo && k in s.conns && k !in s.used ==> s.clock - s.conns[k].lastUsed > cfg.maxIdle
  {
    EmptyBalanced(cfg, clock);
    CleaningRun(cfg, Empty(clock), acts);
  }

  // ----- A run that ends below the minimum

  function Name(i: nat): string {
    seq(i, _ => 'x')
  }

  function Names(n: nat): (s: seq<string>)
    ensures |s| == n && forall i :: 0 <= i < n ==> s[i] == Name(i)
  {
    seq(n, i requires 0 <= i => Name(i))
  }

  function Filled(n: nat, t: int): map<string, Conn> {
    map k | k in Elements(Names(n)) :: Conn(true, t)
  }

  lemma {:induction false} NamesOnce(n: nat)
    ensures Once(Names(n)) && Name(n) !in Elements(Names(n))
    ensures Elements(Names(n + 1)) == Elements(Names(n)) + {Name(n)}
  {
    if n > 0 {
      NamesOnce(n - 1);
      assert Names(n) == Names(n - 1) + [Name(n - 1)];
    } else {
      assert Names(0) == [] && Elements([]) == {};
    }
    forall i | 0 <= i < n ensures Names(n)[i] != Name(n) { assert |Name(i)| != |Name(n)|; }
    assert Names(n + 1) == Names(n) + [Name(n)];
    ElementsAppend(Names(n), Name(n));
  }

  lemma Prepend(cfg: Config, s: State, a: Action, rest: seq<Action>)
    requires Enabled(cfg, s, a) && IsRun(cfg, Apply(cfg, s, a), rest)
    ensures IsRun(cfg, s, [a] + rest) && Final(cfg, s, [a] + rest) == Final(cfg, Apply(cfg, s, a), rest)
  {
    assert ([a] + rest)[1..] == rest;
  }

  lemma JoinFilled(cfg: Config, s: State, k: nat)
    requires k < cfg.max && s.conns == Filled(k, s.clock) && s.added == Elements(Names(k)) && s.counted == {}
    ensures Enabled(cfg, s, Join(Name(k), s.clock))
    ensures Apply(cfg, s, Join(Name(k), s.clock))
            == s.(conns := Filled(k + 1, s.clock), added := Elements(Names(k + 1)))
  {
    NamesOnce(k);
    assert s.conns.Keys == Elements(Names(k));
    PrefixCount(Names(k), k);
    assert Names(k)[..k] == Names(k);
    assert s.conns[Name(k) := Conn(true, s.clock)] == Filled(k + 1, s.clock);
  }

  // Adds the connections from number k on, until there are n.
  lemma {:induction false} AddUpTo(cfg: Config, s: State, k: nat, n: nat, rest: seq<Action>) returns (acts: seq<Action>)
    requires k <= n <= cfg.max && s.conns == Filled(k, s.clock) && s.added == Elements(Names(k)) && s.counted == {}
    requires IsRun(cfg, s.(conns := Filled(n, s.clock), added := Elements(Names(n))), rest)
    ensures IsRun(cfg, s, acts)
    ensures Final(cfg, s, acts) == Final(cfg, s.(conns := Filled(n, s.clock), added := Elements(Names(n))), rest)
    decreases n - k
  {
    if k == n {
      acts := rest;
    } else {
      JoinFilled(cfg, s, k);
      var s' := Apply(cfg, s, Join(Name(k), s.clock));
      acts := AddUpTo(cfg, s', k + 1, n, rest);
      Prepend(cfg, s, Join(Name(k), s.clock), acts);
      acts := [Join(Name(k), s.clock)] + acts;
    }
  }

  // The scan counts one more than the minimum, all idle, and chooses the first.
  lemma ScanFilled(cfg: Config, s: State) returns (a: Action, s': State)
    requires 1 <= cfg.min && cfg.maxIdle >= 0 && s.clock == 0 && s.todo == [] && s.conns == Filled(cfg.min + 1, 0)
    ensures Enabled(cfg, s, a) && s' == Apply(cfg, s, a)
    ensures s'.todo == [Name(0)] && s'.conns == s.conns && |s'.counted| == cfg.min + 1 && Active(s'.conns) == s'.counted
    ensures Name(0) in s'.conns && Name(1) in s'.conns && s'.conns[Name(1)].active && Name(0) != Name(1)
  {
    var n, later := cfg.min + 1, cfg.maxIdle + 1;
    NamesOnce(n);
    assert Active(s.conns) == Elements(Names(n));
    assert Idle(cfg, s.conns, later) == Elements(Names(n));
    a := Scan(Names(n), later);
    s' := Apply(cfg, s, a);
    assert Chosen(cfg, s.conns, Names(n)) == 1;
    assert Names(n)[..1] == [Name(0)];
    assert Names(n)[0] in Names(n) && Names(n)[1] in Names(n);
    assert |Name(0)| != |Name(1)|;
  }

  // It is used again, another is removed by someone else, and then the cleaner removes its own.
  lemma Interfere(cfg: Config, s: State) returns (acts: seq<Action>)
    requires cfg.maxIdle >= 0 && s.todo == [Name(0)] && Active(s.conns) == s.counted && |s.counted| == cfg.min + 1
    requires Name(0) in s.conns && Name(1) in s.conns && s.conns[Name(1)].active && s.conns[Name(0)].active
        && Name(0) != Name(1)
    ensures IsRun(cfg, s, acts) && Missed(cfg, Final(cfg, s, acts))
  {
    var s1 := Apply(cfg, s, Use(Name(0), s.clock));
    var s2 := Apply(cfg, s1, Drop(Name(1), s.clock));
    var s3 := Apply(cfg, s2, RemoveNext);
    assert Active(s3.conns) == s.counted - {Name(0), Name(1)};
    Ends(cfg, s1, Drop(Name(1), s.clock));
    Prepend(cfg, s, Use(Name(0), s.clock), [Drop(Name(1), s.clock)]);
    acts := [Use(Name(0), s.clock)] + [Drop(Name(1), s.clock)];
  }

  /** The cleaner is about to remove a connection that is not idle, which leaves one fewer than the minimum. */
  ghost predicate Missed(cfg: Config, s: State) {
    && s.todo != [] && s.todo[0] in s.conns && s.clock - s.conns[s.todo[0]].lastUsed <= cfg.maxIdle
    && |Active(Apply(cfg, s, RemoveNext).conns)| == cfg.min - 1
  }

  /** With any minimum from 1 to below the maximum, a run leads there from the empty pool. */
  lemma MinimumMissed(cfg: Config) returns (acts: seq<Action>)
    requires 1 <= cfg.min < cfg.max && cfg.maxIdle >= 0
    ensures IsRun(cfg, Empty(0), acts) && Missed(cfg, Final(cfg, Empty(0), acts))
  {
    var n := cfg.min + 1;
    var s0 := Empty(0);
    assert Names(0) == [] && Elements([]) == {} && Filled(0, 0) == map[];
    var s1 := s0.(conns := Filled(n, 0), added := Elements(Names(n)));
    var scan, s2 := ScanFilled(cfg, s1);
    var tail := Interfere(cfg, s2);
    Prepend(cfg, s1, scan, tail);
    acts := AddUpTo(cfg, s0, 0, n, [scan] + tail);
  }

  lemma Ends(cfg: Config, s: State, a: Action)
    requires Enabled(cfg, s, a)
    ensures IsRun(cfg, s, [a]) && Final(cfg, s, [a]) == Apply(cfg, s, a)
  {
    assert [a][1..] == [];
  }
}
