/** When the goroutine pool keeps its minimum of workers. */
module GoroutineMinimum {
  import opened GoroutinePools

  // ----- When it does

  /** Before Shutdown, and without a scale-up, there are never more workers than the minimum, so none leaves. */
  ghost predicate Steady(s: State) {
    && CountersExact(s) && QueueFits(s)
    && (!s.cancelled ==> NoneLeaves(s))
  }

  predicate Fits(cfg: Config, q: nat) {
    q == 0 || q <= cfg.capacity
  }

  predicate QueueFits(s: State) {
    && Fits(s.cfg, |s.queue|)
    && (s.adder.SawQueue? ==> Fits(s.cfg, s.adder.q))
    && (s.adder.SawWorkers? ==> Fits(s.cfg, s.adder.q))
  }

  predicate Stays(w: Worker) {
    !w.Leaving? && !w.Left? && !w.Exited?
  }

  ghost predicate NoneLeaves(s: State) {
    && s.workerCount + Remaining(s.adder) == s.cfg.min
    && (s.adder.SawWorkers? ==> s.adder.w == s.cfg.min)
    && (s.built ==> Remaining(s.adder) == 0)
    && forall i :: 0 <= i < |s.workers| ==> Stays(s.workers[i])
  }

  ghost predicate Capped(cfg: Config) {
    cfg.min > 0 && (cfg.max <= cfg.min || cfg.up >= 1.0)
  }

  lemma NeverAbove(used: int, whole: int, threshold: real)
    requires used <= whole && threshold >= 1.0
    ensures !Above(used, whole, threshold)
  {
    if whole > 0 { UsageAtMostOne(used, whole); }
  }

  lemma NoScaleUp(s: State)
    requires Steady(s) && Capped(s.cfg) && !s.cancelled && s.adder.SawWorkers?
    ensures !ScalesUp(s.cfg, s.adder.q, s.adder.w, s.idle)
  {
    IdleBelowCount(s);
    if s.cfg.max > s.cfg.min {
      NeverAbove(s.adder.w - s.idle, s.adder.w, s.cfg.up);
      if s.cfg.capacity > 0 { NeverAbove(s.adder.q, s.cfg.capacity, s.cfg.up); }
    }
  }

  lemma QueueFitsStep(s: State, a: Action)
    requires Enabled(s, a) && QueueFits(s)
    ensures QueueFits(Apply(s, a))
  {
  }

  lemma ScaleStays(s: State)
    requires Steady(s) && Capped(s.cfg) && !s.cancelled
    ensures NoneLeaves(ScaleStep(s))
  {
    if s.adder.SawWorkers? { NoScaleUp(s); }
  }

  lemma MoveStays(s: State, a: Action)
    requires Enabled(s, a) && Moves(a) && NoneLeaves(s) && !s.cancelled
    ensures NoneLeaves(Apply(s, a))
  {
    MoveCounts(s, a);
    var s' := Apply(s, a);
    assert Stays(s.workers[a.w]);
    assert Stays(s'.workers[a.w]);
    forall i | 0 <= i < |s'.workers| ensures Stays(s'.workers[i]) {
      assert Stays(s.workers[i]);
    }
  }

  lemma OtherStays(s: State, a: Action)
    requires Enabled(s, a) && NoneLeaves(s) && !Moves(a) && !a.Scale?
    ensures NoneLeaves(Apply(s, a)) || Apply(s, a).cancelled
  {
  }

  lemma NoneLeavesStep(s: State, a: Action)
    requires Enabled(s, a) && Steady(s) && Capped(s.cfg) && !s.cancelled
    ensures !Apply(s, a).cancelled ==> NoneLeaves(Apply(s, a))
  {
    if a.Scale? {
      ScaleStays(s);
    } else if Moves(a) {
      MoveStays(s, a);
    } else {
      OtherStays(s, a);
    }
  }

  lemma StaysCancelled(s: State, a: Action)
    requires Enabled(s, a) && s.cancelled
    ensures Apply(s, a).cancelled
  {
  }

  lemma SteadyStep(s: State, a: Action)
    requires Enabled(s, a) && Steady(s) && Capped(s.cfg)
    ensures Steady(Apply(s, a))
  {
    CountersStep(s, a);
    QueueFitsStep(s, a);
    if s.cancelled { StaysCancelled(s, a); } else { NoneLeavesStep(s, a); }
  }

  lemma {:induction false} SteadyRun(s: State, acts: seq<Action>)
    requires IsRun(s, acts) && Steady(s) && Capped(s.cfg)
    ensures Steady(Final(s, acts)) && Final(s, acts).cfg == s.cfg
    decreases |acts|
  {
    if acts == [] {
    } else {
      SteadyStep(s, acts[0]);
      SteadyRun(Apply(s, acts[0]), acts[1..]);
    }
  }

  lemma MinimumKept(cfg: Config, acts: seq<Action>)
    requires cfg.min <= 0 || cfg.max <= cfg.min || cfg.up >= 1.0
    requires IsRun(Initial(cfg), acts) && Final(Initial(cfg), acts).built && !Final(Initial(cfg), acts).cancelled
    ensures Final(Initial(cfg), acts).workerCount >= cfg.min
  {
    CountersRun(Initial(cfg), acts);
    IdleBelowCount(Final(Initial(cfg), acts));
    if cfg.min > 0 { SteadyRun(Initial(cfg), acts); }
  }

  // ----- When it does not

  // Hands a task to every waiting worker from n on.
  lemma {:induction false} Occupy(s: State, n: nat) returns (acts: seq<Action>, s': State)
    requires s.built && !s.cancelled && s.queue == [] && n <= |s.workers|
    requires forall i :: n <= i < |s.workers| ==> s.workers[i] == Selecting
    requires forall i :: 0 <= i < n ==> s.workers[i] == Running(0)
    ensures IsRun(s, acts) && s' == Final(s, acts)
    ensures |s'.workers| == |s.workers| && forall i :: 0 <= i < |s.workers| ==> s'.workers[i] == Running(0)
    ensures s'.idle == s.idle - (|s.workers| - n) && s'.workerCount == s.workerCount
    ensures s'.cfg == s.cfg && s'.adder == s.adder && s'.built && !s'.cancelled && s'.queue == []
        && s'.locked == s.locked
    decreases |s.workers| - n
  {
    if n == |s.workers| {
      acts, s' := [], s;
    } else {
      var s1 := Apply(s, Submit);
      var s2 := Apply(s1, HandOff(0, n));
      var s3 := Apply(s2, Work(n));
      acts, s' := Occupy(s3, n + 1);
      Prepend(s2, Work(n), acts);
      Prepend(s1, HandOff(0, n), [Work(n)] + acts);
      Prepend(s, Submit, [HandOff(0, n)] + ([Work(n)] + acts));
      acts := [Submit] + ([HandOff(0, n)] + ([Work(n)] + acts));
    }
  }

  // With every worker busy the scaler adds k more.
  lemma ScaleUp(s: State) returns (acts: seq<Action>, k: nat)
    requires s.adder == Quiet && s.idle == 0 && s.workerCount == s.cfg.min
    requires 0 < s.cfg.min < s.cfg.max && s.cfg.up < 1.0
    ensures k >= 1 && IsRun(s, acts) && Final(s, acts) == Added(s, k)
  {
    var s1 := ScaleStep(s);
    var s2 := ScaleStep(s1);
    var s3 := ScaleStep(s2);
    UsageAtMostOne(s.cfg.min, s.cfg.min);
    k := ScaleCount(s.cfg, |s.queue|, s.workerCount, s.idle);
    assert s3 == s.(adder := Counting(k - 1));
    acts := AddAll(s3);
    Prepend(s2, Scale, acts);
    Prepend(s1, Scale, [Scale] + acts);
    Prepend(s, Scale, [Scale] + ([Scale] + acts));
    acts := [Scale] + ([Scale] + ([Scale] + acts));
  }

  // The first worker finishes its task.
  lemma Finish(s: State) returns (acts: seq<Action>)
    requires |s.workers| > 0 && s.workers[0] == Running(0) && !s.locked
    ensures IsRun(s, acts)
    ensures var s' := Final(s, acts);
            && s'.workers == s.workers[0 := Selecting] && s'.cfg == s.cfg && s'.built == s.built
            && s'.workerCount == s.workerCount && s'.cancelled == s.cancelled
  {
    var s1 := WorkStep(s, 0);
    var s2 := WorkStep(s1, 0);
    var s3 := WorkStep(s2, 0);
    Prepend(s3, Work(0), []);
    Prepend(s2, Work(0), [Work(0)] + []);
    Prepend(s1, Work(0), [Work(0)] + ([Work(0)] + []));
    Prepend(s, Work(0), [Work(0)] + ([Work(0)] + ([Work(0)] + [])));
    acts := [Work(0)] + ([Work(0)] + ([Work(0)] + ([Work(0)] + [])));
    assert s.workers[0 := Ran][0 := Timing][0 := Resting][0 := Selecting] == s.workers[0 := Selecting];
  }

  /** Where worker w, about to leave, takes the pool in its two remaining steps. */
  function Gone(s: State, w: nat): State
    requires w < |s.workers|
  {
    s.(idle := s.idle - 1, workerCount := s.workerCount - 1, workers := s.workers[w := Exited])
  }

  lemma Leave(s: State, w: nat, rest: seq<Action>) returns (acts: seq<Action>)
    requires w < |s.workers| && s.workers[w] == Leaving && IsRun(Gone(s, w), rest)
    ensures IsRun(s, acts) && Final(s, acts) == Final(Gone(s, w), rest)
  {
    var s1 := WorkStep(s, w);
    assert s1.workers[w := Exited] == s.workers[w := Exited];
    assert WorkStep(s1, w) == Gone(s, w);
    Prepend(s1, Work(w), rest);
    Prepend(s, Work(w), [Work(w)] + rest);
    acts := [Work(w)] + ([Work(w)] + rest);
  }

  // A worker times out, passes the check and is gone.
  lemma LeaveAlone(s: State, w: nat, rest: seq<Action>) returns (acts: seq<Action>)
    requires w < |s.workers| && s.workers[w] == Selecting && s.workerCount > s.cfg.min && IsRun(Gone(s, w), rest)
    ensures IsRun(s, acts) && Final(s, acts) == Final(Gone(s, w), rest)
  {
    var s1 := Goto(s, w, TimedOut);
    var s2 := Goto(s1, w, Leaving);
    assert Gone(s2, w) == Gone(s, w) by {
      assert s2.workers[w := Exited] == s.workers[w := Exited];
    }
    acts := Leave(s2, w, rest);
    Prepend(s1, Work(w), acts);
    Prepend(s, Timeout(w), [Work(w)] + acts);
    acts := [Timeout(w)] + ([Work(w)] + acts);
  }

  // With one worker more than the minimum, two idle workers pass the check together.
  lemma PassTogether(s: State, i: nat, j: nat) returns (acts: seq<Action>)
    requires i < |s.workers| && j < |s.workers| && i != j && s.workers[i] == Selecting == s.workers[j]
    requires s.workerCount == s.cfg.min + 1
    ensures IsRun(s, acts) && Below(s, Final(s, acts))
  {
    var s1 := Goto(s, i, TimedOut);
    var s2 := Goto(s1, j, TimedOut);
    var s3 := Goto(s2, i, Leaving);
    var s4 := Goto(s3, j, Leaving);
    var s5 := Gone(s4, i);
    acts := Leave(s5, j, []);
    acts := Leave(s4, i, acts);
    Prepend(s3, Work(j), acts);
    Prepend(s2, Work(i), [Work(j)] + acts);
    Prepend(s1, Timeout(j), [Work(i)] + ([Work(j)] + acts));
    Prepend(s, Timeout(i), [Timeout(j)] + ([Work(i)] + ([Work(j)] + acts)));
    acts := [Timeout(i)] + ([Timeout(j)] + ([Work(i)] + ([Work(j)] + acts)));
  }

  /** s', reached from s before any Shutdown, has one worker fewer than the minimum. */
  predicate Below(s: State, s': State) {
    s'.workerCount == s.cfg.min - 1 && s'.built == s.built && s'.cancelled == s.cancelled
  }

  // The first worker and n others are idle: all but one of the others leave, and then two together.
  lemma {:induction false} Trim(s: State, lo: nat, n: nat) returns (acts: seq<Action>)
    requires 1 <= lo && 1 <= n && lo + n <= |s.workers| && s.workers[0] == Selecting && s.workerCount == s.cfg.min + n
    requires forall i :: lo <= i < lo + n ==> s.workers[i] == Selecting
    ensures IsRun(s, acts) && Below(s, Final(s, acts))
    decreases n
  {
    if n == 1 {
      acts := PassTogether(s, 0, lo);
    } else {
      var rest := Trim(Gone(s, lo), lo + 1, n - 1);
      acts := LeaveAlone(s, lo, rest);
    }
  }

  /** All workers busy, a scale-up, one task done: then the idle workers leave, the last two together. */
  lemma MinimumLost(cfg: Config) returns (acts: seq<Action>)
    requires 0 < cfg.min < cfg.max && cfg.up < 1.0
    ensures IsRun(Initial(cfg), acts)
    ensures var s := Final(Initial(cfg), acts);
            s.workerCount == cfg.min - 1 && s.built && !s.cancelled
  {
    var build := Construct(cfg);
    var s1 := Final(Initial(cfg), build);
    assert |s1.workers| == cfg.min;
    var occupy, s2 := Occupy(s1, 0);
    var scale, k := ScaleUp(s2);
    var s3 := Final(s2, scale);
    assert s3.workers[0] == Running(0);
    var finish := Finish(s3);
    var s4 := Final(s3, finish);
    assert forall i :: cfg.min <= i < cfg.min + k ==> s4.workers[i] == Selecting;
    acts := Trim(s4, cfg.min, k);
    Join(s3, finish, acts);
    Join(s2, scale, finish + acts);
    Join(s1, occupy, scale + (finish + acts));
    Join(Initial(cfg), build, occupy + (scale + (finish + acts)));
    acts := build + (occupy + (scale + (finish + acts)));
  }

  ghost predicate KeepsMinimum(cfg: Config) {
    forall acts :: IsRun(Initial(cfg), acts) ==>
      var s := Final(Initial(cfg), acts);
      s.built && !s.cancelled ==> s.workerCount >= cfg.min
  }

  /** Between construction and Shutdown the minimum is respected in every run exactly when there is none to respect, or
      the pool can never scale above it: no room, or a threshold that no usage exceeds. */
  lemma WorkerMinimumIff(cfg: Config)
    ensures KeepsMinimum(cfg) <==> cfg.min <= 0 || cfg.max <= cfg.min || cfg.up >= 1.0
  {
    if cfg.min <= 0 || cfg.max <= cfg.min || cfg.up >= 1.0 {
      forall acts | IsRun(Initial(cfg), acts) && Final(Initial(cfg), acts).built && !Final(Initial(cfg), acts).cancelled
        ensures Final(Initial(cfg), acts).workerCount >= cfg.min
      {
        MinimumKept(cfg, acts);
      }
    } else {
      var acts := MinimumLost(cfg);
      assert Final(Initial(cfg), acts).workerCount < cfg.min;
    }
  }
}
