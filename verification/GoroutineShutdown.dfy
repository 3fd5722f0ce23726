/** When Shutdown of the goroutine pool returns: it waits for every worker while it holds the pool's mutex. */
module GoroutineShutdown {
  import opened Sums
  import opened GoroutinePools

  // ----- Where it can return at all

  /** A worker that has received a task and not yet been through updateTaskTime. */
  predicate Busy(w: Worker) {
    w.Took? || w.Running? || w.Ran? || w.Timing?
  }

  predicate NoneBusy(s: State) {
    forall i :: 0 <= i < |s.workers| ==> !Busy(s.workers[i])
  }

  lemma {:induction false} BusyStays(s: State, acts: seq<Action>, w: nat)
    requires IsRun(s, acts) && s.locked && w < |s.workers| && Busy(s.workers[w])
    ensures w < |Final(s, acts).workers| && Busy(Final(s, acts).workers[w]) && Final(s, acts).locked
    decreases |acts|
  {
    if acts == [] {
    } else {
      assert s.workers[w] != Exited;
      BusyStays(Apply(s, acts[0]), acts[1..], w);
    }
  }

  /** How many steps a worker that is not busy needs to leave a cancelled pool. */
  ghost function Distance(): Worker -> int {
    (w: Worker) =>
      match w
      case Exited => 0
      case Left => 1
      case Leaving => 2
      case Selecting => 3
      case _ => 4
  }

  /** The step that brings worker w closer to its exit. */
  function Next(s: State, w: nat): Action
    requires w < |s.workers|
  {
    if s.workers[w] == Selecting then SeeCancel(w) else Work(w)
  }

  /** Only workers moved, and the counters with them. */
  predicate OnlyWorkers(s: State, s': State) {
    s' == s.(workers := s'.workers, workerCount := s'.workerCount, idle := s'.idle)
  }

  lemma NextStep(s: State, w: nat)
    requires s.cancelled && NoneBusy(s) && w < |s.workers| && s.workers[w] != Exited
    ensures Enabled(s, Next(s, w))
    ensures var s' := Apply(s, Next(s, w));
            && NoneBusy(s') && OnlyWorkers(s, s')
            && SumBy(Distance(), s'.workers) < SumBy(Distance(), s.workers)
            && s.workerCount - 1 <= s'.workerCount <= s.workerCount
  {
    assert !Busy(s.workers[w]);
    var s' := Apply(s, Next(s, w));
    assert s'.workers == s.workers[w := s'.workers[w]];
    SumUpdate(Distance(), s.workers, w, s'.workers[w]);
    forall i | 0 <= i < |s'.workers| ensures !Busy(s'.workers[i]) {
      if i != w { assert !Busy(s.workers[i]); }
    }
  }

  /** Workers leave until n of them are left. */
  lemma {:induction false} ReduceTo(s: State, n: nat) returns (acts: seq<Action>, s': State)
    requires s.cancelled && NoneBusy(s) && CountersExact(s) && Remaining(s.adder) == 0 && !s.adder.Idling?
        && !s.adder.Spawning?
    requires n <= s.workerCount
    ensures IsRun(s, acts) && s' == Final(s, acts)
    ensures NoneBusy(s') && CountersExact(s') && OnlyWorkers(s, s') && s'.workerCount == n
    ensures n == 0 ==> AllExited(s') && s'.idle == 0
    decreases SumBy(Distance(), s.workers)
  {
    if s.workerCount == n {
      acts, s' := [], s;
      if n == 0 { NoneLeft(s); }
    } else {
      var w := OneLeft(s);
      var a := Next(s, w);
      NextStep(s, w);
      CountersStep(s, a);
      SumNonNegative(Distance(), Apply(s, a).workers);
      acts, s' := ReduceTo(Apply(s, a), n);
      Prepend(s, a, acts);
      acts := [a] + acts;
    }
  }

  lemma NoneLeft(s: State)
    requires CountersExact(s) && s.workerCount == 0 && !s.adder.Idling? && !s.adder.Spawning?
    ensures AllExited(s) && s.idle == 0
  {
    forall i | 0 <= i < |s.workers| ensures s.workers[i] == Exited {
      SumHasElement(CountedOf(), s.workers, i);
    }
    SumAllZero(IdleOf(), s.workers);
  }

  lemma OneLeft(s: State) returns (w: nat)
    requires CountersExact(s) && s.workerCount > 0 && !s.adder.Idling? && !s.adder.Spawning?
    ensures w < |s.workers| && s.workers[w] != Exited
  {
    if forall i :: 0 <= i < |s.workers| ==> s.workers[i] == Exited {
      SumAllZero(CountedOf(), s.workers);
    }
    w :| w < |s.workers| && s.workers[w] != Exited;
  }

  lemma {:induction false} AllCanExit(s: State) returns (acts: seq<Action>)
    requires s.cancelled && s.locked && NoneBusy(s)
    ensures IsRun(s, acts) && AllExited(Final(s, acts)) && Final(s, acts).locked
    decreases SumBy(Distance(), s.workers)
  {
    if AllExited(s) {
      acts := [];
    } else {
      var w: nat :| w < |s.workers| && s.workers[w] != Exited;
      var a := Next(s, w);
      NextStep(s, w);
      SumNonNegative(Distance(), Apply(s, a).workers);
      acts := AllCanExit(Apply(s, a));
      Prepend(s, a, acts);
      acts := [a] + acts;
    }
  }

  ghost predicate CanReturn(s: State) {
    exists acts :: IsRun(s, acts) && Enabled(Final(s, acts), ShutdownReturns)
  }

  /** While Shutdown waits, some continuation lets it return exactly when no worker has a task whose time it must still
      record: such a worker waits in turn for the mutex that Shutdown holds. */
  lemma CanReturnIff(s: State)
    requires s.locked && s.cancelled
    ensures CanReturn(s) <==> NoneBusy(s)
  {
    if NoneBusy(s) {
      var acts := AllCanExit(s);
      assert Enabled(Final(s, acts), ShutdownReturns);
    } else {
      var w: nat :| w < |s.workers| && Busy(s.workers[w]);
      forall acts | IsRun(s, acts) ensures !AllExited(Final(s, acts)) {
        BusyStays(s, acts, w);
        assert Final(s, acts).workers[w] != Exited;
      }
    }
  }

  // ----- Where it cannot fail to

  /** No task can reach a worker any more: none is queued, and no call of Submit is under way. */
  predicate NoTasks(s: State) {
    s.queue == [] && s.entered == 0
  }

  /** A worker that waits in select, or can still come back to it. With no minimum, a timed-out worker always leaves. */
  predicate MaySelect(cfg: Config, w: Worker) {
    w.Selecting? || w.Resting? || (w.TimedOut? && cfg.min >= 1)
  }

  /** The queue as long as the calls under way can make it. */
  function Fill(s: State): nat {
    if |s.queue| + s.entered < s.cfg.capacity then |s.queue| + s.entered else s.cfg.capacity
  }

  /** A scaling that starts now may add a worker: the queue can be filled above the threshold, or all workers that
      are left be on their way out, when none counts as idle. */
  predicate NextScalingMayAdd(s: State) {
    || (s.cfg.max > 0 && Above(Fill(s), s.cfg.capacity, s.cfg.up))
    || (s.workerCount >= 1 && s.cfg.max >= 2 && s.cfg.up < 1.0)
  }

  predicate AdderMayAdd(s: State) {
    match s.adder
    case Stopped => false
    case Quiet => NextScalingMayAdd(s)
    case SawQueue(q) => NextScalingMayAdd(s) || (s.cfg.max > 0 && Above(q, s.cfg.capacity, s.cfg.up))
    case SawWorkers(q, w) =>
      NextScalingMayAdd(s) || (w < s.cfg.max && (Above(q, s.cfg.capacity, s.cfg.up) || (w > 0 && s.cfg.up < 1.0)))
    case _ => true
  }

  /** Some worker can still come to receive a task. */
  predicate MayReceive(s: State) {
    AdderMayAdd(s) || exists i :: 0 <= i < |s.workers| && MaySelect(s.cfg, s.workers[i])
  }

  ghost predicate Reached(s: State) {
    && CountersExact(s) && (s.locked ==> s.cancelled)
    && (|s.queue| == 0 || |s.queue| <= s.cfg.capacity)
  }

  // Once no task can come, none does.
  lemma NoTasksStep(s: State, a: Action)
    requires Enabled(s, a) && s.cancelled && NoTasks(s) && NoneBusy(s)
    ensures NoTasks(Apply(s, a)) && NoneBusy(Apply(s, a))
  {
    var s' := Apply(s, a);
    forall i | 0 <= i < |s'.workers| ensures !Busy(s'.workers[i]) {
      if i < |s.workers| { assert !Busy(s.workers[i]); }
    }
  }

  lemma MoreIsAbove(used: int, more: int, whole: int, threshold: real)
    requires used <= more && Above(used, whole, threshold)
    ensures Above(more, whole, threshold)
  {
    assert used as real / whole as real <= more as real / whole as real;
  }

  // A scaling that may add nothing now never will.
  lemma ScalingStays(s: State, s': State)
    requires s'.cfg == s.cfg && s'.workerCount <= s.workerCount && |s'.queue| + s'.entered <= |s.queue| + s.entered
    requires NextScalingMayAdd(s')
    ensures NextScalingMayAdd(s)
  {
    if s.cfg.max > 0 && Above(Fill(s'), s.cfg.capacity, s.cfg.up) {
      MoreIsAbove(Fill(s'), Fill(s), s.cfg.capacity, s.cfg.up);
    }
  }

  lemma QuietScale(s: State)
    requires Reached(s) && !AdderMayAdd(s) && s.adder != Stopped
    ensures !AdderMayAdd(ScaleStep(s)) && ScaleStep(s) == s.(adder := ScaleStep(s).adder)
  {
    IdleBelowCount(s);
    match s.adder
    case Quiet =>
      if s.cfg.max > 0 && Above(|s.queue|, s.cfg.capacity, s.cfg.up) {
        MoreIsAbove(|s.queue|, Fill(s), s.cfg.capacity, s.cfg.up);
      }
    case SawQueue(q) =>
    case SawWorkers(q, w) =>
      if ScalesUp(s.cfg, q, w, s.idle) && !Above(q, s.cfg.capacity, s.cfg.up) {
        BelowOne(w, s.idle, s.cfg.up);
      }
  }

  lemma BelowOne(w: int, idle: int, threshold: real)
    requires idle >= 0 && Above(w - idle, w, threshold)
    ensures w > 0 && threshold < 1.0
  {
    UsageAtMostOne(w - idle, w);
  }

  lemma NoReceiverMove(s: State, a: Action)
    requires Enabled(s, a) && Moves(a) && Reached(s) && NoneBusy(s) && !MayReceive(s)
    ensures !MayReceive(Apply(s, a)) && NoneBusy(Apply(s, a))
  {
    var s' := Apply(s, a);
    assert !MaySelect(s.cfg, s.workers[a.w]) && !Busy(s.workers[a.w]);
    MoveCounts(s, a);
    SumHasElement(CountedOf(), s.workers, a.w);
    SumNonNegative(CountedOf(), s.workers);
    if NextScalingMayAdd(s') { ScalingStays(s, s'); }
    forall i | 0 <= i < |s'.workers| ensures !MaySelect(s.cfg, s'.workers[i]) && !Busy(s'.workers[i]) {
      if i != a.w { assert !MaySelect(s.cfg, s.workers[i]) && !Busy(s.workers[i]); }
    }
  }

  // Once no worker can come to receive a task, none does.
  lemma NoReceiverStep(s: State, a: Action)
    requires Enabled(s, a) && Reached(s) && s.cancelled && NoneBusy(s) && !MayReceive(s)
    ensures !MayReceive(Apply(s, a)) && NoneBusy(Apply(s, a))
  {
    var s' := Apply(s, a);
    if Moves(a) {
      NoReceiverMove(s, a);
    } else {
      if a.Scale? { QuietScale(s); }
      if NextScalingMayAdd(s') { ScalingStays(s, s'); }
      assert s'.workers == s.workers;
    }
  }

  ghost predicate Safe(s: State) {
    Reached(s) && (s.locked ==> NoneBusy(s) && (NoTasks(s) || !MayReceive(s)))
  }

  lemma CapacityStep(s: State, a: Action)
    requires Enabled(s, a) && (|s.queue| == 0 || |s.queue| <= s.cfg.capacity) && (s.locked ==> s.cancelled)
    ensures var s' := Apply(s, a);
            (|s'.queue| == 0 || |s'.queue| <= s'.cfg.capacity) && (s'.locked ==> s'.cancelled)
  {
  }

  lemma ReachedStep(s: State, a: Action)
    requires Enabled(s, a) && Reached(s)
    ensures Reached(Apply(s, a))
  {
    CountersStep(s, a);
    CapacityStep(s, a);
  }

  lemma {:induction false} SafeRun(s: State, acts: seq<Action>)
    requires IsRun(s, acts) && Safe(s) && s.cancelled
    ensures Safe(Final(s, acts)) && Final(s, acts).cancelled
    decreases |acts|
  {
    if acts == [] {
    } else {
      ReachedStep(s, acts[0]);
      if s.locked {
        if NoTasks(s) { NoTasksStep(s, acts[0]); } else { NoReceiverStep(s, acts[0]); }
      }
      SafeRun(Apply(s, acts[0]), acts[1..]);
    }
  }

  // ----- Where it can fail to

  /** The adder is not in the middle of adding. */
  predicate Settled(s: State) {
    !s.adder.Counting? && !s.adder.Idling? && !s.adder.Spawning?
  }

  /** Shutdown waits, every worker could leave, and a task is on its way. */
  ghost predicate Waiting(s: State) {
    Reached(s) && s.locked && NoneBusy(s) && !NoTasks(s)
  }

  ghost predicate Receiving(s: State, w: nat) {
    s.locked && !NoTasks(s) && w < |s.workers| && s.workers[w] == Selecting
  }

  lemma ScaleWaits(s: State)
    requires Waiting(s)
    ensures Waiting(ScaleStep(s))
  {
    ScaleCounters(s);
  }

  // A worker being added ends up waiting for a task.
  lemma {:induction false} Spawn(s: State) returns (acts: seq<Action>, s': State, w: nat)
    requires Waiting(s) && !Settled(s)
    ensures IsRun(s, acts) && s' == Final(s, acts) && Receiving(s', w)
    decreases if s.adder.Counting? then 2 else if s.adder.Idling? then 1 else 0
  {
    var s1 := ScaleStep(s);
    ScaleWaits(s);
    if s.adder.Spawning? {
      acts, s', w := [], s1, |s.workers|;
    } else {
      acts, s', w := Spawn(s1);
    }
    Prepend(s, Scale, acts);
    acts := [Scale] + acts;
  }

  lemma OtherLeft(s: State, w: nat) returns (v: nat)
    requires CountersExact(s) && Settled(s) && s.workerCount >= 2 && w < |s.workers|
    ensures v < |s.workers| && v != w && s.workers[v] != Exited
  {
    var without := s.workers[w := Exited];
    SumUpdate(CountedOf(), s.workers, w, Exited);
    if forall i :: 0 <= i < |s.workers| && i != w ==> s.workers[i] == Exited {
      assert forall i :: 0 <= i < |without| ==> without[i] == Exited;
      SumAllZero(CountedOf(), without);
    }
    v :| v < |s.workers| && v != w && s.workers[v] != Exited;
  }

  // The others leave until the timed-out worker must stay.
  lemma {:induction false} StayOn(s: State, w: nat) returns (acts: seq<Action>, s': State, v: nat)
    requires Waiting(s) && Settled(s) && s.cfg.min >= 1 && w < |s.workers| && s.workers[w] == TimedOut
    ensures IsRun(s, acts) && s' == Final(s, acts) && Receiving(s', v)
    decreases SumBy(Distance(), s.workers)
  {
    if s.workerCount <= s.cfg.min {
      s', v := WorkStep(s, w), w;
      Prepend(s, Work(w), []);
      acts := [Work(w)] + [];
    } else {
      var u := OtherLeft(s, w);
      if s.workers[u] == Selecting {
        acts, s', v := [], s, u;
      } else {
        var a := Next(s, u);
        NextStep(s, u);
        CountersStep(s, a);
        SumNonNegative(Distance(), Apply(s, a).workers);
        if s.workers[u] == Resting {
          acts, s', v := [], Apply(s, a), u;
        } else {
          acts, s', v := StayOn(Apply(s, a), w);
        }
        Prepend(s, a, acts);
        acts := [a] + acts;
      }
    }
  }

  /** The adder has just decided to add workers. */
  ghost predicate Deciding(s: State) {
    Waiting(s) && s.adder.Counting?
  }

  // Once all workers have left none is idle, and the loaded values decide for adding.
  lemma AddFromWorkers(s: State) returns (acts: seq<Action>, s': State)
    requires Waiting(s) && s.adder.SawWorkers? && s.adder.w < s.cfg.max
    requires Above(s.adder.q, s.cfg.capacity, s.cfg.up) || (s.adder.w > 0 && s.cfg.up < 1.0)
    ensures IsRun(s, acts) && s' == Final(s, acts) && Deciding(s')
  {
    IdleBelowCount(s);
    var leave, s1 := ReduceTo(s, 0);
    if s.adder.w > 0 { UsageAtMostOne(s.adder.w, s.adder.w); }
    assert ScalesUp(s1.cfg, s1.adder.q, s1.adder.w, s1.idle);
    ScaleWaits(s1);
    s' := ScaleStep(s1);
    Prepend(s1, Scale, []);
    Join(s, leave, [Scale] + []);
    acts := leave + ([Scale] + []);
  }

  lemma AddFromQueue(s: State) returns (acts: seq<Action>, s': State)
    requires Waiting(s) && s.adder.SawQueue? && s.cfg.max > 0 && Above(s.adder.q, s.cfg.capacity, s.cfg.up)
    ensures IsRun(s, acts) && s' == Final(s, acts) && Deciding(s')
  {
    IdleBelowCount(s);
    var leave, s1 := ReduceTo(s, 0);
    ScaleWaits(s1);
    acts, s' := AddFromWorkers(ScaleStep(s1));
    Prepend(s1, Scale, acts);
    Join(s, leave, [Scale] + acts);
    acts := leave + ([Scale] + acts);
  }

  // The calls under way fill the queue.
  lemma {:induction false} FillUp(s: State) returns (acts: seq<Action>, s': State)
    requires Waiting(s) && s.cfg.capacity > 0
    ensures IsRun(s, acts) && s' == Final(s, acts) && Waiting(s')
    ensures |s'.queue| == Fill(s) && s'.cfg == s.cfg && s'.adder == s.adder
    decreases s.entered
  {
    if s.entered == 0 || |s.queue| == s.cfg.capacity {
      acts, s' := [], s;
    } else {
      CountersStep(s, Send(0));
      acts, s' := FillUp(Apply(s, Send(0)));
      Prepend(s, Send(0), acts);
      acts := [Send(0)] + acts;
    }
  }

  lemma AddFromQuiet(s: State) returns (acts: seq<Action>, s': State)
    requires Waiting(s) && s.adder == Quiet && NextScalingMayAdd(s)
    ensures IsRun(s, acts) && s' == Final(s, acts) && Deciding(s')
  {
    if s.cfg.max > 0 && Above(Fill(s), s.cfg.capacity, s.cfg.up) {
      var fill, s1 := FillUp(s);
      ScaleWaits(s1);
      acts, s' := AddFromQueue(ScaleStep(s1));
      Prepend(s1, Scale, acts);
      Join(s, fill, [Scale] + acts);
      acts := fill + ([Scale] + acts);
    } else {
      var leave, s1 := ReduceTo(s, 1);
      var s2 := ScaleStep(s1);
      ScaleWaits(s1);
      ScaleWaits(s2);
      acts, s' := AddFromWorkers(ScaleStep(s2));
      Prepend(s2, Scale, acts);
      Prepend(s1, Scale, [Scale] + acts);
      Join(s, leave, [Scale] + ([Scale] + acts));
      acts := leave + ([Scale] + ([Scale] + acts));
    }
  }

  // A scaling under way that need not add is finished first.
  lemma {:induction false} MakeAdd(s: State) returns (acts: seq<Action>, s': State)
    requires Waiting(s) && Settled(s) && AdderMayAdd(s)
    ensures IsRun(s, acts) && s' == Final(s, acts) && Deciding(s')
    decreases if s.adder.SawQueue? then 2 else if s.adder.SawWorkers? then 1 else 0
  {
    if s.adder == Quiet {
      acts, s' := AddFromQuiet(s);
    } else if s.adder.SawQueue? && s.cfg.max > 0 && Above(s.adder.q, s.cfg.capacity, s.cfg.up) {
      acts, s' := AddFromQueue(s);
    } else if s.adder.SawWorkers? && s.adder.w < s.cfg.max
              && (Above(s.adder.q, s.cfg.capacity, s.cfg.up) || (s.adder.w > 0 && s.cfg.up < 1.0)) {
      acts, s' := AddFromWorkers(s);
    } else {
      var s1 := ScaleStep(s);
      ScaleWaits(s);
      assert NextScalingMayAdd(s1);
      if s1.adder.Counting? {
        acts, s' := [], s1;
      } else {
        acts, s' := MakeAdd(s1);
      }
      Prepend(s, Scale, acts);
      acts := [Scale] + acts;
    }
  }

  // If some worker can come to receive a task, a run makes one wait for it.
  lemma MakeReceive(s: State) returns (acts: seq<Action>, s': State, w: nat)
    requires Waiting(s) && MayReceive(s)
    ensures IsRun(s, acts) && s' == Final(s, acts) && Receiving(s', w)
  {
    if !Settled(s) {
      acts, s', w := Spawn(s);
    } else if AdderMayAdd(s) {
      var add, s1 := MakeAdd(s);
      acts, s', w := Spawn(s1);
      Join(s, add, acts);
      acts := add + acts;
    } else {
      var i: nat :| i < |s.workers| && MaySelect(s.cfg, s.workers[i]);
      if s.workers[i] == Selecting {
        acts, s', w := [], s, i;
      } else if s.workers[i] == Resting {
        s', w := WorkStep(s, i), i;
        Prepend(s, Work(i), []);
        acts := [Work(i)] + [];
      } else {
        acts, s', w := StayOn(s, i);
      }
    }
  }

  lemma Receive(s: State, w: nat) returns (a: Action)
    requires Receiving(s, w)
    ensures Enabled(s, a) && Apply(s, a).locked && !NoneBusy(Apply(s, a))
  {
    a := if s.queue != [] then Take(w) else HandOff(0, w);
    assert Busy(Apply(s, a).workers[w]);
  }

  // ----- Exactly when

  /** However the pool goes on, Shutdown can return for as long as it waits. */
  ghost predicate CannotHang(s: State) {
    forall acts :: IsRun(s, acts) && Final(s, acts).locked ==> CanReturn(Final(s, acts))
  }

  lemma {:induction false} ReachedRun(s: State, acts: seq<Action>)
    requires IsRun(s, acts) && Reached(s)
    ensures Reached(Final(s, acts))
    decreases |acts|
  {
    if acts == [] {
    } else {
      ReachedStep(s, acts[0]);
      ReachedRun(Apply(s, acts[0]), acts[1..]);
    }
  }

  /** In every reachable state in which Shutdown waits, no continuation makes it wait for ever if and only if no worker
      has a task whose time it must still record, and none can still receive one: because no task is queued or being
      submitted, or because every worker is on its way out and the scaler cannot add another. */
  lemma CannotHangIff(cfg: Config, run: seq<Action>)
    requires IsRun(Initial(cfg), run) && Final(Initial(cfg), run).locked
    ensures var s := Final(Initial(cfg), run);
            CannotHang(s) <==> NoneBusy(s) && (NoTasks(s) || !MayReceive(s))
  {
    var s := Final(Initial(cfg), run);
    ReachedRun(Initial(cfg), run);
    if NoneBusy(s) && (NoTasks(s) || !MayReceive(s)) {
      forall acts | IsRun(s, acts) && Final(s, acts).locked ensures CanReturn(Final(s, acts)) {
        SafeRun(s, acts);
        CanReturnIff(Final(s, acts));
      }
    } else {
      var acts := [];
      if NoneBusy(s) {
        var come, s1, w := MakeReceive(s);
        var a := Receive(s1, w);
        Prepend(s1, a, []);
        Join(s, come, [a] + []);
        acts := come + ([a] + []);
      }
      ReachedRun(s, acts);
      CanReturnIff(Final(s, acts));
      assert IsRun(s, acts) && Final(s, acts).locked && !CanReturn(Final(s, acts));
    }
  }

  /** From the start, with any minimum: a call of Submit is under way when Shutdown begins, and its task reaches a
      worker that was about to leave. Shutdown could have returned, and now never does. */
  lemma ShutdownHangs(cfg: Config) returns (run: seq<Action>)
    requires cfg.min >= 1
    ensures IsRun(Initial(cfg), run) && IsRun(Initial(cfg), run + [HandOff(0, 0)])
    ensures Final(Initial(cfg), run).locked && CanReturn(Final(Initial(cfg), run))
    ensures Final(Initial(cfg), run + [HandOff(0, 0)]).locked && !CanReturn(Final(Initial(cfg), run + [HandOff(0, 0)]))
  {
    var build := Construct(cfg);
    var s := Final(Initial(cfg), build);
    var s1 := Apply(s, Submit);
    var s2 := Apply(s1, Shutdown);
    Prepend(s1, Shutdown, []);
    Prepend(s, Submit, [Shutdown] + []);
    run := build + ([Submit] + ([Shutdown] + []));
    Join(Initial(cfg), build, [Submit] + ([Shutdown] + []));
    CanReturnIff(s2);
    var s3 := Apply(s2, HandOff(0, 0));
    assert Busy(s3.workers[0]);
    CanReturnIff(s3);
    Prepend(s2, HandOff(0, 0), []);
    assert [HandOff(0, 0)] + [] == [HandOff(0, 0)];
    Join(Initial(cfg), run, [HandOff(0, 0)]);
  }
}
