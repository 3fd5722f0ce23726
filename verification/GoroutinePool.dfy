/**
 The goroutine pool as a step machine. One step is one channel operation, one atomic load or
 add, or one critical section; workers, submitters, the scaler and Shutdown interleave freely.
 */
module GoroutinePools {
  import opened Sums

  type Task = nat

  /** `up` is ScaleUpThreshold, `capacity` is QueueSize. */
  datatype Config = Config(min: int, max: int, capacity: nat, up: real)

  /** Where a worker is in its loop; each value names what it does next. */
  datatype Worker =
    | Selecting               // wait in select
    | Took(task: Task)        // idleWorkers -= 1
    | Running(task: Task)     // task returns
    | Ran                     // TasksCompleted += 1
    | Timing                  // updateTaskTime, which takes the pool's mutex
    | Resting                 // idleWorkers += 1
    | TimedOut                // load workerCount, compare with MinWorkers
    | Leaving                 // idleWorkers -= 1
    | Left                    // workerCount -= 1
    | Exited

  /** The one goroutine that adds workers: the constructor, then the scaler. After the worker it is
      adding now, `more` others are still to be added. */
  datatype Adder =
    | Quiet                              // load the queue length
    | SawQueue(q: nat)                   // load workerCount
    | SawWorkers(q: nat, w: int)         // load idleWorkers and decide
    | Counting(more: nat)                // workerCount += 1
    | Idling(more: nat)                  // idleWorkers += 1
    | Spawning(more: nat)                // start the goroutine
    | Stopped                            // the scaler has seen the cancellation

  /** `accepted`, `taken` and `finished` record the tasks sent to the channel, received from it, and returned. */
  datatype State = State(
    cfg: Config,
    queue: seq<Task>,
    workers: seq<Worker>,
    workerCount: int,
    idle: int,
    entered: nat,       // submitters that found the pool running and have not sent yet
    sending: nat,       // submitters between their send and the count of it
    submitted: nat,
    rejected: nat,
    completed: nat,
    adder: Adder,
    built: bool,        // the constructor has returned
    locked: bool,       // Shutdown holds the mutex
    cancelled: bool,    // Shutdown has reset `running` and cancelled the context
    accepted: seq<Task>,
    taken: seq<Task>,
    finished: seq<Task>)

  datatype Action =
    | Submit                      // a call reads `running`, and is rejected if that is reset
    | Send(t: Task)               // it puts t in the channel's buffer
    | HandOff(t: Task, w: nat)    // it hands t to a waiting worker
    | Refuse                      // it finds the buffer full, or times out
    | CountSubmit
    | Take(w: nat)
    | Timeout(w: nat)
    | SeeCancel(w: nat)
    | Work(w: nat)                // any other step of worker w
    | Scale                       // the next step of the adder
    | StopScaler
    | Shutdown
    | ShutdownReturns

  /** The adder when k workers are to be added. */
  function Adding(k: int): Adder {
    if k <= 0 then Quiet else Counting(k - 1)
  }

  function Initial(cfg: Config): State {
    State(cfg, [], [], 0, 0, 0, 0, 0, 0, 0, Adding(cfg.min), cfg.min <= 0, false, false, [], [], [])
  }

  predicate Runnable(s: State, w: Worker) {
    match w
    case Selecting => false
    case Exited => false
    case Timing => !s.locked
    case _ => true
  }

  predicate Enabled(s: State, a: Action) {
    match a
    case Submit => s.built
    case Send(_) => s.entered > 0 && |s.queue| < s.cfg.capacity
    case HandOff(_, w) => s.entered > 0 && w < |s.workers| && s.workers[w] == Selecting && s.queue == []
    case Refuse => s.entered > 0
    case CountSubmit => s.sending > 0
    case Take(w) => w < |s.workers| && s.workers[w] == Selecting && s.queue != []
    case Timeout(w) => w < |s.workers| && s.workers[w] == Selecting
    case SeeCancel(w) => w < |s.workers| && s.workers[w] == Selecting && s.cancelled
    case Work(w) => w < |s.workers| && Runnable(s, s.workers[w])
    case Scale => s.adder != Stopped
    case StopScaler => s.built && s.cancelled && s.adder == Quiet
    case Shutdown => s.built && !s.locked && !s.cancelled
    case ShutdownReturns => s.locked && AllExited(s)
  }

  predicate AllExited(s: State) {
    forall i :: 0 <= i < |s.workers| ==> s.workers[i] == Exited
  }

  function Goto(s: State, w: nat, at: Worker): State
    requires w < |s.workers|
  {
    s.(workers := s.workers[w := at])
  }

  function WorkStep(s: State, w: nat): State
    requires w < |s.workers| && Runnable(s, s.workers[w])
  {
    match s.workers[w]
    case Took(t) => Goto(s.(idle := s.idle - 1), w, Running(t))
    case Running(t) => Goto(s.(finished := s.finished + [t]), w, Ran)
    case Ran => Goto(s.(completed := s.completed + 1), w, Timing)
    case Timing => Goto(s, w, Resting)
    case Resting => Goto(s.(idle := s.idle + 1), w, Selecting)
    case TimedOut => Goto(s, w, if s.workerCount > s.cfg.min then Leaving else Selecting)
    case Leaving => Goto(s.(idle := s.idle - 1), w, Left)
    case Left => Goto(s.(workerCount := s.workerCount - 1), w, Exited)
  }

  /** Usage above the threshold. A quotient 0/0 is NaN and a negative number over 0 is -Inf: neither exceeds it. */
  predicate Above(used: int, whole: int, threshold: real) {
    whole > 0 && used as real / whole as real > threshold
  }

  lemma UsageAtMostOne(used: int, whole: int)
    requires used <= whole && whole > 0
    ensures used as real / whole as real <= 1.0 && (used == whole ==> used as real / whole as real == 1.0)
  {
    QuotientAtMostOne(used as real, whole as real);
  }

  lemma QuotientAtMostOne(x: real, y: real)
    requires x <= y && y > 0.0
    ensures x / y <= 1.0 && (x == y ==> x / y == 1.0)
  {
  }

  predicate ScalesUp(cfg: Config, q: int, w: int, idle: int) {
    (Above(q, cfg.capacity, cfg.up) || Above(w - idle, w, cfg.up)) && w < cfg.max
  }

  /** How many workers one performAutoScale adds, from the three values it loaded: some exactly when a usage is above
      the threshold below the maximum, and never more than there is room for. */
  function ScaleCount(cfg: Config, q: int, w: int, idle: int): (k: nat)
    ensures k >= 1 <==> ScalesUp(cfg, q, w, idle)
    ensures k >= 1 ==> k <= 10 && k <= cfg.max - w
  {
    if ScalesUp(cfg, q, w, idle) then
      var fifth := (cfg.max - w) / 5;
      if fifth < 1 then 1 else if fifth > 10 then 10 else fifth
    else 0
  }

  /** It is a fifth of the room, rounded down, when that is between 1 and 10. */
  lemma ScaleCountIsFifth(cfg: Config, q: int, w: int, idle: int)
    requires ScalesUp(cfg, q, w, idle)
    ensures var k, room := ScaleCount(cfg, q, w, idle), cfg.max - w;
            if room < 5 then k == 1 else if room >= 55 then k == 10 else 5 * k <= room < 5 * k + 5
  {
  }

  lemma AboveIff(used: int, whole: int, threshold: real)
    ensures Above(used, whole, threshold) <==> whole > 0 && used as real > threshold * whole as real
  {
    if whole > 0 {
      var quotient := used as real / whole as real;
      assert quotient * whole as real == used as real;
      if quotient > threshold {
        assert (quotient - threshold) * whole as real > 0.0;
      } else {
        assert (threshold - quotient) * whole as real >= 0.0;
      }
    }
  }

  /** Workers are added if and only if there are fewer than the maximum and the tasks queued, or the workers that are
      not idle, are more than their threshold's share of the queue's size, or of the workers. */
  lemma ScalesUpIff(cfg: Config, q: int, w: int, idle: int)
    ensures ScaleCount(cfg, q, w, idle) > 0
            <==> w < cfg.max && ((cfg.capacity > 0 && q as real > cfg.up * cfg.capacity as real)
                                 || (w > 0 && (w - idle) as real > cfg.up * w as real))
  {
    AboveIff(q, cfg.capacity, cfg.up);
    AboveIff(w - idle, w, cfg.up);
  }

  function ScaleStep(s: State): State {
    match s.adder
    case Quiet => s.(adder := SawQueue(|s.queue|))
    case SawQueue(q) => s.(adder := SawWorkers(q, s.workerCount))
    case SawWorkers(q, w) => s.(adder := Adding(ScaleCount(s.cfg, q, w, s.idle)))
    case Counting(more) => s.(workerCount := s.workerCount + 1, adder := Idling(more))
    case Idling(more) => s.(idle := s.idle + 1, adder := Spawning(more))
    case Spawning(more) =>
      s.(workers := s.workers + [Selecting], adder := Adding(more), built := s.built || more == 0)
    case Stopped => s
  }

  function Apply(s: State, a: Action): State
    requires Enabled(s, a)
  {
    match a
    case Submit => if s.cancelled then s.(rejected := s.rejected + 1) else s.(entered := s.entered + 1)
    case Send(t) =>
      s.(queue := s.queue + [t], accepted := s.accepted + [t], entered := s.entered - 1, sending := s.sending + 1)
    case HandOff(t, w) =>
      Goto(s.(accepted := s.accepted + [t], taken := s.taken + [t], entered := s.entered - 1,
          sending := s.sending + 1), w, Took(t))
    case Refuse => s.(rejected := s.rejected + 1, entered := s.entered - 1)
    case CountSubmit => s.(sending := s.sending - 1, submitted := s.submitted + 1)
    case Take(w) => Goto(s.(queue := s.queue[1..], taken := s.taken + [s.queue[0]]), w, Took(s.queue[0]))
    case Timeout(w) => Goto(s, w, TimedOut)
    case SeeCancel(w) => Goto(s, w, Leaving)
    case Work(w) => WorkStep(s, w)
    case Scale => ScaleStep(s)
    case StopScaler => s.(adder := Stopped)
    case Shutdown => s.(locked := true, cancelled := true)
    case ShutdownReturns => s.(locked := false)
  }

  ghost predicate IsRun(s: State, acts: seq<Action>)
    decreases |acts|
  {
    acts == [] || (Enabled(s, acts[0]) && IsRun(Apply(s, acts[0]), acts[1..]))
  }

  ghost function Final(s: State, acts: seq<Action>): State
    requires IsRun(s, acts)
    decreases |acts|
  {
    if acts == [] then s else Final(Apply(s, acts[0]), acts[1..])
  }

  // ----- What each worker contributes to the counters

  function Bit(b: bool): nat { if b then 1 else 0 }

  ghost function CountedOf(): Worker -> int { w => Bit(w != Exited) }

  ghost function IdleOf(): Worker -> int {
    (w: Worker) => Bit(w.Selecting? || w.Took? || w.TimedOut? || w.Leaving?)
  }

  ghost function Holds(t: Task): Worker -> int { w => Bit(w == Took(t) || w == Running(t)) }

  ghost function HoldsAny(): Worker -> int { (w: Worker) => Bit(w.Took? || w.Running?) }

  ghost function RanOf(): Worker -> int { (w: Worker) => Bit(w.Ran?) }

  /** The workers still to be counted by the adder. */
  function Remaining(a: Adder): nat {
    match a
    case Counting(more) => more + 1
    case Idling(more) => more
    case Spawning(more) => more
    case _ => 0
  }

  ghost predicate CountersExact(s: State) {
    && s.workerCount == SumBy(CountedOf(), s.workers) + Bit(s.adder.Idling? || s.adder.Spawning?)
    && s.idle == SumBy(IdleOf(), s.workers) + Bit(s.adder.Spawning?)
  }

  ghost predicate Bounded(s: State) {
    && s.workerCount + Remaining(s.adder) <= s.cfg.max
    && (s.adder.SawWorkers? ==> s.workerCount <= s.adder.w)
  }

  ghost predicate FlowExact(s: State) {
    && QueueExact(s)
    && s.completed + SumBy(RanOf(), s.workers) == |s.finished|
    && |s.taken| == SumBy(HoldsAny(), s.workers) + |s.finished|
  }

  ghost predicate TaskExact(s: State, t: Task) {
    Count(s.taken, t) == SumBy(Holds(t), s.workers) + Count(s.finished, t)
  }

  // ----- One step

  /** The actions that move one worker. */
  predicate Moves(a: Action) {
    a.HandOff? || a.Take? || a.Timeout? || a.SeeCancel? || a.Work?
  }

  function Count(s: seq<Task>, t: Task): nat {
    multiset(s)[t]
  }

  lemma CountAppend(s: seq<Task>, x: Task, t: Task)
    ensures Count(s + [x], t) == Count(s, t) + Bit(x == t)
  {
  }

  // What moving worker w does to the counters and the logs is what its new place contributes less what its old one did.
  ghost predicate CountsMove(s: State, s': State, w: nat) {
    && w < |s.workers| && |s'.workers| == |s.workers| && s'.workers == s.workers[w := s'.workers[w]]
    && s'.adder == s.adder
    && s'.workerCount - s.workerCount == CountedOf()(s'.workers[w]) - CountedOf()(s.workers[w])
    && s'.idle - s.idle == IdleOf()(s'.workers[w]) - IdleOf()(s.workers[w])
  }

  ghost predicate LogsMove(s: State, s': State, w: nat) {
    && w < |s.workers| && |s'.workers| == |s.workers| && s'.workers == s.workers[w := s'.workers[w]]
    && |s'.taken| + HoldsAny()(s.workers[w]) + |s.finished| == |s.taken| + HoldsAny()(s'.workers[w]) + |s'.finished|
    && |s'.finished| + RanOf()(s.workers[w]) + s.completed == |s.finished| + RanOf()(s'.workers[w]) + s'.completed
  }

  ghost predicate TaskMoves(s: State, s': State, w: nat, t: Task) {
    && w < |s.workers| && |s'.workers| == |s.workers| && s'.workers == s.workers[w := s'.workers[w]]
    && Count(s'.taken, t) + Holds(t)(s.workers[w]) + Count(s.finished, t)
       == Count(s.taken, t) + Holds(t)(s'.workers[w]) + Count(s'.finished, t)
  }

  lemma MoveCounts(s: State, a: Action)
    requires Enabled(s, a) && Moves(a)
    ensures CountsMove(s, Apply(s, a), a.w)
  {
    if a.Work? { WorkCounts(s, a.w); }
  }

  lemma WorkCounts(s: State, w: nat)
    requires w < |s.workers| && Runnable(s, s.workers[w])
    ensures CountsMove(s, WorkStep(s, w), w)
  {
    WorkCounted(s, w);
    WorkIdle(s, w);
  }

  lemma WorkCounted(s: State, w: nat)
    requires w < |s.workers| && Runnable(s, s.workers[w])
    ensures var s' := WorkStep(s, w);
            && s'.workers == s.workers[w := s'.workers[w]] && s'.adder == s.adder
            && s'.workerCount - s.workerCount == CountedOf()(s'.workers[w]) - CountedOf()(s.workers[w])
  {
  }

  lemma WorkIdle(s: State, w: nat)
    requires w < |s.workers| && Runnable(s, s.workers[w])
    ensures var s' := WorkStep(s, w);
            |s'.workers| == |s.workers|
            && s'.idle - s.idle == IdleOf()(s'.workers[w]) - IdleOf()(s.workers[w])
  {
  }

  lemma MoveLogs(s: State, a: Action)
    requires Enabled(s, a) && Moves(a)
    ensures LogsMove(s, Apply(s, a), a.w)
  {
    if a.Work? { WorkLogs(s, a.w); }
  }

  lemma WorkLogs(s: State, w: nat)
    requires w < |s.workers| && Runnable(s, s.workers[w])
    ensures LogsMove(s, WorkStep(s, w), w)
  {
  }

  lemma MoveTasks(s: State, a: Action, t: Task)
    requires Enabled(s, a) && Moves(a)
    ensures TaskMoves(s, Apply(s, a), a.w, t)
  {
    if a.Work? {
      WorkTasks(s, a.w, t);
    } else if a.HandOff? {
      HandOffTasks(s, a.t, a.w, t);
    } else if a.Take? {
      TakeTasks(s, a.w, t);
    } else {
      IdleTasks(s, a, t);
    }
  }

  lemma HandOffTasks(s: State, x: Task, w: nat, t: Task)
    requires Enabled(s, HandOff(x, w))
    ensures TaskMoves(s, Apply(s, HandOff(x, w)), w, t)
  {
    CountAppend(s.taken, x, t);
  }

  lemma TakeTasks(s: State, w: nat, t: Task)
    requires Enabled(s, Take(w))
    ensures TaskMoves(s, Apply(s, Take(w)), w, t)
  {
    CountAppend(s.taken, s.queue[0], t);
  }

  lemma IdleTasks(s: State, a: Action, t: Task)
    requires Enabled(s, a) && (a.Timeout? || a.SeeCancel?)
    ensures TaskMoves(s, Apply(s, a), a.w, t)
  {
  }

  lemma WorkTasks(s: State, w: nat, t: Task)
    requires w < |s.workers| && Runnable(s, s.workers[w])
    ensures TaskMoves(s, WorkStep(s, w), w, t)
  {
    if s.workers[w].Running? {
      CountAppend(s.finished, s.workers[w].task, t);
    }
  }

  ghost predicate QueueExact(s: State) {
    s.taken + s.queue == s.accepted && s.submitted + s.sending == |s.accepted|
  }

  lemma MoveQueue(s: State, a: Action)
    requires Enabled(s, a) && QueueExact(s)
    ensures QueueExact(Apply(s, a))
  {
    if a.Work? {
      WorkQueue(s, a.w);
    } else if a.Take? {
      TakeQueue(s, a.w);
    } else if a.HandOff? || a.Send? {
      EnterQueue(s, a);
    } else if !a.Scale? {
      KeepQueue(s, a);
    }
  }

  lemma TakeQueue(s: State, w: nat)
    requires Enabled(s, Take(w)) && QueueExact(s)
    ensures QueueExact(Apply(s, Take(w)))
  {
    assert s.queue == [s.queue[0]] + s.queue[1..];
  }

  lemma EnterQueue(s: State, a: Action)
    requires Enabled(s, a) && QueueExact(s) && (a.HandOff? || a.Send?)
    ensures QueueExact(Apply(s, a))
  {
  }

  lemma KeepQueue(s: State, a: Action)
    requires Enabled(s, a) && QueueExact(s)
    requires !a.Work? && !a.Take? && !a.HandOff? && !a.Send? && !a.Scale?
    ensures QueueExact(Apply(s, a))
  {
  }

  lemma WorkQueue(s: State, w: nat)
    requires w < |s.workers| && Runnable(s, s.workers[w])
    ensures var s' := WorkStep(s, w);
            s'.taken == s.taken && s'.queue == s.queue && s'.accepted == s.accepted && s'.submitted == s.submitted
                && s'.sending == s.sending
  {
  }

  lemma MovedCounters(s: State, s': State, w: nat)
    requires CountersExact(s) && CountsMove(s, s', w)
    ensures CountersExact(s')
  {
    SumUpdate(CountedOf(), s.workers, w, s'.workers[w]);
    SumUpdate(IdleOf(), s.workers, w, s'.workers[w]);
  }

  lemma MovedFlow(s: State, s': State, w: nat)
    requires FlowExact(s) && LogsMove(s, s', w)
    requires QueueExact(s')
    ensures FlowExact(s')
  {
    SumUpdate(RanOf(), s.workers, w, s'.workers[w]);
    SumUpdate(HoldsAny(), s.workers, w, s'.workers[w]);
  }

  lemma MovedTask(s: State, s': State, w: nat, t: Task)
    requires TaskExact(s, t) && TaskMoves(s, s', w, t)
    ensures TaskExact(s', t)
  {
    SumUpdate(Holds(t), s.workers, w, s'.workers[w]);
  }

  lemma ScaleCounters(s: State)
    requires CountersExact(s)
    ensures CountersExact(ScaleStep(s))
  {
    if s.adder.Spawning? { SpawnCounters(s, Adding(s.adder.more), s.built || s.adder.more == 0); }
  }

  lemma SpawnCounters(s: State, next: Adder, built: bool)
    requires CountersExact(s) && s.adder.Spawning? && !next.Idling? && !next.Spawning?
    ensures CountersExact(s.(workers := s.workers + [Selecting], adder := next, built := built))
  {
    SumAppend(CountedOf(), s.workers, Selecting);
    SumAppend(IdleOf(), s.workers, Selecting);
  }

  lemma ScaleBounded(s: State)
    requires CountersExact(s) && Bounded(s)
    ensures Bounded(ScaleStep(s))
  {
  }

  lemma CountersStep(s: State, a: Action)
    requires Enabled(s, a) && CountersExact(s)
    ensures CountersExact(Apply(s, a))
  {
    if Moves(a) {
      MoveCounts(s, a);
      MovedCounters(s, Apply(s, a), a.w);
    } else if a.Scale? {
      ScaleCounters(s);
    }
  }

  lemma BoundedStep(s: State, a: Action)
    requires Enabled(s, a) && CountersExact(s) && Bounded(s)
    ensures Bounded(Apply(s, a))
  {
    if Moves(a) {
      MoveCounts(s, a);
    } else if a.Scale? {
      ScaleBounded(s);
    }
  }

  // A new worker adds nothing to a sum that waiting workers do not count in.
  lemma ScaleSum(f: Worker -> int, s: State)
    requires f(Selecting) == 0
    ensures SumBy(f, ScaleStep(s).workers) == SumBy(f, s.workers)
  {
    if s.adder.Spawning? { SumAppend(f, s.workers, Selecting); }
  }

  lemma FlowScale(s: State)
    requires FlowExact(s) && QueueExact(ScaleStep(s))
    ensures FlowExact(ScaleStep(s))
  {
    ScaleSum(RanOf(), s);
    ScaleSum(HoldsAny(), s);
  }

  lemma FlowOther(s: State, a: Action)
    requires Enabled(s, a) && FlowExact(s) && QueueExact(Apply(s, a)) && !Moves(a) && !a.Scale?
    ensures FlowExact(Apply(s, a))
  {
  }

  lemma FlowStep(s: State, a: Action)
    requires Enabled(s, a) && FlowExact(s)
    ensures FlowExact(Apply(s, a))
  {
    MoveQueue(s, a);
    if Moves(a) {
      MoveLogs(s, a);
      MovedFlow(s, Apply(s, a), a.w);
    } else if a.Scale? {
      FlowScale(s);
    } else {
      FlowOther(s, a);
    }
  }

  lemma TaskStep(s: State, a: Action, t: Task)
    requires Enabled(s, a) && TaskExact(s, t)
    ensures TaskExact(Apply(s, a), t)
  {
    if Moves(a) {
      MoveTasks(s, a, t);
      MovedTask(s, Apply(s, a), a.w, t);
    } else if a.Scale? {
      ScaleSum(Holds(t), s);
    }
  }

  // ----- Whole runs

  lemma {:induction false} CountersRun(s: State, acts: seq<Action>)
    requires IsRun(s, acts) && CountersExact(s)
    ensures CountersExact(Final(s, acts)) && Final(s, acts).cfg == s.cfg
    decreases |acts|
  {
    if acts == [] {
    } else {
      CountersStep(s, acts[0]);
      CountersRun(Apply(s, acts[0]), acts[1..]);
    }
  }

  lemma {:induction false} BoundedRun(s: State, acts: seq<Action>)
    requires IsRun(s, acts) && CountersExact(s) && Bounded(s)
    ensures Bounded(Final(s, acts))
    decreases |acts|
  {
    if acts == [] {
    } else {
      CountersStep(s, acts[0]);
      BoundedStep(s, acts[0]);
      BoundedRun(Apply(s, acts[0]), acts[1..]);
    }
  }

  lemma {:induction false} FlowRun(s: State, acts: seq<Action>, t: Task)
    requires IsRun(s, acts) && FlowExact(s) && TaskExact(s, t)
    ensures FlowExact(Final(s, acts)) && TaskExact(Final(s, acts), t)
    decreases |acts|
  {
    if acts == [] {
    } else {
      FlowStep(s, acts[0]);
      TaskStep(s, acts[0], t);
      FlowRun(Apply(s, acts[0]), acts[1..], t);
    }
  }

  /** Every interleaving: 0 <= idleWorkers <= workerCount <= MaxWorkers, when MinWorkers and 0 are at most MaxWorkers.
      */
  lemma WorkerBounds(cfg: Config, acts: seq<Action>)
    requires cfg.min <= cfg.max && 0 <= cfg.max && IsRun(Initial(cfg), acts)
    ensures var s := Final(Initial(cfg), acts);
            0 <= s.idle <= s.workerCount <= cfg.max
  {
    CountersRun(Initial(cfg), acts);
    BoundedRun(Initial(cfg), acts);
    IdleBelowCount(Final(Initial(cfg), acts));
  }

  lemma IdleBelowCount(s: State)
    requires CountersExact(s)
    ensures 0 <= s.idle <= s.workerCount
  {
    SumNonNegative(IdleOf(), s.workers);
    SumMonotone(IdleOf(), CountedOf(), s.workers);
  }

  /** Every interleaving: tasks are received in the order they were accepted, and each accepted task is queued,
      in the hands of a worker, or finished, as often as it was accepted: none is lost and none runs twice. */
  lemma TaskFlow(cfg: Config, acts: seq<Action>, t: Task)
    requires IsRun(Initial(cfg), acts)
    ensures var s := Final(Initial(cfg), acts);
            && s.taken + s.queue == s.accepted
            && Count(s.accepted, t) == Count(s.queue, t) + SumBy(Holds(t), s.workers) + Count(s.finished, t)
            && |s.accepted| == |s.queue| + SumBy(HoldsAny(), s.workers) + |s.finished|
            && s.submitted + s.sending == |s.accepted|
            && s.completed + SumBy(RanOf(), s.workers) == |s.finished|
  {
    FlowRun(Initial(cfg), acts, t);
    var s := Final(Initial(cfg), acts);
    assert Count(s.taken + s.queue, t) == Count(s.taken, t) + Count(s.queue, t);
  }

  /** The calls of Submit in a run. */
  function Submits(acts: seq<Action>): nat {
    if acts == [] then 0 else (if acts[0].Submit? then 1 else 0) + Submits(acts[1..])
  }

  lemma SubmitCounted(s: State, a: Action)
    requires Enabled(s, a)
    ensures var s' := Apply(s, a);
            s'.entered + s'.sending + s'.submitted + s'.rejected
            == s.entered + s.sending + s.submitted + s.rejected + if a.Submit? then 1 else 0
  {
    match a
    case Work(w) => WorkSubmits(s, w);
    case _ =>
  }

  lemma WorkSubmits(s: State, w: nat)
    requires w < |s.workers| && Runnable(s, s.workers[w])
    ensures var s' := WorkStep(s, w);
            && s'.entered == s.entered && s'.sending == s.sending
            && s'.submitted == s.submitted && s'.rejected == s.rejected
  {
  }

  lemma {:induction false} SubmitsRun(s: State, acts: seq<Action>)
    requires IsRun(s, acts)
    ensures var f := Final(s, acts);
            f.entered + f.sending + f.submitted + f.rejected
            == s.entered + s.sending + s.submitted + s.rejected + Submits(acts)
    decreases |acts|
  {
    if acts == [] {
    } else {
      SubmitCounted(s, acts[0]);
      SubmitsRun(Apply(s, acts[0]), acts[1..]);
    }
  }

  /** Every call of Submit is counted once it is over, as submitted or as rejected. */
  lemma SubmitsExact(cfg: Config, acts: seq<Action>)
    requires IsRun(Initial(cfg), acts)
    ensures var s := Final(Initial(cfg), acts);
            s.submitted + s.rejected == Submits(acts) - s.entered - s.sending
  {
    SubmitsRun(Initial(cfg), acts);
  }

  lemma Prepend(s: State, a: Action, rest: seq<Action>)
    requires Enabled(s, a) && IsRun(Apply(s, a), rest)
    ensures IsRun(s, [a] + rest) && Final(s, [a] + rest) == Final(Apply(s, a), rest)
  {
    assert ([a] + rest)[1..] == rest;
  }

  lemma {:induction false} Join(s: State, a: seq<Action>, b: seq<Action>)
    requires IsRun(s, a) && IsRun(Final(s, a), b)
    ensures IsRun(s, a + b) && Final(s, a + b) == Final(Final(s, a), b)
    decreases |a|
  {
    if a == [] {
      assert a + b == b;
    } else {
      assert (a + b)[0] == a[0] && (a + b)[1..] == a[1..] + b;
      Join(Apply(s, a[0]), a[1..], b);
    }
  }

  function Idlers(k: nat): (r: seq<Worker>)
    ensures |r| == k && forall i :: 0 <= i < k ==> r[i] == Selecting
  {
    seq(k, i => Selecting)
  }

  /** Where the adder takes the pool when it adds its k workers and nothing else happens. */
  function Added(s: State, k: nat): State {
    s.(workers := s.workers + Idlers(k), workerCount := s.workerCount + k, idle := s.idle + k, adder := Quiet,
        built := true)
  }

  // The steps that add every worker the adder still has to add.
  lemma {:induction false} AddAll(s: State) returns (acts: seq<Action>)
    requires s.adder.Counting?
    ensures IsRun(s, acts) && Final(s, acts) == Added(s, s.adder.more + 1)
    decreases s.adder.more
  {
    var k := s.adder.more;
    var s3 := ScaleStep(ScaleStep(ScaleStep(s)));
    acts := [];
    assert s.workers + Idlers(k + 1) == s.workers + [Selecting] + Idlers(k);
    if k > 0 {
      acts := AddAll(s3);
    } else {
      assert s.workers + Idlers(1) == s.workers + [Selecting];
    }
    Prepend(ScaleStep(ScaleStep(s)), Scale, acts);
    Prepend(ScaleStep(s), Scale, [Scale] + acts);
    Prepend(s, Scale, [Scale] + ([Scale] + acts));
    acts := [Scale] + ([Scale] + ([Scale] + acts));
  }

  /** The scaler's pass alone, from the queue, workers and idle workers as they are. */
  lemma ScalePass(s: State) returns (acts: seq<Action>, k: nat)
    requires s.adder == Quiet && s.built
    ensures IsRun(s, acts) && Final(s, acts) == Added(s, k)
    ensures k == ScaleCount(s.cfg, |s.queue|, s.workerCount, s.idle)
  {
    k := ScaleCount(s.cfg, |s.queue|, s.workerCount, s.idle);
    var s1 := ScaleStep(s);
    var s2 := ScaleStep(s1);
    var s3 := ScaleStep(s2);
    acts := [];
    if k > 0 {
      acts := AddAll(s3);
    } else {
      assert s.workers + Idlers(0) == s.workers;
    }
    Prepend(s2, Scale, acts);
    Prepend(s1, Scale, [Scale] + acts);
    Prepend(s, Scale, [Scale] + ([Scale] + acts));
    acts := [Scale] + ([Scale] + ([Scale] + acts));
  }

  /** The constructor alone: MinWorkers workers, all waiting. */
  lemma Construct(cfg: Config) returns (acts: seq<Action>)
    requires cfg.min > 0
    ensures IsRun(Initial(cfg), acts) && Final(Initial(cfg), acts) == Added(Initial(cfg), cfg.min)
  {
    acts := AddAll(Initial(cfg));
  }

  /** The maximum is respected in every run exactly when neither MinWorkers nor 0 exceeds it. */
  lemma WorkerMaximumIff(cfg: Config)
    ensures (forall acts :: IsRun(Initial(cfg), acts) ==> Final(Initial(cfg), acts).workerCount <= cfg.max)
            <==> cfg.min <= cfg.max && 0 <= cfg.max
  {
    if cfg.min <= cfg.max && 0 <= cfg.max {
      forall acts | IsRun(Initial(cfg), acts) ensures Final(Initial(cfg), acts).workerCount <= cfg.max {
        WorkerBounds(cfg, acts);
      }
    } else {
      var acts := [];
      if cfg.min > 0 { acts := Construct(cfg); }
      assert IsRun(Initial(cfg), acts) && Final(Initial(cfg), acts).workerCount > cfg.max;
    }
  }
}
