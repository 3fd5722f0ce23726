/** When the pool's size counter wraps below zero. */
module PoolWrapping {
  import opened Sums
  import opened PoolMachine
  import opened PoolSafety
  import opened PoolCounting

  // ----- A run in which it does

  lemma Prepend(s: State, a: Action, rest: seq<Action>)
    requires Enabled(s, a) && IsRun(Apply(s, a), rest)
    ensures IsRun(s, [a] + rest) && Final(s, [a] + rest) == Final(Apply(s, a), rest)
  {
    assert ([a] + rest)[1..] == rest;
  }

  // A thread that pops the only node and counts it, before the push of it is counted.
  lemma PopEarly(s: State, t: nat) returns (acts: seq<Action>)
    requires s.heap == map[0 := Node(0, None)] && s.head == Some(0) && s.count == 0
    requires t < |s.threads| && s.threads[t].pc == Idle
    ensures IsRun(s, acts) && Final(s, acts).head == None && Final(s, acts).count == WORD - 1
  {
    var s1 := Apply(s, StartGet(t));
    var s2 := Apply(s1, Run(t));
    var s3 := Apply(s2, Run(t));
    var s4 := Apply(s3, Run(t));
    Prepend(s4, Run(t), []);
    Prepend(s3, Run(t), [Run(t)]);
    Prepend(s2, Run(t), [Run(t)] + [Run(t)]);
    Prepend(s1, Run(t), [Run(t)] + ([Run(t)] + [Run(t)]));
    Prepend(s, StartGet(t), [Run(t)] + ([Run(t)] + ([Run(t)] + [Run(t)])));
    acts := [StartGet(t)] + ([Run(t)] + ([Run(t)] + ([Run(t)] + [Run(t)])));
  }

  // Thread 0 links its node into the empty list, and thread 1 pops it before the push is counted.
  lemma PushThenPop(s: State) returns (acts: seq<Action>)
    requires s.heap == map[0 := Node(0, None)] && s.head == None && s.count == 0
    requires |s.threads| >= 2 && s.threads[0].pc == PutLoad(0, 0) && s.threads[1].pc == Idle
    ensures IsRun(s, acts) && Final(s, acts).head == None && Final(s, acts).count == WORD - 1
  {
    var s1 := Apply(s, Run(0));
    var s2 := Apply(s1, Run(0));
    var s3 := Apply(s2, Run(0));
    acts := PopEarly(s3, 1);
    Prepend(s2, Run(0), acts);
    Prepend(s1, Run(0), [Run(0)] + acts);
    Prepend(s, Run(0), [Run(0)] + ([Run(0)] + acts));
    acts := [Run(0)] + ([Run(0)] + ([Run(0)] + acts));
  }

  /** With two callers the counter can read 2^64 - 1 over an empty list. */
  lemma CounterWraps(s: State) returns (acts: seq<Action>)
    requires Initial(s) && |s.threads| >= 2 && s.max >= 1
    ensures IsRun(s, acts) && Final(s, acts).head == None && Final(s, acts).count == WORD - 1
  {
    var s1 := Apply(s, NewBuffer(0, 0));
    var s2 := Apply(s1, StartPut(0, 0));
    var s3 := Apply(s2, Check(0, 0));
    acts := PushThenPop(s3);
    Prepend(s2, Check(0, 0), acts);
    Prepend(s1, StartPut(0, 0), [Check(0, 0)] + acts);
    Prepend(s, NewBuffer(0, 0), [StartPut(0, 0)] + ([Check(0, 0)] + acts));
    acts := [NewBuffer(0, 0)] + ([StartPut(0, 0)] + ([Check(0, 0)] + acts));
  }

  // ----- One caller

  /** A push is counted by its own thread before that thread can pop. */
  ghost predicate OneCaller(s: State, list: seq<Addr>) {
    && StackInv(s, list) && CountInv(s, list) && |s.threads| == 1
    && (s.threads[0].pc.PutCount? ==> list != [])
  }

  lemma OneCallerStep(s: State, list: seq<Addr>, a: Action)
    requires OneCaller(s, list) && Enabled(s, a)
    ensures OneCaller(Apply(s, a), StepList(s, list, a))
  {
    StackStep(s, list, a);
    CountStep(s, list, a);
    Constants(s, a);
  }

  lemma {:induction false} OneCallerRun(s: State, list: seq<Addr>, acts: seq<Action>)
    requires OneCaller(s, list) && IsRun(s, acts)
    ensures OneCaller(Final(s, acts), RunList(s, list, acts))
    decreases |acts|
  {
    if acts == [] {
    } else {
      OneCallerStep(s, list, acts[0]);
      OneCallerRun(Apply(s, acts[0]), StepList(s, list, acts[0]), acts[1..]);
    }
  }

  /** With one caller the true count is never negative, so the counter never wraps below zero. */
  lemma OneCallerCounts(s: State, acts: seq<Action>, list: seq<Addr>)
    requires Initial(s) && IsRun(s, acts) && |s.threads| == 1
    requires IsChain(Final(s, acts).heap, Final(s, acts).head, list)
    ensures TrueCount(Final(s, acts), list) >= 0 && (list == [] ==> TrueCount(Final(s, acts), list) <= 1)
    ensures Final(s, acts).count == TrueCount(Final(s, acts), list) % WORD
  {
    InitialCounts(s);
    OneCallerRun(s, [], acts);
    var f := Final(s, acts);
    ChainUnique(f.heap, f.head, list, RunList(s, [], acts));
    assert f.threads == [f.threads[0]];
    assert SumBy(PushUncounted, f.threads) == PushUncounted(f.threads[0]) + SumBy(PushUncounted, f.threads[1..]);
    assert SumBy(PopUncounted, f.threads) == PopUncounted(f.threads[0]) + SumBy(PopUncounted, f.threads[1..]);
  }

  // ----- A pool of size zero

  predicate Bypasses(pc: Pc) {
    pc.Idle? || pc.GetLoad? || pc.GetSync? || pc.PutCheck? || pc.PutSync?
  }

  /** Every buffer goes to sync.Pool: the list and the counter are never touched. */
  ghost predicate Unused(s: State) {
    s.head == None && s.count == 0 && s.max == 0 && forall t :: 0 <= t < |s.threads| ==> Bypasses(s.threads[t].pc)
  }

  lemma BypassRun(s: State, t: nat)
    requires Unused(s) && Enabled(s, Run(t)) && Bypasses(s.threads[t].pc)
    ensures var s' := RunStep(s, t);
            s'.head == None && s'.count == 0 && s'.max == 0 && Bypasses(s'.threads[t].pc)
  {
  }

  lemma BypassStep(s: State, a: Action)
    requires Unused(s) && Enabled(s, a) && !a.Lose? && !a.Run? && Bypasses(s.threads[a.t].pc)
    ensures var s' := Apply(s, a);
            s'.head == None && s'.count == 0 && s'.max == 0 && Bypasses(s'.threads[a.t].pc)
  {
  }

  lemma UnusedStep(s: State, a: Action)
    requires Unused(s) && Enabled(s, a)
    ensures Unused(Apply(s, a))
  {
    if !a.Lose? {
      OneThread(s, a);
      assert Bypasses(s.threads[a.t].pc);
      if a.Run? { BypassRun(s, a.t); } else { BypassStep(s, a); }
    }
  }

  lemma {:induction false} UnusedRun(s: State, acts: seq<Action>)
    requires Unused(s) && IsRun(s, acts)
    ensures Unused(Final(s, acts))
    decreases |acts|
  {
    if acts == [] {
    } else {
      UnusedStep(s, acts[0]);
      UnusedRun(Apply(s, acts[0]), acts[1..]);
    }
  }

  // ----- Exactly when

  /** A run after which the counter reads 2^64 - 1 although the list is empty. */
  ghost predicate WrapsIn(s: State, acts: seq<Action>) {
    IsRun(s, acts) && Final(s, acts).head == None && Final(s, acts).count == WORD - 1
  }

  lemma {:induction false} NoThreadsRun(s: State, acts: seq<Action>)
    requires |s.threads| == 0 && s.count == 0 && IsRun(s, acts)
    ensures Final(s, acts).count == 0
    decreases |acts|
  {
    if acts == [] {
    } else {
      NoThreadsRun(Apply(s, acts[0]), acts[1..]);
    }
  }

  /** Some run wraps the counter below zero if and only if there are two callers and room for a buffer. */
  lemma CounterWrapsIff(s: State)
    requires Initial(s)
    ensures (exists acts :: WrapsIn(s, acts)) <==> |s.threads| >= 2 && s.max >= 1
  {
    if |s.threads| >= 2 && s.max >= 1 {
      var acts := CounterWraps(s);
      assert WrapsIn(s, acts);
    } else {
      forall acts | IsRun(s, acts) ensures !WrapsIn(s, acts) {
        if |s.threads| == 0 {
          NoThreadsRun(s, acts);
        } else if s.max == 0 {
          UnusedRun(s, acts);
        } else if Final(s, acts).head == None {
          assert IsChain(Final(s, acts).heap, Final(s, acts).head, []);
          OneCallerCounts(s, acts, []);
        }
      }
    }
  }
}
