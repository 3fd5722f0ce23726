/** The pool's size counter, its size bound and lock-freedom, in every interleaving. */
module PoolCounting {
  import opened Sums
  import opened PoolMachine
  import opened PoolSafety

  // ----- The counter

  ghost function PushUncounted(th: Thread): int { if th.pc.PutCount? then 1 else 0 }
  ghost function PopUncounted(th: Thread): int { if th.pc.GetCount? then 1 else 0 }
  ghost function MayPush(th: Thread): int { if th.pc.PutLoad? || th.pc.PutLink? || th.pc.PutCas? then 1 else 0 }
  ghost function Pushing(th: Thread): int { PushUncounted(th) + MayPush(th) }

  /** The list length, less the pushes and plus the pops that are not yet counted. It can be
      negative: a pop may be counted before the push that it pops. */
  ghost function TrueCount(s: State, list: seq<Addr>): int {
    |list| - SumBy(PushUncounted, s.threads) + SumBy(PopUncounted, s.threads)
  }

  ghost predicate CountInv(s: State, list: seq<Addr>) {
    s.count == TrueCount(s, list) % WORD
  }

  ghost function Delta(s: State, a: Action): int
    requires Enabled(s, a)
  {
    if !a.Run? then 0
    else if s.threads[a.t].pc.GetCount? then -1
    else if s.threads[a.t].pc.PutCount? then 1
    else 0
  }

  // What the step does to the list and to its own thread's share.
  lemma ShareRun(s: State, list: seq<Addr>, t: nat)
    requires Enabled(s, Run(t)) && (CasSucceeds(s, Run(t)) && s.threads[t].pc.GetCas? ==> list != [])
    ensures var th, th' := s.threads[t], RunStep(s, t).threads[t];
            |StepList(s, list, Run(t))| - PushUncounted(th') + PopUncounted(th')
            == |list| - PushUncounted(th) + PopUncounted(th) + Delta(s, Run(t))
  {
  }

  lemma ShareStep(s: State, a: Action)
    requires Enabled(s, a) && !a.Lose? && !a.Run?
    ensures var th, th' := s.threads[a.t], Apply(s, a).threads[a.t];
            PushUncounted(th') == PushUncounted(th) && PopUncounted(th') == PopUncounted(th)
  {
  }

  lemma TrueCountStep(s: State, list: seq<Addr>, a: Action)
    requires StackInv(s, list) && Enabled(s, a)
    ensures TrueCount(Apply(s, a), StepList(s, list, a)) == TrueCount(s, list) + Delta(s, a)
  {
    if !a.Lose? {
      OneThread(s, a);
      if a.Run? { ShareRun(s, list, a.t); } else { ShareStep(s, a); }
      SumUpdate(PushUncounted, s.threads, a.t, Apply(s, a).threads[a.t]);
      SumUpdate(PopUncounted, s.threads, a.t, Apply(s, a).threads[a.t]);
    }
  }

  lemma ModStep(c: int, d: int)
    requires -1 <= d <= 1
    ensures (c % WORD + WORD + d) % WORD == (c + d) % WORD
  {
    var q := c / WORD;
    assert c == q * WORD + c % WORD;
    var r := c % WORD + d;
    if r < 0 {
      assert c + d == (q - 1) * WORD + (WORD - 1);
    } else if r == WORD {
      assert c + d == (q + 1) * WORD;
    } else {
      assert c + d == q * WORD + r;
    }
  }

  lemma CountStep(s: State, list: seq<Addr>, a: Action)
    requires StackInv(s, list) && CountInv(s, list) && Enabled(s, a)
    ensures CountInv(Apply(s, a), StepList(s, list, a))
  {
    TrueCountStep(s, list, a);
    ModStep(TrueCount(s, list), Delta(s, a));
    ModStep(TrueCount(s, list), 0);
  }

  // ----- The size bound

  /** Threads that have passed the check count towards the list before they push. */
  ghost predicate BoundInv(s: State, list: seq<Addr>) {
    |list| + SumBy(MayPush, s.threads) <= s.max + |s.threads| - 1
  }

  lemma PushingAtMost(s: State)
    ensures SumBy(PushUncounted, s.threads) + SumBy(MayPush, s.threads) <= |s.threads|
    ensures 0 <= SumBy(PushUncounted, s.threads) && 0 <= SumBy(MayPush, s.threads)
    ensures 0 <= SumBy(PopUncounted, s.threads) <= |s.threads|
  {
    SumSplit(PushUncounted, MayPush, Pushing, s.threads);
    SumAtMostLength(Pushing, s.threads);
    SumAtMostLength(PopUncounted, s.threads);
    SumNonNegative(PushUncounted, s.threads);
    SumNonNegative(MayPush, s.threads);
    SumNonNegative(PopUncounted, s.threads);
  }

  // The word read by the check is the true count, unless that is negative and the word is huge.
  lemma CheckedCount(s: State, list: seq<Addr>)
    requires CountInv(s, list) && BoundInv(s, list) && s.count < s.max
    requires s.max + 2 * |s.threads| <= WORD
    ensures TrueCount(s, list) == s.count
  {
    PushingAtMost(s);
    assert TrueCount(s, list) + WORD >= 0 && TrueCount(s, list) < WORD;
  }

  ghost function MayPushDelta(s: State, a: Action): int
    requires Enabled(s, a)
  {
    if a.Check? && s.count < s.max then 1 else if CasSucceeds(s, a) && s.threads[a.t].pc.PutCas? then -1 else 0
  }

  lemma MayPushRun(s: State, t: nat)
    requires Enabled(s, Run(t))
    ensures MayPush(RunStep(s, t).threads[t]) == MayPush(s.threads[t]) + MayPushDelta(s, Run(t))
  {
  }

  lemma MayPushShare(s: State, a: Action)
    requires Enabled(s, a) && !a.Lose? && !a.Run?
    ensures MayPush(Apply(s, a).threads[a.t]) == MayPush(s.threads[a.t]) + MayPushDelta(s, a)
  {
  }

  lemma MayPushStep(s: State, a: Action)
    requires Enabled(s, a)
    ensures SumBy(MayPush, Apply(s, a).threads) == SumBy(MayPush, s.threads) + MayPushDelta(s, a)
  {
    if !a.Lose? {
      OneThread(s, a);
      if a.Run? { MayPushRun(s, a.t); } else { MayPushShare(s, a); }
      SumUpdate(MayPush, s.threads, a.t, Apply(s, a).threads[a.t]);
    }
  }

  lemma BoundStep(s: State, list: seq<Addr>, a: Action)
    requires StackInv(s, list) && CountInv(s, list) && BoundInv(s, list) && Enabled(s, a)
    requires s.max + 2 * |s.threads| <= WORD
    ensures BoundInv(Apply(s, a), StepList(s, list, a))
  {
    MayPushStep(s, a);
    Constants(s, a);
    if a.Check? && s.count < s.max {
      CheckedCount(s, list);
      TrueCountStep(s, list, a);
      PushingAtMost(Apply(s, a));
    }
  }

  lemma Constants(s: State, a: Action)
    requires Enabled(s, a)
    ensures Apply(s, a).max == s.max && |Apply(s, a).threads| == |s.threads|
  {
  }

  lemma {:induction false} CountRun(s: State, list: seq<Addr>, acts: seq<Action>)
    requires StackInv(s, list) && CountInv(s, list) && IsRun(s, acts)
    ensures var f, l := Final(s, acts), RunList(s, list, acts);
            StackInv(f, l) && CountInv(f, l) && f.max == s.max && |f.threads| == |s.threads|
    ensures BoundInv(s, list) && s.max + 2 * |s.threads| <= WORD ==> BoundInv(Final(s, acts), RunList(s, list, acts))
    decreases |acts|
  {
    if acts == [] {
    } else {
      StackStep(s, list, acts[0]);
      CountStep(s, list, acts[0]);
      Constants(s, acts[0]);
      if BoundInv(s, list) && s.max + 2 * |s.threads| <= WORD { BoundStep(s, list, acts[0]); }
      CountRun(Apply(s, acts[0]), StepList(s, list, acts[0]), acts[1..]);
    }
  }

  lemma InitialCounts(s: State)
    requires Initial(s)
    ensures StackInv(s, []) && CountInv(s, [])
    ensures |s.threads| >= 1 ==> BoundInv(s, [])
  {
    InitialInv(s);
    SumAllZero(PushUncounted, s.threads);
    SumAllZero(PopUncounted, s.threads);
    SumAllZero(MayPush, s.threads);
  }

  /** In every interleaving, the counter is, modulo 2^64, the list length minus the pushes not yet
      counted plus the pops not yet counted. */
  lemma CounterMeaning(s: State, acts: seq<Action>, list: seq<Addr>)
    requires Initial(s) && IsRun(s, acts)
    requires IsChain(Final(s, acts).heap, Final(s, acts).head, list)
    ensures Final(s, acts).count == TrueCount(Final(s, acts), list) % WORD
  {
    InitialCounts(s);
    CountRun(s, [], acts);
    ChainUnique(Final(s, acts).heap, Final(s, acts).head, list, RunList(s, [], acts));
  }

  /** With T concurrent callers the list never exceeds maxPoolSize + T - 1 nodes. */
  lemma SizeBound(s: State, acts: seq<Action>, list: seq<Addr>)
    requires Initial(s) && IsRun(s, acts) && |s.threads| >= 1
    requires s.max + 2 * |s.threads| <= WORD
    requires IsChain(Final(s, acts).heap, Final(s, acts).head, list)
    ensures |list| <= s.max + |s.threads| - 1
  {
    InitialCounts(s);
    CountRun(s, [], acts);
    ChainUnique(Final(s, acts).heap, Final(s, acts).head, list, RunList(s, [], acts));
    PushingAtMost(Final(s, acts));
  }

  // ----- Lock-freedom

  /** A thread whose loaded head is no longer the head: its next compare-and-swap will fail. */
  ghost function Stale(head: Option<Addr>): Thread -> int {
    (th: Thread) =>
      match th.pc
      case GetNext(h) => if head == Some(h) then 0 else 1
      case GetCas(h, _) => if head == Some(h) then 0 else 1
      case PutLink(_, _, h) => if head == h then 0 else 1
      case PutCas(_, _, h) => if head == h then 0 else 1
      case _ => 0
  }

  lemma StaleBounds(head: Option<Addr>, threads: seq<Thread>)
    ensures 0 <= SumBy(Stale(head), threads) <= |threads|
    ensures forall t :: 0 <= t < |threads| && Stale(head)(threads[t]) == 0 ==>
        SumBy(Stale(head), threads) <= |threads| - 1
  {
    SumNonNegative(Stale(head), threads);
    SumAtMostLength(Stale(head), threads);
    forall t | 0 <= t < |threads| && Stale(head)(threads[t]) == 0 ensures SumBy(Stale(head), threads) <= |threads| - 1 {
      var witness' := Thread(GetNext(if head == Some(0) then 1 else 0), multiset{});
      SumUpdate(Stale(head), threads, t, witness');
      SumAtMostLength(Stale(head), threads[t := witness']);
    }
  }

  // What one step of a thread does to its staleness, when the head stays.
  lemma StaleThread(s: State, a: Action)
    requires Enabled(s, a) && !a.Lose? && !CasSucceeds(s, a)
    ensures var before, after := Stale(s.head)(s.threads[a.t]), Stale(s.head)(Apply(s, a).threads[a.t]);
            Apply(s, a).head == s.head && if IsCas(s, a) then after == before - 1 else after <= before
  {
    if a.Run? { StaleRun(s, a.t); }
  }

  lemma StaleRun(s: State, t: nat)
    requires Enabled(s, Run(t)) && !CasSucceeds(s, Run(t))
    ensures var before, after := Stale(s.head)(s.threads[t]), Stale(s.head)(RunStep(s, t).threads[t]);
            RunStep(s, t).head == s.head && if IsCas(s, Run(t)) then after == before - 1 else after <= before
  {
  }

  // A failed CAS uses up one stale thread; a successful one makes at most T - 1 threads stale.
  lemma StaleStep(s: State, a: Action)
    requires Enabled(s, a)
    ensures var before, after := SumBy(Stale(s.head), s.threads), SumBy(Stale(Apply(s, a).head), Apply(s, a).threads);
            if CasSucceeds(s, a) then after <= |s.threads| - 1
            else if IsCas(s, a) then after == before - 1
            else after <= before
  {
    var s' := Apply(s, a);
    StaleBounds(s'.head, s'.threads);
    if !a.Lose? {
      OneThread(s, a);
      SumUpdate(Stale(s.head), s.threads, a.t, s'.threads[a.t]);
      if CasSucceeds(s, a) {
        assert Stale(s'.head)(s'.threads[a.t]) == 0;
      } else {
        StaleThread(s, a);
      }
    }
  }

  lemma {:induction false} FailuresRun(s: State, acts: seq<Action>, others: nat)
    requires IsRun(s, acts) && |s.threads| == others + 1
    ensures |Final(s, acts).threads| == |s.threads|
    ensures Failures(s, acts) + SumBy(Stale(Final(s, acts).head), Final(s, acts).threads)
            <= others * Successes(s, acts) + SumBy(Stale(s.head), s.threads)
    decreases |acts|
  {
    if acts == [] {
    } else {
      var a := acts[0];
      var s' := Apply(s, a);
      Constants(s, a);
      StaleStep(s, a);
      StaleBounds(s.head, s.threads);
      FailuresRun(s', acts[1..], others);
      var final := Final(s', acts[1..]);
      Telescope(others, CasSucceeds(s, a), IsCas(s, a), Successes(s', acts[1..]), Failures(s', acts[1..]),
                SumBy(Stale(s.head), s.threads), SumBy(Stale(s'.head), s'.threads),
                    SumBy(Stale(final.head), final.threads));
      assert Failures(s, acts) == (if IsCas(s, a) && !CasSucceeds(s, a) then 1 else 0) + Failures(s', acts[1..]);
      assert Successes(s, acts) == (if CasSucceeds(s, a) then 1 else 0) + Successes(s', acts[1..]);
    }
  }

  // One step in front of a run: the bound of the rest carries over.
  lemma Telescope(others: nat, success: bool, cas: bool, successes: nat, failures: nat, before: int, mid: int,
      after: int)
    requires failures + after <= others * successes + mid && before >= 0
    requires if success then mid <= others else if cas then mid == before - 1 else mid <= before
    ensures (if cas && !success then 1 else 0) + failures + after
            <= others * ((if success then 1 else 0) + successes) + before
  {
    assert others * (1 + successes) == others + others * successes;
  }

  /** Lock-freedom, with a bound: failed compare-and-swaps number at most (T - 1) times the successful ones. */
  lemma FailuresBounded(s: State, acts: seq<Action>)
    requires Initial(s) && IsRun(s, acts) && |s.threads| >= 1
    ensures Failures(s, acts) <= (|s.threads| - 1) * Successes(s, acts)
  {
    SumAllZero(Stale(s.head), s.threads);
    FailuresRun(s, acts, |s.threads| - 1);
    StaleBounds(Final(s, acts).head, Final(s, acts).threads);
  }
}
