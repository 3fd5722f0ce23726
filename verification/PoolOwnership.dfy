/** Who owns a buffer of the lock-free pool, in every interleaving. */
module PoolOwnership {
  import opened Sums
  import opened PoolMachine
  import opened PoolSafety

  /** The buffer an operation in progress carries. */
  ghost function Carries(pc: Pc): Option<Buf> {
    match pc
    case GetCount(b) => Some(b)
    case PutCheck(b) => Some(b)
    case PutLoad(b, _) => Some(b)
    case PutLink(b, _, _) => Some(b)
    case PutCas(b, _, _) => Some(b)
    case PutSync(b) => Some(b)
    case _ => None
  }

  ghost function One(holds: bool): int {
    if holds then 1 else 0
  }

  /** How often a thread owns `b`: in its caller's hands, and in its operation in progress. */
  ghost function Owns(b: Buf): Thread -> int {
    (th: Thread) => th.held[b] + One(Carries(th.pc) == Some(b))
  }

  /** How often `b` occurs anywhere: the list, sync.Pool, callers, the way between them, operations in progress. */
  ghost function Everywhere(s: State, list: seq<Addr>, b: Buf): int
    requires forall i :: 0 <= i < |list| ==> list[i] in s.heap
  {
    multiset(Bufs(s.heap, list))[b] + s.bag[b] + s.passed[b] + SumBy(Owns(b), s.threads)
  }

  ghost predicate Creates(s: State, a: Action, b: Buf) {
    (a.NewBuffer? && a.b == b) || (a.SyncGet? && a.b == b && b !in s.bag)
  }

  lemma PushCount(x: Buf, s: seq<Buf>, b: Buf)
    ensures multiset([x] + s)[b] == multiset(s)[b] + One(x == b)
  {
  }

  lemma PopCount(s: seq<Buf>, b: Buf)
    requires s != []
    ensures multiset(s)[b] == multiset(s[1..])[b] + One(s[0] == b)
  {
    assert s == [s[0]] + s[1..];
  }

  // A successful CAS moves one buffer between the list and the thread.
  lemma CasCounts(s: State, list: seq<Addr>, a: Action, b: Buf)
    requires StackInv(s, list) && Enabled(s, a) && CasSucceeds(s, a)
    ensures StackInv(Apply(s, a), StepList(s, list, a))
    ensures var s' := Apply(s, a);
            multiset(Bufs(s'.heap, StepList(s, list, a)))[b] + Owns(b)(s'.threads[a.t])
            == multiset(Bufs(s.heap, list))[b] + Owns(b)(s.threads[a.t])
  {
    StepContents(s, list, a);
    StackStep(s, list, a);
    var before := Bufs(s.heap, list);
    if s.threads[a.t].pc.PutCas? {
      PushCount(s.threads[a.t].pc.buf, before, b);
      assert Replay(before, StepOps(s, a)) == [s.threads[a.t].pc.buf] + before;
    } else {
      PopCount(before, b);
      assert Replay(before, StepOps(s, a)) == before[1..];
    }
  }

  lemma RunCounts(s: State, t: nat, b: Buf)
    requires Enabled(s, Run(t)) && !CasSucceeds(s, Run(t))
    ensures var s' := RunStep(s, t);
            s'.bag[b] + Owns(b)(s'.threads[t]) == s.bag[b] + Owns(b)(s.threads[t])
  {
    if !s.threads[t].pc.GetCount? && !s.threads[t].pc.PutSync? {
      assert RunStep(s, t).bag == s.bag;
      assert RunStep(s, t).threads[t].held == s.threads[t].held;
      assert Carries(RunStep(s, t).threads[t].pc) == Carries(s.threads[t].pc);
    }
  }

  lemma MinusOne(held: multiset<Buf>, x: Buf, b: Buf)
    requires x in held
    ensures (held - multiset{x})[b] == held[b] - One(x == b)
  {
  }

  lemma SyncCounts(s: State, t: nat, x: Buf, b: Buf)
    requires Enabled(s, SyncGet(t, x))
    ensures var s' := Apply(s, SyncGet(t, x));
            s'.bag[b] + Owns(b)(s'.threads[t]) == s.bag[b] + Owns(b)(s.threads[t]) + One(Creates(s, SyncGet(t, x), b))
  {
    if x in s.bag { MinusOne(s.bag, x, b); }
  }

  lemma StartCounts(s: State, t: nat, x: Buf, b: Buf)
    requires Enabled(s, StartPut(t, x))
    ensures var s' := Apply(s, StartPut(t, x));
            s'.bag == s.bag && Owns(b)(s'.threads[t]) == Owns(b)(s.threads[t])
  {
    MinusOne(s.threads[t].held, x, b);
  }

  lemma PassCounts(s: State, t: nat, x: Buf, b: Buf)
    requires Enabled(s, Pass(t, x))
    ensures var s' := Apply(s, Pass(t, x));
            s'.bag == s.bag && s'.passed[b] + Owns(b)(s'.threads[t]) == s.passed[b] + Owns(b)(s.threads[t])
  {
    MinusOne(s.threads[t].held, x, b);
  }

  lemma AcceptCounts(s: State, t: nat, x: Buf, b: Buf)
    requires Enabled(s, Accept(t, x))
    ensures var s' := Apply(s, Accept(t, x));
            s'.bag == s.bag && s'.passed[b] + Owns(b)(s'.threads[t]) == s.passed[b] + Owns(b)(s.threads[t])
  {
    MinusOne(s.passed, x, b);
  }

  // Any other step moves at most one buffer between sync.Pool, the thread and other callers, or creates one.
  lemma QuietCounts(s: State, a: Action, b: Buf)
    requires Enabled(s, a) && !CasSucceeds(s, a) && !a.Lose?
    ensures var s' := Apply(s, a);
            s'.bag[b] + s'.passed[b] + Owns(b)(s'.threads[a.t])
            == s.bag[b] + s.passed[b] + Owns(b)(s.threads[a.t]) + One(Creates(s, a, b))
  {
    match a
    case Run(t) => RunCounts(s, t, b);
    case StartPut(t, x) => StartCounts(s, t, x, b);
    case SyncGet(t, x) => SyncCounts(s, t, x, b);
    case Pass(t, x) => PassCounts(s, t, x, b);
    case Accept(t, x) => AcceptCounts(s, t, x, b);
    case _ =>
  }

  /** Buffers are conserved: a step creates only what it allocates, and loses only what the
      collector drops from sync.Pool; everything else merely changes place. */
  lemma Conservation(s: State, list: seq<Addr>, a: Action, b: Buf)
    requires StackInv(s, list) && Enabled(s, a)
    ensures StackInv(Apply(s, a), StepList(s, list, a))
    ensures Everywhere(Apply(s, a), StepList(s, list, a), b)
            == Everywhere(s, list, b) + One(Creates(s, a, b)) - One(a == Lose(b))
  {
    StepContents(s, list, a);
    if !a.Lose? {
      OneThread(s, a);
      SumUpdate(Owns(b), s.threads, a.t, Apply(s, a).threads[a.t]);
      if CasSucceeds(s, a) {
        CasCounts(s, list, a, b);
      } else {
        QuietCounts(s, a, b);
        assert Replay(Bufs(s.heap, list), StepOps(s, a)) == Bufs(s.heap, list);
      }
    }
  }

  ghost predicate OwnInv(s: State, list: seq<Addr>) {
    && StackInv(s, list)
    && (forall b :: 0 <= Everywhere(s, list, b) <= 1)
    && (forall b :: Everywhere(s, list, b) > 0 ==> b in s.made)
  }

  lemma OwnStep(s: State, list: seq<Addr>, a: Action)
    requires OwnInv(s, list) && Enabled(s, a)
    ensures OwnInv(Apply(s, a), StepList(s, list, a))
  {
    StackStep(s, list, a);
    var s', list' := Apply(s, a), StepList(s, list, a);
    forall b ensures 0 <= Everywhere(s', list', b) <= 1 && (Everywhere(s', list', b) > 0 ==> b in s'.made) {
      Conservation(s, list, a, b);
      OwnsNonNegative(s, b);
      OwnsNonNegative(s', b);
      if Creates(s, a, b) {
        assert b !in s.made;
        assert Everywhere(s, list, b) == 0;
      }
    }
  }

  lemma OwnsNonNegative(s: State, b: Buf)
    ensures SumBy(Owns(b), s.threads) >= 0
  {
    SumNonNegative(Owns(b), s.threads);
  }

  lemma {:induction false} OwnRun(s: State, list: seq<Addr>, acts: seq<Action>)
    requires OwnInv(s, list) && IsRun(s, acts)
    ensures OwnInv(Final(s, acts), RunList(s, list, acts))
    decreases |acts|
  {
    if acts == [] {
    } else {
      OwnStep(s, list, acts[0]);
      OwnRun(Apply(s, acts[0]), StepList(s, list, acts[0]), acts[1..]);
    }
  }

  lemma InitialOwn(s: State)
    requires Initial(s)
    ensures OwnInv(s, [])
  {
    InitialInv(s);
    assert Bufs(s.heap, []) == [];
    forall b ensures Everywhere(s, [], b) == 0 {
      SumAllZero(Owns(b), s.threads);
    }
  }

  /** `b` sits in the lock-free list or in sync.Pool. */
  ghost predicate IsFree(s: State, b: Buf) {
    b in s.bag || exists list :: IsChain(s.heap, s.head, list) && b in Bufs(s.heap, list)
  }

  /** A buffer that thread t owns is owned once, is not free, is not being given away, and is owned by nobody else. */
  ghost predicate OwnedAlone(s: State, t: nat, b: Buf)
    requires t < |s.threads|
  {
    Owns(b)(s.threads[t]) > 0 ==>
      && Owns(b)(s.threads[t]) == 1
      && !IsFree(s, b) && b !in s.passed
      && (forall u :: 0 <= u < |s.threads| && u != t ==> Owns(b)(s.threads[u]) == 0)
  }

  lemma OwnedOnce(s: State, list: seq<Addr>, t: nat, b: Buf)
    requires OwnInv(s, list) && t < |s.threads|
    ensures OwnedAlone(s, t, b)
  {
    var f := Owns(b);
    assert Everywhere(s, list, b) <= 1;
    SumHasElement(f, s.threads, t);
    forall u | 0 <= u < |s.threads| && u != t ensures f(s.threads[t]) + f(s.threads[u]) <= SumBy(f, s.threads) {
      if t < u { SumHasTwo(f, s.threads, t, u); } else { SumHasTwo(f, s.threads, u, t); }
    }
    forall l | IsChain(s.heap, s.head, l) ensures l == list { ChainUnique(s.heap, s.head, l, list); }
    if b in Bufs(s.heap, list) { assert multiset(Bufs(s.heap, list))[b] >= 1; }
  }

  /** In every interleaving, provided callers return and give away only buffers they hold (StartPut, Pass): a buffer
      that a caller or an operation owns is owned once, by nobody else, is not being given away, and is in neither
      free store. */
  lemma ExclusiveOwnership(s: State, acts: seq<Action>)
    requires Initial(s) && IsRun(s, acts)
    ensures forall t, b :: 0 <= t < |Final(s, acts).threads| ==> OwnedAlone(Final(s, acts), t, b)
  {
    InitialOwn(s);
    OwnRun(s, [], acts);
    forall t, b | 0 <= t < |Final(s, acts).threads| ensures OwnedAlone(Final(s, acts), t, b) {
      OwnedOnce(Final(s, acts), RunList(s, [], acts), t, b);
    }
  }

  /** In every interleaving, the list repeats no buffer, and shares none with sync.Pool or with those given away. */
  lemma FreeOnce(s: State, acts: seq<Action>, list: seq<Addr>)
    requires Initial(s) && IsRun(s, acts)
    requires IsChain(Final(s, acts).heap, Final(s, acts).head, list)
    ensures var f := Final(s, acts);
            && Distinct(Bufs(f.heap, list))
            && (forall b :: f.bag[b] + f.passed[b] <= 1 && (b in Bufs(f.heap, list) ==> b !in f.bag && b !in f.passed))
  {
    InitialOwn(s);
    OwnRun(s, [], acts);
    var f := Final(s, acts);
    ChainUnique(f.heap, f.head, list, RunList(s, [], acts));
    forall b ensures multiset(Bufs(f.heap, list))[b] + f.bag[b] + f.passed[b] <= 1 {
      OwnsNonNegative(f, b);
      assert Everywhere(f, list, b) <= 1;
    }
    SinglesAreDistinct(Bufs(f.heap, list));
    forall b | b in Bufs(f.heap, list) ensures b !in f.bag && b !in f.passed {
      assert multiset(Bufs(f.heap, list))[b] >= 1;
    }
  }

  lemma SinglesAreDistinct<T>(s: seq<T>)
    requires forall b :: multiset(s)[b] <= 1
    ensures Distinct(s)
  {
    forall i, j | 0 <= i < j < |s| ensures s[i] != s[j] {
      assert s == s[..j] + [s[j]] + s[j + 1..];
      assert s[i] in s[..j];
      assert multiset(s)[s[j]] == multiset(s[..j])[s[j]] + 1 + multiset(s[j + 1..])[s[j]];
    }
  }
}
