/** The pool in the hands of one caller: every Get and Put does what a stack of at most maxPoolSize buffers does. */
module PoolSequential {
  import opened Sums
  import opened PoolMachine
  import opened PoolSafety
  import opened PoolCounting

  /** What the caller may think of: a stack, sync.Pool, and the buffers it holds. */
  datatype Model = Model(stack: seq<Buf>, bag: multiset<Buf>, held: multiset<Buf>)

  /** A Put pushes while the stack holds fewer than max buffers, and else stores in sync.Pool; a Get pops, and asks
      sync.Pool only when there is nothing to pop. */
  function Next(m: Model, a: Action, max: nat): Model {
    match a
    case StartPut(_, b) =>
      var m := m.(held := m.held - multiset{b});
      if |m.stack| < max then m.(stack := [b] + m.stack) else m.(bag := m.bag + multiset{b})
    case StartGet(_) =>
      if m.stack == [] then m else m.(stack := m.stack[1..], held := m.held + multiset{m.stack[0]})
    case SyncGet(_, b) => m.(bag := m.bag - multiset{b}, held := m.held + multiset{b})
    case NewBuffer(_, b) => m.(held := m.held + multiset{b})
    case Accept(_, b) => m.(held := m.held + multiset{b})
    case Pass(_, b) => m.(held := m.held - multiset{b})
    case Lose(b) => m.(bag := m.bag - multiset{b})
    case _ => m
  }

  function After(m: Model, acts: seq<Action>, max: nat): Model
    decreases |acts|
  {
    if acts == [] then m else After(Next(m, acts[0], max), acts[1..], max)
  }

  /** Where the caller's operation stands, compared with the model that has done it already. */
  ghost predicate Agrees(s: State, stack: seq<Buf>, m: Model)
    requires |s.threads| == 1
  {
    var held := s.threads[0].held;
    match s.threads[0].pc
    case Idle => m == Model(stack, s.bag, held) && s.count == |stack|
    case GetLoad => s.count == |stack| && m.bag == s.bag && Popped(stack, held, m)
    case GetNext(h) => s.head == Some(h) && s.count == |stack| && m.bag == s.bag && Popped(stack, held, m)
    case GetCas(h, _) => s.head == Some(h) && s.count == |stack| && m.bag == s.bag && Popped(stack, held, m)
    case GetCount(b) => s.count == |stack| + 1 && m == Model(stack, s.bag, held + multiset{b})
    case GetSync => stack == [] && s.count == 0 && m == Model([], s.bag, held)
    case PutCheck(b) =>
      s.count == |stack|
      && m == if |stack| < s.max then Model([b] + stack, s.bag, held) else Model(stack, s.bag + multiset{b}, held)
    case PutLoad(b, _) => s.count == |stack| < s.max && m == Model([b] + stack, s.bag, held)
    case PutLink(b, _, h) => s.head == h && s.count == |stack| < s.max && m == Model([b] + stack, s.bag, held)
    case PutCas(b, _, h) => s.head == h && s.count == |stack| < s.max && m == Model([b] + stack, s.bag, held)
    case PutCount => s.count + 1 == |stack| && m == Model(stack, s.bag, held)
    case PutSync(b) => s.count == |stack| && m == Model(stack, s.bag + multiset{b}, held)
  }

  ghost predicate Popped(stack: seq<Buf>, held: multiset<Buf>, m: Model) {
    if stack == [] then m.stack == [] && m.held == held
    else m.stack == stack[1..] && m.held == held + multiset{stack[0]}
  }

  ghost predicate Inv(s: State, list: seq<Addr>, m: Model) {
    && StackInv(s, list) && |s.threads| == 1 && s.max < WORD && |list| <= s.max
    && Agrees(s, Bufs(s.heap, list), m)
  }

  // A step that moves no node: the stack is as before.
  lemma QuietRunAgrees(s: State, stack: seq<Buf>, m: Model)
    requires |s.threads| == 1 && s.max < WORD && |stack| <= s.max && (s.head == None <==> stack == [])
    requires Agrees(s, stack, m) && Enabled(s, Run(0)) && !CasSucceeds(s, Run(0))
    ensures |RunStep(s, 0).threads| == 1 && Agrees(RunStep(s, 0), stack, m)
  {
  }

  lemma PutStarts(s: State, stack: seq<Buf>, m: Model, b: Buf)
    requires |s.threads| == 1 && s.max < WORD && |stack| <= s.max && (s.head == None <==> stack == [])
    requires Agrees(s, stack, m) && Enabled(s, StartPut(0, b))
    ensures |Apply(s, StartPut(0, b)).threads| == 1
    ensures Agrees(Apply(s, StartPut(0, b)), stack, Next(m, StartPut(0, b), s.max))
  {
  }

  lemma GetStarts(s: State, stack: seq<Buf>, m: Model)
    requires |s.threads| == 1 && s.max < WORD && |stack| <= s.max && (s.head == None <==> stack == [])
    requires Agrees(s, stack, m) && Enabled(s, StartGet(0))
    ensures |Apply(s, StartGet(0)).threads| == 1 && Agrees(Apply(s, StartGet(0)), stack, Next(m, StartGet(0), s.max))
  {
  }

  lemma PutChecks(s: State, stack: seq<Buf>, m: Model, n: Addr)
    requires |s.threads| == 1 && s.max < WORD && |stack| <= s.max && (s.head == None <==> stack == [])
    requires Agrees(s, stack, m) && Enabled(s, Check(0, n))
    ensures |Apply(s, Check(0, n)).threads| == 1 && Agrees(Apply(s, Check(0, n)), stack, Next(m, Check(0, n), s.max))
  {
  }

  lemma SyncGets(s: State, stack: seq<Buf>, m: Model, b: Buf)
    requires |s.threads| == 1 && s.max < WORD && |stack| <= s.max && (s.head == None <==> stack == [])
    requires Agrees(s, stack, m) && Enabled(s, SyncGet(0, b))
    ensures |Apply(s, SyncGet(0, b)).threads| == 1
    ensures Agrees(Apply(s, SyncGet(0, b)), stack, Next(m, SyncGet(0, b), s.max))
  {
  }

  lemma Loses(s: State, stack: seq<Buf>, m: Model, b: Buf)
    requires |s.threads| == 1 && s.max < WORD && |stack| <= s.max && (s.head == None <==> stack == [])
    requires Agrees(s, stack, m) && Enabled(s, Lose(b))
    ensures |Apply(s, Lose(b)).threads| == 1 && Agrees(Apply(s, Lose(b)), stack, Next(m, Lose(b), s.max))
  {
  }

  lemma Passes(s: State, stack: seq<Buf>, m: Model, b: Buf)
    requires |s.threads| == 1 && s.max < WORD && |stack| <= s.max && (s.head == None <==> stack == [])
    requires Agrees(s, stack, m) && Enabled(s, Pass(0, b))
    ensures |Apply(s, Pass(0, b)).threads| == 1 && Agrees(Apply(s, Pass(0, b)), stack, Next(m, Pass(0, b), s.max))
  {
  }

  lemma Accepts(s: State, stack: seq<Buf>, m: Model, b: Buf)
    requires |s.threads| == 1 && s.max < WORD && |stack| <= s.max && (s.head == None <==> stack == [])
    requires Agrees(s, stack, m) && Enabled(s, Accept(0, b))
    ensures |Apply(s, Accept(0, b)).threads| == 1 && Agrees(Apply(s, Accept(0, b)), stack, Next(m, Accept(0, b), s.max))
  {
  }

  lemma Makes(s: State, stack: seq<Buf>, m: Model, b: Buf)
    requires |s.threads| == 1 && s.max < WORD && |stack| <= s.max && (s.head == None <==> stack == [])
    requires Agrees(s, stack, m) && Enabled(s, NewBuffer(0, b))
    ensures |Apply(s, NewBuffer(0, b)).threads| == 1
    ensures Agrees(Apply(s, NewBuffer(0, b)), stack, Next(m, NewBuffer(0, b), s.max))
  {
  }

  lemma StartAgrees(s: State, stack: seq<Buf>, m: Model, a: Action)
    requires |s.threads| == 1 && s.max < WORD && |stack| <= s.max && (s.head == None <==> stack == [])
    requires Agrees(s, stack, m) && Enabled(s, a) && !CasSucceeds(s, a)
    ensures |Apply(s, a).threads| == 1 && Agrees(Apply(s, a), stack, Next(m, a, s.max))
  {
    match a
    case Run(_) => QuietRunAgrees(s, stack, m);
    case StartGet(_) => GetStarts(s, stack, m);
    case StartPut(_, b) => PutStarts(s, stack, m, b);
    case Check(_, n) => PutChecks(s, stack, m, n);
    case SyncGet(_, b) => SyncGets(s, stack, m, b);
    case Lose(b) => Loses(s, stack, m, b);
    case Pass(_, b) => Passes(s, stack, m, b);
    case Accept(_, b) => Accepts(s, stack, m, b);
    case NewBuffer(_, b) => Makes(s, stack, m, b);
  }

  // A successful CAS is the caller's own push or pop: nobody else is there to make it fail, or to succeed meanwhile.
  lemma CasAgrees(s: State, list: seq<Addr>, m: Model)
    requires Inv(s, list, m) && Enabled(s, Run(0)) && CasSucceeds(s, Run(0))
    ensures Inv(Apply(s, Run(0)), StepList(s, list, Run(0)), m)
  {
    StepContents(s, list, Run(0));
    StackStep(s, list, Run(0));
    assert ThreadOk(s, list, 0);
    var stack := Bufs(s.heap, list);
    if s.threads[0].pc.PutCas? {
      assert Replay(stack, StepOps(s, Run(0))) == [s.threads[0].pc.buf] + stack;
    } else {
      assert Replay(stack, StepOps(s, Run(0))) == stack[1..];
    }
  }

  lemma StepAgrees(s: State, list: seq<Addr>, m: Model, a: Action)
    requires Inv(s, list, m) && Enabled(s, a)
    ensures Inv(Apply(s, a), StepList(s, list, a), Next(m, a, s.max))
  {
    if CasSucceeds(s, a) {
      CasAgrees(s, list, m);
    } else {
      StepContents(s, list, a);
      assert Replay(Bufs(s.heap, list), StepOps(s, a)) == Bufs(s.heap, list);
      StartAgrees(s, Bufs(s.heap, list), m, a);
      SameMax(s, a);
    }
  }

  lemma SameMax(s: State, a: Action)
    requires Enabled(s, a)
    ensures Apply(s, a).max == s.max
  {
  }

  lemma {:induction false} RunsAgree(s: State, list: seq<Addr>, m: Model, acts: seq<Action>)
    requires Inv(s, list, m) && IsRun(s, acts)
    ensures Inv(Final(s, acts), RunList(s, list, acts), After(m, acts, s.max))
    decreases |acts|
  {
    if acts == [] {
    } else {
      StepAgrees(s, list, m, acts[0]);
      SameMax(s, acts[0]);
      RunsAgree(Apply(s, acts[0]), StepList(s, list, acts[0]), Next(m, acts[0], s.max), acts[1..]);
    }
  }

  /** One caller, and it is between operations. */
  predicate Quiet(s: State) {
    |s.threads| == 1 && s.threads[0].pc == Idle
  }

  /** With one caller, between its operations the list, the counter, sync.Pool and the caller's buffers are those of the
      model: a Put that finds room is the next to be got, and a Get never passes a listed buffer by. */
  lemma OneCallerIsStack(s: State, acts: seq<Action>, list: seq<Addr>)
    requires Initial(s) && |s.threads| == 1 && s.max < WORD && IsRun(s, acts)
    requires Quiet(Final(s, acts)) && IsChain(Final(s, acts).heap, Final(s, acts).head, list)
    ensures var f := Final(s, acts);
            After(Model([], multiset{}, multiset{}), acts, s.max) == Model(Bufs(f.heap, list), f.bag, f.threads[0].held)
    ensures Final(s, acts).count == |list|
  {
    InitialInv(s);
    assert Bufs(s.heap, []) == [];
    RunsAgree(s, [], Model([], multiset{}, multiset{}), acts);
    ChainUnique(Final(s, acts).heap, Final(s, acts).head, list, RunList(s, [], acts));
  }

  function Puts(acts: seq<Action>): nat {
    if acts == [] then 0 else (if acts[0].StartPut? then 1 else 0) + Puts(acts[1..])
  }

  lemma {:induction false} PutsFill(m: Model, acts: seq<Action>, max: nat)
    requires |m.stack| <= max && forall i :: 0 <= i < |acts| ==> !acts[i].StartGet?
    ensures |After(m, acts, max).stack| == if |m.stack| + Puts(acts) < max then |m.stack| + Puts(acts) else max
    decreases |acts|
  {
    if acts == [] {
    } else {
      PutsFill(Next(m, acts[0], max), acts[1..], max);
    }
  }

  /** So k Puts leave min(k, maxPoolSize) buffers on the list, and that count. */
  lemma PutsCount(s: State, acts: seq<Action>)
    requires Initial(s) && |s.threads| == 1 && s.max < WORD && IsRun(s, acts)
    requires Quiet(Final(s, acts)) && forall i :: 0 <= i < |acts| ==> !acts[i].StartGet?
    ensures Final(s, acts).count == if Puts(acts) < s.max then Puts(acts) else s.max
  {
    InitialInv(s);
    assert Bufs(s.heap, []) == [];
    RunsAgree(s, [], Model([], multiset{}, multiset{}), acts);
    OneCallerIsStack(s, acts, RunList(s, [], acts));
    PutsFill(Model([], multiset{}, multiset{}), acts, s.max);
  }
}
