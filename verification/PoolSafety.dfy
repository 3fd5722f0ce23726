/** Safety of the lock-free pool in every interleaving: linearizability to one stack, and ownership. */
module PoolSafety {
  import opened Sums
  import opened PoolMachine

  ghost function At(list: seq<Addr>, i: nat): Option<Addr> {
    if i < |list| then Some(list[i]) else None
  }

  /** `list` is what one finds by following `next` from `head`. */
  ghost predicate IsChain(heap: map<Addr, Node>, head: Option<Addr>, list: seq<Addr>) {
    && head == At(list, 0)
    && (forall i :: 0 <= i < |list| ==> list[i] in heap && heap[list[i]].next == At(list, i + 1))
  }

  ghost predicate Distinct<T>(s: seq<T>) {
    forall i, j :: 0 <= i < j < |s| ==> s[i] != s[j]
  }

  /** The node a thread has allocated and not yet linked. */
  ghost function Private(pc: Pc): Option<Addr> {
    match pc
    case PutLoad(_, n) => Some(n)
    case PutLink(_, n, _) => Some(n)
    case PutCas(_, n, _) => Some(n)
    case _ => None
  }

  /** A node that has been linked: `next` is never written again. */
  ghost predicate Published(s: State, a: Addr) {
    a in s.heap && forall t :: 0 <= t < |s.threads| ==> Private(s.threads[t].pc) != Some(a)
  }

  ghost predicate ThreadOk(s: State, list: seq<Addr>, t: nat)
    requires t < |s.threads|
  {
    var pc := s.threads[t].pc;
    && (pc.GetNext? ==> Published(s, pc.seen))
    && (pc.GetCas? ==> Published(s, pc.seen) && s.heap[pc.seen].next == pc.next)
    && (Private(pc).Some? ==>
          var n := Private(pc).value;
          n in s.heap && n !in list && s.heap[n].buf == pc.buf)
    && (pc.PutCas? ==> s.heap[pc.node].next == pc.seen')
    && (forall u :: 0 <= u < |s.threads| && u != t && Private(pc).Some? ==>
          Private(s.threads[u].pc) != Private(pc))
  }

  ghost predicate StackInv(s: State, list: seq<Addr>) {
    && IsChain(s.heap, s.head, list)
    && Distinct(list)
    && (forall i :: 0 <= i < |list| ==> Published(s, list[i]))
    && (forall t :: 0 <= t < |s.threads| ==> ThreadOk(s, list, t))
  }

  ghost function Bufs(heap: map<Addr, Node>, list: seq<Addr>): seq<Buf>
    requires forall i :: 0 <= i < |list| ==> list[i] in heap
  {
    seq(|list|, i requires 0 <= i < |list| => heap[list[i]].buf)
  }

  lemma ChainTail(heap: map<Addr, Node>, head: Option<Addr>, list: seq<Addr>)
    requires IsChain(heap, head, list) && list != []
    ensures IsChain(heap, heap[list[0]].next, list[1..])
  {
    var rest := list[1..];
    forall i | 0 <= i < |rest| ensures rest[i] in heap && heap[rest[i]].next == At(rest, i + 1) {
      assert rest[i] == list[i + 1];
    }
  }

  /** The list that following `next` finds is unique. */
  lemma {:induction false} ChainUnique(heap: map<Addr, Node>, head: Option<Addr>, l1: seq<Addr>, l2: seq<Addr>)
    requires IsChain(heap, head, l1) && IsChain(heap, head, l2)
    ensures l1 == l2
    decreases |l1|
  {
    if l1 == [] || l2 == [] {
    } else {
      var next := heap[l1[0]].next;
      ChainTail(heap, head, l1);
      ChainTail(heap, head, l2);
      ChainUnique(heap, next, l1[1..], l2[1..]);
    }
  }

  /** The effect of a step on the list. */
  ghost function StepList(s: State, list: seq<Addr>, a: Action): seq<Addr> {
    if !CasSucceeds(s, a) then list
    else match s.threads[a.t].pc
      case PutCas(_, n, _) => [n] + list
      case GetCas(_, _) => if list == [] then [] else list[1..]
      case _ => list
  }

  // A successful CAS of Get: the expected head is the top of the stack and, because no node
  // is linked twice and `next` is write-once, the value read earlier is still its successor.
  lemma PopStep(s: State, list: seq<Addr>, t: nat)
    requires StackInv(s, list) && Enabled(s, Run(t)) && CasSucceeds(s, Run(t)) && s.threads[t].pc.GetCas?
    ensures list != [] && StackInv(Apply(s, Run(t)), list[1..])
    ensures Apply(s, Run(t)).threads[t].pc == GetCount(s.heap[list[0]].buf)
  {
    var s' := Apply(s, Run(t));
    assert ThreadOk(s, list, t);
    var rest := list[1..];
    ChainTail(s.heap, s.head, list);
    forall i | 0 <= i < |rest| ensures Published(s', rest[i]) {
      assert Published(s, list[i + 1]);
    }
    forall u | 0 <= u < |s'.threads| ensures ThreadOk(s', rest, u) {
      assert ThreadOk(s, list, u);
    }
  }

  lemma PushStep(s: State, list: seq<Addr>, t: nat)
    requires StackInv(s, list) && Enabled(s, Run(t)) && CasSucceeds(s, Run(t)) && s.threads[t].pc.PutCas?
    ensures StackInv(Apply(s, Run(t)), [s.threads[t].pc.node] + list)
    ensures s.threads[t].pc.node in s.heap && s.heap[s.threads[t].pc.node].buf == s.threads[t].pc.buf
  {
    var s' := Apply(s, Run(t));
    assert ThreadOk(s, list, t);
    var n := s.threads[t].pc.node;
    var longer := [n] + list;
    forall i | 0 <= i < |longer|
      ensures longer[i] in s'.heap && s'.heap[longer[i]].next == At(longer, i + 1)
    {
      if i > 0 { assert longer[i] == list[i - 1]; }
    }
    assert Published(s', n);
    forall i | 0 <= i < |longer| ensures Published(s', longer[i]) {
      if i > 0 { assert Published(s, list[i - 1]); }
    }
    forall u | 0 <= u < |s'.threads| ensures ThreadOk(s', longer, u) {
      assert ThreadOk(s, list, u);
    }
  }

  lemma LinkStep(s: State, list: seq<Addr>, t: nat)
    requires StackInv(s, list) && Enabled(s, Run(t)) && s.threads[t].pc.PutLink?
    ensures StackInv(Apply(s, Run(t)), list)
  {
    var s' := Apply(s, Run(t));
    assert ThreadOk(s, list, t);
    forall i | 0 <= i < |list| ensures Published(s', list[i]) {
      assert Published(s, list[i]);
    }
    forall u | 0 <= u < |s'.threads| ensures ThreadOk(s', list, u) {
      assert ThreadOk(s, list, u);
    }
  }

  lemma AllocStep(s: State, list: seq<Addr>, t: nat, n: Addr)
    requires StackInv(s, list) && Enabled(s, Check(t, n)) && s.count < s.max
    ensures StackInv(Apply(s, Check(t, n)), list)
  {
    var s' := Apply(s, Check(t, n));
    forall i | 0 <= i < |list| ensures Published(s', list[i]) {
      assert Published(s, list[i]);
    }
    forall u | 0 <= u < |s'.threads| ensures ThreadOk(s', list, u) {
      assert ThreadOk(s, list, u);
      forall v | 0 <= v < |s.threads| && Private(s.threads[v].pc).Some?
        ensures Private(s.threads[v].pc).value in s.heap
      {
        assert ThreadOk(s, list, v);
      }
    }
  }

  lemma RunOneThread(s: State, t: nat)
    requires t < |s.threads| && Runnable(s, s.threads[t].pc)
    ensures |RunStep(s, t).threads| == |s.threads|
    ensures RunStep(s, t).threads == s.threads[t := RunStep(s, t).threads[t]]
  {
  }

  // Every action but the collector's changes one thread.
  lemma OneThread(s: State, a: Action)
    requires Enabled(s, a) && !a.Lose?
    ensures a.t < |s.threads| == |Apply(s, a).threads|
    ensures Apply(s, a).threads == s.threads[a.t := Apply(s, a).threads[a.t]]
  {
    match a
    case Run(t) => RunOneThread(s, t);
    case Check(_, _) =>
    case SyncGet(_, _) =>
    case StartPut(_, _) =>
    case Pass(_, _) =>
    case _ =>
  }

  // A step of one thread that touches neither the heap nor head, and keeps or drops its private node.
  lemma QuietFrame(s: State, s': State, list: seq<Addr>, t: nat)
    requires StackInv(s, list) && t < |s.threads| == |s'.threads|
    requires s'.heap == s.heap && s'.head == s.head
    requires forall u :: 0 <= u < |s.threads| && u != t ==> s'.threads[u].pc == s.threads[u].pc
    requires Private(s'.threads[t].pc) == None || Private(s'.threads[t].pc) == Private(s.threads[t].pc)
    requires var pc := s'.threads[t].pc;
             && (pc.GetNext? ==> Published(s, pc.seen))
             && (pc.GetCas? ==> Published(s, pc.seen) && s.heap[pc.seen].next == pc.next)
             && (Private(pc).Some? ==> s.threads[t].pc.buf == pc.buf)
             && !pc.PutCas?
    ensures StackInv(s', list)
  {
    assert ThreadOk(s, list, t);
    forall a | Published(s, a) ensures Published(s', a) {}
    forall u | 0 <= u < |s'.threads| ensures ThreadOk(s', list, u) {
      assert ThreadOk(s, list, u);
    }
  }

  lemma LoseStep(s: State, list: seq<Addr>, b: Buf)
    requires StackInv(s, list) && Enabled(s, Lose(b))
    ensures StackInv(Apply(s, Lose(b)), list)
  {
    var s' := Apply(s, Lose(b));
    forall a | Published(s, a) ensures Published(s', a) {}
    forall u | 0 <= u < |s'.threads| ensures ThreadOk(s', list, u) {
      assert ThreadOk(s, list, u);
    }
  }

  // What a thread has seen of the list is published.
  lemma QuietRun(s: State, list: seq<Addr>, t: nat)
    requires StackInv(s, list) && Enabled(s, Run(t)) && !CasSucceeds(s, Run(t)) && !s.threads[t].pc.PutLink?
    ensures RunStep(s, t).heap == s.heap && RunStep(s, t).head == s.head && t < |RunStep(s, t).threads|
    ensures var before, pc := s.threads[t].pc, RunStep(s, t).threads[t].pc;
            && (Private(pc) == None || Private(pc) == Private(before))
            && (pc.GetNext? ==> Published(s, pc.seen))
            && (pc.GetCas? ==> Published(s, pc.seen) && s.heap[pc.seen].next == pc.next)
            && (Private(pc).Some? ==> before.buf == pc.buf)
            && !pc.PutCas?
  {
    assert ThreadOk(s, list, t);
    if s.head.Some? { assert Published(s, list[0]); }
  }

  lemma OtherFrame(s: State, a: Action)
    requires Enabled(s, a) && !a.Run? && (a.Check? ==> s.count >= s.max)
    ensures Apply(s, a).heap == s.heap && Apply(s, a).head == s.head
  {
    match a
    case Check(_, _) =>
    case SyncGet(_, _) =>
    case _ =>
  }

  lemma OtherStarts(s: State, a: Action)
    requires Enabled(s, a) && !a.Lose? && !a.Run? && (a.Check? ==> s.count >= s.max)
    ensures a.t < |Apply(s, a).threads|
    ensures var pc := Apply(s, a).threads[a.t].pc;
            pc.Idle? || pc.GetLoad? || pc.PutCheck? || pc.PutSync?
  {
  }

  lemma QuietStep(s: State, list: seq<Addr>, a: Action)
    requires StackInv(s, list) && Enabled(s, a) && !CasSucceeds(s, a)
    requires a.Check? ==> s.count >= s.max
    requires a.Run? ==> !s.threads[a.t].pc.PutLink?
    ensures StackInv(Apply(s, a), list)
  {
    if a.Lose? {
      LoseStep(s, list, a.b);
    } else {
      OneThread(s, a);
      if a.Run? {
        QuietRun(s, list, a.t);
      } else {
        OtherFrame(s, a);
        OtherStarts(s, a);
      }
      QuietFrame(s, Apply(s, a), list, a.t);
    }
  }

  /** Every step keeps the invariant, and changes the list exactly as StepList says. */
  lemma StackStep(s: State, list: seq<Addr>, a: Action)
    requires StackInv(s, list) && Enabled(s, a)
    ensures StackInv(Apply(s, a), StepList(s, list, a))
    ensures CasSucceeds(s, a) && s.threads[a.t].pc.GetCas? ==>
              list != [] && Apply(s, a).threads[a.t].pc == GetCount(s.heap[list[0]].buf)
  {
    if CasSucceeds(s, a) {
      if s.threads[a.t].pc.GetCas? { PopStep(s, list, a.t); } else { PushStep(s, list, a.t); }
    } else if a.Check? && s.count < s.max {
      AllocStep(s, list, a.t, a.a);
    } else if a.Run? && s.threads[a.t].pc.PutLink? {
      LinkStep(s, list, a.t);
    } else {
      QuietStep(s, list, a);
    }
  }

  // ----- Linearizability

  lemma BufsKept(s: State, a: Action, x: Addr)
    requires Enabled(s, a) && x in s.heap
    ensures x in Apply(s, a).heap && Apply(s, a).heap[x].buf == s.heap[x].buf
  {
  }

  lemma QuietContents(s: State, list: seq<Addr>, a: Action)
    requires StackInv(s, list) && Enabled(s, a) && !CasSucceeds(s, a) && StackInv(Apply(s, a), list)
    ensures Bufs(Apply(s, a).heap, list) == Bufs(s.heap, list)
    ensures Legal(Bufs(s.heap, list), StepOps(s, a)) && Replay(Bufs(s.heap, list), StepOps(s, a)) == Bufs(s.heap, list)
  {
    if a.Run? { assert ThreadOk(s, list, a.t); }
    forall i | 0 <= i < |list| ensures Apply(s, a).heap[list[i]].buf == s.heap[list[i]].buf {
      BufsKept(s, a, list[i]);
    }
  }

  lemma CasContents(s: State, list: seq<Addr>, a: Action)
    requires StackInv(s, list) && CasSucceeds(s, a) && Enabled(s, a)
    requires StackInv(Apply(s, a), StepList(s, list, a))
    requires s.threads[a.t].pc.GetCas? ==> list != []
    ensures Legal(Bufs(s.heap, list), StepOps(s, a))
    ensures Bufs(Apply(s, a).heap, StepList(s, list, a)) == Replay(Bufs(s.heap, list), StepOps(s, a))
  {
    assert ThreadOk(s, list, a.t);
    var before, after := Bufs(s.heap, list), Bufs(Apply(s, a).heap, StepList(s, list, a));
    if s.threads[a.t].pc.PutCas? {
      assert after == [s.threads[a.t].pc.buf] + before;
    } else {
      assert after == before[1..];
    }
  }

  /** A step changes the contents of the list by exactly the operation it is labelled with. */
  lemma StepContents(s: State, list: seq<Addr>, a: Action)
    requires StackInv(s, list) && Enabled(s, a)
    ensures StackInv(Apply(s, a), StepList(s, list, a))
    ensures Legal(Bufs(s.heap, list), StepOps(s, a))
    ensures Bufs(Apply(s, a).heap, StepList(s, list, a)) == Replay(Bufs(s.heap, list), StepOps(s, a))
  {
    StackStep(s, list, a);
    if CasSucceeds(s, a) {
      CasContents(s, list, a);
    } else {
      QuietContents(s, list, a);
    }
  }

  ghost function RunList(s: State, list: seq<Addr>, acts: seq<Action>): seq<Addr>
    requires IsRun(s, acts)
    decreases |acts|
  {
    if acts == [] then list else RunList(Apply(s, acts[0]), StepList(s, list, acts[0]), acts[1..])
  }

  lemma ReplayJoin(stack: seq<Buf>, first: seq<StackOp>, rest: seq<StackOp>)
    requires |first| <= 1 && Legal(stack, first) && Legal(Replay(stack, first), rest)
    ensures Legal(stack, first + rest) && Replay(stack, first + rest) == Replay(Replay(stack, first), rest)
  {
    if first == [] {
      assert first + rest == rest;
    } else {
      var ops := first + rest;
      assert ops[0] == first[0] && ops[1..] == rest && first[1..] == [];
      match first[0]
      case Push(b) => assert Replay(stack, first) == [b] + stack;
      case Pop(b) => assert Replay(stack, first) == stack[1..];
      case Empty => assert Replay(stack, first) == stack;
    }
  }

  lemma {:induction false} RunContents(s: State, list: seq<Addr>, acts: seq<Action>)
    requires StackInv(s, list) && IsRun(s, acts)
    ensures StackInv(Final(s, acts), RunList(s, list, acts))
    ensures Legal(Bufs(s.heap, list), Ops(s, acts))
    ensures Bufs(Final(s, acts).heap, RunList(s, list, acts)) == Replay(Bufs(s.heap, list), Ops(s, acts))
    decreases |acts|
  {
    if acts == [] {
    } else {
      var s', list' := Apply(s, acts[0]), StepList(s, list, acts[0]);
      StepContents(s, list, acts[0]);
      RunContents(s', list', acts[1..]);
      ReplayJoin(Bufs(s.heap, list), StepOps(s, acts[0]), Ops(s', acts[1..]));
    }
  }

  lemma InitialInv(s: State)
    requires Initial(s)
    ensures StackInv(s, [])
  {
  }

  /** In every interleaving, the successful compare-and-swaps and the loads of an empty head, in the order they
      happen, are a legal history of one sequential stack, and following `next` from `head` finds what it holds. */
  lemma Linearizable(s: State, acts: seq<Action>)
    requires Initial(s) && IsRun(s, acts)
    ensures Legal([], Ops(s, acts))
    ensures exists list ::
              && IsChain(Final(s, acts).heap, Final(s, acts).head, list)
              && Bufs(Final(s, acts).heap, list) == Replay([], Ops(s, acts))
  {
    InitialInv(s);
    RunContents(s, [], acts);
    assert Bufs(s.heap, []) == [];
    assert IsChain(Final(s, acts).heap, Final(s, acts).head, RunList(s, [], acts));
  }

  /** No thread is ever stuck on a nil or unknown node: inside an operation its next step is enabled. */
  lemma NeverStuck(s: State, acts: seq<Action>, t: nat)
    requires Initial(s) && IsRun(s, acts) && t < |Final(s, acts).threads|
    requires Final(s, acts).threads[t].pc != Idle
    ensures exists a :: Enabled(Final(s, acts), a) && !a.Lose? && a.t == t
  {
    InitialInv(s);
    RunContents(s, [], acts);
    var f := Final(s, acts);
    assert ThreadOk(f, RunList(s, [], acts), t);
    var pc := f.threads[t].pc;
    if pc.PutCheck? {
      var a := FreshAddr(f.heap.Keys);
      assert Enabled(f, Check(t, a));
    } else if pc.GetSync? {
      var b := FreshAddr(f.made);
      assert Enabled(f, SyncGet(t, b));
    } else {
      assert Enabled(f, Run(t));
    }
  }

  lemma FreshAddr(used: set<nat>) returns (a: nat)
    ensures a !in used
  {
    a := 0;
    var below: set<nat> := {};
    while a in used
      invariant below <= used && forall x: nat :: x in below <==> x < a
      decreases used - below
    {
      below := below + {a};
      a := a + 1;
    }
  }
}
