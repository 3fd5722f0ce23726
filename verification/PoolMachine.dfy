/**
 The lock-free buffer pool as a step machine: one step per atomic load, compare-and-swap
 or add of `Get` and `Put`, plus one step for each plain access to a node's `next` field.
 Nodes live in a heap that `Put` links in place; any number of threads interleave freely.
 */
module PoolMachine {
  import opened Sums

  type Buf = nat   // identity of a *BytesBuffer
  type Addr = nat  // identity of a *bufferNode

  const WORD: nat := 0x1_0000_0000_0000_0000  // 2^64: the width of `count`

  datatype Node = Node(buf: Buf, next: Option<Addr>)

  /** Where a thread is inside Get or Put; each value names the access it performs next. */
  datatype Pc =
    | Idle
    | GetLoad                                              // load head
    | GetNext(seen: Addr)                                  // read seen.next
    | GetCas(seen: Addr, next: Option<Addr>)               // CAS head: seen -> next
    | GetCount(taken: Buf)                                 // count -= 1, then return taken
    | GetSync                                              // syncPool.Get
    | PutCheck(buf: Buf)                                   // load count, compare with max
    | PutLoad(buf: Buf, node: Addr)                        // load head
    | PutLink(buf: Buf, node: Addr, seen': Option<Addr>)   // node.next = seen
    | PutCas(buf: Buf, node: Addr, seen': Option<Addr>)    // CAS head: seen -> node
    | PutCount                                             // count += 1
    | PutSync(buf: Buf)                                    // syncPool.Put

  /** `held` are the buffers the thread's caller owns between operations. */
  datatype Thread = Thread(pc: Pc, held: multiset<Buf>)

  /** `made` are the buffers that were ever allocated, `passed` those on their way from one caller to another; `max` is
      maxPoolSize. */
  datatype State = State(
    heap: map<Addr, Node>,
    head: Option<Addr>,
    count: nat,
    bag: multiset<Buf>,
    made: set<Buf>,
    passed: multiset<Buf>,
    threads: seq<Thread>,
    max: nat)

  datatype Action =
    | StartGet(t: nat)
    | StartPut(t: nat, b: Buf)     // the caller returns a buffer it holds
    | NewBuffer(t: nat, b: Buf)    // PreAllocate, or a caller, makes a buffer of its own
    | Pass(t: nat, b: Buf)         // the caller gives away a buffer it holds, through a channel say
    | Accept(t: nat, b: Buf)       // and another takes it
    | Check(t: nat, a: Addr)       // the load of count; a is the address of a possible new node
    | SyncGet(t: nat, b: Buf)      // sync.Pool hands out a stored buffer, or New makes one
    | Run(t: nat)                  // any other step of thread t
    | Lose(b: Buf)                 // the collector drops a buffer from sync.Pool

  ghost predicate Initial(s: State) {
    && s.heap == map[] && s.head == None && s.count == 0 && s.bag == multiset{} && s.made == {}
    && s.passed == multiset{}
    && (forall t :: 0 <= t < |s.threads| ==> s.threads[t] == Thread(Idle, multiset{}))
  }

  predicate Runnable(s: State, pc: Pc) {
    match pc
    case Idle => false
    case GetSync => false
    case PutCheck(_) => false
    case GetNext(h) => h in s.heap          // otherwise a nil dereference
    case GetCas(h, _) => h in s.heap
    case PutLink(_, n, _) => n in s.heap
    case _ => true
  }

  predicate Enabled(s: State, a: Action) {
    match a
    case StartGet(t) => t < |s.threads| && s.threads[t].pc == Idle
    case StartPut(t, b) => t < |s.threads| && s.threads[t].pc == Idle && b in s.threads[t].held
    case NewBuffer(t, b) => t < |s.threads| && s.threads[t].pc == Idle && b !in s.made
    case Pass(t, b) => t < |s.threads| && s.threads[t].pc == Idle && b in s.threads[t].held
    case Accept(t, b) => t < |s.threads| && s.threads[t].pc == Idle && b in s.passed
    case Check(t, n) => t < |s.threads| && s.threads[t].pc.PutCheck? && n !in s.heap
    case SyncGet(t, b) => t < |s.threads| && s.threads[t].pc == GetSync && (b in s.bag || b !in s.made)
    case Run(t) => t < |s.threads| && Runnable(s, s.threads[t].pc)
    case Lose(b) => b in s.bag
  }

  function Goto(s: State, t: nat, pc: Pc): State
    requires t < |s.threads|
  {
    s.(threads := s.threads[t := s.threads[t].(pc := pc)])
  }

  function Give(s: State, t: nat, b: Buf): State
    requires t < |s.threads|
  {
    s.(threads := s.threads[t := Thread(Idle, s.threads[t].held + multiset{b})])
  }

  function RunStep(s: State, t: nat): State
    requires t < |s.threads| && Runnable(s, s.threads[t].pc)
  {
    match s.threads[t].pc
    case GetLoad => Goto(s, t, if s.head.None? then GetSync else GetNext(s.head.value))
    case GetNext(h) => Goto(s, t, GetCas(h, s.heap[h].next))
    case GetCas(h, n) =>
      if s.head == Some(h) then Goto(s.(head := n), t, GetCount(s.heap[h].buf)) else Goto(s, t, GetLoad)
    case GetCount(b) => Give(s.(count := (s.count + WORD - 1) % WORD), t, b)
    case PutLoad(b, n) => Goto(s, t, PutLink(b, n, s.head))
    case PutLink(b, n, h) => Goto(s.(heap := s.heap[n := s.heap[n].(next := h)]), t, PutCas(b, n, h))
    case PutCas(b, n, h) =>
      if s.head == h then Goto(s.(head := Some(n)), t, PutCount) else Goto(s, t, PutLoad(b, n))
    case PutCount => Goto(s.(count := (s.count + 1) % WORD), t, Idle)
    case PutSync(b) => Goto(s.(bag := s.bag + multiset{b}), t, Idle)
    case _ => s
  }

  function Apply(s: State, a: Action): State
    requires Enabled(s, a)
  {
    match a
    case StartGet(t) => Goto(s, t, GetLoad)
    case StartPut(t, b) =>
      s.(threads := s.threads[t := Thread(PutCheck(b), s.threads[t].held - multiset{b})])
    case NewBuffer(t, b) => Give(s.(made := s.made + {b}), t, b)
    case Pass(t, b) =>
      s.(threads := s.threads[t := s.threads[t].(held := s.threads[t].held - multiset{b})],
         passed := s.passed + multiset{b})
    case Accept(t, b) => Give(s.(passed := s.passed - multiset{b}), t, b)
    case Check(t, n) =>
      var b := s.threads[t].pc.buf;
      if s.count < s.max then Goto(s.(heap := s.heap[n := Node(b, None)]), t, PutLoad(b, n))
      else Goto(s, t, PutSync(b))
    case SyncGet(t, b) =>
      if b in s.bag then Give(s.(bag := s.bag - multiset{b}), t, b)
      else Give(s.(made := s.made + {b}), t, b)
    case Run(t) => RunStep(s, t)
    case Lose(b) => s.(bag := s.bag - multiset{b})
  }

  /** A run: every action is enabled where it is taken. */
  ghost predicate IsRun(s: State, acts: seq<Action>)
    decreases |acts|
  {
    acts == [] || (Enabled(s, acts[0]) && IsRun(Apply(s, acts[0]), acts[1..]))
  }

  ghost function Final(s: State, acts: seq<Action>): State
    requires IsRun(s, acts)
    decreases |acts|
  {
    if acts == [] then s else Final(Apply(s, acts[0]), acts[1..])
  }

  /** The compare-and-swap steps, and whether they succeed. */
  predicate IsCas(s: State, a: Action) {
    a.Run? && a.t < |s.threads| && (s.threads[a.t].pc.GetCas? || s.threads[a.t].pc.PutCas?)
  }

  predicate CasSucceeds(s: State, a: Action) {
    && IsCas(s, a)
    && match s.threads[a.t].pc
       case GetCas(h, _) => s.head == Some(h)
       case PutCas(_, _, h) => s.head == h
       case _ => false
  }

  ghost function Successes(s: State, acts: seq<Action>): nat
    requires IsRun(s, acts)
    decreases |acts|
  {
    if acts == [] then 0
    else (if CasSucceeds(s, acts[0]) then 1 else 0) + Successes(Apply(s, acts[0]), acts[1..])
  }

  ghost function Failures(s: State, acts: seq<Action>): nat
    requires IsRun(s, acts)
    decreases |acts|
  {
    if acts == [] then 0
    else (if IsCas(s, acts[0]) && !CasSucceeds(s, acts[0]) then 1 else 0) + Failures(Apply(s, acts[0]), acts[1..])
  }

  // ----- The sequential stack that the run is compared with

  /** `Empty` is a Get that finds nothing to pop. */
  datatype StackOp = Push(b: Buf) | Pop(b: Buf) | Empty

  ghost predicate Legal(stack: seq<Buf>, ops: seq<StackOp>)
    decreases |ops|
  {
    ops == [] ||
    match ops[0]
    case Push(b) => Legal([b] + stack, ops[1..])
    case Pop(b) => stack != [] && stack[0] == b && Legal(stack[1..], ops[1..])
    case Empty => stack == [] && Legal(stack, ops[1..])
  }

  ghost function Replay(stack: seq<Buf>, ops: seq<StackOp>): seq<Buf>
    requires Legal(stack, ops)
    decreases |ops|
  {
    if ops == [] then stack
    else match ops[0]
      case Push(b) => Replay([b] + stack, ops[1..])
      case Pop(_) => Replay(stack[1..], ops[1..])
      case Empty => Replay(stack, ops[1..])
  }

  /** What a step does to the stack: a push or a pop when a CAS succeeds, a look at the empty stack when a Get
      loads no head, else nothing. A pop is labelled with the buffer its thread goes on to return. */
  ghost function StepOps(s: State, a: Action): seq<StackOp>
    requires Enabled(s, a)
  {
    if a.Run? && s.threads[a.t].pc.GetLoad? && s.head.None? then [Empty]
    else if !CasSucceeds(s, a) then []
    else match s.threads[a.t].pc
      case PutCas(b, _, _) => [Push(b)]
      case GetCas(_, _) => [Pop(Apply(s, a).threads[a.t].pc.taken)]
      case _ => []
  }

  ghost function Ops(s: State, acts: seq<Action>): seq<StackOp>
    requires IsRun(s, acts)
    decreases |acts|
  {
    if acts == [] then [] else StepOps(s, acts[0]) + Ops(Apply(s, acts[0]), acts[1..])
  }
}
