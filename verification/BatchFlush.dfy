/**
 Batched sending on one WebSocket connection as a step machine: the sender goroutine fills the batch and flushes it
 when full, timer goroutines and the closing connection flush it too, and all of them send outside the lock.
 */
module BatchFlush {
  import opened Sums

  type Data = nat  // identity of a message

  /** Where a goroutine is in flushBatch. */
  datatype Flusher =
    | Ready                        // not in it: the sender waits for a message, any other goroutine has finished
    | Entering                     // with the lock: take the batch, or find it empty
    | Sending(rest: seq<Data>)     // send the next message of its own copy
    | Resetting                    // restart the timer

  /** `flushers[0]` is the sender. `turns` are the flushers with messages in hand, in the order they took
      them. `added` and `sent` record the messages batched, and those handed to the socket. */
  datatype State = State(
    batchSize: int,
    buffer: seq<Data>,
    flushers: seq<Flusher>,
    armed: bool,
    turns: seq<nat>,
    added: seq<Data>,
    sent: seq<Data>)

  datatype Action =
    | Add(d: Data)   // addToBatch, by the sender
    | Fire           // the timer runs out and starts a goroutine
    | Close          // the closing connection stops the timer and flushes
    | Step(i: nat)   // the next step of flusher i

  function Initial(batchSize: int): State {
    State(batchSize, [], [Ready], true, [], [], [])
  }

  predicate Enabled(s: State, a: Action) {
    match a
    case Add(_) => |s.flushers| > 0 && s.flushers[0] == Ready
    case Fire => s.armed
    case Close => true
    case Step(i) => i < |s.flushers| && s.flushers[i] != Ready
  }

  function Goto(s: State, i: nat, at: Flusher): State
    requires i < |s.flushers|
  {
    s.(flushers := s.flushers[i := at])
  }

  /** s without its first i. */
  function Without(s: seq<nat>, i: nat): seq<nat> {
    if s == [] then [] else if s[0] == i then s[1..] else [s[0]] + Without(s[1..], i)
  }

  function StepOf(s: State, i: nat): State
    requires i < |s.flushers| && s.flushers[i] != Ready
  {
    match s.flushers[i]
    case Entering =>
      if s.buffer == [] then Goto(s, i, Ready)
      else Goto(s.(buffer := [], turns := s.turns + [i]), i, Sending(s.buffer))
    case Sending(rest) =>
      if rest == [] then Goto(s, i, Resetting)
      else
        var turns := if |rest| == 1 then Without(s.turns, i) else s.turns;
        Goto(s.(sent := s.sent + [rest[0]], turns := turns), i, Sending(rest[1..]))
    case Resetting => Goto(s.(armed := true), i, Ready)
  }

  function Apply(s: State, a: Action): State
    requires Enabled(s, a)
  {
    match a
    case Add(d) =>
      var buffer := s.buffer + [d];
      Goto(s.(buffer := buffer, added := s.added + [d]), 0, if |buffer| >= s.batchSize then Entering else Ready)
    case Fire => s.(armed := false, flushers := s.flushers + [Entering])
    case Close => s.(armed := false, flushers := s.flushers + [Entering])
    case Step(i) => StepOf(s, i)
  }

  ghost predicate IsRun(s: State, acts: seq<Action>)
    decreases |acts|
  {
    acts == [] || (Enabled(s, acts[0]) && IsRun(Apply(s, acts[0]), acts[1..]))
  }

  ghost function Final(s: State, acts: seq<Action>): State
    requires IsRun(s, acts)
    decreases |acts|
  {
    if acts == [] then s else Final(Apply(s, acts[0]), acts[1..])
  }

  lemma Prepend(s: State, a: Action, rest: seq<Action>)
    requires Enabled(s, a) && IsRun(Apply(s, a), rest)
    ensures IsRun(s, [a] + rest) && Final(s, [a] + rest) == Final(Apply(s, a), rest)
  {
    assert ([a] + rest)[1..] == rest;
  }

  // ----- Nothing is lost or sent twice

  function Count(s: seq<Data>, d: Data): nat {
    multiset(s)[d]
  }

  lemma CountConcat(a: seq<Data>, b: seq<Data>, d: Data)
    ensures Count(a + b, d) == Count(a, d) + Count(b, d)
  {
  }

  ghost function Unsent(d: Data): Flusher -> int {
    (f: Flusher) => if f.Sending? then Count(f.rest, d) else 0
  }

  ghost predicate Conserved(s: State, d: Data) {
    Count(s.added, d) == Count(s.buffer, d) + SumBy(Unsent(d), s.flushers) + Count(s.sent, d)
  }

  // What flusher i's step does to one message: it stays in the buffer, in the flusher's copy, or goes to the socket.
  lemma StepMoves(s: State, i: nat, d: Data)
    requires i < |s.flushers| && s.flushers[i] != Ready
    ensures var s' := StepOf(s, i);
            && s'.added == s.added && s'.flushers == s.flushers[i := s'.flushers[i]]
            && Count(s'.buffer, d) + Unsent(d)(s'.flushers[i]) + Count(s'.sent, d)
               == Count(s.buffer, d) + Unsent(d)(s.flushers[i]) + Count(s.sent, d)
  {
    if s.flushers[i].Sending? && s.flushers[i].rest != [] {
      var rest := s.flushers[i].rest;
      assert rest == [rest[0]] + rest[1..];
      CountConcat([rest[0]], rest[1..], d);
      CountConcat(s.sent, [rest[0]], d);
    }
  }

  lemma StepConserves(s: State, a: Action, d: Data)
    requires Enabled(s, a) && Conserved(s, d)
    ensures Conserved(Apply(s, a), d)
  {
    match a
    case Add(x) =>
      CountConcat(s.buffer, [x], d);
      CountConcat(s.added, [x], d);
      SumUpdate(Unsent(d), s.flushers, 0, Apply(s, a).flushers[0]);
    case Fire => SumAppend(Unsent(d), s.flushers, Entering);
    case Close => SumAppend(Unsent(d), s.flushers, Entering);
    case Step(i) =>
      StepMoves(s, i, d);
      SumUpdate(Unsent(d), s.flushers, i, StepOf(s, i).flushers[i]);
  }

  /** Every interleaving of the sender, timers and closing: each message added is in the batch, in one flusher's
      hands, or was handed to the socket, as often as it was added. */
  lemma {:induction false} NothingLost(s: State, acts: seq<Action>, d: Data)
    requires IsRun(s, acts) && Conserved(s, d)
    ensures Conserved(Final(s, acts), d)
    decreases |acts|
  {
    if acts == [] {
    } else {
      StepConserves(s, acts[0], d);
      NothingLost(Apply(s, acts[0]), acts[1..], d);
    }
  }

  lemma ConservedFromStart(batchSize: int, acts: seq<Action>, d: Data)
    requires IsRun(Initial(batchSize), acts)
    ensures Conserved(Final(Initial(batchSize), acts), d)
  {
    NothingLost(Initial(batchSize), acts, d);
  }

  // ----- A timer that ran out on an empty batch

  function Adds(acts: seq<Action>): nat {
    if acts == [] then 0 else (if acts[0].Add? then 1 else 0) + Adds(acts[1..])
  }

  lemma NoneFirst(a: Action, acts: seq<Action>)
    ensures Adds([a] + acts) == (if a.Add? then 1 else 0) + Adds(acts)
    ensures a != Close && Close !in acts ==> Close !in [a] + acts
  {
    assert ([a] + acts)[1..] == acts;
  }

  // The sender adds d until the batch is full and it must flush.
  lemma {:induction false} FillUp(s: State, d: Data) returns (acts: seq<Action>, full: State)
    requires |s.flushers| > 0 && s.flushers[0] == Ready
    ensures IsRun(s, acts) && full == Final(s, acts) && Close !in acts
    ensures Adds(acts) == if s.batchSize - |s.buffer| <= 1 then 1 else s.batchSize - |s.buffer|
    ensures full.buffer != [] && full.buffer[0] == (s.buffer + [d])[0] && s.added <= full.added
    ensures full == s.(buffer := full.buffer, added := full.added, flushers := s.flushers[0 := Entering])
    decreases s.batchSize - |s.buffer|
  {
    var s' := Apply(s, Add(d));
    if s'.flushers[0] == Entering {
      acts, full := [], s';
    } else {
      assert s'.flushers == s.flushers;
      acts, full := FillUp(s', d);
    }
    Prepend(s, Add(d), acts);
    NoneFirst(Add(d), acts);
    acts := [Add(d)] + acts;
  }

  lemma {:induction false} Join(s: State, a: seq<Action>, b: seq<Action>)
    requires IsRun(s, a) && IsRun(Final(s, a), b)
    ensures IsRun(s, a + b) && Final(s, a + b) == Final(Final(s, a), b)
    decreases |a|
  {
    if a == [] {
      assert a + b == b;
    } else {
      Join(Apply(s, a[0]), a[1..], b);
      assert (a + b)[1..] == a[1..] + b;
    }
  }

  ghost predicate Asleep(s: State) {
    !s.armed && forall i :: 0 <= i < |s.flushers| ==> s.flushers[i] == Ready
  }

  /** Only a flush of a non-empty batch restarts the timer: once it has run out on an empty one, nothing is sent, for
      however long the connection stays open, while fewer messages are added than fill a batch. */
  lemma {:induction false} StaysAsleep(s: State, acts: seq<Action>)
    requires IsRun(s, acts) && Asleep(s) && |s.flushers| > 0
    requires Close !in acts && (Adds(acts) == 0 || |s.buffer| + Adds(acts) < s.batchSize)
    ensures Asleep(Final(s, acts)) && Final(s, acts).sent == s.sent
        && |Final(s, acts).buffer| == |s.buffer| + Adds(acts)
    decreases |acts|
  {
    if acts == [] {
    } else {
      assert acts[0] in acts && forall a :: a in acts[1..] ==> a in acts;
      assert acts[0].Add?;
      StaysAsleep(Apply(s, acts[0]), acts[1..]);
    }
  }

  lemma AddsJoin(a: seq<Action>, b: seq<Action>)
    ensures Adds(a + b) == Adds(a) + Adds(b)
  {
    if a == [] {
      assert a + b == b;
    } else {
      AddsJoin(a[1..], b);
      assert (a + b)[1..] == a[1..] + b;
    }
  }

  // A flusher that has taken a batch sends all of it and restarts the timer.
  lemma {:induction false} SendAll(s: State, i: nat) returns (acts: seq<Action>, s': State)
    requires i < |s.flushers| && s.flushers[i].Sending?
    ensures IsRun(s, acts) && s' == Final(s, acts) && Close !in acts && Adds(acts) == 0
    ensures s'.sent == s.sent + s.flushers[i].rest && s'.armed && s'.flushers == s.flushers[i := Ready]
    ensures s'.buffer == s.buffer && s'.added == s.added
    decreases |s.flushers[i].rest|
  {
    var s1 := StepOf(s, i);
    var rest := s.flushers[i].rest;
    if rest == [] {
      s' := StepOf(s1, i);
      Prepend(s1, Step(i), []);
      NoneFirst(Step(i), []);
      acts := [Step(i)] + [];
      assert s1.flushers[i := Ready] == s.flushers[i := Ready] && s.sent + rest == s.sent;
    } else {
      acts, s' := SendAll(s1, i);
      assert s1.flushers[i := Ready] == s.flushers[i := Ready];
      assert s.sent + rest == s.sent + [rest[0]] + rest[1..];
    }
    Prepend(s, Step(i), acts);
    NoneFirst(Step(i), acts);
    acts := [Step(i)] + acts;
  }

  /** A run without additions that empties the batch and hands all of it to the socket, while the connection is open. */
  ghost predicate Flushes(s: State, acts: seq<Action>) {
    && IsRun(s, acts) && Adds(acts) == 0 && Close !in acts
    && Final(s, acts).buffer == [] && s.buffer <= Suffix(Final(s, acts).sent, |s.buffer|)
  }

  /** The last n of s, or all of it. */
  function Suffix(s: seq<Data>, n: nat): seq<Data> {
    if n <= |s| then s[|s| - n..] else s
  }

  lemma FlushesAfter(s: State, a: Action, rest: seq<Action>)
    requires Enabled(s, a) && !a.Add? && a != Close && Apply(s, a).buffer == s.buffer && Flushes(Apply(s, a), rest)
    ensures Flushes(s, [a] + rest)
  {
    Prepend(s, a, rest);
    NoneFirst(a, rest);
  }

  lemma EnteringFlushes(s: State, i: nat) returns (acts: seq<Action>)
    requires i < |s.flushers| && s.flushers[i] == Entering && s.buffer != []
    ensures Flushes(s, acts)
  {
    var send, s' := SendAll(StepOf(s, i), i);
    Prepend(s, Step(i), send);
    NoneFirst(Step(i), send);
    acts := [Step(i)] + send;
    assert s'.sent[|s.sent|..] == s.buffer;
  }

  lemma ArmedFlushes(s: State) returns (acts: seq<Action>)
    requires s.armed && s.buffer != []
    ensures Flushes(s, acts)
  {
    var rest := EnteringFlushes(Apply(s, Fire), |s.flushers|);
    FlushesAfter(s, Fire, rest);
    acts := [Fire] + rest;
  }

  lemma ResettingFlushes(s: State, i: nat) returns (acts: seq<Action>)
    requires i < |s.flushers| && s.flushers[i] == Resetting && s.buffer != []
    ensures Flushes(s, acts)
  {
    var rest := ArmedFlushes(StepOf(s, i));
    FlushesAfter(s, Step(i), rest);
    acts := [Step(i)] + rest;
  }

  lemma {:induction false} SendingFlushes(s: State, i: nat) returns (acts: seq<Action>)
    requires i < |s.flushers| && s.flushers[i].Sending? && s.buffer != []
    ensures Flushes(s, acts)
    decreases |s.flushers[i].rest|
  {
    var rest;
    if s.flushers[i].rest == [] {
      rest := ResettingFlushes(StepOf(s, i), i);
    } else {
      rest := SendingFlushes(StepOf(s, i), i);
    }
    FlushesAfter(s, Step(i), rest);
    acts := [Step(i)] + rest;
  }

  /** Closing the connection flushes what is in the batch; on an empty batch it only stops the timer. */
  lemma CloseFlushes(s: State) returns (acts: seq<Action>)
    ensures IsRun(s, [Close] + acts) && Adds(acts) == 0 && Close !in acts
    ensures var f := Final(s, [Close] + acts);
            if s.buffer == [] then f == s.(armed := false, flushers := s.flushers + [Ready])
            else f.buffer == [] && f.sent == s.sent + s.buffer && f.armed
  {
    var n, s1 := |s.flushers|, Apply(s, Close);
    if s.buffer == [] {
      acts := [Step(n)] + [];
      Prepend(s1, Step(n), []);
      NoneFirst(Step(n), []);
      assert s1.flushers[n := Ready] == s.flushers + [Ready];
    } else {
      var send, s' := SendAll(StepOf(s1, n), n);
      acts := [Step(n)] + send;
      Prepend(s1, Step(n), send);
      NoneFirst(Step(n), send);
    }
    Prepend(s, Close, acts);
  }

  /** What is in the batch can be flushed without a further message, and without closing the connection, if and only if
      the timer runs or some goroutine is on its way through flushBatch. */
  lemma TimerFlushesIff(s: State)
    requires |s.flushers| > 0 && s.buffer != []
    ensures (exists acts :: Flushes(s, acts)) <==> !Asleep(s)
  {
    if Asleep(s) {
      forall acts ensures !Flushes(s, acts) {
        if IsRun(s, acts) && Close !in acts && Adds(acts) == 0 { StaysAsleep(s, acts); }
      }
    } else if s.armed {
      var acts := ArmedFlushes(s);
    } else {
      var i :| 0 <= i < |s.flushers| && s.flushers[i] != Ready;
      match s.flushers[i]
      case Entering => var acts := EnteringFlushes(s, i);
      case Sending(_) => var acts := SendingFlushes(s, i);
      case Resetting => var acts := ResettingFlushes(s, i);
    }
  }

  ghost predicate SendsWithin(s: State, n: nat, acts: seq<Action>) {
    IsRun(s, acts) && Close !in acts && Adds(acts) <= n && Final(s, acts).sent != s.sent
  }

  /** From such a sleep, and with n messages added before the connection closes, something can be sent if and only if
      the n messages, at least one, fill the batch. */
  lemma SleepEndsIff(s: State, n: nat)
    requires Asleep(s) && |s.flushers| > 0
    ensures (exists acts :: SendsWithin(s, n, acts)) <==> n >= 1 && |s.buffer| + n >= s.batchSize
  {
    if n >= 1 && |s.buffer| + n >= s.batchSize {
      var add, full := FillUp(s, 0);
      var s1 := Apply(full, Step(0));
      var send, s2 := SendAll(s1, 0);
      Prepend(full, Step(0), send);
      Join(s, add, [Step(0)] + send);
      AddsJoin(add, [Step(0)] + send);
      assert ([Step(0)] + send)[1..] == send;
      assert |s2.sent| > |s.sent|;
      assert SendsWithin(s, n, add + ([Step(0)] + send));
    } else {
      forall acts ensures !SendsWithin(s, n, acts) {
        if IsRun(s, acts) && Close !in acts && Adds(acts) <= n { StaysAsleep(s, acts); }
      }
    }
  }

  /** The timer first runs out before any message is added: then until the connection closes something can be sent if
      and only if a whole batch is added. */
  lemma SleepFromStart(batchSize: int, n: nat) returns (acts: seq<Action>)
    ensures IsRun(Initial(batchSize), acts) && Adds(acts) == 0 && Close !in acts
    ensures var s := Final(Initial(batchSize), acts);
            (exists more :: SendsWithin(s, n, more)) <==> n >= 1 && n >= batchSize
  {
    var s := Initial(batchSize);
    var s1 := Apply(s, Fire);
    var s2 := Apply(s1, Step(1));
    Prepend(s1, Step(1), []);
    Prepend(s, Fire, [Step(1)] + []);
    NoneFirst(Step(1), []);
    NoneFirst(Fire, [Step(1)] + []);
    acts := [Fire] + ([Step(1)] + []);
    SleepEndsIff(s2, n);
  }
}
