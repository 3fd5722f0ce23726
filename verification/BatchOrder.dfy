/** When batched messages leave in the order they were added. */
module BatchOrder {
  import opened BatchFlush

  function Rest(f: Flusher): seq<Data> {
    if f.Sending? then f.rest else []
  }

  /** What the flushers of these turns hold, one after the other. */
  function Held(flushers: seq<Flusher>, turns: seq<nat>): seq<Data> {
    if turns == [] then []
    else (if turns[0] < |flushers| then Rest(flushers[turns[0]]) else []) + Held(flushers, turns[1..])
  }

  predicate Holds(s: State, i: nat) {
    i < |s.flushers| && s.flushers[i].Sending? && s.flushers[i].rest != []
  }

  predicate DistinctTurns(turns: seq<nat>) {
    turns == [] || (turns[0] !in turns[1..] && DistinctTurns(turns[1..]))
  }

  /** `turns` lists exactly the flushers that still hold messages. */
  ghost predicate TurnsExact(s: State) {
    DistinctTurns(s.turns) && forall i: nat :: i in s.turns <==> Holds(s, i)
  }

  /** Sent, then in hand by turns, then in the batch: the order in which they were added. */
  ghost predicate InOrder(s: State) {
    s.added == s.sent + Held(s.flushers, s.turns) + s.buffer
  }

  /** A step that sends is made by the flusher that took its batch first. */
  predicate InTurn(s: State, a: Action) {
    a.Step? && Holds(s, a.i) ==> s.turns != [] && s.turns[0] == a.i
  }

  lemma {:induction false} HeldUpdate(flushers: seq<Flusher>, turns: seq<nat>, i: nat, f: Flusher)
    requires i < |flushers| && i !in turns
    ensures Held(flushers[i := f], turns) == Held(flushers, turns)
  {
    if turns == [] {
    } else {
      HeldUpdate(flushers, turns[1..], i, f);
    }
  }

  lemma {:induction false} HeldAppend(flushers: seq<Flusher>, turns: seq<nat>, f: Flusher)
    requires forall i :: i in turns ==> i < |flushers|
    ensures Held(flushers + [f], turns) == Held(flushers, turns)
  {
    if turns == [] {
    } else {
      assert turns[0] in turns && forall i :: i in turns[1..] ==> i in turns;
      HeldAppend(flushers, turns[1..], f);
    }
  }

  lemma {:induction false} HeldNewTurn(flushers: seq<Flusher>, turns: seq<nat>, i: nat)
    requires i < |flushers|
    ensures Held(flushers, turns + [i]) == Held(flushers, turns) + Rest(flushers[i])
  {
    if turns == [] {
      assert turns + [i] == [i];
      assert [i][1..] == [];
    } else {
      assert (turns + [i])[1..] == turns[1..] + [i];
      HeldNewTurn(flushers, turns[1..], i);
    }
  }

  lemma {:induction false} NewTurnDistinct(turns: seq<nat>, i: nat)
    requires DistinctTurns(turns) && i !in turns
    ensures DistinctTurns(turns + [i])
  {
    if turns == [] {
      assert turns + [i] == [i];
    } else {
      NewTurnDistinct(turns[1..], i);
      assert (turns + [i])[1..] == turns[1..] + [i];
    }
  }

  lemma {:induction false} WithoutTurn(turns: seq<nat>, i: nat)
    requires DistinctTurns(turns)
    ensures DistinctTurns(Without(turns, i)) && forall k :: k in Without(turns, i) <==> k in turns && k != i
  {
    if turns == [] {
    } else {
      WithoutTurn(turns[1..], i);
      assert turns == [turns[0]] + turns[1..];
      if turns[0] != i {
        var r := Without(turns, i);
        assert r[1..] == Without(turns[1..], i);
      }
    }
  }

  // ----- The turns are exact in every run

  lemma StepTurns(s: State, i: nat)
    requires i < |s.flushers| && s.flushers[i] != Ready && TurnsExact(s)
    ensures TurnsExact(StepOf(s, i))
  {
    var s' := StepOf(s, i);
    assert s'.flushers == s.flushers[i := s'.flushers[i]];
    forall k: nat | k != i ensures Holds(s', k) == Holds(s, k) {
    }
    if s.flushers[i] == Entering && s.buffer != [] {
      assert i !in s.turns;
      NewTurnDistinct(s.turns, i);
    } else if Holds(s, i) && |s.flushers[i].rest| == 1 {
      WithoutTurn(s.turns, i);
    } else {
      assert s'.turns == s.turns && Holds(s', i) == Holds(s, i);
    }
  }

  lemma TurnsStep(s: State, a: Action)
    requires Enabled(s, a) && TurnsExact(s)
    ensures TurnsExact(Apply(s, a))
  {
    if a.Step? {
      StepTurns(s, a.i);
    } else {
      var s' := Apply(s, a);
      forall k: nat ensures Holds(s', k) == Holds(s, k) {
      }
    }
  }

  // ----- Sending in turn keeps the order

  // The first to hold messages sends one: the rest is still held in the same order.
  lemma HeldSend(s: State, i: nat)
    requires TurnsExact(s) && Holds(s, i) && s.turns != [] && s.turns[0] == i
    ensures Held(s.flushers, s.turns)
            == [s.flushers[i].rest[0]] + Held(StepOf(s, i).flushers, StepOf(s, i).turns)
  {
    var rest, others := s.flushers[i].rest, s.turns[1..];
    var after := s.flushers[i := Sending(rest[1..])];
    HeldUpdate(s.flushers, others, i, Sending(rest[1..]));
    assert rest == [rest[0]] + rest[1..];
    if |rest| == 1 {
      assert Held(after, others) == Held(s.flushers, others);
    } else {
      assert Held(after, s.turns) == rest[1..] + Held(s.flushers, others);
    }
  }

  lemma SendKeeps(s: State, i: nat)
    requires TurnsExact(s) && InOrder(s) && Holds(s, i) && s.turns != [] && s.turns[0] == i
    ensures InOrder(StepOf(s, i))
  {
    HeldSend(s, i);
    Shift(s.sent, s.flushers[i].rest[0], Held(StepOf(s, i).flushers, StepOf(s, i).turns), s.buffer);
  }

  lemma Shift(sent: seq<Data>, d: Data, held: seq<Data>, buffer: seq<Data>)
    ensures sent + ([d] + held) + buffer == sent + [d] + held + buffer
  {
  }

  lemma QuietKeeps(s: State, i: nat)
    requires i < |s.flushers| && s.flushers[i] != Ready && TurnsExact(s) && InOrder(s) && !Holds(s, i)
    ensures InOrder(StepOf(s, i))
  {
    var s' := StepOf(s, i);
    assert s'.flushers == s.flushers[i := s'.flushers[i]] && i !in s.turns;
    HeldUpdate(s.flushers, s.turns, i, s'.flushers[i]);
    if s.flushers[i] == Entering && s.buffer != [] {
      HeldNewTurn(s'.flushers, s.turns, i);
      assert s.sent + (Held(s.flushers, s.turns) + s.buffer) + [] == s.added;
    }
  }

  lemma OrderStep(s: State, a: Action)
    requires Enabled(s, a) && TurnsExact(s) && InOrder(s) && InTurn(s, a)
    ensures InOrder(Apply(s, a))
  {
    match a
    case Step(i) => if Holds(s, i) { SendKeeps(s, i); } else { QuietKeeps(s, i); }
    case Add(d) =>
      var s' := Apply(s, a);
      assert 0 !in s.turns;
      HeldUpdate(s.flushers, s.turns, 0, s'.flushers[0]);
      assert s.sent + Held(s.flushers, s.turns) + s'.buffer == s.added + [d];
    case Fire => HeldAppend(s.flushers, s.turns, Entering);
    case Close => HeldAppend(s.flushers, s.turns, Entering);
  }

  // ----- Sending out of turn loses it for good

  ghost predicate Distinct(s: seq<Data>) {
    forall i, j :: 0 <= i < j < |s| ==> s[i] != s[j]
  }

  /** Some message was sent in the place of another. */
  ghost predicate Broken(s: State) {
    exists k :: 0 <= k < |s.sent| && k < |s.added| && s.sent[k] != s.added[k]
  }

  lemma {:induction false} HeldHas(flushers: seq<Flusher>, turns: seq<nat>, i: nat)
    requires i in turns && i < |flushers| && Rest(flushers[i]) != []
    ensures Rest(flushers[i])[0] in Held(flushers, turns)
  {
    if turns[0] != i {
      HeldHas(flushers, turns[1..], i);
    }
  }

  lemma OutOfTurn(s: State, a: Action)
    requires Enabled(s, a) && TurnsExact(s) && InOrder(s) && !InTurn(s, a) && Distinct(s.added)
    ensures Broken(Apply(s, a))
  {
    var i, n := a.i, |s.sent|;
    var m, first := s.flushers[i].rest[0], s.turns[0];
    assert i in s.turns && i in s.turns[1..] && Holds(s, first) by { assert s.turns == [first] + s.turns[1..]; }
    var head, tail := s.flushers[first].rest, Held(s.flushers, s.turns[1..]);
    HeldHas(s.flushers, s.turns[1..], i);
    assert Held(s.flushers, s.turns) == head + tail;
    var k :| 0 <= k < |tail| && tail[k] == m;
    assert s.added[n] == head[0];
    assert s.added[n + |head| + k] == m;
    assert Apply(s, a).sent[n] == m;
  }

  lemma Grows(s: State, a: Action)
    requires Enabled(s, a)
    ensures s.sent <= Apply(s, a).sent && s.added <= Apply(s, a).added
  {
  }

  lemma {:induction false} BrokenRun(s: State, acts: seq<Action>)
    requires IsRun(s, acts)
    ensures s.added <= Final(s, acts).added
    ensures Broken(s) ==> Broken(Final(s, acts))
    decreases |acts|
  {
    if acts == [] {
    } else {
      var s' := Apply(s, acts[0]);
      Grows(s, acts[0]);
      if Broken(s) {
        var k :| 0 <= k < |s.sent| && k < |s.added| && s.sent[k] != s.added[k];
        assert s'.sent[k] == s.sent[k] && s'.added[k] == s.added[k];
      }
      BrokenRun(s', acts[1..]);
    }
  }

  // ----- Exactly when

  ghost predicate AllInTurn(s: State, acts: seq<Action>)
    requires IsRun(s, acts)
    decreases |acts|
  {
    acts == [] || (InTurn(s, acts[0]) && AllInTurn(Apply(s, acts[0]), acts[1..]))
  }

  lemma {:induction false} OrderRun(s: State, acts: seq<Action>)
    requires IsRun(s, acts) && TurnsExact(s) && InOrder(s) && Distinct(Final(s, acts).added)
    ensures if AllInTurn(s, acts) then InOrder(Final(s, acts)) else Broken(Final(s, acts))
    decreases |acts|
  {
    if acts == [] {
    } else {
      BrokenRun(s, acts);
      TurnsStep(s, acts[0]);
      if InTurn(s, acts[0]) {
        OrderStep(s, acts[0]);
        OrderRun(Apply(s, acts[0]), acts[1..]);
      } else {
        OutOfTurn(s, acts[0]);
        BrokenRun(Apply(s, acts[0]), acts[1..]);
      }
    }
  }

  /** Over any run with distinct messages, they are handed to the socket in the order they were added if and only if
      every flusher that sends took its batch before any other that still holds messages. */
  lemma OrderKeptIff(batchSize: int, acts: seq<Action>)
    requires IsRun(Initial(batchSize), acts) && Distinct(Final(Initial(batchSize), acts).added)
    ensures Final(Initial(batchSize), acts).sent <= Final(Initial(batchSize), acts).added
            <==> AllInTurn(Initial(batchSize), acts)
  {
    OrderRun(Initial(batchSize), acts);
    var s := Final(Initial(batchSize), acts);
    if AllInTurn(Initial(batchSize), acts) {
      assert s.added[..|s.sent|] == s.sent;
    }
  }

  // ----- It does get lost

  // With the first message in a timer's hands, the sender fills a batch with the second and sends that first.
  lemma Overtake(s: State, first: Data, second: Data) returns (acts: seq<Action>)
    requires |s.flushers| == 2 && s.flushers[0] == Ready && s.flushers[1] == Sending([first])
    requires s.buffer == [] && s.turns == [1] && s.sent == [] && s.added == [first]
    ensures IsRun(s, acts) && Final(s, acts).sent == [second] && [first] <= Final(s, acts).added
  {
    var fill, full := FillUp(s, second);
    var s1 := Apply(full, Step(0));
    var s2 := Apply(s1, Step(0));
    Prepend(s1, Step(0), []);
    Prepend(full, Step(0), [Step(0)]);
    acts := fill + [Step(0), Step(0)];
    Join(s, fill, [Step(0), Step(0)]);
  }

  /** Whatever the batch size, a timer's flush and the sender's can overlap, and a later message overtake an earlier. */
  lemma OrderLost(batchSize: int, first: Data, second: Data) returns (acts: seq<Action>)
    requires first != second
    ensures IsRun(Initial(batchSize), acts)
    ensures var s := Final(Initial(batchSize), acts);
            s.sent == [second] && s.added != [] && s.added[0] == first && !(s.sent <= s.added)
  {
    var s0 := Initial(batchSize);
    var s1 := Apply(s0, Add(first));
    var s2 := Apply(s1, Fire);
    var s3 := Apply(s2, Step(1));
    assert s1.flushers == [s1.flushers[0]] && s2.flushers == [s1.flushers[0], Entering] && s2.buffer == [first];
    assert s3.flushers == [s1.flushers[0], Sending([first])];
    var s4 := s3.(flushers := [Ready, Sending([first])]);
    acts := Overtake(s4, first, second);
    if s1.flushers[0] == Entering {
      assert Apply(s3, Step(0)) == s4;
      Prepend(s3, Step(0), acts);
      acts := [Step(0)] + acts;
    } else {
      assert s3 == s4;
    }
    Prepend(s2, Step(1), acts);
    Prepend(s1, Fire, [Step(1)] + acts);
    Prepend(s0, Add(first), [Fire] + ([Step(1)] + acts));
    acts := [Add(first)] + ([Fire] + ([Step(1)] + acts));
  }
}
