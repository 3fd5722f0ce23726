/** The priority message queue: four FIFO lists that behave as one stably sorted list. */
module PriorityQueues {
  import opened Sums

  datatype Message = Message(id: int, priority: int)

  /** A priority outside 0..3 counts as normal. */
  function Clamp(m: Message): (p: nat)
    ensures p < 4
  {
    if m.priority < 0 || m.priority > 3 then 1 else m.priority
  }

  function OfPriority(s: seq<Message>, p: nat): (r: seq<Message>)
    ensures forall m :: m in r ==> Clamp(m) == p
  {
    if s == [] then []
    else if Clamp(s[0]) == p then [s[0]] + OfPriority(s[1..], p)
    else OfPriority(s[1..], p)
  }

  /** Highest priority first. */
  ghost predicate Descending(s: seq<Message>) {
    forall i, j :: 0 <= i < j < |s| ==> Clamp(s[i]) >= Clamp(s[j])
  }

  /** `out` is `s` sorted by descending priority, stably: messages of one priority keep their order. */
  ghost predicate StableSort(s: seq<Message>, out: seq<Message>) {
    Descending(out) && forall p :: OfPriority(out, p) == OfPriority(s, p)
  }

  lemma {:induction false} OfPriorityConcat(a: seq<Message>, b: seq<Message>, p: nat)
    ensures OfPriority(a + b, p) == OfPriority(a, p) + OfPriority(b, p)
  {
    if a == [] {
      assert a + b == b;
    } else {
      OfPriorityConcat(a[1..], b, p);
      assert (a + b)[1..] == a[1..] + b;
    }
  }

  lemma {:induction false} OfPriorityAll(s: seq<Message>, q: nat, p: nat)
    requires forall m :: m in s ==> Clamp(m) == q
    ensures OfPriority(s, p) == if p == q then s else []
  {
    if s == [] {
    } else {
      assert s[0] in s && forall m :: m in s[1..] ==> m in s;
      OfPriorityAll(s[1..], q, p);
      assert s == [s[0]] + s[1..];
    }
  }

  lemma {:induction false} OfPriorityCount(s: seq<Message>, m: Message)
    ensures multiset(OfPriority(s, Clamp(m)))[m] == multiset(s)[m]
  {
    if s == [] {
    } else {
      OfPriorityCount(s[1..], m);
      assert s == [s[0]] + s[1..];
    }
  }

  /** A stable sort is unique, and a permutation. */
  lemma {:induction false} StableSortUnique(s: seq<Message>, a: seq<Message>, b: seq<Message>)
    requires StableSort(s, a) && StableSort(s, b)
    ensures a == b && multiset(a) == multiset(s)
  {
    forall m ensures multiset(a)[m] == multiset(s)[m] {
      OfPriorityCount(a, m);
      OfPriorityCount(s, m);
    }
    forall p ensures OfPriority(a, p) == OfPriority(b, p) {
      assert OfPriority(a, p) == OfPriority(s, p) == OfPriority(b, p);
    }
    SameParts(a, b);
  }

  lemma {:induction false} SameParts(a: seq<Message>, b: seq<Message>)
    requires Descending(a) && Descending(b) && forall p :: OfPriority(a, p) == OfPriority(b, p)
    ensures a == b
    decreases |a|
  {
    if a == [] || b == [] {
      assert a == [] || OfPriority(a, Clamp(a[0])) != [];
      assert b == [] || OfPriority(b, Clamp(b[0])) != [];
    } else {
      HeadPart(a, b);
      HeadPart(b, a);
      var h := Clamp(a[0]);
      assert OfPriority(a, h)[0] == a[0] && OfPriority(b, h)[0] == b[0];
      forall p ensures OfPriority(a[1..], p) == OfPriority(b[1..], p) {
        assert OfPriority(a, p) == OfPriority(b, p);
        if p == h {
          assert OfPriority(a, p)[1..] == OfPriority(a[1..], p);
          assert OfPriority(b, p)[1..] == OfPriority(b[1..], p);
        }
      }
      SameParts(a[1..], b[1..]);
    }
  }

  lemma {:induction false} PartNonEmpty(s: seq<Message>, i: nat)
    requires i < |s|
    ensures OfPriority(s, Clamp(s[i])) != []
  {
    if i > 0 {
      PartNonEmpty(s[1..], i - 1);
    }
  }

  lemma {:induction false} PartMember(s: seq<Message>, p: nat) returns (i: nat)
    requires OfPriority(s, p) != []
    ensures i < |s| && Clamp(s[i]) == p
  {
    if Clamp(s[0]) == p {
      i := 0;
    } else {
      var j := PartMember(s[1..], p);
      i := j + 1;
    }
  }

  lemma HeadPart(a: seq<Message>, b: seq<Message>)
    requires Descending(b) && forall p :: OfPriority(a, p) == OfPriority(b, p)
    requires a != [] && b != []
    ensures Clamp(a[0]) <= Clamp(b[0])
  {
    PartNonEmpty(a, 0);
    assert OfPriority(b, Clamp(a[0])) != [];
    var i := PartMember(b, Clamp(a[0]));
  }

  // ----- The single list that the queue refines: messages in order of arrival

  /** The index of the first message of the highest priority present. */
  function Best(s: seq<Message>): (i: nat)
    requires s != []
    ensures i < |s|
    ensures forall j :: 0 <= j < |s| ==> Clamp(s[j]) <= Clamp(s[i])
    ensures forall j :: 0 <= j < i ==> Clamp(s[j]) < Clamp(s[i])
  {
    if |s| == 1 then 0
    else
      var k := Best(s[1..]) + 1;
      assert forall j :: 1 <= j < |s| ==> s[j] == s[1..][j - 1];
      if Clamp(s[0]) >= Clamp(s[k]) then 0 else k
  }

  function RemoveBest(s: seq<Message>): (r: seq<Message>)
    requires s != []
    ensures |r| == |s| - 1
  {
    s[..Best(s)] + s[Best(s) + 1..]
  }

  lemma RemoveBestParts(s: seq<Message>, p: nat)
    requires s != []
    ensures var i := Best(s);
            OfPriority(s, p) == (if p == Clamp(s[i]) then [s[i]] else []) + OfPriority(RemoveBest(s), p)
    ensures p > Clamp(s[Best(s)]) ==> OfPriority(s, p) == []
  {
    var i := Best(s);
    var before, after := s[..i], s[i + 1..];
    assert s == before + ([s[i]] + after);
    OfPriorityConcat(before, [s[i]] + after, p);
    OfPriorityConcat([s[i]], after, p);
    OfPriorityConcat(before, after, p);
    OfPriorityAll([s[i]], Clamp(s[i]), p);
    if p >= Clamp(s[i]) { NonePart(before, p); }
    if p > Clamp(s[i]) { NonePart(after, p); }
  }

  lemma {:induction false} NonePart(s: seq<Message>, p: nat)
    requires forall i :: 0 <= i < |s| ==> Clamp(s[i]) != p
    ensures OfPriority(s, p) == []
  {
    if s == [] {
    } else {
      NonePart(s[1..], p);
    }
  }

  /** What dequeuing until empty returns. */
  function Drain(s: seq<Message>): seq<Message>
    decreases |s|
  {
    if s == [] then [] else [s[Best(s)]] + Drain(RemoveBest(s))
  }

  lemma RemoveBestCount(s: seq<Message>, m: Message)
    requires s != []
    ensures multiset(s)[m] == multiset(RemoveBest(s))[m] + (if s[Best(s)] == m then 1 else 0)
  {
    var i := Best(s);
    assert s == s[..i] + [s[i]] + s[i + 1..];
    assert multiset(s)[m] == multiset(s[..i])[m] + (if s[i] == m then 1 else 0) + multiset(s[i + 1..])[m];
  }

  // Sorting the rest leaves nothing above the best.
  lemma BestIsMost(s: seq<Message>, out: seq<Message>)
    requires s != [] && StableSort(RemoveBest(s), out)
    ensures forall j :: 0 <= j < |out| ==> Clamp(out[j]) <= Clamp(s[Best(s)])
  {
    var rest := RemoveBest(s);
    forall j | 0 <= j < |out| ensures Clamp(out[j]) <= Clamp(s[Best(s)]) {
      PartNonEmpty(out, j);
      assert OfPriority(rest, Clamp(out[j])) != [];
      var k := PartMember(rest, Clamp(out[j]));
      assert rest[k] == s[if k < Best(s) then k else k + 1];
    }
  }

  /** Draining returns the queued messages as a stable sort by clamped priority. */
  lemma {:induction false} DrainIsStableSort(s: seq<Message>)
    ensures StableSort(s, Drain(s))
    decreases |s|
  {
    if s == [] {
    } else {
      var m, rest := s[Best(s)], RemoveBest(s);
      DrainIsStableSort(rest);
      var out := Drain(rest);
      BestIsMost(s, out);
      forall p ensures OfPriority([m] + out, p) == OfPriority(s, p) {
        RemoveBestParts(s, p);
        OfPriorityConcat([m], out, p);
        OfPriorityAll([m], Clamp(m), p);
        assert OfPriority(out, p) == OfPriority(rest, p);
      }
    }
  }

  // ----- In the messages' own priorities

  predicate InRange(m: Message) {
    0 <= m.priority <= 3
  }

  /** m may leave while n stays: between priorities in range the larger one goes first, and one out of range goes as
      one of priority 1. */
  predicate MayPrecede(m: Message, n: Message) {
    && (InRange(m) && InRange(n) ==> m.priority >= n.priority)
    && (InRange(m) && !InRange(n) ==> m.priority >= 1)
    && (!InRange(m) && InRange(n) ==> 1 >= n.priority)
  }

  /** What is drained goes in that order. */
  lemma DrainByPriority(s: seq<Message>)
    ensures var out := Drain(s); forall i, j :: 0 <= i < j < |out| ==> MayPrecede(out[i], out[j])
  {
    DrainIsStableSort(s);
    var out := Drain(s);
    forall i, j | 0 <= i < j < |out| ensures MayPrecede(out[i], out[j]) {
      assert Clamp(out[i]) >= Clamp(out[j]);
    }
  }

  /** Messages go in order of arrival if they have the same priority, or are both out of range or of priority 1. */
  predicate SameRank(m: Message, n: Message) {
    m.priority == n.priority || ((!InRange(m) || m.priority == 1) && (!InRange(n) || n.priority == 1))
  }

  function Alike(s: seq<Message>, m: Message): seq<Message> {
    if s == [] then [] else if SameRank(s[0], m) then [s[0]] + Alike(s[1..], m) else Alike(s[1..], m)
  }

  lemma {:induction false} AlikeIsPart(s: seq<Message>, m: Message)
    ensures Alike(s, m) == OfPriority(s, Clamp(m))
  {
    if s == [] {
    } else {
      AlikeIsPart(s[1..], m);
    }
  }

  lemma DrainKeepsArrivals(s: seq<Message>, m: Message)
    ensures Alike(Drain(s), m) == Alike(s, m)
  {
    DrainIsStableSort(s);
    AlikeIsPart(s, m);
    AlikeIsPart(Drain(s), m);
  }

  lemma BestPrecedes(s: seq<Message>)
    requires s != []
    ensures forall m :: m in s ==> MayPrecede(s[Best(s)], m)
  {
  }

  // ----- The queue object

  class PriorityMessageQueue {
    var queues: seq<seq<Message>>
    var size: int
    ghost var arrivals: seq<Message>  // the queued messages in order of arrival

    ghost predicate Valid()
      reads this
    {
      && |queues| == 4
      && (forall p :: 0 <= p < 4 ==> queues[p] == OfPriority(arrivals, p))
      && size == |queues[0]| + |queues[1]| + |queues[2]| + |queues[3]|
    }

    constructor ()
      ensures Valid() && arrivals == []
    {
      queues := [[], [], [], []];
      size, arrivals := 0, [];
    }

    method Enqueue(message: Message)
      requires Valid()
      modifies this
      ensures Valid() && arrivals == old(arrivals) + [message]
    {
      var priority := message.priority;
      if priority < 0 || priority > 3 { priority := 1; }
      forall p | 0 <= p < 4 ensures OfPriority(arrivals + [message], p)
          == queues[p] + (if p == priority then [message] else []) {
        OfPriorityConcat(arrivals, [message], p);
        OfPriorityAll([message], priority, p);
      }
      queues := queues[priority := queues[priority] + [message]];
      size := size + 1;
      arrivals := arrivals + [message];
    }

    /** The position in `arrivals` of the head of the first non-empty queue, from the highest priority. */
    lemma HeadIsBest(priority: nat)
      requires Valid() && priority < 4 && queues[priority] != []
      requires forall p :: priority < p < 4 ==> queues[p] == []
      ensures arrivals != [] && queues[priority][0] == arrivals[Best(arrivals)]
          && Clamp(arrivals[Best(arrivals)]) == priority
      ensures forall p :: 0 <= p < 4 ==>
          OfPriority(RemoveBest(arrivals), p) == if p == priority then queues[p][1..] else queues[p]
    {
      var i := Best(arrivals);
      PartNonEmpty(arrivals, i);
      var k := PartMember(arrivals, priority);
      forall p | 0 <= p < 4
        ensures OfPriority(RemoveBest(arrivals), p) == if p == priority then queues[p][1..] else queues[p]
      {
        RemoveBestParts(arrivals, p);
      }
      RemoveBestParts(arrivals, priority);
    }

    method Take(priority: nat) returns (m: Message)
      requires Valid() && priority < 4 && queues[priority] != []
      requires forall p :: priority < p < 4 ==> queues[p] == []
      modifies this
      ensures Valid() && old(arrivals) != []
      ensures m == old(arrivals)[Best(old(arrivals))] && arrivals == RemoveBest(old(arrivals))
    {
      HeadIsBest(priority);
      m := queues[priority][0];
      queues := queues[priority := queues[priority][1..]];
      size := size - 1;
      arrivals := RemoveBest(arrivals);
    }

    /** None exactly when empty; otherwise the earliest message of the highest priority. */
    method Dequeue() returns (r: Option<Message>)
      requires Valid()
      modifies this
      ensures Valid()
      ensures old(arrivals) == [] ==> r == None && arrivals == []
      ensures old(arrivals) != [] ==>
          r == Some(old(arrivals)[Best(old(arrivals))]) && arrivals == RemoveBest(old(arrivals))
      ensures r.Some? ==> forall m :: m in old(arrivals) ==> MayPrecede(r.value, m)
    {
      if arrivals != [] { BestPrecedes(arrivals); }
      var priority := 3;
      while priority >= 0
        invariant -1 <= priority <= 3 && Valid() && arrivals == old(arrivals)
        invariant forall p :: priority < p < 4 ==> queues[p] == []
      {
        if |queues[priority]| > 0 {
          var m := Take(priority);
          return Some(m);
        }
        priority := priority - 1;
      }
      if arrivals != [] { PartNonEmpty(arrivals, 0); }
      r := None;
    }

    method Peek() returns (r: Option<Message>)
      requires Valid()
      ensures r == if arrivals == [] then None else Some(arrivals[Best(arrivals)])
    {
      var priority := 3;
      while priority >= 0
        invariant -1 <= priority <= 3
        invariant forall p :: priority < p < 4 ==> queues[p] == []
      {
        if |queues[priority]| > 0 {
          HeadIsBest(priority);
          return Some(queues[priority][0]);
        }
        priority := priority - 1;
      }
      if arrivals != [] { PartNonEmpty(arrivals, 0); }
      r := None;
    }

    method Size() returns (n: int)
      requires Valid()
      ensures n == |arrivals|
    {
      PartSizes(arrivals);
      n := size;
    }

    method Clear()
      requires Valid()
      modifies this
      ensures Valid() && arrivals == []
    {
      for i := 0 to 4
        invariant |queues| == 4 && forall p :: 0 <= p < i ==> queues[p] == []
      {
        queues := queues[i := []];
      }
      size, arrivals := 0, [];
    }
  }

  lemma {:induction false} PartSizes(s: seq<Message>)
    ensures |s| == |OfPriority(s, 0)| + |OfPriority(s, 1)| + |OfPriority(s, 2)| + |OfPriority(s, 3)|
  {
    if s == [] {
    } else {
      PartSizes(s[1..]);
    }
  }

  method Next(q: PriorityMessageQueue) returns (m: Option<Message>)
    requires q.Valid()
    modifies q
    ensures q.Valid() && old(Drain(q.arrivals)) == (if m.Some? then [m.value] + Drain(q.arrivals) else [])
    ensures if m.None? then q.arrivals == [] else |q.arrivals| < |old(q.arrivals)|
  {
    m := q.Dequeue();
  }

  method DrainLoop(q: PriorityMessageQueue) returns (out: seq<Message>)
    requires q.Valid()
    modifies q
    ensures q.Valid() && q.arrivals == [] && out == old(Drain(q.arrivals))
    decreases |q.arrivals|
  {
    var m := Next(q);
    if m.None? {
      out := [];
    } else {
      var rest := DrainLoop(q);
      out := [m.value] + rest;
    }
  }

  /** Draining the queue object returns its messages as a stable sort of their arrival order. */
  method DrainAll(q: PriorityMessageQueue) returns (out: seq<Message>)
    requires q.Valid()
    modifies q
    ensures q.Valid() && q.arrivals == []
    ensures StableSort(old(q.arrivals), out) && multiset(out) == multiset(old(q.arrivals))
  {
    ghost var queued := q.arrivals;
    out := DrainLoop(q);
    DrainIsStableSort(queued);
    StableSortUnique(queued, out, out);
  }

  // ----- Runs

  datatype Op = Enqueue(m: Message) | Dequeue | Clear

  function After(ops: seq<Op>): seq<Message>
    decreases |ops|
  {
    if ops == [] then []
    else
      var before := After(ops[..|ops| - 1]);
      match ops[|ops| - 1]
      case Enqueue(m) => before + [m]
      case Dequeue => if before == [] then [] else RemoveBest(before)
      case Clear => []
  }

  function Enqueued(ops: seq<Op>, m: Message): nat
    decreases |ops|
  {
    if ops == [] then 0
    else Enqueued(ops[..|ops| - 1], m) + (if ops[|ops| - 1] == Enqueue(m) then 1 else 0)
  }

  /** How often m left the queue: handed out by a Dequeue, or dropped by a Clear. */
  function Left(ops: seq<Op>, m: Message): nat
    decreases |ops|
  {
    if ops == [] then 0
    else
      var before := After(ops[..|ops| - 1]);
      Left(ops[..|ops| - 1], m)
      + (match ops[|ops| - 1]
         case Enqueue(_) => 0
         case Dequeue => if before != [] && before[Best(before)] == m then 1 else 0
         case Clear => multiset(before)[m])
  }

  /** Over any interleaving of Enqueue, Dequeue and Clear nothing is lost or duplicated: every message was
      enqueued as often as it left and is still queued. */
  lemma {:induction false} NothingLost(ops: seq<Op>, m: Message)
    ensures Enqueued(ops, m) == Left(ops, m) + multiset(After(ops))[m]
    decreases |ops|
  {
    if ops == [] {
    } else {
      var before := After(ops[..|ops| - 1]);
      NothingLost(ops[..|ops| - 1], m);
      if ops[|ops| - 1].Dequeue? && before != [] {
        RemoveBestCount(before, m);
      }
    }
  }
}
