/** What removing a node from the ring moves, after any additions and removals and with any collisions. */
module RingRemoval {
  import opened RingModel
  import opened Sums

  /** Only hashes of the node move: what a removal is for. */
  ghost predicate MovesOnlyFrom(r: Ring, node: string, ps: seq<Hash>) {
    forall h :: Lookup(r, h) != node ==> Lookup(Remove(r, ps), h) == Lookup(r, h)
  }

  /** Every hash that another node serves stays with it; a hash without a node may gain one. */
  ghost predicate OthersKeep(r: Ring, node: string, ps: seq<Hash>) {
    forall h :: Lookup(r, h) != node && Lookup(r, h) != "" ==> Lookup(Remove(r, ps), h) == Lookup(r, h)
  }

  /** The points that stay in the array: it holds them more often than the removal takes them out. */
  ghost function Left(r: Ring, ps: seq<Hash>): set<Hash> {
    set p | p in r.points && multiset(r.points)[p] > multiset(ps)[p]
  }

  /** The next point that stays, q, has an owner still, and it is the owner of p. */
  ghost predicate Inherited(r: Ring, ps: seq<Hash>, p: Hash) {
    exists q :: Successor(Left(r, ps), p, q) && q !in ps && OwnerOf(r, q) == OwnerOf(r, p)
  }

  /** p is in the array for another node than this. */
  ghost predicate Foreign(r: Ring, node: string, p: Hash) {
    p in r.points && OwnerOf(r, p) != node && OwnerOf(r, p) != ""
  }

  /** No removed point without an owner leaves its hashes to a point that has one. */
  ghost predicate NoneGained(r: Ring, ps: seq<Hash>) {
    forall p, q :: p in r.points && p in ps && OwnerOf(r, p) == "" && Successor(Left(r, ps), p, q)
                   ==> q in ps || OwnerOf(r, q) == ""
  }

  lemma LeftElements(r: Ring, ps: seq<Hash>)
    requires IsSorted(r.points)
    ensures IsSorted(Remove(r, ps).points) && Elements(Remove(r, ps).points) == Left(r, ps)
    ensures forall q :: OwnerOf(Remove(r, ps), q) == if q in ps then "" else OwnerOf(r, q)
  {
    RemoveEachSorted(r.points, ps);
    forall p ensures p in Remove(r, ps).points <==> p in Left(r, ps) {
      RemoveKeepsElement(r, ps, p);
    }
    forall q ensures q in ps <==> q in Elements(ps) { }
  }

  lemma SuccessorChain(a: set<Hash>, b: set<Hash>, h: Hash, p: Hash, q: Hash)
    requires b <= a && Successor(a, h, p) && Successor(b, p, q)
    ensures Successor(b, h, q)
  {
  }

  // The hashes that a point serves share its fate.
  lemma FollowsPoint(r: Ring, ps: seq<Hash>, h: Hash, p: Hash)
    requires IsSorted(r.points) && Successor(Elements(r.points), h, p)
    ensures Lookup(r, h) == OwnerOf(r, p) && Lookup(Remove(r, ps), h) == Lookup(Remove(r, ps), p)
  {
    var r' := Remove(r, ps);
    LookupSuccessor(r, h, p);
    LeftElements(r, ps);
    if r'.points != [] {
      var q := SuccessorExists(r', p);
      SuccessorChain(Elements(r.points), Elements(r'.points), h, p, q);
      LookupSuccessor(r', h, q);
      LookupSuccessor(r', p, q);
    }
  }

  lemma HeirServes(r: Ring, ps: seq<Hash>, p: Hash, q: Hash)
    requires IsSorted(r.points) && Successor(Left(r, ps), p, q)
    ensures Lookup(Remove(r, ps), p) == if q in ps then "" else OwnerOf(r, q)
  {
    LeftElements(r, ps);
    LookupSuccessor(Remove(r, ps), p, q);
  }

  lemma InheritedIff(r: Ring, ps: seq<Hash>, p: Hash)
    requires IsSorted(r.points) && OwnerOf(r, p) != ""
    ensures Lookup(Remove(r, ps), p) == OwnerOf(r, p) <==> Inherited(r, ps, p)
  {
    LeftElements(r, ps);
    if Inherited(r, ps, p) {
      var q :| Successor(Left(r, ps), p, q) && q !in ps && OwnerOf(r, q) == OwnerOf(r, p);
      HeirServes(r, ps, p, q);
    } else if Remove(r, ps).points != [] {
      var q := SuccessorExists(Remove(r, ps), p);
      HeirServes(r, ps, p, q);
    }
  }

  /** In any sorted ring: every hash of another node stays with it if and only if each removed point of another node
      leaves its hashes to a point of the same owner. */
  lemma OthersKeepIff(r: Ring, node: string, ps: seq<Hash>)
    requires IsSorted(r.points)
    ensures OthersKeep(r, node, ps) <==> forall p :: p in ps && Foreign(r, node, p) ==> Inherited(r, ps, p)
  {
    if OthersKeep(r, node, ps) {
      forall p | p in ps && Foreign(r, node, p) ensures Inherited(r, ps, p) {
        FollowsPoint(r, ps, p, p);
        InheritedIff(r, ps, p);
      }
    } else {
      var h :| Lookup(r, h) != node && Lookup(r, h) != "" && Lookup(Remove(r, ps), h) != Lookup(r, h);
      var p := SuccessorExists(r, h);
      FollowsPoint(r, ps, h, p);
      assert p in Elements(r.points);
      if p in ps {
        InheritedIff(r, ps, p);
      } else {
        RemoveKeepsElement(r, ps, p);
        StillServes(r, ps, h, p);
      }
    }
  }

  /** And nothing else moves either, no node being called "", if and only if besides no removed point without an owner
      leaves its hashes to a point that has one. */
  lemma MovesOnlyFromIff(r: Ring, node: string, ps: seq<Hash>)
    requires IsSorted(r.points)
    ensures MovesOnlyFrom(r, node, ps) <==> OthersKeep(r, node, ps) && (node == "" || NoneGained(r, ps))
  {
    if MovesOnlyFrom(r, node, ps) {
      forall p, q | node != "" && p in r.points && p in ps && OwnerOf(r, p) == "" && Successor(Left(r, ps), p, q)
        ensures q in ps || OwnerOf(r, q) == ""
      {
        FollowsPoint(r, ps, p, p);
        HeirServes(r, ps, p, q);
      }
    } else if OthersKeep(r, node, ps) {
      var h :| Lookup(r, h) != node && Lookup(Remove(r, ps), h) != Lookup(r, h);
      GainsNode(r, ps, h);
    }
  }

  lemma GainsNode(r: Ring, ps: seq<Hash>, h: Hash)
    requires IsSorted(r.points) && Lookup(r, h) == "" && Lookup(Remove(r, ps), h) != ""
    ensures !NoneGained(r, ps)
  {
    LeftElements(r, ps);
    EmptyElements(r.points);
    EmptyElements(Remove(r, ps).points);
    var p := SuccessorExists(r, h);
    FollowsPoint(r, ps, h, p);
    assert p in Elements(r.points);
    var q := SuccessorExists(Remove(r, ps), p);
    HeirServes(r, ps, p, q);
    if p !in ps {
      RemoveKeepsElement(r, ps, p);
      StillServes(r, ps, h, p);
    }
  }

  /** Removing a node moves only its hashes if it owns all of its points that the array holds. */
  lemma RemoveMovesOnlyFromNode(r: Ring, node: string, ps: seq<Hash>)
    requires IsSorted(r.points) && forall p :: p in r.points && p in ps ==> OwnerOf(r, p) == node
    ensures MovesOnlyFrom(r, node, ps)
  {
    OthersKeepIff(r, node, ps);
    MovesOnlyFromIff(r, node, ps);
  }

  // ----- Over runs

  lemma {:induction false} AfterSorted(hash: Hasher, replicas: nat, ops: seq<Op>)
    ensures IsSorted(After(hash, replicas, ops).points)
    decreases |ops|
  {
    if ops == [] {
    } else {
      var before := After(hash, replicas, ops[..|ops| - 1]);
      AfterSorted(hash, replicas, ops[..|ops| - 1]);
      match ops[|ops| - 1]
      case AddNode(n) =>
      case RemoveNode(n) => RemoveEachSorted(before.points, Points(hash, n, replicas));
    }
  }

  /** s without its first n. */
  function WithoutOne(s: seq<string>, n: string): seq<string> {
    if s == [] then [] else if s[0] == n then s[1..] else [s[0]] + WithoutOne(s[1..], n)
  }

  /** The ids that are in the ring: one added twice is listed twice, and a removal takes one of them away. */
  function Present(ops: seq<Op>): seq<string>
    decreases |ops|
  {
    if ops == [] then []
    else match ops[|ops| - 1]
      case AddNode(n) => Present(ops[..|ops| - 1]) + [n]
      case RemoveNode(n) => WithoutOne(Present(ops[..|ops| - 1]), n)
  }

  /** Only ids that are in the ring are removed. */
  ghost predicate Matched(ops: seq<Op>)
    decreases |ops|
  {
    ops == [] ||
    (var last := ops[|ops| - 1];
     Matched(ops[..|ops| - 1]) && (last.RemoveNode? ==> last.node in Present(ops[..|ops| - 1])))
  }

  /** How often the points of a node hit p. */
  ghost function Hits(hash: Hasher, replicas: nat, p: Hash): string -> int {
    (n: string) => multiset(Points(hash, n, replicas))[p]
  }

  lemma HitsIff(hash: Hasher, replicas: nat, p: Hash, n: string)
    ensures Hits(hash, replicas, p)(n) > 0 <==> p in Points(hash, n, replicas)
  {
    assert p in Points(hash, n, replicas) <==> p in multiset(Points(hash, n, replicas));
  }

  lemma {:induction false} SumWithoutOne(f: string -> int, s: seq<string>, n: string)
    requires n in s
    ensures SumBy(f, WithoutOne(s, n)) == SumBy(f, s) - f(n)
    ensures forall m :: (m in WithoutOne(s, n) ==> m in s) && (m in s && m != n ==> m in WithoutOne(s, n))
  {
    if s[0] == n {
    } else {
      SumWithoutOne(f, s[1..], n);
      assert ([s[0]] + WithoutOne(s[1..], n))[1..] == WithoutOne(s[1..], n);
    }
  }

  /** The array is the members' points, each as often as members hit it, and an owner is a member that hits its
      point; nothing says that a point has an owner. */
  ghost predicate Reached(hash: Hasher, replicas: nat, members: seq<string>, r: Ring) {
    && IsSorted(r.points)
    && (forall p :: multiset(r.points)[p] == SumBy(Hits(hash, replicas, p), members))
    && (forall p :: p in r.owner ==> r.owner[p] in members && p in Points(hash, r.owner[p], replicas))
  }

  lemma HeldAdd(r: Ring, n: string, ps: seq<Hash>, p: Hash)
    ensures multiset(Add(r, n, ps).points)[p] == multiset(r.points)[p] + multiset(ps)[p]
  {
  }

  lemma HeldAddSum(hash: Hasher, replicas: nat, members: seq<string>, r: Ring, n: string, p: Hash)
    requires Reached(hash, replicas, members, r)
    ensures multiset(Add(r, n, Points(hash, n, replicas)).points)[p]
            == SumBy(Hits(hash, replicas, p), members + [n])
  {
    SumAppend(Hits(hash, replicas, p), members, n);
    HeldAdd(r, n, Points(hash, n, replicas), p);
  }

  lemma OwnersAdd(hash: Hasher, replicas: nat, members: seq<string>, r: Ring, n: string, p: Hash)
    requires Reached(hash, replicas, members, r) && p in Add(r, n, Points(hash, n, replicas)).owner
    ensures var m := Add(r, n, Points(hash, n, replicas)).owner[p];
            m in members + [n] && p in Points(hash, m, replicas)
  {
  }

  lemma AddReached(hash: Hasher, replicas: nat, members: seq<string>, r: Ring, n: string)
    requires Reached(hash, replicas, members, r)
    ensures Reached(hash, replicas, members + [n], Add(r, n, Points(hash, n, replicas)))
  {
    var ps := Points(hash, n, replicas);
    var r' := Add(r, n, ps);
    AddElements(r, n, ps);
    forall p ensures multiset(r'.points)[p] == SumBy(Hits(hash, replicas, p), members + [n]) {
      HeldAddSum(hash, replicas, members, r, n, p);
    }
    forall p | p in r'.owner ensures r'.owner[p] in members + [n] && p in Points(hash, r'.owner[p], replicas) {
      OwnersAdd(hash, replicas, members, r, n, p);
    }
  }

  lemma RemoveReached(hash: Hasher, replicas: nat, members: seq<string>, r: Ring, n: string)
    requires Reached(hash, replicas, members, r) && n in members
    ensures Reached(hash, replicas, WithoutOne(members, n), Remove(r, Points(hash, n, replicas)))
  {
    var ps := Points(hash, n, replicas);
    var r' := Remove(r, ps);
    RemoveEachSorted(r.points, ps);
    forall p ensures multiset(r'.points)[p] == SumBy(Hits(hash, replicas, p), WithoutOne(members, n)) {
      var f := Hits(hash, replicas, p);
      SumWithoutOne(f, members, n);
      RemoveEachCount(r.points, ps, p);
      var i :| 0 <= i < |members| && members[i] == n;
      SumHasElement(f, members, i);
    }
    forall p | p in r'.owner ensures r'.owner[p] in WithoutOne(members, n) {
      assert p !in Elements(ps) && p in Points(hash, r.owner[p], replicas);
      SumWithoutOne(Hits(hash, replicas, p), members, n);
    }
  }

  lemma {:induction false} RunReached(hash: Hasher, replicas: nat, ops: seq<Op>)
    requires Matched(ops)
    ensures Reached(hash, replicas, Present(ops), After(hash, replicas, ops))
    decreases |ops|
  {
    if ops == [] {
    } else {
      var front := ops[..|ops| - 1];
      RunReached(hash, replicas, front);
      match ops[|ops| - 1]
      case AddNode(n) => AddReached(hash, replicas, Present(front), After(hash, replicas, front), n);
      case RemoveNode(n) => RemoveReached(hash, replicas, Present(front), After(hash, replicas, front), n);
    }
  }

  lemma HeldByTwo(hash: Hasher, replicas: nat, members: seq<string>, n: string, m: string, p: Hash)
    requires n in members && m in members && n != m
    ensures SumBy(Hits(hash, replicas, p), members) >= Hits(hash, replicas, p)(n) + Hits(hash, replicas, p)(m)
  {
    var i :| 0 <= i < |members| && members[i] == n;
    var j :| 0 <= j < |members| && members[j] == m;
    SumHasTwo(Hits(hash, replicas, p), members, if i < j then i else j, if i < j then j else i);
  }

  /** No point of ps belongs to another node than this. */
  ghost predicate NoneForeign(r: Ring, node: string, ps: seq<Hash>) {
    forall p :: p in ps ==> OwnerOf(r, p) == node || OwnerOf(r, p) == ""
  }

  /** After any run, whatever was added twice or removed without being there: removing an id, present or not, leaves
      the hashes of all others where they are if and only if each removed point of another node leaves its hashes to a
      point of the same owner. */
  lemma RemoveAnyIff(hash: Hasher, replicas: nat, ops: seq<Op>, node: string)
    ensures var r, ps := After(hash, replicas, ops), Points(hash, node, replicas);
            OthersKeep(r, node, ps) <==> forall p :: p in ps && Foreign(r, node, p) ==> Inherited(r, ps, p)
  {
    AfterSorted(hash, replicas, ops);
    OthersKeepIff(After(hash, replicas, ops), node, Points(hash, node, replicas));
  }

  // Such a point is in the array for its owner too, so it stays there and loses its owner.
  lemma ForeignStays(hash: Hasher, replicas: nat, members: seq<string>, r: Ring, node: string, p: Hash)
    requires Reached(hash, replicas, members, r) && node in members && p in r.owner && r.owner[p] != node
    ensures p in Left(r, Points(hash, node, replicas))
  {
    HeldByTwo(hash, replicas, members, node, r.owner[p], p);
    HitsIff(hash, replicas, p, r.owner[p]);
    assert Hits(hash, replicas, p)(node) < multiset(r.points)[p];
    assert p in multiset(r.points);
  }

  lemma NotInherited(r: Ring, ps: seq<Hash>, p: Hash)
    requires p in Left(r, ps) && p in ps
    ensures !Inherited(r, ps, p)
  {
  }

  lemma NoneInherited(hash: Hasher, replicas: nat, members: seq<string>, r: Ring, node: string)
    requires Reached(hash, replicas, members, r) && node in members
    ensures var ps := Points(hash, node, replicas);
            forall p :: p in ps && OwnerOf(r, p) != node && OwnerOf(r, p) != "" ==>
                Foreign(r, node, p) && !Inherited(r, ps, p)
  {
    var ps := Points(hash, node, replicas);
    forall p | p in ps && OwnerOf(r, p) != node && OwnerOf(r, p) != ""
      ensures Foreign(r, node, p) && !Inherited(r, ps, p)
    {
      ForeignStays(hash, replicas, members, r, node, p);
      NotInherited(r, ps, p);
    }
  }

  /** After any run of additions and of removals of ids that are there, with any collisions: removing such an id leaves
      the hashes of all others where they are if and only if none of its points belongs to another; and nothing else
      moves if besides no hash gains a node. */
  lemma RemoveMemberIff(hash: Hasher, replicas: nat, ops: seq<Op>, node: string)
    requires Matched(ops) && node in Present(ops)
    ensures var r, ps := After(hash, replicas, ops), Points(hash, node, replicas);
            && (OthersKeep(r, node, ps) <==> NoneForeign(r, node, ps))
            && (MovesOnlyFrom(r, node, ps) <==> NoneForeign(r, node, ps) && (node == "" || NoneGained(r, ps)))
  {
    var r, ps := After(hash, replicas, ops), Points(hash, node, replicas);
    RunReached(hash, replicas, ops);
    OthersKeepIff(r, node, ps);
    MovesOnlyFromIff(r, node, ps);
    NoneInherited(hash, replicas, Present(ops), r, node);
  }

  // ----- Runs in which it fails

  lemma {:induction false} PointsConstant(hash: Hasher, n: string, replicas: nat, c: Hash)
    requires forall i :: 0 <= i < replicas ==> hash(n, i) == c
    ensures forall p :: multiset(Points(hash, n, replicas))[p] == if p == c then replicas else 0
    ensures forall p :: p in Points(hash, n, replicas) <==> p == c && replicas > 0
  {
    if replicas == 0 {
    } else {
      PointsConstant(hash, n, replicas - 1, c);
    }
  }

  // Every hash goes to the owner of c while the array holds no other point,
  lemma OnePoint(r: Ring, c: Hash, h: Hash)
    requires IsSorted(r.points) && Elements(r.points) == {c}
    ensures Lookup(r, h) == OwnerOf(r, c)
  {
    LookupSuccessor(r, h, c);
  }

  // and to none after a removal that takes the owner away and leaves the point.
  lemma OnePointOrphaned(r: Ring, ps: seq<Hash>, c: Hash, h: Hash)
    requires IsSorted(r.points) && Elements(r.points) == {c} && multiset(r.points)[c] > multiset(ps)[c] > 0
    ensures Lookup(Remove(r, ps), h) == ""
  {
    CollisionOrphans(r, ps, c, h);
  }

  lemma AddConstant(r: Ring, n: string, ps: seq<Hash>, c: Hash)
    requires IsSorted(r.points) && (r.points == [] || Elements(r.points) == {c}) && Elements(ps) == {c}
    ensures var r' := Add(r, n, ps);
            && IsSorted(r'.points) && Elements(r'.points) == {c} && OwnerOf(r', c) == n
            && multiset(r'.points)[c] == multiset(r.points)[c] + multiset(ps)[c]
  {
    AddElements(r, n, ps);
    HeldAdd(r, n, ps, c);
    EmptyElements(r.points);
    assert c in Elements(ps);
  }

  /** Two nodes with the same hash: when the first is removed, every hash of the second loses its node. */
  lemma SharedPointOrphaned(c: Hash, replicas: nat, a: string, b: string, h: Hash)
    requires replicas > 0 && a != b
    ensures var hash := (n: string, i: nat) => c;
            var r := After(hash, replicas, [AddNode(a), AddNode(b)]);
            Lookup(r, h) == b && Lookup(Remove(r, Points(hash, a, replicas)), h) == ""
  {
    var hash := (n: string, i: nat) => c;
    var ps, qs := Points(hash, a, replicas), Points(hash, b, replicas);
    PointsConstant(hash, a, replicas, c);
    PointsConstant(hash, b, replicas, c);
    assert Elements(ps) == {c} && Elements(qs) == {c};
    var r1 := Add(Ring(map[], []), a, ps);
    AddConstant(Ring(map[], []), a, ps, c);
    AddConstant(r1, b, qs, c);
    var r2 := Add(r1, b, qs);
    AfterTwo(hash, replicas, a, b);
    OnePoint(r2, c, h);
    OnePointOrphaned(r2, ps, c, h);
  }

  lemma AfterTwo(hash: Hasher, replicas: nat, a: string, b: string)
    ensures After(hash, replicas, [AddNode(a)]) == Add(Ring(map[], []), a, Points(hash, a, replicas))
    ensures After(hash, replicas, [AddNode(a), AddNode(b)])
            == Add(After(hash, replicas, [AddNode(a)]), b, Points(hash, b, replicas))
  {
    assert [AddNode(a), AddNode(b)][..1] == [AddNode(a)] && [AddNode(a)][..0] == [];
  }

  /** An id that is added twice and removed once is in the array still, but no hash finds it. */
  lemma AddedTwiceLost(hash: Hasher, replicas: nat, n: string, h: Hash)
    requires replicas > 0
    ensures var once, twice := After(hash, replicas, [AddNode(n)]), After(hash, replicas, [AddNode(n), AddNode(n)]);
            var r := Remove(twice, Points(hash, n, replicas));
            r.points == once.points != [] && Lookup(once, h) == n && Lookup(r, h) == ""
  {
    var ps := Points(hash, n, replicas);
    var once := Add(Ring(map[], []), n, ps);
    var r := Remove(Add(once, n, ps), ps);
    AfterTwo(hash, replicas, n, n);
    AddElements(Ring(map[], []), n, ps);
    AddRemoveRestores(once, n, ps);
    assert ps[0] in Elements(ps);
    EmptyElements(once.points);
    var p := SuccessorExists(once, h);
    LookupSuccessor(once, h, p);
    LookupSuccessor(r, h, p);
    assert p in Elements(ps);
  }

  lemma AfterLast(hash: Hasher, replicas: nat, ops: seq<Op>, op: Op)
    ensures var r, ps := After(hash, replicas, ops), Points(hash, op.node, replicas);
            After(hash, replicas, ops + [op]) == if op.AddNode? then Add(r, op.node, ps) else Remove(r, ps)
    ensures var m := Present(ops); Present(ops + [op]) == if op.AddNode? then m + [op.node] else WithoutOne(m, op.node)
    ensures Matched(ops) && (op.AddNode? || op.node in Present(ops)) ==> Matched(ops + [op])
  {
    assert (ops + [op])[..|ops|] == ops;
  }

  // What a node with one hash does to the owners.
  lemma OneHash(r: Ring, hash: Hasher, n: string, replicas: nat, c: Hash)
    requires replicas > 0 && forall i :: 0 <= i < replicas ==> hash(n, i) == c
    ensures Add(r, n, Points(hash, n, replicas)).owner == r.owner[c := n]
    ensures Remove(r, Points(hash, n, replicas)).owner == r.owner - {c}
  {
    PointsConstant(hash, n, replicas, c);
    assert Elements(Points(hash, n, replicas)) == {c};
  }

  lemma HeldByPair(hash: Hasher, replicas: nat, r: Ring, b: string, c: string, p: Hash, q: Hash,
      x: Hash)
    requires Reached(hash, replicas, [b, c], r) && p != q
    requires forall i :: 0 <= i < replicas ==> hash(b, i) == p && hash(c, i) == q
    ensures multiset(r.points)[x] == if x == p || x == q then replicas else 0
  {
    PointsConstant(hash, b, replicas, p);
    PointsConstant(hash, c, replicas, q);
    assert [b, c] == [] + [b] + [c];
    SumAppend(Hits(hash, replicas, x), [], b);
    SumAppend(Hits(hash, replicas, x), [] + [b], c);
  }

  lemma GainedLeft(r: Ring, ps: seq<Hash>, b: string, c: string, p: Hash, q: Hash)
    requires IsSorted(r.points) && p != q && r.owner == map[q := c]
    requires forall x :: x in ps <==> x == p
    requires p in r.points && q in r.points && forall x :: x in r.points ==> x == p || x == q
    requires multiset(r.points)[p] == multiset(ps)[p]
    ensures NoneForeign(r, b, ps) && Lookup(r, p) == "" && Lookup(Remove(r, ps), p) == c
  {
    assert Successor(Elements(r.points), p, p);
    LookupSuccessor(r, p, p);
    assert q !in ps && multiset(ps)[q] == 0 && multiset(r.points)[q] > 0;
    forall x ensures x in Left(r, ps) <==> x == q { }
    assert p in Elements(r.points);
    HeirServes(r, ps, p, q);
  }

  /** Nodes a and b share the hash p. When a is gone p has no owner; removing b, which owns none of its points, then
      moves a hash that it did not serve, from no node to c. */
  lemma HashGained(a: string, b: string, c: string, p: Hash, q: Hash, replicas: nat) returns (ops: seq<Op>)
    requires replicas > 0 && p != q && a != b && a != c && b != c && b != "" && c != ""
    ensures Matched(ops) && b in Present(ops)
    ensures var hash := (n: string, i: nat) => if n == c then q else p;
            var r, ps := After(hash, replicas, ops), Points(hash, b, replicas);
            OthersKeep(r, b, ps) && Lookup(r, p) == "" && Lookup(Remove(r, ps), p) == c
  {
    var hash := (n: string, i: nat) => if n == c then q else p;
    ops := SharedThenRemoved(hash, replicas, a, b, c, p, q);
    var r, ps := After(hash, replicas, ops), Points(hash, b, replicas);
    RunReached(hash, replicas, ops);
    PointsConstant(hash, b, replicas, p);
    forall x ensures x in r.points <==> x == p || x == q {
      HeldByPair(hash, replicas, r, b, c, p, q, x);
      assert x in r.points <==> x in multiset(r.points);
    }
    HeldByPair(hash, replicas, r, b, c, p, q, p);
    GainedLeft(r, ps, b, c, p, q);
    RemoveMemberIff(hash, replicas, ops, b);
  }

  // What is present, and who owns what.
  ghost predicate At(hash: Hasher, replicas: nat, ops: seq<Op>, members: seq<string>, owner: map<Hash, string>) {
    Matched(ops) && Present(ops) == members && After(hash, replicas, ops).owner == owner
  }

  lemma AddAt(hash: Hasher, replicas: nat, ops: seq<Op>, members: seq<string>, owner: map<Hash, string>, n: string,
      c: Hash)
      returns (next: seq<Op>)
    requires At(hash, replicas, ops, members, owner)
    requires replicas > 0 && forall i :: 0 <= i < replicas ==> hash(n, i) == c
    ensures At(hash, replicas, next, members + [n], owner[c := n])
  {
    AfterLast(hash, replicas, ops, AddNode(n));
    OneHash(After(hash, replicas, ops), hash, n, replicas, c);
    next := ops + [AddNode(n)];
  }

  lemma Three(hash: Hasher, replicas: nat, a: string, b: string, c: string, p: Hash, q: Hash)
      returns (ops: seq<Op>)
    requires replicas > 0 && p != q && a != b && a != c
    requires forall i :: 0 <= i < replicas ==> hash(a, i) == p && hash(b, i) == p && hash(c, i) == q
    ensures At(hash, replicas, ops, [] + [a] + [b] + [c], map[][p := a][p := b][q := c])
  {
    ops := AddAt(hash, replicas, [], [], map[], a, p);
    ops := AddAt(hash, replicas, ops, [] + [a], map[][p := a], b, p);
    ops := AddAt(hash, replicas, ops, [] + [a] + [b], map[][p := a][p := b], c, q);
  }

  lemma RemoveAt(hash: Hasher, replicas: nat, ops: seq<Op>, members: seq<string>, owner: map<Hash, string>, n: string,
      c: Hash)
      returns (next: seq<Op>)
    requires At(hash, replicas, ops, members, owner) && n in members
    requires replicas > 0 && forall i :: 0 <= i < replicas ==> hash(n, i) == c
    ensures At(hash, replicas, next, WithoutOne(members, n), owner - {c})
  {
    AfterLast(hash, replicas, ops, RemoveNode(n));
    OneHash(After(hash, replicas, ops), hash, n, replicas, c);
    next := ops + [RemoveNode(n)];
  }

  lemma SharedThenRemoved(hash: Hasher, replicas: nat, a: string, b: string, c: string, p: Hash, q: Hash)
      returns (ops: seq<Op>)
    requires replicas > 0 && p != q && a != b && a != c
    requires forall i :: 0 <= i < replicas ==> hash(a, i) == p && hash(b, i) == p && hash(c, i) == q
    ensures At(hash, replicas, ops, [b, c], map[q := c])
  {
    var members, owner := [] + [a] + [b] + [c], map[][p := a][p := b][q := c];
    var three := Three(hash, replicas, a, b, c, p, q);
    assert WithoutOne(members, a) == [b, c] by { assert members == [a, b, c] && members[1..] == [b, c]; }
    assert owner - {p} == map[q := c];
    ops := RemoveAt(hash, replicas, three, members, owner, a, p);
  }
}
