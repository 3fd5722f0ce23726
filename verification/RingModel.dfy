/** What the consistent-hash ring computes, and its laws: who owns a hash, and what Add and Remove move. */
module RingModel {
  type Hash = h: int | 0 <= h < 0x1_0000_0000

  /** The hash of "node:replica"; nothing about it is assumed except where a lemma says so. */
  type Hasher = (string, nat) -> Hash

  datatype Ring = Ring(owner: map<Hash, string>, points: seq<Hash>)

  function Points(hash: Hasher, node: string, replicas: nat): (r: seq<Hash>)
    ensures |r| == replicas
    ensures forall i :: 0 <= i < replicas ==> r[i] == hash(node, i)
  {
    if replicas == 0 then [] else Points(hash, node, replicas - 1) + [hash(node, replicas - 1)]
  }

  ghost predicate IsSorted(s: seq<Hash>) {
    forall i, j :: 0 <= i < j < |s| ==> s[i] <= s[j]
  }

  ghost predicate StrictlySorted(s: seq<Hash>) {
    forall i, j :: 0 <= i < j < |s| ==> s[i] < s[j]
  }

  /** The number of points below h: where sort.Search lands on a sorted array. */
  function Rank(points: seq<Hash>, h: Hash): (i: nat)
    ensures i <= |points|
    ensures forall j :: 0 <= j < i ==> points[j] < h
    ensures i < |points| ==> points[i] >= h
  {
    if points == [] || points[0] >= h then 0 else 1 + Rank(points[1..], h)
  }

  lemma InsertBetween(a: seq<Hash>, x: Hash, b: seq<Hash>)
    requires IsSorted(a + b) && (forall i :: 0 <= i < |a| ==> a[i] < x) && (b != [] ==> x <= b[0])
    ensures IsSorted(a + [x] + b)
  {
    var s, r := a + b, a + [x] + b;
    forall i, j | 0 <= i < j < |r| ensures r[i] <= r[j] {
      assert i != |a| ==> r[i] == s[if i < |a| then i else i - 1];
      assert j != |a| ==> r[j] == s[if j < |a| then j else j - 1];
      assert b != [] ==> b[0] == s[|a|];
    }
  }

  lemma InsertAdds(a: seq<Hash>, x: Hash, b: seq<Hash>)
    ensures multiset(a + [x] + b) == multiset(a + b) + multiset{x}
  {
  }

  function Insert(x: Hash, s: seq<Hash>): (r: seq<Hash>)
    requires IsSorted(s)
    ensures IsSorted(r) && multiset(r) == multiset(s) + multiset{x} && |r| == |s| + 1
  {
    var below, rest := s[..Rank(s, x)], s[Rank(s, x)..];
    assert s == below + rest;
    InsertBetween(below, x, rest);
    InsertAdds(below, x, rest);
    below + [x] + rest
  }

  /** sort.Slice on hashes. */
  function Sorted(s: seq<Hash>): (r: seq<Hash>)
    ensures IsSorted(r) && multiset(r) == multiset(s) && |r| == |s|
  {
    if s == [] then []
    else
      assert s == s[..|s| - 1] + [s[|s| - 1]];
      Insert(s[|s| - 1], Sorted(s[..|s| - 1]))
  }

  function FirstIndex(s: seq<Hash>, x: Hash): (i: nat)
    ensures i <= |s| && x !in s[..i]
    ensures i < |s| ==> s[i] == x
  {
    if s == [] || s[0] == x then 0
    else
      assert s[..1 + FirstIndex(s[1..], x)] == [s[0]] + s[1..][..FirstIndex(s[1..], x)];
      1 + FirstIndex(s[1..], x)
  }

  /** Drops the first occurrence, if any. */
  function RemoveFirst(s: seq<Hash>, x: Hash): seq<Hash> {
    var i := FirstIndex(s, x);
    if i < |s| then s[..i] + s[i + 1..] else s
  }

  function RemoveEach(s: seq<Hash>, xs: seq<Hash>): seq<Hash> {
    if xs == [] then s else RemoveFirst(RemoveEach(s, xs[..|xs| - 1]), xs[|xs| - 1])
  }

  function Elements(s: seq<Hash>): set<Hash> {
    set x | x in s
  }

  function Owners(owner: map<Hash, string>, node: string, ps: seq<Hash>): map<Hash, string> {
    owner + map p | p in ps :: node
  }

  lemma OwnsNone(owner: map<Hash, string>, node: string)
    ensures Owners(owner, node, []) == owner
  {
  }

  lemma OwnsOneMore(owner: map<Hash, string>, node: string, ps: seq<Hash>, h: Hash)
    ensures Owners(owner, node, ps)[h := node] == Owners(owner, node, ps + [h])
  {
  }

  function Add(r: Ring, node: string, ps: seq<Hash>): Ring {
    Ring(Owners(r.owner, node, ps), Sorted(r.points + ps))
  }

  function Remove(r: Ring, ps: seq<Hash>): Ring {
    Ring(r.owner - Elements(ps), RemoveEach(r.points, ps))
  }

  lemma {:induction false} RankIs(points: seq<Hash>, h: Hash, i: nat)
    requires i <= |points|
    requires forall j :: 0 <= j < i ==> points[j] < h
    requires forall j :: i <= j < |points| ==> points[j] >= h
    ensures Rank(points, h) == i
    decreases i
  {
    if i > 0 {
      RankIs(points[1..], h, i - 1);
    }
  }

  function Lookup(r: Ring, h: Hash): string {
    if r.points == [] then ""
    else
      var i := Rank(r.points, h);
      var p := r.points[if i == |r.points| then 0 else i];
      if p in r.owner then r.owner[p] else ""
  }

  /** p is the least point at or after h, wrapping round to the least point of all. */
  ghost predicate Successor(points: set<Hash>, h: Hash, p: Hash) {
    && p in points
    && (if p >= h then forall q :: q in points && q >= h ==> p <= q
        else forall q :: q in points ==> q < h && p <= q)
  }

  /** The array is sorted and holds exactly the owned points. */
  ghost predicate WellFormed(r: Ring) {
    IsSorted(r.points) && Elements(r.points) == r.owner.Keys
  }

  /** The owner of a point; a point without one serves no node. */
  function OwnerOf(r: Ring, p: Hash): string {
    if p in r.owner then r.owner[p] else ""
  }

  lemma LookupSuccessor(r: Ring, h: Hash, p: Hash)
    requires IsSorted(r.points)
    ensures r.points == [] ==> Lookup(r, h) == ""
    ensures Successor(Elements(r.points), h, p) ==> Lookup(r, h) == OwnerOf(r, p) && (WellFormed(r) ==> p in r.owner)
  {
    if Successor(Elements(r.points), h, p) {
      var i := Rank(r.points, h);
      var found := r.points[if i == |r.points| then 0 else i];
      var k :| 0 <= k < |r.points| && r.points[k] == p;
      assert found in Elements(r.points);
      assert found == p;
    }
  }

  lemma SuccessorExists(r: Ring, h: Hash) returns (p: Hash)
    requires IsSorted(r.points) && r.points != []
    ensures Successor(Elements(r.points), h, p)
  {
    var i := Rank(r.points, h);
    p := r.points[if i == |r.points| then 0 else i];
    forall q | q in Elements(r.points) && q >= h ensures p <= q && i < |r.points| {
      var k :| 0 <= k < |r.points| && r.points[k] == q;
    }
    forall q | q in Elements(r.points) && p < h ensures q < h && p <= q {
      var k :| 0 <= k < |r.points| && r.points[k] == q;
    }
  }

  lemma EmptyElements(s: seq<Hash>)
    ensures Elements(s) == {} <==> s == []
  {
    assert s == [] || s[0] in Elements(s);
  }

  lemma AddElements(r: Ring, node: string, ps: seq<Hash>)
    ensures IsSorted(Add(r, node, ps).points) && (WellFormed(r) ==> WellFormed(Add(r, node, ps)))
    ensures Elements(Add(r, node, ps).points) == Elements(r.points) + Elements(ps)
  {
    var points := Add(r, node, ps).points;
    forall x ensures x in points <==> x in r.points || x in ps {
      assert x in points <==> x in multiset(points);
      assert x in r.points + ps <==> x in multiset(r.points + ps);
    }
  }

  /** Adding a node moves hashes only to that node, whatever collides now or collided before: a hash is looked up
      as it was, or now belongs to the node. */
  lemma AddMovesOnlyToNode(r: Ring, node: string, ps: seq<Hash>, h: Hash)
    requires IsSorted(r.points)
    ensures Lookup(Add(r, node, ps), h) == Lookup(r, h) || Lookup(Add(r, node, ps), h) == node
  {
    var r' := Add(r, node, ps);
    AddElements(r, node, ps);
    if r'.points == [] {
      EmptyElements(r.points);
      EmptyElements(r'.points);
    } else {
      var p := SuccessorExists(r', h);
      LookupSuccessor(r', h, p);
      if p !in ps {
        assert p in Elements(r.points);
        LookupSuccessor(r, h, p);
      }
    }
  }

  // ----- Removal

  lemma RemoveFirstCount(s: seq<Hash>, x: Hash, y: Hash)
    ensures multiset(RemoveFirst(s, x))[y] == multiset(s)[y] - (if y == x && x in s then 1 else 0)
  {
    var i := FirstIndex(s, x);
    if i < |s| {
      assert s == s[..i] + [x] + s[i + 1..];
      assert multiset(s)[y] == multiset(s[..i])[y] + (if y == x then 1 else 0) + multiset(s[i + 1..])[y];
    } else {
      assert s[..i] == s;
    }
  }

  lemma {:induction false} RemoveEachCount(s: seq<Hash>, xs: seq<Hash>, y: Hash)
    ensures multiset(RemoveEach(s, xs))[y]
            == (if multiset(s)[y] <= multiset(xs)[y] then 0 else multiset(s)[y] - multiset(xs)[y])
  {
    if xs == [] {
    } else {
      var front, last := xs[..|xs| - 1], xs[|xs| - 1];
      assert xs == front + [last];
      RemoveEachCount(s, front, y);
      RemoveFirstCount(RemoveEach(s, front), last, y);
      assert last in RemoveEach(s, front) <==> last in multiset(RemoveEach(s, front));
    }
  }

  lemma RemoveFirstSorted(s: seq<Hash>, x: Hash)
    requires IsSorted(s)
    ensures IsSorted(RemoveFirst(s, x))
  {
  }

  lemma {:induction false} RemoveEachSorted(s: seq<Hash>, xs: seq<Hash>)
    requires IsSorted(s)
    ensures IsSorted(RemoveEach(s, xs))
  {
    if xs == [] {
    } else {
      RemoveEachSorted(s, xs[..|xs| - 1]);
      RemoveFirstSorted(RemoveEach(s, xs[..|xs| - 1]), xs[|xs| - 1]);
    }
  }

  lemma SameHead(a: seq<Hash>, b: seq<Hash>)
    requires IsSorted(a) && IsSorted(b) && a != [] && b != []
    requires forall y :: multiset(a)[y] == multiset(b)[y]
    ensures a[0] == b[0]
  {
    assert a[0] in multiset(a) && b[0] in multiset(b);
    assert a[0] in multiset(b) && b[0] in multiset(a);
    assert a[0] in b && b[0] in a;
  }

  lemma TailCount(s: seq<Hash>, y: Hash)
    requires s != []
    ensures multiset(s[1..])[y] == multiset(s)[y] - (if y == s[0] then 1 else 0)
  {
    assert s == [s[0]] + s[1..];
  }

  lemma {:induction false} SortedUnique(a: seq<Hash>, b: seq<Hash>)
    requires IsSorted(a) && IsSorted(b) && forall y :: multiset(a)[y] == multiset(b)[y]
    ensures a == b
    decreases |a|
  {
    if a == [] || b == [] {
      assert a == [] || multiset(a)[a[0]] > 0;
      assert b == [] || multiset(b)[b[0]] > 0;
    } else {
      SameHead(a, b);
      forall y ensures multiset(a[1..])[y] == multiset(b[1..])[y] {
        TailCount(a, y);
        TailCount(b, y);
      }
      SortedUnique(a[1..], b[1..]);
    }
  }

  /** Adding a node and removing it again restores the sorted array exactly, whatever collides; and it
      restores the owner map exactly when none of the node's hashes was a point of the ring already. */
  lemma AddRemoveRestores(r: Ring, node: string, ps: seq<Hash>)
    requires IsSorted(r.points)
    ensures Remove(Add(r, node, ps), ps).points == r.points
    ensures Remove(Add(r, node, ps), ps).owner == r.owner <==> (forall p :: p in ps ==> p !in r.owner)
  {
    var added := Add(r, node, ps);
    forall y ensures multiset(RemoveEach(added.points, ps))[y] == multiset(r.points)[y] {
      RemoveEachCount(added.points, ps, y);
      assert multiset(added.points)[y] == multiset(r.points)[y] + multiset(ps)[y];
    }
    RemoveEachSorted(added.points, ps);
    SortedUnique(RemoveEach(added.points, ps), r.points);
    OwnerRestored(r, node, ps);
  }

  lemma OwnerRestored(r: Ring, node: string, ps: seq<Hash>)
    ensures Remove(Add(r, node, ps), ps).owner == r.owner <==> (forall p :: p in ps ==> p !in r.owner)
  {
    var owner := Remove(Add(r, node, ps), ps).owner;
    forall p | p in ps ensures p !in owner { assert p in Elements(ps); }
    assert owner.Keys == r.owner.Keys - Elements(ps);
    if forall p :: p in ps ==> p !in r.owner {
      assert owner == r.owner;
    }
  }

  /** Each point once. */
  ghost predicate Simple(r: Ring) {
    WellFormed(r) && StrictlySorted(r.points)
  }

  lemma SimpleMultiplicity(s: seq<Hash>, x: Hash)
    requires StrictlySorted(s)
    ensures multiset(s)[x] == if x in s then 1 else 0
  {
    if x in s {
      var i :| 0 <= i < |s| && s[i] == x;
      assert s == s[..i] + [s[i]] + s[i + 1..];
      assert x !in s[..i] && x !in s[i + 1..];
      assert multiset(s)[x] == multiset(s[..i])[x] + 1 + multiset(s[i + 1..])[x];
    }
  }

  lemma StrictFromMultiplicity(s: seq<Hash>)
    requires IsSorted(s) && forall x :: multiset(s)[x] <= 1
    ensures StrictlySorted(s)
  {
    forall i, j | 0 <= i < j < |s| ensures s[i] < s[j] {
      assert s == s[..j] + [s[j]] + s[j + 1..];
      assert s[i] in s[..j];
      assert multiset(s)[s[j]] == multiset(s[..j])[s[j]] + 1 + multiset(s[j + 1..])[s[j]];
    }
  }

  lemma RemoveElements(r: Ring, ps: seq<Hash>)
    requires Simple(r)
    ensures Simple(Remove(r, ps)) && Elements(Remove(r, ps).points) == Elements(r.points) - Elements(ps)
  {
    var points := Remove(r, ps).points;
    RemoveEachSorted(r.points, ps);
    forall x ensures (x in points <==> x in r.points && x !in ps) && multiset(points)[x] <= 1 {
      RemoveEachCount(r.points, ps, x);
      SimpleMultiplicity(r.points, x);
      assert x in points <==> x in multiset(points);
      assert x in ps <==> x in multiset(ps);
    }
    StrictFromMultiplicity(points);
  }

  // What removal leaves in the array.
  lemma RemoveKeepsElement(r: Ring, ps: seq<Hash>, p: Hash)
    requires IsSorted(r.points)
    ensures IsSorted(Remove(r, ps).points)
    ensures p in Remove(r, ps).points <==> multiset(r.points)[p] > multiset(ps)[p]
    ensures p in Remove(r, ps).points ==> p in r.points
    ensures p in r.points && p !in ps ==> p in Remove(r, ps).points && OwnerOf(Remove(r, ps), p) == OwnerOf(r, p)
  {
    RemoveEachSorted(r.points, ps);
    RemoveEachCount(r.points, ps, p);
    assert p in Remove(r, ps).points <==> p in multiset(Remove(r, ps).points);
    assert p in r.points <==> p in multiset(r.points);
    assert p in ps <==> p in multiset(ps);
    assert p in ps <==> p in Elements(ps);
  }

  // A point that stays keeps serving the hashes it served.
  lemma StillServes(r: Ring, ps: seq<Hash>, h: Hash, p: Hash)
    requires IsSorted(r.points) && Successor(Elements(r.points), h, p) && p in Remove(r, ps).points
    ensures Lookup(Remove(r, ps), h) == OwnerOf(Remove(r, ps), p)
  {
    var r' := Remove(r, ps);
    forall q ensures q in Elements(r'.points) ==> q in Elements(r.points) { RemoveKeepsElement(r, ps, q); }
    RemoveKeepsElement(r, ps, p);
    LookupSuccessor(r', h, p);
  }

  /** A point that the array holds more often than the removed node put it there, because of a collision, stays in the
      array without an owner, and every hash it serves gets no node. */
  lemma CollisionOrphans(r: Ring, ps: seq<Hash>, p: Hash, h: Hash)
    requires IsSorted(r.points) && multiset(r.points)[p] > multiset(ps)[p] > 0
    requires Successor(Elements(r.points), h, p)
    ensures Lookup(Remove(r, ps), h) == ""
  {
    RemoveKeepsElement(r, ps, p);
    StillServes(r, ps, h, p);
    assert p in multiset(ps) && p in Elements(ps);
  }

  /** Removal leaves a well-formed ring exactly when no point of the node is shared. */
  lemma RemoveWellFormed(r: Ring, ps: seq<Hash>)
    requires WellFormed(r)
    ensures WellFormed(Remove(r, ps)) <==> forall p :: p in ps ==> multiset(r.points)[p] <= multiset(ps)[p]
  {
    var r' := Remove(r, ps);
    RemoveEachSorted(r.points, ps);
    forall p ensures p in Elements(r'.points) <==> multiset(r.points)[p] > multiset(ps)[p] {
      RemoveEachCount(r.points, ps, p);
      assert p in r'.points <==> p in multiset(r'.points);
    }
    forall p ensures p in r'.owner <==> p in r.points && p !in ps {
      assert p in r.owner <==> p in Elements(r.points);
    }
    forall p ensures (p in r.points <==> multiset(r.points)[p] > 0) && (p in ps <==> multiset(ps)[p] > 0) {
    }
    if forall p :: p in ps ==> multiset(r.points)[p] <= multiset(ps)[p] {
      forall p ensures p in Elements(r'.points) <==> p in r'.owner.Keys { }
    } else {
      var p :| p in ps && multiset(r.points)[p] > multiset(ps)[p];
      assert p in Elements(r'.points) && p !in r'.owner.Keys;
    }
  }

  // ----- Runs: the ring depends only on its members

  datatype Op = AddNode(node: string) | RemoveNode(node: string)

  /** No two (node, replica) pairs of the universe collide. */
  ghost predicate NoCollisions(hash: Hasher, replicas: nat, universe: set<string>) {
    forall n, i, m, j :: (n in universe && m in universe && 0 <= i < replicas && 0 <= j < replicas
                          && hash(n, i) == hash(m, j)) ==> n == m && i == j
  }

  /** Nodes are of the universe, and added only when absent. */
  ghost predicate Proper(universe: set<string>, ops: seq<Op>)
    decreases |ops|
  {
    ops == [] ||
    (var last := ops[|ops| - 1];
     && Proper(universe, ops[..|ops| - 1])
     && last.node in universe
     && (last.AddNode? ==> last.node !in Members(ops[..|ops| - 1])))
  }

  function Members(ops: seq<Op>): set<string>
    decreases |ops|
  {
    if ops == [] then {}
    else match ops[|ops| - 1]
      case AddNode(n) => Members(ops[..|ops| - 1]) + {n}
      case RemoveNode(n) => Members(ops[..|ops| - 1]) - {n}
  }

  function After(hash: Hasher, replicas: nat, ops: seq<Op>): Ring
    decreases |ops|
  {
    if ops == [] then Ring(map[], [])
    else
      var before := After(hash, replicas, ops[..|ops| - 1]);
      match ops[|ops| - 1]
      case AddNode(n) => Add(before, n, Points(hash, n, replicas))
      case RemoveNode(n) => Remove(before, Points(hash, n, replicas))
  }

  /** The ring of a set of members: their points, each owned by its member, each once, in order. */
  ghost predicate RingOf(hash: Hasher, replicas: nat, members: set<string>, r: Ring) {
    && Simple(r)
    && (forall n, i :: n in members && 0 <= i < replicas ==> hash(n, i) in r.owner && r.owner[hash(n, i)] == n)
    && (forall p :: p in r.owner ==> OwnPoint(hash, replicas, members, r.owner[p], p))
  }

  ghost predicate OwnPoint(hash: Hasher, replicas: nat, members: set<string>, n: string, p: Hash) {
    n in members && p in Points(hash, n, replicas)
  }

  lemma RingOfUnique(hash: Hasher, replicas: nat, members: set<string>, r1: Ring, r2: Ring)
    requires RingOf(hash, replicas, members, r1) && RingOf(hash, replicas, members, r2)
    ensures r1 == r2
  {
    SameOwners(hash, replicas, members, r1, r2);
    SameOwners(hash, replicas, members, r2, r1);
    assert r1.owner == r2.owner;
    forall x ensures multiset(r1.points)[x] == multiset(r2.points)[x] {
      SimpleMultiplicity(r1.points, x);
      SimpleMultiplicity(r2.points, x);
      assert x in r1.points <==> x in Elements(r1.points);
      assert x in r2.points <==> x in Elements(r2.points);
    }
    SortedUnique(r1.points, r2.points);
  }

  lemma SameOwners(hash: Hasher, replicas: nat, members: set<string>, r1: Ring, r2: Ring)
    requires RingOf(hash, replicas, members, r1) && RingOf(hash, replicas, members, r2)
    ensures forall p :: p in r1.owner ==> p in r2.owner && r2.owner[p] == r1.owner[p]
  {
    forall p | p in r1.owner ensures p in r2.owner && r2.owner[p] == r1.owner[p] {
      var ps := Points(hash, r1.owner[p], replicas);
      var i :| 0 <= i < |ps| && ps[i] == p;
      assert hash(r1.owner[p], i) == p;
    }
  }

  lemma AddToRing(hash: Hasher, replicas: nat, universe: set<string>, members: set<string>, r: Ring, n: string)
    requires NoCollisions(hash, replicas, universe) && members <= universe && n in universe && n !in members
    requires RingOf(hash, replicas, members, r)
    ensures RingOf(hash, replicas, members + {n}, Add(r, n, Points(hash, n, replicas)))
  {
    var ps := Points(hash, n, replicas);
    var r' := Add(r, n, ps);
    AddElements(r, n, ps);
    NewPoints(hash, replicas, universe, members, r, n);
    AddSimple(hash, replicas, universe, members, r, n);
    forall p | p in r'.owner ensures OwnPoint(hash, replicas, members + {n}, r'.owner[p], p) {
      if p !in ps { assert OwnPoint(hash, replicas, members, r.owner[p], p); }
    }
    forall m, i | m in members + {n} && 0 <= i < replicas
      ensures hash(m, i) in r'.owner && r'.owner[hash(m, i)] == m
    {
      if m == n {
        assert ps[i] == hash(n, i);
      } else {
        assert hash(m, i) in r.owner;
      }
    }
  }

  // None of an absent node's points is in the ring.
  lemma NewPoints(hash: Hasher, replicas: nat, universe: set<string>, members: set<string>, r: Ring, n: string)
    requires NoCollisions(hash, replicas, universe) && members <= universe && n in universe && n !in members
    requires RingOf(hash, replicas, members, r)
    ensures forall p :: p in Points(hash, n, replicas) ==> p !in r.owner
  {
    var ps := Points(hash, n, replicas);
    forall p | p in ps && p in r.owner ensures false {
      var i :| 0 <= i < |ps| && ps[i] == p;
      Owned(hash, replicas, universe, members, r, p, n, i);
    }
  }

  lemma AddSimple(hash: Hasher, replicas: nat, universe: set<string>, members: set<string>, r: Ring, n: string)
    requires NoCollisions(hash, replicas, universe) && members <= universe && n in universe && n !in members
    requires RingOf(hash, replicas, members, r)
    ensures Simple(Add(r, n, Points(hash, n, replicas)))
  {
    var ps := Points(hash, n, replicas);
    var r' := Add(r, n, ps);
    AddElements(r, n, ps);
    NewPoints(hash, replicas, universe, members, r, n);
    forall x ensures multiset(r'.points)[x] <= 1 {
      SimpleMultiplicity(r.points, x);
      PointsOnce(hash, replicas, universe, n, replicas, x);
      assert multiset(r'.points)[x] == multiset(r.points)[x] + multiset(ps)[x];
      assert x in r.points <==> x in Elements(r.points);
      assert x in ps <==> x in multiset(ps);
    }
    StrictFromMultiplicity(r'.points);
  }

  // A point of another node is not owned in the ring of the members.
  lemma Owned(hash: Hasher, replicas: nat, universe: set<string>, members: set<string>, r: Ring, p: Hash, n: string,
      i: nat)
    requires NoCollisions(hash, replicas, universe) && members <= universe && n in universe
    requires RingOf(hash, replicas, members, r) && p in r.owner && i < replicas && hash(n, i) == p
    ensures r.owner[p] == n
  {
    var qs := Points(hash, r.owner[p], replicas);
    var j :| 0 <= j < |qs| && qs[j] == p;
    assert hash(r.owner[p], j) == hash(n, i);
  }

  lemma {:induction false} PointsOnce(hash: Hasher, replicas: nat, universe: set<string>, n: string, k: nat, x: Hash)
    requires NoCollisions(hash, replicas, universe) && n in universe && k <= replicas
    ensures multiset(Points(hash, n, k))[x] <= 1
    decreases k
  {
    if k == 0 {
    } else {
      var front := Points(hash, n, k - 1);
      PointsOnce(hash, replicas, universe, n, k - 1, x);
      if hash(n, k - 1) == x {
        forall i | 0 <= i < |front| ensures front[i] != x {
          assert front[i] == hash(n, i);
        }
        assert x !in multiset(front);
      }
    }
  }

  lemma RemoveFromRing(hash: Hasher, replicas: nat, universe: set<string>, members: set<string>, r: Ring, n: string)
    requires NoCollisions(hash, replicas, universe) && members <= universe && n in universe
    requires RingOf(hash, replicas, members, r)
    ensures RingOf(hash, replicas, members - {n}, Remove(r, Points(hash, n, replicas)))
  {
    var ps := Points(hash, n, replicas);
    var r' := Remove(r, ps);
    RemoveElements(r, ps);
    forall m, i | m in members - {n} && 0 <= i < replicas
      ensures hash(m, i) in r'.owner && r'.owner[hash(m, i)] == m
    {
      assert hash(m, i) in r.owner;
      forall j | 0 <= j < |ps| ensures ps[j] != hash(m, i) {
        assert ps[j] == hash(n, j);
      }
    }
    forall p | p in r'.owner ensures OwnPoint(hash, replicas, members - {n}, r'.owner[p], p) {
      assert p !in Elements(ps) && OwnPoint(hash, replicas, members, r.owner[p], p);
    }
  }

  /** Over any run of Adds of absent nodes and Removes, with collision-free hashes, the ring is the ring of
      the current members: who owns a hash does not depend on the history that led there. */
  lemma {:induction false} RingRun(hash: Hasher, replicas: nat, universe: set<string>, ops: seq<Op>)
    requires NoCollisions(hash, replicas, universe) && Proper(universe, ops)
    ensures Members(ops) <= universe && RingOf(hash, replicas, Members(ops), After(hash, replicas, ops))
    decreases |ops|
  {
    if ops == [] {
    } else {
      var front := ops[..|ops| - 1];
      RingRun(hash, replicas, universe, front);
      match ops[|ops| - 1]
      case AddNode(n) => AddToRing(hash, replicas, universe, Members(front), After(hash, replicas, front), n);
      case RemoveNode(n) => RemoveFromRing(hash, replicas, universe, Members(front), After(hash, replicas, front), n);
    }
  }

  lemma HistoryIndependent(hash: Hasher, replicas: nat, universe: set<string>, ops1: seq<Op>, ops2: seq<Op>)
    requires NoCollisions(hash, replicas, universe) && Proper(universe, ops1) && Proper(universe, ops2)
    requires Members(ops1) == Members(ops2)
    ensures After(hash, replicas, ops1) == After(hash, replicas, ops2)
  {
    RingRun(hash, replicas, universe, ops1);
    RingRun(hash, replicas, universe, ops2);
    RingOfUnique(hash, replicas, Members(ops1), After(hash, replicas, ops1), After(hash, replicas, ops2));
  }
}
