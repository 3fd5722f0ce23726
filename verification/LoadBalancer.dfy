/** The consistent-hash ring and the load balancer, updated in place. */
module LoadBalancing {
  import opened Arithmetic
  import opened RingModel

  class ConsistentHashRing {
    var hashRing: map<Hash, string>
    var sortedHashes: seq<Hash>
    const replicas: nat
    const hash: Hasher

    ghost function View(): Ring
      reads this
    {
      Ring(hashRing, sortedHashes)
    }

    ghost predicate Valid()
      reads this
    {
      IsSorted(sortedHashes)
    }

    constructor (replicas: nat, hash: Hasher)
      ensures Valid() && View() == Ring(map[], []) && this.replicas == replicas && this.hash == hash
    {
      hashRing, sortedHashes := map[], [];
      this.replicas, this.hash := replicas, hash;
    }

    method Add(nodeID: string)
      modifies this
      ensures Valid() && View() == RingModel.Add(old(View()), nodeID, Points(hash, nodeID, replicas))
    {
      OwnsNone(hashRing, nodeID);
      for i := 0 to replicas
        invariant hashRing == Owners(old(hashRing), nodeID, Points(hash, nodeID, i))
        invariant sortedHashes == old(sortedHashes) + Points(hash, nodeID, i)
      {
        var h := hash(nodeID, i);
        assert Points(hash, nodeID, i + 1) == Points(hash, nodeID, i) + [h];
        OwnsOneMore(old(hashRing), nodeID, Points(hash, nodeID, i), h);
        hashRing := hashRing[h := nodeID];
        sortedHashes := sortedHashes + [h];
      }
      sortedHashes := Sorted(sortedHashes);
    }

    method Remove(nodeID: string)
      requires Valid()
      modifies this
      ensures Valid() && View() == RingModel.Remove(old(View()), Points(hash, nodeID, replicas))
    {
      for i := 0 to replicas
        invariant hashRing == old(hashRing) - Elements(Points(hash, nodeID, i))
        invariant sortedHashes == RemoveEach(old(sortedHashes), Points(hash, nodeID, i))
      {
        var h := hash(nodeID, i);
        RemoveNext(old(View()), Points(hash, nodeID, i), h);
        assert Points(hash, nodeID, i + 1) == Points(hash, nodeID, i) + [h];
        hashRing := hashRing - {h};
        RemoveHash(h);
      }
      RemoveEachSorted(old(sortedHashes), Points(hash, nodeID, replicas));
    }

    /** Scans for the first occurrence and cuts it out. */
    method RemoveHash(h: Hash)
      modifies this`sortedHashes
      ensures sortedHashes == RemoveFirst(old(sortedHashes), h)
    {
      for j := 0 to |sortedHashes|
        invariant sortedHashes == old(sortedHashes) && h !in sortedHashes[..j]
      {
        if sortedHashes[j] == h {
          IndexIs(sortedHashes, h, j);
          sortedHashes := sortedHashes[..j] + sortedHashes[j + 1..];
          return;
        }
      }
      assert sortedHashes[..|sortedHashes|] == sortedHashes;
    }

    /** sort.Search: the least index whose hash is at least h. */
    method Search(h: Hash) returns (lo: nat)
      requires Valid()
      ensures lo == Rank(sortedHashes, h)
    {
      var hi: nat;
      lo, hi := 0, |sortedHashes|;
      while lo < hi
        invariant lo <= hi <= |sortedHashes|
        invariant forall j :: 0 <= j < lo ==> sortedHashes[j] < h
        invariant forall j :: hi <= j < |sortedHashes| ==> sortedHashes[j] >= h
      {
        var mid := (lo + hi) / 2;
        if sortedHashes[mid] >= h { hi := mid; } else { lo := mid + 1; }
      }
      RankIs(sortedHashes, h, lo);
    }

    /** The owner of the least point at or after h, wrapping round. */
    method Get(h: Hash) returns (node: string)
      requires Valid()
      ensures node == Lookup(View(), h)
      ensures forall p :: Successor(Elements(sortedHashes), h, p) ==> node == OwnerOf(View(), p)
    {
      forall p | Successor(Elements(sortedHashes), h, p) ensures Lookup(View(), h) == OwnerOf(View(), p) {
        LookupSuccessor(View(), h, p);
      }
      if |sortedHashes| == 0 { return ""; }
      var idx := Search(h);
      if idx == |sortedHashes| { idx := 0; }
      var p := sortedHashes[idx];
      node := if p in hashRing then hashRing[p] else "";
    }
  }

  lemma RemoveNext(r: Ring, ps: seq<Hash>, h: Hash)
    ensures r.owner - Elements(ps + [h]) == (r.owner - Elements(ps)) - {h}
    ensures RemoveEach(r.points, ps + [h]) == RemoveFirst(RemoveEach(r.points, ps), h)
  {
    assert Elements(ps + [h]) == Elements(ps) + {h};
    assert (ps + [h])[..|ps|] == ps;
  }

  lemma IndexIs(s: seq<Hash>, x: Hash, i: nat)
    requires i < |s| && s[i] == x && x !in s[..i]
    ensures FirstIndex(s, x) == i
  {
    var k := FirstIndex(s, x);
    forall j | 0 <= j < k ensures s[j] != x { assert s[j] in s[..k]; }
    forall j | 0 <= j < i ensures s[j] != x { assert s[j] in s[..i]; }
  }

  // ----- The balancer

  datatype Strategy = RoundRobin | WeightedRoundRobin | LeastConnections | LeastResponseTime | ConsistentHash

  datatype RouteNode = RouteNode(id: string, healthy: bool, connections: int, responseTime: int, weight: real)

  /** `Panics` is an integer division by zero. */
  datatype Selection = NoNode | Selected(node: RouteNode) | Panics

  function Healthy(nodes: seq<RouteNode>): (r: seq<RouteNode>)
    ensures forall n :: n in r <==> n in nodes && n.healthy
  {
    if nodes == [] then []
    else
      assert forall n :: n in nodes <==> n == nodes[0] || n in nodes[1..];
      if nodes[0].healthy then [nodes[0]] + Healthy(nodes[1..]) else Healthy(nodes[1..])
  }

  lemma {:induction false} HealthyAppend(nodes: seq<RouteNode>, n: RouteNode)
    ensures Healthy(nodes + [n]) == Healthy(nodes) + (if n.healthy then [n] else [])
  {
    if nodes == [] {
    } else {
      HealthyAppend(nodes[1..], n);
      assert (nodes + [n])[1..] == nodes[1..] + [n];
    }
  }

  /** What the two least-of strategies compare. */
  function Load(n: RouteNode, byTime: bool): int {
    if byTime then n.responseTime else n.connections
  }

  /** The first node with the least load. */
  ghost predicate Least(nodes: seq<RouteNode>, byTime: bool, i: nat) {
    && i < |nodes|
    && (forall j :: 0 <= j < |nodes| ==> Load(nodes[i], byTime) <= Load(nodes[j], byTime))
    && (forall j :: 0 <= j < i ==> Load(nodes[i], byTime) < Load(nodes[j], byTime))
  }

  // ----- Weights

  /** The weight of the first n nodes. */
  function Weight(nodes: seq<RouteNode>, n: nat): real
    requires n <= |nodes|
  {
    if n == 0 then 0.0 else Weight(nodes, n - 1) + nodes[n - 1].weight
  }

  function TotalWeight(nodes: seq<RouteNode>): real {
    Weight(nodes, |nodes|)
  }

  /** Conversion to an integer, towards zero. */
  function Truncate(x: real): int {
    if x >= 0.0 then x.Floor else -(-x).Floor
  }

  /** The clock's nanoseconds modulo a thousand times the weight, in thousandths. */
  function Draw(nanos: nat, modulus: int): real
    requires modulus != 0
  {
    (nanos % (if modulus > 0 then modulus else -modulus)) as real / 1000.0
  }

  lemma TruncateIs(x: real)
    ensures (x >= 0.0 ==> 0.0 <= Truncate(x) as real <= x < Truncate(x) as real + 1.0)
    ensures (x <= 0.0 ==> Truncate(x) as real - 1.0 < x <= Truncate(x) as real <= 0.0)
  {
  }

  /** The remainder of the clock, whatever the sign of the modulus. */
  lemma DrawIsRemainder(nanos: nat, modulus: int) returns (q: int)
    requires modulus != 0
    ensures nanos as real == (q * modulus) as real + 1000.0 * Draw(nanos, modulus)
    ensures 0.0 <= 1000.0 * Draw(nanos, modulus) < (if modulus > 0 then modulus else -modulus) as real
  {
    q := if modulus > 0 then nanos / modulus else -(nanos / -modulus);
  }

  /** With weights that are not negative, no node weighs more than all of them, and without any weight all weigh
      nothing. */
  lemma {:induction false} TotalAtLeast(nodes: seq<RouteNode>, n: nat, i: nat)
    requires i < n <= |nodes| && forall m :: m in nodes ==> m.weight >= 0.0
    ensures Weight(nodes, n) >= nodes[i].weight >= 0.0
    decreases n
  {
    assert nodes[n - 1] in nodes && nodes[i] in nodes;
    if i < n - 1 {
      TotalAtLeast(nodes, n - 1, i);
    } else if n > 1 {
      TotalAtLeast(nodes, n - 1, 0);
    }
  }

  /** The first node up to which the weight reaches the draw, or the last node. */
  ghost predicate Drawn(nodes: seq<RouteNode>, draw: real, i: nat) {
    && i < |nodes| && (draw <= Weight(nodes, i + 1) || i == |nodes| - 1)
    && forall j :: 0 < j <= i ==> Weight(nodes, j) < draw
  }

  /** With weights that are not negative, a node without weight is drawn if and only if it is the first and the draw
      is 0: the comparison lets a draw of 0 stop there. */
  lemma WeightlessDrawnIff(nodes: seq<RouteNode>, nanos: nat, i: nat)
    requires i < |nodes| && nodes[i].weight == 0.0 && forall n :: n in nodes ==> n.weight >= 0.0
    requires Truncate(TotalWeight(nodes) * 1000.0) > 0
    ensures var draw := Draw(nanos, Truncate(TotalWeight(nodes) * 1000.0));
            Drawn(nodes, draw, i) <==> i == 0 && draw == 0.0
  {
    DrawBelow(TotalWeight(nodes), nanos);
    assert Weight(nodes, i + 1) == Weight(nodes, i);
  }

  lemma DrawBelow(total: real, nanos: nat)
    requires Truncate(total * 1000.0) > 0
    ensures 0.0 <= Draw(nanos, Truncate(total * 1000.0)) < total
  {
    var modulus := Truncate(total * 1000.0);
    assert 0 <= nanos % modulus <= modulus - 1;
    assert modulus as real <= total * 1000.0;
  }

  lemma {:induction false} WeightsGrow(nodes: seq<RouteNode>, j: nat, i: nat)
    requires j <= i <= |nodes| && forall n :: n in nodes ==> n.weight >= 0.0
    ensures Weight(nodes, j) <= Weight(nodes, i)
    decreases i
  {
    if j < i { WeightsGrow(nodes, j, i - 1); }
  }

  /** The weight of the first n nodes in whole thousandths. */
  function Thousandths(nodes: seq<RouteNode>, n: nat): int
    requires n <= |nodes|
  {
    (Weight(nodes, n) * 1000.0).Floor
  }

  lemma FloorAtLeast(x: real, k: int)
    ensures k as real <= x <==> k <= x.Floor
  {
  }

  lemma DrawBetween(nodes: seq<RouteNode>, k: nat, modulus: int, n: nat)
    requires 0 < k < modulus || (k == 0 && modulus > 0)
    requires n <= |nodes|
    ensures Draw(k, modulus) <= Weight(nodes, n) <==> k <= Thousandths(nodes, n)
  {
    assert k % modulus == k;
    FloorAtLeast(Weight(nodes, n) * 1000.0, k);
  }

  /** The draws of one cycle: node i has those from its first thousandth on, up to the first of the next node. */
  function First(nodes: seq<RouteNode>, i: nat): int
    requires i <= |nodes| && nodes != []
  {
    if i == 0 then 0 else if i == |nodes| then Thousandths(nodes, i) else Thousandths(nodes, i) + 1
  }

  lemma DrawnIff(nodes: seq<RouteNode>, k: nat, i: nat)
    requires i < |nodes| && forall n :: n in nodes ==> n.weight >= 0.0
    requires k < Thousandths(nodes, |nodes|)
    ensures Drawn(nodes, Draw(k, Thousandths(nodes, |nodes|)), i) <==> First(nodes, i) <= k < First(nodes, i + 1)
  {
    var draw := Draw(k, Thousandths(nodes, |nodes|));
    DrawBetween(nodes, k, Thousandths(nodes, |nodes|), i);
    DrawBetween(nodes, k, Thousandths(nodes, |nodes|), i + 1);
    forall j | 0 < j <= i && Weight(nodes, i) < draw ensures Weight(nodes, j) < draw {
      WeightsGrow(nodes, j, i);
    }
  }

  /** How many of the draws 0 to n - 1 select node i. */
  ghost function Draws(nodes: seq<RouteNode>, i: nat, n: nat): nat
    requires nodes != [] && n <= Thousandths(nodes, |nodes|)
  {
    if n == 0 then 0
    else Draws(nodes, i, n - 1) + if Drawn(nodes, Draw(n - 1, Thousandths(nodes, |nodes|)), i) then 1 else 0
  }

  function Between(lo: int, hi: int, n: int): int {
    if n <= lo || hi <= lo then 0 else if n <= hi then n - lo else hi - lo
  }

  lemma {:induction false} DrawsBetween(nodes: seq<RouteNode>, i: nat, n: nat)
    requires i < |nodes| && n <= Thousandths(nodes, |nodes|) && forall n :: n in nodes ==> n.weight >= 0.0
    ensures Draws(nodes, i, n) == Between(First(nodes, i), First(nodes, i + 1), n)
    decreases n
  {
    if n == 0 {
      WeightsGrow(nodes, 0, i);
    } else {
      DrawsBetween(nodes, i, n - 1);
      DrawnIff(nodes, n - 1, i);
    }
  }

  /** Over one cycle of the clock's draws every node is selected a thousand times its weight, give or take less than
      two: the first node has one draw too many and the last one too few, and thousandths are cut. */
  lemma DrawShare(nodes: seq<RouteNode>, i: nat)
    requires i < |nodes| && Thousandths(nodes, |nodes|) > 0 && forall n :: n in nodes ==> n.weight >= 0.0
    ensures Truncate(TotalWeight(nodes) * 1000.0) == Thousandths(nodes, |nodes|)
    ensures -2.0 < Draws(nodes, i, Thousandths(nodes, |nodes|)) as real - 1000.0 * nodes[i].weight < 2.0
  {
    DrawsBetween(nodes, i, Thousandths(nodes, |nodes|));
    WeightsGrow(nodes, 0, i);
    WeightsGrow(nodes, i, i + 1);
    WeightsGrow(nodes, i + 1, |nodes|);
  }

  class LoadBalancer {
    const strategy: Strategy
    var nodes: seq<RouteNode>
    var currentIndex: nat
    const ring: ConsistentHashRing

    constructor (strategy: Strategy, hash: Hasher)
      ensures nodes == [] && currentIndex == 0 && fresh(ring) && ring.Valid() && ring.View() == Ring(map[], [])
      ensures this.strategy == strategy
    {
      this.strategy := strategy;
      nodes, currentIndex := [], 0;
      ring := new ConsistentHashRing(100, hash);
    }

    method AddNode(node: RouteNode)
      modifies this`nodes, ring
      ensures nodes == old(nodes) + [node]
      ensures ring.Valid()
      ensures ring.View() == RingModel.Add(old(ring.View()), node.id, Points(ring.hash, node.id, ring.replicas))
    {
      nodes := nodes + [node];
      ring.Add(node.id);
    }

    /** Removes the first node of that id, if any, and the id's points in any case. */
    method RemoveNode(id: string)
      requires ring.Valid()
      modifies this`nodes, ring
      ensures ring.Valid()
      ensures ring.View() == RingModel.Remove(old(ring.View()), Points(ring.hash, id, ring.replicas))
      ensures (nodes == old(nodes) && forall i :: 0 <= i < |nodes| ==> nodes[i].id != id)
           || (exists i :: && 0 <= i < |old(nodes)| && old(nodes)[i].id == id
                           && (forall j :: 0 <= j < i ==> old(nodes)[j].id != id)
                           && nodes == old(nodes)[..i] + old(nodes)[i + 1..])
    {
      for i := 0 to |nodes|
        invariant nodes == old(nodes) && forall j :: 0 <= j < i ==> nodes[j].id != id
      {
        if nodes[i].id == id {
          nodes := nodes[..i] + nodes[i + 1..];
          break;
        }
      }
      ring.Remove(id);
    }

    method GetHealthyNodes() returns (r: seq<RouteNode>)
      ensures r == Healthy(nodes)
    {
      r := [];
      for i := 0 to |nodes|
        invariant r == Healthy(nodes[..i])
      {
        HealthyAppend(nodes[..i], nodes[i]);
        assert nodes[..i + 1] == nodes[..i] + [nodes[i]];
        if nodes[i].healthy { r := r + [nodes[i]]; }
      }
      assert nodes[..|nodes|] == nodes;
    }

    method SelectLeastConnections(healthy: seq<RouteNode>) returns (node: RouteNode)
      requires healthy != []
      ensures exists i: nat :: Least(healthy, false, i) && node == healthy[i]
    {
      node := healthy[0];
      ghost var i: nat := 0;
      for j := 1 to |healthy|
        invariant i < j && node == healthy[i]
        invariant forall k :: 0 <= k < j ==> node.connections <= healthy[k].connections
        invariant forall k :: 0 <= k < i ==> node.connections < healthy[k].connections
      {
        if healthy[j].connections < node.connections { i, node := j, healthy[j]; }
      }
      assert Least(healthy, false, i);
    }

    method SelectLeastResponseTime(healthy: seq<RouteNode>) returns (node: RouteNode)
      requires healthy != []
      ensures exists i: nat :: Least(healthy, true, i) && node == healthy[i]
    {
      node := healthy[0];
      ghost var i: nat := 0;
      for j := 1 to |healthy|
        invariant i < j && node == healthy[i]
        invariant forall k :: 0 <= k < j ==> node.responseTime <= healthy[k].responseTime
        invariant forall k :: 0 <= k < i ==> node.responseTime < healthy[k].responseTime
      {
        if healthy[j].responseTime < node.responseTime { i, node := j, healthy[j]; }
      }
      assert Least(healthy, true, i);
    }

    method SelectRoundRobin(healthy: seq<RouteNode>) returns (node: RouteNode)
      requires healthy != []
      modifies this`currentIndex
      ensures currentIndex == old(currentIndex) + 1 && node == healthy[currentIndex % |healthy|]
    {
      currentIndex := currentIndex + 1;
      node := healthy[currentIndex % |healthy|];
    }

    /** Takes turns when there is no weight at all; panics when the weight is below a thousandth. */
    method SelectWeightedRoundRobin(healthy: seq<RouteNode>, nanos: nat) returns (r: Selection)
      requires healthy != []
      modifies this`currentIndex
      ensures TotalWeight(healthy) == 0.0 ==>
                currentIndex == old(currentIndex) + 1 && r == Selected(healthy[currentIndex % |healthy|])
      ensures TotalWeight(healthy) != 0.0 ==> currentIndex == old(currentIndex)
      ensures !r.NoNode?
      ensures r.Panics? <==> TotalWeight(healthy) != 0.0 && Truncate(TotalWeight(healthy) * 1000.0) == 0
      ensures TotalWeight(healthy) != 0.0 && !r.Panics? ==>
                exists i: nat :: Drawn(healthy, Draw(nanos, Truncate(TotalWeight(healthy) * 1000.0)), i)
                    && r == Selected(healthy[i])
    {
      var totalWeight := 0.0;
      for i := 0 to |healthy|
        invariant totalWeight == Weight(healthy, i)
      {
        totalWeight := totalWeight + healthy[i].weight;
      }
      if totalWeight == 0.0 {
        var node := SelectRoundRobin(healthy);
        return Selected(node);
      }
      var modulus := Truncate(totalWeight * 1000.0);
      if modulus == 0 { return Panics; }
      var random := Draw(nanos, modulus);
      r := SelectDrawn(healthy, random);
    }

    method SelectDrawn(healthy: seq<RouteNode>, random: real) returns (r: Selection)
      requires healthy != []
      ensures exists i: nat :: Drawn(healthy, random, i) && r == Selected(healthy[i])
    {
      var currentWeight := 0.0;
      for i := 0 to |healthy|
        invariant currentWeight == Weight(healthy, i)
        invariant forall j :: 0 < j <= i ==> Weight(healthy, j) < random
      {
        currentWeight := currentWeight + healthy[i].weight;
        if random <= currentWeight {
          assert Drawn(healthy, random, i);
          return Selected(healthy[i]);
        }
      }
      assert Drawn(healthy, random, |healthy| - 1);
      r := Selected(healthy[|healthy| - 1]);
    }

    method SelectConsistentHash(healthy: seq<RouteNode>, h: Hash) returns (node: RouteNode)
      requires healthy != [] && ring.Valid()
      ensures node in healthy
      ensures (exists n :: n in healthy && n.id == Lookup(ring.View(), h)) ==> node.id == Lookup(ring.View(), h)
      ensures (forall n :: n in healthy ==> n.id != Lookup(ring.View(), h)) ==> node == healthy[0]
    {
      var id := ring.Get(h);
      for i := 0 to |healthy|
        invariant forall k :: 0 <= k < i ==> healthy[k].id != id
      {
        if healthy[i].id == id { return healthy[i]; }
      }
      node := healthy[0];
    }

    /** The request enters as the hash of its path, the clock in nanoseconds. */
    method SelectNode(h: Hash, nanos: nat) returns (r: Selection)
      requires ring.Valid()
      modifies this`currentIndex
      ensures r.NoNode? <==> forall n :: n in nodes ==> !n.healthy
      ensures r.Selected? ==> r.node in nodes && r.node.healthy
      ensures r.Panics? ==> strategy.WeightedRoundRobin?
      ensures !r.NoNode? ==> Selects(strategy, ring.View(), Healthy(nodes), h, nanos, currentIndex, r)
      ensures strategy.LeastConnections? && r.Selected? ==>
          forall n :: n in nodes && n.healthy ==> r.node.connections <= n.connections
      ensures strategy.LeastResponseTime? && r.Selected? ==>
          forall n :: n in nodes && n.healthy ==> r.node.responseTime <= n.responseTime
      ensures currentIndex
              == old(currentIndex) + if !r.NoNode? && TakesTurns(strategy, Healthy(nodes)) then 1 else 0
    {
      var healthy := GetHealthyNodes();
      if healthy == [] {
        assert forall n :: n in nodes && n.healthy ==> n in healthy;
        return NoNode;
      }
      assert healthy[0] in healthy;
      r := SelectAmong(healthy, h, nanos);
      if r.Selected? { LeastMeans(healthy, strategy, ring.View(), h, nanos, currentIndex, r.node); }
    }

    method SelectAmong(healthy: seq<RouteNode>, h: Hash, nanos: nat) returns (r: Selection)
      requires ring.Valid() && healthy != []
      modifies this`currentIndex
      ensures !r.NoNode? && (r.Selected? ==> r.node in healthy) && (r.Panics? ==> strategy.WeightedRoundRobin?)
      ensures Selects(strategy, ring.View(), healthy, h, nanos, currentIndex, r)
      ensures currentIndex == if TakesTurns(strategy, healthy) then old(currentIndex) + 1 else old(currentIndex)
    {
      if strategy.WeightedRoundRobin? {
        r := SelectWeightedRoundRobin(healthy, nanos);
      } else {
        var node := SelectUnweighted(healthy, h);
        r := Selected(node);
      }
    }

    method SelectUnweighted(healthy: seq<RouteNode>, h: Hash) returns (node: RouteNode)
      requires ring.Valid() && healthy != [] && !strategy.WeightedRoundRobin?
      modifies this`currentIndex
      ensures node in healthy && Selects(strategy, ring.View(), healthy, h, 0, currentIndex, Selected(node))
      ensures currentIndex == if TakesTurns(strategy, healthy) then old(currentIndex) + 1 else old(currentIndex)
    {
      match strategy
      case RoundRobin => node := SelectRoundRobin(healthy);
      case LeastConnections => node := SelectLeastConnections(healthy);
      case LeastResponseTime => node := SelectLeastResponseTime(healthy);
      case ConsistentHash => node := SelectConsistentHash(healthy, h);
    }
  }

  /** The strategy steps the round-robin index. */
  predicate TakesTurns(strategy: Strategy, healthy: seq<RouteNode>) {
    strategy.RoundRobin? || (strategy.WeightedRoundRobin? && TotalWeight(healthy) == 0.0)
  }

  /** What each strategy selects among the healthy nodes, in terms of what it is for. */
  ghost predicate Selects(strategy: Strategy, ring: Ring, healthy: seq<RouteNode>, h: Hash, nanos: nat, index: nat,
      r: Selection)
    requires healthy != []
  {
    if TakesTurns(strategy, healthy) then r == Selected(healthy[index % |healthy|])
    else if strategy.WeightedRoundRobin? then
      var modulus := Truncate(TotalWeight(healthy) * 1000.0);
      if modulus == 0 then r == Panics
      else exists i: nat :: Drawn(healthy, Draw(nanos, modulus), i) && r == Selected(healthy[i])
    else if strategy.ConsistentHash? then
      && r.Selected? && r.node in healthy
      && ((exists n :: n in healthy && n.id == Lookup(ring, h)) ==> r.node.id == Lookup(ring, h))
      && ((forall n :: n in healthy ==> n.id != Lookup(ring, h)) ==> r.node == healthy[0])
    else exists i: nat :: Least(healthy, strategy.LeastResponseTime?, i) && r == Selected(healthy[i])
  }

  /** The least-of strategies go by what they are named after. */
  lemma LeastMeans(healthy: seq<RouteNode>, strategy: Strategy, ring: Ring, h: Hash, nanos: nat, index: nat,
      node: RouteNode)
    requires healthy != [] && Selects(strategy, ring, healthy, h, nanos, index, Selected(node))
    ensures strategy.LeastConnections? ==> forall n :: n in healthy ==> node.connections <= n.connections
    ensures strategy.LeastResponseTime? ==> forall n :: n in healthy ==> node.responseTime <= n.responseTime
  {
    if strategy.LeastConnections? || strategy.LeastResponseTime? {
      var i: nat :| Least(healthy, strategy.LeastResponseTime?, i) && node == healthy[i];
      forall n | n in healthy
        ensures Load(node, strategy.LeastResponseTime?) <= Load(n, strategy.LeastResponseTime?)
      {
        var j :| 0 <= j < |healthy| && healthy[j] == n;
      }
    }
  }

  // ----- Fairness of round robin

  /** How often position j is picked in the n selections that follow index c. */
  function Picks(c: nat, n: nat, size: nat, j: nat): nat
    requires size > 0
  {
    if n == 0 then 0 else Picks(c, n - 1, size, j) + (if (c + n) % size == j then 1 else 0)
  }

  lemma {:induction false} PicksWithin(c: nat, n: nat, size: nat, j: nat)
    requires size > 0 && j < size && n <= size
    ensures Picks(c, n, size, j) == (if (j + size - (c + 1) % size) % size < n then 1 else 0)
  {
    var d := (j + size - (c + 1) % size) % size;
    if n == 0 {
    } else {
      PicksWithin(c, n - 1, size, j);
      Turn(c + 1, n - 1, size, j);
    }
  }

  lemma Turn(c: nat, k: nat, size: nat, j: nat)
    requires size > 0 && j < size && k < size
    ensures (c + k) % size == j <==> (j + size - c % size) % size == k
  {
    var q, r := c / size, c % size;
    assert c == q * size + r;
    Wrap(q, r + k, size);
    Wrap(0, j + size - r, size);
  }

  lemma Wrap(q: nat, a: nat, size: nat)
    requires size > 0 && a < 2 * size
    ensures (q * size + a) % size == if a < size then a else a - size
  {
    if a < size {
      ModUnique(q * size + a, size, q, a);
    } else {
      assert (q + 1) * size == q * size + size;
      ModUnique(q * size + a, size, q + 1, a - size);
    }
  }

  lemma {:induction false} PicksSplit(c: nat, m: nat, n: nat, size: nat, j: nat)
    requires size > 0
    ensures Picks(c, m + n, size, j) == Picks(c, m, size, j) + Picks(c + m, n, size, j)
    decreases n
  {
    if n == 0 {
    } else {
      PicksSplit(c, m, n - 1, size, j);
    }
  }

  /** Over rounds * size consecutive selections from an unchanged list of healthy nodes, every
      node is picked exactly `rounds` times. */
  lemma {:induction false} RoundRobinFair(c: nat, rounds: nat, size: nat, j: nat)
    requires size > 0 && j < size
    ensures Picks(c, rounds * size, size, j) == rounds
    decreases rounds
  {
    if rounds == 0 {
    } else {
      assert rounds * size == (rounds - 1) * size + size;
      PicksSplit(c, (rounds - 1) * size, size, size, j);
      RoundRobinFair(c, rounds - 1, size, j);
      PicksWithin(c + (rounds - 1) * size, size, size, j);
    }
  }

  /** The balancer's next n selections are the picks counted above: from index c on, each the next healthy node in
      turn. */
  method SelectMany(lb: LoadBalancer, h: Hash, nanos: nat, n: nat) returns (picked: seq<RouteNode>)
    requires lb.ring.Valid() && lb.strategy.RoundRobin? && Healthy(lb.nodes) != []
    modifies lb`currentIndex
    ensures lb.currentIndex == old(lb.currentIndex) + n && |picked| == n
    ensures forall k :: 0 <= k < n ==>
        picked[k] == Healthy(lb.nodes)[(old(lb.currentIndex) + k + 1) % |Healthy(lb.nodes)|]
  {
    picked := [];
    assert Healthy(lb.nodes)[0] in Healthy(lb.nodes);
    for i := 0 to n
      invariant lb.ring.Valid() && lb.currentIndex == old(lb.currentIndex) + i && |picked| == i
      invariant forall k :: 0 <= k < i ==>
          picked[k] == Healthy(lb.nodes)[(old(lb.currentIndex) + k + 1) % |Healthy(lb.nodes)|]
    {
      var r := lb.SelectNode(h, nanos);
      picked := picked + [r.node];
    }
  }
}
