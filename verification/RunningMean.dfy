/** The integer running mean of latencies, and the router's counters that carry it, overall and per route. */
module RunningMeans {
  const INT64_MAX: int := 0x7FFF_FFFF_FFFF_FFFF

  // ----- The mean

  /** The mean stored after the next latency: each update divides, and drops the remainder. */
  function Next(mean: nat, n: nat, latency: nat): nat {
    (n * mean + latency) / (n + 1)
  }

  /** The mean stored after these latencies. */
  function Mean(latencies: seq<nat>): nat
    decreases |latencies|
  {
    if latencies == [] then 0
    else Next(Mean(latencies[..|latencies| - 1]), |latencies| - 1, latencies[|latencies| - 1])
  }

  function Total(latencies: seq<nat>): nat
    decreases |latencies|
  {
    if latencies == [] then 0 else Total(latencies[..|latencies| - 1]) + latencies[|latencies| - 1]
  }

  lemma MeanOfOneMore(s: seq<nat>, x: nat)
    ensures Mean(s + [x]) == Next(Mean(s), |s|, x) && Total(s + [x]) == Total(s) + x
  {
    assert (s + [x])[..|s|] == s;
  }

  /** 0 + 1 + .. + (n - 1). */
  function Triangle(n: nat): nat {
    if n == 0 then 0 else Triangle(n - 1) + (n - 1)
  }

  lemma {:induction false} TriangleIs(n: nat)
    ensures 2 * Triangle(n) == n * (n - 1)
  {
    if n > 0 {
      TriangleIs(n - 1);
      assert n * (n - 1) == (n - 1) * (n - 2) + 2 * (n - 1);
    }
  }

  // One update loses less than its divisor.
  lemma NextLoses(mean: nat, n: nat, x: nat)
    ensures 0 <= n * mean + x - (n + 1) * Next(mean, n, x) <= n
  {
    var a := n * mean + x;
    assert a == (n + 1) * (a / (n + 1)) + a % (n + 1);
  }

  lemma {:induction false} LagWithin(s: seq<nat>)
    ensures 0 <= Total(s) - |s| * Mean(s) <= Triangle(|s|)
    decreases |s|
  {
    if s == [] {
    } else {
      LagWithin(s[..|s| - 1]);
      NextLoses(Mean(s[..|s| - 1]), |s| - 1, s[|s| - 1]);
    }
  }

  /** The stored mean never exceeds the true one and lags it by at most (n - 1) / 2: with S the sum of
      n latencies, 0 <= S - n * mean <= n * (n - 1) / 2. */
  lemma MeanLag(s: seq<nat>)
    ensures 0 <= Total(s) - |s| * Mean(s) <= |s| * (|s| - 1) / 2
  {
    LagWithin(s);
    TriangleIs(|s|);
  }

  function UpTo(n: nat): (s: seq<nat>)
    ensures |s| == n
  {
    if n == 0 then [] else UpTo(n - 1) + [n - 1]
  }

  lemma {:induction false} UpToLags(n: nat)
    ensures Mean(UpTo(n)) == 0 && Total(UpTo(n)) == Triangle(n)
  {
    if n > 0 {
      UpToLags(n - 1);
      MeanStaysZero(UpTo(n - 1), n - 1);
    }
  }

  // A latency below the number of them leaves a mean of 0.
  lemma MeanStaysZero(s: seq<nat>, x: nat)
    requires Mean(s) == 0 && x <= |s|
    ensures Mean(s + [x]) == 0 && Total(s + [x]) == Total(s) + x
  {
    MeanOfOneMore(s, x);
    SmallOverLarge(Mean(s), |s|, x);
  }

  lemma SmallOverLarge(mean: nat, n: nat, x: nat)
    requires mean == 0 && x <= n
    ensures Next(mean, n, x) == 0
  {
    assert n * mean + x == x;
  }

  /** The bound is reached for every n: the latencies 0, 1, .., n - 1 leave the stored mean at 0. */
  lemma MeanLagReached(n: nat)
    ensures Mean(UpTo(n)) == 0 && Total(UpTo(n)) == n * (n - 1) / 2
  {
    UpToLags(n);
    TriangleIs(n);
  }

  lemma NextAtLeast(mean: nat, n: nat, x: nat, least: nat)
    requires n == 0 || mean >= least
    requires x >= least
    ensures Next(mean, n, x) >= least
  {
    NextLoses(mean, n, x);
    if n > 0 { Scale(n, least, mean); }
    var next := Next(mean, n, x);
    if next + 1 <= least { Scale(n + 1, next + 1, least); }
  }

  lemma Scale(n: nat, a: nat, b: nat)
    requires a <= b
    ensures n * a <= n * b
  {
  }

  /** The stored mean is never below the least latency. */
  lemma {:induction false} MeanAtLeast(s: seq<nat>, least: nat)
    requires s != [] && forall i :: 0 <= i < |s| ==> s[i] >= least
    ensures Mean(s) >= least
    decreases |s|
  {
    var n := |s| - 1;
    if n > 0 {
      MeanAtLeast(s[..n], least);
    }
    NextAtLeast(Mean(s[..n]), n, s[n], least);
  }

  /** While the latencies of a run sum to an int64, no intermediate of the update overflows one. */
  lemma NoOverflow(s: seq<nat>, x: nat)
    requires Total(s) + x <= INT64_MAX
    ensures |s| * Mean(s) + x <= INT64_MAX
  {
    MeanLag(s);
  }

  // ----- The router's counters

  datatype Result = Result(latency: nat, failed: bool, cacheHit: bool)

  function Latencies(rs: seq<Result>): (s: seq<nat>)
    ensures |s| == |rs|
  {
    if rs == [] then [] else Latencies(rs[..|rs| - 1]) + [rs[|rs| - 1].latency]
  }

  function Failures(rs: seq<Result>): nat {
    if rs == [] then 0 else Failures(rs[..|rs| - 1]) + (if rs[|rs| - 1].failed then 1 else 0)
  }

  /** How many of the results are marked as cache hits. */
  function CacheHits(rs: seq<Result>): nat {
    if rs == [] then 0 else CacheHits(rs[..|rs| - 1]) + (if rs[|rs| - 1].cacheHit then 1 else 0)
  }

  lemma OneMore(rs: seq<Result>, r: Result)
    ensures Latencies(rs + [r]) == Latencies(rs) + [r.latency]
    ensures Failures(rs + [r]) == Failures(rs) + if r.failed then 1 else 0
    ensures CacheHits(rs + [r]) == CacheHits(rs) + if r.cacheHit then 1 else 0
  {
    assert (rs + [r])[..|rs|] == rs;
  }

  lemma DivideSame(a: nat, n: nat, m: nat)
    requires n == m > 0
    ensures a / n == a / m >= 0
  {
  }

  function Found(lookups: seq<bool>): (n: nat)
    ensures n <= |lookups|
  {
    if lookups == [] then 0 else Found(lookups[..|lookups| - 1]) + (if lookups[|lookups| - 1] then 1 else 0)
  }

  /** What the router sees: a worker processes a request, and would or would not find it in the cache; a result is
      recorded, and meanwhile other workers process requests; the configuration turns caching on or off. */
  datatype Event = Process(found: bool) | Record(result: Result, meanwhile: seq<bool>) | Configure(caching: bool)

  /** The requests processed in an event. */
  function Processed(e: Event): seq<bool> {
    match e
    case Process(found) => [found]
    case Record(_, meanwhile) => meanwhile
    case Configure(_) => []
  }

  /** The lookups with those of the requests that are processed, none while caching is off. */
  function After(lookups: seq<bool>, caching: bool, founds: seq<bool>): seq<bool> {
    if caching then lookups + founds else lookups
  }

  lemma AfterOneMore(lookups: seq<bool>, caching: bool, founds: seq<bool>, i: nat)
    requires i < |founds|
    ensures After(After(lookups, caching, founds[..i]), caching, [founds[i]])
            == After(lookups, caching, founds[..i + 1])
  {
    assert founds[..i + 1] == founds[..i] + [founds[i]];
  }

  predicate CachingAfter(caching: bool, events: seq<Event>) {
    if events == [] then caching
    else if events[|events| - 1].Configure? then events[|events| - 1].caching
    else CachingAfter(caching, events[..|events| - 1])
  }

  /** The cache lookups of a run: only a request that is processed while caching is on makes one. */
  function Lookups(caching: bool, events: seq<Event>): seq<bool> {
    if events == [] then []
    else
      var before := events[..|events| - 1];
      var last := events[|events| - 1];
      After(Lookups(caching, before), CachingAfter(caching, before), Processed(last))
  }

  function Results(events: seq<Event>): seq<Result> {
    if events == [] then []
    else
      var before := Results(events[..|events| - 1]);
      var last := events[|events| - 1];
      if last.Record? then before + [last.result] else before
  }

  function Rate(hits: nat, misses: nat): real
    requires hits + misses > 0
  {
    hits as real / (hits + misses) as real
  }

  lemma ScaleReal(u: real, v: real, c: real)
    requires c > 0.0
    ensures (u <= v <==> u * c <= v * c) && (u == v <==> u * c == v * c)
  {
    assert (v - u) * c == v * c - u * c;
    if u < v { assert (v - u) * c > 0.0; }
    if v < u { assert (u - v) * c > 0.0; }
  }

  lemma Cross(x: real, a: real, y: real, b: real)
    requires a > 0.0 && b > 0.0
    ensures (x / a <= y / b <==> x * b <= y * a) && (x / a == y / b <==> x * b == y * a)
  {
    var u, v := x / a, y / b;
    assert u * a == x && v * b == y;
    assert u * (a * b) == x * b && v * (a * b) == y * a;
    ScaleReal(u, v, a * b);
  }

  /** Hits that were counted after the hits were read are missing from the rate. */
  lemma RateIff(read: nat, hits: nat, misses: nat)
    requires read <= hits && read + misses > 0
    ensures Rate(read, misses) <= Rate(hits, misses)
    ensures Rate(read, misses) == Rate(hits, misses) <==> read == hits || misses == 0
    ensures Rate(read, misses) * (read + misses) as real == read as real
  {
    var r, h, m := read as real, hits as real, misses as real;
    Cross(r, r + m, h, h + m);
    assert h * (r + m) - r * (h + m) == m * (h - r);
    if read < hits && misses > 0 { assert m * (h - r) > 0.0; }
  }

  class OptimizedRouter {
    var enableCaching: bool
    var totalRequests: nat
    var successfulRequests: nat
    var failedRequests: nat
    var averageLatency: nat
    var cacheHits: nat
    var cacheMisses: nat
    var cacheHitRate: real
    ghost var lookups: seq<bool>    // every lookup in the route cache, and whether it found its request
    ghost var results: seq<Result>  // every result recorded

    /** The hit and miss counters belong to the route cache: its lookups count in them, and so do the results. */
    ghost predicate Valid()
      reads this
    {
      && totalRequests == |results| == successfulRequests + failedRequests
      && failedRequests == Failures(results)
      && cacheHits == Found(lookups) + CacheHits(results)
      && cacheHits + cacheMisses == |lookups| + |results|
      && averageLatency == Mean(Latencies(results))
    }

    constructor (caching: bool)
      ensures Valid() && results == [] && lookups == [] && enableCaching == caching
    {
      enableCaching := caching;
      totalRequests, successfulRequests, failedRequests, averageLatency := 0, 0, 0, 0;
      cacheHits, cacheMisses, cacheHitRate, lookups, results := 0, 0, 0.0, [], [];
    }

    /** The counting part of the route cache's Get. */
    method Lookup(found: bool)
      requires Valid()
      modifies this`cacheHits, this`cacheMisses, this`lookups
      ensures Valid() && lookups == old(lookups) + [found]
      ensures cacheHits == old(cacheHits) + (if found then 1 else 0)
      ensures cacheMisses == old(cacheMisses) + (if found then 0 else 1)
    {
      CountCache(found);
      lookups := lookups + [found];
    }

    /** The cache part of processing a request: answers whether the cache served it. */
    method ProcessRequest(found: bool) returns (cacheHit: bool)
      requires Valid()
      modifies this`cacheHits, this`cacheMisses, this`lookups
      ensures Valid() && cacheHit == (enableCaching && found)
      ensures lookups == After(old(lookups), enableCaching, [found])
      ensures cacheHits >= old(cacheHits) && cacheMisses >= old(cacheMisses)
    {
      cacheHit := false;
      if enableCaching {
        Lookup(found);
        cacheHit := found;
      }
    }

    /** The weighted sum is an int64: it must not overflow. */
    method UpdateAverage(latency: nat)
      requires totalRequests > 0 && (totalRequests - 1) * averageLatency + latency <= INT64_MAX
      modifies this`averageLatency
      ensures averageLatency == Next(old(averageLatency), totalRequests - 1, latency)
    {
      var weighted := (totalRequests - 1) * averageLatency + latency;
      DivideSame(weighted, totalRequests, totalRequests - 1 + 1);
      averageLatency := weighted / totalRequests;
    }

    method UpdateHitRate(hits: nat, misses: nat)
      modifies this`cacheHitRate
      ensures hits + misses > 0 ==> cacheHitRate == Rate(hits, misses)
      ensures hits + misses > 0 ==> cacheHitRate * (hits + misses) as real == hits as real
    {
      if hits + misses > 0 {
        cacheHitRate := hits as real / (hits + misses) as real;
      }
    }

    /** Other workers go on while the counters are read, between the hits and the misses. */
    method UpdateMetrics(result: Result, meanwhile: seq<bool>)
      requires Valid() && Total(Latencies(results)) + result.latency <= INT64_MAX
      modifies this`totalRequests, this`successfulRequests, this`failedRequests, this`averageLatency, this`cacheHits,
               this`cacheMisses, this`cacheHitRate, this`lookups, this`results
      ensures Valid() && results == old(results) + [result]
      ensures lookups == After(old(lookups), enableCaching, meanwhile)
      ensures cacheHitRate <= Rate(cacheHits, cacheMisses)
      ensures cacheHitRate == Rate(cacheHits, cacheMisses)
              <==> Found(lookups) == Found(old(lookups)) || cacheMisses == 0
    {
      CountResult(result);
      ReadHitRate(meanwhile);
    }

    method CountResult(result: Result)
      requires Valid() && Total(Latencies(results)) + result.latency <= INT64_MAX
      modifies this`totalRequests, this`successfulRequests, this`failedRequests, this`averageLatency, this`cacheHits,
               this`cacheMisses, this`results
      ensures Valid() && results == old(results) + [result]
    {
      OneMore(results, result);
      MeanOfOneMore(Latencies(results), result.latency);
      NoOverflow(Latencies(results), result.latency);
      CountRequest(result.failed);
      UpdateAverage(result.latency);
      CountCache(result.cacheHit);
      results := results + [result];
    }

    method ReadHitRate(meanwhile: seq<bool>)
      requires Valid() && results != []
      modifies this`cacheHits, this`cacheMisses, this`cacheHitRate, this`lookups
      ensures Valid() && lookups == After(old(lookups), enableCaching, meanwhile)
      ensures cacheHitRate <= Rate(cacheHits, cacheMisses)
      ensures cacheHitRate == Rate(cacheHits, cacheMisses)
              <==> Found(lookups) == Found(old(lookups)) || cacheMisses == 0
    {
      var hits := cacheHits;
      ProcessAll(meanwhile);
      UpdateHitRate(hits, cacheMisses);
      RateIff(hits, cacheHits, cacheMisses);
    }

    method ProcessAll(founds: seq<bool>)
      requires Valid()
      modifies this`cacheHits, this`cacheMisses, this`lookups
      ensures Valid() && lookups == After(old(lookups), enableCaching, founds)
      ensures cacheHits >= old(cacheHits) && cacheMisses >= old(cacheMisses)
    {
      ghost var before := lookups;
      for i := 0 to |founds|
        invariant Valid() && lookups == After(before, enableCaching, founds[..i])
        invariant cacheHits >= old(cacheHits) && cacheMisses >= old(cacheMisses)
      {
        var hit := ProcessRequest(founds[i]);
        AfterOneMore(before, enableCaching, founds, i);
      }
      assert founds[..|founds|] == founds;
    }

    method CountRequest(failed: bool)
      modifies this`totalRequests, this`successfulRequests, this`failedRequests
      ensures totalRequests == old(totalRequests) + 1
          && failedRequests == old(failedRequests) + (if failed then 1 else 0)
      ensures totalRequests - successfulRequests - failedRequests
              == old(totalRequests - successfulRequests - failedRequests)
    {
      totalRequests := totalRequests + 1;
      if !failed {
        successfulRequests := successfulRequests + 1;
      } else {
        failedRequests := failedRequests + 1;
      }
    }

    method CountCache(hit: bool)
      modifies this`cacheHits, this`cacheMisses
      ensures cacheHits == old(cacheHits) + (if hit then 1 else 0)
      ensures cacheHits + cacheMisses == old(cacheHits + cacheMisses) + 1
    {
      if hit {
        cacheHits := cacheHits + 1;
      } else {
        cacheMisses := cacheMisses + 1;
      }
    }

    method Handle(e: Event)
      requires Valid() && (e.Record? ==> Total(Latencies(results)) + e.result.latency <= INT64_MAX)
      modifies this
      ensures Valid() && enableCaching == if e.Configure? then e.caching else old(enableCaching)
      ensures results == if e.Record? then old(results) + [e.result] else old(results)
      ensures lookups == After(old(lookups), old(enableCaching), Processed(e))
    {
      match e
      case Process(found) => var cacheHit := ProcessRequest(found);
      case Record(result, meanwhile) => UpdateMetrics(result, meanwhile);
      case Configure(on) => enableCaching := on;
    }
  }

  /** Over any run hits + misses = lookups + results: a request that is looked up counts twice. So hits + misses are the
      requests recorded if and only if no request was ever processed while caching was on. */
  method Serve(caching: bool, events: seq<Event>) returns (router: OptimizedRouter)
    requires Total(Latencies(Results(events))) <= INT64_MAX
    ensures fresh(router) && router.Valid() && router.results == Results(events)
        && router.lookups == Lookups(caching, events)
    ensures router.cacheHits + router.cacheMisses == |Lookups(caching, events)| + router.totalRequests
    ensures router.cacheHits + router.cacheMisses == router.totalRequests
            <==> forall i :: 0 <= i < |events| && Processed(events[i]) != [] ==> !CachingAfter(caching, events[..i])
  {
    router := new OptimizedRouter(caching);
    for i := 0 to |events|
      invariant fresh(router) && router.Valid() && router.enableCaching == CachingAfter(caching, events[..i])
      invariant router.results == Results(events[..i]) && router.lookups == Lookups(caching, events[..i])
    {
      assert events[..i + 1][..i] == events[..i];
      ResultsFit(events, i);
      router.Handle(events[i]);
    }
    assert events[..|events|] == events;
    NoLookups(caching, events);
  }

  lemma {:induction false} ResultsGrow(events: seq<Event>, i: nat)
    requires i <= |events|
    ensures Total(Latencies(Results(events[..i]))) <= Total(Latencies(Results(events)))
    decreases |events|
  {
    if i == |events| {
      assert events[..i] == events;
    } else {
      var before := events[..|events| - 1];
      assert before[..i] == events[..i];
      ResultsGrow(before, i);
      if events[|events| - 1].Record? {
        OneMore(Results(before), events[|events| - 1].result);
        MeanOfOneMore(Latencies(Results(before)), events[|events| - 1].result.latency);
      }
    }
  }

  lemma ResultsFit(events: seq<Event>, i: nat)
    requires i < |events|
    ensures events[i].Record? ==>
              Total(Latencies(Results(events[..i]))) + events[i].result.latency <= Total(Latencies(Results(events)))
  {
    ResultsGrow(events, i + 1);
    assert events[..i + 1][..i] == events[..i];
    if events[i].Record? {
      MeanOfOneMore(Latencies(Results(events[..i])), events[i].result.latency);
      OneMore(Results(events[..i]), events[i].result);
    }
  }

  lemma {:induction false} NoLookups(caching: bool, events: seq<Event>)
    ensures Lookups(caching, events) == []
            <==> forall i :: 0 <= i < |events| && Processed(events[i]) != [] ==> !CachingAfter(caching, events[..i])
    decreases |events|
  {
    if events == [] {
    } else {
      var n := |events| - 1;
      var before := events[..n];
      NoLookups(caching, before);
      forall i | 0 <= i < n ensures before[i] == events[i] && before[..i] == events[..i] { }
      assert |Lookups(caching, events)|
          == |Lookups(caching, before)| + if CachingAfter(caching, before) then |Processed(events[n])| else 0;
      if Lookups(caching, events) == [] {
        assert Processed(events[n]) != [] ==> !CachingAfter(caching, before);
      }
    }
  }
}
