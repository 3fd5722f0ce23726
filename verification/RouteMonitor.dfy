/** The router monitor's per-route counters: each route's count, successes, errors and running mean. */
module RouteMonitors {
  import opened RunningMeans
  import opened Separators

  datatype Sample = Sample(verb: string, path: string, duration: nat, success: bool)

  function Key(verb: string, path: string): string {
    Joined(verb, ':', path)
  }

  /** Two routes share their counters exactly when they are the same, or their colons shift a part from one name to the
      other; as long as methods hold no colon, exactly when they are the same. */
  lemma KeysMeetIff(verb: string, path: string, verb': string, path': string)
    ensures Key(verb, path) == Key(verb', path')
            <==> (verb == verb' && path == path')
                 || Shifted(':', verb, path, verb', path') || Shifted(':', verb', path', verb, path)
    ensures ':' !in verb && ':' !in verb' ==> (Key(verb, path) == Key(verb', path') <==> verb == verb' && path == path')
  {
    JoinedMeetIff(':', verb, path, verb', path');
    if ':' !in verb && ':' !in verb' { FirstPart(':', verb, path, verb', path'); }
  }

  /** The samples of one key, in order. */
  function Of(log: seq<Sample>, k: string): (r: seq<Sample>)
    decreases |log|
    ensures forall x :: x in r ==> Key(x.verb, x.path) == k
  {
    if log == [] then []
    else
      var last := log[|log| - 1];
      var before := Of(log[..|log| - 1], k);
      if Key(last.verb, last.path) == k then before + [last] else before
  }

  function Durations(s: seq<Sample>): (r: seq<nat>)
    ensures |r| == |s|
  {
    if s == [] then [] else Durations(s[..|s| - 1]) + [s[|s| - 1].duration]
  }

  function Successes(s: seq<Sample>): (n: nat)
    ensures n <= |s|
  {
    if s == [] then 0 else Successes(s[..|s| - 1]) + (if s[|s| - 1].success then 1 else 0)
  }

  lemma OneMoreOf(log: seq<Sample>, x: Sample, k: string)
    ensures Of(log + [x], k) == if k == Key(x.verb, x.path) then Of(log, k) + [x] else Of(log, k)
  {
    assert (log + [x])[..|log|] == log;
  }

  lemma OneMoreSample(s: seq<Sample>, x: Sample)
    ensures Durations(s + [x]) == Durations(s) + [x.duration]
    ensures Successes(s + [x]) == Successes(s) + if x.success then 1 else 0
  {
    assert (s + [x])[..|s|] == s;
  }

  lemma NextFirst(mean: nat, x: nat)
    ensures Next(mean, 0, x) == x
  {
    assert 0 * mean + x == x;
  }

  /** Each object is stored under its own key, so no two keys share one. */
  ghost predicate Keyed(m: map<string, RouteMetrics>) {
    forall k :: k in m ==> Key(m[k].verb, m[k].path) == k
  }

  class RouteMetrics {
    const verb: string
    const path: string
    var requestCount: nat
    var successCount: nat
    var errorCount: nat
    var averageResponseTime: nat

    constructor (verb: string, path: string)
      ensures this.verb == verb && this.path == path && Counts([])
    {
      this.verb, this.path := verb, path;
      requestCount, successCount, errorCount, averageResponseTime := 0, 0, 0, 0;
    }

    /** The counters are exactly those of these samples. */
    ghost predicate Counts(s: seq<Sample>)
      reads this
    {
      && requestCount == |s| && successCount == Successes(s) && errorCount == |s| - Successes(s)
      && averageResponseTime == Mean(Durations(s))
    }

    /** The weighted sum is an int64: it must not overflow. */
    method Update(duration: nat, success: bool, ghost s: seq<Sample>, ghost x: Sample)
      requires Counts(s) && x.duration == duration && x.success == success
      requires Total(Durations(s)) + duration <= INT64_MAX
      modifies this
      ensures Counts(s + [x])
    {
      OneMoreSample(s, x);
      MeanOfOneMore(Durations(s), duration);
      NoOverflow(Durations(s), duration);
      requestCount := requestCount + 1;
      if success {
        successCount := successCount + 1;
      } else {
        errorCount := errorCount + 1;
      }
      UpdateAverage(duration);
    }

    method UpdateAverage(duration: nat)
      requires requestCount > 0 && (requestCount - 1) * averageResponseTime + duration <= INT64_MAX
      modifies this`averageResponseTime
      ensures averageResponseTime == Next(old(averageResponseTime), requestCount - 1, duration)
    {
      if requestCount == 1 {
        NextFirst(averageResponseTime, duration);
        averageResponseTime := duration;
      } else {
        var weighted := (requestCount - 1) * averageResponseTime + duration;
        DivideSame(weighted, requestCount, requestCount - 1 + 1);
        averageResponseTime := weighted / requestCount;
      }
    }
  }

  class RouterMonitor {
    var routeMetrics: map<string, RouteMetrics>
    ghost var log: seq<Sample>

    /** The counters of a key are those of its own samples; a key without counters has none. */
    ghost predicate Counted(k: string)
      reads this, routeMetrics.Values
    {
      if k in routeMetrics then routeMetrics[k].Counts(Of(log, k)) else Of(log, k) == []
    }

    ghost predicate Valid()
      reads this, routeMetrics.Values
    {
      Keyed(routeMetrics) && forall k :: Counted(k)
    }

    constructor ()
      ensures Valid() && log == []
    {
      routeMetrics, log := map[], [];
    }

    /** The counters of the route, made when it is new. */
    method Find(verb: string, path: string) returns (metrics: RouteMetrics)
      requires Valid()
      modifies this`routeMetrics
      ensures Valid() && Key(verb, path) in routeMetrics && metrics == routeMetrics[Key(verb, path)]
      ensures if Key(verb, path) in old(routeMetrics) then routeMetrics == old(routeMetrics)
              else fresh(metrics) && routeMetrics == old(routeMetrics)[Key(verb, path) := metrics]
    {
      var key := verb + ":" + path;
      assert Counted(key);
      if key in routeMetrics {
        metrics := routeMetrics[key];
      } else {
        metrics := new RouteMetrics(verb, path);
        routeMetrics := routeMetrics[key := metrics];
        forall k ensures Counted(k) {
          assert old(Counted(k));
        }
      }
    }

    method Record(metrics: RouteMetrics, duration: nat, success: bool, ghost x: Sample)
      requires Valid() && Key(x.verb, x.path) in routeMetrics && routeMetrics[Key(x.verb, x.path)] == metrics
      requires x.duration == duration && x.success == success
      requires Total(Durations(Of(log, Key(x.verb, x.path)))) + duration <= INT64_MAX
      modifies metrics, this`log
      ensures Valid() && log == old(log) + [x]
    {
      ghost var key := Key(x.verb, x.path);
      assert Counted(key);
      metrics.Update(duration, success, Of(log, key), x);
      log := log + [x];
      forall k ensures Counted(k) {
        assert old(Counted(k));
        OneMoreOf(old(log), x, k);
        assert k in routeMetrics && k != key ==> routeMetrics[k] != metrics;
      }
    }

    method UpdateRouteMetrics(verb: string, path: string, duration: nat, success: bool)
      requires Valid() && Total(Durations(Of(log, Key(verb, path)))) + duration <= INT64_MAX
      modifies this, routeMetrics.Values
      ensures Valid() && log == old(log) + [Sample(verb, path, duration, success)]
      ensures forall k :: k in old(routeMetrics) ==> k in routeMetrics && routeMetrics[k] == old(routeMetrics)[k]
    {
      var metrics := Find(verb, path);
      Record(metrics, duration, success, Sample(verb, path, duration, success));
    }
  }
}
