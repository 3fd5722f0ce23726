/** The sliding-window rate limiter is exact over any run. */
module RateLimiting {
  /** How many of the times lie in the closed interval [lo, hi]. */
  function Count(s: seq<int>, lo: int, hi: int): nat {
    if s == [] then 0 else (if lo <= s[0] <= hi then 1 else 0) + Count(s[1..], lo, hi)
  }

  ghost predicate Ascending(s: seq<int>) {
    forall i, j :: 0 <= i < j < |s| ==> s[i] <= s[j]
  }

  lemma {:induction false} CountAppend(s: seq<int>, x: int, lo: int, hi: int)
    ensures Count(s + [x], lo, hi) == Count(s, lo, hi) + (if lo <= x <= hi then 1 else 0)
  {
    if s == [] {
    } else {
      assert (s + [x])[1..] == s[1..] + [x];
      CountAppend(s[1..], x, lo, hi);
    }
  }

  /** Counting in an interval that holds more of the times counts no less. */
  lemma {:induction false} CountWider(s: seq<int>, lo: int, hi: int, lo': int, hi': int)
    requires forall x :: x in s && lo <= x <= hi ==> lo' <= x <= hi'
    ensures Count(s, lo, hi) <= Count(s, lo', hi')
  {
    if s == [] {
    } else {
      assert s[0] in s && forall x :: x in s[1..] ==> x in s;
      CountWider(s[1..], lo, hi, lo', hi');
    }
  }

  /** In ascending order, the times from lo on are a suffix. */
  lemma {:induction false} CountSuffix(s: seq<int>, k: nat, lo: int, hi: int)
    requires k <= |s|
    requires forall j :: 0 <= j < k ==> s[j] < lo
    requires forall j :: k <= j < |s| ==> lo <= s[j] <= hi
    ensures Count(s, lo, hi) == |s| - k
  {
    if s == [] {
    } else {
      CountSuffix(s[1..], if k == 0 then 0 else k - 1, lo, hi);
    }
  }

  /** The load of the closed interval of length `window` that starts at t. */
  function Load(s: seq<int>, t: int, window: int): nat {
    Count(s, t, t + window)
  }

  /** No closed interval of length `window` holds more than `limit` admitted requests. */
  ghost predicate WithinLimit(admitted: seq<int>, limit: nat, window: int) {
    forall t :: Load(admitted, t, window) <= limit
  }

  /** Admitting a request when fewer than `limit` were admitted in the window ending now keeps every
      window within the limit, past and future. */
  lemma AdmitKeepsLimit(admitted: seq<int>, now: int, limit: nat, window: int)
    requires WithinLimit(admitted, limit, window) && Ascending(admitted) && forall x :: x in admitted ==> x <= now
    requires Count(admitted, now - window, now) < limit
    ensures WithinLimit(admitted + [now], limit, window) && Ascending(admitted + [now])
  {
    forall i | 0 <= i < |admitted| ensures admitted[i] <= now { assert admitted[i] in admitted; }
    forall t ensures Load(admitted + [now], t, window) <= limit {
      assert Load(admitted, t, window) <= limit;
      CountAppend(admitted, now, t, t + window);
      if t <= now <= t + window {
        CountWider(admitted, t, t + window, now - window, now);
      }
    }
  }

  class RateLimiter {
    const limit: nat
    const window: int
    var requests: seq<int>
    ghost var admitted: seq<int>  // every request ever admitted
    ghost var dropped: nat        // how many of them were trimmed
    ghost var clock: int          // the latest time seen

    ghost predicate Valid()
      reads this
    {
      && Ascending(admitted) && (forall x :: x in admitted ==> x <= clock)
      && dropped <= |admitted| && requests == admitted[dropped..]
      && (forall j :: 0 <= j < dropped ==> admitted[j] < clock - window)
      && WithinLimit(admitted, limit, window)
    }

    constructor (limit: nat, window: int, ghost start: int)
      ensures Valid() && admitted == [] && clock == start && this.limit == limit && this.window == window
    {
      this.limit, this.window := limit, window;
      requests, admitted, dropped, clock := [], [], 0, start;
      new;
      assert admitted[dropped..] == [];
    }

    /** Admits exactly when fewer than `limit` requests were admitted in the window ending now. */
    method Allow(now: int) returns (ok: bool)
      requires Valid() && now >= clock
      modifies this
      ensures Valid() && clock == now
      ensures ok <==> Count(old(admitted), now - window, now) < limit
      ensures admitted == old(admitted) + (if ok then [now] else [])
    {
      clock := now;
      var cutoff := now - window;
      while |requests| > 0 && requests[0] < cutoff
        invariant dropped <= |admitted| && requests == admitted[dropped..] && admitted == old(admitted) && clock == now
        invariant forall j :: 0 <= j < dropped ==> admitted[j] < cutoff
        decreases |requests|
      {
        requests := requests[1..];
        dropped := dropped + 1;
      }
      forall j | dropped <= j < |admitted| ensures cutoff <= admitted[j] <= now {
        assert requests[0] == admitted[dropped] && admitted[j] in admitted;
      }
      CountSuffix(admitted, dropped, cutoff, now);
      if |requests| >= limit { return false; }
      AdmitKeepsLimit(admitted, now, limit, window);
      requests := requests + [now];
      admitted := admitted + [now];
      ok := true;
    }
  }

  // ----- Over whole runs

  ghost function Run(times: seq<int>, limit: nat, window: int): seq<int> {
    if times == [] then []
    else
      var before, now := Run(times[..|times| - 1], limit, window), times[|times| - 1];
      if Count(before, now - window, now) < limit then before + [now] else before
  }

  /** Over any run of requests at non-decreasing times, every closed interval of length `window` holds at
      most `limit` admitted requests; a window is full wherever a request was refused. */
  lemma {:induction false} RunIsExact(times: seq<int>, limit: nat, window: int)
    requires Ascending(times)
    ensures WithinLimit(Run(times, limit, window), limit, window) && Ascending(Run(times, limit, window))
    ensures forall x :: x in Run(times, limit, window) ==> x in times
    ensures times != [] && Run(times, limit, window) == Run(times[..|times| - 1], limit, window) ==>
              var now := times[|times| - 1]; Count(Run(times, limit, window), now - window, now) == limit
  {
    if times == [] {
    } else {
      var front, now := times[..|times| - 1], times[|times| - 1];
      RunIsExact(front, limit, window);
      var before := Run(front, limit, window);
      assert forall x :: x in front ==> x in times && x <= now;
      assert Load(before, now - window, window) <= limit;
      if Count(before, now - window, now) < limit {
        AdmitKeepsLimit(before, now, limit, window);
        assert before + [now] != before;
      }
    }
  }

  /** The limiter object computes that run. */
  method Replay(times: seq<int>, limit: nat, window: int) returns (rl: RateLimiter)
    requires Ascending(times)
    ensures fresh(rl) && rl.admitted == Run(times, limit, window)
  {
    rl := new RateLimiter(limit, window, if times == [] then 0 else times[0]);
    for i := 0 to |times|
      invariant fresh(rl) && rl.Valid() && rl.limit == limit && rl.window == window
      invariant i < |times| ==> rl.clock <= times[i]
      invariant rl.admitted == Run(times[..i], limit, window)
    {
      assert times[..i + 1][..i] == times[..i];
      var ok := rl.Allow(times[i]);
    }
    assert times[..|times|] == times;
  }
}
