/** Sums over sequences of threads or workers: of integers, and of bags of values. */
module Sums {
  datatype Option<+T> = None | Some(value: T)

  function SumBy<T>(f: T -> int, s: seq<T>): int {
    if s == [] then 0 else f(s[0]) + SumBy(f, s[1..])
  }

  lemma {:induction false} SumUpdate<T>(f: T -> int, s: seq<T>, i: nat, x: T)
    requires i < |s|
    ensures SumBy(f, s[i := x]) == SumBy(f, s) - f(s[i]) + f(x)
  {
    if i == 0 {
      assert s[i := x][1..] == s[1..];
    } else {
      SumUpdate(f, s[1..], i - 1, x);
      assert s[i := x][1..] == s[1..][i - 1 := x];
    }
  }

  lemma {:induction false} SumAppend<T>(f: T -> int, s: seq<T>, x: T)
    ensures SumBy(f, s + [x]) == SumBy(f, s) + f(x)
  {
    if s == [] {
    } else {
      SumAppend(f, s[1..], x);
      assert (s + [x])[1..] == s[1..] + [x];
    }
  }

  /** A sum of terms lies between the sums of pointwise bounds. */
  lemma {:induction false} SumMonotone<T>(f: T -> int, g: T -> int, s: seq<T>)
    requires forall i :: 0 <= i < |s| ==> f(s[i]) <= g(s[i])
    ensures SumBy(f, s) <= SumBy(g, s)
  {
    if s == [] {
    } else {
      SumMonotone(f, g, s[1..]);
    }
  }

  lemma {:induction false} SumSplit<T>(f: T -> int, g: T -> int, h: T -> int, s: seq<T>)
    requires forall i :: 0 <= i < |s| ==> h(s[i]) == f(s[i]) + g(s[i])
    ensures SumBy(h, s) == SumBy(f, s) + SumBy(g, s)
  {
    if s == [] {
    } else {
      SumSplit(f, g, h, s[1..]);
    }
  }

  lemma {:induction false} SumAtMostLength<T>(f: T -> int, s: seq<T>)
    requires forall i :: 0 <= i < |s| ==> f(s[i]) <= 1
    ensures SumBy(f, s) <= |s|
  {
    if s == [] {
    } else {
      SumAtMostLength(f, s[1..]);
    }
  }

  lemma {:induction false} SumNonNegative<T>(f: T -> int, s: seq<T>)
    requires forall i :: 0 <= i < |s| ==> 0 <= f(s[i])
    ensures 0 <= SumBy(f, s)
  {
    if s == [] {
    } else {
      SumNonNegative(f, s[1..]);
    }
  }

  lemma {:induction false} SumAllZero<T>(f: T -> int, s: seq<T>)
    requires forall i :: 0 <= i < |s| ==> f(s[i]) == 0
    ensures SumBy(f, s) == 0
  {
    if s == [] {
    } else {
      SumAllZero(f, s[1..]);
    }
  }

  lemma {:induction false} SumHasElement<T>(f: T -> int, s: seq<T>, i: nat)
    requires i < |s| && forall k :: 0 <= k < |s| ==> 0 <= f(s[k])
    ensures f(s[i]) <= SumBy(f, s)
  {
    SumNonNegative(f, s[1..]);
    if i > 0 {
      SumHasElement(f, s[1..], i - 1);
    }
  }

  /** Two different positions are both counted. */
  lemma {:induction false} SumHasTwo<T>(f: T -> int, s: seq<T>, i: nat, j: nat)
    requires i < j < |s| && forall k :: 0 <= k < |s| ==> 0 <= f(s[k])
    ensures f(s[i]) + f(s[j]) <= SumBy(f, s)
  {
    if i == 0 {
      SumHasElement(f, s[1..], j - 1);
    } else {
      SumHasTwo(f, s[1..], i - 1, j - 1);
    }
  }
}
