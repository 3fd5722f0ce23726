/** How the byte buffer grows: the size of its array over any run of writes, and what growing costs. */
module BufferGrowth {
  /** `copied` and `growths` count the bytes copied and the arrays allocated by grow. */
  datatype Size = Size(length: nat, wpos: nat, copied: nat, growths: nat)

  function Empty(length: nat): Size {
    Size(length, 0, 0, 0)
  }

  /** A write of n bytes: the array doubles and gains n when it is too short, and the written bytes are copied. */
  function Write(s: Size, n: nat): Size {
    if s.length < s.wpos + n then Size(2 * s.length + n, s.wpos + n, s.copied + s.wpos, s.growths + 1)
    else s.(wpos := s.wpos + n)
  }

  function WriteAll(s: Size, writes: seq<nat>): Size
    decreases |writes|
  {
    if writes == [] then s else Write(WriteAll(s, writes[..|writes| - 1]), writes[|writes| - 1])
  }

  /** n writes of one byte. */
  function Ones(n: nat): (r: seq<nat>)
    ensures |r| == n
  {
    if n == 0 then [] else Ones(n - 1) + [1]
  }

  lemma OneMore(s: Size, n: nat)
    ensures WriteAll(s, Ones(n + 1)) == Write(WriteAll(s, Ones(n)), 1)
  {
    assert Ones(n + 1)[..n] == Ones(n);
  }

  lemma WriteOne(s: Size)
    ensures forall n :: WriteAll(s, [n]) == Write(s, n)
  {
    forall n ensures WriteAll(s, [n]) == Write(s, n) {
      assert [n][..0] == [];
    }
  }

  lemma {:induction false} WriteAllJoin(s: Size, a: seq<nat>, b: seq<nat>)
    ensures WriteAll(s, a + b) == WriteAll(WriteAll(s, a), b)
    decreases |b|
  {
    if b == [] {
      assert a + b == a;
    } else {
      WriteAllJoin(s, a, b[..|b| - 1]);
      assert (a + b)[..|a + b| - 1] == a + b[..|b| - 1];
    }
  }

  function Power2(n: nat): (p: nat)
    ensures p > n
  {
    if n == 0 then 1 else 2 * Power2(n - 1)
  }

  ghost predicate Frugal(s: Size, first: nat) {
    && s.wpos <= s.length && s.copied <= s.length && s.copied <= 2 * s.wpos
    && (s.length <= first || s.length <= 3 * s.wpos)
    && Power2(s.growths) <= s.length + 1
  }

  /** Over any run of writes to a buffer of any first length: growing copies at most twice the bytes written, the
      array is at most three times as long as what was written, and it was allocated logarithmically often. */
  lemma {:induction false} GrowthCost(first: nat, writes: seq<nat>)
    ensures Frugal(WriteAll(Empty(first), writes), first)
    decreases |writes|
  {
    if writes == [] {
    } else {
      GrowthCost(first, writes[..|writes| - 1]);
    }
  }
}
