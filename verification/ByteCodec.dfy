/**
 The byte formats of BytesBuffer: fixed-width integers in both byte orders, unsigned LEB128
 varints and zigzag, with the laws that make them codecs.

 Machine words are natural numbers below their width. A shift by k is a multiplication or division
 by 2^k, cut off at the width; `| 0x80` on seven bits and `x |= t << k` on x below 2^k add; an
 exclusive or with all ones is the complement.
 */
module ByteCodec {
  import opened Arithmetic

  type byte = b: int | 0 <= b < 256

  const W16: nat := 0x1_0000
  const W32: nat := 0x1_0000_0000
  const W64: nat := 0x1_0000_0000_0000_0000

  datatype Order = BigEndian | LittleEndian

  datatype Error = NotEnough | Overflow | EndOfFile
  datatype Result<+T> = Ok(value: T) | Err(error: Error)

  // Products with a power stay abstract for the solver except through these lemmas.
  function Pow(base: nat, n: nat): (p: nat)
    ensures base > 0 ==> p > 0
  {
    if n == 0 then 1 else base * Pow(base, n - 1)
  }

  // ----- Fixed width: PutUint16, PutUint32 and PutUint64 are n = 2, 4 and 8

  function EncFixed(order: Order, v: nat, n: nat): (r: seq<byte>)
    ensures |r| == n
    decreases n
  {
    if n == 0 then []
    else
      var rest := EncFixed(order, v / 256, n - 1);
      if order.BigEndian? then rest + [v % 256] else [v % 256] + rest
  }

  function DecFixed(order: Order, b: seq<byte>): nat
    decreases |b|
  {
    if b == [] then 0
    else if order.BigEndian? then 256 * DecFixed(order, b[..|b| - 1]) + b[|b| - 1]
    else 256 * DecFixed(order, b[1..]) + b[0]
  }

  lemma {:induction false} DecEncFixed(order: Order, v: nat, n: nat)
    requires v < Pow(256, n)
    ensures DecFixed(order, EncFixed(order, v, n)) == v
    decreases n
  {
    if n == 0 {
    } else {
      assert v / 256 < Pow(256, n - 1);
      DecEncFixed(order, v / 256, n - 1);
      var rest := EncFixed(order, v / 256, n - 1);
      if order.BigEndian? {
        assert (rest + [v % 256])[..n - 1] == rest;
      } else {
        assert ([v % 256] + rest)[1..] == rest;
      }
    }
  }

  /** Little endian puts the least significant byte first, big endian last. */
  lemma {:induction false} FixedBytes(order: Order, v: nat, n: nat, i: nat)
    requires i < n
    ensures EncFixed(order, v, n)[if order.LittleEndian? then i else n - 1 - i] == v / Pow(256, i) % 256
    decreases n
  {
    if i == 0 {
    } else {
      FixedBytes(order, v / 256, n - 1, i - 1);
      DivTwice(v, 256, Pow(256, i - 1));
    }
  }

  lemma Widths()
    ensures Pow(256, 2) == W16 && Pow(256, 4) == W32 && Pow(256, 8) == W64
  {
    assert Pow(256, 1) == 256;
    assert Pow(256, 3) == 256 * Pow(256, 2);
    assert Pow(256, 5) == 256 * Pow(256, 4);
    assert Pow(256, 6) == 256 * Pow(256, 5);
    assert Pow(256, 7) == 256 * Pow(256, 6);
  }

  // ----- Varints (unsigned LEB128, section 7.6 of DWARF Version 5)

  function EncVarint(u: nat): (r: seq<byte>)
    ensures |r| >= 1
  {
    if u < 128 then [u] else [u % 128 + 128] + EncVarint(u / 128)
  }

  /** `used` counts the bytes consumed, also when the read fails. */
  datatype VarintRead = VarintRead(result: Result<nat>, used: nat)

  /** Reads on from `bytes`: k bytes were read before, and `x` is accumulated so far. The next byte is
      placed at bit offset 7k; the tenth (offset 63) is the last for which the offset is below 64.
      What a byte holds beyond bit 63 is cut off. */
  function DecVarint(bytes: seq<byte>, k: nat, x: nat): (r: VarintRead)
    ensures r.used <= |bytes|
    decreases |bytes|
  {
    if 7 * k >= 64 then VarintRead(Err(Overflow), 0)
    else if bytes == [] then VarintRead(Err(EndOfFile), 0)
    else
      var temp := bytes[0];
      var placed := x + Place(temp % 128, k);
      if temp < 128 then VarintRead(Ok(placed), 1)
      else
        var rest := DecVarint(bytes[1..], k + 1, placed);
        VarintRead(rest.result, rest.used + 1)
  }

  /** t << 7k in 64 bits. */
  function Place(t: nat, k: nat): nat {
    t * Pow(128, k) % W64
  }

  lemma PlaceUnit(k: nat) returns (m: nat)
    requires k <= 9
    ensures W64 == m * Pow(128, k) && m > 0
  {
    m := W64 / Pow(128, k);
    if k == 0 {} else if k == 1 {} else if k == 2 {} else if k == 3 {} else if k == 4 {}
    else if k == 5 {} else if k == 6 {} else if k == 7 {} else if k == 8 {} else {}
  }

  /** Bitwise or: a bit is set where either number has it. */
  function Or(a: nat, b: nat): nat {
    if a == 0 then b else if b == 0 then a
    else (if a % 2 == 1 || b % 2 == 1 then 1 else 0) + 2 * Or(a / 2, b / 2)
  }

  /** Numbers whose bits lie apart, x below bit n and y from it on, are added by `|`. */
  lemma {:induction false} OrAdds(x: nat, y: nat, n: nat)
    requires x < Pow(2, n) && y % Pow(2, n) == 0
    ensures Or(x, y) == x + y
  {
    if x > 0 && y > 0 {
      HalfMultiple(y, Pow(2, n - 1));
      OrAdds(x / 2, y / 2, n - 1);
    }
  }

  lemma HalfMultiple(y: nat, p: nat)
    requires p > 0 && y % (2 * p) == 0
    ensures y % 2 == 0 && y / 2 % p == 0
  {
    var q := y / (2 * p);
    assert y == q * (2 * p) == 2 * (q * p);
    MultipleMod(q, p);
  }

  lemma {:induction false} Pow128(k: nat)
    ensures Pow(128, k) == Pow(2, 7 * k)
  {
    if k > 0 {
      Pow128(k - 1);
      var p := Pow(2, 7 * k - 7);
      assert Pow(2, 7 * k - 5) == 4 * p;
      assert Pow(2, 7 * k - 3) == 16 * p;
      assert Pow(2, 7 * k - 1) == 64 * p;
    }
  }

  /** The bits of a placed byte lie apart from those read before it, so `|` adds it; and for all but the tenth
      byte none is cut off. */
  lemma BitsApart(t: nat, k: nat, x: nat)
    requires t < 128 && k <= 9 && x < Pow(128, k)
    ensures Or(x, Place(t, k)) == x + Place(t, k)
    ensures k <= 8 ==> Place(t, k) == t * Pow(128, k)
    ensures x + Place(t, k) < W64 && x + Place(t, k) < Pow(128, k + 1)
  {
    var m := PlaceUnit(k);
    ScaledApart(t, Pow(128, k), m, x);
    Pow128(k);
    OrAdds(x, Place(t, k), 7 * k);
    if k <= 8 { NotCut(t, k); }
  }

  lemma NotCut(t: nat, k: nat)
    requires t < 128 && k <= 8
    ensures Place(t, k) == t * Pow(128, k)
  {
    LessThan(t, 128, Pow(128, k));
    var m := PlaceUnit(k + 1);
    MulLess(1, m, Pow(128, k + 1));
    LastByte(t, k);
  }

  lemma ScaledApart(t: nat, p: nat, m: nat, x: nat)
    requires t < 128 && x < p && m > 0
    ensures m * p > 0
    ensures var placed := t * p % (m * p);
            placed % p == 0 && x + placed < m * p && x + placed < 128 * p
  {
    ModScale(t, p, m);
    Multiple(t * p % (m * p), t % m, p, m, x);
  }

  lemma Multiple(placed: nat, r: nat, p: nat, m: nat, x: nat)
    requires placed == r * p && r < m && r < 128 && x < p
    ensures placed % p == 0 && x + placed < m * p && x + placed < 128 * p
  {
    MultipleMod(r, p);
    LessThan(r, m, p);
    LessThan(r, 128, p);
  }

  // A multiple below another is below it by a whole unit.
  lemma LessThan(a: nat, b: nat, p: nat)
    requires a < b
    ensures a * p + p <= b * p
  {
    MulLess(a + 1, b, p);
    assert (a + 1) * p == a * p + p;
  }

  lemma MultipleMod(a: nat, p: nat)
    requires p > 0
    ensures a * p % p == 0
  {
    ModUnique(a * p, p, a, 0);
  }

  lemma ModScale(t: nat, p: nat, m: nat)
    requires p > 0 && m > 0
    ensures m * p > 0 && t * p % (m * p) == t % m * p
  {
    var q, r := t / m, t % m;
    assert t == q * m + r;
    MulLess(r, m - 1, p);
    assert (m - 1) * p + p == m * p;
    assert t * p == q * (m * p) + r * p;
    ModUnique(t * p, m * p, q, r * p);
  }

  lemma Regroup(t: nat, p: nat)
    ensures t % 128 * p + (t / 128) * (128 * p) == t * p
  {
    var q, r := t / 128, t % 128;
    assert t == 128 * q + r;
    assert t * p == (128 * q + r) * p == 128 * q * p + r * p;
  }

  lemma {:induction false} DecEncVarint(u: nat, k: nat, x: nat, rest: seq<byte>)
    requires u * Pow(128, k) < W64 && k <= 9
    ensures DecVarint(EncVarint(u) + rest, k, x) == VarintRead(Ok(x + u * Pow(128, k)), |EncVarint(u)|)
    decreases u
  {
    if u < 128 {
      LastByte(u, k);
      DecNext([u] + rest, k, x);
    } else {
      FirstByte(u, k);
      TenthByte(u, k);
      DecEncVarint(u / 128, k + 1, x + Place(u % 128, k), rest);
      DecEncStep(u, k, x, rest, x + Place(u % 128, k) + u / 128 * Pow(128, k + 1));
    }
  }

  lemma EncFront(u: nat, rest: seq<byte>)
    requires u >= 128
    ensures var bytes := EncVarint(u) + rest;
            && bytes != [] && bytes[0] >= 128 && bytes[0] % 128 == u % 128
            && bytes[1..] == EncVarint(u / 128) + rest && |EncVarint(u)| == 1 + |EncVarint(u / 128)|
  {
  }

  lemma DecEncStep(u: nat, k: nat, x: nat, rest: seq<byte>, total: nat)
    requires u >= 128 && k <= 9
    requires DecVarint(EncVarint(u / 128) + rest, k + 1, x + Place(u % 128, k))
        == VarintRead(Ok(total), |EncVarint(u / 128)|)
    ensures DecVarint(EncVarint(u) + rest, k, x) == VarintRead(Ok(total), |EncVarint(u)|)
  {
    EncFront(u, rest);
    DecNext(EncVarint(u) + rest, k, x);
  }

  lemma LastByte(u: nat, k: nat)
    requires u * Pow(128, k) < W64
    ensures Place(u, k) == u * Pow(128, k)
  {
    ModUnique(u * Pow(128, k), W64, 0, u * Pow(128, k));
  }

  // One byte of the reading.
  lemma DecNext(bytes: seq<byte>, k: nat, x: nat)
    requires bytes != [] && k <= 9
    ensures var placed := x + Place(bytes[0] % 128, k);
            var rest := DecVarint(bytes[1..], k + 1, placed);
            DecVarint(bytes, k, x)
            == if bytes[0] < 128 then VarintRead(Ok(placed), 1) else VarintRead(rest.result, rest.used + 1)
  {
  }

  // The low seven bits, placed, and the rest, placed seven further, make up the whole.
  lemma FirstByte(u: nat, k: nat)
    requires u * Pow(128, k) < W64 && u >= 128
    ensures Place(u % 128, k) + u / 128 * Pow(128, k + 1) == u * Pow(128, k)
    ensures u / 128 * Pow(128, k + 1) < W64
  {
    var p := Pow(128, k);
    MulLess(u % 128, u, p);
    Regroup(u, p);
    assert Pow(128, k + 1) == 128 * p;
  }

  // A tenth byte has no room for a continuation.
  lemma TenthByte(u: nat, k: nat)
    requires u * Pow(128, k) < W64 && u >= 128 && k <= 9
    ensures k <= 8
  {
    MulLess(128, u, Pow(128, k));
  }

  /** Reading a varint back returns it and consumes exactly its bytes, whatever follows. */
  lemma VarintRoundTrip(u: nat, rest: seq<byte>)
    requires u < W64
    ensures DecVarint(EncVarint(u) + rest, 0, 0) == VarintRead(Ok(u), |EncVarint(u)|)
  {
    DecEncVarint(u, 0, 0, rest);
  }

  /** The number of significant bits. */
  function Bits(u: nat): nat {
    if u == 0 then 0 else 1 + Bits(u / 2)
  }

  lemma SevenBits(u: nat)
    ensures if u >= 128 then Bits(u) == 7 + Bits(u / 128) else Bits(u) <= 7
    ensures u < 128 || Bits(u) >= 8
  {
    var u1 := u / 2;  var u2 := u1 / 2; var u3 := u2 / 2;
    var u4 := u3 / 2; var u5 := u4 / 2; var u6 := u5 / 2; var u7 := u6 / 2;
    assert u7 == u / 128;
    assert Bits(u) <= 1 + Bits(u1) && Bits(u1) <= 1 + Bits(u2) && Bits(u2) <= 1 + Bits(u3);
    assert Bits(u3) <= 1 + Bits(u4) && Bits(u4) <= 1 + Bits(u5) && Bits(u5) <= 1 + Bits(u6) && Bits(u6) <= 1 + Bits(u7);
  }

  lemma {:induction false} BitsBound(u: nat, k: nat)
    requires u < Pow(2, k)
    ensures Bits(u) <= k
    decreases k
  {
    if u == 0 || k == 0 {
    } else {
      BitsBound(u / 2, k - 1);
    }
  }

  lemma Pow64()
    ensures Pow(2, 64) == W64
  {
    assert Pow(2, 4) == 16 && Pow(2, 8) == 16 * Pow(2, 4);
    PowDouble(2, 8);
    PowDouble(2, 16);
    PowDouble(2, 32);
  }

  lemma {:induction false} PowDouble(b: nat, n: nat)
    ensures Pow(b, 2 * n) == Pow(b, n) * Pow(b, n)
  {
    PowAdd(b, n, n);
  }

  lemma {:induction false} PowAdd(b: nat, m: nat, n: nat)
    ensures Pow(b, m + n) == Pow(b, m) * Pow(b, n)
    decreases m
  {
    if m == 0 {
    } else {
      PowAdd(b, m - 1, n);
      Associate(b, Pow(b, m - 1), Pow(b, n));
    }
  }

  lemma {:induction false} VarintBytes(u: nat)
    ensures |EncVarint(u)| == (if u == 0 then 1 else (Bits(u) + 6) / 7)
  {
    SevenBits(u);
    if u < 128 {
    } else {
      VarintBytes(u / 128);
    }
  }

  /** A varint uses max(1, ceil(bits / 7)) bytes, so never more than ten. */
  lemma VarintLength(u: nat)
    requires u < W64
    ensures |EncVarint(u)| == (if u == 0 then 1 else (Bits(u) + 6) / 7) <= 10
  {
    VarintBytes(u);
    Pow64();
    BitsBound(u, 64);
  }

  /** A varint's bytes are the groups of seven bits, the least significant first; all but the last have the top bit. */
  lemma {:induction false} VarintGroups(u: nat, i: nat)
    requires i < |EncVarint(u)|
    ensures EncVarint(u)[i] == u / Pow(128, i) % 128 + if i == |EncVarint(u)| - 1 then 0 else 128
    decreases i
  {
    if u >= 128 && i > 0 {
      VarintGroups(u / 128, i - 1);
      DivTwice(u, 128, Pow(128, i - 1));
    }
  }

  /** The first of the bytes without the top bit, or their number. */
  function Ends(bytes: seq<byte>): (n: nat)
    ensures n <= |bytes| && (forall i :: 0 <= i < n ==> bytes[i] >= 128) && (n < |bytes| ==> bytes[n] < 128)
  {
    if bytes == [] || bytes[0] < 128 then 0 else 1 + Ends(bytes[1..])
  }

  /** A read ends with the first byte without the top bit if that is among the first ten, and else fails: with an
      overflow after ten bytes, or at the end of fewer. */
  lemma {:induction false} DecVarintEnds(bytes: seq<byte>, k: nat, x: nat)
    requires k <= 10
    ensures var r, n := DecVarint(bytes, k, x), Ends(bytes);
            if n < 10 - k && n < |bytes| then r.result.Ok? && r.used == n + 1
            else if n < 10 - k then r == VarintRead(Err(EndOfFile), |bytes|)
            else r == VarintRead(Err(Overflow), 10 - k)
    decreases |bytes|
  {
    if k < 10 && bytes != [] && bytes[0] >= 128 {
      DecVarintEnds(bytes[1..], k + 1, x + Place(bytes[0] % 128, k));
    }
  }

  /** What groups of seven bits stand for. */
  function Groups(bytes: seq<byte>): nat {
    if bytes == [] then 0 else bytes[0] % 128 + 128 * Groups(bytes[1..])
  }

  lemma GroupsNext(bytes: seq<byte>, n: nat)
    requires n < |bytes|
    ensures Groups(bytes[..n + 1]) == bytes[0] % 128 + 128 * Groups(bytes[1..][..n])
  {
    assert bytes[..n + 1][1..] == bytes[1..][..n];
  }

  lemma GroupStep(x: nat, p: nat, t: nat, g: nat)
    ensures x + p * (t + 128 * g) == x + t * p + 128 * p * g
  {
    assert p * (128 * g) == 128 * p * g;
  }

  lemma AddMod(x: nat, a: nat, w: nat)
    requires w > 0 && x + a % w < w
    ensures (x + a) % w == x + a % w
  {
    assert x + a == a / w * w + (x + a % w);
    ModUnique(x + a, w, a / w, x + a % w);
  }

  // The first byte in front of what the others stand for.
  lemma GroupFront(bytes: seq<byte>, k: nat, x: nat, n: nat)
    requires bytes != [] && n < |bytes| && k <= 8 && x < Pow(128, k)
    ensures var placed := x + Place(bytes[0] % 128, k);
            x + Pow(128, k) * Groups(bytes[..n + 1]) == placed + Pow(128, k + 1) * Groups(bytes[1..][..n])
  {
    NotCut(bytes[0] % 128, k);
    GroupsNext(bytes, n);
    GroupStep(x, Pow(128, k), bytes[0] % 128, Groups(bytes[1..][..n]));
  }

  /** The value of a read: the groups it used, above what was read before. */
  ghost predicate Reads(bytes: seq<byte>, k: nat, x: nat, r: VarintRead)
    requires r.used <= |bytes|
  {
    r.result.Ok? ==> r.result.value == (x + Pow(128, k) * Groups(bytes[..r.used])) % W64
  }

  lemma PlacedAdds(t: nat, k: nat, x: nat, g: nat)
    requires g == t && x + Place(t, k) < W64
    ensures x + Place(t, k) == (x + Pow(128, k) * g) % W64
  {
    assert Pow(128, k) * g == t * Pow(128, k);
    AddMod(x, t * Pow(128, k), W64);
  }

  lemma PlacedFits(t: nat, k: nat, x: nat)
    requires t < 128 && k <= 9 && x < Pow(128, k)
    ensures x + Place(t, k) < W64 && x + Place(t, k) < Pow(128, k + 1)
  {
    BitsApart(t, k, x);
  }

  lemma OneGroup(bytes: seq<byte>)
    requires bytes != []
    ensures Groups(bytes[..1]) == bytes[0] % 128
  {
    assert bytes[..1][1..] == [];
  }

  lemma LastReads(bytes: seq<byte>, k: nat, x: nat)
    requires bytes != [] && bytes[0] < 128 && k <= 9 && x < Pow(128, k)
    ensures Reads(bytes, k, x, VarintRead(Ok(x + Place(bytes[0] % 128, k)), 1))
  {
    PlacedFits(bytes[0] % 128, k, x);
    OneGroup(bytes);
    PlacedAdds(bytes[0] % 128, k, x, Groups(bytes[..1]));
  }

  lemma NextReads(bytes: seq<byte>, k: nat, x: nat, rest: VarintRead)
    requires bytes != [] && k <= 8 && x < Pow(128, k) && rest.used < |bytes|
    requires Reads(bytes[1..], k + 1, x + Place(bytes[0] % 128, k), rest)
    ensures Reads(bytes, k, x, VarintRead(rest.result, rest.used + 1))
  {
    GroupFront(bytes, k, x, rest.used);
  }

  /** A read that succeeds returns the groups it used, modulo 2^64, above what was read before. */
  lemma {:induction false} DecVarintValue(bytes: seq<byte>, k: nat, x: nat)
    requires k <= 9 && x < Pow(128, k)
    ensures Reads(bytes, k, x, DecVarint(bytes, k, x))
    decreases |bytes|
  {
    if bytes == [] {
    } else if bytes[0] < 128 {
      LastReads(bytes, k, x);
    } else {
      var placed := x + Place(bytes[0] % 128, k);
      var rest := DecVarint(bytes[1..], k + 1, placed);
      DecNext(bytes, k, x);
      if k <= 8 {
        PlacedFits(bytes[0] % 128, k, x);
        DecVarintValue(bytes[1..], k + 1, placed);
        NextReads(bytes, k, x, rest);
      } else {
        assert rest.result.Err?;
      }
    }
  }

  // ----- Zigzag ("Signed Integers" in the Protocol Buffers Encoding guide)

  /** (u << 1) ^ uint(int(u) >> (bits - 1)), in a word of `width` values. */
  function Zig(u: nat, width: nat): nat
    requires u < width
  {
    var doubled := 2 * u % width;
    if 2 * u >= width then width - 1 - doubled else doubled
  }

  /** (x >> 1) ^ uint(-int(x & 1)), in a word of `width` values. */
  function Zag(x: nat, width: nat): nat
    requires width > 0
  {
    var half := x % width / 2;
    if x % 2 == 1 then width - 1 - half else half
  }

  /** Zigzag decoding undoes encoding, at both widths. */
  lemma ZigzagRoundTrip(u: nat, width: nat)
    requires u < width && (width == W32 || width == W64)
    ensures Zig(u, width) < width && Zag(Zig(u, width), width) == u
  {
    if 2 * u >= width {
      assert 2 * u % width == 2 * u - width;
    } else {
    }
  }

  /** The two's complement value of a word. */
  function Signed(u: nat, width: nat): int {
    if 2 * u >= width then u - width else u
  }

  /** Zigzag numbers the signed values 0, -1, 1, -2, 2, ... */
  lemma ZigzagOrder(u: nat, width: nat)
    requires u < width && (width == W32 || width == W64)
    ensures Zig(u, width) == (if Signed(u, width) < 0 then -2 * Signed(u, width) - 1 else 2 * Signed(u, width))
  {
    if 2 * u >= width {
      assert 2 * u % width == 2 * u - width;
    } else {
    }
  }
}
