/** The growable byte buffer: one array, a read position and a write position, all updated in place. */
module BytesBuffers {
  import opened ByteCodec
  import BufferGrowth

  class BytesBuffer {
    var buf: array<byte>
    var rpos: nat
    var wpos: nat
    const order: Order
    ghost var copied: nat   // bytes copied, and arrays allocated, by grow since creation or the last Reset
    ghost var growths: nat

    ghost predicate Valid()
      reads this
    {
      && rpos <= buf.Length
      && wpos <= buf.Length
      && copied <= buf.Length
      && copied <= 2 * wpos
    }

    ghost function Size(): BufferGrowth.Size
      reads this
    {
      BufferGrowth.Size(buf.Length, wpos, copied, growths)
    }

    /** Bytes(): what was written. */
    ghost function Contents(): seq<byte>
      reads this, buf
      requires Valid()
    {
      buf[..wpos]
    }

    /** What a read can see: the whole array from rpos, also beyond wpos. */
    ghost function Ahead(): seq<byte>
      reads this, buf
      requires Valid()
    {
      buf[rpos..]
    }

    constructor (size: nat, order: Order)
      ensures Valid() && fresh(buf) && Size() == BufferGrowth.Empty(size)
      ensures Contents() == [] && rpos == 0 && this.order == order
    {
      buf := new byte[size](_ => 0);
      rpos, wpos, copied, growths := 0, 0, 0, 0;
      this.order := order;
    }

    constructor FromData(data: array<byte>, order: Order)
      ensures Valid() && buf == data
      ensures Contents() == data[..] && rpos == 0 && this.order == order
    {
      buf := data;
      rpos, wpos, copied, growths := 0, data.Length, 0, 0;
      this.order := order;
    }

    method Reset()
      requires Valid()
      modifies this
      ensures Valid() && buf == old(buf) && Contents() == [] && rpos == 0 && Size() == BufferGrowth.Empty(buf.Length)
    {
      rpos, wpos, copied, growths := 0, 0, 0, 0;
    }

    /** Growth doubles, adds n, and keeps exactly the written bytes. */
    method Grow(n: nat)
      requires Valid()
      modifies this`buf, this`copied, this`growths
      ensures fresh(buf) && buf.Length == 2 * old(buf.Length) + n
      ensures wpos <= old(buf.Length) && buf[..wpos] == old(buf[..wpos])
      ensures copied == old(copied) + wpos && growths == old(growths) + 1
    {
      var bigger := new byte[2 * buf.Length + n](_ => 0);
      forall i | 0 <= i < wpos {
        bigger[i] := buf[i];
      }
      buf := bigger;
      copied, growths := copied + wpos, growths + 1;
    }

    method WriteByte(c: byte)
      requires Valid()
      modifies this, buf
      ensures Valid() && (buf == old(buf) || fresh(buf))
      ensures Contents() == old(Contents()) + [c] && rpos == old(rpos)
      ensures Size() == BufferGrowth.Write(old(Size()), 1)
    {
      if buf.Length < wpos + 1 {
        Grow(1);
      }
      buf[wpos] := c;
      wpos := wpos + 1;
    }

    /** Write, WriteString and the fixed-width writers: make room if needed, copy, advance. */
    method Write(bytes: seq<byte>)
      requires Valid()
      modifies this, buf
      ensures Valid() && (buf == old(buf) || fresh(buf))
      ensures Contents() == old(Contents()) + bytes && rpos == old(rpos)
      ensures Size() == BufferGrowth.Write(old(Size()), |bytes|)
    {
      if buf.Length < wpos + |bytes| {
        Grow(|bytes|);
      }
      forall i | 0 <= i < |bytes| {
        buf[wpos + i] := bytes[i];
      }
      wpos := wpos + |bytes|;
    }

    method WriteUint16(u: nat)
      requires Valid() && u < W16
      modifies this, buf
      ensures Valid() && (buf == old(buf) || fresh(buf))
      ensures Contents() == old(Contents()) + EncFixed(order, u, 2) && rpos == old(rpos)
      ensures Size() == BufferGrowth.Write(old(Size()), 2)
    {
      Write(EncFixed(order, u, 2));
    }

    method WriteUint32(u: nat)
      requires Valid() && u < W32
      modifies this, buf
      ensures Valid() && (buf == old(buf) || fresh(buf))
      ensures Contents() == old(Contents()) + EncFixed(order, u, 4) && rpos == old(rpos)
      ensures Size() == BufferGrowth.Write(old(Size()), 4)
    {
      Write(EncFixed(order, u, 4));
    }

    method WriteUint64(u: nat)
      requires Valid() && u < W64
      modifies this, buf
      ensures Valid() && (buf == old(buf) || fresh(buf))
      ensures Contents() == old(Contents()) + EncFixed(order, u, 8) && rpos == old(rpos)
      ensures Size() == BufferGrowth.Write(old(Size()), 8)
    {
      Write(EncFixed(order, u, 8));
    }

    method WriteVarint(value: nat) returns (l: nat)
      requires Valid() && value < W64
      modifies this, buf
      ensures Valid() && (buf == old(buf) || fresh(buf))
      ensures Contents() == old(Contents()) + EncVarint(value) && rpos == old(rpos)
      ensures l == |EncVarint(value)| && Size() == BufferGrowth.WriteAll(old(Size()), BufferGrowth.Ones(l))
    {
      l := 0;
      var u := value;
      ghost var whole, length, size := Contents() + EncVarint(value), |EncVarint(value)|, Size();
      while u >= 128
        invariant Valid() && (buf == old(buf) || fresh(buf)) && rpos == old(rpos)
        invariant Contents() + EncVarint(u) == whole && l + |EncVarint(u)| == length
        invariant Size() == BufferGrowth.WriteAll(size, BufferGrowth.Ones(l))
      {
        BufferGrowth.OneMore(size, l);
        WriteLow(u);
        u, l := u / 128, l + 1;
      }
      BufferGrowth.OneMore(size, l);
      assert EncVarint(u) == [u];
      WriteByte(u);
      l := l + 1;
    }

    /** The low seven bits of a number with more to come. */
    method WriteLow(u: nat)
      requires Valid() && u >= 128
      modifies this, buf
      ensures Valid() && (buf == old(buf) || fresh(buf)) && rpos == old(rpos)
      ensures Contents() + EncVarint(u / 128) == old(Contents()) + EncVarint(u)
      ensures |EncVarint(u)| == 1 + |EncVarint(u / 128)| && Size() == BufferGrowth.Write(old(Size()), 1)
    {
      ghost var before := Contents();
      WriteByte(u % 128 + 128);
      assert before + EncVarint(u) == Contents() + EncVarint(u / 128);
    }

    method WriteZigzag32(u: nat) returns (l: nat)
      requires Valid() && u < W32
      modifies this, buf
      ensures Valid() && (buf == old(buf) || fresh(buf))
      ensures Contents() == old(Contents()) + EncVarint(Zig(u, W32)) && rpos == old(rpos)
      ensures l == |EncVarint(Zig(u, W32))| && Size() == BufferGrowth.WriteAll(old(Size()), BufferGrowth.Ones(l))
    {
      ZigzagRoundTrip(u, W32);
      l := WriteVarint(Zig(u, W32));
    }

    method WriteZigzag64(u: nat) returns (l: nat)
      requires Valid() && u < W64
      modifies this, buf
      ensures Valid() && (buf == old(buf) || fresh(buf))
      ensures Contents() == old(Contents()) + EncVarint(Zig(u, W64)) && rpos == old(rpos)
      ensures l == |EncVarint(Zig(u, W64))| && Size() == BufferGrowth.WriteAll(old(Size()), BufferGrowth.Ones(l))
    {
      ZigzagRoundTrip(u, W64);
      l := WriteVarint(Zig(u, W64));
    }

    /** ReadUint16, ReadUint32 and ReadUint64: they fail, and move nothing, unless n written bytes remain. */
    method ReadFixed(n: nat) returns (r: Result<nat>)
      requires Valid()
      modifies this`rpos
      ensures Valid()
      ensures r == if wpos - old(rpos) < n then Err(NotEnough) else Ok(DecFixed(order, old(Contents()[rpos..rpos + n])))
      ensures rpos == if r.Ok? then old(rpos) + n else old(rpos)
    {
      if wpos - rpos < n { return Err(NotEnough); }
      assert buf[rpos..rpos + n] == Contents()[rpos..rpos + n];
      r := Ok(DecFixed(order, buf[rpos..rpos + n]));
      rpos := rpos + n;
    }

    /** ReadByte tests the array length, not wpos: it succeeds exactly when rpos is inside the array. */
    method ReadByte() returns (r: Result<byte>)
      requires Valid()
      modifies this`rpos
      ensures Valid()
      ensures r == if old(rpos) < buf.Length then Ok(buf[old(rpos)]) else Err(EndOfFile)
      ensures rpos == if r.Ok? then old(rpos) + 1 else old(rpos)
    {
      if rpos >= buf.Length { return Err(EndOfFile); }
      r := Ok(buf[rpos]);
      rpos := rpos + 1;
    }

    /** x |= t << 7k */
    static method OrPlaced(x: nat, t: nat, k: nat) returns (y: nat)
      requires t < 128 && k <= 9 && x < Pow(128, k)
      ensures y == x + Place(t, k) && y < Pow(128, k + 1)
    {
      BitsApart(t, k, x);
      y := Or(x, Place(t, k));
    }

    /** Reads one byte of a varint of which k were read, and places it. */
    method ReadPlaced(x: nat, k: nat) returns (temp: Result<byte>, y: nat)
      requires Valid() && k <= 9 && x < Pow(128, k)
      modifies this`rpos
      ensures Valid() && rpos == if temp.Ok? then old(rpos) + 1 else old(rpos)
      ensures temp.Err? ==> DecVarint(old(Ahead()), k, x) == VarintRead(Err(temp.error), 0)
      ensures temp.Ok? ==> y < Pow(128, k + 1)
      ensures temp.Ok? ==> var rest := DecVarint(Ahead(), k + 1, y);
                           DecVarint(old(Ahead()), k, x)
                           == if temp.value < 128 then VarintRead(Ok(y), 1) else VarintRead(rest.result, rest.used + 1)
    {
      ghost var ahead := Ahead();
      y := 0;
      temp := ReadByte();
      if temp.Ok? {
        assert ahead[0] == temp.value && ahead[1..] == Ahead();
        DecNext(ahead, k, x);
        y := OrPlaced(x, temp.value % 128, k);
      }
    }

    method ReadVarint() returns (r: Result<nat>)
      requires Valid()
      modifies this`rpos
      ensures Valid()
      ensures var read := DecVarint(old(Ahead()), 0, 0);
              r == read.result && rpos == old(rpos) + read.used
    {
      var x: nat, offset: nat := 0, 0;
      ghost var k: nat := 0;
      while offset < 64
        invariant Valid() && offset == 7 * k && rpos == old(rpos) + k
        invariant k <= 10 && x < Pow(128, k)
        invariant var whole, rest := DecVarint(old(Ahead()), 0, 0), DecVarint(Ahead(), k, x);
                  whole == VarintRead(rest.result, k + rest.used)
        decreases 64 - offset
      {
        var temp;
        temp, x := ReadPlaced(x, offset / 7);
        if temp.Err? { return Err(temp.error); }
        if temp.value < 128 { return Ok(x); }
        offset := offset + 7;
        k := k + 1;
      }
      r := Err(Overflow);
    }

    method ReadZigzag32() returns (r: Result<nat>)
      requires Valid()
      modifies this`rpos
      ensures Valid()
      ensures var read := DecVarint(old(Ahead()), 0, 0);
              && r == (if read.result.Ok? then Ok(Zag(read.result.value, W32)) else read.result)
              && rpos == old(rpos) + read.used
    {
      r := ReadVarint();
      if r.Ok? { r := Ok(Zag(r.value, W32)); }
    }

    method ReadZigzag64() returns (r: Result<nat>)
      requires Valid()
      modifies this`rpos
      ensures Valid()
      ensures var read := DecVarint(old(Ahead()), 0, 0);
              && r == (if read.result.Ok? then Ok(Zag(read.result.value, W64)) else read.result)
              && rpos == old(rpos) + read.used
    {
      r := ReadVarint();
      if r.Ok? { r := Ok(Zag(r.value, W64)); }
    }
  }

  // ----- Typed streams

  datatype Item =
    | Uint16(u: nat)
    | Uint32(u: nat)
    | Uint64(u: nat)
    | Varint(u: nat)
    | Zigzag32(u: nat)
    | Zigzag64(u: nat)
  {
    predicate InRange() {
      u < (if Uint16? then W16 else if Uint32? || Zigzag32? then W32 else W64)
    }

    function Encode(order: Order): seq<byte>
      requires InRange()
    {
      match this
      case Uint16(u) => EncFixed(order, u, 2)
      case Uint32(u) => EncFixed(order, u, 4)
      case Uint64(u) => EncFixed(order, u, 8)
      case Varint(u) => EncVarint(u)
      case Zigzag32(u) => EncVarint(Zig(u, W32))
      case Zigzag64(u) => EncVarint(Zig(u, W64))
    }

    /** The lengths of the single writes: varints go byte by byte. */
    function Writes(): seq<nat>
      requires InRange()
    {
      match this
      case Uint16(u) => [2]
      case Uint32(u) => [4]
      case Uint64(u) => [8]
      case Varint(u) => BufferGrowth.Ones(|EncVarint(u)|)
      case Zigzag32(u) => BufferGrowth.Ones(|EncVarint(Zig(u, W32))|)
      case Zigzag64(u) => BufferGrowth.Ones(|EncVarint(Zig(u, W64))|)
    }
  }

  function AllWrites(items: seq<Item>): seq<nat>
    requires forall i :: 0 <= i < |items| ==> items[i].InRange()
  {
    if items == [] then [] else AllWrites(items[..|items| - 1]) + items[|items| - 1].Writes()
  }

  function EncodeAll(order: Order, items: seq<Item>): seq<byte>
    requires forall i :: 0 <= i < |items| ==> items[i].InRange()
  {
    if items == [] then [] else items[0].Encode(order) + EncodeAll(order, items[1..])
  }

  /** Writes an item with the writer of its type. */
  method WriteItem(b: BytesBuffer, item: Item)
    requires b.Valid() && item.InRange()
    modifies b, b.buf
    ensures b.Valid() && (b.buf == old(b.buf) || fresh(b.buf))
    ensures b.Contents() == old(b.Contents()) + item.Encode(b.order) && b.rpos == old(b.rpos)
    ensures b.Size() == BufferGrowth.WriteAll(old(b.Size()), item.Writes())
  {
    BufferGrowth.WriteOne(b.Size());
    var l: nat;
    match item
    case Uint16(u) => b.WriteUint16(u);
    case Uint32(u) => b.WriteUint32(u);
    case Uint64(u) => b.WriteUint64(u);
    case Varint(u) => l := b.WriteVarint(u);
    case Zigzag32(u) => l := b.WriteZigzag32(u);
    case Zigzag64(u) => l := b.WriteZigzag64(u);
  }

  /** Reads with the reader of the type of `item`, which the method otherwise ignores. What comes back,
      when the item's bytes are ahead and within the written part, is the item's value. */
  method ReadBack(b: BytesBuffer, item: Item) returns (r: Result<nat>)
    requires b.Valid() && item.InRange()
    requires b.rpos <= b.wpos && item.Encode(b.order) <= b.Contents()[b.rpos..]
    modifies b`rpos
    ensures b.Valid() && b.rpos == old(b.rpos) + |item.Encode(b.order)|
    ensures r == Ok(item.u)
  {
    ghost var code, n := item.Encode(b.order), |item.Encode(b.order)|;
    assert b.Contents()[b.rpos..b.rpos + n] == b.Contents()[b.rpos..][..n] == code;
    assert b.Ahead() == code + b.buf[b.rpos + n..];
    Widths();
    ghost var after := b.buf[b.rpos + n..];
    match item
    case Uint16(u) => DecEncFixed(b.order, u, 2); r := b.ReadFixed(2);
    case Uint32(u) => DecEncFixed(b.order, u, 4); r := b.ReadFixed(4);
    case Uint64(u) => DecEncFixed(b.order, u, 8); r := b.ReadFixed(8);
    case Varint(u) => VarintRoundTrip(u, after); r := b.ReadVarint();
    case Zigzag32(u) => ZigzagRoundTrip(u, W32); VarintRoundTrip(Zig(u, W32), after); r := b.ReadZigzag32();
    case Zigzag64(u) => ZigzagRoundTrip(u, W64); VarintRoundTrip(Zig(u, W64), after); r := b.ReadZigzag64();
  }

  lemma EncodeNext(order: Order, items: seq<Item>, i: nat, done: seq<byte>)
    requires i < |items| && forall j :: 0 <= j < |items| ==> items[j].InRange()
    ensures done + EncodeAll(order, items[i..]) == (done + items[i].Encode(order)) + EncodeAll(order, items[i + 1..])
  {
    assert items[i..][0] == items[i] && items[i..][1..] == items[i + 1..];
  }

  method WriteItems(b: BytesBuffer, items: seq<Item>)
    requires b.Valid() && forall i :: 0 <= i < |items| ==> items[i].InRange()
    modifies b, b.buf
    ensures b.Valid() && (b.buf == old(b.buf) || fresh(b.buf)) && b.rpos == old(b.rpos)
    ensures b.Contents() == old(b.Contents()) + EncodeAll(b.order, items)
    ensures b.Size() == BufferGrowth.WriteAll(old(b.Size()), AllWrites(items))
  {
    assert items[..0] == [] && items[0..] == items;
    for i := 0 to |items|
      invariant b.Valid() && (b.buf == old(b.buf) || fresh(b.buf)) && b.rpos == old(b.rpos)
      invariant b.Contents() + EncodeAll(b.order, items[i..]) == old(b.Contents()) + EncodeAll(b.order, items)
      invariant b.Size() == BufferGrowth.WriteAll(old(b.Size()), AllWrites(items[..i]))
    {
      WriteNext(b, items, i);
      assert items[..i + 1][..i] == items[..i];
      BufferGrowth.WriteAllJoin(old(b.Size()), AllWrites(items[..i]), items[i].Writes());
    }
    assert items[|items|..] == [] && items[..|items|] == items;
  }

  method WriteNext(b: BytesBuffer, items: seq<Item>, i: nat)
    requires b.Valid() && i < |items| && forall j :: 0 <= j < |items| ==> items[j].InRange()
    modifies b, b.buf
    ensures b.Valid() && (b.buf == old(b.buf) || fresh(b.buf)) && b.rpos == old(b.rpos)
    ensures b.Contents() + EncodeAll(b.order, items[i + 1..]) == old(b.Contents()) + EncodeAll(b.order, items[i..])
    ensures b.Size() == BufferGrowth.WriteAll(old(b.Size()), items[i].Writes())
  {
    EncodeNext(b.order, items, i, b.Contents());
    WriteItem(b, items[i]);
  }

  /** What GrowthCost says of any run of writes holds of a new buffer that any typed stream is written to. */
  method WriteFresh(size: nat, order: Order, items: seq<Item>) returns (b: BytesBuffer)
    requires forall i :: 0 <= i < |items| ==> items[i].InRange()
    ensures fresh(b) && b.Valid() && b.Contents() == EncodeAll(order, items) && BufferGrowth.Frugal(b.Size(), size)
  {
    b := new BytesBuffer(size, order);
    WriteItems(b, items);
    assert [] + EncodeAll(order, items) == EncodeAll(order, items);
    BufferGrowth.GrowthCost(size, AllWrites(items));
  }

  // Reads item number i, when the bytes ahead are those of the items from it on.
  method ReadNext(b: BytesBuffer, items: seq<Item>, i: nat) returns (r: Result<nat>)
    requires b.Valid() && forall j :: 0 <= j < |items| ==> items[j].InRange()
    requires i < |items| && b.rpos <= b.wpos && b.Contents()[b.rpos..] == EncodeAll(b.order, items[i..])
    modifies b`rpos
    ensures b.Valid() && b.rpos <= b.wpos && b.Contents()[b.rpos..] == EncodeAll(b.order, items[i + 1..])
    ensures r == Ok(items[i].u)
  {
    ghost var ahead, code := b.Contents()[b.rpos..], items[i].Encode(b.order);
    EncodeNext(b.order, items, i, []);
    assert ahead == code + EncodeAll(b.order, items[i + 1..]);
    r := ReadBack(b, items[i]);
    assert b.Contents()[b.rpos..] == ahead[|code|..];
  }

  method ReadItems(b: BytesBuffer, items: seq<Item>) returns (values: seq<Result<nat>>)
    requires b.Valid() && forall i :: 0 <= i < |items| ==> items[i].InRange()
    requires b.rpos <= b.wpos && b.Contents()[b.rpos..] == EncodeAll(b.order, items)
    modifies b`rpos
    ensures b.Valid() && b.rpos == b.wpos
    ensures |values| == |items| && forall i :: 0 <= i < |items| ==> values[i] == Ok(items[i].u)
  {
    values := [];
    assert items[0..] == items;
    for i := 0 to |items|
      invariant b.Valid() && b.rpos <= b.wpos
      invariant b.Contents()[b.rpos..] == EncodeAll(b.order, items[i..])
      invariant |values| == i && forall j :: 0 <= j < i ==> values[j] == Ok(items[j].u)
    {
      var r := ReadNext(b, items, i);
      values := values + [r];
    }
    assert items[|items|..] == [] && |b.Contents()[b.rpos..]| == 0;
  }

  /** Any sequence of typed writes, across any number of growths, is read back value for value by the
      matching reads, and the reads end where the writes ended. */
  method RoundTrip(b: BytesBuffer, items: seq<Item>) returns (values: seq<Result<nat>>)
    requires b.Valid() && b.rpos == b.wpos
    requires forall i :: 0 <= i < |items| ==> items[i].InRange()
    modifies b, b.buf
    ensures b.Valid() && b.rpos == b.wpos
    ensures |values| == |items| && forall i :: 0 <= i < |items| ==> values[i] == Ok(items[i].u)
  {
    ghost var start := b.Contents();
    WriteItems(b, items);
    assert b.Contents()[|start|..] == EncodeAll(b.order, items);
    values := ReadItems(b, items);
  }
}
