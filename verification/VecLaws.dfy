/**
  How the elements of one string read at different sizes: bytes are bytes, wider elements are their
  halves with the first one high, and narrower ones the halves of wider ones with the first one low.
 */
module VecLaws {
  import opened Utf8
  import opened Vec

  /** vec(s, i, 8) is byte i, and past the end 0. */
  lemma BytesAreBytes(s: seq<Byte>, i: nat)
    ensures Elem(s, i, 8) == if i < |s| then s[i] else 0
  {
    var b := Bytes(s, i, 1);
    assert First(i, 8) == i && Width(8) == 1;
    OneByteNumber(b);
  }

  lemma {:induction false} NumberConcat(a: seq<Byte>, b: seq<Byte>)
    ensures Number(a + b) == Number(a) * Pow(8 * |b|) + Number(b)
  {
    if b == [] {
      assert a + b == a;
    } else {
      var n := |b| - 1;
      assert (a + b)[..|a + b| - 1] == a + b[..n];
      NumberConcat(a, b[..n]);
      Pow8();
      PowAdds(8, 8 * n);
      hide Pow;
      OneByteMore(Number(a), Pow(8 * n), Number(b[..n]), b[n]);
    }
  }

  lemma OneByteMore(x: nat, p: nat, y: nat, b: nat)
    ensures (x * p + y) * 256 + b == x * (256 * p) + (y * 256 + b)
  {
  }

  lemma NumberHalves(s: seq<Byte>, u: nat, n: nat)
    ensures Number(Bytes(s, u, 2 * n)) == Number(Bytes(s, u, n)) * Pow(8 * n) + Number(Bytes(s, u + n, n))
  {
    hide Pow;
    hide Number;
    assert Bytes(s, u, 2 * n) == Bytes(s, u, n) + Bytes(s, u + n, n);
    NumberConcat(Bytes(s, u, n), Bytes(s, u + n, n));
  }

  /** Big-endian across bytes: an element of two, four or eight bytes is its halves, the first one high. */
  lemma WideIsItsHalves(s: seq<Byte>, i: nat, size: nat)
    requires size in {8, 16, 32}
    ensures Elem(s, i, 2 * size) == Elem(s, 2 * i, size) * Pow(size) + Elem(s, 2 * i + 1, size)
  {
    hide Pow;
    hide Number;
    hide Bytes;
    WhereHalvesAre(i, size);
    hide First;
    NumberHalves(s, First(2 * i, size), size / 8);
    assert 8 * (size / 8) == size && Width(size) == size / 8 && Width(2 * size) == 2 * (size / 8);
    hide Width;
  }

  lemma WhereHalvesAre(i: nat, size: nat)
    requires size in {8, 16, 32}
    ensures First(i, 2 * size) == First(2 * i, size) && First(2 * i + 1, size) == First(2 * i, size) + size / 8
  {
  }

  lemma BitHalves(b: nat, p: nat, size: nat)
    ensures Bits(b, p, 2 * size) == Bits(b, p + size, size) * Pow(size) + Bits(b, p, size)
  {
    hide Pow;
    PowAdds(p, size);
    PowAdds(size, size);
    DivideTwice(b, Pow(p), Pow(size), Pow(p + size));
    DivideTwice(b / Pow(p), Pow(size), Pow(size), Pow(2 * size));
  }

  lemma WhereBitsAre(i: nat, size: nat)
    requires size in {1, 2, 4}
    ensures First(2 * i, size) == First(2 * i + 1, size) == First(i, 2 * size)
    ensures Start(2 * i + 1, size) == Start(2 * i, size) + size && Start(2 * i, size) == Start(i, 2 * size)
    ensures size == 4 ==> Start(i, 8) == 0
  {
    if size == 1 {
      PlaceOfHalves(i, 1);
    } else if size == 2 {
      PlaceOfHalves(i, 2);
    } else {
      PlaceOfHalves(i, 4);
    }
  }

  lemma PlaceOfHalves(i: nat, size: nat)
    requires size in {1, 2, 4}
    ensures 2 * i * size == i * (2 * size) && (2 * i + 1) * size == i * (2 * size) + size
    ensures i * (2 * size) % 8 + size < 8
    ensures size == 4 ==> i * 8 % 8 == 0
    ensures (i * (2 * size) + size) / 8 == i * (2 * size) / 8
    ensures (i * (2 * size) + size) % 8 == i * (2 * size) % 8 + size
  {
    var m := i * (2 * size);
    match size
    case 1 => assert m == 2 * i;
    case 2 => assert m == 4 * i;
    case 4 => assert m == 8 * i;
  }

  /** Little-endian inside a byte: an element of two, four or eight bits is its halves, the first one low. */
  lemma NarrowAreHalves(s: seq<Byte>, i: nat, size: nat)
    requires size in {1, 2, 4}
    ensures Elem(s, i, 2 * size) == Elem(s, 2 * i + 1, size) * Pow(size) + Elem(s, 2 * i, size)
  {
    var b, p := ByteAt(s, First(i, 2 * size)), Start(i, 2 * size);
    WhereBitsAre(i, size);
    BitHalves(b, p, size);
    if size == 4 {
      WholeByte(b);
      OneByteNumber(Bytes(s, First(i, 8), 1));
    }
    hide Bits;
    hide Pow;
    hide First;
    hide Start;
    hide Number;
  }

  lemma WholeByte(b: Byte)
    ensures Bits(b, 0, 8) == b
  {
    Pow8();
    assert Pow(0) == 1;
  }

  /** Every element is below 2 to the power of its size, so that halves are unique. */
  lemma ElemInRange(s: seq<Byte>, i: nat, size: nat)
    requires Legal(size)
    ensures Elem(s, i, size) < Pow(size)
  {
    hide Pow;
    hide Number;
    hide Bits;
    hide First;
    hide Start;
    hide Bytes;
    if size < 8 {
      Split(ByteAt(s, First(i, size)), Start(i, size), size);
    } else {
      BytesInRange(Bytes(s, First(i, size), Width(size)));
      assert 8 * Width(size) == size;
    }
  }

  lemma {:induction false} BytesInRange(bs: seq<Byte>)
    ensures Number(bs) < Pow(8 * |bs|)
  {
    if bs != [] {
      var n := |bs| - 1;
      BytesInRange(bs[..n]);
      Pow8();
      PowAdds(8, 8 * n);
      hide Pow;
    }
  }
}
