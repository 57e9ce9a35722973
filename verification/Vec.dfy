/**
  vec() of doop.c: a string as a vector of unsigned integers of 1, 2, 4, ... 64 bits, little-endian
  inside a byte, big-endian across bytes.
 */
module Vec {
  import opened Utf8

  const SIZE_MAX: int := 0xFFFF_FFFF_FFFF_FFFF   // Size_t_MAX
  const SSIZE_MAX: int := 0x7FFF_FFFF_FFFF_FFFF  // SSize_t_MAX

  predicate Legal(size: int) {
    size in {1, 2, 4, 8, 16, 32, 64}
  }

  // ---------------------------------------------------------------------------------------------
  // What an element is
  // ---------------------------------------------------------------------------------------------

  /** The string goes on with zeros past its end. */
  function ByteAt(s: seq<Byte>, i: nat): Byte {
    if i < |s| then s[i] else 0
  }

  function Bytes(s: seq<Byte>, from: nat, n: nat): (b: seq<Byte>)
    ensures |b| == n
    ensures forall i :: 0 <= i < n ==> b[i] == ByteAt(s, from + i)
  {
    seq<Byte>(n, i requires 0 <= i < n => ByteAt(s, from + i))
  }

  /** 2 to the power k */
  function Pow(k: nat): (n: nat)
    ensures n > 0
  {
    if k == 0 then 1 else 2 * Pow(k - 1)
  }

  /** (U8) v */
  function ToByte(v: nat): Byte {
    v % 256
  }

  /** The big-endian value of a run of bytes. */
  function Number(bs: seq<Byte>): nat {
    if bs == [] then 0 else Number(bs[..|bs| - 1]) * 256 + bs[|bs| - 1]
  }

  /** The n low bytes of v, most significant first. */
  function Digits(v: nat, n: nat): (bs: seq<Byte>)
    ensures |bs| == n
  {
    if n == 0 then [] else Digits(v / 256, n - 1) + [ToByte(v)]
  }

  /** (b >> p) & nBIT_MASK(size): `size` bits of b, from bit p up. */
  function Bits(b: nat, p: nat, size: nat): (r: nat) {
    b / Pow(p) % Pow(size)
  }

  /** b & ~(nBIT_MASK(size) << p) */
  function Cleared(b: nat, p: nat, size: nat): nat {
    Split(b, p, size);
    b - Bits(b, p, size) * Pow(p)
  }

  /** b with its `size` bits from p up replaced by the low bits of v; or-ing into cleared bits adds. */
  function WithBits(b: nat, p: nat, size: nat, v: nat): nat {
    Cleared(b, p, size) + v % Pow(size) * Pow(p)
  }

  /** The first byte of element `offset`, the bit it starts at, and how many bytes it touches. */
  function First(offset: nat, size: nat): nat {
    offset * size / 8
  }

  function Start(offset: nat, size: nat): (p: nat)
    ensures p < 8
  {
    offset * size % 8
  }

  function Width(size: nat): nat {
    if size < 8 then 1 else size / 8
  }

  /** vec(s, offset, size) */
  function Elem(s: seq<Byte>, offset: nat, size: nat): nat
    requires Legal(size)
  {
    if size < 8 then Bits(ByteAt(s, First(offset, size)), Start(offset, size), size)
    else Number(Bytes(s, First(offset, size), Width(size)))
  }

  /** The string, extended with zeros to at least n bytes. */
  function Padded(s: seq<Byte>, n: nat): (t: seq<Byte>)
    ensures |t| == if |s| < n then n else |s|
    ensures forall i :: 0 <= i < |t| ==> t[i] == ByteAt(s, i)
  {
    if |s| < n then s + seq(n - |s|, i => 0) else s
  }

  /** vec(s, offset, size) = v */
  function SetElem(s: seq<Byte>, offset: nat, size: nat, v: nat): (t: seq<Byte>)
    requires Legal(size)
  {
    var u, n := First(offset, size), Width(size);
    var p := Padded(s, u + n);
    if size < 8 then
      Place(offset, size);
      StillAByte(p[u], Start(offset, size), size, v);
      p[u := WithBits(p[u], Start(offset, size), size, v)]
    else p[..u] + Digits(v, n) + p[u + n..]
  }

  // ---------------------------------------------------------------------------------------------
  // Quotients, remainders and powers of two
  // ---------------------------------------------------------------------------------------------

  lemma Times(a: nat, b: nat, c: nat)
    ensures a * (b + c) == a * b + a * c && a * (b * c) == a * b * c
  {
  }

  lemma NotNegative(a: nat, b: nat)
    ensures a * b >= 0
  {
  }

  lemma {:induction false} PowAdds(a: nat, b: nat)
    ensures Pow(a + b) == Pow(a) * Pow(b)
  {
    if a > 0 {
      PowAdds(a - 1, b);
      Times(2, Pow(a - 1), Pow(b));
    }
  }

  lemma Pow8()
    ensures Pow(8) == 256
  {
    assert Pow(4) == 16;
  }

  lemma NotMore(d: nat, q: nat, q': nat)
    requires q < q'
    ensures d * q + d <= d * q'
  {
    Times(d, q + 1, q' - q - 1);
    Times(d, q, 1);
  }

  lemma DivideOnce(v: nat, d: nat, q: nat, r: nat)
    requires v == d * q + r && r < d
    ensures v / d == q && v % d == r
  {
    var q' := v / d;
    Euclid(v, d);
    if q' > q {
      NotMore(d, q, q');
    } else if q' < q {
      NotMore(d, q', q);
    }
  }

  lemma Euclid(v: nat, d: nat)
    requires d > 0
    ensures v == d * (v / d) + v % d && v % d < d
  {
  }

  /** Dividing by a and then by b is dividing by a * b, and the remainders combine. */
  lemma DivideTwice(v: nat, a: nat, b: nat, ab: nat)
    requires a > 0 && b > 0 && ab == a * b > 0
    ensures v / a / b == v / ab && v % ab == v / a % b * a + v % a
  {
    var q, r := v / a, v % a;
    var q2, r2 := q / b, q % b;
    Euclid(v, a);
    Euclid(q, b);
    Times(a, b * q2, r2);
    Times(a, b, q2);
    NotMore(a, r2, b);
    DivideOnce(v, ab, q2, a * r2 + r);
  }

  // ---------------------------------------------------------------------------------------------
  // Bits within one number
  // ---------------------------------------------------------------------------------------------

  /** What is above the field, the field, and what is below it. */
  lemma Split(b: nat, p: nat, size: nat)
    ensures b == Pow(p + size) * (b / Pow(p + size)) + Bits(b, p, size) * Pow(p) + b % Pow(p)
    ensures Bits(b, p, size) < Pow(size) && b % Pow(p) < Pow(p)
    ensures b >= Bits(b, p, size) * Pow(p)
  {
    hide Pow;
    PowAdds(p, size);
    DivideTwice(b, Pow(p), Pow(size), Pow(p + size));
    Euclid(b, Pow(p + size));
    Euclid(b, Pow(p));
    Euclid(b / Pow(p), Pow(size));
    NotNegative(Pow(p + size), b / Pow(p + size));
  }

  lemma Compose(b: nat, p: nat, size: nat, hi: nat, f: nat, lo: nat)
    requires b == Pow(p + size) * hi + f * Pow(p) + lo && f < Pow(size) && lo < Pow(p)
    ensures b / Pow(p + size) == hi && Bits(b, p, size) == f && b % Pow(p) == lo
  {
    PowAdds(p, size);
    NotMore(Pow(p), f, Pow(size));
    DivideOnce(b, Pow(p + size), hi, f * Pow(p) + lo);
    Times(Pow(p), Pow(size) * hi, f);
    Times(Pow(p), Pow(size), hi);
    DivideOnce(b, Pow(p), Pow(size) * hi + f, lo);
    DivideOnce(Pow(size) * hi + f, Pow(size), hi, f);
  }

  lemma Replaced(b: nat, p: nat, size: nat, v: nat)
    ensures var w := WithBits(b, p, size, v);
      && w / Pow(p + size) == b / Pow(p + size)
      && Bits(w, p, size) == v % Pow(size)
      && w % Pow(p) == b % Pow(p)
      && w == Pow(p + size) * (b / Pow(p + size)) + v % Pow(size) * Pow(p) + b % Pow(p)
  {
    hide Bits;
    Split(b, p, size);
    Compose(WithBits(b, p, size, v), p, size, b / Pow(p + size), v % Pow(size), b % Pow(p));
  }

  /** A byte stays a byte. */
  lemma StillAByte(b: Byte, p: nat, size: nat, v: nat)
    requires p + size <= 8
    ensures WithBits(b, p, size, v) < 256
  {
    hide WithBits;
    var w, rest := WithBits(b, p, size, v), 8 - (p + size);
    Replaced(b, p, size, v);
    PowAdds(p + size, rest);
    Pow8();
    hide Pow;
    DivideTwice(w, Pow(p + size), Pow(rest), 256);
    DivideTwice(b, Pow(p + size), Pow(rest), 256);
  }

  lemma WithBitsOfBits(b: nat, p: nat, size: nat)
    ensures WithBits(b, p, size, Bits(b, p, size)) == b
  {
    Split(b, p, size);
    DivideOnce(Bits(b, p, size), Pow(size), 0, Bits(b, p, size));
  }

  lemma WithBitsTwice(b: nat, p: nat, size: nat, v: nat, w: nat)
    ensures WithBits(WithBits(b, p, size, v), p, size, w) == WithBits(b, p, size, w)
  {
    hide WithBits;
    Replaced(b, p, size, v);
    Replaced(b, p, size, w);
    Replaced(WithBits(b, p, size, v), p, size, w);
  }

  lemma OtherBits(b: nat, p: nat, size: nat, v: nat, q: nat, size': nat)
    requires p + size <= q || q + size' <= p
    ensures Bits(WithBits(b, p, size, v), q, size') == Bits(b, q, size')
  {
    hide WithBits;
    var w := WithBits(b, p, size, v);
    Replaced(b, p, size, v);
    if p + size <= q {
      SameAbove(b, w, p + size, q);
    } else {
      SameBelow(b, w, q + size', p);
      BitsOfRemainder(b, w, q, size');
    }
  }

  lemma SameAbove(b: nat, w: nat, k: nat, q: nat)
    requires k <= q && b / Pow(k) == w / Pow(k)
    ensures b / Pow(q) == w / Pow(q)
  {
    PowAdds(k, q - k);
    DivideTwice(b, Pow(k), Pow(q - k), Pow(q));
    DivideTwice(w, Pow(k), Pow(q - k), Pow(q));
  }

  lemma SameBelow(b: nat, w: nat, k: nat, p: nat)
    requires k <= p && b % Pow(p) == w % Pow(p)
    ensures b % Pow(k) == w % Pow(k)
  {
    RemainderTwice(b, k, p);
    RemainderTwice(w, k, p);
  }

  lemma RemainderTwice(v: nat, k: nat, p: nat)
    requires k <= p
    ensures v % Pow(p) % Pow(k) == v % Pow(k)
  {
    PowAdds(k, p - k);
    DivideTwice(v, Pow(k), Pow(p - k), Pow(p));
    Euclid(v, Pow(k));
    DivideOnce(v % Pow(p), Pow(k), v / Pow(k) % Pow(p - k), v % Pow(k));
  }

  lemma BitsOfRemainder(b: nat, w: nat, q: nat, size: nat)
    requires b % Pow(q + size) == w % Pow(q + size)
    ensures Bits(b, q, size) == Bits(w, q, size)
  {
    PowAdds(q, size);
    DivideTwice(b, Pow(q), Pow(size), Pow(q + size));
    DivideTwice(w, Pow(q), Pow(size), Pow(q + size));
    Euclid(b, Pow(q));
    Euclid(w, Pow(q));
    DivideOnce(b % Pow(q + size), Pow(q), Bits(b, q, size), b % Pow(q));
    DivideOnce(w % Pow(q + size), Pow(q), Bits(w, q, size), w % Pow(q));
  }

  // ---------------------------------------------------------------------------------------------
  // Bytes of a number
  // ---------------------------------------------------------------------------------------------

  lemma {:induction false} NumberOfDigits(v: nat, n: nat)
    ensures Number(Digits(v, n)) == v % Pow(8 * n)
    decreases n
  {
    hide Pow;
    if n > 0 {
      NumberOfDigits(v / 256, n - 1);
      var bs := Digits(v, n);
      assert bs[..n - 1] == Digits(v / 256, n - 1);
      Pow8();
      PowAdds(8, 8 * (n - 1));
      DivideTwice(v, 256, Pow(8 * (n - 1)), Pow(8 * n));
    } else {
      PowZero();
    }
  }

  lemma PowZero()
    ensures Pow(0) == 1
  {
  }

  lemma {:induction false} DigitsOfNumber(bs: seq<Byte>)
    ensures Digits(Number(bs), |bs|) == bs
  {
    if bs != [] {
      var n := |bs|;
      DigitsOfNumber(bs[..n - 1]);
      DivideOnce(Number(bs), 256, Number(bs[..n - 1]), bs[n - 1]);
      assert bs == bs[..n - 1] + [bs[n - 1]];
    }
  }

  // ---------------------------------------------------------------------------------------------
  // Where elements are
  // ---------------------------------------------------------------------------------------------

  /** `per` elements share a byte. */
  lemma InByte(offset: nat, size: nat, per: nat)
    requires size > 0 && per > 0 && size * per == 8
    ensures offset * size / 8 == offset / per
    ensures offset * size % 8 == offset % per * size && offset % per * size + size <= 8
  {
    var q, r := offset / per, offset % per;
    Euclid(offset, per);
    Times(size, per * q, r);
    Times(size, per, q);
    NotMore(size, r, per);
    DivideOnce(offset * size, 8, q, r * size);
  }

  lemma Place(offset: nat, size: nat)
    requires Legal(size)
    ensures First(offset, size) * 8 + Start(offset, size) == offset * size
    ensures size < 8 ==> Start(offset, size) + size <= 8
    ensures size >= 8 ==>
      First(offset, size) == offset * (size / 8) && Start(offset, size) == 0 && Width(size) * 8 == size
  {
    Euclid(offset * size, 8);
    if size < 8 {
      InByte(offset, size, 8 / size);
    } else {
      Times(offset, size / 8, 8);
      DivideOnce(offset * size, 8, offset * (size / 8), 0);
    }
  }

  /** The byte and the bit as the code finds them. */
  lemma Indices(offset: nat, size: nat)
    requires size in {1, 2, 4, 8}
    ensures offset % 8 * size % 8 == Start(offset, size) && offset / (8 / size) == First(offset, size)
  {
    var per := 8 / size;
    InByte(offset, size, per);
    InByte(offset % 8, size, per);
    RemainderOfByte(offset, per, size);
  }

  lemma RemainderOfByte(offset: nat, per: nat, size: nat)
    requires per > 0 && size * per == 8
    ensures offset % 8 % per == offset % per
  {
    DivideTwice(offset, per, size, 8);
    Euclid(offset, per);
    DivideOnce(offset % 8, per, offset / per % size, offset % per);
  }

  /** Two elements, perhaps of different sizes, share no bit. */
  predicate Disjoint(offset: nat, size: nat, offset': nat, size': nat) {
    offset * size + size <= offset' * size' || offset' * size' + size' <= offset * size
  }

  /** The bytes an assignment leaves alone. */
  lemma OtherBytes(s: seq<Byte>, offset: nat, size: nat, v: nat, i: nat)
    requires Legal(size) && !(First(offset, size) <= i < First(offset, size) + Width(size))
    ensures ByteAt(SetElem(s, offset, size, v), i) == ByteAt(s, i)
  {
    hide Digits;
    hide WithBits;
  }

  // ---------------------------------------------------------------------------------------------
  // Laws
  // ---------------------------------------------------------------------------------------------

  /** Reading back gives what was assigned, modulo 2 to the power size. */
  lemma GetAfterSet(s: seq<Byte>, offset: nat, size: nat, v: nat)
    requires Legal(size)
    ensures Elem(SetElem(s, offset, size, v), offset, size) == v % Pow(size)
  {
    hide First;
    hide Start;
    hide Padded;
    hide Digits;
    hide Number;
    hide WithBits;
    hide Bits;
    hide Pow;
    var u, n := First(offset, size), Width(size);
    var p := Padded(s, u + n);
    Place(offset, size);
    if size < 8 {
      Replaced(p[u], Start(offset, size), size, v);
      assert ByteAt(SetElem(s, offset, size, v), u) == WithBits(p[u], Start(offset, size), size, v);
    } else {
      hide Bytes;
      BytesWritten(p, u, Digits(v, n));
      NumberOfDigits(v, n);
    }
  }

  lemma BytesWritten(p: seq<Byte>, u: nat, d: seq<Byte>)
    requires u + |d| <= |p|
    ensures Bytes(p[..u] + d + p[u + |d|..], u, |d|) == d
  {
  }

  /** An element on other bits, of whatever size, reads as before, also past the old end of the string. */
  lemma OthersKept(s: seq<Byte>, offset: nat, size: nat, v: nat, offset': nat, size': nat)
    requires Legal(size) && Legal(size') && Disjoint(offset, size, offset', size')
    ensures Elem(SetElem(s, offset, size, v), offset', size') == Elem(s, offset', size')
  {
    var t := SetElem(s, offset, size, v);
    var u', n' := First(offset', size'), Width(size');
    hide Digits;
    hide WithBits;
    hide Bits;
    hide Number;
    Place(offset, size);
    Place(offset', size');
    if size < 8 && size' < 8 && First(offset, size) == u' {
      OtherBits(ByteAt(s, u'), Start(offset, size), size, v, Start(offset', size'), size');
    } else {
      hide SetElem;
      hide First;
      forall i | u' <= i < u' + n' ensures ByteAt(t, i) == ByteAt(s, i) {
        OtherBytes(s, offset, size, v, i);
      }
      assert Bytes(t, u', n') == Bytes(s, u', n');
    }
  }

  /** The string never shrinks, and grows no further than the element needs. */
  lemma SetLength(s: seq<Byte>, offset: nat, size: nat, v: nat)
    requires Legal(size)
    ensures var needed := First(offset, size) + Width(size);
      |SetElem(s, offset, size, v)| == if |s| < needed then needed else |s|
  {
  }

  /** Assigning what is there already changes nothing but the length. */
  lemma SetAfterGet(s: seq<Byte>, offset: nat, size: nat)
    requires Legal(size)
    ensures SetElem(s, offset, size, Elem(s, offset, size)) == Padded(s, First(offset, size) + Width(size))
  {
    var u, n := First(offset, size), Width(size);
    var p := Padded(s, u + n);
    Place(offset, size);
    hide First;
    hide Padded;
    hide ToByte;
    if size < 8 {
      hide WithBits;
      hide Bits;
      WithBitsOfBits(ByteAt(s, u), Start(offset, size), size);
      assert p[u := p[u]] == p;
    } else {
      hide Digits;
      hide Number;
      DigitsOfNumber(Bytes(s, u, n));
      Splice(p, u, n);
      assert p[u..u + n] == Bytes(s, u, n);
      hide Bytes;
      hide ByteAt;
    }
  }

  lemma Splice<T>(p: seq<T>, u: nat, n: nat)
    requires u + n <= |p|
    ensures p[..u] + p[u..u + n] + p[u + n..] == p
  {
  }

  /** The last assignment wins. */
  lemma SetTwice(s: seq<Byte>, offset: nat, size: nat, v: nat, w: nat)
    requires Legal(size)
    ensures SetElem(SetElem(s, offset, size, v), offset, size, w) == SetElem(s, offset, size, w)
  {
    hide First;
    hide Start;
    hide Padded;
    hide WithBits;
    hide Digits;
    hide Pow;
    var u, n := First(offset, size), Width(size);
    var p, t := Padded(s, u + n), SetElem(s, offset, size, v);
    Place(offset, size);
    LongEnough(t, u + n);
    if size < 8 {
      WithBitsTwice(p[u], Start(offset, size), size, v, w);
      StillAByte(p[u], Start(offset, size), size, v);
      assert t[u] == WithBits(p[u], Start(offset, size), size, v);
    } else {
      Between(p, u, Digits(v, n));
      assert Padded(t, u + n) == t;
    }
  }

  lemma Between(p: seq<Byte>, u: nat, d: seq<Byte>)
    requires u + |d| <= |p|
    ensures var t := p[..u] + d + p[u + |d|..]; |t| == |p| && t[..u] == p[..u] && t[u + |d|..] == p[u + |d|..]
  {
  }

  // ---------------------------------------------------------------------------------------------
  // The sums and shifts of the code
  // ---------------------------------------------------------------------------------------------

  /** b << k */
  function ShiftedUp(b: Byte, k: nat): nat {
    b * Pow(k)
  }

  function Quotient(v: nat, d: nat): nat
    requires d > 0
  {
    v / d
  }

  /** v >> k */
  function ShiftedDown(v: nat, k: nat): nat {
    Quotient(v, Pow(k))
  }

  /** What the cases of do_vecget's switch for the bytes k, k + 1, ... add up to. */
  function TailSum(bs: seq<Byte>, size: nat, k: nat): nat
    requires size == 8 * |bs|
    decreases |bs| - k
  {
    if k >= |bs| then 0 else TailSum(bs, size, k + 1) + ShiftedUp(bs[k], size - 8 - 8 * k)
  }

  /** A byte that is not there adds nothing. */
  lemma Absent(bs: seq<Byte>, size: nat, k: nat)
    requires size == 8 * |bs| && (k < |bs| ==> bs[k] == 0)
    ensures TailSum(bs, size, k) == TailSum(bs, size, k + 1)
  {
  }

  lemma {:induction false} TailSumIsNumber(bs: seq<Byte>, size: nat, k: nat)
    requires size == 8 * |bs| && k <= |bs|
    ensures Number(bs[..k]) * Pow(size - 8 * k) + TailSum(bs, size, k) == Number(bs)
    decreases |bs| - k
  {
    hide Pow;
    if k == |bs| {
      assert bs[..k] == bs;
      PowZero();
    } else {
      TailSumIsNumber(bs, size, k + 1);
      assert bs[..k + 1][..k] == bs[..k];
      var x, b, c := Number(bs[..k]), bs[k], size - 8 - 8 * k;
      assert Number(bs[..k + 1]) == x * 256 + b;
      Pow8();
      PowAdds(8, c);
      Distribute(x, b, Pow(c));
    }
  }

  lemma TailSums(bs: seq<Byte>, size: nat)
    requires size == 8 * |bs| <= 64
    ensures TailSum(bs, size, 8) == 0 && TailSum(bs, size, 0) == Number(bs)
  {
    hide Pow;
    TailSumIsNumber(bs, size, 0);
    assert bs[..0] == [];
  }

  lemma Distribute(x: nat, b: nat, p: nat)
    ensures (x * 256 + b) * p == x * (256 * p) + b * p
  {
  }

  lemma {:induction false} DigitAt(v: nat, n: nat, i: nat)
    requires i < n
    ensures Digits(v, n)[i] == ToByte(ShiftedDown(v, 8 * (n - 1 - i)))
    decreases n
  {
    hide ToByte;
    if i < n - 1 {
      DigitAt(v / 256, n - 1, i);
      Pow8();
      var k := 8 * (n - 2 - i);
      PowAdds(8, k);
      hide Pow;
      DivideTwice(v, 256, Pow(k), Pow(8 + k));
    } else {
      assert Pow(0) == 1;
    }
  }

  // ---------------------------------------------------------------------------------------------
  // do_vecget and do_vecset
  // ---------------------------------------------------------------------------------------------

  datatype Failure = IllegalSize | OutOfMemory

  datatype Result = Value(v: nat) | Croak(why: Failure)

  datatype Outcome = Done | Failed(why: Failure)

  /** isPOWER_OF_2 */
  predicate IsPowerOf2(n: int) {
    n == 1 || (n > 1 && n % 2 == 0 && IsPowerOf2(n / 2))
  }

  lemma PowersUpTo64(size: int)
    requires size <= 64
    ensures IsPowerOf2(size) <==> Legal(size)
  {
    if 1 < size && size % 2 == 0 {
      PowersUpTo64(size / 2);
    }
  }

  /** From 8 bits up an element is a number of whole bytes. */
  lemma WholeBytes(size: int)
    requires size >= 8 && IsPowerOf2(size)
    ensures size % 8 == 0
  {
    if size >= 16 {
      WholeBytes(size / 2);
    } else {
      assert IsPowerOf2(size / 2) && IsPowerOf2(size / 4) && IsPowerOf2(size / 8);
    }
  }

  /** offset * n would overflow a size_t. */
  predicate Overflows(offset: nat, n: nat)
    requires n > 0
  {
    offset > SIZE_MAX / n - 1
  }

  /** Past the end there are only zeros. */
  lemma ElemPastEnd(s: seq<Byte>, offset: nat, size: nat)
    requires Legal(size) && First(offset, size) >= |s|
    ensures Elem(s, offset, size) == 0
  {
    if size >= 8 {
      ZeroNumber(Bytes(s, First(offset, size), Width(size)));
    } else {
      ZeroBits(Start(offset, size), size);
    }
  }

  lemma ZeroBits(p: nat, size: nat)
    requires size in {1, 2, 4} && p < 8
    ensures Bits(0, p, size) == 0
  {
    DivideOnce(0, Pow(p), 0, 0);
    DivideOnce(0, Pow(size), 0, 0);
  }

  lemma {:induction false} ZeroNumber(bs: seq<Byte>)
    requires forall i :: 0 <= i < |bs| ==> bs[i] == 0
    ensures Number(bs) == 0
  {
    if bs != [] {
      ZeroNumber(bs[..|bs| - 1]);
    }
  }

  lemma OverflowIsPastEnd(offset: nat, n: nat, length: nat)
    requires n in {2, 4, 8} && Overflows(offset, n) && length <= SSIZE_MAX
    ensures offset * n >= length
  {
  }

  class Target {
    var buf: array<Byte>
    var cur: nat

    ghost predicate Valid()
      reads this
    {
      cur < buf.Length <= SSIZE_MAX
    }

    ghost function Contents(): (s: seq<Byte>)
      requires Valid()
      reads this, buf
      ensures |s| == cur
    {
      buf[..cur]
    }

    /** The switch of do_vecget, which adds up the bytes that are there, from the last one. */
    method BigEndian(u: nat, size: nat) returns (retnum: nat)
      requires Valid() && size in {16, 32, 64} && u < cur
      ensures retnum == Number(Bytes(Contents(), u, size / 8))
    {
      hide TailSum;
      hide Number;
      var n := size / 8;
      ghost var bs := Bytes(Contents(), u, n);
      TailSums(bs, size);
      var available := if n <= cur - u then n else cur - u;
      retnum := 0;
      retnum := AddByte(u, size, 7, available, retnum, bs);
      retnum := AddByte(u, size, 6, available, retnum, bs);
      retnum := AddByte(u, size, 5, available, retnum, bs);
      retnum := AddByte(u, size, 4, available, retnum, bs);
      retnum := AddByte(u, size, 3, available, retnum, bs);
      retnum := AddByte(u, size, 2, available, retnum, bs);
      retnum := AddByte(u, size, 1, available, retnum, bs);
      retnum := AddByte(u, size, 0, available, retnum, bs);
    }

    /** Case k + 1 of the switch. */
    method AddByte(u: nat, size: nat, k: nat, available: nat, retnum: nat, ghost bs: seq<Byte>)
      returns (sum: nat)
      requires Valid() && size in {16, 32, 64} && u < cur && bs == Bytes(Contents(), u, size / 8)
      requires available == if size / 8 <= cur - u then size / 8 else cur - u
      requires retnum == TailSum(bs, size, k + 1)
      ensures sum == TailSum(bs, size, k)
    {
      hide ShiftedUp;
      sum := retnum;
      if k < available {
        assert bs[k] == buf[u + k];
        sum := sum + ShiftedUp(buf[u + k], size - 8 - 8 * k);
      } else {
        Absent(bs, size, k);
      }
    }

    /** do_vecget.  The switch has no case for more than eight bytes, and would shift too far with fewer:
        from 128 bits up every element reads as 0, if none or more than eight of its bytes are there. */
    method VecGet(offset: nat, size: int) returns (r: Result)
      requires Valid() && offset <= SIZE_MAX
      requires size in {16, 32, 64} && !Overflows(offset, size / 8) ==> First(offset, size) <= SSIZE_MAX
      requires size > 64 && !Overflows(offset, size / 8) ==>
        offset * (size / 8) <= SSIZE_MAX && !(offset * (size / 8) < cur <= offset * (size / 8) + 8)
      ensures r == if Legal(size) then Value(Elem(Contents(), offset, size))
                   else if size > 64 && IsPowerOf2(size) then Value(0)
                   else Croak(IllegalSize)
    {
      hide Number;
      hide IsPowerOf2;
      if size <= 64 {
        PowersUpTo64(size);
      }
      if size < 1 || !IsPowerOf2(size) {
        return Croak(IllegalSize);
      }
      if size > 64 {
        assert Overflows(offset, size / 8) || offset * (size / 8) >= cur || cur - offset * (size / 8) > 8;
        return Value(0);
      }
      Place(offset, size);
      if size <= 8 {
        Indices(offset, size);
        var bitoffs := offset % 8 * size % 8;
        var uoffset := offset / (8 / size);
        if uoffset >= cur {
          ElemPastEnd(Contents(), offset, size);
          return Value(0);
        }
        if size == 8 {
          OneByteNumber(Bytes(Contents(), uoffset, 1));
          return Value(buf[uoffset]);
        }
        return Value(Bits(buf[uoffset], bitoffs, size));
      } else {
        var n: nat := size / 8;
        if Overflows(offset, n) {
          OverflowIsPastEnd(offset, n, cur);
          ElemPastEnd(Contents(), offset, size);
          return Value(0);
        }
        var uoffset := offset * n;
        if uoffset >= cur {
          ElemPastEnd(Contents(), offset, size);
          return Value(0);
        }
        var retnum := BigEndian(uoffset, size);
        return Value(retnum);
      }
    }

    /** SvGROW and memzero: room for `needed` bytes and a NUL, zeros up to there. */
    method GrowTo(needed: nat)
      requires Valid() && needed > cur && needed + 1 <= SSIZE_MAX
      modifies this, buf
      ensures Valid() && (buf == old(buf) || fresh(buf))
      ensures Contents() == Padded(old(Contents()), needed)
    {
      var newlen := needed + 1;
      var s := buf;
      if s.Length < newlen {
        s := new Byte[newlen];
        forall i | 0 <= i < cur {
          s[i] := buf[i];
        }
      }
      forall i | cur <= i < newlen {
        s[i] := 0;
      }
      buf, cur := s, newlen - 1;
    }

    /** The string grows only if the element's last byte is past its end. */
    method MakeRoom(first: nat, len: nat)
      requires Valid() && first + len + 1 <= SSIZE_MAX
      modifies this, buf
      ensures Valid() && (buf == old(buf) || fresh(buf))
      ensures Contents() == Padded(old(Contents()), first + len)
    {
      hide Padded;
      if cur < first || cur - first < len {
        GrowTo(first + len);
      } else {
        LongEnough(Contents(), first + len);
      }
    }

    /** The switch of do_vecset, which falls through from the widest case. */
    method WriteDigits(u: nat, size: nat, lval: nat)
      requires Valid() && size in {8, 16, 32, 64} && u + size / 8 <= cur
      modifies buf
      ensures Contents() == old(Contents()[..u]) + Digits(lval, size / 8) + old(Contents()[u + size / 8..])
    {
      hide ToByte;
      hide ShiftedDown;
      hide Digits;
      if size == 64 {
        WriteDigit(u, size, 7, lval);
        WriteDigit(u, size, 6, lval);
        WriteDigit(u, size, 5, lval);
        WriteDigit(u, size, 4, lval);
      }
      if size >= 32 {
        WriteDigit(u, size, 3, lval);
        WriteDigit(u, size, 2, lval);
      }
      if size >= 16 {
        WriteDigit(u, size, 1, lval);
      }
      WriteDigit(u, size, 0, lval);
      forall k | 0 <= k < size / 8 ensures buf[u + k] == Digits(lval, size / 8)[k] {
      }
      assert buf[u..u + size / 8] == Digits(lval, size / 8);
    }

    /** s[offset+k] = (U8)(lval >> (size - 8 - 8 * k)) */
    method WriteDigit(u: nat, size: nat, k: nat, lval: nat)
      requires Valid() && size in {8, 16, 32, 64} && k < size / 8 && u + size / 8 <= cur
      modifies buf
      ensures forall i :: 0 <= i < buf.Length ==>
        buf[i] == if i == u + k then Digits(lval, size / 8)[k] else old(buf[i])
    {
      hide ToByte;
      hide ShiftedDown;
      hide Digits;
      DigitAt(lval, size / 8, k);
      buf[u + k] := ToByte(ShiftedDown(lval, size - 8 - 8 * k));
    }

    /** mask, clear, or. */
    method WriteBits(first: nat, bitoffs: nat, size: nat, lval: nat)
      requires Valid() && size in {1, 2, 4} && bitoffs + size <= 8 && first < cur
      modifies buf
      ensures Contents() ==
        old(Contents()[..first]) + [WithBits(old(buf[first]), bitoffs, size, lval)] + old(Contents()[first + 1..])
    {
      hide Pow;
      hide Bits;
      hide Cleared;
      ghost var b := buf[first];
      StillAByte(b, bitoffs, size, lval);
      buf[first] := Cleared(buf[first], bitoffs, size);
      buf[first] := buf[first] + lval % Pow(size) * Pow(bitoffs);
    }

    /** What is left of do_vecset above 64 bits. */
    method GrowForNothing(offset: nat, size: nat)
      requires Valid() && size > 64 && size % 8 == 0 && First(offset, size) + Width(size) + 1 <= SSIZE_MAX
      modifies this, buf
      ensures Valid() && (buf == old(buf) || fresh(buf))
      ensures Contents() == Padded(old(Contents()), First(offset, size) + Width(size))
    {
      hide Padded;
      var n := size / 8;
      Times(offset, n, 8);
      DivideOnce(offset * size, 8, offset * n, 0);
      var len := (0 + size + 7) / 8;
      MakeRoom(offset * n, len);
    }

    /** do_vecset.  The switch has no case above 64 bits either: the string grows and nothing is stored. */
    method VecSet(offset: nat, size: int, lval: nat) returns (r: Outcome)
      requires Valid() && offset <= SIZE_MAX
      requires (Legal(size) || (size > 64 && IsPowerOf2(size))) && !(size > 8 && Overflows(offset, size / 8)) ==>
        First(offset, size) + Width(size) + 1 <= SSIZE_MAX
      modifies this, buf
      ensures Valid() && (buf == old(buf) || fresh(buf))
      ensures r == if !(Legal(size) || (size > 64 && IsPowerOf2(size))) then Failed(IllegalSize)
                   else if size > 8 && Overflows(offset, size / 8) then Failed(OutOfMemory)
                   else Done
      ensures Contents() == if r.Failed? then old(Contents())
                            else if Legal(size) then SetElem(old(Contents()), offset, size, lval)
                            else Padded(old(Contents()), First(offset, size) + Width(size))
    {
      hide Digits;
      hide Overflows;
      hide WithBits;
      hide Pow;
      hide First;
      hide Start;
      hide IsPowerOf2;
      hide Padded;
      hide SetElem;
      ghost var before := Contents();
      if size <= 64 {
        PowersUpTo64(size);
      }
      if size < 1 || !IsPowerOf2(size) {
        return Failed(IllegalSize);
      }
      if size > 8 && Overflows(offset, size / 8) {
        return Failed(OutOfMemory);
      }
      if size > 64 {
        WholeBytes(size);
        GrowForNothing(offset, size);
        return Done;
      }
      var first, bitoffs := Locate(offset, size);
      var len := (bitoffs + size + 7) / 8;
      MakeRoom(first, len);
      if size < 8 {
        WriteBits(first, bitoffs, size, lval);
        IsSetElem(before, offset, size, lval, Contents());
      } else {
        WriteDigits(first, size, lval);
        IsSetElem(before, offset, size, lval, Contents());
      }
      r := Done;
    }
  }

  /** The byte an element starts in and, below eight bits, the bit. */
  method Locate(offset: nat, size: nat) returns (first: nat, bitoffs: nat)
    requires Legal(size)
    ensures first == First(offset, size) && bitoffs == Start(offset, size)
    ensures (bitoffs + size + 7) / 8 == Width(size) && (size < 8 ==> bitoffs + size <= 8)
  {
    Place(offset, size);
    first, bitoffs := offset, 0;
    if size < 8 {
      Indices(offset, size);
      bitoffs := offset % 8 * size % 8;
      first := offset / (8 / size);
    } else if size > 8 {
      first := offset * (size / 8);
    }
  }

  lemma IsSetElem(s: seq<Byte>, offset: nat, size: nat, v: nat, t: seq<Byte>)
    requires Legal(size)
    requires var u, n := First(offset, size), Width(size);
      var p := Padded(s, u + n);
      t == p[..u] + (if size < 8 then [WithBits(p[u], Start(offset, size), size, v)] else Digits(v, n)) + p[u + n..]
    ensures t == SetElem(s, offset, size, v)
  {
    hide First;
    hide Start;
    hide Padded;
    hide WithBits;
    hide Digits;
  }

  lemma LongEnough(s: seq<Byte>, n: nat)
    requires n <= |s|
    ensures Padded(s, n) == s
  {
  }

  lemma OneByteNumber(bs: seq<Byte>)
    requires |bs| == 1
    ensures Number(bs) == bs[0]
  {
    assert Number(bs[..0]) == 0;
  }
}
