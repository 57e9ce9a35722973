/** The bitwise string operators of doop.c: four longs at a time, then the remainder, then the tail. */
module Vop {

  datatype OpType = And | Or | Xor

  function Apply8(op: OpType, x: bv8, y: bv8): bv8 {
    match op
    case And => x & y
    case Or => x | y
    case Xor => x ^ y
  }

  function Apply64(op: OpType, x: bv64, y: bv64): bv64 {
    match op
    case And => x & y
    case Or => x | y
    case Xor => x ^ y
  }

  /** A string goes on with zeros past its end. */
  function At(s: seq<bv8>, i: nat): bv8 {
    if i < |s| then s[i] else 0
  }

  function Min(a: nat, b: nat): nat {
    if a < b then a else b
  }

  /** How long the result is: as long as the shorter operand under &, as the longer one otherwise. */
  function Length(op: OpType, a: nat, b: nat): nat {
    if op.And? then Min(a, b) else a + b - Min(a, b)
  }

  /** The operator, byte by byte on zero-extended operands. */
  function Vop(op: OpType, l: seq<bv8>, r: seq<bv8>): (s: seq<bv8>)
    ensures |s| == Length(op, |l|, |r|)
  {
    seq(Length(op, |l|, |r|), i requires 0 <= i < Length(op, |l|, |r|) => Apply8(op, At(l, i), At(r, i)))
  }

  lemma ByteLaws(op: OpType, x: bv8, y: bv8)
    ensures Apply8(op, x, y) == Apply8(op, y, x) && (x ^ y) ^ y == x
  {
  }

  lemma AtVop(op: OpType, l: seq<bv8>, r: seq<bv8>, i: nat)
    ensures At(Vop(op, l, r), i) == Apply8(op, At(l, i), At(r, i))
  {
    if i >= Length(op, |l|, |r|) {
      ZeroAnnihilates(op, At(l, i), At(r, i));
    }
  }

  lemma ZeroAnnihilates(op: OpType, x: bv8, y: bv8)
    requires if op.And? then x == 0 || y == 0 else x == 0 && y == 0
    ensures Apply8(op, x, y) == 0
  {
  }

  lemma VopCommutes(op: OpType, l: seq<bv8>, r: seq<bv8>)
    ensures Vop(op, l, r) == Vop(op, r, l)
  {
    hide Apply8;
    forall i | 0 <= i < Length(op, |l|, |r|) ensures Vop(op, l, r)[i] == Vop(op, r, l)[i] {
      ByteLaws(op, At(l, i), At(r, i));
    }
  }

  /** Whatever was xor-ed in comes out again, zero-padded to the longer operand. */
  lemma XorUndoes(l: seq<bv8>, r: seq<bv8>, i: nat)
    ensures At(Vop(Xor, Vop(Xor, l, r), r), i) == At(l, i)
  {
    AtVop(Xor, Vop(Xor, l, r), r, i);
    AtVop(Xor, l, r, i);
    hide At;
    hide Vop;
    ByteLaws(Xor, At(l, i), At(r, i));
  }

  /** As long as the shorter operand, or as the longer one. */
  lemma VopLength(l: seq<bv8>, r: seq<bv8>)
    ensures |Vop(And, l, r)| == (if |l| < |r| then |l| else |r|)
    ensures |Vop(Or, l, r)| == |Vop(Xor, l, r)| == (if |l| < |r| then |r| else |l|)
  {
  }

  function Mask(k: nat): (m: bv8)
    requires k < 8
  {
    match k
    case 0 => 0x01
    case 1 => 0x02
    case 2 => 0x04
    case 3 => 0x08
    case 4 => 0x10
    case 5 => 0x20
    case 6 => 0x40
    case _ => 0x80
  }

  lemma MaskIsOneBit(k: nat)
    requires k < 8
    ensures Mask(k) & (Mask(k) - 1) == 0
  {
  }

  /** Bit k of a byte. */
  predicate Bit(x: bv8, k: nat)
    requires k < 8
  {
    x & Mask(k) != 0
  }

  lemma UnderMask(x: bv8, y: bv8, m: bv8)
    requires m & (m - 1) == 0
    ensures x & y & m != 0 <==> x & m != 0 && y & m != 0
    ensures (x | y) & m != 0 <==> x & m != 0 || y & m != 0
    ensures (x ^ y) & m != 0 <==> (x & m != 0) != (y & m != 0)
  {
  }

  lemma BitOfApply(op: OpType, x: bv8, y: bv8, k: nat)
    requires k < 8
    ensures Bit(Apply8(op, x, y), k) <==>
      match op
      case And => Bit(x, k) && Bit(y, k)
      case Or => Bit(x, k) || Bit(y, k)
      case Xor => Bit(x, k) != Bit(y, k)
  {
    MaskIsOneBit(k);
    hide Mask;
    UnderMask(x, y, Mask(k));
  }

  /** A bit of the result is set if it is in both, in one or the other, or in exactly one of the operands; a
      byte that is not there has none. */
  lemma BitsOfVop(op: OpType, l: seq<bv8>, r: seq<bv8>, i: nat, k: nat)
    requires k < 8
    ensures var x, y := At(l, i), At(r, i);
      Bit(At(Vop(op, l, r), i), k) <==>
        match op
        case And => Bit(x, k) && Bit(y, k)
        case Or => Bit(x, k) || Bit(y, k)
        case Xor => Bit(x, k) != Bit(y, k)
    ensures i >= |l| ==> !Bit(At(l, i), k)
  {
    AtVop(op, l, r, i);
    BitOfApply(op, At(l, i), At(r, i), k);
    NoBits(k);
    hide Apply8;
    hide Bit;
    hide Vop;
  }

  lemma NoBits(k: nat)
    requires k < 8
    ensures !Bit(0, k)
  {
  }

  lemma Lattice(x: bv8, y: bv8)
    ensures Apply8(And, x, x) == x && Apply8(Or, x, x) == x && Apply8(Xor, x, x) == 0
    ensures Apply8(And, x, Apply8(Or, x, y)) == x && Apply8(Or, x, Apply8(And, x, y)) == x
  {
  }

  /** s & s and s | s are s, and s ^ s is as many NULs. */
  lemma WithItself(s: seq<bv8>)
    ensures Vop(And, s, s) == s && Vop(Or, s, s) == s && Vop(Xor, s, s) == seq(|s|, _ => 0)
  {
    hide Apply8;
    forall i | 0 <= i < |s| ensures Vop(And, s, s)[i] == s[i] && Vop(Or, s, s)[i] == s[i] && Vop(Xor, s, s)[i] == 0 {
      Lattice(s[i], s[i]);
    }
  }

  /** s & (s | t) and s | (s & t) are s, whatever the lengths. */
  lemma Absorption(s: seq<bv8>, t: seq<bv8>)
    ensures Vop(And, s, Vop(Or, s, t)) == s && Vop(Or, s, Vop(And, s, t)) == s
  {
    forall i | 0 <= i < |s|
      ensures Vop(And, s, Vop(Or, s, t))[i] == s[i] && Vop(Or, s, Vop(And, s, t))[i] == s[i]
    {
      AtVop(Or, s, t, i);
      AtVop(And, s, t, i);
      AtVop(And, s, Vop(Or, s, t), i);
      AtVop(Or, s, Vop(And, s, t), i);
      Lattice(s[i], At(t, i));
      hide Apply8;
      hide Vop;
    }
    hide Apply8;
  }

  // ---------------------------------------------------------------------------------------------
  // Longs
  // ---------------------------------------------------------------------------------------------

  /** Byte k of a long, on a little-endian machine. */
  function ByteOf(x: bv64, k: nat): bv8
    requires k < 8
  {
    match k
    case 0 => (x & 0xFF) as bv8
    case 1 => ((x >> 8) & 0xFF) as bv8
    case 2 => ((x >> 16) & 0xFF) as bv8
    case 3 => ((x >> 24) & 0xFF) as bv8
    case 4 => ((x >> 32) & 0xFF) as bv8
    case 5 => ((x >> 40) & 0xFF) as bv8
    case 6 => ((x >> 48) & 0xFF) as bv8
    case _ => (x >> 56) as bv8
  }

  /** *(long*)p */
  function Load(b0: bv8, b1: bv8, b2: bv8, b3: bv8, b4: bv8, b5: bv8, b6: bv8, b7: bv8): bv64 {
    b0 as bv64 | (b1 as bv64 << 8) | (b2 as bv64 << 16) | (b3 as bv64 << 24)
    | (b4 as bv64 << 32) | (b5 as bv64 << 40) | (b6 as bv64 << 48) | (b7 as bv64 << 56)
  }

  lemma AndBytes(x: bv64, y: bv64)
    ensures var z := x & y;
      && ByteOf(z, 0) == ByteOf(x, 0) & ByteOf(y, 0)
      && ByteOf(z, 1) == ByteOf(x, 1) & ByteOf(y, 1)
      && ByteOf(z, 2) == ByteOf(x, 2) & ByteOf(y, 2)
      && ByteOf(z, 3) == ByteOf(x, 3) & ByteOf(y, 3)
      && ByteOf(z, 4) == ByteOf(x, 4) & ByteOf(y, 4)
      && ByteOf(z, 5) == ByteOf(x, 5) & ByteOf(y, 5)
      && ByteOf(z, 6) == ByteOf(x, 6) & ByteOf(y, 6)
      && ByteOf(z, 7) == ByteOf(x, 7) & ByteOf(y, 7)
  {
  }

  lemma BytesOfAnd(x: bv64, y: bv64)
    ensures var z := Apply64(And, x, y);
      && ByteOf(z, 0) == Apply8(And, ByteOf(x, 0), ByteOf(y, 0))
      && ByteOf(z, 1) == Apply8(And, ByteOf(x, 1), ByteOf(y, 1))
      && ByteOf(z, 2) == Apply8(And, ByteOf(x, 2), ByteOf(y, 2))
      && ByteOf(z, 3) == Apply8(And, ByteOf(x, 3), ByteOf(y, 3))
      && ByteOf(z, 4) == Apply8(And, ByteOf(x, 4), ByteOf(y, 4))
      && ByteOf(z, 5) == Apply8(And, ByteOf(x, 5), ByteOf(y, 5))
      && ByteOf(z, 6) == Apply8(And, ByteOf(x, 6), ByteOf(y, 6))
      && ByteOf(z, 7) == Apply8(And, ByteOf(x, 7), ByteOf(y, 7))
  {
    hide ByteOf;
    AndBytes(x, y);
  }

  lemma OrBytes(x: bv64, y: bv64)
    ensures var z := x | y;
      && ByteOf(z, 0) == ByteOf(x, 0) | ByteOf(y, 0)
      && ByteOf(z, 1) == ByteOf(x, 1) | ByteOf(y, 1)
      && ByteOf(z, 2) == ByteOf(x, 2) | ByteOf(y, 2)
      && ByteOf(z, 3) == ByteOf(x, 3) | ByteOf(y, 3)
      && ByteOf(z, 4) == ByteOf(x, 4) | ByteOf(y, 4)
      && ByteOf(z, 5) == ByteOf(x, 5) | ByteOf(y, 5)
      && ByteOf(z, 6) == ByteOf(x, 6) | ByteOf(y, 6)
      && ByteOf(z, 7) == ByteOf(x, 7) | ByteOf(y, 7)
  {
  }

  lemma BytesOfOr(x: bv64, y: bv64)
    ensures var z := Apply64(Or, x, y);
      && ByteOf(z, 0) == Apply8(Or, ByteOf(x, 0), ByteOf(y, 0))
      && ByteOf(z, 1) == Apply8(Or, ByteOf(x, 1), ByteOf(y, 1))
      && ByteOf(z, 2) == Apply8(Or, ByteOf(x, 2), ByteOf(y, 2))
      && ByteOf(z, 3) == Apply8(Or, ByteOf(x, 3), ByteOf(y, 3))
      && ByteOf(z, 4) == Apply8(Or, ByteOf(x, 4), ByteOf(y, 4))
      && ByteOf(z, 5) == Apply8(Or, ByteOf(x, 5), ByteOf(y, 5))
      && ByteOf(z, 6) == Apply8(Or, ByteOf(x, 6), ByteOf(y, 6))
      && ByteOf(z, 7) == Apply8(Or, ByteOf(x, 7), ByteOf(y, 7))
  {
    hide ByteOf;
    OrBytes(x, y);
  }

  lemma XorBytes(x: bv64, y: bv64)
    ensures var z := x ^ y;
      && ByteOf(z, 0) == ByteOf(x, 0) ^ ByteOf(y, 0)
      && ByteOf(z, 1) == ByteOf(x, 1) ^ ByteOf(y, 1)
      && ByteOf(z, 2) == ByteOf(x, 2) ^ ByteOf(y, 2)
      && ByteOf(z, 3) == ByteOf(x, 3) ^ ByteOf(y, 3)
      && ByteOf(z, 4) == ByteOf(x, 4) ^ ByteOf(y, 4)
      && ByteOf(z, 5) == ByteOf(x, 5) ^ ByteOf(y, 5)
      && ByteOf(z, 6) == ByteOf(x, 6) ^ ByteOf(y, 6)
      && ByteOf(z, 7) == ByteOf(x, 7) ^ ByteOf(y, 7)
  {
  }

  lemma BytesOfXor(x: bv64, y: bv64)
    ensures var z := Apply64(Xor, x, y);
      && ByteOf(z, 0) == Apply8(Xor, ByteOf(x, 0), ByteOf(y, 0))
      && ByteOf(z, 1) == Apply8(Xor, ByteOf(x, 1), ByteOf(y, 1))
      && ByteOf(z, 2) == Apply8(Xor, ByteOf(x, 2), ByteOf(y, 2))
      && ByteOf(z, 3) == Apply8(Xor, ByteOf(x, 3), ByteOf(y, 3))
      && ByteOf(z, 4) == Apply8(Xor, ByteOf(x, 4), ByteOf(y, 4))
      && ByteOf(z, 5) == Apply8(Xor, ByteOf(x, 5), ByteOf(y, 5))
      && ByteOf(z, 6) == Apply8(Xor, ByteOf(x, 6), ByteOf(y, 6))
      && ByteOf(z, 7) == Apply8(Xor, ByteOf(x, 7), ByteOf(y, 7))
  {
    hide ByteOf;
    XorBytes(x, y);
  }

  /** A long operation is the byte operation on each of its bytes. */
  lemma BytesOfApply(op: OpType, x: bv64, y: bv64)
    ensures var z := Apply64(op, x, y);
      && ByteOf(z, 0) == Apply8(op, ByteOf(x, 0), ByteOf(y, 0))
      && ByteOf(z, 1) == Apply8(op, ByteOf(x, 1), ByteOf(y, 1))
      && ByteOf(z, 2) == Apply8(op, ByteOf(x, 2), ByteOf(y, 2))
      && ByteOf(z, 3) == Apply8(op, ByteOf(x, 3), ByteOf(y, 3))
      && ByteOf(z, 4) == Apply8(op, ByteOf(x, 4), ByteOf(y, 4))
      && ByteOf(z, 5) == Apply8(op, ByteOf(x, 5), ByteOf(y, 5))
      && ByteOf(z, 6) == Apply8(op, ByteOf(x, 6), ByteOf(y, 6))
      && ByteOf(z, 7) == Apply8(op, ByteOf(x, 7), ByteOf(y, 7))
  {
    hide ByteOf;
    hide Apply8;
    hide Apply64;
    match op
    case And => BytesOfAnd(x, y);
    case Or => BytesOfOr(x, y);
    case Xor => BytesOfXor(x, y);
  }

  lemma ByteOfLoad(b0: bv8, b1: bv8, b2: bv8, b3: bv8, b4: bv8, b5: bv8, b6: bv8, b7: bv8)
    ensures var x := Load(b0, b1, b2, b3, b4, b5, b6, b7);
      && ByteOf(x, 0) == b0 && ByteOf(x, 1) == b1 && ByteOf(x, 2) == b2 && ByteOf(x, 3) == b3
      && ByteOf(x, 4) == b4 && ByteOf(x, 5) == b5 && ByteOf(x, 6) == b6 && ByteOf(x, 7) == b7
  {
  }

  function LoadAt(a: array<bv8>, i: nat): bv64
    requires i + 8 <= a.Length
    reads a
  {
    Load(a[i], a[i + 1], a[i + 2], a[i + 3], a[i + 4], a[i + 5], a[i + 6], a[i + 7])
  }

  /** *dl++ = *ll++ op *rl++, at byte i */
  method Long(op: OpType, d: array<bv8>, l: array<bv8>, r: array<bv8>, i: nat)
    requires i + 8 <= d.Length && i + 8 <= l.Length && i + 8 <= r.Length
    modifies d
    ensures forall j :: 0 <= j < d.Length ==>
      d[j] == if i <= j < i + 8 then Apply8(op, old(l[j]), old(r[j])) else old(d[j])
  {
    hide ByteOf;
    hide Load;
    hide Apply8;
    hide Apply64;
    ByteOfLoad(l[i], l[i + 1], l[i + 2], l[i + 3], l[i + 4], l[i + 5], l[i + 6], l[i + 7]);
    ByteOfLoad(r[i], r[i + 1], r[i + 2], r[i + 3], r[i + 4], r[i + 5], r[i + 6], r[i + 7]);
    BytesOfApply(op, LoadAt(l, i), LoadAt(r, i));
    var z := Apply64(op, LoadAt(l, i), LoadAt(r, i));
    hide LoadAt;
    d[i], d[i + 1], d[i + 2], d[i + 3] := ByteOf(z, 0), ByteOf(z, 1), ByteOf(z, 2), ByteOf(z, 3);
    d[i + 4], d[i + 5], d[i + 6], d[i + 7] := ByteOf(z, 4), ByteOf(z, 5), ByteOf(z, 6), ByteOf(z, 7);
  }

  /** The first `to` bytes are done, the others as they were. */
  ghost predicate Done(op: OpType, d0: seq<bv8>, l0: seq<bv8>, r0: seq<bv8>, d: seq<bv8>, to: nat) {
    && to <= |l0| && to <= |r0| && to <= |d| == |d0|
    && forall j :: 0 <= j < |d| ==> d[j] == if j < to then Apply8(op, l0[j], r0[j]) else d0[j]
  }

  /** The unrolled loop: four longs a turn. */
  method Longs(op: OpType, d: array<bv8>, l: array<bv8>, r: array<bv8>, turns: nat)
    requires turns * 32 <= d.Length && turns * 32 <= l.Length && turns * 32 <= r.Length
    modifies d
    ensures Done(op, old(d[..]), old(l[..]), old(r[..]), d[..], turns * 32)
  {
    hide Apply8;
    var len, i := turns, 0;
    while len > 0
      invariant 0 <= len <= turns && i == (turns - len) * 32
      invariant Done(op, old(d[..]), old(l[..]), old(r[..]), d[..], i)
      invariant d != l ==> l[..] == old(l[..])
      invariant d != r ==> r[..] == old(r[..])
    {
      len := len - 1;
      FourLongs(op, d, l, r, i);
      i := i + 32;
    }
  }

  method FourLongs(op: OpType, d: array<bv8>, l: array<bv8>, r: array<bv8>, i: nat)
    requires i + 32 <= d.Length && i + 32 <= l.Length && i + 32 <= r.Length
    modifies d
    ensures forall j :: 0 <= j < d.Length ==>
      d[j] == if i <= j < i + 32 then Apply8(op, old(l[j]), old(r[j])) else old(d[j])
  {
    hide Apply8;
    Long(op, d, l, r, i);
    Long(op, d, l, r, i + 8);
    Long(op, d, l, r, i + 16);
    Long(op, d, l, r, i + 24);
  }

  /** The bytewise loop, from byte `from` on. */
  method Chars(op: OpType, d: array<bv8>, l: array<bv8>, r: array<bv8>, from: nat, len: nat,
               ghost d0: seq<bv8>, ghost l0: seq<bv8>, ghost r0: seq<bv8>)
    requires from + len <= d.Length && from + len <= l.Length && from + len <= r.Length
    requires Done(op, d0, l0, r0, d[..], from) && |l0| == l.Length && |r0| == r.Length
    requires l[from..] == l0[from..] && r[from..] == r0[from..]
    modifies d
    ensures Done(op, d0, l0, r0, d[..], from + len)
    ensures d != l ==> l[..] == old(l[..])
    ensures d != r ==> r[..] == old(r[..])
  {
    hide Apply8;
    var i, left := from, len;
    while left > 0
      invariant 0 <= left <= len && i == from + (len - left)
      invariant Done(op, d0, l0, r0, d[..], i)
      invariant forall j :: i <= j < l.Length ==> l[j] == l0[j]
      invariant forall j :: i <= j < r.Length ==> r[j] == r0[j]
      invariant d != l ==> l[..] == old(l[..])
      invariant d != r ==> r[..] == old(r[..])
    {
      left := left - 1;
      d[i] := Apply8(op, l[i], r[i]);
      i := i + 1;
    }
  }

  // ---------------------------------------------------------------------------------------------
  // do_vop
  // ---------------------------------------------------------------------------------------------

  lemma ZeroIsNeutral(op: OpType, x: bv8)
    requires !op.And?
    ensures Apply8(op, x, 0) == x && Apply8(op, 0, x) == x
  {
  }

  /** The common prefix operated on, and past it the longer operand as it is. */
  lemma Assembled(op: OpType, l: seq<bv8>, r: seq<bv8>, head: seq<bv8>, tail: seq<bv8>)
    requires |head| == Min(|l|, |r|)
    requires forall j :: 0 <= j < |head| ==> head[j] == Apply8(op, l[j], r[j])
    requires tail == if op.And? then [] else if |r| > |head| then r[|head|..] else l[|head|..]
    ensures head + tail == Vop(op, l, r)
  {
    hide Apply8;
    var s := head + tail;
    forall j | 0 <= j < |s| ensures s[j] == Vop(op, l, r)[j] {
      if j >= |head| {
        ZeroIsNeutral(op, s[j]);
      }
    }
  }

  class Str {
    var buf: array<bv8>
    var cur: nat

    /** There is always room for the trailing NUL, and it is there. */
    ghost predicate Valid()
      reads this, buf
    {
      cur < buf.Length && buf[cur] == 0
    }

    ghost function Contents(): (s: seq<bv8>)
      requires cur < buf.Length
      reads this, buf
      ensures |s| == cur
    {
      buf[..cur]
    }

    /** SvGROW to n bytes; what is new is zeroed. */
    method Grow(n: nat)
      requires cur < buf.Length
      modifies this
      ensures cur == old(cur) && buf.Length >= n && cur < buf.Length
      ensures buf == old(buf) || fresh(buf)
      ensures old(buf.Length) >= n ==> buf == old(buf)
      ensures forall j :: 0 <= j < cur ==> buf[j] == old(buf[j])
    {
      if buf.Length < n {
        var b := new bv8[n];
        forall i | 0 <= i < n {
          b[i] := if i < cur then buf[i] else 0;
        }
        buf := b;
      }
    }

    /** sv_catpvn(sv, src + from, n), NUL included */
    method Append(src: array<bv8>, from: nat, n: nat)
      requires cur < buf.Length && from + n <= src.Length && src != buf
      modifies this, buf
      ensures Valid() && (buf == old(buf) || fresh(buf))
      ensures Contents() == old(Contents()) + old(src[from..from + n])
    {
      ghost var head, tail := Contents(), src[from..from + n];
      Grow(cur + n + 1);
      forall i | 0 <= i < n {
        buf[cur + i] := src[from + i];
      }
      cur := cur + n;
      buf[cur] := 0;
      forall j | 0 <= j < cur ensures buf[j] == (head + tail)[j] {
      }
      assert buf[..cur] == head + tail;
    }

    /** A target of its own starts out empty; either way there is room for the result's common part. */
    method Prepare(isLeft: bool, len: nat)
      requires Valid() && (isLeft ==> len <= cur)
      modifies this, buf
      ensures cur == len < buf.Length && (buf == old(buf) || fresh(buf))
      ensures isLeft ==> buf == old(buf) && buf[..] == old(buf[..])
    {
      if !isLeft {
        cur := 0;
        buf[0] := 0;
      }
      Grow(len + 1);
      cur := len;
    }

    /** The longs, if everything is aligned, and then the bytes. */
    method Operate(op: OpType, l: array<bv8>, r: array<bv8>, length: nat, aligned: bool)
      requires length < buf.Length && length < l.Length && length < r.Length
      modifies buf
      ensures Done(op, old(buf[..]), old(l[..]), old(r[..]), buf[..], length)
    {
      hide Apply8;
      var len, at := length, 0;
      ghost var d0, l0, r0 := buf[..], l[..], r[..];
      if length >= 32 && aligned {
        var remainder := length % 32;
        len := length / 32;
        Longs(op, buf, l, r, len);
        at, len := len * 32, remainder;
      }
      TailsKept(op, buf, l, r, d0, l0, r0, at);
      Chars(op, buf, l, r, at, len, d0, l0, r0);
    }

    /** What the operation has not reached yet is as it was. */
    static lemma TailsKept(op: OpType, d: array<bv8>, l: array<bv8>, r: array<bv8>, d0: seq<bv8>,
                           l0: seq<bv8>, r0: seq<bv8>, at: nat)
      requires Done(op, d0, l0, r0, d[..], at) && |l0| == l.Length && |r0| == r.Length
      requires if d == l then d0 == l0 else l[..] == l0
      requires if d == r then d0 == r0 else r[..] == r0
      ensures l[at..] == l0[at..] && r[at..] == r0[at..]
    {
      hide Apply8;
      forall j | at <= j < l.Length ensures l[j] == l0[j] {
      }
      forall j | at <= j < r.Length ensures r[j] == r0[j] {
      }
    }

    /** mop_up: the dangling part of the longer operand. */
    method MopUp(l: array<bv8>, leftlen: nat, r: array<bv8>, rightlen: nat)
      requires cur == Min(leftlen, rightlen) < buf.Length && leftlen < l.Length && rightlen < r.Length
      modifies this, buf
      ensures Valid() && (buf == old(buf) || fresh(buf))
      ensures Contents() ==
        old(Contents()) + if rightlen > old(cur) then old(r[cur..rightlen]) else old(l[cur..leftlen])
    {
      var len := cur;
      if rightlen > len {
        if buf == r {
          cur := rightlen;
        } else {
          Append(r, len, rightlen - len);
        }
      } else if leftlen > len {
        if buf == l {
          cur := leftlen;
        } else {
          Append(l, len, leftlen - len);
        }
      }
      buf[cur] := 0;
    }
  }

  /** The target gets the result whether it is a third string or the left operand itself, and whether
      the buffers are aligned or not. */
  method DoVop(op: OpType, sv: Str, left: Str, right: Str, aligned: bool)
    requires sv.Valid() && left.Valid() && right.Valid() && (sv == right ==> sv == left)
    requires sv != left ==> sv.buf != left.buf
    requires sv != right ==> sv.buf != right.buf
    modifies sv, sv.buf
    ensures sv.Valid() && (sv.buf == old(sv.buf) || fresh(sv.buf))
    ensures sv.Contents() == Vop(op, old(left.Contents()), old(right.Contents()))
  {
    hide Apply8;
    hide Vop;
    ghost var l0, r0 := left.Contents(), right.Contents();
    var leftlen, rightlen := left.cur, right.cur;
    var len := Min(leftlen, rightlen);
    sv.Prepare(sv == left, len);
    var lc, rc := left.buf, right.buf;
    assert lc[..leftlen] == l0 && rc[..rightlen] == r0;
    sv.Operate(op, lc, rc, len, aligned);
    ghost var head := sv.Contents();
    assert forall j :: 0 <= j < len ==> head[j] == Apply8(op, l0[j], r0[j]);
    ghost var tail := if op.And? then [] else if rightlen > len then r0[len..] else l0[len..];
    Assembled(op, l0, r0, head, tail);
    if op.And? {
      sv.buf[len] := 0;
      assert head + tail == head;
    } else {
      SameTail(lc, l0, len, leftlen);
      SameTail(rc, r0, len, rightlen);
      sv.MopUp(lc, leftlen, rc, rightlen);
    }
  }

  lemma SameTail(a: array<bv8>, s: seq<bv8>, from: nat, to: nat)
    requires from <= to == |s| <= a.Length && forall j :: from <= j < to ==> a[j] == s[j]
    ensures a[from..to] == s[from..]
  {
  }
}
