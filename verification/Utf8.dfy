/** Perl's UTF-8, extended past the Unicode range (utf8.h): one to seven bytes, or thirteen. */
module Utf8 {

  type Byte = b: int | 0 <= b < 0x100

  const MAX_UV: int := 0xFFFF_FFFF_FFFF_FFFF
  const MAX_CP: int := 0x7FFF_FFFF_FFFF_FFFF  // MAX_LEGAL_CP, which is IV_MAX

  type UV = n: int | 0 <= n <= MAX_UV
  type CodePoint = c: int | 0 <= c <= MAX_CP

  /** UVCHR_SKIP: how many bytes uv takes. */
  function Skip(uv: UV): (n: nat)
    ensures 1 <= n <= 13
  {
    if uv < 0x80 then 1
    else if uv < 0x800 then 2
    else if uv < 0x1_0000 then 3
    else if uv < 0x20_0000 then 4
    else if uv < 0x400_0000 then 5
    else if uv < 0x8000_0000 then 6
    else if uv < 0x10_0000_0000 then 7
    else 13
  }

  /** The start byte of an n-byte sequence, without its information bits. */
  function Lead(n: nat): Byte {
    match n
    case 2 => 0xC0
    case 3 => 0xE0
    case 4 => 0xF0
    case 5 => 0xF8
    case 6 => 0xFC
    case 7 => 0xFE
    case 13 => 0xFF
    case _ => 0
  }

  /** UTF8SKIP: the length a start byte announces. */
  function SkipOf(b: Byte): (n: nat)
    ensures 1 <= n <= 13
  {
    if b < 0xC0 then 1
    else if b < 0xE0 then 2
    else if b < 0xF0 then 3
    else if b < 0xF8 then 4
    else if b < 0xFC then 5
    else if b < 0xFE then 6
    else if b < 0xFF then 7
    else 13
  }

  /** uv shifted right by 6k bits. */
  function Top(uv: nat, k: nat): nat {
    if k == 0 then uv else Top(uv / 64, k - 1)
  }

  /** The k continuation bytes that carry the low 6k bits of uv. */
  function Conts(uv: nat, k: nat): (s: seq<Byte>)
    ensures |s| == k
  {
    if k == 0 then [] else Conts(uv / 64, k - 1) + [0x80 + uv % 64]
  }

  /** uvchr_to_utf8 */
  function Encode(uv: UV): (s: seq<Byte>)
    ensures |s| == Skip(uv)
  {
    var n := Skip(uv);
    if n == 1 then [uv]
    else
      TopFits(uv);
      [Lead(n) + Top(uv, n - 1)] + Conts(uv, n - 1)
  }

  /** The information bits that go into the start byte fit there. */
  lemma TopFits(uv: UV)
    requires Skip(uv) > 1
    ensures var n := Skip(uv); var top := Top(uv, n - 1);
      && Lead(n) + top < 0x100
      && SkipOf(Lead(n) + top) == n
  {
    var t1 := uv / 64;
    var t2 := t1 / 64;
    var t3 := t2 / 64;
    var t4 := t3 / 64;
    var t5 := t4 / 64;
    var t6 := t5 / 64;
    assert Top(uv, 1) == t1;
    assert Top(uv, 2) == Top(t1, 1) == t2;
    assert Top(uv, 3) == Top(t1, 2) == Top(t2, 1) == t3;
    assert Top(uv, 4) == Top(t1, 3) == Top(t2, 2) == Top(t3, 1) == t4;
    assert Top(uv, 5) == Top(t1, 4) == Top(t2, 3) == Top(t3, 2) == Top(t4, 1) == t5;
    assert Top(uv, 6) == Top(t1, 5) == Top(t2, 4) == Top(t3, 3) == Top(t4, 2) == Top(t5, 1) == t6;
    if Skip(uv) == 13 {
      TopOfHuge(uv);
    }
  }

  /** Nothing of a 64-bit value is left above twelve continuation bytes. */
  lemma TopOfHuge(uv: UV)
    ensures Top(uv, 12) == 0
  {
    var t6 := uv / 64 / 64 / 64 / 64 / 64 / 64;
    assert Top(uv, 12) == Top(uv / 64, 11) == Top(uv / 64 / 64, 10) == Top(uv / 64 / 64 / 64, 9);
    assert Top(uv / 64 / 64 / 64, 9) == Top(uv / 64 / 64 / 64 / 64, 8) == Top(uv / 64 / 64 / 64 / 64 / 64, 7);
    assert Top(uv / 64 / 64 / 64 / 64 / 64, 7) == Top(t6, 6);
    assert Top(t6, 6) == Top(t6 / 64, 5) == Top(t6 / 64 / 64, 4) == Top(t6 / 64 / 64 / 64, 3);
    assert Top(t6 / 64 / 64 / 64, 3) == Top(t6 / 64 / 64 / 64 / 64, 2) == Top(t6 / 64 / 64 / 64 / 64 / 64, 1);
  }

  /** The value of a run of continuation bytes, after `top`. */
  function Value(top: nat, s: seq<Byte>): nat {
    if s == [] then top else Value(top, s[..|s| - 1]) * 64 + s[|s| - 1] % 64
  }

  /** utf8n_to_uvchr on a sequence that is long enough: the value and the length. */
  function Decode(s: seq<Byte>): (r: (nat, nat))
    requires s != [] && |s| >= SkipOf(s[0])
  {
    var n := SkipOf(s[0]);
    if n == 1 then (s[0], 1) else (Value(s[0] - Lead(n), s[1..n]), n)
  }

  lemma {:induction false} ValueConts(uv: nat, k: nat)
    ensures Value(Top(uv, k), Conts(uv, k)) == uv
  {
    if k > 0 {
      assert Conts(uv, k)[..k - 1] == Conts(uv / 64, k - 1);
      ValueConts(uv / 64, k - 1);
    }
  }

  /** Whatever follows it, an encoded code point reads back as itself and its length. */
  lemma DecodeEncode(uv: UV, rest: seq<Byte>)
    ensures var s := Encode(uv) + rest;
      |s| >= SkipOf(s[0]) && Decode(s) == (uv, Skip(uv))
  {
    var n := Skip(uv);
    var s := Encode(uv) + rest;
    if n > 1 {
      TopFits(uv);
      ValueConts(uv, n - 1);
      assert s[1..n] == Conts(uv, n - 1);
    }
  }

  /** How the forms begin that plain UTF-8 does not have. */
  lemma LongForms(uv: UV)
    ensures 0x20_0000 <= uv < 0x400_0000 ==> |Encode(uv)| == 5 && Encode(uv)[0] == 0xF8 + uv / 0x100_0000
    ensures 0x400_0000 <= uv < 0x8000_0000 ==> |Encode(uv)| == 6 && Encode(uv)[0] == 0xFC + uv / 0x4000_0000
    ensures 0x8000_0000 <= uv < 0x10_0000_0000 ==> |Encode(uv)| == 7 && Encode(uv)[0] == 0xFE
    ensures 0x10_0000_0000 <= uv ==> |Encode(uv)| == 13 && Encode(uv)[0] == 0xFF
    ensures uv >= 0x20_0000 ==> Encode(uv)[|Encode(uv)| - 1] == 0x80 + uv % 64
  {
    var n := Skip(uv);
    if n > 1 {
      TopFits(uv);
      if n == 13 {
        TopOfHuge(uv);
      } else {
        TopIsQuotient(uv);
      }
    }
  }

  lemma TopIsQuotient(uv: UV)
    ensures Top(uv, 4) == uv / 0x100_0000 && Top(uv, 5) == uv / 0x4000_0000 && Top(uv, 6) == uv / 0x10_0000_0000
  {
    var t1 := uv / 64;
    var t2 := t1 / 64;
    var t3 := t2 / 64;
    var t4 := t3 / 64;
    var t5 := t4 / 64;
    assert Top(uv, 4) == Top(t1, 3) == Top(t2, 2) == Top(t3, 1) == t4;
    assert Top(uv, 5) == Top(t1, 4) == Top(t2, 3) == Top(t3, 2) == Top(t4, 1) == t5;
    assert Top(uv, 6) == Top(t1, 5) == Top(t2, 4) == Top(t3, 3) == Top(t4, 2) == Top(t5, 1) == t5 / 64;
  }

  // ---------------------------------------------------------------------------------------------
  // Strings
  // ---------------------------------------------------------------------------------------------

  /** One character of a string: encoded if the string is in UTF-8, a single byte otherwise. */
  function Char(utf8: bool, c: UV): (s: seq<Byte>)
    ensures |s| >= 1
  {
    if utf8 then Encode(c) else [c % 0x100]
  }

  /** The bytes of a string of code points. */
  function Text(utf8: bool, cps: seq<UV>): seq<Byte> {
    if cps == [] then [] else Text(utf8, cps[..|cps| - 1]) + Char(utf8, cps[|cps| - 1])
  }

  lemma TextSnoc(utf8: bool, s: seq<UV>, x: UV)
    ensures Text(utf8, s + [x]) == Text(utf8, s) + Char(utf8, x)
  {
    assert (s + [x])[..|s + [x]| - 1] == s;
  }

  lemma Assoc<T>(a: seq<T>, b: seq<T>, c: seq<T>)
    ensures (a + b) + c == a + (b + c)
  {
  }

  lemma {:induction false} TextConcat(utf8: bool, a: seq<UV>, b: seq<UV>)
    ensures Text(utf8, a + b) == Text(utf8, a) + Text(utf8, b)
  {
    if b == [] {
      assert a + b == a;
    } else {
      var init, x := b[..|b| - 1], b[|b| - 1];
      hide Text;
      hide Char;
      assert b == init + [x];
      Assoc(a, init, [x]);
      TextSnoc(utf8, a + init, x);
      TextSnoc(utf8, init, x);
      TextConcat(utf8, a, init);
      Assoc(Text(utf8, a), Text(utf8, init), Char(utf8, x));
    }
  }

  lemma TextCons(utf8: bool, x: UV, rest: seq<UV>)
    ensures Text(utf8, [x] + rest) == Char(utf8, x) + Text(utf8, rest)
  {
    assert Text(utf8, []) == [];
    hide Text;
    hide Char;
    TextSnoc(utf8, [], x);
    assert [] + [x] == [x] && [] + Char(utf8, x) == Char(utf8, x);
    TextConcat(utf8, [x], rest);
  }

  lemma Around<T>(s: seq<T>, i: nat)
    requires i < |s|
    ensures s == s[..i] + ([s[i]] + s[i + 1..])
    ensures s[..i + 1] == s[..i] + [s[i]]
  {
  }

  /** The i-th character of a string starts where the ones before it end. */
  lemma TextAt(utf8: bool, cps: seq<UV>, i: nat)
    requires i < |cps|
    ensures Text(utf8, cps) == Text(utf8, cps[..i]) + (Char(utf8, cps[i]) + Text(utf8, cps[i + 1..]))
    ensures Text(utf8, cps[..i + 1]) == Text(utf8, cps[..i]) + Char(utf8, cps[i])
  {
    hide Text;
    hide Char;
    Around(cps, i);
    TextConcat(utf8, cps[..i], [cps[i]] + cps[i + 1..]);
    TextCons(utf8, cps[i], cps[i + 1..]);
    TextSnoc(utf8, cps[..i], cps[i]);
  }

  /** Distinct strings have distinct encodings. */
  lemma {:induction false} TextInjective(a: seq<UV>, b: seq<UV>)
    requires Text(true, a) == Text(true, b)
    ensures a == b
  {
    hide Encode;
    hide Decode;
    if a != [] && b != [] {
      assert a == [a[0]] + a[1..] && b == [b[0]] + b[1..];
      TextCons(true, a[0], a[1..]);
      TextCons(true, b[0], b[1..]);
      DecodeEncode(a[0], Text(true, a[1..]));
      DecodeEncode(b[0], Text(true, b[1..]));
      SameTail(Encode(a[0]), Text(true, a[1..]), Text(true, b[1..]));
      TextInjective(a[1..], b[1..]);
    }
  }

  lemma SameTail<T>(p: seq<T>, x: seq<T>, y: seq<T>)
    requires p + x == p + y
    ensures x == y
  {
    assert (p + x)[|p|..] == x && (p + y)[|p|..] == y;
  }
}
