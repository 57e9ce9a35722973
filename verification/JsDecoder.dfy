/** my_UTF8ArrayToString of common_preamble.js: UTF-8 bytes to the UTF-16 code units of a string. */
module JsDecoder {
  import opened Utf8

  type Unit = u: int | 0 <= u < 0x1_0000

  /** A Unicode scalar value: what well-formed UTF-8 (section 3 of RFC 3629) encodes. */
  type Scalar = c: int | 0 <= c <= 0x10_FFFF && !(0xD800 <= c <= 0xDFFF)

  /** Section 2.1 of RFC 2781. */
  function Units(c: Scalar): (u: seq<Unit>) {
    if c < 0x1_0000 then [c]
    else
      var d: int := c - 0x1_0000;
      [0xD800 + d / 0x400, 0xDC00 + d % 0x400]
  }

  function Utf16(cps: seq<Scalar>): seq<Unit> {
    if cps == [] then [] else Utf16(cps[..|cps| - 1]) + Units(cps[|cps| - 1])
  }

  /** Section 2.2 of RFC 2781, reading from the end. */
  function FromUtf16(s: seq<Unit>): seq<int> {
    if s == [] then []
    else
      var n := |s| - 1;
      if n >= 1 && 0xD800 <= s[n - 1] <= 0xDBFF && 0xDC00 <= s[n] <= 0xDFFF then
        var hi: int, lo: int := s[n - 1], s[n];
        FromUtf16(s[..n - 1]) + [0x1_0000 + (hi - 0xD800) * 0x400 + (lo - 0xDC00)]
      else FromUtf16(s[..n]) + [s[n]]
  }

  /** Nothing is lost: the code units of scalar values read back as those values. */
  lemma {:induction false} Utf16RoundTrip(cps: seq<Scalar>)
    ensures FromUtf16(Utf16(cps)) == cps
  {
    if cps != [] {
      var n := |cps| - 1;
      var init, c := cps[..n], cps[n];
      var p, u := Utf16(init), Units(c);
      Utf16RoundTrip(init);
      assert Utf16(cps) == p + u;
      FromUtf16Units(p, c);
    }
  }

  lemma FromUtf16Units(p: seq<Unit>, c: Scalar)
    ensures FromUtf16(p + Units(c)) == FromUtf16(p) + [c]
  {
    var s := p + Units(c);
    if c < 0x1_0000 {
      assert s[..|s| - 1] == p;
    } else {
      assert s[..|s| - 2] == p;
    }
  }

  /** The example of section 2.1 of RFC 2781, and an emoji. */
  lemma UnitExamples()
    ensures Units(0x12345) == [0xD808, 0xDF45] && Units(0x1F600) == [0xD83D, 0xDE00] && Units(0x20AC) == [0x20AC]
  {
  }

  // ---------------------------------------------------------------------------------------------
  // Masks and shifts, as remainders and products
  // ---------------------------------------------------------------------------------------------

  lemma Mask63(b: bv8)
    ensures (b as bv32 & 63) as int == b as int % 64
  {
  }

  lemma Mask31(b: bv8)
    ensures (b as bv32 & 31) as int == b as int % 32
  {
  }

  lemma Mask15(b: bv8)
    ensures (b as bv32 & 15) as int == b as int % 16
  {
  }

  lemma Mask7(b: bv8)
    ensures (b as bv32 & 7) as int == b as int % 8
  {
  }

  lemma Join6(a: bv32, b: bv32)
    requires a < 32 && b < 64
    ensures ((a << 6) | b) as int == a as int * 64 + b as int
  {
  }

  lemma Join6'(a: bv32, b: bv32)
    requires a < 64 && b < 64
    ensures ((a << 6) | b) as int == a as int * 64 + b as int && (a << 6) | b < 0x1000
  {
  }

  lemma Join12(a: bv32, b: bv32)
    requires a < 64 && b < 0x1000
    ensures ((a << 12) | b) as int == a as int * 0x1000 + b as int && (a << 12) | b < 0x4_0000
  {
  }

  lemma Join18(a: bv32, b: bv32)
    requires a < 8 && b < 0x4_0000
    ensures ((a << 18) | b) as int == a as int * 0x4_0000 + b as int
  {
  }

  lemma Two(b0: bv8, b1: bv8)
    ensures (((b0 as bv32 & 31) << 6) | (b1 as bv32 & 63)) as int == b0 as int % 32 * 64 + b1 as int % 64
  {
    Mask31(b0);
    Mask63(b1);
    Join6(b0 as bv32 & 31, b1 as bv32 & 63);
  }

  lemma Three(b0: bv8, b1: bv8, b2: bv8)
    ensures (((b0 as bv32 & 15) << 12) | ((b1 as bv32 & 63) << 6) | (b2 as bv32 & 63)) as int
         == (b0 as int % 16 * 64 + b1 as int % 64) * 64 + b2 as int % 64
  {
    Mask15(b0);
    Mask63(b1);
    Mask63(b2);
    var a, b, c := b0 as bv32 & 15, b1 as bv32 & 63, b2 as bv32 & 63;
    Join6'(b, c);
    Join12(a, (b << 6) | c);
    assert (a << 12) | (b << 6) | c == (a << 12) | ((b << 6) | c);
  }

  lemma Four(b0: bv8, b1: bv8, b2: bv8, b3: bv8)
    ensures (((b0 as bv32 & 7) << 18) | ((b1 as bv32 & 63) << 12) | ((b2 as bv32 & 63) << 6)
             | (b3 as bv32 & 63)) as int
         == ((b0 as int % 8 * 64 + b1 as int % 64) * 64 + b2 as int % 64) * 64 + b3 as int % 64
  {
    Mask7(b0);
    Mask63(b1);
    Mask63(b2);
    Mask63(b3);
    var a, b, c, d := b0 as bv32 & 7, b1 as bv32 & 63, b2 as bv32 & 63, b3 as bv32 & 63;
    Join6'(c, d);
    Join12(b, (c << 6) | d);
    Join18(a, (b << 12) | ((c << 6) | d));
    assert (a << 18) | (b << 12) | (c << 6) | d == (a << 18) | ((b << 12) | ((c << 6) | d));
  }

  lemma Mask3(b: bv8)
    ensures (b as bv32 & 3) as int == b as int % 4
  {
  }

  lemma Mask1(b: bv8)
    ensures (b as bv32 & 1) as int == b as int % 2
  {
  }

  function J6(a: bv32, b: bv32): bv32 {
    (a << 6) | b
  }

  function J12(a: bv32, b: bv32): bv32 {
    (a << 12) | b
  }

  function J18(a: bv32, b: bv32): bv32 {
    (a << 18) | b
  }

  function J24(a: bv32, b: bv32): bv32 {
    (a << 24) | b
  }

  function J30(a: bv32, b: bv32): bv32 {
    (a << 30) | b
  }

  lemma Join18'(a: bv32, b: bv32)
    requires a < 64 && b < 0x4_0000
    ensures ((a << 18) | b) as int == a as int * 0x4_0000 + b as int && (a << 18) | b < 0x100_0000
  {
  }

  lemma Join24(a: bv32, b: bv32)
    requires a < 64 && b < 0x100_0000
    ensures ((a << 24) | b) as int == a as int * 0x100_0000 + b as int && (a << 24) | b < 0x4000_0000
  {
  }

  lemma Join30(a: bv32, b: bv32)
    requires a < 2 && b < 0x4000_0000
    ensures ((a << 30) | b) as int == a as int * 0x4000_0000 + b as int
  {
  }

  lemma ByJ6(a: bv32, b: bv32)
    requires a < 64 && b < 64
    ensures J6(a, b) as int == a as int * 64 + b as int && J6(a, b) < 0x1000
  {
    Join6'(a, b);
  }

  lemma ByJ12(a: bv32, b: bv32)
    requires a < 64 && b < 0x1000
    ensures J12(a, b) as int == a as int * 0x1000 + b as int && J12(a, b) < 0x4_0000
  {
    Join12(a, b);
  }

  lemma ByJ18(a: bv32, b: bv32)
    requires a < 64 && b < 0x4_0000
    ensures J18(a, b) as int == a as int * 0x4_0000 + b as int && J18(a, b) < 0x100_0000
  {
    Join18'(a, b);
  }

  lemma ByJ24(a: bv32, b: bv32)
    requires a < 64 && b < 0x100_0000
    ensures J24(a, b) as int == a as int * 0x100_0000 + b as int && J24(a, b) < 0x4000_0000
  {
    Join24(a, b);
  }

  lemma ByJ30(a: bv32, b: bv32)
    requires a < 2 && b < 0x4000_0000
    ensures J30(a, b) as int == a as int * 0x4000_0000 + b as int
  {
    Join30(a, b);
  }

  lemma FromTheRight5(a: bv32, b: bv32, c: bv32, d: bv32, e: bv32)
    ensures (a << 24) | (b << 18) | (c << 12) | (d << 6) | e == J24(a, J18(b, J12(c, J6(d, e))))
  {
  }

  lemma FromTheRight6(z: bv32, a: bv32, b: bv32, c: bv32, d: bv32, e: bv32)
    ensures (z << 30) | (a << 24) | (b << 18) | (c << 12) | (d << 6) | e == J30(z, J24(a, J18(b, J12(c, J6(d, e)))))
  {
  }

  lemma Low6(b: bv8)
    ensures b as bv32 & 63 < 64
  {
  }

  lemma Five(b0: bv8, b1: bv8, b2: bv8, b3: bv8, b4: bv8)
    ensures (((b0 as bv32 & 3) << 24) | ((b1 as bv32 & 63) << 18) | ((b2 as bv32 & 63) << 12)
             | ((b3 as bv32 & 63) << 6) | (b4 as bv32 & 63)) as int
         == (((b0 as int % 4 * 64 + b1 as int % 64) * 64 + b2 as int % 64) * 64 + b3 as int % 64) * 64 + b4 as int % 64
  {
    Mask3(b0);
    Mask63(b1);
    Mask63(b2);
    Mask63(b3);
    Mask63(b4);
    Low6(b1);
    Low6(b2);
    Low6(b3);
    Low6(b4);
    LowTwo(b0);
    var a, b, c, d, e := b0 as bv32 & 3, b1 as bv32 & 63, b2 as bv32 & 63, b3 as bv32 & 63, b4 as bv32 & 63;
    LessThan64(a);
    JoinFive(a, b, c, d, e);
    FromTheRight5(a, b, c, d, e);
    hide *;
  }

  lemma LessThan64(a: bv32)
    requires a < 4
    ensures a < 64
  {
  }

  lemma LowTwo(b: bv8)
    ensures b as bv32 & 3 < 4
  {
  }

  lemma JoinFive(a: bv32, b: bv32, c: bv32, d: bv32, e: bv32)
    requires a < 64 && b < 64 && c < 64 && d < 64 && e < 64
    ensures var x := J24(a, J18(b, J12(c, J6(d, e))));
      x < 0x4000_0000
      && x as int == (((a as int * 64 + b as int) * 64 + c as int) * 64 + d as int) * 64 + e as int
  {
    hide *;
    ByJ6(d, e);
    ByJ12(c, J6(d, e));
    ByJ18(b, J12(c, J6(d, e)));
    ByJ24(a, J18(b, J12(c, J6(d, e))));
  }

  lemma Six(b0: bv8, b1: bv8, b2: bv8, b3: bv8, b4: bv8, b5: bv8)
    ensures (((b0 as bv32 & 1) << 30) | ((b1 as bv32 & 63) << 24) | ((b2 as bv32 & 63) << 18)
             | ((b3 as bv32 & 63) << 12) | ((b4 as bv32 & 63) << 6) | (b5 as bv32 & 63)) as int
         == ((((b0 as int % 2 * 64 + b1 as int % 64) * 64 + b2 as int % 64) * 64 + b3 as int % 64) * 64
             + b4 as int % 64) * 64 + b5 as int % 64
  {
    Mask1(b0);
    Mask63(b1);
    Mask63(b2);
    Mask63(b3);
    Mask63(b4);
    Mask63(b5);
    Low6(b1);
    Low6(b2);
    Low6(b3);
    Low6(b4);
    Low6(b5);
    LowOne(b0);
    var z, a, b, c, d, e := b0 as bv32 & 1, b1 as bv32 & 63, b2 as bv32 & 63, b3 as bv32 & 63, b4 as bv32 & 63,
      b5 as bv32 & 63;
    JoinFive(a, b, c, d, e);
    FromTheRight6(z, a, b, c, d, e);
    ByJ30(z, J24(a, J18(b, J12(c, J6(d, e)))));
    hide *;
  }

  lemma LowOne(b: bv8)
    ensures b as bv32 & 1 < 2
  {
  }

  /** String.fromCharCode: the low sixteen bits. */
  function CharCode(u: bv32): Unit {
    ((u & 0xFFFF) as bv16) as int
  }

  lemma Low16(u: bv32)
    requires u < 0x1_0000
    ensures CharCode(u) == u as int
  {
  }

  lemma Surrogates(u: bv32)
    requires 0x1_0000 <= u < 0x11_0000
    ensures var ch := u - 0x1_0000;
      && CharCode(0xD800 | (ch >> 10)) == 0xD800 + (u as int - 0x1_0000) / 0x400
      && CharCode(0xDC00 | (ch & 0x3FF)) == 0xDC00 + (u as int - 0x1_0000) % 0x400
  {
    var h, l := SplitLow10(u - 0x1_0000);
    Minus(u);
    JoinedSurrogates(u - 0x1_0000, h, l, u as int - 0x1_0000);
  }

  lemma JoinedSurrogates(ch: bv32, h: bv32, l: bv32, n: int)
    requires h < 0x400 && l < 0x400 && ch == (h << 10) | l && ch as int == n
    ensures CharCode(0xD800 | h) == 0xD800 + n / 0x400
    ensures CharCode(0xDC00 | l) == 0xDC00 + n % 0x400
  {
    Join10(h, l);
    DivMod(n, h as int, l as int);
    High(h);
    Low(l);
  }

  lemma SplitLow10(ch: bv32) returns (h: bv32, l: bv32)
    requires ch < 0x10_0000
    ensures h == ch >> 10 && l == ch & 0x3FF && h < 0x400 && l < 0x400 && ch == (h << 10) | l
  {
    h, l := ch >> 10, ch & 0x3FF;
  }

  lemma DivMod(x: int, h: int, l: int)
    requires x == h * 0x400 + l && 0 <= l < 0x400
    ensures x / 0x400 == h && x % 0x400 == l
  {
  }

  lemma High(h: bv32)
    requires h < 0x400
    ensures CharCode(0xD800 | h) == 0xD800 + h as int
  {
  }

  lemma Low(l: bv32)
    requires l < 0x400
    ensures CharCode(0xDC00 | l) == 0xDC00 + l as int
  {
  }

  lemma Join10(a: bv32, b: bv32)
    requires a < 0x400 && b < 0x400
    ensures ((a << 10) | b) as int == a as int * 0x400 + b as int
    ensures a as int < 0x400 && b as int < 0x400
  {
  }

  lemma Minus(u: bv32)
    requires 0x1_0000 <= u < 0x11_0000
    ensures (u - 0x1_0000) as int == u as int - 0x1_0000
  {
  }

  // ---------------------------------------------------------------------------------------------
  // The manual decoding loop
  // ---------------------------------------------------------------------------------------------

  /** HEAPU8[p]; past the end of the heap a typed array yields undefined, which masks to 0. */
  function Read(heap: seq<bv8>, p: nat): bv8 {
    if p < |heap| then heap[p] else 0
  }

  function ByteAt(heap: seq<bv8>, p: nat): int {
    Read(heap, p) as int
  }

  predicate Holds(heap: seq<bv8>, ptr: nat, bytes: seq<Byte>) {
    && ptr + |bytes| <= |heap|
    && forall k :: 0 <= k < |bytes| ==> ByteAt(heap, ptr + k) == bytes[k]
  }

  /** What one turn of the loop makes of the bytes at ptr: the code point (or for a short form the
      unit) and how far it moves. */
  function DecodeOne(heap: seq<bv8>, ptr: nat): (r: (bv32, nat))
    ensures r.1 > 0
  {
    var b0, b1, b2, b3 := Read(heap, ptr), Read(heap, ptr + 1), Read(heap, ptr + 2), Read(heap, ptr + 3);
    var u0, u1, u2, u3 := b0 as bv32, b1 as bv32 & 63, b2 as bv32 & 63, b3 as bv32 & 63;
    if u0 & 0x80 == 0 then (u0, 1)
    else if u0 & 0xE0 == 0xC0 then (((u0 & 31) << 6) | u1, 2)
    else if u0 & 0xF0 == 0xE0 then (((u0 & 15) << 12) | (u1 << 6) | u2, 3)
    else if u0 & 0xF8 == 0xF0 then (((u0 & 7) << 18) | (u1 << 12) | (u2 << 6) | u3, 4)
    else
      var u4 := Read(heap, ptr + 4) as bv32 & 63;
      if u0 & 0xFC == 0xF8 then
        (((u0 & 3) << 24) | (u1 << 18) | (u2 << 12) | (u3 << 6) | u4, 5)
      else
        var u5 := Read(heap, ptr + 5) as bv32 & 63;
        (((u0 & 1) << 30) | (u1 << 24) | (u2 << 18) | (u3 << 12) | (u4 << 6) | u5, 6)
  }

  function CodeAt(heap: seq<bv8>, ptr: nat): int {
    DecodeOne(heap, ptr).0 as int
  }

  lemma StartTwo(b: bv8)
    requires 0xC0 <= b as int < 0xE0
    ensures b as bv32 & 0xE0 == 0xC0
  {
  }

  lemma StartThree(b: bv8)
    requires 0xE0 <= b as int < 0xF0
    ensures b as bv32 & 0xF0 == 0xE0
  {
  }

  lemma StartFour(b: bv8)
    requires 0xF0 <= b as int < 0xF8
    ensures b as bv32 & 0xF8 == 0xF0
  {
  }

  lemma DecodesOne(heap: seq<bv8>, ptr: nat)
    requires ptr < |heap| && ByteAt(heap, ptr) < 0x80
    ensures CodeAt(heap, ptr) == ByteAt(heap, ptr) && DecodeOne(heap, ptr).1 == 1
  {
  }

  lemma DecodesTwo(heap: seq<bv8>, ptr: nat)
    requires ptr + 2 <= |heap| && 0xC0 <= ByteAt(heap, ptr) < 0xE0
    ensures CodeAt(heap, ptr) == ByteAt(heap, ptr) % 32 * 64 + ByteAt(heap, ptr + 1) % 64
    ensures DecodeOne(heap, ptr).1 == 2
  {
    StartTwo(heap[ptr]);
    PickTwo(heap, ptr);
    hide DecodeOne;
    Two(heap[ptr], heap[ptr + 1]);
  }

  lemma PickTwo(heap: seq<bv8>, ptr: nat)
    requires ptr + 2 <= |heap| && heap[ptr] as bv32 & 0xE0 == 0xC0
    ensures DecodeOne(heap, ptr) == (((heap[ptr] as bv32 & 31) << 6) | (heap[ptr + 1] as bv32 & 63), 2)
  {
  }

  lemma DecodesThree(heap: seq<bv8>, ptr: nat)
    requires ptr + 3 <= |heap| && 0xE0 <= ByteAt(heap, ptr) < 0xF0
    ensures CodeAt(heap, ptr) ==
      (ByteAt(heap, ptr) % 16 * 64 + ByteAt(heap, ptr + 1) % 64) * 64 + ByteAt(heap, ptr + 2) % 64
    ensures DecodeOne(heap, ptr).1 == 3
  {
    StartThree(heap[ptr]);
    PickThree(heap, ptr);
    hide DecodeOne;
    Three(heap[ptr], heap[ptr + 1], heap[ptr + 2]);
  }

  lemma PickThree(heap: seq<bv8>, ptr: nat)
    requires ptr + 3 <= |heap| && heap[ptr] as bv32 & 0xF0 == 0xE0
    ensures DecodeOne(heap, ptr) ==
      (((heap[ptr] as bv32 & 15) << 12) | ((heap[ptr + 1] as bv32 & 63) << 6) | (heap[ptr + 2] as bv32 & 63), 3)
  {
  }

  lemma DecodesFour(heap: seq<bv8>, ptr: nat)
    requires ptr + 4 <= |heap| && 0xF0 <= ByteAt(heap, ptr) < 0xF8
    ensures CodeAt(heap, ptr) ==
      ((ByteAt(heap, ptr) % 8 * 64 + ByteAt(heap, ptr + 1) % 64) * 64 + ByteAt(heap, ptr + 2) % 64) * 64
      + ByteAt(heap, ptr + 3) % 64
    ensures DecodeOne(heap, ptr).1 == 4
  {
    StartFour(heap[ptr]);
    PickFour(heap, ptr);
    hide DecodeOne;
    Four(heap[ptr], heap[ptr + 1], heap[ptr + 2], heap[ptr + 3]);
  }

  lemma PickFour(heap: seq<bv8>, ptr: nat)
    requires ptr + 4 <= |heap| && heap[ptr] as bv32 & 0xF8 == 0xF0
    ensures DecodeOne(heap, ptr) ==
      (((heap[ptr] as bv32 & 7) << 18) | ((heap[ptr + 1] as bv32 & 63) << 12)
       | ((heap[ptr + 2] as bv32 & 63) << 6) | (heap[ptr + 3] as bv32 & 63), 4)
  {
  }

  lemma StartFive(b: bv8)
    requires 0xF8 <= b as int < 0xFC
    ensures b as bv32 & 0xFC == 0xF8
  {
  }

  lemma PickFive(heap: seq<bv8>, ptr: nat)
    requires 0xF8 <= ByteAt(heap, ptr) < 0xFC
    ensures var b0, b1, b2 := Read(heap, ptr), Read(heap, ptr + 1), Read(heap, ptr + 2);
      var b3, b4 := Read(heap, ptr + 3), Read(heap, ptr + 4);
      DecodeOne(heap, ptr) ==
        (((b0 as bv32 & 3) << 24) | ((b1 as bv32 & 63) << 18) | ((b2 as bv32 & 63) << 12) | ((b3 as bv32 & 63) << 6)
         | (b4 as bv32 & 63), 5)
  {
    StartFive(Read(heap, ptr));
    hide Read;
  }

  /** The five- and six-byte forms of older UTF-8 read as the values they stood for. */
  lemma DecodesFive(heap: seq<bv8>, ptr: nat)
    requires 0xF8 <= ByteAt(heap, ptr) < 0xFC
    ensures CodeAt(heap, ptr) ==
      (((ByteAt(heap, ptr) % 4 * 64 + ByteAt(heap, ptr + 1) % 64) * 64 + ByteAt(heap, ptr + 2) % 64) * 64
       + ByteAt(heap, ptr + 3) % 64) * 64 + ByteAt(heap, ptr + 4) % 64
    ensures DecodeOne(heap, ptr).1 == 5
  {
    PickFive(heap, ptr);
    hide DecodeOne;
    hide Read;
    Five(Read(heap, ptr), Read(heap, ptr + 1), Read(heap, ptr + 2), Read(heap, ptr + 3), Read(heap, ptr + 4));
  }

  lemma StartSix(b: bv8)
    requires 0xFC <= b as int
    ensures b as bv32 & 0x80 != 0 && b as bv32 & 0xE0 != 0xC0 && b as bv32 & 0xF0 != 0xE0
    ensures b as bv32 & 0xF8 != 0xF0 && b as bv32 & 0xFC != 0xF8
  {
  }

  lemma PickSix(heap: seq<bv8>, ptr: nat)
    requires 0xFC <= ByteAt(heap, ptr)
    ensures var b0, b1, b2 := Read(heap, ptr), Read(heap, ptr + 1), Read(heap, ptr + 2);
      var b3, b4, b5 := Read(heap, ptr + 3), Read(heap, ptr + 4), Read(heap, ptr + 5);
      DecodeOne(heap, ptr) ==
        (((b0 as bv32 & 1) << 30) | ((b1 as bv32 & 63) << 24) | ((b2 as bv32 & 63) << 18) | ((b3 as bv32 & 63) << 12)
         | ((b4 as bv32 & 63) << 6) | (b5 as bv32 & 63), 6)
  {
    StartSix(Read(heap, ptr));
    hide Read;
  }

  lemma DecodesSix(heap: seq<bv8>, ptr: nat)
    requires 0xFC <= ByteAt(heap, ptr)
    ensures CodeAt(heap, ptr) ==
      ((((ByteAt(heap, ptr) % 2 * 64 + ByteAt(heap, ptr + 1) % 64) * 64 + ByteAt(heap, ptr + 2) % 64) * 64
        + ByteAt(heap, ptr + 3) % 64) * 64 + ByteAt(heap, ptr + 4) % 64) * 64 + ByteAt(heap, ptr + 5) % 64
    ensures DecodeOne(heap, ptr).1 == 6
  {
    PickSix(heap, ptr);
    hide DecodeOne;
    hide Read;
    Six(Read(heap, ptr), Read(heap, ptr + 1), Read(heap, ptr + 2), Read(heap, ptr + 3), Read(heap, ptr + 4),
        Read(heap, ptr + 5));
  }

  /** The bytes of a scalar value, spelled out. */
  lemma ScalarBytes(c: Scalar)
    ensures c < 0x80 ==> Encode(c) == [c]
    ensures 0x80 <= c < 0x800 ==> Encode(c) == [0xC0 + c / 64, 0x80 + c % 64]
    ensures 0x800 <= c < 0x1_0000 ==>
      Encode(c) == [0xE0 + c / 64 / 64, 0x80 + c / 64 % 64, 0x80 + c % 64]
    ensures 0x1_0000 <= c ==>
      Encode(c) == [0xF0 + c / 64 / 64 / 64, 0x80 + c / 64 / 64 % 64, 0x80 + c / 64 % 64, 0x80 + c % 64]
  {
    var d := c / 64;
    var e := d / 64;
    assert Top(c, 1) == d && Top(c, 2) == Top(d, 1) == e && Top(c, 3) == Top(d, 2) == Top(e, 1) == e / 64;
    assert Conts(c, 1) == [0x80 + c % 64] && Conts(d, 1) == [0x80 + d % 64] && Conts(e, 1) == [0x80 + e % 64];
    assert Conts(c, 2) == Conts(d, 1) + [0x80 + c % 64] && Conts(d, 2) == Conts(e, 1) + [0x80 + d % 64];
    assert Conts(c, 3) == Conts(d, 2) + [0x80 + c % 64];
  }

  lemma RecombineTwo(c: int)
    requires 0x80 <= c < 0x800
    ensures (0xC0 + c / 64) % 32 * 64 + (0x80 + c % 64) % 64 == c
  {
  }

  lemma RecombineThree(c: int)
    requires 0x800 <= c < 0x1_0000
    ensures ((0xE0 + c / 64 / 64) % 16 * 64 + (0x80 + c / 64 % 64) % 64) * 64 + (0x80 + c % 64) % 64 == c
  {
  }

  lemma RecombineFour(c: int)
    requires 0x1_0000 <= c < 0x11_0000
    ensures (((0xF0 + c / 64 / 64 / 64) % 8 * 64 + (0x80 + c / 64 / 64 % 64) % 64) * 64
             + (0x80 + c / 64 % 64) % 64) * 64 + (0x80 + c % 64) % 64 == c
  {
  }

  /** One turn reads exactly the one scalar value encoded at ptr. */
  lemma DecodesScalar(heap: seq<bv8>, ptr: nat, c: Scalar)
    requires Holds(heap, ptr, Encode(c))
    ensures CodeAt(heap, ptr) == c && DecodeOne(heap, ptr).1 == |Encode(c)|
  {
    hide DecodeOne;
    hide ByteAt;
    hide CodeAt;
    hide Encode;
    var e := Encode(c);
    ScalarBytes(c);
    assert ByteAt(heap, ptr + 0) == e[0];
    if c < 0x80 {
      DecodesOne(heap, ptr);
    } else if c < 0x800 {
      assert ByteAt(heap, ptr + 1) == e[1];
      DecodesTwo(heap, ptr);
      RecombineTwo(c);
    } else if c < 0x1_0000 {
      assert ByteAt(heap, ptr + 1) == e[1] && ByteAt(heap, ptr + 2) == e[2];
      DecodesThree(heap, ptr);
      RecombineThree(c);
    } else {
      assert ByteAt(heap, ptr + 1) == e[1] && ByteAt(heap, ptr + 2) == e[2];
      assert ByteAt(heap, ptr + 3) == e[3];
      DecodesFour(heap, ptr);
      RecombineFour(c);
    }
  }

  /** The units a turn appends for a code point above the one-byte and two-byte forms. */
  function UnitsOf(u: bv32): seq<Unit> {
    if u < 0x1_0000 then [CharCode(u)]
    else
      var ch := u - 0x1_0000;
      [CharCode(0xD800 | (ch >> 10)), CharCode(0xDC00 | (ch & 0x3FF))]
  }

  lemma UnitsOfScalar(u: bv32, c: Scalar)
    requires u as int == c
    ensures UnitsOf(u) == Units(c)
  {
    Below(u);
    if u < 0x1_0000 {
      Low16(u);
    } else {
      Surrogates(u);
    }
  }

  lemma Below(u: bv32)
    ensures u < 0x1_0000 <==> u as int < 0x1_0000
    ensures u < 0x11_0000 <==> u as int < 0x11_0000
  {
  }

  /** The reading half of a turn. */
  method ReadOne(heap: seq<bv8>, p: nat) returns (u0: bv32, ptr: nat)
    ensures (u0, ptr - p) == DecodeOne(heap, p)
  {
    hide Read;
    u0 := Read(heap, p) as bv32;
    if u0 & 0x80 == 0 {
      return u0, p + 1;
    }
    var u1 := Read(heap, p + 1) as bv32 & 63;
    if u0 & 0xE0 == 0xC0 {
      return ((u0 & 31) << 6) | u1, p + 2;
    }
    var u2 := Read(heap, p + 2) as bv32 & 63;
    if u0 & 0xF0 == 0xE0 {
      return ((u0 & 15) << 12) | (u1 << 6) | u2, p + 3;
    }
    var u3 := Read(heap, p + 3) as bv32 & 63;
    if u0 & 0xF8 == 0xF0 {
      return ((u0 & 7) << 18) | (u1 << 12) | (u2 << 6) | u3, p + 4;
    }
    var u4 := Read(heap, p + 4) as bv32 & 63;
    if u0 & 0xFC == 0xF8 {
      return ((u0 & 3) << 24) | (u1 << 18) | (u2 << 12) | (u3 << 6) | u4, p + 5;
    }
    var u5 := Read(heap, p + 5) as bv32 & 63;
    return ((u0 & 1) << 30) | (u1 << 24) | (u2 << 18) | (u3 << 12) | (u4 << 6) | u5, p + 6;
  }

  lemma ShortForms(heap: seq<bv8>, p: nat)
    ensures var (u, n) := DecodeOne(heap, p); n <= 2 ==> UnitsOf(u) == [CharCode(u)]
  {
    hide CharCode;
  }

  /** The appending half of a turn. */
  method UnitsFor(u0: bv32) returns (units: seq<Unit>)
    ensures units == UnitsOf(u0)
  {
    hide CharCode;
    if u0 < 0x1_0000 {
      units := [CharCode(u0)];
    } else {
      var ch := u0 - 0x1_0000;
      units := [CharCode(0xD800 | (ch >> 10)), CharCode(0xDC00 | (ch & 0x3FF))];
    }
  }

  /** One turn of the loop: the units it appends, and where it leaves ptr. */
  method Turn(heap: seq<bv8>, p: nat) returns (units: seq<Unit>, ptr: nat)
    ensures units == UnitsOf(DecodeOne(heap, p).0) && ptr == p + DecodeOne(heap, p).1
  {
    ShortForms(heap, p);
    hide DecodeOne;
    hide CharCode;
    hide UnitsOf;
    var u0;
    u0, ptr := ReadOne(heap, p);
    if ptr - p <= 2 {
      units := [CharCode(u0)];
    } else {
      units := UnitsFor(u0);
    }
  }

  /** What is true after i scalar values: where ptr stands and what str holds. */
  ghost predicate Progress(ptr0: nat, cps: seq<Scalar>, i: nat, ptr: nat, str: seq<Unit>) {
    i <= |cps| && ptr == ptr0 + |Text(true, cps[..i])| && str == Utf16(cps[..i])
  }

  lemma TurnProgress(heap: seq<bv8>, ptr0: nat, cps: seq<Scalar>, i: nat, ptr: nat, str: seq<Unit>)
    requires Holds(heap, ptr0, Text(true, cps)) && Progress(ptr0, cps, i, ptr, str) && i < |cps|
    ensures Progress(ptr0, cps, i + 1, ptr + DecodeOne(heap, ptr).1, str + UnitsOf(DecodeOne(heap, ptr).0))
    ensures ptr < ptr0 + |Text(true, cps)|
  {
    hide DecodeOne;
    hide UnitsOf;
    hide Encode;
    TextAt(true, cps, i);
    assert Holds(heap, ptr, Encode(cps[i])) by {
      forall k | 0 <= k < |Encode(cps[i])| ensures ByteAt(heap, ptr + k) == Encode(cps[i])[k] {
        assert Text(true, cps)[ptr - ptr0 + k] == Encode(cps[i])[k];
      }
    }
    DecodesScalar(heap, ptr, cps[i]);
    UnitsOfScalar(DecodeOne(heap, ptr).0, cps[i]);
    assert cps[..i + 1][..i] == cps[..i];
  }

  /** The loop.  On the well-formed UTF-8 of any scalar values it appends exactly their UTF-16 code
      units, and it has read exactly len bytes when it ends. */
  method Utf8ArrayToString(heap: seq<bv8>, ptr0: nat, len: nat, ghost cps: seq<Scalar>)
    returns (str: seq<Unit>, ptr: nat)
    ensures len == |Text(true, cps)| && Holds(heap, ptr0, Text(true, cps)) ==>
      str == Utf16(cps) && ptr == ptr0 + len
  {
    hide DecodeOne;
    hide UnitsOf;
    hide Holds;
    ptr := ptr0;
    var endPtr := ptr + len;
    str := [];
    ghost var i := 0;
    ghost var wellFormed := len == |Text(true, cps)| && Holds(heap, ptr0, Text(true, cps));
    while ptr < endPtr
      invariant wellFormed ==> Progress(ptr0, cps, i, ptr, str)
    {
      if wellFormed {
        assert cps[..|cps|] == cps;
        TurnProgress(heap, ptr0, cps, i, ptr, str);
      }
      var units;
      units, ptr := Turn(heap, ptr);
      str := str + units;
      i := i + 1;
    }
    if wellFormed {
      if i < |cps| {
        TurnProgress(heap, ptr0, cps, i, ptr, str);
      }
      assert cps[..i] == cps;
    }
  }
}
