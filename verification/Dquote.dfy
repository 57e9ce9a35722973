/** The escapes \x and \o of dquote.c: a cursor over the bytes after the backslash. */
module Dquote {
  import opened Utf8
  import opened Grok

  datatype Message =
    | EmptyX | UseBraces | NonHex | MissingRightBrace | EmptyBraces | CodePointTooLarge
    | MissingBraces | NonOctal

  /** A code point, with `alien` when a diagnostic about a digit that is none is due; or an error. */
  datatype Parse = Parsed(uv: nat, alien: bool) | Failed(message: Message)

  predicate IsBlank(c: Byte) {
    c == 0x20 || c == 0x09
  }

  const LBRACE: Byte := 0x7B
  const RBRACE: Byte := 0x7D

  /** memchr(b + i, '}', |b| - i): where it is, or the end. */
  function FirstBrace(b: seq<Byte>, i: nat): (r: nat)
    requires i <= |b|
    ensures i <= r <= |b| && (r < |b| ==> b[r] == RBRACE)
    ensures forall k :: i <= k < r ==> b[k] != RBRACE
    decreases |b| - i
  {
    if i == |b| || b[i] == RBRACE then i else FirstBrace(b, i + 1)
  }

  // ---------------------------------------------------------------------------------------------
  // What the text between braces, or the bare digits, stand for
  // ---------------------------------------------------------------------------------------------

  /** A text without the blanks around it. */
  function Trimmed(t: seq<Byte>): seq<Byte> {
    if t == [] then []
    else if IsBlank(t[0]) then Trimmed(t[1..])
    else if IsBlank(t[|t| - 1]) then Trimmed(t[..|t| - 1])
    else t
  }

  /** \x{t} and \o{t}, for t without blanks around it. */
  function Braced(t: seq<Byte>, shift: nat, strict: bool, allowMax: bool): Parse
    requires shift in {3, 4}
  {
    if t == [] then if strict || shift == 3 then Failed(EmptyBraces) else Parsed(0, false)
    else
      var v, e := ValueFrom(t, 0, shift, true, 0), End(t, 0, shift, true);
      if v > MAX_UV || (v == MAX_UV && !allowMax) then Failed(CodePointTooLarge)
      else if e < |t| && strict then Failed(if shift == 4 then NonHex else NonOctal)
      else Parsed(v, e < |t|)
  }

  /** \x without braces, in front of the memory b: at most two digits, and exactly two if strict. */
  function Bare(b: seq<Byte>, strict: bool): Parse {
    var v, n := ValueFrom(Start(b, Limit(strict)), 0, 4, false, 0), Taken(b, strict);
    if n == 3 then Failed(UseBraces)
    else if n == 2 then Parsed(v, false)
    else if strict then Failed(NonHex)
    else Parsed(v, n < |b| && b[n] != 0)
  }

  function Limit(strict: bool): nat {
    if strict then 3 else 2
  }

  /** How many digits it looks at. */
  function Taken(b: seq<Byte>, strict: bool): (n: nat)
    ensures n <= Limit(strict) && n <= |b|
  {
    End(Start(b, Limit(strict)), 0, 4, false)
  }

  function Start(b: seq<Byte>, n: nat): seq<Byte> {
    if |b| > n then b[..n] else b
  }

  // ---------------------------------------------------------------------------------------------
  // What is written reads back
  // ---------------------------------------------------------------------------------------------

  predicate AllBlank(t: seq<Byte>) {
    forall i :: 0 <= i < |t| ==> IsBlank(t[i])
  }

  lemma {:induction false} TrimmedBack(t: seq<Byte>, post: seq<Byte>)
    requires t != [] && !IsBlank(t[0]) && !IsBlank(t[|t| - 1]) && AllBlank(post)
    ensures Trimmed(t + post) == t
  {
    if post == [] {
      assert t + post == t;
    } else {
      var n := |post| - 1;
      TrimmedBack(t, post[..n]);
      assert (t + post)[..|t + post| - 1] == t + post[..n];
    }
  }

  /** Blanks around a text are trimmed, and only those. */
  lemma {:induction false} TrimmedIs(pre: seq<Byte>, t: seq<Byte>, post: seq<Byte>)
    requires t != [] && !IsBlank(t[0]) && !IsBlank(t[|t| - 1]) && AllBlank(pre) && AllBlank(post)
    ensures Trimmed(pre + t + post) == t
  {
    if pre == [] {
      assert pre + t + post == t + post;
      TrimmedBack(t, post);
    } else {
      assert (pre + t + post)[0] == pre[0] && (pre + t + post)[1..] == pre[1..] + t + post;
      TrimmedIs(pre[1..], t, post);
    }
  }

  lemma SpelledEnds(v: nat, shift: nat, upper: bool)
    requires shift in {3, 4}
    ensures var d := Spell(v, shift, upper);
      !IsBlank(d[0]) && !IsBlank(d[|d| - 1]) && forall i :: 0 <= i < |d| ==> IsDigit(d[i], shift) && d[i] != RBRACE
  {
    SpellIsNumber(v, shift, upper);
    var d := Spell(v, shift, upper);
    hide Spell;
    assert IsDigit(d[0], shift) && IsDigit(d[|d| - 1], shift);
  }

  /** A number between braces, in either alphabet and with blanks around it, stands for itself if it is not
      too large. */
  lemma BracedReadsBack(v: nat, shift: nat, upper: bool, pre: seq<Byte>, post: seq<Byte>, strict: bool, allowMax: bool)
    requires shift in {3, 4} && AllBlank(pre) && AllBlank(post)
    ensures Braced(Trimmed(pre + Spell(v, shift, upper) + post), shift, strict, allowMax) ==
      if v > MAX_UV || (v == MAX_UV && !allowMax) then Failed(CodePointTooLarge) else Parsed(v, false)
  {
    var d := Spell(v, shift, upper);
    SpelledEnds(v, shift, upper);
    assert d + [] == d;
    ReadsBack(v, shift, upper, [], true);
    TrimmedIs(pre, d, post);
    hide Spell;
    hide Trimmed;
    hide ValueFrom;
    hide End;
    hide DigitValue;
  }

  /** ... and one with anything else behind it up to its first character that is neither a digit nor an
      underscore: an error if strict, and otherwise a reason for a diagnostic. */
  lemma BracedStops(v: UV, shift: nat, upper: bool, x: Byte, rest: seq<Byte>, strict: bool)
    requires shift in {3, 4} && !IsDigit(x, shift) && x != UNDERSCORE
    ensures Braced(Spell(v, shift, upper) + ([x] + rest), shift, strict, true) ==
      if strict then Failed(if shift == 4 then NonHex else NonOctal) else Parsed(v, true)
  {
    var d := Spell(v, shift, upper);
    assert (d + ([x] + rest))[|d|] == x;
    ReadsBack(v, shift, upper, [x] + rest, true);
    hide Spell;
    hide ValueFrom;
    hide End;
    hide DigitValue;
  }

  /** Nothing, or nothing but blanks, between braces is NUL for a lax \x, and otherwise an error. */
  lemma {:induction false} BracedBlank(t: seq<Byte>, shift: nat, strict: bool, allowMax: bool)
    requires shift in {3, 4} && AllBlank(t)
    ensures Braced(Trimmed(t), shift, strict, allowMax) ==
      if shift == 4 && !strict then Parsed(0, false) else Failed(EmptyBraces)
  {
    if t != [] {
      BracedBlank(t[1..], shift, strict, allowMax);
    }
  }

  lemma {:induction false} BraceIsAt(b: seq<Byte>, i: nat, e: nat)
    requires i <= e < |b| && b[e] == RBRACE && forall k :: i <= k < e ==> b[k] != RBRACE
    ensures FirstBrace(b, i) == e
    decreases e - i
  {
    if i < e {
      BraceIsAt(b, i + 1, e);
    }
  }

  /** The whole escape: x or o, a brace, blanks, a number, blanks and a brace; whatever comes after it. */
  lemma EscapeReadsBack(buf: seq<Byte>, send: nat, s0: nat, e: nat, v: UV, shift: nat, upper: bool,
                        pre: seq<Byte>, post: seq<Byte>, strict: bool, allowMax: bool)
    requires shift in {3, 4} && AllBlank(pre) && AllBlank(post) && (v < MAX_UV || allowMax)
    requires s0 + 2 <= e < send <= |buf| && buf[s0 + 1] == LBRACE && buf[e] == RBRACE
    requires buf[s0 + 2..e] == pre + Spell(v, shift, upper) + post
    ensures Opens(buf, s0, send) && FirstBrace(buf[..send], s0 + 1) == e
    ensures Braced(Trimmed(buf[s0 + 2..e]), shift, strict, allowMax) == Parsed(v, false)
  {
    var t := buf[s0 + 2..e];
    SpelledEnds(v, shift, upper);
    BracedReadsBack(v, shift, upper, pre, post, strict, allowMax);
    var d := Spell(v, shift, upper);
    hide Spell;
    hide DigitValue;
    hide Trimmed;
    hide Braced;
    forall k | s0 + 1 <= k < e ensures buf[..send][k] != RBRACE {
      if k > s0 + 1 {
        var j := k - (s0 + 2);
        assert buf[k] == t[j];
        assert t[j] == if j < |pre| then pre[j] else if j < |pre| + |d| then d[j - |pre|]
                       else post[j - |pre| - |d|];
      }
    }
    BraceIsAt(buf[..send], s0 + 1, e);
  }

  /** Two hex digits without braces stand for their number, if a strict escape sees no third one. */
  lemma BareReadsBack(hi: nat, lo: nat, upper: bool, rest: seq<Byte>, strict: bool)
    requires hi < 16 && lo < 16 && (strict && rest != [] ==> !IsDigit(rest[0], 4))
    ensures Bare([DigitChar(hi, upper), DigitChar(lo, upper)] + rest, strict) == Parsed(16 * hi + lo, false)
  {
    var h, l := DigitChar(hi, upper), DigitChar(lo, upper);
    DigitsAre(h, 4, hi);
    DigitsAre(l, 4, lo);
    hide DigitValue;
    hide DigitChar;
    var b := Start([h, l] + rest, Limit(strict));
    assert b[0] == h && b[1] == l && (|b| > 2 ==> b[2] == rest[0]);
    assert Next(b, 0, 4, false) == 1 && Next(b, 1, 4, false) == 1 && Next(b, 2, 4, false) == 0;
    assert End(b, 2, 4, false) == 2 && End(b, 1, 4, false) == 2 && End(b, 0, 4, false) == 2;
    assert ValueFrom(b, 2, 4, false, 16 * hi + lo) == 16 * hi + lo;
    assert ValueFrom(b, 1, 4, false, hi) == 16 * hi + lo;
    assert ValueFrom(b, 0, 4, false, 0) == 16 * hi + lo;
  }

  /** Fewer digits without braces: an error if strict, and otherwise the number there is, with a diagnostic
      unless a NUL or nothing at all ends it. Three digits are an error if strict. */
  lemma BareWithFewer(k: nat, upper: bool, rest: seq<Byte>, strict: bool)
    requires k < 16 && (rest != [] ==> !IsDigit(rest[0], 4))
    ensures Bare([DigitChar(k, upper)] + rest, strict) ==
      if strict then Failed(NonHex) else Parsed(k, rest != [] && rest[0] != 0)
    ensures Bare(rest, strict) == if strict then Failed(NonHex) else Parsed(0, rest != [] && rest[0] != 0)
  {
    var c := DigitChar(k, upper);
    CharsAreDigits(k, 4, upper);
    hide DigitValue;
    hide DigitChar;
    var b, none := Start([c] + rest, Limit(strict)), Start(rest, Limit(strict));
    assert b[0] == c && (|b| > 1 ==> b[1] == rest[0]) && (|none| > 0 ==> none[0] == rest[0]);
    assert Next(b, 0, 4, false) == 1 && Next(b, 1, 4, false) == 0 && Next(none, 0, 4, false) == 0;
    assert End(b, 1, 4, false) == 1 && End(b, 0, 4, false) == 1 && End(none, 0, 4, false) == 0;
    assert ValueFrom(b, 1, 4, false, k) == k && ValueFrom(b, 0, 4, false, 0) == k;
    assert ValueFrom(none, 0, 4, false, 0) == 0;
    assert rest != [] ==> ([c] + rest)[1] == rest[0];
  }

  lemma BareWithThree(b: seq<Byte>)
    requires |b| >= 3 && IsDigit(b[0], 4) && IsDigit(b[1], 4) && IsDigit(b[2], 4)
    ensures Bare(b, true) == Failed(UseBraces)
  {
    hide DigitValue;
    var t := Start(b, 3);
    assert Next(t, 0, 4, false) == Next(t, 1, 4, false) == Next(t, 2, 4, false) == 1 && Next(t, 3, 4, false) == 0;
    assert End(t, 3, 4, false) == 3 && End(t, 2, 4, false) == 3 && End(t, 1, 4, false) == 3;
    assert End(t, 0, 4, false) == 3;
    hide ValueFrom;
  }

  // ---------------------------------------------------------------------------------------------
  // A code point never takes more bytes than its escape
  // ---------------------------------------------------------------------------------------------

  function Pow16(n: nat): (p: nat)
    ensures p > 0
  {
    if n == 0 then 1 else 16 * Pow16(n - 1)
  }

  lemma {:induction false} ValueBelow(b: seq<Byte>, i: nat, shift: nat, under: bool, sofar: nat)
    requires shift in {3, 4} && i <= |b| && sofar < Pow16(i)
    ensures ValueFrom(b, i, shift, under, sofar) < Pow16(End(b, i, shift, under))
    decreases |b| - i
  {
    hide DigitValue;
    hide Base;
    hide Pow16;
    hide Next;
    var k := Next(b, i, shift, under);
    if k > 0 {
      var more: nat := sofar * Base(shift) + DigitValue(b[i + k - 1], shift);
      OneMoreDigit(sofar, Base(shift), DigitValue(b[i + k - 1], shift), Pow16(i));
      Pow16Step(i);
      Pow16Grows(i + 1, i + k);
      ValueBelow(b, i + k, shift, under, more);
    }
  }

  lemma Pow16Step(n: nat)
    ensures Pow16(n + 1) == 16 * Pow16(n)
  {
  }

  lemma OneMoreDigit(value: nat, base: nat, digit: nat, p: nat)
    requires base in {8, 16} && digit < base && value < p
    ensures value * base + digit < 16 * p
  {
  }

  /** n digits make a code point whose encoding is at most n + 3 bytes long. */
  lemma DigitsPayForEncoding(v: UV, n: nat)
    requires v < Pow16(n)
    ensures Skip(v) <= n + 3 && (n <= 2 ==> Skip(v) <= n + 1)
  {
    assert Pow16(3) == 0x1000 && Pow16(9) == 0x10_0000_0000 by {
      assert Pow16(4) == 0x1_0000 && Pow16(5) == 0x10_0000 && Pow16(6) == 0x100_0000 && Pow16(7) == 0x1000_0000;
    }
    if n <= 9 {
      Pow16Grows(n, 9);
    }
    if n <= 3 {
      Pow16Grows(n, 3);
    }
    if n <= 2 {
      assert Pow16(0) == 1 && Pow16(1) == 16 && Pow16(2) == 256;
    }
  }

  lemma {:induction false} Pow16Grows(m: nat, n: nat)
    requires m <= n
    ensures Pow16(m) <= Pow16(n)
  {
    if m < n {
      Pow16Grows(m, n - 1);
    }
  }

  /** \x{t}: three bytes, t, and the brace. */
  lemma BracedFits(t: seq<Byte>, shift: nat, strict: bool, allowMax: bool)
    requires shift in {3, 4} && Braced(t, shift, strict, allowMax).Parsed?
    ensures var v := Braced(t, shift, strict, allowMax).uv;
      v <= MAX_UV && Skip(v) <= 3 + |t| + 1
  {
    hide Skip;
    if t != [] {
      ValueBelow(t, 0, shift, true, 0);
      DigitsPayForEncoding(ValueFrom(t, 0, shift, true, 0), End(t, 0, shift, true));
    } else {
      DigitsPayForEncoding(0, 0);
    }
  }

  /** \x and at most two digits. */
  lemma BareFits(b: seq<Byte>, strict: bool)
    requires Bare(b, strict).Parsed?
    ensures var v := Bare(b, strict).uv;
      v <= MAX_UV && Skip(v) <= 2 + Taken(b, strict)
  {
    hide Skip;
    var t, n := Start(b, Limit(strict)), Taken(b, strict);
    ValueBelow(t, 0, 4, false, 0);
    Pow16Grows(n, 2);
    assert Pow16(2) == 256;
    DigitsPayForEncoding(ValueFrom(t, 0, 4, false, 0), n);
  }

  // ---------------------------------------------------------------------------------------------
  // grok_bslash_x and grok_bslash_o
  // ---------------------------------------------------------------------------------------------

  /** How far past a character that is no digit the cursor goes: UTF8_SAFE_SKIP, or one byte. */
  function AlienLength(b: seq<Byte>, s: nat, utf: bool): (n: nat)
    requires s <= |b|
    ensures s < |b| || utf ==> s + n <= |b|
    ensures s + n <= |b| + 1
  {
    if !utf then 1
    else if s == |b| then 0
    else if SkipOf(b[s]) < |b| - s then SkipOf(b[s]) else |b| - s
  }

  /** In UTF-8 the cursor goes past the whole character. */
  lemma AlienIsSkipped(b: seq<Byte>, s: nat, c: UV, rest: seq<Byte>)
    requires s <= |b| && b[s..] == Encode(c) + rest
    ensures AlienLength(b, s, true) == |Encode(c)|
  {
    if Skip(c) > 1 {
      TopFits(c);
    }
    assert b[s] == b[s..][0] == Encode(c)[0] && |b| - s == |b[s..]|;
    hide Top;
    hide Conts;
  }

  lemma TrimFront(t: seq<Byte>)
    requires t != [] && IsBlank(t[0])
    ensures Trimmed(t) == Trimmed(t[1..])
  {
  }

  lemma TrimBack(t: seq<Byte>)
    requires t != [] && !IsBlank(t[0]) && IsBlank(t[|t| - 1])
    ensures Trimmed(t) == Trimmed(t[..|t| - 1])
  {
  }

  lemma NothingToTrim(t: seq<Byte>)
    requires t != [] ==> !IsBlank(t[0]) && !IsBlank(t[|t| - 1])
    ensures Trimmed(t) == t
  {
  }

  /** The text between blanks: both loops stop at its ends. */
  method Trim(b: seq<Byte>, open: nat, rbrace: nat) returns (s: nat, e: nat)
    requires open < rbrace < |b| && b[rbrace] == RBRACE
    ensures open < s <= e <= rbrace && b[s..e] == Trimmed(b[open + 1..rbrace])
    ensures !IsBlank(b[s])
  {
    hide Trimmed;
    s := open + 1;
    while IsBlank(b[s])
      invariant open < s <= rbrace && Trimmed(b[s..rbrace]) == Trimmed(b[open + 1..rbrace])
      decreases rbrace - s
    {
      TrimFront(b[s..rbrace]);
      assert b[s..rbrace][1..] == b[s + 1..rbrace];
      s := s + 1;
    }
    e := rbrace;
    while s < e && IsBlank(b[e - 1])
      invariant s <= e <= rbrace && Trimmed(b[s..e]) == Trimmed(b[open + 1..rbrace])
    {
      TrimBack(b[s..e]);
      assert b[s..e][..e - s - 1] == b[s..e - 1];
      e := e - 1;
    }
    NothingToTrim(b[s..e]);
  }

  /** Where the complaint about a missing brace points: past the blanks and the digits. */
  method Unclosed(b: seq<Byte>, open: nat, shift: nat) returns (s: nat)
    requires shift in {3, 4} && open < |b|
    ensures open < s <= |b|
  {
    s := open + 1;
    while s < |b| && IsBlank(b[s])
      invariant open < s <= |b|
    {
      s := s + 1;
    }
    while s < |b| && IsDigit(b[s], shift)
      invariant open < s <= |b|
    {
      s := s + 1;
    }
  }

  /** From the opening brace on. All of b is what is before `send`: nothing else is ever looked at. */
  method Braces(b: seq<Byte>, open: nat, shift: nat, strict: bool, allowMax: bool, utf: bool)
    returns (r: Parse, s: nat)
    requires shift in {3, 4} && open < |b| && b[open] == LBRACE
    ensures var rbrace := FirstBrace(b, open);
      r == if rbrace == |b| then Failed(MissingRightBrace)
           else Braced(Trimmed(b[open + 1..rbrace]), shift, strict, allowMax)
    ensures open < s <= |b|
    ensures r.Parsed? ==> s == FirstBrace(b, open) + 1
  {
    hide ValueFrom;
    hide Trimmed;
    var rbrace := FirstBrace(b, open);
    if rbrace == |b| {
      s := Unclosed(b, open, shift);
      return Failed(MissingRightBrace), s;
    }
    var e;
    s, e := Trim(b, open, rbrace);
    if e == s {
      if strict || shift == 3 {
        return Failed(EmptyBraces), s + 1;
      }
      return Parsed(0, false), rbrace + 1;
    }
    var uv, len, notify, tooLarge := GrokNumber(b[s..e], shift, true);
    if tooLarge || (!allowMax && uv == MAX_UV) {
      return Failed(CodePointTooLarge), if shift == 4 then e + 1 else rbrace + 1;
    }
    // The source now skips blanks from s, which is still at the first character of the number: none.
    assert !IsBlank(b[s]);
    var alien := false;
    if len != e - s {
      s := s + len;
      if strict {
        return Failed(if shift == 4 then NonHex else NonOctal), s + AlienLength(b, s, utf);
      }
      alien := true;
    }
    return Parsed(uv, alien), rbrace + 1;
  }

  /** The bytes after the backslash that \x is about begin with a brace. */
  predicate Opens(buf: seq<Byte>, s: nat, send: nat) {
    s + 1 < send <= |buf| && buf[s + 1] == LBRACE
  }

  // ---------------------------------------------------------------------------------------------
  // \x without braces: grok_hex is told to look at two or three bytes, whatever `send` is
  // ---------------------------------------------------------------------------------------------

  /** The bytes from s on that grok_hex looks at are there. */
  predicate Available(buf: seq<Byte>, s: nat, strict: bool) {
    s <= |buf| && (s + Limit(strict) <= |buf| || Taken(buf[s..], strict) < |buf| - s)
  }

  /** The result of \x without braces, whose first byte would be at s. */
  function BareResult(buf: seq<Byte>, send: nat, s: nat, strict: bool): Parse
    requires s <= |buf|
  {
    if send <= s then if strict then Failed(EmptyX) else Parsed(0, false) else Bare(buf[s..], strict)
  }

  /** Where it leaves the cursor. */
  function BareStop(buf: seq<Byte>, send: nat, s: nat, strict: bool, utf: bool): nat
    requires s <= |buf| && send <= |buf|
  {
    if send <= s then s
    else
      var n := Taken(buf[s..], strict);
      if strict && n < 2 then s + n + AlienLength(buf[..send], s + n, utf) else s + n
  }

  /** Exactly the leading digits are taken, as far as grok_hex looks. */
  lemma {:induction false} DigitsTaken(t: seq<Byte>, i: nat)
    requires i <= |t|
    ensures var e := End(t, i, 4, false);
      && (forall j :: i <= j < e ==> IsDigit(t[j], 4))
      && (e < |t| ==> !IsDigit(t[e], 4))
    decreases |t| - i
  {
    hide DigitValue;
    if i < |t| && IsDigit(t[i], 4) {
      DigitsTaken(t, i + 1);
    }
  }

  lemma TakenAre(b: seq<Byte>, strict: bool)
    ensures var n := Taken(b, strict);
      && (forall j :: 0 <= j < n ==> IsDigit(b[j], 4))
      && (n < Limit(strict) && n < |b| ==> !IsDigit(b[n], 4))
  {
    hide DigitValue;
    DigitsTaken(Start(b, Limit(strict)), 0);
    hide End;
  }

  /** The value depends on the digits alone. */
  lemma {:induction false} SameDigits(t: seq<Byte>, t': seq<Byte>, i: nat, value: nat)
    requires i <= |t| && i <= |t'| && End(t, i, 4, false) == End(t', i, 4, false)
    requires forall j :: i <= j < End(t, i, 4, false) ==> t[j] == t'[j]
    ensures ValueFrom(t, i, 4, false, value) == ValueFrom(t', i, 4, false, value)
    decreases |t| - i
  {
    hide DigitValue;
    if i < |t| && IsDigit(t[i], 4) {
      SameDigits(t, t', i + 1, value * 16 + DigitValue(t[i], 4));
    }
  }

  /** The byte at `send` is looked at: everything before it is a digit, and there are not yet enough. */
  predicate ReadsSend(buf: seq<Byte>, send: nat, s: nat, strict: bool)
    requires send <= |buf|
  {
    s < send < s + Limit(strict) && forall j :: s <= j < send ==> IsDigit(buf[j], 4)
  }

  /** Otherwise nothing from `send` on makes any difference. */
  lemma NotRead(buf: seq<Byte>, buf': seq<Byte>, send: nat, s: nat, strict: bool, utf: bool)
    requires s <= send <= |buf| && send <= |buf'| && buf[..send] == buf'[..send]
    requires !ReadsSend(buf, send, s, strict)
    ensures BareResult(buf, send, s, strict) == BareResult(buf', send, s, strict)
    ensures BareStop(buf, send, s, strict, utf) == BareStop(buf', send, s, strict, utf)
  {
    hide DigitValue;
    if s < send {
      assert forall j :: 0 <= j < send ==> buf[j] == buf[..send][j] && buf'[j] == buf'[..send][j];
      var b, b' := buf[s..], buf'[s..];
      TakenAre(b, strict);
      TakenAre(b', strict);
      var n := Taken(b, strict);
      StopsBefore(buf, send, s, strict);
      assert forall j :: s <= j < send ==> buf[j] == b[j - s] && buf'[j] == b'[j - s] && b[j - s] == b'[j - s];
      assert Taken(b', strict) == n;
      SameDigits(Start(b, Limit(strict)), Start(b', Limit(strict)), 0, 0);
      hide ValueFrom;
      hide End;
    }
  }

  /** Unless the byte at `send` is looked at, the digits end before it, or there are enough. */
  lemma StopsBefore(buf: seq<Byte>, send: nat, s: nat, strict: bool)
    requires s < send <= |buf| && !ReadsSend(buf, send, s, strict)
    ensures var n := Taken(buf[s..], strict); n <= send - s && (n < Limit(strict) ==> n < send - s)
  {
    hide DigitValue;
    var b := buf[s..];
    TakenAre(b, strict);
    hide Taken;
    var n := Taken(b, strict);
    assert forall j :: 0 <= j < n ==> IsDigit(buf[s + j], 4) && b[j] == buf[s + j];
  }

  /** How many digits are taken, from what stands before `send` and at it. */
  lemma TakenThrough(buf: seq<Byte>, send: nat, s: nat, strict: bool)
    requires send < |buf| && ReadsSend(buf, send, s, strict)
    ensures var n := Taken(buf[s..], strict);
      if IsDigit(buf[send], 4) then n > send - s else n == send - s
  {
    hide DigitValue;
    var b := buf[s..];
    TakenAre(b, strict);
    hide Taken;
    var n, k := Taken(b, strict), send - s;
    assert b[k] == buf[send] && forall j :: 0 <= j < k ==> b[j] == buf[s + j] && IsDigit(buf[s + j], 4);
  }

  /** The same memory with a NUL at `send`, as perl's own strings have it. */
  function Terminated(buf: seq<Byte>, send: nat): seq<Byte>
    requires send < |buf|
  {
    buf[send := 0]
  }

  /** If it is looked at, a byte at `send` that is no NUL changes the outcome exactly if it is a digit, or
      if not being one deserves a diagnostic. */
  lemma ReadChanges(buf: seq<Byte>, send: nat, s: nat, strict: bool, utf: bool)
    requires send < |buf| && ReadsSend(buf, send, s, strict)
    ensures var nul := Terminated(buf, send);
      && s <= |nul|
      && (BareResult(buf, send, s, strict) == BareResult(nul, send, s, strict)
          && BareStop(buf, send, s, strict, utf) == BareStop(nul, send, s, strict, utf)
          <==> !IsDigit(buf[send], 4) && (strict || buf[send] == 0))
  {
    var nul := Terminated(buf, send);
    assert nul[..send] == buf[..send] && forall j :: s <= j < send ==> nul[j] == buf[j];
    TakenThrough(buf, send, s, strict);
    TakenThrough(nul, send, s, strict);
    assert !IsDigit(nul[send], 4);
    var b, b', k := buf[s..], nul[s..], send - s;
    assert b[k] == buf[send] && b'[k] == 0 && forall j :: 0 <= j < k ==> b[j] == b'[j];
    hide DigitValue;
    if !IsDigit(buf[send], 4) {
      SameDigits(Start(b, Limit(strict)), Start(b', Limit(strict)), 0, 0);
    }
    hide ValueFrom;
    hide End;
  }

  /** When the cursor ends up beyond `send`: a digit there was taken, or a byte that is not there is
      skipped for the error message. */
  lemma BeyondSend(buf: seq<Byte>, send: nat, s: nat, strict: bool, utf: bool)
    requires s < send < |buf|
    ensures BareStop(buf, send, s, strict, utf) > send <==>
      || (ReadsSend(buf, send, s, strict) && IsDigit(buf[send], 4))
      || (strict && !utf && send == s + 1 && Taken(buf[s..], strict) == 1)
  {
    if ReadsSend(buf, send, s, strict) {
      TakenThrough(buf, send, s, strict);
    } else {
      StopsBefore(buf, send, s, strict);
    }
    hide Taken;
  }

  /** With a NUL at `send` this takes a single digit at the very end of a strict escape not in UTF-8. */
  lemma BeyondNul(buf: seq<Byte>, send: nat, s: nat, strict: bool, utf: bool)
    requires s < send < |buf| && buf[send] == 0
    ensures BareStop(buf, send, s, strict, utf) <= send + 1
    ensures BareStop(buf, send, s, strict, utf) == send + 1 <==> strict && !utf && send == s + 1 && IsDigit(buf[s], 4)
  {
    BeyondSend(buf, send, s, strict, utf);
    TakenAre(buf[s..], strict);
    if ReadsSend(buf, send, s, strict) {
      TakenThrough(buf, send, s, strict);
    } else {
      StopsBefore(buf, send, s, strict);
    }
    assert buf[s..][0] == buf[s];
    hide Taken;
  }

  /** For instance \x4 at the end of a string. */
  lemma CursorPastTheEnd()
    ensures var buf := [0x5C, 0x78, 0x34, 0];
      && BareResult(buf, 3, 2, true) == Failed(NonHex) && BareStop(buf, 3, 2, true, false) == 4
  {
    var buf: seq<Byte> := [0x5C, 0x78, 0x34, 0];
    BeyondNul(buf, 3, 2, true, false);
    TakenAre(buf[2..], true);
    assert buf[2..][0] == 0x34 && buf[2..][1] == 0;
  }

  /** For instance \x4 before a byte "1" that is not part of the string. */
  lemma DigitPastTheEnd()
    ensures var buf := [0x5C, 0x78, 0x34, 0x31];
      && BareResult(buf, 3, 2, false) == Parsed(0x41, false) && BareStop(buf, 3, 2, false, false) == 4
  {
    var buf: seq<Byte> := [0x5C, 0x78, 0x34, 0x31];
    var b := buf[2..];
    assert b == [0x34, 0x31] && Start(b, 2) == b;
    assert Next(b, 0, 4, false) == 1 && Next(b, 1, 4, false) == 1 && Next(b, 2, 4, false) == 0;
    assert End(b, 2, 4, false) == 2 && End(b, 1, 4, false) == 2 && End(b, 0, 4, false) == 2;
    assert ValueFrom(b, 2, 4, false, 0x41) == 0x41 && ValueFrom(b, 1, 4, false, 4) == 0x41;
    assert ValueFrom(b, 0, 4, false, 0) == 0x41;
  }

  /** grok_bslash_x, called with s at the x: the code point or the error, and where to go on. */
  method GrokBslashX(buf: seq<Byte>, send: nat, s0: nat, strict: bool, allowMax: bool, utf: bool)
    returns (r: Parse, s: nat)
    requires 0 < s0 < send <= |buf|
    requires s0 + 1 < send && !Opens(buf, s0, send) ==> Available(buf, s0 + 1, strict)
    ensures r == if Opens(buf, s0, send) then
                   var rbrace := FirstBrace(buf[..send], s0 + 1);
                   if rbrace == send then Failed(MissingRightBrace)
                   else Braced(Trimmed(buf[s0 + 2..rbrace]), 4, strict, allowMax)
                 else BareResult(buf, send, s0 + 1, strict)
    ensures if Opens(buf, s0, send) then s0 < s <= send && (r.Parsed? ==> s == FirstBrace(buf[..send], s0 + 1) + 1)
            else s == BareStop(buf, send, s0 + 1, strict, utf)
    ensures r.Parsed? ==> r.uv <= MAX_UV && Skip(r.uv) <= s - (s0 - 1)
  {
    hide Skip;
    hide Trimmed;
    hide Braced;
    hide BareResult;
    hide BareStop;
    if Opens(buf, s0, send) {
      r, s := Braces(buf[..send], s0 + 1, 4, strict, allowMax, utf);
      var rbrace := FirstBrace(buf[..send], s0 + 1);
      assert rbrace < send ==> buf[..send][s0 + 2..rbrace] == buf[s0 + 2..rbrace];
      if r.Parsed? {
        TrimmedShorter(buf[s0 + 2..rbrace]);
        BracedFits(Trimmed(buf[s0 + 2..rbrace]), 4, strict, allowMax);
      }
    } else {
      r, s := BareX(buf, send, s0, strict, utf);
    }
  }

  lemma {:induction false} TrimmedShorter(t: seq<Byte>)
    ensures |Trimmed(t)| <= |t|
  {
    if t != [] {
      if IsBlank(t[0]) {
        TrimmedShorter(t[1..]);
      } else if IsBlank(t[|t| - 1]) {
        TrimmedShorter(t[..|t| - 1]);
      }
    }
  }

  /** grok_hex on the two or three bytes from s on, of which it looks at those up to the first that is no
      digit. */
  method BareDigits(buf: seq<Byte>, s: nat, strict: bool) returns (uv: UV, len: nat, notify: bool)
    requires Available(buf, s, strict)
    ensures var b := buf[s..];
      && len == Taken(b, strict) && uv == ValueFrom(Start(b, Limit(strict)), 0, 4, false, 0)
      && notify == (len < |b| && len < Limit(strict) && b[len] != 0)
  {
    hide DigitValue;
    var tooLarge;
    var window := Start(buf[s..], Limit(strict));
    uv, len, notify, tooLarge := GrokNumber(window, 4, false);
    ValueBelow(window, 0, 4, false, 0);
    Pow16Grows(len, 3);
    assert Pow16(3) == 0x1000;
  }

  /** The part of grok_bslash_x for an empty \x and one without braces. */
  method BareX(buf: seq<Byte>, send: nat, s0: nat, strict: bool, utf: bool) returns (r: Parse, s: nat)
    requires 0 < s0 < send <= |buf| && (s0 + 1 < send ==> Available(buf, s0 + 1, strict))
    ensures r == BareResult(buf, send, s0 + 1, strict) && s == BareStop(buf, send, s0 + 1, strict, utf)
    ensures r.Parsed? ==> r.uv <= MAX_UV && Skip(r.uv) <= s - (s0 - 1)
  {
    hide ValueFrom;
    hide End;
    hide Skip;
    s := s0 + 1;
    if send <= s {
      if strict {
        return Failed(EmptyX), s;
      }
      DigitsPayForEncoding(0, 0);
      return Parsed(0, false), s;
    }
    if Bare(buf[s..], strict).Parsed? {
      BareFits(buf[s..], strict);
    }
    var uv, numbers_len, notify := BareDigits(buf, s, strict);
    s := s + numbers_len;
    if numbers_len != 2 && (strict || notify) {
      if numbers_len == 3 {
        return Failed(UseBraces), s;
      }
      if strict {
        return Failed(NonHex), s + AlienLength(buf[..send], s, utf);
      }
      return Parsed(uv, true), s;
    }
    return Parsed(uv, false), s;
  }

  /** grok_bslash_o, called with s at the o. */
  method GrokBslashO(buf: seq<Byte>, send: nat, s0: nat, strict: bool, allowMax: bool, utf: bool)
    returns (r: Parse, s: nat)
    requires 0 < s0 < send <= |buf|
    ensures r == if !Opens(buf, s0, send) then Failed(MissingBraces)
                 else
                   var rbrace := FirstBrace(buf[..send], s0 + 1);
                   if rbrace == send then Failed(MissingRightBrace)
                   else Braced(Trimmed(buf[s0 + 2..rbrace]), 3, strict, allowMax)
    ensures s0 < s <= send
    ensures r.Parsed? ==> s == FirstBrace(buf[..send], s0 + 1) + 1 && r.uv <= MAX_UV && Skip(r.uv) <= s - (s0 - 1)
  {
    hide Skip;
    hide Trimmed;
    hide Braced;
    s := s0 + 1;
    if !Opens(buf, s0, send) {
      return Failed(MissingBraces), s;
    }
    r, s := Braces(buf[..send], s0 + 1, 3, strict, allowMax, utf);
    var rbrace := FirstBrace(buf[..send], s0 + 1);
    assert rbrace < send ==> buf[..send][s0 + 2..rbrace] == buf[s0 + 2..rbrace];
    if r.Parsed? {
      TrimmedShorter(buf[s0 + 2..rbrace]);
      BracedFits(Trimmed(buf[s0 + 2..rbrace]), 3, strict, allowMax);
    }
  }
}
