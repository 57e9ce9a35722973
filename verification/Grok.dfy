/** grok_hex and grok_oct of numeric.c: digits, perhaps with underscores, as an unsigned value. */
module Grok {
  import opened Utf8

  /** What a digit is worth, or -1. */
  function DigitValue(c: Byte, shift: nat): (v: int)
    requires shift in {3, 4}
    ensures -1 <= v < Base(shift)
  {
    if 0x30 <= c <= 0x37 then c - 0x30
    else if shift == 3 then -1
    else if 0x38 <= c <= 0x39 then c - 0x30
    else if 0x41 <= c <= 0x46 then c - 0x41 + 10
    else if 0x61 <= c <= 0x66 then c - 0x61 + 10
    else -1
  }

  function Base(shift: nat): (b: nat)
    requires shift in {3, 4}
    ensures b in {8, 16}
  {
    if shift == 3 then 8 else 16
  }

  predicate IsDigit(c: Byte, shift: nat)
    requires shift in {3, 4}
  {
    DigitValue(c, shift) >= 0
  }

  const UNDERSCORE: Byte := 0x5F

  // ---------------------------------------------------------------------------------------------
  // What a run of digits denotes
  // ---------------------------------------------------------------------------------------------

  /** The digits of a text, without its underscores. */
  function Digits(b: seq<Byte>): (d: seq<Byte>)
    ensures |d| <= |b|
  {
    if b == [] then []
    else
      var n := |b| - 1;
      Digits(b[..n]) + if b[n] == UNDERSCORE then [] else [b[n]]
  }

  predicate AllDigits(d: seq<Byte>, shift: nat)
    requires shift in {3, 4}
  {
    forall i :: 0 <= i < |d| ==> IsDigit(d[i], shift)
  }

  /** Positional notation. */
  function Number(d: seq<Byte>, shift: nat): nat
    requires shift in {3, 4} && AllDigits(d, shift)
  {
    if d == [] then 0
    else
      var n := |d| - 1;
      assert forall i :: 0 <= i < n ==> IsDigit(d[..n][i], shift);
      assert IsDigit(d[n], shift);
      Number(d[..n], shift) * Base(shift) + DigitValue(d[n], shift)
  }

  /** A digit, or with `under` a single underscore right before a digit, may go on at i; how far. */
  function Next(b: seq<Byte>, i: nat, shift: nat, under: bool): (k: nat)
    requires shift in {3, 4} && i <= |b|
    ensures k <= 2 && i + k <= |b| && (k > 0 ==> IsDigit(b[i + k - 1], shift))
  {
    if i < |b| && IsDigit(b[i], shift) then 1
    else if under && i + 1 < |b| && b[i] == UNDERSCORE && IsDigit(b[i + 1], shift) then 2
    else 0
  }

  /** Where the number that starts b ends. */
  function End(b: seq<Byte>, i: nat, shift: nat, under: bool): (e: nat)
    requires shift in {3, 4} && i <= |b|
    ensures i <= e <= |b| && Next(b, e, shift, under) == 0
    decreases |b| - i
  {
    var k := Next(b, i, shift, under);
    if k == 0 then i else End(b, i + k, shift, under)
  }

  /** Its value, if `sofar` is the value of what came before. */
  function ValueFrom(b: seq<Byte>, i: nat, shift: nat, under: bool, sofar: nat): nat
    requires shift in {3, 4} && i <= |b|
    decreases |b| - i
  {
    var k := Next(b, i, shift, under);
    if k == 0 then sofar
    else ValueFrom(b, i + k, shift, under, sofar * Base(shift) + DigitValue(b[i + k - 1], shift))
  }

  lemma DigitsStep(b: seq<Byte>, i: nat, shift: nat, under: bool)
    requires shift in {3, 4} && i <= |b| && Next(b, i, shift, under) > 0
    ensures var k := Next(b, i, shift, under);
      Digits(b[..i + k]) == Digits(b[..i]) + [b[i + k - 1]]
  {
    var k := Next(b, i, shift, under);
    assert b[..i + k][..i + k - 1] == b[..i + k - 1];
    if k == 2 {
      assert b[..i + 1][..i] == b[..i];
    }
  }

  lemma NumberStep(d: seq<Byte>, c: Byte, shift: nat)
    requires shift in {3, 4} && AllDigits(d, shift) && IsDigit(c, shift)
    ensures AllDigits(d + [c], shift)
    ensures Number(d + [c], shift) == Number(d, shift) * Base(shift) + DigitValue(c, shift)
  {
    assert (d + [c])[..|d|] == d;
  }

  /** The value is that of the digits in positional notation. */
  lemma {:induction false} ValueIsNumber(b: seq<Byte>, i: nat, shift: nat, under: bool)
    requires shift in {3, 4} && i <= |b| && AllDigits(Digits(b[..i]), shift)
    ensures var d := Digits(b[..End(b, i, shift, under)]);
      AllDigits(d, shift) && ValueFrom(b, i, shift, under, Number(Digits(b[..i]), shift)) == Number(d, shift)
    decreases |b| - i
  {
    hide Digits;
    hide Number;
    hide AllDigits;
    hide DigitValue;
    var k := Next(b, i, shift, under);
    if k > 0 {
      DigitsStep(b, i, shift, under);
      NumberStep(Digits(b[..i]), b[i + k - 1], shift);
      ValueIsNumber(b, i + k, shift, under);
    }
  }

  /** Values only grow, so that an overflow is never undone. */
  lemma {:induction false} ValueGrows(b: seq<Byte>, i: nat, shift: nat, under: bool, sofar: nat)
    requires shift in {3, 4} && i <= |b|
    ensures ValueFrom(b, i, shift, under, sofar) >= sofar
    decreases |b| - i
  {
    hide DigitValue;
    var k := Next(b, i, shift, under);
    if k > 0 {
      ValueGrows(b, i + k, shift, under, sofar * Base(shift) + DigitValue(b[i + k - 1], shift));
    }
  }

  // ---------------------------------------------------------------------------------------------
  // Written numbers
  // ---------------------------------------------------------------------------------------------

  const UPPER: string := "0123456789ABCDEF"
  const LOWER: string := "0123456789abcdef"

  /** The character that stands for k. */
  function DigitChar(k: nat, upper: bool): (c: Byte)
    requires k < 16
  {
    assert forall i :: 0 <= i < 16 ==> UPPER[i] as int < 256 && LOWER[i] as int < 256;
    (if upper then UPPER else LOWER)[k] as int
  }

  /** The k-th character of either alphabet is worth k, as far as the base goes, and nothing else is a digit. */
  lemma DigitsAre(c: Byte, shift: nat, k: nat)
    requires shift in {3, 4} && k < Base(shift)
    ensures DigitValue(c, shift) == k <==> c == UPPER[k] as int || c == LOWER[k] as int
    ensures c == UNDERSCORE ==> !IsDigit(c, shift)
  {
  }

  /** v in base 8 or 16, with no leading zeros. */
  function Spell(v: nat, shift: nat, upper: bool): (s: seq<Byte>)
    requires shift in {3, 4}
    ensures s != []
  {
    var last := [DigitChar(v % Base(shift), upper)];
    if v < Base(shift) then last else Spell(v / Base(shift), shift, upper) + last
  }

  lemma CharsAreDigits(k: nat, shift: nat, upper: bool)
    requires shift in {3, 4} && k < Base(shift)
    ensures IsDigit(DigitChar(k, upper), shift) && DigitValue(DigitChar(k, upper), shift) == k
  {
    DigitsAre(DigitChar(k, upper), shift, k);
  }

  lemma Recomposed(v: nat, base: nat)
    requires base in {8, 16}
    ensures v / base * base + v % base == v && v % base < base && (v >= base ==> v / base < v)
  {
    if base == 8 {
      assert v / 8 * 8 + v % 8 == v;
    } else {
      assert v / 16 * 16 + v % 16 == v;
    }
  }

  lemma SpellSplit(v: nat, shift: nat, upper: bool) returns (q: nat, r: nat)
    requires shift in {3, 4} && v >= Base(shift)
    ensures r < Base(shift) && q * Base(shift) + r == v && q < v
    ensures Spell(v, shift, upper) == Spell(q, shift, upper) + [DigitChar(r, upper)]
  {
    hide DigitChar;
    Recomposed(v, Base(shift));
    q, r := v / Base(shift), v % Base(shift);
  }

  lemma SpellSmall(v: nat, shift: nat, upper: bool)
    requires shift in {3, 4} && v < Base(shift)
    ensures var d := Spell(v, shift, upper); AllDigits(d, shift) && Number(d, shift) == v
  {
    var c := DigitChar(v, upper);
    assert Spell(v, shift, upper) == [c];
    hide Spell;
    CharsAreDigits(v, shift, upper);
    EmptyNumber(shift);
    hide Number;
    NumberStep([], c, shift);
    assert [] + [c] == [c];
    hide DigitValue;
    hide DigitChar;
  }

  lemma {:induction false} SpellIsNumber(v: nat, shift: nat, upper: bool)
    requires shift in {3, 4}
    ensures var d := Spell(v, shift, upper); AllDigits(d, shift) && Number(d, shift) == v
    decreases v
  {
    if v < Base(shift) {
      SpellSmall(v, shift, upper);
    } else {
      var q, r := SpellSplit(v, shift, upper);
      hide DigitValue;
      hide DigitChar;
      hide AllDigits;
      hide Spell;
      hide Base;
      hide Number;
      CharsAreDigits(r, shift, upper);
      SpellIsNumber(q, shift, upper);
      NumberStep(Spell(q, shift, upper), DigitChar(r, upper), shift);
    }
  }

  lemma EmptyNumber(shift: nat)
    requires shift in {3, 4}
    ensures AllDigits([], shift) && Number([], shift) == 0
  {
  }

  lemma {:induction false} NoUnderscores(d: seq<Byte>, shift: nat)
    requires shift in {3, 4} && AllDigits(d, shift)
    ensures Digits(d) == d
  {
    if d != [] {
      var n := |d| - 1;
      assert IsDigit(d[n], shift) && forall i :: 0 <= i < n ==> IsDigit(d[i], shift);
      NoUnderscores(d[..n], shift);
      assert d == d[..n] + [d[n]];
    }
  }

  /** A number ends behind its digits if what follows cannot continue it. */
  predicate Ends(b: seq<Byte>, n: nat, shift: nat, under: bool)
    requires shift in {3, 4} && n <= |b|
  {
    n < |b| ==>
      && !IsDigit(b[n], shift)
      && !(under && b[n] == UNDERSCORE && n + 1 < |b| && IsDigit(b[n + 1], shift))
  }

  lemma {:induction false} EndsBehindDigits(b: seq<Byte>, i: nat, n: nat, shift: nat, under: bool)
    requires shift in {3, 4} && i <= n <= |b| && Ends(b, n, shift, under)
    requires forall j :: i <= j < n ==> IsDigit(b[j], shift)
    ensures End(b, i, shift, under) == n
    decreases n - i
  {
    hide DigitValue;
    if i < n {
      EndsBehindDigits(b, i + 1, n, shift, under);
    }
  }

  /** A spelled number reads back as itself, however large and whatever follows that cannot continue it. */
  lemma ReadsBack(v: nat, shift: nat, upper: bool, rest: seq<Byte>, under: bool)
    requires shift in {3, 4}
    requires var d := Spell(v, shift, upper); Ends(d + rest, |d|, shift, under)
    ensures var d := Spell(v, shift, upper);
      End(d + rest, 0, shift, under) == |d| && ValueFrom(d + rest, 0, shift, under, 0) == v
  {
    var d := Spell(v, shift, upper);
    var b := d + rest;
    SpellIsNumber(v, shift, upper);
    NoUnderscores(d, shift);
    hide DigitValue;
    hide Spell;
    forall j | 0 <= j < |d| ensures IsDigit(b[j], shift) {
      assert b[j] == d[j];
    }
    EndsBehindDigits(b, 0, |d|, shift, under);
    assert b[..0] == [] && b[..|d|] == d;
    ValueIsNumber(b, 0, shift, under);
  }

  /** A single underscore between digits does not count; two of them, or one with no digit behind it, end
      the number. */
  lemma Underscores(x: seq<Byte>, y: seq<Byte>, shift: nat)
    requires shift in {3, 4} && AllDigits(x, shift) && AllDigits(y, shift)
    ensures AllDigits(x + y, shift)
    ensures y != [] ==> var b := x + [UNDERSCORE] + y;
      End(b, 0, shift, true) == |b| && ValueFrom(b, 0, shift, true, 0) == Number(x + y, shift)
    ensures var b := x + [UNDERSCORE] + [UNDERSCORE] + y;
      End(b, 0, shift, true) == |x| && ValueFrom(b, 0, shift, true, 0) == Number(x, shift)
  {
    UnderscoreIn(x, y, shift);
    UnderscoreTwice(x, y, shift);
  }

  lemma UnderscoreIn(x: seq<Byte>, y: seq<Byte>, shift: nat)
    requires shift in {3, 4} && AllDigits(x, shift) && AllDigits(y, shift)
    ensures AllDigits(x + y, shift)
    ensures y != [] ==> var b := x + [UNDERSCORE] + y;
      End(b, 0, shift, true) == |b| && ValueFrom(b, 0, shift, true, 0) == Number(x + y, shift)
  {
    if y != [] {
      var b := x + [UNDERSCORE] + y;
      UnderscoreEnd(x, y, shift);
      UnderscoreDigits(x, y, shift);
      assert b[..0] == [] && b[..|b|] == b && Digits([]) == [];
      hide DigitValue;
      hide Digits;
      hide End;
      ValueIsNumber(b, 0, shift, true);
    }
  }

  lemma UnderscoreEnd(x: seq<Byte>, y: seq<Byte>, shift: nat)
    requires shift in {3, 4} && AllDigits(x, shift) && AllDigits(y, shift) && y != []
    ensures var b := x + [UNDERSCORE] + y; End(b, 0, shift, true) == |b|
  {
    DigitsAre(UNDERSCORE, shift, 0);
    hide DigitValue;
    var b := x + [UNDERSCORE] + y;
    assert forall j :: 0 <= j < |x| ==> b[j] == x[j];
    assert forall j :: |x| < j < |b| ==> b[j] == y[j - |x| - 1];
    EndPast(b, 0, |x|, shift);
    assert b[|x|] == UNDERSCORE && b[|x| + 1] == y[0];
    assert Next(b, |x|, shift, true) == 2;
    EndsBehindDigits(b, |x| + 2, |b|, shift, true);
  }

  lemma UnderscoreDigits(x: seq<Byte>, y: seq<Byte>, shift: nat)
    requires shift in {3, 4} && AllDigits(x, shift) && AllDigits(y, shift)
    ensures Digits(x + [UNDERSCORE] + y) == x + y
  {
    assert Digits([UNDERSCORE]) == [] && x + [] == x;
    hide DigitValue;
    NoUnderscores(x, shift);
    NoUnderscores(y, shift);
    DigitsConcat(x + [UNDERSCORE], y);
    DigitsConcat(x, [UNDERSCORE]);
    hide Digits;
  }

  lemma UnderscoreTwice(x: seq<Byte>, y: seq<Byte>, shift: nat)
    requires shift in {3, 4} && AllDigits(x, shift)
    ensures var b := x + [UNDERSCORE] + [UNDERSCORE] + y;
      End(b, 0, shift, true) == |x| && ValueFrom(b, 0, shift, true, 0) == Number(x, shift)
  {
    DigitsAre(UNDERSCORE, shift, 0);
    hide DigitValue;
    var b := x + [UNDERSCORE] + [UNDERSCORE] + y;
    assert b[|x|] == b[|x| + 1] == UNDERSCORE && forall j :: 0 <= j < |x| ==> b[j] == x[j];
    EndsBehindDigits(b, 0, |x|, shift, true);
    NoUnderscores(x, shift);
    assert b[..0] == [] && b[..|x|] == x;
    ValueIsNumber(b, 0, shift, true);
  }

  /** Digits are passed over. */
  lemma {:induction false} EndPast(b: seq<Byte>, i: nat, n: nat, shift: nat)
    requires shift in {3, 4} && i <= n <= |b| && forall j :: i <= j < n ==> IsDigit(b[j], shift)
    ensures End(b, i, shift, true) == End(b, n, shift, true)
    decreases n - i
  {
    hide DigitValue;
    if i < n {
      EndPast(b, i + 1, n, shift);
    }
  }

  lemma {:induction false} DigitsConcat(x: seq<Byte>, y: seq<Byte>)
    ensures Digits(x + y) == Digits(x) + Digits(y)
  {
    if y == [] {
      assert x + y == x;
    } else {
      var n := |y| - 1;
      assert (x + y)[..|x + y| - 1] == x + y[..n];
      DigitsConcat(x, y[..n]);
    }
  }

  // ---------------------------------------------------------------------------------------------
  // The code
  // ---------------------------------------------------------------------------------------------

  /** What is left to be read gives the result. */
  ghost predicate Partial(b: seq<Byte>, shift: nat, under: bool, s: nat, value: nat)
    requires shift in {3, 4}
  {
    && s <= |b|
    && ValueFrom(b, 0, shift, under, 0) == ValueFrom(b, s, shift, under, value)
    && End(b, 0, shift, under) == End(b, s, shift, under)
  }

  /** k digits have been taken: the value is still below 16 to the power k. */
  predicate Small(value: nat, k: nat) {
    k <= 8 && value < if k == 0 then 1 else if k == 1 then 0x10 else if k == 2 then 0x100 else if k == 3 then 0x1000
      else if k == 4 then 0x1_0000 else if k == 5 then 0x10_0000 else if k == 6 then 0x100_0000
      else if k == 7 then 0x1000_0000 else 0x1_0000_0000
  }

  /** One case of the unrolled switch: a digit is taken, anything else leaves the switch. */
  method Case(b: seq<Byte>, shift: nat, ghost under: bool, s: nat, value: nat)
    returns (stop: bool, s': nat, value': nat)
    requires shift in {3, 4} && s < |b| && s < 8 && Partial(b, shift, under, s, value) && Small(value, s)
    ensures stop == !IsDigit(b[s], shift)
    ensures s' == (if stop then s else s + 1) && Partial(b, shift, under, s', value') && Small(value', s')
  {
    stop := DigitValue(b[s], shift) < 0;
    s', value' := s, value;
    if !stop {
      value' := value * Base(shift) + DigitValue(b[s], shift);
      s' := s + 1;
    }
  }

  /** The switch: entered at the number of bytes there are, at most eight. */
  method Unrolled(b: seq<Byte>, shift: nat, ghost under: bool) returns (stop: bool, s: nat, value: nat)
    requires shift in {3, 4} && b != []
    ensures Partial(b, shift, under, s, value) && Small(value, s) && s <= 8
    ensures stop ==> s < |b| && !IsDigit(b[s], shift)
    ensures !stop ==> s == if |b| < 8 then |b| else 8
  {
    hide DigitValue;
    hide Partial;
    hide Small;
    Starts(b, shift, under);
    stop, s, value := false, 0, 0;
    if |b| >= 8 {
      stop, s, value := Case(b, shift, under, s, value);
    }
    if |b| >= 7 && !stop {
      stop, s, value := Case(b, shift, under, s, value);
    }
    if |b| >= 6 && !stop {
      stop, s, value := Case(b, shift, under, s, value);
    }
    if |b| >= 5 && !stop {
      stop, s, value := Case(b, shift, under, s, value);
    }
    if |b| >= 4 && !stop {
      stop, s, value := Case(b, shift, under, s, value);
    }
    if |b| >= 3 && !stop {
      stop, s, value := Case(b, shift, under, s, value);
    }
    if |b| >= 2 && !stop {
      stop, s, value := Case(b, shift, under, s, value);
    }
    if !stop {
      stop, s, value := Case(b, shift, under, s, value);
    }
  }

  lemma Starts(b: seq<Byte>, shift: nat, under: bool)
    requires shift in {3, 4}
    ensures Partial(b, shift, under, 0, 0) && Small(0, 0)
  {
  }

  /** The general loop, over what the switch has not taken. */
  method Remaining(b: seq<Byte>, shift: nat, under: bool, s0: nat, value: UV)
    returns (uv: UV, len: nat, notify: bool, tooLarge: bool)
    requires shift in {3, 4} && Partial(b, shift, under, s0, value)
    ensures len == End(b, 0, shift, under)
    ensures var v := ValueFrom(b, 0, shift, under, 0);
      tooLarge == (v > MAX_UV) && uv == if tooLarge then MAX_UV else v
    ensures notify == (len < |b| && b[len] != 0)
  {
    hide DigitValue;
    hide End;
    hide ValueFrom;
    var s, overflowed := s0, false;
    uv := value;
    ghost var exact: nat := value;
    notify := false;
    while s < |b|
      invariant s <= |b| && Partial(b, shift, under, s, exact)
      invariant if overflowed then exact > MAX_UV else uv == exact
      invariant !notify
    {
      var at := s;
      if DigitValue(b[s], shift) < 0 {
        if b[s] == UNDERSCORE && s + 1 < |b| && under && DigitValue(b[s + 1], shift) >= 0 {
          at := s + 1;
        } else {
          notify := b[s] != 0;
          break;
        }
      }
      var max_div := MAX_UV / Base(shift);
      Takes(b, shift, under, s, exact);
      exact := exact * Base(shift) + DigitValue(b[at], shift);
      if uv <= max_div {
        uv := uv * Base(shift) + DigitValue(b[at], shift);
      } else {
        uv := DigitValue(b[at], shift);
        overflowed := true;
      }
      s := at + 1;
    }
    Finished(b, shift, under, s, exact);
    len := s;
    tooLarge := overflowed;
    if overflowed {
      uv := MAX_UV;
    }
  }

  /** grok_bin_oct_hex on the bytes b: the value, how many bytes it took, whether it stopped at anything
      but a NUL, and whether the value is too large for a UV. A number as it is spelled reads back. */
  method GrokNumber(b: seq<Byte>, shift: nat, under: bool) returns (uv: UV, len: nat, notify: bool, tooLarge: bool)
    requires shift in {3, 4}
    ensures len == End(b, 0, shift, under)
    ensures var v := ValueFrom(b, 0, shift, under, 0);
      tooLarge == (v > MAX_UV) && uv == if tooLarge then MAX_UV else v
    ensures notify == (len < |b| && b[len] != 0)
    ensures forall v: nat, upper: bool :: b == Spell(v, shift, upper) ==>
      len == |b| && tooLarge == (v > MAX_UV) && (v <= MAX_UV ==> uv == v)
  {
    GrokSpelled(b, shift, under);
    hide DigitValue;
    hide Spell;
    hide End;
    hide ValueFrom;
    if b == [] {
      Starts(b, shift, under);
      Finished(b, shift, under, 0, 0);
      return 0, 0, false, false;
    }
    var stop, s, value := Unrolled(b, shift, under);
    if !stop && |b| <= 8 {
      Finished(b, shift, under, s, value);
      return value, |b|, false, false;
    }
    uv, len, notify, tooLarge := Remaining(b, shift, under, s, value);
  }

  lemma GrokSpelled(b: seq<Byte>, shift: nat, under: bool)
    requires shift in {3, 4}
    ensures forall v: nat, upper: bool :: b == Spell(v, shift, upper) ==>
      End(b, 0, shift, under) == |b| && ValueFrom(b, 0, shift, under, 0) == v
  {
    hide Spell;
    forall v: nat, upper: bool | b == Spell(v, shift, upper)
      ensures End(b, 0, shift, under) == |b| && ValueFrom(b, 0, shift, under, 0) == v
    {
      assert b + [] == b;
      ReadsBack(v, shift, upper, [], under);
    }
  }

  lemma Takes(b: seq<Byte>, shift: nat, under: bool, s: nat, value: nat)
    requires shift in {3, 4} && Partial(b, shift, under, s, value) && Next(b, s, shift, under) > 0
    ensures var k := Next(b, s, shift, under);
      Partial(b, shift, under, s + k, value * Base(shift) + DigitValue(b[s + k - 1], shift))
  {
    hide DigitValue;
  }

  lemma Finished(b: seq<Byte>, shift: nat, under: bool, s: nat, value: nat)
    requires shift in {3, 4} && Partial(b, shift, under, s, value) && Next(b, s, shift, under) == 0
    ensures End(b, 0, shift, under) == s && ValueFrom(b, 0, shift, under, 0) == value
  {
    hide DigitValue;
  }
}
