/**
  What the restart of do_trans_invmap does to memory: how long a copy must be for byte strings that
  become UTF-8, and what comes out when the restart happens in place.
 */
module TrRestart {
  import opened Utf8
  import opened TrSpec

  /** Some byte has a replacement that does not fit a byte. */
  ghost predicate HasWide(act: Map) {
    exists c: Byte :: act(c).To? && act(c).cp >= 0x100
  }

  lemma RestartHasWide(act: Map, src: seq<Byte>)
    ensures Restarts(act, false, src) ==> HasWide(act)
  {
    var k := FirstWide(act, src);
    FirstWideIsFirst(act, src);
    if k < |src| {
      assert act(src[k]).To? && act(src[k]).cp >= 0x100;
    }
  }

  // ---------------------------------------------------------------------------------------------
  // Into a copy
  // ---------------------------------------------------------------------------------------------

  /** How many bytes of UTF-8 the byte c becomes. */
  function ImageLength(act: Map, c: Byte): nat {
    match act(c)
    case Keep => Skip(c)
    case Drop => 0
    case To(t) => Skip(t)
  }

  /** The copy do_trans_invmap allocates for a string of n bytes. */
  function CopyLength(n: nat, expansion: real): int {
    (n as real * expansion).Floor + 2
  }

  /** The output of a byte string fits the copy. */
  predicate CopyEnough(act: Map, squash: bool, expansion: real, src: seq<CodePoint>) {
    |Text(Restarts(act, false, src), InvOutput(act, squash, false, src))| <= CopyLength(|src|, expansion)
  }

  /** The length of the upgraded output grows by at most the image of each byte, by exactly that without /s. */
  lemma OutputStep(act: Map, squash: bool, seen: seq<Token>, src: seq<Byte>, i: nat)
    requires i < |src|
    ensures var out, next := TrAfter(act, squash, seen, src[..i]), TrAfter(act, squash, seen, src[..i + 1]);
      && |Text(true, out)| <= |Text(true, next)| <= |Text(true, out)| + ImageLength(act, src[i])
      && (!squash ==> |Text(true, next)| == |Text(true, out)| + ImageLength(act, src[i]))
  {
    var a, before := act(src[i]), seen + Tokens(act, src[..i]);
    var out := TrAfter(act, squash, seen, src[..i]);
    TrStep(act, squash, seen, src, i);
    hide TrAfter;
    hide Repeats;
    hide Tokens;
    var more := Added(squash, before, a, src[i]);
    TextConcat(true, out, more);
    TextOfOne(src[i]);
    if a.To? {
      TextOfOne(a.cp);
    }
  }

  lemma TextOfOne(c: CodePoint)
    ensures |Text(true, [c])| == Skip(c) && |Text(true, [])| == 0
  {
    TextSnoc(true, [], c);
    assert [] + [c] == [c];
  }

  /** If every image fits the expansion, so does every output. */
  lemma {:induction false} OutputBounded(act: Map, squash: bool, seen: seq<Token>, src: seq<Byte>, expansion: real,
                                         i: nat)
    requires i <= |src| && forall c: Byte :: ImageLength(act, c) as real <= expansion
    ensures |Text(true, TrAfter(act, squash, seen, src[..i]))| as real <= i as real * expansion
  {
    hide ImageLength;
    hide TrAfter;
    hide Text;
    if i == 0 {
      NothingYet(act, squash, seen, src);
    } else {
      OutputBounded(act, squash, seen, src, expansion, i - 1);
      OutputStep(act, squash, seen, src, i - 1);
      var before, now := |Text(true, TrAfter(act, squash, seen, src[..i - 1]))|,
                         |Text(true, TrAfter(act, squash, seen, src[..i]))|;
      Shares(before, now, ImageLength(act, src[i - 1]), i, expansion);
    }
  }

  lemma NothingYet(act: Map, squash: bool, seen: seq<Token>, src: seq<CodePoint>)
    ensures TrAfter(act, squash, seen, src[..0]) == [] && Tokens(act, src[..0]) == []
    ensures |Text(true, TrAfter(act, squash, seen, src[..0]))| == 0
  {
    assert src[..0] == [] && Tokens(act, []) == [];
  }

  lemma Shares(before: nat, now: nat, image: nat, i: nat, expansion: real)
    requires i > 0 && now <= before + image && image as real <= expansion
    requires before as real <= (i - 1) as real * expansion
    ensures now as real <= i as real * expansion
  {
    assert i as real * expansion == (i - 1) as real * expansion + expansion;
  }

  /** Without /s every occurrence of c, here everything from `from` on, costs its whole image. */
  lemma {:induction false} OutputOfMany(act: Map, seen: seq<Token>, src: seq<Byte>, c: Byte, from: nat, i: nat)
    requires from <= i <= |src| && forall j :: from <= j < |src| ==> src[j] == c
    ensures |Text(true, TrAfter(act, false, seen, src[..i]))| >= (i - from) * ImageLength(act, c)
  {
    hide ImageLength;
    hide TrAfter;
    hide Text;
    if i > from {
      OutputOfMany(act, seen, src, c, from, i - 1);
      OutputStep(act, false, seen, src, i - 1);
      var k := i - 1 - from;
      assert (k + 1) * ImageLength(act, c) == k * ImageLength(act, c) + ImageLength(act, c);
    }
  }

  /** A wide replacement first and then n times c. */
  function Burst(w: Byte, c: Byte, n: nat): (src: seq<Byte>)
    ensures |src| == n + 1 && src[0] == w && forall j :: 1 <= j < |src| ==> src[j] == c
  {
    [w] + seq<Byte>(n, _ => c)
  }

  lemma FirstIsWide(act: Map, src: seq<CodePoint>)
    requires src != [] && act(src[0]).To? && act(src[0]).cp >= 0x100
    ensures FirstWide(act, src) == 0 && Restarts(act, false, src)
  {
    FirstWideIsFirst(act, src);
  }

  /** Enough occurrences of c overrun the copy as soon as its image is longer than the expansion. */
  lemma TooMany(image: nat, expansion: real) returns (n: nat)
    requires expansion >= 1.0 && image as real > expansion
    ensures n * image > CopyLength(n + 1, expansion)
  {
    var excess := image as real - expansion;
    n := ((expansion + 3.0) / excess).Floor + 1;
    Archimedes(expansion + 3.0, excess, n);
    assert n as real * image as real == n as real * expansion + n as real * excess;
    assert (n + 1) as real * expansion == n as real * expansion + expansion;
    assert (n * image) as real == n as real * image as real;
  }

  lemma Archimedes(x: real, excess: real, n: int)
    requires excess > 0.0 && n == (x / excess).Floor + 1
    ensures n as real * excess > x
  {
    var q := x / excess;
    assert q < n as real;
    assert q * excess == x;
  }

  /** With no /s, the copy is long enough for every byte string if and only if no byte has a wide
      replacement or the encoded image of every byte, kept bytes included, is at most `expansion` long. */
  lemma CopyEnoughExactly(act: Map, expansion: real)
    requires expansion >= 1.0
    ensures (forall src: seq<Byte> :: CopyEnough(act, false, expansion, src))
            <==> !HasWide(act) || forall c: Byte :: ImageLength(act, c) as real <= expansion
  {
    if !HasWide(act) || forall c: Byte :: ImageLength(act, c) as real <= expansion {
      forall src: seq<Byte> ensures CopyEnough(act, false, expansion, src) {
        CopyEnoughIf(act, false, expansion, src);
      }
    } else {
      var w: Byte :| act(w).To? && act(w).cp >= 0x100;
      var c: Byte :| ImageLength(act, c) as real > expansion;
      var n := TooMany(ImageLength(act, c), expansion);
      var src := Burst(w, c, n);
      FirstIsWide(act, src);
      assert src[..|src|] == src;
      OutputOfMany(act, Tokens(act, src[..0]), src, c, 1, |src|);
      assert !CopyEnough(act, false, expansion, src);
    }
  }

  /** The same condition suffices under /s, where it is more than is needed. */
  lemma CopyEnoughIf(act: Map, squash: bool, expansion: real, src: seq<Byte>)
    requires expansion >= 1.0
    requires !HasWide(act) || forall c: Byte :: ImageLength(act, c) as real <= expansion
    ensures CopyEnough(act, squash, expansion, src)
  {
    hide TrAfter;
    hide Tokens;
    hide Text;
    hide FirstWide;
    hide ImageLength;
    RestartHasWide(act, src);
    assert src[..|src|] == src;
    if Restarts(act, false, src) {
      var seen := Tokens(act, src[..FirstWide(act, src)]);
      OutputBounded(act, squash, seen, src, expansion, |src|);
      Rounded(|Text(true, TrAfter(act, squash, seen, src))|, |src|, expansion);
    } else {
      ByteOutput(act, squash, [], src);
      AtLeastItself(|src|, expansion);
    }
  }

  lemma Rounded(length: nat, n: nat, expansion: real)
    requires length as real <= n as real * expansion
    ensures length <= CopyLength(n, expansion)
  {
  }

  lemma AtLeastItself(n: nat, expansion: real)
    requires expansion >= 1.0
    ensures n + 2 <= CopyLength(n, expansion)
  {
    assert n as real <= n as real * expansion;
  }

  /** In bytes the output is never longer than the input. */
  lemma ByteOutput(act: Map, squash: bool, seen: seq<Token>, src: seq<CodePoint>)
    ensures |Text(false, TrAfter(act, squash, seen, src))| <= |src|
  {
    OneByteEach(TrAfter(act, squash, seen, src));
    FewTokens(act, src);
  }

  lemma {:induction false} OneByteEach(cps: seq<CodePoint>)
    ensures |Text(false, cps)| == |cps|
  {
    if cps != [] {
      OneByteEach(cps[..|cps| - 1]);
    }
  }

  lemma {:induction false} FewTokens(act: Map, src: seq<CodePoint>)
    ensures |Tokens(act, src)| <= |src|
  {
    if src != [] {
      FewTokens(act, src[..|src| - 1]);
    }
  }

  // ---------------------------------------------------------------------------------------------
  // Into a copy, under /s
  // ---------------------------------------------------------------------------------------------

  /** Under /s a byte that goes the way of the one before it costs nothing. */
  predicate SameImage(act: Map, c: Byte, d: Byte) {
    act(c).To? && act(c) == act(d)
  }

  /** No image is longer than the expansion and the two spare bytes, and no two that can stand next to
      each other are longer than what their bytes have a share in. */
  ghost predicate PairsFit(act: Map, expansion: real) {
    && (forall c: Byte :: ImageLength(act, c) as real <= expansion + 2.0)
    && (forall c: Byte, d: Byte ::
          !act(c).Drop? && !act(d).Drop? && !SameImage(act, c, d) ==>
            ImageLength(act, c) as real + ImageLength(act, d) as real <= 2.0 * expansion)
  }

  /** c is a byte that the last token stands for. */
  predicate Ends(act: Map, before: seq<Token>, c: Byte) {
    && before != [] && !act(c).Drop?
    && before[|before| - 1] == if act(c).Keep? then Kept(c) else New(act(c).cp)
  }

  lemma EndsNext(act: Map, seen: seq<Token>, ts: seq<Token>, c: Byte)
    ensures var next := seen + (ts + Emit(act(c), c));
      if act(c).Drop? then next == seen + ts else Ends(act, next, c)
  {
    assert ts + [] == ts;
  }

  lemma AddedCost(act: Map, before: seq<Token>, c: Byte, out: seq<CodePoint>)
    ensures |Text(true, out + Added(true, before, act(c), c))| == |Text(true, out)| +
              if act(c).To? && Repeats(before, New(act(c).cp)) then 0 else ImageLength(act, c)
  {
    hide Repeats;
    TextConcat(true, out, Added(true, before, act(c), c));
    TextOfOne(c);
    if act(c).To? {
      TextOfOne(act(c).cp);
    }
    hide Text;
  }

  /** One more byte under /s: nothing if it is dropped or squashed, its image otherwise. */
  lemma SquashedStep(act: Map, seen: seq<Token>, src: seq<Byte>, i: nat)
    requires i < |src|
    ensures var before, c := seen + Tokens(act, src[..i]), src[i];
      var out, next := TrAfter(act, true, seen, src[..i]), TrAfter(act, true, seen, src[..i + 1]);
      && |Text(true, next)| == |Text(true, out)| +
           (if act(c).To? && Repeats(before, New(act(c).cp)) then 0 else ImageLength(act, c))
      && (if act(c).Drop? then seen + Tokens(act, src[..i + 1]) == before
          else Ends(act, seen + Tokens(act, src[..i + 1]), c))
  {
    hide TrAfter;
    hide Tokens;
    hide Text;
    hide Repeats;
    hide Added;
    hide Emit;
    hide Ends;
    hide ImageLength;
    TrStep(act, true, seen, src, i);
    AddedCost(act, seen + Tokens(act, src[..i]), src[i], TrAfter(act, true, seen, src[..i]));
    EndsNext(act, seen, Tokens(act, src[..i]), src[i]);
  }

  /** The longest output of i bytes whose last token has an image of `last` bytes. */
  function Bound(i: nat, expansion: real, last: nat): real {
    i as real * expansion + if last as real > expansion then last as real - expansion else 0.0
  }

  lemma BoundSteps(i: nat, expansion: real, last: nat, next: nat)
    requires expansion >= 1.0
    ensures Bound(i, expansion, last) <= Bound(i + 1, expansion, last)
    ensures next as real <= Bound(i + 1, expansion, next)
    ensures last as real + next as real <= 2.0 * expansion ==>
      Bound(i, expansion, last) + next as real <= Bound(i + 1, expansion, next)
  {
    assert (i + 1) as real * expansion == i as real * expansion + expansion;
    assert i as real * expansion >= 0.0;
  }

  /** Nothing is written yet, or the output is within the bound for the byte its last token stands for. */
  ghost predicate Within(act: Map, before: seq<Token>, length: nat, i: nat, expansion: real) {
    if before == [] then length == 0
    else exists c: Byte :: Ends(act, before, c) && length as real <= Bound(i, expansion, ImageLength(act, c))
  }

  lemma WithinStep(act: Map, seen: seq<Token>, src: seq<Byte>, i: nat, expansion: real)
    requires expansion >= 1.0 && PairsFit(act, expansion) && i < |src|
    requires Within(act, seen + Tokens(act, src[..i]), |Text(true, TrAfter(act, true, seen, src[..i]))|, i, expansion)
    ensures Within(act, seen + Tokens(act, src[..i + 1]), |Text(true, TrAfter(act, true, seen, src[..i + 1]))|,
                   i + 1, expansion)
  {
    hide TrAfter;
    hide Tokens;
    hide Text;
    hide ImageLength;
    hide Bound;
    var before, next, d := seen + Tokens(act, src[..i]), seen + Tokens(act, src[..i + 1]), src[i];
    SquashedStep(act, seen, src, i);
    if act(d).Drop? {
      DroppedIsNothing(act, d);
    }
    if before == [] {
      BoundSteps(i, expansion, 0, ImageLength(act, d));
      assert !act(d).Drop? ==> Ends(act, next, d);
    } else {
      var c: Byte :| Ends(act, before, c)
        && |Text(true, TrAfter(act, true, seen, src[..i]))| as real <= Bound(i, expansion, ImageLength(act, c));
      BoundSteps(i, expansion, ImageLength(act, c), ImageLength(act, d));
      if act(d).Drop? || SameImage(act, c, d) {
        assert Ends(act, next, c);
      } else {
        assert Ends(act, next, d);
      }
    }
  }

  lemma DroppedIsNothing(act: Map, d: Byte)
    requires act(d).Drop?
    ensures ImageLength(act, d) == 0
  {
  }

  lemma {:induction false} SquashedBounded(act: Map, seen: seq<Token>, src: seq<Byte>, expansion: real, i: nat)
    requires expansion >= 1.0 && PairsFit(act, expansion) && i <= |src| && Within(act, seen, 0, 0, expansion)
    ensures Within(act, seen + Tokens(act, src[..i]), |Text(true, TrAfter(act, true, seen, src[..i]))|, i, expansion)
  {
    hide Within;
    hide PairsFit;
    hide TrAfter;
    hide Tokens;
    hide Text;
    if i == 0 {
      NothingYet(act, true, seen, src);
      assert seen + [] == seen;
    } else {
      SquashedBounded(act, seen, src, expansion, i - 1);
      WithinStep(act, seen, src, i - 1, expansion);
    }
  }

  /** A wide byte first, and then n times c and d. */
  function Alternating(w: Byte, c: Byte, d: Byte, n: nat): (src: seq<Byte>)
    ensures |src| == 2 * n + 1 && src[0] == w
    ensures forall j :: 0 <= j < n ==> src[2 * j + 1] == c && src[2 * j + 2] == d
  {
    seq<Byte>(2 * n + 1, i => if i == 0 then w else if i % 2 == 1 then c else d)
  }

  lemma ImageAtMost13(act: Map, c: Byte)
    ensures ImageLength(act, c) <= 13
  {
  }

  lemma NotRepeated(act: Map, before: seq<Token>, c: Byte, d: Byte)
    requires Ends(act, before, c) && !act(d).Drop? && !SameImage(act, c, d)
    ensures !(act(d).To? && Repeats(before, New(act(d).cp)))
  {
  }

  /** Every pair costs both images, except perhaps the very first byte of the first pair. */
  lemma {:induction false} PairsCost(act: Map, src: seq<Byte>, c: Byte, d: Byte, n: nat, k: nat)
    requires !act(c).Drop? && !act(d).Drop? && !SameImage(act, c, d) && !SameImage(act, d, c)
    requires |src| == 2 * n + 1 && 0 < k <= n
    requires forall j :: 0 <= j < n ==> src[2 * j + 1] == c && src[2 * j + 2] == d
    ensures Ends(act, [] + Tokens(act, src[..2 * k + 1]), d)
    ensures |Text(true, TrAfter(act, true, [], src[..2 * k + 1]))| + 13 >=
            k * (ImageLength(act, c) + ImageLength(act, d))
  {
    hide TrAfter;
    hide Tokens;
    hide Text;
    hide ImageLength;
    hide Repeats;
    var j := k - 1;
    assert src[2 * j + 1] == c && src[2 * j + 2] == d;
    SquashedStep(act, [], src, 2 * j + 1);
    SquashedStep(act, [], src, 2 * j + 2);
    NotRepeated(act, [] + Tokens(act, src[..2 * j + 2]), c, d);
    ImageAtMost13(act, c);
    if k > 1 {
      PairsCost(act, src, c, d, n, j);
      NotRepeated(act, [] + Tokens(act, src[..2 * j + 1]), d, c);
    }
    hide Ends;
    OneMore(j, ImageLength(act, c) + ImageLength(act, d));
  }

  lemma OneMore(j: nat, pair: nat)
    ensures (j + 1) * pair == j * pair + pair
  {
  }

  /** Enough pairs overrun the copy as soon as a pair is longer than two shares. */
  lemma TooManyPairs(pair: nat, expansion: real) returns (n: nat)
    requires expansion >= 1.0 && pair as real > 2.0 * expansion
    ensures n > 0 && n * pair - 13 > CopyLength(2 * n + 1, expansion)
  {
    var excess := pair as real - 2.0 * expansion;
    n := ((expansion + 16.0) / excess).Floor + 1;
    assert (expansion + 16.0) / excess > 0.0;
    Archimedes(expansion + 16.0, excess, n);
    assert n as real * pair as real == n as real * (2.0 * expansion) + n as real * excess;
    assert (2 * n + 1) as real * expansion == n as real * (2.0 * expansion) + expansion;
    assert (n * pair) as real == n as real * pair as real;
  }

  /** Under /s the copy is long enough for every byte string if and only if no byte has a wide replacement,
      or single images and neighbouring ones are short enough. */
  lemma CopyEnoughSquashedExactly(act: Map, expansion: real)
    requires expansion >= 1.0
    ensures (forall src: seq<Byte> :: CopyEnough(act, true, expansion, src))
            <==> !HasWide(act) || PairsFit(act, expansion)
  {
    hide CopyEnough;
    if !HasWide(act) {
      forall src: seq<Byte> ensures CopyEnough(act, true, expansion, src) {
        CopyEnoughIf(act, true, expansion, src);
      }
    } else if PairsFit(act, expansion) {
      forall src: seq<Byte> ensures CopyEnough(act, true, expansion, src) {
        SquashedFits(act, expansion, src);
      }
    } else {
      var w: Byte :| act(w).To? && act(w).cp >= 0x100;
      var src := SquashedOverrun(act, expansion, w);
      assert !CopyEnough(act, true, expansion, src);
    }
  }

  lemma SquashedFits(act: Map, expansion: real, src: seq<Byte>)
    requires expansion >= 1.0 && PairsFit(act, expansion)
    ensures CopyEnough(act, true, expansion, src)
  {
    hide Within;
    hide PairsFit;
    hide CopyLength;
    hide TrAfter;
    hide Text;
    hide Tokens;
    hide FirstWide;
    if Restarts(act, false, src) {
      var k := FirstWide(act, src);
      SeenWithin(act, src, k, expansion);
      RestartedFits(act, Tokens(act, src[..k]), src, expansion);
    } else {
      hide Restarts;
      ByteOutput(act, true, [], src);
      AtLeastItself(|src|, expansion);
    }
  }

  lemma RestartedFits(act: Map, seen: seq<Token>, src: seq<Byte>, expansion: real)
    requires expansion >= 1.0 && PairsFit(act, expansion) && Within(act, seen, 0, 0, expansion)
    ensures |Text(true, TrAfter(act, true, seen, src))| <= CopyLength(|src|, expansion)
  {
    hide Within;
    hide PairsFit;
    hide CopyLength;
    hide TrAfter;
    hide Text;
    hide Tokens;
    SquashedBounded(act, seen, src, expansion, |src|);
    assert src[..|src|] == src;
    WithinFits(act, seen + Tokens(act, src), |Text(true, TrAfter(act, true, seen, src))|, |src|, expansion);
  }

  lemma WithinFits(act: Map, before: seq<Token>, length: nat, n: nat, expansion: real)
    requires expansion >= 1.0 && PairsFit(act, expansion) && Within(act, before, length, n, expansion)
    ensures length <= CopyLength(n, expansion)
  {
    hide Ends;
    hide ImageLength;
    hide CopyLength;
    assert n as real * expansion >= 0.0;
    RoundedWithin(length, n, expansion);
  }

  lemma RoundedWithin(length: nat, n: nat, expansion: real)
    requires expansion >= 1.0 && length as real <= n as real * expansion + 2.0
    ensures length <= CopyLength(n, expansion)
  {
  }

  /** The tokens of the abandoned pass stand for bytes, too. */
  lemma {:induction false} SeenWithin(act: Map, src: seq<Byte>, k: nat, expansion: real)
    requires k <= |src| && expansion >= 1.0
    ensures Within(act, Tokens(act, src[..k]), 0, 0, expansion)
  {
    hide TrAfter;
    hide Text;
    hide ImageLength;
    if k == 0 {
      NothingYet(act, true, [], src);
    } else {
      hide Tokens;
      SeenWithin(act, src, k - 1, expansion);
      SquashedStep(act, [], src, k - 1);
      var ts, next := Tokens(act, src[..k - 1]), Tokens(act, src[..k]);
      assert [] + ts == ts && [] + next == next;
      if !act(src[k - 1]).Drop? {
        assert Ends(act, next, src[k - 1]);
      }
    }
  }

  lemma SquashedOverrun(act: Map, expansion: real, w: Byte) returns (src: seq<Byte>)
    requires expansion >= 1.0 && act(w).To? && act(w).cp >= 0x100 && !PairsFit(act, expansion)
    ensures !CopyEnough(act, true, expansion, src)
  {
    hide ImageLength;
    hide CopyEnough;
    if c: Byte :| ImageLength(act, c) as real > expansion + 2.0 {
      src := [c];
      LongOverruns(act, expansion, c);
    } else {
      var c: Byte, d: Byte :| !act(c).Drop? && !act(d).Drop? && !SameImage(act, c, d)
        && ImageLength(act, c) as real + ImageLength(act, d) as real > 2.0 * expansion;
      src := PairOverruns(act, expansion, w, c, d);
    }
  }

  lemma LongOverruns(act: Map, expansion: real, c: Byte)
    requires expansion >= 1.0 && ImageLength(act, c) as real > expansion + 2.0
    ensures !CopyEnough(act, true, expansion, [c])
  {
    LongIsWide(act, c);
    SingleOutput(act, [c]);
    hide ImageLength;
    hide InvOutput;
    hide Restarts;
    hide Text;
    assert 1 as real * expansion == expansion;
  }

  lemma PairOverruns(act: Map, expansion: real, w: Byte, c: Byte, d: Byte) returns (src: seq<Byte>)
    requires expansion >= 1.0 && act(w).To? && act(w).cp >= 0x100
    requires !act(c).Drop? && !act(d).Drop? && !SameImage(act, c, d)
    requires ImageLength(act, c) as real + ImageLength(act, d) as real > 2.0 * expansion
    ensures !CopyEnough(act, true, expansion, src)
  {
    hide ImageLength;
    hide TrAfter;
    hide Tokens;
    hide Text;
    hide FirstWide;
    hide CopyLength;
    hide Ends;
    var n := TooManyPairs(ImageLength(act, c) + ImageLength(act, d), expansion);
    src := Alternating(w, c, d, n);
    FirstIsWide(act, src);
    NothingYet(act, true, [], src);
    PairsCost(act, src, c, d, n, n);
    assert src[..2 * n + 1] == src;
  }

  lemma LongIsWide(act: Map, c: Byte)
    requires ImageLength(act, c) > 2
    ensures act(c).To? && act(c).cp >= 0x100
  {
  }

  lemma SingleOutput(act: Map, src: seq<Byte>)
    requires |src| == 1 && act(src[0]).To? && act(src[0]).cp >= 0x100
    ensures Restarts(act, false, src) && InvOutput(act, true, false, src) == [act(src[0]).cp]
    ensures |Text(true, InvOutput(act, true, false, src))| == ImageLength(act, src[0])
  {
    FirstIsWide(act, src);
    NothingYet(act, true, [], src);
    assert src[..1] == src;
    TrStep(act, true, [], src, 0);
    hide TrAfter;
    hide Tokens;
    hide FirstWide;
    var t := act(src[0]).cp;
    assert [] + [t] == [t];
    TextOfOne(t);
  }

  /** For instance tr/\xFF/\x{100}/ replaces two bytes of UTF-8 by two, an expansion of 1; but on n >= 3
      bytes \xFF the output has 2n bytes and the copy n + 2. */
  lemma ExpansionOfOneOverruns(act: Map, n: nat)
    requires act(0xFF) == To(0x100) && n >= 3
    ensures var src := seq<Byte>(n, _ => 0xFF);
      && Skip(0xFF) == Skip(0x100) == 2 && !CopyEnough(act, false, 1.0, src)
      && |Text(true, InvOutput(act, false, false, src))| >= 2 * n > CopyLength(n, 1.0) == n + 2
  {
    var src := seq<Byte>(n, _ => 0xFF);
    FirstIsWide(act, src);
    assert src[..|src|] == src && ImageLength(act, 0xFF) == 2;
    hide TrAfter;
    hide Tokens;
    hide Text;
    hide FirstWide;
    OutputOfMany(act, Tokens(act, src[..FirstWide(act, src)]), src, 0xFF, 0, |src|);
    assert n as real * 1.0 == n as real;
  }

  // ---------------------------------------------------------------------------------------------
  // In place
  // ---------------------------------------------------------------------------------------------

  /** The output, the tokens and the count of a pass whose write cursor may overtake its read cursor. */
  datatype Pass = Pass(out: seq<CodePoint>, before: seq<Token>, matches: nat)

  /** What the read cursor finds at i: what was written there, or else what was there before. */
  function ReadBack(out: seq<CodePoint>, src: seq<Byte>, i: nat): Byte
    requires i < |src|
  {
    var written := Text(true, out);
    if i < |written| then written[i] else src[i]
  }

  /** The first i turns of a pass in UTF-8 over the bytes src, in place. */
  function Overtaking(act: Map, squash: bool, seen: seq<Token>, src: seq<Byte>, i: nat): (p: Pass)
    requires i <= |src|
  {
    if i == 0 then Pass([], seen, 0)
    else
      var p := Overtaking(act, squash, seen, src, i - 1);
      var c := ReadBack(p.out, src, i - 1);
      Pass(p.out + Added(squash, p.before, act(c), c), p.before + Emit(act(c), c),
           p.matches + if act(c).Keep? then 0 else 1)
  }

  /** What the abandoned pass has made of the buffer. */
  function Overwritten(out: seq<Byte>, src: seq<Byte>): (s: seq<Byte>)
    ensures |out| <= |src| ==> |s| == |src|
  {
    out + if |out| <= |src| then src[|out|..] else []
  }

  /** The restarted pass, when it runs over the buffer the abandoned one was writing to. */
  function InPlace(act: Map, squash: bool, src: seq<Byte>): Pass {
    var k := FirstWide(act, src);
    var left := Overwritten(Text(false, TrAfter(act, squash, [], src[..k])), src);
    Overtaking(act, squash, Tokens(act, src[..k]), left, |left|)
  }

  /** What a restart in place writes stays within the string, and so, with its NUL, within the smallest
      buffer the string can be in. */
  predicate InPlaceFits(act: Map, squash: bool, src: seq<Byte>) {
    Restarts(act, false, src) ==> |Text(true, InPlace(act, squash, src).out)| <= |src|
  }

  /** Given room for it, a restart in place yields what a restart over the intact source would. */
  predicate InPlaceRight(act: Map, squash: bool, src: seq<Byte>) {
    Restarts(act, false, src) ==>
      && InPlace(act, squash, src).out == InvOutput(act, squash, false, src)
      && InPlace(act, squash, src).matches == Count(act, src)
  }

  /** Every byte has the same wide replacement t, or under /s none at all. */
  ghost predicate Uniform(act: Map, squash: bool, t: CodePoint) {
    t >= 0x100 && forall c: Byte :: act(c) == To(t) || (squash && act(c) == Drop)
  }

  lemma TwoBytesAtLeast(t: CodePoint)
    requires t >= 0x80
    ensures |Encode(t)| >= 2 && Text(true, [t]) == Encode(t)
  {
    TextSnoc(true, [], t);
    hide Encode;
    assert [] + [t] == [t] && [] + Encode(t) == Encode(t);
  }

  lemma PairOutput(act: Map, squash: bool, w: CodePoint, x: CodePoint, t: CodePoint)
    requires act(w) == To(t)
    ensures TrAfter(act, squash, [], [w, x]) == [t] + Added(squash, [New(t)], act(x), x)
  {
    var src := [w, x];
    NothingYet(act, squash, [], src);
    assert src[..1] == [w] && src[..2] == src;
    TrStep(act, squash, [], src, 0);
    TrStep(act, squash, [], src, 1);
    hide TrAfter;
    hide Tokens;
    assert [] + [t] == [t] && [] + [New(t)] == [New(t)];
  }

  lemma PairPass(act: Map, squash: bool, w: Byte, x: Byte, t: CodePoint)
    requires act(w) == To(t) && t >= 0x80
    ensures |Encode(t)| >= 2
    ensures var e := Encode(t)[1];
      Overtaking(act, squash, [], [w, x], 2).out == [t] + Added(squash, [New(t)], act(e), e)
  {
    TwoBytesAtLeast(t);
    hide Encode;
    var src: seq<Byte> := [w, x];
    var e := Encode(t)[1];
    assert ReadBack([], src, 0) == w && ReadBack([t], src, 1) == e;
    hide ReadBack;
    hide Text;
    assert [] + [t] == [t] && [] + [New(t)] == [New(t)];
    assert Overtaking(act, squash, [], src, 0) == Pass([], [], 0);
    assert Overtaking(act, squash, [], src, 1) == Pass([t], [New(t)], 1);
  }

  /** A wide byte and then x: the second byte read is one of those just written. */
  lemma PairOvertaken(act: Map, squash: bool, w: Byte, x: Byte, t: CodePoint)
    requires act(w) == To(t) && t >= 0x100
    ensures |Encode(t)| >= 2
    ensures var src, e := [w, x], Encode(t)[1];
      && Restarts(act, false, src)
      && InPlace(act, squash, src).out == [t] + Added(squash, [New(t)], act(e), e)
      && InvOutput(act, squash, false, src) == [t] + Added(squash, [New(t)], act(x), x)
  {
    var src: seq<Byte> := [w, x];
    FirstIsWide(act, src);
    NothingYet(act, squash, [], src);
    assert src[..0] == [] && Text(false, []) == [] && Overwritten([], src) == src;
    PairOutput(act, squash, w, x, t);
    PairPass(act, squash, w, x, t);
    hide FirstWide;
    hide TrAfter;
    hide Tokens;
    hide Text;
    hide Overtaking;
    hide Overwritten;
    hide Added;
  }

  /** The output of i characters of which the first k are dropped and every further one becomes t, or
      under /s nothing more. */
  function Filled(squash: bool, t: CodePoint, k: nat, i: nat): seq<CodePoint> {
    if i <= k then [] else if squash then [t] else Filled(squash, t, k, i - 1) + [t]
  }

  /** The tokens of a uniform map: none yet, or t last. */
  predicate LastIs(before: seq<Token>, t: CodePoint, some: bool) {
    if some then before != [] && before[|before| - 1] == New(t) else before == []
  }

  /** src begins with k bytes that are dropped, and then one that becomes t. */
  ghost predicate Leads(act: Map, src: seq<Byte>, k: nat, t: CodePoint) {
    && k < |src| && act(src[k]) == To(t)
    && forall j :: 0 <= j < k ==> act(src[j]) == Drop
  }

  /** What one more byte adds under a uniform map. */
  lemma UniformStep(act: Map, squash: bool, t: CodePoint, k: nat, i: nat, before: seq<Token>, c: Byte)
    requires Uniform(act, squash, t) && LastIs(before, t, i > k)
    requires i < k ==> act(c) == Drop
    requires i == k ==> act(c) == To(t)
    requires !squash ==> k == 0
    ensures Filled(squash, t, k, i) + Added(squash, before, act(c), c) == Filled(squash, t, k, i + 1)
    ensures LastIs(before + Emit(act(c), c), t, i + 1 > k) && !act(c).Keep?
  {
    assert act(c) == To(t) || (squash && act(c) == Drop);
    assert Filled(squash, t, k, i) + [] == Filled(squash, t, k, i);
    assert before + [] == before;
  }

  lemma {:induction false} UniformOvertaking(act: Map, squash: bool, src: seq<Byte>, t: CodePoint, k: nat, i: nat)
    requires Uniform(act, squash, t) && Leads(act, src, k, t) && i <= |src| && (!squash ==> k == 0)
    ensures var p := Overtaking(act, squash, [], src, i);
      p.out == Filled(squash, t, k, i) && LastIs(p.before, t, i > k) && p.matches == i
  {
    hide Added;
    hide Emit;
    hide ReadBack;
    if i > 0 {
      UniformOvertaking(act, squash, src, t, k, i - 1);
      var p := Overtaking(act, squash, [], src, i - 1);
      var c := ReadBack(p.out, src, i - 1);
      if i - 1 <= k {
        NothingWritten(squash, t, k, i - 1, src);
      }
      UniformStep(act, squash, t, k, i - 1, p.before, c);
      hide Uniform;
    }
  }

  lemma NothingWritten(squash: bool, t: CodePoint, k: nat, i: nat, src: seq<Byte>)
    requires i <= k && i < |src|
    ensures ReadBack(Filled(squash, t, k, i), src, i) == src[i]
  {
  }

  lemma {:induction false} UniformTr(act: Map, squash: bool, src: seq<Byte>, t: CodePoint, k: nat, i: nat)
    requires Uniform(act, squash, t) && Leads(act, src, k, t) && i <= |src| && (!squash ==> k == 0)
    ensures TrAfter(act, squash, [], src[..i]) == Filled(squash, t, k, i)
    ensures LastIs(Tokens(act, src[..i]), t, i > k) && Count(act, src[..i]) == i
  {
    hide Added;
    hide Emit;
    hide TrAfter;
    if i > 0 {
      UniformTr(act, squash, src, t, k, i - 1);
      TrStep(act, squash, [], src, i - 1);
      var ts := Tokens(act, src[..i - 1]);
      assert [] + ts == ts;
      UniformStep(act, squash, t, k, i - 1, ts, src[i - 1]);
      hide Uniform;
      hide Tokens;
    } else {
      NothingYet(act, squash, [], src);
    }
  }

  lemma UniformLeads(act: Map, squash: bool, src: seq<Byte>, t: CodePoint)
    requires Uniform(act, squash, t) && Restarts(act, false, src)
    ensures var k := FirstWide(act, src); Leads(act, src, k, t) && (!squash ==> k == 0)
  {
    var k := FirstWide(act, src);
    FirstWideIsFirst(act, src);
    forall j | 0 <= j < k ensures act(src[j]) == Drop && squash {
      assert act(src[j]) == To(t) || (squash && act(src[j]) == Drop);
    }
    if k > 0 {
      assert act(src[0]) == Drop && squash;
    }
  }

  lemma NothingFilled(squash: bool, t: CodePoint, k: nat, src: seq<Byte>)
    ensures Filled(squash, t, k, k) == [] && Text(false, []) == []
    ensures Overwritten([], src) == src && src[..|src|] == src
  {
  }

  lemma UniformRight(act: Map, squash: bool, src: seq<Byte>, t: CodePoint)
    requires Uniform(act, squash, t)
    ensures InPlaceRight(act, squash, src)
  {
    hide Uniform;
    hide Leads;
    hide FirstWide;
    hide TrAfter;
    hide Tokens;
    hide Text;
    hide Overtaking;
    hide Overwritten;
    hide Filled;
    hide Count;
    if Restarts(act, false, src) {
      var k := FirstWide(act, src);
      UniformLeads(act, squash, src, t);
      NothingFilled(squash, t, k, src);
      UniformTr(act, squash, src, t, k, k);
      UniformTr(act, squash, src, t, k, |src|);
      UniformOvertaking(act, squash, src, t, k, |src|);
    }
  }

  /** Given room for it, the output of a restart in place is right for every byte string if and only if no
      byte has a wide replacement, or all bytes have the same. */
  lemma InPlaceOutputExactly(act: Map, squash: bool)
    ensures (forall src: seq<Byte> :: InPlaceRight(act, squash, src))
            <==> !HasWide(act) || exists t: CodePoint :: Uniform(act, squash, t)
  {
    if HasWide(act) && forall src: seq<Byte> :: InPlaceRight(act, squash, src) {
      var w: Byte :| act(w).To? && act(w).cp >= 0x100;
      var t := act(w).cp;
      var e := PairsAgree(act, squash, w, t);
      forall c: Byte ensures act(c) == To(t) || (squash && act(c) == Drop) {
        assert Added(squash, [New(t)], act(c), c) == Added(squash, [New(t)], act(e), e);
        assert Added(squash, [New(t)], act(w), w) == Added(squash, [New(t)], act(e), e);
      }
      assert Uniform(act, squash, t);
    } else {
      forall src: seq<Byte> | !HasWide(act) || exists t: CodePoint :: Uniform(act, squash, t)
        ensures InPlaceRight(act, squash, src)
      {
        RestartHasWide(act, src);
        if t: CodePoint :| Uniform(act, squash, t) {
          UniformRight(act, squash, src, t);
        }
      }
    }
  }

  lemma SinglePass(act: Map, squash: bool, w: Byte, t: CodePoint)
    requires act(w) == To(t)
    ensures Overtaking(act, squash, [], [w], 1).out == [t]
  {
    var src: seq<Byte> := [w];
    assert ReadBack([], src, 0) == w;
    hide ReadBack;
    hide Text;
    assert [] + [t] == [t];
    assert Overtaking(act, squash, [], src, 0) == Pass([], [], 0);
  }

  /** A wide byte alone already overruns. */
  lemma SingleOverruns(act: Map, squash: bool, w: Byte)
    requires act(w).To? && act(w).cp >= 0x100
    ensures !InPlaceFits(act, squash, [w])
  {
    hide TrAfter;
    hide Tokens;
    hide Text;
    hide Encode;
    hide Overtaking;
    hide Overwritten;
    hide FirstWide;
    var t, src: seq<Byte> := act(w).cp, [w];
    FirstIsWide(act, src);
    NothingYet(act, squash, [], src);
    NothingFilled(squash, t, 0, src);
    assert src[..0] == [];
    TwoBytesAtLeast(t);
    SinglePass(act, squash, w, t);
  }

  /** A restart in place stays within the string for every byte string if and only if no byte has a wide
      replacement, which is when there is none. */
  lemma InPlaceFitsExactly(act: Map, squash: bool)
    ensures (forall src: seq<Byte> :: InPlaceFits(act, squash, src)) <==> !HasWide(act)
  {
    hide InPlaceFits;
    if HasWide(act) {
      var w: Byte :| act(w).To? && act(w).cp >= 0x100;
      SingleOverruns(act, squash, w);
    } else {
      forall src: seq<Byte> ensures InPlaceFits(act, squash, src) {
        NoRestartFits(act, squash, src);
      }
    }
  }

  lemma NoRestartFits(act: Map, squash: bool, src: seq<Byte>)
    requires !HasWide(act)
    ensures InPlaceFits(act, squash, src) && InPlaceRight(act, squash, src)
  {
    RestartHasWide(act, src);
  }

  /** Output, count and memory are all right for every byte string if and only if no byte has a wide
      replacement: a restart in place is never sound. */
  lemma InPlaceExactly(act: Map, squash: bool)
    ensures (forall src: seq<Byte> :: InPlaceRight(act, squash, src) && InPlaceFits(act, squash, src))
            <==> !HasWide(act)
  {
    hide InPlaceFits;
    hide InPlaceRight;
    InPlaceFitsExactly(act, squash);
    if !HasWide(act) {
      forall src: seq<Byte> ensures InPlaceRight(act, squash, src) && InPlaceFits(act, squash, src) {
        NoRestartFits(act, squash, src);
      }
    }
  }

  /** If every pair comes out right, every byte adds what the overwriting byte e would. */
  lemma PairsAgree(act: Map, squash: bool, w: Byte, t: CodePoint) returns (e: Byte)
    requires act(w) == To(t) && t >= 0x100 && forall src: seq<Byte> :: InPlaceRight(act, squash, src)
    ensures forall c: Byte :: Added(squash, [New(t)], act(c), c) == Added(squash, [New(t)], act(e), e)
  {
    hide InPlace;
    hide InvOutput;
    hide Added;
    hide Encode;
    hide Restarts;
    PairOvertaken(act, squash, w, w, t);
    e := Encode(t)[1];
    forall c: Byte ensures Added(squash, [New(t)], act(c), c) == Added(squash, [New(t)], act(e), e) {
      var src: seq<Byte> := [w, c];
      PairOvertaken(act, squash, w, c, t);
      assert InPlaceRight(act, squash, src);
      SameTail([t], Added(squash, [New(t)], act(c), c), Added(squash, [New(t)], act(e), e));
    }
  }

  /** For instance tr/\x{100}\xFF/\x{100}/, which sends \xFF to the final character of its replacement
      list, turns "\xFFa" into U+0100 and U+0080 instead of U+0100 and "a". */
  lemma InPlaceLosesACharacter(act: Map, squash: bool)
    requires act(0xFF) == To(0x100) && act(0x61) == Keep && act(0x80) == Keep
    ensures var src := [0xFF, 0x61];
      && InvOutput(act, squash, false, src) == [0x100, 0x61] && InPlace(act, squash, src).out == [0x100, 0x80]
  {
    hide InPlace;
    hide InvOutput;
    PairOvertaken(act, squash, 0xFF, 0x61, 0x100);
    assert Top(0x100, 1) == Top(4, 0) == 4;
    assert Conts(0x100, 1) == Conts(4, 0) + [0x80] == [0x80];
    assert Encode(0x100) == [0xC4, 0x80];
  }

  /** The bytes of characters from U+0080 up are themselves from 0x80 up. */
  lemma {:induction false} HighConts(uv: nat, k: nat)
    ensures forall b <- Conts(uv, k) :: b >= 0x80
  {
    if k > 0 {
      HighConts(uv / 64, k - 1);
    }
  }

  lemma HighEncode(c: CodePoint)
    requires c >= 0x80
    ensures |Encode(c)| >= 2 && forall b <- Encode(c) :: b >= 0x80
  {
    TopFits(c);
    HighConts(c, Skip(c) - 1);
    hide Top;
    hide Conts;
  }

  predicate High(text: seq<Byte>) {
    forall i :: 0 <= i < |text| ==> text[i] >= 0x80
  }

  lemma HighMore(out: seq<CodePoint>, x: CodePoint)
    requires High(Text(true, out)) && x >= 0x80
    ensures High(Text(true, out + [x])) && |Text(true, out + [x])| >= |Text(true, out)| + 2
  {
    hide Text;
    hide Encode;
    TextSnoc(true, out, x);
    HighEncode(x);
    var text, more := Text(true, out), Encode(x);
    forall i | 0 <= i < |text + more| ensures (text + more)[i] >= 0x80 {
      assert i >= |text| ==> more[i - |text|] in more;
    }
  }

  lemma HighRead(out: seq<CodePoint>, src: seq<Byte>, i: nat)
    requires i < |src| && High(src) && High(Text(true, out))
    ensures ReadBack(out, src, i) >= 0x80
  {
    hide Text;
  }

  /** What a byte leaves under tr/\x{100}\xFF/\x{100}/ without /s. */
  lemma HighAdded(act: Map, before: seq<Token>, c: Byte) returns (x: CodePoint)
    requires act(0xFF) == To(0x100) && (forall c: Byte :: c != 0xFF ==> act(c) == Keep) && c >= 0x80
    ensures x >= 0x80 && Added(false, before, act(c), c) == [x]
  {
    x := if c == 0xFF then 0x100 else c;
  }

  /** Every character read, and so every character written, takes two bytes at least. */
  lemma {:induction false} AllHigh(act: Map, seen: seq<Token>, src: seq<Byte>, i: nat)
    requires act(0xFF) == To(0x100) && forall c: Byte :: c != 0xFF ==> act(c) == Keep
    requires i <= |src| && High(src)
    ensures var text := Text(true, Overtaking(act, false, seen, src, i).out); |text| >= 2 * i && High(text)
  {
    hide Text;
    hide Added;
    hide Emit;
    hide ReadBack;
    hide High;
    if i > 0 {
      AllHigh(act, seen, src, i - 1);
      var p := Overtaking(act, false, seen, src, i - 1);
      HighRead(p.out, src, i - 1);
      var x := HighAdded(act, p.before, ReadBack(p.out, src, i - 1));
      HighMore(p.out, x);
    } else {
      TextOfOne(0);
      NoneHigh();
    }
  }

  lemma NoneHigh()
    ensures High(Text(true, []))
  {
  }

  /** For instance tr/\x{100}\xFF/\x{100}/, whose replacements of UTF-8 all take as many bytes as what they
      replace: on n bytes \xFF the restart in place writes at least 2n. */
  lemma InPlaceOverruns(act: Map, n: nat)
    requires act(0xFF) == To(0x100) && (forall c: Byte :: c != 0xFF ==> act(c) == Keep) && n >= 1
    ensures var src := seq<Byte>(n, _ => 0xFF);
      Restarts(act, false, src) && |Text(true, InPlace(act, false, src).out)| >= 2 * n
  {
    var src := seq<Byte>(n, _ => 0xFF);
    FirstIsWide(act, src);
    NothingYet(act, false, [], src);
    assert src[..0] == [] && Text(false, []) == [] && Overwritten([], src) == src;
    AllHigh(act, Tokens(act, src[..0]), src, n);
    hide FirstWide;
    hide TrAfter;
    hide Tokens;
    hide Overtaking;
    hide Overwritten;
  }

  /** Under /s tr/\xFF\xFE/\x{100}\x{101}/ does so on n times the two in turn: 4n bytes into 2n + 2. */
  lemma SquashedOverruns(act: Map, n: nat)
    requires act(0xFF) == To(0x100) && act(0xFE) == To(0x101) && n >= 2
    ensures var src := seq<Byte>(2 * n, i => if i % 2 == 0 then 0xFF else 0xFE);
      && !CopyEnough(act, true, 1.0, src)
      && |Text(true, InvOutput(act, true, false, src))| == 4 * n > CopyLength(2 * n, 1.0) == 2 * n + 2
  {
    var src := seq<Byte>(2 * n, i => if i % 2 == 0 then 0xFF else 0xFE);
    FirstIsWide(act, src);
    NothingYet(act, true, [], src);
    hide TrAfter;
    hide Tokens;
    hide Text;
    hide FirstWide;
    InTurn(act, src, 2 * n);
    assert src[..2 * n] == src;
    assert (2 * n) as real * 1.0 == (2 * n) as real;
  }

  lemma {:induction false} InTurn(act: Map, src: seq<Byte>, i: nat)
    requires act(0xFF) == To(0x100) && act(0xFE) == To(0x101) && i <= |src|
    requires forall j :: 0 <= j < |src| ==> src[j] == if j % 2 == 0 then 0xFF else 0xFE
    ensures |Text(true, TrAfter(act, true, [], src[..i]))| == 2 * i
    ensures i > 0 ==> Ends(act, [] + Tokens(act, src[..i]), src[i - 1])
  {
    hide TrAfter;
    hide Tokens;
    hide Text;
    if i == 0 {
      NothingYet(act, true, [], src);
    } else {
      InTurn(act, src, i - 1);
      SquashedStep(act, [], src, i - 1);
      if i > 1 {
        NotRepeated(act, [] + Tokens(act, src[..i - 1]), src[i - 2], src[i - 1]);
      } else {
        NothingYet(act, true, [], src);
      }
      assert ImageLength(act, src[i - 1]) == 2;
    }
  }
}
