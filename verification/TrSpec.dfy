/** What tr/// does to the code points of a string, whatever represents the string and the map. */
module TrSpec {
  import opened Utf8

  /** What a transliteration says about one code point. */
  datatype Action = Keep | Drop | To(cp: CodePoint)

  type Map = CodePoint -> Action

  /** What is left of one code point: itself, or its replacement. */
  datatype Token = Kept(cp: CodePoint) | New(cp: CodePoint)

  function Emit(a: Action, c: CodePoint): seq<Token> {
    match a
    case Keep => [Kept(c)]
    case Drop => []
    case To(t) => [New(t)]
  }

  /** The tokens of a string; deleted code points leave nothing behind. */
  function Tokens(act: Map, cps: seq<CodePoint>): seq<Token> {
    if cps == [] then []
    else
      var n := |cps| - 1;
      Tokens(act, cps[..n]) + Emit(act(cps[n]), cps[n])
  }

  /** What /s leaves of ts after `seen`: a replacement equal to the token right before it goes. */
  function Squeeze(seen: seq<Token>, ts: seq<Token>): (out: seq<Token>)
    ensures |out| <= |ts|
  {
    if ts == [] then []
    else
      var n := |ts| - 1;
      Squeeze(seen, ts[..n]) + if Repeats(seen + ts[..n], ts[n]) then [] else [ts[n]]
  }

  predicate Repeats(before: seq<Token>, t: Token) {
    t.New? && before != [] && before[|before| - 1] == t
  }

  function Chars(ts: seq<Token>): (s: seq<CodePoint>)
    ensures |s| == |ts|
    ensures forall i :: 0 <= i < |ts| ==> s[i] == ts[i].cp
  {
    seq(|ts|, i requires 0 <= i < |ts| => ts[i].cp)
  }

  /** The output of tr/// on cps when the tokens `seen` came before. */
  function TrAfter(act: Map, squash: bool, seen: seq<Token>, cps: seq<CodePoint>): seq<CodePoint> {
    Chars(if squash then Squeeze(seen, Tokens(act, cps)) else Tokens(act, cps))
  }

  /** tr/// on code points. */
  function Tr(act: Map, squash: bool, cps: seq<CodePoint>): seq<CodePoint> {
    TrAfter(act, squash, [], cps)
  }

  /** How many code points it counts: those in the search list. */
  function Count(act: Map, cps: seq<CodePoint>): nat {
    if cps == [] then 0
    else
      var n := |cps| - 1;
      Count(act, cps[..n]) + if act(cps[n]).Keep? then 0 else 1
  }

  // ---------------------------------------------------------------------------------------------
  // The two representations of a map
  // ---------------------------------------------------------------------------------------------

  const TR_UNMAPPED: int := -1
  const TR_DELETE: int := -2
  const TR_R_EMPTY: int := -3

  /** An OPtrans_map: an entry for every byte value, and one more for everything above under /c. */
  datatype Table = Table(entry: seq<int>) {
    predicate Valid() {
      && |entry| == 257
      && (forall i :: 0 <= i < 256 ==> TR_DELETE <= entry[i] < 0x100)
      && TR_R_EMPTY <= entry[256] < 0x8000 && entry[256] != TR_UNMAPPED
    }
  }

  function EntryAction(e: int, c: CodePoint): Action
    requires TR_R_EMPTY <= e < 0x8000
  {
    if e >= 0 then To(e) else if e == TR_UNMAPPED then Keep else if e == TR_DELETE then Drop else To(c)
  }

  /** do_trans_complex's reading of a table. */
  function TableMap(t: Table, complement: bool): Map
    requires t.Valid()
  {
    (c: CodePoint) => if c < 256 then EntryAction(t.entry[c], c)
         else if complement then EntryAction(t.entry[256], c) else Keep
  }

  /** do_trans_simple's reading of a table. */
  function SimpleMap(t: Table): Map
    requires t.Valid()
  {
    (c: CodePoint) => if c < 256 && t.entry[c] >= 0 then To(t.entry[c]) else Keep
  }

  const TR_UNLISTED: int := 0xFFFF_FFFF_FFFF_FFFF
  const TR_SPECIAL_HANDLING: int := 0xFFFF_FFFF_FFFF_FFFE
  const TR_OOB: int := 0xFFFF_FFFF_FFFF_FFFC

  /** An inversion map: from[i] starts the range that to[i] is about. */
  datatype InvMap = InvMap(from: seq<UV>, to: seq<UV>, finalMap: UV) {
    predicate Ordered() {
      && |from| == |to| > 0 && from[0] == 0
      && forall i, j :: 0 <= i < j < |from| ==> from[i] < from[j]
    }

    /** Every code point a range sends somewhere goes to a legal one. */
    predicate Valid(delete: bool) {
      && Ordered()
      && (forall i :: 0 <= i < |to| ==> EntryLegal(i, delete))
    }

    predicate EntryLegal(i: nat, delete: bool)
      requires |from| == |to| && i < |to|
    {
      || to[i] == TR_UNLISTED
      || (to[i] == TR_SPECIAL_HANDLING && (delete || finalMap <= MAX_CP))
      || (to[i] <= MAX_CP && to[i] + Last(i) - from[i] <= MAX_CP)
    }

    /** The last code point of range i. */
    function Last(i: nat): int
      requires i < |from|
    {
      if i + 1 < |from| && from[i + 1] <= MAX_CP then from[i + 1] - 1 else MAX_CP
    }
  }

  /** _invlist_search: the range c falls in. */
  function Search(from: seq<UV>, c: UV): (i: nat)
    requires from != [] && from[0] == 0
    requires forall i, j :: 0 <= i < j < |from| ==> from[i] < from[j]
    ensures i < |from| && from[i] <= c && (i + 1 < |from| ==> c < from[i + 1])
  {
    if from[|from| - 1] <= c then |from| - 1 else Search(from[..|from| - 1], c)
  }

  /** do_trans_invmap's reading of an inversion map. */
  function InvAction(m: InvMap, delete: bool, c: CodePoint): Action
    requires m.Valid(delete)
  {
    var i := Search(m.from, c);
    assert m.EntryLegal(i, delete);
    if m.to[i] == TR_UNLISTED then Keep
    else if m.to[i] == TR_SPECIAL_HANDLING then if delete then Drop else To(m.finalMap)
    else To(m.to[i] + (c - m.from[i]))
  }

  function InvMapMap(m: InvMap, delete: bool): Map
    requires m.Valid(delete)
  {
    (c: CodePoint) => InvAction(m, delete, c)
  }

  // ---------------------------------------------------------------------------------------------
  // One more code point
  // ---------------------------------------------------------------------------------------------

  /** What one code point adds to the output after the tokens `before`. */
  function Added(squash: bool, before: seq<Token>, a: Action, c: CodePoint): seq<CodePoint> {
    match a
    case Keep => [c]
    case Drop => []
    case To(t) => if squash && Repeats(before, New(t)) then [] else [t]
  }

  lemma CharsConcat(a: seq<Token>, b: seq<Token>)
    ensures Chars(a + b) == Chars(a) + Chars(b)
  {
  }

  lemma SqueezeSnoc(seen: seq<Token>, ts: seq<Token>, t: Token)
    ensures Squeeze(seen, ts + [t]) == Squeeze(seen, ts) + if Repeats(seen + ts, t) then [] else [t]
  {
    assert (ts + [t])[..|ts + [t]| - 1] == ts;
  }

  lemma TokensStep(act: Map, cps: seq<CodePoint>, i: nat)
    requires i < |cps|
    ensures var a := act(cps[i]);
      && Tokens(act, cps[..i + 1]) == Tokens(act, cps[..i]) + Emit(a, cps[i])
      && Count(act, cps[..i + 1]) == Count(act, cps[..i]) + if a.Keep? then 0 else 1
  {
    hide Emit;
    assert cps[..i + 1][..i] == cps[..i];
  }

  lemma NothingMore<T>(s: seq<T>)
    ensures s + [] == s
  {
  }

  lemma TrStep(act: Map, squash: bool, seen: seq<Token>, cps: seq<CodePoint>, i: nat)
    requires i < |cps|
    ensures var a, before := act(cps[i]), seen + Tokens(act, cps[..i]);
      && Tokens(act, cps[..i + 1]) == Tokens(act, cps[..i]) + Emit(a, cps[i])
      && TrAfter(act, squash, seen, cps[..i + 1])
         == TrAfter(act, squash, seen, cps[..i]) + Added(squash, before, a, cps[i])
      && Count(act, cps[..i + 1]) == Count(act, cps[..i]) + if a.Keep? then 0 else 1
  {
    TokensStep(act, cps, i);
    hide Tokens;
    hide Squeeze;
    hide Count;
    var ts := Tokens(act, cps[..i]);
    var out := if squash then Squeeze(seen, ts) else ts;
    NothingMore(ts);
    NothingMore(Chars(out));
    if !act(cps[i]).Drop? {
      var t := Emit(act(cps[i]), cps[i])[0];
      assert Chars([t]) == [t.cp];
      hide Chars;
      SqueezeSnoc(seen, ts, t);
      NothingMore(out);
      CharsConcat(out, [t]);
    }
  }

  // ---------------------------------------------------------------------------------------------
  // Laws
  // ---------------------------------------------------------------------------------------------

  /** Only what the map says about the code points of the string matters. */
  lemma {:induction false} SameMapSameTr(act: Map, act': Map, squash: bool, cps: seq<CodePoint>)
    requires forall c <- cps :: act(c) == act'(c)
    ensures Tr(act, squash, cps) == Tr(act', squash, cps) && Count(act, cps) == Count(act', cps)
    ensures Tokens(act, cps) == Tokens(act', cps)
  {
    if cps != [] {
      var n := |cps| - 1;
      assert cps[n] in cps;
      SameMapSameTr(act, act', squash, cps[..n]);
    }
  }

  /** A map that sends code points nowhere but to themselves changes nothing, so counting will do. */
  lemma {:induction false} IdenticalChangesNothing(act: Map, cps: seq<CodePoint>)
    requires forall c <- cps :: act(c) == Keep || act(c) == To(c)
    ensures Tr(act, false, cps) == cps
  {
    if cps != [] {
      var n := |cps| - 1;
      assert cps[n] in cps;
      IdenticalChangesNothing(act, cps[..n]);
      assert cps[..n + 1] == cps;
      TrStep(act, false, [], cps, n);
    }
  }

  /** Squeezed output has no replacement right after the same replacement. */
  lemma {:induction false} SqueezedHasNoRepeats(ts: seq<Token>)
    ensures var out := Squeeze([], ts);
      && (ts != [] ==> out != [] && out[|out| - 1] == ts[|ts| - 1])
      && forall i :: 0 < i < |out| ==> !Repeats(out[..i], out[i])
  {
    if ts != [] {
      var n := |ts| - 1;
      SqueezedHasNoRepeats(ts[..n]);
      var p, out := Squeeze([], ts[..n]), Squeeze([], ts);
      assert [] + ts[..n] == ts[..n];
      if Repeats(ts[..n], ts[n]) {
        assert out == p;
      } else {
        assert out == p + [ts[n]];
        forall i | 0 < i < |out| ensures !Repeats(out[..i], out[i]) {
          if i < |p| {
            assert out[..i] == p[..i];
          }
        }
      }
    }
  }

  /** What was seen before matters for the first token only, and then costs exactly that one. */
  lemma {:induction false} SqueezeSeen(seen: seq<Token>, ts: seq<Token>)
    ensures ts == [] || !Repeats(seen, ts[0]) ==> Squeeze(seen, ts) == Squeeze([], ts)
    ensures ts != [] && Repeats(seen, ts[0]) ==> Squeeze([], ts) == [ts[0]] + Squeeze(seen, ts)
  {
    if ts != [] {
      var n := |ts| - 1;
      assert [] + ts[..n] == ts[..n];
      SqueezeSeen(seen, ts[..n]);
      assert [] + ts[..n] == ts[..n];
      if n == 0 {
        assert seen + ts[..n] == seen;
      } else {
        assert (seen + ts[..n])[|seen + ts[..n]| - 1] == ts[n - 1];
      }
    }
  }

  // ---------------------------------------------------------------------------------------------
  // The restart of do_trans_invmap
  // ---------------------------------------------------------------------------------------------

  /** The first code point whose replacement does not fit a byte. */
  function FirstWide(act: Map, cps: seq<CodePoint>): (k: nat)
    ensures k <= |cps|
  {
    if cps == [] then 0
    else
      var n := |cps| - 1;
      var k := FirstWide(act, cps[..n]);
      if k < n then k else if act(cps[n]).To? && act(cps[n]).cp >= 0x100 then n else n + 1
  }

  lemma {:induction false} FirstWideIsFirst(act: Map, cps: seq<CodePoint>)
    ensures var k := FirstWide(act, cps);
      && (k < |cps| ==> cps[k] in cps && act(cps[k]).To? && act(cps[k]).cp >= 0x100)
      && forall i :: 0 <= i < k ==> act(cps[i]).To? ==> act(cps[i]).cp < 0x100
  {
    if cps != [] {
      FirstWideIsFirst(act, cps[..|cps| - 1]);
    }
  }

  predicate Restarts(act: Map, utf8: bool, cps: seq<CodePoint>) {
    !utf8 && FirstWide(act, cps) < |cps|
  }

  /** What do_trans_invmap yields: after a restart previous_map still stands for the tokens of the
      abandoned pass. */
  function InvOutput(act: Map, squash: bool, utf8: bool, cps: seq<CodePoint>): seq<CodePoint> {
    TrAfter(act, squash,
            if Restarts(act, utf8, cps) then Tokens(act, cps[..FirstWide(act, cps)]) else [], cps)
  }

  /** The abandoned pass ended on the replacement the string starts with. */
  predicate StaleRepeat(act: Map, utf8: bool, cps: seq<CodePoint>) {
    && Restarts(act, utf8, cps)
    && var ts := Tokens(act, cps);
       ts != [] && Repeats(Tokens(act, cps[..FirstWide(act, cps)]), ts[0])
  }

  /** The restart is invisible without /s, and with /s exactly when the last token before the first
      wide replacement is not the very replacement the string starts with. */
  lemma RestartExact(act: Map, squash: bool, utf8: bool, cps: seq<CodePoint>)
    ensures InvOutput(act, squash, utf8, cps) == Tr(act, squash, cps)
            <==> !(squash && StaleRepeat(act, utf8, cps))
  {
    if squash && Restarts(act, utf8, cps) {
      var ts, seen := Tokens(act, cps), Tokens(act, cps[..FirstWide(act, cps)]);
      SqueezeSeen(seen, ts);
      if StaleRepeat(act, utf8, cps) {
        assert |Tr(act, squash, cps)| == |InvOutput(act, squash, utf8, cps)| + 1;
      }
    }
  }

  /** For instance tr/aL/A\x{100}/s on "aL" loses its first character. */
  lemma RestartLosesACharacter(act: Map)
    requires act(0x61) == To(0x41) && act(0x4C) == To(0x100)
    ensures Tr(act, true, [0x61, 0x4C]) == [0x41, 0x100]
    ensures InvOutput(act, true, false, [0x61, 0x4C]) == [0x100]
  {
    var cps: seq<CodePoint> := [0x61, 0x4C];
    assert cps[..0] == [] && cps[..1] == [0x61] && cps[..2] == cps;
    FirstWideExample(act, cps);
    assert Tokens(act, []) == [];
    hide FirstWide;
    PairAfter(act, [], cps);
    PairAfter(act, [New(0x41)], cps);
    TrStep(act, true, [], cps, 0);
  }

  lemma FirstWideExample(act: Map, cps: seq<CodePoint>)
    requires |cps| == 2 && act(cps[0]) == To(0x41) && act(cps[1]) == To(0x100)
    ensures FirstWide(act, cps) == 1
  {
    assert cps[..1][..0] == [];
  }

  lemma PairAfter(act: Map, seen: seq<Token>, cps: seq<CodePoint>)
    requires |cps| == 2 && act(cps[0]) == To(0x41) && act(cps[1]) == To(0x100)
    ensures TrAfter(act, true, seen, cps) == (if Repeats(seen, New(0x41)) then [] else [0x41]) + [0x100]
  {
    assert cps[..0] == [] && cps[..2] == cps && Tokens(act, []) == [] && seen + [] == seen;
    assert TrAfter(act, true, seen, []) == [];
    TrStep(act, true, seen, cps, 0);
    TrStep(act, true, seen, cps, 1);
    hide TrAfter;
    hide Tokens;
    assert Tokens(act, cps[..1]) == [New(0x41)];
  }
}
