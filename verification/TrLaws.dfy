/**
  What tr/// does to a string, character by character, and what tables and inversion maps say about a
  character: laws that name neither Tokens nor Search.
 */
module TrLaws {
  import opened Utf8
  import opened TrSpec

  // ---------------------------------------------------------------------------------------------
  // Strings
  // ---------------------------------------------------------------------------------------------

  /** tr/// of one character. */
  lemma SingleCharacter(act: Map, squash: bool, c: CodePoint)
    ensures act(c) == Keep ==> Tr(act, squash, [c]) == [c] && Count(act, [c]) == 0
    ensures act(c) == Drop ==> Tr(act, squash, [c]) == [] && Count(act, [c]) == 1
    ensures act(c).To? ==> Tr(act, squash, [c]) == [act(c).cp] && Count(act, [c]) == 1
  {
    var cps := [c];
    assert cps[..1] == cps && cps[..0] == [];
    Nothing(act, squash);
    TrStep(act, squash, [], cps, 0);
    hide TrAfter;
    assert Tokens(act, []) == [];
    hide Tokens;
  }

  lemma Nothing(act: Map, squash: bool)
    ensures Tr(act, squash, []) == [] && Tokens(act, []) == [] && Count(act, []) == 0
  {
  }

  lemma OneMoreCharacter(act: Map, s: seq<CodePoint>, c: CodePoint)
    ensures Tr(act, false, s + [c]) == Tr(act, false, s) + Tr(act, false, [c])
  {
    var t := s + [c];
    assert t[..|s| + 1] == t && t[..|s|] == s;
    TrStep(act, false, [], t, |s|);
    SingleCharacter(act, false, c);
    hide TrAfter;
    hide Tokens;
    hide Count;
  }

  /** Without /s the parts of a string are translated independently of each other. */
  lemma {:induction false} PartByPart(act: Map, a: seq<CodePoint>, b: seq<CodePoint>)
    ensures Tr(act, false, a + b) == Tr(act, false, a) + Tr(act, false, b)
  {
    Nothing(act, false);
    hide Tr;
    if b == [] {
      assert a + b == a;
    } else {
      var n := |b| - 1;
      PartByPart(act, a, b[..n]);
      assert a + b == a + b[..n] + [b[n]] && b == b[..n] + [b[n]];
      OneMoreCharacter(act, a + b[..n], b[n]);
      OneMoreCharacter(act, b[..n], b[n]);
    }
  }

  lemma {:induction false} CountPartByPart(act: Map, a: seq<CodePoint>, b: seq<CodePoint>)
    ensures Count(act, a + b) == Count(act, a) + Count(act, b)
  {
    if b == [] {
      assert a + b == a;
    } else {
      var n := |b| - 1;
      assert (a + b)[..|a + b| - 1] == a + b[..n];
      CountPartByPart(act, a, b[..n]);
    }
  }

  /** Where nothing is deleted and nothing squashed, character i of the output is what the map makes of
      character i of the string. */
  lemma {:induction false} CharacterByCharacter(act: Map, cps: seq<CodePoint>)
    requires forall c <- cps :: act(c) != Drop
    ensures var out := Tr(act, false, cps);
      && |out| == |cps|
      && forall i :: 0 <= i < |cps| ==> out[i] == if act(cps[i]).To? then act(cps[i]).cp else cps[i]
  {
    Nothing(act, false);
    if cps != [] {
      var n := |cps| - 1;
      assert cps[n] in cps && cps == cps[..n] + [cps[n]];
      CharacterByCharacter(act, cps[..n]);
      PartByPart(act, cps[..n], [cps[n]]);
      SingleCharacter(act, false, cps[n]);
      hide Tr;
    }
  }

  /** The characters at positions j+1..i-1 are all deleted. */
  ghost predicate DroppedBetween(act: Map, cps: seq<CodePoint>, j: nat, i: nat)
    requires i <= |cps|
  {
    forall k :: j < k < i ==> act(cps[k]) == Drop
  }

  /** Right before position i, with nothing but deleted characters in between, one became t. */
  ghost predicate PrecededBy(act: Map, cps: seq<CodePoint>, i: nat, t: CodePoint)
    requires i <= |cps|
  {
    exists j: nat :: j < i && act(cps[j]) == To(t) && DroppedBetween(act, cps, j, i)
  }

  lemma PrecededPastDeleted(act: Map, cps: seq<CodePoint>, i: nat, t: CodePoint)
    requires 0 < i <= |cps| && act(cps[i - 1]) == Drop
    ensures PrecededBy(act, cps, i, t) <==> PrecededBy(act, cps, i - 1, t)
  {
    if PrecededBy(act, cps, i - 1, t) {
      var j: nat :| j < i - 1 && act(cps[j]) == To(t) && DroppedBetween(act, cps, j, i - 1);
      assert DroppedBetween(act, cps, j, i);
    }
    if PrecededBy(act, cps, i, t) {
      var j: nat :| j < i && act(cps[j]) == To(t) && DroppedBetween(act, cps, j, i);
      assert DroppedBetween(act, cps, j, i - 1);
    }
  }

  lemma PrecededByLast(act: Map, cps: seq<CodePoint>, i: nat, t: CodePoint)
    requires 0 < i <= |cps| && act(cps[i - 1]) != Drop
    ensures PrecededBy(act, cps, i, t) <==> act(cps[i - 1]) == To(t)
  {
    if act(cps[i - 1]) == To(t) {
      assert DroppedBetween(act, cps, i - 1, i);
    }
    if PrecededBy(act, cps, i, t) {
      var j: nat :| j < i && act(cps[j]) == To(t) && DroppedBetween(act, cps, j, i);
      assert j == i - 1;
    }
  }

  lemma RepeatsLast(ts: seq<Token>, a: Action, c: CodePoint, t: CodePoint)
    ensures Repeats(ts + Emit(a, c), New(t)) <==> if a.Drop? then Repeats(ts, New(t)) else a == To(t)
  {
    NothingMore(ts);
  }

  lemma {:induction false} RepeatsMeans(act: Map, cps: seq<CodePoint>, i: nat, t: CodePoint)
    requires i <= |cps|
    ensures Repeats(Tokens(act, cps[..i]), New(t)) <==> PrecededBy(act, cps, i, t)
  {
    if i == 0 {
      assert !PrecededBy(act, cps, 0, t);
    } else {
      TokensStep(act, cps, i - 1);
      RepeatsLast(Tokens(act, cps[..i - 1]), act(cps[i - 1]), cps[i - 1], t);
      hide Tokens;
      hide Emit;
      hide Repeats;
      hide PrecededBy;
      if act(cps[i - 1]).Drop? {
        RepeatsMeans(act, cps, i - 1, t);
        PrecededPastDeleted(act, cps, i, t);
      } else {
        PrecededByLast(act, cps, i, t);
      }
    }
  }

  /** /s: a replacement is left out exactly if the last character before it that was not deleted became
      the same; a character that is kept is never left out. */
  lemma SquashOneMore(act: Map, cps: seq<CodePoint>, i: nat)
    requires i < |cps|
    ensures Tr(act, true, cps[..i + 1]) == Tr(act, true, cps[..i]) +
      match act(cps[i])
      case Keep => [cps[i]]
      case Drop => []
      case To(t) => if PrecededBy(act, cps, i, t) then [] else [t]
  {
    TrStep(act, true, [], cps, i);
    if act(cps[i]).To? {
      RepeatsMeans(act, cps, i, act(cps[i]).cp);
    }
    assert [] + Tokens(act, cps[..i]) == Tokens(act, cps[..i]);
    hide TrAfter;
    hide Tokens;
    hide PrecededBy;
    hide Repeats;
  }

  // ---------------------------------------------------------------------------------------------
  // Inversion maps
  // ---------------------------------------------------------------------------------------------

  /** c is in range k. */
  predicate InRange(m: InvMap, k: nat, c: CodePoint) {
    k < |m.from| && m.from[k] <= c && (k + 1 < |m.from| ==> c < m.from[k + 1])
  }

  lemma RangeIsFound(m: InvMap, k: nat, c: CodePoint)
    requires m.Ordered() && InRange(m, k, c)
    ensures Search(m.from, c) == k
  {
    var i := Search(m.from, c);
    hide Search;
    if i + 1 < |m.from| {
      NotAfter(m, i + 1, k);
    }
    if k + 1 < |m.from| {
      NotAfter(m, k + 1, i);
    }
  }

  lemma NotAfter(m: InvMap, x: nat, y: nat)
    requires m.Ordered() && x < |m.from| && y < |m.from|
    ensures x <= y ==> m.from[x] <= m.from[y]
  {
  }

  /** A range that is sent to r is sent there in order: the n-th character to the n-th from r on. Deleted
      or final characters are so with no regard to their place, and unlisted ones stay. */
  lemma RangeMeans(m: InvMap, delete: bool, k: nat, c: CodePoint)
    requires m.Valid(delete) && InRange(m, k, c)
    ensures var a := InvMapMap(m, delete)(c);
      && (m.to[k] == TR_UNLISTED ==> a == Keep)
      && (m.to[k] == TR_SPECIAL_HANDLING && delete ==> a == Drop)
      && (m.to[k] == TR_SPECIAL_HANDLING && !delete ==> a == To(m.finalMap))
      && (m.to[k] <= MAX_CP ==> a.To? && a.cp - m.to[k] == c - m.from[k])
  {
    RangeIsFound(m, k, c);
    assert m.EntryLegal(k, delete);
  }

  /** Within one range the order of the characters and the distances between them are kept. */
  lemma RangeKeepsDistances(m: InvMap, delete: bool, k: nat, c: CodePoint, d: CodePoint)
    requires m.Valid(delete) && InRange(m, k, c) && InRange(m, k, d) && m.to[k] <= MAX_CP
    ensures var act := InvMapMap(m, delete);
      act(c).To? && act(d).To? && act(d).cp - act(c).cp == d - c
  {
    RangeMeans(m, delete, k, c);
    RangeMeans(m, delete, k, d);
  }

  /** What do_trans_invmap makes of a string with no deletions and no /s: character i of the output, by
      the range character i of the string is in. */
  lemma InvOutputAt(m: InvMap, utf8: bool, cps: seq<CodePoint>, i: nat, k: nat)
    requires m.Valid(false) && i < |cps| && InRange(m, k, cps[i])
    ensures var out := InvOutput(InvMapMap(m, false), false, utf8, cps);
      && |out| == |cps|
      && (m.to[k] == TR_UNLISTED ==> out[i] == cps[i])
      && (m.to[k] == TR_SPECIAL_HANDLING ==> out[i] == m.finalMap)
      && (m.to[k] <= MAX_CP ==> out[i] - m.to[k] == cps[i] - m.from[k])
  {
    var act := InvMapMap(m, false);
    RestartExact(act, false, utf8, cps);
    forall c <- cps ensures act(c) != Drop {
      assert m.EntryLegal(Search(m.from, c), false);
    }
    CharacterByCharacter(act, cps);
    RangeMeans(m, false, k, cps[i]);
    hide InvMapMap;
    hide InvOutput;
    hide Tr;
  }

  /** The inversion map that sends a..b to r..r+(b-a) and lists nothing else. */
  function OneRange(a: CodePoint, b: CodePoint, r: CodePoint): (m: InvMap)
    requires 0 < a <= b < MAX_CP && r + (b - a) <= MAX_CP
    ensures m.Valid(false) && m.Valid(true)
  {
    InvMap([0, a, b + 1], [TR_UNLISTED, r, TR_UNLISTED], 0)
  }

  /** tr/a-b/r-s/: inside the range the character as far from r as it was from a, outside it the character
      itself. */
  lemma OneRangeOutput(a: CodePoint, b: CodePoint, r: CodePoint, utf8: bool, cps: seq<CodePoint>)
    requires 0 < a <= b < MAX_CP && r + (b - a) <= MAX_CP
    ensures var out := InvOutput(InvMapMap(OneRange(a, b, r), false), false, utf8, cps);
      && |out| == |cps|
      && forall i :: 0 <= i < |cps| ==> out[i] == if a <= cps[i] <= b then r + (cps[i] - a) else cps[i]
  {
    var m := OneRange(a, b, r);
    hide InvOutput;
    hide InvMapMap;
    hide InvMap.Valid;
    RestartExact(InvMapMap(m, false), false, utf8, cps);
    if cps == [] {
      Nothing(InvMapMap(m, false), false);
    }
    forall i | 0 <= i < |cps|
      ensures var out := InvOutput(InvMapMap(m, false), false, utf8, cps);
        |out| == |cps| && out[i] == if a <= cps[i] <= b then r + (cps[i] - a) else cps[i]
    {
      InvOutputAt(m, utf8, cps, i, if cps[i] < a then 0 else if cps[i] <= b then 1 else 2);
    }
  }

  /** For instance tr/\x{3b1}-\x{3c9}/\x{391}-\x{3a9}/ turns beta into capital beta. */
  lemma GreekCapitals()
    ensures InvOutput(InvMapMap(OneRange(0x3B1, 0x3C9, 0x391), false), false, true, [0x3B2, 0x41]) == [0x392, 0x41]
  {
    hide InvOutput;
    OneRangeOutput(0x3B1, 0x3C9, 0x391, true, [0x3B2, 0x41]);
  }

  /** There and back: a range sent to one that is disjoint from it comes back, for every string with no
      character of the target range. */
  lemma ThereAndBack(a: CodePoint, b: CodePoint, r: CodePoint, utf8: bool, utf8': bool, cps: seq<CodePoint>)
    requires 0 < a <= b < MAX_CP && 0 < r && r + (b - a) < MAX_CP
    requires forall c <- cps :: !(r <= c <= r + (b - a))
    ensures var out := InvOutput(InvMapMap(OneRange(a, b, r), false), false, utf8, cps);
      InvOutput(InvMapMap(OneRange(r, r + (b - a), a), false), false, utf8', out) == cps
  {
    hide InvOutput;
    hide InvMapMap;
    hide OneRange;
    var out := InvOutput(InvMapMap(OneRange(a, b, r), false), false, utf8, cps);
    OneRangeOutput(a, b, r, utf8, cps);
    OneRangeOutput(r, r + (b - a), a, utf8', out);
    forall i | 0 <= i < |cps| ensures !(r <= cps[i] <= r + (b - a)) {
      assert cps[i] in cps;
    }
  }

  // ---------------------------------------------------------------------------------------------
  // Tables
  // ---------------------------------------------------------------------------------------------

  /** What an entry of a table means: a code point, -1 for "leave it", -2 for "delete it", and -3 for
      "everything above, each to itself". Above the bytes there is one entry, and only under /c. */
  lemma TableMeans(t: Table, complement: bool, squash: bool, c: CodePoint)
    requires t.Valid()
    ensures var out, listed := Tr(TableMap(t, complement), squash, [c]), Count(TableMap(t, complement), [c]);
      && (c >= 256 && !complement ==> out == [c] && listed == 0)
      && (c < 256 || complement ==>
            var e := t.entry[if c < 256 then c else 256];
            && (e >= 0 ==> out == [e] && listed == 1)
            && (e == -1 ==> out == [c] && listed == 0)
            && (e == -2 ==> out == [] && listed == 1)
            && (e == -3 ==> out == [c] && listed == 1))
  {
    SingleCharacter(TableMap(t, complement), squash, c);
    hide Tr;
    hide Count;
  }

  /** do_trans_simple's reading: a table with no deletions, where anything negative means "leave it". */
  lemma SimpleTableMeans(t: Table, c: CodePoint)
    requires t.Valid()
    ensures var out, listed := Tr(SimpleMap(t), false, [c]), Count(SimpleMap(t), [c]);
      if c < 256 && t.entry[c] >= 0 then out == [t.entry[c]] && listed == 1 else out == [c] && listed == 0
  {
    SingleCharacter(SimpleMap(t), false, c);
    hide Tr;
    hide Count;
  }

  /** Tables that undo each other, such as the one of rot13 and itself, give every string back. */
  lemma TableThereAndBack(t: Table, t': Table, complement: bool, cps: seq<CodePoint>)
    requires t.Valid() && t'.Valid()
    requires forall c: Byte :: t.entry[c] >= 0 && t'.entry[t.entry[c]] == c
    requires complement ==> t.entry[256] == t'.entry[256] == -3
    ensures Tr(TableMap(t', complement), false, Tr(TableMap(t, complement), false, cps)) == cps
  {
    var act, act' := TableMap(t, complement), TableMap(t', complement);
    forall c <- cps ensures act(c) != Drop {
    }
    CharacterByCharacter(act, cps);
    var out := Tr(act, false, cps);
    hide Tr;
    forall i | 0 <= i < |cps| ensures act'(out[i]) == To(cps[i]) || (act'(out[i]) == Keep && out[i] == cps[i]) {
      var c := cps[i];
      if c < 256 {
        var b: Byte := c;
        assert t.entry[b] >= 0 && t'.entry[t.entry[b]] == b;
      }
    }
    forall c <- out ensures act'(c) != Drop {
      var i :| 0 <= i < |out| && out[i] == c;
      assert act'(out[i]) != Drop;
    }
    CharacterByCharacter(act', out);
  }

  /** Deleting: what is left is, in order, what the map keeps. */
  lemma {:induction false} DeletingKeepsTheRest(act: Map, cps: seq<CodePoint>, c: CodePoint)
    requires forall c <- cps :: act(c) == Keep || act(c) == Drop
    ensures multiset(Tr(act, false, cps))[c] == if act(c) == Keep then multiset(cps)[c] else 0
    ensures |Tr(act, false, cps)| + Count(act, cps) == |cps|
  {
    Nothing(act, false);
    if cps != [] {
      var n := |cps| - 1;
      assert cps[n] in cps && cps == cps[..n] + [cps[n]];
      DeletingKeepsTheRest(act, cps[..n], c);
      PartByPart(act, cps[..n], [cps[n]]);
      CountPartByPart(act, cps[..n], [cps[n]]);
      SingleCharacter(act, false, cps[n]);
      hide Tr;
      hide Count;
    }
  }
}
