/**
  The transliteration loops of doop.c: cursors s and d over byte buffers, in place or into a copy,
  proved to do to the bytes what TrSpec does to the code points.
 */
module TrInvmap {
  import opened Utf8
  import opened TrSpec
  import opened TrRestart

  /** A string scalar: SvPVX, SvCUR, SvUTF8, and the code points it holds. */
  class SV {
    var buf: array<Byte>
    var cur: nat
    var utf8: bool
    ghost var cps: seq<CodePoint>

    ghost predicate Valid()
      reads this, buf
    {
      && cur < buf.Length  // there is always room for the trailing NUL
      && (utf8 || Narrow(cps))
      && buf[..cur] == Text(utf8, cps)
    }
  }

  predicate Narrow(cps: seq<CodePoint>) {
    forall c <- cps :: c < 0x100
  }

  // ---------------------------------------------------------------------------------------------
  // Cursors
  // ---------------------------------------------------------------------------------------------

  /** After i characters: s is where the next one starts, and the rest is still there to be read. */
  ghost predicate Reads(src: array<Byte>, send: nat, u: bool, cps: seq<CodePoint>, i: nat, s: nat)
    reads src
  {
    && i <= |cps| && s <= send <= src.Length
    && s == |Text(u, cps[..i])|
    && src[s..send] == Text(u, cps[i..])
  }

  /** dst holds exactly `out` before d. */
  ghost predicate Wrote(dst: array<Byte>, d: nat, u: bool, out: seq<CodePoint>)
    reads dst
  {
    d <= dst.Length && dst[..d] == Text(u, out)
  }

  /** In place the write cursor has not passed the read cursor. */
  ghost predicate Behind(src: array<Byte>, dst: array<Byte>, s: nat, d: nat) {
    src == dst ==> d <= s
  }

  /** One character may replace another in place: it is not longer. */
  ghost predicate Fits(u: bool, c: CodePoint, uo: bool, t: CodePoint) {
    |Char(uo, t)| <= |Char(u, c)|
  }

  lemma Suffix(cps: seq<CodePoint>, i: nat)
    requires i < |cps|
    ensures cps[i..] == [cps[i]] + cps[i + 1..]
  {
  }

  /** The character a run of bytes starts with: its code point and its length. */
  function FirstChar(u: bool, b: seq<Byte>): (nat, nat)
    requires b != [] && |b| >= SkipOf(b[0])
  {
    if !u || b[0] < 0x80 then (b[0], 1) else Decode(b)
  }

  lemma FirstCharIs(u: bool, c: CodePoint, rest: seq<Byte>)
    requires u || c < 0x100
    ensures var b := Char(u, c) + rest;
      (u ==> |b| >= SkipOf(b[0])) && (!u ==> b[0] == c && |Char(u, c)| == 1)
      && (u ==> FirstChar(u, b) == (c, |Char(u, c)|))
  {
    if u {
      DecodeEncode(c, rest);
      if Skip(c) > 1 {
        TopFits(c);
      }
    }
  }

  /** The character at s. */
  method ReadChar(src: array<Byte>, send: nat, u: bool, s: nat, ghost cps: seq<CodePoint>, ghost i: nat)
    returns (from: CodePoint, len: nat)
    requires Reads(src, send, u, cps, i, s) && s < send && (u || Narrow(cps))
    ensures i < |cps| && from == cps[i] && len == |Char(u, cps[i])| && s + len <= send <= src.Length
    ensures (u || from < 0x100) && cps[i] in cps
    ensures src[s..s + len] == Char(u, cps[i])
  {
    hide Decode;
    hide Char;
    hide Encode;
    assert cps[|cps|..] == [] && Text(u, []) == [];
    hide Text;
    assert i < |cps| && cps[i] in cps;
    Suffix(cps, i);
    TextCons(u, cps[i], cps[i + 1..]);
    FirstCharIs(u, cps[i], Text(u, cps[i + 1..]));
    var b := src[s..send];
    assert b[..|Char(u, cps[i])|] == Char(u, cps[i]);
    if !u || b[0] < 0x80 {
      from, len := b[0], 1;
    } else {
      from, len := Decode(b).0, Decode(b).1;
    }
  }

  /** Moving the read cursor over character i. */
  lemma Skipped(src: array<Byte>, send: nat, u: bool, cps: seq<CodePoint>, i: nat, s: nat)
    requires Reads(src, send, u, cps, i, s) && i < |cps|
    ensures Reads(src, send, u, cps, i + 1, s + |Char(u, cps[i])|)
  {
    hide Char;
    hide Text;
    var l := |Char(u, cps[i])|;
    Suffix(cps, i);
    TextCons(u, cps[i], cps[i + 1..]);
    TextAt(u, cps, i);
    assert src[s..send][l..] == src[s + l..send];
  }

  /** Writes bs at d. */
  method WriteBytes(dst: array<Byte>, d: nat, bs: seq<Byte>)
    requires d + |bs| <= dst.Length
    modifies dst
    ensures dst[..d + |bs|] == old(dst[..d]) + bs
    ensures dst[d + |bs|..] == old(dst[d + |bs|..])
  {
    forall k | 0 <= k < |bs| {
      dst[d + k] := bs[k];
    }
  }

  /** Writes the character t, bytes bs, for character i, and moves both cursors. */
  method Put(src: array<Byte>, dst: array<Byte>, send: nat, s: nat, d: nat, bs: seq<Byte>, len: nat,
             ghost u: bool, ghost uo: bool, ghost cps: seq<CodePoint>, ghost i: nat,
             ghost out: seq<CodePoint>, ghost t: CodePoint)
    returns (s': nat, d': nat)
    requires Reads(src, send, u, cps, i, s) && i < |cps| && Wrote(dst, d, uo, out) && Behind(src, dst, s, d)
    requires bs == Char(uo, t) && len == |Char(u, cps[i])|
    requires if src == dst then Fits(u, cps[i], uo, t) else d + |bs| <= dst.Length
    modifies dst
    ensures s' == s + len && d' == d + |bs| && Reads(src, send, u, cps, i + 1, s')
    ensures Wrote(dst, d', uo, out + [t]) && Behind(src, dst, s', d')
    ensures src != dst ==> src[..] == old(src[..])
    ensures dst[d'..] == old(dst[d'..])
  {
    hide Char;
    hide Text;
    Skipped(src, send, u, cps, i, s);
    TextSnoc(uo, out, t);
    s', d' := s + len, d + |bs|;
    label Before:
    WriteBytes(dst, d, bs);
    if src == dst {
      TailKept(old@Before(src[..]), src[..], d', s', send);
      assert old@Before(src[s'..send]) == old@Before(src[..])[s'..send] && src[s'..send] == src[..][s'..send];
    }
  }

  lemma TailKept(a: seq<Byte>, b: seq<Byte>, d: nat, s: nat, send: nat)
    requires d <= s <= send <= |a| == |b| && a[d..] == b[d..]
    ensures a[s..send] == b[s..send]
  {
    forall k | s <= k < send ensures a[k] == b[k] {
      assert a[k] == a[d..][k - d] && b[k] == b[d..][k - d];
    }
  }

  // ---------------------------------------------------------------------------------------------
  // One pass over the string
  // ---------------------------------------------------------------------------------------------

  /** What a pass is about: representations, and the transliteration. */
  datatype Job = Job(u: bool, uo: bool, act: Map, squash: bool, seen: seq<Token>, cps: seq<CodePoint>) {
    function Out(i: nat): seq<CodePoint>
      requires i <= |cps|
    {
      TrAfter(act, squash, seen, cps[..i])
    }

    function Before(i: nat): seq<Token>
      requires i <= |cps|
    {
      seen + Tokens(act, cps[..i])
    }

    function AddedAt(i: nat): seq<CodePoint>
      requires i < |cps|
    {
      Added(squash, Before(i), act(cps[i]), cps[i])
    }

    /** In place whatever one character becomes fits in its place. */
    ghost predicate Suits(inPlace: bool) {
      (u || Narrow(cps)) && (u ==> uo) && (inPlace ==> forall c <- cps :: Replaceable(c))
    }

    /** ... and a copy has room for all there is. */
    ghost predicate AllFit(inPlace: bool, length: nat) {
      Suits(inPlace) && (!inPlace ==> |Text(uo, Out(|cps|))| <= length)
    }

    ghost predicate Replaceable(c: CodePoint) {
      && (act(c).Keep? ==> Fits(u, c, uo, c))
      && (act(c).To? && (uo || act(c).cp < 0x100) ==> Fits(u, c, uo, act(c).cp))
    }
  }

  /** The output only grows. */
  lemma {:induction false} OutGrows(job: Job, i: nat, j: nat)
    requires i <= j <= |job.cps|
    ensures |Text(job.uo, job.Out(i))| <= |Text(job.uo, job.Out(j))|
    decreases j
  {
    hide Text;
    hide TrAfter;
    hide Tokens;
    if i < j {
      OutGrows(job, i, j - 1);
      TrStep(job.act, job.squash, job.seen, job.cps, j - 1);
      hide Added;
      TextConcat(job.uo, job.Out(j - 1), job.AddedAt(j - 1));
    }
  }

  /** The loop invariant after i characters. */
  ghost predicate Passed(job: Job, src: array<Byte>, dst: array<Byte>, send: nat, i: nat, s: nat, d: nat,
                         matches: nat)
    reads src, dst
  {
    && Reads(src, send, job.u, job.cps, i, s)
    && Wrote(dst, d, job.uo, job.Out(i))
    && Behind(src, dst, s, d)
    && matches == Count(job.act, job.cps[..i])
  }

  lemma PassStarts(job: Job, src: array<Byte>, dst: array<Byte>, send: nat)
    requires send <= src.Length && src[..send] == Text(job.u, job.cps)
    ensures Passed(job, src, dst, send, 0, 0, 0, 0)
  {
    hide Reads;
    hide Wrote;
    hide Count;
    hide Text;
    hide TrAfter;
    ReadsAll(src, send, job.u, job.cps);
    NothingWrittenYet(job, dst);
  }

  lemma ReadsAll(src: array<Byte>, send: nat, u: bool, cps: seq<CodePoint>)
    requires send <= src.Length && src[..send] == Text(u, cps)
    ensures Reads(src, send, u, cps, 0, 0)
  {
    assert cps[..0] == [] && cps[0..] == cps && src[0..send] == src[..send] && Text(u, []) == [];
    hide Text;
  }

  lemma NothingWrittenYet(job: Job, dst: array<Byte>)
    ensures Wrote(dst, 0, job.uo, job.Out(0)) && Count(job.act, job.cps[..0]) == 0
  {
    assert job.cps[..0] == [] && Tokens(job.act, []) == [] && job.Out(0) == [] && dst[..0] == [];
  }

  lemma PassEnds(job: Job, src: array<Byte>, dst: array<Byte>, send: nat, i: nat, s: nat, d: nat,
                 matches: nat)
    requires Passed(job, src, dst, send, i, s, d, matches) && s == send
    ensures i == |job.cps| && job.cps[..i] == job.cps
    ensures src == dst ==> d <= send
    ensures d <= dst.Length && dst[..d] == Text(job.uo, job.Out(i)) && matches == Count(job.act, job.cps)
  {
    hide Char;
    hide TrAfter;
    hide Count;
    assert src[s..send] == [];
    assert job.cps[i..] == [];
  }

  /** Character i leaves nothing in the output. */
  lemma Omit(job: Job, src: array<Byte>, dst: array<Byte>, send: nat, i: nat, s: nat, d: nat, matches: nat)
    requires Passed(job, src, dst, send, i, s, d, matches) && i < |job.cps| && job.AddedAt(i) == []
    ensures Passed(job, src, dst, send, i + 1, s + |Char(job.u, job.cps[i])|, d, matches + 1)
  {
    hide Char;
    hide Text;
    Skipped(src, send, job.u, job.cps, i, s);
    TrStep(job.act, job.squash, job.seen, job.cps, i);
    assert job.Out(i) + [] == job.Out(i);
  }

  /** From d on the buffer is as it was. */
  ghost predicate TailIs(buf: array<Byte>, was: seq<Byte>, d: nat)
    reads buf
  {
    d <= buf.Length == |was| && buf[d..] == was[d..]
  }

  lemma TailLater(mid: seq<Byte>, buf: array<Byte>, was: seq<Byte>, d: nat, d': nat)
    requires d <= d' <= |mid| == |was| == buf.Length && mid[d..] == was[d..] && buf[d'..] == mid[d'..]
    ensures TailIs(buf, was, d')
  {
    assert mid[d'..] == mid[d..][d' - d..] && was[d'..] == was[d..][d' - d..];
  }

  /** Character i becomes t, for which there is room. */
  method Substitute(ghost job: Job, src: array<Byte>, dst: array<Byte>, send: nat, s: nat, d: nat,
                 bs: seq<Byte>, len: nat, ghost i: nat, ghost t: CodePoint, ghost matches: nat,
                 ghost was: seq<Byte>)
    returns (s': nat, d': nat)
    requires Passed(job, src, dst, send, i, s, d, matches) && i < |job.cps| && job.AddedAt(i) == [t]
    requires bs == Char(job.uo, t) && len == |Char(job.u, job.cps[i])|
    requires if src == dst then Fits(job.u, job.cps[i], job.uo, t) else d + |bs| <= dst.Length
    modifies dst
    ensures s' == s + len && d' == d + |bs|
    ensures Passed(job, src, dst, send, i + 1, s', d', matches + if job.act(job.cps[i]).Keep? then 0 else 1)
    ensures src != dst ==> src[..] == old(src[..])
    ensures old(TailIs(dst, was, d)) ==> TailIs(dst, was, d')
  {
    hide Char;
    hide Text;
    hide Fits;
    hide TrAfter;
    TrStep(job.act, job.squash, job.seen, job.cps, i);
    hide Tokens;
    ghost var mid, kept := dst[..], TailIs(dst, was, d);
    s', d' := Put(src, dst, send, s, d, bs, len, job.u, job.uo, job.cps, i, job.Out(i), t);
    if kept {
      TailLater(mid, dst, was, d, d');
    }
  }

  /** Character i becomes t. */
  method Replace(ghost job: Job, src: array<Byte>, dst: array<Byte>, send: nat, s: nat, d: nat,
                 bs: seq<Byte>, len: nat, ghost i: nat, ghost t: CodePoint, ghost matches: nat,
                 ghost was: seq<Byte> := [])
    returns (s': nat, d': nat)
    requires Passed(job, src, dst, send, i, s, d, matches) && i < |job.cps| && job.AddedAt(i) == [t]
    requires bs == Char(job.uo, t) && len == |Char(job.u, job.cps[i])|
    requires job.AllFit(src == dst, dst.Length)
    requires src == dst ==> Fits(job.u, job.cps[i], job.uo, t)
    modifies dst
    ensures s' == s + len && d' == d + |bs|
    ensures Passed(job, src, dst, send, i + 1, s', d', matches + if job.act(job.cps[i]).Keep? then 0 else 1)
    ensures src != dst ==> src[..] == old(src[..])
    ensures old(TailIs(dst, was, d)) ==> TailIs(dst, was, d')
  {
    if src != dst {
      RoomFor(job, src, dst, send, i, s, d, matches, t);
      OutGrows(job, i + 1, |job.cps|);
    }
    s', d' := Substitute(job, src, dst, send, s, d, bs, len, i, t, matches, was);
  }

  /** The output after character i, if that becomes t. */
  lemma RoomFor(job: Job, src: array<Byte>, dst: array<Byte>, send: nat, i: nat, s: nat, d: nat, matches: nat,
                t: CodePoint)
    requires Passed(job, src, dst, send, i, s, d, matches) && i < |job.cps| && job.AddedAt(i) == [t]
    ensures |Text(job.uo, job.Out(i + 1))| == d + |Char(job.uo, t)|
  {
    hide Char;
    hide Text;
    hide TrAfter;
    hide Reads;
    hide Count;
    TrStep(job.act, job.squash, job.seen, job.cps, i);
    TextSnoc(job.uo, job.Out(i), t);
  }

  /** Character i becomes t, unless the copy has no room for it. */
  method Place(ghost job: Job, src: array<Byte>, dst: array<Byte>, send: nat, s: nat, d: nat,
               bs: seq<Byte>, len: nat, ghost i: nat, ghost t: CodePoint, ghost matches: nat,
               ghost was: seq<Byte>)
    returns (ok: bool, s': nat, d': nat)
    requires Passed(job, src, dst, send, i, s, d, matches) && i < |job.cps| && job.AddedAt(i) == [t]
    requires bs == Char(job.uo, t) && len == |Char(job.u, job.cps[i])| && TailIs(dst, was, d)
    requires src == dst ==> Fits(job.u, job.cps[i], job.uo, t)
    modifies dst
    ensures src != dst ==> src[..] == old(src[..])
    ensures ok <==> src == dst || |Text(job.uo, job.Out(i + 1))| <= dst.Length
    ensures ok ==> s' == s + len && TailIs(dst, was, d')
    ensures ok ==>
      Passed(job, src, dst, send, i + 1, s', d', matches + if job.act(job.cps[i]).Keep? then 0 else 1)
  {
    hide Passed;
    hide Text;
    hide Char;
    hide TailIs;
    hide Fits;
    RoomFor(job, src, dst, send, i, s, d, matches, t);
    hide Job.Out;
    ok, s', d' := src == dst || d + |bs| <= dst.Length, s, d;
    if ok {
      s', d' := Substitute(job, src, dst, send, s, d, bs, len, i, t, matches, was);
    }
  }

  // ---------------------------------------------------------------------------------------------
  // previous_map
  // ---------------------------------------------------------------------------------------------

  /** previous_map after the tokens `before`: `none` at the start, `kept` after a character that was
      left alone, and otherwise the last replacement, deletions notwithstanding. */
  predicate PrevIs(before: seq<Token>, previous: int, none: int, kept: int) {
    && !(0 <= none <= MAX_CP) && !(0 <= kept <= MAX_CP)
    && previous == if before == [] then none
                   else if before[|before| - 1].Kept? then kept else before[|before| - 1].cp
  }

  lemma PrevTells(before: seq<Token>, previous: int, none: int, kept: int, t: CodePoint)
    requires PrevIs(before, previous, none, kept)
    ensures t == previous <==> Repeats(before, New(t))
  {
  }

  /** How the tokens before a character grow into those before the next. */
  lemma BeforeStep(job: Job, i: nat)
    requires i < |job.cps|
    ensures job.Before(i + 1) == job.Before(i) + Emit(job.act(job.cps[i]), job.cps[i])
  {
    hide Emit;
    TrStep(job.act, job.squash, job.seen, job.cps, i);
    hide TrAfter;
    Assoc(job.seen, Tokens(job.act, job.cps[..i]), Emit(job.act(job.cps[i]), job.cps[i]));
  }

  lemma PrevStep(job: Job, i: nat, previous: int, none: int, kept: int)
    requires i < |job.cps| && PrevIs(job.Before(i), previous, none, kept)
    ensures PrevIs(job.Before(i + 1), match job.act(job.cps[i]) case Keep => kept case Drop => previous case To(t) => t,
                   none, kept)
  {
    BeforeStep(job, i);
    hide Job.Before;
  }

  /** What an unlisted character is copied as: its byte, its bytes, or its two-byte encoding
      (append_utf8_from_native_byte). */
  method KeepBytes(src: array<Byte>, s: nat, len: nat, u: bool, uo: bool, from: CodePoint)
    returns (bs: seq<Byte>)
    requires s + len <= src.Length && src[s..s + len] == Char(u, from)
    requires (u ==> uo) && (u || from < 0x100)
    ensures bs == Char(uo, from)
  {
    if from < 0x80 || !uo {
      bs := [if from < 0x100 then from else 0];
      if u {
        OneByte(from);
      }
    } else if u {
      bs := src[s..s + len];
    } else {
      bs := [0xC0 + from / 64, 0x80 + from % 64];
      TwoBytes(from);
    }
  }

  lemma OneByte(c: CodePoint)
    requires c < 0x80
    ensures Encode(c) == [c]
  {
  }

  lemma TwoBytes(c: CodePoint)
    requires 0x80 <= c < 0x800
    ensures Encode(c) == [0xC0 + c / 64, 0x80 + c % 64]
  {
    assert Top(c, 1) == Top(c / 64, 0) == c / 64;
    assert Conts(c, 1) == Conts(c / 64, 0) + [0x80 + c % 64] == [0x80 + c % 64];
  }

  // ---------------------------------------------------------------------------------------------
  // do_trans_invmap
  // ---------------------------------------------------------------------------------------------

  /** How a turn of the loop, or the whole of it, ends: with a restart when the output has to become
      UTF-8, or with a character that the copy has no room for. */
  datatype Ending = Done | Restarted | Overrun

  method InvTurn(ghost job: Job, src: array<Byte>, dst: array<Byte>, send: nat, u: bool, uo: bool,
                 m: InvMap, squash: bool, delete: bool, s: nat, d: nat, matches: nat, previous: int,
                 ghost i: nat, ghost was: seq<Byte>)
    returns (s': nat, d': nat, matches': nat, previous': int, end: Ending)
    requires m.Valid(delete) && job.act == InvMapMap(m, delete)
    requires job.u == u && job.uo == uo && job.squash == squash && job.Suits(src == dst)
    requires Passed(job, src, dst, send, i, s, d, matches) && s < send
    requires PrevIs(job.Before(i), previous, TR_OOB, TR_UNLISTED) && TailIs(dst, was, d)
    modifies dst
    ensures src != dst ==> src[..] == old(src[..])
    ensures i < |job.cps|
    ensures var a := job.act(job.cps[i]);
      end.Restarted? == (!uo && a.To? && a.cp >= 0x100 && !(squash && Repeats(job.Before(i), New(a.cp))))
    ensures match end
      case Done =>
        && s < s' <= send && Passed(job, src, dst, send, i + 1, s', d', matches') && TailIs(dst, was, d')
        && PrevIs(job.Before(i + 1), previous', TR_OOB, TR_UNLISTED)
      case Restarted => Passed(job, src, dst, send, i, s, d, matches) && TailIs(dst, was, d)
      case Overrun => src != dst && |Text(uo, job.Out(i + 1))| > dst.Length
  {
    hide Char;
    hide Text;
    hide TrAfter;
    hide Tokens;
    hide Repeats;
    hide Reads;
    hide Wrote;
    hide Encode;
    hide Count;
    hide TailIs;
    hide Job.Out;
    var from, len := ReadChar(src, send, u, s, job.cps, i);
    hide Passed;
    end := Done;
    s', d', matches', previous' := s + len, d, matches, previous;
    var k := Search(m.from, from);
    assert m.EntryLegal(k, delete);
    assert job.act(from) == InvAction(m, delete, from);
    PrevStep(job, i, previous, TR_OOB, TR_UNLISTED);
    var ok := true;
    var to := m.to[k];
    if to == TR_UNLISTED {
      var bs := KeepBytes(src, s, len, u, uo, from);
      ok, s', d' := Place(job, src, dst, send, s, d, bs, len, i, from, matches, was);
      previous' := to;
    } else {
      matches' := matches + 1;
      if to == TR_SPECIAL_HANDLING && delete {
        Omit(job, src, dst, send, i, s, d, matches);
      } else {
        var t: CodePoint := if to == TR_SPECIAL_HANDLING then m.finalMap else to + (from - m.from[k]);
        PrevTells(job.Before(i), previous, TR_OOB, TR_UNLISTED, t);
        if !squash || t != previous {
          if !uo && t >= 0x100 {
            end := Restarted;
            return;
          }
          var bs := EncodeOut(uo, t);
          ok, s', d' := Place(job, src, dst, send, s, d, bs, len, i, t, matches, was);
        } else {
          Omit(job, src, dst, send, i, s, d, matches);
        }
        previous' := t;
      }
    }
    if !ok {
      end := Overrun;
    }
  }

  /** uvchr_to_utf8, or a plain byte. */
  method EncodeOut(uo: bool, t: CodePoint) returns (bs: seq<Byte>)
    requires uo || t < 0x100
    ensures bs == Char(uo, t)
  {
    bs := if uo then Encode(t) else [t];
  }

  /** Before the first wide replacement every replacement fits a byte. */
  lemma {:induction false} NarrowSoFar(act: Map, cps: seq<CodePoint>, i: nat)
    requires i <= FirstWide(act, cps)
    ensures forall t <- Tokens(act, cps[..i]) :: t.New? ==> t.cp < 0x100
    ensures Narrow(cps) ==> forall t <- Tokens(act, cps[..i]) :: t.cp < 0x100
  {
    FirstWideIsFirst(act, cps);
    if i == 0 {
      assert cps[..0] == [];
    } else {
      NarrowSoFar(act, cps, i - 1);
      TokensStep(act, cps, i - 1);
      assert cps[i - 1] in cps;
    }
  }

  lemma {:induction false} SqueezeKeeps(seen: seq<Token>, ts: seq<Token>)
    ensures forall t <- Squeeze(seen, ts) :: t in ts
  {
    if ts != [] {
      SqueezeKeeps(seen, ts[..|ts| - 1]);
    }
  }

  lemma NarrowOut(job: Job, i: nat)
    requires i <= FirstWide(job.act, job.cps) && Narrow(job.cps)
    ensures Narrow(job.Out(i))
  {
    var ts := Tokens(job.act, job.cps[..i]);
    NarrowSoFar(job.act, job.cps, i);
    SqueezeKeeps(job.seen, ts);
  }

  /** The pass came to the end of the string. */
  ghost predicate PassDone(job: Job, src: array<Byte>, dst: array<Byte>, send: nat, d: nat, matches: nat)
    reads dst
  {
    && d <= dst.Length && dst[..d] == Text(job.uo, job.Out(|job.cps|)) && matches == Count(job.act, job.cps)
    && (src == dst ==> d <= send)
    && (!job.uo ==> Narrow(job.Out(|job.cps|)))
  }

  /** The pass was abandoned before the first wide replacement, `was` being the buffer it began with. */
  ghost predicate PassStopped(job: Job, dst: array<Byte>, was: seq<Byte>, d: nat, previous: int)
    reads dst
  {
    var k := FirstWide(job.act, job.cps);
    && PrevIs(job.Before(k), previous, TR_OOB, TR_UNLISTED)
    && d <= dst.Length == |was| && dst[..d] == Text(job.uo, job.Out(k)) && dst[d..] == was[d..]
  }

  /** The while loop of do_trans_invmap, up to the end of the string, to `goto restart` or to the end of
      the copy. */
  method InvPass(ghost job: Job, src: array<Byte>, dst: array<Byte>, send: nat, u: bool, uo: bool,
                 m: InvMap, squash: bool, delete: bool, previous0: int)
    returns (d: nat, matches: nat, previous: int, end: Ending)
    requires m.Valid(delete) && job.act == InvMapMap(m, delete)
    requires job.u == u && job.uo == uo && job.squash == squash && job.Suits(src == dst)
    requires Passed(job, src, dst, send, 0, 0, 0, 0) && PrevIs(job.seen, previous0, TR_OOB, TR_UNLISTED)
    requires uo || job.seen == []
    modifies dst
    ensures src != dst ==> src[..] == old(src[..])
    ensures match end
      case Done => !Restarts(job.act, uo, job.cps) && PassDone(job, src, dst, send, d, matches)
      case Restarted => Restarts(job.act, uo, job.cps) && PassStopped(job, dst, old(dst[..]), d, previous)
      case Overrun => src != dst && |Text(uo, job.Out(|job.cps|))| > dst.Length
  {
    hide *;
    ghost var was := dst[..];
    TailAtFirst(dst);
    NarrowSource(job, src == dst);
    BeforeNothing(job);
    var s := 0;
    d, matches, previous, end := 0, 0, previous0, Done;
    ghost var i := 0;
    while s < send
      invariant s <= send && i <= |job.cps| && Passed(job, src, dst, send, i, s, d, matches)
      invariant PrevIs(job.Before(i), previous, TR_OOB, TR_UNLISTED)
      invariant uo || i <= FirstWide(job.act, job.cps)
      invariant src != dst ==> src[..] == old(src[..])
      invariant TailIs(dst, was, d) && end.Done?
      decreases send - s
    {
      var s', d', matches', previous';
      s', d', matches', previous', end :=
        InvTurn(job, src, dst, send, u, uo, m, squash, delete, s, d, matches, previous, i, was);
      if !uo {
        FirstWideIs(job, i);
      }
      if end.Restarted? {
        Stops(job, src, dst, send, i, s, d, matches, previous, was);
        return;
      }
      if end.Overrun? {
        OutGrows(job, i + 1, |job.cps|);
        return;
      }
      s, d, matches, previous, i := s', d', matches', previous', i + 1;
    }
    Ends(job, src, dst, send, i, s, d, matches);
  }

  lemma TailAtFirst(dst: array<Byte>)
    ensures TailIs(dst, dst[..], 0)
  {
  }

  lemma NarrowSource(job: Job, inPlace: bool)
    requires job.Suits(inPlace)
    ensures !job.uo ==> Narrow(job.cps)
  {
  }

  lemma Stops(job: Job, src: array<Byte>, dst: array<Byte>, send: nat, i: nat, s: nat, d: nat, matches: nat,
              previous: int, was: seq<Byte>)
    requires Passed(job, src, dst, send, i, s, d, matches) && i == FirstWide(job.act, job.cps)
    requires PrevIs(job.Before(i), previous, TR_OOB, TR_UNLISTED)
    requires TailIs(dst, was, d)
    requires !job.uo && i < |job.cps|
    ensures PassStopped(job, dst, was, d, previous) && Restarts(job.act, job.uo, job.cps)
  {
    hide FirstWide;
    hide Text;
    hide TrAfter;
    hide Tokens;
    hide Reads;
    hide Count;
    hide PrevIs;
  }

  lemma Ends(job: Job, src: array<Byte>, dst: array<Byte>, send: nat, i: nat, s: nat, d: nat, matches: nat)
    requires Passed(job, src, dst, send, i, s, d, matches) && s == send
    requires !job.uo ==> i <= FirstWide(job.act, job.cps) && Narrow(job.cps)
    ensures PassDone(job, src, dst, send, d, matches) && !Restarts(job.act, job.uo, job.cps)
  {
    hide Text;
    hide TrAfter;
    hide Tokens;
    hide Count;
    hide FirstWide;
    hide Narrow;
    PassEnds(job, src, dst, send, i, s, d, matches);
    hide Reads;
    if !job.uo {
      NarrowOut(job, i);
    }
  }

  lemma BeforeNothing(job: Job)
    ensures job.Before(0) == job.seen
  {
    assert job.cps[..0] == [] && Tokens(job.act, []) == [] && job.seen + [] == job.seen;
  }

  /** Character i is the first wide one as soon as it has a wide replacement. */
  lemma FirstWideIs(job: Job, i: nat)
    requires i < |job.cps| && i <= FirstWide(job.act, job.cps) && job.seen == []
    ensures var a := job.act(job.cps[i]);
      if a.To? && a.cp >= 0x100 then i == FirstWide(job.act, job.cps) && !Repeats(job.Before(i), New(a.cp))
      else i < FirstWide(job.act, job.cps)
  {
    FirstWideIsFirst(job.act, job.cps);
    NarrowSoFar(job.act, job.cps, i);
    hide Tokens;
    assert job.Before(i) == Tokens(job.act, job.cps[..i]);
  }

  // ---------------------------------------------------------------------------------------------
  // What the flags are worth
  // ---------------------------------------------------------------------------------------------

  lemma CharLengths(c: CodePoint)
    ensures |Char(false, c)| == 1 && |Char(true, c)| == Skip(c)
    ensures c < 0x100 ==> Char(false, c) == [c]
  {
    hide Encode;
  }

  /** What OPpTRANS_GROWS and the maximum expansion say about characters in UTF-8.  About bytes that have
      to become UTF-8 they say nothing. */
  ghost predicate Promised(act: Map, grows: bool, expansion: real) {
    forall c: CodePoint :: act(c).To? ==>
      && Skip(act(c).cp) as real <= Share(expansion, Skip(c))
      && (!grows ==> Skip(act(c).cp) <= Skip(c))
  }

  /** `ratio` times n bytes. */
  function Share(ratio: real, n: nat): real {
    ratio * n as real
  }

  lemma ShareAdds(ratio: real, a: nat, b: nat)
    requires ratio >= 1.0
    ensures Share(ratio, a + b) == Share(ratio, a) + Share(ratio, b)
    ensures Share(ratio, b) >= b as real && Share(ratio, 0) == 0.0
  {
  }

  /** No character takes more than `ratio` times the room of the one it replaces. */
  ghost predicate Scaled(job: Job, ratio: real) {
    && ratio >= 1.0 && job.u && job.uo
    && forall c <- job.cps :: job.act(c).To? ==> Skip(job.act(c).cp) as real <= Share(ratio, Skip(c))
  }

  lemma {:induction false} OutScaled(job: Job, ratio: real, i: nat)
    requires Scaled(job, ratio) && i <= |job.cps|
    ensures |Text(true, job.Out(i))| as real <= Share(ratio, |Text(true, job.cps[..i])|)
  {
    hide Text;
    hide TrAfter;
    hide Tokens;
    hide Skip;
    hide Share;
    hide Added;
    hide Encode;
    if i == 0 {
      NothingYet(job.act, job.squash, job.seen, job.cps);
      assert job.cps[..0] == [];
      TextOfOne(0);
      ShareAdds(ratio, 0, 0);
    } else {
      OutScaled(job, ratio, i - 1);
      var c, more := job.cps[i - 1], job.AddedAt(i - 1);
      TrStep(job.act, job.squash, job.seen, job.cps, i - 1);
      TextConcat(true, job.Out(i - 1), more);
      TextAt(true, job.cps, i - 1);
      CharLengths(c);
      MoreScaled(job, ratio, i - 1);
      ShareAdds(ratio, |Text(true, job.cps[..i - 1])|, Skip(c));
    }
  }

  lemma MoreScaled(job: Job, ratio: real, i: nat)
    requires Scaled(job, ratio) && i < |job.cps|
    ensures |Text(true, job.AddedAt(i))| as real <= Share(ratio, Skip(job.cps[i]))
  {
    hide Skip;
    hide Share;
    hide Repeats;
    hide Tokens;
    var c := job.cps[i];
    assert c in job.cps;
    TextOfOne(c);
    ShareAdds(ratio, 0, Skip(c));
    if job.act(c).To? {
      TextOfOne(job.act(c).cp);
    }
    hide Text;
  }

  /** In UTF-8 every replacement fits its place, or the output its copy. */
  lemma PromiseKept(job: Job, grows: bool, expansion: real, send: nat, length: nat)
    requires job.u && job.uo && Promised(job.act, grows, expansion) && expansion >= 1.0
    requires send == |Text(true, job.cps)| && (grows ==> length == CopyLength(send, expansion))
    ensures job.AllFit(!grows, length)
  {
    hide Char;
    hide Skip;
    hide Text;
    if grows {
      OutScaled(job, expansion, |job.cps|);
      assert job.cps[..|job.cps|] == job.cps;
      assert Share(expansion, send) == send as real * expansion;
      Rounded(|Text(true, job.Out(|job.cps|))|, send, expansion);
    } else {
      forall c: CodePoint ensures |Char(true, c)| == Skip(c) {
        CharLengths(c);
      }
    }
  }

  /** While the output is bytes it fits anywhere the input does. */
  lemma BytesFit(job: Job, inPlace: bool, length: nat)
    requires !job.u && !job.uo && Narrow(job.cps) && |job.cps| <= length
    ensures job.AllFit(inPlace, length)
  {
    hide Char;
    forall c: CodePoint ensures |Char(false, c)| == 1 {
      CharLengths(c);
    }
    assert job.cps[..|job.cps|] == job.cps;
    ByteOutput(job.act, job.squash, job.seen, job.cps);
    hide Text;
    hide TrAfter;
  }

  // ---------------------------------------------------------------------------------------------
  // The restart in place
  // ---------------------------------------------------------------------------------------------

  lemma {:induction false} OvertakingGrows(act: Map, squash: bool, seen: seq<Token>, src: seq<Byte>, i: nat, j: nat)
    requires i <= j <= |src|
    ensures |Text(true, Overtaking(act, squash, seen, src, i).out)|
            <= |Text(true, Overtaking(act, squash, seen, src, j).out)|
    decreases j
  {
    hide Text;
    hide Added;
    hide ReadBack;
    if i < j {
      OvertakingGrows(act, squash, seen, src, i, j - 1);
      var p := Overtaking(act, squash, seen, src, j - 1);
      var c := ReadBack(p.out, src, j - 1);
      TextConcat(true, p.out, Added(squash, p.before, act(c), c));
    }
  }

  /** The buffer of such a pass: the output up to d, the source from there on. */
  ghost predicate Overlapped(buf: array<Byte>, src: seq<Byte>, p: Pass, d: nat)
    reads buf
  {
    && |src| <= buf.Length && Wrote(buf, d, true, p.out)
    && forall j :: d <= j < |src| ==> buf[j] == src[j]
  }

  /** The loop of do_trans_invmap over bytes, writing UTF-8 into the buffer it reads. */
  method OvertakingPass(ghost act: Map, buf: array<Byte>, send: nat, m: InvMap, squash: bool, delete: bool,
                        previous0: int, ghost seen: seq<Token>, ghost src: seq<Byte>)
    returns (d: nat, matches: nat, ok: bool)
    requires m.Valid(delete) && act == InvMapMap(m, delete) && PrevIs(seen, previous0, TR_OOB, TR_UNLISTED)
    requires send == |src| <= buf.Length && buf[..send] == src
    modifies buf
    ensures var p := Overtaking(act, squash, seen, src, send);
      && (ok <==> |Text(true, p.out)| <= buf.Length)
      && (ok ==> d == |Text(true, p.out)| && buf[..d] == Text(true, p.out) && matches == p.matches)
  {
    hide Text;
    hide InvMapMap;
    hide Added;
    hide Emit;
    hide ReadBack;
    var s, previous := 0, previous0;
    d, matches, ok := 0, 0, true;
    ghost var p := Overtaking(act, squash, seen, src, 0);
    TextOfOne(0);
    while s < send
      invariant s <= send && p == Overtaking(act, squash, seen, src, s)
      invariant d == |Text(true, p.out)| && Overlapped(buf, src, p, d) && matches == p.matches
      invariant PrevIs(p.before, previous, TR_OOB, TR_UNLISTED)
    {
      OvertakingGrows(act, squash, seen, src, s + 1, send);
      d, matches, previous, ok, p := OvertakingTurn(act, buf, m, squash, delete, previous, src, p, s, d, matches);
      if !ok {
        return;
      }
      s := s + 1;
    }
  }

  method OvertakingTurn(ghost act: Map, buf: array<Byte>, m: InvMap, squash: bool, delete: bool, previous: int,
                        ghost src: seq<Byte>, ghost p: Pass, s: nat, d: nat, matches: nat)
    returns (d': nat, matches': nat, previous': int, ok: bool, ghost p': Pass)
    requires m.Valid(delete) && act == InvMapMap(m, delete) && PrevIs(p.before, previous, TR_OOB, TR_UNLISTED)
    requires s < |src| && Overlapped(buf, src, p, d) && d == |Text(true, p.out)| && matches == p.matches
    modifies buf
    ensures var c := ReadBack(p.out, src, s);
      p' == Pass(p.out + Added(squash, p.before, act(c), c), p.before + Emit(act(c), c),
                 p.matches + if act(c).Keep? then 0 else 1)
    ensures ok <==> |Text(true, p'.out)| <= buf.Length
    ensures ok ==> Overlapped(buf, src, p', d') && d' == |Text(true, p'.out)| && matches' == p'.matches
    ensures ok ==> PrevIs(p'.before, previous', TR_OOB, TR_UNLISTED)
  {
    hide Text;
    hide Repeats;
    var from := buf[s];
    assert from == ReadBack(p.out, src, s);
    hide ReadBack;
    var k := Search(m.from, from);
    assert m.EntryLegal(k, delete);
    assert act(from) == InvAction(m, delete, from);
    p' := Pass(p.out + Added(squash, p.before, act(from), from), p.before + Emit(act(from), from),
               p.matches + if act(from).Keep? then 0 else 1);
    assert p.out + [] == p.out && p.before + [] == p.before;
    d', matches', previous', ok := d, matches, previous, true;
    var to := m.to[k];
    if to == TR_UNLISTED {
      d', ok := AppendChar(buf, d, from, p.out, src);
      previous' := to;
    } else {
      matches' := matches + 1;
      if !(to == TR_SPECIAL_HANDLING && delete) {
        var t: CodePoint := if to == TR_SPECIAL_HANDLING then m.finalMap else to + (from - m.from[k]);
        PrevTells(p.before, previous, TR_OOB, TR_UNLISTED, t);
        if !squash || t != previous {
          d', ok := AppendChar(buf, d, t, p.out, src);
        }
        previous' := t;
      }
    }
  }

  /** d = uvchr_to_utf8(d, t), if there is room */
  method AppendChar(buf: array<Byte>, d: nat, t: CodePoint, ghost out: seq<CodePoint>, ghost src: seq<Byte>)
    returns (d': nat, ok: bool)
    requires Wrote(buf, d, true, out) && d == |Text(true, out)|
    requires |src| <= buf.Length && forall j :: d <= j < |src| ==> buf[j] == src[j]
    modifies buf
    ensures ok <==> |Text(true, out + [t])| <= buf.Length
    ensures ok ==> Wrote(buf, d', true, out + [t]) && d' == |Text(true, out + [t])|
    ensures ok ==> forall j :: d' <= j < |src| ==> buf[j] == src[j]
  {
    hide Text;
    hide Encode;
    TextSnoc(true, out, t);
    var bs := Encode(t);
    d', ok := d + |bs|, d + |bs| <= buf.Length;
    if ok {
      ghost var was := buf[..];
      WriteBytes(buf, d, bs);
      forall j | d' <= j < |src| ensures buf[j] == src[j] {
        assert buf[j] == buf[d'..][j - d'] && was[j] == was[d'..][j - d'];
      }
    }
  }

  // ---------------------------------------------------------------------------------------------
  // do_trans_invmap
  // ---------------------------------------------------------------------------------------------

  /** SvCUR_set on the buffer at hand. */
  method Finish(sv: SV, dst: array<Byte>, d: nat, utf8: bool, ghost out: seq<CodePoint>)
    requires d < dst.Length && dst[..d] == Text(utf8, out) && (utf8 || Narrow(out))
    modifies sv, dst
    ensures sv.Valid() && sv.buf == dst && sv.cur == d && sv.utf8 == utf8 && sv.cps == out
  {
    hide Text;
    ghost var before := dst[..d];
    dst[d] := 0;
    assert dst[..d] == before;
    sv.buf, sv.cur, sv.utf8, sv.cps := dst, d, utf8, out;
  }

  /** sv_setpvn from the copy. */
  method SetPvn(sv: SV, copy: array<Byte>, d: nat, utf8: bool, ghost out: seq<CodePoint>)
    requires d <= copy.Length && copy[..d] == Text(utf8, out) && (utf8 || Narrow(out))
    modifies sv
    ensures sv.Valid() && fresh(sv.buf) && sv.cur == d && sv.utf8 == utf8 && sv.cps == out
  {
    hide Text;
    var buf := new Byte[d + 1];
    forall i | 0 <= i < d {
      buf[i] := copy[i];
    }
    assert buf[..d] == copy[..d];
    Finish(sv, buf, d, utf8, out);
  }

  /** Whether the operator works on the string's own buffer. */
  predicate OwnBuffer(utf8: bool, grows: bool, canForce: bool) {
    !grows && (utf8 || !canForce)
  }

  /** The memory at hand is enough for what this string becomes, which for one in UTF-8 the flags see to:
      the output of a byte string fits its copy, or if it is restarted in place, with its NUL, the buffer
      of `length` bytes it is in. */
  ghost predicate Enough(act: Map, squash: bool, grows: bool, canForce: bool, expansion: real,
                         utf8: bool, cps: seq<CodePoint>, length: nat)
  {
    || utf8
    || if !OwnBuffer(utf8, grows, canForce) then CopyEnough(act, squash, expansion, cps)
       else Restarts(act, false, cps) ==> |Text(true, InPlace(act, squash, Text(false, cps)).out)| < length
  }

  /** The restart reads what the abandoned pass and itself have written. */
  predicate Corrupts(act: Map, grows: bool, canForce: bool, utf8: bool, cps: seq<CodePoint>) {
    OwnBuffer(utf8, grows, canForce) && Restarts(act, utf8, cps)
  }

  /** The restarted pass, in place: src is what the string held, sv.buf what the abandoned pass left. */
  method RestartInPlace(sv: SV, m: InvMap, squash: bool, delete: bool, previous: int, ghost act: Map,
                        ghost src: seq<Byte>)
    returns (matches: nat, enough: bool)
    requires m.Valid(delete) && act == InvMapMap(m, delete) && Restarts(act, false, src)
    requires PrevIs(Tokens(act, src[..FirstWide(act, src)]), previous, TR_OOB, TR_UNLISTED)
    requires sv.cur == |src| <= sv.buf.Length
    requires sv.buf[..sv.cur] == Overwritten(Text(false, TrAfter(act, squash, [], src[..FirstWide(act, src)])), src)
    modifies sv, sv.buf
    ensures enough <==> |Text(true, InPlace(act, squash, src).out)| < old(sv.buf.Length)
    ensures enough ==> sv.Valid() && sv.buf == old(sv.buf) && sv.utf8
    ensures enough ==> sv.cps == InPlace(act, squash, src).out && matches == InPlace(act, squash, src).matches
  {
    hide Text;
    hide TrAfter;
    hide Tokens;
    hide FirstWide;
    hide Overtaking;
    hide Overwritten;
    ghost var left, seen := sv.buf[..sv.cur], Tokens(act, src[..FirstWide(act, src)]);
    var d;
    d, matches, enough := OvertakingPass(act, sv.buf, sv.cur, m, squash, delete, previous, seen, left);
    enough := enough && d < sv.buf.Length;
    if enough {
      Finish(sv, sv.buf, d, true, InPlace(act, squash, src).out);
    }
  }

  /** What an abandoned pass in place has left in the buffer. */
  lemma LeftBehind(job: Job, buf: array<Byte>, was: seq<Byte>, d: nat, previous: int, send: nat)
    requires PassStopped(job, buf, was, d, previous) && d <= send <= |was|
    ensures buf[..send] == Overwritten(Text(job.uo, job.Out(FirstWide(job.act, job.cps))), was[..send])
  {
    hide Text;
    hide TrAfter;
    hide FirstWide;
    hide Tokens;
    TailKept(buf[..], was, d, d, send);
    assert buf[..send] == buf[..d] + buf[..][d..send] && was[..send][d..] == was[d..send];
  }

  /** do_trans_invmap: one pass, and a second one, over the source or over what the first one left of
      it, if the output has to become UTF-8.  Where the source would write beyond its memory, `enough`
      comes out false, and nothing is said of the string. */
  method DoTransInvmap(sv: SV, m: InvMap, squash: bool, delete: bool, grows: bool, canForce: bool,
                       expansion: real)
    returns (matches: nat, enough: bool)
    requires sv.Valid() && m.Valid(delete) && expansion >= 1.0
    requires sv.utf8 ==> Promised(InvMapMap(m, delete), grows, expansion)
    modifies sv, sv.buf
    ensures var act, cps, utf8 := InvMapMap(m, delete), old(sv.cps), old(sv.utf8);
      && (enough <==> Enough(act, squash, grows, canForce, expansion, utf8, cps, old(sv.buf.Length)))
      && (enough ==>
            && sv.Valid()
            && sv.utf8 == (utf8 || Restarts(act, utf8, cps))
            && (OwnBuffer(utf8, grows, canForce) ==> sv.buf == old(sv.buf))
            && if Corrupts(act, grows, canForce, utf8, cps) then
                 var pass := InPlace(act, squash, Text(false, cps));
                 sv.cps == pass.out && matches == pass.matches
               else sv.cps == InvOutput(act, squash, utf8, cps) && matches == Count(act, cps))
  {
    if OwnBuffer(sv.utf8, grows, canForce) {
      matches, enough := TransInPlace(sv, m, squash, delete, grows, canForce, expansion);
    } else {
      matches, enough := TransCopy(sv, m, squash, delete, grows, canForce, expansion);
    }
  }

  /** ... without OPpTRANS_GROWS, and without OPpTRANS_CAN_FORCE_UTF8 unless the string is in UTF-8. */
  method TransInPlace(sv: SV, m: InvMap, squash: bool, delete: bool, ghost grows: bool, ghost canForce: bool,
                      ghost expansion: real)
    returns (matches: nat, enough: bool)
    requires sv.Valid() && m.Valid(delete) && OwnBuffer(sv.utf8, grows, canForce) && expansion >= 1.0
    requires sv.utf8 ==> Promised(InvMapMap(m, delete), grows, expansion)
    modifies sv, sv.buf
    ensures var act, cps, utf8 := InvMapMap(m, delete), old(sv.cps), old(sv.utf8);
      && (enough <==> Enough(act, squash, grows, canForce, expansion, utf8, cps, old(sv.buf.Length)))
      && (enough ==>
            && sv.Valid() && sv.buf == old(sv.buf)
            && sv.utf8 == (utf8 || Restarts(act, utf8, cps))
            && if Restarts(act, utf8, cps) then
                 var pass := InPlace(act, squash, Text(false, cps));
                 sv.cps == pass.out && matches == pass.matches
               else sv.cps == InvOutput(act, squash, utf8, cps) && matches == Count(act, cps))
  {
    hide Text;
    hide TrAfter;
    hide Count;
    hide Tokens;
    hide InvMapMap;
    hide FirstWide;
    hide InPlace;
    hide Promised;
    hide Passed;
    hide Job.Suits;
    hide Narrow;
    var buf, send, u := sv.buf, sv.cur, sv.utf8;
    ghost var act, cps, was := InvMapMap(m, delete), sv.cps, sv.buf[..];
    ghost var job := Job(u, u, act, squash, [], cps);
    if u {
      PromiseKept(job, grows, expansion, send, buf.Length);
    } else {
      ByteText(cps);
      BytesFit(job, true, buf.Length);
    }
    PassStarts(job, buf, buf, send);
    BeforeNothing(job);
    var d, previous, end;
    d, matches, previous, end := InvPass(job, buf, buf, send, u, u, m, squash, delete, TR_OOB);
    if end.Restarted? {
      StoppedAt(job, buf, was, d, previous);
      LeftBehind(job, buf, was, d, previous, send);
      matches, enough := RestartInPlace(sv, m, squash, delete, previous, act, was[..send]);
    } else {
      assert cps[..|cps|] == cps;
      Finish(sv, buf, d, u, job.Out(|cps|));
      enough := true;
    }
  }

  lemma {:induction false} ByteText(cps: seq<CodePoint>)
    requires Narrow(cps)
    ensures Text(false, cps) == cps
  {
    if cps != [] {
      hide Text;
      hide Char;
      var init, x := cps[..|cps| - 1], cps[|cps| - 1];
      assert (forall c <- init :: c in cps) && x in cps && cps == init + [x];
      ByteText(init);
      TextSnoc(false, init, x);
      CharLengths(x);
    }
  }

  /** In bytes the write cursor never gets past where the pass was abandoned. */
  lemma StoppedAt(job: Job, buf: array<Byte>, was: seq<Byte>, d: nat, previous: int)
    requires PassStopped(job, buf, was, d, previous) && !job.uo
    ensures d <= |job.cps|
  {
    var k := FirstWide(job.act, job.cps);
    ByteOutput(job.act, job.squash, job.seen, job.cps[..k]);
  }

  /** ... into a copy: the source stays intact for the second pass. */
  method TransCopy(sv: SV, m: InvMap, squash: bool, delete: bool, ghost grows: bool, ghost canForce: bool,
                   expansion: real)
    returns (matches: nat, enough: bool)
    requires sv.Valid() && m.Valid(delete) && !OwnBuffer(sv.utf8, grows, canForce) && expansion >= 1.0
    requires sv.utf8 ==> Promised(InvMapMap(m, delete), grows, expansion)
    modifies sv
    ensures var act, cps, utf8 := InvMapMap(m, delete), old(sv.cps), old(sv.utf8);
      && (enough <==> utf8 || CopyEnough(act, squash, expansion, cps))
      && (enough ==>
            && sv.Valid() && fresh(sv.buf)
            && sv.utf8 == (utf8 || Restarts(act, utf8, cps))
            && sv.cps == InvOutput(act, squash, utf8, cps) && matches == Count(act, cps))
  {
    hide Text;
    hide TrAfter;
    hide Count;
    hide Tokens;
    hide InvMapMap;
    hide FirstWide;
    hide Promised;
    hide Passed;
    hide Job.Suits;
    hide Narrow;
    hide CopyLength;
    var src, send, u := sv.buf, sv.cur, sv.utf8;
    ghost var act, cps := InvMapMap(m, delete), sv.cps;
    var copy := NewCopy(send, expansion);
    ghost var job := Job(u, u, act, squash, [], cps);
    CopyFits(job, grows, canForce, expansion, send, copy.Length);
    PassStarts(job, src, copy, send);
    BeforeNothing(job);
    assert cps[..|cps|] == cps;
    var out_is_utf8 := u;
    var d, previous, end;
    d, matches, previous, end := InvPass(job, src, copy, send, u, u, m, squash, delete, TR_OOB);
    if end.Restarted? {
      out_is_utf8 := true;
      job := Job(u, true, act, squash, Tokens(act, cps[..FirstWide(act, cps)]), cps);
      ByteText(cps);
      SuitsCopy(job);
      PassStarts(job, src, copy, send);
      BeforeNothing(job);
      d, matches, previous, end := InvPass(job, src, copy, send, u, true, m, squash, delete, previous);
    }
    enough := end.Done?;
    if enough {
      SetPvn(sv, copy, d, out_is_utf8, job.Out(|cps|));
    }
  }

  /** Newx(d, len * max_expansion + 1 + 1) */
  method NewCopy(send: nat, expansion: real) returns (copy: array<Byte>)
    requires expansion >= 1.0
    ensures fresh(copy) && copy.Length == CopyLength(send, expansion)
    ensures copy.Length as real - 2.0 <= send as real * expansion < copy.Length as real - 1.0
  {
    AtLeastItself(send, expansion);
    copy := new Byte[(send as real * expansion).Floor + 2];
  }

  /** The first pass always fits the copy. */
  lemma CopyFits(job: Job, grows: bool, canForce: bool, expansion: real, send: nat, copy: nat)
    requires job.u == job.uo && (job.u || Narrow(job.cps)) && !OwnBuffer(job.u, grows, canForce)
    requires expansion >= 1.0 && (job.u ==> Promised(job.act, grows, expansion))
    requires send == |Text(job.u, job.cps)| && copy == CopyLength(send, expansion)
    ensures job.AllFit(false, copy) && (!job.u ==> send == |job.cps|)
  {
    hide Text;
    if job.u {
      PromiseKept(job, grows, expansion, send, copy);
    } else {
      ByteText(job.cps);
      AtLeastItself(send, expansion);
      BytesFit(job, false, copy);
    }
  }

  lemma SuitsCopy(job: Job)
    requires !job.u && job.uo && Narrow(job.cps)
    ensures job.Suits(false)
  {
  }
}
