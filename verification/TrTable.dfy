/**
  The table-driven transliterations of doop.c (one entry per byte value), the dispatch between the
  five implementations, and what makes them interchangeable.
 */
module TrTable {
  import opened Utf8
  import opened TrSpec
  import opened TrRestart
  import opened TrInvmap

  const SHORT_OOB: int := -4  // (short) TR_OOB

  // ---------------------------------------------------------------------------------------------
  // Byte strings, in place
  // ---------------------------------------------------------------------------------------------

  ghost predicate ByteJob(job: Job) {
    && !job.u && !job.uo && job.seen == [] && Narrow(job.cps)
    && forall c <- job.cps :: job.act(c).To? ==> job.act(c).cp < 0x100
  }

  /** The byte at s. */
  method ReadByte(ghost job: Job, src: array<Byte>, send: nat, s: nat, ghost i: nat) returns (b: Byte)
    requires ByteJob(job) && Reads(src, send, false, job.cps, i, s) && s < send
    ensures i < |job.cps| && b == job.cps[i] && job.cps[i] in job.cps && |Char(false, job.cps[i])| == 1
    ensures s < src.Length && b == src[s]
  {
    hide Text;
    var from, len := ReadChar(src, send, false, s, job.cps, i);
    CharLengths(from);
    assert src[s] == src[s..s + len][0];
    b := src[s];
  }

  /** A byte that stays where it is. */
  lemma Stays(job: Job, src: array<Byte>, send: nat, i: nat, s: nat, matches: nat)
    requires ByteJob(job) && Passed(job, src, src, send, i, s, s, matches) && i < |job.cps| && s < send
    requires src[s] == job.cps[i] && job.act(job.cps[i]).Keep?
    ensures Passed(job, src, src, send, i + 1, s + 1, s + 1, matches)
  {
    hide Text;
    hide Tokens;
    hide TrAfter;
    hide Count;
    CharLengths(job.cps[i]);
    Skipped(src, send, false, job.cps, i, s);
    TrStep(job.act, job.squash, job.seen, job.cps, i);
    TextSnoc(false, job.Out(i), job.cps[i]);
    assert job.cps[i] in job.cps;
    assert Char(false, job.cps[i]) == [src[s]];
    assert src[..s + 1] == src[..s] + [src[s]];
  }

  lemma NarrowBytes(job: Job)
    requires ByteJob(job)
    ensures FirstWide(job.act, job.cps) == |job.cps| && Narrow(job.Out(|job.cps|))
  {
    FirstWideIsFirst(job.act, job.cps);
    NarrowOut(job, |job.cps|);
  }

  /** The pass over the bytes of a string in its own buffer. */
  lemma BytePassStarts(job: Job, src: array<Byte>, send: nat)
    requires ByteJob(job) && send <= src.Length && src[..send] == Text(false, job.cps)
    ensures Passed(job, src, src, send, 0, 0, 0, 0) && job.AllFit(true, src.Length)
  {
    hide Text;
    PassStarts(job, src, src, send);
    ByteText(job.cps);
    BytesFit(job, true, src.Length);
  }

  /** The byte branch of do_trans_simple. */
  method SimpleBytes(ghost job: Job, src: array<Byte>, send: nat, tbl: Table) returns (matches: nat)
    requires ByteJob(job) && tbl.Valid() && job.act == SimpleMap(tbl) && !job.squash
    requires send <= src.Length && src[..send] == Text(false, job.cps)
    modifies src
    ensures src[..send] == Text(false, job.Out(|job.cps|)) && matches == Count(job.act, job.cps)
  {
    hide Text;
    hide Char;
    hide Count;
    hide Tokens;
    hide TrAfter;
    hide Reads;
    hide Job.Before;
    BytePassStarts(job, src, send);
    var s := 0;
    ghost var i := 0;
    matches := 0;
    while s < send
      invariant s <= send && Passed(job, src, src, send, i, s, s, matches)
      decreases send - s
    {
      var b := ReadByte(job, src, send, s, i);
      var ch := tbl.entry[b];
      if ch >= 0 {
        CharLengths(ch);
        var next, d := Replace(job, src, src, send, s, s, [ch], 1, i, ch, matches);
        matches := matches + 1;
      } else {
        Stays(job, src, send, i, s, matches);
      }
      s, i := s + 1, i + 1;
    }
    PassEnds(job, src, src, send, i, s, s, matches);
  }

  /** The byte branch of do_trans_complex under /s: previous_map is the last replacement, or TR_OOB. */
  method SquashBytes(ghost job: Job, src: array<Byte>, send: nat, tbl: Table, ghost complement: bool)
    returns (d: nat, matches: nat)
    requires ByteJob(job) && tbl.Valid() && job.act == TableMap(tbl, complement) && job.squash
    requires send <= src.Length && src[..send] == Text(false, job.cps)
    modifies src
    ensures d <= send && src[..d] == Text(false, job.Out(|job.cps|)) && matches == Count(job.act, job.cps)
  {
    hide Text;
    hide Char;
    hide Count;
    hide Tokens;
    hide TrAfter;
    hide Reads;
    hide Repeats;
    hide Job.Before;
    BytePassStarts(job, src, send);
    BeforeNothing(job);
    var s, previous := 0, SHORT_OOB;
    ghost var i := 0;
    d, matches := 0, 0;
    while s < send
      invariant s <= send && i <= |job.cps| && Passed(job, src, src, send, i, s, d, matches)
      invariant PrevIs(job.Before(i), previous, SHORT_OOB, SHORT_OOB)
      decreases send - s
    {
      var b := ReadByte(job, src, send, s, i);
      CharLengths(b);
      PrevStep(job, i, previous, SHORT_OOB, SHORT_OOB);
      var this_map := tbl.entry[b];
      var next;
      if this_map >= 0 {
        PrevTells(job.Before(i), previous, SHORT_OOB, SHORT_OOB, this_map);
        if this_map != previous {
          CharLengths(this_map);
          next, d := Replace(job, src, src, send, s, d, [this_map], 1, i, this_map, matches);
          previous := this_map;
        } else {
          Omit(job, src, src, send, i, s, d, matches);
        }
        matches := matches + 1;
      } else if this_map == TR_UNMAPPED {
        next, d := Replace(job, src, src, send, s, d, [b], 1, i, b, matches);
        previous := SHORT_OOB;
      } else {
        Omit(job, src, src, send, i, s, d, matches);
        matches := matches + 1;
      }
      s, i := s + 1, i + 1;
    }
    PassEnds(job, src, src, send, i, s, d, matches);
  }

  /** The byte branch of do_trans_complex without /s. */
  method PlainBytes(ghost job: Job, src: array<Byte>, send: nat, tbl: Table, ghost complement: bool)
    returns (d: nat, matches: nat)
    requires ByteJob(job) && tbl.Valid() && job.act == TableMap(tbl, complement) && !job.squash
    requires send <= src.Length && src[..send] == Text(false, job.cps)
    modifies src
    ensures d <= send && src[..d] == Text(false, job.Out(|job.cps|)) && matches == Count(job.act, job.cps)
  {
    hide Text;
    hide Char;
    hide Count;
    hide Tokens;
    hide TrAfter;
    hide Reads;
    hide Job.Before;
    BytePassStarts(job, src, send);
    var s := 0;
    ghost var i := 0;
    d, matches := 0, 0;
    while s < send
      invariant s <= send && i <= |job.cps| && Passed(job, src, src, send, i, s, d, matches)
      decreases send - s
    {
      var b := ReadByte(job, src, send, s, i);
      CharLengths(b);
      var this_map := tbl.entry[b];
      var next;
      if this_map >= 0 {
        CharLengths(this_map);
        next, d := Replace(job, src, src, send, s, d, [this_map], 1, i, this_map, matches);
        matches := matches + 1;
      } else if this_map == TR_UNMAPPED {
        next, d := Replace(job, src, src, send, s, d, [b], 1, i, b, matches);
      } else if this_map == TR_DELETE {
        Omit(job, src, src, send, i, s, d, matches);
        matches := matches + 1;
      }
      s, i := s + 1, i + 1;
    }
    PassEnds(job, src, src, send, i, s, d, matches);
  }

  // ---------------------------------------------------------------------------------------------
  // UTF-8 strings, in place or into a copy of len * 2 + 1 bytes
  // ---------------------------------------------------------------------------------------------

  /** Without OPpTRANS_GROWS no replacement is longer than what it replaces. */
  ghost predicate Compact(act: Map) {
    forall c: CodePoint :: act(c).To? ==> Skip(act(c).cp) <= Skip(c)
  }

  /** A table never more than doubles a character. */
  ghost predicate AtMostDoubles(act: Map) {
    forall c: CodePoint :: act(c).To? ==> Skip(act(c).cp) <= 2 * Skip(c)
  }

  lemma TablesAtMostDouble(tbl: Table, complement: bool)
    requires tbl.Valid()
    ensures AtMostDoubles(TableMap(tbl, complement)) && AtMostDoubles(SimpleMap(tbl))
  {
  }

  ghost predicate Utf8Job(job: Job) {
    job.u && job.uo && job.seen == []
  }

  /** The buffer the output goes to: a copy of len * 2 + 1 bytes, or the string's own. */
  method Output(sv: SV, grows: bool) returns (dst: array<Byte>)
    requires sv.Valid()
    ensures if grows then fresh(dst) && dst.Length == sv.cur * 2 + 1 else dst == sv.buf
  {
    dst := sv.buf;
    if grows {
      dst := new Byte[sv.cur * 2 + 1];
    }
  }

  lemma Utf8PassStarts(job: Job, src: array<Byte>, dst: array<Byte>, send: nat, grows: bool)
    requires Utf8Job(job) && AtMostDoubles(job.act) && (!grows ==> Compact(job.act))
    requires send <= src.Length && src[..send] == Text(true, job.cps)
    requires (src != dst) == grows && (grows ==> dst.Length == send * 2 + 1)
    ensures Passed(job, src, dst, send, 0, 0, 0, 0) && job.AllFit(!grows, dst.Length)
  {
    hide Char;
    hide Text;
    hide Skip;
    PassStarts(job, src, dst, send);
    hide Passed;
    if grows {
      assert Scaled(job, 2.0);
      OutScaled(job, 2.0, |job.cps|);
      assert job.cps[..|job.cps|] == job.cps;
    } else {
      forall c: CodePoint ensures |Char(true, c)| == Skip(c) {
        CharLengths(c);
      }
    }
  }

  /** The output replaces the string: the NUL behind it, or sv_setpvn. */
  method Adopt(sv: SV, dst: array<Byte>, d: nat, grows: bool, ghost out: seq<CodePoint>)
    requires d <= dst.Length && dst[..d] == Text(true, out) && (!grows ==> dst == sv.buf && d < dst.Length)
    modifies sv, sv.buf
    ensures sv.Valid() && sv.utf8 && sv.cps == out && (!grows ==> sv.buf == old(sv.buf))
  {
    hide Text;
    if grows {
      SetPvn(sv, dst, d, true, out);
    } else {
      Finish(sv, dst, d, true, out);
    }
  }

  /** The UTF-8 branch of do_trans_simple. */
  method SimpleUtf8(ghost job: Job, src: array<Byte>, dst: array<Byte>, send: nat, tbl: Table)
    returns (d: nat, matches: nat)
    requires Utf8Job(job) && tbl.Valid() && job.act == SimpleMap(tbl) && !job.squash
    requires job.AllFit(src == dst, dst.Length) && Passed(job, src, dst, send, 0, 0, 0, 0)
    modifies dst
    ensures d <= dst.Length && dst[..d] == Text(true, job.Out(|job.cps|)) && matches == Count(job.act, job.cps)
    ensures src == dst ==> d <= send
  {
    hide Text;
    hide Char;
    hide Count;
    hide Tokens;
    hide TrAfter;
    hide Reads;
    hide Job.Before;
    hide Fits;
    var s := 0;
    ghost var i := 0;
    d, matches := 0, 0;
    while s < send
      invariant s <= send && i <= |job.cps| && Passed(job, src, dst, send, i, s, d, matches)
      decreases send - s
    {
      var c, ulen := ReadChar(src, send, true, s, job.cps, i);
      if c < 0x100 && tbl.entry[c] >= 0 {
        var bs := EncodeOut(true, tbl.entry[c]);
        s, d := Replace(job, src, dst, send, s, d, bs, ulen, i, tbl.entry[c], matches);
        matches := matches + 1;
      } else {
        s, d := Replace(job, src, dst, send, s, d, src[s..s + ulen], ulen, i, c, matches);
      }
      i := i + 1;
    }
    PassEnds(job, src, dst, send, i, s, d, matches);
  }

  /** The UTF-8 branch of do_trans_complex. */
  method ComplexUtf8(ghost job: Job, src: array<Byte>, dst: array<Byte>, send: nat, tbl: Table,
                     complement: bool, squash: bool)
    returns (d: nat, matches: nat)
    requires Utf8Job(job) && tbl.Valid() && job.act == TableMap(tbl, complement) && job.squash == squash
    requires job.AllFit(src == dst, dst.Length) && Passed(job, src, dst, send, 0, 0, 0, 0)
    modifies dst
    ensures d <= dst.Length && dst[..d] == Text(true, job.Out(|job.cps|)) && matches == Count(job.act, job.cps)
    ensures src == dst ==> d <= send
  {
    hide Text;
    hide Char;
    hide Count;
    hide Tokens;
    hide TrAfter;
    hide Reads;
    hide Repeats;
    hide Job.Before;
    hide Fits;
    BeforeNothing(job);
    var s, pch := 0, TR_OOB;
    ghost var i := 0;
    d, matches := 0, 0;
    while s < send
      invariant s <= send && i <= |job.cps| && Passed(job, src, dst, send, i, s, d, matches)
      invariant PrevIs(job.Before(i), pch, TR_OOB, TR_OOB)
      decreases send - s
    {
      var comp, len := ReadChar(src, send, true, s, job.cps, i);
      PrevStep(job, i, pch, TR_OOB, TR_OOB);
      var sch := if comp < 256 then tbl.entry[comp] else if !complement then TR_UNMAPPED else tbl.entry[256];
      assert job.act(comp) == EntryAction(sch, comp);
      if sch >= 0 || sch == TR_R_EMPTY {
        var ch: CodePoint := if sch >= 0 then sch else comp;
        PrevTells(job.Before(i), pch, TR_OOB, TR_OOB, ch);
        if !squash || ch != pch {
          var bs := EncodeOut(true, ch);
          s, d := Replace(job, src, dst, send, s, d, bs, len, i, ch, matches);
          pch := ch;
        } else {
          Omit(job, src, dst, send, i, s, d, matches);
          s := s + len;
        }
        matches := matches + 1;
      } else if sch == TR_UNMAPPED {
        s, d := Replace(job, src, dst, send, s, d, src[s..s + len], len, i, comp, matches);
        pch := TR_OOB;
      } else {
        Omit(job, src, dst, send, i, s, d, matches);
        matches := matches + 1;
        s := s + len;
      }
      i := i + 1;
    }
    PassEnds(job, src, dst, send, i, s, d, matches);
  }

  // ---------------------------------------------------------------------------------------------
  // The functions of doop.c
  // ---------------------------------------------------------------------------------------------

  method DoTransSimple(sv: SV, tbl: Table, grows: bool) returns (matches: nat)
    requires sv.Valid() && tbl.Valid() && (!grows ==> Compact(SimpleMap(tbl)))
    modifies sv, sv.buf
    ensures sv.Valid() && sv.utf8 == old(sv.utf8) && (!grows ==> sv.buf == old(sv.buf))
    ensures sv.cps == Tr(SimpleMap(tbl), false, old(sv.cps)) && matches == Count(SimpleMap(tbl), old(sv.cps))
  {
    hide Text;
    hide TrAfter;
    hide Count;
    hide SimpleMap;
    hide Passed;
    hide Table.Valid;
    hide Compact;
    var src, send := sv.buf, sv.cur;
    ghost var cps := sv.cps;
    assert cps[..|cps|] == cps;
    if !sv.utf8 {
      ghost var job := Job(false, false, SimpleMap(tbl), false, [], cps);
      BytesStayBytes(job, tbl, false);
      matches := SimpleBytes(job, src, send, tbl);
      NarrowBytes(job);
      sv.cps := job.Out(|cps|);
    } else {
      var dst := Output(sv, grows);
      ghost var job := Job(true, true, SimpleMap(tbl), false, [], cps);
      TablesAtMostDouble(tbl, false);
      Utf8PassStarts(job, src, dst, send, grows);
      var d;
      d, matches := SimpleUtf8(job, src, dst, send, tbl);
      Adopt(sv, dst, d, grows, job.Out(|cps|));
    }
  }

  lemma BytesStayBytes(job: Job, tbl: Table, complement: bool)
    requires !job.u && !job.uo && job.seen == [] && Narrow(job.cps) && tbl.Valid()
    requires job.act == TableMap(tbl, complement) || job.act == SimpleMap(tbl)
    ensures ByteJob(job)
  {
  }

  method DoTransComplex(sv: SV, tbl: Table, complement: bool, squash: bool, grows: bool)
    returns (matches: nat)
    requires sv.Valid() && tbl.Valid() && (!grows ==> Compact(TableMap(tbl, complement)))
    modifies sv, sv.buf
    ensures sv.Valid() && sv.utf8 == old(sv.utf8) && (!grows ==> sv.buf == old(sv.buf))
    ensures sv.cps == Tr(TableMap(tbl, complement), squash, old(sv.cps))
    ensures matches == Count(TableMap(tbl, complement), old(sv.cps))
  {
    hide Text;
    hide TrAfter;
    hide Count;
    hide TableMap;
    hide Passed;
    hide Table.Valid;
    hide Compact;
    var src, send := sv.buf, sv.cur;
    ghost var cps := sv.cps;
    assert cps[..|cps|] == cps;
    var d;
    if !sv.utf8 {
      ghost var job := Job(false, false, TableMap(tbl, complement), squash, [], cps);
      BytesStayBytes(job, tbl, complement);
      if squash {
        d, matches := SquashBytes(job, src, send, tbl, complement);
      } else {
        d, matches := PlainBytes(job, src, send, tbl, complement);
      }
      NarrowBytes(job);
      Finish(sv, src, d, false, job.Out(|cps|));
    } else {
      var dst := Output(sv, grows);
      ghost var job := Job(true, true, TableMap(tbl, complement), squash, [], cps);
      TablesAtMostDouble(tbl, complement);
      Utf8PassStarts(job, src, dst, send, grows);
      d, matches := ComplexUtf8(job, src, dst, send, tbl, complement, squash);
      Adopt(sv, dst, d, grows, job.Out(|cps|));
    }
  }

  lemma ReadsFrom(sv: SV)
    requires sv.Valid()
    ensures Reads(sv.buf, sv.cur, sv.utf8, sv.cps, 0, 0)
  {
    hide Text;
    ReadsAll(sv.buf, sv.cur, sv.utf8, sv.cps);
  }

  /** The read cursor moves over character i. */
  lemma Advance(sv: SV, i: nat, s: nat)
    requires sv.Valid() && i < |sv.cps| && Reads(sv.buf, sv.cur, sv.utf8, sv.cps, i, s)
    ensures Reads(sv.buf, sv.cur, sv.utf8, sv.cps, i + 1, s + |Char(sv.utf8, sv.cps[i])|)
  {
    hide Text;
    hide Char;
    Skipped(sv.buf, sv.cur, sv.utf8, sv.cps, i, s);
  }

  lemma ReadToTheEnd(sv: SV, i: nat, s: nat)
    requires sv.Valid() && Reads(sv.buf, sv.cur, sv.utf8, sv.cps, i, s) && s == sv.cur
    ensures sv.cps[..i] == sv.cps
  {
    hide Char;
    if i < |sv.cps| {
      Suffix(sv.cps, i);
      TextCons(sv.utf8, sv.cps[i], sv.cps[i + 1..]);
    }
  }

  /** A table with no deletions counts what it lists, and under /c everything above a byte. */
  method DoTransCount(sv: SV, tbl: Table, complement: bool) returns (matches: nat)
    requires sv.Valid() && tbl.Valid() && forall i :: 0 <= i < 256 ==> tbl.entry[i] != TR_DELETE
    ensures matches == Count(TableMap(tbl, complement), sv.cps)
  {
    hide Text;
    hide Char;
    hide Reads;
    hide Tokens;
    hide TrAfter;
    var s := 0;
    ghost var act := TableMap(tbl, complement);
    ghost var i := 0;
    matches := 0;
    ReadsFrom(sv);
    while s < sv.cur
      invariant s <= sv.cur && i <= |sv.cps| && Reads(sv.buf, sv.cur, sv.utf8, sv.cps, i, s)
      invariant matches == Count(act, sv.cps[..i])
      decreases sv.cur - s
    {
      var c, ulen := ReadChar(sv.buf, sv.cur, sv.utf8, s, sv.cps, i);
      Advance(sv, i, s);
      TrStep(act, false, [], sv.cps, i);
      if (if c < 0x100 then tbl.entry[c] >= 0 else complement) {
        matches := matches + 1;
      }
      s, i := s + ulen, i + 1;
    }
    ReadToTheEnd(sv, i, s);
  }

  method Listed(m: InvMap, from: CodePoint) returns (listed: bool)
    requires m.Valid(false)
    ensures listed == !InvMapMap(m, false)(from).Keep?
  {
    var i := Search(m.from, from);
    assert m.EntryLegal(i, false);
    listed := m.to[i] != TR_UNLISTED;
  }

  method DoTransCountInvmap(sv: SV, m: InvMap) returns (matches: nat)
    requires sv.Valid() && m.Valid(false)
    ensures matches == Count(InvMapMap(m, false), sv.cps)
  {
    hide Text;
    hide Char;
    hide Reads;
    hide InvMapMap;
    hide InvMap.Valid;
    var s := 0;
    ghost var act := InvMapMap(m, false);
    ghost var i := 0;
    matches := 0;
    ReadsFrom(sv);
    while s < sv.cur
      invariant s <= sv.cur && i <= |sv.cps| && Reads(sv.buf, sv.cur, sv.utf8, sv.cps, i, s)
      invariant matches == Count(act, sv.cps[..i])
      decreases sv.cur - s
    {
      var from, s_len := ReadChar(sv.buf, sv.cur, sv.utf8, s, sv.cps, i);
      Advance(sv, i, s);
      TrStep(act, false, [], sv.cps, i);
      var listed := Listed(m, from);
      if listed {
        matches := matches + 1;
      }
      s, i := s + s_len, i + 1;
    }
    ReadToTheEnd(sv, i, s);
  }

  // ---------------------------------------------------------------------------------------------
  // The five implementations are interchangeable
  // ---------------------------------------------------------------------------------------------

  /** A table and an inversion map that denote the same translation do the same to every string,
      with and without /s, whatever the representation; the inversion map never has to restart. */
  lemma TableAndInvmapAgree(tbl: Table, complement: bool, m: InvMap, delete: bool, squash: bool, utf8: bool,
                            cps: seq<CodePoint>)
    requires tbl.Valid() && m.Valid(delete) && (utf8 || Narrow(cps))
    requires forall c <- cps :: InvMapMap(m, delete)(c) == TableMap(tbl, complement)(c)
    ensures InvOutput(InvMapMap(m, delete), squash, utf8, cps) == Tr(TableMap(tbl, complement), squash, cps)
    ensures Count(InvMapMap(m, delete), cps) == Count(TableMap(tbl, complement), cps)
    ensures !Restarts(InvMapMap(m, delete), utf8, cps)
  {
    hide InvMapMap;
    hide Tokens;
    hide Count;
    hide TrAfter;
    var act, act' := InvMapMap(m, delete), TableMap(tbl, complement);
    SameMapSameTr(act, act', squash, cps);
    FirstWideIsFirst(act, cps);
  }

  /** sv_utf8_upgrade: every byte becomes the character of that code point. */
  function Upgrade(bytes: seq<Byte>): seq<Byte> {
    Text(true, bytes)
  }

  /** Upgrading commutes with a table, read either way: if one string holds some bytes and another their
      upgraded form, both mean the same code points, what the first becomes upgrades to what the second
      becomes, and both count the same. */
  lemma UpgradeCommutes(tbl: Table, complement: bool, simple: bool, squash: bool, bytes: seq<Byte>,
                        cps: seq<CodePoint>, cps': seq<CodePoint>)
    requires tbl.Valid() && (simple ==> !squash)
    requires Narrow(cps) && Text(false, cps) == bytes && Text(true, cps') == Upgrade(bytes)
    ensures var act := if simple then SimpleMap(tbl) else TableMap(tbl, complement);
      && cps == cps' && Count(act, cps) == Count(act, cps')
      && Text(true, Tr(act, squash, cps')) == Upgrade(Text(false, Tr(act, squash, cps)))
  {
    hide Text;
    hide Tokens;
    hide Count;
    ByteText(cps);
    TextInjective(cps', bytes);
    var act := if simple then SimpleMap(tbl) else TableMap(tbl, complement);
    var job := Job(false, false, act, squash, [], cps);
    BytesStayBytes(job, tbl, complement);
    NarrowBytes(job);
    assert cps[..|cps|] == cps;
    hide TrAfter;
    ByteText(job.Out(|cps|));
  }

  /** What do_trans finds in PL_op. */
  datatype Op = Op(useInvmap: bool, identical: bool, squash: bool, delete: bool, complement: bool,
                   grows: bool, canForce: bool, tbl: Table, invmap: InvMap, expansion: real)
  {
    ghost predicate Compiled() {
      && (if useInvmap then
            invmap.Valid(delete) && expansion >= 1.0 && Promised(Act(), grows, expansion)
          else
            tbl.Valid() && (!grows ==> Compact(Act()))
            && (!delete ==> forall i :: 0 <= i < 256 ==> tbl.entry[i] != TR_DELETE))
      && (identical ==> !squash && !delete && forall c: CodePoint :: Act()(c) == Keep || Act()(c) == To(c))
    }

    /** The memory do_trans_invmap needs for this string is there. */
    ghost predicate HasRoom(utf8: bool, cps: seq<CodePoint>, length: nat)
      requires Compiled()
    {
      useInvmap && !identical ==> Enough(Act(), squash, grows, canForce, expansion, utf8, cps, length)
    }

    /** The restart happens in place. */
    ghost predicate Corrupted(utf8: bool, cps: seq<CodePoint>)
      requires Compiled()
    {
      useInvmap && Corrupts(Act(), grows, canForce, utf8, cps)
    }

    ghost function Act(): Map
      requires if useInvmap then invmap.Valid(delete) else tbl.Valid()
    {
      if useInvmap then InvMapMap(invmap, delete) else TableMap(tbl, complement)
    }
  }

  /** Without /c and /d both readings of a table are the same. */
  lemma SimpleIsTable(tbl: Table, cps: seq<CodePoint>)
    requires tbl.Valid() && forall i :: 0 <= i < 256 ==> tbl.entry[i] != TR_DELETE
    ensures Tr(SimpleMap(tbl), false, cps) == Tr(TableMap(tbl, false), false, cps)
    ensures Count(SimpleMap(tbl), cps) == Count(TableMap(tbl, false), cps)
    ensures Compact(TableMap(tbl, false)) ==> Compact(SimpleMap(tbl))
  {
    SameMapSameTr(SimpleMap(tbl), TableMap(tbl, false), false, cps);
    forall c: CodePoint ensures SimpleMap(tbl)(c) == TableMap(tbl, false)(c) {
    }
  }

  lemma IdenticalNeverRestarts(act: Map, utf8: bool, cps: seq<CodePoint>)
    requires forall c: CodePoint :: act(c) == Keep || act(c) == To(c)
    requires utf8 || Narrow(cps)
    ensures !Restarts(act, utf8, cps)
  {
    FirstWideIsFirst(act, cps);
  }

  /** Perl_do_trans: whichever implementation is chosen, tr/// does to the code points what its map
      says, with three exceptions: a stale previous_map after a restart under /s, a restart in place, and
      an inversion map whose output outgrows its memory, when `enough` comes out false. */
  method DoTrans(sv: SV, op: Op) returns (matches: nat, enough: bool)
    requires sv.Valid() && op.Compiled()
    modifies sv, sv.buf
    ensures enough <==> op.HasRoom(old(sv.utf8), old(sv.cps), old(sv.buf.Length))
    ensures enough ==> sv.Valid()
    ensures enough && op.Corrupted(old(sv.utf8), old(sv.cps)) ==>
      var pass := InPlace(op.Act(), op.squash, Text(false, old(sv.cps)));
      sv.cps == pass.out && matches == pass.matches
    ensures enough && !op.Corrupted(old(sv.utf8), old(sv.cps)) ==>
      && matches == Count(op.Act(), old(sv.cps))
      && (sv.cps == Tr(op.Act(), op.squash, old(sv.cps))
          <==> !(op.useInvmap && op.squash && StaleRepeat(op.Act(), old(sv.utf8), old(sv.cps))))
    ensures enough ==> sv.utf8 == (old(sv.utf8) || (op.useInvmap && Restarts(op.Act(), false, old(sv.cps))))
  {
    hide Text;
    hide TrAfter;
    hide Tokens;
    hide Repeats;
    hide InvMapMap;
    hide TableMap;
    hide SimpleMap;
    hide Compact;
    hide Enough;
    hide Promised;
    hide InPlace;
    ghost var cps, utf8, act := sv.cps, sv.utf8, op.Act();
    if sv.cur == 0 {
      EmptyText(sv, act, op);
      return 0, true;
    }
    enough := true;
    if op.identical {
      IdenticalChangesNothing(act, cps);
      IdenticalNeverRestarts(act, utf8, cps);
    }
    if op.useInvmap {
      if op.identical {
        matches := DoTransCountInvmap(sv, op.invmap);
      } else {
        RestartExact(act, op.squash, utf8, cps);
        matches, enough :=
          DoTransInvmap(sv, op.invmap, op.squash, op.delete, op.grows, op.canForce, op.expansion);
      }
    } else {
      if op.identical {
        matches := DoTransCount(sv, op.tbl, op.complement);
      } else if op.squash || op.delete || op.complement {
        matches := DoTransComplex(sv, op.tbl, op.complement, op.squash, op.grows);
      } else {
        SimpleIsTable(op.tbl, cps);
        matches := DoTransSimple(sv, op.tbl, op.grows);
      }
    }
  }

  lemma EmptyText(sv: SV, act: Map, op: Op)
    requires sv.Valid() && sv.cur == 0
    ensures sv.cps == [] && Tr(act, op.squash, []) == [] && Count(act, []) == 0
    ensures !Restarts(act, sv.utf8, []) && !Restarts(act, false, [])
    ensures Enough(act, op.squash, op.grows, op.canForce, op.expansion, sv.utf8, [], sv.buf.Length)
  {
    hide Char;
    assert TrAfter(act, op.squash, [], []) == [] && Text(false, []) == [];
    assert 0.0 * op.expansion == 0.0;
  }
}
