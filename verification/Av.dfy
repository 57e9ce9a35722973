/**
  The array store of av.c, in place: a window (AvARRAY, of AvFILLp+1 live slots and room for
  AvMAX+1) sliding inside one allocated C array (AvALLOC).
 */
module Av {
  import opened AvSpec
  import opened AvOps
  import opened AvRuns

  /** Zero(a + from, n, SV*) */
  method Zero(a: array<Slot>, from: nat, n: nat)
    requires from + n <= a.Length
    modifies a
    ensures a[..] == Zeroed(old(a[..]), from, n)
  {
    forall i | from <= i < from + n {
      a[i] := Null;
    }
  }

  /** Renew(a, n, SV*): the new slots hold whatever the allocator left there. */
  method Renew(a: array<Slot>, n: nat) returns (b: array<Slot>, ghost garbage: seq<Slot>)
    requires n >= a.Length
    ensures fresh(b)
    ensures |garbage| == n - a.Length && b[..] == Renewed(a[..], n, garbage)
  {
    b := new Slot[n];
    forall i | 0 <= i < a.Length {
      b[i] := a[i];
    }
    garbage := b[a.Length..];
  }

  /** Move(a + from, a + to, n, SV*), overlapping or not. */
  method Move(a: array<Slot>, from: nat, to: nat, n: nat)
    requires from + n <= a.Length && to + n <= a.Length
    modifies a
    ensures forall i :: 0 <= i < a.Length ==>
      a[i] == if to <= i < to + n then old(a[i - to + from]) else old(a[i])
  {
    forall i | 0 <= i < n {
      a[to + i] := a[from + i];
    }
  }

  /** Nulls the slots lo..hi-1 from the top down. */
  method NullDown(a: array<Slot>, lo: nat, hi: nat)
    requires lo <= hi <= a.Length
    modifies a
    ensures forall i :: 0 <= i < a.Length ==> a[i] == if lo <= i < hi then Null else old(a[i])
  {
    var key := hi;
    while key > lo
      invariant lo <= key <= hi
      invariant forall i :: 0 <= i < a.Length ==> a[i] == if key <= i < hi then Null else old(a[i])
    {
      key := key - 1;
      a[key] := Null;
    }
  }

  /** Nulls the slots lo..hi-1 from the bottom up. */
  method NullUp(a: array<Slot>, lo: nat, hi: nat)
    requires lo <= hi <= a.Length
    modifies a
    ensures forall i :: 0 <= i < a.Length ==> a[i] == if lo <= i < hi then Null else old(a[i])
  {
    var key := lo;
    while key < hi
      invariant lo <= key <= hi
      invariant forall i :: 0 <= i < a.Length ==> a[i] == if lo <= i < key then Null else old(a[i])
    {
      a[key] := Null;
      key := key + 1;
    }
  }

  /** The releasing loop of av_fill and av_clear, over slots lo..hi-1 from the top down. */
  method ReleaseDown(a: array<Slot>, lo: nat, hi: nat, refs0: multiset<Slot>, ghost c: seq<Slot>)
    returns (refs: multiset<Slot>)
    requires lo <= hi <= a.Length && c == a[lo..hi]
    modifies a
    ensures a[..] == Zeroed(old(a[..]), lo, hi - lo)
    ensures refs == refs0 - Refs(c)
  {
    hide Refs;
    hide One;
    var key := hi;
    refs := refs0;
    while key > lo
      invariant lo <= key <= hi
      invariant forall i :: 0 <= i < a.Length ==> a[i] == if key <= i < hi then Null else old(a[i])
      invariant refs == Dropped(refs0, c[key - lo..])
    {
      key := key - 1;
      assert c[key - lo..][1..] == c[key - lo + 1..];
      refs := SvREFCNT_dec(refs, a[key]);
      a[key] := Null;
    }
    assert c[0..] == c;
    DroppedTaken(refs0, c);
  }

  /** The counting loop of av_reify, over slots lo..hi-1 from the top down. */
  method IncDown(a: array<Slot>, lo: nat, hi: nat, refs0: multiset<Slot>)
    returns (refs: multiset<Slot>)
    requires lo <= hi <= a.Length
    ensures refs == refs0 + Refs(a[lo..hi])
  {
    hide Refs;
    ghost var c := a[lo..hi];
    var key := hi;
    refs := refs0;
    while key > lo
      invariant lo <= key <= hi
      invariant refs == Taken(refs0, c[key - lo..])
    {
      key := key - 1;
      var sv := a[key];
      assert c[key - lo..][1..] == c[key - lo + 1..];
      assert refs + One(Undef) == refs;
      if sv != Undef {
        refs := SvREFCNT_inc(refs, sv);
      }
    }
    assert c[0..] == c;
    DroppedTaken(refs0, c);
  }

  /** The three loops of av_reify. */
  method ReifySlots(a: array<Slot>, off: nat, n: nat, refs0: multiset<Slot>, ghost v: Store)
    returns (refs: multiset<Slot>)
    requires v.Shape() && v.buf == a[..] && v.off == off && v.fill + 1 == n
    modifies a
    ensures a[..] == Reified(v).buf
    ensures refs == refs0 + Refs(v.Contents())
  {
    hide Refs;
    NullDown(a, off + n, a.Length);
    assert a[off..off + n] == v.Contents();
    refs := IncDown(a, off, off + n, refs0);
    NullDown(a, 0, off);
  }

  method SvREFCNT_inc(refs: multiset<Slot>, sv: Slot) returns (refs': multiset<Slot>)
    ensures refs' == refs + One(sv)
  {
    refs' := if sv.Sv? then refs + multiset{sv} else refs;
  }

  method SvREFCNT_dec(refs: multiset<Slot>, sv: Slot) returns (refs': multiset<Slot>)
    ensures refs' == refs - One(sv)
  {
    refs' := if sv.Sv? then refs - multiset{sv} else refs;
  }

  /** The trimming loop of av_delete: the new fill once slot key, the last, is gone. */
  method TrimDown(a: array<Slot>, off: nat, key0: nat) returns (fill: int)
    requires off + key0 <= a.Length
    ensures fill == |TrimNulls(a[off..off + key0])| - 1
  {
    ghost var c := a[off..off + key0];
    var key := key0 - 1;
    fill := key;
    assert c[..key + 1] == c;
    while key >= 0 && a[off + key] == Null
      invariant -1 <= key == fill < key0
      invariant TrimNulls(c) == TrimNulls(c[..key + 1])
    {
      assert c[..key + 1][..key] == c[..key];
      fill := fill - 1;
      key := key - 1;
    }
  }

  /** The end of av_unshift: Move(ary, ary+num, n, SV*), then null what the elements left. */
  method MoveElements(a: array<Slot>, num: nat, n: nat)
    requires num + n <= a.Length
    modifies a
    ensures a[..] == Nulls(num) + old(a[..n]) + old(a[num + n..])
  {
    Move(a, 0, num, n);
    NullDown(a, 0, num);
  }

  /** The slide of av_extend_guts: Move(*arrayp, *allocp, fill+1). */
  method SlideToFront(a: array<Slot>, off: nat, fill: int, ghost v: Store)
    requires v.Shape() && v.buf == a[..] && v.off == off && v.fill == fill
    modifies a
    ensures a[..] == Slid(v)
  {
    Move(a, off, 0, fill + 1);
  }

  /** The growing half of av_extend_guts: the new *allocp (which *arrayp then equals) and *maxp. */
  method ExtendGuts(alloc: array<Slot>, off: nat, fill: int, max: int, isReal: bool, key: int,
                    ghost v: Store)
    returns (a: array<Slot>, maxp: int, ghost garbage: seq<Slot>,
            ghost copied: nat, ghost slid: nat)
    requires v == Store(alloc[..], off, fill, max, isReal) && v.Shape()
    requires key > max
    modifies alloc
    ensures |garbage| == FreshCount(v, key)
    ensures Store(a[..], 0, fill, maxp, isReal) == Extended(v, key, garbage)
    ensures copied == if Reallocates(v, key) then |v.buf| else 0
    ensures slid == if off > 0 then fill + 1 else 0
    ensures a == alloc || fresh(a)
  {
    hide Slid;
    hide Zeroed;
    hide Renewed;
    a, maxp, garbage, copied, slid := alloc, max, [], 0, 0;
    var aryOffset, toNull, newmax := max + 1, 0, 0;
    var resize, zero := true, isReal;
    if off != 0 {  // a shifted array exists
      toNull := off;
      maxp := maxp + toNull;
      aryOffset := fill + 1;
      SlideToFront(a, off, fill, v);
      slid := fill + 1;
      if key > maxp - 10 {
        newmax := key + maxp;
      } else {
        resize := false;
      }
    } else if a.Length > 0 {  // a full array exists
      newmax := key + maxp / 5;
    } else {  // no array yet
      maxp := if key < NEW_MIN_KEY then NEW_MIN_KEY else key;
      a, garbage := Renew(a, maxp + 1);
      aryOffset, toNull := 0, maxp + 1;
      resize, zero := false, true;
      assert Zeroed(a[..], aryOffset, toNull) == Nulls(maxp + 1);
    }
    if resize {
      copied := a.Length;
      a, garbage := Renew(a, newmax + 1);
      toNull := toNull + (newmax - maxp);
      maxp := newmax;
    }
    if zero {
      Zero(a, aryOffset, toNull);
    }
  }

  lemma UpperElements(v: Store, f: int)
    requires v.Shape() && -1 <= f <= v.fill
    ensures v.Contents()[f + 1..] == v.buf[v.off + f + 1..v.off + v.fill + 1]
  {
  }

  class AV {
    var alloc: array<Slot>      // AvALLOC; length 0 stands for a null pointer
    var off: nat                // AvARRAY - AvALLOC
    var fill: int               // AvFILLp
    var max: int                // AvMAX
    var isReal: bool            // AvREAL: the slots own references
    var reify: bool             // AvREIFY: a fake array that may become real
    var refs: multiset<Slot>    // SvREFCNT of every SV, as a multiset of references
    var owners: nat             // SvREFCNT of the array itself
    ghost var a: Arr            // the state as a value, with the ledgers of AvOps

    /** The fields are the state a, and its window lies inside its buffer. */
    ghost predicate Mirror()
      reads this, alloc
      ensures Mirror() ==>
        && a.v.Shape() && !(isReal && reify)
        && a.v.off == off && a.v.fill == fill && a.v.max == max && a.v.isReal == isReal
        && a.reify == reify && a.refs == refs && |a.v.buf| == alloc.Length
    {
      && a.v == Store(alloc[..], off, fill, max, isReal)
      && a.v.Shape()
      && a.reify == reify && a.refs == refs
      && !(isReal && reify)
    }

    constructor ()  // newAV()
      ensures Mirror() && a.Valid() && Empty(a) && fresh(alloc)
      ensures a.refs == a.outside == multiset{} && owners == 1
    {
      alloc := new Slot[0];
      off, fill, max := 0, -1, -1;
      isReal, reify := true, false;
      refs, owners := multiset{}, 1;
      a := Arr(Store([], 0, -1, -1, true), false, multiset{}, multiset{}, 0, 0);
      new;
      RefsNone();
    }

    /** av_reify */
    method DoReify()
      requires Mirror() && !isReal
      modifies this`isReal, this`reify, this`refs, this`a, alloc
      ensures Mirror() && a == Reify(old(a))
    {
      hide Refs;
      refs := ReifySlots(alloc, off, fill + 1, refs, a.v);
      hide Reified;
      hide Store.Contents;
      reify := false;
      isReal := true;
      a := Reify(a);
    }

    /** av_extend: make room for index key. */
    method Extend(key: int) returns (ok: bool, ghost g: Junk)
      requires Mirror()
      modifies this`alloc, this`off, this`max, this`a, alloc
      ensures Mirror() && (alloc == old(alloc) || fresh(alloc))
      ensures ok == (key >= -1)
      ensures a == if ok then Grown(old(a), key, g) else old(a)
    {
      hide Mirror;
      hide Grown;
      g := _ => Null;
      if key < -1 {
        return false, g;  // croaks: negative count
      }
      ok := true;
      if key > max {
        g := Grow(key);
      } else {
        NoGrowth(a, key, g);
      }
    }

    method Grow(key: int) returns (ghost g: Junk)
      requires Mirror() && key > max
      modifies this`alloc, this`off, this`max, this`a, alloc
      ensures Mirror() && (alloc == old(alloc) || fresh(alloc))
      ensures a == Grown(old(a), key, g)
    {
      hide Extended;
      hide NewMax;
      ghost var garbage, copied, slid;
      alloc, max, garbage, copied, slid := ExtendGuts(alloc, off, fill, max, isReal, key, a.v);
      off := 0;
      g := i => if 0 <= i < |garbage| then garbage[i] else Null;
      assert seq(FreshCount(a.v, key), g) == garbage;
      a := Grown(a, key, g);
    }

    /** av_store once key is known not to be negative. */
    method StoreKey(key: nat, val: Slot) returns (ghost g: Junk)
      requires Mirror()
      modifies this`alloc, this`off, this`fill, this`max, this`isReal, this`reify, this`refs, this`a, alloc
      ensures Mirror() && (alloc == old(alloc) || fresh(alloc))
      ensures a == Stored(old(a), key, val, g)
    {
      hide Mirror;
      hide Prepared;
      hide Written;
      g := Prepare(key);
      WriteAt(key, val);
    }

    /** The end of av_store: raise fill to key, or release what stood there; then write. */
    method WriteAt(key: nat, val: Slot)
      requires Mirror() && key <= max
      modifies this`fill, this`refs, this`a, alloc
      ensures Mirror() && a == Written(old(a), key, val)
    {
      hide Mirror;
      hide Written;
      if fill < key {
        WriteAbove(key, val);
      } else {
        WriteOver(key, val);
      }
    }

    method WriteAbove(key: nat, val: Slot)
      requires Mirror() && fill < key <= max
      modifies this`fill, this`a, alloc
      ensures Mirror() && a == Written(old(a), key, val)
    {
      hide One;
      if !isReal {
        NullUp(alloc, off + fill + 1, off + key + 1);  // the do-while of a fake array
        assert alloc[..] == Zeroed(a.v.buf, off + fill + 1, key - fill);
      }
      hide Zeroed;
      fill := key;
      alloc[off + key] := val;
      a := Written(a, key, val);
    }

    method WriteOver(key: nat, val: Slot)
      requires Mirror() && key <= fill
      modifies this`refs, this`a, alloc
      ensures Mirror() && a == Written(old(a), key, val)
    {
      hide One;
      assert alloc[off + key] == a.v.Contents()[key];
      hide Store.Contents;
      hide Mirror;
      if isReal {
        Release(alloc[off + key]);
      }
      PutSlot(key, val);
      TakeOver(val);
    }

    method PutSlot(key: nat, val: Slot)
      requires Mirror() && key <= fill
      modifies this`a, alloc
      ensures Mirror() && a == old(a).(v := Put(old(a).v, key, val))
    {
      alloc[off + key] := val;
      a := a.(v := Put(a.v, key, val));
    }

    /** A real array owns what is stored in it from now on. */
    ghost method TakeOver(val: Slot)
      requires Mirror()
      modifies this`a
      ensures Mirror() && a == old(a).(outside := if isReal then old(a).outside - One(val) else old(a).outside)
    {
      a := a.(outside := if isReal then a.outside - One(val) else a.outside);
    }

    method Prepare(key: nat) returns (ghost g: Junk)
      requires Mirror()
      modifies this`alloc, this`off, this`max, this`isReal, this`reify, this`refs, this`a, alloc
      ensures Mirror() && (alloc == old(alloc) || fresh(alloc))
      ensures a == Prepared(old(a), key, g) && key <= max
    {
      hide Mirror;
      if !isReal && reify {
        DoReify();
      }
      hide Reify;
      hide Grown;
      g := _ => Null;
      if key > max {
        ghost var ok;
        ok, g := Extend(key);
      } else {
        NoGrowth(a, key, g);
      }
    }

    /** av_store; negative keys count from the end, and nothing is stored before the start. */
    method StoreSv(key0: int, val: Slot) returns (stored: bool, ghost g: Junk)
      requires Mirror()
      modifies this`alloc, this`off, this`fill, this`max, this`isReal, this`reify, this`refs, this`a, alloc
      ensures Mirror() && (alloc == old(alloc) || fresh(alloc))
      ensures var n := |old(a.v.Contents())|;
        && stored == (key0 >= -n)
        && a == if key0 < -n then old(a) else Stored(old(a), if key0 < 0 then n + key0 else key0, val, g)
    {
      hide Mirror;
      hide Stored;
      g := _ => Null;
      var key := key0;
      if key < 0 {
        key := key + fill + 1;
        if key < 0 {
          return false, g;
        }
      }
      g := StoreKey(key, val);
      stored := true;
    }

    /** av_fetch without lval: the element's slot, or none; negative keys count from the end. */
    method Fetch(key0: int) returns (found: Slot)
      requires Mirror()
      ensures var c := a.v.Contents();
        found == if 0 <= key0 < |c| then c[key0] else if -|c| <= key0 < 0 then c[|c| + key0] else Null
    {
      var key := if key0 < 0 then key0 + fill + 1 else key0;
      if key < 0 || key > fill {
        return Null;
      }
      found := alloc[off + key];
    }

    /** av_fetch with lval: where there is no element, the new SV sv is stored, unless a negative key
        reaches below the start. */
    method FetchLvalue(key0: int, sv: Slot) returns (found: Slot, ghost g: Junk)
      requires Mirror() && sv.Sv?
      modifies this`alloc, this`off, this`fill, this`max, this`isReal, this`reify, this`refs, this`a, alloc
      ensures Mirror() && (alloc == old(alloc) || fresh(alloc))
      ensures var c := old(a.v.Contents());
        if key0 < -|c| then found == Null && a == old(a)
        else
          var k := if key0 < 0 then |c| + key0 else key0;
          if k < |c| && c[k] != Null then found == c[k] && a == old(a)
          else found == sv && a == Stored(Referenced(old(a), sv), k, sv, g)
    {
      hide Mirror;
      hide Stored;
      hide Store.Contents;
      g := _ => Null;
      found := Fetch(key0);
      if found == Null {
        var key := if key0 < 0 then key0 + fill + 1 else key0;
        if key >= 0 {
          MakeReference(sv);
          g := StoreKey(key, sv);
          found := sv;
        }
      }
    }

    /** av_push */
    method Push(val: Slot) returns (ghost g: Junk)
      requires Mirror()
      modifies this`alloc, this`off, this`fill, this`max, this`isReal, this`reify, this`refs, this`a, alloc
      ensures Mirror() && (alloc == old(alloc) || fresh(alloc))
      ensures a == Stored(old(a), old(a).v.fill + 1, val, g)
    {
      hide Mirror;
      hide Stored;
      g := StoreKey(fill + 1, val);
    }

    /** av_pop */
    method PopSv() returns (ret: Slot)
      requires Mirror()
      modifies this`fill, this`a, alloc
      ensures Mirror() && (a, ret) == Pop(old(a))
    {
      hide Refs;
      if fill < 0 {
        return Undef;
      }
      ret := alloc[off + fill];
      alloc[off + fill] := Null;
      fill := fill - 1;
      assert alloc[..] == Popped(a.v).buf;
      a := Pop(a).0;
      ret := if ret == Null then Undef else ret;
    }

    /** av_shift */
    method ShiftSv() returns (ret: Slot)
      requires Mirror()
      modifies this`off, this`fill, this`max, this`a, alloc
      ensures Mirror() && (a, ret) == Shift(old(a))
    {
      hide Refs;
      if fill < 0 {
        return Undef;
      }
      ret := alloc[off];
      if isReal {
        alloc[off] := Null;
      }
      off, max, fill := off + 1, max - 1, fill - 1;
      assert alloc[..] == Shifted(a.v).buf;
      a := Shift(a).0;
      ret := if ret == Null then Undef else ret;
    }

    /** av_unshift */
    method UnshiftSv(num0: int) returns (ghost g: Junk)
      requires Mirror()
      modifies this`alloc, this`off, this`fill, this`max, this`isReal, this`reify, this`refs, this`a, alloc
      ensures Mirror() && (alloc == old(alloc) || fresh(alloc))
      ensures a == Unshift(old(a), num0, g)
    {
      hide Mirror;
      hide Refs;
      hide Reify;
      hide UnshiftSlow;
      g := _ => Null;
      var num := num0;
      if num <= 0 {
        return;
      }
      if !isReal && reify {
        DoReify();
      }
      ghost var r := a;
      var i := off;
      if i > 0 {
        if i > num {
          i := num;
        }
        num := num - i;
        LowerBy(i);
      }
      if num > 0 {
        g := SlideUp(num);
      }
    }

    /** The fast half of av_unshift: take i slots back from in front of the window. */
    method LowerBy(i: nat)
      requires Mirror() && i <= off
      modifies this`off, this`fill, this`max, this`a
      ensures Mirror() && a == old(a).(v := Lowered(old(a).v, i))
    {
      max := max + i;
      fill := fill + i;
      off := off - i;
      a := a.(v := Lowered(a.v, i));
    }

    /** The slow half of av_unshift: create extra elements, and make some of them slack. */
    method SlideUp(num0: nat) returns (ghost g: Junk)
      requires Mirror() && off == 0 && num0 > 0
      modifies this`alloc, this`off, this`fill, this`max, this`a, alloc
      ensures Mirror() && (alloc == old(alloc) || fresh(alloc))
      ensures a == UnshiftSlow(old(a), num0, g)
    {
      hide Refs;
      hide Grown;
      hide Mirror;
      var i := fill;
      var slide := if i > 0 then i else 0;
      var num := num0 + slide;
      ghost var ok;
      ok, g := Extend(i + num);
      GrownRoom(old(a), i + num, g);
      MakeSlack(num, slide);
    }

    method MakeSlack(num: nat, slide: nat)
      requires Mirror() && off == 0 && fill + num <= max && slide <= num
      modifies this`off, this`fill, this`max, this`a, alloc
      ensures Mirror() && a == MoveUp(old(a), num, slide)
    {
      assert a.v.Contents() == alloc[..fill + 1];
      MoveElements(alloc, num, fill + 1);
      fill := fill + num - slide;
      max := max - slide;
      off := off + slide;
      a := MoveUp(a, num, slide);
    }

    /** Drop the elements above index f. */
    method ReleaseAbove(f: int)
      requires Mirror() && isReal && -1 <= f <= fill
      modifies this`refs, this`fill, this`a, alloc
      ensures Mirror() && a == CutTo(old(a), f)
    {
      hide Refs;
      hide Zeroed;
      hide Owned;
      ghost var c := a.v.Contents()[f + 1..];
      UpperElements(a.v, f);
      assert c == alloc[..][off + f + 1..off + fill + 1];
      hide Store.Contents;
      refs := ReleaseDown(alloc, off + f + 1, off + fill + 1, refs, c);
      fill := f;
      a := CutTo(a, f);
    }

    /** av_fill */
    method FillTo(f0: int) returns (ghost g: Junk)
      requires Mirror()
      modifies this`alloc, this`off, this`fill, this`max, this`isReal, this`reify, this`refs, this`a, alloc
      ensures Mirror() && (alloc == old(alloc) || fresh(alloc))
      ensures a == Fill(old(a), f0, g)
    {
      hide Refs;
      hide Stored;
      g := _ => Null;
      var f := if f0 < 0 then -1 else f0;
      if f <= max {
        if isReal {
          if f <= fill {
            ReleaseAbove(f);
          } else {
            fill := f;
            a := a.(v := Raised(a.v, f));
          }
        } else {
          if f <= fill {
            fill := f;
            a := CutTo(a, f);
          } else {
            NullUp(alloc, off + fill + 1, off + f + 1);
            fill := f;
            assert alloc[..] == Raised(a.v, f).buf;
            a := a.(v := Raised(a.v, f));
          }
        }
      } else {
        g := StoreKey(f, Null);
      }
    }

    /** av_clear */
    method ClearAll()
      requires Mirror()
      modifies this`off, this`fill, this`max, this`refs, this`a, alloc
      ensures Mirror() && a == Clear(old(a))
    {
      hide Mirror;
      hide Refs;
      if max < 0 {
        return;
      }
      if isReal {
        ReleaseAbove(-1);
      }
      hide CutTo;
      RewindWindow();
    }

    /** CLEAR_ARGARRAY */
    method RewindWindow()
      requires Mirror()
      modifies this`off, this`fill, this`max, this`a
      ensures Mirror() && a == old(a).(v := Rewound(old(a).v))
    {
      max := max + off;
      off := 0;
      fill := -1;
      a := a.(v := Rewound(a.v));
    }

    /** av_delete */
    method DeleteSv(key0: int, discard: bool) returns (ret: Slot)
      requires Mirror()
      modifies this`fill, this`isReal, this`reify, this`refs, this`a, alloc
      ensures Mirror() && (a, ret) == Delete(old(a), key0, discard)
      ensures var c := old(a.v.Contents());
        if key0 < -|c| || key0 >= |c| then a == old(a) && ret == Null
        else ret == if discard then Null else c[if key0 < 0 then |c| + key0 else key0]
    {
      hide Mirror;
      hide Refs;
      hide Reify;
      hide Removed;
      var key := key0;
      if key < 0 {
        key := key + fill + 1;
        if key < 0 {
          return Null;
        }
      }
      if key > fill {
        return Null;
      }
      SameElements(a);
      if !isReal && reify {
        DoReify();
      }
      ret := RemoveAt(key, discard);
    }

    static lemma SameElements(a: Arr)
      requires a.v.Shape()
      ensures Reify(a).v.Contents() == a.v.Contents()
    {
      if !a.v.isReal {
        ReifiedFacts(a.v);
      }
    }

    method RemoveAt(key0: nat, discard: bool) returns (ret: Slot)
      requires Mirror() && key0 <= fill
      modifies this`fill, this`refs, this`a, alloc
      ensures Mirror() && a == Removed(old(a), key0, discard)
      ensures ret == if discard then Null else old(a).v.Contents()[key0]
    {
      hide Refs;
      hide Deleted;
      var sv := alloc[off + key0];
      assert sv == a.v.Contents()[key0];
      hide Store.Contents;
      hide Mirror;
      hide One;
      NullSlot(key0);
      if discard {
        Release(sv);
        return Null;
      }
      HandOut(sv);
      return sv;
    }

    /** sv_2mortal: the array's reference passes to the caller. */
    ghost method HandOut(sv: Slot)
      requires Mirror()
      modifies this`a
      ensures Mirror() && a == GiveOut(old(a), sv)
    {
      a := GiveOut(a, sv);
    }

    /** if(sv) SvREFCNT_dec(sv) */
    method Release(sv: Slot)
      requires Mirror()
      modifies this`refs, this`a
      ensures Mirror() && a == old(a).(refs := old(a).refs - One(sv))
    {
      if sv != Null {
        refs := SvREFCNT_dec(refs, sv);
      }
      assert refs == a.refs - One(sv);
      a := a.(refs := refs);
    }

    method NullSlot(key: nat)
      requires Mirror() && key <= fill
      modifies this`fill, this`a, alloc
      ensures Mirror() && a == old(a).(v := Deleted(old(a).v, key))
    {
      hide TrimNulls;
      alloc[off + key] := Null;
      if key == fill {
        assert alloc[off..off + key] == a.v.Contents()[..key];
        fill := TrimDown(alloc, off, key);
      }
      a := a.(v := Deleted(a.v, key));
    }

    /** What leaving a sub does to its @_. */
    method LeaveArgs()
      requires Mirror()
      modifies this`off, this`fill, this`max, this`isReal, this`reify, this`refs, this`a, alloc
      ensures Mirror() && a == LeaveSub(old(a))
    {
      hide Clear;
      if isReal {
        ClearAll();
        isReal, reify := false, true;
        a := a.(v := a.v.(isReal := false), reify := true);
      } else {
        RewindWindow();
      }
    }

    /** A new fake @_ with room for n elements, none yet: newAV_alloc_x and AvREIFY_only.  Its slots hold
        whatever the allocator left there. */
    constructor NewArgs(n: nat)
      ensures Mirror() && fresh(alloc) && a.Valid() && !isReal && reify
      ensures a.v.Contents() == [] && a.v.off == 0 && a.v.max == n - 1 && a.outside == multiset{}
      ensures owners == 1
    {
      alloc := new Slot[n];
      off, fill, max := 0, -1, n - 1;
      isReal, reify := false, true;
      refs, owners := multiset{}, 1;
      new;
      a := Arr(Store(alloc[..], 0, -1, n - 1, false), true, multiset{}, multiset{}, 0, 0);
    }

    /** clear_defarray: a reified @_ that only the pad refers to is emptied and becomes fake again;
        one that others refer to, or that goto &sub donates (abandon, with a reference of goto's own),
        is left to them less the pad's reference, and a new one takes its place in the pad. */
    method ClearDefarray(abandon: bool) returns (args: AV)
      requires Mirror() && owners >= 1 && (isReal || abandon)
      requires abandon ==> owners > 1
      modifies this`off, this`fill, this`max, this`isReal, this`reify, this`refs, this`owners, this`a, alloc
      ensures args.Mirror() && args.owners == 1
      ensures if abandon || old(owners) > 1 then
                && fresh(args) && a == old(a) && Mirror() && owners == old(owners) - 1
                && args.a.Valid() && !args.isReal && args.reify && args.a.v.Contents() == []
                && args.a.v.max >= old(fill) && args.a.v.max >= NEW_MIN_KEY - 1
              else args == this && a == LeaveSub(old(a))
    {
      hide Clear;
      if !abandon && owners == 1 {
        LeaveArgs();
        args := this;
      } else {
        var size := fill + 1;
        args := new AV.NewArgs(if size < NEW_MIN_KEY then NEW_MIN_KEY else size);
        owners := owners - 1;
      }
    }

    /** newSV, or SvREFCNT_inc by the caller. */
    method MakeReference(x: Slot)
      requires Mirror()
      modifies this`refs, this`a
      ensures Mirror() && a == Referenced(old(a), x)
    {
      refs := SvREFCNT_inc(refs, x);
      a := Referenced(a, x);
    }

    /** One operation, as Perl code would issue it. */
    method Do(op: Op) returns (ret: Slot, ghost g: Junk)
      requires Mirror()
      modifies this`alloc, this`off, this`fill, this`max, this`isReal, this`reify, this`refs, this`a, alloc
      ensures Mirror() && (alloc == old(alloc) || fresh(alloc))
      ensures (a, ret) == Exec(old(a), op, g)
    {
      hide Mirror;
      hide Stored;
      hide Unshift;
      hide Fill;
      hide Delete;
      hide Grown;
      ret, g := Null, _ => Null;
      match op
      case PushOp(x) =>
        MakeReference(x);
        g := Push(x);
      case PopOp => ret := PopSv();
      case ShiftOp => ret := ShiftSv();
      case UnshiftOp(num) => g := UnshiftSv(num);
      case StoreOp(key, x) =>
        MakeReference(x);
        ghost var stored;
        stored, g := StoreSv(key, x);
      case DeleteOp(key, discard) => ret := DeleteSv(key, discard);
      case FillOp(f) => g := FillTo(f);
      case ClearOp => ClearAll();
      case LeaveSubOp => LeaveArgs();
      case ExtendOp(key) =>
        ghost var ok;
        ok, g := Extend(key);
      case FetchOp(key) => ret := Fetch(key);
    }

    /** Any run of dense operations, in place: the elements and the results are those of the same
        run on a plain sequence, and every reference is accounted for throughout. */
    method Perform(ops: seq<Op>) returns (rets: seq<Slot>)
      requires Mirror() && a.Valid() && a.Realish()
      requires AllDense(a.v.Contents(), ops)
      modifies this`alloc, this`off, this`fill, this`max, this`isReal, this`reify, this`refs, this`a, alloc
      ensures Mirror() && a.Valid() && a.Realish()
      ensures (a.v.Contents(), rets) == StepAll(old(a).v.Contents(), ops)
    {
      hide Mirror;
      hide Exec;
      hide Step;
      hide Dense;
      hide Owned;
      hide Agrees;
      hide Store.Contents;
      hide Store.FrontNull;
      ghost var c := a.v.Contents();
      rets := [];
      assert ops[0..] == ops && rets + StepAll(c, ops).1 == StepAll(c, ops).1;
      for i := 0 to |ops|
        invariant Mirror() && a.Valid() && a.Realish() && (alloc == old(alloc) || fresh(alloc))
        invariant AllDense(a.v.Contents(), ops[i..])
        invariant StepAll(c, ops) == (StepAll(a.v.Contents(), ops[i..]).0,
                                      rets + StepAll(a.v.Contents(), ops[i..]).1)
      {
        ghost var b := a;
        assert ops[i..][0] == ops[i] && ops[i..][1..] == ops[i + 1..];
        ghost var g;
        var ret;
        ret, g := Do(ops[i]);
        StepCorrect(b, ops[i], g);
        AgreesMeans(b, ops[i], a, ret);
        StepAllSplit(b.v.Contents(), ops[i..], rets);
        rets := rets + [ret];
      }
      assert ops[|ops|..] == [] && rets + [] == rets;
    }
  }
}
