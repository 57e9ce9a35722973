/**
  The operations of av.c as functions on the whole state of one array, the meaning they have for
  Perl code, and the theorems about runs of them.
 */
module AvOps {
  import opened AvSpec

  /** What the allocator leaves in memory it hands out. */
  type Junk = int -> Slot

  /** One array: its buffer, AvREIFY, every SV's reference count and the part of it that other
      owners hold, and what the growing paths have copied and slid so far. */
  datatype Arr = Arr(v: Store, reify: bool, refs: multiset<Slot>, outside: multiset<Slot>,
                     copied: nat, slid: nat)
  {
    /** Shape; for a real array nothing stale in front; and every SV's count is what the outside
        owners hold plus its occurrences in the live slots of a real array. */
    predicate Valid() {
      && v.Shape()
      && !(v.isReal && reify)
      && (v.isReal ==> v.FrontNull())
      && refs == outside + Owned(v)
    }

    /** AvREALISH: real, or able to become so. */
    predicate Realish() {
      v.isReal || reify
    }
  }

  // ---------------------------------------------------------------------------------------------
  // The operations
  // ---------------------------------------------------------------------------------------------

  function Reify(a: Arr): (b: Arr)
    requires a.v.Shape()
    ensures b.v.Shape()
  {
    if a.v.isReal then a
    else a.(v := Reified(a.v), reify := false, refs := a.refs + Refs(a.v.Contents()))
  }

  function Grown(a: Arr, key: int, g: Junk): (b: Arr)
    requires a.v.Shape() && key >= -1
    ensures b.v.Shape()
  {
    var garbage := seq(FreshCount(a.v, key), g);
    ExtendedKeeps(a.v, key, garbage);
    a.(v := Extended(a.v, key, garbage),
       copied := a.copied + (if Reallocates(a.v, key) then |a.v.buf| else 0),
       slid := a.slid + if key > a.v.max && a.v.off > 0 then a.v.fill + 1 else 0)
  }

  lemma NoGrowth(a: Arr, key: int, g: Junk)
    requires a.v.Shape() && -1 <= key <= a.v.max
    ensures Grown(a, key, g) == a
  {
  }

  lemma GrownRoom(a: Arr, key: int, g: Junk)
    requires a.v.Shape() && key >= -1
    ensures var b := Grown(a, key, g);
      b.v.fill == a.v.fill && key <= b.v.max && b.v.off == if key > a.v.max then 0 else a.v.off
  {
    ExtendedKeeps(a.v, key, seq(FreshCount(a.v, key), g));
  }

  /** av_store up to the write: reify if need be, and make room. */
  function Prepared(a: Arr, key: nat, g: Junk): (b: Arr)
    requires a.v.Shape()
    ensures b.v.Shape() && key <= b.v.max
  {
    var b := if a.reify then Reify(a) else a;
    ExtendedKeeps(b.v, key, seq(FreshCount(b.v, key), g));
    Grown(b, key, g)
  }

  /** av_store: the displaced element of a real array is released, x's reference taken over. */
  function Stored(a: Arr, key: nat, x: Slot, g: Junk): (b: Arr)
    requires a.v.Shape()
    ensures b.v.Shape()
  {
    var p := Prepared(a, key, g);
    Written(p, key, x)
  }

  function Written(p: Arr, key: nat, x: Slot): (b: Arr)
    requires p.v.Shape() && key <= p.v.max
    ensures b.v.Shape()
  {
    p.(v := Put(p.v, key, x),
       refs := if p.v.isReal && key <= p.v.fill then p.refs - One(p.v.Contents()[key]) else p.refs,
       outside := if p.v.isReal then p.outside - One(x) else p.outside)
  }

  function GiveOut(a: Arr, x: Slot): Arr {
    a.(outside := if a.v.isReal then a.outside + One(x) else a.outside)
  }

  function Pop(a: Arr): (r: (Arr, Slot))
    requires a.v.Shape()
    ensures r.0.v.Shape()
  {
    if a.v.fill < 0 then (a, Undef)
    else
      var x := a.v.Contents()[a.v.fill];
      (GiveOut(a.(v := Popped(a.v)), x), OrUndef(x))
  }

  function Shift(a: Arr): (r: (Arr, Slot))
    requires a.v.Shape()
    ensures r.0.v.Shape()
  {
    if a.v.fill < 0 then (a, Undef)
    else
      var x := a.v.Contents()[0];
      (GiveOut(a.(v := Shifted(a.v)), x), OrUndef(x))
  }

  function UnshiftFast(a: Arr, num: nat): (b: Arr)
    requires a.v.Shape()
    ensures b.v.Shape() && (num > a.v.off ==> b.v.off == 0)
  {
    if a.v.off == 0 then a
    else a.(v := Lowered(a.v, if a.v.off > num then num else a.v.off))
  }

  function MoveUp(w: Arr, num: nat, slide: nat): (b: Arr)
    requires w.v.Shape() && w.v.off == 0 && w.v.fill + num <= w.v.max && slide <= num
    ensures b.v.Shape() && b.v.isReal == w.v.isReal && b.outside == w.outside
  {
    w.(v := MovedUp(w.v, num, slide), slid := w.slid + w.v.fill + 1)
  }

  /** The elements that av_unshift leaves slack for. */
  function SlideOf(v: Store): nat {
    if v.fill > 0 then v.fill else 0
  }

  /** The slow half of av_unshift, entered with nothing in front of the window. */
  function UnshiftSlow(a: Arr, num: nat, g: Junk): (b: Arr)
    requires a.v.Shape() && a.v.off == 0 && num > 0
    ensures b.v.Shape()
  {
    var n := num + SlideOf(a.v);
    ExtendedKeeps(a.v, a.v.fill + n, seq(FreshCount(a.v, a.v.fill + n), g));
    MoveUp(Grown(a, a.v.fill + n, g), n, SlideOf(a.v))
  }

  function UnshiftReal(a: Arr, num: nat, g: Junk): (b: Arr)
    requires a.v.Shape() && num > 0
    ensures b.v.Shape()
  {
    if num > a.v.off then UnshiftSlow(UnshiftFast(a, num), num - a.v.off, g) else UnshiftFast(a, num)
  }

  function Unshift(a: Arr, num: int, g: Junk): (b: Arr)
    requires a.v.Shape()
    ensures b.v.Shape()
  {
    if num <= 0 then a else UnshiftReal(if a.reify then Reify(a) else a, num, g)
  }

  function CutTo(a: Arr, f: int): (b: Arr)
    requires a.v.Shape() && -1 <= f <= a.v.fill
    ensures b.v.Shape()
  {
    a.(v := Cut(a.v, f),
       refs := if a.v.isReal then a.refs - Refs(a.v.Contents()[f + 1..]) else a.refs)
  }

  function Fill(a: Arr, f0: int, g: Junk): (b: Arr)
    requires a.v.Shape()
    ensures b.v.Shape()
  {
    var f := if f0 < 0 then -1 else f0;
    if f > a.v.max then Stored(a, f, Null, g)
    else if f <= a.v.fill then CutTo(a, f)
    else a.(v := Raised(a.v, f))
  }

  /** av_delete at an element: with discard (G_DISCARD) it is released, otherwise handed out. */
  function Removed(a: Arr, k: nat, discard: bool): (b: Arr)
    requires a.v.Shape() && k <= a.v.fill
    ensures b.v.Shape() && b.v.isReal == a.v.isReal && b.reify == a.reify
  {
    var x, d := a.v.Contents()[k], a.(v := Deleted(a.v, k));
    if discard then d.(refs := d.refs - One(x)) else GiveOut(d, x)
  }

  function Delete(a: Arr, key: int, discard: bool): (r: (Arr, Slot))
    requires a.v.Shape()
    ensures r.0.v.Shape()
  {
    var k := Adjust(key, a.v.fill + 1);
    if k < 0 || k > a.v.fill then (a, Null)
    else
      var b := if a.reify then Reify(a) else a;
      (Removed(b, k, discard), if discard then Null else b.v.Contents()[k])
  }

  function Clear(a: Arr): (b: Arr)
    requires a.v.Shape()
    ensures b.v.Shape()
  {
    if a.v.max < 0 then a
    else
      var c := if a.v.isReal then CutTo(a, -1) else a;
      c.(v := Rewound(c.v))
  }

  /** CLEAR_ARGARRAY, used on fake arrays only. */
  function ClearArgArray(a: Arr): (b: Arr)
    requires a.v.Shape()
    ensures b.v.Shape()
  {
    a.(v := Rewound(a.v))
  }

  // ---------------------------------------------------------------------------------------------
  // The bookkeeping refs == outside + owned, through each way a reference can move
  // ---------------------------------------------------------------------------------------------

  /** The array gives up `given`, of which `released` is dropped and the rest passes outside, and
      takes over `taken` from outside. */
  lemma Ledger(a: Arr, b: Arr, given: multiset<Slot>, released: multiset<Slot>, taken: multiset<Slot>)
    requires a.v.Shape() && b.v.Shape() && a.refs == a.outside + Owned(a.v)
    requires Owned(b.v) + given == Owned(a.v) + taken
    requires released <= given <= Owned(a.v) && taken <= a.outside
    requires b.refs == a.refs - released
    requires b.outside == a.outside - taken + (given - released)
    ensures b.refs == b.outside + Owned(b.v)
  {
    hide Refs;
    hide Owned;
    forall e | e in b.refs + b.outside + Owned(b.v) ensures b.refs[e] == (b.outside + Owned(b.v))[e] {
      assert (Owned(b.v) + given)[e] == (Owned(a.v) + taken)[e];
    }
  }

  lemma ReifyCorrect(a: Arr)
    requires a.Valid()
    ensures var b := Reify(a);
      && b.Valid() && b.v.isReal && b.v.Contents() == a.v.Contents() && b.outside == a.outside
      && (!a.v.isReal ==> b.v.TailNull())
  {
    hide Refs;
    ReifiedFacts(a.v);
  }

  lemma GrownCorrect(a: Arr, key: int, g: Junk)
    requires a.Valid() && key >= -1
    ensures var b := Grown(a, key, g);
      && b.Valid() && b.v.isReal == a.v.isReal && b.v.Contents() == a.v.Contents()
      && b.outside == a.outside && b.refs == a.refs && b.v.fill == a.v.fill && b.reify == a.reify
      && key <= b.v.max && b.v.max == NewMax(a.v, key)
      && b.v.off == (if key > a.v.max then 0 else a.v.off)
      && (Known(a.v, key) ==> Known(b.v, key))
      && (Clean(a.v) && SafeGrow(a.v, key) ==> Clean(b.v))
  {
    hide Refs;
    var garbage := seq(FreshCount(a.v, key), g);
    ExtendedKeeps(a.v, key, garbage);
    if a.v.isReal && a.v.TailNull() {
      ExtendedNulls(a.v, key, garbage);
      if SafeGrow(a.v, key) {
        SafeGrowKeepsTail(a.v, key, garbage);
      }
    }
    hide Extended;
  }

  lemma PreparedCorrect(a: Arr, key: nat, g: Junk)
    requires a.Valid()
    ensures var b := Prepared(a, key, g);
      && b.Valid() && b.v.isReal == a.Realish() && b.v.Contents() == a.v.Contents()
      && b.outside == a.outside && b.v.fill == a.v.fill && !b.reify
      && (Known(a.v, key) ==> Known(b.v, key))
      && (Clean(a.v) && SafeGrow(a.v, key) ==> Clean(b.v))
  {
    hide Refs;
    ReifyCorrect(a);
    GrownCorrect(if a.reify then Reify(a) else a, key, g);
    hide Grown;
  }

  lemma WrittenCorrect(p: Arr, key: nat, x: Slot)
    requires p.Valid() && !p.reify && key <= p.v.max && Known(p.v, key)
    requires p.v.isReal ==> One(x) <= p.outside
    ensures var b := Written(p, key, x);
      && b.Valid() && b.v.isReal == p.v.isReal && !b.reify
      && b.v.Contents() == StoreAt(p.v.Contents(), key, x)
      && b.outside == (if p.v.isReal then p.outside - One(x) else p.outside)
      && (Clean(p.v) ==> Clean(b.v))
  {
    hide Refs;
    PutContents(p.v, key, x);
    if p.v.isReal {
      PutNulls(p.v, key, x);
      RefsStoreAt(p.v.Contents(), key, x);
      RefsElement(p.v.Contents(), key);
      hide Put;
      hide StoreAt;
      var given := if key <= p.v.fill then One(p.v.Contents()[key]) else multiset{};
      Ledger(p, Written(p, key, x), given, given, One(x));
    }
  }

  /** av_store at any index: gaps read as null, the displaced element's reference is released and
      the new one's taken over.  Only slots above fill with unknown contents are excepted. */
  lemma StoredCorrect(a: Arr, key: nat, x: Slot, g: Junk)
    requires a.Valid() && Known(a.v, key)
    requires a.Realish() ==> One(x) <= a.outside
    ensures var b := Stored(a, key, x, g);
      && b.Valid() && b.v.isReal == a.Realish() && !b.reify
      && b.v.Contents() == StoreAt(a.v.Contents(), key, x)
      && b.outside == (if a.Realish() then a.outside - One(x) else a.outside)
      && (Clean(a.v) && SafeGrow(a.v, key) ==> Clean(b.v))
  {
    hide Refs;
    PreparedCorrect(a, key, g);
    WrittenCorrect(Prepared(a, key, g), key, x);
    hide Prepared;
    hide Written;
  }

  lemma PopCorrect(a: Arr)
    requires a.Valid()
    ensures var c, (b, x) := a.v.Contents(), Pop(a);
      && b.Valid() && (Clean(a.v) ==> Clean(b.v)) && b.v.isReal == a.v.isReal && b.reify == a.reify
      && (c == [] ==> b == a && x == Undef)
      && (c != [] ==> b.v.Contents() == c[..|c| - 1] && x == OrUndef(c[|c| - 1]))
      && b.outside == (if a.v.isReal then a.outside + One(x) else a.outside)
  {
    hide Refs;
    if a.v.fill >= 0 {
      PoppedFacts(a.v);
      hide Popped;
      hide Store.NullThrough;
      hide Store.FrontNull;
      hide Store.Contents;
      if a.v.isReal {
        Ledger(a, Pop(a).0, One(a.v.Contents()[a.v.fill]), multiset{}, multiset{});
      }
    }
  }

  lemma ShiftCorrect(a: Arr)
    requires a.Valid()
    ensures var c, (b, x) := a.v.Contents(), Shift(a);
      && b.Valid() && (Clean(a.v) ==> Clean(b.v)) && b.v.isReal == a.v.isReal && b.reify == a.reify
      && (c == [] ==> b == a && x == Undef)
      && (c != [] ==> b.v.Contents() == c[1..] && x == OrUndef(c[0]))
      && b.outside == (if a.v.isReal then a.outside + One(x) else a.outside)
  {
    hide Refs;
    if a.v.fill >= 0 {
      ShiftedFacts(a.v);
      hide Shifted;
      hide Store.NullThrough;
      hide Store.FrontNull;
      hide Store.Contents;
      if a.v.isReal {
        Ledger(a, Shift(a).0, One(a.v.Contents()[0]), multiset{}, multiset{});
      }
    }
  }

  lemma UnshiftFastCorrect(a: Arr, num: nat)
    requires a.Valid() && a.v.isReal
    ensures var n, b := if a.v.off > num then num else a.v.off, UnshiftFast(a, num);
      && b.Valid() && (Clean(a.v) ==> Clean(b.v)) && b.v.isReal
      && b.v.Contents() == Nulls(n) + a.v.Contents() && b.outside == a.outside
  {
    hide Refs;
    LoweredFacts(a.v, if a.v.off > num then num else a.v.off);
    assert Nulls(0) + a.v.Contents() == a.v.Contents();
  }

  lemma MoveUpCorrect(w: Arr, num: nat, slide: nat)
    requires w.Valid() && w.v.isReal && w.v.off == 0 && w.v.fill + num <= w.v.max && slide <= num
    ensures var b := MoveUp(w, num, slide);
      && b.Valid() && (Clean(w.v) ==> Clean(b.v))
      && b.v.Contents() == Nulls(num - slide) + w.v.Contents()
  {
    hide Refs;
    hide MovedUp;
    MovedUpFacts(w.v, num, slide);
  }

  lemma UnshiftSlowCorrect(a: Arr, num: nat, g: Junk)
    requires a.Valid() && a.v.isReal && a.v.off == 0 && num > 0
    ensures var b := UnshiftSlow(a, num, g);
      && b.Valid() && (Clean(a.v) ==> Clean(b.v)) && b.v.isReal
      && b.v.Contents() == Nulls(num) + a.v.Contents() && b.outside == a.outside
  {
    hide Refs;
    hide Owned;
    hide Nulls;
    hide Store.Contents;
    hide Store.FrontNull;
    hide Store.NullThrough;
    var n := num + SlideOf(a.v);
    GrownCorrect(a, a.v.fill + n, g);
    MoveUpCorrect(Grown(a, a.v.fill + n, g), n, SlideOf(a.v));
    hide Grown;
    hide MoveUp;
  }

  lemma UnshiftRealCorrect(a: Arr, num: nat, g: Junk)
    requires a.Valid() && a.v.isReal && num > 0
    ensures var b := UnshiftReal(a, num, g);
      && b.Valid() && (Clean(a.v) ==> Clean(b.v)) && b.v.isReal
      && b.v.Contents() == Nulls(num) + a.v.Contents() && b.outside == a.outside
  {
    hide Refs;
    hide Owned;
    hide Store.Contents;
    hide Store.FrontNull;
    hide Clean;
    hide Nulls;
    hide UnshiftFast;
    hide UnshiftSlow;
    UnshiftFastCorrect(a, num);
    if num > a.v.off {
      UnshiftSlowCorrect(UnshiftFast(a, num), num - a.v.off, g);
      NullsConcat(num - a.v.off, a.v.off, a.v.Contents());
    }
  }

  /** av_unshift on a real array, or one that may become real. */
  lemma UnshiftCorrect(a: Arr, num: int, g: Junk)
    requires a.Valid() && a.Realish()
    ensures var b := Unshift(a, num, g);
      && b.Valid() && (Clean(a.v) ==> Clean(b.v)) && b.Realish() && (a.v.isReal ==> b.v.isReal)
      && b.v.Contents() == Nulls(if num <= 0 then 0 else num) + a.v.Contents()
      && b.outside == a.outside
  {
    hide Refs;
    hide Owned;
    hide Store.FrontNull;
    assert Nulls(0) + a.v.Contents() == a.v.Contents();
    hide Store.Contents;
    hide Nulls;
    hide Reify;
    hide UnshiftReal;
    if num > 0 {
      ReifyCorrect(a);
      UnshiftRealCorrect(if a.reify then Reify(a) else a, num, g);
    }
  }

  lemma CutToCorrect(a: Arr, f: int)
    requires a.Valid() && -1 <= f <= a.v.fill
    ensures var b := CutTo(a, f);
      && b.Valid() && (Clean(a.v) ==> Clean(b.v)) && b.v.isReal == a.v.isReal && b.reify == a.reify
      && b.v.Contents() == a.v.Contents()[..f + 1] && b.outside == a.outside
  {
    hide Refs;
    CutFacts(a.v, f);
    RefsSplit(a.v.Contents(), f + 1);
    hide Cut;
    hide Store.NullThrough;
    hide Store.FrontNull;
    hide Store.Contents;
    if a.v.isReal {
      var r := Refs(a.v.Contents()[f + 1..]);
      Ledger(a, CutTo(a, f), r, r, multiset{});
    }
  }

  lemma RaisedCorrect(a: Arr, f: int)
    requires a.Valid() && a.v.fill <= f <= a.v.max && (a.v.isReal ==> a.v.NullThrough(f))
    ensures var b := a.(v := Raised(a.v, f));
      b.Valid() && (Clean(a.v) ==> Clean(b.v)) && b.v.Contents() == FilledTo(a.v.Contents(), f + 1)
  {
    hide Refs;
    RaisedFacts(a.v, f);
    hide Raised;
    hide FilledTo;
    hide Store.Contents;
  }

  /** av_fill: shrinking releases exactly the elements cut off; growing reads as null, unless it
      would expose slots above fill with unknown contents. */
  lemma FillCorrect(a: Arr, f0: int, g: Junk)
    requires a.Valid()
    requires FillKnown(a.v, if f0 < 0 then -1 else f0)
    ensures var f, b := if f0 < 0 then -1 else f0, Fill(a, f0, g);
      && b.Valid() && (a.v.isReal ==> b.v.isReal) && (a.Realish() ==> b.Realish())
      && b.v.Contents() == FilledTo(a.v.Contents(), f + 1) && b.outside == a.outside
      && (Clean(a.v) && SafeGrow(a.v, f) ==> Clean(b.v))
  {
    hide Refs;
    hide Store.FrontNull;
    hide Owned;
    hide StoreAt;
    var f := if f0 < 0 then -1 else f0;
    if f > a.v.max {
      StoreNullAt(a.v.Contents(), f);
      StoredCorrect(a, f, Null, g);
    } else if f <= a.v.fill {
      CutToCorrect(a, f);
    } else {
      RaisedCorrect(a, f);
    }
    hide FilledTo;
    hide Stored;
    hide CutTo;
    hide Raised;
    hide Store.Contents;
  }

  lemma DeletedCorrect(b: Arr, k: nat, discard: bool)
    requires b.Valid() && b.v.isReal && k <= b.v.fill
    ensures var c, d := b.v.Contents(), Removed(b, k, discard);
      && d.Valid() && (Clean(b.v) ==> Clean(d.v)) && d.v.Contents() == DeleteAt(c, k)
      && d.outside == if discard then b.outside else b.outside + One(c[k])
  {
    hide Refs;
    hide DeleteAt;
    hide Deleted;
    DeletedFacts(b.v, k);
    hide Store.NullThrough;
    hide Store.FrontNull;
    hide Store.Contents;
    var x := One(b.v.Contents()[k]);
    Ledger(b, Removed(b, k, discard), x, if discard then x else multiset{}, multiset{});
  }

  /** av_delete hands the element's reference out once, or releases it once. */
  lemma DeleteCorrect(a: Arr, key: int, discard: bool)
    requires a.Valid() && a.Realish()
    ensures var c, k, (b, x) := a.v.Contents(), Adjust(key, a.v.fill + 1), Delete(a, key, discard);
      && b.Valid() && (Clean(a.v) ==> Clean(b.v)) && b.Realish() && (a.v.isReal ==> b.v.isReal)
      && (k < 0 || k >= |c| ==> b == a && x == Null)
      && (0 <= k < |c| ==> b.v.Contents() == DeleteAt(c, k) && x == if discard then Null else c[k])
      && b.outside == a.outside + One(x)
  {
    hide Refs;
    hide Reify;
    hide Removed;
    hide DeleteAt;
    hide Owned;
    hide Store.FrontNull;
    var k := Adjust(key, a.v.fill + 1);
    assert a.outside + One(Null) == a.outside;
    if 0 <= k <= a.v.fill {
      ReifyCorrect(a);
      DeletedCorrect(if a.reify then Reify(a) else a, k, discard);
    }
  }

  lemma ClearCorrect(a: Arr)
    requires a.Valid()
    ensures var b := Clear(a);
      && b.Valid() && (Clean(a.v) ==> Clean(b.v)) && b.v.isReal == a.v.isReal && b.reify == a.reify
      && b.v.Contents() == [] && b.outside == a.outside
      && (if a.v.max >= 0 then b.v.off == 0 && b.v.max == a.v.max + a.v.off else b == a)
  {
    hide Refs;
    if a.v.max >= 0 && a.v.isReal {
      CutToCorrect(a, -1);
      hide CutTo;
    }
    RefsNone();
  }

  lemma ClearArgArrayCorrect(a: Arr)
    requires a.Valid() && !a.v.isReal
    ensures var b := ClearArgArray(a);
      && b.Valid() && !b.v.isReal && b.reify == a.reify && b.v.Contents() == [] && b.outside == a.outside
      && b.v.off == 0 && b.v.max == a.v.max + a.v.off && b.refs == a.refs
  {
    hide Refs;
  }

  // ---------------------------------------------------------------------------------------------
  // Room and cost
  // ---------------------------------------------------------------------------------------------

  lemma StoredRoom(a: Arr, key: nat, x: Slot, g: Junk)
    requires a.v.Shape() && !a.reify
    ensures var b := Stored(a, key, x, g);
      && b.v.fill == (if a.v.fill < key then key else a.v.fill) && !b.reify
      && b.v.max == NewMax(a.v, key) && b.v.off == (if key > a.v.max then 0 else a.v.off)
      && b.copied == a.copied + (if Reallocates(a.v, key) then |a.v.buf| else 0)
      && b.slid == a.slid + (if key > a.v.max && a.v.off > 0 then a.v.fill + 1 else 0)
  {
    hide Refs;
    ExtendedKeeps(a.v, key, seq(FreshCount(a.v, key), g));
    hide Extended;
  }

  lemma UnshiftRoom(a: Arr, g: Junk)
    requires a.v.Shape() && !a.reify
    ensures var b := Unshift(a, 1, g);
      && b.v.fill == a.v.fill + 1 && !b.reify
      && (if a.v.off > 0 then b.v.off == a.v.off - 1 && b.slid == a.slid
          else b.v.off == SlideOf(a.v) && b.slid == a.slid + a.v.fill + 1)
  {
    hide Refs;
    if a.v.off == 0 {
      var n := 1 + SlideOf(a.v);
      ExtendedKeeps(a.v, a.v.fill + n, seq(FreshCount(a.v, a.v.fill + n), g));
      hide Extended;
      assert a.v.(fill := a.v.fill) == a.v;
      assert UnshiftFast(a, 1) == a;
    }
  }
}
