/**
  The array store of av.c, on values: what one buffer looks like, how av_extend_guts grows it,
  and the Perl-level meaning of every array operation.  The class in Av.dfy is proved against
  these functions.
 */
module AvSpec {

  /** One slot of the C array: a null pointer, the immortal &PL_sv_undef, or a counted SV. */
  datatype Slot = Null | Undef | Sv(id: nat)

  const NEW_MIN_KEY: int := 3  // PERL_ARRAY_NEW_MIN_KEY

  // ---------------------------------------------------------------------------------------------
  // References
  // ---------------------------------------------------------------------------------------------

  /** The counted references a run of slots holds.  Null and the immortal undef hold none. */
  function Refs(s: seq<Slot>): multiset<Slot> {
    multiset(s)[Null := 0][Undef := 0]
  }

  function One(x: Slot): multiset<Slot> {
    if x.Sv? then multiset{x} else multiset{}
  }

  function Nulls(n: nat): (s: seq<Slot>)
    ensures |s| == n
  {
    seq(n, _ => Null)
  }

  lemma RefsConcat(a: seq<Slot>, b: seq<Slot>)
    ensures Refs(a + b) == Refs(a) + Refs(b)
  {
    assert multiset(a + b) == multiset(a) + multiset(b);
  }

  lemma RefsSplit(s: seq<Slot>, k: nat)
    requires k <= |s|
    ensures Refs(s) == Refs(s[..k]) + Refs(s[k..])
  {
    assert s == s[..k] + s[k..];
    RefsConcat(s[..k], s[k..]);
  }

  lemma RefsOne(x: Slot)
    ensures Refs([x]) == One(x)
  {
  }

  lemma RefsNone()
    ensures Refs([]) == multiset{}
  {
  }

  lemma RefsNulls(n: nat)
    ensures Refs(Nulls(n)) == multiset{}
  {
    assert forall x :: x in multiset(Nulls(n)) ==> x in Nulls(n);
  }

  lemma NullsConcat(m: nat, n: nat, s: seq<Slot>)
    ensures Nulls(m) + (Nulls(n) + s) == Nulls(m + n) + s
  {
  }

  /** Replacing one element gives up its reference and takes the new one. */
  lemma RefsUpdate(s: seq<Slot>, k: nat, x: Slot)
    requires k < |s|
    ensures Refs(s[k := x]) + One(s[k]) == Refs(s) + One(x)
    ensures One(s[k]) <= Refs(s)
  {
    RefsOne(x);
    RefsOne(s[k]);
    hide Refs;
    assert s == s[..k] + [s[k]] + s[k + 1..];
    assert s[k := x] == s[..k] + [x] + s[k + 1..];
    RefsConcat(s[..k] + [s[k]], s[k + 1..]);
    RefsConcat(s[..k], [s[k]]);
    RefsConcat(s[..k] + [x], s[k + 1..]);
    RefsConcat(s[..k], [x]);
  }

  // ---------------------------------------------------------------------------------------------
  // The buffer and its growth
  // ---------------------------------------------------------------------------------------------

  /** AvALLOC, AvARRAY - AvALLOC, AvFILLp, AvMAX and AvREAL.  An empty buf is a null AvALLOC. */
  datatype Store = Store(buf: seq<Slot>, off: nat, fill: int, max: int, isReal: bool) {

    predicate Shape() {
      && -1 <= fill <= max
      && off + max + 1 == |buf|
    }

    function Contents(): (s: seq<Slot>)
      requires Shape()
      ensures |s| == fill + 1
    {
      buf[off..off + fill + 1]
    }

    /** Every slot in front of the window is null. */
    predicate FrontNull()
      requires Shape()
    {
      forall i :: 0 <= i < off ==> buf[i] == Null
    }

    /** Every slot of the window above fill, up to index k, is null. */
    predicate NullThrough(k: int)
      requires Shape()
    {
      forall i :: off + fill < i <= off + k && i < |buf| ==> buf[i] == Null
    }

    predicate TailNull()
      requires Shape()
    {
      NullThrough(max)
    }
  }

  /** The references the array owns. */
  function Owned(v: Store): multiset<Slot>
    requires v.Shape()
  {
    if v.isReal then Refs(v.Contents()) else multiset{}
  }

  /** No junk above fill that a growing fill could expose. */
  predicate Clean(v: Store)
    requires v.Shape()
  {
    v.isReal ==> v.TailNull()
  }

  function Zeroed(b: seq<Slot>, from: nat, n: nat): (z: seq<Slot>)
    requires from + n <= |b|
    ensures |z| == |b|
    ensures forall i :: 0 <= i < |b| ==> z[i] == if from <= i < from + n then Null else b[i]
  {
    b[..from] + Nulls(n) + b[from + n..]
  }

  /** Move(*arrayp, *allocp, fill+1): the window slides to the front, the rest is untouched. */
  function Slid(v: Store): (b: seq<Slot>)
    requires v.Shape()
    ensures |b| == |v.buf|
    ensures forall i :: 0 <= i < |b| ==>
      b[i] == if i <= v.fill then v.buf[v.off + i] else v.buf[i]
  {
    v.Contents() + v.buf[v.fill + 1..]
  }

  /** What Renew to n slots leaves: the old buffer, then whatever the allocator had there. */
  function Renewed(b: seq<Slot>, n: nat, garbage: seq<Slot>): (r: seq<Slot>)
    requires |garbage| == n - |b|
    ensures |r| == n
    ensures garbage == [] ==> r == b
    ensures forall i :: 0 <= i < n ==> r[i] == if i < |b| then b[i] else garbage[i - |b|]
  {
    b + garbage
  }

  /** AvMAX after av_extend_guts. */
  function NewMax(v: Store, key: int): int
    requires v.Shape()
  {
    if key <= v.max then v.max
    else if v.off > 0 then
      var m := v.max + v.off;
      if key > m - 10 then key + m else m
    else if |v.buf| > 0 then key + v.max / 5
    else if key < NEW_MIN_KEY then NEW_MIN_KEY else key
  }

  /** How many slots the growth takes from the allocator uninitialised. */
  function FreshCount(v: Store, key: int): (n: int)
    requires v.Shape() && key >= -1
    ensures 0 <= n
  {
    if key <= v.max then 0 else NewMax(v, key) + 1 - |v.buf|
  }

  /** The paths that go through Renew, which copies the whole old buffer. */
  predicate Reallocates(v: Store, key: int) {
    key > v.max && |v.buf| > 0 && (v.off > 0 ==> key > v.max + v.off - 10)
  }

  /** av_extend_guts, path by path. */
  function Extended(v: Store, key: int, garbage: seq<Slot>): (w: Store)
    requires v.Shape() && key >= -1
    requires |garbage| == FreshCount(v, key)
  {
    var newmax := NewMax(v, key);
    if key <= v.max then v
    else if v.off > 0 then  // a shifted array: slide first, then perhaps reallocate
      var b := Renewed(Slid(v), newmax + 1, garbage);
      var toNull := v.off + (newmax - (v.max + v.off));
      Store(if v.isReal then Zeroed(b, v.fill + 1, toNull) else b, 0, v.fill, newmax, v.isReal)
    else if |v.buf| > 0 then  // a full array
      var b := Renewed(v.buf, newmax + 1, garbage);
      Store(if v.isReal then Zeroed(b, v.max + 1, newmax - v.max) else b, 0, v.fill, newmax, v.isReal)
    else  // no array yet: always zeroed
      Store(Nulls(newmax + 1), 0, v.fill, newmax, v.isReal)
  }

  /** On every path: room for key, nothing shrinks, and the elements stay in order at the start
      of the window. */
  lemma ExtendedKeeps(v: Store, key: int, garbage: seq<Slot>)
    requires v.Shape() && key >= -1
    requires |garbage| == FreshCount(v, key)
    ensures var w := Extended(v, key, garbage);
      && w.Shape() && key <= w.max && v.max <= w.max && w.fill == v.fill && w.isReal == v.isReal
      && w.off == (if key > v.max then 0 else v.off) && w.max == NewMax(v, key)
      && w.Contents() == v.Contents()
  {
    var w := Extended(v, key, garbage);
    if key > v.max {
      assert w.Shape();
      forall i | 0 <= i <= v.fill ensures w.Contents()[i] == v.Contents()[i] {
      }
    }
  }

  /** What has to be null before, so that everything from fill+1 through key is null afterwards: what
      stays there if nothing moves; what the slide uncovers beyond the slots it nulls; nothing if the
      slide is followed by a reallocation; the slots above fill of an array that only grows. */
  predicate NullEnough(v: Store, key: int)
    requires v.Shape()
  {
    if key <= v.max then v.NullThrough(key)
    else if v.off > 0 then key > v.max + v.off - 10 || v.NullThrough(key - v.off)
    else |v.buf| == 0 || v.TailNull()
  }

  /** Path by path, for a real array: exactly when nothing but null stands from fill+1 through key
      after the growth, whatever the allocator handed out. */
  lemma ExtendedNulls(v: Store, key: int, garbage: seq<Slot>)
    requires v.Shape() && key >= -1 && v.isReal
    requires |garbage| == FreshCount(v, key)
    ensures var w := Extended(v, key, garbage);
      w.Shape() && (w.NullThrough(key) <==> NullEnough(v, key))
    ensures v.TailNull() ==> NullEnough(v, key)
  {
    ExtendedKeeps(v, key, garbage);
    var w := Extended(v, key, garbage);
    if key > v.max && v.off > 0 {
      if w.NullThrough(key) && key <= v.max + v.off - 10 {
        forall i | v.off + v.fill < i <= key && i < |v.buf| ensures v.buf[i] == Null {
          assert w.buf[i] == Null;
        }
      }
    } else if key > v.max && |v.buf| > 0 {
      if w.NullThrough(key) {
        forall i | v.fill < i <= v.max ensures v.buf[i] == Null {
          assert w.buf[i] == Null;
        }
      }
    }
  }

  /** The shapes of growth whose single Zero covers everything above fill. */
  predicate SafeGrow(v: Store, key: int)
    requires v.Shape()
  {
    key <= v.max || v.off == 0 || key <= v.max + v.off - 10 || v.fill == v.max
  }

  /** Exactly when growth keeps the tail null, whatever the allocator hands out. */
  lemma ExtendedTailNull(v: Store, key: int)
    requires v.Shape() && key >= -1 && v.isReal && v.TailNull()
    ensures (forall garbage: seq<Slot> :: |garbage| == FreshCount(v, key) ==>
               ExtendedKeptTail(v, key, garbage))
            <==> SafeGrow(v, key)
  {
    if SafeGrow(v, key) {
      forall garbage: seq<Slot> | |garbage| == FreshCount(v, key)
        ensures ExtendedKeptTail(v, key, garbage)
      {
        SafeGrowKeepsTail(v, key, garbage);
      }
    } else {
      var junk := seq(FreshCount(v, key), _ => Undef);
      var w := Extended(v, key, junk);
      assert w.buf[w.max] == Undef;
      assert !ExtendedKeptTail(v, key, junk);
    }
  }

  predicate ExtendedKeptTail(v: Store, key: int, garbage: seq<Slot>)
    requires v.Shape() && key >= -1
    requires |garbage| == FreshCount(v, key)
  {
    var w := Extended(v, key, garbage);
    w.Shape() && w.TailNull()
  }

  lemma SafeGrowKeepsTail(v: Store, key: int, garbage: seq<Slot>)
    requires v.Shape() && key >= -1 && v.isReal && v.TailNull()
    requires |garbage| == FreshCount(v, key)
    requires SafeGrow(v, key)
    ensures ExtendedKeptTail(v, key, garbage)
  {
  }

  // ---------------------------------------------------------------------------------------------
  // What the operations mean to Perl code
  // ---------------------------------------------------------------------------------------------

  /** AvFILL-relative keys: negative ones count from the end. */
  function Adjust(key: int, n: nat): int {
    if key < 0 then key + n else key
  }

  /** The element a key names, or nothing. */
  function ElementAt(s: seq<Slot>, key: int): Slot {
    var k := Adjust(key, |s|);
    if 0 <= k < |s| then s[k] else Null
  }

  function StoreAt(s: seq<Slot>, k: nat, x: Slot): (t: seq<Slot>)
    ensures |t| == if k < |s| then |s| else k + 1
  {
    if k < |s| then s[k := x] else s + Nulls(k - |s|) + [x]
  }

  function FilledTo(s: seq<Slot>, n: nat): (t: seq<Slot>)
    ensures |t| == n
    ensures forall i :: |s| <= i < n ==> t[i] == Null
  {
    if n <= |s| then s[..n] else s + Nulls(n - |s|)
  }

  /** Deleting the last element also drops the nulls that then end the array. */
  function TrimNulls(s: seq<Slot>): (t: seq<Slot>)
    ensures t <= s
    ensures t != [] ==> t[|t| - 1] != Null
    ensures forall i :: |t| <= i < |s| ==> s[i] == Null
  {
    if s != [] && s[|s| - 1] == Null then TrimNulls(s[..|s| - 1]) else s
  }

  function DeleteAt(s: seq<Slot>, k: nat): seq<Slot>
    requires k < |s|
  {
    if k == |s| - 1 then TrimNulls(s[..k]) else s[k := Null]
  }

  /** A null element reads as undef. */
  function OrUndef(x: Slot): Slot {
    if x == Null then Undef else x
  }

  lemma {:induction false} RefsTrim(s: seq<Slot>)
    ensures Refs(TrimNulls(s)) == Refs(s)
  {
    if s != [] && s[|s| - 1] == Null {
      RefsTrim(s[..|s| - 1]);
      assert s == s[..|s| - 1] + [Null];
      RefsConcat(s[..|s| - 1], [Null]);
      RefsOne(Null);
    }
  }

  lemma RefsStoreAt(s: seq<Slot>, k: nat, x: Slot)
    ensures k < |s| ==> Refs(StoreAt(s, k, x)) + One(s[k]) == Refs(s) + One(x)
    ensures k >= |s| ==> Refs(StoreAt(s, k, x)) == Refs(s) + One(x)
  {
    if k < |s| {
      RefsUpdate(s, k, x);
    } else {
      RefsConcat(s + Nulls(k - |s|), [x]);
      RefsConcat(s, Nulls(k - |s|));
      RefsNulls(k - |s|);
    }
  }

  /** The second half of av_store: raise fill to key, nulling the gap in a fake array; write. */
  function Put(v: Store, key: nat, x: Slot): (w: Store)
    requires v.Shape() && key <= v.max
    ensures w.Shape() && w.off == v.off && w.max == v.max && w.isReal == v.isReal
    ensures w.fill == if v.fill < key then key else v.fill
  {
    if v.fill < key then
      var b := if v.isReal then v.buf else Zeroed(v.buf, v.off + v.fill + 1, key - v.fill);
      v.(buf := b[v.off + key := x], fill := key)
    else v.(buf := v.buf[v.off + key := x])
  }

  /** The slots above fill up to key need no second look before they become elements. */
  predicate Known(v: Store, key: int)
    requires v.Shape()
  {
    v.isReal && key > v.fill + 1 ==> v.NullThrough(key)
  }

  /** The same for av_fill, which raises fill over slots of the window without writing them. */
  predicate FillKnown(v: Store, f: int)
    requires v.Shape()
  {
    v.isReal && f > v.fill && !(f == v.fill + 1 && f > v.max) ==> v.NullThrough(f)
  }

  lemma CleanKnown(v: Store, key: nat)
    requires v.Shape()
    ensures key <= v.fill + 1 || Clean(v) ==> Known(v, key)
  {
  }

  lemma StoreAtEnd(s: seq<Slot>, x: Slot)
    ensures StoreAt(s, |s|, x) == s + [x]
  {
    assert s + Nulls(0) == s;
  }

  lemma StoreNullAt(s: seq<Slot>, k: nat)
    requires k >= |s|
    ensures StoreAt(s, k, Null) == FilledTo(s, k + 1)
  {
  }

  lemma PutContents(v: Store, key: nat, x: Slot)
    requires v.Shape() && key <= v.max && Known(v, key)
    ensures Put(v, key, x).Contents() == StoreAt(v.Contents(), key, x)
  {
    var w, c := Put(v, key, x), StoreAt(v.Contents(), key, x);
    assert |c| == |w.Contents()|;
    forall i | 0 <= i < |c| ensures w.Contents()[i] == c[i] {
    }
  }

  lemma PutNulls(v: Store, key: nat, x: Slot)
    requires v.Shape() && key <= v.max && v.isReal
    ensures v.FrontNull() ==> Put(v, key, x).FrontNull()
    ensures v.TailNull() ==> Put(v, key, x).TailNull()
  {
  }

  lemma RefsElement(c: seq<Slot>, k: nat)
    ensures k < |c| ==> One(c[k]) <= Refs(c)
  {
    if k < |c| {
      RefsUpdate(c, k, Null);
    }
  }

  lemma RefsStep(c: seq<Slot>, k: nat)
    requires k < |c|
    ensures Refs(c[k..]) == One(c[k]) + Refs(c[k + 1..])
    ensures Refs(c[k..]) <= Refs(c)
  {
    assert c[k..] == [c[k]] + c[k + 1..];
    RefsConcat([c[k]], c[k + 1..]);
    RefsOne(c[k]);
    RefsSplit(c, k);
  }

  /** The counts after every element of c, from the top down, has been released or taken. */
  function Dropped(refs: multiset<Slot>, c: seq<Slot>): multiset<Slot> {
    if c == [] then refs else Dropped(refs, c[1..]) - One(c[0])
  }

  function Taken(refs: multiset<Slot>, c: seq<Slot>): multiset<Slot> {
    if c == [] then refs else Taken(refs, c[1..]) + One(c[0])
  }

  lemma InTwoSteps(r: multiset<Slot>, x: multiset<Slot>, y: multiset<Slot>)
    ensures r - x - y == r - (y + x) && r + x + y == r + (y + x)
  {
  }

  lemma {:induction false} DroppedTaken(refs: multiset<Slot>, c: seq<Slot>)
    ensures Dropped(refs, c) == refs - Refs(c)
    ensures Taken(refs, c) == refs + Refs(c)
  {
    if c == [] {
      RefsNone();
      hide Refs;
    } else {
      hide One;
      RefsStep(c, 0);
      assert c[0..] == c;
      hide Refs;
      DroppedTaken(refs, c[1..]);
      InTwoSteps(refs, Refs(c[1..]), One(c[0]));
    }
  }

  lemma RefsDeleteAt(s: seq<Slot>, k: nat)
    requires k < |s|
    ensures Refs(DeleteAt(s, k)) + One(s[k]) == Refs(s)
  {
    if k == |s| - 1 {
      assert s == s[..k] + [s[k]];
      RefsConcat(s[..k], [s[k]]);
      RefsTrim(s[..k]);
    } else {
      RefsUpdate(s, k, Null);
    }
  }

  // ---------------------------------------------------------------------------------------------
  // The other operations on the buffer
  // ---------------------------------------------------------------------------------------------

  /** What an operation may do to the slots that are not elements. */
  predicate KeepsNulls(v: Store, w: Store)
    requires v.Shape() && w.Shape()
  {
    v.isReal && w.isReal ==> (v.FrontNull() ==> w.FrontNull()) && (v.TailNull() ==> w.TailNull())
  }

  /** av_reify: everything outside the live slots becomes null. */
  function Reified(v: Store): (w: Store)
    requires v.Shape()
    ensures w.Shape()
  {
    v.(buf := Nulls(v.off) + v.Contents() + Nulls(v.max - v.fill), isReal := true)
  }

  lemma ReifiedFacts(v: Store)
    requires v.Shape()
    ensures var w := Reified(v);
      w.Contents() == v.Contents() && w.FrontNull() && w.TailNull() && w.isReal
  {
    assert Reified(v).Contents() == v.Contents();
  }

  function Popped(v: Store): (w: Store)
    requires v.Shape() && v.fill >= 0
    ensures w.Shape() && w.isReal == v.isReal
  {
    v.(buf := v.buf[v.off + v.fill := Null], fill := v.fill - 1)
  }

  lemma PoppedFacts(v: Store)
    requires v.Shape() && v.fill >= 0
    ensures Popped(v).Contents() == v.Contents()[..v.fill] && KeepsNulls(v, Popped(v))
    ensures Refs(v.Contents()) == Refs(Popped(v).Contents()) + One(v.Contents()[v.fill])
  {
    var c := v.Contents();
    forall i | 0 <= i < v.fill ensures Popped(v).Contents()[i] == c[i] {
    }
    assert Popped(v).Contents() == c[..v.fill];
    assert c == c[..v.fill] + [c[v.fill]];
    RefsConcat(c[..v.fill], [c[v.fill]]);
    RefsOne(c[v.fill]);
  }

  /** av_shift: a fake array leaves the pointer in the slot it steps over. */
  function Shifted(v: Store): (w: Store)
    requires v.Shape() && v.fill >= 0
    ensures w.Shape() && w.isReal == v.isReal
  {
    Store(if v.isReal then v.buf[v.off := Null] else v.buf, v.off + 1, v.fill - 1, v.max - 1, v.isReal)
  }

  lemma ShiftedFacts(v: Store)
    requires v.Shape() && v.fill >= 0
    ensures Shifted(v).Contents() == v.Contents()[1..] && KeepsNulls(v, Shifted(v))
    ensures Refs(v.Contents()) == One(v.Contents()[0]) + Refs(Shifted(v).Contents())
  {
    var c := v.Contents();
    assert Shifted(v).Contents() == c[1..];
    assert c == [c[0]] + c[1..];
    RefsConcat([c[0]], c[1..]);
    RefsOne(c[0]);
  }

  /** The elements above index f dropped from the end. */
  function Cut(v: Store, f: int): (w: Store)
    requires v.Shape() && -1 <= f <= v.fill
    ensures w.Shape() && w.isReal == v.isReal
  {
    v.(buf := if v.isReal then Zeroed(v.buf, v.off + f + 1, v.fill - f) else v.buf, fill := f)
  }

  lemma CutFacts(v: Store, f: int)
    requires v.Shape() && -1 <= f <= v.fill
    ensures Cut(v, f).Contents() == v.Contents()[..f + 1] && KeepsNulls(v, Cut(v, f))
    ensures Refs(v.Contents()) == Refs(Cut(v, f).Contents()) + Refs(v.Contents()[f + 1..])
  {
    hide Refs;
    forall i | 0 <= i <= f ensures Cut(v, f).Contents()[i] == v.Contents()[i] {
    }
    assert Cut(v, f).Contents() == v.Contents()[..f + 1];
    RefsSplit(v.Contents(), f + 1);
  }

  /** Slots of the window above fill become elements up to f; a fake array nulls them first. */
  function Raised(v: Store, f: int): (w: Store)
    requires v.Shape() && v.fill <= f <= v.max
    ensures w.Shape() && w.isReal == v.isReal
  {
    v.(buf := if v.isReal then v.buf else Zeroed(v.buf, v.off + v.fill + 1, f - v.fill), fill := f)
  }

  lemma RaisedFacts(v: Store, f: int)
    requires v.Shape() && v.fill <= f <= v.max
    requires v.isReal ==> v.NullThrough(f)
    ensures KeepsNulls(v, Raised(v, f))
    ensures Raised(v, f).Contents() == FilledTo(v.Contents(), f + 1)
    ensures Refs(Raised(v, f).Contents()) == Refs(v.Contents())
  {
    hide Refs;
    var w, n := Raised(v, f), f - v.fill;
    assert |w.Contents()| == |v.Contents() + Nulls(n)|;
    forall i | 0 <= i < |w.Contents()| ensures w.Contents()[i] == (v.Contents() + Nulls(n))[i] {
    }
    assert w.Contents() == v.Contents() + Nulls(n);
    FilledMore(v.Contents(), n);
  }

  lemma FilledMore(s: seq<Slot>, n: nat)
    ensures FilledTo(s, |s| + n) == s + Nulls(n) && Refs(s + Nulls(n)) == Refs(s)
  {
    assert n == 0 ==> s + Nulls(n) == s;
    RefsConcat(s, Nulls(n));
    RefsNulls(n);
  }

  /** The fast half of av_unshift: the window grows over the n slots in front of it. */
  function Lowered(v: Store, n: nat): (w: Store)
    requires v.Shape() && n <= v.off
    ensures w.Shape() && w.isReal == v.isReal
  {
    Store(v.buf, v.off - n, v.fill + n, v.max + n, v.isReal)
  }

  lemma LoweredFacts(v: Store, n: nat)
    requires v.Shape() && n <= v.off
    ensures KeepsNulls(v, Lowered(v, n))
    ensures Lowered(v, n).Contents() == v.buf[v.off - n..v.off] + v.Contents()
    ensures v.FrontNull() ==>
      && Lowered(v, n).Contents() == Nulls(n) + v.Contents()
      && Refs(Lowered(v, n).Contents()) == Refs(v.Contents())
  {
    var w := Lowered(v, n);
    assert w.Contents() == v.buf[v.off - n..v.off] + v.Contents();
    if v.FrontNull() {
      assert v.buf[v.off - n..v.off] == Nulls(n);
      RefsConcat(Nulls(n), v.Contents());
      RefsNulls(n);
    }
  }

  /** The slow half of av_unshift after its av_extend: the elements move up by num, of which
      slide slots become slack in front of the window. */
  function MovedUp(v: Store, num: nat, slide: nat): (w: Store)
    requires v.Shape() && v.off == 0 && v.fill + num <= v.max && slide <= num
    ensures w.Shape() && w.isReal == v.isReal
  {
    Store(Nulls(num) + v.Contents() + v.buf[v.fill + num + 1..], slide,
          v.fill + num - slide, v.max - slide, v.isReal)
  }

  lemma MovedUpFacts(v: Store, num: nat, slide: nat)
    requires v.Shape() && v.off == 0 && v.fill + num <= v.max && slide <= num
    ensures KeepsNulls(v, MovedUp(v, num, slide)) && MovedUp(v, num, slide).FrontNull()
    ensures MovedUp(v, num, slide).Contents() == Nulls(num - slide) + v.Contents()
    ensures Refs(MovedUp(v, num, slide).Contents()) == Refs(v.Contents())
  {
    var w := MovedUp(v, num, slide);
    assert w.Contents() == Nulls(num - slide) + v.Contents();
    RefsConcat(Nulls(num - slide), v.Contents());
    RefsNulls(num - slide);
  }

  /** av_delete at an element: trailing nulls leave with a deleted last element. */
  function Deleted(v: Store, key: nat): (w: Store)
    requires v.Shape() && key <= v.fill
    ensures w.Shape() && w.isReal == v.isReal
  {
    v.(buf := v.buf[v.off + key := Null], fill := |DeleteAt(v.Contents(), key)| - 1)
  }

  lemma DeletedFacts(v: Store, key: nat)
    requires v.Shape() && key <= v.fill
    ensures KeepsNulls(v, Deleted(v, key))
    ensures Deleted(v, key).Contents() == DeleteAt(v.Contents(), key)
    ensures Refs(v.Contents()) == Refs(Deleted(v, key).Contents()) + One(v.Contents()[key])
  {
    var d := DeleteAt(v.Contents(), key);
    forall i | 0 <= i < |d| ensures Deleted(v, key).Contents()[i] == d[i] {
    }
    assert Deleted(v, key).Contents() == d;
    RefsDeleteAt(v.Contents(), key);
    if key == v.fill && v.isReal && v.TailNull() {
      forall i | v.off + |d| <= i < v.off + key ensures v.buf[i] == Null {
        assert v.Contents()[..key][i - v.off] == Null;
      }
    }
  }

  /** The window takes back the whole buffer: av_clear and CLEAR_ARGARRAY once the elements are gone. */
  function Rewound(v: Store): (w: Store)
    requires v.Shape()
    ensures w.Shape() && w.isReal == v.isReal
  {
    Store(v.buf, 0, -1, v.max + v.off, v.isReal)
  }
}
