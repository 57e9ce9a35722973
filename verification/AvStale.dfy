/** Pointers left outside the window of a fake array never become elements, in any run whatever. */
module AvStale {
  import opened AvSpec
  import opened AvOps
  import opened AvRuns

  /** Nothing that can ever be read holds s: it is no element, and nowhere in the buffer of a real array.
      In a fake array it may stand anywhere outside the window. */
  predicate Free(v: Store, s: Slot)
    requires v.Shape()
  {
    && s.Sv? && s !in v.Contents()
    && (v.isReal ==> s !in v.buf)
  }

  ghost predicate JunkFree(g: Junk, s: Slot) {
    forall i :: g(i) != s
  }

  predicate OperandFree(op: Op, s: Slot) {
    match op
    case PushOp(x) => x != s
    case StoreOp(_, x) => x != s
    case _ => true
  }

  /** The array is real or will be before it is modified, and s is nowhere to be read. */
  predicate Guarded(a: Arr, s: Slot)
    requires a.v.Shape()
  {
    Free(a.v, s) && a.Realish()
  }

  // ---------------------------------------------------------------------------------------------
  // Operation by operation
  // ---------------------------------------------------------------------------------------------

  lemma ReifyFree(a: Arr, s: Slot)
    requires a.v.Shape() && Free(a.v, s)
    ensures Free(Reify(a).v, s) && Reify(a).v.isReal
  {
    ReifiedFacts(a.v);
  }

  lemma GrownFree(a: Arr, key: int, g: Junk, s: Slot)
    requires a.v.Shape() && key >= -1 && Free(a.v, s) && JunkFree(g, s)
    ensures var b := Grown(a, key, g); Free(b.v, s) && b.v.isReal == a.v.isReal && b.reify == a.reify
  {
    var garbage := seq(FreshCount(a.v, key), g);
    ExtendedKeeps(a.v, key, garbage);
    forall i | 0 <= i < |garbage| ensures garbage[i] != s {
    }
    if a.v.isReal {
      ExtendedFree(a.v, key, garbage, s);
    }
    hide Extended;
    hide Store.Contents;
  }

  lemma ZeroedFree(b: seq<Slot>, from: nat, n: nat, s: Slot)
    requires from + n <= |b| && s.Sv? && s !in b
    ensures s !in Zeroed(b, from, n)
  {
  }

  lemma RenewedFree(b: seq<Slot>, n: nat, garbage: seq<Slot>, s: Slot)
    requires |garbage| == n - |b| && s !in b && s !in garbage
    ensures s !in Renewed(b, n, garbage)
  {
  }

  lemma SlidFree(v: Store, s: Slot)
    requires v.Shape() && s !in v.buf
    ensures s !in Slid(v)
  {
  }

  lemma ExtendedFree(v: Store, key: int, garbage: seq<Slot>, s: Slot)
    requires v.Shape() && key >= -1 && |garbage| == FreshCount(v, key) && v.isReal
    requires s.Sv? && s !in v.buf && s !in garbage
    ensures s !in Extended(v, key, garbage).buf
  {
    hide Zeroed;
    hide Renewed;
    hide Slid;
    hide Store.Contents;
    var newmax := NewMax(v, key);
    if key > v.max && v.off > 0 {
      var b := Renewed(Slid(v), newmax + 1, garbage);
      SlidFree(v, s);
      RenewedFree(Slid(v), newmax + 1, garbage, s);
      ZeroedFree(b, v.fill + 1, v.off + (newmax - (v.max + v.off)), s);
    } else if key > v.max && |v.buf| > 0 {
      var b := Renewed(v.buf, newmax + 1, garbage);
      RenewedFree(v.buf, newmax + 1, garbage, s);
      ZeroedFree(b, v.max + 1, newmax - v.max, s);
    }
  }

  lemma WindowFree(v: Store, s: Slot)
    requires v.Shape() && s.Sv? && s !in v.buf
    ensures Free(v, s)
  {
  }

  lemma PutFree(v: Store, key: nat, x: Slot, s: Slot)
    requires v.Shape() && key <= v.max && v.isReal && s.Sv? && s !in v.buf && x != s
    ensures s !in Put(v, key, x).buf
  {
  }

  lemma StoredFree(a: Arr, key: nat, x: Slot, g: Junk, s: Slot)
    requires a.v.Shape() && Guarded(a, s) && JunkFree(g, s) && x != s
    ensures var b := Stored(a, key, x, g); Free(b.v, s) && b.v.isReal
  {
    hide Reify;
    hide Grown;
    hide Put;
    hide Refs;
    hide Store.Contents;
    hide NewMax;
    ReifyFree(a, s);
    var r := if a.reify then Reify(a) else a;
    GrownFree(r, key, g, s);
    var p := Prepared(a, key, g);
    hide Prepared;
    PutFree(p.v, key, x, s);
    WindowFree(Put(p.v, key, x), s);
  }

  lemma PopFree(a: Arr, s: Slot)
    requires a.v.Shape() && Guarded(a, s)
    ensures var (b, x) := Pop(a); Guarded(b, s) && x != s
  {
    if a.v.fill >= 0 {
      PoppedFacts(a.v);
      hide Store.Contents;
      var w := Popped(a.v);
      forall i | 0 <= i < |w.buf| ensures w.buf[i] == Null || w.buf[i] == a.v.buf[i] {
      }
    }
  }

  lemma ShiftFree(a: Arr, s: Slot)
    requires a.v.Shape() && Guarded(a, s)
    ensures var (b, x) := Shift(a); Guarded(b, s) && x != s
  {
    if a.v.fill >= 0 {
      ShiftedFacts(a.v);
      hide Store.Contents;
      var w := Shifted(a.v);
      forall i | 0 <= i < |w.buf| ensures w.buf[i] == Null || w.buf[i] == a.v.buf[i] {
      }
    }
  }

  lemma UnshiftFree(a: Arr, num: int, g: Junk, s: Slot)
    requires a.v.Shape() && Guarded(a, s) && JunkFree(g, s)
    ensures Guarded(Unshift(a, num, g), s)
  {
    if num > 0 {
      ReifyFree(a, s);
      var r := if a.reify then Reify(a) else a;
      hide Reify;
      UnshiftRealFree(r, num, g, s);
      hide UnshiftReal;
    }
  }

  lemma MovedUpFree(v: Store, num: nat, slide: nat, s: Slot)
    requires v.Shape() && v.off == 0 && v.fill + num <= v.max && slide <= num && s.Sv? && s !in v.buf
    ensures s !in MovedUp(v, num, slide).buf
  {
  }

  lemma UnshiftSlowFree(a: Arr, num: nat, g: Junk, s: Slot)
    requires a.v.Shape() && Free(a.v, s) && a.v.isReal && JunkFree(g, s) && num > 0 && a.v.off == 0
    ensures var b := UnshiftSlow(a, num, g); Free(b.v, s) && b.v.isReal
  {
    hide Grown;
    hide MovedUp;
    hide Store.Contents;
    hide NewMax;
    var n := num + SlideOf(a.v);
    GrownFree(a, a.v.fill + n, g, s);
    GrownRoom(a, a.v.fill + n, g);
    var w := Grown(a, a.v.fill + n, g);
    MovedUpFree(w.v, n, SlideOf(a.v), s);
    WindowFree(MovedUp(w.v, n, SlideOf(a.v)), s);
  }

  lemma UnshiftRealFree(a: Arr, num: nat, g: Junk, s: Slot)
    requires a.v.Shape() && Free(a.v, s) && a.v.isReal && JunkFree(g, s) && num > 0
    ensures var b := UnshiftReal(a, num, g); Free(b.v, s) && b.v.isReal
  {
    hide UnshiftSlow;
    hide Store.Contents;
    var f := UnshiftFast(a, num);
    WindowFree(f.v, s);
    if num > a.v.off {
      UnshiftSlowFree(f, num - a.v.off, g, s);
    }
  }

  lemma CutFree(a: Arr, f: int, s: Slot)
    requires a.v.Shape() && Guarded(a, s) && -1 <= f <= a.v.fill
    ensures Guarded(CutTo(a, f), s)
  {
    hide Store.Contents;
    hide Refs;
    hide Zeroed;
    CutFacts(a.v, f);
    PrefixFree(a.v.Contents(), f + 1, s);
    if a.v.isReal {
      ZeroedFree(a.v.buf, a.v.off + f + 1, a.v.fill - f, s);
    }
  }

  lemma PrefixFree(c: seq<Slot>, n: nat, s: Slot)
    requires n <= |c| && s !in c
    ensures s !in c[..n]
  {
  }

  lemma FillFree(a: Arr, f0: int, g: Junk, s: Slot)
    requires a.v.Shape() && Guarded(a, s) && JunkFree(g, s)
    ensures Guarded(Fill(a, f0, g), s)
  {
    var f := if f0 < 0 then -1 else f0;
    if f > a.v.max {
      StoredFree(a, f, Null, g, s);
    } else if f <= a.v.fill {
      CutFree(a, f, s);
    } else {
      var w := Raised(a.v, f);
      if a.v.isReal {
        WindowFree(w, s);
      } else {
        forall i | 0 <= i < |w.Contents()| ensures w.Contents()[i] != s {
          assert i <= a.v.fill ==> w.Contents()[i] == a.v.Contents()[i];
        }
      }
    }
  }

  lemma DeletedFree(v: Store, k: nat, s: Slot)
    requires v.Shape() && k <= v.fill && s.Sv? && s !in v.buf
    ensures s !in Deleted(v, k).buf && v.Contents()[k] != s
  {
    hide DeleteAt;
    assert v.Contents()[k] == v.buf[v.off + k];
  }

  lemma RemovedFree(r: Arr, k: nat, discard: bool, s: Slot)
    requires r.v.Shape() && Free(r.v, s) && r.v.isReal && k <= r.v.fill
    ensures Guarded(Removed(r, k, discard), s) && r.v.Contents()[k] != s
  {
    hide Deleted;
    hide Store.Contents;
    hide Refs;
    DeletedFree(r.v, k, s);
    WindowFree(Deleted(r.v, k), s);
  }

  lemma DeleteFree(a: Arr, key: int, discard: bool, s: Slot)
    requires a.v.Shape() && Guarded(a, s)
    ensures var (b, x) := Delete(a, key, discard); Guarded(b, s) && x != s
  {
    hide Removed;
    hide Store.Contents;
    hide Refs;
    var k := Adjust(key, a.v.fill + 1);
    if 0 <= k <= a.v.fill {
      ReifyFree(a, s);
      var r := if a.reify then Reify(a) else a;
      assert r.v.fill == a.v.fill;
      hide Reify;
      RemovedFree(r, k, discard, s);
    }
  }

  lemma ClearFree(a: Arr, s: Slot)
    requires a.v.Shape() && Guarded(a, s)
    ensures Guarded(Clear(a), s)
    ensures a.v.isReal ==> s !in Clear(a).v.buf
  {
    if a.v.max >= 0 && a.v.isReal {
      CutFree(a, -1, s);
    }
  }

  /** One operation of any kind neither returns s nor makes it an element. */
  lemma StepFree(a: Arr, op: Op, g: Junk, s: Slot)
    requires a.v.Shape() && Guarded(a, s) && JunkFree(g, s) && OperandFree(op, s)
    ensures var (b, x) := Exec(a, op, g); Guarded(b, s) && x != s
  {
    hide Stored;
    hide Pop;
    hide Shift;
    hide Unshift;
    hide Delete;
    hide Fill;
    hide Grown;
    hide Clear;
    hide Store.Contents;
    match op
    case PushOp(x) => StoredFree(Referenced(a, x), a.v.fill + 1, x, g, s);
    case PopOp => PopFree(a, s);
    case ShiftOp => ShiftFree(a, s);
    case UnshiftOp(num) => UnshiftFree(a, num, g, s);
    case StoreOp(key, x) =>
      if Adjust(key, a.v.fill + 1) >= 0 {
        StoredFree(Referenced(a, x), Adjust(key, a.v.fill + 1), x, g, s);
      }
    case DeleteOp(key, discard) => DeleteFree(a, key, discard, s);
    case FillOp(f) => FillFree(a, f, g, s);
    case ClearOp => ClearFree(a, s);
    case LeaveSubOp => LeaveSubFree(a, s);
    case ExtendOp(key) =>
      if key >= -1 {
        GrownFree(a, key, g, s);
      }
    case FetchOp(_) =>
  }

  lemma LeaveSubFree(a: Arr, s: Slot)
    requires a.v.Shape() && Guarded(a, s)
    ensures Guarded(LeaveSub(a), s)
  {
    if a.v.isReal {
      ClearFree(a, s);
    }
  }

  // ---------------------------------------------------------------------------------------------
  // Any run
  // ---------------------------------------------------------------------------------------------

  /** Whatever stands outside the window of a fake array, or is nowhere in a real one, never becomes an
      element and is never returned, in any run of operations, dense or sparse, however the array grows,
      as long as neither the operations nor the allocator supply it. */
  lemma {:induction false} StaleNeverSurfaces(a: Arr, ops: seq<Op>, gs: seq<Junk>, s: Slot)
    requires a.v.Shape() && Guarded(a, s) && |gs| == |ops|
    requires forall i :: 0 <= i < |ops| ==> OperandFree(ops[i], s) && JunkFree(gs[i], s)
    ensures var (z, xs) := Run(a, ops, gs); Guarded(z, s) && s !in z.v.Contents() && s !in xs
    decreases |ops|
  {
    hide Exec;
    hide Store.Contents;
    if ops != [] {
      StepFree(a, ops[0], gs[0], s);
      var (b, x) := Exec(a, ops[0], gs[0]);
      forall i | 0 <= i < |ops[1..]| ensures OperandFree(ops[1..][i], s) && JunkFree(gs[1..][i], s) {
        assert OperandFree(ops[i + 1], s) && JunkFree(gs[i + 1], s);
      }
      StaleNeverSurfaces(b, ops[1..], gs[1..], s);
    }
  }

  /** In safe runs the stale pointers do not even make a difference: two fake arrays with the same
      elements, and anything at all outside their windows, stay indistinguishable. */
  lemma StaleIsInvisible(a: Arr, a': Arr, ops: seq<Op>, gs: seq<Junk>, gs': seq<Junk>)
    requires a.Valid() && !a.v.isReal && a.reify && a'.Valid() && !a'.v.isReal && a'.reify
    requires a.v.Contents() == a'.v.Contents() && |gs| == |gs'| == |ops|
    requires RunsSafely(a, ops, gs) && RunsSafely(a', ops, gs')
    ensures var (z, xs), (z', xs') := Run(a, ops, gs), Run(a', ops, gs');
      z.v.Contents() == z'.v.Contents() && xs == xs'
  {
    RunCorrect(a, ops, gs);
    RunCorrect(a', ops, gs');
  }
}
