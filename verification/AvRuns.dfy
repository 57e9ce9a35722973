/**
  Runs of array operations: agreement with plain sequences, conservation of references, and what
  runs of pushes, of unshifts, and of a queue cost.
 */
module AvRuns {
  import opened AvSpec
  import opened AvOps

  datatype Op =
    | PushOp(x: Slot)
    | PopOp
    | ShiftOp
    | UnshiftOp(num: int)
    | StoreOp(key: int, x: Slot)
    | DeleteOp(key: int, discard: bool)
    | FillOp(fill: int)
    | ClearOp
    | LeaveSubOp            // what leaving a sub does to its @_
    | ExtendOp(key: int)
    | FetchOp(key: int)

  /** The caller makes the reference that a push or a store is to take over. */
  function Referenced(a: Arr, x: Slot): Arr {
    a.(refs := a.refs + One(x), outside := a.outside + One(x))
  }

  /** CLEAR_ARGARRAY for a fake @_; a reified one is cleared and becomes fake again. */
  function LeaveSub(a: Arr): (b: Arr)
    requires a.v.Shape()
    ensures b.v.Shape()
  {
    if a.v.isReal then
      var c := Clear(a);
      c.(v := c.v.(isReal := false), reify := true)
    else ClearArgArray(a)
  }

  /** One operation: the new state and what the caller gets. */
  function Exec(a: Arr, op: Op, g: Junk): (r: (Arr, Slot))
    requires a.v.Shape()
    ensures r.0.v.Shape()
  {
    match op
    case PushOp(x) => (Stored(Referenced(a, x), a.v.fill + 1, x, g), Null)
    case PopOp => Pop(a)
    case ShiftOp => Shift(a)
    case UnshiftOp(num) => (Unshift(a, num, g), Null)
    case StoreOp(key, x) =>
      var k := Adjust(key, a.v.fill + 1);
      (if k < 0 then Referenced(a, x) else Stored(Referenced(a, x), k, x, g), Null)
    case DeleteOp(key, discard) => Delete(a, key, discard)
    case FillOp(f) => (Fill(a, f, g), Null)
    case ClearOp => (Clear(a), Null)
    case LeaveSubOp => (LeaveSub(a), Null)
    case ExtendOp(key) => (if key < -1 then a else Grown(a, key, g), Null)
    case FetchOp(key) => (a, ElementAt(a.v.Contents(), key))
  }

  /** The same operation on a plain sequence. */
  function Step(c: seq<Slot>, op: Op): (seq<Slot>, Slot) {
    match op
    case PushOp(x) => (c + [x], Null)
    case PopOp => if c == [] then (c, Undef) else (c[..|c| - 1], OrUndef(c[|c| - 1]))
    case ShiftOp => if c == [] then (c, Undef) else (c[1..], OrUndef(c[0]))
    case UnshiftOp(num) => (Nulls(if num <= 0 then 0 else num) + c, Null)
    case StoreOp(key, x) =>
      var k := Adjust(key, |c|);
      (if k < 0 then c else StoreAt(c, k, x), Null)
    case DeleteOp(key, discard) =>
      var k := Adjust(key, |c|);
      if k < 0 || k >= |c| then (c, Null)
      else (DeleteAt(c, k), if discard then Null else c[k])
    case FillOp(f) => (FilledTo(c, if f < 0 then 0 else f + 1), Null)
    case ClearOp => ([], Null)
    case LeaveSubOp => ([], Null)
    case ExtendOp(_) => (c, Null)
    case FetchOp(key) => (c, ElementAt(c, key))
  }

  /** The references an operation on a real array leaves with its caller. */
  function Handed(c: seq<Slot>, op: Op): multiset<Slot> {
    match op
    case PopOp => One(Step(c, op).1)
    case ShiftOp => One(Step(c, op).1)
    case DeleteOp(_, _) => One(Step(c, op).1)
    case StoreOp(key, x) => if Adjust(key, |c|) < 0 then One(x) else multiset{}
    case _ => multiset{}
  }

  /** Operations that make no slot above fill an element without writing it. */
  predicate Dense(n: nat, op: Op) {
    match op
    case StoreOp(key, _) => Adjust(key, n) <= n
    case FillOp(f) => f < n
    case _ => true
  }

  /** Operations whose growth, if any, leaves nothing but null above fill. */
  predicate Tame(v: Store, op: Op)
    requires v.Shape()
  {
    match op
    case StoreOp(key, _) => SafeGrow(v, Adjust(key, v.fill + 1))
    case FillOp(f) => SafeGrow(v, f)
    case ExtendOp(key) => SafeGrow(v, key)
    case _ => true
  }

  lemma ReferencedCorrect(a: Arr, x: Slot)
    requires a.Valid()
    ensures var b := Referenced(a, x);
      && b.Valid() && One(x) <= b.outside && b.outside - One(x) == a.outside
      && b.v == a.v && b.reify == a.reify && b.outside == a.outside + One(x)
  {
    hide Owned;
  }

  lemma StepStore(a: Arr, k: nat, x: Slot, g: Junk)
    requires a.Valid() && a.Realish() && Known(a.v, k)
    ensures var b := Stored(Referenced(a, x), k, x, g);
      && b.Valid() && b.v.isReal && b.v.Contents() == StoreAt(a.v.Contents(), k, x)
      && b.outside == a.outside && (Clean(a.v) && SafeGrow(a.v, k) ==> Clean(b.v))
  {
    hide Refs;
    hide Owned;
    hide Store.FrontNull;
    hide Stored;
    hide StoreAt;
    ReferencedCorrect(a, x);
    StoredCorrect(Referenced(a, x), k, x, g);
  }

  lemma FakeAgain(c: Arr)
    requires c.Valid() && c.v.isReal && c.v.Contents() == []
    ensures var b := c.(v := c.v.(isReal := false), reify := true);
      b.Valid() && b.v.Contents() == [] && Clean(b.v)
  {
    RefsNone();
    hide Refs;
  }

  lemma StepLeaveSub(a: Arr)
    requires a.Valid() && a.Realish()
    ensures var b := LeaveSub(a);
      b.Valid() && b.Realish() && b.v.Contents() == [] && b.outside == a.outside && Clean(b.v)
  {
    hide Owned;
    hide Store.Contents;
    hide Store.FrontNull;
    hide Store.NullThrough;
    hide Clear;
    hide ClearArgArray;
    if a.v.isReal {
      ClearCorrect(a);
      FakeAgain(Clear(a));
    } else {
      ClearArgArrayCorrect(a);
    }
  }

  /** What one operation must achieve, stated once for all of them. */
  predicate Agrees(a: Arr, op: Op, b: Arr, x: Slot)
    requires a.v.Shape() && b.v.Shape()
  {
    && b.Valid() && b.Realish()
    && (b.v.Contents(), x) == Step(a.v.Contents(), op)
    && (Clean(a.v) && Tame(a.v, op) ==> Clean(b.v))
    && (a.v.isReal ==> b.outside == a.outside + Handed(a.v.Contents(), op))
    && (a.v.isReal && !op.LeaveSubOp? ==> b.v.isReal)
  }

  lemma AgreesPush(a: Arr, x0: Slot, g: Junk)
    requires a.Valid() && a.Realish()
    ensures var op := PushOp(x0); var (b, x) := Exec(a, op, g); Agrees(a, op, b, x)
  {
    hide Refs;
    hide Owned;
    hide One;
    hide Store.FrontNull;
    hide Store.Contents;
    hide Stored;
    hide StoreAt;
    hide NewMax;
    StepStore(a, a.v.fill + 1, x0, g);
    StoreAtEnd(a.v.Contents(), x0);
    assert a.outside + multiset{} == a.outside;
  }

  lemma AgreesPop(a: Arr, g: Junk)
    requires a.Valid() && a.Realish()
    ensures var op := PopOp; var (b, x) := Exec(a, op, g); Agrees(a, op, b, x)
  {
    hide Refs;
    hide Owned;
    hide One;
    hide Store.FrontNull;
    hide Store.Contents;
    hide Pop;
    PopCorrect(a);
  }

  lemma AgreesShift(a: Arr, g: Junk)
    requires a.Valid() && a.Realish()
    ensures var op := ShiftOp; var (b, x) := Exec(a, op, g); Agrees(a, op, b, x)
  {
    hide Refs;
    hide Owned;
    hide One;
    hide Store.FrontNull;
    hide Store.Contents;
    hide Shift;
    ShiftCorrect(a);
  }

  lemma AgreesUnshift(a: Arr, num: int, g: Junk)
    requires a.Valid() && a.Realish()
    ensures var op := UnshiftOp(num); var (b, x) := Exec(a, op, g); Agrees(a, op, b, x)
  {
    hide Refs;
    hide Owned;
    hide One;
    hide Store.FrontNull;
    hide Store.Contents;
    hide Unshift;
    hide Nulls;
    UnshiftCorrect(a, num, g);
    assert a.outside + multiset{} == a.outside;
  }

  lemma AgreesStore(a: Arr, key: int, x0: Slot, g: Junk)
    requires a.Valid() && a.Realish() && (Adjust(key, a.v.fill + 1) <= a.v.fill + 1 || Clean(a.v))
    ensures var op := StoreOp(key, x0); var (b, x) := Exec(a, op, g); Agrees(a, op, b, x)
  {
    hide Refs;
    hide Owned;
    hide One;
    hide Store.FrontNull;
    hide Store.Contents;
    hide Stored;
    hide StoreAt;
    hide Referenced;
    assert a.outside + multiset{} == a.outside;
    var k := Adjust(key, a.v.fill + 1);
    if k < 0 {
      ReferencedCorrect(a, x0);
    } else {
      CleanKnown(a.v, k);
      hide Clean;
      hide Known;
      hide SafeGrow;
      StepStore(a, k, x0, g);
    }
  }

  lemma AgreesDelete(a: Arr, key: int, discard: bool, g: Junk)
    requires a.Valid() && a.Realish()
    ensures var op := DeleteOp(key, discard); var (b, x) := Exec(a, op, g); Agrees(a, op, b, x)
  {
    hide Refs;
    hide Owned;
    hide One;
    hide Store.FrontNull;
    hide Store.Contents;
    hide Delete;
    hide DeleteAt;
    DeleteCorrect(a, key, discard);
  }

  lemma AgreesFill(a: Arr, f: int, g: Junk)
    requires a.Valid() && a.Realish() && (f < a.v.fill + 1 || Clean(a.v))
    ensures var op := FillOp(f); var (b, x) := Exec(a, op, g); Agrees(a, op, b, x)
  {
    hide Refs;
    hide Owned;
    hide One;
    hide Store.FrontNull;
    hide Store.Contents;
    hide Fill;
    hide FilledTo;
    hide NewMax;
    FillCorrect(a, f, g);
    assert a.outside + multiset{} == a.outside;
  }

  lemma AgreesExtend(a: Arr, key: int, g: Junk)
    requires a.Valid() && a.Realish()
    ensures var op := ExtendOp(key); var (b, x) := Exec(a, op, g); Agrees(a, op, b, x)
  {
    hide Refs;
    hide Owned;
    hide One;
    hide Store.FrontNull;
    hide Store.Contents;
    hide Grown;
    hide NewMax;
    if key >= -1 {
      GrownCorrect(a, key, g);
    }
    assert a.outside + multiset{} == a.outside;
  }

  lemma AgreesFetch(a: Arr, key: int, g: Junk)
    requires a.Valid() && a.Realish()
    ensures var op := FetchOp(key); var (b, x) := Exec(a, op, g); Agrees(a, op, b, x)
  {
    hide Owned;
    hide ElementAt;
    assert a.outside + multiset{} == a.outside;
  }

  lemma AgreesClear(a: Arr, g: Junk)
    requires a.Valid() && a.Realish()
    ensures var op := ClearOp; var (b, x) := Exec(a, op, g); Agrees(a, op, b, x)
  {
    hide Refs;
    hide Owned;
    hide One;
    hide Store.FrontNull;
    hide Store.Contents;
    hide Clear;
    ClearCorrect(a);
    assert a.outside + multiset{} == a.outside;
  }

  lemma AgreesLeaveSub(a: Arr, g: Junk)
    requires a.Valid() && a.Realish()
    ensures var op := LeaveSubOp; var (b, x) := Exec(a, op, g); Agrees(a, op, b, x)
  {
    hide Refs;
    hide Owned;
    hide One;
    hide Store.FrontNull;
    hide Store.Contents;
    hide LeaveSub;
    StepLeaveSub(a);
    assert a.outside + multiset{} == a.outside;
  }

  /** One operation on a valid array does to its elements what it does to a plain sequence,
      returns the same, and accounts for every reference. */
  lemma StepCorrect(a: Arr, op: Op, g: Junk)
    requires a.Valid() && a.Realish()
    requires Dense(a.v.fill + 1, op) || Clean(a.v)
    ensures var (b, x) := Exec(a, op, g); Agrees(a, op, b, x)
  {
    hide Agrees;
    hide Exec;
    match op
    case PushOp(x) => AgreesPush(a, x, g);
    case PopOp => AgreesPop(a, g);
    case ShiftOp => AgreesShift(a, g);
    case UnshiftOp(num) => AgreesUnshift(a, num, g);
    case StoreOp(key, x) => AgreesStore(a, key, x, g);
    case DeleteOp(key, discard) => AgreesDelete(a, key, discard, g);
    case FillOp(f) => AgreesFill(a, f, g);
    case ClearOp => AgreesClear(a, g);
    case LeaveSubOp => AgreesLeaveSub(a, g);
    case ExtendOp(key) => AgreesExtend(a, key, g);
    case FetchOp(key) => AgreesFetch(a, key, g);
  }

  // ---------------------------------------------------------------------------------------------
  // Runs
  // ---------------------------------------------------------------------------------------------

  /** A run of operations: the final state and what each operation returned. */
  function Run(a: Arr, ops: seq<Op>, gs: seq<Junk>): (r: (Arr, seq<Slot>))
    requires a.v.Shape() && |gs| == |ops|
    ensures r.0.v.Shape()
    decreases |ops|
  {
    if ops == [] then (a, [])
    else
      var (b, x) := Exec(a, ops[0], gs[0]);
      var (z, xs) := Run(b, ops[1..], gs[1..]);
      (z, [x] + xs)
  }

  /** The same run on a plain sequence. */
  function StepAll(c: seq<Slot>, ops: seq<Op>): (seq<Slot>, seq<Slot>)
    decreases |ops|
  {
    if ops == [] then (c, [])
    else
      var (d, x) := Step(c, ops[0]);
      var (z, xs) := StepAll(d, ops[1..]);
      (z, [x] + xs)
  }

  lemma StepAllSplit(c: seq<Slot>, ops: seq<Op>, xs: seq<Slot>)
    requires ops != []
    ensures var d := Step(c, ops[0]);
      && StepAll(c, ops).0 == StepAll(d.0, ops[1..]).0
      && xs + StepAll(c, ops).1 == xs + [d.1] + StepAll(d.0, ops[1..]).1
  {
  }

  /** The references a run on a real array leaves with its caller. */
  function HandedAll(c: seq<Slot>, ops: seq<Op>): multiset<Slot>
    decreases |ops|
  {
    if ops == [] then multiset{} else Handed(c, ops[0]) + HandedAll(Step(c, ops[0]).0, ops[1..])
  }

  /** At every step: a dense operation, or nothing but null above fill. */
  predicate RunsSafely(a: Arr, ops: seq<Op>, gs: seq<Junk>)
    requires a.v.Shape() && |gs| == |ops|
    decreases |ops|
  {
    ops != [] ==>
      && (Dense(a.v.fill + 1, ops[0]) || Clean(a.v))
      && RunsSafely(Exec(a, ops[0], gs[0]).0, ops[1..], gs[1..])
  }

  predicate RunsTamely(a: Arr, ops: seq<Op>, gs: seq<Junk>)
    requires a.v.Shape() && |gs| == |ops|
    decreases |ops|
  {
    ops != [] ==> Tame(a.v, ops[0]) && RunsTamely(Exec(a, ops[0], gs[0]).0, ops[1..], gs[1..])
  }

  predicate AllDense(c: seq<Slot>, ops: seq<Op>)
    decreases |ops|
  {
    ops != [] ==> Dense(|c|, ops[0]) && AllDense(Step(c, ops[0]).0, ops[1..])
  }

  /** Every safe run on a real or reifiable array agrees with the run on a plain sequence, element
      by element and result by result, and keeps the reference count of every SV equal to its
      outside owners plus its occurrences in the live slots. */
  lemma {:induction false} RunCorrect(a: Arr, ops: seq<Op>, gs: seq<Junk>)
    requires a.Valid() && a.Realish() && |gs| == |ops|
    requires RunsSafely(a, ops, gs)
    ensures var (z, xs) := Run(a, ops, gs);
      && z.Valid() && z.Realish()
      && (z.v.Contents(), xs) == StepAll(a.v.Contents(), ops)
    decreases |ops|
  {
    hide Agrees;
    hide Exec;
    hide Step;
    hide Owned;
    hide Store.FrontNull;
    if ops != [] {
      var (b, x) := Exec(a, ops[0], gs[0]);
      StepCorrect(a, ops[0], gs[0]);
      AgreesMeans(a, ops[0], b, x);
      RunCorrect(b, ops[1..], gs[1..]);
    }
  }

  lemma AgreesMeans(a: Arr, op: Op, b: Arr, x: Slot)
    requires a.v.Shape() && b.v.Shape() && Agrees(a, op, b, x)
    ensures b.Valid() && b.Realish() && (b.v.Contents(), x) == Step(a.v.Contents(), op)
    ensures Clean(a.v) && Tame(a.v, op) ==> Clean(b.v)
    ensures a.v.isReal ==> b.outside == a.outside + Handed(a.v.Contents(), op)
    ensures a.v.isReal && !op.LeaveSubOp? ==> b.v.isReal
  {
  }

  /** A real array ends such a run having given its caller exactly the returned references. */
  lemma {:induction false} RunHandsOut(a: Arr, ops: seq<Op>, gs: seq<Junk>)
    requires a.Valid() && a.v.isReal && |gs| == |ops|
    requires RunsSafely(a, ops, gs)
    requires forall op <- ops :: !op.LeaveSubOp?
    ensures var z := Run(a, ops, gs).0;
      z.v.isReal && z.outside == a.outside + HandedAll(a.v.Contents(), ops)
    decreases |ops|
  {
    hide Agrees;
    hide Exec;
    hide Step;
    hide Handed;
    hide Owned;
    hide Store.FrontNull;
    if ops != [] {
      var (b, x) := Exec(a, ops[0], gs[0]);
      StepCorrect(a, ops[0], gs[0]);
      AgreesMeans(a, ops[0], b, x);
      assert ops[0] in ops;
      RunHandsOut(b, ops[1..], gs[1..]);
    }
  }

  /** Dense operations are safe on any valid array, whatever stands above fill and however it grew. */
  lemma {:induction false} DenseRunsAreSafe(a: Arr, ops: seq<Op>, gs: seq<Junk>)
    requires a.Valid() && a.Realish() && |gs| == |ops|
    requires AllDense(a.v.Contents(), ops)
    ensures RunsSafely(a, ops, gs)
    decreases |ops|
  {
    hide Agrees;
    hide Exec;
    hide Step;
    hide Dense;
    hide Owned;
    hide Store.FrontNull;
    if ops != [] {
      var (b, x) := Exec(a, ops[0], gs[0]);
      StepCorrect(a, ops[0], gs[0]);
      AgreesMeans(a, ops[0], b, x);
      DenseRunsAreSafe(b, ops[1..], gs[1..]);
    }
  }

  /** Operations whose growth is tame are safe, sparse or not, and keep everything above fill null. */
  lemma {:induction false} TameRunsAreSafe(a: Arr, ops: seq<Op>, gs: seq<Junk>)
    requires a.Valid() && a.Realish() && Clean(a.v) && |gs| == |ops|
    requires RunsTamely(a, ops, gs)
    ensures RunsSafely(a, ops, gs) && Clean(Run(a, ops, gs).0.v)
    decreases |ops|
  {
    hide Agrees;
    hide Exec;
    hide Tame;
    hide Clean;
    hide Owned;
    hide Store.FrontNull;
    if ops != [] {
      var (b, x) := Exec(a, ops[0], gs[0]);
      StepCorrect(a, ops[0], gs[0]);
      AgreesMeans(a, ops[0], b, x);
      TameRunsAreSafe(b, ops[1..], gs[1..]);
    }
  }

  /** The everyday operations: anything but a sparse store, a fill beyond the room there is, and an
      explicit extend. */
  predicate Plain(v: Store, op: Op)
    requires v.Shape()
  {
    match op
    case StoreOp(key, _) => Adjust(key, v.fill + 1) <= v.fill + 1
    case FillOp(f) => f <= v.max
    case ExtendOp(_) => false
    case _ => true
  }

  lemma PlainIsTame(v: Store, op: Op)
    requires v.Shape() && Plain(v, op)
    ensures Tame(v, op)
  {
  }

  predicate RunsPlainly(a: Arr, ops: seq<Op>, gs: seq<Junk>)
    requires a.v.Shape() && |gs| == |ops|
    decreases |ops|
  {
    ops != [] ==> Plain(a.v, ops[0]) && RunsPlainly(Exec(a, ops[0], gs[0]).0, ops[1..], gs[1..])
  }

  lemma {:induction false} PlainRunsTamely(a: Arr, ops: seq<Op>, gs: seq<Junk>)
    requires a.v.Shape() && |gs| == |ops| && RunsPlainly(a, ops, gs)
    ensures RunsTamely(a, ops, gs)
    decreases |ops|
  {
    hide Exec;
    hide Tame;
    hide Plain;
    if ops != [] {
      PlainIsTame(a.v, ops[0]);
      PlainRunsTamely(Exec(a, ops[0], gs[0]).0, ops[1..], gs[1..]);
    }
  }

  /** Everyday runs on a plain real array agree with the plain sequence, and end with nothing but null
      in front of the window and above fill. */
  lemma PlainRunCorrect(a: Arr, ops: seq<Op>, gs: seq<Junk>)
    requires a.Valid() && a.v.isReal && a.v.TailNull() && |gs| == |ops|
    requires RunsPlainly(a, ops, gs) && forall op <- ops :: !op.LeaveSubOp?
    ensures var (z, xs) := Run(a, ops, gs);
      && z.Valid() && z.v.isReal && z.v.FrontNull() && z.v.TailNull()
      && (z.v.Contents(), xs) == StepAll(a.v.Contents(), ops)
  {
    hide Run;
    hide StepAll;
    hide Owned;
    hide Store.FrontNull;
    hide Store.TailNull;
    PlainRunsTamely(a, ops, gs);
    TameRunsAreSafe(a, ops, gs);
    RunCorrect(a, ops, gs);
    RunHandsOut(a, ops, gs);
  }

  /** What a store and then a fill of all the room there is should leave. */
  ghost predicate StoreThenFill(a: Arr, key: nat, x: Slot, g: Junk, g': Junk)
    requires a.v.Shape()
  {
    var b := Exec(a, StoreOp(key, x), g).0;
    var z := Exec(b, FillOp(b.v.max), g').0;
    z.v.Contents() == Step(Step(a.v.Contents(), StoreOp(key, x)).0, FillOp(b.v.max)).0
  }

  /** On a real array with nothing but null above fill, for whatever the allocator hands out, they do so
      if and only if the store's growth is in one of the safe shapes. */
  lemma StoreThenFillExactly(a: Arr, key: nat, x: Slot)
    requires a.Valid() && a.v.isReal && a.v.TailNull()
    ensures (forall g, g' :: StoreThenFill(a, key, x, g, g')) <==> SafeGrow(a.v, key)
  {
    hide StoreThenFill;
    if SafeGrow(a.v, key) {
      forall g, g' ensures StoreThenFill(a, key, x, g, g') {
        SafeStoreThenFill(a, key, x, g, g');
      }
    } else {
      UnsafeStoreThenFill(a, key, x, _ => Undef, _ => Undef);
    }
  }

  lemma SafeStoreThenFill(a: Arr, key: nat, x: Slot, g: Junk, g': Junk)
    requires a.Valid() && a.v.isReal && a.v.TailNull() && SafeGrow(a.v, key)
    ensures StoreThenFill(a, key, x, g, g')
  {
    hide Agrees;
    hide Exec;
    hide Step;
    hide Owned;
    hide Store.FrontNull;
    hide Store.Contents;
    hide SafeGrow;
    var (b, r) := Exec(a, StoreOp(key, x), g);
    StepCorrect(a, StoreOp(key, x), g);
    AgreesMeans(a, StoreOp(key, x), b, r);
    var (z, r') := Exec(b, FillOp(b.v.max), g');
    StepCorrect(b, FillOp(b.v.max), g');
    AgreesMeans(b, FillOp(b.v.max), z, r');
  }

  /** The last slot of the grown buffer holds what the allocator had there. */
  lemma JunkStays(v: Store, key: nat, garbage: seq<Slot>)
    requires v.Shape() && v.isReal && !SafeGrow(v, key) && |garbage| == FreshCount(v, key)
    requires forall i :: 0 <= i < |garbage| ==> garbage[i] == Undef
    ensures var w := Extended(v, key, garbage); w.Shape() && key < w.max && w.off == 0 && w.buf[w.max] == Undef
  {
    ExtendedKeeps(v, key, garbage);
  }

  lemma JunkRaised(w: Store, key: nat, x: Slot)
    requires w.Shape() && w.isReal && w.off == 0 && w.fill < key < w.max && w.buf[w.max] == Undef
    ensures var b := Put(w, key, x); b.fill == key && Raised(b, b.max).Contents()[b.max] == Undef
  {
  }

  lemma StoredIs(a: Arr, key: nat, x: Slot, g: Junk)
    requires a.Valid() && a.v.isReal && key > a.v.fill
    ensures var w := Extended(a.v, key, seq(FreshCount(a.v, key), g));
      w.Shape() && key <= w.max && Exec(a, StoreOp(key, x), g).0.v == Put(w, key, x)
  {
    hide Extended;
    hide Put;
    hide Refs;
    hide Owned;
    hide NewMax;
    ExtendedKeeps(a.v, key, seq(FreshCount(a.v, key), g));
  }

  lemma FilledIs(b: Arr, g: Junk)
    requires b.v.Shape() && b.v.fill < b.v.max && b.v.max >= 0
    ensures Exec(b, FillOp(b.v.max), g).0.v == Raised(b.v, b.v.max)
  {
    hide Raised;
  }

  lemma UnsafeStoreThenFill(a: Arr, key: nat, x: Slot, g: Junk, g': Junk)
    requires a.Valid() && a.v.isReal && !SafeGrow(a.v, key) && forall i :: g(i) == Undef
    ensures !StoreThenFill(a, key, x, g, g')
  {
    var garbage := seq(FreshCount(a.v, key), g);
    assert a.v.fill < key;
    hide SafeGrow;
    hide Extended;
    hide Exec;
    hide Put;
    hide Raised;
    hide Step;
    hide Refs;
    hide Owned;
    hide NewMax;
    hide FreshCount;
    hide Store.Contents;
    hide Store.FrontNull;
    JunkStays(a.v, key, garbage);
    StoredIs(a, key, x, g);
    ExtendedKeeps(a.v, key, garbage);
    var w := Extended(a.v, key, garbage);
    JunkRaised(w, key, x);
    FilledIs(Exec(a, StoreOp(key, x), g).0, g');
    LastIsNull(a.v.Contents(), key, x, w.max);
  }

  lemma LastIsNull(c: seq<Slot>, key: nat, x: Slot, max: int)
    requires |c| <= key < max
    ensures var d := Step(Step(c, StoreOp(key, x)).0, FillOp(max)).0; |d| == max + 1 && d[max] == Null
  {
  }

  const SLACK: Store := Store([Null, Sv(1), Sv(2), Null], 1, 1, 2, true)

  lemma SlackGrowth(a: Arr, g: Junk)
    requires a.v == SLACK && !a.reify
    ensures var b := Stored(a, 5, Sv(3), g);
      b.v.off == 0 && b.v.fill == 5 && b.v.max == 8 && b.v.isReal && b.v.buf[8] == g(4)
  {
    hide Refs;
    StoredRoom(a, 5, Sv(3), g);
    assert FreshCount(SLACK, 5) == 5;
    var garbage := seq(FreshCount(SLACK, 5), g);
    assert garbage[4] == g(4);
    var r := Renewed(Slid(SLACK), 9, garbage);
    assert r[8] == garbage[4];
    assert Extended(SLACK, 5, garbage).buf == Zeroed(r, 2, 6);
    hide Extended;
  }

  /** Why growth must be tame: a sparse store grows a shifted array with slack, leaving the last
      slot as the allocator had it, and a later fill within the array makes that an element. */
  lemma UntameGrowthExposesJunk(g: Junk)
    requires g(4) == Undef
    ensures var a := Arr(SLACK, false, multiset{Sv(1), Sv(2)}, multiset{}, 0, 0);
      var b := Exec(a, StoreOp(5, Sv(3)), g).0;
      var z := Exec(b, FillOp(8), g).0;
      var d := Step(Step(SLACK.Contents(), StoreOp(5, Sv(3))).0, FillOp(8)).0;
      && a.Valid() && Clean(SLACK) && Plain(b.v, FillOp(8))
      && |z.v.Contents()| == |d| == 9 && z.v.Contents()[8] == Undef && d[8] == Null
  {
    hide Stored;
    hide StoreAt;
    hide FilledTo;
    var a := Arr(SLACK, false, multiset{Sv(1), Sv(2)}, multiset{}, 0, 0);
    assert SLACK.Contents() == [Sv(1), Sv(2)];
    assert Refs([Sv(1), Sv(2)]) == multiset{Sv(1), Sv(2)};
    hide Refs;
    SlackGrowth(Referenced(a, Sv(3)), g);
    var b := Stored(Referenced(a, Sv(3)), 5, Sv(3), g);
    assert Raised(b.v, 8).Contents()[8] == b.v.buf[8];
  }

  // ---------------------------------------------------------------------------------------------
  // Cost
  // ---------------------------------------------------------------------------------------------

  /** Pushing all of xs. */
  function Pushes(a: Arr, xs: seq<Slot>, gs: nat -> Junk): (b: Arr)
    requires a.v.Shape()
    ensures b.v.Shape()
  {
    if xs == [] then a
    else
      var b := Pushes(a, xs[..|xs| - 1], gs);
      Stored(b, b.v.fill + 1, xs[|xs| - 1], gs(|xs|))
  }

  /** n times av_unshift(av, 1). */
  function Unshifts(a: Arr, n: nat, gs: nat -> Junk): (b: Arr)
    requires a.v.Shape()
    ensures b.v.Shape()
  {
    if n == 0 then a else Unshift(Unshifts(a, n - 1, gs), 1, gs(n))
  }

  predicate Empty(a: Arr) {
    a.v == Store([], 0, -1, -1, true) && !a.reify && a.copied == 0 && a.slid == 0
  }

  /** Growth by a fifth pays for itself. */
  lemma GrowthPays(max: int)
    requires max >= 0
    ensures 6 * (max + 1) <= 5 * (max + 1 + max / 5 + 1)
  {
  }

  /** n pushes onto an empty array copy at most 6n elements by reallocation, and never more than
      five times the room there now is. */
  lemma {:induction false} PushesCost(a: Arr, xs: seq<Slot>, gs: nat -> Junk)
    requires Empty(a)
    ensures var b := Pushes(a, xs, gs);
      && b.v.off == 0 && b.v.fill == |xs| - 1 && !b.reify
      && b.copied <= 5 * (b.v.max + 1) && b.copied <= 6 * |xs|
  {
    hide Stored;
    if xs != [] {
      var b := Pushes(a, xs[..|xs| - 1], gs);
      PushesCost(a, xs[..|xs| - 1], gs);
      StoredRoom(b, b.v.fill + 1, xs[|xs| - 1], gs(|xs|));
      if b.v.max >= 0 {
        GrowthPays(b.v.max);
      }
    }
  }

  /** n single unshifts onto an empty array slide at most 2n elements. */
  lemma {:induction false} UnshiftsCost(a: Arr, n: nat, gs: nat -> Junk)
    requires Empty(a)
    ensures var b := Unshifts(a, n, gs);
      && !b.reify && b.v.fill == n - 1
      && b.slid <= n + b.v.off <= 2 * n
  {
    hide Unshift;
    if n > 0 {
      UnshiftsCost(a, n - 1, gs);
      UnshiftRoom(Unshifts(a, n - 1, gs), gs(n));
    }
  }

  /** A queue at work: for each of xs, take the first element and push that one. */
  function Queue(a: Arr, xs: seq<Slot>, gs: nat -> Junk): (b: Arr)
    requires a.v.Shape()
    ensures b.v.Shape()
  {
    if xs == [] then a
    else
      var b := Exec(Queue(a, xs[..|xs| - 1], gs), ShiftOp, gs(0)).0;
      Exec(b, PushOp(xs[|xs| - 1]), gs(|xs|)).0
  }

  /** One turn: the window moves up by one slot while there is one, and is slid back otherwise. */
  lemma QueueTurn(a: Arr, x: Slot, f: Junk, g: Junk, m: nat, room: nat)
    requires a.v.Shape() && !a.reify && a.v.fill == m - 1 >= 0 && a.v.max + a.v.off == m - 1 + room
    requires room >= 10
    ensures var z := Exec(Exec(a, ShiftOp, f).0, PushOp(x), g).0;
      && !z.reify && z.v.fill == m - 1 && z.v.max + z.v.off == m - 1 + room && z.copied == a.copied
      && (if a.v.off < room then z.v.off == a.v.off + 1 && z.slid == a.slid
          else z.v.off == 0 && z.slid == a.slid + (m - 1))
  {
    hide Stored;
    var b := Referenced(Shift(a).0, x);
    StoredRoom(b, m - 1, x, g);
  }

  /** Exactly what a queue of m elements costs in a buffer with at least ten slots to spare: after
      every room + 1 turns all elements but the one just taken are slid to the front, and nothing is
      ever reallocated. */
  lemma {:induction false} QueueCost(a: Arr, xs: seq<Slot>, gs: nat -> Junk, m: nat, room: nat)
    requires a.v.Shape() && !a.reify && a.v.off == 0 && a.v.fill == m - 1 >= 0
    requires a.v.max == m - 1 + room && room >= 10
    ensures var z := Queue(a, xs, gs);
      && !z.reify && z.v.fill == m - 1 && z.v.max + z.v.off == m - 1 + room
      && z.v.off == |xs| % (room + 1)
      && z.copied == a.copied && z.slid == a.slid + |xs| / (room + 1) * (m - 1)
  {
    hide Exec;
    if xs != [] {
      var n := |xs| - 1;
      QueueCost(a, xs[..n], gs, m, room);
      QueueTurn(Queue(a, xs[..n], gs), xs[n], gs(0), gs(|xs|), m, room);
      NextTurn(n, room + 1, m - 1);
    }
  }

  lemma NextTurn(n: nat, d: nat, each: nat)
    requires d > 0
    ensures if n % d < d - 1 then (n + 1) % d == n % d + 1 && (n + 1) / d == n / d
            else (n + 1) % d == 0 && (n + 1) / d * each == n / d * each + each
  {
    var q, r := n / d, n % d;
    assert n == q * d + r;
    if r < d - 1 {
      Quotient(n + 1, d, q, r + 1);
    } else {
      assert (q + 1) * d == q * d + d;
      Quotient(n + 1, d, q + 1, 0);
      assert (q + 1) * each == q * each + each;
    }
  }

  lemma Quotient(n: nat, d: nat, q: nat, r: nat)
    requires r < d && n == q * d + r
    ensures n / d == q && n % d == r
  {
    var p := n / d;
    assert n == p * d + n % d;
    Apart(d, p, q);
    Apart(d, q, p);
  }

  lemma Apart(d: nat, p: nat, q: nat)
    ensures p < q ==> p * d + d <= q * d
  {
    if p < q {
      var k := q - p - 1;
      assert q * d == p * d + d + k * d;
    }
  }

  lemma FilledRoom(a: Arr, m: nat, g: Junk, h: Junk)
    requires Empty(a) && m > 0
    ensures var b := Exec(Exec(a, FillOp(m + 9), g).0, FillOp(m - 1), h).0;
      !b.reify && b.v.off == 0 && b.v.fill == m - 1 && b.v.max == m + 9
  {
    hide Stored;
    hide Refs;
    StoredRoom(a, m + 9, Null, g);
  }

  /** Unlike pushes alone, a queue has no constant cost: whatever c is, two fills on an empty array make
      a queue that slides more than c elements per operation, however long it runs. */
  lemma QueuesHaveNoConstantCost(a: Arr, c: nat, xs: seq<Slot>, gs: nat -> Junk, k: nat)
    requires Empty(a) && k > 0 && |xs| == 11 * k
    ensures var b := Exec(Exec(a, FillOp(22 * c + 11), gs(0)).0, FillOp(22 * c + 1), gs(1)).0;
      var z := Queue(b, xs, gs);
      |b.v.Contents()| == |z.v.Contents()| == 22 * c + 2 && z.slid - b.slid > c * (2 * |xs|)
  {
    hide Exec;
    hide Queue;
    hide Store.Contents;
    var m := 22 * c + 2;
    FilledRoom(a, m, gs(0), gs(1));
    var b := Exec(Exec(a, FillOp(m + 9), gs(0)).0, FillOp(m - 1), gs(1)).0;
    QueueCost(b, xs, gs, m, 10);
    Rounds(c, k);
    assert |xs| / 11 == k;
  }

  lemma Rounds(c: nat, k: nat)
    ensures k * (22 * c + 1) == c * (22 * k) + k
  {
  }

  /** Push, pop and shift, in any order. */
  predicate IsQueueOp(op: Op) {
    op.PushOp? || op.PopOp? || op.ShiftOp?
  }

  function ShiftsIn(ops: seq<Op>): nat {
    if ops == [] then 0 else (if ops[0].ShiftOp? then 1 else 0) + ShiftsIn(ops[1..])
  }

  /** A slide only happens after a shift, and takes back all the slots that shifts have freed. */
  lemma QueueMoves(a: Arr, op: Op, g: Junk)
    requires a.v.Shape() && !a.reify && IsQueueOp(op)
    ensures var b := Exec(a, op, g).0;
      && !b.reify
      && (|| (b.slid == a.slid && b.v.off <= a.v.off + if op.ShiftOp? then 1 else 0)
          || (b.slid == a.slid + a.v.fill + 1 && b.v.off == 0 < a.v.off))
  {
    hide Stored;
    if op.PushOp? {
      StoredRoom(Referenced(a, op.x), a.v.fill + 1, op.x, g);
    }
  }

  lemma QueueStep(a: Arr, op: Op, g: Junk, most: nat)
    requires a.v.Shape() && !a.reify && a.v.fill < most && IsQueueOp(op)
    ensures var b := Exec(a, op, g).0;
      !b.reify && b.slid + most * b.v.off <= a.slid + most * (a.v.off + if op.ShiftOp? then 1 else 0)
  {
    hide Exec;
    hide IsQueueOp;
    hide Store.Shape;
    QueueMoves(a, op, g);
    var b := Exec(a, op, g).0;
    QueuePays(most, a.v.fill, a.slid, b.slid, a.v.off, b.v.off, if op.ShiftOp? then 1 else 0);
  }

  lemma QueuePays(most: nat, fill: int, slid: nat, slid': nat, off: nat, off': nat, shift: nat)
    requires fill < most
    requires (slid' == slid && off' <= off + shift) || (slid' == slid + fill + 1 && off' == 0 < off)
    ensures slid' + most * off' <= slid + most * (off + shift)
  {
    if slid' == slid {
      Monotone(most, off', off + shift);
    } else {
      Monotone(most, 1, off + shift);
    }
  }

  lemma Monotone(m: nat, x: nat, y: nat)
    requires x <= y
    ensures m * x <= m * y
  {
  }

  predicate AtMost(a: Arr, ops: seq<Op>, gs: seq<Junk>, most: nat)
    requires a.v.Shape() && |gs| == |ops|
    decreases |ops|
  {
    a.v.fill < most && (ops != [] ==> AtMost(Exec(a, ops[0], gs[0]).0, ops[1..], gs[1..], most))
  }

  /** No run of pushes, pops and shifts on at most `most` elements slides more than that many per shift,
      counting the shifts that led to the slack there was before. */
  lemma {:induction false} ShiftsPay(a: Arr, ops: seq<Op>, gs: seq<Junk>, most: nat)
    requires a.v.Shape() && !a.reify && |gs| == |ops| && AtMost(a, ops, gs, most)
    requires forall op <- ops :: IsQueueOp(op)
    ensures var z := Run(a, ops, gs).0;
      z.slid + most * z.v.off <= a.slid + most * (a.v.off + ShiftsIn(ops))
    decreases |ops|
  {
    hide Exec;
    hide IsQueueOp;
    if ops != [] {
      QueueStep(a, ops[0], gs[0], most);
      ShiftsPay(Exec(a, ops[0], gs[0]).0, ops[1..], gs[1..], most);
      Distribute(most, Exec(a, ops[0], gs[0]).0.v.off, ShiftsIn(ops[1..]));
      Distribute(most, a.v.off + (if ops[0].ShiftOp? then 1 else 0), ShiftsIn(ops[1..]));
    }
  }

  lemma Distribute(m: nat, x: nat, y: nat)
    ensures m * (x + y) == m * x + m * y
  {
  }

  // ---------------------------------------------------------------------------------------------
  // There are such runs
  // ---------------------------------------------------------------------------------------------

  /** A fresh array and any pushes of undef meet what the theorems about runs ask for. */
  lemma {:induction false} PushRunsAreSafe(a: Arr, ops: seq<Op>, gs: seq<Junk>)
    requires a.Valid() && a.v.isReal && a.v.TailNull() && |gs| == |ops|
    requires forall i :: 0 <= i < |ops| ==> ops[i] == PushOp(Undef)
    ensures RunsSafely(a, ops, gs) && RunsPlainly(a, ops, gs) && RunsTamely(a, ops, gs)
    ensures forall op <- ops :: !op.LeaveSubOp?
    decreases |ops|
  {
    hide Exec;
    hide Owned;
    hide Store.FrontNull;
    hide Agrees;
    hide Step;
    if ops != [] {
      var (b, r) := Exec(a, ops[0], gs[0]);
      StepCorrect(a, ops[0], gs[0]);
      AgreesMeans(a, ops[0], b, r);
      PushRunsAreSafe(b, ops[1..], gs[1..]);
      assert ops == [ops[0]] + ops[1..];
    }
  }

  lemma FreshArrayRuns()
    ensures var a := Arr(Store([], 0, -1, -1, true), false, multiset{}, multiset{}, 0, 0);
      a.Valid() && a.Realish() && a.v.TailNull() && RunsSafely(a, [PushOp(Undef)], [_ => Null])
      && RunsPlainly(a, [PushOp(Undef)], [_ => Null]) && !PushOp(Undef).LeaveSubOp?
  {
    var a := Arr(Store([], 0, -1, -1, true), false, multiset{}, multiset{}, 0, 0);
    assert a.v.Contents() == [];
    RefsNone();
    PushRunsAreSafe(a, [PushOp(Undef)], [_ => Null]);
  }
}
