/**
  What array operations mean to Perl code, index by index: the laws of plain sequences that every run
  of operations in AvRuns agrees with.
 */
module AvLaws {
  import opened AvSpec
  import opened AvRuns

  /** What an operation makes of the sequence c. */
  function After(c: seq<Slot>, op: Op): seq<Slot> {
    Step(c, op).0
  }

  /** What it returns. */
  function Returned(c: seq<Slot>, op: Op): Slot {
    Step(c, op).1
  }

  /** $c[$key]: from the start, or back from the end, or no element at all; nothing is changed. */
  lemma FetchLaw(c: seq<Slot>, key: int)
    ensures After(c, FetchOp(key)) == c
    ensures 0 <= key < |c| ==> Returned(c, FetchOp(key)) == c[key]
    ensures -|c| <= key < 0 ==> Returned(c, FetchOp(key)) == c[|c| + key]
    ensures key < -|c| || key >= |c| ==> Returned(c, FetchOp(key)) == Null
  {
  }

  /** $c[$key] = x for a key from the start: one element changes, and a gap is filled with nulls. */
  lemma StoreLaw(c: seq<Slot>, key: nat, x: Slot)
    ensures var d := After(c, StoreOp(key, x));
      && |d| == (if key < |c| then |c| else key + 1) && d[key] == x
      && (forall i :: 0 <= i < |c| && i != key ==> d[i] == c[i])
      && (forall i :: |c| <= i < key ==> d[i] == Null)
  {
  }

  /** ... and for one back from the end. */
  lemma StoreBackLaw(c: seq<Slot>, key: int, x: Slot)
    requires key < 0
    ensures key >= -|c| ==> After(c, StoreOp(key, x)) == c[|c| + key := x]
    ensures key < -|c| ==> After(c, StoreOp(key, x)) == c
    ensures key == -1 && c != [] ==> After(c, StoreOp(key, x)) == c[..|c| - 1] + [x]
  {
  }

  /** What was stored under a key is what is then found under it, and under its other name; every other
      key finds what it found, however the two are written. */
  lemma StoreThenFetch(c: seq<Slot>, key: int, x: Slot, other: int)
    requires key >= -|c|
    ensures var d := After(c, StoreOp(key, x));
      && Returned(d, FetchOp(key)) == x
      && (key >= 0 ==> Returned(d, FetchOp(key - |d|)) == x)
      && (0 <= other < |c| && other != key && other != |c| + key ==>
            Returned(d, FetchOp(other)) == Returned(c, FetchOp(other)))
  {
  }

  /** delete $c[$key]: nothing for a key out of range; an element in the middle becomes null; with the
      last one go the nulls before it. */
  lemma DeleteLaw(c: seq<Slot>, key: nat, discard: bool)
    ensures var d, x := After(c, DeleteOp(key, discard)), Returned(c, DeleteOp(key, discard));
      && x == (if discard || key >= |c| then Null else c[key])
      && (key >= |c| ==> d == c)
      && (key + 1 < |c| ==> d == c[..key] + [Null] + c[key + 1..])
      && (key + 1 == |c| ==>
            && |d| <= key && d == c[..|d|]
            && (d != [] ==> d[|d| - 1] != Null)
            && (forall i :: |d| <= i < key ==> c[i] == Null))
  {
  }

  lemma DeleteBackLaw(c: seq<Slot>, key: int, discard: bool)
    requires key < 0
    ensures key >= -|c| ==> Step(c, DeleteOp(key, discard)) == Step(c, DeleteOp(|c| + key, discard))
    ensures key < -|c| ==> Step(c, DeleteOp(key, discard)) == (c, Null)
  {
  }

  /** $#c = n: exactly n + 1 elements, those there were and then nulls. */
  lemma FillLaw(c: seq<Slot>, f: int)
    ensures var d, n := After(c, FillOp(f)), if f < 0 then 0 else f + 1;
      && |d| == n
      && (forall i :: 0 <= i < n && i < |c| ==> d[i] == c[i])
      && (forall i :: |c| <= i < n ==> d[i] == Null)
  {
  }

  /** What was pushed is the element at -1, and pop takes it away again; an empty slot comes out as
      undef. */
  lemma PushPop(c: seq<Slot>, x: Slot)
    ensures var d := After(c, PushOp(x));
      && Returned(d, FetchOp(-1)) == x
      && After(d, PopOp) == c && Returned(d, PopOp) == (if x == Null then Undef else x)
      && forall i :: 0 <= i < |c| ==> d[i] == c[i]
  {
  }

  /** What is stored into the room made by unshift is what shift then finds. */
  lemma UnshiftStoreShift(c: seq<Slot>, x: Slot)
    ensures var d := After(After(c, UnshiftOp(1)), StoreOp(0, x));
      && d == [x] + c
      && After(d, ShiftOp) == c && Returned(d, ShiftOp) == (if x == Null then Undef else x)
  {
  }

  lemma UnshiftLaw(c: seq<Slot>, num: int, i: nat)
    ensures var d, n := After(c, UnshiftOp(num)), if num < 0 then 0 else num;
      && |d| == n + |c|
      && (i < n ==> d[i] == Null)
      && (i < |c| ==> d[n + i] == c[i])
  {
  }

  /** Elements pushed one by one and shifted off again come out in order. */
  function PushAll(xs: seq<Slot>): seq<Op> {
    seq(|xs|, i requires 0 <= i < |xs| => PushOp(xs[i]))
  }

  function ShiftAll(n: nat): seq<Op> {
    seq(n, _ => ShiftOp)
  }

  lemma {:induction false} PushesAppend(c: seq<Slot>, xs: seq<Slot>)
    ensures StepAll(c, PushAll(xs)).0 == c + xs
    decreases |xs|
  {
    if xs == [] {
      assert PushAll(xs) == [];
    } else {
      assert PushAll(xs)[1..] == PushAll(xs[1..]);
      PushesAppend(c + [xs[0]], xs[1..]);
      assert c + [xs[0]] + xs[1..] == c + xs;
    }
  }

  lemma {:induction false} ShiftsReturn(c: seq<Slot>)
    requires forall x <- c :: x != Null
    ensures StepAll(c, ShiftAll(|c|)) == ([], c)
  {
    if c == [] {
      assert ShiftAll(0) == [];
    } else {
      assert ShiftAll(|c|)[1..] == ShiftAll(|c| - 1);
      assert c[0] in c && forall x <- c[1..] :: x in c;
      ShiftsReturn(c[1..]);
      assert [c[0]] + c[1..] == c;
    }
  }

  /** First in, first out: xs pushed onto an empty array come off its front in their order. */
  lemma QueueKeepsOrder(xs: seq<Slot>)
    requires forall x <- xs :: x != Null
    ensures StepAll([], PushAll(xs)).0 == xs
    ensures StepAll(StepAll([], PushAll(xs)).0, ShiftAll(|xs|)) == ([], xs)
  {
    PushesAppend([], xs);
    assert [] + xs == xs;
    ShiftsReturn(xs);
  }

  /** How far growth goes: four slots at first; a fifth more for a full array; for a shifted one nothing
      beyond its buffer if ten slots or more of that stay free, and else as much again as it had. */
  lemma GrowthExamples(junk: Slot)
    ensures NewMax(Store([], 0, -1, -1, true), 0) == 3 && NewMax(Store([], 0, -1, -1, true), 7) == 7
    ensures NewMax(Store(seq(100, _ => junk), 0, 99, 99, true), 100) == 119
    ensures NewMax(Store(seq(40, _ => junk), 20, 9, 19, true), 20) == 39
    ensures NewMax(Store(seq(40, _ => junk), 20, 9, 19, true), 29) == 39
    ensures NewMax(Store(seq(40, _ => junk), 20, 9, 19, true), 30) == 69
  {
  }
}
