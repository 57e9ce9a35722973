/**
  What Class->new(name => value, ...) does, from the flat list of arguments to the values of the fields:
  which values a parameter hash holds, what every field gets, which error a failure is, and in which
  order the ADJUST blocks run.
 */
module ClassNew {
  import opened ClassSpec
  import opened ClassLaws

  // ---------------------------------------------------------------------------------------------
  // A list as a hash
  // ---------------------------------------------------------------------------------------------

  /** The value that goes with the key at list[2 * i]. */
  function Follower(list: seq<Val>, i: nat): Val {
    if 2 * i + 1 < |list| then list[2 * i + 1] else Undef
  }

  lemma {:induction false} FirstPairsHold(list: seq<Val>, k: nat, i: nat)
    requires 2 * k <= |list| + 1 && i < k
    requires forall j :: i < j < k ==> Key(list[2 * j]) != Key(list[2 * i])
    ensures Key(list[2 * i]) in FirstPairs(list, k)
    ensures FirstPairs(list, k)[Key(list[2 * i])] == Follower(list, i)
  {
    if i < k - 1 {
      FirstPairsHold(list, k - 1, i);
      assert Key(list[2 * (k - 1)]) != Key(list[2 * i]);
    }
  }

  /** No later pair has the key of pair i. */
  ghost predicate LastOfKey(list: seq<Val>, i: nat)
    requires 2 * i < |list|
  {
    forall j :: i < j && 2 * j < |list| ==> Key(list[2 * j]) != Key(list[2 * i])
  }

  /** A key holds the value that follows its last occurrence, or undef if the list ends there. */
  lemma HashHolds(list: seq<Val>, i: nat)
    requires 2 * i < |list| && LastOfKey(list, i)
    ensures Key(list[2 * i]) in HashOf(list) && HashOf(list)[Key(list[2 * i])] == Follower(list, i)
  {
    FirstPairsHold(list, (|list| + 1) / 2, i);
  }

  /** The keys are what stands at even positions. */
  function EvenKeys(list: seq<Val>): set<string> {
    set i | 0 <= i < (|list| + 1) / 2 :: Key(list[2 * i])
  }

  lemma {:induction false} KeysAreEven(list: seq<Val>, k: nat)
    requires 2 * k <= |list| + 1
    ensures FirstPairs(list, k).Keys == set i | 0 <= i < k :: Key(list[2 * i])
  {
    if k > 0 {
      KeysAreEven(list, k - 1);
      assert (set i | 0 <= i < k :: Key(list[2 * i]))
             == (set i | 0 <= i < k - 1 :: Key(list[2 * i])) + {Key(list[2 * (k - 1)])};
    }
  }

  lemma HashKeys(list: seq<Val>)
    ensures HashOf(list).Keys == EvenKeys(list)
  {
    KeysAreEven(list, (|list| + 1) / 2);
  }

  // ---------------------------------------------------------------------------------------------
  // What a field gets
  // ---------------------------------------------------------------------------------------------

  /** args are the values of the fields that e looks up in the pad. */
  ghost predicate ArgsOf(c: Class, e: Expr, vals: seq<Val>, args: seq<Val>) {
    && |args| == |e.uses|
    && forall k :: 0 <= k < |e.uses| ==>
         && e.uses[k] < |c.pad| && c.pad[e.uses[k]].Some? && c.pad[e.uses[k]].value < |vals|
         && args[k] == vals[c.pad[e.uses[k]].value]
  }

  /** What field f is to hold: the supplied value, unless it is undef and the default is given by `//=`, or
      undef, "" or "0" and it is given by `||=`; otherwise the default, and undef with none. */
  predicate Holds(f: Field, v: Val, args: seq<Val>, params: Params) {
    match f.sigil
    case Array => v == Arr(if f.defop.Some? then f.defop.value.list(args) else [])
    case Hash => v == Hsh(if f.defop.Some? then HashOf(f.defop.value.list(args)) else map[])
    case Scalar =>
      if f.param.Some? && f.param.value in params
         && !(f.mode.IfUndef? && params[f.param.value] == Undef)
         && !(f.mode.IfFalse? && params[f.param.value] in {Undef, Str(""), Str("0")})
      then v == params[f.param.value]
      else v == if f.defop.Some? then f.defop.value.scalar(args) else Undef
  }

  /** Every own field of a class that initialises holds what its declaration says, its expression seeing the
      values that the fields it names end up with. */
  lemma {:induction false} FieldGets(c: Class, n: nat, i: nat, params: Params, args: seq<Val>)
    requires Wf(c) && i < n <= |c.fields| && InitUpTo(c, n, params).Ok?
    requires var e := c.fields[i].defop;
      if e.Some? then ArgsOf(c, e.value, InitUpTo(c, n, params).value.0, args) else args == []
    ensures Holds(c.fields[i], InitUpTo(c, n, params).value.0[Base(c) + i], args, params)
    decreases n
  {
    assert FieldOk(c, i);
    if i < n - 1 {
      var before, after := InitUpTo(c, n - 1, params).value.0, InitUpTo(c, n, params).value.0;
      assert before == after[..|before|];
      if c.fields[i].defop.Some? {
        EarlierArgs(c, c.fields[i].defop.value, i, before, after, args);
      }
      FieldGets(c, n - 1, i, params, args);
    } else {
      LastFieldGets(c, i, params, args);
    }
  }

  lemma EarlierArgs(c: Class, e: Expr, i: nat, before: seq<Val>, after: seq<Val>, args: seq<Val>)
    requires before <= after && Base(c) + i <= |before| && ArgsOf(c, e, after, args)
    requires forall p <- e.uses :: InPad(c, i, p)
    ensures ArgsOf(c, e, before, args)
  {
    forall k | 0 <= k < |e.uses| ensures c.pad[e.uses[k]].value < |before| {
      assert e.uses[k] in e.uses;
    }
  }

  lemma LastFieldGets(c: Class, i: nat, params: Params, args: seq<Val>)
    requires Wf(c) && i < |c.fields| && InitUpTo(c, i + 1, params).Ok?
    requires var e := c.fields[i].defop;
      if e.Some? then ArgsOf(c, e.value, InitUpTo(c, i + 1, params).value.0, args) else args == []
    ensures Holds(c.fields[i], InitUpTo(c, i + 1, params).value.0[Base(c) + i], args, params)
  {
    var r, f := InitUpTo(c, i, params), c.fields[i];
    var vals, rest := r.value.0, r.value.1;
    assert FieldOk(c, i);
    InitSucceeds(c, i, params);
    assert vals <= InitUpTo(c, i + 1, params).value.0;
    if f.defop.Some? {
      EarlierArgs(c, f.defop.value, i, vals, InitUpTo(c, i + 1, params).value.0, args);
      ArgsAreUnique(c, f.defop.value, vals, args);
    }
    assert f.param.Some? ==> (f.param.value in rest <==> f.param.value in params);
    hide Used;
    hide Wf;
    hide ArgsOf;
    hide HashOf;
    hide ParamsUpTo;
  }

  lemma ArgsAreUnique(c: Class, e: Expr, vals: seq<Val>, args: seq<Val>)
    requires ArgsOf(c, e, vals, args)
    ensures Used(c, e, vals) == args
  {
  }

  // ---------------------------------------------------------------------------------------------
  // Errors
  // ---------------------------------------------------------------------------------------------

  /** Slot ix is that of a parameter with no default that was not supplied. */
  predicate Lacks(c: Class, ix: nat, params: Params)
    requires ix < Slots(c)
  {
    var f := FieldAt(c, ix);
    f.param.Some? && f.defop.None? && f.param.value !in params
  }

  /** Initialisation dies of the first parameter, in order of slots, that is required and not there. */
  lemma {:induction false} FirstMissing(c: Class, n: nat, params: Params)
    requires Wf(c) && n <= |c.fields| && InitUpTo(c, n, params).Err?
    ensures exists ix: nat ::
      && ix < Base(c) + n && Lacks(c, ix, params)
      && InitUpTo(c, n, params) == Err(Missing(FieldAt(c, ix).param.value))
      && forall j: nat :: j < ix ==> !Lacks(c, j, params)
    decreases c, n
  {
    if n == 0 {
      var s := c.super.value;
      FirstMissing(s, |s.fields|, params);
      var ix: nat :| ix < Slots(s) && Lacks(s, ix, params)
        && Init(s, params) == Err(Missing(FieldAt(s, ix).param.value))
        && forall j: nat :: j < ix ==> !Lacks(s, j, params);
      assert forall j: nat :: j <= ix ==> Lacks(c, j, params) == Lacks(s, j, params);
    } else if InitUpTo(c, n - 1, params).Err? {
      FirstMissing(c, n - 1, params);
    } else {
      LastMissing(c, n - 1, params);
    }
  }

  lemma LastMissing(c: Class, i: nat, params: Params)
    requires Wf(c) && i < |c.fields| && InitUpTo(c, i, params).Ok? && InitUpTo(c, i + 1, params).Err?
    ensures Lacks(c, Base(c) + i, params)
    ensures InitUpTo(c, i + 1, params) == Err(Missing(FieldAt(c, Base(c) + i).param.value))
    ensures forall j: nat :: j < Base(c) + i ==> !Lacks(c, j, params)
  {
    assert FieldOk(c, i);
    InitSucceeds(c, i, params);
    OneField(c, i, InitUpTo(c, i, params).value.0, params);
    forall j: nat | j < Base(c) + i ensures !Lacks(c, j, params) {
      RequiredHas(c, i, j);
    }
    hide Used;
    hide HashOf;
    hide Wf;
    hide RequiredUpTo;
  }

  lemma {:induction false} RequiredHas(c: Class, n: nat, ix: nat)
    requires n <= |c.fields| && ix < Base(c) + n
    ensures var f := FieldAt(c, ix);
      f.param.Some? && f.defop.None? ==> f.param.value in RequiredUpTo(c, n)
    decreases c, n
  {
    if n == 0 {
      RequiredHas(c.super.value, |c.super.value.fields|, ix);
    } else if ix < Base(c) + n - 1 {
      RequiredHas(c, n - 1, ix);
    }
  }

  /** Construction complains of unknown names exactly if nothing is missing and there are any, and then of
      all of them; whatever else it dies of is a missing parameter. */
  lemma ConstructFails(c: Class, params: Params)
    requires Wf(c) && Construct(c, params).Err?
    ensures Required(c) <= params.Keys ==>
      Construct(c, params) == Err(Unrecognised(params.Keys - ParamMap(c).Keys))
    ensures !(Required(c) <= params.Keys) ==>
      exists p <- Required(c) :: p !in params && Construct(c, params) == Err(Missing(p))
  {
    InitSucceeds(c, |c.fields|, params);
    if Init(c, params).Err? {
      FirstMissing(c, |c.fields|, params);
      var ix: nat :| ix < Slots(c) && Lacks(c, ix, params)
        && Init(c, params) == Err(Missing(FieldAt(c, ix).param.value));
      assert Slots(c) == Base(c) + |c.fields|;
      RequiredHas(c, |c.fields|, ix);
    }
  }

  // ---------------------------------------------------------------------------------------------
  // ADJUST blocks
  // ---------------------------------------------------------------------------------------------

  lemma {:induction false} AdjustedInOrder(first: seq<Adjust>, later: seq<Adjust>, vals: seq<Val>)
    ensures Adjusted(first + later, vals) == Adjusted(later, Adjusted(first, vals))
  {
    if later == [] {
      assert first + later == first;
    } else {
      var n := |later| - 1;
      assert (first + later)[..|first + later| - 1] == first + later[..n];
      AdjustedInOrder(first, later[..n], vals);
    }
  }

  /** The blocks of the superclass have run before those of the class, the last of which runs last. */
  lemma AdjustOrder(c: Class, vals: seq<Val>)
    ensures c.super.Some? ==>
      Adjusted(Adjusts(c), vals) == Adjusted(c.adjust, Adjusted(Adjusts(c.super.value), vals))
    ensures c.adjust != [] ==>
      var n := |c.adjust| - 1;
      var before := Adjusted(Adjusts(c.(adjust := c.adjust[..n])), vals);
      && Adjusted(Adjusts(c), vals) == c.adjust[n].Apply(before)
      && forall i :: 0 <= i < |vals| ==> Adjusted(Adjusts(c), vals)[i] == c.adjust[n].change(i, before)
  {
    if c.super.Some? {
      AdjustedInOrder(Adjusts(c.super.value), c.adjust, vals);
    }
    if c.adjust != [] {
      var n := |c.adjust| - 1;
      var less := c.(adjust := c.adjust[..n]);
      LastAdjust(c);
      AdjustedInOrder(Adjusts(less), [c.adjust[n]], vals);
      OneAdjust(c.adjust[n], Adjusted(Adjusts(less), vals));
    }
    hide Adjusts;
    hide Adjusted;
  }

  lemma LastAdjust(c: Class)
    requires c.adjust != []
    ensures var n := |c.adjust| - 1; Adjusts(c) == Adjusts(c.(adjust := c.adjust[..n])) + [c.adjust[n]]
  {
  }

  lemma OneAdjust(block: Adjust, vals: seq<Val>)
    ensures Adjusted([block], vals) == block.Apply(vals)
  {
    assert [block][..0] == [];
  }

  // ---------------------------------------------------------------------------------------------
  // From the list
  // ---------------------------------------------------------------------------------------------

  /** Class->new(list) yields an object if and only if every parameter without a default, and nothing that
      is no parameter, stands at an even position of the list. */
  lemma NewSucceeds(c: Class, list: seq<Val>)
    requires Wf(c)
    ensures Construct(c, HashOf(list)).Ok? <==> Required(c) <= EvenKeys(list) <= ParamMap(c).Keys
  {
    HashKeys(list);
    ConstructSucceeds(c, HashOf(list));
  }

  /** The value after the last occurrence of a parameter's name ends up in its field, whichever class of the
      chain has it, unless the field is one to prefer its default to such a value. */
  lemma ListedArrives(c: Class, list: seq<Val>, ix: nat, i: nat)
    requires Wf(c) && ix < Slots(c) && 2 * i < |list| && Init(c, HashOf(list)).Ok?
    requires FieldAt(c, ix).param == Some(Key(list[2 * i]))
    requires LastOfKey(list, i)
    requires FieldAt(c, ix).mode == IfMissing || Follower(list, i) !in {Undef, Str(""), Str("0")}
    ensures Init(c, HashOf(list)).value.0[ix] == Follower(list, i)
  {
    HashHolds(list, i);
    SuppliedArrives(c, |c.fields|, ix, HashOf(list));
  }

  /** class { field $x :param = one; } */
  function ClassX(one: Expr): Class {
    Class(None, [Field(Scalar, "$x", Some("x"), Some(one), IfMissing)], [None, None, None], [])
  }

  lemma ConstructX(one: Expr, params: Params)
    requires one.uses == []
    ensures var rest := params - {"x"};
      Construct(ClassX(one), params) ==
        if rest != map[] then Err(Unrecognised(rest.Keys))
        else Ok([if "x" in params then params["x"] else one.scalar([])])
  {
    var c := ClassX(one);
    assert Used(c, one, []) == [];
    assert InitUpTo(c, 0, params) == Ok(([], params));
    assert InitUpTo(c, 1, params) == Init(c, params);
    assert Adjusts(c) == [];
    if "x" in params {
      assert InitOne(c, 0, [], params) == Ok((params["x"], params - {"x"}));
      assert [] + [params["x"]] == [params["x"]];
    } else {
      assert InitOne(c, 0, [], params) == Ok((one.scalar([]), params - {"x"}));
      assert [] + [one.scalar([])] == [one.scalar([])];
    }
  }

  /** For instance, with field $x :param = one, Class->new(x => "5") has "5" in it. */
  lemma NewX(one: Expr)
    requires one.uses == []
    ensures Construct(ClassX(one), HashOf([Str("x"), Str("5")])) == Ok([Str("5")])
    ensures Construct(ClassX(one), HashOf([])) == Ok([one.scalar([])])
    ensures Construct(ClassX(one), HashOf([Str("y"), Str("5")])) == Err(Unrecognised({"y"}))
  {
    assert FirstPairs([Str("x"), Str("5")], 0) == FirstPairs([Str("y"), Str("5")], 0) == map[];
    assert HashOf([Str("x"), Str("5")]) == map["x" := Str("5")];
    assert HashOf([Str("y"), Str("5")]) == map["y" := Str("5")];
    assert HashOf([]) == map[];
    hide HashOf;
    hide Construct;
    ConstructX(one, map["x" := Str("5")]);
    ConstructX(one, map["y" := Str("5")]);
    ConstructX(one, map[]);
    assert map["x" := Str("5")] - {"x"} == map[];
    assert "y" in map["y" := Str("5")] - {"x"} && (map["y" := Str("5")] - {"x"}).Keys == {"y"};
  }
}
