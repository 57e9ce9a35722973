/** The op lists of class.c do what the declarations say, on instances of the class and of subclasses. */
module ClassLaws {
  import opened ClassSpec

  // ---------------------------------------------------------------------------------------------
  // Every slot is written exactly once, superclass first
  // ---------------------------------------------------------------------------------------------

  /** The slots an op list writes, in order, calls included. */
  function Writes(code: seq<Op>): seq<nat> {
    if code == [] then [] else Writes(code[..|code| - 1]) + WritesOf(code[|code| - 1])
  }

  function WritesOf(op: Op): seq<nat> {
    match op
    case MethStart => []
    case CallSuper(code) => Writes(code)
    case InitField(fieldix, _, _, _) => [fieldix]
  }

  function UpTo(n: nat): (s: seq<nat>)
    ensures |s| == n && forall i :: 0 <= i < n ==> s[i] == i
  {
    seq(n, i requires 0 <= i < n => i)
  }

  lemma WritesSnoc(code: seq<Op>, op: Op)
    ensures Writes(code + [op]) == Writes(code) + WritesOf(op)
  {
    assert (code + [op])[..|code + [op]| - 1] == code;
  }

  lemma WritesOfSuper(code: seq<Op>)
    ensures Writes([MethStart]) == [] && Writes([MethStart] + [CallSuper(code)]) == Writes(code)
  {
    assert [MethStart][..0] == [] && Writes([]) == [];
    WritesSnoc([MethStart], CallSuper(code));
  }

  lemma {:induction false} WritesEachSlotOnce(c: Class, n: nat)
    requires n <= |c.fields|
    ensures Writes(CompileUpTo(c, n)) == UpTo(Base(c) + n)
    decreases c, n
  {
    hide Writes;
    if n > 0 {
      WritesEachSlotOnce(c, n - 1);
      WritesSnoc(CompileUpTo(c, n - 1), FieldOp(c, n - 1));
    } else {
      WritesOfSuper([]);
      assert [MethStart] + [] == [MethStart];
      if c.super.Some? {
        WritesEachSlotOnce(c.super.value, |c.super.value.fields|);
        WritesOfSuper(Compile(c.super.value));
      }
    }
  }

  // ---------------------------------------------------------------------------------------------
  // Compiler correctness
  // ---------------------------------------------------------------------------------------------

  /** The first slots hold vals, the others what they held before. */
  function Over(vals: seq<Val>, slots: seq<Option<Val>>): (s: seq<Option<Val>>)
    requires |vals| <= |slots|
    ensures |s| == |slots|
    ensures forall i :: 0 <= i < |slots| ==> s[i] == if i < |vals| then Some(vals[i]) else slots[i]
  {
    seq(|slots|, i requires 0 <= i < |slots| => if i < |vals| then Some(vals[i]) else slots[i])
  }

  /** The pad entries later expressions may use hold the values of their fields. */
  ghost predicate PadHolds(c: Class, n: nat, pad: map<nat, Val>, vals: seq<Val>) {
    forall p: nat :: InPad(c, n, p) ==> p in pad && c.pad[p].value < |vals| && pad[p] == vals[c.pad[p].value]
  }

  /** What a run of the first n fields' ops has to yield. */
  ghost predicate Matches(c: Class, n: nat, slots: seq<Option<Val>>, want: Result<(seq<Val>, Params)>,
                          got: Result<State>)
  {
    match want
    case Err(e) => got == Err(e)
    case Ok((vals, params)) =>
      && got.Ok? && |vals| <= |slots|
      && got.value.slots == Over(vals, slots) && got.value.params == params
      && PadHolds(c, n, got.value.pad, vals)
  }

  lemma RunSnoc(code: seq<Op>, op: Op, st: State)
    ensures var r := Run(code, st);
      Run(code + [op], st) == if r.Err? then r else Step(op, r.value)
  {
    assert (code + [op])[..|code + [op]| - 1] == code;
  }

  /** An expression compiled to pad reads sees the values of the fields it names. */
  lemma ArgsAreUsed(c: Class, i: nat, e: Expr, pad: map<nat, Val>, vals: seq<Val>)
    requires PadHolds(c, i, pad, vals) && forall p <- e.uses :: InPad(c, i, p)
    ensures Args(e, pad) == Used(c, e, vals)
  {
    forall k | 0 <= k < |e.uses| ensures Args(e, pad)[k] == Used(c, e, vals)[k] {
      assert e.uses[k] in e.uses && InPad(c, i, e.uses[k]);
    }
  }

  /** The value op of a field yields the field's value and takes its parameter away. */
  lemma ValueCompiled(c: Class, i: nat, pad: map<nat, Val>, vals: seq<Val>, params: Params)
    requires i < |c.fields| && FieldOk(c, i) && PadHolds(c, i, pad, vals)
    ensures OpValue(c.fields[i].sigil, ValOpOf(c.fields[i]), pad, params) == InitOne(c, i, vals, params)
  {
    var f := c.fields[i];
    if f.defop.Some? {
      ArgsAreUsed(c, i, f.defop.value, pad, vals);
    }
    hide Args;
    hide Used;
    hide HashOf;
    if f.param.Some? {
      ParamCompiled(f, pad, params);
    }
  }

  /** exists-or, // and || on a parameter that is there or not. */
  lemma ParamCompiled(f: Field, pad: map<nat, Val>, params: Params)
    requires f.sigil.Scalar? && f.param.Some? && (!f.mode.IfMissing? ==> f.defop.Some?)
    ensures var default := if f.defop.Some? then f.defop.value.scalar(Args(f.defop.value, pad)) else Undef;
      forall list :: EvalScalar(ValOpOf(f).value, pad, params) == FieldValue(f, default, list, params)
  {
    hide Args;
    var p := f.param.value;
    if p !in params {
      assert params - {p} == params;
    }
    var other := if f.defop.Some? then Eval(f.defop.value) else Die(p);
    assert EvalScalar(other, pad, params - {p}) ==
      if f.defop.Some? then Ok((f.defop.value.scalar(Args(f.defop.value, pad)), params - {p})) else Err(Missing(p));
    match f.mode
    case IfMissing => assert ValOpOf(f) == Some(ExistsOr(p, other));
    case IfUndef => assert ValOpOf(f) == Some(DefinedOr(p, other));
    case IfFalse => assert ValOpOf(f) == Some(TrueOr(p, other));
  }

  lemma NothingHeld(c: Class)
    ensures forall pad, vals :: PadHolds(c, 0, pad, vals)
  {
  }

  lemma {:induction false} RunCompiled(c: Class, n: nat, slots: seq<Option<Val>>, params: Params)
    requires Wf(c) && n <= |c.fields| && Base(c) + n <= |slots|
    ensures Matches(c, n, slots, InitUpTo(c, n, params), Run(CompileUpTo(c, n), State(slots, params, map[])))
    decreases c, n
  {
    hide Matches;
    hide Run;
    hide FieldOk;
    if n > 0 {
      RunCompiled(c, n - 1, slots, params);
      RunOneMore(c, n, slots, params);
    } else {
      if c.super.Some? {
        RunCompiled(c.super.value, |c.super.value.fields|, slots, params);
      }
      RunStart(c, slots, params);
    }
  }

  lemma RunOneMore(c: Class, n: nat, slots: seq<Option<Val>>, params: Params)
    requires Wf(c) && 0 < n <= |c.fields| && Base(c) + n <= |slots|
    requires var before := Run(CompileUpTo(c, n - 1), State(slots, params, map[]));
      Matches(c, n - 1, slots, InitUpTo(c, n - 1, params), before)
    ensures Matches(c, n, slots, InitUpTo(c, n, params), Run(CompileUpTo(c, n), State(slots, params, map[])))
  {
    hide FieldOk;
    hide InitOne;
    hide PadHolds;
    hide OpValue;
    hide Run;
    hide FieldOp;
    hide Step;
    var st := State(slots, params, map[]);
    RunSnoc(CompileUpTo(c, n - 1), FieldOp(c, n - 1), st);
    var r := InitUpTo(c, n - 1, params);
    if r.Ok? {
      FieldStep(c, n - 1, slots, r.value.0, r.value.1, Run(CompileUpTo(c, n - 1), st).value);
    }
  }

  /** OP_METHSTART, and the superclass's initfields CV with a pad of its own. */
  lemma RunStart(c: Class, slots: seq<Option<Val>>, params: Params)
    requires Base(c) <= |slots|
    requires c.super.Some? ==>
      var s := c.super.value;
      Matches(s, |s.fields|, slots, Init(s, params), Run(Compile(s), State(slots, params, map[])))
    ensures Matches(c, 0, slots, InitUpTo(c, 0, params), Run(CompileUpTo(c, 0), State(slots, params, map[])))
  {
    hide PadHolds;
    var st := State(slots, params, map[]);
    RunSnoc([], MethStart, st);
    assert [] + [MethStart] == [MethStart];
    NothingHeld(c);
    if c.super.None? {
      assert Over([], slots) == slots;
    } else {
      var s := c.super.value;
      RunSnoc([MethStart], CallSuper(Compile(s)), st);
      assert InitUpTo(c, 0, params) == Init(s, params);
    }
  }

  /** One more field: its op stores its value in its slot, and in the pad if anything may need it. */
  lemma FieldStep(c: Class, i: nat, slots: seq<Option<Val>>, vals: seq<Val>, params: Params, st: State)
    requires i < |c.fields| && FieldOk(c, i) && PadOk(c) && Base(c) + i < |slots| && |vals| == Base(c) + i
    requires st.slots == Over(vals, slots) && st.params == params && PadHolds(c, i, st.pad, vals)
    ensures var one := InitOne(c, i, vals, params);
      Matches(c, i + 1, slots, if one.Err? then Err(one.error) else Ok((vals + [one.value.0], one.value.1)),
              Step(FieldOp(c, i), st))
  {
    ValueCompiled(c, i, st.pad, vals, params);
    hide OpValue;
    hide InitOne;
    hide ValOpOf;
    hide FieldOk;
    var one := InitOne(c, i, vals, params);
    if one.Ok? {
      var v, targ := one.value.0, PadixOf(c.pad, Base(c) + i);
      assert st.slots[Base(c) + i := Some(v)] == Over(vals + [v], slots);
      var pad := if targ == 0 then st.pad else st.pad[targ := v];
      forall p: nat | InPad(c, i + 1, p)
        ensures p in pad && c.pad[p].value < |vals| + 1 && pad[p] == (vals + [v])[c.pad[p].value]
      {
        if c.pad[p].value == Base(c) + i {
          assert p == targ;
        } else {
          assert InPad(c, i, p);
        }
      }
    }
  }

  /** Running the op list of a sealed class on an object with at least its slots: they get the values
      the declarations ask for, those of the superclasses included, any further slots (those of a
      subclass) keep theirs, and the same parameters are taken; or it dies of the same error. */
  lemma CompilerCorrect(c: Class, slots: seq<Option<Val>>, params: Params)
    requires Wf(c) && Slots(c) <= |slots|
    ensures var got, want := Run(Compile(c), State(slots, params, map[])), Init(c, params);
      match want
      case Err(e) => got == Err(e)
      case Ok((vals, rest)) => got.Ok? && got.value.slots == Over(vals, slots) && got.value.params == rest
  {
    RunCompiled(c, |c.fields|, slots, params);
  }

  // ---------------------------------------------------------------------------------------------
  // Parameters
  // ---------------------------------------------------------------------------------------------

  /** The parameters with no default, up to the n-th own field. */
  function RequiredUpTo(c: Class, n: nat): set<string>
    requires n <= |c.fields|
    decreases c, n
  {
    if n == 0 then
      if c.super.None? then {} else Required(c.super.value)
    else
      var f := c.fields[n - 1];
      RequiredUpTo(c, n - 1) + if f.param.Some? && f.defop.None? then {f.param.value} else {}
  }

  function Required(c: Class): set<string>
    decreases c, |c.fields| + 1
  {
    RequiredUpTo(c, |c.fields|)
  }

  /** Initialisation works exactly when every required parameter is there, and leaves exactly the
      parameters that belong to no field. */
  lemma {:induction false} InitSucceeds(c: Class, n: nat, params: Params)
    requires Wf(c) && n <= |c.fields|
    ensures InitUpTo(c, n, params).Ok? <==> RequiredUpTo(c, n) <= params.Keys
    ensures InitUpTo(c, n, params).Ok? ==> InitUpTo(c, n, params).value.1 == params - ParamsUpTo(c, n).Keys
    decreases c, n
  {
    if n > 0 {
      InitSucceeds(c, n - 1, params);
      assert FieldOk(c, n - 1);
      var f, r := c.fields[n - 1], InitUpTo(c, n - 1, params);
      assert RequiredUpTo(c, n) ==
             RequiredUpTo(c, n - 1) + if f.param.Some? && f.defop.None? then {f.param.value} else {};
      if r.Ok? {
        OneField(c, n - 1, r.value.0, params);
      }
      hide InitOne;
    } else if c.super.Some? {
      var s := c.super.value;
      InitSucceeds(s, |s.fields|, params);
      assert ParamsUpTo(c, 0) == ParamMap(s) && RequiredUpTo(c, 0) == Required(s);
    } else {
      assert ParamsUpTo(c, 0) == map[] && params - {} == params;
    }
  }

  lemma OneField(c: Class, i: nat, vals: seq<Val>, params: Params)
    requires i < |c.fields| && FieldOk(c, i)
    ensures var f, one := c.fields[i], InitOne(c, i, vals, params - ParamsUpTo(c, i).Keys);
      && (one.Ok? <==> !(f.param.Some? && f.defop.None? && f.param.value !in params))
      && (one.Ok? ==> one.value.1 == params - ParamsUpTo(c, i + 1).Keys)
  {
    hide Used;
    hide HashOf;
    var taken := ParamsUpTo(c, i).Keys;
    var f := c.fields[i];
    if f.param.Some? {
      var p := f.param.value;
      assert ParamsUpTo(c, i + 1).Keys == taken + {p};
      assert (params - taken) - {p} == params - (taken + {p});
    }
  }

  lemma NoKeys(m: Params, known: set<string>)
    ensures m - known == map[] <==> m.Keys <= known
  {
    var rest := m - known;
    if rest == map[] {
      forall k <- m.Keys ensures k in known {
        assert k in known || k in rest;
      }
    }
  }

  /** Construction succeeds exactly when every parameter without a default in the whole chain is
      supplied and every supplied name belongs to the chain. */
  lemma ConstructSucceeds(c: Class, params: Params)
    requires Wf(c)
    ensures Construct(c, params).Ok? <==> Required(c) <= params.Keys <= ParamMap(c).Keys
  {
    InitSucceeds(c, |c.fields|, params);
    hide InitUpTo;
    hide RequiredUpTo;
    hide ParamsUpTo;
    var known, rest := ParamMap(c).Keys, params - ParamMap(c).Keys;
    assert known == ParamsUpTo(c, |c.fields|).Keys && Required(c) == RequiredUpTo(c, |c.fields|);
    NoKeys(params, known);
  }

  /** Field ix of an object of class c, whichever class of the chain declared it. */
  function FieldAt(c: Class, ix: nat): Field
    requires ix < Slots(c)
  {
    if ix < Base(c) then FieldAt(c.super.value, ix) else c.fields[ix - Base(c)]
  }

  /** The parameter map names exactly the fields that have a parameter, each under its own name. */
  lemma {:induction false} MapNamesFields(c: Class, n: nat, ix: nat, p: string)
    requires Wf(c) && n <= |c.fields| && ix < Base(c) + n
    ensures FieldAt(c, ix).param == Some(p) <==> p in ParamsUpTo(c, n) && ParamsUpTo(c, n)[p] == ix
    decreases c, n
  {
    if n == 0 {
      MapNamesFields(c.super.value, |c.super.value.fields|, ix, p);
      assert ParamsUpTo(c, 0) == ParamMap(c.super.value);
    } else {
      assert FieldOk(c, n - 1);
      MapInRange(c, n - 1);
      if ix < Base(c) + n - 1 {
        MapNamesFields(c, n - 1, ix, p);
      }
    }
  }

  lemma {:induction false} MapInRange(c: Class, n: nat)
    requires n <= |c.fields|
    ensures forall p <- ParamsUpTo(c, n) :: ParamsUpTo(c, n)[p] < Base(c) + n
    decreases c, n
  {
    if n > 0 {
      MapInRange(c, n - 1);
    } else if c.super.Some? {
      MapInRange(c.super.value, |c.super.value.fields|);
      assert ParamsUpTo(c, 0) == ParamMap(c.super.value);
    } else {
      assert ParamsUpTo(c, 0) == map[];
    }
  }

  /** No parameter feeds two fields, anywhere in the chain. */
  lemma OneFieldPerParam(c: Class, i: nat, j: nat, p: string)
    requires Wf(c) && i < Slots(c) && j < Slots(c)
    requires FieldAt(c, i).param == Some(p) && FieldAt(c, j).param == Some(p)
    ensures i == j
  {
    MapNamesFields(c, |c.fields|, i, p);
    MapNamesFields(c, |c.fields|, j, p);
  }

  /** A supplied value that the field's mode accepts ends up in the field, whatever the other fields of
      the chain do. */
  lemma {:induction false} SuppliedArrives(c: Class, n: nat, ix: nat, params: Params)
    requires Wf(c) && n <= |c.fields| && ix < Base(c) + n && InitUpTo(c, n, params).Ok?
    requires var f := FieldAt(c, ix);
      f.param.Some? && f.param.value in params && Accepts(f.mode, params[f.param.value])
    ensures InitUpTo(c, n, params).value.0[ix] == params[FieldAt(c, ix).param.value]
    decreases c, n
  {
    if n == 0 {
      SuppliedArrives(c.super.value, |c.super.value.fields|, ix, params);
    } else if ix < Base(c) + n - 1 {
      SuppliedArrives(c, n - 1, ix, params);
    } else {
      assert FieldOk(c, n - 1);
      InitSucceeds(c, n - 1, params);
      hide Used;
    }
  }

  // ---------------------------------------------------------------------------------------------
  // Methods on instances of subclasses
  // ---------------------------------------------------------------------------------------------

  ghost predicate DerivedFrom(c: Class, d: Class) {
    c == d || (c.super.Some? && DerivedFrom(c.super.value, d))
  }

  lemma {:induction false} DerivedSlots(c: Class, d: Class)
    requires DerivedFrom(c, d)
    ensures Slots(d) <= Slots(c)
  {
    if c != d {
      DerivedSlots(c.super.value, d);
    }
  }

  /** An instance of a subclass starts with what an instance of the class would hold. */
  lemma {:induction false} PrefixIsSuper(c: Class, d: Class, n: nat, params: Params)
    requires DerivedFrom(c, d) && n <= |c.fields| && (c == d ==> n == |c.fields|) && InitUpTo(c, n, params).Ok?
    ensures Init(d, params).Ok? && Slots(d) <= Base(c) + n
    ensures InitUpTo(c, n, params).value.0[..Slots(d)] == Init(d, params).value.0
    decreases c, n
  {
    DerivedSlots(c, d);
    if c == d {
      assert InitUpTo(c, n, params).value.0[..Slots(d)] == InitUpTo(c, n, params).value.0;
    } else if n > 0 {
      PrefixIsSuper(c, d, n - 1, params);
    } else {
      PrefixIsSuper(c.super.value, d, |c.super.value.fields|, params);
    }
  }

  /** The (padix, fieldix) pairs class_wrap_method_body finds in a method's pad. */
  function FieldMap(pad: seq<Option<nat>>): (m: seq<(nat, nat)>) {
    if |pad| <= 2 then []
    else FieldMap(pad[..|pad| - 1])
         + if pad[|pad| - 1].Some? then [(|pad| - 1, pad[|pad| - 1].value)] else []
  }

  lemma {:induction false} FieldMapComplete(pad: seq<Option<nat>>, p: nat)
    requires 2 <= p < |pad| && pad[p].Some?
    ensures (p, pad[p].value) in FieldMap(pad)
  {
    if p < |pad| - 1 {
      FieldMapComplete(pad[..|pad| - 1], p);
    }
  }

  /** The pad of a method of class d names fields of d's own. */
  predicate MethodPad(d: Class, pad: seq<Option<nat>>) {
    && |pad| >= 2 && pad[0] == pad[1] == None
    && forall p <- pad :: p.Some? ==> Base(d) <= p.value < Slots(d)
  }

  /** pp_methstart's bindings, in order. */
  function Bound(m: seq<(nat, nat)>, slots: seq<Option<Val>>, pad: map<nat, Val>): map<nat, Val> {
    if m == [] then pad
    else
      var (padix, fieldix) := m[|m| - 1];
      var value := if fieldix < |slots| && slots[fieldix].Some? then slots[fieldix].value else Undef;
      Bound(m[..|m| - 1], slots, pad)[padix := value]
  }

  lemma {:induction false} BoundAt(m: seq<(nat, nat)>, slots: seq<Option<Val>>, pad: map<nat, Val>, k: nat, p: nat,
                                   f: nat)
    requires k < |m| && m[k] == (p, f) && f < |slots| && slots[f].Some?
    requires forall i, j :: 0 <= i < j < |m| ==> m[i].0 != m[j].0
    ensures p in Bound(m, slots, pad) && Bound(m, slots, pad)[p] == slots[f].value
  {
    var n := |m| - 1;
    if k < n {
      assert m[k].0 != m[n].0;
      BoundAt(m[..n], slots, pad, k, p, f);
    }
  }

  /** Pad entries that are bound to no field keep what they held. */
  lemma {:induction false} BoundElsewhere(m: seq<(nat, nat)>, slots: seq<Option<Val>>, pad: map<nat, Val>, p: nat)
    requires forall b <- m :: b.0 != p
    ensures p in Bound(m, slots, pad) <==> p in pad
    ensures p in pad ==> Bound(m, slots, pad)[p] == pad[p]
  {
    if m != [] {
      assert m[|m| - 1] in m;
      BoundElsewhere(m[..|m| - 1], slots, pad, p);
    }
  }

  lemma {:induction false} FieldMapDistinct(pad: seq<Option<nat>>)
    ensures forall i :: 0 <= i < |FieldMap(pad)| ==> FieldMap(pad)[i].0 < |pad|
    ensures forall i, j :: 0 <= i < j < |FieldMap(pad)| ==> FieldMap(pad)[i].0 != FieldMap(pad)[j].0
  {
    if |pad| > 2 {
      FieldMapDistinct(pad[..|pad| - 1]);
    }
  }

  /** A method of class d, called on a freshly initialised instance of d or of a subclass c, finds under
      each pad entry the value that d's declaration gave that field. */
  lemma MethodSeesItsFields(c: Class, d: Class, params: Params, slots: seq<Option<Val>>, pad: seq<Option<nat>>,
                            p: nat, start: map<nat, Val>)
    requires Wf(c) && DerivedFrom(c, d) && |slots| == Slots(c) && Init(c, params).Ok?
    requires MethodPad(d, pad) && p < |pad| && pad[p].Some?
    ensures Init(d, params).Ok? && pad[p].value < |Init(d, params).value.0|
    ensures var made := Run(Compile(c), State(slots, params, map[]));
      made.Ok?
      && var bound := Bound(FieldMap(pad), made.value.slots, start);
         p in bound && bound[p] == Init(d, params).value.0[pad[p].value]
  {
    hide Run;
    hide Compile;
    hide Bound;
    PrefixIsSuper(c, d, |c.fields|, params);
    DerivedSlots(c, d);
    hide InitUpTo;
    assert pad[p] in pad;
    FieldMapComplete(pad, p);
    FieldMapDistinct(pad);
    hide FieldMap;
    var m, f := FieldMap(pad), pad[p].value;
    var k :| 0 <= k < |m| && m[k] == (p, f);
    var vals := Init(c, params).value.0;
    assert vals[..Slots(d)][f] == vals[f];
    CompilerCorrect(c, slots, params);
    var made := Run(Compile(c), State(slots, params, map[]));
    BoundAt(m, made.value.slots, start, k, p, f);
  }
}
