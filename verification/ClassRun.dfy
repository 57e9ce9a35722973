/** The run-time half of class.c: pp_initfield, pp_methstart and the injected constructor, on objects. */
module ClassRun {
  import opened ClassSpec
  import opened ClassLaws
  import opened ClassNew
  import opened ClassObjects

  /** The parameter hash of one constructor call; initialisers delete what they use. */
  class ParamHash {
    var entries: Params

    constructor ()
      ensures entries == map[]
    {
      entries := map[];
    }

    method Delete(p: string) returns (v: Val)
      modifies this
      ensures v == Deleted(old(entries), p) && entries == old(entries) - {p}
    {
      v := if p in entries then entries[p] else Undef;
      entries := entries - {p};
    }
  }

  /** An object: its class, and its fields, NULL until they are initialised. */
  class Instance {
    var stash: Stash
    const fields: array<Option<Val>>

    constructor (s: Stash)
      ensures stash == s && fresh(fields) && fields.Length == s.next_fieldix
      ensures forall i :: 0 <= i < fields.Length ==> fields[i] == None
    {
      stash := s;
      fields := new Option<Val>[s.next_fieldix](_ => None);
    }
  }

  // ---------------------------------------------------------------------------------------------
  // pp_initfield
  // ---------------------------------------------------------------------------------------------

  method EvalOp(v: ValOp, pad: map<nat, Val>, params: ParamHash) returns (r: Result<Val>)
    modifies params
    ensures var want := EvalScalar(v, pad, old(params.entries));
      if want.Err? then r == Err(want.error) else r == Ok(want.value.0) && params.entries == want.value.1
  {
    match v
    case Eval(e) =>
      r := Ok(e.scalar(Args(e, pad)));
    case Die(p) =>
      r := Err(Missing(p));
    case ExistsOr(p, other) =>
      if p in params.entries {
        var got := params.Delete(p);
        r := Ok(got);
      } else {
        r := EvalOp(other, pad, params);
      }
    case DefinedOr(p, other) =>
      var got := params.Delete(p);
      if got != Undef {
        r := Ok(got);
      } else {
        r := EvalOp(other, pad, params);
      }
    case TrueOr(p, other) =>
      var got := params.Delete(p);
      if !False(got) {
        r := Ok(got);
      } else {
        r := EvalOp(other, pad, params);
      }
  }

  /** A new array of copies of what is on the stack. */
  method NewArray(stack: seq<Val>) returns (items: seq<Val>)
    ensures items == stack
  {
    items := [];
    var svp := 0;
    while svp < |stack|
      invariant 0 <= svp <= |stack| && items == stack[..svp]
    {
      items := items + [stack[svp]];
      svp := svp + 1;
    }
  }

  /** A new hash of the pairs on the stack; later keys win, and a missing last value is undef. */
  method NewHash(stack: seq<Val>) returns (entries: map<string, Val>)
    ensures entries == HashOf(stack) && entries.Keys == EvenKeys(stack)
    ensures forall i :: 0 <= i < (|stack| + 1) / 2 && LastOfKey(stack, i) ==>
      Key(stack[2 * i]) in entries && entries[Key(stack[2 * i])] == Follower(stack, i)
  {
    entries := map[];
    var svp := 0;
    ghost var k := 0;
    while svp < |stack|
      invariant svp == 2 * k <= |stack| + 1 && entries == FirstPairs(stack, k)
    {
      var key := stack[svp];
      svp := svp + 1;
      var val := if svp < |stack| then stack[svp] else Undef;
      svp := svp + 1;
      entries := entries[Key(key) := val];
      k := k + 1;
    }
    HashKeys(stack);
    forall i | 0 <= i < (|stack| + 1) / 2 && LastOfKey(stack, i)
      ensures Key(stack[2 * i]) in entries && entries[Key(stack[2 * i])] == Follower(stack, i)
    {
      HashHolds(stack, i);
    }
  }

  method InitFieldOp(fieldix: nat, sigil: Sigil, valop: Option<ValOp>, targ: nat, obj: Instance,
                     params: ParamHash, pad: map<nat, Val>)
    returns (r: Result<map<nat, Val>>)
    requires fieldix < obj.fields.Length
    modifies params, obj.fields
    ensures var st := State(old(obj.fields[..]), old(params.entries), pad);
      var want := Step(InitField(fieldix, sigil, valop, targ), st);
      if want.Err? then r == Err(want.error)
      else r.Ok? && want.value == State(obj.fields[..], params.entries, r.value)
  {
    hide Args;
    hide EvalScalar;
    hide HashOf;
    var val := Undef;
    match sigil {
    case Scalar =>
      if valop.Some? {
        var got := EvalOp(valop.value, pad, params);
        if got.Err? {
          return Err(got.error);
        }
        val := got.value;
      }
    case Array =>
      if valop.Some? {
        var items := NewArray(EvalList(valop.value, pad));
        val := Arr(items);
      } else {
        val := Arr([]);
      }
    case Hash =>
      if valop.Some? {
        var entries := NewHash(EvalList(valop.value, pad));
        val := Hsh(entries);
      } else {
        val := Hsh(map[]);
      }
    }
    obj.fields[fieldix] := Some(val);
    r := Ok(if targ != 0 then pad[targ := val] else pad);
  }

  // ---------------------------------------------------------------------------------------------
  // The initfields CV
  // ---------------------------------------------------------------------------------------------

  /** Every op of the list, called CVs included, writes a slot the object has. */
  ghost predicate Within(code: seq<Op>, n: nat) {
    forall i :: 0 <= i < |code| ==> WithinOp(code[i], n)
  }

  ghost predicate WithinOp(op: Op, n: nat) {
    match op
    case MethStart => true
    case CallSuper(code) => Within(code, n)
    case InitField(fieldix, _, _, _) => fieldix < n
  }

  lemma {:induction false} WritesWithin(code: seq<Op>, n: nat)
    requires forall f <- Writes(code) :: f < n
    ensures Within(code, n)
    decreases code
  {
    if code != [] {
      var init, op := code[..|code| - 1], code[|code| - 1];
      assert forall f <- Writes(init) :: f in Writes(code);
      assert forall f <- WritesOf(op) :: f in Writes(code);
      WritesWithin(init, n);
      if op.CallSuper? {
        WritesWithin(op.code, n);
      } else if op.InitField? {
        assert op.fieldix in WritesOf(op);
      }
      forall i | 0 <= i < |code| ensures WithinOp(code[i], n) {
        assert i < |init| ==> code[i] == init[i];
      }
    }
  }

  /** call_sv on an initfields CV: its ops in order, with a pad of its own. */
  method RunCode(code: seq<Op>, obj: Instance, params: ParamHash) returns (error: Option<Error>)
    requires Within(code, obj.fields.Length)
    modifies params, obj.fields
    ensures var want := Run(code, State(old(obj.fields[..]), old(params.entries), map[]));
      if want.Err? then error == Some(want.error)
      else error == None && obj.fields[..] == want.value.slots && params.entries == want.value.params
    decreases code
  {
    hide Within;
    var pad: map<nat, Val> := map[];
    ghost var start := State(obj.fields[..], params.entries, map[]);
    var i := 0;
    while i < |code|
      invariant 0 <= i <= |code|
      invariant Run(code[..i], start) == Ok(State(obj.fields[..], params.entries, pad))
    {
      var op := code[i];
      RunPrefix(code, i, start);
      WithinAt(code, i, obj.fields.Length);
      hide Run;
      match op {
        case MethStart =>
        case CallSuper(super) =>
          error := RunCode(super, obj, params);
          if error.Some? {
            return;
          }
        case InitField(fieldix, sigil, valop, targ) =>
          var r := InitFieldOp(fieldix, sigil, valop, targ, obj, params, pad);
          if r.Err? {
            return Some(r.error);
          }
          pad := r.value;
      }
      i := i + 1;
    }
    assert code[..i] == code;
    error := None;
  }

  lemma WithinAt(code: seq<Op>, i: nat, n: nat)
    requires i < |code| && Within(code, n)
    ensures WithinOp(code[i], n)
  {
  }

  /** An error in a prefix is the error of the whole. */
  lemma {:induction false} RunPrefix(code: seq<Op>, i: nat, st: State)
    requires i < |code|
    ensures var r := Run(code[..i], st);
      Run(code[..i + 1], st) == if r.Err? then r else Step(code[i], r.value)
    ensures Run(code[..i + 1], st).Err? ==> Run(code, st) == Run(code[..i + 1], st)
    decreases |code|
  {
    assert code[..i + 1][..i] == code[..i];
    if i + 1 < |code| {
      var init := code[..|code| - 1];
      RunPrefix(init, i, st);
      assert init[..i] == code[..i] && init[..i + 1] == code[..i + 1];
    } else {
      assert code[..i + 1] == code;
    }
  }

  // ---------------------------------------------------------------------------------------------
  // The injected constructor
  // ---------------------------------------------------------------------------------------------

  /** The fields of a fully initialised object. */
  function Values(slots: seq<Option<Val>>): (vals: seq<Val>)
    requires forall i :: 0 <= i < |slots| ==> slots[i].Some?
    ensures |vals| == |slots| && forall i :: 0 <= i < |slots| ==> slots[i] == Some(vals[i])
  {
    seq(|slots|, i requires 0 <= i < |slots| => slots[i].value)
  }

  /** Runs the blocks in order; each may store to every field. */
  method RunAdjusts(blocks: seq<Adjust>, obj: Instance)
    requires forall i :: 0 <= i < obj.fields.Length ==> obj.fields[i].Some?
    modifies obj.fields
    ensures forall i :: 0 <= i < obj.fields.Length ==> obj.fields[i].Some?
    ensures Values(obj.fields[..]) == Adjusted(blocks, old(Values(obj.fields[..])))
  {
    ghost var vals0 := Values(obj.fields[..]);
    var i := 0;
    while i < |blocks|
      invariant 0 <= i <= |blocks|
      invariant forall k :: 0 <= k < obj.fields.Length ==> obj.fields[k].Some?
      invariant Values(obj.fields[..]) == Adjusted(blocks[..i], vals0)
    {
      assert blocks[..i + 1][..i] == blocks[..i];
      var vals := blocks[i].Apply(Values(obj.fields[..]));
      forall k | 0 <= k < obj.fields.Length {
        obj.fields[k] := Some(vals[k]);
      }
      i := i + 1;
    }
    assert blocks[..i] == blocks;
  }

  ghost predicate AllSet(slots: seq<Option<Val>>, vals: seq<Val>) {
    |slots| == |vals| && forall i :: 0 <= i < |slots| ==> slots[i] == Some(vals[i])
  }

  lemma CompiledWithin(c: Class)
    ensures Within(Compile(c), Slots(c))
  {
    WritesEachSlotOnce(c, |c.fields|);
    WritesWithin(Compile(c), Slots(c));
  }

  /** What the initfields CV leaves behind when it does not die. */
  lemma Initialised(c: Class, slots: seq<Option<Val>>, params: Params)
    requires Wf(c) && |slots| == Slots(c)
    ensures var got, want := Run(Compile(c), State(slots, params, map[])), Init(c, params);
      if want.Err? then got == Err(want.error)
      else got.Ok? && AllSet(got.value.slots, want.value.0) && got.value.params == want.value.1
  {
    CompilerCorrect(c, slots, params);
  }

  lemma ValuesAre(slots: seq<Option<Val>>, vals: seq<Val>)
    requires AllSet(slots, vals)
    ensures (forall i :: 0 <= i < |slots| ==> slots[i].Some?) && Values(slots) == vals
  {
  }

  /** injected_constructor, called with a flat list of names and values. */
  method New(stash: Stash, args: seq<Val>) returns (r: Result<Instance>)
    requires stash.Valid() && stash.initfields.Some?
    ensures var want := Construct(stash.decl, HashOf(args));
      if want.Err? then r == Err(want.error)
      else r.Ok? && fresh(r.value) && r.value.stash == stash && AllSet(r.value.fields[..], want.value)
    ensures r.Ok? <==> Required(stash.decl) <= EvenKeys(args) <= ParamMap(stash.decl).Keys
  {
    hide Run;
    hide HashOf;
    hide Wf;
    hide Init;
    hide Slots;
    hide Adjusts;
    hide Adjusted;
    hide Compile;
    hide Within;
    hide ParamMap;
    ghost var decl := stash.decl;
    NewSucceeds(decl, args);
    hide Required;
    var params := new ParamHash();
    var entries := NewHash(args);
    params.entries := entries;
    var obj := new Instance(stash);
    CompiledWithin(decl);
    Initialised(decl, obj.fields[..], params.entries);
    var error := RunCode(stash.initfields.value, obj, params);
    if error.Some? {
      return Err(error.value);
    }
    ValuesAre(obj.fields[..], Init(decl, entries).value.0);
    RunAdjusts(stash.adjust_blocks, obj);
    if |params.entries| > 0 {
      return Err(Unrecognised(params.entries.Keys));
    }
    r := Ok(obj);
  }

  // ---------------------------------------------------------------------------------------------
  // OP_METHSTART
  // ---------------------------------------------------------------------------------------------

  function MaxIx(m: seq<(nat, nat)>): nat {
    if m == [] then 0
    else
      var max := MaxIx(m[..|m| - 1]);
      if m[|m| - 1].1 > max then m[|m| - 1].1 else max
  }

  lemma {:induction false} MaxIxBelow(m: seq<(nat, nat)>, n: nat)
    requires m != [] && forall b <- m :: b.1 < n
    ensures MaxIx(m) < n
  {
    assert m[|m| - 1] in m;
    if |m| > 1 {
      MaxIxBelow(m[..|m| - 1], n);
    } else {
      assert MaxIx(m[..0]) == 0;
    }
  }

  /** The largest field index, among those there are. */
  lemma {:induction false} MaxIxIs(m: seq<(nat, nat)>)
    requires m != []
    ensures (forall b <- m :: b.1 <= MaxIx(m)) && exists b <- m :: b.1 == MaxIx(m)
  {
    var n := |m| - 1;
    if n == 0 {
      assert MaxIx(m[..0]) == 0 && m[0] in m;
    } else {
      MaxIxIs(m[..n]);
      assert m[n] in m && forall b <- m[..n] :: b in m;
      forall b <- m ensures b.1 <= MaxIx(m) {
        assert b in m[..n] || b == m[n];
      }
    }
  }

  lemma MaxIxSnoc(m: seq<(nat, nat)>, b: (nat, nat))
    ensures MaxIx(m + [b]) == if b.1 > MaxIx(m) then b.1 else MaxIx(m)
  {
    assert (m + [b])[..|m|] == m;
  }

  /** The aux items of OP_METHSTART, whose count is the length of the list of pairs. */
  datatype Aux = Aux(max_fieldix: nat, pairs: seq<(nat, nat)>)

  /** The aux items for bindings m; a method that uses no field has none. */
  function AuxFor(m: seq<(nat, nat)>): Option<Aux> {
    if m == [] then None else Some(Aux(MaxIx(m), m))
  }

  lemma FieldMapSteps(pad: seq<Option<nat>>, p: nat)
    requires p < |pad|
    ensures p < 2 ==> FieldMap(pad[..p]) == [] && FieldMap(pad[..p + 1]) == []
    ensures p >= 2 ==> FieldMap(pad[..p + 1]) == FieldMap(pad[..p]) + if pad[p].Some? then [(p, pad[p].value)] else []
  {
    assert pad[..p + 1][..p] == pad[..p];
  }

  /** class_wrap_method_body */
  method WrapMethodBody(pad: seq<Option<nat>>) returns (aux: Option<Aux>)
    ensures aux == AuxFor(FieldMap(pad))
  {
    if |pad| < 2 {
      return None;
    }
    FieldMapSteps(pad, 1);
    assert MaxIx([]) == 0;
    hide FieldMap;
    hide MaxIx;
    var fieldmap: seq<(nat, nat)> := [];
    var max_fieldix := 0;
    var padix := 2;
    while padix < |pad|
      invariant 2 <= padix <= |pad|
      invariant fieldmap == FieldMap(pad[..padix]) && max_fieldix == MaxIx(fieldmap)
    {
      FieldMapSteps(pad, padix);
      if pad[padix].Some? {
        var fieldix := pad[padix].value;
        MaxIxSnoc(fieldmap, (padix, fieldix));
        if fieldix > max_fieldix {
          max_fieldix := fieldix;
        }
        fieldmap := fieldmap + [(padix, fieldix)];
      }
      padix := padix + 1;
    }
    assert pad[..padix] == pad;
    aux := if |fieldmap| > 0 then Some(Aux(max_fieldix, fieldmap)) else None;
  }

  /** pp_methstart */
  method MethStart(stash: Stash, obj: Instance?, aux: Option<Aux>, ghost m: seq<(nat, nat)>, pad0: map<nat, Val>)
    returns (r: Result<map<nat, Val>>)
    requires stash.Valid() && (obj != null ==> obj.stash.Valid() && obj.fields.Length == obj.stash.next_fieldix)
    requires obj != null ==> forall i :: 0 <= i < obj.fields.Length ==> obj.fields[i].Some?
    requires aux == AuxFor(m) && forall b <- m :: b.1 < Slots(stash.decl)
    ensures r == if obj == null then Err(NotAnInstance)
                 else if obj.stash != stash && stash !in obj.stash.isa then Err(WrongClass)
                 else Ok(Bound(m, obj.fields[..], pad0))
  {
    hide Wf;
    hide Slots;
    hide Adjusts;
    hide Compile;
    hide ParamMap;
    if obj == null {
      return Err(NotAnInstance);
    }
    if obj.stash != stash && stash !in obj.stash.isa {
      return Err(WrongClass);
    }
    assert obj.stash == stash || obj.stash.Above(stash);
    DerivedSlots(obj.stash.decl, stash.decl);
    hide DerivedFrom;
    var pad := pad0;
    if aux.Some? {
      MaxIxBelow(m, Slots(stash.decl));
      assert obj.fields.Length > aux.value.max_fieldix;
      pad := Bind(aux.value.pairs, obj.fields, pad0);
    }
    r := Ok(pad);
  }

  /** The binding loop. */
  method Bind(pairs: seq<(nat, nat)>, fields: array<Option<Val>>, pad0: map<nat, Val>) returns (pad: map<nat, Val>)
    requires forall i :: 0 <= i < fields.Length ==> fields[i].Some?
    requires forall b <- pairs :: b.1 < fields.Length
    ensures pad == Bound(pairs, fields[..], pad0)
  {
    pad := pad0;
    var i := 0;
    while i < |pairs|
      invariant 0 <= i <= |pairs| && pad == Bound(pairs[..i], fields[..], pad0)
    {
      assert pairs[..i + 1][..i] == pairs[..i] && pairs[i] in pairs;
      var (padix, fieldix) := pairs[i];
      assert fields[fieldix].Some?;
      pad := pad[padix := fields[fieldix].value];
      i := i + 1;
    }
    assert pairs[..i] == pairs;
  }
}
