/** Classes, the op list class.c compiles their fields to, and what running it is supposed to do. */
module ClassSpec {

  datatype Option<+T> = None | Some(value: T)

  /** A scalar, array or hash. */
  datatype Val = Undef | Str(s: string) | Arr(items: seq<Val>) | Hsh(entries: map<string, Val>)

  predicate False(v: Val) {
    v == Undef || v == Str("") || v == Str("0")
  }

  /** How a value reads as a hash key. */
  function Key(v: Val): string {
    if v.Str? then v.s else ""
  }

  /** A list of keys and values as a hash; a missing last value is undef. */
  function HashOf(list: seq<Val>): map<string, Val> {
    FirstPairs(list, (|list| + 1) / 2)
  }

  function FirstPairs(list: seq<Val>, k: nat): map<string, Val>
    requires 2 * k <= |list| + 1
  {
    if k == 0 then map[]
    else FirstPairs(list, k - 1)[Key(list[2 * k - 2]) := if 2 * k - 1 < |list| then list[2 * k - 1] else Undef]
  }

  // ---------------------------------------------------------------------------------------------
  // Declarations
  // ---------------------------------------------------------------------------------------------

  /** An initialiser expression: the pad entries it uses, and what it makes of their values in scalar
      and in list context. */
  datatype Expr = Expr(uses: seq<nat>, scalar: seq<Val> -> Val, list: seq<Val> -> seq<Val>)

  datatype Sigil = Scalar | Array | Hash

  /** Plain `=`, `//=` and `||=`. */
  datatype Mode = IfMissing | IfUndef | IfFalse

  datatype Field = Field(sigil: Sigil, name: string, param: Option<string>, defop: Option<Expr>, mode: Mode)

  /** A class: its superclass, its own fields in order, the pad of its initfields CV (for each entry
      the field it stands for, if any), and its ADJUST blocks. */
  datatype Class = Class(super: Option<Class>, fields: seq<Field>, pad: seq<Option<nat>>, adjust: seq<Adjust>)

  /** An ADJUST block that does not fail: what it makes of each field, given all of them. */
  datatype Adjust = Adjust(change: (int, seq<Val>) -> Val) {
    function Apply(vals: seq<Val>): (s: seq<Val>)
      ensures |s| == |vals|
    {
      seq(|vals|, i requires 0 <= i < |vals| => change(i, vals))
    }
  }

  /** Fields of the superclass come first. */
  function Base(c: Class): nat
    decreases c, 0
  {
    if c.super.None? then 0 else Slots(c.super.value)
  }

  function Slots(c: Class): nat
    decreases c, 1
  {
    Base(c) + |c.fields|
  }

  function SuperParams(c: Class): map<string, nat>
    decreases c, 0
  {
    if c.super.None? then map[] else ParamMap(c.super.value)
  }

  /** Parameter names to field indices, after the first n own fields. */
  function ParamsUpTo(c: Class, n: nat): map<string, nat>
    requires n <= |c.fields|
    decreases c, n + 1
  {
    if n == 0 then SuperParams(c)
    else
      var f := c.fields[n - 1];
      if f.param.Some? then ParamsUpTo(c, n - 1)[f.param.value := Base(c) + n - 1] else ParamsUpTo(c, n - 1)
  }

  function ParamMap(c: Class): map<string, nat>
    decreases c, |c.fields| + 2
  {
    ParamsUpTo(c, |c.fields|)
  }

  /** What parsing guarantees of own field i: it uses earlier own fields only; a parameter is a scalar
      and has a name of its own; `//=` and `||=` come with an expression. */
  predicate FieldOk(c: Class, i: nat)
    requires i < |c.fields|
  {
    var f := c.fields[i];
    && (f.defop.Some? ==> forall p <- f.defop.value.uses :: InPad(c, i, p))
    && (f.param.Some? ==> f.sigil.Scalar? && f.param.value !in ParamsUpTo(c, i))
    && (!f.mode.IfMissing? ==> f.defop.Some?)
  }

  /** Pad entry p stands for an own field before the i-th. */
  predicate InPad(c: Class, i: nat, p: nat) {
    p < |c.pad| && c.pad[p].Some? && Base(c) <= c.pad[p].value < Base(c) + i
  }

  /** Entries 0, 1 and 2 are @_, $self and %params, and no field has two entries. */
  predicate PadOk(c: Class) {
    && |c.pad| >= 3 && c.pad[0] == c.pad[1] == c.pad[2] == None
    && forall p, q :: 0 <= p < q < |c.pad| && c.pad[p].Some? ==> c.pad[p] != c.pad[q]
  }

  predicate Wf(c: Class) {
    && (c.super.Some? ==> Wf(c.super.value))
    && PadOk(c)
    && forall i :: 0 <= i < |c.fields| ==> FieldOk(c, i)
  }

  // ---------------------------------------------------------------------------------------------
  // What construction means
  // ---------------------------------------------------------------------------------------------

  type Params = map<string, Val>

  datatype Error = Missing(param: string) | Unrecognised(names: set<string>) | NotAnInstance | WrongClass

  datatype Result<+T> = Ok(value: T) | Err(error: Error)

  /** The value of a field and the parameters it leaves, given what its expression is worth. */
  function FieldValue(f: Field, scalar: Val, list: seq<Val>, params: Params): Result<(Val, Params)> {
    match f.sigil
    case Array => Ok((Arr(if f.defop.Some? then list else []), params))
    case Hash => Ok((Hsh(if f.defop.Some? then HashOf(list) else map[]), params))
    case Scalar =>
      var default := if f.defop.Some? then scalar else Undef;
      if f.param.None? then Ok((default, params))
      else
        var p := f.param.value;
        if p in params && Accepts(f.mode, params[p]) then Ok((params[p], params - {p}))
        else if f.defop.Some? then Ok((default, params - {p}))
        else Err(Missing(p))
  }

  predicate Accepts(mode: Mode, v: Val) {
    match mode
    case IfMissing => true
    case IfUndef => v != Undef
    case IfFalse => !False(v)
  }

  /** The values of the fields an expression uses. */
  function Used(c: Class, e: Expr, vals: seq<Val>): seq<Val> {
    seq(|e.uses|, i requires 0 <= i < |e.uses| => ValueAt(c, e.uses[i], vals))
  }

  function ValueAt(c: Class, p: nat, vals: seq<Val>): Val {
    if p < |c.pad| && c.pad[p].Some? && c.pad[p].value < |vals| then vals[c.pad[p].value] else Undef
  }

  /** Own field i, after the fields before it came out as vals. */
  function InitOne(c: Class, i: nat, vals: seq<Val>, params: Params): Result<(Val, Params)>
    requires i < |c.fields|
  {
    var f := c.fields[i];
    if f.defop.None? then FieldValue(f, Undef, [], params)
    else
      var args := Used(c, f.defop.value, vals);
      FieldValue(f, f.defop.value.scalar(args), f.defop.value.list(args), params)
  }

  /** All slots of the superclasses and the first n own ones. */
  function InitUpTo(c: Class, n: nat, params: Params): (r: Result<(seq<Val>, Params)>)
    requires n <= |c.fields|
    ensures r.Ok? ==> |r.value.0| == Base(c) + n
    decreases c, n
  {
    if n == 0 then
      if c.super.None? then Ok(([], params)) else Init(c.super.value, params)
    else
      var r := InitUpTo(c, n - 1, params);
      if r.Err? then r
      else
        var one := InitOne(c, n - 1, r.value.0, r.value.1);
        if one.Err? then Err(one.error) else Ok((r.value.0 + [one.value.0], one.value.1))
  }

  function Init(c: Class, params: Params): (r: Result<(seq<Val>, Params)>)
    ensures r.Ok? ==> |r.value.0| == Slots(c)
    decreases c, |c.fields| + 1
  {
    InitUpTo(c, |c.fields|, params)
  }

  /** Every ADJUST block of the chain, superclasses first. */
  function Adjusts(c: Class): seq<Adjust> {
    (if c.super.None? then [] else Adjusts(c.super.value)) + c.adjust
  }

  function Adjusted(blocks: seq<Adjust>, vals: seq<Val>): (s: seq<Val>)
    ensures |s| == |vals|
  {
    if blocks == [] then vals
    else blocks[|blocks| - 1].Apply(Adjusted(blocks[..|blocks| - 1], vals))
  }

  function Construct(c: Class, params: Params): Result<seq<Val>> {
    var r := Init(c, params);
    if r.Err? then Err(r.error)
    else if r.value.1 != map[] then Err(Unrecognised(r.value.1.Keys))
    else Ok(Adjusted(Adjusts(c), r.value.0))
  }

  // ---------------------------------------------------------------------------------------------
  // Op lists
  // ---------------------------------------------------------------------------------------------

  datatype ValOp =
    | Eval(e: Expr)
    | Die(param: string)
    | ExistsOr(param: string, other: ValOp)  // OP_HELEMEXISTSOR, deleting
    | DefinedOr(param: string, other: ValOp)  // delete $params{...} // ...
    | TrueOr(param: string, other: ValOp)  // delete $params{...} || ...

  /** The ops of an initfields CV; a targ of 0 means that no pad entry is set. */
  datatype Op =
    | MethStart
    | CallSuper(code: seq<Op>)
    | InitField(fieldix: nat, sigil: Sigil, valop: Option<ValOp>, targ: nat)

  /** fieldix_to_padix: the entry of a field in the pad from 2 up, or 0. */
  function PadixOf(pad: seq<Option<nat>>, fieldix: nat): (p: nat)
    ensures p != 0 ==> 2 <= p < |pad| && pad[p] == Some(fieldix)
    ensures p == 0 ==> forall q :: 2 <= q < |pad| ==> pad[q] != Some(fieldix)
  {
    if |pad| <= 2 then 0
    else if pad[|pad| - 1] == Some(fieldix) then |pad| - 1
    else PadixOf(pad[..|pad| - 1], fieldix)
  }

  function ValOpOf(f: Field): Option<ValOp> {
    if f.sigil.Scalar? && f.param.Some? then
      var p := f.param.value;
      var other := if f.defop.Some? then Eval(f.defop.value) else Die(p);
      Some(match f.mode
           case IfMissing => ExistsOr(p, other)
           case IfUndef => DefinedOr(p, other)
           case IfFalse => TrueOr(p, other))
    else if f.defop.Some? then Some(Eval(f.defop.value)) else None
  }

  function FieldOp(c: Class, i: nat): Op
    requires i < |c.fields|
  {
    InitField(Base(c) + i, c.fields[i].sigil, ValOpOf(c.fields[i]), PadixOf(c.pad, Base(c) + i))
  }

  /** class_seal_stash, up to the n-th own field. */
  function CompileUpTo(c: Class, n: nat): seq<Op>
    requires n <= |c.fields|
    decreases c, n
  {
    if n == 0 then [MethStart] + if c.super.None? then [] else [CallSuper(Compile(c.super.value))]
    else CompileUpTo(c, n - 1) + [FieldOp(c, n - 1)]
  }

  function Compile(c: Class): seq<Op>
    decreases c, |c.fields| + 1
  {
    CompileUpTo(c, |c.fields|)
  }

  // ---------------------------------------------------------------------------------------------
  // Running them
  // ---------------------------------------------------------------------------------------------

  /** The object's slots, the parameter hash, and the pad of the running CV. */
  datatype State = State(slots: seq<Option<Val>>, params: Params, pad: map<nat, Val>)

  function Args(e: Expr, pad: map<nat, Val>): seq<Val> {
    seq(|e.uses|, i requires 0 <= i < |e.uses| => if e.uses[i] in pad then pad[e.uses[i]] else Undef)
  }

  /** delete $params{p} */
  function Deleted(params: Params, p: string): Val {
    if p in params then params[p] else Undef
  }

  function EvalScalar(v: ValOp, pad: map<nat, Val>, params: Params): Result<(Val, Params)> {
    match v
    case Eval(e) => Ok((e.scalar(Args(e, pad)), params))
    case Die(p) => Err(Missing(p))
    case ExistsOr(p, other) =>
      if p in params then Ok((params[p], params - {p})) else EvalScalar(other, pad, params)
    case DefinedOr(p, other) =>
      var got := Deleted(params, p);
      if got != Undef then Ok((got, params - {p})) else EvalScalar(other, pad, params - {p})
    case TrueOr(p, other) =>
      var got := Deleted(params, p);
      if !False(got) then Ok((got, params - {p})) else EvalScalar(other, pad, params - {p})
  }

  function EvalList(v: ValOp, pad: map<nat, Val>): seq<Val> {
    if v.Eval? then v.e.list(Args(v.e, pad)) else []
  }

  /** pp_initfield's value. */
  function OpValue(sigil: Sigil, valop: Option<ValOp>, pad: map<nat, Val>, params: Params): Result<(Val, Params)> {
    match sigil
    case Scalar => if valop.None? then Ok((Undef, params)) else EvalScalar(valop.value, pad, params)
    case Array => Ok((Arr(if valop.None? then [] else EvalList(valop.value, pad)), params))
    case Hash => Ok((Hsh(if valop.None? then map[] else HashOf(EvalList(valop.value, pad))), params))
  }

  function Step(op: Op, st: State): Result<State>
    decreases op, 0
  {
    match op
    case MethStart => Ok(st)
    case CallSuper(code) =>
      var r := Run(code, State(st.slots, st.params, map[]));
      if r.Err? then r else Ok(State(r.value.slots, r.value.params, st.pad))
    case InitField(fieldix, sigil, valop, targ) =>
      var r := OpValue(sigil, valop, st.pad, st.params);
      if r.Err? then Err(r.error)
      else
        var (v, params) := r.value;
        Ok(State(if fieldix < |st.slots| then st.slots[fieldix := Some(v)] else st.slots, params,
                 if targ == 0 then st.pad else st.pad[targ := v]))
  }

  function Run(code: seq<Op>, st: State): Result<State>
    decreases code, 1
  {
    if code == [] then Ok(st)
    else
      var r := Run(code[..|code| - 1], st);
      if r.Err? then r else Step(code[|code| - 1], r.value)
  }
}
