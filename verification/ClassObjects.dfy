/** class.c in place: stashes under construction, sealing, and the run-time ops on objects. */
module ClassObjects {
  import opened ClassSpec
  import opened ClassLaws

  // ---------------------------------------------------------------------------------------------
  // Declaring and sealing a class
  // ---------------------------------------------------------------------------------------------

  /** A PADNAME with its padname_fieldinfo. */
  datatype PadName = PadName(sigil: Sigil, name: string, fieldix: nat, paramname: Option<string>,
                             defop: Option<Expr>, def_if_undef: bool, def_if_false: bool)

  function ModeOf(pn: PadName): Mode {
    if pn.def_if_undef then IfUndef else if pn.def_if_false then IfFalse else IfMissing
  }

  /** def_if_undef and def_if_false are only ever set, and the former is looked at first. */
  function LaterMode(was: Mode, mode: Mode): Mode {
    if was.IfUndef? || mode.IfUndef? then IfUndef else if was.IfFalse? then IfFalse else mode
  }

  function Declared(pn: PadName): Field {
    Field(pn.sigil, pn.name, pn.paramname, pn.defop, ModeOf(pn))
  }

  datatype DeclError = SuperclassTwice | NotScalar | ParamTwice | ParamInUse

  class Stash {
    var superclass: Stash?
    var isa: seq<Stash>  // @ISA, linearised
    var next_fieldix: nat
    var fields: seq<PadName>
    var param_map: map<string, nat>
    var adjust_blocks: seq<Adjust>
    var pad: seq<Option<nat>>  // the names in the pad of the suspended initfields CV
    var initfields: Option<seq<Op>>
    ghost var decl: Class

    /** The stash says what the declaration says. */
    ghost predicate Valid()
      reads this, superclass, isa
    {
      && Wf(decl)
      && isa == (if superclass == null then [] else [superclass] + superclass.isa)
      && (forall a <- isa :: Above(a))
      && (if superclass == null then decl.super == None
          else superclass != this && decl.super == Some(superclass.decl)
               && superclass.initfields == Some(Compile(superclass.decl)))
      && next_fieldix == Slots(decl)
      && |fields| == |decl.fields|
      && (forall i :: 0 <= i < |fields| ==> Names(i))
      && param_map == ParamMap(decl)
      && adjust_blocks == Adjusts(decl)
      && pad == decl.pad
      && (initfields.Some? ==> initfields == Some(Compile(decl)))
    }

    /** A sealed class that this one derives from. */
    ghost predicate Above(a: Stash)
      reads this, a
    {
      a != this && a.initfields.Some? && decl.super.Some? && DerivedFrom(decl.super.value, a.decl)
    }

    ghost predicate Names(i: nat)
      requires i < |fields| == |decl.fields|
      reads this
    {
      Declared(fields[i]) == decl.fields[i] && fields[i].fieldix == Base(decl) + i
    }

    /** class_setup_stash */
    constructor ()
      ensures Valid() && initfields == None && decl == Class(None, [], [None, None, None], [])
      ensures superclass == null
    {
      superclass, isa, next_fieldix, fields, param_map := null, [], 0, [], map[];
      adjust_blocks, pad, initfields := [], [None, None, None], None;
      decl := Class(None, [], [None, None, None], []);
    }

    /** apply_class_attribute_isa, before any field or ADJUST block and naming a sealed class. */
    method ApplyIsa(super: Stash) returns (error: Option<DeclError>)
      requires Valid() && super.Valid() && super != this && super.initfields.Some? && initfields == None
      requires fields == [] && decl.adjust == []
      modifies this
      ensures Valid() && initfields == None
      ensures if old(superclass) != null then error == Some(SuperclassTwice) && unchanged(this)
              else error == None && decl == old(decl).(super := Some(super.decl))
    {
      hide Wf;
      hide Slots;
      hide ParamMap;
      hide Adjusts;
      hide Compile;
      if superclass != null {
        return Some(SuperclassTwice);
      }
      Emptied(decl, super.decl);
      superclass := super;
      isa := [super] + super.isa;
      next_fieldix := super.next_fieldix;
      adjust_blocks := adjust_blocks + super.adjust_blocks;
      param_map := super.param_map;
      decl := decl.(super := Some(super.decl));
      forall a <- isa ensures Above(a) {
        assert a == super || super.Above(a);
      }
      return None;
    }

    /** class_add_field */
    method AddField(sigil: Sigil, name: string)
      requires Valid() && initfields == None
      modifies this
      ensures Valid() && initfields == None && superclass == old(superclass) && isa == old(isa)
      ensures decl == old(decl).(fields := old(decl).fields + [Field(sigil, name, None, None, IfMissing)])
      ensures fields[|fields| - 1].fieldix == old(next_fieldix)
    {
      hide Wf;
      hide DerivedFrom;
      hide Slots;
      hide Base;
      hide ParamMap;
      hide Adjusts;
      hide Compile;
      FieldAdded(decl, Field(sigil, name, None, None, IfMissing));
      fields := fields + [PadName(sigil, name, next_fieldix, None, None, false, false)];
      next_fieldix := next_fieldix + 1;
      decl := decl.(fields := decl.fields + [Field(sigil, name, None, None, IfMissing)]);
      assert forall i :: 0 <= i < |old(fields)| ==> old(Names(i)) && fields[i] == old(fields)[i];
    }

    /** apply_field_attribute_param, on the field being declared; the name defaults to the field's own. */
    method ApplyParam(value: Option<string>) returns (error: Option<DeclError>)
      requires Valid() && initfields == None && fields != []
      modifies this
      ensures Valid() && initfields == None && superclass == old(superclass) && isa == old(isa)
      ensures var n := |old(fields)| - 1;
        var f := old(decl).fields[n];
        var p := if value.Some? then value.value else f.name;
        if !f.sigil.Scalar? then error == Some(NotScalar) && unchanged(this)
        else if f.param.Some? then error == Some(ParamTwice) && unchanged(this)
        else if p in ParamMap(old(decl)) then error == Some(ParamInUse) && unchanged(this)
        else error == None && decl == old(decl).(fields := old(decl).fields[n := f.(param := Some(p))])
    {
      hide Wf;
      hide DerivedFrom;
      hide Slots;
      hide Base;
      hide ParamMap;
      hide Adjusts;
      hide Compile;
      var n := |fields| - 1;
      var pn := fields[n];
      assert Names(n);
      var name := if value.Some? then value.value else pn.name;
      if !pn.sigil.Scalar? {
        return Some(NotScalar);
      }
      if pn.paramname.Some? {
        return Some(ParamTwice);
      }
      if name in param_map {
        return Some(ParamInUse);
      }
      FieldReplaced(decl, decl.fields[n].(param := Some(name)));
      fields := fields[n := pn.(paramname := Some(name))];
      param_map := param_map[name := pn.fieldix];
      decl := decl.(fields := decl.fields[n := decl.fields[n].(param := Some(name))]);
      assert forall i :: 0 <= i < n ==> old(Names(i)) && fields[i] == old(fields)[i];
      return None;
    }

    /** class_set_field_defop, on the field being declared: the last expression replaces any earlier one,
        but `//=` and `||=` are never taken back. */
    method SetDefop(mode: Mode, defop: Expr)
      requires Valid() && initfields == None && fields != []
      requires forall p <- defop.uses :: InPad(decl, |fields| - 1, p)
      modifies this
      ensures Valid() && initfields == None && superclass == old(superclass) && isa == old(isa)
      ensures var n := |old(fields)| - 1;
        var f := old(decl).fields[n];
        var now := f.(defop := Some(defop), mode := LaterMode(f.mode, mode));
        && decl == old(decl).(fields := old(decl).fields[n := now])
        && (f.mode.IfMissing? ==> decl.fields[n].mode == mode)
    {
      hide Wf;
      hide DerivedFrom;
      hide Slots;
      hide Base;
      hide ParamMap;
      hide Adjusts;
      hide Compile;
      hide InPad;
      var n := |fields| - 1;
      var pn := fields[n];
      assert Names(n);
      ghost var f := decl.fields[n].(defop := Some(defop), mode := LaterMode(decl.fields[n].mode, mode));
      FieldReplaced(decl, f);
      fields := fields[n := pn.(defop := Some(defop), def_if_undef := pn.def_if_undef || mode.IfUndef?,
                                def_if_false := pn.def_if_false || mode.IfFalse?)];
      decl := decl.(fields := decl.fields[n := f]);
      assert forall i :: 0 <= i < n ==> old(Names(i)) && fields[i] == old(fields)[i];
    }

    /** The pad entry under which the initialiser being parsed sees an earlier own field. */
    method Capture(fieldix: nat) returns (padix: nat)
      requires Valid() && initfields == None && fields != []
      requires Base(decl) <= fieldix < Base(decl) + |fields| - 1
      modifies this
      ensures Valid() && initfields == None && superclass == old(superclass) && isa == old(isa) && fields == old(fields)
      ensures old(pad) <= pad && decl == old(decl).(pad := pad) && InPad(decl, |fields| - 1, padix)
      ensures pad[padix] == Some(fieldix)
    {
      hide Wf;
      hide DerivedFrom;
      hide Slots;
      hide ParamMap;
      hide Adjusts;
      hide Compile;
      padix := PadixOf(pad, fieldix);
      WfPad(decl);
      if padix == 0 {
        EntryAdded(decl, fieldix);
        padix := |pad|;
        pad := pad + [Some(fieldix)];
        decl := decl.(pad := decl.pad + [Some(fieldix)]);
        forall i | 0 <= i < |fields| ensures Names(i) {
          assert old(Names(i));
        }
      }
    }

    /** class_add_ADJUST */
    method AddAdjust(block: Adjust)
      requires Valid() && initfields == None
      modifies this
      ensures Valid() && initfields == None && superclass == old(superclass) && isa == old(isa)
      ensures decl == old(decl).(adjust := old(decl).adjust + [block])
    {
      hide Wf;
      hide DerivedFrom;
      hide Slots;
      hide Base;
      hide ParamMap;
      hide Adjusts;
      hide Compile;
      BlockAdded(decl, block);
      adjust_blocks := adjust_blocks + [block];
      decl := decl.(adjust := decl.adjust + [block]);
      forall i | 0 <= i < |fields| ensures Names(i) {
        assert old(Names(i));
      }
    }

    /** class_seal_stash: the op list of the initfields CV. */
    method Seal()
      requires Valid() && initfields == None
      modifies this
      ensures Valid() && initfields == Some(Compile(decl))
      ensures decl == old(decl) && superclass == old(superclass) && isa == old(isa)
    {
      hide Wf;
      hide DerivedFrom;
      hide Slots;
      hide Base;
      hide ParamMap;
      hide Adjusts;
      var fieldix_to_padix := PadIndex(pad);
      var ops := [MethStart];
      if superclass != null {
        ops := ops + [CallSuper(superclass.initfields.value)];
      } else {
        assert ops + [] == ops;
      }
      var i := 0;
      while i < |fields|
        invariant 0 <= i <= |fields|
        invariant ops == CompileUpTo(decl, i)
      {
        assert Names(i);
        ops := ops + [SealField(fields[i], fieldix_to_padix, pad)];
        i := i + 1;
      }
      initfields := Some(ops);
      forall i | 0 <= i < |fields| ensures Names(i) {
        assert old(Names(i));
      }
    }
  }

  /** fieldix_to_padix: which fields some initialiser looks up in the pad. */
  method PadIndex(pad: seq<Option<nat>>) returns (m: map<nat, nat>)
    ensures IndexOf(pad, m)
  {
    m := map[];
    var padix := 2;
    if |pad| < 2 {
      return;
    }
    while padix < |pad|
      invariant 2 <= padix <= |pad| && IndexOf(pad[..padix], m)
    {
      assert pad[..padix + 1][..padix] == pad[..padix];
      if pad[padix].Some? {
        m := m[pad[padix].value := padix];
      }
      padix := padix + 1;
    }
    assert pad[..padix] == pad;
  }

  ghost predicate IndexOf(pad: seq<Option<nat>>, m: map<nat, nat>) {
    forall f: nat :: PadixOf(pad, f) == if f in m then m[f] else 0
  }

  /** The OP_INITFIELD of one field. */
  function SealField(pn: PadName, fieldix_to_padix: map<nat, nat>, ghost pad: seq<Option<nat>>): (op: Op)
    requires IndexOf(pad, fieldix_to_padix)
    ensures op == InitField(pn.fieldix, pn.sigil, ValOpOf(Declared(pn)), PadixOf(pad, pn.fieldix))
  {
    var valop := if pn.defop.Some? then Some(Eval(pn.defop.value)) else None;
    var targ := if pn.fieldix in fieldix_to_padix then fieldix_to_padix[pn.fieldix] else 0;
    match pn.sigil
    case Scalar =>
      if pn.paramname.None? then InitField(pn.fieldix, Scalar, valop, targ)
      else
        var p := pn.paramname.value;
        var other := if valop.None? then Die(p) else valop.value;
        InitField(pn.fieldix, Scalar,
                  Some(if pn.def_if_undef then DefinedOr(p, other)
                       else if pn.def_if_false then TrueOr(p, other)
                       else ExistsOr(p, other)),
                  targ)
    case Array => InitField(pn.fieldix, Array, valop, targ)
    case Hash => InitField(pn.fieldix, Hash, valop, targ)
  }

  /** A class with nothing of its own yet takes everything from its superclass. */
  lemma Emptied(c: Class, super: Class)
    requires c.super == None && c.fields == [] && c.adjust == [] && Wf(c) && Wf(super)
    ensures var d := c.(super := Some(super));
      Wf(d) && Slots(d) == Slots(super) && ParamMap(d) == ParamMap(super) && Adjusts(d) == Adjusts(super)
    ensures Adjusts(c) == []
  {
    var d := c.(super := Some(super));
    assert ParamsUpTo(d, 0) == ParamMap(super);
  }

  /** The parameter map after n fields depends on those fields only. */
  lemma {:induction false} ParamsOfPrefix(c: Class, d: Class, n: nat)
    requires c.super == d.super && n <= |c.fields| && n <= |d.fields| && c.fields[..n] == d.fields[..n]
    ensures ParamsUpTo(c, n) == ParamsUpTo(d, n) && Base(c) == Base(d)
  {
    if n > 0 {
      assert c.fields[..n - 1] == c.fields[..n][..n - 1] == d.fields[..n][..n - 1] == d.fields[..n - 1];
      assert c.fields[n - 1] == c.fields[..n][n - 1] == d.fields[..n][n - 1];
      ParamsOfPrefix(c, d, n - 1);
    }
  }

  /** Fields before the n-th are as well-formed as before when later ones change. */
  lemma FieldsOfPrefix(c: Class, d: Class, n: nat)
    requires c.super == d.super && c.pad <= d.pad
    requires n <= |c.fields| && n <= |d.fields| && c.fields[..n] == d.fields[..n]
    requires forall i :: 0 <= i < n ==> FieldOk(c, i)
    ensures forall i :: 0 <= i < n ==> FieldOk(d, i)
  {
    forall i | 0 <= i < n ensures FieldOk(d, i) {
      assert FieldOk(c, i);
      assert c.fields[i] == c.fields[..n][i] == d.fields[..n][i];
      assert c.fields[..i] == c.fields[..n][..i] == d.fields[..n][..i] == d.fields[..i];
      ParamsOfPrefix(c, d, i);
    }
  }

  lemma FieldAdded(c: Class, f: Field)
    requires Wf(c) && f.param == None && f.defop == None && f.mode == IfMissing
    ensures var d := c.(fields := c.fields + [f]);
      Wf(d) && Slots(d) == Slots(c) + 1 && Base(d) == Base(c) && ParamMap(d) == ParamMap(c) && Adjusts(d) == Adjusts(c)
    ensures Base(c) + |c.fields| == Slots(c)
  {
    var d, n := c.(fields := c.fields + [f]), |c.fields|;
    assert d.fields[..n] == c.fields == c.fields[..n];
    FieldsOfPrefix(c, d, n);
    ParamsOfPrefix(c, d, n);
    assert FieldOk(d, n);
  }

  /** The field being declared, the last one, gets a parameter of its own or an initialiser. */
  lemma FieldReplaced(c: Class, f: Field)
    requires Wf(c) && c.fields != []
    requires var n := |c.fields| - 1;
      var g := c.fields[n];
      || (f == g.(param := f.param) && f.param.Some? && f.sigil.Scalar? && g.param == None
          && f.param.value !in ParamMap(c))
      || (f == g.(defop := f.defop, mode := f.mode) && f.defop.Some?
          && forall p <- f.defop.value.uses :: InPad(c, n, p))
    ensures var n := |c.fields| - 1;
      var d := c.(fields := c.fields[n := f]);
      && Wf(d) && Slots(d) == Slots(c) && Base(d) == Base(c) && Adjusts(d) == Adjusts(c)
      && ParamMap(d) == if c.fields[n].param == f.param then ParamMap(c) else ParamMap(c)[f.param.value := Base(c) + n]
  {
    hide FieldOk;
    var n := |c.fields| - 1;
    var d := c.(fields := c.fields[n := f]);
    assert d.fields[..n] == c.fields[..n];
    assert FieldOk(c, n);
    FieldsOfPrefix(c, d, n);
    ParamsOfPrefix(c, d, n);
    LastOk(c, d, n);
  }

  lemma LastOk(c: Class, d: Class, n: nat)
    requires |c.fields| == |d.fields| == n + 1 && d == c.(fields := c.fields[n := d.fields[n]])
    requires FieldOk(c, n) && ParamsUpTo(c, n) == ParamsUpTo(d, n) && Base(c) == Base(d)
    requires var f, g := d.fields[n], c.fields[n];
      || (f == g.(param := f.param) && f.param.Some? && f.sigil.Scalar? && g.param == None
          && f.param.value !in ParamMap(c))
      || (f == g.(defop := f.defop, mode := f.mode) && f.defop.Some?
          && forall p <- f.defop.value.uses :: InPad(c, n, p))
    ensures FieldOk(d, n)
  {
    assert forall p :: InPad(c, n, p) ==> InPad(d, n, p);
  }

  lemma WfPad(c: Class)
    requires Wf(c)
    ensures PadOk(c)
  {
  }

  lemma EntryAdded(c: Class, fieldix: nat)
    requires Wf(c) && PadixOf(c.pad, fieldix) == 0
    ensures var d := c.(pad := c.pad + [Some(fieldix)]);
      Wf(d) && Slots(d) == Slots(c) && Base(d) == Base(c) && ParamMap(d) == ParamMap(c) && Adjusts(d) == Adjusts(c)
  {
    var d, n := c.(pad := c.pad + [Some(fieldix)]), |c.fields|;
    FieldsOfPrefix(c, d, n);
    ParamsOfPrefix(c, d, n);
  }

  lemma BlockAdded(c: Class, block: Adjust)
    requires Wf(c)
    ensures var d := c.(adjust := c.adjust + [block]);
      && Wf(d) && Slots(d) == Slots(c) && Base(d) == Base(c) && ParamMap(d) == ParamMap(c)
      && Adjusts(d) == Adjusts(c) + [block]
  {
    var d, n := c.(adjust := c.adjust + [block]), |c.fields|;
    FieldsOfPrefix(c, d, n);
    ParamsOfPrefix(c, d, n);
  }
}
