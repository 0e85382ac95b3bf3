/**
 * The other side of the promise: a report may name a break although every old payload still validates.
 * When a reported break is real, rule by rule and at any depth, and the alarms that are false.
 */
module SchemaAlarms {
  import opened Options
  import opened JsonSchema
  import opened FiniteCover
  import opened SchemaInclusion
  import opened SchemaCheck
  import opened SchemaReport
  import opened SchemaSoundness

  // ---- Violations some old payload shows ----

  /** Old payloads get as far as the node's object keywords. */
  predicate Exposed(o: Schema) {
    o.Node? && o.enums.None? && Reaches(o, KObject)
  }

  /**
   * A violation that an old payload runs into: a newly required field, always; a closed object, when
   * undeclared properties could have a value; a removed property, when some value of it is no undeclared one.
   */
  ghost predicate NodeReal(o: Schema, n: Schema, path: seq<string>, rule: Rule, subject: string)
    decreases o, 2
  {
    && Exposed(o) && n.Node?
    && (|| (path == ["required"] && rule == RequiredAdded && NewlyRequired(o, n, subject))
        || (path == ["additionalProperties"] && rule == AdditionalPropertiesClosed && subject == ""
            && Closes(o, n) && Inhabited(ExtraOf(o)))
        || (exists i :: 0 <= i < |Props(o)| && EntryReal(Props(o)[i], n, path, rule, subject)))
  }

  ghost predicate EntryReal(p: Property, n: Schema, path: seq<string>, rule: Rule, subject: string)
    decreases p, 4
  {
    && ["properties", p.name] <= path
    && match Find(Props(n), p.name)
       case None => path == ["properties", p.name] && rule == PropertyRemoved && subject == "" && !Includes(p.schema, ExtraOf(n))
       case Some(sub) => SideReal(p.schema, sub, path[2..], rule, subject)
  }

  /** A narrowed type is real when some kind of value is lost; a cut enumeration, when a cut value was valid. */
  ghost predicate SideReal(o: Schema, n: Schema, path: seq<string>, rule: Rule, subject: string)
    decreases o, 3
  {
    && o.Node? && n.Node?
    && (|| (path == ["type"] && rule == TypeNarrowed && subject == "" && LosesType(o, n)
            && o.enums.None? && !TypesCovered(o, n))
        || (path == ["enum"] && rule == EnumRemoved && subject == "" && CutsValid(o, n))
        || (HasObjectShape(o) && NodeReal(o, n, path, rule, subject))
        || (BothItemNodes(o, n) && o.enums.None? && Reaches(o, KArray) && ["items"] <= path
            && NodeReal(o.items.value, n.items.value, path[1..], rule, subject)))
  }

  ghost predicate CutsValid(o: Schema, n: Schema)
    requires o.Node? && n.Node?
  {
    o.enums.Some? && n.enums.Some? && exists v | v in o.enums.value && Valid(o, v) :: forall w | w in n.enums.value :: !SameMember(v, w)
  }

  lemma {:induction false} CutIsBreak(o: Schema, n: Schema)
    requires o.Node? && n.Node? && CutsValid(o, n)
    ensures LosesMember(o, n) && !Backward(o, n)
  {
    hide SameMember;
    var v :| v in o.enums.value && Valid(o, v) && forall w | w in n.enums.value :: !SameMember(v, w);
    assert v !in n.enums.value by { SameAsItself(v); }
    assert !Valid(n, v);
  }

  lemma {:induction false} SameAsItself(v: Json)
    ensures SameMember(v, v)
  {
    FreezeExactly(v, v);
  }

  lemma {:induction false} MissingIsBreak(o: Schema, n: Schema, r: string)
    requires Exposed(o) && NewlyRequired(o, n, r)
    ensures !Backward(o, n)
  {
    var v := LeastObject(o);
    assert Valid(o, v) && !Valid(n, v);
  }

  lemma {:induction false} ValueIsBreak(o: Schema, n: Schema, name: string)
    requires Exposed(o) && n.Node? && !Backward(At(o, name), At(n, name))
    ensures !Backward(o, n)
  {
    hide Valid, Exposed;
    var w :| Valid(At(o, name), w) && !Valid(At(n, name), w);
    assert o.Node? && o.enums.None? && Reaches(o, KObject) by { ExposedMeans(o); }
    var v := EscapeAt(o, n, name, w);
  }

  lemma {:induction false} ExposedMeans(o: Schema)
    requires Exposed(o)
    ensures o.Node? && o.enums.None? && Reaches(o, KObject)
  {
  }

  lemma {:induction false} ClosingIsBreak(o: Schema, n: Schema)
    requires Exposed(o) && n.Node? && Closes(o, n) && Inhabited(ExtraOf(o))
    ensures !Backward(o, n)
  {
    var name := FreshName(o, n);
    UnlistedName(o, name);
    UnlistedName(n, name);
    assert Valid(ExtraOf(o), Example(ExtraOf(o))) && !Valid(ExtraOf(n), Example(ExtraOf(o)));
    ValueIsBreak(o, n, name);
  }

  lemma {:induction false} KindIsBreak(o: Schema, n: Schema)
    requires o.Node? && n.Node? && o.enums.None? && !TypesCovered(o, n)
    ensures !Backward(o, n)
  {
    var k: Kind :| Reaches(o, k) && !Permits(n.typ, k);
    assert Valid(o, Witness(o, k)) && !Valid(n, Witness(o, k));
  }

  lemma {:induction false} ElementIsBreak(o: Schema, n: Schema)
    requires o.Node? && n.Node? && o.enums.None? && Reaches(o, KArray) && !Backward(ItemsOf(o), ItemsOf(n))
    ensures !Backward(o, n)
  {
    var e :| Valid(ItemsOf(o), e) && !Valid(ItemsOf(n), e);
    var v := JArr([e]);
    assert e in v.elems;
    assert Valid(o, v) && !Valid(n, v);
  }

  /** Such a violation is reported, and some old payload is rejected. */
  lemma {:induction false} RealIsBreak(o: Schema, n: Schema, path: seq<string>, rule: Rule, subject: string)
    requires WellFormed(o) && WellFormed(n) && NodeReal(o, n, path, rule, subject)
    ensures NodeViolation(o, n, path, rule, subject) && !Backward(o, n)
    decreases o, 2
  {
    hide EntryReal, EntryViolation, Backward, Exposed, Inhabited;
    if path == ["required"] && rule == RequiredAdded && NewlyRequired(o, n, subject) {
      MissingIsBreak(o, n, subject);
    } else if i :| 0 <= i < |Props(o)| && EntryReal(Props(o)[i], n, path, rule, subject) {
      FindUnique(o, i);
      EntryIsBreak(o, i, n, path, rule, subject);
    } else {
      ClosingIsBreak(o, n);
    }
  }

  lemma {:induction false} EntryIsBreak(o: Schema, i: nat, n: Schema, path: seq<string>, rule: Rule, subject: string)
    requires WellFormed(o) && WellFormed(n) && Exposed(o) && n.Node? && i < |Props(o)| && EntryReal(Props(o)[i], n, path, rule, subject)
    ensures EntryViolation(Props(o)[i], n, path, rule, subject) && !Backward(o, n)
    decreases o, 1
  {
    hide SideReal, SideViolation, Backward, Exposed, Includes;
    var p := Props(o)[i];
    FindUnique(o, i);
    match Find(Props(n), p.name)
    case None =>
      IncludesExact(p.schema, ExtraOf(n));
      ValueIsBreak(o, n, p.name);
    case Some(sub) =>
      assert WellFormed(sub) by { var j :| 0 <= j < |Props(n)| && Props(n)[j] == Property(p.name, sub); }
      SideIsBreak(p.schema, sub, path[2..], rule, subject);
      ValueIsBreak(o, n, p.name);
  }

  lemma {:induction false} SideIsBreak(o: Schema, n: Schema, path: seq<string>, rule: Rule, subject: string)
    requires WellFormed(o) && WellFormed(n) && SideReal(o, n, path, rule, subject)
    ensures SideViolation(o, n, path, rule, subject) && !Backward(o, n)
    decreases o, 3
  {
    hide NodeReal, NodeViolation, Backward, CutsValid, TypesCovered, LosesMember, LosesType;
    if path == ["type"] && rule == TypeNarrowed && subject == "" && LosesType(o, n) && o.enums.None? && !TypesCovered(o, n) {
      KindIsBreak(o, n);
    } else if path == ["enum"] && rule == EnumRemoved && subject == "" && CutsValid(o, n) {
      CutIsBreak(o, n);
    } else if HasObjectShape(o) && NodeReal(o, n, path, rule, subject) {
      RealIsBreak(o, n, path, rule, subject);
    } else {
      RealIsBreak(o.items.value, n.items.value, path[1..], rule, subject);
      ElementIsBreak(o, n);
    }
  }

  // ---- False alarms ----

  /** Of two bare types, the report is wrong in one case exactly: only "integer" went, and "number" covers it. */
  lemma {:induction false} TypeAlarmExactly(t: TypeKeyword, u: TypeKeyword)
    requires TypeNames(t) != {} && TypeNames(u) != {}
    ensures IsTypeNarrowed(t, u) && Backward(Typed(t), Typed(u)) <==> TypeNames(t) - TypeNames(u) == {TInteger} && TNumber in TypeNames(u)
  {
    hide Includes, Valid;
    IncludesExact(Typed(t), Typed(u));
    BareInclusion(t, u);
    var gone := TypeNames(t) - TypeNames(u);
    if gone == {TInteger} && TNumber in TypeNames(u) {
      assert TInteger in gone;
      forall k: Kind | Permits(t, k) ensures Permits(u, k) { CoveredKind(t, u, k); }
    } else if IsTypeNarrowed(t, u) {
      LostKind(t, u);
    }
  }

  lemma {:induction false} BareInclusion(t: TypeKeyword, u: TypeKeyword)
    ensures Includes(Typed(t), Typed(u)) <==> !Inhabited(Typed(t)) || forall k: Kind :: Permits(t, k) ==> Permits(u, k)
  {
    var o, n := Typed(t), Typed(u);
    assert SomeObject(o);
    assert NamesOf(o) == {} && NamesOf(n) == {};
    assert ObjectIncludes(o, n);
    assert TypesCovered(o, n) <==> forall k: Kind :: Permits(t, k) ==> Permits(u, k) by {
      assert forall k: Kind :: Reaches(o, k) <==> Permits(t, k);
    }
  }

  lemma {:induction false} CoveredKind(t: TypeKeyword, u: TypeKeyword, k: Kind)
    requires TypeNames(t) - TypeNames(u) == {TInteger} && TNumber in TypeNames(u) && Permits(t, k) && TypeNames(t) != {}
    ensures Permits(u, k)
  {
    var n :| n in TypeNames(t) && Accepts(n, k);
    if n !in TypeNames(u) {
      assert n in TypeNames(t) - TypeNames(u);
      assert Accepts(TNumber, k);
    }
  }

  lemma {:induction false} LostKind(t: TypeKeyword, u: TypeKeyword)
    requires IsTypeNarrowed(t, u) && !(TypeNames(t) - TypeNames(u) == {TInteger} && TNumber in TypeNames(u))
    ensures Inhabited(Typed(t)) && exists k: Kind :: Permits(t, k) && !Permits(u, k)
  {
    var gone := TypeNames(t) - TypeNames(u);
    assert gone != {} by { var n :| n in TypeNames(t) && n !in TypeNames(u); assert n in gone; }
    var n :| n in gone && (n == TInteger ==> TNumber !in TypeNames(u)) by { Telling(gone, u); }
    var k := match n case TNull => KNull case TBoolean => KBoolean case TInteger => KInteger case TNumber => KFraction
      case TString => KString case TArray => KArray case TObject => KObject;
    assert Accepts(n, k) && Permits(t, k);
    assert forall m :: Accepts(m, k) ==> m == n || (n == TInteger && m == TNumber);
    assert u != NoType && n !in TypeNames(u);
    assert !Permits(u, k);
    assert SomeObject(Typed(t));
  }

  lemma {:induction false} Telling(gone: set<TypeName>, u: TypeKeyword)
    requires gone != {} && !(gone == {TInteger} && TNumber in TypeNames(u))
    ensures exists n: TypeName :: n in gone && (n == TInteger ==> TNumber !in TypeNames(u))
  {
    if gone == {TInteger} {
      assert TInteger in gone;
    } else {
      var n :| n in gone;
      if n == TInteger {
        assert gone - {TInteger} != {};
        var m :| m in gone - {TInteger};
      }
    }
  }

  /** Widening a property from integer to number is reported, and harms nobody. */
  lemma {:induction false} WideningIsReported(link: Link, name: string)
    ensures var o, n := ObjectWith(name, Typed(OneType(TInteger))), ObjectWith(name, Typed(OneType(TNumber)));
      NodeBreaks(link, o, n, []) != [] && Backward(o, n)
  {
    var x, y := Typed(OneType(TInteger)), Typed(OneType(TNumber));
    assert TypeNames(x.typ) == {TInteger} && TypeNames(y.typ) == {TNumber} && !({TInteger} <= {TNumber}) by { assert TInteger in {TInteger} && TInteger !in {TNumber}; }
    assert Backward(x, y) by { TypeAlarmExactly(x.typ, y.typ); assert {TInteger} - {TNumber} == {TInteger}; }
    LiftBackward(name, x, y);
    var o, n := ObjectWith(name, x), ObjectWith(name, y);
    var b := Break(link, TypeNarrowed, ["properties", name, "type"], "");
    assert Props(o)[0] == Property(name, x) && Props(n)[0] == Property(name, y);
    assert b.pointer[2..] == ["type"];
    assert SideViolation(x, y, ["type"], TypeNarrowed, "");
    assert EntryViolation(Props(o)[0], n, b.pointer, TypeNarrowed, "");
    assert NodeViolation(o, n, b.pointer, TypeNarrowed, "");
    ReportIsExact(link, o, n, b);
  }

  lemma {:induction false} LiftBackward(name: string, x: Schema, y: Schema)
    requires Backward(x, y)
    ensures Backward(ObjectWith(name, x), ObjectWith(name, y))
  {
    var o, n := ObjectWith(name, x), ObjectWith(name, y);
    forall v | Valid(o, v) ensures Valid(n, v) {
      if v.JObj? {
        forall k | k in v.fields ensures Valid(At(n, k), v.fields[k]) {
          assert Valid(At(o, k), v.fields[k]);
          if k == name { assert Props(o)[0].name == name; }
        }
      }
    }
  }

  /** Removing a property is reported, and from an object that stays open it harms nobody. */
  lemma {:induction false} RemovalIsReported(link: Link, name: string, sub: Schema)
    ensures var o := Anything.(props := Table([Property(name, sub)]));
      NodeBreaks(link, o, Anything, []) != [] && Backward(o, Anything)
  {
    var o := Anything.(props := Table([Property(name, sub)]));
    var b := Break(link, PropertyRemoved, ["properties", name], "");
    assert Props(o)[0] == Property(name, sub);
    assert EntryViolation(Props(o)[0], Anything, b.pointer, PropertyRemoved, "");
    ReportIsExact(link, o, Anything, b);
    forall v ensures Valid(Anything, v) { }
  }
}
