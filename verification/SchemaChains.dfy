/**
 * Comparing a schema with itself and along a chain: when clean comparisons compose, exactly.
 */
module SchemaChains {
  import opened Options
  import opened JsonSchema
  import opened FiniteCover
  import opened SchemaInclusion
  import opened SchemaCheck
  import opened SchemaSoundness

  // ---- Reflexivity and transitivity of the relation ----

  lemma {:induction false} CompatibleWithItself(m: Mode, s: Schema)
    requires WellFormed(s)
    ensures Compatible(m, s, s)
    decreases s, m.Side?
  {
    hide CompatibleEntry;
    if m.Side? {
      CompatibleWithItself(Body, s);
      if BothItemNodes(s, s) { CompatibleWithItself(Body, s.items.value); }
    } else {
      forall i | 0 <= i < |Props(s)| ensures CompatibleEntry(Props(s)[i], s) {
        CompatibleWithItself(Side, Props(s)[i].schema);
        FindUnique(s, i);
        EntryOf(Props(s)[i], s, Props(s)[i].schema);
      }
    }
  }

  lemma {:induction false} EntryOf(p: Property, n: Schema, sub: Schema)
    requires Find(Props(n), p.name) == Some(sub) && CompatibleProperty(p.schema, sub)
    ensures CompatibleEntry(p, n)
  {
    hide CompatibleProperty;
  }

  /** Checking a schema against itself reports nothing. */
  lemma {:induction false} SelfIsClean(link: Link, s: Schema)
    requires WellFormed(s)
    ensures NodeBreaks(link, s, s, []) == []
  {
    hide NodeBreaks, CompatibleNode;
    CompatibleWithItself(Body, s);
    NodeBreaksExact(link, s, s, []);
  }

  /** `b` still says something of everything `a` says something of. */
  ghost predicate Keeps(m: Mode, a: Schema, b: Schema)
    decreases a, m.Side?
  {
    if m.Side? then
      && (TypeNames(TypeOf(a)) != {} ==> TypeNames(TypeOf(b)) != {})
      && (a.Node? && a.enums.Some? && a.enums.value != [] ==> b.Node? && b.enums.Some?)
      && (HasObjectShape(a) ==> HasObjectShape(b) && Keeps(Body, a, b))
      && (a.Node? && a.items.Some? && a.items.value.Node? ==> BothItemNodes(a, b) && Keeps(Body, a.items.value, b.items.value))
    else
      forall i | 0 <= i < |Props(a)| :: KeepsEntry(Props(a)[i], b)
  }

  ghost predicate KeepsEntry(p: Property, b: Schema)
    decreases p
  {
    Keeps(Side, p.schema, At(b, p.name))
  }

  /** Clean comparisons compose when the middle version drops no keyword. */
  lemma {:induction false} CleanComposes(m: Mode, a: Schema, b: Schema, c: Schema)
    requires WellFormed(a) && WellFormed(b) && WellFormed(c)
    requires Compatible(m, a, b) && Compatible(m, b, c) && Keeps(m, a, b)
    ensures Compatible(m, a, c)
    decreases a, m.Side?
  {
    hide CompatibleNode, CompatibleEntry, KeepsEntry, HasObjectShape, Find;
    if m.Side? {
      EnumsCompose(a, b, c);
      if c.Node? && HasObjectShape(a) {
        assert b.Node? by { assert HasObjectShape(b); ShapeIsNode(b); }
        CleanComposes(Body, a, b, c);
      }
      if BothItemNodes(a, c) { CleanComposes(Body, a.items.value, b.items.value, c.items.value); }
    } else {
      BodiesCompose(a, b, c);
    }
  }

  lemma {:induction false} ShapeIsNode(s: Schema)
    requires HasObjectShape(s)
    ensures s.Node?
  {
  }

  lemma {:induction false} EnumsCompose(a: Schema, b: Schema, c: Schema)
    requires a.Node? && a.enums.Some? && a.enums.value != [] ==> b.Node? && b.enums.Some?
    requires CompatibleProperty(a, b) && CompatibleProperty(b, c)
    ensures a.Node? && c.Node? && a.enums.Some? && c.enums.Some? ==>
          forall v | v in a.enums.value :: exists w | w in c.enums.value :: Freeze(w) == Freeze(v)
  {
    hide CompatibleNode, Freeze;
    if a.Node? && c.Node? && a.enums.Some? && c.enums.Some? {
      forall v | v in a.enums.value ensures exists w | w in c.enums.value :: Freeze(w) == Freeze(v) {
        var u :| u in b.enums.value && Freeze(u) == Freeze(v);
        var w :| w in c.enums.value && Freeze(w) == Freeze(u);
      }
    }
  }

  lemma {:induction false} BodiesCompose(a: Schema, b: Schema, c: Schema)
    requires WellFormed(a) && WellFormed(b) && WellFormed(c)
    requires CompatibleNode(a, b) && CompatibleNode(b, c) && Keeps(Body, a, b)
    ensures CompatibleNode(a, c)
    decreases a, false, 0
  {
    hide CompatibleProperty, CompatibleEntry;
    forall i | 0 <= i < |Props(a)| ensures CompatibleEntry(Props(a)[i], c) {
      var p := Props(a)[i];
      FindUnique(a, i);
      assert p.name in NamesOf(a);
      CompatibleAt(a, b, p.name);
      CompatibleAt(b, c, p.name);
      assert KeepsEntry(p, b);
      CleanComposes(Side, p.schema, At(b, p.name), At(c, p.name));
      var j := NameIndex(c, p.name);
      EntryOf(p, c, At(c, p.name));
    }
  }

  // ---- Whatever is dropped can come back different ----

  /** The schema as an object, with what a boolean one leaves unsaid. */
  function Based(s: Schema): (r: Schema)
    ensures r.Node? && (WellFormed(s) ==> WellFormed(r))
    ensures RequiredSet(r) == RequiredSet(s) && Props(r) == Props(s) && AdditionalProperties(r) == AdditionalProperties(s)
  {
    if s.Node? then s else Anything
  }

  /** A field name that the schema does not require. */
  ghost function Unrequired(s: Schema): (name: string)
    ensures name !in RequiredSet(s)
  {
    if s.Node? then LongString(LongestOf(s.required)) else ""
  }

  /** The object keywords of `n` are all that a comparison of bodies looks at. */
  lemma {:induction false} BodyOnly(o: Schema, n: Schema, n': Schema)
    requires RequiredSet(n) == RequiredSet(n') && Props(n) == Props(n') && AdditionalProperties(n) == AdditionalProperties(n')
    ensures CompatibleNode(o, n) <==> CompatibleNode(o, n')
  {
    hide CompatibleProperty;
    assert forall i | 0 <= i < |Props(o)| :: CompatibleEntry(Props(o)[i], n) <==> CompatibleEntry(Props(o)[i], n');
  }

  /** A variant that keeps what `b` says, part by part, is a clean successor of `b`. */
  lemma {:induction false} CleanVariant(b: Schema, c: Schema)
    requires c.Node? && (TypeNames(TypeOf(b)) == {} || c.typ == TypeOf(b))
    requires b.Node? && b.enums.Some? ==> c.enums == b.enums
    requires HasObjectShape(b) ==> CompatibleNode(b, c)
    requires BothItemNodes(b, c) ==> CompatibleNode(b.items.value, c.items.value)
    ensures CompatibleProperty(b, c)
  {
    hide CompatibleNode, Freeze;
  }

  lemma {:induction false} OwnBody(b: Schema, c: Schema)
    requires WellFormed(b) && c.Node?
    requires RequiredSet(c) == RequiredSet(b) && Props(c) == Props(b) && AdditionalProperties(c) == AdditionalProperties(b)
    ensures CompatibleNode(b, c)
  {
    CompatibleWithItself(Body, b);
    BodyOnly(b, b, c);
  }

  lemma {:induction false} OwnItems(b: Schema, c: Schema)
    requires WellFormed(b) && c.Node? && (b.Node? ==> c.items == b.items)
    ensures BothItemNodes(b, c) ==> CompatibleNode(b.items.value, c.items.value)
  {
    hide CompatibleNode;
    if BothItemNodes(b, c) { CompatibleWithItself(Body, b.items.value); }
  }

  lemma {:induction false} TypeComesBack(a: Schema, b: Schema) returns (c: Schema)
    requires WellFormed(b) && TypeNames(TypeOf(a)) != {} && TypeNames(TypeOf(b)) == {}
    ensures WellFormed(c) && CompatibleProperty(b, c) && !CompatibleProperty(a, c)
  {
    hide CompatibleNode;
    var t := if TypeNames(TypeOf(a)) == {TNull} then TString else TNull;
    var base := Based(b);
    c := base.(typ := OneType(t));
    assert t in TypeNames(c.typ) && !(TypeNames(TypeOf(a)) <= {t});
    OwnBody(b, c);
    OwnItems(b, c);
    CleanVariant(b, c);
  }

  lemma {:induction false} EnumComesBack(a: Schema, b: Schema) returns (c: Schema)
    requires WellFormed(b) && a.Node? && a.enums.Some? && a.enums.value != [] && !(b.Node? && b.enums.Some?)
    ensures WellFormed(c) && CompatibleProperty(b, c) && !CompatibleProperty(a, c)
  {
    hide CompatibleNode, Freeze;
    var base := Based(b);
    c := base.(enums := Some([]));
    assert a.enums.value[0] in a.enums.value;
    if b.Node? { assert c.typ == TypeOf(b); }
    OwnBody(b, c);
    OwnItems(b, c);
    CleanVariant(b, c);
  }

  lemma {:induction false} ShapeComesBack(a: Schema, b: Schema) returns (c: Schema)
    requires WellFormed(b) && HasObjectShape(a) && !HasObjectShape(b)
    ensures WellFormed(c) && CompatibleProperty(b, c) && !CompatibleProperty(a, c)
  {
    var base := Based(b);
    c := base.(required := [Unrequired(a)]);
    if b.Node? { assert c.typ == TypeOf(b); }
    assert !CompatibleNode(a, c) by { assert Unrequired(a) in RequiredSet(c); }
    assert CompatibleProperty(b, c) by {
      hide CompatibleNode;
      OwnItems(b, c);
      CleanVariant(b, c);
    }
  }

  lemma {:induction false} ItemsComeBack(a: Schema, b: Schema) returns (c: Schema)
    requires WellFormed(b) && a.Node? && a.items.Some? && a.items.value.Node? && !BothItemNodes(a, b)
    ensures WellFormed(c) && CompatibleProperty(b, c) && !CompatibleProperty(a, c)
  {
    var items := Anything.(required := [Unrequired(a.items.value)]);
    var base := Based(b);
    c := base.(items := Some(items));
    if b.Node? { assert c.typ == TypeOf(b); }
    assert !CompatibleNode(a.items.value, items) by { assert Unrequired(a.items.value) in RequiredSet(items); }
    assert CompatibleProperty(b, c) by {
      hide CompatibleNode;
      OwnBody(b, c);
      CleanVariant(b, c);
    }
  }

  /** `b` with the object keywords of `d`. */
  lemma {:induction false} BodySwap(a: Schema, b: Schema, d: Schema) returns (c: Schema)
    requires WellFormed(b) && WellFormed(d) && HasObjectShape(a) && HasObjectShape(b)
    requires CompatibleNode(b, d) && !CompatibleNode(a, d)
    ensures WellFormed(c) && CompatibleProperty(b, c) && !CompatibleProperty(a, c)
  {
    hide CompatibleNode, CompatibleEntry;
    var e := Based(d);
    c := b.(required := e.required, props := e.props, extra := e.extra);
    BodyOnly(b, d, c);
    BodyOnly(a, d, c);
    OwnItems(b, c);
    CleanVariant(b, c);
  }

  lemma {:induction false} ItemsSwap(a: Schema, b: Schema, d: Schema) returns (c: Schema)
    requires WellFormed(b) && WellFormed(d) && BothItemNodes(a, b)
    requires CompatibleNode(b.items.value, d) && !CompatibleNode(a.items.value, d)
    ensures WellFormed(c) && CompatibleProperty(b, c) && !CompatibleProperty(a, c)
  {
    hide CompatibleNode, CompatibleEntry;
    c := b.(items := Some(Based(d)));
    BodyOnly(b.items.value, d, Based(d));
    BodyOnly(a.items.value, d, Based(d));
    OwnBody(b, c);
    CleanVariant(b, c);
  }

  /** `b` with the schema of one property replaced. */
  lemma {:induction false} EntrySwap(a: Schema, i: nat, b: Schema, j: nat, d: Schema) returns (c: Schema)
    requires WellFormed(a) && WellFormed(b) && WellFormed(d) && i < |Props(a)| && j < |Props(b)| && Props(a)[i].name == Props(b)[j].name
    requires CompatibleProperty(Props(b)[j].schema, d) && !CompatibleProperty(Props(a)[i].schema, d)
    ensures WellFormed(c) && CompatibleNode(b, c) && !CompatibleNode(a, c)
  {
    hide CompatibleProperty, Find, WellFormed;
    var name := Props(b)[j].name;
    c := b.(props := Table(Props(b)[j := Property(name, d)]));
    assert WellFormed(c) by { SwapWellFormed(b, j, d); }
    forall k | 0 <= k < |Props(b)| ensures CompatibleEntry(Props(b)[k], c) {
      FindUnique(c, k);
      if k != j {
        PartWellFormed(b, k);
        CompatibleWithItself(Side, Props(b)[k].schema);
      }
    }
    FindUnique(c, j);
    assert !CompatibleEntry(Props(a)[i], c);
  }

  lemma {:induction false} PartWellFormed(s: Schema, i: nat)
    requires WellFormed(s) && i < |Props(s)|
    ensures WellFormed(Props(s)[i].schema)
  {
  }

  lemma {:induction false} SwapWellFormed(b: Schema, j: nat, d: Schema)
    requires WellFormed(b) && WellFormed(d) && j < |Props(b)|
    ensures WellFormed(b.(props := Table(Props(b)[j := Property(Props(b)[j].name, d)])))
  {
    var c := b.(props := Table(Props(b)[j := Property(Props(b)[j].name, d)]));
    assert forall k :: 0 <= k < |Props(c)| ==> Props(c)[k].name == Props(b)[k].name;
  }

  /** When `b` does not keep what `a` says, some version is a clean successor of `b` and not of `a`. */
  lemma {:induction false} ComesBack(m: Mode, a: Schema, b: Schema) returns (c: Schema)
    requires WellFormed(a) && WellFormed(b) && Compatible(m, a, b) && !Keeps(m, a, b)
    ensures WellFormed(c) && Compatible(m, b, c) && !Compatible(m, a, c)
    decreases a, m.Side?
  {
    hide CompatibleNode, CompatibleEntry, HasObjectShape, Find, WellFormed;
    if m.Side? {
      if TypeNames(TypeOf(a)) != {} && TypeNames(TypeOf(b)) == {} {
        c := TypeComesBack(a, b);
      } else if a.Node? && a.enums.Some? && a.enums.value != [] && !(b.Node? && b.enums.Some?) {
        c := EnumComesBack(a, b);
      } else if HasObjectShape(a) && !(HasObjectShape(b) && Keeps(Body, a, b)) {
        if HasObjectShape(b) {
          ShapeIsNode(b);
          var d := ComesBack(Body, a, b);
          c := BodySwap(a, b, d);
        } else {
          c := ShapeComesBack(a, b);
        }
      } else {
        c := ItemsBack(a, b);
      }
    } else {
      var i :| 0 <= i < |Props(a)| && !KeepsEntry(Props(a)[i], b);
      c := EntryBack(a, i, b);
    }
  }

  lemma {:induction false} ItemsBack(a: Schema, b: Schema) returns (c: Schema)
    requires WellFormed(a) && WellFormed(b) && CompatibleProperty(a, b)
    requires a.Node? && a.items.Some? && a.items.value.Node? && !(BothItemNodes(a, b) && Keeps(Body, a.items.value, b.items.value))
    ensures WellFormed(c) && CompatibleProperty(b, c) && !CompatibleProperty(a, c)
    decreases a, false, 1
  {
    hide CompatibleNode, HasObjectShape, Keeps;
    if BothItemNodes(a, b) {
      var d := ComesBack(Body, a.items.value, b.items.value);
      c := ItemsSwap(a, b, d);
    } else {
      c := ItemsComeBack(a, b);
    }
  }

  lemma {:induction false} EntryBack(a: Schema, i: nat, b: Schema) returns (c: Schema)
    requires WellFormed(a) && WellFormed(b) && CompatibleNode(a, b) && i < |Props(a)| && !KeepsEntry(Props(a)[i], b)
    ensures WellFormed(c) && CompatibleNode(b, c) && !CompatibleNode(a, c)
    decreases a, false, 0
  {
    hide CompatibleNode, CompatibleProperty, Keeps, Find;
    var p := Props(a)[i];
    FindUnique(a, i);
    assert p.name in NamesOf(a);
    CompatibleAt(a, b, p.name);
    var j := NameIndex(b, p.name);
    var d := ComesBack(Side, p.schema, At(b, p.name));
    c := EntrySwap(a, i, b, j, d);
  }

  /**
   * The middle version of a chain can be left out exactly when it drops nothing: then, and only then, is
   * every clean successor of it a clean successor of the version before.
   */
  lemma {:induction false} ComposesExactly(m: Mode, a: Schema, b: Schema)
    requires WellFormed(a) && WellFormed(b) && Compatible(m, a, b)
    ensures Keeps(m, a, b) <==> forall c :: WellFormed(c) && Compatible(m, b, c) ==> Compatible(m, a, c)
  {
    hide Keeps, Compatible, WellFormed;
    if Keeps(m, a, b) {
      forall c | WellFormed(c) && Compatible(m, b, c) ensures Compatible(m, a, c) { CleanComposes(m, a, b, c); }
    } else {
      var c := ComesBack(m, a, b);
    }
  }

  /** A property's type, dropped by the middle version and put back by the last, is reported end to end exactly when it came back narrower. */
  lemma {:induction false} DroppedTypeExactly(link: Link, name: string, t: TypeKeyword, u: TypeKeyword)
    requires TypeNames(t) != {} && TypeNames(u) != {}
    ensures var a, b, c := ObjectWith(name, Typed(t)), ObjectWith(name, Anything), ObjectWith(name, Typed(u));
      && NodeBreaks(link, a, b, []) == [] && NodeBreaks(link, b, c, []) == []
      && (NodeBreaks(link, a, c, []) == [] <==> TypeNames(t) <= TypeNames(u))
  {
    var x, y, z := Typed(t), Anything, Typed(u);
    assert CompatibleProperty(x, y) && CompatibleProperty(y, z) && (CompatibleProperty(x, z) <==> TypeNames(t) <= TypeNames(u)) by { BareTypes(t, u); }
    hide CompatibleProperty, NodeBreaks;
    CleanObjectWith(link, name, x, y);
    CleanObjectWith(link, name, y, z);
    if CompatibleProperty(x, z) { CleanObjectWith(link, name, x, z); } else { DirtyObjectWith(link, name, x, z); }
  }

  lemma {:induction false} BareTypes(t: TypeKeyword, u: TypeKeyword)
    requires TypeNames(t) != {} && TypeNames(u) != {}
    ensures CompatibleProperty(Typed(t), Anything) && CompatibleProperty(Anything, Typed(u))
    ensures CompatibleProperty(Typed(t), Typed(u)) <==> TypeNames(t) <= TypeNames(u)
  {
  }

  lemma {:induction false} DirtyObjectWith(link: Link, name: string, o: Schema, n: Schema)
    requires !CompatibleProperty(o, n)
    ensures NodeBreaks(link, ObjectWith(name, o), ObjectWith(name, n), []) != []
  {
    hide CompatibleProperty;
    var old_, new_ := ObjectWith(name, o), ObjectWith(name, n);
    assert Props(new_)[0].name == name;
    assert !CompatibleEntry(Props(old_)[0], new_);
    NodeBreaksExact(link, old_, new_, []);
  }

  /** The same of reports: leaving out a version is safe for every later one exactly when it drops nothing. */
  lemma {:induction false} ReportsComposeExactly(link: Link, a: Schema, b: Schema)
    requires WellFormed(a) && WellFormed(b) && NodeBreaks(link, a, b, []) == []
    ensures Keeps(Body, a, b) <==> forall c :: WellFormed(c) && NodeBreaks(link, b, c, []) == [] ==> NodeBreaks(link, a, c, []) == []
  {
    hide Keeps, CompatibleNode, WellFormed, NodeBreaks;
    NodeBreaksExact(link, a, b, []);
    forall c ensures NodeBreaks(link, b, c, []) == [] <==> Compatible(Body, b, c) { NodeBreaksExact(link, b, c, []); }
    forall c ensures NodeBreaks(link, a, c, []) == [] <==> Compatible(Body, a, c) { NodeBreaksExact(link, a, c, []); }
    ComposesExactly(Body, a, b);
  }
}
