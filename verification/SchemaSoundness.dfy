/**
 * What an empty break list is worth: exactly which clean comparisons guarantee that
 * every payload of the old schema is a payload of the new one.
 */
module SchemaSoundness {
  import opened Options
  import opened JsonSchema
  import opened FiniteCover
  import opened SchemaInclusion
  import opened SchemaCheck

  // ---- The comparisons the checker leaves out ----

  /** The checker compares two nodes either as bodies (object keywords only) or as the two sides of a property. */
  datatype Mode = Body | Side

  ghost predicate Compatible(m: Mode, o: Schema, n: Schema) {
    if m.Body? then CompatibleNode(o, n) else CompatibleProperty(o, n)
  }

  /** The object keywords of the two nodes are compared. */
  predicate BodyCompared(m: Mode, o: Schema) {
    m.Body? || HasObjectShape(o)
  }

  predicate BothTyped(o: Schema, n: Schema) {
    TypeNames(TypeOf(o)) != {} && TypeNames(TypeOf(n)) != {}
  }

  /**
   * Nothing the checker skips can reject an old payload. Skipped are: a boolean schema on
   * either side; which of the values an old enumeration lists still validate; a type keyword
   * that only the new side has, or that sits on a root or items node; an enumeration that only the new
   * side has; new property names; additionalProperties given as a schema; the object keywords of a
   * property whose old side is neither "object" nor has properties; and items, unless both
   * sides of a property have an object there. All is guarded by whether an old payload gets that far.
   */
  predicate NoGap(m: Mode, o: Schema, n: Schema)
    decreases n, 4
  {
    || n == Flag(true)
    || !Inhabited(o)
    || (if o.Node? && n.Node? then NodeNoGap(m, o, n) else Includes(o, n))
  }

  predicate NodeNoGap(m: Mode, o: Schema, n: Schema)
    requires o.Node? && n.Node?
    decreases n, 3
  {
    if o.enums.Some? then
      forall v | v in o.enums.value && Valid(o, v) :: Valid(n, v)
    else
      && ((m.Side? && BothTyped(o, n)) || TypesCovered(o, n))
      && EnumCovers(o, n)
      && (Reaches(o, KObject) ==> if BodyCompared(m, o) then BodyNoGap(o, n) else ObjectIncludes(o, n))
      && (Reaches(o, KArray) ==>
            if m.Side? && BothItemNodes(o, n) then NoGap(Body, o.items.value, n.items.value)
            else ItemsOf(n) == Flag(true) || Includes(ItemsOf(o), ItemsOf(n)))
  }

  predicate BodyNoGap(o: Schema, n: Schema)
    requires o.Node? && n.Node?
    decreases n, 2
  {
    && (forall name | name in NamesOf(n) - NamesOf(o) :: At(n, name) == Flag(true) || Includes(ExtraOf(o), At(n, name)))
    && (forall name | name in NamesOf(o) * NamesOf(n) :: At(n, name) == Flag(true) || NoGap(Side, At(o, name), At(n, name)))
    && (ExtraOf(n).Node? ==> Includes(ExtraOf(o), ExtraOf(n)))
  }

  lemma {:induction false} NameIndex(s: Schema, name: string) returns (i: nat)
    requires WellFormed(s) && name in NamesOf(s)
    ensures i < |Props(s)| && Props(s)[i] == Property(name, At(s, name)) && WellFormed(At(s, name))
    ensures Find(Props(s), name) == Some(At(s, name))
  {
    i :| 0 <= i < |Props(s)| && Props(s)[i].name == name;
    FindUnique(s, i);
  }

  /** A clean body lists every old name, and what it says of each is clean. */
  lemma {:induction false} CompatibleAt(o: Schema, n: Schema, name: string)
    requires WellFormed(o) && WellFormed(n) && CompatibleNode(o, n) && name in NamesOf(o)
    ensures name in NamesOf(n) && CompatibleProperty(At(o, name), At(n, name))
    ensures WellFormed(At(o, name)) && WellFormed(At(n, name))
  {
    hide CompatibleProperty;
    var i := NameIndex(o, name);
    assert CompatibleEntry(Props(o)[i], n);
    var j :| 0 <= j < |Props(n)| && Props(n)[j].name == name;
    assert Props(n)[j].name in NamesOf(n);
    var k := NameIndex(n, name);
  }

  lemma {:induction false} SideTypesCovered(o: Schema, n: Schema)
    requires o.Node? && n.Node? && CompatibleProperty(o, n) && BothTyped(o, n)
    ensures TypesCovered(o, n)
  {
    hide CompatibleNode;
    assert TypeNames(o.typ) <= TypeNames(n.typ);
  }

  lemma {:induction false} SomeType(t: TypeKeyword)
    requires t.TypeList? ==> t.names != []
    ensures TypeNames(t) == {} <==> t == NoType
  {
    if t.TypeList? { assert t.names[0] in TypeNames(t); }
  }

  /** On clean comparisons, the skipped conditions are exactly what inclusion still needs. */
  lemma {:induction false} NoGapDecides(m: Mode, o: Schema, n: Schema)
    requires WellFormed(o) && WellFormed(n) && Compatible(m, o, n)
    ensures NoGap(m, o, n) <==> Includes(o, n)
    decreases n, 4
  {
    hide NodeNoGap, NodeIncludes, CompatibleNode, CompatibleProperty;
    if n != Flag(true) && Inhabited(o) && o.Node? && n.Node? {
      NodeNoGapDecides(m, o, n);
    }
  }

  lemma {:induction false} NodeNoGapDecides(m: Mode, o: Schema, n: Schema)
    requires WellFormed(o) && WellFormed(n) && Compatible(m, o, n) && o.Node? && n.Node?
    ensures NodeNoGap(m, o, n) <==> NodeIncludes(o, n)
    decreases n, 3
  {
    hide NoGap, Includes, BodyNoGap, ObjectIncludes, TypesCovered, EnumCovers, CompatibleNode;
    if m.Side? && BothTyped(o, n) { SideTypesCovered(o, n); }
    if BodyCompared(m, o) { BodyNoGapDecides(o, n); }
    if m.Side? && BothItemNodes(o, n) { NoGapDecides(Body, o.items.value, n.items.value); }
  }

  lemma {:induction false} BodyNoGapDecides(o: Schema, n: Schema)
    requires WellFormed(o) && WellFormed(n) && CompatibleNode(o, n) && o.Node? && n.Node?
    ensures BodyNoGap(o, n) <==> ObjectIncludes(o, n)
    decreases n, 2
  {
    hide NoGap, CompatibleEntry, CompatibleProperty, NodeIncludes;
    assert forall r | r in n.required :: r in RequiredSet(n);
    forall name | name in NamesOf(o)
      ensures name in NamesOf(n)
      ensures At(n, name) == Flag(true) || (NoGap(Side, At(o, name), At(n, name)) <==> Includes(At(o, name), At(n, name)))
    {
      CompatibleAt(o, n, name);
      if At(n, name) != Flag(true) { NoGapDecides(Side, At(o, name), At(n, name)); }
    }
    forall name | name in NamesOf(n) - NamesOf(o) ensures At(o, name) == ExtraOf(o) { UnlistedName(o, name); }
    assert ExtraOf(n) == Flag(false) ==> ExtraOf(o) == Flag(false);
  }

  /**
   * The promise of the checker, exactly: when it reports nothing, every old payload validates
   * against the new schema if and only if there is no gap.
   */
  lemma {:induction false} CleanIsBackwardExactly(link: Link, o: Schema, n: Schema)
    requires WellFormed(o) && WellFormed(n)
    requires NodeBreaks(link, o, n, []) == []
    ensures Backward(o, n) <==> NoGap(Body, o, n)
  {
    hide NodeBreaks, CompatibleNode, NoGap, Includes, Valid;
    NodeBreaksExact(link, o, n, []);
    NoGapDecides(Body, o, n);
    IncludesExact(o, n);
  }

  // ---- A fragment on which clean comparisons are always sound ----

  /** No value of the new enumeration is taken for a different value of the old one. */
  ghost predicate FreezeTellsApart(olds: seq<Json>, news: seq<Json>) {
    forall v, w :: v in olds && w in news && Freeze(w) == Freeze(v) ==> w == v
  }

  /**
   * Side conditions on the two documents alone. The new side puts type or enum only where the old
   * side did (on a root or items node, no narrower); adds property names only to closed objects; gives
   * additionalProperties as a boolean; carries object keywords only where they are compared; and
   * constrains items only where they are compared, or as before.
   */
  ghost predicate Plain(m: Mode, o: Schema, n: Schema)
    decreases n
  {
    n == Flag(true) || (o.Node? && n.Node?
      && (n.typ == NoType || (o.typ != NoType && (m.Body? ==> TypeNames(o.typ) <= TypeNames(n.typ))))
      && (n.enums.Some? ==> o.enums.Some?)
      && (n.enums.Some? && m.Body? ==> forall v | v in o.enums.value :: v in n.enums.value)
      && (n.enums.Some? && m.Side? ==> FreezeTellsApart(o.enums.value, n.enums.value))
      && (if BodyCompared(m, o) then
            && (forall name | name in NamesOf(n) - NamesOf(o) :: At(n, name) == Flag(true) || ExtraOf(o) == Flag(false))
            && (forall name | name in NamesOf(o) * NamesOf(n) :: At(n, name) == Flag(true) || Plain(Side, At(o, name), At(n, name)))
            && ExtraOf(n).Flag?
          else n.required == [] && Props(n) == [] && ExtraOf(n) == Flag(true))
      && (|| ItemsOf(n) == Flag(true)
          || ItemsOf(n) == ItemsOf(o)
          || (m.Side? && BothItemNodes(o, n) && Plain(Body, o.items.value, n.items.value))))
  }

  /** On the fragment, a clean comparison carries every payload over. */
  lemma {:induction false} PlainIsSound(m: Mode, o: Schema, n: Schema, v: Json)
    requires WellFormed(o) && WellFormed(n) && Compatible(m, o, n) && Plain(m, o, n) && Valid(o, v)
    ensures Valid(n, v)
    decreases v, 1
  {
    hide CompatibleNode, CompatibleEntry;
    if n != Flag(true) {
      SomeType(o.typ);
      SomeType(n.typ);
      if v.JObj? && BodyCompared(m, o) {
        PlainObjectIsSound(m, o, n, v);
      } else if v.JArr? && ItemsOf(n) != Flag(true) && ItemsOf(n) != ItemsOf(o) {
        forall e | e in v.elems ensures Valid(ItemsOf(n), e) {
          PlainIsSound(Body, ItemsOf(o), ItemsOf(n), e);
        }
      }
    }
  }

  lemma {:induction false} PlainObjectIsSound(m: Mode, o: Schema, n: Schema, v: Json)
    requires WellFormed(o) && WellFormed(n) && CompatibleNode(o, n) && o.Node? && n.Node? && n != Flag(true)
    requires Plain(m, o, n) && BodyCompared(m, o) && Valid(o, v) && v.JObj?
    ensures forall r | r in n.required :: r in v.fields
    ensures forall k | k in v.fields :: Valid(At(n, k), v.fields[k])
    decreases v, 0
  {
    hide CompatibleEntry, CompatibleProperty;
    assert forall r | r in n.required :: r in RequiredSet(n);
    forall k | k in v.fields ensures Valid(At(n, k), v.fields[k]) {
      if k in NamesOf(o) {
        CompatibleAt(o, n, k);
        if At(n, k) != Flag(true) { PlainIsSound(Side, At(o, k), At(n, k), v.fields[k]); }
      } else {
        UnlistedName(o, k);
        if k !in NamesOf(n) { UnlistedName(n, k); }
      }
    }
  }

  // ---- Gaps that real documents can fall into ----

  function Typed(t: TypeKeyword): Schema {
    Node(t, None, [], NoTable, None, None)
  }

  function ArrayOf(items: Schema): Schema {
    Node(OneType(TArray), None, [], NoTable, None, Some(items))
  }

  /** A closed object with the single optional property `name`. */
  function ObjectWith(name: string, sub: Schema): Schema {
    Node(OneType(TObject), None, [], Table([Property(name, sub)]), Some(Flag(false)), None)
  }

  lemma {:induction false} CleanObjectWith(link: Link, name: string, o: Schema, n: Schema)
    requires CompatibleProperty(o, n)
    ensures NodeBreaks(link, ObjectWith(name, o), ObjectWith(name, n), []) == []
  {
    hide CompatibleProperty;
    var old_, new_ := ObjectWith(name, o), ObjectWith(name, n);
    assert Props(new_)[0].name == name;
    assert CompatibleEntry(Props(old_)[0], new_);
    NodeBreaksExact(link, old_, new_, []);
  }

  lemma {:induction false} BrokenObjectWith(name: string, o: Schema, n: Schema, w: Json)
    requires Valid(o, w) && !Valid(n, w)
    ensures !Backward(ObjectWith(name, o), ObjectWith(name, n))
  {
    var v := JObj(map[name := w]);
    assert Props(ObjectWith(name, o))[0].name == name && Props(ObjectWith(name, n))[0].name == name;
    assert At(ObjectWith(name, o), name) == o && At(ObjectWith(name, n), name) == n;
    assert name in v.fields;
    assert TObject in TypeNames(ObjectWith(name, o).typ);
    assert Valid(ObjectWith(name, o), v) && !Valid(ObjectWith(name, n), v);
  }

  lemma {:induction false} BrokenArrayOf(o: Schema, n: Schema, e: Json)
    requires Valid(o, e) && !Valid(n, e)
    ensures Valid(ArrayOf(o), JArr([e])) && !Valid(ArrayOf(n), JArr([e]))
  {
    assert TArray in TypeNames(ArrayOf(o).typ);
    assert e in JArr([e]).elems;
  }

  /** Narrowing the type of array elements is reported for properties but not for items. */
  lemma {:induction false} ItemTypeNarrowingUnseen(link: Link, name: string)
    ensures var o, n := ArrayOf(Typed(TypeList([TString, TNull]))), ArrayOf(Typed(OneType(TString)));
      && NodeBreaks(link, ObjectWith(name, o), ObjectWith(name, n), []) == []
      && !Backward(ObjectWith(name, o), ObjectWith(name, n))
  {
    hide CompatibleProperty, NodeBreaks, Valid;
    var o, n := Typed(TypeList([TString, TNull])), Typed(OneType(TString));
    ArraysCompatible(o, n);
    CleanObjectWith(link, name, ArrayOf(o), ArrayOf(n));
    NullableNarrowed();
    BrokenArrayOf(o, n, JNull);
    BrokenObjectWith(name, ArrayOf(o), ArrayOf(n), JArr([JNull]));
  }

  lemma {:induction false} ArraysCompatible(o: Schema, n: Schema)
    requires o.Node? && n.Node? && CompatibleNode(o, n)
    ensures CompatibleProperty(ArrayOf(o), ArrayOf(n))
  {
    hide CompatibleNode;
  }

  lemma {:induction false} NullableNarrowed()
    ensures var o, n := Typed(TypeList([TString, TNull])), Typed(OneType(TString));
      CompatibleNode(o, n) && Valid(o, JNull) && !Valid(n, JNull)
  {
    assert [TString, TNull][1] in TypeNames(TypeList([TString, TNull]));
  }

  /** Python's True == 1 lets an enumeration swap a number for a boolean. */
  lemma {:induction false} EnumBooleanNumberMixUp(link: Link, name: string)
    ensures var o, n := Anything.(enums := Some([JNum(1.0)])), Anything.(enums := Some([JBool(true)]));
      && NodeBreaks(link, ObjectWith(name, o), ObjectWith(name, n), []) == []
      && !Backward(ObjectWith(name, o), ObjectWith(name, n))
  {
    var o, n := Anything.(enums := Some([JNum(1.0)])), Anything.(enums := Some([JBool(true)]));
    assert Freeze(n.enums.value[0]) == Freeze(o.enums.value[0]);
    CleanObjectWith(link, name, o, n);
    BrokenObjectWith(name, o, n, JNum(1.0));
  }

  /** A type keyword that only the new side has is not reported either. */
  lemma {:induction false} NewTypeUnseen(link: Link, name: string)
    ensures var o, n := Anything, Typed(OneType(TString));
      && NodeBreaks(link, ObjectWith(name, o), ObjectWith(name, n), []) == []
      && !Backward(ObjectWith(name, o), ObjectWith(name, n))
  {
    CleanObjectWith(link, name, Anything, Typed(OneType(TString)));
    BrokenObjectWith(name, Anything, Typed(OneType(TString)), JNull);
  }
}
