/**
 * When is every payload of one schema a payload of another? `Includes` answers by
 * inspecting the two schemas, and is proved right in both directions.
 */
module SchemaInclusion {
  import opened Options
  import opened JsonSchema
  import opened FiniteCover

  /** The schema without constraints. */
  const Anything := Node(NoType, None, [], NoTable, None, None)

  function AsNode(s: Schema): (r: Schema)
    requires s != Flag(false)
    ensures r.Node?
  {
    if s.Node? then s else Anything
  }

  predicate TypesCovered(o: Schema, n: Schema)
    requires o.Node? && n.Node?
  {
    forall k: Kind | Reaches(o, k) :: Permits(n.typ, k)
  }

  /** The new enumeration lists everything an old schema without one lets through. */
  predicate EnumCovers(o: Schema, n: Schema)
    requires o.Node? && n.Node?
  {
    n.enums.Some? ==> Covers(o, n.enums.value)
  }

  /** Decides `Backward(o, n)` by looking at the schemas only; see IncludesSound and Escape. */
  predicate Includes(o: Schema, n: Schema)
    decreases n, 2
  {
    || n == Flag(true)
    || !Inhabited(o)
    || (n.Node? && NodeIncludes(AsNode(o), n))
  }

  predicate NodeIncludes(o: Schema, n: Schema)
    requires o.Node? && n.Node?
    decreases n, 1
  {
    if o.enums.Some? then
      forall v | v in o.enums.value && Valid(o, v) :: Valid(n, v)
    else
      && TypesCovered(o, n)
      && EnumCovers(o, n)
      && (Reaches(o, KObject) ==> ObjectIncludes(o, n))
      && (Reaches(o, KArray) ==> ItemsOf(n) == Flag(true) || Includes(ItemsOf(o), ItemsOf(n)))
  }

  predicate ObjectIncludes(o: Schema, n: Schema)
    requires o.Node? && n.Node?
    decreases n, 0
  {
    && (forall r | r in n.required :: r in o.required)
    && (forall name | name in NamesOf(o) + NamesOf(n) :: At(n, name) == Flag(true) || Includes(At(o, name), At(n, name)))
    && (ExtraOf(n) == Flag(true) || Includes(ExtraOf(o), ExtraOf(n)))
  }

  lemma {:induction false} AsNodeValid(s: Schema, v: Json)
    requires s != Flag(false)
    ensures Valid(AsNode(s), v) == Valid(s, v)
  {
  }

  lemma {:induction false} IncludesSound(o: Schema, n: Schema, v: Json)
    requires Includes(o, n) && Valid(o, v)
    ensures Valid(n, v)
    decreases v
  {
    ValidMeansInhabited(o, v);
    if n != Flag(true) {
      AsNodeValid(o, v);
      NodeIncludesSound(AsNode(o), n, v);
    }
  }

  lemma {:induction false} NodeIncludesSound(o: Schema, n: Schema, v: Json)
    requires o.Node? && n.Node? && NodeIncludes(o, n) && Valid(o, v)
    ensures Valid(n, v)
    decreases v, 0
  {
    if o.enums.None? {
      ValidMeansInhabited(o, v);
      if n.enums.Some? { CoversSound(o, n.enums.value, v); }
      if v.JObj? {
        forall k | k in v.fields ensures Valid(At(n, k), v.fields[k]) {
          if k !in NamesOf(o) + NamesOf(n) { UnlistedName(o, k); UnlistedName(n, k); }
          if At(n, k) != Flag(true) { IncludesSound(At(o, k), At(n, k), v.fields[k]); }
        }
      } else if v.JArr? {
        forall e | e in v.elems ensures Valid(ItemsOf(n), e) {
          if ItemsOf(n) != Flag(true) { IncludesSound(ItemsOf(o), ItemsOf(n), e); }
        }
      }
    }
  }

  // ---- The procedure never says no without a payload that shows it ----

  /** A property name that neither schema lists. */
  ghost function FreshName(o: Schema, n: Schema): (name: string)
    ensures name !in NamesOf(o) && name !in NamesOf(n)
  {
    var a, b := LongestName(Props(o)), LongestName(Props(n));
    LongNameIsFresh(o, a + b);
    LongNameIsFresh(n, a + b);
    LongString(a + b)
  }

  /** A property value that the old schema allows and the new one does not makes such an object. */
  lemma {:induction false} EscapeAt(o: Schema, n: Schema, name: string, w: Json) returns (v: Json)
    requires o.Node? && n.Node? && o.enums.None? && Reaches(o, KObject)
    requires Valid(At(o, name), w) && !Valid(At(n, name), w)
    ensures Valid(o, v) && !Valid(n, v)
  {
    v := JObj(LeastObject(o).fields[name := w]);
    assert name in v.fields && v.fields[name] == w;
  }

  lemma {:induction false} Escape(o: Schema, n: Schema) returns (v: Json)
    requires !Includes(o, n)
    ensures Valid(o, v) && !Valid(n, v)
    decreases n, 2
  {
    if n.Flag? {
      v := Example(o);
    } else {
      v := NodeEscape(AsNode(o), n);
      AsNodeValid(o, v);
    }
  }

  lemma {:induction false} NodeEscape(o: Schema, n: Schema) returns (v: Json)
    requires o.Node? && n.Node? && !NodeIncludes(o, n)
    ensures Valid(o, v) && !Valid(n, v)
    decreases n, 1
  {
    if o.enums.Some? {
      v :| v in o.enums.value && Valid(o, v) && !Valid(n, v);
    } else if !TypesCovered(o, n) {
      var k: Kind :| Reaches(o, k) && !Permits(n.typ, k);
      v := Witness(o, k);
    } else if !EnumCovers(o, n) {
      v := CoversEscape(o, n.enums.value);
    } else if Reaches(o, KObject) && !ObjectIncludes(o, n) {
      v := ObjectEscape(o, n);
    } else {
      var e := Escape(ItemsOf(o), ItemsOf(n));
      v := JArr([e]);
      assert e in v.elems;
    }
  }

  lemma {:induction false} ObjectEscape(o: Schema, n: Schema) returns (v: Json)
    requires o.Node? && n.Node? && o.enums.None? && Reaches(o, KObject) && !ObjectIncludes(o, n)
    ensures Valid(o, v) && !Valid(n, v)
    decreases n, 0
  {
    if r :| r in n.required && r !in o.required {
      v := LeastObject(o);
    } else {
      var name: string;
      if nm :| nm in NamesOf(o) + NamesOf(n) && At(n, nm) != Flag(true) && !Includes(At(o, nm), At(n, nm)) {
        name := nm;
      } else {
        name := FreshName(o, n);
        UnlistedName(o, name);
        UnlistedName(n, name);
      }
      var w := Escape(At(o, name), At(n, name));
      v := EscapeAt(o, n, name, w);
    }
  }

  /** `Includes` decides backward compatibility exactly. */
  lemma {:induction false} IncludesExact(o: Schema, n: Schema)
    ensures Includes(o, n) <==> Backward(o, n)
  {
    if Includes(o, n) {
      forall v | Valid(o, v) ensures Valid(n, v) { IncludesSound(o, n, v); }
    } else {
      var v := Escape(o, n);
    }
  }
}
