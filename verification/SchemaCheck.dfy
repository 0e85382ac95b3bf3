/**
 * The compatibility checker: a recursive comparison of two schema nodes that
 * appends every break it finds to a shared list, and the relation it decides.
 */
module SchemaCheck {
  import opened Options
  import opened JsonSchema
  import opened Sorting

  datatype Version = Version(major: nat, minor: nat, patch: nat)

  /** The topic and version pair every break of one comparison is labelled with. */
  datatype Link = Link(topic: string, older: Version, newer: Version)

  datatype Rule = RequiredAdded | PropertyRemoved | TypeNarrowed | EnumRemoved | AdditionalPropertiesClosed

  /** `pointer` is the JSON Pointer in segments; `subject` the field a required-added break names. */
  datatype Break = Break(link: Link, rule: Rule, pointer: seq<string>, subject: string)

  // ---- Python's view of enumeration members ----

  /** Hashable stand-in of a value, up to Python's ==, which identifies True with 1 and False with 0. */
  datatype Frozen = FNone | FNumber(n: real) | FText(t: string) | FTuple(elems: seq<Frozen>)

  function Freeze(v: Json): Frozen {
    match v
    case JNull => FNone
    case JBool(b) => FNumber(if b then 1.0 else 0.0)
    case JNum(n) => FNumber(n)
    case JStr(t) => FText(t)
    case JArr(es) => FTuple(seq(|es|, i requires 0 <= i < |es| => Freeze(es[i])))
    case JObj(fs) =>
      var ks := SortedStrings(fs.Keys);
      FTuple(seq(|ks|, i requires 0 <= i < |ks| => assert ks[i] in ks; FTuple([FText(ks[i]), Freeze(fs[ks[i]])])))
  }

  /** The number Python compares a value as; a boolean counts as one. */
  function NumberOf(v: Json): Option<real> {
    match v
    case JBool(b) => Some(if b then 1.0 else 0.0)
    case JNum(n) => Some(n)
    case _ => None
  }

  /**
   * When Python takes two values for the same member: numbers and booleans by value, texts and null as they
   * are, arrays element by element, objects key by key. An object is also taken for the array of its
   * key and value pairs by ascending key, as both are tuples by then.
   */
  ghost predicate SameMember(v: Json, w: Json)
    decreases v
  {
    match (v, w)
    case (JNull, JNull) => true
    case (JStr(t), JStr(u)) => t == u
    case (JArr(es), JArr(ds)) => |es| == |ds| && forall i | 0 <= i < |es| :: SameMember(es[i], ds[i])
    case (JObj(fs), JObj(gs)) => fs.Keys == gs.Keys && forall k | k in fs :: k in gs && SameMember(fs[k], gs[k])
    case (JArr(es), JObj(gs)) =>
      && |es| == |gs.Keys| && (forall e | e in es :: IsPair(e) && KeyOf(e) in gs && SameMember(e.elems[1], gs[KeyOf(e)]))
      && KeysAscend(es)
    case (JObj(fs), JArr(ds)) =>
      && |ds| == |fs.Keys| && (forall e | e in ds :: IsPair(e) && KeyOf(e) in fs && SameMember(fs[KeyOf(e)], e.elems[1]))
      && KeysAscend(ds)
    case _ => NumberOf(v).Some? && NumberOf(v) == NumberOf(w)
  }

  predicate IsPair(e: Json) {
    e.JArr? && |e.elems| == 2 && e.elems[0].JStr?
  }

  function KeyOf(e: Json): string {
    if IsPair(e) then e.elems[0].text else ""
  }

  ghost predicate KeysAscend(es: seq<Json>) {
    forall i, j :: 0 <= i < j < |es| ==> StringLt(KeyOf(es[i]), KeyOf(es[j]))
  }

  function EnumSet(s: Schema): Option<set<Frozen>> {
    if s.Node? && s.enums.Some? then Some(set v | v in s.enums.value :: Freeze(v)) else None
  }

  function TypeOf(s: Schema): TypeKeyword {
    if s.Node? then s.typ else NoType
  }

  predicate IsTypeNarrowed(o: TypeKeyword, n: TypeKeyword) {
    TypeNames(o) != {} && TypeNames(n) != {} && !(TypeNames(o) <= TypeNames(n))
  }

  predicate IsEnumCut(o: Schema, n: Schema) {
    EnumSet(o).Some? && EnumSet(n).Some? && EnumSet(o).value - EnumSet(n).value != {}
  }

  function RequiredSet(s: Schema): set<string> {
    if s.Node? then set r | r in s.required else {}
  }

  /** None when the keyword is absent; a sub-schema counts as open. */
  function AdditionalProperties(s: Schema): Option<bool> {
    if !s.Node? || s.extra.None? then None
    else if s.extra.value.Flag? then Some(s.extra.value.accept)
    else Some(true)
  }

  /** The object keywords of a property are compared only for these old sub-schemas. */
  predicate HasObjectShape(o: Schema) {
    o.Node? && (o.typ == OneType(TObject) || o.props.Table?)
  }

  predicate BothItemNodes(o: Schema, n: Schema) {
    o.Node? && n.Node? && o.items.Some? && n.items.Some? && o.items.value.Node? && n.items.value.Node?
  }

  // ---- The breaks, in the order they are reported ----

  function RequiredBreaks(link: Link, o: Schema, n: Schema, pointer: seq<string>): seq<Break> {
    var added := SortedStrings(RequiredSet(n) - RequiredSet(o));
    seq(|added|, i requires 0 <= i < |added| => Break(link, RequiredAdded, pointer + ["required"], added[i]))
  }

  function NodeBreaks(link: Link, o: Schema, n: Schema, pointer: seq<string>): seq<Break>
    decreases o, 2
  {
    RequiredBreaks(link, o, n, pointer)
    + PropertiesBreaks(link, o, n, pointer, |Props(o)|)
    + ExtraBreaks(link, o, n, pointer)
  }

  /** The breaks of the first `count` properties of `o`. */
  function PropertiesBreaks(link: Link, o: Schema, n: Schema, pointer: seq<string>, count: nat): seq<Break>
    requires count <= |Props(o)|
    decreases o, 1, count
  {
    if count == 0 then []
    else PropertiesBreaks(link, o, n, pointer, count - 1) + EntryBreaks(link, Props(o)[count - 1], n, pointer)
  }

  function EntryBreaks(link: Link, p: Property, n: Schema, pointer: seq<string>): seq<Break>
    decreases p, 4
  {
    match Find(Props(n), p.name)
    case None => [Break(link, PropertyRemoved, pointer + ["properties", p.name], "")]
    case Some(sub) => PropertyBreaks(link, p.schema, sub, pointer + ["properties", p.name])
  }

  function PropertyBreaks(link: Link, o: Schema, n: Schema, pointer: seq<string>): seq<Break>
    decreases o, 3
  {
    (if IsTypeNarrowed(TypeOf(o), TypeOf(n)) then [Break(link, TypeNarrowed, pointer + ["type"], "")] else [])
    + (if IsEnumCut(o, n) then [Break(link, EnumRemoved, pointer + ["enum"], "")] else [])
    + (if n.Node? && HasObjectShape(o) then NodeBreaks(link, o, n, pointer) else [])
    + (if BothItemNodes(o, n) then NodeBreaks(link, o.items.value, n.items.value, pointer + ["items"]) else [])
  }

  function ExtraBreaks(link: Link, o: Schema, n: Schema, pointer: seq<string>): seq<Break> {
    if AdditionalProperties(o) != Some(false) && AdditionalProperties(n) == Some(false)
    then [Break(link, AdditionalPropertiesClosed, pointer + ["additionalProperties"], "")]
    else []
  }

  // ---- The checker itself ----

  class BreakList {
    var items: seq<Break>

    constructor ()
      ensures items == []
    {
      items := [];
    }

    method Append(b: Break)
      modifies this
      ensures items == old(items) + [b]
    {
      items := items + [b];
    }
  }

  method CheckNode(link: Link, o: Schema, n: Schema, pointer: seq<string>, breaks: BreakList)
    modifies breaks
    ensures breaks.items == old(breaks.items) + NodeBreaks(link, o, n, pointer)
    decreases o, 2
  {
    hide RequiredBreaks, PropertiesBreaks;
    CheckRequired(link, o, n, pointer, breaks);
    CheckProperties(link, o, n, pointer, breaks);
    if AdditionalProperties(o) != Some(false) && AdditionalProperties(n) == Some(false) {
      breaks.Append(Break(link, AdditionalPropertiesClosed, pointer + ["additionalProperties"], ""));
    }
  }

  /** One break per field that only the new side requires, in alphabetical order. */
  lemma {:induction false} RequiredInOrder(link: Link, o: Schema, n: Schema, pointer: seq<string>)
    ensures var bs := RequiredBreaks(link, o, n, pointer);
      && (forall i, j :: 0 <= i < j < |bs| ==> StringLt(bs[i].subject, bs[j].subject))
      && (forall r :: (exists b :: b in bs && b.subject == r) <==> r in RequiredSet(n) && r !in RequiredSet(o))
  {
    hide SortedStrings;
    var added := RequiredSet(n) - RequiredSet(o);
    var fields, bs := SortedStrings(added), RequiredBreaks(link, o, n, pointer);
    SortedStringsAscend(added);
    assert forall i :: 0 <= i < |bs| ==> bs[i].subject == fields[i] && fields[i] in fields;
    forall r ensures (exists b :: b in bs && b.subject == r) <==> r in RequiredSet(n) && r !in RequiredSet(o) {
      if r in added {
        var i :| 0 <= i < |fields| && fields[i] == r;
        assert bs[i] in bs && bs[i].subject == r;
      }
      if b :| b in bs && b.subject == r {
        var i :| 0 <= i < |bs| && bs[i] == b;
      }
    }
  }

  method CheckRequired(link: Link, o: Schema, n: Schema, pointer: seq<string>, breaks: BreakList)
    modifies breaks
    ensures breaks.items == old(breaks.items) + RequiredBreaks(link, o, n, pointer)
    ensures forall i, j :: |old(breaks.items)| <= i < j < |breaks.items| ==> StringLt(breaks.items[i].subject, breaks.items[j].subject)
  {
    hide SortedStrings, StringLt;
    var added := SortedStrings(RequiredSet(n) - RequiredSet(o));
    ghost var reported := RequiredBreaks(link, o, n, pointer);
    for i := 0 to |added|
      invariant breaks.items == old(breaks.items) + reported[..i]
    {
      breaks.Append(Break(link, RequiredAdded, pointer + ["required"], added[i]));
      assert reported[..i + 1] == reported[..i] + [reported[i]];
    }
    assert reported[..|added|] == reported;
    RequiredInOrder(link, o, n, pointer);
  }

  method CheckProperties(link: Link, o: Schema, n: Schema, pointer: seq<string>, breaks: BreakList)
    modifies breaks
    ensures breaks.items == old(breaks.items) + PropertiesBreaks(link, o, n, pointer, |Props(o)|)
    decreases o, 1
  {
    hide PropertyBreaks;
    for i := 0 to |Props(o)|
      invariant breaks.items == old(breaks.items) + PropertiesBreaks(link, o, n, pointer, i)
    {
      var p := Props(o)[i];
      match Find(Props(n), p.name)
      case None =>
        breaks.Append(Break(link, PropertyRemoved, pointer + ["properties", p.name], ""));
      case Some(sub) =>
        CheckProperty(link, p.schema, sub, pointer + ["properties", p.name], breaks);
    }
  }

  method CheckProperty(link: Link, o: Schema, n: Schema, pointer: seq<string>, breaks: BreakList)
    modifies breaks
    ensures breaks.items == old(breaks.items) + PropertyBreaks(link, o, n, pointer)
    decreases o, 3
  {
    hide NodeBreaks, SortedStrings;
    if IsTypeNarrowed(TypeOf(o), TypeOf(n)) {
      breaks.Append(Break(link, TypeNarrowed, pointer + ["type"], ""));
    }
    if IsEnumCut(o, n) {
      breaks.Append(Break(link, EnumRemoved, pointer + ["enum"], ""));
    }
    if n.Node? && HasObjectShape(o) {
      CheckNode(link, o, n, pointer, breaks);
    }
    if BothItemNodes(o, n) {
      CheckNode(link, o.items.value, n.items.value, pointer + ["items"], breaks);
    }
  }

  // ---- The relation the checker decides ----

  /** What comparing two nodes' object keywords demands. */
  ghost predicate CompatibleNode(o: Schema, n: Schema)
    decreases o, 2
  {
    && (forall r | r in RequiredSet(n) :: r in RequiredSet(o))
    && (forall i | 0 <= i < |Props(o)| :: CompatibleEntry(Props(o)[i], n))
    && (AdditionalProperties(n) == Some(false) ==> AdditionalProperties(o) == Some(false))
  }

  /** A property of the old node is still listed, compatibly. */
  ghost predicate CompatibleEntry(p: Property, n: Schema)
    decreases p, 4
  {
    var sub := Find(Props(n), p.name);
    sub.Some? && CompatibleProperty(p.schema, sub.value)
  }

  ghost predicate CompatibleProperty(o: Schema, n: Schema)
    decreases o, 3
  {
    && (TypeNames(TypeOf(o)) != {} && TypeNames(TypeOf(n)) != {} ==> TypeNames(TypeOf(o)) <= TypeNames(TypeOf(n)))
    && (o.Node? && n.Node? && o.enums.Some? && n.enums.Some? ==>
          forall v | v in o.enums.value :: exists w | w in n.enums.value :: Freeze(w) == Freeze(v))
    && (n.Node? && HasObjectShape(o) ==> CompatibleNode(o, n))
    && (BothItemNodes(o, n) ==> CompatibleNode(o.items.value, n.items.value))
  }

  lemma {:induction false} EnumCutMeaning(o: Schema, n: Schema)
    ensures !IsEnumCut(o, n) <==>
      (o.Node? && n.Node? && o.enums.Some? && n.enums.Some? ==>
          forall v | v in o.enums.value :: exists w | w in n.enums.value :: Freeze(w) == Freeze(v))
  {
    if o.Node? && n.Node? && o.enums.Some? && n.enums.Some? {
      var os, ns := EnumSet(o).value, EnumSet(n).value;
      assert forall v | v in o.enums.value :: Freeze(v) in os;
      assert forall f | f in os - ns :: f in os && f !in ns;
      if !IsEnumCut(o, n) {
        forall v | v in o.enums.value ensures exists w | w in n.enums.value :: Freeze(w) == Freeze(v) {
          assert Freeze(v) !in os - ns;
        }
      } else {
        var f :| f in os - ns;
        var v :| v in o.enums.value && Freeze(v) == f;
      }
    }
  }

  // ---- When two values freeze alike ----

  /** An object frozen: the pairs of its keys and frozen values, by ascending key. */
  lemma {:induction false} FrozenObject(fs: map<string, Json>, i: nat)
    requires i < |SortedStrings(fs.Keys)|
    ensures var ks, f := SortedStrings(fs.Keys), Freeze(JObj(fs));
      f.FTuple? && |f.elems| == |ks| == |fs.Keys| && ks[i] in fs && f.elems[i] == FTuple([FText(ks[i]), Freeze(fs[ks[i]])])
  {
    hide SortedStrings;
    var ks := SortedStrings(fs.Keys);
    assert ks[i] in ks;
  }

  lemma {:induction false} FrozenObjectSize(fs: map<string, Json>)
    ensures Freeze(JObj(fs)).FTuple? && |Freeze(JObj(fs)).elems| == |fs.Keys|
  {
    hide SortedStrings;
  }

  lemma {:induction false} FrozenArray(es: seq<Json>)
    ensures var f := Freeze(JArr(es)); f.FTuple? && |f.elems| == |es| && forall i :: 0 <= i < |es| ==> f.elems[i] == Freeze(es[i])
  {
  }

  lemma {:induction false} FrozenPair(e: Json, k: string, x: Frozen)
    ensures Freeze(e) == FTuple([FText(k), x]) <==> IsPair(e) && KeyOf(e) == k && Freeze(e.elems[1]) == x
  {
    hide SortedStrings;
    match e
    case JArr(es) =>
      FrozenArray(es);
      if |es| == 2 { assert Freeze(e).elems == [Freeze(es[0]), Freeze(es[1])]; }
    case JObj(fs) =>
      FrozenObjectSize(fs);
      if |fs.Keys| == 2 { FrozenObject(fs, 0); }
    case _ =>
  }

  lemma {:induction false} ArraysFreezeAlike(es: seq<Json>, ds: seq<Json>)
    ensures Freeze(JArr(es)) == Freeze(JArr(ds)) <==> |es| == |ds| && forall i :: 0 <= i < |es| ==> Freeze(es[i]) == Freeze(ds[i])
  {
    FrozenArray(es);
    FrozenArray(ds);
    if |es| == |ds| && forall i :: 0 <= i < |es| ==> Freeze(es[i]) == Freeze(ds[i]) {
      assert Freeze(JArr(es)).elems == Freeze(JArr(ds)).elems;
    }
  }

  lemma {:induction false} ObjectsFreezeAlike(fs: map<string, Json>, gs: map<string, Json>)
    ensures Freeze(JObj(fs)) == Freeze(JObj(gs)) <==> fs.Keys == gs.Keys && forall k | k in fs :: k in gs && Freeze(fs[k]) == Freeze(gs[k])
  {
    hide SortedStrings;
    var f, g := Freeze(JObj(fs)), Freeze(JObj(gs));
    var ks := SortedStrings(fs.Keys);
    FrozenObjectSize(fs);
    FrozenObjectSize(gs);
    if f == g {
      forall k | k in fs ensures k in gs && Freeze(fs[k]) == Freeze(gs[k]) {
        var i := PlaceOf(fs, gs, k);
      }
      forall k | k in gs ensures k in fs { var i := PlaceOf(gs, fs, k); }
    }
    if fs.Keys == gs.Keys && forall k | k in fs :: k in gs && Freeze(fs[k]) == Freeze(gs[k]) {
      forall i | 0 <= i < |f.elems| ensures f.elems[i] == g.elems[i] {
        FrozenObject(fs, i);
        FrozenObject(gs, i);
      }
      assert f.elems == g.elems;
    }
  }

  /** Of two objects frozen alike, both hold each key at the same place. */
  lemma {:induction false} PlaceOf(fs: map<string, Json>, gs: map<string, Json>, k: string) returns (i: nat)
    requires Freeze(JObj(fs)) == Freeze(JObj(gs)) && k in fs
    ensures k in gs && Freeze(fs[k]) == Freeze(gs[k])
  {
    hide SortedStrings, Freeze;
    assert k in SortedStrings(fs.Keys);
    i :| 0 <= i < |SortedStrings(fs.Keys)| && SortedStrings(fs.Keys)[i] == k;
    FrozenObjectSize(fs);
    FrozenObjectSize(gs);
    FrozenObject(fs, i);
    FrozenObject(gs, i);
    SamePair(k, Freeze(fs[k]), SortedStrings(gs.Keys)[i], Freeze(gs[SortedStrings(gs.Keys)[i]]));
  }

  lemma {:induction false} SamePair(k: string, x: Frozen, l: string, y: Frozen)
    requires FTuple([FText(k), x]) == FTuple([FText(l), y])
    ensures k == l && x == y
  {
    assert [FText(k), x][0] == [FText(l), y][0] && [FText(k), x][1] == [FText(l), y][1];
  }

  /** The array lists the object's pairs, by ascending key. */
  ghost predicate ListsPairs(es: seq<Json>, gs: map<string, Json>) {
    && |es| == |gs.Keys| && (forall e | e in es :: IsPair(e) && KeyOf(e) in gs && Freeze(e.elems[1]) == Freeze(gs[KeyOf(e)]))
    && KeysAscend(es)
  }

  lemma {:induction false} ArrayFreezesAsObject(es: seq<Json>, gs: map<string, Json>)
    ensures Freeze(JArr(es)) == Freeze(JObj(gs)) <==> ListsPairs(es, gs)
  {
    hide SortedStrings, StringLe, Freeze;
    var ks, f, g := SortedStrings(gs.Keys), Freeze(JArr(es)), Freeze(JObj(gs));
    FrozenArray(es);
    FrozenObjectSize(gs);
    if f == g {
      forall i | 0 <= i < |es| ensures IsPair(es[i]) && KeyOf(es[i]) == ks[i] && ks[i] in gs && Freeze(es[i].elems[1]) == Freeze(gs[ks[i]]) {
        FrozenObject(gs, i);
        FrozenPair(es[i], ks[i], Freeze(gs[ks[i]]));
      }
      SortedStringsAscend(gs.Keys);
    }
    if ListsPairs(es, gs) {
      KeysFill(es, gs.Keys);
      forall i | 0 <= i < |es| ensures f.elems[i] == g.elems[i] {
        assert es[i] in es;
        FrozenObject(gs, i);
        FrozenPair(es[i], ks[i], Freeze(gs[ks[i]]));
      }
      assert f.elems == g.elems;
    }
  }

  lemma {:induction false} KeysFill(es: seq<Json>, s: set<string>)
    requires KeysAscend(es) && |es| == |s| && forall e :: e in es ==> KeyOf(e) in s
    ensures |SortedStrings(s)| == |es| && forall i :: 0 <= i < |es| ==> SortedStrings(s)[i] == KeyOf(es[i])
  {
    hide StringLe, SortedStrings;
    var ks := seq(|es|, i requires 0 <= i < |es| => KeyOf(es[i]));
    forall x | x in ks ensures x in s {
      var i :| 0 <= i < |ks| && ks[i] == x;
      assert es[i] in es;
    }
    AscendingFills(ks, s);
  }

  /** Two values freeze to the same thing exactly when Python takes them for the same member. */
  lemma {:induction false} FreezeExactly(v: Json, w: Json)
    ensures Freeze(v) == Freeze(w) <==> SameMember(v, w)
    decreases v, 1
  {
    hide SortedStrings;
    match (v, w)
    case (JArr(es), JArr(ds)) =>
      ArraysFreezeAlike(es, ds);
      if |es| == |ds| { forall i | 0 <= i < |es| ensures Freeze(es[i]) == Freeze(ds[i]) <==> SameMember(es[i], ds[i]) { FreezeExactly(es[i], ds[i]); } }
    case (JObj(fs), JObj(gs)) =>
      ObjectsFreezeAlike(fs, gs);
      forall k | k in fs && k in gs ensures Freeze(fs[k]) == Freeze(gs[k]) <==> SameMember(fs[k], gs[k]) { FreezeExactly(fs[k], gs[k]); }
    case (JArr(es), JObj(gs)) =>
      ArrayFreezesAsObject(es, gs);
      forall e | e in es && IsPair(e) && KeyOf(e) in gs ensures Freeze(e.elems[1]) == Freeze(gs[KeyOf(e)]) <==> SameMember(e.elems[1], gs[KeyOf(e)]) {
        FreezeExactly(e.elems[1], gs[KeyOf(e)]);
      }
    case (JObj(fs), JArr(ds)) =>
      ArrayFreezesAsObject(ds, fs);
      forall e | e in ds && IsPair(e) && KeyOf(e) in fs ensures Freeze(e.elems[1]) == Freeze(fs[KeyOf(e)]) <==> SameMember(fs[KeyOf(e)], e.elems[1]) {
        FreezeExactly(fs[KeyOf(e)], e.elems[1]);
      }
    case _ =>
  }

  /** The old enumeration has a member the new one has not, by Python's reckoning. */
  ghost predicate LosesMember(o: Schema, n: Schema) {
    o.Node? && n.Node? && o.enums.Some? && n.enums.Some? && exists v | v in o.enums.value :: forall w | w in n.enums.value :: !SameMember(v, w)
  }

  lemma {:induction false} EnumCutExactly(o: Schema, n: Schema)
    ensures IsEnumCut(o, n) <==> LosesMember(o, n)
  {
    hide Freeze, SameMember, IsEnumCut;
    EnumCutMeaning(o, n);
    if o.Node? && n.Node? && o.enums.Some? && n.enums.Some? {
      forall v, w ensures Freeze(w) == Freeze(v) <==> SameMember(v, w) { FreezeExactly(v, w); }
    }
  }

  /** Of texts, a cut enumeration is one that lost a text. */
  lemma {:induction false} TextEnumCutExactly(o: Schema, n: Schema, olds: seq<string>, news: seq<string>)
    requires o.Node? && n.Node? && o.enums == Some(Texts(olds)) && n.enums == Some(Texts(news))
    ensures IsEnumCut(o, n) <==> exists t :: t in olds && t !in news
  {
    hide IsEnumCut;
    EnumCutExactly(o, n);
    TextIn(olds);
    TextIn(news);
    if t :| t in olds && t !in news { assert JStr(t) in o.enums.value; }
  }

  function Texts(ts: seq<string>): seq<Json> {
    seq(|ts|, i requires 0 <= i < |ts| => JStr(ts[i]))
  }

  lemma {:induction false} TextIn(ts: seq<string>)
    ensures forall v :: v in Texts(ts) <==> v.JStr? && v.text in ts
  {
    forall v: Json | v.JStr? && v.text in ts ensures v in Texts(ts) {
      var i :| 0 <= i < |ts| && ts[i] == v.text;
      assert Texts(ts)[i] == v;
    }
  }

  lemma {:induction false} RequiredBreaksExact(link: Link, o: Schema, n: Schema, pointer: seq<string>)
    ensures RequiredBreaks(link, o, n, pointer) == [] <==> forall r | r in RequiredSet(n) :: r in RequiredSet(o)
  {
    var added := RequiredSet(n) - RequiredSet(o);
    assert |SortedStrings(added)| == |added|;
    if r :| r in RequiredSet(n) && r !in RequiredSet(o) { assert r in added; }
  }

  /** No break is reported exactly when the relation holds, whatever the nesting. */
  lemma {:induction false} NodeBreaksExact(link: Link, o: Schema, n: Schema, pointer: seq<string>)
    ensures NodeBreaks(link, o, n, pointer) == [] <==> CompatibleNode(o, n)
    decreases o, 2
  {
    hide RequiredBreaks, PropertiesBreaks, CompatibleEntry;
    RequiredBreaksExact(link, o, n, pointer);
    PropertiesBreaksExact(link, o, n, pointer, |Props(o)|);
  }

  lemma {:induction false} PropertiesBreaksExact(link: Link, o: Schema, n: Schema, pointer: seq<string>, count: nat)
    requires count <= |Props(o)|
    ensures PropertiesBreaks(link, o, n, pointer, count) == [] <==> forall i | 0 <= i < count :: CompatibleEntry(Props(o)[i], n)
    decreases o, 1, count
  {
    hide EntryBreaks, CompatibleEntry;
    if count > 0 {
      PropertiesBreaksExact(link, o, n, pointer, count - 1);
      EntryBreaksExact(link, Props(o)[count - 1], n, pointer);
    }
  }

  lemma {:induction false} EntryBreaksExact(link: Link, p: Property, n: Schema, pointer: seq<string>)
    ensures EntryBreaks(link, p, n, pointer) == [] <==> CompatibleEntry(p, n)
    decreases p, 4
  {
    hide PropertyBreaks, CompatibleProperty;
    var sub := Find(Props(n), p.name);
    if sub.Some? { PropertyBreaksExact(link, p.schema, sub.value, pointer + ["properties", p.name]); }
  }

  lemma {:induction false} PropertyBreaksExact(link: Link, o: Schema, n: Schema, pointer: seq<string>)
    ensures PropertyBreaks(link, o, n, pointer) == [] <==> CompatibleProperty(o, n)
    decreases o, 3
  {
    hide NodeBreaks, CompatibleNode, IsEnumCut;
    EnumCutMeaning(o, n);
    if n.Node? && HasObjectShape(o) { NodeBreaksExact(link, o, n, pointer); }
    if BothItemNodes(o, n) { NodeBreaksExact(link, o.items.value, n.items.value, pointer + ["items"]); }
  }
}
