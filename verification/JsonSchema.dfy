/**
 * JSON values and the JSON Schema (draft 2020-12) keywords the registry's
 * compatibility checker looks at: type and enum (Validation 6.1.1, 6.1.2),
 * required (Validation 6.5.3), properties, additionalProperties and items
 * (Core 10.3.2.1, 10.3.2.3, 10.3.1.2).
 */
module JsonSchema {
  import opened Options

  datatype Json =
    | JNull
    | JBool(flag: bool)
    | JNum(num: real)
    | JStr(text: string)
    | JArr(elems: seq<Json>)
    | JObj(fields: map<string, Json>)

  datatype TypeName = TNull | TBoolean | TInteger | TNumber | TString | TArray | TObject

  /** The type keyword: absent, one name, or a list of names. */
  datatype TypeKeyword = NoType | OneType(name: TypeName) | TypeList(names: seq<TypeName>)

  datatype Property = Property(name: string, schema: Schema)

  /** The properties keyword, in document order. */
  datatype PropertyTable = NoTable | Table(entries: seq<Property>)

  /** A schema is a boolean, or an object carrying the six modelled keywords. */
  datatype Schema =
    | Flag(accept: bool)
    | Node(typ: TypeKeyword, enums: Option<seq<Json>>, required: seq<string>,
           props: PropertyTable, extra: Option<Schema>, items: Option<Schema>)

  // ---- Reading a schema node ----

  function TypeNames(t: TypeKeyword): set<TypeName> {
    match t
    case NoType => {}
    case OneType(n) => {n}
    case TypeList(ns) => set n | n in ns
  }

  function Props(s: Schema): seq<Property> {
    if s.Node? && s.props.Table? then s.props.entries else []
  }

  function Find(ps: seq<Property>, name: string): (r: Option<Schema>)
    ensures r.None? <==> forall i :: 0 <= i < |ps| ==> ps[i].name != name
    ensures r.Some? ==> exists i :: 0 <= i < |ps| && ps[i] == Property(name, r.value)
  {
    if ps == [] then None
    else if ps[0].name == name then
      assert ps[0] == Property(name, ps[0].schema);
      Some(ps[0].schema)
    else
      var r := Find(ps[1..], name);
      assert r.Some? ==> exists i :: 0 <= i < |ps| && ps[i] == Property(name, r.value) by {
        if r.Some? {
          var i :| 0 <= i < |ps[1..]| && ps[1..][i] == Property(name, r.value);
          assert ps[i + 1] == Property(name, r.value);
        }
      }
      r
  }

  /** The schema for property names that `properties` does not list. */
  function ExtraOf(s: Schema): (r: Schema)
    ensures r == Flag(true) || r < s
  {
    if s.Node? && s.extra.Some? then s.extra.value else Flag(true)
  }

  function ItemsOf(s: Schema): (r: Schema)
    ensures r == Flag(true) || r < s
  {
    if s.Node? && s.items.Some? then s.items.value else Flag(true)
  }

  /** The schema that governs property `name` of an object. */
  function At(s: Schema, name: string): (r: Schema)
    ensures r == Flag(true) || r < s
  {
    match Find(Props(s), name)
    case Some(sub) => sub
    case None => ExtraOf(s)
  }

  /** What parsing and the meta-schema check guarantee: names are distinct, type lists are non-empty. */
  ghost predicate WellFormed(s: Schema) {
    s.Node? ==>
      && (s.typ.TypeList? ==> s.typ.names != [])
      && (forall i, j :: 0 <= i < j < |Props(s)| ==> Props(s)[i].name != Props(s)[j].name)
      && (forall i :: 0 <= i < |Props(s)| ==> WellFormed(Props(s)[i].schema))
      && (s.extra.Some? ==> WellFormed(s.extra.value))
      && (s.items.Some? ==> WellFormed(s.items.value))
  }

  lemma {:induction false} FindUnique(s: Schema, i: nat)
    requires WellFormed(s) && i < |Props(s)|
    ensures Find(Props(s), Props(s)[i].name) == Some(Props(s)[i].schema)
    ensures At(s, Props(s)[i].name) == Props(s)[i].schema
  {
  }

  // ---- Validation ----

  /** The kinds of value that `type` can tell apart; every integer is also a number. */
  datatype Kind = KNull | KBoolean | KInteger | KFraction | KString | KArray | KObject

  function KindOf(v: Json): Kind {
    match v
    case JNull => KNull
    case JBool(_) => KBoolean
    case JNum(n) => if n == n.Floor as real then KInteger else KFraction
    case JStr(_) => KString
    case JArr(_) => KArray
    case JObj(_) => KObject
  }

  predicate Accepts(t: TypeName, k: Kind) {
    match t
    case TNull => k == KNull
    case TBoolean => k == KBoolean
    case TInteger => k == KInteger
    case TNumber => k == KInteger || k == KFraction
    case TString => k == KString
    case TArray => k == KArray
    case TObject => k == KObject
  }

  predicate Permits(t: TypeKeyword, k: Kind) {
    t == NoType || exists n | n in TypeNames(t) :: Accepts(n, k)
  }

  /** `v` is a valid payload for `s`. */
  predicate Valid(s: Schema, v: Json)
    decreases v
  {
    match s
    case Flag(b) => b
    case Node(typ, enums, required, _, _, _) =>
      && Permits(typ, KindOf(v))
      && (enums.Some? ==> v in enums.value)
      && (v.JObj? ==>
            && (forall r | r in required :: r in v.fields)
            && (forall k | k in v.fields :: Valid(At(s, k), v.fields[k])))
      && (v.JArr? ==> forall e | e in v.elems :: Valid(ItemsOf(s), e))
  }

  /** Every payload valid under `old` is valid under `new`. */
  ghost predicate Backward(old_: Schema, new_: Schema) {
    forall v :: Valid(old_, v) ==> Valid(new_, v)
  }

  // ---- Which schemas accept anything at all ----

  predicate Inhabited(s: Schema)
    decreases s, 1
  {
    match s
    case Flag(b) => b
    case Node(typ, enums, _, _, _, _) =>
      if enums.Some? then exists v | v in enums.value :: Valid(s, v)
      else
        || Permits(typ, KNull) || Permits(typ, KBoolean) || Permits(typ, KInteger) || Permits(typ, KFraction)
        || Permits(typ, KString) || Permits(typ, KArray) || (Permits(typ, KObject) && SomeObject(s))
  }

  /** Every required property can be given a value. */
  predicate SomeObject(s: Schema)
    requires s.Node?
    decreases s, 0
  {
    forall r | r in s.required :: At(s, r) == Flag(true) || Inhabited(At(s, r))
  }

  /** A value of kind `k` passes the type, required, properties and items keywords of `s`. */
  predicate Reaches(s: Schema, k: Kind)
    requires s.Node?
  {
    Permits(s.typ, k) && (k == KObject ==> SomeObject(s))
  }

  function Sample(k: Kind): (v: Json)
    ensures KindOf(v) == k
  {
    match k
    case KNull => JNull
    case KBoolean => JBool(true)
    case KInteger => JNum(0.0)
    case KFraction => assert (0.5).Floor == 0; JNum(0.5)
    case KString => JStr("")
    case KArray => JArr([])
    case KObject => JObj(map[])
  }

  /** An object holding just the required properties. */
  ghost function LeastObject(s: Schema): (v: Json)
    requires s.Node? && SomeObject(s)
    ensures v.JObj? && v.fields.Keys == (set r | r in s.required)
    ensures forall k | k in v.fields :: Valid(At(s, k), v.fields[k])
    decreases s, 0
  {
    JObj(map r | r in s.required :: if At(s, r) == Flag(true) then JNull else Example(At(s, r)))
  }

  ghost function Example(s: Schema): (v: Json)
    requires Inhabited(s)
    ensures Valid(s, v)
    decreases s, 1
  {
    if s.Flag? then JNull
    else if s.enums.Some? then var v :| v in s.enums.value && Valid(s, v); v
    else if exists k: Kind :: k != KObject && Permits(s.typ, k) then
      var k: Kind :| k != KObject && Permits(s.typ, k);
      Sample(k)
    else LeastObject(s)
  }

  lemma {:induction false} ValidMeansInhabited(s: Schema, v: Json)
    requires Valid(s, v)
    ensures Inhabited(s)
    ensures s.Node? && v.JObj? ==> SomeObject(s)
    ensures s.Node? ==> Reaches(s, KindOf(v))
    decreases v
  {
    if s.Node? && v.JObj? {
      forall r | r in s.required ensures At(s, r) == Flag(true) || Inhabited(At(s, r)) {
        ValidMeansInhabited(At(s, r), v.fields[r]);
      }
    }
  }
}
