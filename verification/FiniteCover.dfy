/**
 * Is every payload of a schema on a given finite list? Decided by inspecting schema and list, and proved
 * right in both directions: objects are settled by single-property moves between listed objects.
 */
module FiniteCover {
  import opened Options
  import opened JsonSchema
  import opened Sorting

  function NamesOf(s: Schema): set<string> {
    set i | 0 <= i < |Props(s)| :: Props(s)[i].name
  }

  lemma {:induction false} UnlistedName(s: Schema, name: string)
    requires name !in NamesOf(s)
    ensures At(s, name) == ExtraOf(s)
  {
    forall i | 0 <= i < |Props(s)| ensures Props(s)[i].name != name {
      assert Props(s)[i].name in NamesOf(s);
    }
  }

  // ---- The decision ----

  /** The object `rest` with one more property. */
  function With(rest: map<string, Json>, name: string, w: Json): Json {
    JObj(rest[name := w])
  }

  /** The values `w` for which the list holds the object `rest` with `name` set to `w`. */
  function ValuesAt(vs: seq<Json>, rest: map<string, Json>, name: string): (r: seq<Json>)
    requires name !in rest
    ensures forall w :: w in r <==> With(rest, name, w) in vs
  {
    if vs == [] then [] else
      var tail := ValuesAt(vs[1..], rest, name);
      var hit := vs[0].JObj? && name in vs[0].fields && vs[0].fields - {name} == rest;
      var r := if hit then [vs[0].fields[name]] + tail else tail;
      assert forall w :: w in r <==> With(rest, name, w) in vs by {
        forall w ensures w in r <==> With(rest, name, w) in vs {
          HitMeaning(vs[0], rest, name, w);
          assert With(rest, name, w) in vs <==> With(rest, name, w) == vs[0] || With(rest, name, w) in vs[1..];
        }
      }
      r
  }

  lemma {:induction false} HitMeaning(v: Json, rest: map<string, Json>, name: string, w: Json)
    requires name !in rest
    ensures v == With(rest, name, w) <==> v.JObj? && name in v.fields && v.fields - {name} == rest && v.fields[name] == w
  {
    assert rest[name := w] - {name} == rest;
    if v.JObj? && name in v.fields && v.fields - {name} == rest && v.fields[name] == w {
      assert forall k :: k in v.fields && k != name ==> k in v.fields - {name} && (v.fields - {name})[k] == v.fields[k];
      assert v.fields == rest[name := w];
      assert v == With(rest, name, w);
    }
  }

  /** Every payload of `s` is in `vs`. */
  predicate Covers(s: Schema, vs: seq<Json>)
    decreases s, 2
  {
    || !Inhabited(s)
    || (s.Node? &&
        if s.enums.Some? then forall v | v in s.enums.value && Valid(s, v) :: v in vs
        else forall k: Kind | Reaches(s, k) :: KindCovered(s, k, vs))
  }

  predicate KindCovered(s: Schema, k: Kind, vs: seq<Json>)
    requires s.Node?
    decreases s, 1
  {
    match k
    case KNull => JNull in vs
    case KBoolean => JBool(true) in vs && JBool(false) in vs
    case KInteger => false
    case KFraction => false
    case KString => false
    case KArray => JArr([]) in vs && !Inhabited(ItemsOf(s))
    case KObject =>
      && !Inhabited(ExtraOf(s))
      && (exists v | v in vs :: v.JObj? && Valid(s, v))
      && (forall v | v in vs && v.JObj? && Valid(s, v) :: forall name | name in NamesOf(s) :: MovesCovered(s, v, name, vs))
  }

  /** From a listed object, dropping an optional property and setting a property to any of its values stays on the list. */
  predicate MovesCovered(s: Schema, v: Json, name: string, vs: seq<Json>)
    requires s.Node? && v.JObj?
    decreases s, 0
  {
    && (name in v.fields && name !in s.required ==> JObj(v.fields - {name}) in vs)
    && At(s, name) != Flag(true)
    && Covers(At(s, name), ValuesAt(vs, v.fields - {name}, name))
  }

  // ---- Yes means yes ----

  lemma {:induction false} KeysListed(s: Schema, v: Json, k: string)
    requires s.Node? && v.JObj? && Valid(s, v) && !Inhabited(ExtraOf(s)) && k in v.fields
    ensures k in NamesOf(s)
  {
    if k !in NamesOf(s) {
      UnlistedName(s, k);
      ValidMeansInhabited(ExtraOf(s), v.fields[k]);
    }
  }

  lemma {:induction false} DropValid(s: Schema, v: Json, name: string)
    requires s.Node? && s.enums.None? && v.JObj? && Valid(s, v) && name !in s.required
    ensures Valid(s, JObj(v.fields - {name}))
  {
  }

  lemma {:induction false} SetValid(s: Schema, v: Json, name: string, w: Json)
    requires s.Node? && s.enums.None? && v.JObj? && Valid(s, v) && Valid(At(s, name), w)
    ensures Valid(s, JObj(v.fields[name := w]))
  {
  }

  /** From a listed object, dropping its keys that `m` lacks reaches a listed object within `m`'s keys. */
  lemma {:induction false} Shrink(s: Schema, vs: seq<Json>, e: Json, m: Json) returns (r: Json)
    requires s.Node? && s.enums.None? && KindCovered(s, KObject, vs)
    requires e in vs && e.JObj? && Valid(s, e) && m.JObj? && Valid(s, m)
    ensures r in vs && r.JObj? && Valid(s, r) && r.fields.Keys <= m.fields.Keys
    decreases |e.fields.Keys - m.fields.Keys|
  {
    hide At, Covers;
    if k :| k in e.fields && k !in m.fields {
      KeysListed(s, e, k);
      assert MovesCovered(s, e, k, vs);
      DropValid(s, e, k);
      var d := JObj(e.fields - {k});
      assert d.fields.Keys - m.fields.Keys == (e.fields.Keys - m.fields.Keys) - {k};
      r := Shrink(s, vs, d, m);
    } else {
      r := e;
    }
  }

  ghost function Unmatched(e: Json, m: Json): set<string>
    requires e.JObj? && m.JObj?
  {
    set k | k in m.fields && (k !in e.fields || e.fields[k] != m.fields[k])
  }

  lemma {:induction false} StepMatches(e: Json, m: Json, k: string)
    requires e.JObj? && m.JObj? && k in Unmatched(e, m)
    ensures Unmatched(JObj(e.fields[k := m.fields[k]]), m) == Unmatched(e, m) - {k}
    ensures With(e.fields - {k}, k, m.fields[k]) == JObj(e.fields[k := m.fields[k]])
  {
    assert (e.fields - {k})[k := m.fields[k]] == e.fields[k := m.fields[k]];
  }

  lemma {:induction false} AllMatched(e: Json, m: Json)
    requires e.JObj? && m.JObj? && e.fields.Keys <= m.fields.Keys && Unmatched(e, m) == {}
    ensures e == m
  {
    assert forall k | k in m.fields :: k !in Unmatched(e, m);
    assert e.fields.Keys == m.fields.Keys;
    assert e.fields == m.fields;
  }

  /** Setting the remaining keys one by one reaches `m` itself. */
  lemma {:induction false} Grow(s: Schema, vs: seq<Json>, e: Json, m: Json)
    requires s.Node? && s.enums.None? && KindCovered(s, KObject, vs)
    requires e in vs && e.JObj? && Valid(s, e) && m.JObj? && Valid(s, m) && e.fields.Keys <= m.fields.Keys
    ensures m in vs
    decreases s, 0, |Unmatched(e, m)|
  {
    hide Covers;
    if k :| k in Unmatched(e, m) {
      KeysListed(s, m, k);
      assert MovesCovered(s, e, k, vs);
      var w := m.fields[k];
      CoversSound(At(s, k), ValuesAt(vs, e.fields - {k}, k), w);
      SetValid(s, e, k, w);
      StepMatches(e, m, k);
      Grow(s, vs, JObj(e.fields[k := w]), m);
    } else {
      AllMatched(e, m);
    }
  }

  lemma {:induction false} CoversSound(s: Schema, vs: seq<Json>, v: Json)
    requires Covers(s, vs) && Valid(s, v)
    ensures v in vs
    decreases s, 1
  {
    ValidMeansInhabited(s, v);
    if s.Node? && s.enums.None? {
      assert KindCovered(s, KindOf(v), vs);
      match v
      case JNull =>
      case JBool(b) => assert v == JBool(true) || v == JBool(false);
      case JNum(_) =>
      case JStr(_) =>
      case JArr(es) =>
        if es != [] { ValidMeansInhabited(ItemsOf(s), es[0]); }
      case JObj(_) =>
        var e :| e in vs && e.JObj? && Valid(s, e);
        var r := Shrink(s, vs, e, v);
        Grow(s, vs, r, v);
    }
  }

  // ---- No means no ----

  /** Exceeds every number, string length, array length and key length among `vs`. */
  function Bound(vs: seq<Json>): (b: nat)
    ensures forall v | v in vs && v.JNum? :: v.num < b as real
    ensures forall v | v in vs && v.JStr? :: |v.text| < b
    ensures forall v | v in vs && v.JArr? :: |v.elems| < b
    ensures forall v | v in vs && v.JObj? :: forall k | k in v.fields :: |k| < b
  {
    if vs == [] then 0
    else
      var rest, first := Bound(vs[1..]), SizeBound(vs[0]);
      assert forall v | v in vs :: v == vs[0] || v in vs[1..];
      if rest < first then first else rest
  }

  function SizeBound(v: Json): (b: nat)
    ensures v.JNum? ==> v.num < b as real
    ensures v.JStr? ==> |v.text| < b
    ensures v.JArr? ==> |v.elems| < b
    ensures v.JObj? ==> forall k | k in v.fields :: |k| < b
  {
    match v
    case JNum(n) => if n >= 0.0 then n.Floor + 1 else 1
    case JStr(t) => |t| + 1
    case JArr(es) => |es| + 1
    case JObj(fs) => LongestKey(fs)
    case _ => 1
  }

  function LongestKey(fs: map<string, Json>): (b: nat)
    ensures forall k | k in fs :: |k| < b
  {
    LongestOf(SortedStrings(fs.Keys))
  }

  function LongestOf(names: seq<string>): (b: nat)
    ensures forall k | k in names :: |k| < b
  {
    if names == [] then 0 else
      var rest := LongestOf(names[1..]);
      assert forall k | k in names :: k == names[0] || k in names[1..];
      if |names[0]| + 1 > rest then |names[0]| + 1 else rest
  }

  function LongString(n: nat): (t: string)
    ensures |t| == n
  {
    seq(n, _ => 'a')
  }

  function LongestName(ps: seq<Property>): (b: nat)
    ensures forall i :: 0 <= i < |ps| ==> |ps[i].name| < b
  {
    if ps == [] then 0 else
      var rest := LongestName(ps[1..]);
      assert forall i :: 1 <= i < |ps| ==> ps[i] == ps[1..][i - 1];
      if |ps[0].name| + 1 > rest then |ps[0].name| + 1 else rest
  }

  lemma {:induction false} LongNameIsFresh(s: Schema, n: nat)
    requires n >= LongestName(Props(s))
    ensures LongString(n) !in NamesOf(s)
  {
  }

  ghost function Witness(o: Schema, k: Kind): (v: Json)
    requires o.Node? && o.enums.None? && Reaches(o, k)
    ensures Valid(o, v) && KindOf(v) == k
  {
    if k == KObject then LeastObject(o) else Sample(k)
  }

  lemma {:induction false} KindEscapes(s: Schema, k: Kind, vs: seq<Json>) returns (v: Json)
    requires s.Node? && s.enums.None? && k != KObject && Reaches(s, k) && !KindCovered(s, k, vs)
    ensures Valid(s, v) && v !in vs
  {
    hide Covers;
    var b := Bound(vs);
    match k {
      case KNull => v := JNull;
      case KBoolean => v := if JBool(true) in vs then JBool(false) else JBool(true);
      case KInteger => v := JNum(b as real);
      case KFraction =>
        v := JNum(b as real + 0.5);
        assert (b as real + 0.5).Floor == b;
      case KString => v := JStr(LongString(b));
      case KArray =>
        if JArr([]) in vs {
          var e := Example(ItemsOf(s));
          v := JArr(seq(b, _ => e));
          assert forall x :: x in v.elems ==> x == e;
        } else {
          v := JArr([]);
        }
    }
  }

  /** A value the schema accepts and the list lacks. */
  lemma {:induction false} CoversEscape(s: Schema, vs: seq<Json>) returns (v: Json)
    requires !Covers(s, vs)
    ensures Valid(s, v) && v !in vs
    decreases s, 2
  {
    if s.Flag? {
      v := JStr(LongString(Bound(vs)));
    } else if s.enums.Some? {
      v :| v in s.enums.value && Valid(s, v) && v !in vs;
    } else {
      var k: Kind :| Reaches(s, k) && !KindCovered(s, k, vs);
      if k == KObject { v := ObjectEscapes(s, vs); } else { v := KindEscapes(s, k, vs); }
    }
  }

  lemma {:induction false} ObjectEscapes(s: Schema, vs: seq<Json>) returns (v: Json)
    requires s.Node? && s.enums.None? && Reaches(s, KObject) && !KindCovered(s, KObject, vs)
    ensures Valid(s, v) && v !in vs
    decreases s, 1
  {
    if Inhabited(ExtraOf(s)) {
      var name := LongString(Bound(vs) + LongestName(Props(s)));
      LongNameIsFresh(s, Bound(vs) + LongestName(Props(s)));
      UnlistedName(s, name);
      var w := Example(ExtraOf(s));
      SetValid(s, LeastObject(s), name, w);
      v := JObj(LeastObject(s).fields[name := w]);
      assert name in v.fields;
    } else if !(exists e | e in vs :: e.JObj? && Valid(s, e)) {
      v := LeastObject(s);
    } else {
      var e :| e in vs && e.JObj? && Valid(s, e) && !(forall name | name in NamesOf(s) :: MovesCovered(s, e, name, vs));
      var name :| name in NamesOf(s) && !MovesCovered(s, e, name, vs);
      v := MoveEscapes(s, e, name, vs);
    }
  }

  lemma {:induction false} SetEscapes(s: Schema, e: Json, name: string, vs: seq<Json>, w: Json) returns (v: Json)
    requires s.Node? && s.enums.None? && e.JObj? && Valid(s, e)
    requires Valid(At(s, name), w) && w !in ValuesAt(vs, e.fields - {name}, name)
    ensures Valid(s, v) && v !in vs
  {
    hide ValuesAt;
    SetValid(s, e, name, w);
    v := JObj(e.fields[name := w]);
    assert (e.fields - {name})[name := w] == e.fields[name := w];
    assert v == With(e.fields - {name}, name, w);
  }

  lemma {:induction false} MoveEscapes(s: Schema, e: Json, name: string, vs: seq<Json>) returns (v: Json)
    requires s.Node? && s.enums.None? && e.JObj? && Valid(s, e) && !MovesCovered(s, e, name, vs)
    ensures Valid(s, v) && v !in vs
    decreases s, 0
  {
    hide ValuesAt, Bound, Inhabited, KindCovered;
    if name in e.fields && name !in s.required && JObj(e.fields - {name}) !in vs {
      DropValid(s, e, name);
      v := JObj(e.fields - {name});
    } else {
      var rest := e.fields - {name};
      var w: Json;
      if At(s, name) == Flag(true) {
        w := JStr(LongString(Bound(ValuesAt(vs, rest, name))));
      } else {
        w := CoversEscape(At(s, name), ValuesAt(vs, rest, name));
      }
      v := SetEscapes(s, e, name, vs, w);
    }
  }
}
