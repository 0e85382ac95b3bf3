/**
 * What the report lists: each break sits at the JSON Pointer of a real violation, and each violation of
 * the checked rules is reported, at every depth.
 */
module SchemaReport {
  import opened Options
  import opened JsonSchema
  import opened SchemaCheck
  import opened Sorting

  // ---- Violations, by where they are ----

  predicate NewlyRequired(o: Schema, n: Schema, field: string) {
    n.Node? && field in n.required && !(o.Node? && field in o.required)
  }

  /** The new node forbids undeclared properties, the old one did not. */
  predicate Closes(o: Schema, n: Schema) {
    n.Node? && n.extra == Some(Flag(false)) && !(o.Node? && o.extra == Some(Flag(false)))
  }

  /** Both sides name types, and one of the old ones went. */
  predicate LosesType(o: Schema, n: Schema) {
    && o.Node? && n.Node? && TypeNames(o.typ) != {} && TypeNames(n.typ) != {}
    && exists t | t in TypeNames(o.typ) :: t !in TypeNames(n.typ)
  }

  /** `path`, read from the two nodes down, leads to a violation of `rule` concerning `subject`. */
  ghost predicate NodeViolation(o: Schema, n: Schema, path: seq<string>, rule: Rule, subject: string)
    decreases o, 2
  {
    || (path == ["required"] && rule == RequiredAdded && NewlyRequired(o, n, subject))
    || (path == ["additionalProperties"] && rule == AdditionalPropertiesClosed && subject == "" && Closes(o, n))
    || (exists i :: 0 <= i < |Props(o)| && EntryViolation(Props(o)[i], n, path, rule, subject))
  }

  ghost predicate EntryViolation(p: Property, n: Schema, path: seq<string>, rule: Rule, subject: string)
    decreases p, 4
  {
    && ["properties", p.name] <= path
    && match Find(Props(n), p.name)
       case None => path == ["properties", p.name] && rule == PropertyRemoved && subject == ""
       case Some(sub) => SideViolation(p.schema, sub, path[2..], rule, subject)
  }

  /**
   * Object keywords are looked at only when the old side is an "object" or has properties, items only when
   * both sides have an object there.
   */
  ghost predicate SideViolation(o: Schema, n: Schema, path: seq<string>, rule: Rule, subject: string)
    decreases o, 3
  {
    || (path == ["type"] && rule == TypeNarrowed && subject == "" && LosesType(o, n))
    || (path == ["enum"] && rule == EnumRemoved && subject == "" && LosesMember(o, n))
    || (n.Node? && o.Node? && (o.typ == OneType(TObject) || o.props.Table?) && NodeViolation(o, n, path, rule, subject))
    || (o.Node? && n.Node? && o.items.Some? && n.items.Some? && o.items.value.Node? && n.items.value.Node?
        && ["items"] <= path && NodeViolation(o.items.value, n.items.value, path[1..], rule, subject))
  }

  /** What the checker looks at, in those terms. */
  lemma {:induction false} ChecksMean(o: Schema, n: Schema)
    ensures IsTypeNarrowed(TypeOf(o), TypeOf(n)) <==> LosesType(o, n)
    ensures IsEnumCut(o, n) <==> LosesMember(o, n)
    ensures AdditionalProperties(o) != Some(false) && AdditionalProperties(n) == Some(false) <==> Closes(o, n)
    ensures forall field :: field in RequiredSet(n) && field !in RequiredSet(o) <==> NewlyRequired(o, n, field)
  {
    hide IsEnumCut, LosesMember;
    EnumCutExactly(o, n);
  }

  // ---- Every break is below the pointer it is looked for at ----

  ghost predicate Below(bs: seq<Break>, link: Link, pointer: seq<string>) {
    forall b :: b in bs ==> b.link == link && pointer <= b.pointer
  }

  lemma {:induction false} BelowAppend(a: seq<Break>, b: seq<Break>, link: Link, pointer: seq<string>)
    requires Below(a, link, pointer) && Below(b, link, pointer)
    ensures Below(a + b, link, pointer)
  {
  }

  lemma {:induction false} BelowDeeper(bs: seq<Break>, link: Link, pointer: seq<string>, more: seq<string>)
    requires Below(bs, link, pointer + more)
    ensures Below(bs, link, pointer)
  {
    forall b | b in bs ensures pointer <= b.pointer {
      assert pointer + more <= b.pointer;
      assert b.pointer[..|pointer|] == (pointer + more)[..|pointer|] == pointer;
    }
  }

  lemma {:induction false} RequiredBelow(link: Link, o: Schema, n: Schema, pointer: seq<string>)
    ensures Below(RequiredBreaks(link, o, n, pointer), link, pointer)
    ensures Below(ExtraBreaks(link, o, n, pointer), link, pointer)
  {
    hide SortedStrings;
  }

  lemma {:induction false} NodeBelow(link: Link, o: Schema, n: Schema, pointer: seq<string>)
    ensures Below(NodeBreaks(link, o, n, pointer), link, pointer)
    decreases o, 2
  {
    hide RequiredBreaks, PropertiesBreaks, ExtraBreaks, Below;
    RequiredBelow(link, o, n, pointer);
    PropertiesBelow(link, o, n, pointer, |Props(o)|);
    BelowAppend(RequiredBreaks(link, o, n, pointer), PropertiesBreaks(link, o, n, pointer, |Props(o)|), link, pointer);
    BelowAppend(RequiredBreaks(link, o, n, pointer) + PropertiesBreaks(link, o, n, pointer, |Props(o)|), ExtraBreaks(link, o, n, pointer), link, pointer);
  }

  lemma {:induction false} PropertiesBelow(link: Link, o: Schema, n: Schema, pointer: seq<string>, count: nat)
    requires count <= |Props(o)|
    ensures Below(PropertiesBreaks(link, o, n, pointer, count), link, pointer)
    decreases o, 1, count
  {
    hide EntryBreaks;
    if count > 0 {
      PropertiesBelow(link, o, n, pointer, count - 1);
      EntryBelow(link, Props(o)[count - 1], n, pointer);
      BelowDeeper(EntryBreaks(link, Props(o)[count - 1], n, pointer), link, pointer, ["properties", Props(o)[count - 1].name]);
    }
  }

  lemma {:induction false} EntryBelow(link: Link, p: Property, n: Schema, pointer: seq<string>)
    ensures Below(EntryBreaks(link, p, n, pointer), link, pointer + ["properties", p.name])
    decreases p, 4
  {
    hide PropertyBreaks;
    var sub := Find(Props(n), p.name);
    if sub.Some? { SideBelow(link, p.schema, sub.value, pointer + ["properties", p.name]); }
  }

  lemma {:induction false} SideBelow(link: Link, o: Schema, n: Schema, pointer: seq<string>)
    ensures Below(PropertyBreaks(link, o, n, pointer), link, pointer)
    decreases o, 3
  {
    hide NodeBreaks;
    if n.Node? && HasObjectShape(o) { NodeBelow(link, o, n, pointer); }
    if BothItemNodes(o, n) {
      NodeBelow(link, o.items.value, n.items.value, pointer + ["items"]);
      BelowDeeper(NodeBreaks(link, o.items.value, n.items.value, pointer + ["items"]), link, pointer, ["items"]);
    }
  }

  // ---- The report is exactly the violations ----

  lemma {:induction false} CancelPrefix(a: seq<string>, b: seq<string>, c: seq<string>)
    ensures a + b == a + c <==> b == c
  {
    if a + b == a + c {
      assert b == (a + b)[|a|..] && c == (a + c)[|a|..];
    }
  }

  lemma {:induction false} RequiredReported(link: Link, o: Schema, n: Schema, pointer: seq<string>, path: seq<string>, rule: Rule, subject: string)
    ensures Break(link, rule, pointer + path, subject) in RequiredBreaks(link, o, n, pointer) <==>
      path == ["required"] && rule == RequiredAdded && NewlyRequired(o, n, subject)
  {
    CancelPrefix(pointer, path, ["required"]);
    ChecksMean(o, n);
    var added := RequiredSet(n) - RequiredSet(o);
    var fields, bs := SortedStrings(added), RequiredBreaks(link, o, n, pointer);
    assert subject in fields <==> subject in added;
    if subject in fields {
      var i :| 0 <= i < |fields| && fields[i] == subject;
      assert bs[i] == Break(link, RequiredAdded, pointer + ["required"], subject);
    }
    assert forall i :: 0 <= i < |bs| ==> bs[i].subject == fields[i] && fields[i] in fields;
  }

  lemma {:induction false} NodeReported(link: Link, o: Schema, n: Schema, pointer: seq<string>, path: seq<string>, rule: Rule, subject: string)
    ensures Break(link, rule, pointer + path, subject) in NodeBreaks(link, o, n, pointer) <==> NodeViolation(o, n, path, rule, subject)
    decreases o, 2
  {
    hide RequiredBreaks, PropertiesBreaks, EntryViolation, Closes;
    ChecksMean(o, n);
    RequiredReported(link, o, n, pointer, path, rule, subject);
    PropertiesReported(link, o, n, pointer, path, rule, subject, |Props(o)|);
    CancelPrefix(pointer, path, ["additionalProperties"]);
  }

  lemma {:induction false} PropertiesReported(link: Link, o: Schema, n: Schema, pointer: seq<string>, path: seq<string>, rule: Rule, subject: string, count: nat)
    requires count <= |Props(o)|
    ensures Break(link, rule, pointer + path, subject) in PropertiesBreaks(link, o, n, pointer, count) <==>
      exists i :: 0 <= i < count && EntryViolation(Props(o)[i], n, path, rule, subject)
    decreases o, 1, count
  {
    hide EntryBreaks, EntryViolation;
    if count > 0 {
      PropertiesReported(link, o, n, pointer, path, rule, subject, count - 1);
      EntryReported(link, Props(o)[count - 1], n, pointer, path, rule, subject);
    }
  }

  lemma {:induction false} EntryReported(link: Link, p: Property, n: Schema, pointer: seq<string>, path: seq<string>, rule: Rule, subject: string)
    ensures Break(link, rule, pointer + path, subject) in EntryBreaks(link, p, n, pointer) <==> EntryViolation(p, n, path, rule, subject)
    decreases p, 4
  {
    hide PropertyBreaks, SideViolation;
    var own := ["properties", p.name];
    var b := Break(link, rule, pointer + path, subject);
    CancelPrefix(pointer, path, own);
    match Find(Props(n), p.name)
    case None =>
    case Some(sub) =>
      if own <= path {
        assert path == own + path[2..];
        assert pointer + path == (pointer + own) + path[2..];
        SideReported(link, p.schema, sub, pointer + own, path[2..], rule, subject);
      } else if b in EntryBreaks(link, p, n, pointer) {
        EntryBelow(link, p, n, pointer);
        PrefixUnder(pointer, own, path);
      }
  }

  lemma {:induction false} PrefixUnder(pointer: seq<string>, own: seq<string>, path: seq<string>)
    requires pointer + own <= pointer + path
    ensures own <= path
  {
    assert forall i :: 0 <= i < |own| ==> own[i] == (pointer + own)[|pointer| + i] == (pointer + path)[|pointer| + i] == path[i];
  }

  /** The two breaks a property can have itself. */
  function OwnBreaks(link: Link, o: Schema, n: Schema, pointer: seq<string>): seq<Break> {
    (if IsTypeNarrowed(TypeOf(o), TypeOf(n)) then [Break(link, TypeNarrowed, pointer + ["type"], "")] else [])
    + (if IsEnumCut(o, n) then [Break(link, EnumRemoved, pointer + ["enum"], "")] else [])
  }

  ghost predicate OwnViolation(o: Schema, n: Schema, path: seq<string>, rule: Rule, subject: string) {
    || (path == ["type"] && rule == TypeNarrowed && subject == "" && LosesType(o, n))
    || (path == ["enum"] && rule == EnumRemoved && subject == "" && LosesMember(o, n))
  }

  lemma {:induction false} OwnReported(link: Link, o: Schema, n: Schema, pointer: seq<string>, path: seq<string>, rule: Rule, subject: string)
    ensures Break(link, rule, pointer + path, subject) in OwnBreaks(link, o, n, pointer) <==> OwnViolation(o, n, path, rule, subject)
  {
    hide IsTypeNarrowed, IsEnumCut, LosesType, LosesMember;
    ChecksMean(o, n);
    CancelPrefix(pointer, path, ["type"]);
    CancelPrefix(pointer, path, ["enum"]);
  }

  lemma {:induction false} SideReported(link: Link, o: Schema, n: Schema, pointer: seq<string>, path: seq<string>, rule: Rule, subject: string)
    ensures Break(link, rule, pointer + path, subject) in PropertyBreaks(link, o, n, pointer) <==> SideViolation(o, n, path, rule, subject)
    decreases o, 3
  {
    var own := OwnBreaks(link, o, n, pointer);
    var body := if n.Node? && HasObjectShape(o) then NodeBreaks(link, o, n, pointer) else [];
    var items := if BothItemNodes(o, n) then NodeBreaks(link, o.items.value, n.items.value, pointer + ["items"]) else [];
    assert PropertyBreaks(link, o, n, pointer) == own + body + items;
    assert SideViolation(o, n, path, rule, subject) <==>
      || OwnViolation(o, n, path, rule, subject)
      || (n.Node? && HasObjectShape(o) && NodeViolation(o, n, path, rule, subject))
      || (BothItemNodes(o, n) && ["items"] <= path && NodeViolation(o.items.value, n.items.value, path[1..], rule, subject));
    hide NodeBreaks, NodeViolation, OwnBreaks, OwnViolation, PropertyBreaks, SideViolation;
    OwnReported(link, o, n, pointer, path, rule, subject);
    if n.Node? && HasObjectShape(o) { NodeReported(link, o, n, pointer, path, rule, subject); }
    if BothItemNodes(o, n) { ItemsReported(link, o, n, pointer, path, rule, subject); }
  }

  lemma {:induction false} ItemsReported(link: Link, o: Schema, n: Schema, pointer: seq<string>, path: seq<string>, rule: Rule, subject: string)
    requires BothItemNodes(o, n)
    ensures Break(link, rule, pointer + path, subject) in NodeBreaks(link, o.items.value, n.items.value, pointer + ["items"]) <==>
      ["items"] <= path && NodeViolation(o.items.value, n.items.value, path[1..], rule, subject)
    decreases o, 2
  {
    hide NodeBreaks, NodeViolation;
    var oi, ni := o.items.value, n.items.value;
    if ["items"] <= path {
      assert path == ["items"] + path[1..];
      assert pointer + path == (pointer + ["items"]) + path[1..];
      NodeReported(link, oi, ni, pointer + ["items"], path[1..], rule, subject);
    } else if Break(link, rule, pointer + path, subject) in NodeBreaks(link, oi, ni, pointer + ["items"]) {
      NodeBelow(link, oi, ni, pointer + ["items"]);
      PrefixUnder(pointer, ["items"], path);
    }
  }

  // ---- The order of the report ----

  function NameIndex(ps: seq<Property>, name: string): nat {
    if ps == [] || ps[0].name == name then 0 else 1 + NameIndex(ps[1..], name)
  }

  /** Where a break of a node comes, by its pointer from the node on: required fields, then the old properties in their order, then the rest. */
  function NodeRank(o: Schema, path: seq<string>): nat {
    if |path| > 0 && path[0] == "required" then 0
    else if |path| > 1 && path[0] == "properties" then 1 + NameIndex(Props(o), path[1])
    else 1 + |Props(o)|
  }

  /** Of a property: its type, its enumeration, its object keywords, its items. */
  function SideRank(path: seq<string>): nat {
    if path == ["type"] then 0 else if path == ["enum"] then 1 else if |path| > 0 && path[0] == "items" then 3 else 2
  }

  ghost predicate Ranked(bs: seq<Break>, pointer: seq<string>, rank: seq<string> -> nat, lo: nat, hi: nat) {
    && (forall b :: b in bs ==> pointer <= b.pointer && lo <= rank(b.pointer[|pointer|..]) <= hi)
    && (forall i, j :: 0 <= i < j < |bs| ==>
          pointer <= bs[i].pointer && pointer <= bs[j].pointer && rank(bs[i].pointer[|pointer|..]) <= rank(bs[j].pointer[|pointer|..]))
  }

  lemma {:induction false} RankedAppend(a: seq<Break>, b: seq<Break>, pointer: seq<string>, rank: seq<string> -> nat, lo: nat, mid: nat, hi: nat)
    requires Ranked(a, pointer, rank, lo, mid) && Ranked(b, pointer, rank, mid, hi) && lo <= mid <= hi
    ensures Ranked(a + b, pointer, rank, lo, hi)
  {
    var all := a + b;
    forall i, j | 0 <= i < j < |all|
      ensures pointer <= all[i].pointer && pointer <= all[j].pointer && rank(all[i].pointer[|pointer|..]) <= rank(all[j].pointer[|pointer|..])
    {
      if i < |a| && j >= |a| { assert a[i] in a && b[j - |a|] in b; }
    }
  }

  /** Breaks of one rank are in order as they stand. */
  lemma {:induction false} OneRank(bs: seq<Break>, pointer: seq<string>, rank: seq<string> -> nat, r: nat)
    requires forall b :: b in bs ==> pointer <= b.pointer && rank(b.pointer[|pointer|..]) == r
    ensures Ranked(bs, pointer, rank, r, r)
  {
    assert forall i :: 0 <= i < |bs| ==> bs[i] in bs;
  }

  lemma {:induction false} IndexOf(ps: seq<Property>, i: nat)
    requires i < |ps| && forall j, k :: 0 <= j < k < |ps| ==> ps[j].name != ps[k].name
    ensures NameIndex(ps, ps[i].name) == i
  {
    if i > 0 {
      assert forall j, k :: 0 <= j < k < |ps[1..]| ==> ps[1..][j].name == ps[j + 1].name != ps[k + 1].name == ps[1..][k].name;
      IndexOf(ps[1..], i - 1);
    }
  }

  lemma {:induction false} PathUnder(pointer: seq<string>, own: seq<string>, path: seq<string>)
    requires pointer + own <= path
    ensures pointer <= path && own <= path[|pointer|..]
  {
    assert path[..|pointer|] == (pointer + own)[..|pointer|] == pointer;
    assert path[|pointer|..][..|own|] == path[|pointer|..|pointer| + |own|] == (pointer + own)[|pointer|..] == own;
  }

  lemma {:induction false} PropertiesInOrder(link: Link, o: Schema, n: Schema, pointer: seq<string>, count: nat)
    requires WellFormed(o) && count <= |Props(o)|
    ensures Ranked(PropertiesBreaks(link, o, n, pointer, count), pointer, path => NodeRank(o, path), 1, if count == 0 then 1 else count)
  {
    hide EntryBreaks, Ranked;
    var rank := path => NodeRank(o, path);
    if count == 0 {
      OneRank([], pointer, rank, 1);
    } else {
      var p := Props(o)[count - 1];
      var own := ["properties", p.name];
      PropertiesInOrder(link, o, n, pointer, count - 1);
      EntryBelow(link, p, n, pointer);
      IndexOf(Props(o), count - 1);
      var bs := EntryBreaks(link, p, n, pointer);
      forall b | b in bs ensures pointer <= b.pointer && rank(b.pointer[|pointer|..]) == count {
        PathUnder(pointer, own, b.pointer);
        assert b.pointer[|pointer|..][0] == own[0] && b.pointer[|pointer|..][1] == own[1];
      }
      OneRank(bs, pointer, rank, count);
      Widen(PropertiesBreaks(link, o, n, pointer, count - 1), pointer, rank, 1, if count == 1 then 1 else count - 1, count);
      RankedAppend(PropertiesBreaks(link, o, n, pointer, count - 1), bs, pointer, rank, 1, count, count);
    }
  }

  lemma {:induction false} Widen(bs: seq<Break>, pointer: seq<string>, rank: seq<string> -> nat, lo: nat, hi: nat, more: nat)
    requires Ranked(bs, pointer, rank, lo, hi) && hi <= more
    ensures Ranked(bs, pointer, rank, lo, more)
  {
  }

  /** A node's breaks come by required fields, old properties in document order, undeclared properties. */
  lemma {:induction false} NodeInOrder(link: Link, o: Schema, n: Schema, pointer: seq<string>)
    requires WellFormed(o)
    ensures Ranked(NodeBreaks(link, o, n, pointer), pointer, path => NodeRank(o, path), 0, 1 + |Props(o)|)
  {
    hide PropertiesBreaks, Ranked, RequiredBreaks;
    var rank := path => NodeRank(o, path);
    var rs, ps, es := RequiredBreaks(link, o, n, pointer), PropertiesBreaks(link, o, n, pointer, |Props(o)|), ExtraBreaks(link, o, n, pointer);
    var last := 1 + |Props(o)|;
    RequiredAt(link, o, n, pointer);
    OneRank(rs, pointer, rank, 0);
    OneRank(es, pointer, rank, last);
    PropertiesInOrder(link, o, n, pointer, |Props(o)|);
    Widen(rs, pointer, rank, 0, 0, 1);
    Widen(ps, pointer, rank, 1, if |Props(o)| == 0 then 1 else |Props(o)|, last);
    RankedAppend(rs, ps, pointer, rank, 0, 1, last);
    RankedAppend(rs + ps, es, pointer, rank, 0, last, last);
  }

  lemma {:induction false} RequiredAt(link: Link, o: Schema, n: Schema, pointer: seq<string>)
    ensures forall b :: b in RequiredBreaks(link, o, n, pointer) ==> pointer <= b.pointer && b.pointer[|pointer|..] == ["required"]
  {
    hide SortedStrings;
  }

  /** A property's breaks come by type, enumeration, object keywords, items. */
  lemma {:induction false} SideInOrder(link: Link, o: Schema, n: Schema, pointer: seq<string>)
    ensures Ranked(PropertyBreaks(link, o, n, pointer), pointer, SideRank, 0, 3)
  {
    hide Ranked, NodeBreaks, IsEnumCut, IsTypeNarrowed;
    var ts := if IsTypeNarrowed(TypeOf(o), TypeOf(n)) then [Break(link, TypeNarrowed, pointer + ["type"], "")] else [];
    var es := if IsEnumCut(o, n) then [Break(link, EnumRemoved, pointer + ["enum"], "")] else [];
    var bs := if n.Node? && HasObjectShape(o) then NodeBreaks(link, o, n, pointer) else [];
    var its := if BothItemNodes(o, n) then NodeBreaks(link, o.items.value, n.items.value, pointer + ["items"]) else [];
    if n.Node? && HasObjectShape(o) { BodyAt(link, o, n, pointer); }
    if BothItemNodes(o, n) { ItemsAt(link, o.items.value, n.items.value, pointer); }
    OneRank(ts, pointer, SideRank, 0);
    OneRank(es, pointer, SideRank, 1);
    OneRank(bs, pointer, SideRank, 2);
    OneRank(its, pointer, SideRank, 3);
    Widen(ts, pointer, SideRank, 0, 0, 1);
    RankedAppend(ts, es, pointer, SideRank, 0, 1, 1);
    Widen(ts + es, pointer, SideRank, 0, 1, 2);
    RankedAppend(ts + es, bs, pointer, SideRank, 0, 2, 2);
    Widen(ts + es + bs, pointer, SideRank, 0, 2, 3);
    RankedAppend(ts + es + bs, its, pointer, SideRank, 0, 3, 3);
  }

  lemma {:induction false} BodyAt(link: Link, o: Schema, n: Schema, pointer: seq<string>)
    ensures forall b :: b in NodeBreaks(link, o, n, pointer) ==> pointer <= b.pointer && SideRank(b.pointer[|pointer|..]) == 2
  {
    hide PropertiesBreaks, RequiredBreaks;
    RequiredAt(link, o, n, pointer);
    PropertiesAt(link, o, n, pointer, |Props(o)|);
  }

  lemma {:induction false} PropertiesAt(link: Link, o: Schema, n: Schema, pointer: seq<string>, count: nat)
    requires count <= |Props(o)|
    ensures forall b :: b in PropertiesBreaks(link, o, n, pointer, count) ==> pointer <= b.pointer && SideRank(b.pointer[|pointer|..]) == 2
  {
    hide EntryBreaks;
    if count > 0 {
      var p := Props(o)[count - 1];
      PropertiesAt(link, o, n, pointer, count - 1);
      EntryBelow(link, p, n, pointer);
      forall b | b in EntryBreaks(link, p, n, pointer) ensures pointer <= b.pointer && SideRank(b.pointer[|pointer|..]) == 2 {
        PathUnder(pointer, ["properties", p.name], b.pointer);
        assert b.pointer[|pointer|..][0] == ["properties", p.name][0];
      }
    }
  }

  lemma {:induction false} ItemsAt(link: Link, o: Schema, n: Schema, pointer: seq<string>)
    ensures forall b :: b in NodeBreaks(link, o, n, pointer + ["items"]) ==> pointer <= b.pointer && SideRank(b.pointer[|pointer|..]) == 3
  {
    hide NodeBreaks;
    NodeBelow(link, o, n, pointer + ["items"]);
    forall b | b in NodeBreaks(link, o, n, pointer + ["items"]) ensures pointer <= b.pointer && SideRank(b.pointer[|pointer|..]) == 3 {
      PathUnder(pointer, ["items"], b.pointer);
      assert b.pointer[|pointer|..][0] == "items";
    }
  }

  /** The report on two documents lists exactly the violations between them, each under its own pointer. */
  lemma {:induction false} ReportIsExact(link: Link, o: Schema, n: Schema, b: Break)
    ensures b in NodeBreaks(link, o, n, []) <==> b.link == link && NodeViolation(o, n, b.pointer, b.rule, b.subject)
  {
    hide NodeBreaks, NodeViolation;
    assert [] + b.pointer == b.pointer;
    NodeReported(link, o, n, [], b.pointer, b.rule, b.subject);
    NodeBelow(link, o, n, []);
    assert b.link == link ==> b == Break(link, b.rule, b.pointer, b.subject);
  }
}
