/** Versions of a topic in a chain, and a whole registry of files. */
module SchemaRegistry {
  import opened JsonSchema
  import opened SchemaCheck
  import opened SchemaReport
  import opened SchemaSoundness
  import opened Sorting

  // ---- The registry of schema files ----

  datatype SchemaFile = SchemaFile(title: string, version: Version, raw: Schema)

  predicate VersionLe(a: Version, b: Version) {
    a.major < b.major || (a.major == b.major && (a.minor < b.minor || (a.minor == b.minor && a.patch <= b.patch)))
  }

  predicate FileLe(a: SchemaFile, b: SchemaFile) {
    VersionLe(a.version, b.version)
  }

  function WithTitle(files: seq<SchemaFile>, title: string): seq<SchemaFile> {
    if files == [] then [] else
      var last := files[|files| - 1];
      WithTitle(files[..|files| - 1], title) + if last.title == title then [last] else []
  }

  /** Topic names in order of first appearance. */
  function Titles(files: seq<SchemaFile>): seq<string> {
    if files == [] then [] else
      var before := Titles(files[..|files| - 1]);
      var title := files[|files| - 1].title;
      if title in before then before else before + [title]
  }

  function VersionsOf(files: seq<SchemaFile>, title: string): seq<SchemaFile> {
    Sort(FileLe, WithTitle(files, title))
  }

  function LinkOf(older: SchemaFile, newer: SchemaFile): Link {
    Link(older.title, older.version, newer.version)
  }

  function PairBreaks(older: SchemaFile, newer: SchemaFile): seq<Break> {
    NodeBreaks(LinkOf(older, newer), older.raw, newer.raw, [])
  }

  /** The breaks between consecutive files among the first `count`. */
  function ChainBreaks(vs: seq<SchemaFile>, count: nat): seq<Break>
    requires count <= |vs|
  {
    if count <= 1 then [] else ChainBreaks(vs, count - 1) + PairBreaks(vs[count - 2], vs[count - 1])
  }

  function TopicsBreaks(files: seq<SchemaFile>, titles: seq<string>): seq<Break> {
    if titles == [] then [] else
      var last := VersionsOf(files, titles[|titles| - 1]);
      TopicsBreaks(files, titles[..|titles| - 1]) + ChainBreaks(last, |last|)
  }

  lemma {:induction false} TitlesDistinct(files: seq<SchemaFile>)
    ensures forall i, j :: 0 <= i < j < |Titles(files)| ==> Titles(files)[i] != Titles(files)[j]
    ensures forall f | f in files :: f.title in Titles(files)
  {
    if files != [] {
      var before, last := files[..|files| - 1], files[|files| - 1];
      TitlesDistinct(before);
      var ts := Titles(before);
      var all := Titles(files);
      assert all == if last.title in ts then ts else ts + [last.title];
      assert forall i, j :: 0 <= i < j < |all| ==> all[i] != all[j] by {
        assert forall i | 0 <= i < |ts| :: ts[i] in ts;
      }
      forall f | f in files ensures f.title in Titles(files) {
        if f != last { assert f in before; }
      }
    }
  }

  /** One of the first n files has the title. */
  ghost predicate Appears(files: seq<SchemaFile>, t: string, n: nat)
    requires n <= |files|
  {
    exists m :: 0 <= m < n && files[m].title == t
  }

  lemma {:induction false} TitlesMember(files: seq<SchemaFile>)
    ensures forall t :: t in Titles(files) <==> Appears(files, t, |files|)
  {
    if files != [] {
      var before, last := files[..|files| - 1], files[|files| - 1];
      TitlesMember(before);
      forall t ensures Appears(files, t, |files|) <==> Appears(before, t, |before|) || t == last.title {
        if m :| 0 <= m < |before| && before[m].title == t { assert files[m].title == t; }
        if m :| 0 <= m < |files| && files[m].title == t && m < |before| { assert before[m].title == t; }
      }
    }
  }

  /** The topics are those of the files, each once, in the order in which they first appear. */
  lemma {:induction false} TitlesExact(files: seq<SchemaFile>)
    ensures forall t :: t in Titles(files) <==> Appears(files, t, |files|)
    ensures forall i, j, k :: 0 <= i < j < |Titles(files)| && 0 <= k < |files| && files[k].title == Titles(files)[j] ==>
      Titles(files)[i] != Titles(files)[j] && Appears(files, Titles(files)[i], k)
  {
    hide Titles, Appears;
    TitlesMember(files);
    TitlesDistinct(files);
    forall i, j, k | 0 <= i < j < |Titles(files)| && 0 <= k < |files| && files[k].title == Titles(files)[j] ensures Appears(files, Titles(files)[i], k) {
      EarlierAppears(files, i, j, k);
    }
  }

  lemma {:induction false} EarlierAppears(files: seq<SchemaFile>, i: nat, j: nat, k: nat)
    requires i < j < |Titles(files)| && k < |files| && files[k].title == Titles(files)[j]
    ensures Appears(files, Titles(files)[i], k)
  {
    hide Appears;
    var n := |files| - 1;
    var before := files[..n];
    TitlesMember(before);
    assert Titles(files)[i] == Titles(before)[i] && Titles(before)[i] in Titles(before);
    if k < n {
      MoreFiles(before, files, files[k].title, n);
      assert Appears(before, files[k].title, n) by { ThisAppears(before, k, n); }
      if j < |Titles(before)| {
        EarlierAppears(before, i, j, k);
        MoreFiles(before, files, Titles(files)[i], k);
      }
    } else {
      MoreFiles(before, files, Titles(files)[i], n);
    }
  }

  lemma {:induction false} ThisAppears(files: seq<SchemaFile>, k: nat, n: nat)
    requires k < n <= |files|
    ensures Appears(files, files[k].title, n)
  {
  }

  lemma {:induction false} MoreFiles(before: seq<SchemaFile>, files: seq<SchemaFile>, t: string, n: nat)
    requires before <= files && n <= |before| && Appears(before, t, n)
    ensures Appears(files, t, n)
  {
    var m :| 0 <= m < n && before[m].title == t;
    assert files[m].title == t;
  }

  /** Files collected per topic, in the order they were read. */
  method Collect(files: seq<SchemaFile>) returns (titles: seq<string>, groups: map<string, seq<SchemaFile>>)
    ensures titles == Titles(files)
    ensures forall t :: t in groups <==> t in titles
    ensures forall t | t in groups :: groups[t] == WithTitle(files, t)
  {
    titles, groups := [], map[];
    for i := 0 to |files|
      invariant titles == Titles(files[..i])
      invariant forall t :: t in groups <==> t in titles
      invariant forall t | t in groups :: groups[t] == WithTitle(files[..i], t)
      invariant forall t | t !in groups :: WithTitle(files[..i], t) == []
    {
      var f := files[i];
      assert files[..i + 1][..i] == files[..i] && files[..i + 1][i] == f;
      if f.title !in groups {
        titles := titles + [f.title];
        groups := groups[f.title := []];
      }
      groups := groups[f.title := groups[f.title] + [f]];
    }
    assert files[..|files|] == files;
  }

  method GroupVersions(files: seq<SchemaFile>) returns (titles: seq<string>, groups: map<string, seq<SchemaFile>>)
    ensures titles == Titles(files)
    ensures forall t :: t in groups <==> t in titles
    ensures forall t | t in groups :: groups[t] == VersionsOf(files, t)
  {
    hide Titles, Sort, WithTitle;
    titles, groups := Collect(files);
    TitlesDistinct(files);
    for i := 0 to |titles|
      invariant forall t :: t in groups <==> t in titles
      invariant forall j | 0 <= j < i :: groups[titles[j]] == VersionsOf(files, titles[j])
      invariant forall j | i <= j < |titles| :: groups[titles[j]] == WithTitle(files, titles[j])
    {
      groups := groups[titles[i] := Sort(FileLe, groups[titles[i]])];
    }
  }

  method CheckPair(older: SchemaFile, newer: SchemaFile) returns (breaks: seq<Break>)
    ensures breaks == PairBreaks(older, newer)
  {
    var found := new BreakList();
    CheckNode(LinkOf(older, newer), older.raw, newer.raw, [], found);
    breaks := found.items;
  }

  method CheckRegistry(files: seq<SchemaFile>) returns (all: seq<Break>)
    ensures all == TopicsBreaks(files, Titles(files))
  {
    hide PairBreaks, Titles, VersionsOf;
    var titles, groups := GroupVersions(files);
    all := [];
    for t := 0 to |titles|
      invariant all == TopicsBreaks(files, titles[..t])
    {
      var vs := groups[titles[t]];
      ghost var before := all;
      var i := 0;
      while i + 1 < |vs|
        invariant i == 0 || i < |vs|
        invariant all == before + ChainBreaks(vs, if vs == [] then 0 else i + 1)
      {
        var found := CheckPair(vs[i], vs[i + 1]);
        all := all + found;
        i := i + 1;
      }
      assert all == before + ChainBreaks(vs, |vs|);
      assert titles[..t + 1][..t] == titles[..t];
    }
    assert titles[..|titles|] == titles;
  }

  // ---- What the groups hold, and what the report lists ----

  function Parts(v: Version): (r: seq<nat>)
    ensures |r| == 3
  {
    [v.major, v.minor, v.patch]
  }

  /** The first part in which they differ is smaller. */
  ghost predicate Before(a: Version, b: Version) {
    exists k | 0 <= k < 3 :: Parts(a)[..k] == Parts(b)[..k] && Parts(a)[k] < Parts(b)[k]
  }

  lemma {:induction false} VersionLeExactly(a: Version, b: Version)
    ensures VersionLe(a, b) <==> a == b || Before(a, b)
  {
    var x, y := Parts(a), Parts(b);
    assert x[..0] == y[..0];
    assert a.major == b.major ==> x[..1] == y[..1];
    assert a.major == b.major && a.minor == b.minor ==> x[..2] == y[..2];
    assert forall k | 0 < k < 3 :: x[..k] == y[..k] ==> x[..k][0] == y[..k][0];
    assert x[..2] == y[..2] ==> x[..2][1] == y[..2][1];
    if VersionLe(a, b) && a != b {
      var k := if a.major != b.major then 0 else if a.minor != b.minor then 1 else 2;
      assert x[..k] == y[..k] && x[k] < y[k];
    }
  }

  lemma {:induction false} WithTitleCount(files: seq<SchemaFile>, title: string, f: SchemaFile)
    ensures multiset(WithTitle(files, title))[f] == if f.title == title then multiset(files)[f] else 0
  {
    if files != [] {
      var before, last := files[..|files| - 1], files[|files| - 1];
      WithTitleCount(before, title, f);
      assert files == before + [last];
    }
  }

  lemma {:induction false} FileLeOrder()
    ensures TotalPreorder(FileLe)
  {
  }

  /** A topic's group holds each of its files as often as it was read, by ascending version; equal versions as read. */
  lemma {:induction false} VersionsExact(files: seq<SchemaFile>, title: string)
    ensures var vs := VersionsOf(files, title);
      && (forall f: SchemaFile :: multiset(vs)[f] == if f.title == title then multiset(files)[f] else 0)
      && (forall i, j :: 0 <= i < j < |vs| ==> vs[i].version == vs[j].version || Before(vs[i].version, vs[j].version))
      && (forall f: SchemaFile :: TiedWith(FileLe, f, vs) == TiedWith(FileLe, f, WithTitle(files, title)))
  {
    hide Sort, WithTitle, Before, TiedWith, VersionLe, TotalPreorder;
    var vs := VersionsOf(files, title);
    FileLeOrder();
    SortPermutes(FileLe, WithTitle(files, title));
    SortArranges(FileLe, WithTitle(files, title));
    forall f: SchemaFile ensures multiset(vs)[f] == if f.title == title then multiset(files)[f] else 0 { WithTitleCount(files, title, f); }
    forall i, j | 0 <= i < j < |vs| ensures vs[i].version == vs[j].version || Before(vs[i].version, vs[j].version) {
      assert FileLe(vs[i], vs[j]);
      VersionLeExactly(vs[i].version, vs[j].version);
    }
  }

  lemma {:induction false} InVersions(files: seq<SchemaFile>, title: string, f: SchemaFile)
    ensures f in VersionsOf(files, title) <==> f in files && f.title == title
  {
    hide VersionsOf, Before, TiedWith;
    VersionsExact(files, title);
    var vs := VersionsOf(files, title);
    assert f in vs <==> f in multiset(vs);
    assert f in files <==> f in multiset(files);
  }

  /** The i-th version of the topic breaks the promise to the one before it as `b` says. */
  ghost predicate BreaksAt(files: seq<SchemaFile>, b: Break, title: string, i: nat) {
    var vs := VersionsOf(files, title);
    && 0 < i < |vs| && b.link == Link(title, vs[i - 1].version, vs[i].version)
    && NodeViolation(vs[i - 1].raw, vs[i].raw, b.pointer, b.rule, b.subject)
  }

  lemma {:induction false} ChainReported(vs: seq<SchemaFile>, count: nat, b: Break)
    requires count <= |vs|
    ensures b in ChainBreaks(vs, count) <==> exists i :: 0 < i < count && b in PairBreaks(vs[i - 1], vs[i])
  {
    hide PairBreaks;
    if count > 1 {
      ChainReported(vs, count - 1, b);
      assert b in PairBreaks(vs[count - 2], vs[count - 1]) <==> exists i :: i == count - 1 && b in PairBreaks(vs[i - 1], vs[i]);
    }
  }

  lemma {:induction false} TopicsReported(files: seq<SchemaFile>, titles: seq<string>, b: Break)
    ensures b in TopicsBreaks(files, titles) <==> exists t :: t in titles && b in ChainBreaks(VersionsOf(files, t), |VersionsOf(files, t)|)
  {
    hide ChainBreaks, VersionsOf;
    if titles != [] {
      var before, last := titles[..|titles| - 1], titles[|titles| - 1];
      TopicsReported(files, before, b);
      assert forall t :: t in titles <==> t in before || t == last;
    }
  }

  /**
   * The registry's report lists a break exactly when two consecutive versions of some topic show it: under
   * the topic and those versions, at the pointer that leads to the violation.
   */
  lemma {:induction false} RegistryReportExact(files: seq<SchemaFile>, b: Break)
    ensures b in TopicsBreaks(files, Titles(files)) <==> exists t, i :: BreaksAt(files, b, t, i)
  {
    hide ChainBreaks, TopicsBreaks, VersionsOf, Titles, BreaksAt;
    TopicsReported(files, Titles(files), b);
    if b in TopicsBreaks(files, Titles(files)) {
      var t :| t in Titles(files) && b in ChainBreaks(VersionsOf(files, t), |VersionsOf(files, t)|);
      TopicReported(files, t, b);
    }
    if t, i :| BreaksAt(files, b, t, i) { TopicReported(files, t, b); }
  }

  lemma {:induction false} TopicReported(files: seq<SchemaFile>, t: string, b: Break)
    ensures b in ChainBreaks(VersionsOf(files, t), |VersionsOf(files, t)|) <==> exists i :: BreaksAt(files, b, t, i)
    ensures forall i :: BreaksAt(files, b, t, i) ==> t in Titles(files)
  {
    hide VersionsOf, Titles, NodeViolation, PairBreaks;
    var vs := VersionsOf(files, t);
    ChainReported(vs, |vs|, b);
    forall i: nat | BreaksAt(files, b, t, i) ensures t in Titles(files) && 0 < i < |vs| && b in PairBreaks(vs[i - 1], vs[i]) {
      PairReported(files, t, i, b);
    }
    if i :| 0 < i < |vs| && b in PairBreaks(vs[i - 1], vs[i]) {
      PairReported(files, t, i, b);
      assert BreaksAt(files, b, t, i);
    }
  }

  lemma {:induction false} PairReported(files: seq<SchemaFile>, t: string, i: nat, b: Break)
    requires 0 < i < |VersionsOf(files, t)|
    ensures b in PairBreaks(VersionsOf(files, t)[i - 1], VersionsOf(files, t)[i]) <==> BreaksAt(files, b, t, i)
    ensures t in Titles(files)
  {
    hide VersionsOf, Titles, NodeViolation, NodeBreaks;
    var vs := VersionsOf(files, t);
    InVersions(files, t, vs[i - 1]);
    InVersions(files, t, vs[i]);
    TitlesDistinct(files);
    ReportIsExact(LinkOf(vs[i - 1], vs[i]), vs[i - 1].raw, vs[i].raw, b);
  }

  // ---- What an empty report over the registry guarantees ----

  lemma {:induction false} ChainBreaksEmpty(vs: seq<SchemaFile>, count: nat, i: nat)
    requires count <= |vs| && ChainBreaks(vs, count) == [] && 0 < i < count
    ensures PairBreaks(vs[i - 1], vs[i]) == []
  {
    hide PairBreaks;
    if i < count - 1 { ChainBreaksEmpty(vs, count - 1, i); }
  }

  lemma {:induction false} TopicsBreaksEmpty(files: seq<SchemaFile>, titles: seq<string>, t: string)
    requires TopicsBreaks(files, titles) == [] && t in titles
    ensures ChainBreaks(VersionsOf(files, t), |VersionsOf(files, t)|) == []
  {
    hide ChainBreaks, VersionsOf;
    if t != titles[|titles| - 1] { TopicsBreaksEmpty(files, titles[..|titles| - 1], t); }
  }

  lemma {:induction false} InWithTitle(files: seq<SchemaFile>, f: SchemaFile)
    requires f in files
    ensures f in WithTitle(files, f.title)
  {
    if f != files[|files| - 1] { InWithTitle(files[..|files| - 1], f); }
  }

  /** Every file is a well-formed schema, and no consecutive pair of versions has a gap. */
  ghost predicate Gapless(vs: seq<SchemaFile>) {
    && (forall f :: f in vs ==> WellFormed(f.raw))
    && (forall i :: 0 < i < |vs| ==> NoGap(Body, vs[i - 1].raw, vs[i].raw))
  }

  lemma {:induction false} ChainIsSound(vs: seq<SchemaFile>, i: nat, j: nat, v: Json)
    requires Gapless(vs) && ChainBreaks(vs, |vs|) == [] && i <= j < |vs| && Valid(vs[i].raw, v)
    ensures Valid(vs[j].raw, v)
    decreases j
  {
    hide NoGap, Valid, WellFormed, ChainBreaks, NodeBreaks;
    if i < j {
      ChainIsSound(vs, i, j - 1, v);
      ChainBreaksEmpty(vs, |vs|, j);
      assert vs[j - 1] in vs && vs[j] in vs;
      CleanIsBackwardExactly(LinkOf(vs[j - 1], vs[j]), vs[j - 1].raw, vs[j].raw);
    }
  }

  /**
   * A registry that checks clean, with no gap between consecutive versions: whatever two files of a
   * topic, each payload of the earlier version is a payload of the later one.
   */
  lemma {:induction false} TopicIsBackward(files: seq<SchemaFile>, f: SchemaFile, g: SchemaFile, v: Json)
    requires TopicsBreaks(files, Titles(files)) == []
    requires f in files && g in files && f.title == g.title && Before(f.version, g.version)
    requires Gapless(VersionsOf(files, f.title))
    requires Valid(f.raw, v)
    ensures Valid(g.raw, v)
  {
    hide ChainBreaks, Valid, Titles, TopicsBreaks, Sort, SortedBy, Before;
    var vs := VersionsOf(files, f.title);
    TitlesDistinct(files);
    TopicsBreaksEmpty(files, Titles(files), f.title);
    InWithTitle(files, f);
    InWithTitle(files, g);
    InSort(FileLe, WithTitle(files, f.title));
    SortSorts(FileLe, WithTitle(files, f.title));
    var i :| 0 <= i < |vs| && vs[i] == f;
    var j :| 0 <= j < |vs| && vs[j] == g;
    assert i <= j by {
      if j < i {
        EarlierIsLe(vs, j, i);
        NotBothWays(g.version, f.version);
      }
    }
    ChainIsSound(vs, i, j, v);
  }

  lemma {:induction false} NotBothWays(a: Version, b: Version)
    requires VersionLe(a, b)
    ensures !Before(b, a)
  {
    VersionLeExactly(b, a);
    assert forall k | 0 <= k < 3 && Parts(a) == Parts(b) :: Parts(a)[k] == Parts(b)[k];
  }

  lemma {:induction false} EarlierIsLe(vs: seq<SchemaFile>, i: nat, j: nat)
    requires SortedBy(FileLe, vs) && i < j < |vs|
    ensures VersionLe(vs[i].version, vs[j].version)
  {
  }
}
