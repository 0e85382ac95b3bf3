/**
 * The JSON-backed model registry: every operation reads the whole file, edits the list and writes it
 * back. What an operation does, and the invariants it keeps.
 */
module ModelRegistry {
  import opened Options

  datatype Status = Champion | Challenger | Archived

  datatype Entry = Entry(name: string, version: string, status: Status, metrics: map<string, real>, artifactPath: string, createdAt: string)

  /** The file on disk: absent, a list, or JSON that is not a list. */
  datatype Content = Missing | Items(list: seq<Entry>) | NotAList

  datatype Outcome = Done(entry: Entry) | InvalidStatus | AlreadyExists | NotFound | Malformed

  // ---- Edits of the list ----

  predicate Is(e: Entry, name: string, version: string) {
    e.name == name && e.version == version
  }

  /** Position of the first entry for the version, or the length. */
  function FindEntry(items: seq<Entry>, name: string, version: string): (i: nat)
    ensures i <= |items|
    ensures i < |items| ==> Is(items[i], name, version)
    ensures forall j :: 0 <= j < i ==> !Is(items[j], name, version)
  {
    if items == [] || Is(items[0], name, version) then 0 else
      var i := FindEntry(items[1..], name, version);
      assert forall j :: 1 <= j < i + 1 ==> items[j] == items[1..][j - 1];
      i + 1
  }

  function Demoted(e: Entry, name: string): Entry {
    if e.name == name && e.status == Champion then e.(status := Archived) else e
  }

  function Demote(items: seq<Entry>, name: string): (r: seq<Entry>)
    ensures |r| == |items| && forall i :: 0 <= i < |items| ==> r[i] == Demoted(items[i], name)
  {
    seq(|items|, i requires 0 <= i < |items| => Demoted(items[i], name))
  }

  datatype Op =
    | Register(entry: Entry, overwrite: bool)
    | Promote(name: string, version: string)
    | Archive(name: string, version: string)

  /** The list an operation writes, or None when it raises instead. */
  function Edit(items: seq<Entry>, op: Op): Option<seq<Entry>> {
    match op
    case Register(entry, overwrite) =>
      var base := if entry.status == Champion then Demote(items, entry.name) else items;
      var i := FindEntry(items, entry.name, entry.version);
      if i == |items| then Some(base + [entry])
      else if overwrite then Some(base[i := entry.(createdAt := items[i].createdAt)])
      else None
    case Promote(name, version) =>
      var i := FindEntry(items, name, version);
      if i == |items| then None
      else Some(Demote(items, name)[i := items[i].(status := Champion)])
    case Archive(name, version) =>
      var i := FindEntry(items, name, version);
      if i == |items| then None else Some(items[i := items[i].(status := Archived)])
  }

  function GetChampion(items: seq<Entry>, name: string): Option<Entry> {
    if items == [] then None
    else if items[0].name == name && items[0].status == Champion then Some(items[0])
    else GetChampion(items[1..], name)
  }

  // ---- The registry object ----

  class RegistryFile {
    var content: Content

    constructor ()
      ensures content == Missing
    {
      content := Missing;
    }
  }

  class Registry {
    const file: RegistryFile

    /** Opening creates an empty list when there is no file. */
    constructor (file: RegistryFile)
      modifies file
      ensures this.file == file
      ensures file.content == if old(file.content).Missing? then Items([]) else old(file.content)
    {
      this.file := file;
      if file.content.Missing? { file.content := Items([]); }
    }

    function Read(): Option<seq<Entry>>
      reads file
    {
      match file.content
      case Missing => Some([])
      case Items(list) => Some(list)
      case NotAList => None
    }

    method Register(name: string, version: string, metrics: map<string, real>, artifactPath: string, status: Option<Status>,
                    overwrite: bool, now: string) returns (r: Outcome)
      modifies file
      ensures !r.Done? ==> file.content == old(file.content)
      ensures r == InvalidStatus <==> status.None?
      ensures r == Malformed <==> status.Some? && old(Read()).None?
      ensures status.Some? && old(Read()).Some? ==>
        var edited := Edit(old(Read()).value, Op.Register(Entry(name, version, status.value, metrics, artifactPath, now), overwrite));
        && (r.Done? <==> edited.Some?) && (r == AlreadyExists <==> edited.None?)
        && (r.Done? ==> file.content == Items(edited.value) && edited.value[FindEntry(old(Read()).value, name, version)] == r.entry)
    {
      if status.None? { return InvalidStatus; }
      var read := Read();
      if read.None? { return Malformed; }
      var items := read.value;
      var existing := FindEntry(items, name, version);
      var entry := Entry(name, version, status.value, metrics, artifactPath, now);
      if status.value == Champion { items := DemoteAll(items, name); }
      if existing < |items| {
        if !overwrite { return AlreadyExists; }
        entry := entry.(createdAt := items[existing].createdAt);
        items := items[existing := entry];
      } else {
        items := items + [entry];
      }
      file.content := Items(items);
      return Done(entry);
    }

    method Promote(name: string, version: string) returns (r: Outcome)
      modifies file
      ensures !r.Done? ==> file.content == old(file.content)
      ensures r == Malformed <==> old(Read()).None?
      ensures old(Read()).Some? ==>
        var edited := Edit(old(Read()).value, Op.Promote(name, version));
        && (r.Done? <==> edited.Some?) && (r == NotFound <==> edited.None?)
        && (r.Done? ==> file.content == Items(edited.value) && GetChampion(edited.value, name) == Some(r.entry))
    {
      var read := Read();
      if read.None? { return Malformed; }
      var items := read.value;
      var target := FindEntry(items, name, version);
      if target == |items| { return NotFound; }
      PromotedIsChampion(items, name, version);
      items := DemoteAll(items, name);
      items := items[target := items[target].(status := Champion)];
      file.content := Items(items);
      return Done(items[target]);
    }

    method Archive(name: string, version: string) returns (r: Outcome)
      modifies file
      ensures !r.Done? ==> file.content == old(file.content)
      ensures r == Malformed <==> old(Read()).None?
      ensures old(Read()).Some? ==>
        var edited := Edit(old(Read()).value, Op.Archive(name, version));
        && (r.Done? <==> edited.Some?) && (r == NotFound <==> edited.None?)
        && (r.Done? ==> file.content == Items(edited.value) && edited.value[FindEntry(old(Read()).value, name, version)] == r.entry)
    {
      var read := Read();
      if read.None? { return Malformed; }
      var items := read.value;
      for i := 0 to |items|
        invariant file.content == old(file.content) && items == read.value
        invariant forall j :: 0 <= j < i ==> !Is(items[j], name, version)
      {
        if Is(items[i], name, version) {
          items := items[i := items[i].(status := Archived)];
          file.content := Items(items);
          return Done(items[i]);
        }
      }
      return NotFound;
    }
  }

  method DemoteAll(items: seq<Entry>, name: string) returns (r: seq<Entry>)
    ensures r == Demote(items, name)
  {
    r := items;
    for i := 0 to |items|
      invariant |r| == |items|
      invariant forall j :: 0 <= j < |items| ==> r[j] == if j < i then Demoted(items[j], name) else items[j]
    {
      if r[i].name == name && r[i].status == Champion {
        r := r[i := r[i].(status := Archived)];
      }
    }
  }

  // ---- What every operation keeps ----

  ghost predicate UniqueVersions(items: seq<Entry>) {
    forall i, j :: 0 <= i < j < |items| ==> !(items[i].name == items[j].name && items[i].version == items[j].version)
  }

  ghost predicate OneChampion(items: seq<Entry>) {
    forall i, j :: 0 <= i < j < |items| && items[i].status == Champion && items[j].status == Champion ==> items[i].name != items[j].name
  }

  ghost predicate Good(items: seq<Entry>) {
    UniqueVersions(items) && OneChampion(items)
  }

  ghost predicate NoChampion(items: seq<Entry>, name: string) {
    forall i :: 0 <= i < |items| ==> !(items[i].name == name && items[i].status == Champion)
  }

  lemma {:induction false} DemoteGood(items: seq<Entry>, name: string)
    requires Good(items)
    ensures Good(Demote(items, name)) && NoChampion(Demote(items, name), name)
  {
  }

  lemma {:induction false} ReplaceGood(items: seq<Entry>, i: nat, e: Entry)
    requires Good(items) && i < |items| && Is(items[i], e.name, e.version)
    requires e.status == Champion ==> NoChampion(items, e.name)
    ensures Good(items[i := e])
  {
    var r := items[i := e];
    assert forall j :: 0 <= j < |r| ==> r[j].name == items[j].name && r[j].version == items[j].version;
  }

  lemma {:induction false} AppendGood(items: seq<Entry>, e: Entry)
    requires Good(items) && FindEntry(items, e.name, e.version) == |items|
    requires e.status == Champion ==> NoChampion(items, e.name)
    ensures Good(items + [e])
  {
  }

  lemma {:induction false} FindDemoted(items: seq<Entry>, name: string, n: string, version: string)
    ensures FindEntry(Demote(items, name), n, version) == FindEntry(items, n, version)
  {
    if items != [] {
      assert Demote(items, name)[1..] == Demote(items[1..], name);
      FindDemoted(items[1..], name, n, version);
    }
  }

  lemma {:induction false} EditKeepsGood(items: seq<Entry>, op: Op)
    requires Good(items)
    ensures Edit(items, op).Some? ==> Good(Edit(items, op).value)
  {
    hide Good, NoChampion;
    match op
    case Register(entry, overwrite) =>
      var base := if entry.status == Champion then Demote(items, entry.name) else items;
      DemoteGood(items, entry.name);
      FindDemoted(items, entry.name, entry.name, entry.version);
      var i := FindEntry(items, entry.name, entry.version);
      if i == |items| { AppendGood(base, entry); }
      else { ReplaceGood(base, i, entry.(createdAt := items[i].createdAt)); }
    case Promote(name, version) =>
      var i := FindEntry(items, name, version);
      DemoteGood(items, name);
      if i < |items| { ReplaceGood(Demote(items, name), i, items[i].(status := Champion)); }
    case Archive(name, version) =>
      var i := FindEntry(items, name, version);
      if i < |items| { ReplaceGood(items, i, items[i].(status := Archived)); }
  }

  lemma {:induction false} ChampionIs(items: seq<Entry>, name: string, i: nat)
    requires i < |items| && items[i].name == name && items[i].status == Champion
    requires forall j :: 0 <= j < i ==> !(items[j].name == name && items[j].status == Champion)
    ensures GetChampion(items, name) == Some(items[i])
  {
    if i > 0 { ChampionIs(items[1..], name, i - 1); }
  }

  /** After a promotion the champion is the promoted entry, otherwise unchanged, whatever the list was. */
  lemma {:induction false} PromotedIsChampion(items: seq<Entry>, name: string, version: string)
    requires FindEntry(items, name, version) < |items|
    ensures var edited := Edit(items, Promote(name, version)).value;
      var i := FindEntry(items, name, version);
      GetChampion(edited, name) == Some(items[i].(status := Champion)) && edited[i] == items[i].(status := Champion)
  {
    var i := FindEntry(items, name, version);
    ChampionIs(Edit(items, Promote(name, version)).value, name, i);
  }

  lemma {:induction false} ChampionElsewhere(a: seq<Entry>, b: seq<Entry>, name: string)
    requires |a| == |b| && forall i :: 0 <= i < |a| ==> a[i] == b[i] || (a[i].name != name && b[i].name != name)
    ensures GetChampion(a, name) == GetChampion(b, name)
  {
    if a != [] {
      assert a[0] == b[0] || (a[0].name != name && b[0].name != name);
      forall i | 0 <= i < |a[1..]| ensures a[1..][i] == b[1..][i] || (a[1..][i].name != name && b[1..][i].name != name) {
        assert a[i + 1] == b[i + 1] || (a[i + 1].name != name && b[i + 1].name != name);
      }
      ChampionElsewhere(a[1..], b[1..], name);
    }
  }

  /** No promotion or archiving touches the champion of another name. */
  lemma {:induction false} OtherNamesKeepChampion(items: seq<Entry>, op: Op, other: string)
    requires !op.Register? && op.name != other && Edit(items, op).Some?
    ensures GetChampion(Edit(items, op).value, other) == GetChampion(items, other)
  {
    ChampionElsewhere(Edit(items, op).value, items, other);
  }

  /** Where an operation puts its entry. */
  function TargetOf(items: seq<Entry>, op: Op): nat {
    match op
    case Register(entry, _) => FindEntry(items, entry.name, entry.version)
    case Promote(name, version) => FindEntry(items, name, version)
    case Archive(name, version) => FindEntry(items, name, version)
  }

  predicate MakesChampion(op: Op, name: string) {
    match op
    case Register(entry, _) => entry.name == name && entry.status == Champion
    case Promote(n, _) => n == name
    case Archive(_, _) => false
  }

  ghost predicate Has(items: seq<Entry>, name: string, version: string) {
    exists e :: e in items && e.name == name && e.version == version
  }

  /** Whether the version an operation names is there. */
  ghost predicate Present(items: seq<Entry>, op: Op) {
    match op
    case Register(entry, _) => Has(items, entry.name, entry.version)
    case Promote(name, version) => Has(items, name, version)
    case Archive(name, version) => Has(items, name, version)
  }

  lemma {:induction false} FindHas(items: seq<Entry>, name: string, version: string)
    ensures FindEntry(items, name, version) < |items| <==> Has(items, name, version)
  {
    var i := FindEntry(items, name, version);
    if i < |items| {
      assert items[i] in items;
    } else {
      assert forall j :: 0 <= j < |items| ==> !Is(items[j], name, version);
    }
  }

  /**
   * When an operation raises, and what it makes of the version it names: registering stores all that is passed,
   * but keeps the creation time of an entry it replaces; promoting and archiving change the status alone.
   */
  lemma {:induction false} EditExactly(items: seq<Entry>, op: Op)
    ensures Edit(items, op).None? <==> if op.Register? then Present(items, op) && !op.overwrite else !Present(items, op)
    ensures Edit(items, op).Some? ==>
      var edited, i := Edit(items, op).value, TargetOf(items, op);
      && |edited| == (if Present(items, op) then |items| else |items| + 1) && i < |edited|
      && match op
         case Register(e, _) =>
           if Present(items, op) then edited[i] == Entry(e.name, e.version, e.status, e.metrics, e.artifactPath, items[i].createdAt)
           else i == |items| && edited[i] == e
         case Promote(name, version) =>
           items[i].name == name && items[i].version == version &&
           edited[i] == Entry(name, version, Champion, items[i].metrics, items[i].artifactPath, items[i].createdAt)
         case Archive(name, version) =>
           items[i].name == name && items[i].version == version &&
           edited[i] == Entry(name, version, Archived, items[i].metrics, items[i].artifactPath, items[i].createdAt)
  {
    hide Has;
    match op
    case Register(entry, _) => FindHas(items, entry.name, entry.version);
    case Promote(name, version) => FindHas(items, name, version);
    case Archive(name, version) => FindHas(items, name, version);
  }

  /** With one champion per name at most, get_champion finds it exactly when it is there. */
  lemma {:induction false} ChampionExactly(items: seq<Entry>, name: string, e: Entry)
    requires OneChampion(items)
    ensures GetChampion(items, name) == Some(e) <==> e in items && e.name == name && e.status == Champion
  {
    if items != [] {
      assert forall i :: 0 <= i < |items[1..]| ==> items[1..][i] == items[i + 1];
      assert forall x :: x in items <==> x == items[0] || x in items[1..];
      ChampionExactly(items[1..], name, e);
    }
  }

  /** Beside its own entry an operation changes one thing at most: a champion it replaces becomes archived. */
  lemma {:induction false} EditFrame(items: seq<Entry>, op: Op, j: nat)
    requires Edit(items, op).Some? && j < |items| && j != TargetOf(items, op)
    ensures var edited := Edit(items, op).value;
      && |items| <= |edited| <= |items| + 1
      && edited[j] == if items[j].status == Champion && MakesChampion(op, items[j].name) then items[j].(status := Archived) else items[j]
  {
  }

  /** Registering a champion makes the new entry the champion, keeping the creation time of the one it replaces. */
  lemma {:induction false} RegisteredChampion(items: seq<Entry>, entry: Entry, overwrite: bool)
    requires entry.status == Champion && Edit(items, Register(entry, overwrite)).Some?
    ensures var i := FindEntry(items, entry.name, entry.version);
      GetChampion(Edit(items, Register(entry, overwrite)).value, entry.name) ==
        Some(if i < |items| then entry.(createdAt := items[i].createdAt) else entry)
  {
    hide GetChampion, FindEntry, Demote;
    var i := FindEntry(items, entry.name, entry.version);
    var edited := Edit(items, Register(entry, overwrite)).value;
    forall j | 0 <= j < i ensures !(edited[j].name == entry.name && edited[j].status == Champion) {
      assert edited[j] == Demoted(items[j], entry.name);
    }
    ChampionIs(edited, entry.name, i);
  }
}
