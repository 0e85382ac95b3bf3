/**
 * Several registry objects on one file, each operation a read and later a write. What every content
 * written keeps, when nothing is lost, and what exactly a stale write puts back.
 */
module RegistryRuns {
  import opened Options
  import opened ModelRegistry

  /** A list as read, when `at` contents had been written. */
  datatype Held = Held(list: seq<Entry>, at: nat)

  /** The first content, every content written since, and what each registry object has read and not yet acted on. */
  datatype World = World(start: seq<Entry>, written: seq<seq<Entry>>, held: map<nat, Held>)

  datatype Act = ReadBy(who: nat) | WriteBy(who: nat, op: Op)

  function Content(w: World, at: nat): seq<Entry>
    requires at <= |w.written|
  {
    if at == 0 then w.start else w.written[at - 1]
  }

  function File(w: World): seq<Entry> {
    Content(w, |w.written|)
  }

  function Next(w: World, a: Act): World {
    match a
    case ReadBy(who) => w.(held := w.held[who := Held(File(w), |w.written|)])
    case WriteBy(who, op) =>
      if who !in w.held then w
      else
        var released := w.(held := w.held - {who});
        match Edit(w.held[who].list, op)
        case None => released
        case Some(items) => released.(written := w.written + [items])
  }

  function Run(w: World, acts: seq<Act>): World {
    if acts == [] then w else Next(Run(w, acts[..|acts| - 1]), acts[|acts| - 1])
  }

  // ---- Every content written is good ----

  ghost predicate AllGood(w: World) {
    && Good(w.start)
    && (forall who :: who in w.held ==> Good(w.held[who].list))
    && (forall i :: 0 <= i < |w.written| ==> Good(w.written[i]))
  }

  /** Every content ever written has unique versions and at most one champion per name, however reads and writes interleave. */
  lemma {:induction false} EveryWriteIsGood(w: World, acts: seq<Act>)
    requires AllGood(w)
    ensures AllGood(Run(w, acts)) && Good(File(Run(w, acts)))
  {
    hide Good, Edit;
    if acts != [] {
      var before, a := Run(w, acts[..|acts| - 1]), acts[|acts| - 1];
      EveryWriteIsGood(w, acts[..|acts| - 1]);
      if a.WriteBy? && a.who in before.held { EditKeepsGood(before.held[a.who].list, a.op); }
    }
  }

  // ---- No stale write, nothing lost ----

  /** The act writes from a read that another write has followed. */
  predicate Stale(w: World, a: Act) {
    a.WriteBy? && a.who in w.held && w.held[a.who].at != |w.written|
  }

  ghost predicate NoStaleWrite(w: World, acts: seq<Act>) {
    acts == [] || (var before := acts[..|acts| - 1]; NoStaleWrite(w, before) && !Stale(Run(w, before), acts[|acts| - 1]))
  }

  /** The operations carried out, in the order of their writes. */
  function Ops(w: World, acts: seq<Act>): seq<Op> {
    if acts == [] then [] else
      var before, a := acts[..|acts| - 1], acts[|acts| - 1];
      if a.WriteBy? && a.who in Run(w, before).held then Ops(w, before) + [a.op] else Ops(w, before)
  }

  /** One after the other, an operation that raises changing nothing. */
  function Folded(items: seq<Entry>, ops: seq<Op>): seq<Entry> {
    if ops == [] then items else
      var before := Folded(items, ops[..|ops| - 1]);
      match Edit(before, ops[|ops| - 1])
      case None => before
      case Some(edited) => edited
  }

  /** What is held is the content of the moment it was read. */
  ghost predicate Snapshots(w: World) {
    forall who :: who in w.held ==> w.held[who].at <= |w.written| && w.held[who].list == Content(w, w.held[who].at)
  }

  lemma {:induction false} NextSnapshots(w: World, a: Act)
    requires Snapshots(w)
    ensures Snapshots(Next(w, a))
  {
    hide Edit;
    var t := Next(w, a);
    forall who | who in t.held ensures t.held[who].at <= |t.written| && t.held[who].list == Content(t, t.held[who].at) {
      if !(a.ReadBy? && a.who == who) { assert who in w.held && t.held[who] == w.held[who]; }
    }
  }

  lemma {:induction false} RunSnapshots(w: World, acts: seq<Act>)
    requires Snapshots(w)
    ensures Snapshots(Run(w, acts))
  {
    hide Next, Snapshots;
    if acts != [] {
      RunSnapshots(w, acts[..|acts| - 1]);
      NextSnapshots(Run(w, acts[..|acts| - 1]), acts[|acts| - 1]);
    }
  }

  /**
   * When no write lands between an operation's read and its write, the file is what the operations make of
   * it one after the other, in the order of their writes.
   */
  lemma {:induction false} FreshWritesFold(w: World, acts: seq<Act>)
    requires Snapshots(w) && NoStaleWrite(w, acts)
    ensures File(Run(w, acts)) == Folded(File(w), Ops(w, acts))
  {
    hide Edit, Snapshots;
    if acts != [] {
      var before, a := acts[..|acts| - 1], acts[|acts| - 1];
      var s := Run(w, before);
      FreshWritesFold(w, before);
      RunSnapshots(w, before);
      if a.WriteBy? && a.who in s.held {
        FreshRead(s, a.who);
        assert (Ops(w, before) + [a.op])[..|Ops(w, before)|] == Ops(w, before);
      }
    }
  }

  lemma {:induction false} FreshRead(w: World, who: nat)
    requires Snapshots(w) && who in w.held && w.held[who].at == |w.written|
    ensures w.held[who].list == File(w)
  {
  }

  // ---- What a write does to each entry ----

  function Lookup(items: seq<Entry>, name: string, version: string): Option<Entry> {
    var i := FindEntry(items, name, version);
    if i < |items| then Some(items[i]) else None
  }

  predicate Targets(op: Op, name: string, version: string) {
    match op
    case Register(entry, _) => entry.name == name && entry.version == version
    case Promote(n, v) => n == name && v == version
    case Archive(n, v) => n == name && v == version
  }

  /** What the operation makes of the entry of a version, given what was there. */
  function Made(op: Op, e: Option<Entry>, name: string, version: string): Option<Entry> {
    if Targets(op, name, version) then
      match op
      case Register(entry, _) => Some(if e.Some? then entry.(createdAt := e.value.createdAt) else entry)
      case Promote(_, _) => if e.Some? then Some(e.value.(status := Champion)) else None
      case Archive(_, _) => if e.Some? then Some(e.value.(status := Archived)) else None
    else if e.Some? && MakesChampion(op, name) then Some(Demoted(e.value, name))
    else e
  }

  lemma {:induction false} SamePlaces(a: seq<Entry>, b: seq<Entry>, name: string, version: string)
    requires |a| == |b| && forall i :: 0 <= i < |a| ==> a[i].name == b[i].name && a[i].version == b[i].version
    ensures FindEntry(a, name, version) == FindEntry(b, name, version)
  {
    if a != [] { SamePlaces(a[1..], b[1..], name, version); }
  }

  lemma {:induction false} FindAppended(items: seq<Entry>, e: Entry, name: string, version: string)
    ensures var i := FindEntry(items, name, version);
      FindEntry(items + [e], name, version) == if i < |items| || Is(e, name, version) then i else i + 1
  {
    if items == [] {
      assert (items + [e])[1..] == [];
    } else {
      assert (items + [e])[1..] == items[1..] + [e];
      FindAppended(items[1..], e, name, version);
    }
  }

  /** Entry by entry, an edited list is determined by the list it was edited from. */
  lemma {:induction false} EditLookup(items: seq<Entry>, op: Op, name: string, version: string)
    requires Edit(items, op).Some?
    ensures Lookup(Edit(items, op).value, name, version) == Made(op, Lookup(items, name, version), name, version)
  {
    hide FindEntry;
    var edited := Edit(items, op).value;
    if op.Register? && TargetOf(items, op) == |items| {
      var base := edited[..|items|];
      SamePlaces(base, items, name, version);
      FindAppended(base, edited[|items|], name, version);
      assert edited == base + [edited[|items|]];
    } else {
      SamePlaces(edited, items, name, version);
    }
  }

  /**
   * A write decides every entry from the list it holds: at each version the file then agrees with what
   * the operation would have made of the current file exactly when it makes the same of the entry held.
   */
  lemma {:induction false} WriteExactly(w: World, who: nat, op: Op, name: string, version: string)
    requires who in w.held && Edit(w.held[who].list, op).Some?
    ensures var held, now, after := w.held[who].list, File(w), File(Next(w, WriteBy(who, op)));
      && Lookup(after, name, version) == Made(op, Lookup(held, name, version), name, version)
      && (Edit(now, op).Some? ==>
            (Lookup(after, name, version) == Lookup(Edit(now, op).value, name, version) <==>
             Made(op, Lookup(held, name, version), name, version) == Made(op, Lookup(now, name, version), name, version)))
  {
    hide Edit, Made, Lookup;
    EditLookup(w.held[who].list, op, name, version);
    if Edit(File(w), op).Some? { EditLookup(File(w), op, name, version); }
  }

  /** An entry the operation does not concern survives a write exactly when the list held has it as the file does. */
  lemma {:induction false} LostExactly(w: World, who: nat, op: Op, name: string, version: string)
    requires who in w.held && Edit(w.held[who].list, op).Some?
    requires !Targets(op, name, version) && !MakesChampion(op, name)
    ensures var after := File(Next(w, WriteBy(who, op)));
      && Lookup(after, name, version) == Lookup(w.held[who].list, name, version)
      && (Lookup(after, name, version) == Lookup(File(w), name, version) <==>
          Lookup(w.held[who].list, name, version) == Lookup(File(w), name, version))
  {
    hide Edit, Lookup;
    WriteExactly(w, who, op, name, version);
  }

  /**
   * Of two operations that both read the same file, the second write undoes the first on every version it
   * does not concern itself: there the file is again as it was before both.
   */
  lemma {:induction false} StaleWriteLosesUpdate(w: World, i: nat, j: nat, p: Op, q: Op, name: string, version: string)
    requires i != j && i in w.held && j in w.held && w.held[i].list == w.held[j].list == File(w)
    requires Edit(File(w), p).Some? && Edit(File(w), q).Some?
    requires Targets(p, name, version) && !Targets(q, name, version) && !MakesChampion(q, name)
    ensures var first := Next(w, WriteBy(i, p)); var both := Next(first, WriteBy(j, q));
      && Lookup(File(first), name, version) == Made(p, Lookup(File(w), name, version), name, version)
      && Lookup(File(both), name, version) == Lookup(File(w), name, version)
  {
    hide Edit, Lookup;
    var first := Next(w, WriteBy(i, p));
    assert first.held[j] == w.held[j];
    WriteExactly(w, i, p, name, version);
    LostExactly(first, j, q, name, version);
  }
}
