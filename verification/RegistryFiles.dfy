/**
 * How a registry's list gets into the file: written to a temporary file of one name for all instances,
 * which then replaces the registry file. When the file can always be read, and what tears it.
 */
module RegistryFiles {
  import opened Options
  import opened ModelRegistry
  import R = RegistryRuns

  /** A file's text: the list last written from its start, and its length, which an older tail may exceed. */
  datatype Text = Text(top: Option<seq<Entry>>, length: nat)

  const Blank := Text(None, 0)

  /** The length of a list's JSON text. */
  type Size = seq<Entry> -> nat

  /** The text reads back as a list. */
  predicate Whole(t: Text, size: Size) {
    t.top.Some? && t.length == size(t.top.value)
  }

  /** A whole list's text written over what is there, from the start. */
  function Overlay(t: Text, items: seq<Entry>, size: Size): Text {
    Text(Some(items), if size(items) < t.length then t.length else size(items))
  }

  /** An edit on its way to the file. */
  datatype Job = Job(list: seq<Entry>, op: Op, items: seq<Entry>)

  /** What an instance is at: it has read, has edited, has opened the temporary file, or has written to it. */
  datatype Hand = Reading(list: seq<Entry>) | Ready(job: Job) | Opened(job: Job, cell: nat) | Dumped(job: Job, cell: nat)

  /** The files' texts, which of them the registry's name stands for, which the temporary name, and the instances. */
  datatype Disk = Disk(cells: seq<Text>, path: nat, tmp: Option<nat>, hands: map<nat, Hand>)

  datatype Act = Read(who: nat) | Decide(who: nat, op: Op) | Open(who: nat) | Dump(who: nat) | Replace(who: nat)

  ghost predicate Sane(d: Disk) {
    && d.path < |d.cells| && (d.tmp.Some? ==> d.tmp.value < |d.cells|)
    && (forall who :: who in d.hands && MidWrite(d.hands[who]) ==> d.hands[who].cell < |d.cells|)
  }

  predicate MidWrite(h: Hand) {
    h.Opened? || h.Dumped?
  }

  function FileText(d: Disk): Text {
    if d.path < |d.cells| then d.cells[d.path] else Blank
  }

  function HandOf(d: Disk, who: nat): Option<Hand> {
    if who in d.hands then Some(d.hands[who]) else None
  }

  /**
   * One step; an act an instance is not at leaves the disk alone. Reading a torn file raises. Opening
   * empties the temporary file, or creates it; replacing it raises when another instance already did.
   */
  function Next(d: Disk, a: Act, size: Size): Disk {
    match (a, HandOf(d, a.who))
    case (Read(who), None) =>
      var t := FileText(d);
      if Whole(t, size) then d.(hands := d.hands[who := Reading(t.top.value)]) else d
    case (Decide(who, op), Some(Reading(list))) =>
      (match Edit(list, op)
       case None => d.(hands := d.hands - {who})
       case Some(items) => d.(hands := d.hands[who := Ready(Job(list, op, items))]))
    case (Open(who), Some(Ready(job))) =>
      if d.tmp.Some? && d.tmp.value < |d.cells|
      then d.(cells := d.cells[d.tmp.value := Blank], hands := d.hands[who := Opened(job, d.tmp.value)])
      else d.(cells := d.cells + [Blank], tmp := Some(|d.cells|), hands := d.hands[who := Opened(job, |d.cells|)])
    case (Dump(who), Some(Opened(job, cell))) =>
      if cell < |d.cells|
      then d.(cells := d.cells[cell := Overlay(d.cells[cell], job.items, size)], hands := d.hands[who := Dumped(job, cell)])
      else d
    case (Replace(who), Some(Dumped(_, _))) =>
      var left := d.(hands := d.hands - {who});
      if d.tmp.Some? then left.(path := d.tmp.value, tmp := None) else left
    case _ => d
  }

  function Run(d: Disk, acts: seq<Act>, size: Size): Disk {
    if acts == [] then d else Next(Run(d, acts[..|acts| - 1], size), acts[|acts| - 1], size)
  }

  // ---- One writer at a time ----

  /** The act opens the temporary file while another instance is between its open and its replace. */
  ghost predicate Intrudes(d: Disk, a: Act) {
    && a.Open? && a.who in d.hands && d.hands[a.who].Ready?
    && exists other :: other in d.hands && MidWrite(d.hands[other])
  }

  ghost predicate Exclusive(d: Disk, acts: seq<Act>, size: Size) {
    acts == [] || (var before := acts[..|acts| - 1]; Exclusive(d, before, size) && !Intrudes(Run(d, before, size), acts[|acts| - 1]))
  }

  /** The registry file is whole; at most one instance is writing, in the temporary file and nowhere else. */
  ghost predicate Orderly(d: Disk, size: Size) {
    && Sane(d) && Whole(d.cells[d.path], size) && d.tmp != Some(d.path)
    && (forall i, j :: i in d.hands && j in d.hands && MidWrite(d.hands[i]) && MidWrite(d.hands[j]) ==> i == j)
    && (forall who :: who in d.hands ==> InPlace(d, d.hands[who], size))
  }

  predicate InPlace(d: Disk, h: Hand, size: Size) {
    match h
    case Reading(_) => true
    case Ready(job) => Edit(job.list, job.op) == Some(job.items)
    case Opened(job, cell) => Edit(job.list, job.op) == Some(job.items) && d.tmp == Some(cell) && cell < |d.cells| && d.cells[cell] == Blank
    case Dumped(job, cell) =>
      && Edit(job.list, job.op) == Some(job.items) && d.tmp == Some(cell) && cell < |d.cells|
      && d.cells[cell] == Text(Some(job.items), size(job.items))
  }

  lemma {:induction false} NextOrderly(d: Disk, a: Act, size: Size)
    requires Orderly(d, size) && !Intrudes(d, a)
    ensures Orderly(Next(d, a, size), size)
  {
    hide Edit;
    var t := Next(d, a, size);
    if a.who in d.hands {
      assert InPlace(d, d.hands[a.who], size);
      forall who | who in t.hands ensures InPlace(t, t.hands[who], size) {
        if who != a.who { assert InPlace(d, d.hands[who], size); }
      }
    }
  }

  lemma {:induction false} RunOrderly(d: Disk, acts: seq<Act>, size: Size)
    requires Orderly(d, size) && Exclusive(d, acts, size)
    ensures Orderly(Run(d, acts, size), size)
  {
    hide Next, Orderly, Intrudes;
    if acts != [] {
      RunOrderly(d, acts[..|acts| - 1], size);
      NextOrderly(Run(d, acts[..|acts| - 1], size), acts[|acts| - 1], size);
    }
  }

  // ---- Then a write is one step ----

  function ListOf(h: Hand): seq<Entry> {
    if h.Reading? then h.list else h.job.list
  }

  /** The disk as the registry objects see it. */
  ghost predicate Shows(d: Disk, w: R.World, size: Size) {
    && FileText(d).top == Some(R.File(w))
    && d.hands.Keys == w.held.Keys
    && forall who :: who in d.hands ==> ListOf(d.hands[who]) == w.held[who].list
  }

  /** What a step amounts to: a read, a write when it replaces the file, an operation that raises, or nothing. */
  function Amounts(d: Disk, a: Act, size: Size): seq<R.Act> {
    match (a, HandOf(d, a.who))
    case (Read(who), None) => if Whole(FileText(d), size) then [R.ReadBy(who)] else []
    case (Decide(who, op), Some(Reading(list))) => if Edit(list, op).None? then [R.WriteBy(who, op)] else []
    case (Replace(who), Some(Dumped(job, _))) => [R.WriteBy(who, job.op)]
    case _ => []
  }

  function AllAmounts(d: Disk, acts: seq<Act>, size: Size): seq<R.Act> {
    if acts == [] then [] else
      var before := acts[..|acts| - 1];
      AllAmounts(d, before, size) + Amounts(Run(d, before, size), acts[|acts| - 1], size)
  }

  lemma {:induction false} NextShows(d: Disk, w: R.World, a: Act, size: Size)
    requires Orderly(d, size) && Shows(d, w, size) && !Intrudes(d, a)
    ensures Shows(Next(d, a, size), R.Run(w, Amounts(d, a, size)), size)
  {
    hide Edit;
    if a.who in d.hands { assert InPlace(d, d.hands[a.who], size); }
    var amounts := Amounts(d, a, size);
    if amounts != [] {
      assert amounts[..0] == [];
      assert R.Run(w, amounts) == R.Next(w, amounts[0]);
    }
  }

  lemma {:induction false} RunMore(w: R.World, a: seq<R.Act>, b: seq<R.Act>)
    ensures R.Run(R.Run(w, a), b) == R.Run(w, a + b)
  {
    if b == [] {
      assert a + b == a;
    } else {
      assert (a + b)[..|a + b| - 1] == a + b[..|b| - 1];
      RunMore(w, a, b[..|b| - 1]);
    }
  }

  /** With one writer at a time, the file goes through exactly the contents of one-step writes. */
  lemma {:induction false} ExclusiveIsAtomic(d: Disk, w: R.World, acts: seq<Act>, size: Size)
    requires Orderly(d, size) && Shows(d, w, size) && Exclusive(d, acts, size)
    ensures Whole(FileText(Run(d, acts, size)), size)
    ensures Shows(Run(d, acts, size), R.Run(w, AllAmounts(d, acts, size)), size)
  {
    hide Next, Amounts, Shows, Intrudes, R.Run;
    RunOrderly(d, acts, size);
    if acts == [] {
      assert R.Run(w, []) == w by { NoActs(w); }
    } else {
      var before, a := acts[..|acts| - 1], acts[|acts| - 1];
      RunOrderly(d, before, size);
      ExclusiveIsAtomic(d, w, before, size);
      NextShows(Run(d, before, size), R.Run(w, AllAmounts(d, before, size)), a, size);
      RunMore(w, AllAmounts(d, before, size), Amounts(Run(d, before, size), a, size));
    }
  }

  lemma {:induction false} NoActs(w: R.World)
    ensures R.Run(w, []) == w
  {
  }

  /** So the file is always a whole list, with unique versions and at most one champion per name. */
  lemma {:induction false} ExclusiveFileIsGood(d: Disk, w: R.World, acts: seq<Act>, size: Size)
    requires Orderly(d, size) && Shows(d, w, size) && R.AllGood(w) && Exclusive(d, acts, size)
    ensures var t := FileText(Run(d, acts, size)); Whole(t, size) && Good(t.top.value)
  {
    hide R.AllGood, Run, AllAmounts, Exclusive, Orderly, R.Run;
    ExclusiveIsAtomic(d, w, acts, size);
    R.EveryWriteIsGood(w, AllAmounts(d, acts, size));
  }

  // ---- Several writers ----

  /** Every list held, about to be written or written is good. */
  ghost predicate GoodTexts(d: Disk) {
    && (forall i :: 0 <= i < |d.cells| && d.cells[i].top.Some? ==> Good(d.cells[i].top.value))
    && (forall who :: who in d.hands ==> Good(ListOf(d.hands[who])) && (!d.hands[who].Reading? ==> Good(d.hands[who].job.items)))
  }

  lemma {:induction false} NextGoodTexts(d: Disk, a: Act, size: Size)
    requires GoodTexts(d)
    ensures GoodTexts(Next(d, a, size))
  {
    hide Good, Edit;
    if a.Decide? && a.who in d.hands && d.hands[a.who].Reading? { EditKeepsGood(d.hands[a.who].list, a.op); }
  }

  /** However many write at a time: when the file can be read, it has unique versions and at most one champion per name. */
  lemma {:induction false} ReadableFileIsGood(d: Disk, acts: seq<Act>, size: Size)
    requires GoodTexts(d)
    ensures GoodTexts(Run(d, acts, size))
    ensures var t := FileText(Run(d, acts, size)); Whole(t, size) ==> Good(t.top.value)
  {
    hide Next, Good;
    if acts != [] {
      ReadableFileIsGood(d, acts[..|acts| - 1], size);
      NextGoodTexts(Run(d, acts[..|acts| - 1], size), acts[|acts| - 1], size);
    }
  }

  /** Acts that only carry on writes already begun. */
  predicate Finishing(acts: seq<Act>) {
    forall a | a in acts :: a.Dump? || a.Replace?
  }

  /**
   * The open meets a writer that has written already, or one whose temporary file another has put in place
   * already, or one whose text has another length.
   */
  ghost predicate Harmful(d: Disk, a: Act, size: Size) {
    && a.Open? && a.who in d.hands && d.hands[a.who].Ready?
    && exists other :: other in d.hands && Clashes(d, d.hands[a.who], d.hands[other], size)
  }

  predicate Clashes(d: Disk, mine: Hand, other: Hand, size: Size)
    requires mine.Ready?
  {
    MidWrite(other) && (other.Dumped? || d.tmp.None? || size(other.job.items) != size(mine.job.items))
  }

  /** No act of the run is a harmful open. */
  ghost predicate Harmless(d: Disk, acts: seq<Act>, size: Size) {
    acts == [] || (var before := acts[..|acts| - 1]; Harmless(d, before, size) && !Harmful(Run(d, before, size), acts[|acts| - 1], size))
  }

  /** Writers in one file, whose texts have the same length: each text covers the others completely. */
  ghost predicate Twin(d: Disk, cell: nat, length: nat, size: Size) {
    && Sane(d) && cell < |d.cells| && Whole(d.cells[d.path], size) && d.tmp != Some(d.path) && (d.tmp == Some(cell) || d.tmp.None?)
    && (forall who :: who in d.hands && MidWrite(d.hands[who]) ==> d.hands[who].cell == cell && size(d.hands[who].job.items) == length)
    && (if d.cells[cell] == Blank then forall who :: who in d.hands ==> !d.hands[who].Dumped?
        else d.cells[cell].length == length && Whole(d.cells[cell], size))
  }

  ghost predicate NobodyWrites(d: Disk) {
    forall who :: who in d.hands ==> !MidWrite(d.hands[who])
  }

  /** The registry file is whole, and so it stays while the writes begun are carried on. */
  ghost predicate Steady(d: Disk, size: Size) {
    || (Sane(d) && Whole(d.cells[d.path], size) && d.tmp != Some(d.path) && NobodyWrites(d))
    || exists cell, length :: Twin(d, cell, length, size)
  }

  lemma {:induction false} SteadyIsWhole(d: Disk, size: Size)
    requires Steady(d, size)
    ensures Sane(d) && Whole(FileText(d), size) && d.tmp != Some(d.path)
  {
    if !NobodyWrites(d) { var cell: nat, length: nat :| Twin(d, cell, length, size); }
  }

  /** While writers take turns the disk is steady. */
  lemma {:induction false} OrderlyIsSteady(d: Disk, size: Size)
    requires Orderly(d, size)
    ensures Steady(d, size)
  {
    hide Edit;
    if !NobodyWrites(d) {
      var who :| who in d.hands && MidWrite(d.hands[who]);
      assert InPlace(d, d.hands[who], size);
      assert Twin(d, d.hands[who].cell, size(d.hands[who].job.items), size);
    }
  }

  lemma {:induction false} NextTwin(d: Disk, a: Act, cell: nat, length: nat, size: Size)
    requires Twin(d, cell, length, size) && !a.Open?
    ensures Twin(Next(d, a, size), cell, length, size)
  {
    hide Edit;
  }

  /** An open that is not harmful leaves writers of one length in one file. */
  lemma {:induction false} HarmlessOpen(d: Disk, b: nat, size: Size) returns (cell: nat)
    requires Steady(d, size) && b in d.hands && d.hands[b].Ready? && !Harmful(d, Open(b), size)
    ensures Twin(Next(d, Open(b), size), cell, size(d.hands[b].job.items), size)
  {
    hide Edit;
    forall who | who in d.hands && MidWrite(d.hands[who])
      ensures d.hands[who].Opened? && d.tmp.Some? && size(d.hands[who].job.items) == size(d.hands[b].job.items)
    {
      assert !Clashes(d, d.hands[b], d.hands[who], size);
    }
    if NobodyWrites(d) {
      SteadyIsWhole(d, size);
      cell := if d.tmp.Some? then d.tmp.value else |d.cells|;
    } else {
      var length: nat;
      cell, length :| Twin(d, cell, length, size);
    }
  }

  lemma {:induction false} NextSteady(d: Disk, a: Act, size: Size)
    requires Steady(d, size) && !Harmful(d, a, size)
    ensures Steady(Next(d, a, size), size)
  {
    hide Twin, Harmful, Next;
    if a.Open? && a.who in d.hands && d.hands[a.who].Ready? {
      var cell := HarmlessOpen(d, a.who, size);
    } else if a.Open? {
      OpenByNone(d, a, size);
    } else if NobodyWrites(d) && !(exists cell, length :: Twin(d, cell, length, size)) {
      NextCalm(d, a, size);
    } else {
      var cell: nat, length: nat :| Twin(d, cell, length, size);
      NextTwin(d, a, cell, length, size);
    }
  }

  lemma {:induction false} OpenByNone(d: Disk, a: Act, size: Size)
    requires a.Open? && !(a.who in d.hands && d.hands[a.who].Ready?)
    ensures Next(d, a, size) == d
  {
  }

  lemma {:induction false} NextCalm(d: Disk, a: Act, size: Size)
    requires Sane(d) && Whole(d.cells[d.path], size) && d.tmp != Some(d.path) && NobodyWrites(d) && !a.Open?
    ensures var e := Next(d, a, size); Sane(e) && Whole(e.cells[e.path], size) && e.tmp != Some(e.path) && NobodyWrites(e)
  {
    hide Edit;
  }

  lemma {:induction false} RunSteady(d: Disk, acts: seq<Act>, size: Size)
    requires Steady(d, size) && Harmless(d, acts, size)
    ensures Steady(Run(d, acts, size), size)
  {
    hide Next, Steady, Harmful;
    if acts != [] {
      RunSteady(d, acts[..|acts| - 1], size);
      NextSteady(Run(d, acts[..|acts| - 1], size), acts[|acts| - 1], size);
    }
  }

  lemma {:induction false} RunPush(d: Disk, acts: seq<Act>, a: Act, size: Size) returns (more: seq<Act>)
    ensures more == acts + [a] && Run(d, more, size) == Next(Run(d, acts, size), a, size)
    ensures Finishing(acts) && (a.Dump? || a.Replace?) ==> Finishing(more)
  {
    more := acts + [a];
    assert more[..|acts|] == acts;
  }

  lemma {:induction false} NoSteps(d: Disk, size: Size)
    ensures Run(d, [], size) == d
  {
  }

  /** After an open the temporary file is blank; who puts it in place without writing to it leaves a blank file. */
  lemma {:induction false} OpenBlanks(d: Disk, b: nat, a: nat, size: Size) returns (more: seq<Act>)
    requires Steady(d, size) && b in d.hands && d.hands[b].Ready? && a in d.hands && MidWrite(d.hands[a])
    requires d.hands[a].Dumped? || d.tmp.None?
    ensures Finishing(more) && !Whole(FileText(Run(Next(d, Open(b), size), more, size)), size)
  {
    hide Run;
    SteadyIsWhole(d, size);
    var e := Next(d, Open(b), size);
    NoSteps(e, size);
    more := [];
    if d.hands[a].Opened? { more := RunPush(e, more, Dump(a), size); }
    more := RunPush(e, more, Replace(a), size);
  }

  /** The shorter of two texts is written over the longer one, whose tail remains. */
  lemma {:induction false} ShorterTears(d: Disk, b: nat, a: nat, size: Size) returns (more: seq<Act>)
    requires Steady(d, size) && b in d.hands && d.hands[b].Ready? && a in d.hands && d.hands[a].Opened? && d.tmp.Some?
    requires size(d.hands[a].job.items) != size(d.hands[b].job.items)
    ensures Finishing(more) && !Whole(FileText(Run(Next(d, Open(b), size), more, size)), size)
  {
    hide Run;
    assert MidWrite(d.hands[a]);
    var cell: nat, length: nat :| Twin(d, cell, length, size);
    assert d.tmp == Some(cell) && d.hands[a].cell == cell;
    hide Twin;
    var e := Next(d, Open(b), size);
    if size(d.hands[b].job.items) < size(d.hands[a].job.items) {
      more := LongThenShort(e, a, b, cell, size);
    } else {
      more := LongThenShort(e, b, a, cell, size);
    }
  }

  /** Of two writers on one blank file the longer text goes first, the shorter over it: what is left is torn. */
  lemma {:induction false} LongThenShort(d: Disk, x: nat, y: nat, cell: nat, size: Size) returns (more: seq<Act>)
    requires x in d.hands && y in d.hands && x != y && d.hands[x].Opened? && d.hands[y].Opened?
    requires d.hands[x].cell == d.hands[y].cell == cell < |d.cells| && d.cells[cell] == Blank && d.tmp == Some(cell)
    requires size(d.hands[x].job.items) > size(d.hands[y].job.items)
    ensures Finishing(more) && !Whole(FileText(Run(d, more, size)), size)
  {
    hide Run;
    NoSteps(d, size);
    more := RunPush(d, [], Dump(x), size);
    more := RunPush(d, more, Dump(y), size);
    more := RunPush(d, more, Replace(y), size);
  }

  lemma {:induction false} FinishingIsHarmless(d: Disk, more: seq<Act>, size: Size)
    requires Finishing(more)
    ensures Harmless(d, more, size)
  {
    hide Next;
    if more != [] {
      assert more[|more| - 1] in more && forall a :: a in more[..|more| - 1] ==> a in more;
      FinishingIsHarmless(d, more[..|more| - 1], size);
    }
  }

  /**
   * On a steady disk an open is safe, however the writes begun are carried on, exactly when it meets no
   * writer that has written already, none whose temporary file is in place already, and none whose text has
   * another length.
   */
  lemma {:induction false} OpenIsSafeExactly(d: Disk, b: nat, size: Size)
    requires Steady(d, size) && b in d.hands && d.hands[b].Ready?
    ensures !Harmful(d, Open(b), size) <==>
      forall more :: Finishing(more) ==> Whole(FileText(Run(Next(d, Open(b), size), more, size)), size)
  {
    hide Next, Run, Steady, Finishing, Harmless;
    if Harmful(d, Open(b), size) {
      var a :| a in d.hands && Clashes(d, d.hands[b], d.hands[a], size);
      var more: seq<Act>;
      if d.hands[a].Dumped? || d.tmp.None? { more := OpenBlanks(d, b, a, size); } else { more := ShorterTears(d, b, a, size); }
    } else {
      NextSteady(d, Open(b), size);
      forall more | Finishing(more) ensures Whole(FileText(Run(Next(d, Open(b), size), more, size)), size) {
        FinishingIsHarmless(Next(d, Open(b), size), more, size);
        RunSteady(Next(d, Open(b), size), more, size);
        SteadyIsWhole(Run(Next(d, Open(b), size), more, size), size);
      }
    }
  }

  lemma {:induction false} HarmlessPrefix(d: Disk, acts: seq<Act>, k: nat, size: Size)
    requires Harmless(d, acts, size) && k <= |acts|
    ensures Harmless(d, acts[..k], size)
  {
    hide Harmful, Run;
    if k == |acts| {
      assert acts[..k] == acts;
    } else {
      assert acts[..|acts| - 1][..k] == acts[..k];
      HarmlessPrefix(d, acts[..|acts| - 1], k, size);
    }
  }

  lemma {:induction false} FirstHarm(d: Disk, acts: seq<Act>, size: Size) returns (k: nat)
    requires !Harmless(d, acts, size)
    ensures k < |acts| && Harmless(d, acts[..k], size) && Harmful(Run(d, acts[..k], size), acts[k], size)
  {
    hide Run, Harmful;
    var before := acts[..|acts| - 1];
    if Harmless(d, before, size) {
      k := |acts| - 1;
    } else {
      k := FirstHarm(d, before, size);
      assert before[..k] == acts[..k];
    }
  }

  /** At every moment of the run, and however the writes then begun are carried on, the file can be read. */
  ghost predicate AlwaysReadable(d: Disk, acts: seq<Act>, size: Size) {
    forall k: nat, more :: k <= |acts| && Finishing(more) ==> Whole(FileText(Run(Run(d, acts[..k], size), more, size)), size)
  }

  /** The file can always be read exactly when no open of the run is harmful. */
  lemma {:induction false} AlwaysReadableExactly(d: Disk, acts: seq<Act>, size: Size)
    requires Steady(d, size)
    ensures AlwaysReadable(d, acts, size) <==> Harmless(d, acts, size)
  {
    hide Next, Run, Steady, Finishing, Harmless, Harmful;
    if Harmless(d, acts, size) {
      forall k: nat, more | k <= |acts| && Finishing(more) ensures Whole(FileText(Run(Run(d, acts[..k], size), more, size)), size) {
        HarmlessPrefix(d, acts, k, size);
        RunSteady(d, acts[..k], size);
        FinishingIsHarmless(Run(d, acts[..k], size), more, size);
        RunSteady(Run(d, acts[..k], size), more, size);
        SteadyIsWhole(Run(Run(d, acts[..k], size), more, size), size);
      }
    } else {
      var k := FirstHarm(d, acts, size);
      var s, a := Run(d, acts[..k], size), acts[k];
      RunSteady(d, acts[..k], size);
      HarmIsOpen(s, a, size);
      OpenIsSafeExactly(s, a.who, size);
      var more :| Finishing(more) && !Whole(FileText(Run(Next(s, Open(a.who), size), more, size)), size);
      assert acts[..k + 1][..k] == acts[..k];
      assert Run(d, acts[..k + 1], size) == Next(s, a, size) by { LastStep(d, acts[..k + 1], size); }
      assert !AlwaysReadable(d, acts, size);
    }
  }

  lemma {:induction false} LastStep(d: Disk, acts: seq<Act>, size: Size)
    requires acts != []
    ensures Run(d, acts, size) == Next(Run(d, acts[..|acts| - 1], size), acts[|acts| - 1], size)
  {
  }

  lemma {:induction false} HarmIsOpen(d: Disk, a: Act, size: Size)
    requires Harmful(d, a, size)
    ensures a == Open(a.who) && a.who in d.hands && d.hands[a.who].Ready?
  {
  }

  /** For instance: `a` has opened the file, `b` opens it too, both write, and `a` puts both texts in place. */
  function Tearing(a: nat, b: nat): seq<Act> {
    [] + [Open(b)] + [Dump(a)] + [Dump(b)] + [Replace(a)]
  }

  lemma {:induction false} StepOn(d: Disk, acts: seq<Act>, a: Act, size: Size)
    ensures Run(d, acts + [a], size) == Next(Run(d, acts, size), a, size)
  {
    assert (acts + [a])[..|acts|] == acts;
  }

  lemma {:induction false} BothWrite(d: Disk, a: nat, b: nat, size: Size)
    requires Orderly(d, size) && a in d.hands && d.hands[a].Opened? && b in d.hands && d.hands[b].Ready?
    requires size(d.hands[b].job.items) < size(d.hands[a].job.items)
    ensures var cell, x, y := d.hands[a].cell, d.hands[a].job, d.hands[b].job;
      Run(d, Tearing(a, b)[..3], size) ==
        d.(cells := d.cells[cell := Text(Some(y.items), size(x.items))], hands := d.hands[a := Dumped(x, cell)][b := Dumped(y, cell)])
  {
    hide Edit, Run, Whole;
    assert InPlace(d, d.hands[a], size);
    assert Tearing(a, b)[..3] == [] + [Open(b)] + [Dump(a)] + [Dump(b)];
    NoSteps(d, size);
    StepOn(d, [], Open(b), size);
    StepOn(d, [] + [Open(b)], Dump(a), size);
    StepOn(d, [] + [Open(b)] + [Dump(a)], Dump(b), size);
    var cell, x, y := d.hands[a].cell, d.hands[a].job, d.hands[b].job;
    assert d.hands[b := Opened(y, cell)][a := Dumped(x, cell)][b := Dumped(y, cell)] == d.hands[a := Dumped(x, cell)][b := Dumped(y, cell)];
    assert d.cells[cell := Blank][cell := Text(Some(x.items), size(x.items))][cell := Text(Some(y.items), size(x.items))]
        == d.cells[cell := Text(Some(y.items), size(x.items))];
  }

  /** When the second list is the shorter, nobody can read the file any more, and the second writer fails. */
  lemma {:induction false} LongerListTears(d: Disk, a: nat, b: nat, reader: nat, size: Size)
    requires Orderly(d, size) && a in d.hands && d.hands[a].Opened? && b in d.hands && d.hands[b].Ready? && reader !in d.hands
    requires size(d.hands[b].job.items) < size(d.hands[a].job.items)
    ensures var torn := Run(d, Tearing(a, b), size);
      && !Whole(FileText(torn), size) && Next(torn, Read(reader), size) == torn
      && b in torn.hands && Next(torn, Replace(b), size) == torn.(hands := torn.hands - {b})
  {
    hide Edit, Run;
    assert InPlace(d, d.hands[a], size);
    BothWrite(d, a, b, size);
    StepOn(d, Tearing(a, b)[..3], Replace(a), size);
    assert Tearing(a, b) == Tearing(a, b)[..3] + [Replace(a)];
  }
}
