/**
 * The hash-chained audit log: appends queued behind one another in each client, and a trigger in the
 * database that links each row to the one with the greatest id it can see. An INSERT draws its id, runs
 * the trigger's read and commits in separate steps: one client's queue keeps the chain straight, and
 * several clients may fork it.
 */
module AuditChain {
  import opened Options

  /** Hexadecimal. */
  type Hash = string

  const GENESIS: Hash := "0000000000000000000000000000000000000000000000000000000000000000"

  datatype Event = Event(
    eventType: string, actor: Option<string>, subjectId: Option<string>, sourceIp: Option<string>, correlationId: Option<string>,
    tenantId: Option<string>, channel: Option<string>, payload: string)

  /** The hash of a row: of the previous hash, the event and its time. */
  type Digest = (Hash, Event, int) -> Hash

  datatype Row = Row(event: Event, at: int, prev: Hash, hash: Hash)

  /** By id. */
  type Table = map<nat, Row>

  /** What the trigger of an INSERT saw: the last hash, the row that has it, and which rows there were. */
  datatype Sight = Sight(last: Hash, top: Option<nat>, seen: set<nat>)

  /** An append: its turn has not come, its INSERT runs (having read the last hash or not yet), or it is over. */
  datatype Task =
    | Waiting(event: Event)
    | Inserting(event: Event, id: nat, at: int, read: Option<Sight>)
    | Landed(event: Event)
    | Failed(event: Event)

  /** The client that makes the i-th append, whatever the run. */
  type Clients = nat -> nat

  ghost predicate OneClient(clients: Clients) {
    forall i :: clients(i) == clients(0)
  }

  datatype State = State(tasks: seq<Task>, table: Table, nextId: nat)

  const EMPTY := State([], map[], 1)

  datatype Act =
    | Append(event: Event)
    | Start(index: nat, at: int)
    | ReadLast(index: nat)
    | Commit(index: nat)
    | Fail(index: nat)

  predicate Settled(t: Task) {
    t.Landed? || t.Failed?
  }

  /** The greatest id below `n`. */
  function Greatest(table: Table, n: nat): (r: Option<nat>)
    ensures r.Some? ==> r.value < n && r.value in table && forall k | k in table && k < n :: k <= r.value
    ensures r.None? ==> forall k | k in table :: k >= n
  {
    if n == 0 then None else if n - 1 in table then Some(n - 1) else Greatest(table, n - 1)
  }

  function HashAt(table: Table, id: Option<nat>): Hash {
    if id.Some? && id.value in table then table[id.value].hash else GENESIS
  }

  /** A queued callback runs once every earlier one of its client has settled, either way. */
  predicate MayStart(tasks: seq<Task>, i: nat, clients: Clients) {
    i < |tasks| && tasks[i].Waiting? && forall j | 0 <= j < i && clients(j) == clients(i) :: Settled(tasks[j])
  }

  predicate MayCommit(tasks: seq<Task>, i: nat) {
    i < |tasks| && tasks[i].Inserting? && tasks[i].read.Some?
  }

  function RowOf(t: Task, digest: Digest): Row
    requires t.Inserting? && t.read.Some?
  {
    Row(t.event, t.at, t.read.value.last, digest(t.read.value.last, t.event, t.at))
  }

  /** One step; an act that is not possible leaves the state alone. An INSERT draws its id and time when it starts. */
  function Next(s: State, a: Act, digest: Digest, clients: Clients): State {
    match a
    case Append(e) => s.(tasks := s.tasks + [Waiting(e)])
    case Start(i, at) =>
      if MayStart(s.tasks, i, clients)
      then s.(tasks := s.tasks[i := Inserting(s.tasks[i].event, s.nextId, at, None)], nextId := s.nextId + 1) else s
    case ReadLast(i) =>
      if i < |s.tasks| && s.tasks[i].Inserting? && s.tasks[i].read.None? then
        var top := Greatest(s.table, s.nextId);
        s.(tasks := s.tasks[i := s.tasks[i].(read := Some(Sight(HashAt(s.table, top), top, s.table.Keys)))])
      else s
    case Commit(i) =>
      if MayCommit(s.tasks, i)
      then s.(tasks := s.tasks[i := Landed(s.tasks[i].event)], table := s.table[s.tasks[i].id := RowOf(s.tasks[i], digest)]) else s
    case Fail(i) => if i < |s.tasks| && s.tasks[i].Inserting? then s.(tasks := s.tasks[i := Failed(s.tasks[i].event)]) else s
  }

  function Run(acts: seq<Act>, digest: Digest, clients: Clients): State {
    if acts == [] then EMPTY else Next(Run(acts[..|acts| - 1], digest, clients), acts[|acts| - 1], digest, clients)
  }

  /** Each row carries the hash of the row with the next smaller id, and its own digest. */
  ghost predicate Linked(table: Table, digest: Digest) {
    forall i | i in table :: LinkedAt(table, i, digest)
  }

  predicate LinkedAt(table: Table, i: nat, digest: Digest)
    requires i in table
  {
    table[i].prev == HashAt(table, Greatest(table, i)) && table[i].hash == digest(table[i].prev, table[i].event, table[i].at)
  }

  // ---- What every step keeps, whatever the clients ----

  /** The sight is of rows that are there, and of the greatest id among them. */
  ghost predicate Saw(sight: Sight, table: Table) {
    && sight.seen <= table.Keys
    && (sight.top.None? ==> sight.seen == {} && sight.last == GENESIS)
    && (sight.top.Some? ==>
          && sight.top.value in sight.seen && sight.last == table[sight.top.value].hash
          && forall k | k in sight.seen :: k <= sight.top.value)
  }

  /** Ids are drawn once, and what an outstanding INSERT has read is there. */
  ghost predicate Drawn(s: State) {
    && (forall k | k in s.table :: k < s.nextId)
    && (forall i :: 0 <= i < |s.tasks| && s.tasks[i].Inserting? ==> s.tasks[i].id < s.nextId && s.tasks[i].id !in s.table)
    && (forall i, j :: 0 <= i < j < |s.tasks| && s.tasks[i].Inserting? && s.tasks[j].Inserting? ==> s.tasks[i].id != s.tasks[j].id)
    && (forall i :: 0 <= i < |s.tasks| && MayCommit(s.tasks, i) ==> Saw(s.tasks[i].read.value, s.table))
  }

  /** Every row's previous hash is the genesis one or that of some row. */
  ghost predicate Rooted(table: Table, digest: Digest) {
    forall i | i in table :: RootedAt(table, i, digest)
  }

  ghost predicate RootedAt(table: Table, i: nat, digest: Digest)
    requires i in table
  {
    && (table[i].prev == GENESIS || exists j :: j in table && table[i].prev == table[j].hash)
    && table[i].hash == digest(table[i].prev, table[i].event, table[i].at)
  }

  lemma {:induction false} SawMore(sight: Sight, table: Table, id: nat, row: Row)
    requires Saw(sight, table) && id !in table
    ensures Saw(sight, table[id := row])
  {
  }

  lemma {:induction false} SeesAll(table: Table, n: nat)
    requires forall k | k in table :: k < n
    ensures var top := Greatest(table, n); Saw(Sight(HashAt(table, top), top, table.Keys), table)
  {
  }

  lemma {:induction false} NextDrawn(s: State, a: Act, digest: Digest, clients: Clients)
    requires Drawn(s)
    ensures Drawn(Next(s, a, digest, clients))
  {
    hide Saw;
    SeesAll(s.table, s.nextId);
    if a.Commit? && MayCommit(s.tasks, a.index) {
      var t := s.tasks[a.index];
      forall i | 0 <= i < |s.tasks| && MayCommit(s.tasks, i) ensures Saw(s.tasks[i].read.value, s.table[t.id := RowOf(t, digest)]) {
        SawMore(s.tasks[i].read.value, s.table, t.id, RowOf(t, digest));
      }
    }
  }

  lemma {:induction false} RowRooted(table: Table, t: Task, digest: Digest)
    requires Rooted(table, digest) && t.Inserting? && t.read.Some? && Saw(t.read.value, table) && t.id !in table
    ensures Rooted(table[t.id := RowOf(t, digest)], digest)
  {
    var more := table[t.id := RowOf(t, digest)];
    forall i | i in more ensures RootedAt(more, i, digest) {
      if i == t.id {
        if t.read.value.top.Some? { assert more[t.read.value.top.value].hash == more[i].prev; }
      } else {
        assert RootedAt(table, i, digest);
        if j :| j in table && table[i].prev == table[j].hash { assert more[j] == table[j]; }
      }
    }
  }

  lemma {:induction false} RunDrawn(acts: seq<Act>, digest: Digest, clients: Clients)
    ensures Drawn(Run(acts, digest, clients)) && Rooted(Run(acts, digest, clients).table, digest)
  {
    hide Saw, RootedAt;
    if acts != [] {
      var before, a := acts[..|acts| - 1], acts[|acts| - 1];
      var s := Run(before, digest, clients);
      RunDrawn(before, digest, clients);
      NextDrawn(s, a, digest, clients);
      if a.Commit? && MayCommit(s.tasks, a.index) { RowRooted(s.table, s.tasks[a.index], digest); }
    }
  }

  // ---- Any clients: when the chain is straight ----

  /** The act commits a row when another one has landed since its own read, or one with a later id has. */
  ghost predicate Overtaken(s: State, a: Act) {
    a.Commit? && MayCommit(s.tasks, a.index)
    && (s.tasks[a.index].read.value.seen != s.table.Keys || exists k :: k in s.table && k > s.tasks[a.index].id)
  }

  ghost predicate Undisturbed(acts: seq<Act>, digest: Digest, clients: Clients) {
    acts == [] || (var before := acts[..|acts| - 1];
      Undisturbed(before, digest, clients) && !Overtaken(Run(before, digest, clients), acts[|acts| - 1]))
  }

  /** No two rows have the same hash, and none has the genesis one. */
  ghost predicate DistinctHashes(table: Table) {
    && (forall i | i in table :: table[i].hash != GENESIS)
    && (forall i, j | i in table && j in table && table[i].hash == table[j].hash :: i == j)
  }

  /** What landed after an outstanding read has a greater id than all that was read. */
  ghost predicate SeenFirst(s: State) {
    forall i :: 0 <= i < |s.tasks| && MayCommit(s.tasks, i) ==> SawFirst(s.tasks[i].read.value, s.table)
  }

  ghost predicate SawFirst(sight: Sight, table: Table) {
    forall y, z | y in table && y !in sight.seen && z in sight.seen :: z < y
  }

  lemma {:induction false} NextSeenFirst(s: State, a: Act, digest: Digest, clients: Clients)
    requires Drawn(s) && SeenFirst(s) && !Overtaken(s, a)
    ensures SeenFirst(Next(s, a, digest, clients))
  {
    var t := Next(s, a, digest, clients);
    forall i | 0 <= i < |t.tasks| && MayCommit(t.tasks, i) ensures SawFirst(t.tasks[i].read.value, t.table) {
      if MayCommit(s.tasks, i) && t.tasks[i] == s.tasks[i] {
        assert SawFirst(s.tasks[i].read.value, s.table) && Saw(s.tasks[i].read.value, s.table);
      }
    }
  }

  /** Ids from `n` on do not matter for what lies below. */
  lemma {:induction false} GreatestBelow(table: Table, x: nat, row: Row, n: nat)
    requires x !in table
    ensures Greatest(table[x := row], n) == Greatest(table, n) || (x < n && Greatest(table[x := row], n) == Some(x))
    ensures x < n && (forall k | k in table && k < n :: k < x) ==> Greatest(table[x := row], n) == Some(x)
  {
    var more := table[x := row];
    var a, b := Greatest(table, n), Greatest(more, n);
    assert forall k :: k in more <==> k in table || k == x;
    if a.Some? { assert a.value in more; }
  }

  /** A row with the greatest id, linked to the one before, keeps the chain straight. */
  lemma {:induction false} LastRowLinks(table: Table, t: Task, digest: Digest)
    requires Linked(table, digest) && t.Inserting? && t.read.Some? && Saw(t.read.value, table) && t.id !in table
    requires t.read.value.seen == table.Keys && forall k | k in table :: k < t.id
    ensures Linked(table[t.id := RowOf(t, digest)], digest)
  {
    hide Saw;
    var row := RowOf(t, digest);
    var more := table[t.id := row];
    TopIsGreatest(table, t.read.value, t.id);
    forall i | i in more ensures LinkedAt(more, i, digest) {
      GreatestBelow(table, t.id, row, i);
      if i != t.id { assert LinkedAt(table, i, digest); }
    }
  }

  lemma {:induction false} TopIsGreatest(table: Table, sight: Sight, n: nat)
    requires Saw(sight, table) && sight.seen == table.Keys && forall k | k in table :: k < n
    ensures Greatest(table, n) == sight.top && HashAt(table, sight.top) == sight.last
  {
    var g := Greatest(table, n);
    assert g.Some? ==> g.value in sight.seen;
    assert sight.top.Some? ==> sight.top.value in table;
  }

  /** No earlier row carries the hash of a row that comes later. */
  lemma {:induction false} NotBehind(table: Table, x: nat, row: Row, i: nat, digest: Digest)
    requires Rooted(table, digest) && x !in table && DistinctHashes(table[x := row]) && i in table
    ensures table[i].prev != row.hash
  {
    var more := table[x := row];
    assert more[x] == row;
    assert RootedAt(table, i, digest);
    if j :| j in table && table[i].prev == table[j].hash { assert more[j] == table[j]; }
  }

  lemma {:induction false} LinkedEarlier(table: Table, x: nat, row: Row, digest: Digest)
    requires Rooted(table, digest) && x !in table && DistinctHashes(table[x := row]) && Linked(table[x := row], digest)
    ensures Linked(table, digest)
  {
    var more := table[x := row];
    forall i | i in table ensures LinkedAt(table, i, digest) {
      assert LinkedAt(more, i, digest);
      GreatestBelow(table, x, row, i);
      NotBehind(table, x, row, i, digest);
    }
  }

  lemma {:induction false} LeastAbove(table: Table, x: nat, k: nat) returns (n: nat)
    requires k in table && k > x
    ensures n in table && n > x && forall j | j in table && j < n :: j <= x
    decreases k
  {
    if j :| j in table && x < j < k { n := LeastAbove(table, x, j); } else { n := k; }
  }

  /** A row above a new one, with none between, is linked past it. */
  lemma {:induction false} LinkedPast(table: Table, x: nat, row: Row, n: nat, digest: Digest)
    requires Rooted(table, digest) && x !in table && DistinctHashes(table[x := row])
    requires n in table && Greatest(table[x := row], n) == Some(x)
    ensures !Linked(table[x := row], digest)
  {
    hide Rooted, DistinctHashes, Greatest;
    NotBehind(table, x, row, n, digest);
    assert !LinkedAt(table[x := row], n, digest);
  }

  lemma {:induction false} NothingLater(table: Table, x: nat, row: Row, digest: Digest)
    requires Rooted(table, digest) && x !in table && DistinctHashes(table[x := row]) && Linked(table[x := row], digest)
    ensures forall k | k in table :: k < x
  {
    hide Rooted, DistinctHashes, Greatest;
    if k :| k in table && k > x {
      var n := LeastAbove(table, x, k);
      GreatestBelow(table, x, row, n);
      LinkedPast(table, x, row, n, digest);
    }
  }

  lemma {:induction false} NothingBetween(table: Table, t: Task, digest: Digest)
    requires t.Inserting? && t.read.Some? && Saw(t.read.value, table) && SawFirst(t.read.value, table) && t.id !in table
    requires (forall k | k in table :: k < t.id)
    requires DistinctHashes(table[t.id := RowOf(t, digest)]) && Linked(table[t.id := RowOf(t, digest)], digest)
    ensures t.read.value.seen == table.Keys
  {
    var sight, row := t.read.value, RowOf(t, digest);
    var more := table[t.id := row];
    assert LinkedAt(more, t.id, digest);
    GreatestBelow(table, t.id, row, t.id);
    var g := Greatest(table, t.id);
    assert g.Some? ==> more[g.value] == table[g.value];
    assert sight.top.Some? ==> more[sight.top.value] == table[sight.top.value];
    assert g == sight.top;
    assert g.Some? ==> forall y | y in table && y !in sight.seen :: g.value < y;
    assert forall y | y in table :: y in sight.seen;
  }

  /**
   * Whatever clients append, queueing or not: if no row commits after another has landed since its own
   * read, or one with a later id, the chain is straight; and unless hashes collide, only then.
   */
  lemma {:induction false} StraightExactly(acts: seq<Act>, digest: Digest, clients: Clients)
    ensures Undisturbed(acts, digest, clients) ==> Linked(Run(acts, digest, clients).table, digest) && SeenFirst(Run(acts, digest, clients))
    ensures DistinctHashes(Run(acts, digest, clients).table) ==>
      (Linked(Run(acts, digest, clients).table, digest) <==> Undisturbed(acts, digest, clients))
  {
    hide Linked, DistinctHashes, Rooted, Saw, SawFirst, RowOf;
    if acts == [] {
      assert Linked(map[], digest) by { EmptyLinked(digest); }
    } else {
      var before, a := acts[..|acts| - 1], acts[|acts| - 1];
      var s := Run(before, digest, clients);
      StraightExactly(before, digest, clients);
      RunDrawn(before, digest, clients);
      if Undisturbed(acts, digest, clients) { NextSeenFirst(s, a, digest, clients); }
      if a.Commit? && MayCommit(s.tasks, a.index) {
        var t := s.tasks[a.index];
        CommitStraight(s.table, t, digest);
        if Undisturbed(before, digest, clients) { assert SawFirst(t.read.value, s.table); }
      }
    }
  }

  lemma {:induction false} EmptyLinked(digest: Digest)
    ensures Linked(map[], digest)
  {
  }

  lemma {:induction false} CommitStraight(table: Table, t: Task, digest: Digest)
    requires Rooted(table, digest) && t.Inserting? && t.read.Some? && Saw(t.read.value, table) && t.id !in table
    ensures var more := table[t.id := RowOf(t, digest)];
      var calm := t.read.value.seen == table.Keys && !(exists k :: k in table && k > t.id);
      && (Linked(table, digest) && calm ==> Linked(more, digest))
      && (DistinctHashes(more) ==> DistinctHashes(table))
      && (DistinctHashes(more) && Linked(more, digest) ==> Linked(table, digest))
      && (DistinctHashes(more) && Linked(more, digest) && SawFirst(t.read.value, table) ==> calm)
  {
    hide Linked, Rooted, Saw, SawFirst, RowOf;
    var row := RowOf(t, digest);
    var more := table[t.id := row];
    var calm := t.read.value.seen == table.Keys && !(exists k :: k in table && k > t.id);
    assert forall k | k in table :: more[k] == table[k];
    if Linked(table, digest) && calm {
      assert forall k | k in table :: k < t.id;
      LastRowLinks(table, t, digest);
    }
    if DistinctHashes(more) && Linked(more, digest) {
      LinkedEarlier(table, t.id, row, digest);
      NothingLater(table, t.id, row, digest);
      if SawFirst(t.read.value, table) { NothingBetween(table, t, digest); }
    }
  }

  // ---- One client ----

  /** The tasks are over up to some point, waiting after it, and at most the one between is inserting. */
  ghost predicate InTurn(tasks: seq<Task>) {
    forall i, j :: 0 <= i < j < |tasks| && !Settled(tasks[i]) ==> tasks[j].Waiting?
  }

  /** The outstanding INSERT has the latest id, and what it has read is what there is. */
  ghost predicate Latest(s: State) {
    forall i :: 0 <= i < |s.tasks| && s.tasks[i].Inserting? ==>
      && (forall k | k in s.table :: k < s.tasks[i].id)
      && (s.tasks[i].read.Some? ==> s.tasks[i].read.value.seen == s.table.Keys)
  }

  /** The events that landed, in order of append. */
  function LandedOf(tasks: seq<Task>): seq<Event> {
    if tasks == [] then [] else
      var before, t := LandedOf(tasks[..|tasks| - 1]), tasks[|tasks| - 1];
      if t.Landed? then before + [t.event] else before
  }

  /** The events of the rows with ids below `n`, by id. */
  function EventsBelow(table: Table, n: nat): seq<Event> {
    if n == 0 then [] else EventsBelow(table, n - 1) + if n - 1 in table then [table[n - 1].event] else []
  }

  ghost predicate Sound(s: State) {
    && InTurn(s.tasks)
    && Latest(s)
    && EventsBelow(s.table, s.nextId) == LandedOf(s.tasks)
  }

  lemma {:induction false} LandedSame(a: seq<Task>, b: seq<Task>)
    requires |a| == |b| && forall i :: 0 <= i < |a| ==> a[i].event == b[i].event && (a[i].Landed? <==> b[i].Landed?)
    ensures LandedOf(a) == LandedOf(b)
  {
    if a != [] { LandedSame(a[..|a| - 1], b[..|b| - 1]); }
  }

  /** When the task whose turn it is lands, its event becomes the last of the landed ones. */
  lemma {:induction false} LandedNext(tasks: seq<Task>, i: nat)
    requires InTurn(tasks) && i < |tasks| && !Settled(tasks[i])
    ensures LandedOf(tasks[i := Landed(tasks[i].event)]) == LandedOf(tasks) + [tasks[i].event]
  {
    var n := |tasks| - 1;
    var after := tasks[i := Landed(tasks[i].event)];
    if i < n {
      assert tasks[n].Waiting?;
      assert after[..n] == tasks[..n][i := Landed(tasks[i].event)];
      LandedNext(tasks[..n], i);
    } else {
      assert after[..n] == tasks[..n];
    }
  }

  lemma {:induction false} EventsAbove(table: Table, x: nat, row: Row, n: nat)
    requires forall k | k in table :: k < x
    ensures EventsBelow(table[x := row], n) == if x < n then EventsBelow(table, n) + [row.event] else EventsBelow(table, n)
  {
    if n > 0 { EventsAbove(table, x, row, n - 1); }
  }

  lemma {:induction false} NextInTurn(s: State, a: Act, digest: Digest, clients: Clients)
    requires OneClient(clients) && InTurn(s.tasks)
    ensures InTurn(Next(s, a, digest, clients).tasks)
  {
    match a
    case Start(i, _) =>
      if MayStart(s.tasks, i, clients) {
        assert forall k :: 0 <= k < i ==> clients(k) == clients(i) && Settled(s.tasks[k]);
      }
    case _ =>
  }

  lemma {:induction false} OnlyOneInserts(tasks: seq<Task>, i: nat)
    requires InTurn(tasks) && i < |tasks| && tasks[i].Inserting?
    ensures forall j :: 0 <= j < |tasks| && j != i ==> !tasks[j].Inserting?
  {
    assert forall j :: 0 <= j < i ==> Settled(tasks[j]);
  }

  lemma {:induction false} NextLatest(s: State, a: Act, digest: Digest, clients: Clients)
    requires Drawn(s) && InTurn(s.tasks) && Latest(s)
    ensures Latest(Next(s, a, digest, clients))
  {
    hide InTurn, Saw;
    if a.Commit? && MayCommit(s.tasks, a.index) { OnlyOneInserts(s.tasks, a.index); }
  }

  lemma {:induction false} NextLanded(s: State, a: Act, digest: Digest, clients: Clients)
    requires Drawn(s) && Sound(s)
    ensures var t := Next(s, a, digest, clients); EventsBelow(t.table, t.nextId) == LandedOf(t.tasks)
  {
    hide InTurn, LandedOf, EventsBelow, Saw;
    var t := Next(s, a, digest, clients);
    match a
    case Append(e) =>
      assert t.tasks[..|s.tasks|] == s.tasks;
      assert LandedOf(t.tasks) == LandedOf(s.tasks) by { LandedAppend(s.tasks, e); }
    case Commit(i) =>
      if MayCommit(s.tasks, i) {
        LandedNext(s.tasks, i);
        EventsAbove(s.table, s.tasks[i].id, RowOf(s.tasks[i], digest), s.nextId);
      }
    case _ =>
      LandedSame(s.tasks, t.tasks);
      OneMoreId(s.table, s.nextId);
  }

  lemma {:induction false} LandedAppend(tasks: seq<Task>, e: Event)
    ensures LandedOf(tasks + [Waiting(e)]) == LandedOf(tasks)
  {
    assert (tasks + [Waiting(e)])[..|tasks|] == tasks;
  }

  lemma {:induction false} OneMoreId(table: Table, n: nat)
    requires n !in table
    ensures EventsBelow(table, n + 1) == EventsBelow(table, n)
  {
  }

  /**
   * Over every interleaving of one client's appends, reads, commits and failures: INSERTs take turns, each
   * row links to the one before, and the rows by id are the appends that landed, in call order.
   */
  lemma {:induction false} ChainIsSound(acts: seq<Act>, digest: Digest, clients: Clients)
    requires OneClient(clients)
    ensures Sound(Run(acts, digest, clients)) && Undisturbed(acts, digest, clients) && Linked(Run(acts, digest, clients).table, digest)
  {
    hide OneClient, InTurn, Drawn, LandedOf, EventsBelow, Linked;
    StraightExactly(acts, digest, clients);
    if acts == [] {
      assert Sound(EMPTY) by { StartSound(); }
    } else {
      var before, a := acts[..|acts| - 1], acts[|acts| - 1];
      var s := Run(before, digest, clients);
      ChainIsSound(before, digest, clients);
      RunDrawn(before, digest, clients);
      NextInTurn(s, a, digest, clients);
      NextLatest(s, a, digest, clients);
      NextLanded(s, a, digest, clients);
      assert !Overtaken(s, a);
    }
  }

  lemma {:induction false} StartSound()
    ensures Sound(EMPTY)
  {
  }

  /** At most one INSERT is ever outstanding. */
  lemma {:induction false} OneInsertAtATime(acts: seq<Act>, digest: Digest, clients: Clients, i: nat, j: nat)
    requires OneClient(clients)
    requires i < j < |Run(acts, digest, clients).tasks|
    ensures var s := Run(acts, digest, clients); !(s.tasks[i].Inserting? && s.tasks[j].Inserting?)
  {
    hide Run;
    ChainIsSound(acts, digest, clients);
  }

  /** The appended events, in the order of the calls. */
  function Called(acts: seq<Act>): seq<Event> {
    if acts == [] then [] else
      var before, a := Called(acts[..|acts| - 1]), acts[|acts| - 1];
      if a.Append? then before + [a.event] else before
  }

  function TaskEvents(tasks: seq<Task>): (r: seq<Event>)
    ensures |r| == |tasks| && forall i :: 0 <= i < |tasks| ==> r[i] == tasks[i].event
  {
    seq(|tasks|, i requires 0 <= i < |tasks| => tasks[i].event)
  }

  lemma {:induction false} NextTaskEvents(s: State, a: Act, digest: Digest, clients: Clients)
    ensures TaskEvents(Next(s, a, digest, clients).tasks) == if a.Append? then TaskEvents(s.tasks) + [a.event] else TaskEvents(s.tasks)
  {
  }

  /** Every call has its task, in call order. */
  lemma {:induction false} TasksAreCalls(acts: seq<Act>, digest: Digest, clients: Clients)
    ensures TaskEvents(Run(acts, digest, clients).tasks) == Called(acts)
  {
    hide Next, TaskEvents;
    if acts == [] {
      assert TaskEvents([]) == [] by { NoTasks(); }
    } else {
      TasksAreCalls(acts[..|acts| - 1], digest, clients);
      NextTaskEvents(Run(acts[..|acts| - 1], digest, clients), acts[|acts| - 1], digest, clients);
    }
  }

  lemma {:induction false} NoTasks()
    ensures TaskEvents([]) == []
  {
  }

  /** A failure never blocks: of the client of an unsettled append, one not after it is inserting or may start. */
  lemma {:induction false} NeverStuck(acts: seq<Act>, digest: Digest, clients: Clients, i: nat) returns (k: nat)
    requires i < |Run(acts, digest, clients).tasks| && !Settled(Run(acts, digest, clients).tasks[i])
    ensures k <= i && clients(k) == clients(i)
    ensures var tasks := Run(acts, digest, clients).tasks; tasks[k].Inserting? || MayStart(tasks, k, clients)
  {
    hide Run;
    k := FirstUnsettled(Run(acts, digest, clients).tasks, clients, i);
  }

  lemma {:induction false} FirstUnsettled(tasks: seq<Task>, clients: Clients, i: nat) returns (k: nat)
    requires i < |tasks| && !Settled(tasks[i])
    ensures k <= i && clients(k) == clients(i) && (tasks[k].Inserting? || MayStart(tasks, k, clients))
  {
    if j :| 0 <= j < i && clients(j) == clients(i) && !Settled(tasks[j]) { k := FirstUnsettled(tasks, clients, j); } else { k := i; }
  }

  // ---- Two clients can always fork the chain ----

  lemma {:induction false} RunPush(acts: seq<Act>, a: Act, digest: Digest, clients: Clients) returns (more: seq<Act>)
    ensures more == acts + [a] && Run(more, digest, clients) == Next(Run(acts, digest, clients), a, digest, clients)
  {
    more := acts + [a];
    assert more[..|acts|] == acts;
  }

  function AllWaiting(n: nat, e: Event): (tasks: seq<Task>)
    ensures |tasks| == n && forall i :: 0 <= i < n ==> tasks[i] == Waiting(e)
  {
    if n == 0 then [] else AllWaiting(n - 1, e) + [Waiting(e)]
  }

  lemma {:induction false} Appends(n: nat, e: Event, digest: Digest, clients: Clients) returns (acts: seq<Act>)
    ensures Run(acts, digest, clients) == State(AllWaiting(n, e), map[], 1)
  {
    if n == 0 {
      acts := [];
    } else {
      acts := Appends(n - 1, e, digest, clients);
      acts := RunPush(acts, Append(e), digest, clients);
    }
  }

  /**
   * The trigger fills in a missing prev_hash, so when the first append of another client overlaps with
   * the first of all, both rows land on the same predecessor.
   */
  lemma {:induction false} OtherClientForks(i: nat, e: Event, at: int, digest: Digest, clients: Clients) returns (acts: seq<Act>)
    requires clients(i) != clients(0) && forall j: nat :: j < i ==> clients(j) == clients(0)
    ensures var row := Row(e, at, GENESIS, digest(GENESIS, e, at)); Run(acts, digest, clients).table == map[1 := row, 2 := row]
  {
    hide Run;
    acts := Appends(i + 1, e, digest, clients);
    acts := RunPush(acts, Start(0, at), digest, clients);
    acts := RunPush(acts, Start(i, at), digest, clients);
    acts := RunPush(acts, ReadLast(0), digest, clients);
    acts := RunPush(acts, ReadLast(i), digest, clients);
    acts := RunPush(acts, Commit(0), digest, clients);
    acts := RunPush(acts, Commit(i), digest, clients);
  }

  lemma {:induction false} FirstOther(clients: Clients, n: nat) returns (i: nat)
    requires clients(n) != clients(0)
    ensures clients(i) != clients(0) && forall j: nat :: j < i ==> clients(j) == clients(0)
  {
    if j: nat :| j < n && clients(j) != clients(0) { i := FirstOther(clients, j); } else { i := n; }
  }

  /** The queue keeps every run's chain straight exactly when one client makes all appends. */
  lemma {:induction false} AlwaysStraightExactly(e: Event, at: int, digest: Digest, clients: Clients)
    requires digest(GENESIS, e, at) != GENESIS
    ensures OneClient(clients) <==> forall acts: seq<Act> :: Linked(Run(acts, digest, clients).table, digest)
  {
    hide Run, Linked;
    if OneClient(clients) {
      forall acts ensures Linked(Run(acts, digest, clients).table, digest) { ChainIsSound(acts, digest, clients); }
    } else {
      var n: nat :| clients(n) != clients(0);
      var i := FirstOther(clients, n);
      var acts := OtherClientForks(i, e, at, digest, clients);
      var row := Row(e, at, GENESIS, digest(GENESIS, e, at));
      assert !Linked(map[1 := row, 2 := row], digest) by { ForkedTable(row, digest); }
    }
  }

  lemma {:induction false} ForkedTable(row: Row, digest: Digest)
    requires row.prev == GENESIS != row.hash
    ensures !Linked(map[1 := row, 2 := row], digest)
  {
    assert !LinkedAt(map[1 := row, 2 := row], 2, digest);
  }

  /**
   * The queue of each client is not enough: an INSERT that draws its id first but runs its trigger after
   * another client's row has landed links to a row that comes later.
   */
  lemma {:induction false} LaterIdLinksBack(e: Event, f: Event, at: int, digest: Digest, clients: Clients)
    requires clients(0) != clients(1)
    ensures exists acts :: var h := digest(GENESIS, f, at);
      Run(acts, digest, clients).table == map[2 := Row(f, at, GENESIS, h), 1 := Row(e, at, h, digest(h, e, at))]
  {
    hide Run;
    assert Run([], digest, clients) == EMPTY by { NoActs(digest, clients); }
    var acts := RunPush([], Append(e), digest, clients);
    acts := RunPush(acts, Append(f), digest, clients);
    acts := RunPush(acts, Start(0, at), digest, clients);
    acts := RunPush(acts, Start(1, at), digest, clients);
    acts := RunPush(acts, ReadLast(1), digest, clients);
    acts := RunPush(acts, Commit(1), digest, clients);
    acts := RunPush(acts, ReadLast(0), digest, clients);
    acts := RunPush(acts, Commit(0), digest, clients);
  }

  lemma {:induction false} NoActs(digest: Digest, clients: Clients)
    ensures Run([], digest, clients) == EMPTY
  {
  }
}
