/**
 * The offline queue: its operations as functions on an insertion-ordered map, the two classes that
 * implement them (a Map kept in memory, and one stored blob read and rewritten by every call), and
 * the proof that no sequence of calls tells the two apart.
 */
module OfflineQueue {
  import opened Options
  import opened OrderedMap
  import opened Sorting

  datatype Status = Pending | InFlight | Succeeded | FailedPermanent

  /** What the caller supplies besides the key; opaque to the queue. */
  datatype Request = Request(kind: string, payload: string, resource: Option<string>, actor: string, tenant: string)

  datatype QueuedAction = QueuedAction(
    key: string, request: Request, enqueuedAt: int, retryCount: int,
    lastAttemptAt: Option<int>, lastError: Option<string>, status: Status)

  /** Fields a caller of update overwrites; None leaves a field alone. */
  datatype Patch = Patch(
    key: Option<string>, request: Option<Request>, enqueuedAt: Option<int>, retryCount: Option<int>,
    lastAttemptAt: Option<Option<int>>, lastError: Option<Option<string>>, status: Option<Status>)

  const NoChange := Patch(None, None, None, None, None, None, None)

  datatype Counts = Counts(pending: nat, inFlight: nat, succeeded: nat, failedPermanent: nat)

  type Store = OMap<string, QueuedAction>

  // ---- The operations, on the map ----

  function Or<T>(o: Option<T>, d: T): T {
    if o.Some? then o.value else d
  }

  function Apply(p: Patch, a: QueuedAction): QueuedAction {
    QueuedAction(Or(p.key, a.key), Or(p.request, a.request), Or(p.enqueuedAt, a.enqueuedAt), Or(p.retryCount, a.retryCount),
                 Or(p.lastAttemptAt, a.lastAttemptAt), Or(p.lastError, a.lastError), Or(p.status, a.status))
  }

  function Fresh(key: string, request: Request, now: int): QueuedAction {
    QueuedAction(key, request, now, 0, None, None, Pending)
  }

  /** A key that is already queued keeps its entry. */
  function Enqueue(s: Store, key: string, request: Request, now: int): (r: (Store, QueuedAction)) {
    match Get(s, key)
    case Some(a) => (s, a)
    case None => (Set(s, key, Fresh(key, request, now)), Fresh(key, request, now))
  }

  predicate FifoLe(a: QueuedAction, b: QueuedAction) {
    a.enqueuedAt <= b.enqueuedAt
  }

  function WithStatus(actions: seq<QueuedAction>, status: Option<Status>): seq<QueuedAction> {
    if actions == [] then [] else
      var rest := WithStatus(actions[1..], status);
      if status == None || actions[0].status == status.value then [actions[0]] + rest else rest
  }

  function List(s: Store, status: Option<Status>): seq<QueuedAction> {
    Sort(FifoLe, WithStatus(Values(s), status))
  }

  function Update(s: Store, key: string, p: Patch): (r: (Store, Option<QueuedAction>)) {
    match Get(s, key)
    case None => (s, None)
    case Some(a) => (Set(s, key, Apply(p, a)), Some(Apply(p, a)))
  }

  function Remove(s: Store, key: string): (r: (Store, bool)) {
    (Delete(s, key), Get(s, key).Some?)
  }

  function CountOf(s: Store, status: Status): nat {
    |WithStatus(Values(s), Some(status))|
  }

  function Count(s: Store): Counts {
    Counts(CountOf(s, Pending), CountOf(s, InFlight), CountOf(s, Succeeded), CountOf(s, FailedPermanent))
  }

  // ---- The stored blob ----

  /** What the storage cell holds: nothing, the serialised list, or text that does not parse as one. */
  datatype Blob = Absent | Text(actions: seq<QueuedAction>) | Garbage

  function FromList(actions: seq<QueuedAction>): Store {
    if actions == [] then [] else
      var last := actions[|actions| - 1];
      Set(FromList(actions[..|actions| - 1]), last.key, last)
  }

  function Contents(b: Blob): Store {
    if b.Text? then FromList(b.actions) else []
  }

  /** Reading resets a corrupted cell. */
  function AfterRead(b: Blob): Blob {
    if b.Garbage? then Absent else b
  }

  // ---- One call, on either representation ----

  datatype Call =
    | DoEnqueue(key: string, request: Request, now: int)
    | DoList(filter: Option<Status>)
    | DoUpdate(key: string, patch: Patch)
    | DoRemove(key: string)
    | DoCount
    | DoClear

  datatype Reply =
    | Queued(action: QueuedAction)
    | Listed(actions: seq<QueuedAction>)
    | Updated(result: Option<QueuedAction>)
    | Removed(had: bool)
    | Counted(counts: Counts)
    | Cleared

  function MemoryStep(s: Store, c: Call): (Store, Reply) {
    match c
    case DoEnqueue(key, request, now) => var r := Enqueue(s, key, request, now); (r.0, Queued(r.1))
    case DoList(filter) => (s, Listed(List(s, filter)))
    case DoUpdate(key, patch) => var r := Update(s, key, patch); (r.0, Updated(r.1))
    case DoRemove(key) => var r := Remove(s, key); (r.0, Removed(r.1))
    case DoCount => (s, Counted(Count(s)))
    case DoClear => ([], Cleared)
  }

  /** The stored queue rewrites its blob only for these calls. */
  predicate Writes(s: Store, c: Call) {
    match c
    case DoEnqueue(key, _, _) => Get(s, key).None?
    case DoUpdate(key, _) => Get(s, key).Some?
    case DoRemove(key) => Get(s, key).Some?
    case _ => false
  }

  function StoredStep(b: Blob, c: Call): (Blob, Reply) {
    var s := Contents(b);
    var r := MemoryStep(s, c);
    (if c.DoClear? then Absent else if Writes(s, c) then Text(Values(r.0)) else AfterRead(b), r.1)
  }

  // ---- The in-memory implementation ----

  class InMemoryOfflineQueue {
    var items: Store

    constructor ()
      ensures items == []
    {
      items := [];
    }

    method EnqueueAction(key: string, request: Request, now: int) returns (r: QueuedAction)
      modifies this
      ensures (items, r) == Enqueue(old(items), key, request, now)
    {
      var existing := Get(items, key);
      if existing.Some? { return existing.value; }
      r := QueuedAction(key, request, now, 0, None, None, Pending);
      items := Set(items, key, r);
    }

    /** Every stored action of the status, as often as stored, by enqueue time; equal times as they were stored. */
    method ListActions(status: Option<Status>) returns (r: seq<QueuedAction>)
      ensures forall i, j :: 0 <= i < j < |r| ==> r[i].enqueuedAt <= r[j].enqueuedAt
      ensures forall a: QueuedAction :: multiset(r)[a] == if status == None || a.status == status.value then multiset(Values(items))[a] else 0
      ensures forall a: QueuedAction :: TiedWith(FifoLe, a, r) == TiedWith(FifoLe, a, WithStatus(Values(items), status))
    {
      hide Sort, WithStatus, TiedWith;
      var kept := WithStatus(Values(items), status);
      r := Sort(FifoLe, kept);
      SortArranges(FifoLe, kept);
      SortPermutes(FifoLe, kept);
      FifoMeans(r);
      forall a: QueuedAction ensures multiset(kept)[a] == if status == None || a.status == status.value then multiset(Values(items))[a] else 0 {
        WithStatusCount(Values(items), status, a);
      }
    }

    method UpdateAction(key: string, p: Patch) returns (r: Option<QueuedAction>)
      modifies this
      ensures (items, r) == Update(old(items), key, p)
    {
      var existing := Get(items, key);
      if existing.None? { return None; }
      var updated := Apply(p, existing.value);
      items := Set(items, key, updated);
      return Some(updated);
    }

    method RemoveAction(key: string) returns (r: bool)
      modifies this
      ensures (items, r) == Remove(old(items), key)
    {
      r := Get(items, key).Some?;
      items := Delete(items, key);
    }

    method CountActions() returns (r: Counts)
      ensures r == Count(items)
    {
      r := TallyStatuses(Values(items));
    }

    method Clear()
      modifies this
      ensures items == []
    {
      items := [];
    }
  }

  /** A new key is appended, pending and untried; a known one changes nothing. Every other key keeps what it has. */
  lemma {:induction false} EnqueueExactly(s: Store, key: string, request: Request, now: int, other: string)
    ensures var r := Enqueue(s, key, request, now);
      && (Get(s, key).Some? ==> r == (s, Get(s, key).value))
      && (Get(s, key).None? ==> r.1 == QueuedAction(key, request, now, 0, None, None, Pending) && r.0 == s + [Entry(key, r.1)])
      && Get(r.0, other) == if other == key then Some(r.1) else Get(s, other)
  {
    hide Get, Set;
    if Get(s, key).None? {
      SetNew(s, key, Fresh(key, request, now));
      SetGet(s, key, Fresh(key, request, now), other);
    }
  }

  /** What a patch leaves of an action: the fields it names, and the others as they were. */
  ghost predicate Patched(p: Patch, a: QueuedAction, r: QueuedAction) {
    && (p.key == None || p.key == Some(r.key)) && (p.key == None ==> r.key == a.key)
    && (p.request == None || p.request == Some(r.request)) && (p.request == None ==> r.request == a.request)
    && (p.enqueuedAt == None || p.enqueuedAt == Some(r.enqueuedAt)) && (p.enqueuedAt == None ==> r.enqueuedAt == a.enqueuedAt)
    && (p.retryCount == None || p.retryCount == Some(r.retryCount)) && (p.retryCount == None ==> r.retryCount == a.retryCount)
    && (p.lastAttemptAt == None || p.lastAttemptAt == Some(r.lastAttemptAt)) && (p.lastAttemptAt == None ==> r.lastAttemptAt == a.lastAttemptAt)
    && (p.lastError == None || p.lastError == Some(r.lastError)) && (p.lastError == None ==> r.lastError == a.lastError)
    && (p.status == None || p.status == Some(r.status)) && (p.status == None ==> r.status == a.status)
  }

  /** An update changes the one entry, in its place, in the fields it names; of an unknown key it changes nothing. */
  lemma {:induction false} UpdateExactly(s: Store, key: string, p: Patch)
    ensures var r := Update(s, key, p);
      && (r.1.None? <==> Get(s, key).None?)
      && (r.1.None? ==> r.0 == s)
      && (r.1.Some? ==> Patched(p, Get(s, key).value, r.1.value))
      && (r.1.Some? ==> exists i :: 0 <= i < |s| && s[i] == Entry(key, Get(s, key).value) && r.0 == s[i := Entry(key, r.1.value)])
  {
    hide Get, Set;
    if Get(s, key).Some? { SetOld(s, key, Apply(p, Get(s, key).value)); }
  }

  /** A removal takes out the one entry and keeps the others in order; of an unknown key it changes nothing. */
  lemma {:induction false} RemoveExactly(s: Store, key: string)
    ensures var r := Remove(s, key);
      && (r.1 <==> Get(s, key).Some?)
      && (!r.1 ==> r.0 == s)
      && (r.1 ==> exists i :: 0 <= i < |s| && s[i] == Entry(key, Get(s, key).value) && r.0 == s[..i] + s[i + 1..])
  {
    hide Get, Delete;
    if Get(s, key).Some? { DeleteOld(s, key); } else { DeleteAbsent(s, key); }
  }

  /** A call that finds nothing to change, and every reading one, leaves the stored text as it is. */
  lemma {:induction false} QuietCallsWriteNothing(actions: seq<QueuedAction>, c: Call)
    requires var s := FromList(actions);
      match c
      case DoEnqueue(key, _, _) => Get(s, key).Some?
      case DoUpdate(key, _) => Get(s, key).None?
      case DoRemove(key) => Get(s, key).None?
      case DoClear => false
      case _ => true
    ensures StoredStep(Text(actions), c).0 == Text(actions)
  {
    hide Get, FromList;
  }

  lemma {:induction false} FifoMeans(r: seq<QueuedAction>)
    ensures SortedBy(FifoLe, r) <==> forall i, j :: 0 <= i < j < |r| ==> r[i].enqueuedAt <= r[j].enqueuedAt
  {
    if SortedBy(FifoLe, r) {
      forall i, j | 0 <= i < j < |r| ensures r[i].enqueuedAt <= r[j].enqueuedAt { assert FifoLe(r[i], r[j]); }
    }
  }

  lemma {:induction false} WithStatusCount(actions: seq<QueuedAction>, status: Option<Status>, a: QueuedAction)
    ensures multiset(WithStatus(actions, status))[a] == if status == None || a.status == status.value then multiset(actions)[a] else 0
  {
    if actions != [] {
      WithStatusCount(actions[1..], status, a);
      assert actions == [actions[0]] + actions[1..];
    }
  }

  /** What a listing promises leaves one list open: the sorted selection. */
  lemma {:induction false} ListingDetermined(s: Store, status: Option<Status>, r: seq<QueuedAction>)
    requires forall i, j :: 0 <= i < j < |r| ==> r[i].enqueuedAt <= r[j].enqueuedAt
    requires forall a: QueuedAction :: TiedWith(FifoLe, a, r) == TiedWith(FifoLe, a, WithStatus(Values(s), status))
    ensures r == List(s, status)
  {
    hide Sort, WithStatus, TiedWith;
    FifoMeans(r);
    ArrangedIsSorted(FifoLe, r, WithStatus(Values(s), status));
  }

  method TallyStatuses(actions: seq<QueuedAction>) returns (r: Counts)
    ensures r.pending == |WithStatus(actions, Some(Pending))| && r.inFlight == |WithStatus(actions, Some(InFlight))|
    ensures r.succeeded == |WithStatus(actions, Some(Succeeded))| && r.failedPermanent == |WithStatus(actions, Some(FailedPermanent))|
  {
    r := Counts(0, 0, 0, 0);
    for i := |actions| downto 0
      invariant r.pending == |WithStatus(actions[i..], Some(Pending))| && r.inFlight == |WithStatus(actions[i..], Some(InFlight))|
      invariant r.succeeded == |WithStatus(actions[i..], Some(Succeeded))| && r.failedPermanent == |WithStatus(actions[i..], Some(FailedPermanent))|
    {
      assert actions[i..][1..] == actions[i + 1..];
      match actions[i].status
      case Pending => r := r.(pending := r.pending + 1);
      case InFlight => r := r.(inFlight := r.inFlight + 1);
      case Succeeded => r := r.(succeeded := r.succeeded + 1);
      case FailedPermanent => r := r.(failedPermanent := r.failedPermanent + 1);
    }
    assert actions[0..] == actions;
  }

  // ---- The stored implementation ----

  class AsyncStorageOfflineQueue {
    var blob: Blob

    constructor ()
      ensures blob == Absent
    {
      blob := Absent;
    }

    method ReadAll() returns (items: Store)
      modifies this
      ensures items == Contents(old(blob)) && blob == if old(blob).Garbage? then Absent else old(blob)
    {
      items := [];
      match blob
      case Absent =>
      case Garbage => blob := Absent;
      case Text(actions) =>
        for i := 0 to |actions|
          invariant blob == old(blob) && items == FromList(actions[..i])
        {
          assert actions[..i + 1][..i] == actions[..i];
          items := Set(items, actions[i].key, actions[i]);
        }
        assert actions[..|actions|] == actions;
    }

    method WriteAll(items: Store)
      modifies this
      ensures blob == Text(Values(items))
    {
      blob := Text(Values(items));
    }

    method EnqueueAction(key: string, request: Request, now: int) returns (r: QueuedAction)
      modifies this
      ensures (blob, Queued(r)) == StoredStep(old(blob), DoEnqueue(key, request, now))
    {
      var items := ReadAll();
      var existing := Get(items, key);
      if existing.Some? { return existing.value; }
      r := QueuedAction(key, request, now, 0, None, None, Pending);
      WriteAll(Set(items, key, r));
    }

    method ListActions(status: Option<Status>) returns (r: seq<QueuedAction>)
      modifies this
      ensures (blob, Listed(r)) == StoredStep(old(blob), DoList(status))
    {
      var items := ReadAll();
      r := Sort(FifoLe, WithStatus(Values(items), status));
    }

    method UpdateAction(key: string, p: Patch) returns (r: Option<QueuedAction>)
      modifies this
      ensures (blob, Updated(r)) == StoredStep(old(blob), DoUpdate(key, p))
    {
      var items := ReadAll();
      var existing := Get(items, key);
      if existing.None? { return None; }
      var updated := Apply(p, existing.value);
      WriteAll(Set(items, key, updated));
      return Some(updated);
    }

    method RemoveAction(key: string) returns (r: bool)
      modifies this
      ensures (blob, Removed(r)) == StoredStep(old(blob), DoRemove(key))
    {
      var items := ReadAll();
      r := Get(items, key).Some?;
      if r { WriteAll(Delete(items, key)); }
    }

    method CountActions() returns (r: Counts)
      modifies this
      ensures (blob, Counted(r)) == StoredStep(old(blob), DoCount)
    {
      var items := ReadAll();
      r := TallyStatuses(Values(items));
    }

    method Clear()
      modifies this
      ensures blob == Absent
    {
      blob := Absent;
    }
  }

  // ---- The two representations answer alike ----

  /** Every entry sits under its own key. */
  ghost predicate Coherent(s: Store) {
    UniqueKeys(s) && forall e :: e in s ==> e.key == e.val.key
  }

  ghost predicate Agree(s: Store, b: Blob) {
    Coherent(s) && Contents(b) == s
  }

  /** Writing a coherent map as a list and reading it back gives the same map, order included. */
  lemma {:induction false} ListRoundTrip(s: Store)
    requires Coherent(s)
    ensures FromList(Values(s)) == s
  {
    if s != [] {
      var n := |s| - 1;
      var before, last := s[..n], s[n];
      assert s == before + [last];
      assert Coherent(before) by { assert forall e | e in before :: e in s; }
      assert Get(before, last.key).None? && last == Entry(last.val.key, last.val) by { assert last in s; }
      hide Coherent, Get;
      ListRoundTrip(before);
      assert Values(s)[..n] == Values(before) && Values(s)[n] == last.val;
      SetNew(before, last.key, last.val);
    }
  }

  /** The call does not move an action to another key. */
  predicate KeepsKey(c: Call) {
    c.DoUpdate? && c.patch.key.Some? ==> c.patch.key.value == c.key
  }

  lemma {:induction false} StepStaysCoherent(s: Store, c: Call)
    requires Coherent(s) && KeepsKey(c)
    ensures Coherent(MemoryStep(s, c).0)
  {
    hide Set, Delete, Sort;
    match c
    case DoEnqueue(key, request, now) =>
      SetKeys(s, key, Fresh(key, request, now));
    case DoUpdate(key, patch) =>
      if Get(s, key).Some? {
        GetIn(s, key);
        SetKeys(s, key, Apply(patch, Get(s, key).value));
      }
    case DoRemove(key) => DeleteKeys(s, key);
    case _ =>
  }

  lemma {:induction false} StepAgrees(s: Store, b: Blob, c: Call)
    requires Agree(s, b) && KeepsKey(c)
    ensures MemoryStep(s, c).1 == StoredStep(b, c).1
    ensures Agree(MemoryStep(s, c).0, StoredStep(b, c).0)
  {
    hide Set, Coherent;
    StepStaysCoherent(s, c);
    ListRoundTrip(MemoryStep(s, c).0);
    if c.DoRemove? && Get(s, c.key).None? { DeleteAbsent(s, c.key); }
  }

  lemma {:induction false} DeleteAbsent(s: Store, key: string)
    requires Get(s, key).None?
    ensures Delete(s, key) == s
  {
    if s != [] { DeleteAbsent(s[1..], key); }
  }

  function MemoryReplies(s: Store, calls: seq<Call>): (r: seq<Reply>)
    ensures |r| == |calls|
    decreases |calls|
  {
    if calls == [] then [] else
      var step := MemoryStep(s, calls[0]);
      [step.1] + MemoryReplies(step.0, calls[1..])
  }

  function StoredReplies(b: Blob, calls: seq<Call>): (r: seq<Reply>)
    ensures |r| == |calls|
    decreases |calls|
  {
    if calls == [] then [] else
      var step := StoredStep(b, calls[0]);
      [step.1] + StoredReplies(step.0, calls[1..])
  }

  /** No sequence of calls that keeps keys in place tells the stored queue from the in-memory one. */
  lemma {:induction false} StorageRefines(s: Store, b: Blob, calls: seq<Call>)
    requires Agree(s, b) && forall c :: c in calls ==> KeepsKey(c)
    ensures MemoryReplies(s, calls) == StoredReplies(b, calls)
    decreases |calls|
  {
    hide MemoryStep, StoredStep;
    if calls != [] {
      StepAgrees(s, b, calls[0]);
      StorageRefines(MemoryStep(s, calls[0]).0, StoredStep(b, calls[0]).0, calls[1..]);
    }
  }

  /** A patch that moves a queued action to another key is told apart by the next update of the old key. */
  lemma {:induction false} RekeyingIsSeen(s: Store, b: Blob, key: string, p: Patch)
    requires Agree(s, b) && Get(s, key).Some? && p.key.Some? && p.key.value != key
    ensures MemoryReplies(s, [DoUpdate(key, p), DoUpdate(key, NoChange)]) != StoredReplies(b, [DoUpdate(key, p), DoUpdate(key, NoChange)])
  {
    hide Set, FromList;
    var a := Apply(p, Get(s, key).value);
    var calls := [DoUpdate(key, p), DoUpdate(key, NoChange)];
    var s1, b1 := Set(s, key, a), StoredStep(b, calls[0]).0;
    SetGet(s, key, a, key);
    assert b1 == Text(Values(s1));
    MovedAway(s, key, a);
    assert calls[1..] == [DoUpdate(key, NoChange)] && calls[1..][1..] == [];
    assert Get(FromList(Values(s1)), key).None?;
    var r0, r1 := MemoryReplies(s, calls), StoredReplies(b, calls);
    assert r0[1] == MemoryReplies(s1, calls[1..])[0] && r1[1] == StoredReplies(b1, calls[1..])[0];
    assert MemoryStep(s1, calls[1]).1.result.Some? && StoredStep(b1, calls[1]).1.result.None?;
  }

  lemma {:induction false} MovedAway(s: Store, key: string, a: QueuedAction)
    requires Coherent(s) && a.key != key && Get(s, key).Some?
    ensures Get(FromList(Values(Set(s, key, a))), key).None?
  {
    hide Set, FromList;
    SetOld(s, key, a);
    var i :| 0 <= i < |s| && s[i] == Entry(key, Get(s, key).value) && Set(s, key, a) == s[i := Entry(key, a)];
    var vs := Values(Set(s, key, a));
    forall j | 0 <= j < |vs| ensures vs[j].key != key {
      assert s[j] in s;
    }
    NotInList(vs, key);
  }

  lemma {:induction false} NotInList(actions: seq<QueuedAction>, key: string)
    requires forall j :: 0 <= j < |actions| ==> actions[j].key != key
    ensures Get(FromList(actions), key).None?
  {
    hide Set;
    if actions != [] {
      var last, before := actions[|actions| - 1], actions[..|actions| - 1];
      NotInList(before, key);
      SetGet(FromList(before), last.key, last, key);
    }
  }
}
