/**
 * The user audit history: one record sequence kept under four indexes, listed with filters, newest
 * first, page by page.
 */
module AuditHistory {
  import opened Options
  import opened Sorting

  datatype EventType =
    | UserCreated | UserUpdated | PasswordReset | RoleChanged | AccessChanged | StatusChanged | ApprovalRequested
    | ApprovalDecided | SessionTerminated | ProfileUpdated | LifecycleBulkUpdate

  /** A JSON value up to the comparison the diff makes: null, a primitive, or an object's serialised text. */
  datatype Value = Null | Primitive(text: string) | Composite(json: string)

  type Snapshot = map<string, Value>

  /** Ids embed the store's own sequence number. */
  datatype AuditId = AuditId(number: nat, time: int)

  datatype Entry = Entry(
    id: AuditId, userId: string, tenantId: string, eventType: EventType, before: Option<Snapshot>, after: Option<Snapshot>,
    actor: string, occurredAt: int, comments: Option<string>, correlationId: Option<string>, ipAddress: Option<string>)

  /** What a caller passes to record; an event type outside the closed list is None. */
  datatype Input = Input(
    userId: string, tenantId: Option<string>, eventType: Option<EventType>, before: Option<Snapshot>, after: Option<Snapshot>,
    actor: string, comments: Option<string>, correlationId: Option<string>, ipAddress: Option<string>)

  const AUDIT_PAGE_SIZE_DEFAULT := 50
  const AUDIT_PAGE_SIZE_MAX := 500

  // ---- Recording ----

  /** ECMAScript's white space and line terminators. */
  predicate IsSpace(c: char) {
    || '\t' <= c <= '\r' || c == ' ' || c == '\U{00A0}' || c == '\U{1680}' || '\U{2000}' <= c <= '\U{200A}'
    || c == '\U{2028}' || c == '\U{2029}' || c == '\U{202F}' || c == '\U{205F}' || c == '\U{3000}' || c == '\U{FEFF}'
  }

  function TrimLeft(s: string): string {
    if s != "" && IsSpace(s[0]) then TrimLeft(s[1..]) else s
  }

  function TrimRight(s: string): string {
    if s != "" && IsSpace(s[|s| - 1]) then TrimRight(s[..|s| - 1]) else s
  }

  function Trim(s: string): string {
    TrimRight(TrimLeft(s))
  }

  ghost predicate AllSpace(s: string) {
    forall c :: c in s ==> IsSpace(c)
  }

  /** `t` is `s` without the white space around it. */
  ghost predicate IsTrimmed(t: string, s: string) {
    t != "" && !IsSpace(t[0]) && !IsSpace(t[|t| - 1]) && exists a, b :: AllSpace(a) && AllSpace(b) && s == a + t + b
  }

  lemma {:induction false} TrimLeftExactly(s: string) returns (a: string)
    ensures AllSpace(a) && s == a + TrimLeft(s) && (TrimLeft(s) != "" ==> !IsSpace(TrimLeft(s)[0]))
  {
    hide IsSpace;
    a := "";
    if s != "" && IsSpace(s[0]) {
      var more := TrimLeftExactly(s[1..]);
      a := [s[0]] + more;
    }
  }

  lemma {:induction false} TrimRightExactly(s: string) returns (b: string)
    ensures AllSpace(b) && s == TrimRight(s) + b && (TrimRight(s) != "" ==> !IsSpace(TrimRight(s)[|TrimRight(s)| - 1]))
    ensures TrimRight(s) <= s
  {
    hide IsSpace;
    b := "";
    if s != "" && IsSpace(s[|s| - 1]) {
      var more := TrimRightExactly(s[..|s| - 1]);
      b := more + [s[|s| - 1]];
    }
  }

  /** Trimming takes away the white space around a text, and leaves nothing of white space alone. */
  lemma {:induction false} TrimExactly(s: string)
    ensures Trim(s) == "" <==> AllSpace(s)
    ensures Trim(s) != "" ==> IsTrimmed(Trim(s), s)
  {
    hide IsSpace, TrimLeft, TrimRight;
    var a := TrimLeftExactly(s);
    var b := TrimRightExactly(TrimLeft(s));
    assert s == a + Trim(s) + b;
    if Trim(s) != "" {
      assert Trim(s)[0] == TrimLeft(s)[0];
      assert Trim(s)[0] in s;
    }
  }

  /** What is recorded of an input: its fields as given, a default tenant, and the comment without white space around it, if any is left. */
  ghost predicate Records(e: Entry, i: Input, number: nat, now: int) {
    && e.id == AuditId(number, now) && e.occurredAt == now
    && e.userId == i.userId && e.actor == i.actor && i.eventType == Some(e.eventType)
    && (i.tenantId == Some(e.tenantId) || (i.tenantId == None && e.tenantId == "BANK_DEMO"))
    && e.before == i.before && e.after == i.after && e.correlationId == i.correlationId && e.ipAddress == i.ipAddress
    && (e.comments.None? <==> i.comments.None? || AllSpace(i.comments.value))
    && (e.comments.Some? ==> i.comments.Some? && IsTrimmed(e.comments.value, i.comments.value))
  }

  lemma {:induction false} EntryRecords(i: Input, number: nat, now: int)
    requires Accepted(i)
    ensures Records(EntryOf(i, number, now), i, number, now)
  {
    hide Trim, IsTrimmed, AllSpace;
    if i.comments.Some? { TrimExactly(i.comments.value); }
  }

  predicate Accepted(i: Input) {
    && Trim(i.userId) != "" && i.eventType.Some? && Trim(i.actor) != ""
    && (i.comments.Some? ==> |i.comments.value| <= 4000)
  }

  function EntryOf(i: Input, number: nat, now: int): Entry
    requires Accepted(i)
  {
    Entry(AuditId(number, now), i.userId, if i.tenantId.Some? then i.tenantId.value else "BANK_DEMO", i.eventType.value,
          i.before, i.after, i.actor, now,
          if i.comments.Some? && Trim(i.comments.value) != "" then Some(Trim(i.comments.value)) else None,
          i.correlationId, i.ipAddress)
  }

  // ---- Filtering and paging ----

  datatype Filter = Filter(
    eventType: Option<EventType>, actor: Option<string>, since: Option<int>, until: Option<int>, page: Option<int>, pageSize: Option<int>)

  datatype Page = Page(items: seq<Entry>, total: nat, page: nat, pageSize: nat)

  /** An empty actor is no filter. */
  predicate Matches(f: Filter, e: Entry) {
    && (f.eventType.Some? ==> e.eventType == f.eventType.value)
    && (f.actor.Some? && f.actor.value != "" ==> e.actor == f.actor.value)
    && (f.since.Some? ==> e.occurredAt >= f.since.value)
    && (f.until.Some? ==> e.occurredAt <= f.until.value)
  }

  /** A way of choosing entries. */
  datatype Choice = OfUser(user: string) | OfTenant(tenant: string) | OfCorrelation(correlation: string) | Matching(filter: Filter)

  predicate Chosen(c: Choice, e: Entry) {
    match c
    case OfUser(u) => e.userId == u
    case OfTenant(t) => e.tenantId == t
    case OfCorrelation(id) => id != "" && e.correlationId == Some(id)
    case Matching(f) => Matches(f, e)
  }

  function Rows(log: seq<Entry>, c: Choice): seq<Entry> {
    if log == [] then [] else
      var before, e := Rows(log[..|log| - 1], c), log[|log| - 1];
      if Chosen(c, e) then before + [e] else before
  }

  predicate NewestFirst(a: Entry, b: Entry) {
    a.occurredAt >= b.occurredAt
  }

  predicate OldestFirst(a: Entry, b: Entry) {
    a.occurredAt <= b.occurredAt
  }

  function Listing(rows: seq<Entry>, f: Filter): seq<Entry> {
    Sort(NewestFirst, Rows(rows, Matching(f)))
  }

  function PageNumber(f: Filter): (n: nat)
    ensures n >= 1
  {
    if f.page.Some? && f.page.value > 1 then f.page.value else 1
  }

  function PageSize(f: Filter): (n: nat)
    ensures 1 <= n <= AUDIT_PAGE_SIZE_MAX
  {
    var asked := if f.pageSize.Some? then f.pageSize.value else AUDIT_PAGE_SIZE_DEFAULT;
    if asked < 1 then 1 else if asked > AUDIT_PAGE_SIZE_MAX then AUDIT_PAGE_SIZE_MAX else asked
  }

  function Slice(s: seq<Entry>, start: nat, count: nat): seq<Entry> {
    if start >= |s| then [] else Capped(s[start..], count)
  }

  /** Where a page starts. */
  function Offset(page: nat, size: nat): nat
    requires page > 0
  {
    (page - 1) * size
  }

  function PageOf(rows: seq<Entry>, f: Filter): Page {
    var sorted := Listing(rows, f);
    Page(Slice(sorted, Offset(PageNumber(f), PageSize(f)), PageSize(f)), |sorted|, PageNumber(f), PageSize(f))
  }

  // ---- The store ----

  function ListAt<K>(m: map<K, seq<Entry>>, k: K): seq<Entry> {
    if k in m then m[k] else []
  }

  function Pushed(m: map<string, seq<Entry>>, k: string, e: Entry): map<string, seq<Entry>> {
    m[k := ListAt(m, k) + [e]]
  }

  ghost predicate ByUser(m: map<string, seq<Entry>>, log: seq<Entry>) {
    forall u :: ListAt(m, u) == Rows(log, OfUser(u))
  }

  ghost predicate ByTenant(m: map<string, seq<Entry>>, log: seq<Entry>) {
    forall t :: ListAt(m, t) == Rows(log, OfTenant(t))
  }

  ghost predicate ByCorrelation(m: map<string, seq<Entry>>, log: seq<Entry>) {
    forall id :: ListAt(m, id) == Rows(log, OfCorrelation(id))
  }

  ghost predicate ById(m: map<AuditId, Entry>, log: seq<Entry>) {
    && (forall i :: 0 <= i < |log| ==> log[i].id.number == i + 1)
    && (forall id :: id in m ==> m[id] in log && m[id].id == id)
    && (forall e :: e in log ==> e.id in m && m[e.id] == e)
  }

  lemma {:induction false} PushUser(m: map<string, seq<Entry>>, log: seq<Entry>, e: Entry)
    requires ByUser(m, log)
    ensures ByUser(Pushed(m, e.userId, e), log + [e])
  {
    hide Rows;
    forall u { RowsPush(log, e, OfUser(u)); }
  }

  lemma {:induction false} PushTenant(m: map<string, seq<Entry>>, log: seq<Entry>, e: Entry)
    requires ByTenant(m, log)
    ensures ByTenant(Pushed(m, e.tenantId, e), log + [e])
  {
    hide Rows;
    forall t { RowsPush(log, e, OfTenant(t)); }
  }

  lemma {:induction false} PushCorrelation(m: map<string, seq<Entry>>, log: seq<Entry>, e: Entry)
    requires ByCorrelation(m, log)
    ensures ByCorrelation(if e.correlationId.Some? && e.correlationId.value != "" then Pushed(m, e.correlationId.value, e) else m, log + [e])
  {
    hide Rows;
    forall id { RowsPush(log, e, OfCorrelation(id)); }
  }

  /** Sequence numbers never repeat, so a new entry takes no other entry's id. */
  lemma {:induction false} PushId(m: map<AuditId, Entry>, log: seq<Entry>, e: Entry)
    requires ById(m, log) && e.id.number == |log| + 1
    ensures ById(m[e.id := e], log + [e])
  {
    assert forall x :: x in log ==> x.id.number <= |log|;
    assert forall x :: x in log + [e] <==> x in log || x == e;
  }

  datatype Recorded = Ok(entry: Entry) | InvalidInput

  class InMemoryUserAuditStore {
    var byUser: map<string, seq<Entry>>
    var byTenant: map<string, seq<Entry>>
    var byCorrelation: map<string, seq<Entry>>
    var byId: map<AuditId, Entry>
    var number: nat
    /** Every entry recorded, in order. */
    ghost var log: seq<Entry>

    /** Each index is the matching part of the record sequence, in order. */
    ghost predicate Valid()
      reads this
    {
      && number == |log|
      && ByUser(byUser, log) && ByTenant(byTenant, log) && ByCorrelation(byCorrelation, log) && ById(byId, log)
    }

    constructor ()
      ensures Valid() && log == []
    {
      byUser, byTenant, byCorrelation, byId, number := map[], map[], map[], map[], 0;
      log := [];
    }

    method Record(i: Input, now: int) returns (r: Recorded)
      requires Valid()
      modifies this
      ensures Valid()
      ensures r.InvalidInput? <==>
        AllSpace(i.userId) || i.eventType.None? || AllSpace(i.actor) || (i.comments.Some? && |i.comments.value| > 4000)
      ensures r.Ok? ==> Records(r.entry, i, |old(log)| + 1, now)
      ensures log == old(log) + if r.Ok? then [r.entry] else []
    {
      hide Trim, AllSpace, IsTrimmed;
      TrimExactly(i.userId);
      TrimExactly(i.actor);
      if Trim(i.userId) == "" { return InvalidInput; }
      if i.eventType.None? { return InvalidInput; }
      if Trim(i.actor) == "" { return InvalidInput; }
      if i.comments.Some? && |i.comments.value| > 4000 { return InvalidInput; }
      var e := EntryOf(i, number + 1, now);
      EntryRecords(i, number + 1, now);
      Append(e);
      return Ok(e);
    }

    method Append(e: Entry)
      requires Valid() && e.id.number == number + 1
      modifies this
      ensures Valid() && log == old(log) + [e]
    {
      hide ByUser, ByTenant, ByCorrelation, ById;
      PushUser(byUser, log, e);
      PushTenant(byTenant, log, e);
      PushCorrelation(byCorrelation, log, e);
      PushId(byId, log, e);
      number := number + 1;
      byId := byId[e.id := e];
      byUser := Pushed(byUser, e.userId, e);
      byTenant := Pushed(byTenant, e.tenantId, e);
      if e.correlationId.Some? && e.correlationId.value != "" {
        byCorrelation := Pushed(byCorrelation, e.correlationId.value, e);
      }
      log := log + [e];
    }

    method ListByUser(userId: string, f: Filter) returns (p: Page)
      requires Valid()
      ensures p == PageOf(Rows(log, OfUser(userId)), f)
    {
      p := PageOf(ListAt(byUser, userId), f);
    }

    method ListByTenant(tenantId: string, f: Filter) returns (p: Page)
      requires Valid()
      ensures p == PageOf(Rows(log, OfTenant(tenantId)), f)
    {
      p := PageOf(ListAt(byTenant, tenantId), f);
    }

    method ListByCorrelation(correlationId: string) returns (items: seq<Entry>)
      requires Valid()
      ensures items == Sort(OldestFirst, Rows(log, OfCorrelation(correlationId)))
    {
      items := Sort(OldestFirst, ListAt(byCorrelation, correlationId));
    }

    method GetEntry(id: AuditId) returns (r: Option<Entry>)
      requires Valid()
      ensures r.Some? ==> r.value in log && r.value.id == id
      ensures r.None? ==> forall e :: e in log ==> e.id != id
    {
      r := if id in byId then Some(byId[id]) else None;
    }

    method DiffOf(id: AuditId) returns (r: Option<seq<FieldDiff>>)
      requires Valid()
      ensures r.None? <==> forall e :: e in log ==> e.id != id
      ensures forall e :: e in log && e.id == id ==> r == Some(Diff(StateOf(e.before), StateOf(e.after)))
    {
      hide ByUser, ByTenant, ByCorrelation, Diff;
      if id !in byId { return None; }
      var before, after := StateOf(byId[id].before), StateOf(byId[id].after);
      var diff := CollectDiff(before, after);
      return Some(diff);
    }
  }

  method CollectDiff(before: Snapshot, after: Snapshot) returns (out: seq<FieldDiff>)
    ensures out == Diff(before, after)
  {
    hide SortedStrings;
    var fields := SortedStrings(before.Keys + after.Keys);
    out := [];
    for i := 0 to |fields|
      invariant out == DiffFields(before, after, fields[..i])
    {
      assert fields[..i + 1][..i] == fields[..i];
      var b, a := FieldAt(before, fields[i]), FieldAt(after, fields[i]);
      if b != a { out := out + [FieldDiff(fields[i], OrNull(b), OrNull(a))]; }
    }
    assert fields[..|fields|] == fields;
  }

  lemma {:induction false} RowsPush(log: seq<Entry>, e: Entry, c: Choice)
    ensures Rows(log + [e], c) == if Chosen(c, e) then Rows(log, c) + [e] else Rows(log, c)
  {
    assert (log + [e])[..|log|] == log;
  }

  // ---- Listings against the record sequence ----

  lemma {:induction false} RowsIn(log: seq<Entry>, c: Choice)
    ensures forall e :: e in Rows(log, c) <==> e in log && Chosen(c, e)
  {
    if log != [] {
      var before, last := log[..|log| - 1], log[|log| - 1];
      RowsIn(before, c);
      assert forall e :: e in log <==> e in before || e == last;
    }
  }

  /** Filtering keeps every occurrence of what it keeps. */
  lemma {:induction false} RowsCount(log: seq<Entry>, c: Choice, e: Entry)
    ensures multiset(Rows(log, c))[e] == if Chosen(c, e) then multiset(log)[e] else 0
  {
    if log != [] {
      var before, last := log[..|log| - 1], log[|log| - 1];
      RowsCount(before, c, e);
      assert log == before + [last];
    }
  }

  /** No filter, an empty one, or one the entry meets, on each of the four. */
  ghost predicate Wanted(f: Filter, e: Entry) {
    && (f.eventType == None || f.eventType == Some(e.eventType))
    && (f.actor == None || f.actor == Some("") || f.actor == Some(e.actor))
    && (f.since == None || f.since.value <= e.occurredAt)
    && (f.until == None || e.occurredAt <= f.until.value)
  }

  /** A listing is newest first, holds exactly the chosen records that are wanted, each as often as recorded, and equal times as recorded. */
  lemma {:induction false} ListingExact(log: seq<Entry>, c: Choice, f: Filter)
    ensures var r := Listing(Rows(log, c), f);
      && (forall i, j :: 0 <= i < j < |r| ==> r[i].occurredAt >= r[j].occurredAt)
      && (forall e :: multiset(r)[e] == if Chosen(c, e) && Wanted(f, e) then multiset(log)[e] else 0)
      && (forall e: Entry :: TiedWith(NewestFirst, e, r) == TiedWith(NewestFirst, e, Rows(Rows(log, c), Matching(f))))
  {
    hide Rows, Sort, TiedWith;
    var matching, r := Rows(Rows(log, c), Matching(f)), Listing(Rows(log, c), f);
    NewestOrder();
    SortArranges(NewestFirst, matching);
    SortPermutes(NewestFirst, matching);
    forall i, j | 0 <= i < j < |r| ensures r[i].occurredAt >= r[j].occurredAt { assert NewestFirst(r[i], r[j]); }
    forall e ensures multiset(r)[e] == if Chosen(c, e) && Wanted(f, e) then multiset(log)[e] else 0 {
      RowsCount(log, c, e);
      RowsCount(Rows(log, c), Matching(f), e);
    }
  }

  lemma {:induction false} NewestOrder()
    ensures TotalPreorder(NewestFirst) && TotalPreorder(OldestFirst)
  {
  }

  /** Of a user or a tenant a listing holds that one's records, each wanted one as often as recorded. */
  lemma {:induction false} ListingsExact(log: seq<Entry>, who: string, f: Filter)
    ensures forall e :: multiset(Listing(Rows(log, OfUser(who)), f))[e] == if e.userId == who && Wanted(f, e) then multiset(log)[e] else 0
    ensures forall e :: multiset(Listing(Rows(log, OfTenant(who)), f))[e] == if e.tenantId == who && Wanted(f, e) then multiset(log)[e] else 0
  {
    hide Listing, Rows, Wanted, TiedWith;
    ListingExact(log, OfUser(who), f);
    ListingExact(log, OfTenant(who), f);
  }

  /** The records of one correlation: oldest first, each as often as recorded, none for the empty id. */
  lemma {:induction false} CorrelationExact(log: seq<Entry>, id: string)
    ensures var r := Sort(OldestFirst, Rows(log, OfCorrelation(id)));
      && (forall i, j :: 0 <= i < j < |r| ==> r[i].occurredAt <= r[j].occurredAt)
      && (forall e :: multiset(r)[e] == if id != "" && e.correlationId == Some(id) then multiset(log)[e] else 0)
      && (forall e: Entry :: TiedWith(OldestFirst, e, r) == TiedWith(OldestFirst, e, Rows(log, OfCorrelation(id))))
  {
    hide Rows, Sort, TiedWith;
    var rows := Rows(log, OfCorrelation(id));
    var r := Sort(OldestFirst, rows);
    NewestOrder();
    SortArranges(OldestFirst, rows);
    SortPermutes(OldestFirst, rows);
    forall i, j | 0 <= i < j < |r| ensures r[i].occurredAt <= r[j].occurredAt { assert OldestFirst(r[i], r[j]); }
    forall e ensures multiset(r)[e] == if id != "" && e.correlationId == Some(id) then multiset(log)[e] else 0 {
      RowsCount(log, OfCorrelation(id), e);
    }
  }

  /** A page is of the size asked for, fifty by default, at least one and at most 500; a page number below one is one. */
  lemma {:induction false} PageShape(rows: seq<Entry>, f: Filter)
    ensures var p := PageOf(rows, f);
      && (f.pageSize == None ==> p.pageSize == 50)
      && (f.pageSize.Some? && 1 <= f.pageSize.value <= 500 ==> p.pageSize == f.pageSize.value)
      && (f.pageSize.Some? && f.pageSize.value < 1 ==> p.pageSize == 1)
      && (f.pageSize.Some? && f.pageSize.value > 500 ==> p.pageSize == 500)
      && (f.page == None || f.page.value < 1 ==> p.page == 1)
      && (f.page.Some? && f.page.value >= 1 ==> p.page == f.page.value)
      && p.total == |Listing(rows, f)| && |p.items| <= p.pageSize && p == PageOf(rows, f.(page := Some(p.page)))
  {
    hide Listing, Offset;
    SameListing(rows, f, PageNumber(f));
  }

  /** The items of pages 1 to k, one after the other. */
  function PagesUpTo(rows: seq<Entry>, f: Filter, k: nat): seq<Entry> {
    if k == 0 then [] else PagesUpTo(rows, f, k - 1) + PageOf(rows, f.(page := Some(k))).items
  }

  lemma {:induction false} PagesArePrefix(rows: seq<Entry>, f: Filter, k: nat)
    ensures PagesUpTo(rows, f, k) == Slice(Listing(rows, f), 0, k * PageSize(f))
  {
    hide Listing, PageOf, PageSize, Slice;
    if k > 0 {
      PagesArePrefix(rows, f, k - 1);
      PageIsSlice(rows, f, k);
      SliceJoin(Listing(rows, f), (k - 1) * PageSize(f), PageSize(f));
      assert (k - 1) * PageSize(f) + PageSize(f) == k * PageSize(f);
    } else {
      NoSlice(Listing(rows, f));
    }
  }

  lemma {:induction false} NoSlice(s: seq<Entry>)
    ensures Slice(s, 0, 0) == []
  {
  }

  lemma {:induction false} PageIsSlice(rows: seq<Entry>, f: Filter, k: nat)
    requires k > 0
    ensures PageOf(rows, f.(page := Some(k))).items == Slice(Listing(rows, f), Offset(k, PageSize(f)), PageSize(f))
  {
    hide Listing, Slice, Offset;
    SameListing(rows, f, k);
  }

  lemma {:induction false} SameListing(rows: seq<Entry>, f: Filter, k: nat)
    ensures Listing(rows, f.(page := Some(k))) == Listing(rows, f)
  {
    SameRows(rows, f, k);
  }

  lemma {:induction false} SameRows(rows: seq<Entry>, f: Filter, k: nat)
    ensures Rows(rows, Matching(f.(page := Some(k)))) == Rows(rows, Matching(f))
  {
    if rows != [] { SameRows(rows[..|rows| - 1], f, k); }
  }

  lemma {:induction false} SliceJoin(s: seq<Entry>, a: nat, n: nat)
    ensures Slice(s, 0, a) + Slice(s, a, n) == Slice(s, 0, a + n)
  {
  }

  /** Every page says the total; the pages, concatenated, are the whole listing with no row missed or repeated. */
  lemma {:induction false} PagesCoverListing(rows: seq<Entry>, f: Filter, k: nat)
    requires k * PageSize(f) >= |Listing(rows, f)|
    ensures PagesUpTo(rows, f, k) == Listing(rows, f)
    ensures PageOf(rows, f).total == |Listing(rows, f)| && |PageOf(rows, f).items| <= PageSize(f)
  {
    hide Listing, PagesUpTo, PageSize;
    PagesArePrefix(rows, f, k);
    WholeSlice(Listing(rows, f), k * PageSize(f));
  }

  lemma {:induction false} WholeSlice(s: seq<Entry>, end: nat)
    requires end >= |s|
    ensures Slice(s, 0, end) == s
  {
  }

  // ---- Field differences ----

  datatype FieldDiff = FieldDiff(field: string, before: Value, after: Value)

  function StateOf(s: Option<Snapshot>): Snapshot {
    if s.Some? then s.value else map[]
  }

  function FieldAt(s: Snapshot, field: string): Option<Value> {
    if field in s then Some(s[field]) else None
  }

  function OrNull(v: Option<Value>): Value {
    if v.Some? then v.value else Null
  }

  function DiffFields(before: Snapshot, after: Snapshot, fields: seq<string>): seq<FieldDiff> {
    if fields == [] then [] else
      var rest, f := DiffFields(before, after, fields[..|fields| - 1]), fields[|fields| - 1];
      var b, a := FieldAt(before, f), FieldAt(after, f);
      if b != a then rest + [FieldDiff(f, OrNull(b), OrNull(a))] else rest
  }

  function Diff(before: Snapshot, after: Snapshot): seq<FieldDiff> {
    DiffFields(before, after, SortedStrings(before.Keys + after.Keys))
  }

  lemma {:induction false} DiffFieldsExact(before: Snapshot, after: Snapshot, fields: seq<string>)
    ensures forall d :: d in DiffFields(before, after, fields) <==>
      d.field in fields && FieldAt(before, d.field) != FieldAt(after, d.field) &&
      d.before == OrNull(FieldAt(before, d.field)) && d.after == OrNull(FieldAt(after, d.field))
  {
    if fields != [] {
      var init, last := fields[..|fields| - 1], fields[|fields| - 1];
      DiffFieldsExact(before, after, init);
      assert forall f :: f in fields <==> f in init || f == last;
    }
  }

  /** The diff names exactly the fields that differ, with both sides; it is empty exactly when the states are equal. */
  lemma {:induction false} DiffExact(before: Snapshot, after: Snapshot)
    ensures forall d :: d in Diff(before, after) <==>
      FieldAt(before, d.field) != FieldAt(after, d.field) &&
      d.before == OrNull(FieldAt(before, d.field)) && d.after == OrNull(FieldAt(after, d.field))
    ensures Diff(before, after) == [] <==> before == after
  {
    hide DiffFields;
    var fields := SortedStrings(before.Keys + after.Keys);
    DiffFieldsExact(before, after, fields);
    if Diff(before, after) != [] {
      assert Diff(before, after)[0] in Diff(before, after);
    } else {
      forall f ensures FieldAt(before, f) == FieldAt(after, f) {
        var d := FieldDiff(f, OrNull(FieldAt(before, f)), OrNull(FieldAt(after, f)));
        assert d !in Diff(before, after);
      }
      SameFields(before, after);
    }
  }

  ghost predicate FieldsAscend(ds: seq<FieldDiff>) {
    forall i, j :: 0 <= i < j < |ds| ==> StringLt(ds[i].field, ds[j].field)
  }

  lemma {:induction false} DiffFieldsAscend(before: Snapshot, after: Snapshot, fields: seq<string>)
    requires SortedBy(StringLt, fields)
    ensures FieldsAscend(DiffFields(before, after, fields))
  {
    if fields != [] {
      var init, last := fields[..|fields| - 1], fields[|fields| - 1];
      DiffFieldsAscend(before, after, init);
      DiffFieldsExact(before, after, init);
      var ds := DiffFields(before, after, init);
      forall i | 0 <= i < |ds| ensures StringLt(ds[i].field, last) {
        assert ds[i] in ds;
        var j :| 0 <= j < |init| && init[j] == ds[i].field;
        assert fields[j] == init[j];
      }
    }
  }

  /** The diff lists its fields in strictly ascending order, so no field comes twice. */
  lemma {:induction false} DiffAscends(before: Snapshot, after: Snapshot)
    ensures FieldsAscend(Diff(before, after))
  {
    hide SortedStrings;
    SortedStringsAscend(before.Keys + after.Keys);
    DiffFieldsAscend(before, after, SortedStrings(before.Keys + after.Keys));
  }

  lemma {:induction false} SameFields(before: Snapshot, after: Snapshot)
    requires forall f :: FieldAt(before, f) == FieldAt(after, f)
    ensures before == after
  {
    forall f ensures f in before <==> f in after { assert FieldAt(before, f) == FieldAt(after, f); }
    forall f | f in before ensures before[f] == after[f] { assert FieldAt(before, f) == FieldAt(after, f); }
  }
}
