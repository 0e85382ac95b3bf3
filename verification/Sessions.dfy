/**
 * The session registry: the in-memory store, the Postgres-backed one that answers from a cache and
 * writes through without waiting, and what a restart finds in the table.
 */
module Sessions {
  import opened Options
  import opened OrderedMap
  import opened Sorting

  const SESSION_TTL_MS := 7 * 24 * 60 * 60 * 1000

  datatype Session = Session(id: string, userId: string, issuedAt: int, lastSeen: int, ip: string, userAgent: string)

  /** What either store keeps: sessions by id in order of creation, and the revoked ids. */
  datatype State = State(byId: OMap<string, Session>, revoked: set<string>)

  // ---- The operations, on that state ----

  predicate NewestFirst(a: Session, b: Session) {
    a.lastSeen >= b.lastSeen
  }

  function Created(s: State, x: Session): State {
    s.(byId := Set(s.byId, x.id, x))
  }

  function ActiveSession(s: State, id: string): Option<Session> {
    if id in s.revoked then None else Get(s.byId, id)
  }

  function Touched(s: State, id: string, now: int): State {
    match Get(s.byId, id)
    case None => s
    case Some(x) => if id in s.revoked then s else s.(byId := Set(s.byId, id, x.(lastSeen := now)))
  }

  predicate Revocable(s: State, id: string) {
    Get(s.byId, id).Some? && id !in s.revoked
  }

  function RevokedOne(s: State, id: string): State {
    if Revocable(s, id) then s.(revoked := s.revoked + {id}) else s
  }

  predicate Swept(s: State, x: Session, userId: string, spare: Option<string>) {
    x.userId == userId && Some(x.id) != spare && x.id !in s.revoked
  }

  /** The ids a bulk revocation hits among the first n sessions, in order. */
  function SweepIds(s: State, userId: string, spare: Option<string>, n: nat): seq<string>
    requires n <= |s.byId|
  {
    if n == 0 then [] else
      var x := s.byId[n - 1].val;
      var before := SweepIds(s, userId, spare, n - 1);
      if Swept(s, x, userId, spare) then before + [x.id] else before
  }

  function RevokedAll(s: State, userId: string, spare: Option<string>): State {
    s.(revoked := s.revoked + Elements(SweepIds(s, userId, spare, |s.byId|)))
  }

  function Select(xs: seq<Session>, keep: Session -> bool): seq<Session> {
    if xs == [] then [] else
      var rest := Select(xs[1..], keep);
      if keep(xs[0]) then [xs[0]] + rest else rest
  }

  /** The user's sessions that are not revoked, as stored. */
  function ActiveOf(s: State, userId: string): seq<Session> {
    Select(Values(s.byId), (x: Session) => x.userId == userId && x.id !in s.revoked)
  }

  function ListedFor(s: State, userId: string): seq<Session> {
    Sort(NewestFirst, ActiveOf(s, userId))
  }

  /**
   * A listing: latest seen first, equal times as they were stored, and each session of the user that is
   * not revoked exactly as often as it is stored.
   */
  ghost predicate IsListing(s: State, userId: string, r: seq<Session>) {
    && (forall i, j :: 0 <= i < j < |r| ==> r[i].lastSeen >= r[j].lastSeen)
    && (forall x: Session :: multiset(r)[x] == if x.userId == userId && x.id !in s.revoked then multiset(Values(s.byId))[x] else 0)
    && (forall x: Session :: TiedWith(NewestFirst, x, r) == TiedWith(NewestFirst, x, ActiveOf(s, userId)))
  }

  lemma {:induction false} NewestMeans(r: seq<Session>)
    ensures SortedBy(NewestFirst, r) <==> forall i, j :: 0 <= i < j < |r| ==> r[i].lastSeen >= r[j].lastSeen
  {
    if SortedBy(NewestFirst, r) {
      forall i, j | 0 <= i < j < |r| ensures r[i].lastSeen >= r[j].lastSeen { assert NewestFirst(r[i], r[j]); }
    }
  }

  lemma {:induction false} SelectCount(xs: seq<Session>, keep: Session -> bool, x: Session)
    ensures multiset(Select(xs, keep))[x] == if keep(x) then multiset(xs)[x] else 0
  {
    if xs != [] {
      SelectCount(xs[1..], keep, x);
      assert xs == [xs[0]] + xs[1..];
    }
  }

  lemma {:induction false} SortedIsListing(s: State, userId: string)
    ensures IsListing(s, userId, ListedFor(s, userId))
  {
    hide Sort, Select, TiedWith;
    var r, kept := ListedFor(s, userId), ActiveOf(s, userId);
    SortArranges(NewestFirst, kept);
    SortPermutes(NewestFirst, kept);
    NewestMeans(r);
    forall x: Session ensures multiset(kept)[x] == if x.userId == userId && x.id !in s.revoked then multiset(Values(s.byId))[x] else 0 {
      SelectCount(Values(s.byId), (y: Session) => y.userId == userId && y.id !in s.revoked, x);
    }
  }

  /** A state has one listing per user, so two stores in the same state answer alike. */
  lemma {:induction false} ListingUnique(s: State, userId: string, a: seq<Session>, b: seq<Session>)
    requires IsListing(s, userId, a) && IsListing(s, userId, b)
    ensures a == b
  {
    hide TiedWith, ActiveOf;
    NewestMeans(a);
    NewestMeans(b);
    forall x ensures TiedWith(NewestFirst, x, a) == TiedWith(NewestFirst, x, b) { }
    ArrangesUnique(NewestFirst, a, b);
  }

  /** In a coherent store a listing holds each active session of the user, once. */
  lemma {:induction false} ListedForExact(s: State, userId: string, r: seq<Session>)
    requires Coherent(s) && IsListing(s, userId, r)
    ensures forall x: Session :: multiset(r)[x] == if x.userId == userId && ActiveSession(s, x.id) == Some(x) then 1 else 0
  {
    hide Get, TiedWith, ActiveOf;
    forall x ensures multiset(Values(s.byId))[x] == if Get(s.byId, x.id) == Some(x) then 1 else 0 { StoredOnce(s.byId, x); }
  }

  lemma {:induction false} StoredOnce(m: OMap<string, Session>, x: Session)
    requires UniqueKeys(m) && forall e :: e in m ==> e.key == e.val.id
    ensures multiset(Values(m))[x] == if Get(m, x.id) == Some(x) then 1 else 0
  {
    if m != [] {
      var head, tail := m[0], m[1..];
      assert Values(m) == [head.val] + Values(tail);
      UniqueTail(m);
      assert head in m && forall e :: e in tail ==> e in m;
      hide UniqueKeys, Values;
      StoredOnce(tail, x);
    }
  }

  lemma {:induction false} UniqueTail(m: OMap<string, Session>)
    requires UniqueKeys(m) && m != []
    ensures UniqueKeys(m[1..]) && Get(m[1..], m[0].key).None?
  {
    hide Get;
    var tail := m[1..];
    assert forall i :: 0 <= i < |tail| ==> tail[i] == m[i + 1];
  }

  function ActiveCount(s: State, n: nat): nat
    requires n <= |s.byId|
  {
    if n == 0 then 0 else ActiveCount(s, n - 1) + if s.byId[n - 1].val.id in s.revoked then 0 else 1
  }

  ghost predicate Coherent(s: State) {
    UniqueKeys(s.byId) && forall e :: e in s.byId ==> e.key == e.val.id
  }

  // ---- The in-memory store ----

  class SessionStore {
    var byId: OMap<string, Session>
    var revoked: set<string>

    function View(): State
      reads this
    {
      State(byId, revoked)
    }

    constructor ()
      ensures View() == State([], {})
    {
      byId, revoked := [], {};
    }

    method Create(sid: string, userId: string, ip: string, userAgent: string, now: int) returns (x: Session)
      modifies this
      ensures x == Session(sid, userId, now, now, ip, userAgent) && View() == Created(old(View()), x)
    {
      x := Session(sid, userId, now, now, ip, userAgent);
      byId := Set(byId, x.id, x);
    }

    method GetActive(id: string) returns (r: Option<Session>)
      ensures r == ActiveSession(View(), id)
    {
      if id in revoked { return None; }
      return Get(byId, id);
    }

    method Touch(id: string, now: int)
      modifies this
      ensures View() == Touched(old(View()), id, now)
    {
      var x := Get(byId, id);
      if x.None? || id in revoked { return; }
      byId := Set(byId, id, x.value.(lastSeen := now));
    }

    method ListForUser(userId: string) returns (r: seq<Session>)
      ensures IsListing(View(), userId, r)
    {
      SortedIsListing(View(), userId);
      r := ListedFor(View(), userId);
    }

    method Revoke(id: string) returns (r: bool)
      modifies this
      ensures r == Revocable(old(View()), id) && View() == RevokedOne(old(View()), id)
    {
      if Get(byId, id).None? || id in revoked { return false; }
      revoked := revoked + {id};
      return true;
    }

    method RevokeAllForUser(userId: string, spare: Option<string>) returns (n: nat)
      requires Coherent(View())
      modifies this
      ensures View() == RevokedAll(old(View()), userId, spare)
      ensures forall id :: id in revoked <==> id in old(revoked) || BelongsTo(old(View()), id, userId, spare)
      ensures n == |revoked - old(revoked)|
    {
      hide Get, SweepIds, Elements, Coherent, BelongsTo;
      n := 0;
      ghost var was := View();
      NothingSwept(was, userId, spare);
      for i := 0 to |byId|
        invariant byId == was.byId && n == |SweepIds(was, userId, spare, i)|
        invariant revoked == was.revoked + Elements(SweepIds(was, userId, spare, i))
      {
        var x := byId[i].val;
        SweepStep(was, userId, spare, i);
        if x.userId != userId { continue; }
        if Some(x.id) == spare { continue; }
        if x.id in revoked { continue; }
        revoked := revoked + {x.id};
        n := n + 1;
      }
      SweepExactly(was, userId, spare);
    }

    method Size() returns (n: nat)
      ensures n == |UnrevokedAt(View(), |byId|)|
    {
      ActiveCountExact(View(), |byId|);
      n := 0;
      for i := 0 to |byId|
        invariant n == ActiveCount(View(), i)
      {
        if byId[i].val.id !in revoked { n := n + 1; }
      }
    }
  }

  /** Ids are unique, so the sweep meets each session before anything it revoked can hide it. */
  lemma {:induction false} NotSweptYet(s: State, userId: string, spare: Option<string>, n: nat)
    requires Coherent(s) && n < |s.byId|
    ensures s.byId[n].val.id !in SweepIds(s, userId, spare, n)
    ensures forall id :: id in SweepIds(s, userId, spare, n) ==> exists i :: 0 <= i < n && s.byId[i].key == id
  {
    SweepIn(s, userId, spare, n);
    assert s.byId[n] in s.byId;
  }

  lemma {:induction false} SweepIn(s: State, userId: string, spare: Option<string>, n: nat)
    requires Coherent(s) && n <= |s.byId|
    ensures forall id :: id in SweepIds(s, userId, spare, n) <==> exists i :: 0 <= i < n && s.byId[i].key == id && Swept(s, s.byId[i].val, userId, spare)
  {
    if n > 0 {
      SweepIn(s, userId, spare, n - 1);
      assert s.byId[n - 1] in s.byId;
    }
  }

  /** A stored session of the user, other than the spared one. */
  ghost predicate BelongsTo(s: State, id: string, userId: string, spare: Option<string>) {
    Get(s.byId, id).Some? && Get(s.byId, id).value.userId == userId && Some(id) != spare
  }

  lemma {:induction false} NothingSwept(s: State, userId: string, spare: Option<string>)
    ensures SweepIds(s, userId, spare, 0) == [] && Elements([]) == {}
  {
  }

  /** One more session is swept exactly if it is the user's, not the spared one and active. */
  lemma {:induction false} SweepStep(s: State, userId: string, spare: Option<string>, n: nat)
    requires Coherent(s) && n < |s.byId|
    ensures var x, before, after := s.byId[n].val, SweepIds(s, userId, spare, n), SweepIds(s, userId, spare, n + 1);
      && x.id !in Elements(before)
      && after == (if Swept(s, x, userId, spare) then before + [x.id] else before)
      && Elements(after) == (if Swept(s, x, userId, spare) then Elements(before) + {x.id} else Elements(before))
  {
    NotSweptYet(s, userId, spare, n);
    hide Coherent;
    OneMoreElement(SweepIds(s, userId, spare, n), s.byId[n].val.id);
  }

  lemma {:induction false} SweepDistinct(s: State, userId: string, spare: Option<string>, n: nat)
    requires Coherent(s) && n <= |s.byId|
    ensures var ids := SweepIds(s, userId, spare, n); |Elements(ids)| == |ids| && Elements(ids) !! s.revoked
  {
    if n > 0 {
      SweepDistinct(s, userId, spare, n - 1);
      SweepStep(s, userId, spare, n - 1);
      hide Coherent, SweepIds, Elements;
    } else {
      NothingSwept(s, userId, spare);
    }
  }

  lemma {:induction false} OneMoreElement(ids: seq<string>, id: string)
    ensures Elements(ids + [id]) == Elements(ids) + {id}
  {
  }

  /** Whose sessions a bulk revocation ends: those of the user but the spared one, each counted once. */
  lemma {:induction false} SweepExactly(s: State, userId: string, spare: Option<string>)
    requires Coherent(s)
    ensures var t := RevokedAll(s, userId, spare);
      && t.byId == s.byId
      && (forall id :: id in t.revoked <==> id in s.revoked || BelongsTo(s, id, userId, spare))
      && |SweepIds(s, userId, spare, |s.byId|)| == |t.revoked - s.revoked|
  {
    hide SweepIds, Get;
    var ids, t := SweepIds(s, userId, spare, |s.byId|), RevokedAll(s, userId, spare);
    SweepIn(s, userId, spare, |s.byId|);
    SweepDistinct(s, userId, spare, |s.byId|);
    assert t.revoked - s.revoked == Elements(ids);
    forall id ensures id in t.revoked <==> id in s.revoked || BelongsTo(s, id, userId, spare) {
      if id in ids {
        var i :| 0 <= i < |s.byId| && s.byId[i].key == id && Swept(s, s.byId[i].val, userId, spare);
        InGet(s.byId, i);
        assert s.byId[i] in s.byId;
      }
      if BelongsTo(s, id, userId, spare) {
        GetIn(s.byId, id);
        var i :| 0 <= i < |s.byId| && s.byId[i] == Entry(id, Get(s.byId, id).value);
      }
    }
  }

  /** Where the first n sessions are not revoked. */
  ghost function UnrevokedAt(s: State, n: nat): set<nat>
    requires n <= |s.byId|
  {
    set i: nat | i < n && s.byId[i].val.id !in s.revoked
  }

  lemma {:induction false} ActiveCountExact(s: State, n: nat)
    requires n <= |s.byId|
    ensures ActiveCount(s, n) == |UnrevokedAt(s, n)|
  {
    if n == 0 {
      assert UnrevokedAt(s, n) == {};
    } else {
      var k: nat := n - 1;
      ActiveCountExact(s, k);
      assert UnrevokedAt(s, n) == UnrevokedAt(s, k) + if s.byId[k].val.id in s.revoked then {} else {k};
    }
  }

  // ---- Revocation is permanent ----

  datatype Call =
    | DoCreate(session: Session)
    | DoTouch(id: string, now: int)
    | DoRevoke(id: string)
    | DoRevokeAll(userId: string, spare: Option<string>)

  function Step(s: State, c: Call): State {
    match c
    case DoCreate(x) => Created(s, x)
    case DoTouch(id, now) => Touched(s, id, now)
    case DoRevoke(id) => RevokedOne(s, id)
    case DoRevokeAll(userId, spare) => RevokedAll(s, userId, spare)
  }

  function After(s: State, calls: seq<Call>): State {
    if calls == [] then s else Step(After(s, calls[..|calls| - 1]), calls[|calls| - 1])
  }

  /** What becomes of the active session `id` by any call: only its own calls, and its user's bulk revocation, touch it. */
  function ActiveNext(a: Option<Session>, c: Call, id: string): Option<Session> {
    match c
    case DoCreate(x) => if x.id == id then Some(x) else a
    case DoTouch(i, now) => if i == id && a.Some? then Some(Session(id, a.value.userId, a.value.issuedAt, now, a.value.ip, a.value.userAgent)) else a
    case DoRevoke(i) => if i == id then None else a
    case DoRevokeAll(userId, spare) => if a.Some? && a.value.userId == userId && spare != Some(id) then None else a
  }

  /** Every call, seen session by session; a created id is taken not to be on the denylist. */
  lemma {:induction false} StepExactly(s: State, c: Call, id: string)
    requires Coherent(s) && (c.DoCreate? ==> c.session.id !in s.revoked)
    ensures Coherent(Step(s, c)) && ActiveSession(Step(s, c), id) == ActiveNext(ActiveSession(s, id), c, id)
  {
    hide Get, Set, SweepIds, UniqueKeys;
    match c
    case DoCreate(x) =>
      SetGet(s.byId, x.id, x, id);
      SetKeys(s.byId, x.id, x);
    case DoTouch(i, now) =>
      if Get(s.byId, i).Some? {
        GetIn(s.byId, i);
        SetGet(s.byId, i, Get(s.byId, i).value.(lastSeen := now), id);
        SetKeys(s.byId, i, Get(s.byId, i).value.(lastSeen := now));
      }
    case DoRevoke(i) =>
    case DoRevokeAll(userId, spare) => SweepExactly(s, userId, spare);
  }

  lemma {:induction false} RevocationIsPermanent(s: State, calls: seq<Call>, id: string)
    requires id in s.revoked
    ensures id in After(s, calls).revoked && ActiveSession(After(s, calls), id) == None
  {
    hide Set, Get, SweepIds, Revocable;
    if calls != [] { RevocationIsPermanent(s, calls[..|calls| - 1], id); }
  }

  // ---- The table ----

  datatype Row = Row(userId: string, issuedAt: int, lastSeen: int, revoked: bool, ip: Option<string>, userAgent: Option<string>)

  /** The row a new session is stored as: an address that does not look like one is left out, a long user agent is cut. */
  function RowFor(x: Session): Row {
    Row(x.userId, x.issuedAt, x.issuedAt, false, IpForPg(x.ip), Some(Capped(x.userAgent, 256)))
  }

  function IpForPg(ip: string): Option<string> {
    if ip == "" || ip == "unknown" || !(exists i :: 0 <= i < |ip| && '0' <= ip[i] <= '9') || ('.' !in ip && ':' !in ip) then None
    else Some(ip)
  }

  /** The session a row is read back as. */
  function SessionOf(sid: string, r: Row): Session {
    Session(sid, r.userId, r.issuedAt, r.lastSeen, if r.ip.Some? then r.ip.value else "unknown", if r.userAgent.Some? then r.userAgent.value else "unknown")
  }

  /** A text that Postgres would take for an address: a digit, and a dot or a colon. */
  ghost predicate LooksLikeAddress(ip: string) {
    (exists c :: c in ip && '0' <= c <= '9') && ('.' in ip || ':' in ip)
  }

  /** A session written to the table and read back keeps its user and its times, and exactly these of its other fields. */
  lemma {:induction false} RowReadsBack(x: Session)
    ensures var r := SessionOf(x.id, RowFor(x));
      && r.id == x.id && r.userId == x.userId && r.issuedAt == x.issuedAt && r.lastSeen == x.issuedAt
      && (r.ip == x.ip <==> x.ip == "unknown" || LooksLikeAddress(x.ip)) && (r.ip == x.ip || r.ip == "unknown")
      && (r.userAgent == x.userAgent <==> |x.userAgent| <= 256) && r.userAgent <= x.userAgent && !RowFor(x).revoked
  {
    var ip := x.ip;
    assert "unknown" == ['u', 'n', 'k', 'n', 'o', 'w', 'n'];
    if c :| c in ip && '0' <= c <= '9' {
      var i :| 0 <= i < |ip| && ip[i] == c;
    }
    if i :| 0 <= i < |ip| && '0' <= ip[i] <= '9' { assert ip[i] in ip; }
  }

  type Table = map<string, Row>

  function ExpiresAt(issuedAt: int): int {
    issuedAt + SESSION_TTL_MS
  }

  datatype Write = Insert(sid: string, row: Row) | TouchRow(sid: string, now: int) | RevokeRows(sids: seq<string>)

  /** A second insert of an id violates the primary key; an update of an absent id does nothing. */
  function Apply(t: Table, w: Write): Table {
    match w
    case Insert(sid, row) => if sid in t then t else t[sid := row]
    case TouchRow(sid, now) => if sid in t then t[sid := t[sid].(lastSeen := now)] else t
    case RevokeRows(sids) => map sid | sid in t :: if sid in sids then t[sid].(revoked := true) else t[sid]
  }

  function Land(t: Table, ws: seq<Write>): Table {
    if ws == [] then t else Apply(Land(t, ws[..|ws| - 1]), ws[|ws| - 1])
  }

  // ---- The Postgres-backed store ----

  /** The statement a call queues against the table, if any. */
  function WritesOf(s: State, c: Call): seq<Write> {
    match c
    case DoCreate(x) => [Insert(x.id, RowFor(x))]
    case DoTouch(id, now) => if Revocable(s, id) then [TouchRow(id, now)] else []
    case DoRevoke(id) => if Revocable(s, id) then [RevokeRows([id])] else []
    case DoRevokeAll(userId, spare) =>
      var ids := SweepIds(s, userId, spare, |s.byId|);
      if ids == [] then [] else [RevokeRows(ids)]
  }

  class PgSessionStore {
    var byId: OMap<string, Session>
    var revoked: set<string>
    /** Statements handed to the pool, in order of issue; none is awaited. */
    var issued: seq<Write>

    function View(): State
      reads this
    {
      State(byId, revoked)
    }

    constructor ()
      ensures View() == State([], {}) && issued == []
    {
      byId, revoked, issued := [], {}, [];
    }

    /** Loads the rows a query of the table returns, in the order it returns them. */
    method Init(rows: seq<(string, Row)>)
      modifies this
      ensures View() == Loaded(rows) && issued == old(issued)
    {
      byId, revoked := [], {};
      for i := 0 to |rows|
        invariant View() == Loaded(rows[..i]) && issued == old(issued)
      {
        assert rows[..i + 1][..i] == rows[..i];
        var (sid, r) := rows[i];
        byId := Set(byId, sid, SessionOf(sid, r));
        if r.revoked { revoked := revoked + {sid}; }
      }
      assert rows[..|rows|] == rows;
    }

    method Create(sid: string, userId: string, ip: string, userAgent: string, now: int) returns (x: Session)
      modifies this
      ensures x == Session(sid, userId, now, now, ip, userAgent) && View() == Created(old(View()), x)
      ensures issued == old(issued) + WritesOf(old(View()), DoCreate(x))
    {
      x := Session(sid, userId, now, now, ip, userAgent);
      byId := Set(byId, x.id, x);
      issued := issued + [Insert(x.id, Row(userId, now, now, false, IpForPg(ip), Some(Capped(userAgent, 256))))];
    }

    method GetActive(id: string) returns (r: Option<Session>)
      ensures r == ActiveSession(View(), id)
    {
      if id in revoked { return None; }
      return Get(byId, id);
    }

    method Touch(id: string, now: int)
      modifies this
      ensures View() == Touched(old(View()), id, now)
      ensures issued == old(issued) + WritesOf(old(View()), DoTouch(id, now))
    {
      var x := Get(byId, id);
      if x.None? || id in revoked { return; }
      byId := Set(byId, id, x.value.(lastSeen := now));
      issued := issued + [TouchRow(id, now)];
    }

    method ListForUser(userId: string) returns (r: seq<Session>)
      ensures IsListing(View(), userId, r)
    {
      SortedIsListing(View(), userId);
      r := ListedFor(View(), userId);
    }

    method Revoke(id: string) returns (r: bool)
      modifies this
      ensures r == Revocable(old(View()), id) && View() == RevokedOne(old(View()), id)
      ensures issued == old(issued) + WritesOf(old(View()), DoRevoke(id))
    {
      if Get(byId, id).None? || id in revoked { return false; }
      revoked := revoked + {id};
      issued := issued + [RevokeRows([id])];
      return true;
    }

    method RevokeAllForUser(userId: string, spare: Option<string>) returns (n: nat)
      requires Coherent(View())
      modifies this
      ensures View() == RevokedAll(old(View()), userId, spare)
      ensures forall id :: id in revoked <==> id in old(revoked) || BelongsTo(old(View()), id, userId, spare)
      ensures n == |revoked - old(revoked)|
      ensures issued == old(issued) + WritesOf(old(View()), DoRevokeAll(userId, spare))
    {
      hide Get, SweepIds, Elements, Coherent, BelongsTo;
      n := 0;
      var ids := [];
      ghost var was := View();
      NothingSwept(was, userId, spare);
      for i := 0 to |byId|
        invariant byId == was.byId && issued == old(issued) && ids == SweepIds(was, userId, spare, i) && n == |ids|
        invariant revoked == was.revoked + Elements(SweepIds(was, userId, spare, i))
      {
        var x := byId[i].val;
        SweepStep(was, userId, spare, i);
        if x.userId != userId { continue; }
        if Some(x.id) == spare { continue; }
        if x.id in revoked { continue; }
        revoked := revoked + {x.id};
        ids := ids + [x.id];
        n := n + 1;
      }
      if |ids| > 0 { issued := issued + [RevokeRows(ids)]; }
      SweepExactly(was, userId, spare);
    }
  }

  function Loaded(rows: seq<(string, Row)>): State {
    if rows == [] then State([], {}) else
      var s, last := Loaded(rows[..|rows| - 1]), rows[|rows| - 1];
      State(Set(s.byId, last.0, SessionOf(last.0, last.1)), if last.1.revoked then s.revoked + {last.0} else s.revoked)
  }
}
