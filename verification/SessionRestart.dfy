/**
 * The Postgres-backed session store never waits for its writes. What a restart reads back from the
 * table, for any order in which those writes may have landed.
 */
module SessionRestart {
  import opened Options
  import opened OrderedMap
  import opened Sessions
  import opened Sorting

  // ---- What a sequence of landed writes leaves in the table ----

  predicate Inserts(w: Write, sid: string) {
    w.Insert? && w.sid == sid
  }

  predicate Revokes(w: Write, sid: string) {
    w.RevokeRows? && sid in w.sids
  }

  ghost predicate HasInsert(ws: seq<Write>, sid: string) {
    exists w :: w in ws && Inserts(w, sid)
  }

  ghost predicate HasRevoke(ws: seq<Write>, sid: string) {
    exists w :: w in ws && Revokes(w, sid)
  }

  /** Some revocation of the session lands when its row is already there. */
  ghost predicate LateRevoke(t: Table, ws: seq<Write>, sid: string) {
    exists j :: 0 <= j < |ws| && Revokes(ws[j], sid) && (sid in t || HasInsert(ws[..j], sid))
  }

  ghost predicate InsertsUnrevoked(ws: seq<Write>) {
    forall w :: w in ws && w.Insert? ==> !w.row.revoked
  }

  lemma {:induction false} HasInsertPush(ws: seq<Write>, w: Write, sid: string)
    ensures HasInsert(ws + [w], sid) <==> HasInsert(ws, sid) || Inserts(w, sid)
  {
    assert forall v :: v in ws + [w] <==> v in ws || v == w;
  }

  lemma {:induction false} LateRevokeKept(t: Table, ws: seq<Write>, w: Write, sid: string)
    requires LateRevoke(t, ws, sid)
    ensures LateRevoke(t, ws + [w], sid)
  {
    hide HasInsert;
    var j :| 0 <= j < |ws| && Revokes(ws[j], sid) && (sid in t || HasInsert(ws[..j], sid));
    assert (ws + [w])[j] == ws[j] && (ws + [w])[..j] == ws[..j];
  }

  lemma {:induction false} LateRevokePush(t: Table, ws: seq<Write>, w: Write, sid: string)
    ensures LateRevoke(t, ws + [w], sid) <==> LateRevoke(t, ws, sid) || (Revokes(w, sid) && (sid in t || HasInsert(ws, sid)))
  {
    hide HasInsert;
    var all := ws + [w];
    assert all[|ws|] == w && all[..|ws|] == ws;
    if LateRevoke(t, ws, sid) { LateRevokeKept(t, ws, w, sid); }
    if LateRevoke(t, all, sid) {
      var j :| 0 <= j < |all| && Revokes(all[j], sid) && (sid in t || HasInsert(all[..j], sid));
      if j < |ws| { assert all[j] == ws[j] && all[..j] == ws[..j]; }
    }
  }

  /** The exact content of the table after any writes in any order. */
  lemma {:induction false} LandFacts(t: Table, ws: seq<Write>, sid: string)
    requires InsertsUnrevoked(ws)
    ensures sid in Land(t, ws) <==> sid in t || HasInsert(ws, sid)
    ensures sid in Land(t, ws) ==> (Land(t, ws)[sid].revoked <==> (sid in t && t[sid].revoked) || LateRevoke(t, ws, sid))
    ensures sid in t && sid in Land(t, ws) ==> Land(t, ws)[sid].issuedAt == t[sid].issuedAt
    ensures sid !in t && sid in Land(t, ws) ==> exists w :: w in ws && Inserts(w, sid) && w.row.issuedAt == Land(t, ws)[sid].issuedAt
  {
    hide HasInsert, LateRevoke;
    if ws == [] {
      NothingLanded(t, sid);
    } else {
      var before, w := ws[..|ws| - 1], ws[|ws| - 1];
      assert ws == before + [w];
      assert w in ws && forall v :: v in before ==> v in ws;
      LandFacts(t, before, sid);
      HasInsertPush(before, w, sid);
      LateRevokePush(t, before, w, sid);
      NoInsertNoLateRevoke(t, before, sid);
    }
  }

  lemma {:induction false} NothingLanded(t: Table, sid: string)
    ensures !HasInsert([], sid) && !LateRevoke(t, [], sid)
  {
  }

  lemma {:induction false} NoInsertNoLateRevoke(t: Table, ws: seq<Write>, sid: string)
    ensures LateRevoke(t, ws, sid) ==> sid in t || HasInsert(ws, sid)
  {
    if LateRevoke(t, ws, sid) && sid !in t {
      var j :| 0 <= j < |ws| && Revokes(ws[j], sid) && (sid in t || HasInsert(ws[..j], sid));
      var w :| w in ws[..j] && Inserts(w, sid);
      assert w in ws;
    }
  }

  // ---- What the store issues ----

  function Issued(s: State, calls: seq<Call>): seq<Write> {
    if calls == [] then [] else
      Issued(s, calls[..|calls| - 1]) + WritesOf(After(s, calls[..|calls| - 1]), calls[|calls| - 1])
  }

  /** Newly drawn ids are new: neither in the table nor in the cache. */
  ghost predicate FreshIds(s: State, t: Table, calls: seq<Call>) {
    forall i :: 0 <= i < |calls| && calls[i].DoCreate? ==>
      calls[i].session.id !in t && Get(After(s, calls[..i]).byId, calls[i].session.id).None?
  }

  /** The cache holds exactly the sessions of the table that are unexpired at `now`, with their status. */
  ghost predicate Reflects(s: State, t: Table, now: int) {
    && Coherent(s)
    && (forall sid :: Get(s.byId, sid).Some? <==> sid in t && ExpiresAt(t[sid].issuedAt) > now)
    && (forall sid :: Get(s.byId, sid).Some? ==> Get(s.byId, sid).value.issuedAt == t[sid].issuedAt)
    && (forall sid :: sid in s.revoked <==> Get(s.byId, sid).Some? && t[sid].revoked)
  }

  lemma {:induction false} StepGet(s: State, c: Call, sid: string)
    requires Coherent(s)
    ensures Coherent(Step(s, c))
    ensures Get(Step(s, c).byId, sid).Some? <==> Get(s.byId, sid).Some? || (c.DoCreate? && c.session.id == sid)
    ensures Get(s.byId, sid).Some? && !(c.DoCreate? && c.session.id == sid) ==> Get(Step(s, c).byId, sid).value.issuedAt == Get(s.byId, sid).value.issuedAt
    ensures c.DoCreate? && c.session.id == sid ==> Get(Step(s, c).byId, sid) == Some(c.session)
    ensures sid in Step(s, c).revoked <==> sid in s.revoked || HasRevoke(WritesOf(s, c), sid)
    ensures HasRevoke(WritesOf(s, c), sid) ==> Get(s.byId, sid).Some?
  {
    hide Get, Set, SweepIds;
    match c
    case DoCreate(x) =>
      SetGet(s.byId, x.id, x, sid);
      SetKeys(s.byId, x.id, x);
    case DoTouch(id, now) =>
      if Get(s.byId, id).Some? {
        var x := Get(s.byId, id).value.(lastSeen := now);
        GetIn(s.byId, id);
        SetGet(s.byId, id, x, sid);
        SetKeys(s.byId, id, x);
      }
    case DoRevoke(id) =>
      if Revocable(s, id) { assert RevokeRows([id]) in WritesOf(s, c); }
    case DoRevokeAll(userId, spare) =>
      var ids := SweepIds(s, userId, spare, |s.byId|);
      SweepIn(s, userId, spare, |s.byId|);
      if ids != [] { assert RevokeRows(ids) in WritesOf(s, c); }
      if sid in ids {
        var i :| 0 <= i < |s.byId| && s.byId[i].key == sid && Swept(s, s.byId[i].val, userId, spare);
        InGet(s.byId, i);
      }
  }

  lemma {:induction false} HasRevokeAppend(a: seq<Write>, b: seq<Write>, sid: string)
    ensures HasRevoke(a + b, sid) <==> HasRevoke(a, sid) || HasRevoke(b, sid)
    ensures HasInsert(a + b, sid) <==> HasInsert(a, sid) || HasInsert(b, sid)
  {
    assert forall v :: v in a + b <==> v in a || v in b;
  }

  lemma {:induction false} FreshPrefix(s: State, t: Table, calls: seq<Call>)
    requires FreshIds(s, t, calls) && calls != []
    ensures FreshIds(s, t, calls[..|calls| - 1])
    ensures var c := calls[|calls| - 1]; c.DoCreate? ==> c.session.id !in t && Get(After(s, calls[..|calls| - 1]).byId, c.session.id).None?
  {
    hide After, Get;
    var before := calls[..|calls| - 1];
    forall i | 0 <= i < |before| && before[i].DoCreate?
      ensures before[i].session.id !in t && Get(After(s, before[..i]).byId, before[i].session.id).None?
    {
      assert before[i] == calls[i] && before[..i] == calls[..i];
    }
  }

  /** What the issued writes say of a session, against what the cache says. */
  lemma {:induction false} IssuedFacts(s: State, t: Table, calls: seq<Call>, sid: string)
    requires Coherent(s) && FreshIds(s, t, calls)
    ensures var a, ws := After(s, calls), Issued(s, calls);
      && Coherent(a)
      && (Get(a.byId, sid).Some? <==> Get(s.byId, sid).Some? || HasInsert(ws, sid))
      && (Get(s.byId, sid).Some? && Get(a.byId, sid).Some? ==> !HasInsert(ws, sid) && Get(a.byId, sid).value.issuedAt == Get(s.byId, sid).value.issuedAt)
      && (sid in a.revoked <==> sid in s.revoked || HasRevoke(ws, sid))
      && (HasRevoke(ws, sid) ==> Get(a.byId, sid).Some?)
      && (HasInsert(ws, sid) ==> sid !in t)
      && (forall w :: w in ws && Inserts(w, sid) ==> Get(a.byId, sid).Some? && w.row.issuedAt == Get(a.byId, sid).value.issuedAt)
      && InsertsUnrevoked(ws)
  {
    hide Get, Step, HasInsert, HasRevoke, WritesOf, FreshIds;
    if calls == [] {
      NothingIssued(sid);
    } else {
      var before, c := calls[..|calls| - 1], calls[|calls| - 1];
      FreshPrefix(s, t, calls);
      IssuedFacts(s, t, before, sid);
      var a := After(s, before);
      StepGet(a, c, sid);
      HasRevokeAppend(Issued(s, before), WritesOf(a, c), sid);
      WritesInsert(a, c, sid);
    }
  }

  lemma {:induction false} NothingIssued(sid: string)
    ensures !HasInsert([], sid) && !HasRevoke([], sid)
  {
  }

  lemma {:induction false} WritesInsert(s: State, c: Call, sid: string)
    ensures HasInsert(WritesOf(s, c), sid) <==> c.DoCreate? && c.session.id == sid
    ensures forall w :: w in WritesOf(s, c) && Inserts(w, sid) ==> c.DoCreate? && c.session.id == sid && w.row.issuedAt == c.session.issuedAt
    ensures InsertsUnrevoked(WritesOf(s, c))
  {
    hide SweepIds;
    if c.DoCreate? {
      var w := Insert(c.session.id, RowFor(c.session));
      assert w in WritesOf(s, c);
    }
  }

  lemma {:induction false} PartOfWrites(ws: seq<Write>, vs: seq<Write>, sid: string)
    requires multiset(ws) <= multiset(vs)
    ensures forall w :: w in ws ==> w in vs
    ensures HasInsert(ws, sid) ==> HasInsert(vs, sid)
    ensures HasRevoke(ws, sid) ==> HasRevoke(vs, sid)
    ensures InsertsUnrevoked(vs) ==> InsertsUnrevoked(ws)
  {
    forall w | w in ws ensures w in vs {
      assert w in multiset(ws);
      assert w in multiset(vs);
    }
  }

  // ---- The restart ----

  /** The cache knows the session, and it has not expired. */
  predicate Known(s: State, sid: string, now: int) {
    var x := Get(s.byId, sid);
    x.Some? && now < x.value.issuedAt + 7 * 24 * 3600 * 1000
  }

  predicate Kept(t: Table, sid: string, now: int) {
    sid in t && now < t[sid].issuedAt + 7 * 24 * 3600 * 1000
  }

  /**
   * Some of the issued writes landed, in any order whatever; the others were dropped. The table then holds a
   * session exactly when the cache knows it and it was loaded or its insert landed. Its status in the table is
   * the cache's exactly when it was not revoked meanwhile, or some revocation of it landed after its row.
   */
  lemma {:induction false} RestartExactly(s: State, t: Table, loadedAt: int, calls: seq<Call>, landed: seq<Write>, now: int, sid: string)
    requires Reflects(s, t, loadedAt) && FreshIds(s, t, calls) && loadedAt <= now
    requires multiset(landed) <= multiset(Issued(s, calls))
    ensures var a, u := After(s, calls), Land(t, landed);
      && (Kept(u, sid, now) <==> Known(a, sid, now) && (Get(s.byId, sid).Some? || HasInsert(landed, sid)))
      && (Kept(u, sid, now) ==>
            ((u[sid].revoked <==> sid in a.revoked) <==> (sid in a.revoked && sid !in s.revoked ==> LateRevoke(t, landed, sid))))
  {
    hide Get, After, Land, Issued, HasInsert, HasRevoke, LateRevoke, FreshIds, InsertsUnrevoked, Coherent;
    IssuedFacts(s, t, calls, sid);
    PartOfWrites(landed, Issued(s, calls), sid);
    LandFacts(t, landed, sid);
    LateIsRevoke(t, landed, sid);
  }

  lemma {:induction false} LateIsRevoke(t: Table, ws: seq<Write>, sid: string)
    ensures LateRevoke(t, ws, sid) ==> HasRevoke(ws, sid)
  {
    if LateRevoke(t, ws, sid) {
      var j :| 0 <= j < |ws| && Revokes(ws[j], sid) && (sid in t || HasInsert(ws[..j], sid));
      assert ws[j] in ws;
    }
  }

  /** Each session's insert lands before the updates that name it. */
  ghost predicate InsertsFirst(ws: seq<Write>) {
    forall i, j, sid :: 0 <= i < |ws| && 0 <= j < |ws| && Inserts(ws[i], sid) && Revokes(ws[j], sid) ==> i < j
  }

  lemma {:induction false} InsertedThenRevoked(t: Table, ws: seq<Write>, sid: string)
    requires InsertsFirst(ws) && HasRevoke(ws, sid) && (sid in t || HasInsert(ws, sid))
    ensures LateRevoke(t, ws, sid)
  {
    var w :| w in ws && Revokes(w, sid);
    var j :| 0 <= j < |ws| && ws[j] == w;
    if sid !in t {
      var v :| v in ws && Inserts(v, sid);
      var i :| 0 <= i < |ws| && ws[i] == v;
      assert ws[..j][i] == v;
      assert v in ws[..j];
    }
  }

  lemma {:induction false} LoadedFacts(rows: seq<(string, Row)>, sid: string)
    requires forall i, j :: 0 <= i < j < |rows| ==> rows[i].0 != rows[j].0
    ensures Coherent(Loaded(rows))
    ensures Get(Loaded(rows).byId, sid).Some? <==> exists i :: 0 <= i < |rows| && rows[i].0 == sid
    ensures forall i :: 0 <= i < |rows| && rows[i].0 == sid ==>
      Get(Loaded(rows).byId, sid) == Some(SessionOf(sid, rows[i].1))
    ensures sid in Loaded(rows).revoked <==> exists i :: 0 <= i < |rows| && rows[i].0 == sid && rows[i].1.revoked
  {
    hide Get, Loaded, Coherent, SessionOf;
    if rows == [] {
      NothingLoaded(sid);
    } else {
      LoadedFacts(rows[..|rows| - 1], sid);
      LoadedStep(rows, sid);
    }
  }

  lemma {:induction false} NothingLoaded(sid: string)
    ensures Coherent(Loaded([])) && Get(Loaded([]).byId, sid).None? && sid !in Loaded([]).revoked
  {
  }

  lemma {:induction false} LoadedStep(rows: seq<(string, Row)>, sid: string)
    requires rows != [] && Coherent(Loaded(rows[..|rows| - 1]))
    ensures var before, last, all := Loaded(rows[..|rows| - 1]), rows[|rows| - 1], Loaded(rows);
      && Coherent(all)
      && (last.0 == sid ==> Get(all.byId, sid) == Some(SessionOf(sid, last.1)))
      && (last.0 != sid ==> Get(all.byId, sid) == Get(before.byId, sid))
      && (sid in all.revoked <==> sid in before.revoked || (last.0 == sid && last.1.revoked))
  {
    hide Get, Set;
    var before, last := Loaded(rows[..|rows| - 1]), rows[|rows| - 1];
    var x := SessionOf(last.0, last.1);
    SetGet(before.byId, last.0, x, sid);
    SetKeys(before.byId, last.0, x);
  }

  /** The rows a query for unexpired sessions returns, in some order. */
  ghost predicate Selected(rows: seq<(string, Row)>, t: Table, now: int) {
    && (forall i, j :: 0 <= i < j < |rows| ==> rows[i].0 != rows[j].0)
    && (forall i :: 0 <= i < |rows| ==> rows[i].0 in t && rows[i].1 == t[rows[i].0] && ExpiresAt(t[rows[i].0].issuedAt) > now)
    && (forall sid :: sid in t && ExpiresAt(t[sid].issuedAt) > now ==> exists i :: 0 <= i < |rows| && rows[i].0 == sid)
  }

  /** Loading makes the cache reflect the table. */
  lemma {:induction false} LoadingReflects(rows: seq<(string, Row)>, t: Table, now: int)
    requires Selected(rows, t, now)
    ensures Reflects(Loaded(rows), t, now)
  {
    hide Get, Loaded, Coherent;
    forall sid
      ensures Get(Loaded(rows).byId, sid).Some? <==> sid in t && ExpiresAt(t[sid].issuedAt) > now
      ensures Get(Loaded(rows).byId, sid).Some? ==> Get(Loaded(rows).byId, sid).value.issuedAt == t[sid].issuedAt
      ensures sid in Loaded(rows).revoked <==> Get(Loaded(rows).byId, sid).Some? && t[sid].revoked
    {
      LoadedFacts(rows, sid);
    }
    LoadedFacts(rows, "");
  }

  /**
   * If every write landed, each insert before the revocations that name its session, then a restart at
   * `now` answers for every unexpired session as the running store does: known or not, active or revoked.
   */
  lemma {:induction false} RestartAgrees(s: State, t: Table, loadedAt: int, calls: seq<Call>, landed: seq<Write>, now: int,
                      rows: seq<(string, Row)>, sid: string)
    requires Reflects(s, t, loadedAt) && FreshIds(s, t, calls) && loadedAt <= now
    requires multiset(landed) == multiset(Issued(s, calls)) && InsertsFirst(landed)
    requires Selected(rows, Land(t, landed), now)
    ensures var a, r := After(s, calls), Loaded(rows);
      && (Known(a, sid, now) <==> Get(r.byId, sid).Some?)
      && (Get(r.byId, sid).Some? ==> (sid in r.revoked <==> sid in a.revoked) && (ActiveSession(r, sid).Some? <==> ActiveSession(a, sid).Some?))
  {
    hide Get, After, Land, Issued, HasInsert, HasRevoke, LateRevoke, FreshIds, InsertsUnrevoked, Coherent, Loaded, InsertsFirst, Selected;
    RestartExactly(s, t, loadedAt, calls, landed, now, sid);
    LoadingReflects(rows, Land(t, landed), now);
    IssuedFacts(s, t, calls, sid);
    PartOfWrites(landed, Issued(s, calls), sid);
    PartOfWrites(Issued(s, calls), landed, sid);
    LandFacts(t, landed, sid);
    if HasRevoke(landed, sid) && (sid in t || HasInsert(landed, sid)) { InsertedThenRevoked(t, landed, sid); }
  }

  // ---- Writes that land as they were issued ----

  /** Each cached session has a row that says of it what the cache says. */
  ghost predicate Mirrors(s: State, t: Table) {
    && Coherent(s)
    && (forall sid :: sid in s.revoked ==> Get(s.byId, sid).Some?)
    && (forall sid :: Get(s.byId, sid).Some? ==> sid in t && Mirrored(Get(s.byId, sid).value, sid in s.revoked, t[sid]))
  }

  predicate Mirrored(x: Session, revoked: bool, r: Row) {
    r.userId == x.userId && r.issuedAt == x.issuedAt && r.lastSeen == x.lastSeen && r.revoked == revoked
  }

  lemma {:induction false} LandPush(t: Table, a: seq<Write>, b: seq<Write>)
    requires |b| <= 1
    ensures Land(t, a + b) == if b == [] then Land(t, a) else Apply(Land(t, a), b[0])
  {
    if b == [] { assert a + b == a; } else { assert (a + b)[..|a|] == a; }
  }

  lemma {:induction false} StepMirrors(s: State, t: Table, c: Call)
    requires Mirrors(s, t)
    requires c.DoCreate? ==> c.session.id !in t && Get(s.byId, c.session.id).None? && c.session.lastSeen == c.session.issuedAt
    ensures |WritesOf(s, c)| <= 1
    ensures Mirrors(Step(s, c), if WritesOf(s, c) == [] then t else Apply(t, WritesOf(s, c)[0]))
  {
    hide Get, Set, SweepIds, UniqueKeys;
    var after, u := Step(s, c), if WritesOf(s, c) == [] then t else Apply(t, WritesOf(s, c)[0]);
    match c
    case DoCreate(x) =>
      SetKeys(s.byId, x.id, x);
      forall sid { SetGet(s.byId, x.id, x, sid); }
    case DoTouch(id, now) =>
      if Revocable(s, id) {
        var x := Get(s.byId, id).value.(lastSeen := now);
        GetIn(s.byId, id);
        SetKeys(s.byId, id, x);
        forall sid { SetGet(s.byId, id, x, sid); }
      }
    case DoRevoke(id) =>
    case DoRevokeAll(userId, spare) => SweptMirrors(s, t, userId, spare);
  }

  lemma {:induction false} SweptMirrors(s: State, t: Table, userId: string, spare: Option<string>)
    requires Mirrors(s, t)
    ensures var c := DoRevokeAll(userId, spare);
      Mirrors(Step(s, c), if WritesOf(s, c) == [] then t else Apply(t, WritesOf(s, c)[0]))
  {
    hide Get, SweepIds, UniqueKeys;
    SweptKnown(s, userId, spare);
  }

  lemma {:induction false} SweptKnown(s: State, userId: string, spare: Option<string>)
    requires Coherent(s)
    ensures forall id :: id in Elements(SweepIds(s, userId, spare, |s.byId|)) ==> Get(s.byId, id).Some?
  {
    hide Get, SweepIds;
    SweepExactly(s, userId, spare);
    SweepDistinct(s, userId, spare, |s.byId|);
    assert RevokedAll(s, userId, spare).revoked == s.revoked + Elements(SweepIds(s, userId, spare, |s.byId|));
  }

  /** New sessions were last seen when they were issued. */
  ghost predicate NewlySeen(calls: seq<Call>) {
    forall c :: c in calls && c.DoCreate? ==> c.session.lastSeen == c.session.issuedAt
  }

  /**
   * When every write lands, and in the order of issue, the table says of each session what the cache says:
   * its user, its times and whether it is revoked.
   */
  lemma {:induction false} InOrderMirrors(s: State, t: Table, calls: seq<Call>)
    requires Mirrors(s, t) && FreshIds(s, t, calls) && NewlySeen(calls)
    ensures Mirrors(After(s, calls), Land(t, Issued(s, calls)))
  {
    hide Get, Step, WritesOf, Apply, Mirrored, FreshIds, HasInsert, HasRevoke, LateRevoke, Coherent, InsertsUnrevoked;
    if calls != [] {
      var before, c := calls[..|calls| - 1], calls[|calls| - 1];
      assert c in calls && forall d :: d in before ==> d in calls;
      FreshPrefix(s, t, calls);
      InOrderMirrors(s, t, before);
      var a, ws := After(s, before), Issued(s, before);
      if c.DoCreate? {
        IssuedFacts(s, t, before, c.session.id);
        LandFacts(t, ws, c.session.id);
      }
      hide Mirrors;
      StepMirrors(a, Land(t, ws), c);
      LandPush(t, ws, WritesOf(a, c));
    }
  }

  /** Then a restart brings back every session it loads as the cache had it. */
  lemma {:induction false} InOrderRestart(s: State, t: Table, calls: seq<Call>, now: int, rows: seq<(string, Row)>, sid: string)
    requires Mirrors(s, t) && FreshIds(s, t, calls) && NewlySeen(calls)
    requires Selected(rows, Land(t, Issued(s, calls)), now)
    ensures var x, y := Get(After(s, calls).byId, sid), Get(Loaded(rows).byId, sid);
      && (Known(After(s, calls), sid, now) ==> y.Some?)
      && (x.Some? && y.Some? ==>
            && y.value.id == sid && y.value.userId == x.value.userId
            && y.value.issuedAt == x.value.issuedAt && y.value.lastSeen == x.value.lastSeen
            && (sid in Loaded(rows).revoked <==> sid in After(s, calls).revoked))
  {
    hide Get, After, Land, Issued, FreshIds, Coherent, Loaded, NewlySeen;
    InOrderMirrors(s, t, calls);
    LoadedFacts(rows, sid);
  }

  /** When a revocation overtakes its insert, the restart resurrects the session. */
  lemma {:induction false} OvertakenRevocationIsLost(x: Session)
    ensures var calls, s := [DoCreate(x), DoRevoke(x.id)], State([], {});
      var insert := Insert(x.id, RowFor(x));
      && Issued(s, calls) == [insert, RevokeRows([x.id])]
      && ActiveSession(After(s, calls), x.id) == None
      && Land(map[], [RevokeRows([x.id]), insert]) == map[x.id := insert.row]
  {
    var s, c0, c1 := State([], {}), DoCreate(x), DoRevoke(x.id);
    assert [c0, c1][..1] == [c0] && [c0][..0] == [];
    assert After(s, [c0]) == Created(s, x);
    assert Revocable(Created(s, x), x.id);
    assert Issued(s, [c0]) == Issued(s, []) + WritesOf(s, c0);
    assert Issued(s, [c0, c1]) == Issued(s, [c0]) + WritesOf(Created(s, x), c1);
    var insert := Insert(x.id, RowFor(x));
    assert [RevokeRows([x.id]), insert][..1] == [RevokeRows([x.id])] && [RevokeRows([x.id])][..0] == [];
    assert Land(map[], [RevokeRows([x.id])]) == map[];
  }
}
