/**
 * The breach-event roll-up: one pass over the events filling per-connector and per-day
 * accumulators, against the group-by it stands for.
 */
module BreachAnalytics {
  import opened Options
  import opened OrderedMap
  import opened Sorting

  datatype Reason = SuccessRateBelowTarget | P95LatencyAboveTarget | NoFinishedRuns | Unlisted(text: string)

  datatype Event = Event(connectorId: string, connectorName: string, observedAt: string, reasons: seq<Reason>, acknowledged: bool)

  datatype Recent = Recent(reasons: seq<Reason>, at: string)

  /** A connector's accumulator. */
  datatype Acc = Acc(id: string, name: string, count: nat, last: string, recent: seq<Recent>)

  datatype Rollup = Rollup(id: string, name: string, count: nat, last: string, recentReasons: seq<seq<Reason>>)

  datatype DayBucket = DayBucket(day: string, count: nat)

  datatype ReasonCounts = ReasonCounts(success: nat, latency: nat, finished: nat)

  datatype Analytics = Analytics(
    sampleSize: nat, distinctConnectors: nat, acknowledged: nat, unacknowledged: int, ackRate: Option<real>,
    byReason: ReasonCounts, byDay: seq<DayBucket>, topBreachers: seq<Rollup>)

  const TOP_BREACHERS_CAP := 10
  const RECENT_REASONS_CAP := 3

  // ---- One event ----

  predicate Newer(a: string, b: string) {
    StringLe(b, a) && a != b
  }

  function DayOf(e: Event): string {
    if |e.observedAt| <= 10 then e.observedAt else e.observedAt[..10]
  }

  function Opened(e: Event): Acc {
    Acc(e.connectorId, e.connectorName, 0, e.observedAt, [])
  }

  /** Only a strictly newer event moves the last time and the name. */
  function Bump(a: Acc, e: Event): Acc {
    var b := a.(count := a.count + 1, recent := a.recent + [Recent(e.reasons, e.observedAt)]);
    if Newer(e.observedAt, a.last) then b.(last := e.observedAt, name := e.connectorName) else b
  }

  function AddReason(r: ReasonCounts, x: Reason): ReasonCounts {
    match x
    case SuccessRateBelowTarget => r.(success := r.success + 1)
    case P95LatencyAboveTarget => r.(latency := r.latency + 1)
    case NoFinishedRuns => r.(finished := r.finished + 1)
    case Unlisted(_) => r
  }

  function AddReasons(r: ReasonCounts, xs: seq<Reason>): ReasonCounts {
    if xs == [] then r else AddReason(AddReasons(r, xs[..|xs| - 1]), xs[|xs| - 1])
  }

  // ---- The pass, as folds ----

  function ConnectorNext(t: OMap<string, Acc>, e: Event): OMap<string, Acc> {
    var g := Get(t, e.connectorId);
    Set(t, e.connectorId, Bump(if g.Some? then g.value else Opened(e), e))
  }

  /** An event whose time is empty has no day. */
  function DayNext(t: OMap<string, nat>, e: Event): OMap<string, nat> {
    var day := DayOf(e);
    var g := Get(t, day);
    if day == "" then t else Set(t, day, (if g.Some? then g.value else 0) + 1)
  }

  function ConnectorsOf(events: seq<Event>): OMap<string, Acc> {
    if events == [] then [] else ConnectorNext(ConnectorsOf(events[..|events| - 1]), events[|events| - 1])
  }

  function DaysOf(events: seq<Event>): OMap<string, nat> {
    if events == [] then [] else DayNext(DaysOf(events[..|events| - 1]), events[|events| - 1])
  }

  function ReasonsOf(events: seq<Event>): ReasonCounts {
    if events == [] then ReasonCounts(0, 0, 0)
    else AddReasons(ReasonsOf(events[..|events| - 1]), events[|events| - 1].reasons)
  }

  function AckedOf(events: seq<Event>): (n: nat)
    ensures n <= |events|
  {
    if events == [] then 0 else AckedOf(events[..|events| - 1]) + if events[|events| - 1].acknowledged then 1 else 0
  }

  // ---- After the pass ----

  predicate NewestFirst(a: Recent, b: Recent) {
    StringLe(b.at, a.at)
  }

  function Trimmed(rs: seq<Recent>): seq<Recent> {
    Capped(Sort(NewestFirst, rs), RECENT_REASONS_CAP)
  }

  function Closed(a: Acc): Rollup {
    var rs := Trimmed(a.recent);
    Rollup(a.id, a.name, a.count, a.last, seq(|rs|, i requires 0 <= i < |rs| => rs[i].reasons))
  }

  /** What the ranking looks at. */
  datatype Rank = Rank(count: nat, last: string, id: string)

  function RankOf(r: Rollup): Rank {
    Rank(r.count, r.last, r.id)
  }

  /** More breaches first, then the later last breach, then the smaller id. */
  predicate RankLe(a: Rank, b: Rank) {
    if a.count != b.count then a.count > b.count
    else if a.last != b.last then StringLe(b.last, a.last)
    else StringLe(a.id, b.id)
  }

  predicate RollupLe(a: Rollup, b: Rollup) {
    RankLe(RankOf(a), RankOf(b))
  }

  predicate DayLe(a: DayBucket, b: DayBucket) {
    StringLe(a.day, b.day)
  }

  function Rollups(t: OMap<string, Acc>): (r: seq<Rollup>)
    ensures |r| == |t| && forall i :: 0 <= i < |t| ==> r[i] == Closed(t[i].val)
  {
    seq(|t|, i requires 0 <= i < |t| => Closed(t[i].val))
  }

  function Buckets(t: OMap<string, nat>): (r: seq<DayBucket>)
    ensures |r| == |t| && forall i :: 0 <= i < |t| ==> r[i] == DayBucket(t[i].key, t[i].val)
  {
    seq(|t|, i requires 0 <= i < |t| => DayBucket(t[i].key, t[i].val))
  }

  function Summary(events: seq<Event>): Analytics {
    var n, acked, conns := |events|, AckedOf(events), ConnectorsOf(events);
    Analytics(n, |conns|, acked, n - acked, if n == 0 then None else Some(acked as real / n as real),
              ReasonsOf(events), Sort(DayLe, Buckets(DaysOf(events))),
              Capped(Sort(RollupLe, Rollups(conns)), TOP_BREACHERS_CAP))
  }

  // ---- The aggregator ----

  method CountReasons(start: ReasonCounts, xs: seq<Reason>) returns (r: ReasonCounts)
    ensures r == AddReasons(start, xs)
  {
    r := start;
    for i := 0 to |xs|
      invariant r == AddReasons(start, xs[..i])
    {
      assert xs[..i + 1][..i] == xs[..i];
      r := AddReason(r, xs[i]);
    }
    assert xs[..|xs|] == xs;
  }

  method CloseAll(byConn: OMap<string, Acc>) returns (rollups: seq<Rollup>)
    ensures rollups == Rollups(byConn)
  {
    hide Closed;
    rollups := [];
    for i := 0 to |byConn|
      invariant rollups == Rollups(byConn)[..i]
    {
      rollups := rollups + [Closed(byConn[i].val)];
    }
  }

  method BucketAll(dayMap: OMap<string, nat>) returns (buckets: seq<DayBucket>)
    ensures buckets == Buckets(dayMap)
  {
    buckets := [];
    for i := 0 to |dayMap|
      invariant buckets == Buckets(dayMap)[..i]
    {
      buckets := buckets + [DayBucket(dayMap[i].key, dayMap[i].val)];
    }
  }

  method CountDay(dayMap: OMap<string, nat>, e: Event) returns (r: OMap<string, nat>)
    ensures r == DayNext(dayMap, e)
  {
    var day := DayOf(e);
    if day == "" { return dayMap; }
    var seen := Get(dayMap, day);
    r := Set(dayMap, day, (if seen.Some? then seen.value else 0) + 1);
  }

  method CountConnector(byConn: OMap<string, Acc>, e: Event) returns (r: OMap<string, Acc>)
    ensures r == ConnectorNext(byConn, e)
  {
    hide Set;
    var found := Get(byConn, e.connectorId);
    var acc := if found.Some? then found.value else Opened(e);
    acc := acc.(count := acc.count + 1, recent := acc.recent + [Recent(e.reasons, e.observedAt)]);
    if Newer(e.observedAt, acc.last) { acc := acc.(last := e.observedAt, name := e.connectorName); }
    r := Set(byConn, e.connectorId, acc);
  }

  method SummarizeBreachEvents(events: seq<Event>) returns (r: Analytics)
    ensures r == Summary(events)
  {
    hide Sort, AddReasons, Rollups, Buckets, ConnectorNext, DayNext;
    var byReason, acked := ReasonCounts(0, 0, 0), 0;
    var dayMap: OMap<string, nat>, byConn: OMap<string, Acc> := [], [];
    for i := 0 to |events|
      invariant byReason == ReasonsOf(events[..i]) && acked == AckedOf(events[..i])
      invariant dayMap == DaysOf(events[..i]) && byConn == ConnectorsOf(events[..i])
    {
      var e := events[i];
      assert events[..i + 1][..i] == events[..i] && events[..i + 1][i] == e;
      byReason := CountReasons(byReason, e.reasons);
      if e.acknowledged { acked := acked + 1; }
      dayMap := CountDay(dayMap, e);
      byConn := CountConnector(byConn, e);
    }
    assert events[..|events|] == events;
    var rollups := CloseAll(byConn);
    var buckets := BucketAll(dayMap);
    var n := |events|;
    r := Analytics(n, |byConn|, acked, n - acked, if n == 0 then None else Some(acked as real / n as real),
                   byReason, Sort(DayLe, buckets), Capped(Sort(RollupLe, rollups), TOP_BREACHERS_CAP));
  }

  // ---- The group-by ----

  function Of(events: seq<Event>, id: string): seq<Event> {
    if events == [] then [] else
      var before, e := Of(events[..|events| - 1], id), events[|events| - 1];
      if e.connectorId == id then before + [e] else before
  }

  /** The event's time begins with `day`, its first ten characters or all there are. */
  predicate FallsOn(e: Event, day: string) {
    day <= e.observedAt && (|day| == 10 || (|day| < 10 && day == e.observedAt))
  }

  lemma {:induction false} DayExactly(e: Event, day: string)
    ensures DayOf(e) == day <==> FallsOn(e, day)
  {
  }

  function OnDay(events: seq<Event>, day: string): (n: nat) {
    if events == [] then 0 else OnDay(events[..|events| - 1], day) + if FallsOn(events[|events| - 1], day) then 1 else 0
  }

  /** `last` is the latest time among the events, `name` the one carried by the first event at that time. */
  ghost predicate IsLatest(es: seq<Event>, last: string, name: string) {
    && (forall i :: 0 <= i < |es| ==> StringLe(es[i].observedAt, last))
    && exists k :: 0 <= k < |es| && es[k].observedAt == last && es[k].connectorName == name
                   && forall i :: 0 <= i < k ==> es[i].observedAt != last
  }

  ghost predicate IsGroup(a: Acc, id: string, es: seq<Event>) {
    && a.id == id && a.count == |es| == |a.recent|
    && (forall i :: 0 <= i < |es| ==> a.recent[i] == Recent(es[i].reasons, es[i].observedAt))
    && IsLatest(es, a.last, a.name)
  }

  lemma {:induction false} LatestPush(es: seq<Event>, last: string, name: string, e: Event)
    requires IsLatest(es, last, name)
    ensures if Newer(e.observedAt, last) then IsLatest(es + [e], e.observedAt, e.connectorName) else IsLatest(es + [e], last, name)
  {
    hide StringLe;
    StringLeTotalOrder();
    var all := es + [e];
    var k :| 0 <= k < |es| && es[k].observedAt == last && es[k].connectorName == name && forall i :: 0 <= i < k ==> es[i].observedAt != last;
    if Newer(e.observedAt, last) {
      assert all[|es|] == e;
      assert forall i :: 0 <= i < |es| ==> StringLe(es[i].observedAt, last);
      assert forall i :: 0 <= i < |es| ==> es[i].observedAt != e.observedAt;
    } else {
      assert all[k] == es[k];
    }
  }

  lemma {:induction false} OpenedGroup(e: Event)
    ensures IsGroup(Bump(Opened(e), e), e.connectorId, [e])
  {
    StringLeTotal(e.observedAt, e.observedAt);
    assert [e][0] == e;
  }

  lemma {:induction false} BumpGroup(a: Acc, id: string, es: seq<Event>, e: Event)
    requires IsGroup(a, id, es)
    ensures IsGroup(Bump(a, e), id, es + [e])
  {
    hide IsLatest;
    LatestPush(es, a.last, a.name, e);
  }

  /** One entry per connector, in order of first appearance, holding exactly what grouping by it gives. */
  lemma {:induction false} ConnectorsGroup(events: seq<Event>, id: string)
    ensures UniqueKeys(ConnectorsOf(events))
    ensures Get(ConnectorsOf(events), id).Some? <==> Of(events, id) != []
    ensures Get(ConnectorsOf(events), id).Some? ==> IsGroup(Get(ConnectorsOf(events), id).value, id, Of(events, id))
  {
    hide Get, Set, Bump, IsGroup;
    if events == [] {
      assert Get<string, Acc>([], id).None? by { EmptyGet(id); }
    } else {
      var before, e := events[..|events| - 1], events[|events| - 1];
      ConnectorsGroup(before, id);
      ConnectorsGroup(before, e.connectorId);
      var t := ConnectorsOf(before);
      var g := Get(t, e.connectorId);
      var a := Bump(if g.Some? then g.value else Opened(e), e);
      SetGet(t, e.connectorId, a, id);
      SetKeys(t, e.connectorId, a);
      if e.connectorId == id {
        if g.Some? { BumpGroup(g.value, id, Of(before, id), e); } else {
          OpenedGroup(e);
          assert Of(events, id) == [] + [e] == [e];
        }
      }
    }
  }

  lemma {:induction false} EmptyGet(id: string)
    ensures Get<string, Acc>([], id).None? && Get<string, nat>([], id).None?
  {
  }

  function CountWeight(a: Acc): int {
    a.count
  }

  /** Per-connector counts add up to the sample size. */
  lemma {:induction false} CountsSumToSample(events: seq<Event>)
    ensures Total(CountWeight, ConnectorsOf(events)) == |events|
  {
    hide Get, Set;
    if events != [] {
      var before, e := events[..|events| - 1], events[|events| - 1];
      CountsSumToSample(before);
      var t := ConnectorsOf(before);
      var g := Get(t, e.connectorId);
      TotalSet(CountWeight, t, e.connectorId, Bump(if g.Some? then g.value else Opened(e), e));
    }
  }

  /** One bucket per non-empty day, holding the number of events of that day. */
  lemma {:induction false} DaysGroup(events: seq<Event>, day: string)
    ensures UniqueKeys(DaysOf(events))
    ensures Get(DaysOf(events), day).Some? <==> day != "" && OnDay(events, day) > 0
    ensures Get(DaysOf(events), day).Some? ==> Get(DaysOf(events), day).value == OnDay(events, day)
  {
    hide Get, Set, DayOf, FallsOn;
    if events == [] {
      EmptyGet(day);
    } else {
      var before, d := events[..|events| - 1], DayOf(events[|events| - 1]);
      DayExactly(events[|events| - 1], day);
      DayExactly(events[|events| - 1], d);
      DaysGroup(before, day);
      DaysGroup(before, d);
      var t := DaysOf(before);
      var g := Get(t, d);
      var n := (if g.Some? then g.value else 0) + 1;
      SetGet(t, d, n, day);
      SetKeys(t, d, n);
    }
  }

  // ---- The ranking ----

  lemma {:induction false} RankOrder()
    ensures TotalPreorder(RankLe) && TotalPreorder(RollupLe)
    ensures forall a, b :: RankLe(a, b) && RankLe(b, a) ==> a == b
  {
    hide StringLe;
    StringLeTotalOrder();
  }

  /** The connector of `r` comes before the connector `id`: more breaches, or as many and a later last one, or that too and a smaller id. */
  ghost predicate Leads(events: seq<Event>, r: Rollup, id: string) {
    || |Of(events, r.id)| > |Of(events, id)|
    || (|Of(events, r.id)| == |Of(events, id)| &&
        forall last, name | IsLatest(Of(events, id), last, name) :: StringLt(last, r.last) || (last == r.last && StringLt(r.id, id)))
  }

  /** The roll-up says of its connector what grouping by it gives. */
  ghost predicate Summarises(events: seq<Event>, r: Rollup) {
    Of(events, r.id) != [] && r.count == |Of(events, r.id)| && IsLatest(Of(events, r.id), r.last, r.name)
  }

  lemma {:induction false} RollupOf(events: seq<Event>, i: nat)
    requires i < |ConnectorsOf(events)|
    ensures var r := Rollups(ConnectorsOf(events))[i]; Summarises(events, r) && r.id == ConnectorsOf(events)[i].key
  {
    hide Get, ConnectorsOf, Of, IsLatest, Trimmed;
    RanksUnique(events, i);
    ConnectorsGroup(events, ConnectorsOf(events)[i].key);
  }

  lemma {:induction false} RollupFor(events: seq<Event>, id: string) returns (i: nat)
    requires Of(events, id) != []
    ensures i < |ConnectorsOf(events)| && ConnectorsOf(events)[i].key == id
  {
    hide Get, ConnectorsOf, Of, IsGroup;
    ConnectorsGroup(events, id);
    GetIn(ConnectorsOf(events), id);
    i :| 0 <= i < |ConnectorsOf(events)| && ConnectorsOf(events)[i] == Entry(id, Get(ConnectorsOf(events), id).value);
  }

  lemma {:induction false} LatestOnce(es: seq<Event>, last: string, n: string, last': string, n': string)
    requires IsLatest(es, last, n) && IsLatest(es, last', n')
    ensures last == last'
  {
    LatestPermuted(es, es, last, n, last', n');
  }

  /** What the ranking's order means. */
  lemma {:induction false} RankMeans(events: seq<Event>, a: Rollup, b: Rollup)
    requires Summarises(events, a) && Summarises(events, b) && a.id != b.id && RollupLe(a, b)
    ensures Leads(events, a, b.id)
  {
    hide Of, IsLatest, StringLe;
    forall last, name | IsLatest(Of(events, b.id), last, name) ensures last == b.last { LatestOnce(Of(events, b.id), last, name, b.last, b.name); }
  }

  lemma {:induction false} ListedOnce(events: seq<Event>, i: nat, j: nat)
    requires i < j < |Sort(RollupLe, Rollups(ConnectorsOf(events)))|
    ensures var sorted := Sort(RollupLe, Rollups(ConnectorsOf(events)));
      sorted[i].id != sorted[j].id && Summarises(events, sorted[i]) && Summarises(events, sorted[j])
  {
    hide Sort, ConnectorsOf, Summarises, RollupLe;
    var all := Rollups(ConnectorsOf(events));
    var sorted := Sort(RollupLe, all);
    SortPermutes(RollupLe, all);
    IdsDistinct(events);
    InSort(RollupLe, all);
    assert sorted[i] in all && sorted[j] in all;
    var k :| 0 <= k < |all| && all[k] == sorted[i];
    var l :| 0 <= l < |all| && all[l] == sorted[j];
    RollupOf(events, k);
    RollupOf(events, l);
    if sorted[i] == sorted[j] {
      AtMostOnce(all, sorted[i]);
      TwicePresent(sorted, i, j);
    }
  }

  lemma {:induction false} IdsDistinct(events: seq<Event>)
    ensures var all := Rollups(ConnectorsOf(events)); Distinct(all) && forall i, j :: 0 <= i < j < |all| ==> all[i].id != all[j].id
  {
    hide ConnectorsOf, Summarises, Get;
    var t := ConnectorsOf(events);
    forall i, j | 0 <= i < j < |t| ensures Rollups(t)[i].id != Rollups(t)[j].id {
      RanksUnique(events, i);
      RollupOf(events, i);
      RollupOf(events, j);
    }
  }

  /**
   * Top breachers: ten of the connectors, or all if fewer. Each says what grouping by it gives, each leads
   * all that follow, and all of them lead every connector left out.
   */
  lemma {:induction false} TopBreachersAreBest(events: seq<Event>)
    ensures var top := Summary(events).topBreachers;
      && |top| == (if Summary(events).distinctConnectors < 10 then Summary(events).distinctConnectors else 10)
      && (forall r :: r in top ==> Summarises(events, r))
      && (forall i, j :: 0 <= i < j < |top| ==> Leads(events, top[i], top[j].id))
      && (forall r, id | r in top && Of(events, id) != [] && (forall q :: q in top ==> q.id != id) :: Leads(events, r, id))
  {
    hide Sort, ConnectorsOf, RollupLe, Summarises, Leads, Of;
    var all := Rollups(ConnectorsOf(events));
    var sorted, top := Sort(RollupLe, all), Summary(events).topBreachers;
    RankOrder();
    SortSorts(RollupLe, all);
    SortPermutes(RollupLe, all);
    InSort(RollupLe, all);
    forall r | r in top ensures Summarises(events, r) {
      var i :| 0 <= i < |top| && top[i] == r;
      assert sorted[i] in all;
      var k :| 0 <= k < |all| && all[k] == r;
      RollupOf(events, k);
    }
    forall i, j | 0 <= i < j < |sorted| ensures Leads(events, sorted[i], sorted[j].id) {
      ListedOnce(events, i, j);
      RankMeans(events, sorted[i], sorted[j]);
    }
    forall r, id | r in top && Of(events, id) != [] && (forall q :: q in top ==> q.id != id) ensures Leads(events, r, id) {
      var i :| 0 <= i < |top| && top[i] == r;
      var k := RollupFor(events, id);
      RollupOf(events, k);
      assert all[k] in sorted;
      var j :| 0 <= j < |sorted| && sorted[j] == all[k];
      assert forall l :: 0 <= l < |top| ==> top[l] in top && top[l] == sorted[l];
    }
  }

  /** `shown` are the newest of `all` up to a number, newest first; all others are no newer. */
  ghost predicate NewestOf(shown: seq<Recent>, all: seq<Recent>, cap: nat) {
    && |shown| == (if |all| < cap then |all| else cap)
    && (forall i, j :: 0 <= i < j < |shown| ==> StringLe(shown[j].at, shown[i].at))
    && exists rest :: multiset(shown + rest) == multiset(all) && forall x, y :: x in shown && y in rest ==> StringLe(y.at, x.at)
  }

  lemma {:induction false} TrimmedNewest(rs: seq<Recent>)
    ensures NewestOf(Trimmed(rs), rs, 3)
  {
    hide Sort, StringLe;
    StringLeTotalOrder();
    SortedPrefixIsBest(NewestFirst, rs, RECENT_REASONS_CAP);
    BestIsNewest(Trimmed(rs), rs);
  }

  lemma {:induction false} BestIsNewest(shown: seq<Recent>, rs: seq<Recent>)
    requires IsBest(NewestFirst, shown, rs, RECENT_REASONS_CAP)
    ensures NewestOf(shown, rs, 3)
  {
    hide StringLe;
    var rest :| multiset(shown + rest) == multiset(rs) && forall x, y :: x in shown && y in rest ==> NewestFirst(x, y);
    forall i, j | 0 <= i < j < |shown| ensures StringLe(shown[j].at, shown[i].at) { assert NewestFirst(shown[i], shown[j]); }
    forall x, y | x in shown && y in rest ensures StringLe(y.at, x.at) { assert NewestFirst(x, y); }
  }

  /** The reasons and times of events. */
  function Recents(es: seq<Event>): (r: seq<Recent>)
    ensures |r| == |es| && forall i :: 0 <= i < |es| ==> r[i] == Recent(es[i].reasons, es[i].observedAt)
  {
    seq(|es|, i requires 0 <= i < |es| => Recent(es[i].reasons, es[i].observedAt))
  }

  function ReasonsIn(rs: seq<Recent>): seq<seq<Reason>> {
    seq(|rs|, i requires 0 <= i < |rs| => rs[i].reasons)
  }

  /** For every connector listed, the reasons shown are those of its three newest events, newest first. */
  lemma {:induction false} RecentReasonsAreNewest(events: seq<Event>, r: Rollup)
    requires r in Summary(events).topBreachers
    ensures exists shown :: NewestOf(shown, Recents(Of(events, r.id)), 3) && r.recentReasons == ReasonsIn(shown)
  {
    hide Sort, ConnectorsOf, Of, NewestOf, Trimmed, Get;
    var t := ConnectorsOf(events);
    InSort(RollupLe, Rollups(t));
    assert r in Sort(RollupLe, Rollups(t));
    var i :| 0 <= i < |t| && Rollups(t)[i] == r;
    RanksUnique(events, i);
    ConnectorsGroup(events, t[i].key);
    assert t[i].val.recent == Recents(Of(events, r.id));
    TrimmedNewest(t[i].val.recent);
  }

  // ---- Plain counts ----

  lemma {:induction false} AddsExact(xs: seq<Reason>)
    ensures Adds(xs) == ReasonCounts(multiset(xs)[SuccessRateBelowTarget], multiset(xs)[P95LatencyAboveTarget], multiset(xs)[NoFinishedRuns])
  {
    if xs != [] {
      AddsExact(xs[..|xs| - 1]);
      assert xs == xs[..|xs| - 1] + [xs[|xs| - 1]];
    }
  }

  /** Where events are acknowledged. */
  ghost function AckedAt(events: seq<Event>): set<nat> {
    set i: nat | i < |events| && events[i].acknowledged
  }

  lemma {:induction false} AckedExact(events: seq<Event>)
    ensures AckedOf(events) == |AckedAt(events)|
  {
    if events == [] {
      assert AckedAt(events) == {};
    } else {
      var n: nat := |events| - 1;
      AckedExact(events[..n]);
      assert AckedAt(events) == AckedAt(events[..n]) + if events[n].acknowledged then {n} else {};
    }
  }

  /** The counters: each reason as often as events name it, acknowledged events, their rate, and the connectors that occur. */
  lemma {:induction false} CountersExact(events: seq<Event>)
    ensures var r, n, acked := Summary(events), |events|, |AckedAt(events)|;
      && r.sampleSize == n && r.acknowledged == acked && r.unacknowledged == n - acked
      && (r.ackRate.None? <==> n == 0) && (r.ackRate.Some? ==> r.ackRate.value * n as real == acked as real)
      && r.byReason.success == SumOver(events, (e: Event) => multiset(e.reasons)[SuccessRateBelowTarget])
      && r.byReason.latency == SumOver(events, (e: Event) => multiset(e.reasons)[P95LatencyAboveTarget])
      && r.byReason.finished == SumOver(events, (e: Event) => multiset(e.reasons)[NoFinishedRuns])
      && r.distinctConnectors == |ConnectorIds(events)|
  {
    hide Sort, ConnectorsOf, DaysOf, AckedAt, AckedOf, ConnectorIds, SumOver, ReasonsOf;
    AckedExact(events);
    ReasonSums(events);
    ConnectorsCounted(events);
    RateTimes(AckedOf(events), |events|);
  }

  lemma {:induction false} RateTimes(a: nat, n: nat)
    ensures n > 0 ==> a as real / n as real * n as real == a as real
  {
  }

  lemma {:induction false} ReasonSums(events: seq<Event>)
    ensures ReasonsOf(events).success == SumOver(events, (e: Event) => multiset(e.reasons)[SuccessRateBelowTarget])
    ensures ReasonsOf(events).latency == SumOver(events, (e: Event) => multiset(e.reasons)[P95LatencyAboveTarget])
    ensures ReasonsOf(events).finished == SumOver(events, (e: Event) => multiset(e.reasons)[NoFinishedRuns])
  {
    hide AddReasons;
    if events != [] {
      ReasonSums(events[..|events| - 1]);
      AddReasonsPlus(ReasonsOf(events[..|events| - 1]), events[|events| - 1].reasons);
      AddsExact(events[|events| - 1].reasons);
    }
  }

  ghost function ConnectorIds(events: seq<Event>): set<string> {
    set e | e in events :: e.connectorId
  }

  lemma {:induction false} ConnectorsCounted(events: seq<Event>)
    ensures |ConnectorsOf(events)| == |ConnectorIds(events)|
  {
    hide Get, Set, Bump;
    if events != [] {
      var before, e := events[..|events| - 1], events[|events| - 1];
      var t := ConnectorsOf(before);
      ConnectorsCounted(before);
      assert ConnectorIds(events) == ConnectorIds(before) + {e.connectorId};
      var g := Get(t, e.connectorId);
      var a := Bump(if g.Some? then g.value else Opened(e), e);
      ConnectorsGroup(before, e.connectorId);
      OfOccurs(before, e.connectorId);
      if g.Some? {
        SetOld(t, e.connectorId, a);
        assert |Set(t, e.connectorId, a)| == |t| && ConnectorIds(events) == ConnectorIds(before);
      } else { SetNew(t, e.connectorId, a); }
    } else {
      assert ConnectorIds(events) == {};
    }
  }

  lemma {:induction false} OfOccurs(events: seq<Event>, id: string)
    ensures Of(events, id) != [] <==> id in ConnectorIds(events)
  {
    if events != [] {
      var before, e := events[..|events| - 1], events[|events| - 1];
      OfOccurs(before, id);
      assert ConnectorIds(events) == ConnectorIds(before) + {e.connectorId};
    }
  }

  // ---- The order of the events does not matter ----

  lemma {:induction false} OfCount(events: seq<Event>, id: string)
    ensures multiset(Of(events, id)) == multiset(events) * multiset(Of(events, id))
    ensures forall e :: multiset(Of(events, id))[e] == if e.connectorId == id then multiset(events)[e] else 0
  {
    if events != [] {
      var before, e := events[..|events| - 1], events[|events| - 1];
      OfCount(before, id);
      assert events == before + [e];
    }
  }

  lemma {:induction false} OfPermuted(a: seq<Event>, b: seq<Event>, id: string)
    requires multiset(a) == multiset(b)
    ensures multiset(Of(a, id)) == multiset(Of(b, id)) && |Of(a, id)| == |Of(b, id)|
  {
    OfCount(a, id);
    OfCount(b, id);
    assert forall e :: multiset(Of(a, id))[e] == multiset(Of(b, id))[e];
    assert |multiset(Of(a, id))| == |Of(a, id)| && |multiset(Of(b, id))| == |Of(b, id)|;
  }

  lemma {:induction false} LatestPermuted(a: seq<Event>, b: seq<Event>, last: string, n: string, last': string, n': string)
    requires multiset(a) == multiset(b) && IsLatest(a, last, n) && IsLatest(b, last', n')
    ensures last == last'
  {
    hide StringLe;
    StringLeTotalOrder();
    var i :| 0 <= i < |a| && a[i].observedAt == last;
    var j :| 0 <= j < |b| && b[j].observedAt == last';
    assert a[i] in multiset(b) && b[j] in multiset(a);
    var i' :| 0 <= i' < |b| && b[i'] == a[i];
    var j' :| 0 <= j' < |a| && a[j'] == b[j];
    assert StringLe(last, last') && StringLe(last', last);
  }

  /** The ranks of all connectors. */
  function Ranks(t: OMap<string, Acc>): (r: seq<Rank>)
    ensures |r| == |t| && forall i :: 0 <= i < |t| ==> r[i] == Rank(t[i].val.count, t[i].val.last, t[i].val.id)
  {
    seq(|t|, i requires 0 <= i < |t| => Rank(t[i].val.count, t[i].val.last, t[i].val.id))
  }

  lemma {:induction false} RanksUnique(events: seq<Event>, i: nat)
    requires i < |ConnectorsOf(events)|
    ensures var t := ConnectorsOf(events); UniqueKeys(t) && Get(t, t[i].key) == Some(t[i].val) && t[i].val.id == t[i].key
  {
    hide Get, ConnectorsOf;
    var t := ConnectorsOf(events);
    ConnectorsGroup(events, t[i].key);
    InGet(t, i);
  }

  lemma {:induction false} RanksSubset(a: seq<Event>, b: seq<Event>, r: Rank)
    requires multiset(a) == multiset(b) && r in Ranks(ConnectorsOf(a))
    ensures r in Ranks(ConnectorsOf(b))
  {
    hide Get, ConnectorsOf, Of, IsLatest;
    var ta, tb := ConnectorsOf(a), ConnectorsOf(b);
    var i :| 0 <= i < |ta| && Ranks(ta)[i] == r;
    RanksUnique(a, i);
    var id := ta[i].key;
    ConnectorsGroup(a, id);
    ConnectorsGroup(b, id);
    OfPermuted(a, b, id);
    GetIn(tb, id);
    var j :| 0 <= j < |tb| && tb[j] == Entry(id, Get(tb, id).value);
    LatestPermuted(Of(a, id), Of(b, id), ta[i].val.last, ta[i].val.name, tb[j].val.last, tb[j].val.name);
    assert Ranks(tb)[j] == r;
  }

  ghost predicate Distinct<T>(s: seq<T>) {
    forall i, j :: 0 <= i < j < |s| ==> s[i] != s[j]
  }

  lemma {:induction false} DistinctSameMultiset<T>(a: seq<T>, b: seq<T>)
    requires Distinct(a) && Distinct(b)
    requires forall x :: x in a <==> x in b
    ensures multiset(a) == multiset(b)
  {
    forall x ensures multiset(a)[x] == multiset(b)[x] {
      AtMostOnce(a, x);
      AtMostOnce(b, x);
      assert x in a <==> x in multiset(a);
      assert x in b <==> x in multiset(b);
    }
  }

  lemma {:induction false} AtMostOnce<T>(a: seq<T>, x: T)
    requires Distinct(a)
    ensures multiset(a)[x] <= 1
  {
    if a != [] {
      AtMostOnce(a[1..], x);
      assert a == [a[0]] + a[1..];
      if x == a[0] {
        assert x !in a[1..];
        assert x !in multiset(a[1..]);
      }
    }
  }

  lemma {:induction false} RanksDistinct(events: seq<Event>)
    ensures Distinct(Ranks(ConnectorsOf(events)))
  {
    hide Get, ConnectorsOf;
    var t := ConnectorsOf(events);
    forall i, j | 0 <= i < j < |t| ensures Ranks(t)[i] != Ranks(t)[j] {
      RanksUnique(events, i);
      RanksUnique(events, j);
    }
  }

  lemma {:induction false} RanksPermuted(a: seq<Event>, b: seq<Event>)
    requires multiset(a) == multiset(b)
    ensures multiset(Ranks(ConnectorsOf(a))) == multiset(Ranks(ConnectorsOf(b)))
  {
    hide ConnectorsOf;
    RanksDistinct(a);
    RanksDistinct(b);
    forall r ensures r in Ranks(ConnectorsOf(a)) <==> r in Ranks(ConnectorsOf(b)) {
      if r in Ranks(ConnectorsOf(a)) { RanksSubset(a, b, r); }
      if r in Ranks(ConnectorsOf(b)) { RanksSubset(b, a, r); }
    }
    DistinctSameMultiset(Ranks(ConnectorsOf(a)), Ranks(ConnectorsOf(b)));
  }

  function RankAll(rs: seq<Rollup>): (r: seq<Rank>)
    ensures |r| == |rs| && forall i :: 0 <= i < |rs| ==> r[i] == RankOf(rs[i])
  {
    seq(|rs|, i requires 0 <= i < |rs| => RankOf(rs[i]))
  }

  lemma {:induction false} RankInsert(x: Rollup, s: seq<Rollup>)
    ensures RankAll(Insert(RollupLe, x, s)) == Insert(RankLe, RankOf(x), RankAll(s))
  {
    if s == [] || RollupLe(x, s[0]) {
      assert RankAll([x] + s) == [RankOf(x)] + RankAll(s);
    } else {
      RankInsert(x, s[1..]);
      assert RankAll(s)[1..] == RankAll(s[1..]);
      assert RankAll([s[0]] + Insert(RollupLe, x, s[1..])) == [RankOf(s[0])] + RankAll(Insert(RollupLe, x, s[1..]));
    }
  }

  /** Sorting roll-ups sorts their ranks. */
  lemma {:induction false} RankSort(s: seq<Rollup>)
    ensures RankAll(Sort(RollupLe, s)) == Sort(RankLe, RankAll(s))
  {
    if s != [] {
      RankSort(s[1..]);
      RankInsert(s[0], Sort(RollupLe, s[1..]));
      assert RankAll(s)[1..] == RankAll(s[1..]);
    }
  }

  lemma {:induction false} RankingPermuted(a: seq<Event>, b: seq<Event>)
    requires multiset(a) == multiset(b)
    ensures RankAll(Summary(a).topBreachers) == RankAll(Summary(b).topBreachers)
    ensures Summary(a).distinctConnectors == Summary(b).distinctConnectors
  {
    hide Sort, ConnectorsOf, RankLe, RollupLe;
    var ra, rb := Rollups(ConnectorsOf(a)), Rollups(ConnectorsOf(b));
    RanksPermuted(a, b);
    RankOrder();
    assert RankAll(ra) == Ranks(ConnectorsOf(a)) && RankAll(rb) == Ranks(ConnectorsOf(b));
    SortForgetsOrder(RankLe, RankAll(ra), RankAll(rb));
    RankSort(ra);
    RankSort(rb);
    SortPermutes(RollupLe, ra);
    SortPermutes(RollupLe, rb);
    CapRanks(Sort(RollupLe, ra), Sort(RollupLe, rb));
    assert |multiset(RankAll(ra))| == |RankAll(ra)| && |multiset(RankAll(rb))| == |RankAll(rb)|;
  }

  lemma {:induction false} CapRanks(x: seq<Rollup>, y: seq<Rollup>)
    requires RankAll(x) == RankAll(y)
    ensures RankAll(Capped(x, TOP_BREACHERS_CAP)) == RankAll(Capped(y, TOP_BREACHERS_CAP))
  {
    assert |x| == |y|;
    assert forall i :: 0 <= i < |x| ==> RankAll(x)[i] == RankAll(y)[i];
  }

  // ---- Counts do not depend on the order either ----

  /** How often the reasons of one event raise each counter. */
  function Adds(xs: seq<Reason>): ReasonCounts {
    AddReasons(ReasonCounts(0, 0, 0), xs)
  }

  function Plus(a: ReasonCounts, b: ReasonCounts): ReasonCounts {
    ReasonCounts(a.success + b.success, a.latency + b.latency, a.finished + b.finished)
  }

  lemma {:induction false} AddReasonsPlus(r: ReasonCounts, xs: seq<Reason>)
    ensures AddReasons(r, xs) == Plus(r, Adds(xs))
  {
    if xs != [] { AddReasonsPlus(r, xs[..|xs| - 1]); }
  }

  /** A sum over the events, in order. */
  function SumOver(events: seq<Event>, w: Event -> int): int {
    if events == [] then 0 else SumOver(events[..|events| - 1], w) + w(events[|events| - 1])
  }

  lemma {:induction false} SumRemove(events: seq<Event>, w: Event -> int, k: nat)
    requires k < |events|
    ensures SumOver(events, w) == SumOver(events[..k] + events[k + 1..], w) + w(events[k])
  {
    var n := |events| - 1;
    var without := events[..k] + events[k + 1..];
    if k < n {
      SumRemove(events[..n], w, k);
      assert events[..n][..k] + events[..n][k + 1..] == without[..|without| - 1];
      assert without[|without| - 1] == events[n];
    } else {
      assert without == events[..n];
    }
  }

  /** The last element of `a` sits somewhere in `b`; taking it out of both leaves permutations. */
  lemma {:induction false} TakeOut(a: seq<Event>, b: seq<Event>) returns (k: nat)
    requires multiset(a) == multiset(b) && a != []
    ensures k < |b| && b[k] == a[|a| - 1]
    ensures multiset(a[..|a| - 1]) == multiset(b[..k] + b[k + 1..])
  {
    var n := |a| - 1;
    assert a == a[..n] + [a[n]];
    assert a[n] in multiset(b);
    k :| 0 <= k < |b| && b[k] == a[n];
    assert b == b[..k] + [b[k]] + b[k + 1..];
    assert multiset(b[..k] + b[k + 1..]) == multiset(b) - multiset{a[n]};
  }

  lemma {:induction false} SumPermuted(a: seq<Event>, b: seq<Event>, w: Event -> int)
    requires multiset(a) == multiset(b)
    ensures SumOver(a, w) == SumOver(b, w)
    decreases |a|
  {
    assert |multiset(a)| == |a| && |multiset(b)| == |b|;
    if a != [] {
      var k := TakeOut(a, b);
      SumPermuted(a[..|a| - 1], b[..k] + b[k + 1..], w);
      SumRemove(b, w, k);
    }
  }

  lemma {:induction false} FoldsAreSums(events: seq<Event>, day: string)
    ensures AckedOf(events) == SumOver(events, (e: Event) => if e.acknowledged then 1 else 0)
    ensures OnDay(events, day) == SumOver(events, (e: Event) => if FallsOn(e, day) then 1 else 0)
    ensures ReasonsOf(events).success == SumOver(events, (e: Event) => Adds(e.reasons).success)
    ensures ReasonsOf(events).latency == SumOver(events, (e: Event) => Adds(e.reasons).latency)
    ensures ReasonsOf(events).finished == SumOver(events, (e: Event) => Adds(e.reasons).finished)
  {
    hide AddReasons, FallsOn;
    if events != [] {
      FoldsAreSums(events[..|events| - 1], day);
      AddReasonsPlus(ReasonsOf(events[..|events| - 1]), events[|events| - 1].reasons);
    }
  }

  lemma {:induction false} FoldsPermuted(a: seq<Event>, b: seq<Event>, day: string)
    requires multiset(a) == multiset(b)
    ensures AckedOf(a) == AckedOf(b) && OnDay(a, day) == OnDay(b, day) && ReasonsOf(a) == ReasonsOf(b)
  {
    hide AddReasons, FallsOn, SumOver, AckedOf, OnDay, ReasonsOf;
    FoldsAreSums(a, day);
    FoldsAreSums(b, day);
    SumPermuted(a, b, (e: Event) => if e.acknowledged then 1 else 0);
    SumPermuted(a, b, (e: Event) => if FallsOn(e, day) then 1 else 0);
    SumPermuted(a, b, (e: Event) => Adds(e.reasons).success);
    SumPermuted(a, b, (e: Event) => Adds(e.reasons).latency);
    SumPermuted(a, b, (e: Event) => Adds(e.reasons).finished);
  }

  lemma {:induction false} BucketIn(events: seq<Event>, x: DayBucket)
    ensures x in Buckets(DaysOf(events)) <==> x.day != "" && x.count == OnDay(events, x.day) > 0
    ensures UniqueKeys(DaysOf(events))
  {
    hide Get, DaysOf, OnDay;
    var t := DaysOf(events);
    DaysGroup(events, x.day);
    if x in Buckets(t) {
      var i :| 0 <= i < |t| && Buckets(t)[i] == x;
      InGet(t, i);
    }
    if x.day != "" && x.count == OnDay(events, x.day) > 0 {
      GetIn(t, x.day);
      var i :| 0 <= i < |t| && t[i] == Entry(x.day, Get(t, x.day).value);
      assert Buckets(t)[i] == x;
    }
  }

  /** The days ascend strictly, and are exactly the non-empty days that occur, each with its number of events. */
  lemma {:induction false} ByDayExact(events: seq<Event>)
    ensures var days := Summary(events).byDay; forall i, j :: 0 <= i < j < |days| ==> StringLt(days[i].day, days[j].day)
    ensures forall x :: x in Summary(events).byDay <==> x.day != "" && x.count == OnDay(events, x.day) > 0
  {
    hide Sort, DaysOf, OnDay, StringLe, Distinct;
    ByDayOnce(events);
    StringLeTotalOrder();
    SortSorts(DayLe, Buckets(DaysOf(events)));
    InSort(DayLe, Buckets(DaysOf(events)));
    forall x ensures x in Summary(events).byDay <==> x.day != "" && x.count == OnDay(events, x.day) > 0 { BucketIn(events, x); }
  }

  lemma {:induction false} SortedDistinct(bs: seq<DayBucket>)
    requires Distinct(bs)
    ensures Distinct(Sort(DayLe, bs))
  {
    hide Sort;
    var r := Sort(DayLe, bs);
    SortPermutes(DayLe, bs);
    forall i, j | 0 <= i < j < |r| ensures r[i] != r[j] {
      AtMostOnce(bs, r[i]);
      if r[i] == r[j] { TwicePresent(r, i, j); }
    }
  }

  lemma {:induction false} TwicePresent<T>(s: seq<T>, i: nat, j: nat)
    requires i < j < |s| && s[i] == s[j]
    ensures multiset(s)[s[i]] >= 2
  {
    assert s == s[..i] + [s[i]] + s[i + 1..j] + [s[j]] + s[j + 1..];
  }

  lemma {:induction false} ByDayOnce(events: seq<Event>)
    ensures var days := Summary(events).byDay; forall i, j :: 0 <= i < j < |days| ==> StringLt(days[i].day, days[j].day)
  {
    hide Sort, DaysOf, OnDay, StringLe;
    var bs, days := Buckets(DaysOf(events)), Summary(events).byDay;
    BucketIn(events, DayBucket("", 0));
    SortedDistinct(bs);
    StringLeTotalOrder();
    SortSorts(DayLe, bs);
    InSort(DayLe, bs);
    forall i, j | 0 <= i < j < |days| ensures StringLt(days[i].day, days[j].day) {
      assert DayLe(days[i], days[j]);
      assert days[i] in bs && days[j] in bs;
      BucketIn(events, days[i]);
      BucketIn(events, days[j]);
    }
  }

  lemma {:induction false} ByDayPermuted(a: seq<Event>, b: seq<Event>)
    requires multiset(a) == multiset(b)
    ensures Summary(a).byDay == Summary(b).byDay
  {
    hide Sort, DaysOf, OnDay, StringLe;
    var ba, bb := Buckets(DaysOf(a)), Buckets(DaysOf(b));
    forall x ensures x in ba <==> x in bb {
      BucketIn(a, x);
      BucketIn(b, x);
      FoldsPermuted(a, b, x.day);
    }
    BucketIn(a, DayBucket("", 0));
    BucketIn(b, DayBucket("", 0));
    DistinctSameMultiset(ba, bb);
    StringLeTotalOrder();
    forall x, y | x in ba && y in ba && DayLe(x, y) && DayLe(y, x) ensures x == y {
      BucketIn(a, x);
      BucketIn(a, y);
    }
    SortForgetsOrder(DayLe, ba, bb);
  }

  /** No permutation of the events changes a count, a day bucket or the ranking. */
  lemma {:induction false} SummaryPermuted(a: seq<Event>, b: seq<Event>)
    requires multiset(a) == multiset(b)
    ensures var x, y := Summary(a), Summary(b);
      && x.sampleSize == y.sampleSize && x.distinctConnectors == y.distinctConnectors
      && x.acknowledged == y.acknowledged && x.unacknowledged == y.unacknowledged && x.ackRate == y.ackRate
      && x.byReason == y.byReason && x.byDay == y.byDay
      && RankAll(x.topBreachers) == RankAll(y.topBreachers)
  {
    hide Sort, ConnectorsOf, DaysOf, ReasonsOf, AckedOf;
    FoldsPermuted(a, b, "");
    ByDayPermuted(a, b);
    RankingPermuted(a, b);
    assert |multiset(a)| == |a| && |multiset(b)| == |b|;
  }
}
