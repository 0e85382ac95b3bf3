/**
 * Draining the queue: every pending action is marked in flight, dispatched once and settled by the
 * outcome. The dispatcher and the clock are arbitrary functions.
 */
module SyncRunner {
  import opened Options
  import opened OrderedMap
  import opened Sorting
  import opened OfflineQueue

  /** The dispatcher returned true, returned false, threw PermanentSyncError, or threw anything else. */
  datatype Outcome = Delivered | Refused | Permanent(message: string) | Thrown(reason: Option<string>)

  datatype Report = Report(attempted: nat, succeeded: nat, retried: nat, failedPermanent: nat, remaining: nat)

  /** The i-th action of a drain meets `dispatch(action, i)` and is stamped `clock(i)`. */
  datatype Env = Env(dispatch: (QueuedAction, nat) -> Outcome, clock: nat -> int, maxRetries: int)

  // ---- One action ----

  function MarkPatch(now: int): Patch {
    NoChange.(status := Some(InFlight), lastAttemptAt := Some(Some(now)))
  }

  predicate GivesUp(a: QueuedAction, o: Outcome, maxRetries: int) {
    o.Permanent? || (!o.Delivered? && a.retryCount + 1 >= maxRetries)
  }

  function ErrorText(o: Outcome, givesUp: bool): string {
    match o
    case Delivered => ""
    case Refused => if givesUp then "max_retries_exceeded" else "retryable_failure"
    case Permanent(message) => message
    case Thrown(reason) => Or(reason, "unknown_error")
  }

  function SettlePatch(a: QueuedAction, o: Outcome, maxRetries: int): Patch {
    var givesUp := GivesUp(a, o, maxRetries);
    NoChange.(
      status := Some(if givesUp then FailedPermanent else Pending),
      retryCount := if o.Permanent? then None else Some(a.retryCount + 1),
      lastError := Some(Some(ErrorText(o, givesUp))))
  }

  function Mark(s: Store, a: QueuedAction, now: int): Store {
    Update(s, a.key, MarkPatch(now)).0
  }

  function Settle(s: Store, a: QueuedAction, o: Outcome, maxRetries: int): Store {
    if o.Delivered? then Remove(s, a.key).0 else Update(s, a.key, SettlePatch(a, o, maxRetries)).0
  }

  function Attempt(s: Store, a: QueuedAction, o: Outcome, now: int, maxRetries: int): Store {
    Settle(Mark(s, a, now), a, o, maxRetries)
  }

  /** What is stored of an action after its attempt. */
  function Final(a: QueuedAction, o: Outcome, now: int, maxRetries: int): Option<QueuedAction> {
    if o.Delivered? then None else Some(Apply(SettlePatch(a, o, maxRetries), Apply(MarkPatch(now), a)))
  }

  // ---- A whole drain ----

  function StoreAfter(s: Store, todo: seq<QueuedAction>, n: nat, env: Env): Store
    requires n <= |todo|
  {
    if n == 0 then s
    else
      var a := todo[n - 1];
      Attempt(StoreAfter(s, todo, n - 1, env), a, env.dispatch(a, n - 1), env.clock(n - 1), env.maxRetries)
  }

  function TallyAfter(todo: seq<QueuedAction>, n: nat, env: Env): Report
    requires n <= |todo|
  {
    if n == 0 then Report(0, 0, 0, 0, 0)
    else
      var r := TallyAfter(todo, n - 1, env);
      var a := todo[n - 1];
      var o := env.dispatch(a, n - 1);
      if o.Delivered? then r.(attempted := r.attempted + 1, succeeded := r.succeeded + 1)
      else if GivesUp(a, o, env.maxRetries) then r.(attempted := r.attempted + 1, failedPermanent := r.failedPermanent + 1)
      else r.(attempted := r.attempted + 1, retried := r.retried + 1)
  }

  function Todo(s: Store): seq<QueuedAction> {
    List(s, Some(Pending))
  }

  function DrainStore(s: Store, env: Env): Store {
    StoreAfter(s, Todo(s), |Todo(s)|, env)
  }

  function DrainReport(s: Store, env: Env): Report {
    TallyAfter(Todo(s), |Todo(s)|, env).(remaining := |Todo(DrainStore(s, env))|)
  }

  class Runner {
    const queue: InMemoryOfflineQueue
    const maxRetries: int

    constructor (queue: InMemoryOfflineQueue, maxRetries: Option<int>)
      ensures this.queue == queue && this.maxRetries == Or(maxRetries, 6)
    {
      this.queue := queue;
      this.maxRetries := Or(maxRetries, 6);
    }

    method ListPending() returns (r: seq<QueuedAction>)
      ensures r == Todo(queue.items)
    {
      hide Sort, WithStatus, TiedWith;
      r := queue.ListActions(Some(Pending));
      ListingDetermined(queue.items, Some(Pending), r);
    }

    method Drain(dispatch: (QueuedAction, nat) -> Outcome, clock: nat -> int) returns (report: Report)
      modifies queue
      ensures queue.items == DrainStore(old(queue.items), Env(dispatch, clock, maxRetries))
      ensures report == DrainReport(old(queue.items), Env(dispatch, clock, maxRetries))
    {
      hide Update, Remove, Todo, Sort, WithStatus;
      ghost var env := Env(dispatch, clock, maxRetries);
      report := Report(0, 0, 0, 0, 0);
      var pending := ListPending();
      for i := 0 to |pending|
        invariant queue.items == StoreAfter(old(queue.items), pending, i, env)
        invariant report == TallyAfter(pending, i, env)
      {
        var action := pending[i];
        report := report.(attempted := report.attempted + 1);
        var _ := queue.UpdateAction(action.key, NoChange.(status := Some(InFlight), lastAttemptAt := Some(Some(clock(i)))));
        match dispatch(action, i)
        case Delivered =>
          var _ := queue.RemoveAction(action.key);
          report := report.(succeeded := report.succeeded + 1);
        case Permanent(message) =>
          var _ := queue.UpdateAction(action.key, NoChange.(status := Some(FailedPermanent), lastError := Some(Some(message))));
          report := report.(failedPermanent := report.failedPermanent + 1);
        case Refused =>
          var next := action.retryCount + 1;
          if next >= maxRetries {
            var _ := queue.UpdateAction(action.key, NoChange.(status := Some(FailedPermanent), retryCount := Some(next), lastError := Some(Some("max_retries_exceeded"))));
            report := report.(failedPermanent := report.failedPermanent + 1);
          } else {
            var _ := queue.UpdateAction(action.key, NoChange.(status := Some(Pending), retryCount := Some(next), lastError := Some(Some("retryable_failure"))));
            report := report.(retried := report.retried + 1);
          }
        case Thrown(reason) =>
          var next := action.retryCount + 1;
          if next >= maxRetries {
            var _ := queue.UpdateAction(action.key, NoChange.(status := Some(FailedPermanent), retryCount := Some(next), lastError := Some(Some(Or(reason, "unknown_error")))));
            report := report.(failedPermanent := report.failedPermanent + 1);
          } else {
            var _ := queue.UpdateAction(action.key, NoChange.(status := Some(Pending), retryCount := Some(next), lastError := Some(Some(Or(reason, "unknown_error")))));
            report := report.(retried := report.retried + 1);
          }
      }
      var stillPending := ListPending();
      report := report.(remaining := |stillPending|);
    }
  }

  // ---- What listing the pending actions returns ----

  ghost predicate DistinctKeys(actions: seq<QueuedAction>) {
    forall i, j :: 0 <= i < j < |actions| ==> actions[i].key != actions[j].key
  }

  /** Every action of `actions` is stored under its key, just as listed. */
  ghost predicate Stored(s: Store, actions: seq<QueuedAction>) {
    forall a :: a in actions ==> Get(s, a.key) == Some(a)
  }

  lemma {:induction false} WithStatusIn(actions: seq<QueuedAction>, status: Status)
    ensures forall a :: a in WithStatus(actions, Some(status)) <==> a in actions && a.status == status
    ensures DistinctKeys(actions) ==> DistinctKeys(WithStatus(actions, Some(status)))
  {
    if actions != [] {
      WithStatusIn(actions[1..], status);
      var rest := WithStatus(actions[1..], Some(status));
      forall i | 0 <= i < |rest| ensures rest[i] in actions[1..] { assert rest[i] in rest; }
    }
  }

  lemma {:induction false} InsertDistinct(a: QueuedAction, actions: seq<QueuedAction>)
    requires DistinctKeys(actions) && forall b :: b in actions ==> b.key != a.key
    ensures DistinctKeys(Insert(FifoLe, a, actions))
    ensures forall b :: b in Insert(FifoLe, a, actions) <==> b == a || b in actions
  {
    if actions != [] && !FifoLe(a, actions[0]) {
      var tail := Insert(FifoLe, a, actions[1..]);
      InsertDistinct(a, actions[1..]);
      forall i | 0 <= i < |tail| ensures tail[i].key != actions[0].key {
        assert tail[i] in tail;
      }
    }
  }

  lemma {:induction false} SortDistinct(actions: seq<QueuedAction>)
    requires DistinctKeys(actions)
    ensures DistinctKeys(Sort(FifoLe, actions))
  {
    hide Insert;
    if actions != [] {
      var rest := Sort(FifoLe, actions[1..]);
      SortDistinct(actions[1..]);
      InSort(FifoLe, actions[1..]);
      forall i | 0 <= i < |rest| ensures rest[i].key != actions[0].key {
        assert rest[i] in rest;
      }
      assert forall b :: b in rest ==> b.key != actions[0].key;
      InsertDistinct(actions[0], rest);
    }
  }

  lemma {:induction false} TodoFacts(s: Store)
    requires Coherent(s)
    ensures DistinctKeys(Todo(s)) && Stored(s, Todo(s))
    ensures forall e :: e in s && e.val.status == Pending ==> e.val in Todo(s)
    ensures forall a :: a in Todo(s) ==> a.status == Pending
  {
    hide Sort, WithStatus, Get;
    var vs := Values(s);
    forall i, j | 0 <= i < j < |vs| ensures vs[i].key != vs[j].key {
      assert s[i] in s && s[j] in s;
    }
    WithStatusIn(vs, Pending);
    SortDistinct(WithStatus(vs, Some(Pending)));
    InSort(FifoLe, WithStatus(vs, Some(Pending)));
    forall a | a in vs ensures Get(s, a.key) == Some(a) {
      var i :| 0 <= i < |vs| && vs[i] == a;
      assert s[i] in s;
      InGet(s, i);
    }
    forall e | e in s ensures e.val in vs {
      var i :| 0 <= i < |s| && s[i] == e;
      assert vs[i] == e.val;
    }
  }

  // ---- What a drain leaves behind ----

  lemma {:induction false} AttemptGet(s: Store, a: QueuedAction, o: Outcome, now: int, maxRetries: int, key: string)
    requires Coherent(s) && Get(s, a.key) == Some(a)
    ensures Coherent(Attempt(s, a, o, now, maxRetries))
    ensures Get(Attempt(s, a, o, now, maxRetries), key) == if key == a.key then Final(a, o, now, maxRetries) else Get(s, key)
  {
    hide Get, Set, Delete;
    var marked, b := Mark(s, a, now), Apply(MarkPatch(now), a);
    SetKeys(s, a.key, b);
    SetGet(s, a.key, b, key);
    SetGet(s, a.key, b, a.key);
    if o.Delivered? {
      DeleteKeys(marked, a.key);
      DeleteGet(marked, a.key, key);
    } else {
      var c := Apply(SettlePatch(a, o, maxRetries), b);
      SetKeys(marked, a.key, c);
      SetGet(marked, a.key, c, key);
    }
  }

  /** The actions already attempted have their final form; everything else is untouched. */
  lemma {:induction false} AfterGet(s: Store, todo: seq<QueuedAction>, n: nat, env: Env, key: string)
    requires Coherent(s) && DistinctKeys(todo) && Stored(s, todo) && n <= |todo|
    ensures Coherent(StoreAfter(s, todo, n, env))
    ensures (forall i :: 0 <= i < n ==> todo[i].key != key) ==> Get(StoreAfter(s, todo, n, env), key) == Get(s, key)
    ensures forall i :: 0 <= i < n && todo[i].key == key ==>
      Get(StoreAfter(s, todo, n, env), key) == Final(todo[i], env.dispatch(todo[i], i), env.clock(i), env.maxRetries)
  {
    hide Attempt, Final, Get, Coherent;
    if n > 0 {
      var a, before := todo[n - 1], StoreAfter(s, todo, n - 1, env);
      assert Get(before, a.key) == Some(a) by {
        assert a in todo;
        AfterGet(s, todo, n - 1, env, a.key);
      }
      hide Stored;
      AfterGet(s, todo, n - 1, env, key);
      AttemptGet(before, a, env.dispatch(a, n - 1), env.clock(n - 1), env.maxRetries, key);
    }
  }

  /** When its turn comes, an action is still stored as it was listed. */
  lemma {:induction false} BeforeAttempt(s: Store, todo: seq<QueuedAction>, n: nat, env: Env)
    requires Coherent(s) && DistinctKeys(todo) && Stored(s, todo) && n < |todo|
    ensures Coherent(StoreAfter(s, todo, n, env)) && Get(StoreAfter(s, todo, n, env), todo[n].key) == Some(todo[n])
    ensures todo[n] in todo
  {
    hide StoreAfter, Get, Coherent;
    AfterGet(s, todo, n, env, todo[n].key);
  }

  /** A drain settles every pending action by its outcome, and touches no other entry. */
  lemma {:induction false} DrainSettles(s: Store, env: Env, key: string)
    requires Coherent(s)
    ensures Coherent(DrainStore(s, env))
    ensures Get(s, key).Some? && Get(s, key).value.status == Pending ==>
      exists i :: 0 <= i < |Todo(s)| && Todo(s)[i] == Get(s, key).value &&
        Get(DrainStore(s, env), key) == Final(Todo(s)[i], env.dispatch(Todo(s)[i], i), env.clock(i), env.maxRetries)
    ensures Get(s, key).None? || Get(s, key).value.status != Pending ==> Get(DrainStore(s, env), key) == Get(s, key)
  {
    hide Todo, Get, Final;
    var todo := Todo(s);
    TodoFacts(s);
    AfterGet(s, todo, |todo|, env, key);
    if Get(s, key).Some? && Get(s, key).value.status == Pending {
      GetIn(s, key);
      var i :| 0 <= i < |todo| && todo[i] == Get(s, key).value;
      assert todo[i].key == key;
    } else {
      forall i | 0 <= i < |todo| ensures todo[i].key != key { assert todo[i] in todo; }
    }
  }

  /** The form in which an action that failed is kept: how it stands, its retries, when it was tried and why it failed. */
  function Kept(a: QueuedAction, status: Status, retries: int, at: int, why: string): Option<QueuedAction> {
    Some(QueuedAction(a.key, a.request, a.enqueuedAt, retries, Some(at), Some(why), status))
  }

  /**
   * What a drain leaves of the i-th pending action, outcome by outcome. A delivered one is gone; a permanent
   * error is final at once and costs no retry; any other failure costs one, and is final when that was the last.
   */
  lemma {:induction false} DrainOutcomes(s: Store, env: Env, i: nat)
    requires Coherent(s) && i < |Todo(s)|
    ensures var a := Todo(s)[i];
      var left, more := Get(DrainStore(s, env), a.key), a.retryCount + 1;
      && Get(s, a.key) == Some(a) && a.status == Pending
      && match env.dispatch(a, i)
         case Delivered => left == None
         case Permanent(m) => left == Kept(a, FailedPermanent, a.retryCount, env.clock(i), m)
         case Refused =>
           left == if more < env.maxRetries then Kept(a, Pending, more, env.clock(i), "retryable_failure")
                   else Kept(a, FailedPermanent, more, env.clock(i), "max_retries_exceeded")
         case Thrown(reason) =>
           left == Kept(a, if more < env.maxRetries then Pending else FailedPermanent, more, env.clock(i),
                        if reason.Some? then reason.value else "unknown_error")
  {
    hide Todo, Get, StoreAfter;
    var todo := Todo(s);
    TodoFacts(s);
    assert todo[i] in todo;
    AfterGet(s, todo, |todo|, env, todo[i].key);
  }

  datatype Fate = IsDelivered | FailsForGood | GoesBack

  function FateOf(a: QueuedAction, o: Outcome, maxRetries: int): Fate {
    match o
    case Delivered => IsDelivered
    case Permanent(_) => FailsForGood
    case Refused => if a.retryCount + 1 < maxRetries then GoesBack else FailsForGood
    case Thrown(_) => if a.retryCount + 1 < maxRetries then GoesBack else FailsForGood
  }

  /** Which of the first n actions of a drain meet a fate. */
  ghost function Meeting(fate: Fate, todo: seq<QueuedAction>, n: nat, env: Env): set<nat>
    requires n <= |todo|
  {
    set i: nat | i < n && FateOf(todo[i], env.dispatch(todo[i], i), env.maxRetries) == fate
  }

  lemma {:induction false} MeetingStep(fate: Fate, todo: seq<QueuedAction>, n: nat, env: Env)
    requires n < |todo|
    ensures |Meeting(fate, todo, n + 1, env)| ==
      |Meeting(fate, todo, n, env)| + if FateOf(todo[n], env.dispatch(todo[n], n), env.maxRetries) == fate then 1 else 0
  {
    hide FateOf;
    assert Meeting(fate, todo, n + 1, env) ==
      Meeting(fate, todo, n, env) + if FateOf(todo[n], env.dispatch(todo[n], n), env.maxRetries) == fate then {n} else {};
  }

  lemma {:induction false} TallyCounts(todo: seq<QueuedAction>, n: nat, env: Env)
    requires n <= |todo|
    ensures var r := TallyAfter(todo, n, env);
      && r.succeeded == |Meeting(IsDelivered, todo, n, env)|
      && r.failedPermanent == |Meeting(FailsForGood, todo, n, env)|
      && r.retried == |Meeting(GoesBack, todo, n, env)|
  {
    if n == 0 {
      assert forall fate :: Meeting(fate, todo, n, env) == {};
    } else {
      hide Meeting;
      TallyCounts(todo, n - 1, env);
      MeetingStep(IsDelivered, todo, n - 1, env);
      MeetingStep(FailsForGood, todo, n - 1, env);
      MeetingStep(GoesBack, todo, n - 1, env);
    }
  }

  /** Each counter of the report is the number of actions that met that fate. */
  lemma {:induction false} DrainCounts(s: Store, env: Env)
    ensures var r, n := DrainReport(s, env), |Todo(s)|;
      && r.attempted == n
      && r.succeeded == |Meeting(IsDelivered, Todo(s), n, env)|
      && r.failedPermanent == |Meeting(FailsForGood, Todo(s), n, env)|
      && r.retried == |Meeting(GoesBack, Todo(s), n, env)|
  {
    hide Todo, StoreAfter, TallyAfter, Meeting;
    TallyCounts(Todo(s), |Todo(s)|, env);
    TallyAdds(Todo(s), |Todo(s)|, env);
  }

  // ---- Conservation ----

  function PendingWeight(a: QueuedAction): int {
    if a.status == Pending then 1 else 0
  }

  lemma {:induction false} PendingTotal(s: Store)
    ensures |WithStatus(Values(s), Some(Pending))| == Total(PendingWeight, s)
  {
    if s != [] {
      PendingTotal(s[1..]);
      assert Values(s)[1..] == Values(s[1..]);
    }
  }

  lemma {:induction false} TodoLength(s: Store)
    ensures |Todo(s)| == Total(PendingWeight, s)
  {
    hide Sort, WithStatus, Total;
    PendingTotal(s);
    SortPermutes(FifoLe, WithStatus(Values(s), Some(Pending)));
  }

  lemma {:induction false} AttemptTotal(w: QueuedAction -> int, s: Store, a: QueuedAction, o: Outcome, now: int, maxRetries: int)
    requires Get(s, a.key) == Some(a)
    ensures Total(w, Attempt(s, a, o, now, maxRetries)) ==
      Total(w, s) - w(a) + (var f := Final(a, o, now, maxRetries); if f.Some? then w(f.value) else 0)
  {
    hide Get, Set, Delete, Total;
    var marked, b := Mark(s, a, now), Apply(MarkPatch(now), a);
    SetGet(s, a.key, b, a.key);
    TotalSet(w, s, a.key, b);
    if o.Delivered? {
      TotalDelete(w, marked, a.key);
    } else {
      TotalSet(w, marked, a.key, Apply(SettlePatch(a, o, maxRetries), b));
    }
  }

  /** Each attempt is counted under exactly one heading. */
  lemma {:induction false} TallyAdds(todo: seq<QueuedAction>, n: nat, env: Env)
    requires n <= |todo|
    ensures var r := TallyAfter(todo, n, env); n == r.attempted == r.succeeded + r.retried + r.failedPermanent
  {
    if n > 0 { TallyAdds(todo, n - 1, env); }
  }

  lemma {:induction false} AfterPending(s: Store, todo: seq<QueuedAction>, n: nat, env: Env)
    requires Coherent(s) && DistinctKeys(todo) && Stored(s, todo) && n <= |todo|
    requires forall a :: a in todo ==> a.status == Pending
    ensures Total(PendingWeight, StoreAfter(s, todo, n, env)) == Total(PendingWeight, s) - n + TallyAfter(todo, n, env).retried
  {
    hide Attempt, Get, Total, Coherent, DistinctKeys, Stored;
    if n > 0 {
      var a := todo[n - 1];
      AfterPending(s, todo, n - 1, env);
      BeforeAttempt(s, todo, n - 1, env);
      AttemptTotal(PendingWeight, StoreAfter(s, todo, n - 1, env), a, env.dispatch(a, n - 1), env.clock(n - 1), env.maxRetries);
    }
  }

  /** Every drain accounts for each attempt once, and what is still pending is what was retried. */
  lemma {:induction false} DrainConserves(s: Store, env: Env)
    requires Coherent(s)
    ensures var r := DrainReport(s, env);
      && r.attempted == |Todo(s)|
      && r.attempted == r.succeeded + r.retried + r.failedPermanent
      && r.remaining == r.retried
  {
    hide Todo, StoreAfter, TallyAfter, Total;
    TodoFacts(s);
    TodoLength(s);
    AfterPending(s, Todo(s), |Todo(s)|, env);
    TallyAdds(Todo(s), |Todo(s)|, env);
    TodoLength(DrainStore(s, env));
  }

  // ---- Retries are bounded ----

  /** A limit below one still allows one dispatch. */
  function Bound(maxRetries: int): int {
    if maxRetries < 1 then 1 else maxRetries
  }

  /** Every pending action has been retried at least `lo` times, and fewer times than the bound. */
  ghost predicate PendingWithin(s: Store, lo: int, maxRetries: int) {
    forall e :: e in s && e.val.status == Pending ==> lo <= e.val.retryCount < Bound(maxRetries)
  }

  /** The retries the pending actions have left, together. */
  function BudgetWeight(maxRetries: int): QueuedAction -> int {
    (a: QueuedAction) => if a.status == Pending then Bound(maxRetries) - a.retryCount else 0
  }

  lemma {:induction false} DrainRaises(s: Store, env: Env, lo: int)
    requires Coherent(s) && PendingWithin(s, lo, env.maxRetries)
    ensures Coherent(DrainStore(s, env)) && PendingWithin(DrainStore(s, env), lo + 1, env.maxRetries)
  {
    hide DrainStore, Get, Todo;
    var after := DrainStore(s, env);
    DrainSettles(s, env, "");
    forall e | e in after && e.val.status == Pending ensures lo + 1 <= e.val.retryCount < Bound(env.maxRetries) {
      var i :| 0 <= i < |after| && after[i] == e;
      InGet(after, i);
      DrainSettles(s, env, e.key);
      if Get(s, e.key).Some? { GetIn(s, e.key); }
    }
  }

  /** An attempt of a pending action costs at least one unit of budget. */
  lemma {:induction false} AttemptSpends(s: Store, a: QueuedAction, o: Outcome, now: int, maxRetries: int)
    requires Get(s, a.key) == Some(a) && a.status == Pending && a.retryCount < Bound(maxRetries)
    ensures Total(BudgetWeight(maxRetries), Attempt(s, a, o, now, maxRetries)) <= Total(BudgetWeight(maxRetries), s) - 1
  {
    hide Attempt, Get, Total;
    AttemptTotal(BudgetWeight(maxRetries), s, a, o, now, maxRetries);
  }

  lemma {:induction false} AfterBudget(s: Store, todo: seq<QueuedAction>, n: nat, env: Env)
    requires Coherent(s) && DistinctKeys(todo) && Stored(s, todo) && n <= |todo|
    requires forall a :: a in todo ==> a.status == Pending && a.retryCount < Bound(env.maxRetries)
    ensures Total(BudgetWeight(env.maxRetries), StoreAfter(s, todo, n, env)) <= Total(BudgetWeight(env.maxRetries), s) - n
  {
    hide Attempt, Get, Total, Coherent, DistinctKeys, Stored, BudgetWeight;
    if n > 0 {
      var a := todo[n - 1];
      AfterBudget(s, todo, n - 1, env);
      BeforeAttempt(s, todo, n - 1, env);
      AttemptSpends(StoreAfter(s, todo, n - 1, env), a, env.dispatch(a, n - 1), env.clock(n - 1), env.maxRetries);
    }
  }

  /** A drain spends at least one unit of the pending actions' retry budget per attempt. */
  lemma {:induction false} DrainSpends(s: Store, env: Env)
    requires Coherent(s) && PendingWithin(s, 0, env.maxRetries)
    ensures Total(BudgetWeight(env.maxRetries), DrainStore(s, env)) <= Total(BudgetWeight(env.maxRetries), s) - |Todo(s)|
  {
    hide Todo, StoreAfter, Total, Get;
    TodoFacts(s);
    forall a | a in Todo(s) ensures a.retryCount < Bound(env.maxRetries) { GetIn(s, a.key); }
    AfterBudget(s, Todo(s), |Todo(s)|, env);
  }

  function DrainAll(s: Store, envs: seq<Env>): Store {
    if envs == [] then s else DrainStore(DrainAll(s, envs[..|envs| - 1]), envs[|envs| - 1])
  }

  lemma {:induction false} DrainsRaise(s: Store, envs: seq<Env>, maxRetries: int)
    requires Coherent(s) && PendingWithin(s, 0, maxRetries) && forall i :: 0 <= i < |envs| ==> envs[i].maxRetries == maxRetries
    ensures Coherent(DrainAll(s, envs)) && PendingWithin(DrainAll(s, envs), |envs|, maxRetries)
  {
    hide DrainStore;
    if envs != [] {
      DrainsRaise(s, envs[..|envs| - 1], maxRetries);
      DrainRaises(DrainAll(s, envs[..|envs| - 1]), envs[|envs| - 1], |envs| - 1);
    }
  }

  /** After as many drains as there are retries allowed, with nothing enqueued between, nothing is pending. */
  lemma {:induction false} DrainsExhaust(s: Store, envs: seq<Env>, maxRetries: int)
    requires Coherent(s) && PendingWithin(s, 0, maxRetries) && forall i :: 0 <= i < |envs| ==> envs[i].maxRetries == maxRetries
    requires |envs| >= Bound(maxRetries)
    ensures Todo(DrainAll(s, envs)) == []
  {
    hide DrainAll, Todo, Get;
    var after := DrainAll(s, envs);
    DrainsRaise(s, envs, maxRetries);
    TodoFacts(after);
    if Todo(after) != [] {
      var a := Todo(after)[0];
      assert a in Todo(after);
      GetIn(after, a.key);
      assert false;
    }
  }
}
