/**
 * Delivery as a protocol of small steps. A drain is a sequence of separate storage writes and
 * dispatches; the device may enqueue between any two of them and may crash between any two of them.
 * The theorems hold for every sequence of steps.
 */
module SyncProtocol {
  import opened Options
  import opened OrderedMap
  import opened Sorting
  import opened OfflineQueue
  import opened SyncRunner

  /** Where the running drain stands; a crash forgets it. */
  datatype Phase =
    | Idle
    | Ready(todo: seq<QueuedAction>)
    | Marked(head: QueuedAction, rest: seq<QueuedAction>)
    | Answered(head: QueuedAction, outcome: Outcome, rest: seq<QueuedAction>)

  datatype Event =
    | WasEnqueued(key: string)
    | DrainBegan
    | WasDispatched(action: QueuedAction, outcome: Outcome)
    | WasRemoved(key: string)
    | Crashed

  /** What storage holds, where the drain stands, and all that happened. */
  datatype State = State(store: Store, phase: Phase, log: seq<Event>)

  datatype Act =
    | ActEnqueue(key: string, request: Request, now: int)
    | ActBegin
    | ActMark(now: int)
    | ActDispatch(outcome: Outcome)
    | ActSettle
    | ActFinish
    | ActCrash

  /** One step; an act that is not possible in a state leaves it alone. */
  function Next(s: State, a: Act, maxRetries: int): State {
    match a
    case ActEnqueue(key, request, now) =>
      if Get(s.store, key).Some? then s
      else s.(store := Enqueue(s.store, key, request, now).0, log := s.log + [WasEnqueued(key)])
    case ActBegin =>
      if s.phase.Idle? then s.(phase := Ready(Todo(s.store)), log := s.log + [DrainBegan]) else s
    case ActMark(now) =>
      if s.phase.Ready? && s.phase.todo != [] then
        s.(store := Mark(s.store, s.phase.todo[0], now), phase := Marked(s.phase.todo[0], s.phase.todo[1..]))
      else s
    case ActDispatch(outcome) =>
      if s.phase.Marked? then
        s.(phase := Answered(s.phase.head, outcome, s.phase.rest), log := s.log + [WasDispatched(s.phase.head, outcome)])
      else s
    case ActSettle =>
      if s.phase.Answered? then
        State(Settle(s.store, s.phase.head, s.phase.outcome, maxRetries), Ready(s.phase.rest),
              if s.phase.outcome.Delivered? then s.log + [WasRemoved(s.phase.head.key)] else s.log)
      else s
    case ActFinish =>
      if s.phase == Ready([]) then s.(phase := Idle) else s
    case ActCrash =>
      s.(phase := Idle, log := s.log + [Crashed])
  }

  function Run(acts: seq<Act>, maxRetries: int): State {
    if acts == [] then State([], Idle, [])
    else Next(Run(acts[..|acts| - 1], maxRetries), acts[|acts| - 1], maxRetries)
  }

  // ---- The drain of SyncRunner is one such sequence ----

  function RunFrom(s: State, acts: seq<Act>, maxRetries: int): State
    decreases |acts|
  {
    if acts == [] then s else RunFrom(Next(s, acts[0], maxRetries), acts[1..], maxRetries)
  }

  /** The acts of a drain from its i-th action on. */
  function DrainActs(todo: seq<QueuedAction>, i: nat, env: Env): seq<Act>
    requires i <= |todo|
    decreases |todo| - i
  {
    if i == |todo| then [ActFinish]
    else [ActMark(env.clock(i)), ActDispatch(env.dispatch(todo[i], i)), ActSettle] + DrainActs(todo, i + 1, env)
  }

  lemma {:induction false} DrainActsFrom(store: Store, todo: seq<QueuedAction>, i: nat, env: Env, s: State)
    requires i <= |todo| && s.store == StoreAfter(store, todo, i, env) && s.phase == Ready(todo[i..])
    ensures RunFrom(s, DrainActs(todo, i, env), env.maxRetries).store == StoreAfter(store, todo, |todo|, env)
    ensures RunFrom(s, DrainActs(todo, i, env), env.maxRetries).phase == Idle
    decreases |todo| - i
  {
    hide Mark, Settle, Todo, Enqueue;
    var acts := DrainActs(todo, i, env);
    if i < |todo| {
      assert todo[i..][0] == todo[i] && todo[i..][1..] == todo[i + 1..];
      var s1 := Next(s, acts[0], env.maxRetries);
      var s2 := Next(s1, acts[1], env.maxRetries);
      var s3 := Next(s2, acts[2], env.maxRetries);
      assert acts[1..][1..][1..] == DrainActs(todo, i + 1, env);
      DrainActsFrom(store, todo, i + 1, env, s3);
      assert acts[1..][0] == acts[1] && acts[1..][1..][0] == acts[2];
      assert RunFrom(s, acts, env.maxRetries) == RunFrom(s1, acts[1..], env.maxRetries)
        == RunFrom(s2, acts[1..][1..], env.maxRetries) == RunFrom(s3, acts[1..][1..][1..], env.maxRetries);
    } else {
      assert RunFrom(s, acts, env.maxRetries) == RunFrom(Next(s, ActFinish, env.maxRetries), [], env.maxRetries);
    }
  }

  /** An undisturbed drain, taken step by step, stores what the drain loop stores. */
  lemma {:induction false} DrainIsARun(s: State, env: Env)
    requires s.phase == Idle
    ensures var end := RunFrom(s, [ActBegin] + DrainActs(Todo(s.store), 0, env), env.maxRetries);
      end.store == DrainStore(s.store, env) && end.phase == Idle
  {
    hide Todo, StoreAfter;
    var todo := Todo(s.store);
    var acts := [ActBegin] + DrainActs(todo, 0, env);
    assert acts[1..] == DrainActs(todo, 0, env) && todo[0..] == todo;
    assert StoreAfter(s.store, todo, 0, env) == s.store by { NothingDone(s.store, todo, env); }
    DrainActsFrom(s.store, todo, 0, env, Next(s, ActBegin, env.maxRetries));
  }

  lemma {:induction false} NothingDone(store: Store, todo: seq<QueuedAction>, env: Env)
    ensures StoreAfter(store, todo, 0, env) == store
  {
  }

  // ---- The drain's snapshot stays true ----

  ghost predicate AllPending(actions: seq<QueuedAction>) {
    forall a :: a in actions ==> a.status == Pending
  }

  ghost predicate HeadInFlight(store: Store, head: QueuedAction, rest: seq<QueuedAction>) {
    && (forall a :: a in rest ==> a.key != head.key)
    && Get(store, head.key).Some?
    && Get(store, head.key).value.status == InFlight
    && Get(store, head.key).value.retryCount == head.retryCount
    && Get(store, head.key).value.key == head.key
  }

  function Ahead(p: Phase): seq<QueuedAction> {
    match p
    case Idle => []
    case Ready(todo) => todo
    case Marked(_, rest) => rest
    case Answered(_, _, rest) => rest
  }

  predicate Busy(p: Phase) {
    p.Marked? || p.Answered?
  }

  /** The store is coherent, and the drain's remaining snapshot is what is stored. */
  ghost predicate Faithful(s: State) {
    && Coherent(s.store)
    && DistinctKeys(Ahead(s.phase)) && Stored(s.store, Ahead(s.phase)) && AllPending(Ahead(s.phase))
    && (Busy(s.phase) ==> HeadInFlight(s.store, s.phase.head, s.phase.rest))
  }

  lemma {:induction false} UpdateGet(store: Store, key: string, p: Patch)
    requires Coherent(store) && p.key.None?
    ensures Coherent(Update(store, key, p).0)
    ensures forall k :: Get(Update(store, key, p).0, k) == if k == key && Get(store, k).Some? then Some(Apply(p, Get(store, k).value)) else Get(store, k)
  {
    hide Set, Get;
    if Get(store, key).Some? {
      GetIn(store, key);
      SetKeys(store, key, Apply(p, Get(store, key).value));
      forall k { SetGet(store, key, Apply(p, Get(store, key).value), k); }
    }
  }

  lemma {:induction false} EnqueueGet(store: Store, key: string, request: Request, now: int)
    requires Coherent(store) && Get(store, key).None?
    ensures Coherent(Enqueue(store, key, request, now).0)
    ensures forall k :: Get(Enqueue(store, key, request, now).0, k) == if k == key then Some(Fresh(key, request, now)) else Get(store, k)
  {
    hide Set, Get;
    SetKeys(store, key, Fresh(key, request, now));
    forall k { SetGet(store, key, Fresh(key, request, now), k); }
  }

  lemma {:induction false} RemoveGet(store: Store, key: string)
    requires Coherent(store)
    ensures Coherent(Remove(store, key).0)
    ensures forall k :: Get(Remove(store, key).0, k) == if k == key then None else Get(store, k)
  {
    hide Delete, Get;
    DeleteKeys(store, key);
    forall k { DeleteGet(store, key, k); }
  }

  /** What a step leaves stored under a key. */
  function StoredNext(s: State, a: Act, maxRetries: int, k: string): Option<QueuedAction> {
    var g := Get(s.store, k);
    match a
    case ActEnqueue(key, request, now) => if k == key && g.None? then Some(Fresh(key, request, now)) else g
    case ActMark(now) =>
      if s.phase.Ready? && s.phase.todo != [] && k == s.phase.todo[0].key then Some(Apply(MarkPatch(now), s.phase.todo[0])) else g
    case ActSettle =>
      if !s.phase.Answered? || k != s.phase.head.key || g.None? then g
      else if s.phase.outcome.Delivered? then None
      else Some(Apply(SettlePatch(s.phase.head, s.phase.outcome, maxRetries), g.value))
    case _ => g
  }

  lemma {:induction false} NextGet(s: State, a: Act, maxRetries: int)
    requires Faithful(s)
    ensures Coherent(Next(s, a, maxRetries).store)
    ensures forall k :: Get(Next(s, a, maxRetries).store, k) == StoredNext(s, a, maxRetries, k)
  {
    hide Get, Set, Delete, Update, Remove, Enqueue, Todo, DistinctKeys, AllPending, Coherent;
    match a
    case ActEnqueue(key, request, now) =>
      if Get(s.store, key).None? { EnqueueGet(s.store, key, request, now); }
    case ActMark(now) =>
      if s.phase.Ready? && s.phase.todo != [] {
        assert s.phase.todo[0] in s.phase.todo;
        UpdateGet(s.store, s.phase.todo[0].key, MarkPatch(now));
      }
    case ActSettle =>
      if s.phase.Answered? {
        if s.phase.outcome.Delivered? { RemoveGet(s.store, s.phase.head.key); }
        else { UpdateGet(s.store, s.phase.head.key, SettlePatch(s.phase.head, s.phase.outcome, maxRetries)); }
      }
    case _ =>
  }

  lemma {:induction false} StaysFaithful(s: State, a: Act, maxRetries: int)
    requires Faithful(s)
    ensures Faithful(Next(s, a, maxRetries))
  {
    hide Get, Update, Remove, Enqueue, Todo, Coherent, Settle, Mark;
    NextGet(s, a, maxRetries);
    if a.ActBegin? { TodoFacts(s.store); }
    if a.ActMark? && s.phase.Ready? && s.phase.todo != [] {
      assert s.phase.todo[0] in s.phase.todo;
      assert forall b :: b in s.phase.todo[1..] ==> b in s.phase.todo;
    }
  }

  lemma {:induction false} RunFaithful(acts: seq<Act>, maxRetries: int)
    ensures Faithful(Run(acts, maxRetries))
  {
    hide Next, Faithful;
    if acts == [] { StartFaithful(); } else {
      RunFaithful(acts[..|acts| - 1], maxRetries);
      StaysFaithful(Run(acts[..|acts| - 1], maxRetries), acts[|acts| - 1], maxRetries);
    }
  }

  lemma {:induction false} StartFaithful()
    ensures Faithful(State([], Idle, []))
  {
  }

  // ---- Bounded dispatch ----

  /** Dispatches of the key since it was last enqueued. */
  function Tries(log: seq<Event>, key: string): nat {
    if log == [] then 0 else
      var e, before := log[|log| - 1], log[..|log| - 1];
      if e == WasEnqueued(key) then 0
      else if e.WasDispatched? && e.action.key == key then Tries(before, key) + 1
      else Tries(before, key)
  }

  lemma {:induction false} TriesPush(log: seq<Event>, e: Event, key: string)
    ensures Tries(log + [e], key) ==
      if e == WasEnqueued(key) then 0 else if e.WasDispatched? && e.action.key == key then Tries(log, key) + 1 else Tries(log, key)
  {
    assert (log + [e])[..|log|] == log;
  }

  /** A stored action's dispatches match its retry count as its status says. */
  ghost predicate TriesMatch(s: State, key: string, maxRetries: int) {
    var tries, g := Tries(s.log, key), Get(s.store, key);
    && tries <= Bound(maxRetries)
    && (g.Some? && g.value.status == Pending ==> tries == g.value.retryCount < Bound(maxRetries))
    && (g.Some? && g.value.status == InFlight ==> tries <= g.value.retryCount + 1 <= Bound(maxRetries))
    && (s.phase.Marked? && s.phase.head.key == key ==> tries == s.phase.head.retryCount)
    && (s.phase.Answered? && s.phase.head.key == key ==> tries == s.phase.head.retryCount + 1)
  }

  lemma {:induction false} NextTries(s: State, a: Act, maxRetries: int, key: string)
    requires Faithful(s) && TriesMatch(s, key, maxRetries)
    ensures TriesMatch(Next(s, a, maxRetries), key, maxRetries)
  {
    hide Get, Update, Remove, Enqueue, Todo, Coherent, Settle, Mark, Tries, DistinctKeys;
    NextGet(s, a, maxRetries);
    match a
    case ActEnqueue(k, _, _) => TriesPush(s.log, WasEnqueued(k), key);
    case ActBegin => TriesPush(s.log, DrainBegan, key);
    case ActMark(_) => if s.phase.Ready? && s.phase.todo != [] { assert s.phase.todo[0] in s.phase.todo; }
    case ActDispatch(outcome) => if s.phase.Marked? { TriesPush(s.log, WasDispatched(s.phase.head, outcome), key); }
    case ActSettle => if s.phase.Answered? { TriesPush(s.log, WasRemoved(s.phase.head.key), key); }
    case ActFinish =>
    case ActCrash => TriesPush(s.log, Crashed, key);
  }

  /**
   * Whatever is enqueued, whatever the dispatcher answers and wherever it crashes: between one enqueue
   * of a key and the next, its action is dispatched at most maxRetries times (once if the limit is below one).
   */
  lemma {:induction false} DispatchIsBounded(acts: seq<Act>, maxRetries: int, key: string)
    ensures TriesMatch(Run(acts, maxRetries), key, maxRetries)
    ensures Tries(Run(acts, maxRetries).log, key) <= Bound(maxRetries)
  {
    hide Next, Faithful, Tries, TriesMatch;
    if acts == [] {
      StartTries(key, maxRetries);
    } else {
      DispatchIsBounded(acts[..|acts| - 1], maxRetries, key);
      RunFaithful(acts[..|acts| - 1], maxRetries);
      NextTries(Run(acts[..|acts| - 1], maxRetries), acts[|acts| - 1], maxRetries, key);
    }
    TriesBound(Run(acts, maxRetries), key, maxRetries);
  }

  lemma {:induction false} StartTries(key: string, maxRetries: int)
    ensures TriesMatch(State([], Idle, []), key, maxRetries)
  {
  }

  lemma {:induction false} TriesBound(s: State, key: string, maxRetries: int)
    requires TriesMatch(s, key, maxRetries)
    ensures Tries(s.log, key) <= Bound(maxRetries)
  {
  }

  // ---- Nothing is lost before it is delivered ----

  predicate IsEnqueue(e: Event, key: string) {
    e == WasEnqueued(key)
  }

  predicate IsDelivery(e: Event, key: string) {
    e.WasDispatched? && e.action.key == key && e.outcome.Delivered?
  }

  predicate IsRemoval(e: Event, key: string) {
    e == WasRemoved(key)
  }

  function CountEvents(log: seq<Event>, which: (Event, string) -> bool, key: string): nat {
    if log == [] then 0
    else CountEvents(log[..|log| - 1], which, key) + if which(log[|log| - 1], key) then 1 else 0
  }

  lemma {:induction false} CountPush(log: seq<Event>, e: Event, which: (Event, string) -> bool, key: string)
    ensures CountEvents(log + [e], which, key) == CountEvents(log, which, key) + if which(e, key) then 1 else 0
  {
    assert (log + [e])[..|log|] == log;
  }

  /** Each enqueue of the key is either still stored or was removed, and each removal follows its own delivery. */
  ghost predicate Accounted(s: State, key: string) {
    && CountEvents(s.log, IsEnqueue, key) == CountEvents(s.log, IsRemoval, key) + (if Get(s.store, key).Some? then 1 else 0)
    && CountEvents(s.log, IsRemoval, key) + (if s.phase.Answered? && s.phase.head.key == key && s.phase.outcome.Delivered? then 1 else 0)
         <= CountEvents(s.log, IsDelivery, key)
  }

  lemma {:induction false} CountPushAll(log: seq<Event>, e: Event, key: string)
    ensures CountEvents(log + [e], IsEnqueue, key) == CountEvents(log, IsEnqueue, key) + if IsEnqueue(e, key) then 1 else 0
    ensures CountEvents(log + [e], IsDelivery, key) == CountEvents(log, IsDelivery, key) + if IsDelivery(e, key) then 1 else 0
    ensures CountEvents(log + [e], IsRemoval, key) == CountEvents(log, IsRemoval, key) + if IsRemoval(e, key) then 1 else 0
  {
    CountPush(log, e, IsEnqueue, key);
    CountPush(log, e, IsDelivery, key);
    CountPush(log, e, IsRemoval, key);
  }

  lemma {:induction false} NextAccounted(s: State, a: Act, maxRetries: int, key: string)
    requires Faithful(s) && Accounted(s, key)
    ensures Accounted(Next(s, a, maxRetries), key)
  {
    hide Get, Update, Remove, Enqueue, Todo, Coherent, Settle, Mark, CountEvents, DistinctKeys, AllPending;
    NextGet(s, a, maxRetries);
    match a
    case ActEnqueue(k, _, _) => CountPushAll(s.log, WasEnqueued(k), key);
    case ActBegin => CountPushAll(s.log, DrainBegan, key);
    case ActMark(_) => if s.phase.Ready? && s.phase.todo != [] { assert s.phase.todo[0] in s.phase.todo; }
    case ActDispatch(outcome) => if s.phase.Marked? { CountPushAll(s.log, WasDispatched(s.phase.head, outcome), key); }
    case ActSettle => if s.phase.Answered? { CountPushAll(s.log, WasRemoved(s.phase.head.key), key); }
    case ActFinish =>
    case ActCrash => CountPushAll(s.log, Crashed, key);
  }

  /**
   * At-least-once delivery over every run: of the times a key was enqueued, all but the one still stored
   * were handed to a dispatcher that returned true.
   */
  lemma {:induction false} NothingIsLost(acts: seq<Act>, maxRetries: int, key: string)
    ensures Accounted(Run(acts, maxRetries), key)
    ensures var s := Run(acts, maxRetries);
      CountEvents(s.log, IsEnqueue, key) - (if Get(s.store, key).Some? then 1 else 0) <= CountEvents(s.log, IsDelivery, key)
  {
    hide Next, Faithful, CountEvents, Get;
    if acts == [] {
      StartAccounted(key);
    } else {
      NothingIsLost(acts[..|acts| - 1], maxRetries, key);
      RunFaithful(acts[..|acts| - 1], maxRetries);
      NextAccounted(Run(acts[..|acts| - 1], maxRetries), acts[|acts| - 1], maxRetries, key);
    }
  }

  lemma {:induction false} StartAccounted(key: string)
    ensures Accounted(State([], Idle, []), key)
  {
  }

  /** An entry leaves storage only in the step that settles it after its dispatcher returned true. */
  lemma {:induction false} LeavesOnlyDelivered(acts: seq<Act>, a: Act, maxRetries: int, key: string)
    requires Get(Run(acts, maxRetries).store, key).Some? && Get(Next(Run(acts, maxRetries), a, maxRetries).store, key).None?
    ensures var p := Run(acts, maxRetries).phase; a.ActSettle? && p.Answered? && p.head.key == key && p.outcome == Delivered
  {
    hide Get, Run, Next, Coherent;
    RunFaithful(acts, maxRetries);
    NextGet(Run(acts, maxRetries), a, maxRetries);
  }

  // ---- One action in flight per drain ----

  function InFlightWeight(a: QueuedAction): int {
    if a.status == InFlight then 1 else 0
  }

  predicate IsCrash(e: Event, key: string) {
    e.Crashed?
  }

  /** A drain has at most one action in flight; what else is in flight was left so by a crash. */
  ghost predicate OneInFlight(s: State) {
    Total(InFlightWeight, s.store) <= CountEvents(s.log, IsCrash, "") + if Busy(s.phase) then 1 else 0
  }

  lemma {:induction false} NextInFlight(s: State, a: Act, maxRetries: int)
    requires Faithful(s) && OneInFlight(s)
    ensures OneInFlight(Next(s, a, maxRetries))
  {
    hide Get, Set, Delete, Todo, Coherent, CountEvents, DistinctKeys, AllPending, Total;
    match a
    case ActEnqueue(k, request, now) =>
      CountPush(s.log, WasEnqueued(k), IsCrash, "");
      TotalSet(InFlightWeight, s.store, k, Fresh(k, request, now));
    case ActBegin => CountPush(s.log, DrainBegan, IsCrash, "");
    case ActMark(now) =>
      if s.phase.Ready? && s.phase.todo != [] {
        assert s.phase.todo[0] in s.phase.todo;
        TotalSet(InFlightWeight, s.store, s.phase.todo[0].key, Apply(MarkPatch(now), s.phase.todo[0]));
      }
    case ActDispatch(outcome) => if s.phase.Marked? { CountPush(s.log, WasDispatched(s.phase.head, outcome), IsCrash, ""); }
    case ActSettle =>
      if s.phase.Answered? {
        var key := s.phase.head.key;
        CountPush(s.log, WasRemoved(key), IsCrash, "");
        TotalDelete(InFlightWeight, s.store, key);
        TotalSet(InFlightWeight, s.store, key, Apply(SettlePatch(s.phase.head, s.phase.outcome, maxRetries), Get(s.store, key).value));
      }
    case ActFinish =>
    case ActCrash => CountPush(s.log, Crashed, IsCrash, "");
  }

  lemma {:induction false} AtMostOneInFlight(acts: seq<Act>, maxRetries: int)
    ensures OneInFlight(Run(acts, maxRetries))
  {
    hide Next, Faithful, OneInFlight;
    if acts == [] {
      StartInFlight();
    } else {
      AtMostOneInFlight(acts[..|acts| - 1], maxRetries);
      RunFaithful(acts[..|acts| - 1], maxRetries);
      NextInFlight(Run(acts[..|acts| - 1], maxRetries), acts[|acts| - 1], maxRetries);
    }
  }

  lemma {:induction false} StartInFlight()
    ensures OneInFlight(State([], Idle, []))
  {
  }

  // ---- Dispatch order ----

  /** The actions dispatched since the last drain began. */
  function Sent(log: seq<Event>): seq<QueuedAction> {
    if log == [] then [] else
      var e, before := log[|log| - 1], log[..|log| - 1];
      if e.DrainBegan? then []
      else if e.WasDispatched? then Sent(before) + [e.action]
      else Sent(before)
  }

  lemma {:induction false} SentPush(log: seq<Event>, e: Event)
    ensures Sent(log + [e]) == if e.DrainBegan? then [] else if e.WasDispatched? then Sent(log) + [e.action] else Sent(log)
  {
    assert (log + [e])[..|log|] == log;
  }

  /** In enqueue-time order; strictly, when no two times agree. */
  ghost predicate Ordered(actions: seq<QueuedAction>, strict: bool) {
    forall i, j :: 0 <= i < j < |actions| ==>
      if strict then actions[i].enqueuedAt < actions[j].enqueuedAt else actions[i].enqueuedAt <= actions[j].enqueuedAt
  }

  function Unsent(p: Phase): seq<QueuedAction> {
    match p
    case Idle => []
    case Ready(todo) => todo
    case Marked(head, rest) => [head] + rest
    case Answered(_, _, rest) => rest
  }

  /** The actions of a drain, sent or to be sent. */
  function Line(s: State): seq<QueuedAction> {
    Sent(s.log) + Unsent(s.phase)
  }

  ghost predicate InOrder(s: State, strict: bool) {
    && (strict ==> Ordered(Values(s.store), true))
    && Ordered(Line(s), strict)
  }

  /** The acts enqueue at strictly increasing times. */
  ghost predicate StrictClock(acts: seq<Act>) {
    forall i, j :: 0 <= i < j < |acts| && acts[i].ActEnqueue? && acts[j].ActEnqueue? ==> acts[i].now < acts[j].now
  }

  lemma {:induction false} WithStatusOrdered(actions: seq<QueuedAction>, status: Option<Status>)
    requires Ordered(actions, true)
    ensures Ordered(WithStatus(actions, status), true)
    ensures forall a :: a in WithStatus(actions, status) ==> a in actions
  {
    if actions != [] {
      WithStatusOrdered(actions[1..], status);
      var rest := WithStatus(actions[1..], status);
      forall i | 0 <= i < |rest| ensures actions[0].enqueuedAt < rest[i].enqueuedAt {
        assert rest[i] in actions[1..];
        var j :| 0 <= j < |actions[1..]| && actions[1..][j] == rest[i];
      }
    }
  }

  /** Listing returns enqueue-time order; with distinct times, exactly insertion order. */
  lemma {:induction false} TodoOrdered(s: Store)
    ensures Ordered(Todo(s), false)
    ensures Ordered(Values(s), true) ==> Ordered(Todo(s), true) && Todo(s) == WithStatus(Values(s), Some(Pending))
  {
    hide Sort, WithStatus;
    SortSorts(FifoLe, WithStatus(Values(s), Some(Pending)));
    assert Ordered(Todo(s), false) by { FifoSorted(Todo(s)); }
    if Ordered(Values(s), true) {
      WithStatusOrdered(Values(s), Some(Pending));
      StrictIsFifo(WithStatus(Values(s), Some(Pending)));
      SortOfSorted(FifoLe, WithStatus(Values(s), Some(Pending)));
    }
  }

  lemma {:induction false} FifoSorted(actions: seq<QueuedAction>)
    requires SortedBy(FifoLe, actions)
    ensures Ordered(actions, false)
  {
    forall i, j | 0 <= i < j < |actions| ensures actions[i].enqueuedAt <= actions[j].enqueuedAt {
      assert FifoLe(actions[i], actions[j]);
    }
  }

  lemma {:induction false} StrictIsFifo(actions: seq<QueuedAction>)
    requires Ordered(actions, true)
    ensures SortedBy(FifoLe, actions)
  {
  }

  lemma {:induction false} DeleteOrdered(s: Store, key: string)
    requires Ordered(Values(s), true)
    ensures Ordered(Values(Delete(s, key)), true)
    ensures forall e :: e in Delete(s, key) ==> e in s
  {
    if s != [] && s[0].key != key {
      assert forall i :: 0 <= i < |s[1..]| ==> Values(s[1..])[i] == Values(s)[i + 1];
      DeleteOrdered(s[1..], key);
      var tail := Delete(s[1..], key);
      forall i | 0 <= i < |tail| ensures s[0].val.enqueuedAt < tail[i].val.enqueuedAt {
        assert tail[i] in s[1..];
        var j :| 0 <= j < |s[1..]| && s[1..][j] == tail[i];
        assert Values(s)[0].enqueuedAt < Values(s)[j + 1].enqueuedAt;
      }
    } else if s != [] {
      assert forall i :: 0 <= i < |s[1..]| ==> Values(s[1..])[i] == Values(s)[i + 1];
    }
  }

  lemma {:induction false} UpdateOrdered(s: Store, key: string, p: Patch)
    requires Ordered(Values(s), true) && p.enqueuedAt.None?
    ensures Ordered(Values(Update(s, key, p).0), true)
  {
    hide Set, Get;
    if Get(s, key).Some? {
      SetOld(s, key, Apply(p, Get(s, key).value));
    }
  }

  lemma {:induction false} EnqueueOrdered(s: Store, key: string, request: Request, now: int)
    requires Ordered(Values(s), true) && Get(s, key).None? && forall e :: e in s ==> e.val.enqueuedAt < now
    ensures Ordered(Values(Enqueue(s, key, request, now).0), true)
  {
    hide Set, Get;
    SetNew(s, key, Fresh(key, request, now));
    forall i | 0 <= i < |s| ensures Values(s)[i].enqueuedAt < now { assert s[i] in s; }
  }

  lemma {:induction false} NextStoreOrdered(s: State, a: Act, maxRetries: int)
    requires Ordered(Values(s.store), true)
    requires a.ActEnqueue? ==> forall e :: e in s.store ==> e.val.enqueuedAt < a.now
    ensures Ordered(Values(Next(s, a, maxRetries).store), true)
  {
    hide Get, Update, Enqueue, Ordered, Todo;
    match a
    case ActEnqueue(key, request, now) => if Get(s.store, key).None? { EnqueueOrdered(s.store, key, request, now); }
    case ActMark(now) => if s.phase.Ready? && s.phase.todo != [] { UpdateOrdered(s.store, s.phase.todo[0].key, MarkPatch(now)); }
    case ActSettle =>
      if s.phase.Answered? {
        DeleteOrdered(s.store, s.phase.head.key);
        UpdateOrdered(s.store, s.phase.head.key, SettlePatch(s.phase.head, s.phase.outcome, maxRetries));
      }
    case _ =>
  }

  lemma {:induction false} OrderedPrefix(a: seq<QueuedAction>, b: seq<QueuedAction>, strict: bool)
    requires Ordered(a + b, strict)
    ensures Ordered(a, strict)
  {
    assert (a + b)[..|a|] == a;
  }

  lemma {:induction false} SendKeepsLine(s: State, outcome: Outcome, maxRetries: int)
    requires s.phase.Marked?
    ensures Line(Next(s, ActDispatch(outcome), maxRetries)) == Line(s)
  {
    hide Sent;
    SentPush(s.log, WasDispatched(s.phase.head, outcome));
    assert Sent(s.log) + [s.phase.head] + s.phase.rest == Sent(s.log) + ([s.phase.head] + s.phase.rest);
  }

  /** A step leaves the line as it is, starts the line of a new drain, or, in a crash, cuts it after what was sent. */
  lemma {:induction false} NextLine(s: State, a: Act, maxRetries: int)
    ensures var line := Line(Next(s, a, maxRetries)); line == Line(s) || line == Todo(s.store) || line == Sent(s.log)
  {
    hide Get, Update, Enqueue, Todo, Sent, Settle, Mark;
    match a
    case ActEnqueue(key, _, _) => SentPush(s.log, WasEnqueued(key));
    case ActBegin =>
      SentPush(s.log, DrainBegan);
      assert [] + Todo(s.store) == Todo(s.store);
    case ActMark(_) => if s.phase.Ready? && s.phase.todo != [] { assert [s.phase.todo[0]] + s.phase.todo[1..] == s.phase.todo; }
    case ActDispatch(outcome) => if s.phase.Marked? { SendKeepsLine(s, outcome, maxRetries); }
    case ActSettle => if s.phase.Answered? { SentPush(s.log, WasRemoved(s.phase.head.key)); }
    case ActFinish =>
    case ActCrash =>
      SentPush(s.log, Crashed);
      assert Sent(s.log) + [] == Sent(s.log);
  }

  lemma {:induction false} NextInOrder(s: State, a: Act, maxRetries: int, strict: bool)
    requires InOrder(s, strict)
    requires strict && a.ActEnqueue? ==> forall e :: e in s.store ==> e.val.enqueuedAt < a.now
    ensures InOrder(Next(s, a, maxRetries), strict)
  {
    hide Next, Ordered, Todo, Sent;
    if strict { NextStoreOrdered(s, a, maxRetries); }
    NextLine(s, a, maxRetries);
    TodoOrdered(s.store);
    OrderedPrefix(Sent(s.log), Unsent(s.phase), strict);
  }

  /** Every stored time is the time of some earlier enqueue. */
  ghost predicate TimesKnown(s: State, acts: seq<Act>) {
    forall e :: e in s.store ==> KnownTime(acts, e.val.enqueuedAt)
  }

  ghost predicate KnownTime(acts: seq<Act>, t: int) {
    exists i :: 0 <= i < |acts| && acts[i].ActEnqueue? && acts[i].now == t
  }

  lemma {:induction false} NextTimesKnown(s: State, a: Act, maxRetries: int, acts: seq<Act>)
    requires Faithful(s) && TimesKnown(s, acts)
    ensures TimesKnown(Next(s, a, maxRetries), acts + [a])
  {
    hide Get, Update, Remove, Enqueue, Todo, Settle, Mark, KnownTime;
    var t := Next(s, a, maxRetries);
    NextGet(s, a, maxRetries);
    forall e | e in t.store ensures KnownTime(acts + [a], e.val.enqueuedAt) {
      var i :| 0 <= i < |t.store| && t.store[i] == e;
      InGet(t.store, i);
      if Get(s.store, e.key).Some? {
        GetIn(s.store, e.key);
        KnownTimeMore(acts, a, Get(s.store, e.key).value.enqueuedAt);
      } else {
        assert (acts + [a])[|acts|] == a;
        KnownNow(acts + [a], |acts|);
      }
      if a.ActMark? && s.phase.Ready? && s.phase.todo != [] { assert s.phase.todo[0] in s.phase.todo; }
    }
  }

  lemma {:induction false} KnownTimeMore(acts: seq<Act>, a: Act, t: int)
    requires KnownTime(acts, t)
    ensures KnownTime(acts + [a], t)
  {
    var i :| 0 <= i < |acts| && acts[i].ActEnqueue? && acts[i].now == t;
    assert (acts + [a])[i] == acts[i];
  }

  lemma {:induction false} KnownNow(acts: seq<Act>, i: nat)
    requires i < |acts| && acts[i].ActEnqueue?
    ensures KnownTime(acts, acts[i].now)
  {
  }

  lemma {:induction false} RunTimesKnown(acts: seq<Act>, maxRetries: int)
    ensures TimesKnown(Run(acts, maxRetries), acts)
  {
    hide Next, Faithful, KnownTime;
    if acts != [] {
      RunTimesKnown(acts[..|acts| - 1], maxRetries);
      RunFaithful(acts[..|acts| - 1], maxRetries);
      assert acts == acts[..|acts| - 1] + [acts[|acts| - 1]];
      NextTimesKnown(Run(acts[..|acts| - 1], maxRetries), acts[|acts| - 1], maxRetries, acts[..|acts| - 1]);
    }
  }

  /**
   * Dispatches inside a drain follow enqueue order, whatever happens between them; with a strictly
   * increasing clock no two share a time, and the order is the order of insertion.
   */
  lemma {:induction false} DispatchFollowsEnqueue(acts: seq<Act>, maxRetries: int, strict: bool)
    requires strict ==> StrictClock(acts)
    ensures InOrder(Run(acts, maxRetries), strict)
    ensures Ordered(Sent(Run(acts, maxRetries).log), strict)
  {
    hide Next, Ordered, Sent;
    if acts == [] {
      StartInOrder(strict);
    } else {
      var before, a := acts[..|acts| - 1], acts[|acts| - 1];
      var s := Run(before, maxRetries);
      DispatchFollowsEnqueue(before, maxRetries, strict);
      RunTimesKnown(before, maxRetries);
      if strict && a.ActEnqueue? {
        forall e | e in s.store ensures e.val.enqueuedAt < a.now {
          assert KnownTime(before, e.val.enqueuedAt);
          var i :| 0 <= i < |before| && before[i].ActEnqueue? && before[i].now == e.val.enqueuedAt;
          assert acts[i] == before[i];
        }
      }
      NextInOrder(s, a, maxRetries, strict);
    }
    OrderedPrefix(Sent(Run(acts, maxRetries).log), Unsent(Run(acts, maxRetries).phase), strict);
  }

  lemma {:induction false} StartInOrder(strict: bool)
    ensures InOrder(State([], Idle, []), strict)
  {
  }
}
