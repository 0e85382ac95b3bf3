/**
 * Password changes of one user that overlap: each compares, searches the history, rotates and hashes in
 * steps, and other changes may run in between. When the history rule survives that.
 */
module PasswordRaces {
  import opened Options
  import opened UserPasswords

  /** A change compares with the hash it saw, searches the history it saw, or waits for its new hash. */
  datatype Task = Comparing(pw: string, seen: string) | Searching(pw: string, recent: seq<string>) | Hashing(pw: string) | Done(result: Change)

  /** The current password, the stored replaced ones, every password so far, and the changes. */
  datatype State = State(current: string, history: seq<string>, past: seq<string>, tasks: seq<Task>)

  datatype Act = Call(pw: string) | Compare(index: nat) | Rotate(index: nat) | Store(index: nat)

  function TaskAt(s: State, i: nat): Option<Task> {
    if i < |s.tasks| then Some(s.tasks[i]) else None
  }

  /** One step; an act no change is at leaves the state alone. */
  function Next(s: State, a: Act): State {
    match a
    case Call(pw) => s.(tasks := s.tasks + [if TooWeak(pw) then Done(PasswordTooWeak) else Comparing(pw, s.current)])
    case Compare(i) =>
      (match TaskAt(s, i)
       case Some(Comparing(pw, seen)) =>
         s.(tasks := s.tasks[i := if pw == seen then Done(PasswordReused) else Searching(pw, s.history)])
       case _ => s)
    case Rotate(i) =>
      (match TaskAt(s, i)
       case Some(Searching(pw, recent)) =>
         if pw in recent then s.(tasks := s.tasks[i := Done(PasswordReused)])
         else s.(history := Last(s.history, PASSWORD_HISTORY_LIMIT - 1) + [s.current], tasks := s.tasks[i := Hashing(pw)])
       case _ => s)
    case Store(i) =>
      (match TaskAt(s, i)
       case Some(Hashing(pw)) => s.(current := pw, past := s.past + [pw], tasks := s.tasks[i := Done(Changed)])
       case _ => s)
  }

  function Run(s: State, acts: seq<Act>): State {
    if acts == [] then s else Next(Run(s, acts[..|acts| - 1]), acts[|acts| - 1])
  }

  // ---- Changes that take turns ----

  ghost predicate Settled(s: State) {
    forall i :: 0 <= i < |s.tasks| ==> s.tasks[i].Done?
  }

  /** The act begins a change while another is under way. */
  ghost predicate Overlaps(s: State, a: Act) {
    a.Call? && !Settled(s)
  }

  ghost predicate TakeTurns(s: State, acts: seq<Act>) {
    acts == [] || (var before := acts[..|acts| - 1]; TakeTurns(s, before) && !Overlaps(Run(s, before), acts[|acts| - 1]))
  }

  /** The stored passwords are the last ones, as they are between changes. */
  ghost predicate Stored(s: State) {
    s.past != [] && s.current == s.past[|s.past| - 1] && s.history == Last(s.past[..|s.past| - 1], PASSWORD_HISTORY_LIMIT)
  }

  /** Nothing is forgotten: at most the last change is under way, and what it saw is what is stored. */
  ghost predicate Held(s: State) {
    && s.past != [] && Spaced(s.past)
    && (forall i :: 0 <= i < |s.tasks| - 1 ==> s.tasks[i].Done?)
    && (if s.tasks == [] || s.tasks[|s.tasks| - 1].Done? then Stored(s) else LastHeld(s, s.tasks[|s.tasks| - 1]))
  }

  ghost predicate LastHeld(s: State, t: Task)
    requires s.past != []
  {
    match t
    case Comparing(pw, seen) => Stored(s) && seen == s.current && !TooWeak(pw)
    case Searching(pw, recent) => Stored(s) && recent == s.history && pw != s.current && !TooWeak(pw)
    case Hashing(pw) =>
      && s.current == s.past[|s.past| - 1] && s.history == Last(s.past, PASSWORD_HISTORY_LIMIT)
      && Verdict(s.past, pw) == Changed
    case Done(_) => true
  }

  lemma {:induction false} Rotates(past: seq<string>, history: seq<string>, current: string)
    requires past != [] && current == past[|past| - 1] && history == Last(past[..|past| - 1], PASSWORD_HISTORY_LIMIT)
    ensures Last(history, PASSWORD_HISTORY_LIMIT - 1) + [current] == Last(past, PASSWORD_HISTORY_LIMIT)
  {
  }

  lemma {:induction false} NextHeld(s: State, a: Act)
    requires Held(s) && !Overlaps(s, a)
    ensures Held(Next(s, a))
  {
    hide TooWeak, Spaced, Last;
    var t := Next(s, a);
    match a
    case Call(pw) =>
    case Compare(i) =>
    case Rotate(i) =>
      if i < |s.tasks| && s.tasks[i].Searching? {
        RecentPasswords(s.past, s.history, s.tasks[i].pw);
        Rotates(s.past, s.history, s.current);
      }
    case Store(i) =>
      if i < |s.tasks| && s.tasks[i].Hashing? {
        StaysSpaced(s.past, s.tasks[i].pw);
        assert t.past[..|t.past| - 1] == s.past;
      }
  }

  /** Changes that take turns keep the rule: every accepted password differs from the six before it. */
  lemma {:induction false} TurnsKeepHistory(s: State, acts: seq<Act>)
    requires Held(s) && TakeTurns(s, acts)
    ensures Held(Run(s, acts)) && Spaced(Run(s, acts).past)
  {
    hide Next, Overlaps, Spaced, Stored, LastHeld;
    if acts != [] {
      TurnsKeepHistory(s, acts[..|acts| - 1]);
      NextHeld(Run(s, acts[..|acts| - 1]), acts[|acts| - 1]);
    }
  }

  // ---- Which changes can still be accepted ----

  /** Going on now, the change would pass its remaining checks. */
  predicate Passes(s: State, t: Task) {
    match t
    case Comparing(pw, seen) => pw != seen && pw !in s.history
    case Searching(pw, recent) => pw !in recent
    case _ => false
  }

  /** The history after one more rotation. */
  function Rotated(s: State): seq<string> {
    Last(s.history, PASSWORD_HISTORY_LIMIT - 1) + [s.current]
  }

  /** It would pass them once another change has rotated the history. */
  predicate PassesAfter(s: State, t: Task) {
    match t
    case Comparing(pw, seen) => pw != seen && pw !in Rotated(s)
    case Searching(pw, recent) => pw !in recent
    case _ => false
  }

  ghost predicate SomeHashing(s: State) {
    exists i :: 0 <= i < |s.tasks| && s.tasks[i].Hashing?
  }

  /** One change has rotated the history; no other can pass any more. */
  ghost predicate OnePending(s: State) {
    && s.history == Last(s.past, PASSWORD_HISTORY_LIMIT)
    && (forall i :: 0 <= i < |s.tasks| && s.tasks[i].Hashing? ==> s.tasks[i].pw !in Last(s.past, PASSWORD_HISTORY_LIMIT + 1))
    && (forall i, j :: 0 <= i < j < |s.tasks| && s.tasks[i].Hashing? ==> !s.tasks[j].Hashing?)
    && (forall i :: 0 <= i < |s.tasks| ==> !Passes(s, s.tasks[i]))
  }

  /** No change has rotated the history; what passes is no recent password, and of two changes one at most can ever pass. */
  ghost predicate NonePending(s: State) {
    && Stored(s)
    && (forall i :: 0 <= i < |s.tasks| && Passes(s, s.tasks[i]) ==> s.tasks[i].pw !in Last(s.past, PASSWORD_HISTORY_LIMIT + 1))
    && (forall i, j :: 0 <= i < |s.tasks| && 0 <= j < |s.tasks| && i != j && Passes(s, s.tasks[i]) ==> !PassesAfter(s, s.tasks[j]))
  }

  /** Any number of changes may be under way, but one at most can still be accepted. */
  ghost predicate Calm(s: State) {
    && s.past != [] && Spaced(s.past) && s.current == s.past[|s.past| - 1]
    && (forall i :: 0 <= i < |s.tasks| && !s.tasks[i].Done? ==> !TooWeak(s.tasks[i].pw))
    && (if SomeHashing(s) then OnePending(s) else NonePending(s))
  }

  /** The call begins a change when it and one under way could both be accepted. */
  ghost predicate Harmful(s: State, a: Act) {
    && a.Call? && !TooWeak(a.pw)
    && var mine := Comparing(a.pw, s.current);
       if SomeHashing(s) then Passes(s, mine)
       else exists j :: 0 <= j < |s.tasks| && ClashesWith(s, mine, s.tasks[j])
  }

  predicate ClashesWith(s: State, mine: Task, other: Task) {
    (Passes(s, other) && PassesAfter(s, mine)) || (Passes(s, mine) && PassesAfter(s, other))
  }

  ghost predicate Harmless(s: State, acts: seq<Act>) {
    acts == [] || (var before := acts[..|acts| - 1]; Harmless(s, before) && !Harmful(Run(s, before), acts[|acts| - 1]))
  }

  /** The last five passwords, the history and the current one, against the last six. */
  lemma {:induction false} RecentMeans(s: State, pw: string)
    requires Stored(s)
    ensures pw in Last(s.past, PASSWORD_HISTORY_LIMIT + 1) <==> pw == s.current || pw in s.history
    ensures Rotated(s) == Last(s.past, PASSWORD_HISTORY_LIMIT)
    ensures pw in Rotated(s) ==> pw in Last(s.past, PASSWORD_HISTORY_LIMIT + 1)
  {
    RecentPasswords(s.past, s.history, pw);
    Rotates(s.past, s.history, s.current);
    FiveOfSix(s.past, pw);
  }

  lemma {:induction false} FiveOfSix(past: seq<string>, pw: string)
    ensures pw in Last(past, PASSWORD_HISTORY_LIMIT) ==> pw in Last(past, PASSWORD_HISTORY_LIMIT + 1)
  {
    var five, six := Last(past, PASSWORD_HISTORY_LIMIT), Last(past, PASSWORD_HISTORY_LIMIT + 1);
    assert forall k :: 0 <= k < |five| ==> five[k] == six[|six| - |five| + k];
  }

  lemma {:induction false} HeldIsCalm(s: State)
    requires Held(s)
    ensures Calm(s)
  {
    hide TooWeak, Last, Spaced;
    var n := |s.tasks|;
    assert forall i :: 0 <= i < n - 1 ==> s.tasks[i].Done?;
    if n > 0 && !s.tasks[n - 1].Done? {
      if s.tasks[n - 1].Hashing? { assert SomeHashing(s); } else { RecentMeans(s, s.tasks[n - 1].pw); }
    }
  }

  // ---- A calm state stays calm until a harmful call ----

  lemma {:induction false} CallCalm(s: State, pw: string)
    requires Calm(s) && !Harmful(s, Call(pw))
    ensures Calm(Next(s, Call(pw)))
  {
    hide TooWeak, Last, Spaced, Rotated;
    var t := Next(s, Call(pw));
    assert forall i :: 0 <= i < |s.tasks| ==> t.tasks[i] == s.tasks[i];
    if SomeHashing(s) {
      var i :| 0 <= i < |s.tasks| && s.tasks[i].Hashing?;
      assert t.tasks[i].Hashing?;
    } else {
      RecentMeans(s, pw);
      SameRotation(s, t);
      assert !SomeHashing(t);
      assert t.tasks[|s.tasks|] == if TooWeak(pw) then Done(PasswordTooWeak) else Comparing(pw, s.current);
    }
  }

  lemma {:induction false} CompareCalm(s: State, i: nat)
    requires Calm(s)
    ensures Calm(Next(s, Compare(i)))
  {
    hide TooWeak, Last, Spaced, Rotated;
    if i < |s.tasks| && s.tasks[i].Comparing? {
      var t := Next(s, Compare(i));
      assert forall k :: 0 <= k < |s.tasks| && k != i ==> t.tasks[k] == s.tasks[k];
      assert SomeHashing(t) <==> SomeHashing(s) by {
        if SomeHashing(s) {
          var k :| 0 <= k < |s.tasks| && s.tasks[k].Hashing?;
          assert t.tasks[k].Hashing?;
        }
      }
      if !SomeHashing(s) {
        RecentMeans(s, s.tasks[i].pw);
        SameRotation(s, t);
      }
    }
  }

  lemma {:induction false} RotateCalm(s: State, i: nat)
    requires Calm(s)
    ensures Calm(Next(s, Rotate(i)))
  {
    hide TooWeak, Last, Spaced;
    if i < |s.tasks| && s.tasks[i].Searching? {
      var t := Next(s, Rotate(i));
      assert forall k :: 0 <= k < |s.tasks| && k != i ==> t.tasks[k] == s.tasks[k];
      if SomeHashing(s) {
        var k :| 0 <= k < |s.tasks| && s.tasks[k].Hashing?;
        assert t.tasks[k].Hashing?;
        assert !Passes(s, s.tasks[i]);
      } else if Passes(s, s.tasks[i]) {
        RecentMeans(s, s.tasks[i].pw);
        assert t.tasks[i].Hashing? && t.history == Rotated(s);
      } else {
        assert !SomeHashing(t);
        assert Rotated(t) == Rotated(s);
      }
    }
  }

  lemma {:induction false} StoreCalm(s: State, i: nat)
    requires Calm(s)
    ensures Calm(Next(s, Store(i)))
  {
    hide TooWeak, Spaced, Last, Rotated;
    if i < |s.tasks| && s.tasks[i].Hashing? {
      var t := Next(s, Store(i));
      assert SomeHashing(s);
      StaysSpaced(s.past, s.tasks[i].pw);
      assert t.past[..|t.past| - 1] == s.past;
      assert !SomeHashing(t);
    }
  }

  lemma {:induction false} NextCalm(s: State, a: Act)
    requires Calm(s) && !Harmful(s, a)
    ensures Calm(Next(s, a))
  {
    hide Calm, Harmful, Next;
    match a
    case Call(pw) => CallCalm(s, pw);
    case Compare(i) => CompareCalm(s, i);
    case Rotate(i) => RotateCalm(s, i);
    case Store(i) => StoreCalm(s, i);
  }

  lemma {:induction false} RunCalm(s: State, acts: seq<Act>)
    requires Calm(s) && Harmless(s, acts)
    ensures Calm(Run(s, acts)) && Spaced(Run(s, acts).past)
  {
    hide Next, Harmful, Spaced, TooWeak, OnePending, NonePending;
    if acts != [] {
      RunCalm(s, acts[..|acts| - 1]);
      NextCalm(Run(s, acts[..|acts| - 1]), acts[|acts| - 1]);
    }
  }

  lemma {:induction false} SettledIsSafe(s: State, a: Act)
    requires !Overlaps(s, a)
    ensures !Harmful(s, a)
  {
  }

  lemma {:induction false} TurnsAreHarmless(s: State, acts: seq<Act>)
    requires TakeTurns(s, acts)
    ensures Harmless(s, acts)
  {
    hide Next, Harmful, Overlaps;
    if acts != [] {
      TurnsAreHarmless(s, acts[..|acts| - 1]);
      SettledIsSafe(Run(s, acts[..|acts| - 1]), acts[|acts| - 1]);
    }
  }

  // ---- A harmful call can be carried on to a password used too soon ----

  /** A state reached from another by acts that begin no change beside another. */
  ghost predicate Reached(from: State, acts: seq<Act>, to: State) {
    Run(from, acts) == to && TakeTurns(from, acts)
  }

  lemma {:induction false} NoSteps(s: State)
    ensures Reached(s, [], s)
  {
  }

  lemma {:induction false} RunPush(from: State, acts: seq<Act>, to: State, a: Act) returns (more: seq<Act>)
    requires Reached(from, acts, to) && !Overlaps(to, a)
    ensures Reached(from, more, Next(to, a))
  {
    more := acts + [a];
    assert more[..|acts|] == acts;
  }

  /** Carried on alone, a change that does not pass ends, and leaves everything else as it is. */
  lemma {:induction false} EndsRefused(s: State, i: nat)
    requires i < |s.tasks| && !Passes(s, s.tasks[i]) && !s.tasks[i].Hashing?
    ensures var t := Next(Next(s, Compare(i)), Rotate(i));
      |t.tasks| == |s.tasks| && t.tasks[i].Done? && !Passes(t, t.tasks[i]) && t == s.(tasks := s.tasks[i := t.tasks[i]])
  {
  }

  /** Carried on alone, a change that passes rotates the history and comes to its new hash. */
  lemma {:induction false} ComesToHash(s: State, i: nat)
    requires i < |s.tasks| && Passes(s, s.tasks[i])
    ensures Next(Next(s, Compare(i)), Rotate(i)) == s.(history := Rotated(s), tasks := s.tasks[i := Hashing(s.tasks[i].pw)])
  {
  }

  /** All but two of the first `n` changes are over. */
  ghost predicate OnlyTwo(s: State, i: nat, j: nat, n: nat) {
    i < |s.tasks| && j < |s.tasks| && i != j && n <= |s.tasks|
    && forall k :: 0 <= k < n && k != i && k != j ==> s.tasks[k].Done?
  }

  /** The states differ only in changes other than these two, of which none passes. */
  ghost predicate OthersRefused(s: State, i: nat, j: nat) {
    i < |s.tasks| && j < |s.tasks| && i != j
    && forall k :: 0 <= k < |s.tasks| && k != i && k != j ==> !Passes(s, s.tasks[k]) && !s.tasks[k].Hashing?
  }

  lemma {:induction false} EndOthers(s: State, i: nat, j: nat, n: nat) returns (acts: seq<Act>, t: State)
    requires OthersRefused(s, i, j) && n <= |s.tasks|
    ensures Reached(s, acts, t) && OthersRefused(t, i, j) && OnlyTwo(t, i, j, n)
    ensures |t.tasks| == |s.tasks| && t.tasks[i] == s.tasks[i] && t.tasks[j] == s.tasks[j]
    ensures t.current == s.current && t.history == s.history && t.past == s.past
  {
    hide Next, Reached, Passes;
    if n == 0 {
      NoSteps(s);
      acts, t := [], s;
    } else {
      acts, t := EndOthers(s, i, j, n - 1);
      if n - 1 != i && n - 1 != j {
        EndsRefused(t, n - 1);
        var was := t;
        acts := RunPush(s, acts, t, Compare(n - 1));
        acts := RunPush(s, acts, Next(t, Compare(n - 1)), Rotate(n - 1));
        t := Next(Next(t, Compare(n - 1)), Rotate(n - 1));
        SameChecks(was, t);
      }
    }
  }

  lemma {:induction false} SameChecks(s: State, t: State)
    requires s.history == t.history && s.current == t.current
    ensures forall x :: Passes(s, x) == Passes(t, x)
  {
  }

  lemma {:induction false} NotSpaced(past: seq<string>, between: seq<string>, pw: string)
    requires |between| <= PASSWORD_HISTORY_LIMIT
    ensures !Spaced(past + [pw] + between + [pw])
  {
    var all := past + [pw] + between + [pw];
    assert all[|past|] == all[|past| + 1 + |between|] == pw;
  }

  lemma {:induction false} TooSoon(past: seq<string>, pw: string)
    requires pw in Last(past, PASSWORD_HISTORY_LIMIT + 1)
    ensures !Spaced(past + [pw])
  {
    var recent := Last(past, PASSWORD_HISTORY_LIMIT + 1);
    var k :| 0 <= k < |recent| && recent[k] == pw;
    var i, all := |past| - |recent| + k, past + [pw];
    assert all[i] == all[|past|] == pw;
  }

  /** Two changes that have both rotated: of the one stored first no hash remains, so it can be set again at once. */
  lemma {:induction false} FirstIsForgotten(s: State, i: nat, j: nat, before: State, sofar: seq<Act>) returns (more: seq<Act>)
    requires OnlyTwo(s, i, j, |s.tasks|) && s.tasks[i].Hashing? && s.tasks[j].Hashing?
    requires !TooWeak(s.tasks[i].pw) && s.tasks[i].pw !in s.history && Reached(before, sofar, s)
    ensures TakeTurns(before, more) && !Spaced(Run(before, more).past)
  {
    hide TooWeak, Spaced, Last, Run, TakeTurns;
    var k, a, b := |s.tasks|, s.tasks[i].pw, s.tasks[j].pw;
    more := RunPush(before, sofar, s, Store(i));
    var t := Next(s, Store(i));
    more := RunPush(before, more, t, Store(j));
    t := Next(t, Store(j));
    assert Settled(t);
    if a == b {
      assert t.past == s.past + [a] + [] + [a];
      NotSpaced(s.past, [], a);
    } else {
      more := RunPush(before, more, t, Call(a));
      t := Next(t, Call(a));
      more := RunPush(before, more, t, Compare(k));
      t := Next(t, Compare(k));
      more := RunPush(before, more, t, Rotate(k));
      t := Next(t, Rotate(k));
      more := RunPush(before, more, t, Store(k));
      t := Next(t, Store(k));
      assert t.past == s.past + [a] + [b] + [a];
      NotSpaced(s.past, [b], a);
    }
  }

  /** Two changes at their new hashes, whatever their passwords, can be stored to break the rule. */
  lemma {:induction false} BothHashing(s: State, i: nat, j: nat, before: State, sofar: seq<Act>) returns (more: seq<Act>)
    requires OnlyTwo(s, i, j, |s.tasks|) && s.tasks[i].Hashing? && s.tasks[j].Hashing? && Reached(before, sofar, s)
    requires !TooWeak(s.tasks[i].pw) && forall x :: x in s.history ==> x in Last(s.past, PASSWORD_HISTORY_LIMIT + 1)
    ensures TakeTurns(before, more) && !Spaced(Run(before, more).past)
  {
    hide TooWeak, Spaced, Last, Run, TakeTurns;
    var a, b := s.tasks[i].pw, s.tasks[j].pw;
    if a in Last(s.past, PASSWORD_HISTORY_LIMIT + 1) {
      more := RunPush(before, sofar, s, Store(i));
      TooSoon(s.past, a);
    } else if b in Last(s.past, PASSWORD_HISTORY_LIMIT + 1) {
      more := RunPush(before, sofar, s, Store(j));
      TooSoon(s.past, b);
    } else {
      more := FirstIsForgotten(s, i, j, before, sofar);
    }
  }

  /** Elements of a rotated history are recent as long as those of the history are. */
  lemma {:induction false} RotatedIsRecent(s: State)
    requires s.past != [] && s.current == s.past[|s.past| - 1]
    requires forall x :: x in s.history ==> x in Last(s.past, PASSWORD_HISTORY_LIMIT + 1)
    ensures forall x :: x in Rotated(s) ==> x in Last(s.past, PASSWORD_HISTORY_LIMIT + 1)
  {
    var six, kept := Last(s.past, PASSWORD_HISTORY_LIMIT + 1), Last(s.history, PASSWORD_HISTORY_LIMIT - 1);
    assert six[|six| - 1] == s.current;
    assert forall x :: x in kept ==> x in s.history;
  }

  lemma {:induction false} RecentHistory(s: State)
    requires Calm(s)
    ensures forall x :: x in s.history ==> x in Last(s.past, PASSWORD_HISTORY_LIMIT + 1)
  {
    hide TooWeak, Spaced, Last;
    forall x | x in s.history ensures x in Last(s.past, PASSWORD_HISTORY_LIMIT + 1) {
      if SomeHashing(s) { FiveOfSix(s.past, x); } else { RecentMeans(s, x); }
    }
  }

  /** The first of two changes rotates, if it has not yet; then the second passes too. */
  lemma {:induction false} SecondPasses(v: State, i: nat, j: nat) returns (more: seq<Act>)
    requires OthersRefused(v, i, j) && !v.tasks[i].Done? && !TooWeak(v.tasks[i].pw)
    requires v.past != [] && v.current == v.past[|v.past| - 1]
    requires forall x :: x in v.history ==> x in Last(v.past, PASSWORD_HISTORY_LIMIT + 1)
    requires if v.tasks[i].Hashing? then Passes(v, v.tasks[j]) else Passes(v, v.tasks[i]) && PassesAfter(v, v.tasks[j])
    ensures TakeTurns(v, more) && !Spaced(Run(v, more).past)
  {
    hide TooWeak, Spaced, Last, Run, TakeTurns, Next, Rotated;
    var w: State;
    more, w := EndOthers(v, i, j, |v.tasks|);
    SameChecks(v, w);
    RotatedIsRecent(w);
    if !w.tasks[i].Hashing? {
      ComesToHash(w, i);
      more := RunPush(v, more, w, Compare(i));
      more := RunPush(v, more, Next(w, Compare(i)), Rotate(i));
      var x := w.(history := Rotated(w), tasks := w.tasks[i := Hashing(w.tasks[i].pw)]);
      assert Rotated(w) == Rotated(v) by { SameRotation(v, w); }
      assert Passes(x, x.tasks[j]);
      w := x;
      RotatedIsRecent(w);
    }
    ComesToHash(w, j);
    more := RunPush(v, more, w, Compare(j));
    more := RunPush(v, more, Next(w, Compare(j)), Rotate(j));
    more := BothHashing(w.(history := Rotated(w), tasks := w.tasks[j := Hashing(w.tasks[j].pw)]), i, j, v, more);
  }

  lemma {:induction false} SameRotation(s: State, t: State)
    requires s.history == t.history && s.current == t.current
    ensures Rotated(s) == Rotated(t)
  {
  }

  /** Of three changes, when one passes and a call clashes with it or another, the rest cannot pass. */
  lemma {:induction false} RestRefused(s: State, j: nat, k: nat)
    requires Calm(s) && !SomeHashing(s) && j < |s.tasks| && k < |s.tasks| && j != k
    requires Passes(s, s.tasks[j]) || PassesAfter(s, s.tasks[j])
    ensures !Passes(s, s.tasks[k])
  {
    hide TooWeak, Spaced, Last, Rotated;
    if Passes(s, s.tasks[k]) && Passes(s, s.tasks[j]) { RecentMeans(s, s.tasks[k].pw); }
  }

  /** Begun beside the changes of `s`. */
  function Joined(s: State, b: string): State {
    s.(tasks := s.tasks + [Comparing(b, s.current)])
  }

  lemma {:induction false} JoinedTasks(s: State, b: string)
    ensures var v := Joined(s, b);
      && |v.tasks| == |s.tasks| + 1 && v.tasks[|s.tasks|] == Comparing(b, s.current)
      && (forall k :: 0 <= k < |s.tasks| ==> v.tasks[k] == s.tasks[k])
      && (forall x :: Passes(v, x) == Passes(s, x) && PassesAfter(v, x) == PassesAfter(s, x))
  {
  }

  /** Both changes can pass, the second once the first has rotated; no other can. */
  ghost predicate Pair(v: State, i: nat, j: nat) {
    && OthersRefused(v, i, j) && !v.tasks[i].Done? && !TooWeak(v.tasks[i].pw)
    && if v.tasks[i].Hashing? then Passes(v, v.tasks[j]) else Passes(v, v.tasks[i]) && PassesAfter(v, v.tasks[j])
  }

  lemma {:induction false} PendingClash(s: State, b: string, i: nat)
    requires Calm(s) && Harmful(s, Call(b)) && SomeHashing(s) && i < |s.tasks| && s.tasks[i].Hashing?
    ensures Pair(Joined(s, b), i, |s.tasks|)
  {
    JoinedTasks(s, b);
    hide TooWeak, Spaced, Last, Rotated, Passes, PassesAfter, Joined;
    assert OnePending(s);
  }

  lemma {:induction false} OpenClash(s: State, b: string, m: nat) returns (i: nat, j: nat)
    requires Calm(s) && !TooWeak(b) && !SomeHashing(s) && m < |s.tasks| && ClashesWith(s, Comparing(b, s.current), s.tasks[m])
    ensures Pair(Joined(s, b), i, j)
  {
    var mine, n := Comparing(b, s.current), |s.tasks|;
    JoinedTasks(s, b);
    hide TooWeak, Spaced, Last, Rotated, Passes, PassesAfter, Joined, NonePending, OnePending;
    LivePasses(s, s.tasks[m]);
    LivePasses(s, mine);
    forall k | 0 <= k < n && k != m ensures !Passes(s, s.tasks[k]) && !s.tasks[k].Hashing? { RestRefused(s, m, k); }
    if Passes(s, s.tasks[m]) && PassesAfter(s, mine) { i, j := m, n; } else { i, j := n, m; }
  }

  /** Of a harmful call's change and those under way, two can both pass, and no other can. */
  lemma {:induction false} TwoClash(s: State, b: string) returns (i: nat, j: nat)
    requires Calm(s) && Harmful(s, Call(b))
    ensures Pair(Joined(s, b), i, j)
  {
    hide Calm, Pair, Joined, ClashesWith, Passes, TooWeak;
    if SomeHashing(s) {
      i :| 0 <= i < |s.tasks| && s.tasks[i].Hashing?;
      j := |s.tasks|;
      PendingClash(s, b, i);
    } else {
      var m: nat :| 0 <= m < |s.tasks| && ClashesWith(s, Comparing(b, s.current), s.tasks[m]);
      i, j := OpenClash(s, b, m);
    }
  }

  lemma {:induction false} LivePasses(s: State, t: Task)
    ensures Passes(s, t) ==> !t.Done? && !t.Hashing?
  {
  }

  /** Whatever is under way, a harmful call can be carried on, with no other overlap, to a password used too soon again. */
  lemma {:induction false} OverlapForgets(s: State, b: string) returns (more: seq<Act>)
    requires Calm(s) && Harmful(s, Call(b))
    ensures var v := Next(s, Call(b)); TakeTurns(v, more) && !Spaced(Run(v, more).past)
  {
    assert Next(s, Call(b)) == Joined(s, b);
    RecentHistory(s);
    var i, j := TwoClash(s, b);
    hide TooWeak, Spaced, Last, Run, TakeTurns, Next, Rotated, OthersRefused, Passes, PassesAfter;
    more := SecondPasses(Joined(s, b), i, j);
  }

  ghost predicate AlwaysSpaced(s: State, acts: seq<Act>) {
    forall k: nat, more :: k <= |acts| && TakeTurns(Run(s, acts[..k]), more) ==> Spaced(Run(Run(s, acts[..k]), more).past)
  }

  /**
   * The rule holds at every moment, however the changes then under way are carried on and others follow in
   * turn, exactly when no change begins while it and one under way could both be accepted.
   */
  lemma {:induction false} SpacedExactly(s: State, acts: seq<Act>)
    requires Calm(s)
    ensures AlwaysSpaced(s, acts) <==> Harmless(s, acts)
  {
    hide Next, Run, Calm, Spaced, Harmful, TakeTurns;
    if Harmless(s, acts) {
      forall k: nat, more | k <= |acts| && TakeTurns(Run(s, acts[..k]), more) ensures Spaced(Run(Run(s, acts[..k]), more).past) {
        HarmlessPrefix(s, acts, k);
        RunCalm(s, acts[..k]);
        TurnsAreHarmless(Run(s, acts[..k]), more);
        RunCalm(Run(s, acts[..k]), more);
      }
    } else {
      var k := FirstHarm(s, acts);
      var u, a := Run(s, acts[..k]), acts[k];
      RunCalm(s, acts[..k]);
      HarmIsCall(u, a);
      var more := OverlapForgets(u, a.pw);
      assert acts[..k + 1][..k] == acts[..k];
      assert Run(s, acts[..k + 1]) == Next(u, a) by { LastStep(s, acts[..k + 1]); }
      assert !AlwaysSpaced(s, acts);
    }
  }

  lemma {:induction false} LastStep(s: State, acts: seq<Act>)
    requires acts != []
    ensures Run(s, acts) == Next(Run(s, acts[..|acts| - 1]), acts[|acts| - 1])
  {
  }

  lemma {:induction false} HarmIsCall(s: State, a: Act)
    requires Harmful(s, a)
    ensures a.Call? && a == Call(a.pw)
  {
  }

  lemma {:induction false} HarmlessPrefix(s: State, acts: seq<Act>, k: nat)
    requires Harmless(s, acts) && k <= |acts|
    ensures Harmless(s, acts[..k])
  {
    hide Harmful, Run;
    if k == |acts| {
      assert acts[..k] == acts;
    } else {
      assert acts[..|acts| - 1][..k] == acts[..k];
      HarmlessPrefix(s, acts[..|acts| - 1], k);
    }
  }

  lemma {:induction false} FirstHarm(s: State, acts: seq<Act>) returns (k: nat)
    requires !Harmless(s, acts)
    ensures k < |acts| && Harmless(s, acts[..k]) && Harmful(Run(s, acts[..k]), acts[k])
  {
    hide Run, Harmful;
    var before := acts[..|acts| - 1];
    if Harmless(s, before) {
      k := |acts| - 1;
    } else {
      k := FirstHarm(s, before);
      assert before[..k] == acts[..k];
    }
  }

  /**
   * One change under way, in terms of the passwords: a strong `b` is harmful to begin exactly when it is none
   * of the last five, and the one under way has rotated, or is none of the last six, or is the sixth-last, has
   * not searched yet, and `b` is none of the last six.
   */
  lemma {:induction false} OneOverlapExactly(s: State, b: string)
    requires Held(s) && s.tasks != [] && !s.tasks[|s.tasks| - 1].Done?
    ensures var five, six := Last(s.past, PASSWORD_HISTORY_LIMIT), Last(s.past, PASSWORD_HISTORY_LIMIT + 1);
      Harmful(s, Call(b)) <==>
        && !TooWeak(b) && b !in five
        && match s.tasks[|s.tasks| - 1]
           case Hashing(_) => true
           case Searching(a, _) => a !in six
           case Comparing(a, _) => a !in six || (a !in five && b !in six)
           case Done(_) => false
  {
    var n := |s.tasks| - 1;
    var t, mine := s.tasks[n], Comparing(b, s.current);
    assert forall i :: 0 <= i < n ==> s.tasks[i].Done?;
    assert SomeHashing(s) <==> t.Hashing?;
    hide TooWeak, Last, Spaced, Rotated, ClashesWith, Passes;
    if t.Hashing? {
      PendingMeans(s, b);
    } else {
      OnlyClash(s, mine);
      ClashMeans(s, t, b);
    }
  }

  lemma {:induction false} PendingMeans(s: State, b: string)
    requires s.past != [] && s.current == s.past[|s.past| - 1] && s.history == Last(s.past, PASSWORD_HISTORY_LIMIT)
    ensures Passes(s, Comparing(b, s.current)) <==> b !in Last(s.past, PASSWORD_HISTORY_LIMIT)
  {
    assert s.history[|s.history| - 1] == s.current;
  }

  lemma {:induction false} OnlyClash(s: State, mine: Task)
    requires s.tasks != [] && forall i :: 0 <= i < |s.tasks| - 1 ==> s.tasks[i].Done?
    ensures (exists j :: 0 <= j < |s.tasks| && ClashesWith(s, mine, s.tasks[j])) <==> ClashesWith(s, mine, s.tasks[|s.tasks| - 1])
  {
  }

  lemma {:induction false} ClashMeans(s: State, t: Task, b: string)
    requires Stored(s) && (t.Comparing? || t.Searching?) && LastHeld(s, t)
    ensures var five, six := Last(s.past, PASSWORD_HISTORY_LIMIT), Last(s.past, PASSWORD_HISTORY_LIMIT + 1);
      ClashesWith(s, Comparing(b, s.current), t) <==>
        b !in five && (t.pw !in six || (t.Comparing? && t.pw !in five && b !in six))
  {
    hide TooWeak, Last, Rotated;
    RecentMeans(s, t.pw);
    RecentMeans(s, b);
    CurrentIsRecent(s);
  }

  lemma {:induction false} CurrentIsRecent(s: State)
    ensures s.current in Rotated(s)
  {
  }
}
