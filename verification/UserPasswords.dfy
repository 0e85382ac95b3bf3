/**
 * A user's password history and login lockout. Argon2 is modelled by what callers rely on: a hash
 * verifies exactly the password it was made from, whatever the salt.
 */
module UserPasswords {
  import opened Options

  const PASSWORD_HISTORY_LIMIT := 5

  datatype Hash = Hash(password: string, salt: nat)

  predicate Verify(h: Hash, password: string) {
    h.password == password
  }

  // ---- Strength ----

  predicate IsDigitOrSymbol(c: char) {
    '0' <= c <= '9' || c in "!@#$%^&*()_+-=[]{};':\"\\|,.<>/?"
  }

  predicate TooWeak(pw: string) {
    || |pw| < 8
    || !(exists i :: 0 <= i < |pw| && 'a' <= pw[i] <= 'z')
    || !(exists i :: 0 <= i < |pw| && 'A' <= pw[i] <= 'Z')
    || !(exists i :: 0 <= i < |pw| && IsDigitOrSymbol(pw[i]))
  }

  /** Strong is: eight characters, among them a small letter, a capital, and a digit or a symbol. */
  lemma {:induction false} StrengthExactly(pw: string)
    ensures !TooWeak(pw) <==>
      && |pw| >= 8 && (exists c :: c in pw && 'a' <= c <= 'z') && (exists c :: c in pw && 'A' <= c <= 'Z')
      && (exists c :: c in pw && ('0' <= c <= '9' || c in "!@#$%^&*()_+-=[]{};':\"\\|,.<>/?"))
  {
    assert forall c :: c in pw <==> exists i :: 0 <= i < |pw| && pw[i] == c;
    if i :| 0 <= i < |pw| && 'a' <= pw[i] <= 'z' { assert pw[i] in pw; }
    if i :| 0 <= i < |pw| && 'A' <= pw[i] <= 'Z' { assert pw[i] in pw; }
    if i :| 0 <= i < |pw| && IsDigitOrSymbol(pw[i]) { assert pw[i] in pw; }
  }

  // ---- The last passwords ----

  /** The last n elements, or all of them. */
  function Last<T>(s: seq<T>, n: nat): (r: seq<T>) {
    if |s| <= n then s else s[|s| - n..]
  }

  function Passwords(hs: seq<Hash>): (r: seq<string>)
    ensures |r| == |hs| && forall i :: 0 <= i < |hs| ==> r[i] == hs[i].password
  {
    seq(|hs|, i requires 0 <= i < |hs| => hs[i].password)
  }

  datatype Change = Changed | PasswordTooWeak | PasswordReused

  /** How a change of password is answered, given every password the user has had, the current one last. */
  ghost function Verdict(past: seq<string>, pw: string): Change {
    if TooWeak(pw) then PasswordTooWeak
    else if pw in Last(past, PASSWORD_HISTORY_LIMIT + 1) then PasswordReused
    else Changed
  }

  /** No password comes back within the window of the last six. */
  ghost predicate Spaced(past: seq<string>) {
    forall i, j :: 0 <= i < j < |past| && past[i] == past[j] ==> j - i > 6
  }

  class User {
    var passwordHash: Hash
    var passwordHistory: seq<Hash>
    var mustChangePassword: bool
    var termsAcceptedAt: Option<int>
    var locked: bool
    var failedLoginCount: int
    var lockoutUntil: Option<int>
    /** Every password the user has had, oldest first. */
    ghost var past: seq<string>

    /** The stored hashes are those of the last replaced passwords, in order, and the current one. */
    ghost predicate Valid()
      reads this
    {
      && past != [] && Spaced(past)
      && passwordHash.password == past[|past| - 1]
      && Passwords(passwordHistory) == Last(past[..|past| - 1], PASSWORD_HISTORY_LIMIT)
    }

    function Lock(): LockState
      reads this
    {
      LockState(locked, lockoutUntil, failedLoginCount)
    }

    constructor (password: string, salt: nat, mustChange: bool, now: int)
      ensures Valid() && past == [password] && Lock() == LockState(false, None, 0)
    {
      passwordHash, passwordHistory := Hash(password, salt), [];
      mustChangePassword, termsAcceptedAt := mustChange, if mustChange then None else Some(now);
      locked, failedLoginCount, lockoutUntil := false, 0, None;
      past := [password];
    }

    method SetPassword(newPassword: string, salt: nat) returns (r: Change)
      requires Valid()
      modifies this`passwordHash, this`passwordHistory, this`past
      ensures Valid()
      ensures r == Verdict(old(past), newPassword)
      ensures past == if r.Changed? then old(past) + [newPassword] else old(past)
      ensures !r.Changed? ==> passwordHash == old(passwordHash) && passwordHistory == old(passwordHistory)
    {
      hide TooWeak, Spaced, Last;
      if TooWeak(newPassword) { return PasswordTooWeak; }
      RecentPasswords(past, Passwords(passwordHistory), newPassword);
      if Verify(passwordHash, newPassword) { return PasswordReused; }
      for i := 0 to |passwordHistory|
        invariant forall j :: 0 <= j < i ==> passwordHistory[j].password != newPassword
      {
        if Verify(passwordHistory[i], newPassword) {
          assert Passwords(passwordHistory)[i] == newPassword;
          return PasswordReused;
        }
      }
      ghost var was := past;
      assert newPassword !in Passwords(passwordHistory);
      passwordHistory := Last(passwordHistory, PASSWORD_HISTORY_LIMIT - 1) + [passwordHash];
      passwordHash := Hash(newPassword, salt);
      past := past + [newPassword];
      HistoryRotates(was, old(passwordHistory), old(passwordHash));
      StaysSpaced(was, newPassword);
      assert past[..|past| - 1] == was;
      return Changed;
    }

    method CompleteFirstLogin(newPassword: string, salt: nat, now: int) returns (r: Change)
      requires Valid()
      modifies this
      ensures Valid()
      ensures r == Verdict(old(past), newPassword)
      ensures past == if r.Changed? then old(past) + [newPassword] else old(past)
      ensures r.Changed? ==> !mustChangePassword && termsAcceptedAt == Some(now) && Lock() == old(Lock()).(failed := 0)
      ensures !r.Changed? ==>
        unchanged(this`passwordHash, this`passwordHistory, this`mustChangePassword, this`termsAcceptedAt) && Lock() == old(Lock())
    {
      hide TooWeak, Spaced, Last;
      r := SetPassword(newPassword, salt);
      if !r.Changed? { return r; }
      mustChangePassword, termsAcceptedAt, failedLoginCount := false, Some(now), 0;
    }

    method RegisterFailedLogin(threshold: int, lockoutMs: int, now: int) returns (justLocked: bool)
      modifies this`locked, this`failedLoginCount, this`lockoutUntil
      ensures Lock() == Step(old(Lock()), Failed(now), threshold, lockoutMs)
      ensures justLocked <==> !old(locked) && locked
    {
      failedLoginCount := failedLoginCount + 1;
      if failedLoginCount >= threshold && !locked {
        locked, lockoutUntil := true, Some(now + lockoutMs);
        return true;
      }
      return false;
    }

    method ResetFailedLogin()
      modifies this`failedLoginCount
      ensures forall threshold, lockoutMs :: Lock() == Step(old(Lock()), LoggedIn, threshold, lockoutMs)
    {
      failedLoginCount := 0;
    }

    method SetLocked(lock: bool)
      modifies this`locked, this`failedLoginCount, this`lockoutUntil
      ensures forall threshold, lockoutMs :: Lock() == Step(old(Lock()), AdminSet(lock), threshold, lockoutMs)
    {
      locked, lockoutUntil := lock, None;
      if !lock { failedLoginCount := 0; }
    }

    method MaybeReleaseAutoLock(now: int) returns (released: bool)
      modifies this`locked, this`failedLoginCount, this`lockoutUntil
      ensures forall threshold, lockoutMs :: Lock() == Step(old(Lock()), Checked(now), threshold, lockoutMs)
      ensures released <==> old(locked) && !locked
    {
      if !locked { return false; }
      if lockoutUntil.None? { return false; }
      if lockoutUntil.value > now { return false; }
      locked, lockoutUntil, failedLoginCount := false, None, 0;
      return true;
    }
  }

  /** The current password and the stored history together are the last six. */
  lemma {:induction false} RecentPasswords(past: seq<string>, history: seq<string>, pw: string)
    requires past != [] && history == Last(past[..|past| - 1], PASSWORD_HISTORY_LIMIT)
    ensures pw in Last(past, PASSWORD_HISTORY_LIMIT + 1) <==> pw == past[|past| - 1] || pw in history
  {
    assert Last(past, PASSWORD_HISTORY_LIMIT + 1) == history + [past[|past| - 1]];
  }

  lemma {:induction false} HistoryRotates(past: seq<string>, history: seq<Hash>, current: Hash)
    requires past != [] && Passwords(history) == Last(past[..|past| - 1], PASSWORD_HISTORY_LIMIT) && current.password == past[|past| - 1]
    ensures Passwords(Last(history, PASSWORD_HISTORY_LIMIT - 1) + [current]) == Last(past, PASSWORD_HISTORY_LIMIT)
  {
    var kept := Last(history, PASSWORD_HISTORY_LIMIT - 1) + [current];
    var all := Last(past, PASSWORD_HISTORY_LIMIT);
    assert |kept| == |all|;
    forall i | 0 <= i < |all| ensures Passwords(kept)[i] == all[i] {
      if i < |all| - 1 {
        var k := |history| - (|kept| - 1) + i;
        assert kept[i] == history[k] && Passwords(history)[k] == history[k].password;
      }
    }
  }

  lemma {:induction false} StaysSpaced(past: seq<string>, pw: string)
    requires Spaced(past) && pw !in Last(past, PASSWORD_HISTORY_LIMIT + 1)
    ensures Spaced(past + [pw])
  {
    var recent, n := Last(past, PASSWORD_HISTORY_LIMIT + 1), |past|;
    assert forall k :: n - |recent| <= k < n ==> past[k] == recent[k - (n - |recent|)] && past[k] in recent;
  }

  // ---- Whole runs of password changes ----

  /** Every password after a run of change attempts. */
  ghost function PastAfter(past: seq<string>, attempts: seq<string>): seq<string> {
    if attempts == [] then past else
      var before, pw := PastAfter(past, attempts[..|attempts| - 1]), attempts[|attempts| - 1];
      if Verdict(before, pw).Changed? then before + [pw] else before
  }

  /** Whatever is attempted, an accepted password differs from the six before it, or from all if fewer. */
  lemma {:induction false} AcceptedPasswordsAreSpaced(past: seq<string>, attempts: seq<string>)
    requires Spaced(past)
    ensures Spaced(PastAfter(past, attempts))
    ensures past <= PastAfter(past, attempts)
  {
    hide TooWeak;
    if attempts != [] {
      var before, pw := PastAfter(past, attempts[..|attempts| - 1]), attempts[|attempts| - 1];
      AcceptedPasswordsAreSpaced(past, attempts[..|attempts| - 1]);
      if Verdict(before, pw).Changed? { StaysSpaced(before, pw); }
    }
  }

  /** The bound is tight: a strong password that was replaced is accepted again exactly from the sixth other one on. */
  lemma {:induction false} ReuseExactly(before: seq<string>, pw: string, others: seq<string>)
    requires pw !in others && !TooWeak(pw)
    ensures Verdict(before + [pw] + others, pw) == Changed <==> |others| >= 6
  {
    hide TooWeak;
    var past, n := before + [pw] + others, PASSWORD_HISTORY_LIMIT + 1;
    if |others| >= n {
      assert Last(past, n) == others[|others| - n..];
      assert forall x :: x in others[|others| - n..] ==> x in others;
    } else {
      var recent := Last(past, n);
      assert recent[|recent| - 1 - |others|] == pw;
    }
  }

  // ---- Lockout ----

  datatype LockState = LockState(locked: bool, until: Option<int>, failed: int)

  datatype LoginEvent = Failed(now: int) | LoggedIn | AdminSet(lock: bool) | Checked(now: int)

  function Step(s: LockState, e: LoginEvent, threshold: int, lockoutMs: int): LockState {
    match e
    case Failed(now) =>
      if s.failed + 1 >= threshold && !s.locked then LockState(true, Some(now + lockoutMs), s.failed + 1)
      else s.(failed := s.failed + 1)
    case LoggedIn => s.(failed := 0)
    case AdminSet(lock) => LockState(lock, None, if lock then s.failed else 0)
    case Checked(now) =>
      if s.locked && s.until.Some? && s.until.value <= now then LockState(false, None, 0) else s
  }

  function After(s: LockState, es: seq<LoginEvent>, threshold: int, lockoutMs: int): LockState {
    if es == [] then s else Step(After(s, es[..|es| - 1], threshold, lockoutMs), es[|es| - 1], threshold, lockoutMs)
  }

  /** A manual lock holds through everything but an admin unlock. */
  lemma {:induction false} ManualLockHolds(s: LockState, es: seq<LoginEvent>, threshold: int, lockoutMs: int)
    requires s.locked && s.until.None? && forall i :: 0 <= i < |es| ==> es[i] != AdminSet(false)
    ensures After(s, es, threshold, lockoutMs).locked && After(s, es, threshold, lockoutMs).until.None?
  {
    if es != [] { ManualLockHolds(s, es[..|es| - 1], threshold, lockoutMs); }
  }

  /** An account locks automatically exactly at the threshold-th failure in a row, until then plus the lockout time. */
  lemma {:induction false} LocksAtThreshold(s: LockState, es: seq<LoginEvent>, threshold: int, lockoutMs: int)
    requires !s.locked && s.until.None? && s.failed < threshold && forall i :: 0 <= i < |es| ==> es[i].Failed?
    ensures var t, first := After(s, es, threshold, lockoutMs), threshold - s.failed - 1;
      && t.failed == s.failed + |es|
      && (t.locked <==> s.failed + |es| >= threshold)
      && (t.locked ==> t.until == Some(es[first].now + lockoutMs))
      && (!t.locked ==> t.until.None?)
  {
    if es != [] { LocksAtThreshold(s, es[..|es| - 1], threshold, lockoutMs); }
  }

  lemma {:induction false} AfterAppend(s: LockState, a: seq<LoginEvent>, b: seq<LoginEvent>, threshold: int, lockoutMs: int)
    ensures After(s, a + b, threshold, lockoutMs) == After(After(s, a, threshold, lockoutMs), b, threshold, lockoutMs)
  {
    hide Step;
    if b == [] {
      assert a + b == a;
    } else {
      AfterAppend(s, a, b[..|b| - 1], threshold, lockoutMs);
      assert (a + b)[..|a + b| - 1] == a + b[..|b| - 1];
    }
  }

  lemma {:induction false} AfterOne(s: LockState, e: LoginEvent, threshold: int, lockoutMs: int)
    ensures After(s, [e], threshold, lockoutMs) == Step(s, e, threshold, lockoutMs)
  {
    assert [e][..0] == [];
  }

  /** Only failures since the last successful login count, and the threshold-th of them in a row locks. */
  lemma {:induction false} SuccessStartsOver(s: LockState, fails: seq<LoginEvent>, threshold: int, lockoutMs: int)
    requires !s.locked && s.until.None? && threshold > 0 && forall i :: 0 <= i < |fails| ==> fails[i].Failed?
    ensures var t := After(s, [LoggedIn] + fails, threshold, lockoutMs);
      t.failed == |fails| && (t.locked <==> |fails| >= threshold) && (t.locked ==> t.until == Some(fails[threshold - 1].now + lockoutMs))
  {
    AfterAppend(s, [LoggedIn], fails, threshold, lockoutMs);
    AfterOne(s, LoggedIn, threshold, lockoutMs);
    LocksAtThreshold(LockState(false, None, 0), fails, threshold, lockoutMs);
  }

  /** An automatic lock stays as it is while no admin steps in and no check comes at its end or later. */
  lemma {:induction false} AutoLockHolds(s: LockState, es: seq<LoginEvent>, threshold: int, lockoutMs: int)
    requires s.locked && s.until.Some?
    requires forall e :: e in es ==> !e.AdminSet? && (e.Checked? ==> e.now < s.until.value)
    ensures var t := After(s, es, threshold, lockoutMs); t.locked && t.until == s.until
  {
    if es != [] {
      assert es[|es| - 1] in es;
      AutoLockHolds(s, es[..|es| - 1], threshold, lockoutMs);
    }
  }

  /** The first check at or after its end releases it with a clean slate, and no earlier one does. */
  lemma {:induction false} AutoLockExactly(s: LockState, es: seq<LoginEvent>, now: int, threshold: int, lockoutMs: int)
    requires s.locked && s.until.Some?
    requires forall e :: e in es ==> !e.AdminSet? && (e.Checked? ==> e.now < s.until.value)
    ensures var t := After(s, es + [Checked(now)], threshold, lockoutMs);
      if now >= s.until.value then t == LockState(false, None, 0) else t.locked && t.until == s.until
  {
    AutoLockHolds(s, es, threshold, lockoutMs);
    AfterAppend(s, es, [Checked(now)], threshold, lockoutMs);
    AfterOne(After(s, es, threshold, lockoutMs), Checked(now), threshold, lockoutMs);
  }

  /** What an admin sets holds whatever came before: unlocked with a clean slate, or locked until an admin unlocks. */
  lemma {:induction false} AdminDecides(s: LockState, before: seq<LoginEvent>, after: seq<LoginEvent>, threshold: int, lockoutMs: int)
    ensures After(s, before + [AdminSet(false)], threshold, lockoutMs) == LockState(false, None, 0)
    ensures AdminSet(false) !in after ==> var t := After(s, before + [AdminSet(true)] + after, threshold, lockoutMs); t.locked && t.until.None?
  {
    var u := After(s, before, threshold, lockoutMs);
    AfterAppend(s, before, [AdminSet(false)], threshold, lockoutMs);
    AfterAppend(s, before, [AdminSet(true)], threshold, lockoutMs);
    AfterAppend(s, before + [AdminSet(true)], after, threshold, lockoutMs);
    AfterOne(u, AdminSet(false), threshold, lockoutMs);
    AfterOne(u, AdminSet(true), threshold, lockoutMs);
    if AdminSet(false) !in after { ManualLockHolds(Step(u, AdminSet(true), threshold, lockoutMs), after, threshold, lockoutMs); }
  }

  /** The state of an account that only these operations have touched: unlocked ones are below the threshold. */
  lemma {:induction false} UnlockedBelowThreshold(s: LockState, es: seq<LoginEvent>, threshold: int, lockoutMs: int)
    requires threshold > 0 && (!s.locked ==> s.until.None? && s.failed < threshold)
    ensures var t := After(s, es, threshold, lockoutMs); !t.locked ==> t.until.None? && t.failed < threshold
  {
    if es != [] { UnlockedBelowThreshold(s, es[..|es| - 1], threshold, lockoutMs); }
  }
}
