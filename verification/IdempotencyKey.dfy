/**
 * The idempotency keys actions are queued under: kind, resource, actor and time joined by colons and
 * cut to 64 characters. When distinct actions get distinct keys, and what happens when they do not.
 */
module IdempotencyKey {
  import opened Options
  import opened OrderedMap
  import opened OfflineQueue

  const KEY_LIMIT := 64

  function Take(s: string, n: int): string {
    if n <= 0 then "" else if n >= |s| then s else s[..n]
  }

  /** The part of the key before the time. */
  function Stem(kind: string, resource: string, actor: string): (r: string)
    ensures |r| == |kind| + |resource| + |actor| + 3
  {
    kind + ":" + resource + ":" + actor + ":"
  }

  function BuildKey(kind: string, resource: string, actor: string, at: string): string {
    Take(Stem(kind, resource, actor) + at, KEY_LIMIT)
  }

  ghost predicate ColonFree(s: string) {
    ':' !in s
  }

  /** Two texts split at their first colon in the same way. */
  lemma {:induction false} SplitAtColon(a: string, x: string, b: string, y: string)
    requires ColonFree(a) && ColonFree(b) && a + ":" + x == b + ":" + y
    ensures a == b && x == y
  {
    var s, t := a + ":" + x, b + ":" + y;
    assert s[|a|] == ':' && t[|b|] == ':';
    assert forall i :: 0 <= i < |a| ==> s[i] == a[i] && a[i] in a;
    assert forall i :: 0 <= i < |b| ==> t[i] == b[i] && b[i] in b;
    assert a == s[..|a|] && b == t[..|b|];
    assert x == s[|a| + 1..] && y == t[|b| + 1..];
  }

  /** Keys that were not cut, built from parts without colons, determine their parts. */
  lemma {:induction false} KeysAreInjective(k: string, r: string, a: string, t: string, k': string, r': string, a': string, t': string)
    requires ColonFree(k) && ColonFree(r) && ColonFree(a) && ColonFree(k') && ColonFree(r') && ColonFree(a')
    requires |Stem(k, r, a) + t| <= KEY_LIMIT && |Stem(k', r', a') + t'| <= KEY_LIMIT
    requires BuildKey(k, r, a, t) == BuildKey(k', r', a', t')
    ensures k == k' && r == r' && a == a' && t == t'
  {
    assert Stem(k, r, a) + t == k + ":" + (r + ":" + (a + ":" + t));
    assert Stem(k', r', a') + t' == k' + ":" + (r' + ":" + (a' + ":" + t'));
    SplitAtColon(k, r + ":" + (a + ":" + t), k', r' + ":" + (a' + ":" + t'));
    SplitAtColon(r, a + ":" + t, r', a' + ":" + t');
    SplitAtColon(a, t, a', t');
  }

  /** A text around its first colon. */
  function AtFirstColon(s: string): Option<(string, string)> {
    if s == "" then None
    else if s[0] == ':' then Some(("", s[1..]))
    else
      var rest := AtFirstColon(s[1..]);
      if rest.Some? then Some(([s[0]] + rest.value.0, rest.value.1)) else None
  }

  lemma {:induction false} FirstColon(a: string, b: string)
    requires ColonFree(a)
    ensures AtFirstColon(a + ":" + b) == Some((a, b))
  {
    var s := a + ":" + b;
    if a == "" {
      assert s[1..] == b;
    } else {
      assert s[1..] == a[1..] + ":" + b;
      FirstColon(a[1..], b);
      assert a == [a[0]] + a[1..];
    }
  }

  /** Kind, resource, actor and time, as read off a key at its first three colons. */
  datatype Origin = Origin(kind: string, resource: string, actor: string, at: string)

  function ReadKey(key: string): Option<Origin> {
    var x := AtFirstColon(key);
    var y := if x.Some? then AtFirstColon(x.value.1) else None;
    var z := if y.Some? then AtFirstColon(y.value.1) else None;
    if z.Some? then Some(Origin(x.value.0, y.value.0, z.value.0, z.value.1)) else None
  }

  /** A key is at most 64 characters long; one that was not cut, of parts without colons, tells its parts in order. */
  lemma {:induction false} KeyReadsBack(k: string, r: string, a: string, t: string)
    requires ColonFree(k) && ColonFree(r) && ColonFree(a)
    ensures var key, size := BuildKey(k, r, a, t), |k| + |r| + |a| + |t| + 3;
      && |key| == (if size < 64 then size else 64)
      && (size <= 64 ==> ReadKey(key) == Some(Origin(k, r, a, t)))
      && (exists rest :: ReadKey(key + rest) == Some(Origin(k, r, a, t)))
  {
    var full := k + ":" + (r + ":" + (a + ":" + t));
    assert Stem(k, r, a) + t == full;
    FirstColon(k, r + ":" + (a + ":" + t));
    FirstColon(r, a + ":" + t);
    FirstColon(a, t);
    assert ReadKey(full) == Some(Origin(k, r, a, t));
    assert full == BuildKey(k, r, a, t) + full[|BuildKey(k, r, a, t)|..];
  }

  /** Another action, also of a colon-free kind and with a time of the same length, gets the same key. */
  ghost predicate Shared(k: string, r: string, a: string, t: string, k': string, r': string, a': string, t': string) {
    && ColonFree(k') && |t'| == |t| && BuildKey(k', r', a', t') == BuildKey(k, r, a, t)
    && !(k' == k && r' == r && a' == a && t' == t)
  }

  /** Texts joined by a colon, where only the first is known to have none of its own. */
  lemma {:induction false} SplitOnlyColon(r: string, a: string, r': string, a': string)
    requires ColonFree(r) && ColonFree(a) && r + ":" + a == r' + ":" + a'
    ensures r == r' && a == a'
  {
    var s, t := r + ":" + a, r' + ":" + a';
    assert t[|r'|] == ':';
    assert forall i :: 0 <= i < |s| && i != |r| ==> s[i] in r || s[i] in a;
    assert |r'| == |r|;
    assert r == s[..|r|] == t[..|r'|] == r' && a == s[|r| + 1..] == t[|r'| + 1..] == a';
  }

  lemma {:induction false} SameEnd(x: string, t: string, y: string, u: string)
    requires |t| == |u| && x + t == y + u
    ensures x == y && t == u
  {
    assert |x| == |y|;
    assert x == (x + t)[..|x|] && y == (y + u)[..|y|] && t == (x + t)[|x|..] && u == (y + u)[|y|..];
  }

  lemma {:induction false} NotShared(k: string, r: string, a: string, t: string, k': string, r': string, a': string, t': string)
    requires ColonFree(k) && ColonFree(r) && ColonFree(a) && |Stem(k, r, a) + t| < KEY_LIMIT
    ensures !Shared(k, r, a, t, k', r', a', t')
  {
    if Shared(k, r, a, t, k', r', a', t') {
      var mine, other := r + ":" + a, r' + ":" + a';
      assert Stem(k, r, a) + t == Stem(k', r', a') + t';
      assert Stem(k, r, a) + t == k + ":" + (mine + (":" + t));
      assert Stem(k', r', a') + t' == k' + ":" + (other + (":" + t'));
      SplitAtColon(k, mine + (":" + t), k', other + (":" + t'));
      SameEnd(mine, ":" + t, other, ":" + t');
      assert t == (":" + t)[1..] && t' == (":" + t')[1..];
      SplitOnlyColon(r, a, r', a');
    }
  }

  lemma {:induction false} CutAtColon(s: string) returns (x: string, y: string)
    requires !ColonFree(s)
    ensures s == x + ":" + y
  {
    var i :| 0 <= i < |s| && s[i] == ':';
    x, y := s[..i], s[i + 1..];
  }

  /** A key that fills the limit is also that of an action whose actor goes on where the key is cut. */
  lemma {:induction false} FullKeyIsShared(k: string, r: string, a: string, t: string)
    requires ColonFree(k) && |Stem(k, r, a) + t| >= KEY_LIMIT
    ensures Shared(k, r, a, t, k, r, a + ":" + t + "x", t)
  {
    var a' := a + ":" + t + "x";
    var text, longer := Stem(k, r, a) + t, Stem(k, r, a') + t;
    assert longer == text + ("x:" + t);
    assert longer[..KEY_LIMIT] == text[..KEY_LIMIT];
    assert |a'| > |a|;
  }

  /** The key of a colon-free kind belongs to one action exactly when resource and actor have no colon either and it is shorter than the limit. */
  lemma {:induction false} KeyIsUniqueExactly(k: string, r: string, a: string, t: string)
    requires ColonFree(k)
    ensures ColonFree(r) && ColonFree(a) && |k| + |r| + |a| + |t| + 3 < 64 <==>
      forall k': string, r': string, a': string, t': string :: !Shared(k, r, a, t, k', r', a', t')
  {
    if |Stem(k, r, a) + t| >= KEY_LIMIT {
      FullKeyIsShared(k, r, a, t);
    } else if ColonFree(r) && ColonFree(a) {
      forall k', r', a', t' ensures !Shared(k, r, a, t, k', r', a', t') { NotShared(k, r, a, t, k', r', a', t'); }
    } else {
      var r', a': string;
      if !ColonFree(r) {
        var x, y := CutAtColon(r);
        r', a' := x, y + ":" + a;
        assert Stem(k, r', a') == Stem(k, r, a);
      } else {
        var x, y := CutAtColon(a);
        r', a' := r + ":" + x, y;
        assert Stem(k, r', a') == Stem(k, r, a);
      }
      assert Shared(k, r, a, t, k, r', a', t);
    }
  }

  /** The same action at two times gets two keys exactly when the times differ before the cut. */
  lemma {:induction false} TimesToldApart(k: string, r: string, a: string, t: string, t': string)
    requires |t| == |t'|
    ensures var room := KEY_LIMIT - |Stem(k, r, a)|;
      BuildKey(k, r, a, t) == BuildKey(k, r, a, t') <==> Take(t, room) == Take(t', room)
  {
    var stem := Stem(k, r, a);
    var room := KEY_LIMIT - |stem|;
    if room <= 0 {
      assert Take(stem + t, KEY_LIMIT) == stem[..KEY_LIMIT] == Take(stem + t', KEY_LIMIT);
    } else {
      CutTail(stem, t, KEY_LIMIT);
      CutTail(stem, t', KEY_LIMIT);
      if Take(stem + t, KEY_LIMIT) == Take(stem + t', KEY_LIMIT) {
        assert Take(t, room) == Take(stem + t, KEY_LIMIT)[|stem|..] == Take(t', room);
      }
    }
  }

  lemma {:induction false} CutTail(stem: string, t: string, n: nat)
    requires |stem| < n
    ensures Take(stem + t, n) == stem + Take(t, n - |stem|)
  {
  }

  /**
   * A stem that fills the key leaves no room for the time: a second action of the same kind by the same
   * actor on the same resource is taken for the first, and the queue keeps only that one.
   */
  lemma {:induction false} LongStemDropsActions(s: Store, k: string, r: string, a: string, t: string, t': string, first: Request, second: Request, now: int, later: int)
    requires |Stem(k, r, a)| >= KEY_LIMIT && Get(s, BuildKey(k, r, a, t)).None?
    ensures var queued := Enqueue(s, BuildKey(k, r, a, t), first, now);
      Enqueue(queued.0, BuildKey(k, r, a, t'), second, later) == queued
  {
    hide Set;
    var stem, key := Stem(k, r, a), BuildKey(k, r, a, t);
    assert Take(stem + t, KEY_LIMIT) == stem[..KEY_LIMIT] == Take(stem + t', KEY_LIMIT);
    SetGet(s, key, Fresh(key, first, now), key);
  }
}
