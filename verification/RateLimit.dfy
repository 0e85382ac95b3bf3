/**
 * The sliding-window rate limiter. Its buckets are pruned on every call; the theorems relate
 * its answers to the full history of accepted calls, which the implementation does not keep.
 */
module RateLimit {
  import opened Options

  datatype Policy = Policy(limit: int, windowMs: int)

  /** `retryAfterSec` is None where the source computes NaN: a full bucket that holds no hit. */
  datatype Decision = Decision(ok: bool, remaining: int, retryAfterSec: Option<int>)

  datatype Call = Call(key: string, policy: Policy, now: int)

  type Buckets = map<string, seq<int>>

  // ---- One call ----

  /** The hits later than `cutoff`, in order. */
  function Live(hits: seq<int>, cutoff: int): (r: seq<int>)
    ensures |r| <= |hits|
  {
    if hits == [] then [] else
      var last, before := hits[|hits| - 1], Live(hits[..|hits| - 1], cutoff);
      if last > cutoff then before + [last] else before
  }

  function CeilDiv(a: int, b: int): int
    requires b > 0
  {
    -((-a) / b)
  }

  function RetryAfter(hits: seq<int>, policy: Policy, now: int): Option<int> {
    if hits == [] then None
    else
      var sec := CeilDiv(hits[0] + policy.windowMs - now, 1000);
      Some(if sec < 1 then 1 else sec)
  }

  function BucketOf(buckets: Buckets, key: string): seq<int> {
    if key in buckets then buckets[key] else []
  }

  /** What a call answers, given the hits its key's bucket holds. */
  function Answer(bucket: seq<int>, c: Call): Decision {
    var hits := Live(bucket, c.now - c.policy.windowMs);
    if |hits| >= c.policy.limit then Decision(false, 0, RetryAfter(hits, c.policy, c.now))
    else Decision(true, c.policy.limit - |hits| - 1, Some(0))
  }

  function Step(buckets: Buckets, c: Call): Buckets {
    var bucket := BucketOf(buckets, c.key);
    var hits := Live(bucket, c.now - c.policy.windowMs);
    buckets[c.key := if Answer(bucket, c).ok then hits + [c.now] else hits]
  }

  // ---- A run of calls ----

  function After(calls: seq<Call>): Buckets {
    if calls == [] then map[] else Step(After(calls[..|calls| - 1]), calls[|calls| - 1])
  }

  function Decide(calls: seq<Call>, c: Call): Decision {
    Answer(BucketOf(After(calls), c.key), c)
  }

  /** The times of every accepted call for `key`, never pruned. */
  function Accepted(calls: seq<Call>, key: string): seq<int> {
    if calls == [] then [] else
      var before, c := calls[..|calls| - 1], calls[|calls| - 1];
      if c.key == key && Decide(before, c).ok then Accepted(before, key) + [c.now] else Accepted(before, key)
  }

  function AcceptedNext(calls: seq<Call>, c: Call, key: string): seq<int> {
    if c.key == key && Decide(calls, c).ok then Accepted(calls, key) + [c.now] else Accepted(calls, key)
  }

  lemma {:induction false} AfterPush(calls: seq<Call>, c: Call)
    ensures After(calls + [c]) == Step(After(calls), c)
    ensures forall key :: Accepted(calls + [c], key) == AcceptedNext(calls, c, key)
  {
    hide Step, Decide;
    assert (calls + [c])[..|calls|] == calls;
  }

  /** What one more call does to a bucket. */
  lemma {:induction false} BucketPush(calls: seq<Call>, c: Call, key: string)
    ensures var bucket := BucketOf(After(calls), key);
      BucketOf(After(calls + [c]), key) ==
        if c.key != key then bucket
        else if Decide(calls, c).ok then Live(bucket, c.now - c.policy.windowMs) + [c.now]
        else Live(bucket, c.now - c.policy.windowMs)
  {
    hide After, Live;
    AfterPush(calls, c);
  }

  class RateLimiter {
    var buckets: Buckets
    ghost var calls: seq<Call>

    ghost predicate Valid()
      reads this
    {
      buckets == After(calls)
    }

    constructor ()
      ensures Valid() && calls == []
    {
      buckets := map[];
      calls := [];
    }

    method Take(key: string, policy: Policy, now: int) returns (d: Decision)
      requires Valid()
      modifies this
      ensures Valid() && calls == old(calls) + [Call(key, policy, now)]
      ensures d == Decide(old(calls), Call(key, policy, now))
    {
      hide After;
      var c := Call(key, policy, now);
      AfterPush(calls, c);
      var cutoff := now - policy.windowMs;
      var hits := Live(if key in buckets then buckets[key] else [], cutoff);
      calls := calls + [c];
      if |hits| >= policy.limit {
        buckets := buckets[key := hits];
        return Decision(false, 0, RetryAfter(hits, policy, now));
      }
      hits := hits + [now];
      buckets := buckets[key := hits];
      return Decision(true, policy.limit - |hits|, Some(0));
    }

    method Reset()
      modifies this
      ensures Valid() && calls == []
    {
      buckets := map[];
      calls := [];
    }
  }

  // ---- Pruning twice, and pruning a longer list ----

  lemma {:induction false} LiveLive(hits: seq<int>, lo: int, hi: int)
    requires lo <= hi
    ensures Live(Live(hits, lo), hi) == Live(hits, hi)
  {
    if hits != [] {
      LiveLive(hits[..|hits| - 1], lo, hi);
      LivePush(Live(hits[..|hits| - 1], lo), hits[|hits| - 1], hi);
    }
  }

  lemma {:induction false} LivePush(hits: seq<int>, t: int, cutoff: int)
    ensures Live(hits + [t], cutoff) == if t > cutoff then Live(hits, cutoff) + [t] else Live(hits, cutoff)
  {
    assert (hits + [t])[..|hits|] == hits;
  }

  /** A higher cutoff never keeps more. */
  lemma {:induction false} LiveShrinks(hits: seq<int>, lo: int, hi: int)
    requires lo <= hi
    ensures |Live(hits, hi)| <= |Live(hits, lo)|
  {
    LiveLive(hits, lo, hi);
  }

  // ---- The pruned bucket against the full history ----

  /** The largest cutoff used so far for `key`, or `floor` if that is larger. */
  function MaxCutoff(calls: seq<Call>, key: string, floor: int): int {
    if calls == [] then floor else
      var c := calls[|calls| - 1];
      var m := MaxCutoff(calls[..|calls| - 1], key, floor);
      if c.key == key && c.now - c.policy.windowMs > m then c.now - c.policy.windowMs else m
  }

  lemma {:induction false} EmptyRun(key: string)
    ensures BucketOf(After([]), key) == [] && Accepted([], key) == []
  {
  }

  lemma {:induction false} PushAgrees(bucket: seq<int>, history: seq<int>, own: int, now: int, cutoff: int)
    requires own <= cutoff && Live(bucket, cutoff) == Live(history, cutoff)
    ensures Live(Live(bucket, own), cutoff) == Live(history, cutoff)
    ensures Live(Live(bucket, own) + [now], cutoff) == Live(history + [now], cutoff)
  {
    LiveLive(bucket, own, cutoff);
    LivePush(Live(bucket, own), now, cutoff);
    LivePush(history, now, cutoff);
  }

  /** From the largest cutoff used so far on, the pruned bucket and the full history agree, in order. */
  lemma {:induction false} BucketIsHistory(calls: seq<Call>, key: string, cutoff: int)
    requires MaxCutoff(calls, key, cutoff) == cutoff
    ensures Live(BucketOf(After(calls), key), cutoff) == Live(Accepted(calls, key), cutoff)
  {
    hide After, Accepted, Live, Decide, BucketOf;
    if calls == [] {
      EmptyRun(key);
    } else {
      var before, c := calls[..|calls| - 1], calls[|calls| - 1];
      assert calls == before + [c];
      AfterPush(before, c);
      BucketPush(before, c, key);
      MaxCutoffAbove(before, key, cutoff);
      BucketIsHistory(before, key, cutoff);
      if c.key == key {
        PushAgrees(BucketOf(After(before), key), Accepted(before, key), c.now - c.policy.windowMs, c.now, cutoff);
      }
    }
  }

  lemma {:induction false} MaxCutoffAbove(calls: seq<Call>, key: string, floor: int)
    ensures MaxCutoff(calls, key, floor) >= floor
  {
    if calls != [] { MaxCutoffAbove(calls[..|calls| - 1], key, floor); }
  }

  /**
   * A call is rejected exactly when the full history already holds `limit` accepted hits in its window.
   * All that is asked of clock and policies is that no earlier call for the key pruned further.
   */
  lemma {:induction false} RejectedExactly(calls: seq<Call>, c: Call)
    requires MaxCutoff(calls, c.key, c.now - c.policy.windowMs) == c.now - c.policy.windowMs
    ensures Decide(calls, c) == Answer(Accepted(calls, c.key), c)
    ensures Decide(calls, c).ok <==> |Live(Accepted(calls, c.key), c.now - c.policy.windowMs)| < c.policy.limit
  {
    hide After, Accepted, Live, BucketOf;
    BucketIsHistory(calls, c.key, c.now - c.policy.windowMs);
  }

  /** Whatever the clock and the policies do, the bucket never counts a hit the history lacks. */
  lemma {:induction false} BucketNeverOvercounts(calls: seq<Call>, key: string, cutoff: int)
    ensures |Live(BucketOf(After(calls), key), cutoff)| <= |Live(Accepted(calls, key), cutoff)|
  {
    hide After, Accepted, Live, Decide, BucketOf;
    if calls == [] {
      EmptyRun(key);
    } else {
      var before, c := calls[..|calls| - 1], calls[|calls| - 1];
      assert calls == before + [c];
      AfterPush(before, c);
      BucketPush(before, c, key);
      BucketNeverOvercounts(before, key, cutoff);
      if c.key == key {
        var bucket := BucketOf(After(before), key);
        var own := c.now - c.policy.windowMs;
        LivePush(Live(bucket, own), c.now, cutoff);
        LivePush(Accepted(before, key), c.now, cutoff);
        if own <= cutoff { LiveLive(bucket, own, cutoff); } else { LiveLiveLower(bucket, own, cutoff); }
      }
    }
  }

  lemma {:induction false} LiveLiveLower(hits: seq<int>, hi: int, lo: int)
    requires lo <= hi
    ensures |Live(Live(hits, hi), lo)| <= |Live(hits, lo)|
  {
    if hits != [] {
      LiveLiveLower(hits[..|hits| - 1], hi, lo);
      LivePush(Live(hits[..|hits| - 1], hi), hits[|hits| - 1], lo);
    }
  }

  /** So a rejection is always justified by the full history, with no assumption at all. */
  lemma {:induction false} RejectionIsJustified(calls: seq<Call>, c: Call)
    requires !Decide(calls, c).ok
    ensures |Live(Accepted(calls, c.key), c.now - c.policy.windowMs)| >= c.policy.limit
  {
    hide After, Accepted, Live, BucketOf;
    BucketNeverOvercounts(calls, c.key, c.now - c.policy.windowMs);
  }

  // ---- What an accepted call is told ----

  function Copies(c: Call, k: nat): (r: seq<Call>)
    ensures |r| == k
  {
    seq(k, i => c)
  }

  lemma {:induction false} RepeatedHits(calls: seq<Call>, c: Call, k: nat)
    requires Decide(calls, c).ok
    ensures var cutoff := c.now - c.policy.windowMs;
      var h := |Live(BucketOf(After(calls), c.key), cutoff)|;
      |Live(BucketOf(After(calls + Copies(c, k)), c.key), cutoff)| == if c.policy.windowMs <= 0 then h else if h + k < c.policy.limit then h + k else c.policy.limit
  {
    hide After, BucketOf, Live;
    if k == 0 {
      assert calls + Copies(c, 0) == calls;
    } else {
      var before := calls + Copies(c, k - 1);
      var bucket, cutoff := BucketOf(After(before), c.key), c.now - c.policy.windowMs;
      assert calls + Copies(c, k) == before + [c];
      RepeatedHits(calls, c, k - 1);
      BucketPush(before, c, c.key);
      LiveLive(bucket, cutoff, cutoff);
      LivePush(Live(bucket, cutoff), c.now, cutoff);
    }
  }

  /**
   * The `remaining` of an accepted call is the number of times it could be repeated at once: the k-th
   * repetition is accepted exactly when k is at most that, or when the window is so short that no hit lives in
   * it. A rejected call is told there are none.
   */
  lemma {:induction false} RemainingExactly(calls: seq<Call>, c: Call, k: nat)
    ensures Decide(calls, c).ok ==>
      && Decide(calls, c).retryAfterSec == Some(0)
      && (Decide(calls + Copies(c, k), c).ok <==> c.policy.windowMs <= 0 || k <= Decide(calls, c).remaining)
    ensures !Decide(calls, c).ok ==> Decide(calls, c).remaining == 0
  {
    hide After, BucketOf, Live;
    if Decide(calls, c).ok { RepeatedHits(calls, c, k); }
  }

  // ---- Any policies on a key: what the bucket forgets ----

  /** The clock never goes back, and windows have a length. */
  ghost predicate Forward(calls: seq<Call>) {
    && (forall i, j :: 0 <= i < j < |calls| ==> calls[i].now <= calls[j].now)
    && (forall i :: 0 <= i < |calls| ==> calls[i].policy.windowMs > 0)
  }

  function Max(a: int, b: int): int {
    if a < b then b else a
  }

  lemma {:induction false} LiveTwice(hits: seq<int>, p: int, q: int)
    ensures Live(Live(hits, p), q) == Live(hits, Max(p, q))
  {
    if hits != [] {
      LiveTwice(hits[..|hits| - 1], p, q);
      LivePush(Live(hits[..|hits| - 1], p), hits[|hits| - 1], q);
    }
  }

  lemma {:induction false} MaxCutoffOver(calls: seq<Call>, key: string, floor: int, other: int)
    ensures MaxCutoff(calls, key, Max(floor, other)) == Max(MaxCutoff(calls, key, floor), other)
  {
    if calls != [] { MaxCutoffOver(calls[..|calls| - 1], key, floor, other); }
  }

  /** Every cutoff lies before the time it was used at. */
  lemma {:induction false} CutoffsPast(calls: seq<Call>, key: string, floor: int, now: int)
    requires Forward(calls) && (calls != [] ==> calls[|calls| - 1].now <= now)
    ensures now > MaxCutoff(calls, key, floor) <==> now > floor
  {
    MaxCutoffAbove(calls, key, floor);
    if calls != [] {
      var before := calls[..|calls| - 1];
      assert before != [] ==> before[|before| - 1].now <= calls[|calls| - 1].now;
      CutoffsPast(before, key, floor, now);
    }
  }

  /** What the bucket holds beyond a cutoff is what the history holds beyond the largest cutoff ever used for the key. */
  lemma {:induction false} BucketExactly(calls: seq<Call>, key: string, cutoff: int)
    requires Forward(calls)
    ensures Live(BucketOf(After(calls), key), cutoff) == Live(Accepted(calls, key), MaxCutoff(calls, key, cutoff))
    decreases |calls|, 0
  {
    hide After, Accepted, Live, Decide, BucketOf;
    if calls == [] {
      EmptyRun(key);
    } else {
      var before, c := calls[..|calls| - 1], calls[|calls| - 1];
      assert calls == before + [c];
      AfterPush(before, c);
      BucketPush(before, c, key);
      if c.key == key {
        PushExactly(before, c, cutoff);
      } else {
        BucketExactly(before, key, cutoff);
      }
    }
  }

  lemma {:induction false} PushExactly(before: seq<Call>, c: Call, cutoff: int)
    requires Forward(before + [c])
    ensures var bucket, own, m := BucketOf(After(before), c.key), c.now - c.policy.windowMs, MaxCutoff(before + [c], c.key, cutoff);
      && Live(Live(bucket, own), cutoff) == Live(Accepted(before, c.key), m)
      && Live(Live(bucket, own) + [c.now], cutoff) == Live(Accepted(before, c.key) + [c.now], m)
    decreases |before|, 1
  {
    hide After, Accepted, Live, BucketOf;
    var all, bucket, own := before + [c], BucketOf(After(before), c.key), c.now - c.policy.windowMs;
    var m := MaxCutoff(all, c.key, cutoff);
    assert all[..|before|] == before && all[|before|] == c;
    assert Forward(before) by { assert forall i :: 0 <= i < |before| ==> before[i] == all[i]; }
    BucketExactly(before, c.key, Max(own, cutoff));
    MaxCutoffOver(before, c.key, cutoff, own);
    LiveTwice(bucket, own, cutoff);
    CutoffsPast(all, c.key, cutoff, c.now);
    LivePush(Live(bucket, own), c.now, cutoff);
    LivePush(Accepted(before, c.key), c.now, m);
  }

  /**
   * A call is accepted exactly when fewer than `limit` hits of the full history lie beyond the largest
   * cutoff used so far for its key; so its answer is wrong for its own window exactly when that
   * cutoff has hidden enough live hits to bring the count below the limit.
   */
  lemma {:induction false} MixedPoliciesExactly(calls: seq<Call>, c: Call)
    requires Forward(calls)
    ensures var own := c.now - c.policy.windowMs;
      var seen, live := |Live(Accepted(calls, c.key), MaxCutoff(calls, c.key, own))|, |Live(Accepted(calls, c.key), own)|;
      && (Decide(calls, c).ok <==> seen < c.policy.limit)
      && (Decide(calls, c).ok != Answer(Accepted(calls, c.key), c).ok <==> seen < c.policy.limit <= live)
  {
    hide After, Accepted, Live, BucketOf, MaxCutoff;
    var own := c.now - c.policy.windowMs;
    BucketExactly(calls, c.key, own);
    BucketNeverOvercounts(calls, c.key, own);
  }

  /** A rejected call is told to wait a second at least, exactly when the limit is positive or some hit is live. */
  lemma {:induction false} WaitExactly(calls: seq<Call>, c: Call)
    requires !Decide(calls, c).ok
    ensures var wait := Decide(calls, c).retryAfterSec;
      && (wait.Some? <==> c.policy.limit > 0 || Live(BucketOf(After(calls), c.key), c.now - c.policy.windowMs) != [])
      && (wait.Some? ==> wait.value >= 1)
  {
    hide After, Live;
  }

  /** With no call allowed at all, a first call is rejected with no wait to tell. */
  lemma {:induction false} NoWaitAtZeroLimit(c: Call)
    requires c.policy.limit <= 0
    ensures Decide([], c) == Decision(false, 0, None)
  {
  }

  /**
   * Mixing policies on one key does over-accept: whenever a short window has pruned a hit that a longer
   * one still counts, a later call under the longer one is let through although its limit is reached.
   */
  lemma {:induction false} ShortWindowHidesHit(key: string, short: int, long: int, gap: int)
    requires 0 < short <= gap && gap + short < long
    ensures var calls := [Call(key, Policy(1, long), 0), Call(key, Policy(1, short), gap)];
      var c := Call(key, Policy(2, long), gap + short);
      Decide(calls, c).ok && |Live(Accepted(calls, key), c.now - long)| == 2
  {
    hide After, Accepted, BucketOf, Live;
    var c0, c1, c := Call(key, Policy(1, long), 0), Call(key, Policy(1, short), gap), Call(key, Policy(2, long), gap + short);
    var calls := [c0, c1];
    assert calls == [] + [c0] + [c1] && [] + [c0] == [c0];
    EmptyRun(key);
    AfterPush([], c0);
    BucketPush([], c0, key);
    AfterPush([c0], c1);
    LiveShort(0, gap, -long);
    LiveShort(0, gap, gap - short);
    LiveShort(0, gap, gap + short - long);
    assert Decide([], c0).ok && [] + [0] == [0];
    assert Accepted([c0], key) == [0] && BucketOf(After([c0]), key) == [0];
    assert Decide([c0], c1).ok;
    assert Accepted(calls, key) == [0, gap];
    MixedPoliciesExactly(calls, c);
    assert calls[..1] == [c0] && calls[..1][..0] == [];
    assert MaxCutoff(calls, key, gap + short - long) == gap - short by { assert MaxCutoff([c0], key, gap + short - long) == gap + short - long; }
  }

  lemma {:induction false} LiveShort(t: int, u: int, cutoff: int)
    ensures Live([], cutoff) == []
    ensures Live([t], cutoff) == if t > cutoff then [t] else []
    ensures Live([t, u], cutoff) == Live([t], cutoff) + if u > cutoff then [u] else []
  {
    assert [t][..0] == [] && [t, u][..1] == [t];
  }

  // ---- A steady clock and one policy per key ----

  type Policies = string -> Policy

  ghost predicate Steady(calls: seq<Call>, policies: Policies) {
    && (forall i, j :: 0 <= i < j < |calls| ==> calls[i].now <= calls[j].now)
    && (forall i :: 0 <= i < |calls| ==> calls[i].policy == policies(calls[i].key))
  }

  lemma {:induction false} SteadyPrefix(calls: seq<Call>, n: nat, policies: Policies)
    requires Steady(calls, policies) && n <= |calls|
    ensures Steady(calls[..n], policies)
  {
  }

  lemma {:induction false} SteadyNow(calls: seq<Call>, i: nat, policies: Policies)
    requires Steady(calls, policies) && i < |calls|
    ensures calls[i].now <= calls[|calls| - 1].now
  {
  }

  /** In a steady run no earlier call for the key pruned further than the next one will. */
  lemma {:induction false} SteadyCutoff(calls: seq<Call>, c: Call, policies: Policies)
    requires Steady(calls + [c], policies)
    ensures MaxCutoff(calls, c.key, c.now - c.policy.windowMs) == c.now - c.policy.windowMs
  {
    if calls != [] {
      var before, last := calls[..|calls| - 1], calls[|calls| - 1];
      assert Steady(before + [c], policies) by {
        var all := calls + [c];
        assert forall i :: 0 <= i < |before| ==> (before + [c])[i] == all[i];
        assert (before + [c])[|before|] == all[|calls|];
      }
      SteadyCutoff(before, c, policies);
      assert (calls + [c])[|calls| - 1] == last && (calls + [c])[|calls|] == c;
    }
  }

  /** In a steady run every answer is the one the full history gives. */
  lemma {:induction false} SteadyDecide(calls: seq<Call>, c: Call, policies: Policies)
    requires Steady(calls + [c], policies)
    ensures Decide(calls, c) == Answer(Accepted(calls, c.key), c)
    ensures Decide(calls, c).ok <==> |Live(Accepted(calls, c.key), c.now - c.policy.windowMs)| < c.policy.limit
  {
    hide Decide, Answer, Accepted, Live;
    SteadyCutoff(calls, c, policies);
    RejectedExactly(calls, c);
  }

  /** How many accepted times fall in (x, x + w]. */
  function Within(times: seq<int>, x: int, w: int): (n: nat)
    ensures n <= |times|
  {
    if times == [] then 0 else
      var t := times[|times| - 1];
      Within(times[..|times| - 1], x, w) + if x < t <= x + w then 1 else 0
  }

  lemma {:induction false} WithinPush(times: seq<int>, t: int, x: int, w: int)
    ensures Within(times + [t], x, w) == Within(times, x, w) + if x < t <= x + w then 1 else 0
  {
    assert (times + [t])[..|times|] == times;
  }

  lemma {:induction false} WithinIsLive(times: seq<int>, x: int, w: int, cutoff: int)
    requires cutoff <= x
    ensures Within(times, x, w) <= |Live(times, cutoff)|
  {
    if times != [] { WithinIsLive(times[..|times| - 1], x, w, cutoff); }
  }

  /** No interval (x, x + windowMs] ever holds more than `limit` accepted calls for the key. */
  lemma {:induction false} WindowSafety(calls: seq<Call>, key: string, policies: Policies, x: int)
    requires Steady(calls, policies)
    ensures var p := policies(key); Within(Accepted(calls, key), x, p.windowMs) <= if p.limit < 0 then 0 else p.limit
  {
    hide Decide, Accepted, Live, Within;
    if calls == [] {
      EmptyRun(key);
    } else {
      var before, c := calls[..|calls| - 1], calls[|calls| - 1];
      assert calls == before + [c];
      SteadyPrefix(calls, |calls| - 1, policies);
      WindowSafety(before, key, policies, x);
      AfterPush(before, c);
      SteadyDecide(before, c, policies);
      if c.key == key {
        WithinPush(Accepted(before, key), c.now, x, c.policy.windowMs);
        if x < c.now <= x + c.policy.windowMs {
          WithinIsLive(Accepted(before, key), x, c.policy.windowMs, c.now - c.policy.windowMs);
        }
      }
    }
  }

  // ---- Retry-after ----

  ghost predicate Ascending(times: seq<int>) {
    forall i, j :: 0 <= i < j < |times| ==> times[i] <= times[j]
  }

  lemma {:induction false} AcceptedAscending(calls: seq<Call>, key: string, policies: Policies)
    requires Steady(calls, policies)
    ensures Ascending(Accepted(calls, key))
    ensures Accepted(calls, key) != [] ==> calls != [] && Accepted(calls, key)[|Accepted(calls, key)| - 1] <= calls[|calls| - 1].now
  {
    hide Decide, Accepted, Steady, After;
    if calls == [] {
      EmptyRun(key);
    } else {
      var before, c := calls[..|calls| - 1], calls[|calls| - 1];
      assert calls == before + [c];
      SteadyPrefix(calls, |calls| - 1, policies);
      AcceptedAscending(before, key, policies);
      AfterPush(before, c);
      if before != [] { SteadyNow(calls, |calls| - 2, policies); }
    }
  }

  /** When the latest time of an ascending history is too old, so is every other. */
  lemma {:induction false} NothingLive(times: seq<int>, cutoff: int)
    requires Ascending(times) && times != [] && times[|times| - 1] <= cutoff
    ensures Live(times, cutoff) == []
    ensures forall i :: 0 <= i < |times| ==> times[i] <= cutoff
  {
    hide Live;
    if Live(times, cutoff) != [] {
      LiveAbove(times, cutoff, 0);
      LiveIn(times, cutoff, 0);
    }
  }

  lemma {:induction false} LiveIn(times: seq<int>, cutoff: int, i: nat)
    requires i < |Live(times, cutoff)|
    ensures Live(times, cutoff)[i] in times
  {
    var n := |times| - 1;
    assert forall t :: t in times[..n] ==> t in times;
    if i < |Live(times[..n], cutoff)| { LiveIn(times[..n], cutoff, i); }
  }

  /** Pruning an ascending history keeps a suffix of it. */
  lemma {:induction false} LiveIsSuffix(times: seq<int>, cutoff: int)
    requires Ascending(times)
    ensures Live(times, cutoff) == times[|times| - |Live(times, cutoff)|..]
    ensures forall i :: 0 <= i < |times| - |Live(times, cutoff)| ==> times[i] <= cutoff
  {
    hide Live;
    if times == [] {
      assert |Live(times, cutoff)| <= |times|;
    } else if times[|times| - 1] <= cutoff {
      NothingLive(times, cutoff);
    } else {
      var n := |times| - 1;
      var init := times[..n];
      assert times == init + [times[n]];
      LivePush(init, times[n], cutoff);
      LiveIsSuffix(init, cutoff);
      var k := n - |Live(init, cutoff)|;
      assert times[k..] == init[k..] + [times[n]];
    }
  }

  lemma {:induction false} LiveIsWithin(times: seq<int>, now: int, w: int)
    requires Ascending(times) && (times != [] ==> times[|times| - 1] <= now)
    ensures |Live(times, now - w)| == Within(times, now - w, w)
  {
    if times != [] { LiveIsWithin(times[..|times| - 1], now, w); }
  }

  /** The arithmetic of one rejected answer: it names the first whole second at which the oldest hit is gone. */
  lemma {:induction false} OldestAgesOut(history: seq<int>, c: Call, t: int)
    requires Ascending(history) && c.now <= t
    requires 0 < c.policy.limit == |Live(history, c.now - c.policy.windowMs)|
    ensures var wait := Answer(history, c).retryAfterSec;
      && wait.Some? && wait.value >= 1
      && (t >= c.now + 1000 * wait.value ==> |Live(history, t - c.policy.windowMs)| < c.policy.limit)
      && (t <= c.now + 1000 * (wait.value - 1) ==> |Live(history, t - c.policy.windowMs)| == c.policy.limit)
  {
    hide Live;
    var w := c.policy.windowMs;
    var hits := Live(history, c.now - w);
    LiveIsSuffix(history, c.now - w);
    LiveIsSuffix(history, t - w);
    LiveShrinks(history, c.now - w, t - w);
    assert hits[0] == history[|history| - |hits|];
    LiveAbove(history, c.now - w, 0);
    if |Live(history, t - w)| == |hits| { LiveAbove(history, t - w, 0); }
  }

  lemma {:induction false} LiveAbove(times: seq<int>, cutoff: int, i: nat)
    requires i < |Live(times, cutoff)|
    ensures Live(times, cutoff)[i] > cutoff
  {
    if i < |Live(times[..|times| - 1], cutoff)| { LiveAbove(times[..|times| - 1], cutoff, i); }
  }

  /**
   * Retry-after is exact. After a rejection, as long as nothing is accepted for the key, a call
   * `retryAfterSec` seconds later is accepted, and one a whole second before that is rejected.
   */
  lemma {:induction false} RetryAfterExact(calls: seq<Call>, c: Call, later: seq<Call>, retry: Call, policies: Policies)
    requires c.key == retry.key && c.policy.limit > 0
    requires Steady(calls + [c] + later + [retry], policies)
    requires !Decide(calls, c).ok && Accepted(calls + [c] + later, c.key) == Accepted(calls, c.key)
    ensures var wait := Decide(calls, c).retryAfterSec;
      && wait.Some? && wait.value >= 1
      && (retry.now >= c.now + 1000 * wait.value ==> Decide(calls + [c] + later, retry).ok)
      && (retry.now <= c.now + 1000 * (wait.value - 1) ==> !Decide(calls + [c] + later, retry).ok)
  {
    hide Decide, Accepted, Live, Within, Answer;
    var run := calls + [c] + later;
    var all := run + [retry];
    assert all[|calls|] == c && all[|run|] == retry;
    assert all[..|calls| + 1] == calls + [c] && all[..|calls|] == calls;
    SteadyPrefix(all, |calls| + 1, policies);
    SteadyPrefix(all, |calls|, policies);
    SteadyDecide(calls, c, policies);
    SteadyDecide(run, retry, policies);
    var history, w := Accepted(calls, c.key), c.policy.windowMs;
    AcceptedAscending(calls, c.key, policies);
    assert calls != [] ==> all[|calls| - 1] == calls[|calls| - 1];
    LiveIsWithin(history, c.now, w);
    WindowSafety(calls, c.key, policies, c.now - w);
    OldestAgesOut(history, c, retry.now);
  }

  // ---- Rejections are inert ----

  /** The run without the calls `keep` drops. */
  function Thin(calls: seq<Call>, keep: seq<bool>): seq<Call>
    requires |keep| == |calls|
  {
    if calls == [] then [] else
      var n := |calls| - 1;
      if keep[n] then Thin(calls[..n], keep[..n]) + [calls[n]] else Thin(calls[..n], keep[..n])
  }

  ghost predicate DropsOnlyRejected(calls: seq<Call>, keep: seq<bool>)
    requires |keep| == |calls|
  {
    forall i :: 0 <= i < |calls| && !keep[i] ==> !Decide(calls[..i], calls[i]).ok
  }

  /** A thinned steady run, followed by the same next call, is steady. */
  lemma {:induction false} ThinSteady(calls: seq<Call>, keep: seq<bool>, policies: Policies, now: int)
    requires |keep| == |calls| && Steady(calls, policies) && (calls != [] ==> calls[|calls| - 1].now <= now)
    ensures Steady(Thin(calls, keep), policies)
    ensures Thin(calls, keep) != [] ==> Thin(calls, keep)[|Thin(calls, keep)| - 1].now <= now
  {
    if calls != [] {
      var n := |calls| - 1;
      SteadyPrefix(calls, n, policies);
      ThinSteady(calls[..n], keep[..n], policies, calls[n].now);
    }
  }

  lemma {:induction false} SteadyPush(calls: seq<Call>, c: Call, policies: Policies)
    requires Steady(calls, policies) && (calls != [] ==> calls[|calls| - 1].now <= c.now) && c.policy == policies(c.key)
    ensures Steady(calls + [c], policies)
  {
  }

  lemma {:induction false} ThinAccepted(calls: seq<Call>, keep: seq<bool>, policies: Policies, key: string)
    requires |keep| == |calls| && DropsOnlyRejected(calls, keep) && Steady(calls, policies)
    ensures Accepted(Thin(calls, keep), key) == Accepted(calls, key)
    decreases |calls|, 0
  {
    hide Decide, Accepted, Steady;
    if calls != [] {
      var n := |calls| - 1;
      var before, c := calls[..n], calls[n];
      assert calls == before + [c];
      assert DropsOnlyRejected(before, keep[..n]) by {
        assert forall i | 0 <= i < n :: before[..i] == calls[..i];
      }
      SteadyPrefix(calls, n, policies);
      ThinAccepted(before, keep[..n], policies, key);
      AfterPush(before, c);
      if keep[n] {
        AfterPush(Thin(before, keep[..n]), c);
        RejectionsAreInert(before, keep[..n], c, policies);
      }
    }
  }

  /** Erasing any rejected calls from a run changes no other answer. */
  lemma {:induction false} RejectionsAreInert(calls: seq<Call>, keep: seq<bool>, c: Call, policies: Policies)
    requires |keep| == |calls| && DropsOnlyRejected(calls, keep) && Steady(calls + [c], policies)
    ensures Decide(Thin(calls, keep), c) == Decide(calls, c)
    decreases |calls|, 1
  {
    hide Decide, Accepted, Answer, Thin;
    assert (calls + [c])[..|calls|] == calls && (calls + [c])[|calls|] == c;
    assert calls != [] ==> (calls + [c])[|calls| - 1] == calls[|calls| - 1];
    SteadyPrefix(calls + [c], |calls|, policies);
    ThinAccepted(calls, keep, policies, c.key);
    ThinSteady(calls, keep, policies, c.now);
    SteadyPush(Thin(calls, keep), c, policies);
    SteadyDecide(calls, c, policies);
    SteadyDecide(Thin(calls, keep), c, policies);
  }
}
