/**
 * Calibrating the intercept of the synthetic default model by bisection, in exact reals, and the
 * search for a free model version.
 */
module Calibration {
  import opened Options

  // ---- The mean default rate as a function of the bias ----

  /** All that is used of the logistic function: it increases, with slope at most one quarter. */
  ghost predicate SigmoidLike(s: real -> real) {
    forall x, y :: x <= y ==> 0.0 <= s(y) - s(x) <= (y - x) / 4.0
  }

  function SumAt(s: real -> real, latent: seq<real>, bias: real): real {
    if latent == [] then 0.0 else s(latent[0] + bias) + SumAt(s, latent[1..], bias)
  }

  function MeanAt(s: real -> real, latent: seq<real>, bias: real): real
    requires latent != []
  {
    SumAt(s, latent, bias) / |latent| as real
  }

  lemma {:induction false} SumSlope(s: real -> real, latent: seq<real>, x: real, y: real)
    requires SigmoidLike(s) && x <= y
    ensures 0.0 <= SumAt(s, latent, y) - SumAt(s, latent, x) <= (y - x) / 4.0 * |latent| as real
  {
    hide SigmoidLike;
    if latent != [] {
      SumSlope(s, latent[1..], x, y);
      SlopeAt(s, latent[0], x, y);
      OneMore((y - x) / 4.0, |latent| - 1);
    }
  }

  lemma {:induction false} SlopeAt(s: real -> real, l: real, x: real, y: real)
    requires SigmoidLike(s) && x <= y
    ensures 0.0 <= s(l + y) - s(l + x) <= (y - x) / 4.0
  {
    var u, v := l + x, l + y;
    assert 0.0 <= s(v) - s(u) <= (v - u) / 4.0;
  }

  lemma {:induction false} OneMore(d: real, n: nat)
    ensures d * n as real + d == d * (n + 1) as real
  {
  }

  /** The mean inherits monotonicity and the slope bound from the sigmoid. */
  lemma {:induction false} MeanSlope(s: real -> real, latent: seq<real>, x: real, y: real)
    requires SigmoidLike(s) && latent != [] && x <= y
    ensures 0.0 <= MeanAt(s, latent, y) - MeanAt(s, latent, x) <= (y - x) / 4.0
  {
    hide SumAt, SigmoidLike;
    SumSlope(s, latent, x, y);
    Divide(SumAt(s, latent, x), SumAt(s, latent, y), (y - x) / 4.0, |latent| as real);
  }

  lemma {:induction false} Divide(a: real, b: real, d: real, n: real)
    requires n > 0.0 && 0.0 <= b - a <= d * n
    ensures 0.0 <= b / n - a / n <= d
  {
    var p, q := a / n, b / n;
    assert p * n == a && q * n == b;
    assert (q - p) * n == q * n - p * n;
    assert (d - (q - p)) * n == d * n - (q - p) * n;
  }

  lemma {:induction false} SumParts(s: real -> real, a: seq<real>, b: seq<real>, bias: real)
    ensures SumAt(s, a + b, bias) == SumAt(s, a, bias) + SumAt(s, b, bias)
  {
    if a == [] {
      assert a + b == b;
    } else {
      assert (a + b)[1..] == a[1..] + b;
      SumParts(s, a[1..], b, bias);
    }
  }

  /** The mean rate of one score is the sigmoid at it, moved by the bias; that of two groups is their mean by size. */
  lemma {:induction false} MeanExactly(s: real -> real, score: real, a: seq<real>, b: seq<real>, bias: real)
    ensures MeanAt(s, [score], bias) == s(score + bias)
    ensures a != [] && b != [] ==>
      MeanAt(s, a + b, bias) * (|a| + |b|) as real == MeanAt(s, a, bias) * |a| as real + MeanAt(s, b, bias) * |b| as real
  {
    assert SumAt(s, [score][1..], bias) == 0.0;
    assert SumAt(s, [score], bias) == s(score + bias);
    SumParts(s, a, b, bias);
  }

  // ---- The bisection ----

  function Width(k: nat): (w: real)
    ensures w > 0.0
  {
    if k == 0 then 20.0 else Width(k - 1) / 2.0
  }

  function Pow2(k: nat): (p: int)
    ensures p >= 1
  {
    if k == 0 then 1 else 2 * Pow2(k - 1)
  }

  lemma {:induction false} WidthClosed(k: nat)
    ensures Width(k) * Pow2(k) as real == 20.0
  {
    if k > 0 {
      WidthClosed(k - 1);
      assert Width(k) * Pow2(k) as real == Width(k - 1) / 2.0 * (2.0 * Pow2(k - 1) as real);
    }
  }

  /** The target lies between the mean rates at the two ends. */
  ghost predicate Bracketed(s: real -> real, latent: seq<real>, target: real, lo: real, hi: real)
    requires latent != []
  {
    MeanAt(s, latent, lo) <= target <= MeanAt(s, latent, hi)
  }

  /** After n halvings of [-10, 10] the bias meets the target up to 2.5 / 2^n, if the bracket contains it. */
  ghost predicate Calibrated(s: real -> real, latent: seq<real>, target: real, bias: real, n: nat)
    requires latent != []
  {
    && (Bracketed(s, latent, target, -10.0, 10.0) ==> -2.5 <= (MeanAt(s, latent, bias) - target) * Pow2(n) as real <= 2.5)
    && (target >= MeanAt(s, latent, 10.0) ==> (10.0 - bias) * Pow2(n) as real == 10.0)
    && (target < MeanAt(s, latent, -10.0) ==> (bias - -10.0) * Pow2(n) as real == 10.0)
  }

  /** The loop's state: the bracket, its width, and which ends have moved. */
  ghost predicate Bracket(s: real -> real, latent: seq<real>, target: real, lo: real, hi: real, k: nat)
    requires latent != []
  {
    && hi - lo == Width(k) && -10.0 <= lo < hi <= 10.0
    && (Bracketed(s, latent, target, -10.0, 10.0) ==> Bracketed(s, latent, target, lo, hi))
    && (target >= MeanAt(s, latent, 10.0) ==> hi == 10.0)
    && (target < MeanAt(s, latent, -10.0) ==> lo == -10.0)
  }

  method Bisect(s: real -> real, latent: seq<real>, target: real, rounds: nat) returns (bias: real)
    requires latent != []
    ensures SigmoidLike(s) ==> Calibrated(s, latent, target, bias, rounds)
  {
    hide MeanAt, SigmoidLike, Pow2;
    var lo, hi := -10.0, 10.0;
    for k := 0 to rounds
      invariant SigmoidLike(s) ==> Bracket(s, latent, target, lo, hi, k)
    {
      var mid := 0.5 * (lo + hi);
      if SigmoidLike(s) {
        MeanSlope(s, latent, mid, 10.0);
        MeanSlope(s, latent, -10.0, mid);
      }
      if MeanAt(s, latent, mid) > target { hi := mid; } else { lo := mid; }
    }
    bias := 0.5 * (lo + hi);
    if SigmoidLike(s) { MidpointCalibrated(s, latent, target, lo, hi, rounds); }
  }

  lemma {:induction false} MidpointCalibrated(s: real -> real, latent: seq<real>, target: real, lo: real, hi: real, n: nat)
    requires latent != [] && SigmoidLike(s) && Bracket(s, latent, target, lo, hi, n)
    ensures Calibrated(s, latent, target, 0.5 * (lo + hi), n)
  {
    hide MeanAt, SigmoidLike, Pow2, Width;
    var bias := 0.5 * (lo + hi);
    WidthClosed(n);
    ScaleHalf(Width(n), Pow2(n));
    if Bracketed(s, latent, target, -10.0, 10.0) {
      MeanSlope(s, latent, lo, bias);
      MeanSlope(s, latent, bias, hi);
      ScaleError(MeanAt(s, latent, bias) - target, Width(n), Pow2(n));
    }
  }

  /** The source's sixty rounds. */
  method CalibrateIntercept(s: real -> real, latent: seq<real>, target: real) returns (bias: real)
    requires latent != []
    ensures SigmoidLike(s) ==> Calibrated(s, latent, target, bias, 60)
  {
    bias := Bisect(s, latent, target, 60);
  }

  lemma {:induction false} ScaleError(e: real, w: real, p: int)
    requires p >= 1 && w * p as real == 20.0 && -w / 8.0 <= e <= w / 8.0
    ensures -2.5 <= e * p as real <= 2.5
  {
    var q := p as real;
    assert (w / 8.0 - e) * q == w * q / 8.0 - e * q;
    assert (e + w / 8.0) * q == e * q + w * q / 8.0;
  }

  lemma {:induction false} ScaleHalf(w: real, p: int)
    requires w * p as real == 20.0
    ensures (0.5 * w) * p as real == 10.0
  {
  }

  // ---- Finding a free version ----

  /** Three parts between two dots, each as written, or anything else. */
  datatype Version = Semver(major: string, minor: string, patch: string) | Other(text: string)

  /** Python's int of a text, None where it raises, and str of an integer. */
  type Reader = string -> Option<int>
  type Writer = int -> string

  ghost predicate RoundTrips(intOf: Reader, str: Writer) {
    forall n :: intOf(str(n)) == Some(n)
  }

  function PatchOf(v: Version, intOf: Reader): Option<int> {
    if v.Semver? then intOf(v.patch) else None
  }

  /** The taken versions with the same first parts, and a patch number from `n` on. */
  ghost function Upward(taken: set<Version>, v: Version, n: int, intOf: Reader): set<Version>
    requires v.Semver?
  {
    set t | t in taken && t.Semver? && t.major == v.major && t.minor == v.minor && intOf(t.patch).Some? && intOf(t.patch).value >= n
  }

  function Bumped(base: Version, n: int, str: Writer): Version
    requires base.Semver?
  {
    Semver(base.major, base.minor, str(n))
  }

  /** `v` is the first version above `base`, bumping the patch number by one at a time, that is not taken. */
  ghost predicate FirstFree(base: Version, taken: set<Version>, v: Version, intOf: Reader, str: Writer) {
    && PatchOf(base, intOf).Some?
    && exists q :: q > PatchOf(base, intOf).value && v == Bumped(base, q, str) && v !in taken
         && forall r :: PatchOf(base, intOf).value < r < q ==> Bumped(base, r, str) in taken
  }

  /** None stands for the exit that asks for an explicit version. */
  method ResolveVersion(base: Version, taken: set<Version>, overwrite: bool, intOf: Reader, str: Writer) returns (r: Option<Version>)
    requires RoundTrips(intOf, str)
    ensures overwrite || base !in taken ==> r == Some(base)
    ensures !overwrite && base in taken && PatchOf(base, intOf).None? ==> r == None
    ensures !overwrite && base in taken && PatchOf(base, intOf).Some? ==> r.Some? && FirstFree(base, taken, r.value, intOf, str)
  {
    if overwrite { return Some(base); }
    var candidate := base;
    ghost var n := if PatchOf(base, intOf).Some? then PatchOf(base, intOf).value else 0;
    ghost var first := n;
    while candidate in taken
      invariant PatchOf(base, intOf).None? ==> candidate == base
      invariant PatchOf(base, intOf) == Some(first) ==> n >= first && PatchOf(candidate, intOf) == Some(n)
      invariant PatchOf(base, intOf).Some? ==> if n == first then candidate == base else base in taken && candidate == Bumped(base, n, str)
      invariant PatchOf(base, intOf).Some? ==> forall r :: first < r < n ==> Bumped(base, r, str) in taken
      decreases if PatchOf(candidate, intOf).Some? then Upward(taken, candidate, PatchOf(candidate, intOf).value, intOf) else {}
    {
      if candidate.Other? { return None; }
      var patch := intOf(candidate.patch);
      if patch.None? { return None; }
      ghost var before := Upward(taken, candidate, n, intOf);
      assert candidate in before;
      candidate := Semver(candidate.major, candidate.minor, str(patch.value + 1));
      n := n + 1;
      assert Upward(taken, candidate, n, intOf) <= before;
    }
    return Some(candidate);
  }
}
