/**
 * The population stability index in exact real arithmetic: quantile bin edges, the histogram over
 * them, and the smoothed sum, for any logarithm-like function.
 */
module Psi {
  import opened Options
  import opened Sorting
  import opened KsStatistic

  const EPS := 0.000001
  const PSI_OK := 0.10
  const PSI_WARN := 0.25

  // ---- Bin edges ----

  datatype Edge = NegInf | At(r: real) | PosInf

  predicate EdgeLe(e: Edge, x: real) {
    match e
    case NegInf => true
    case At(r) => r <= x
    case PosInf => false
  }

  predicate EdgeLt(a: Edge, b: Edge) {
    match a
    case NegInf => !b.NegInf?
    case At(r) => b.PosInf? || (b.At? && r < b.r)
    case PosInf => false
  }

  /** The value at a fractional position of a sorted sample, interpolated linearly between neighbours. */
  function Interpolate(sorted: seq<real>, h: real): real
    requires 0 <= h.Floor < |sorted|
  {
    var lo := h.Floor;
    if lo + 1 < |sorted| then sorted[lo] + (sorted[lo + 1] - sorted[lo]) * (h - lo as real) else sorted[lo]
  }

  /** The j-th of n quantiles. */
  function Quantile(sorted: seq<real>, j: nat, n: nat): real
    requires sorted != [] && j <= n && n > 0
  {
    QuantileIndex(|sorted| - 1, j, n);
    Interpolate(sorted, ((|sorted| - 1) * j) as real / n as real)
  }

  lemma {:induction false} QuantileIndex(m: nat, j: nat, n: nat)
    requires j <= n && n > 0
    ensures var h := (m * j) as real / n as real; 0 <= h.Floor <= m
  {
    assert m * j <= m * n;
    assert (m * n) as real == m as real * n as real;
    DivLe((m * j) as real, m as real, n as real);
  }

  lemma {:induction false} DivLe(a: real, b: real, c: real)
    requires c > 0.0 && 0.0 <= a <= b * c
    ensures 0.0 <= a / c <= b
  {
    assert a / c * c == a;
    CancelFactor(a / c, b, c);
    CancelFactor(0.0, a / c, c);
  }

  lemma {:induction false} CancelFactor(x: real, y: real, c: real)
    requires c > 0.0
    ensures x * c <= y * c <==> x <= y
  {
    assert (y - x) * c == y * c - x * c;
  }

  lemma {:induction false} BetweenNeighbours(a: real, b: real, f: real, g: real)
    requires a <= b && 0.0 <= f <= g <= 1.0
    ensures a <= a + (b - a) * f <= a + (b - a) * g <= b
  {
    assert (b - a) * (g - f) == (b - a) * g - (b - a) * f;
    assert (b - a) * (1.0 - g) == (b - a) - (b - a) * g;
  }

  /** An interpolated value lies between its two neighbours. */
  lemma {:induction false} InterpolateBounds(sorted: seq<real>, h: real)
    requires SortedBy(RealLe, sorted) && 0 <= h.Floor < |sorted|
    ensures var lo := h.Floor; sorted[lo] <= Interpolate(sorted, h) <= if lo + 1 < |sorted| then sorted[lo + 1] else sorted[lo]
  {
    var lo := h.Floor;
    if lo + 1 < |sorted| {
      var f := h - lo as real;
      assert RealLe(sorted[lo], sorted[lo + 1]) && 0.0 <= f < 1.0;
      BetweenNeighbours(sorted[lo], sorted[lo + 1], f, f);
      assert Interpolate(sorted, h) == sorted[lo] + (sorted[lo + 1] - sorted[lo]) * f;
    }
  }

  lemma {:induction false} InterpolateCell(sorted: seq<real>, h: real, k: real)
    requires SortedBy(RealLe, sorted) && h <= k && 0 <= h.Floor == k.Floor < |sorted|
    ensures Interpolate(sorted, h) <= Interpolate(sorted, k)
  {
    var lo := h.Floor;
    if lo + 1 < |sorted| {
      var f, g := h - lo as real, k - lo as real;
      assert RealLe(sorted[lo], sorted[lo + 1]) && 0.0 <= f <= g < 1.0;
      BetweenNeighbours(sorted[lo], sorted[lo + 1], f, g);
      assert Interpolate(sorted, h) == sorted[lo] + (sorted[lo + 1] - sorted[lo]) * f;
      assert Interpolate(sorted, k) == sorted[lo] + (sorted[lo + 1] - sorted[lo]) * g;
    }
  }

  /** Further along the sample, the interpolated value is no smaller. */
  lemma {:induction false} InterpolateMonotone(sorted: seq<real>, h: real, k: real)
    requires SortedBy(RealLe, sorted) && h <= k && 0 <= h.Floor && k.Floor < |sorted|
    ensures Interpolate(sorted, h) <= Interpolate(sorted, k)
  {
    hide Interpolate;
    var lo, hi := h.Floor, k.Floor;
    if lo == hi {
      InterpolateCell(sorted, h, k);
    } else {
      InterpolateBounds(sorted, h);
      InterpolateBounds(sorted, k);
      if lo + 1 < hi { assert RealLe(sorted[lo + 1], sorted[hi]); }
    }
  }

  lemma {:induction false} ProductLe(m: nat, j: nat, k: nat)
    requires j <= k
    ensures m * j <= m * k
  {
  }

  lemma {:induction false} FractionLe(a: nat, b: nat, n: nat)
    requires a <= b && n > 0
    ensures a as real / n as real <= b as real / n as real
  {
    var x, y, d := a as real / n as real, b as real / n as real, n as real;
    assert x * d == a as real && y * d == b as real;
    CancelFactor(x, y, d);
  }

  lemma {:induction false} WholeFraction(m: nat, n: nat)
    requires n > 0
    ensures (m * n) as real / n as real == m as real
  {
    assert (m * n) as real == m as real * n as real;
  }

  /** The quantiles rise from the least to the greatest element of the sample. */
  lemma {:induction false} QuantilesSpan(sorted: seq<real>, j: nat, k: nat, n: nat)
    requires SortedBy(RealLe, sorted) && sorted != [] && j <= k <= n && n > 0
    ensures Quantile(sorted, j, n) <= Quantile(sorted, k, n)
    ensures Quantile(sorted, 0, n) == sorted[0] && Quantile(sorted, n, n) == sorted[|sorted| - 1]
  {
    hide SortedBy, Interpolate;
    var m := |sorted| - 1;
    ProductLe(m, j, k);
    FractionLe(m * j, m * k, n);
    WholeFraction(m, n);
    QuantileIndex(m, j, n);
    QuantileIndex(m, k, n);
    InterpolateMonotone(sorted, (m * j) as real / n as real, (m * k) as real / n as real);
    assert m * 0 == 0;
    InterpolateEnds(sorted);
  }

  lemma {:induction false} InterpolateEnds(sorted: seq<real>)
    requires sorted != []
    ensures Interpolate(sorted, 0.0) == sorted[0]
    ensures Interpolate(sorted, (|sorted| - 1) as real) == sorted[|sorted| - 1]
  {
  }

  function Quantiles(sorted: seq<real>, n: nat): (r: seq<real>)
    requires sorted != [] && n > 0
    ensures |r| == n + 1
  {
    seq(n + 1, j requires 0 <= j <= n => Quantile(sorted, j, n))
  }

  /** The distinct finite cut points, before the outer two are moved to infinity. */
  function Cuts(reference: seq<real>, n: nat): (r: seq<real>)
    requires reference != [] && n > 0
  {
    SortPermutes(RealLe, reference);
    var sorted := Sort(RealLe, reference);
    var edges := Unique(Quantiles(sorted, n));
    if |edges| < 2 then [sorted[0] - EPS, sorted[|sorted| - 1] + EPS] else edges
  }

  function BinEdges(reference: seq<real>, n: nat): (r: seq<Edge>)
    requires n > 0
    ensures |r| >= 2
  {
    if reference == [] then [At(0.0), At(1.0)]
    else
      var cuts := Cuts(reference, n);
      seq(|cuts|, i requires 0 <= i < |cuts| => if i == 0 then NegInf else if i == |cuts| - 1 then PosInf else At(cuts[i]))
  }

  lemma {:induction false} DedupAscending(s: seq<real>)
    requires SortedBy(RealLe, s)
    ensures forall i, j :: 0 <= i < j < |Dedup(s)| ==> Dedup(s)[i] < Dedup(s)[j]
  {
    if |s| > 1 {
      SortedTail(RealLe, s);
      DedupAscending(s[1..]);
      DedupIn(s[1..]);
      assert RealLe(s[0], s[1]);
    }
  }

  lemma {:induction false} UniqueAscending(s: seq<real>)
    ensures forall i, j :: 0 <= i < j < |Unique(s)| ==> Unique(s)[i] < Unique(s)[j]
  {
    RealLeTotalOrder();
    SortSorts(RealLe, s);
    DedupAscending(Sort(RealLe, s));
  }

  ghost predicate Increasing(edges: seq<Edge>) {
    forall i, j :: 0 <= i < j < |edges| ==> EdgeLt(edges[i], edges[j])
  }

  /** For a non-empty reference the edges increase strictly, from minus to plus infinity. */
  lemma {:induction false} EdgesCoverTheLine(reference: seq<real>, n: nat)
    requires reference != [] && n > 0
    ensures var edges := BinEdges(reference, n);
      Increasing(edges) && edges[0] == NegInf && edges[|edges| - 1] == PosInf
  {
    hide Sort, Unique, Quantile;
    SortPermutes(RealLe, reference);
    RealLeTotalOrder();
    SortSorts(RealLe, reference);
    var sorted := Sort(RealLe, reference);
    UniqueAscending(Quantiles(sorted, n));
    if |sorted| > 1 { assert RealLe(sorted[0], sorted[|sorted| - 1]); }
  }

  // ---- Histogram ----

  /** Bins are closed on the left and open on the right, except that the last one is closed. */
  predicate InBin(edges: seq<Edge>, i: nat, x: real)
    requires i + 1 < |edges|
  {
    EdgeLe(edges[i], x) && (!EdgeLe(edges[i + 1], x) || (i + 2 == |edges| && edges[i + 1] == At(x)))
  }

  function CountBin(xs: seq<real>, edges: seq<Edge>, i: nat): (n: nat)
    requires i + 1 < |edges|
    ensures n <= |xs|
  {
    if xs == [] then 0 else (if InBin(edges, i, xs[0]) then 1 else 0) + CountBin(xs[1..], edges, i)
  }

  function Histogram(xs: seq<real>, edges: seq<Edge>): (r: seq<nat>)
    requires |edges| >= 2
    ensures |r| == |edges| - 1
  {
    seq(|edges| - 1, i requires 0 <= i < |edges| - 1 => CountBin(xs, edges, i))
  }

  function Sum(ns: seq<nat>): nat {
    if ns == [] then 0 else ns[0] + Sum(ns[1..])
  }

  ghost predicate Covering(edges: seq<Edge>) {
    |edges| >= 2 && Increasing(edges) && edges[0] == NegInf && edges[|edges| - 1] == PosInf
  }

  lemma {:induction false} LastEdgeBelow(edges: seq<Edge>, x: real, k: nat) returns (i: nat)
    requires Covering(edges) && k < |edges| && !EdgeLe(edges[k], x)
    ensures i < k && EdgeLe(edges[i], x) && !EdgeLe(edges[i + 1], x)
  {
    if EdgeLe(edges[k - 1], x) { i := k - 1; } else { i := LastEdgeBelow(edges, x, k - 1); }
  }

  /** Every real falls in exactly one bin. */
  lemma {:induction false} OneBin(edges: seq<Edge>, x: real) returns (i: nat)
    requires Covering(edges)
    ensures i + 1 < |edges| && InBin(edges, i, x)
    ensures forall j :: 0 <= j < |edges| - 1 && InBin(edges, j, x) ==> j == i
  {
    i := LastEdgeBelow(edges, x, |edges| - 1);
    forall j | 0 <= j < |edges| - 1 && InBin(edges, j, x) ensures j == i {
      if j < i { EdgeOrder(edges, j + 1, i, x); }
      if i < j { EdgeOrder(edges, i + 1, j, x); }
    }
  }

  lemma {:induction false} EdgeOrder(edges: seq<Edge>, a: nat, b: nat, x: real)
    requires Increasing(edges) && a <= b < |edges| && EdgeLe(edges[b], x)
    ensures EdgeLe(edges[a], x)
  {
    if a < b { assert EdgeLt(edges[a], edges[b]); }
  }

  lemma {:induction false} SumBump(a: seq<nat>, b: seq<nat>, i: nat)
    requires |a| == |b| && i < |a| && forall j :: 0 <= j < |a| ==> a[j] == b[j] + if j == i then 1 else 0
    ensures Sum(a) == Sum(b) + 1
  {
    if i > 0 { SumBump(a[1..], b[1..], i - 1); } else { assert a[1..] == b[1..]; }
  }

  lemma {:induction false} SumZeros(a: seq<nat>)
    requires forall j :: 0 <= j < |a| ==> a[j] == 0
    ensures Sum(a) == 0
  {
    if a != [] { SumZeros(a[1..]); }
  }

  /** The bin counts add up to the sample size: nothing is dropped, nothing counted twice. */
  lemma {:induction false} CountsSumToSize(xs: seq<real>, edges: seq<Edge>)
    requires Covering(edges)
    ensures Sum(Histogram(xs, edges)) == |xs|
  {
    if xs == [] {
      SumZeros(Histogram(xs, edges));
    } else {
      CountsSumToSize(xs[1..], edges);
      var i := OneBin(edges, xs[0]);
      SumBump(Histogram(xs, edges), Histogram(xs[1..], edges), i);
    }
  }

  // ---- The index ----

  function Smooth(f: real): real {
    if f == 0.0 then EPS else f
  }

  function Term(c: real, r: real, ln: real -> real): real
    requires r > 0.0
  {
    (c - r) * ln(c / r)
  }

  /** sum((c - r) * ln(c / r)) over the smoothed fractions. */
  function PsiSum(r: seq<real>, c: seq<real>, ln: real -> real): real
    requires |r| == |c| && NonNegative(r) && NonNegative(c)
  {
    if r == [] then 0.0 else
      Term(Smooth(c[0]), Smooth(r[0]), ln) + PsiSum(r[1..], c[1..], ln)
  }

  function Ratio(c: nat, d: nat): (r: real)
    requires d > 0
    ensures r >= 0.0
  {
    RatioSign(c, d);
    c as real / d as real
  }

  lemma {:induction false} RatioSign(c: nat, d: nat)
    requires d > 0
    ensures c as real / d as real >= 0.0
  {
    var q := c as real / d as real;
    assert q * d as real == c as real;
    CancelFactor(0.0, q, d as real);
  }

  function Fractions(counts: seq<nat>): (r: seq<real>)
    ensures |r| == |counts| && NonNegative(r)
  {
    var total := Sum(counts);
    var d := if total < 1 then 1 else total;
    seq(|counts|, i requires 0 <= i < |counts| => Ratio(counts[i], d))
  }

  function PsiNumeric(reference: seq<real>, current: seq<real>, n: nat, ln: real -> real): real
    requires n > 0
  {
    var edges := BinEdges(reference, n);
    PsiSum(Fractions(Histogram(reference, edges)), Fractions(Histogram(current, edges)), ln)
  }

  /** The levels present on either side; missing entries are no level. */
  function Levels(xs: seq<Option<string>>): set<string> {
    set i | 0 <= i < |xs| && xs[i].Some? :: xs[i].value
  }

  function CountLevel(xs: seq<Option<string>>, lvl: string): (n: nat)
    ensures n <= |xs|
  {
    if xs == [] then 0 else (if xs[0] == Some(lvl) then 1 else 0) + CountLevel(xs[1..], lvl)
  }

  function Shares(xs: seq<Option<string>>, levels: seq<string>): (r: seq<real>)
    requires xs != []
    ensures |r| == |levels| && NonNegative(r)
  {
    seq(|levels|, i requires 0 <= i < |levels| => Ratio(CountLevel(xs, levels[i]), |xs|))
  }

  /** None where the source divides by the size of an empty series. */
  function PsiCategorical(reference: seq<Option<string>>, current: seq<Option<string>>, ln: real -> real): Option<real> {
    var levels := SortedStrings(Levels(reference) + Levels(current));
    if levels == [] then Some(0.0)
    else if reference == [] || current == [] then None
    else Some(PsiSum(Shares(reference, levels), Shares(current, levels), ln))
  }

  datatype Band = Stable | Warn | Drift

  function BandOf(psi: real): Band {
    if psi < PSI_OK then Stable else if psi < PSI_WARN then Warn else Drift
  }

  /** All that is used of the logarithm: strictly increasing on the positive reals, zero at one. */
  ghost predicate LogLike(ln: real -> real) {
    ln(1.0) == 0.0 && forall x, y :: 0.0 < x < y ==> ln(x) < ln(y)
  }

  lemma {:induction false} RatioAgainstOne(c: real, r: real)
    requires c > 0.0 && r > 0.0
    ensures c / r > 0.0
    ensures c > r <==> c / r > 1.0
    ensures c == r <==> c / r == 1.0
  {
    var q := c / r;
    assert q * r == c;
    CancelFactor(q, 0.0, r);
    CancelFactor(q, 1.0, r);
    CancelFactor(1.0, q, r);
  }

  lemma {:induction false} TermSign(c: real, r: real, ln: real -> real)
    requires c > 0.0 && r > 0.0 && LogLike(ln)
    ensures Term(c, r, ln) >= 0.0
    ensures Term(c, r, ln) == 0.0 <==> c == r
  {
    RatioAgainstOne(c, r);
    var q := c / r;
    if c > r {
      assert ln(1.0) < ln(q);
      assert (c - r) * ln(q) > 0.0;
    } else if c < r {
      assert ln(q) < ln(1.0);
      assert (c - r) * ln(q) > 0.0;
    }
  }

  ghost predicate SmoothEqual(r: seq<real>, c: seq<real>)
    requires |r| == |c|
  {
    forall i :: 0 <= i < |r| ==> Smooth(r[i]) == Smooth(c[i])
  }

  lemma {:induction false} SmoothEqualStep(r: seq<real>, c: seq<real>)
    requires |r| == |c| && r != []
    ensures SmoothEqual(r, c) <==> Smooth(r[0]) == Smooth(c[0]) && SmoothEqual(r[1..], c[1..])
  {
    hide Smooth;
    if SmoothEqual(r[1..], c[1..]) {
      assert forall i :: 1 <= i < |r| ==> r[i] == r[1..][i - 1] && c[i] == c[1..][i - 1];
    }
  }

  ghost predicate NonNegative(f: seq<real>) {
    forall i :: 0 <= i < |f| ==> f[i] >= 0.0
  }

  /** The index is never negative, and is zero exactly when all smoothed fractions agree. */
  lemma {:induction false} PsiSumSign(r: seq<real>, c: seq<real>, ln: real -> real)
    requires |r| == |c| && LogLike(ln) && NonNegative(r) && NonNegative(c)
    ensures PsiSum(r, c, ln) >= 0.0
    ensures PsiSum(r, c, ln) == 0.0 <==> SmoothEqual(r, c)
  {
    hide LogLike, SmoothEqual, Term;
    if r == [] {
      assert SmoothEqual(r, c) by { NothingDiffers(r, c); }
    } else {
      SmoothEqualStep(r, c);
      TermSign(Smooth(c[0]), Smooth(r[0]), ln);
      PsiSumSign(r[1..], c[1..], ln);
    }
  }

  lemma {:induction false} NothingDiffers(r: seq<real>, c: seq<real>)
    requires r == c == []
    ensures SmoothEqual(r, c)
  {
  }

  /** Numeric drift of any two samples, down to the bin counts. */
  lemma {:induction false} PsiNumericSound(reference: seq<real>, current: seq<real>, n: nat, ln: real -> real)
    requires reference != [] && n > 0 && LogLike(ln)
    ensures PsiNumeric(reference, current, n, ln) >= 0.0
    ensures var edges := BinEdges(reference, n);
      && Sum(Histogram(reference, edges)) == |reference|
      && Sum(Histogram(current, edges)) == |current|
      && (PsiNumeric(reference, current, n, ln) == 0.0 <==>
            SmoothEqual(Fractions(Histogram(reference, edges)), Fractions(Histogram(current, edges))))
  {
    hide BinEdges, CountBin, PsiSum;
    var edges := BinEdges(reference, n);
    EdgesCoverTheLine(reference, n);
    CountsSumToSize(reference, edges);
    CountsSumToSize(current, edges);
    PsiSumSign(Fractions(Histogram(reference, edges)), Fractions(Histogram(current, edges)), ln);
  }

  /** A sample does not drift from itself. */
  lemma {:induction false} NoDriftAgainstItself(xs: seq<real>, n: nat, ln: real -> real)
    requires xs != [] && n > 0 && LogLike(ln)
    ensures PsiNumeric(xs, xs, n, ln) == 0.0 && BandOf(PsiNumeric(xs, xs, n, ln)) == Stable
  {
    hide BinEdges, CountBin, PsiSum, PsiNumeric;
    PsiNumericSound(xs, xs, n, ln);
  }

  lemma {:induction false} PsiCategoricalSound(reference: seq<Option<string>>, current: seq<Option<string>>, ln: real -> real)
    requires LogLike(ln)
    ensures var psi := PsiCategorical(reference, current, ln);
      && (psi.None? <==> (reference == []) != (current == []) && Levels(reference) + Levels(current) != {})
      && (psi.Some? ==> psi.value >= 0.0)
      && (psi.Some? && reference != [] && current != [] ==>
            (psi.value == 0.0 <==> forall lvl :: lvl in Levels(reference) + Levels(current) ==>
              Smooth(CountLevel(reference, lvl) as real / |reference| as real) == Smooth(CountLevel(current, lvl) as real / |current| as real)))
  {
    hide CountLevel, PsiSum;
    var all := Levels(reference) + Levels(current);
    var levels := SortedStrings(all);
    if reference == [] { assert Levels(reference) == {}; }
    if current == [] { assert Levels(current) == {}; }
    assert levels == [] <==> all == {};
    if reference != [] && current != [] {
      var r, c := Shares(reference, levels), Shares(current, levels);
      PsiSumSign(r, c, ln);
      assert forall i :: 0 <= i < |levels| ==> levels[i] in all by { assert forall i :: 0 <= i < |levels| ==> levels[i] in levels; }
      if forall i :: 0 <= i < |levels| ==> Smooth(r[i]) == Smooth(c[i]) {
        forall lvl | lvl in all
          ensures Smooth(CountLevel(reference, lvl) as real / |reference| as real) == Smooth(CountLevel(current, lvl) as real / |current| as real)
        {
          assert lvl in levels;
          var i :| 0 <= i < |levels| && levels[i] == lvl;
          assert Smooth(r[i]) == Smooth(c[i]);
        }
      }
    }
  }

  // ---- What the index is made of, in terms of the samples as given ----

  /** The j-th of n quantiles, n times over: the two elements around position (|s| - 1) * j / n, weighed by how far they are. */
  lemma {:induction false} QuantileExactly(sorted: seq<real>, j: nat, n: nat)
    requires sorted != [] && j <= n && n > 0
    ensures var p := (|sorted| - 1) * j; var q, r := p / n, p % n;
      && 0 <= q < |sorted| && (r > 0 ==> q + 1 < |sorted|)
      && Quantile(sorted, j, n) * n as real == sorted[q] * (n - r) as real + (if r > 0 then sorted[q + 1] * r as real else 0.0)
  {
    hide Interpolate;
    var p := (|sorted| - 1) * j;
    var q, r := p / n, p % n;
    var h := p as real / n as real;
    QuantileIndex(|sorted| - 1, j, n);
    Position(p, n);
    if r > 0 { BelowWhole(|sorted| - 1, j, n); }
    InterpolateExactly(sorted, h, q, r, n);
  }

  lemma {:induction false} PartOfOne(r: nat, n: nat)
    requires r < n
    ensures 0.0 <= r as real / n as real < 1.0 && r as real / n as real * n as real == r as real
  {
    var f := r as real / n as real;
    assert f * n as real == r as real;
    CancelFactor(0.0, f, n as real);
    CancelFactor(1.0, f, n as real);
  }

  lemma {:induction false} SplitFraction(q: nat, r: nat, n: nat)
    requires n > 0
    ensures (q * n + r) as real / n as real == q as real + r as real / n as real
  {
    var d, h, f := n as real, (q * n + r) as real / n as real, r as real / n as real;
    assert h * d == (q * n) as real + r as real && f * d == r as real;
    assert (q * n) as real == q as real * d;
    assert (q as real + f) * d == q as real * d + f * d;
    CancelFactor(h, q as real + f, d);
    CancelFactor(q as real + f, h, d);
  }

  lemma {:induction false} Position(p: nat, n: nat)
    requires n > 0
    ensures var h := p as real / n as real; h.Floor == p / n && (h - (p / n) as real) * n as real == (p % n) as real
  {
    var q, r := p / n, p % n;
    assert p == q * n + r;
    SplitFraction(q, r, n);
    PartOfOne(r, n);
  }

  lemma {:induction false} InterpolateExactly(sorted: seq<real>, h: real, q: nat, r: nat, n: nat)
    requires h.Floor == q < |sorted| && n > 0 && r <= n && (h - q as real) * n as real == r as real && (r > 0 ==> q + 1 < |sorted|)
    ensures Interpolate(sorted, h) * n as real == sorted[q] * (n - r) as real + (if r > 0 then sorted[q + 1] * r as real else 0.0)
  {
    var f := h - q as real;
    if q + 1 < |sorted| {
      Weigh(sorted[q], sorted[q + 1], f, r, n);
      if r == 0 { assert sorted[q + 1] * 0.0 == 0.0; }
    }
  }

  lemma {:induction false} BelowWhole(m: nat, j: nat, n: nat)
    requires j <= n && n > 0 && (m * j) % n > 0
    ensures (m * j) / n < m
  {
    var q, r := (m * j) / n, (m * j) % n;
    assert q * n + r == m * j <= m * n;
    if q >= m { ProductLe(n, m, q); }
  }

  lemma {:induction false} Weigh(a: real, b: real, f: real, r: nat, n: nat)
    requires n > 0 && f * n as real == r as real && r <= n
    ensures (a + (b - a) * f) * n as real == a * (n - r) as real + b * r as real
  {
    assert (a + (b - a) * f) * n as real == a * n as real + (b - a) * (f * n as real);
  }

  /** The finite edges are the quantiles strictly between the least and the greatest element. */
  lemma {:induction false} EdgesAreQuantiles(reference: seq<real>, n: nat, x: real)
    requires reference != [] && n > 0
    ensures var sorted := Sort(RealLe, reference);
      && sorted != []
      && (At(x) in BinEdges(reference, n) <==>
            sorted[0] < x < sorted[|sorted| - 1] && exists j: nat :: j <= n && x == Quantile(sorted, j, n))
  {
    hide Sort, Unique, Quantiles, Quantile, BinEdges;
    SortPermutes(RealLe, reference);
    RealLeTotalOrder();
    SortSorts(RealLe, reference);
    var sorted := Sort(RealLe, reference);
    var cuts := Unique(Quantiles(sorted, n));
    InnerEdges(reference, n, x);
    QuantileCuts(sorted, n, x);
    UniqueAscending(Quantiles(sorted, n));
    InnerCuts(cuts, sorted[0], sorted[|sorted| - 1], x);
  }

  lemma {:induction false} InnerEdges(reference: seq<real>, n: nat, x: real)
    requires reference != [] && n > 0
    ensures var cuts := Cuts(reference, n); At(x) in BinEdges(reference, n) <==> exists i :: 0 < i < |cuts| - 1 && cuts[i] == x
  {
    hide Cuts;
    var cuts, edges := Cuts(reference, n), BinEdges(reference, n);
    if At(x) in edges {
      var i :| 0 <= i < |edges| && edges[i] == At(x);
      assert cuts[i] == x;
    }
    if i :| 0 < i < |cuts| - 1 && cuts[i] == x { assert edges[i] == At(x); }
  }

  lemma {:induction false} QuantileCuts(sorted: seq<real>, n: nat, x: real)
    requires SortedBy(RealLe, sorted) && sorted != [] && n > 0
    ensures var cuts := Unique(Quantiles(sorted, n));
      && sorted[0] in cuts && sorted[|sorted| - 1] in cuts
      && (forall c :: c in cuts ==> sorted[0] <= c <= sorted[|sorted| - 1])
      && (x in cuts <==> exists j: nat :: j <= n && x == Quantile(sorted, j, n))
  {
    hide Unique, Quantile, SortedBy;
    var quantiles := Quantiles(sorted, n);
    UniqueIn(quantiles);
    QuantilesSpan(sorted, 0, 0, n);
    assert quantiles[0] == sorted[0] && quantiles[n] == sorted[|sorted| - 1];
    forall c | c in quantiles ensures sorted[0] <= c <= sorted[|sorted| - 1] {
      var j :| 0 <= j <= n && quantiles[j] == c;
      QuantilesSpan(sorted, 0, j, n);
      QuantilesSpan(sorted, j, n, n);
    }
    if x in quantiles { var j: nat :| j <= n && quantiles[j] == x; }
    if j: nat :| j <= n && x == Quantile(sorted, j, n) { assert quantiles[j] == x; }
  }

  /** Of an ascending list with these ends, the elements between are those strictly between. */
  lemma {:induction false} InnerCuts(cuts: seq<real>, lo: real, hi: real, x: real)
    requires lo in cuts && hi in cuts && (forall c :: c in cuts ==> lo <= c <= hi)
    requires forall i, j :: 0 <= i < j < |cuts| ==> cuts[i] < cuts[j]
    ensures (exists i :: 0 < i < |cuts| - 1 && cuts[i] == x) <==> x in cuts && lo < x < hi
    ensures |cuts| < 2 ==> lo == hi
  {
    var a :| 0 <= a < |cuts| && cuts[a] == lo;
    var b :| 0 <= b < |cuts| && cuts[b] == hi;
    assert cuts[0] in cuts && cuts[|cuts| - 1] in cuts;
    assert a == 0 && b == |cuts| - 1;
  }

  /** The inner edges up to x. */
  ghost function EdgesUpTo(edges: seq<Edge>, x: real): set<nat> {
    set k: nat | 0 < k < |edges| - 1 && edges[k].At? && edges[k].r <= x
  }

  /** The bin of x is numbered by how many inner edges are <= x: closed on the left, open on the right. */
  lemma {:induction false} BinExactly(edges: seq<Edge>, i: nat, x: real)
    requires Covering(edges) && i + 1 < |edges|
    ensures InBin(edges, i, x) <==> i == |EdgesUpTo(edges, x)|
  {
    var b := OneBin(edges, x);
    assert !EdgeLe(edges[b + 1], x);
    assert EdgesUpTo(edges, x) == UpTo(b) by {
      forall k: nat ensures k in EdgesUpTo(edges, x) <==> k in UpTo(b) {
        if 0 < k < |edges| - 1 {
          assert EdgeLt(edges[0], edges[k]) && EdgeLt(edges[k], edges[|edges| - 1]);
          if k <= b { EdgeOrder(edges, k, b, x); } else if EdgeLe(edges[k], x) { EdgeOrder(edges, b + 1, k, x); }
        }
      }
    }
  }

  ghost function UpTo(n: nat): (r: set<nat>)
    ensures |r| == n && forall k :: k in r <==> 0 < k <= n
  {
    if n == 0 then {} else UpTo(n - 1) + {n}
  }

  /** Where a sample has numbers of the i-th bin. */
  ghost function InBinAt(xs: seq<Option<real>>, edges: seq<Edge>, i: nat): set<nat> {
    set p: nat | p < |xs| && xs[p].Some? && |EdgesUpTo(edges, xs[p].value)| == i
  }

  lemma {:induction false} CountBinPush(xs: seq<real>, e: real, edges: seq<Edge>, i: nat)
    requires i + 1 < |edges|
    ensures CountBin(xs + [e], edges, i) == CountBin(xs, edges, i) + if InBin(edges, i, e) then 1 else 0
  {
    hide InBin;
    if xs != [] {
      CountBinPush(xs[1..], e, edges, i);
      assert (xs + [e])[1..] == xs[1..] + [e];
    } else {
      assert xs + [e] == [e];
    }
  }

  /** The histogram counts, bin by bin, the numbers of the sample. */
  lemma {:induction false} CountExactly(xs: seq<Option<real>>, edges: seq<Edge>, i: nat)
    requires Covering(edges) && i + 1 < |edges|
    ensures CountBin(Clean(xs), edges, i) == |InBinAt(xs, edges, i)|
  {
    hide InBin, EdgesUpTo, Covering, CountBin, Clean, InBinAt;
    if xs == [] {
      NothingInBin(edges, i);
    } else {
      var n: nat := |xs| - 1;
      var before, e := xs[..n], xs[n];
      assert xs == before + [e];
      CountExactly(before, edges, i);
      CleanPush(before, e);
      assert Clean(before) + [] == Clean(before);
      if e.Some? {
        CountBinPush(Clean(before), e.value, edges, i);
        BinExactly(edges, i, e.value);
      }
      InBinPush(before, e, edges, i);
    }
  }

  lemma {:induction false} InBinPush(xs: seq<Option<real>>, e: Option<real>, edges: seq<Edge>, i: nat)
    ensures |InBinAt(xs + [e], edges, i)| == |InBinAt(xs, edges, i)| + if e.Some? && |EdgesUpTo(edges, e.value)| == i then 1 else 0
  {
    hide EdgesUpTo;
    var n: nat := |xs|;
    assert InBinAt(xs + [e], edges, i) == InBinAt(xs, edges, i) + if e.Some? && |EdgesUpTo(edges, e.value)| == i then {n} else {};
  }

  lemma {:induction false} NothingInBin(edges: seq<Edge>, i: nat)
    requires i + 1 < |edges|
    ensures CountBin(Clean([]), edges, i) == 0 && |InBinAt([], edges, i)| == 0
  {
    assert InBinAt([], edges, i) == {};
  }

  /** The source's index of two samples, either of which may hold entries that are no number. */
  function PsiOf(reference: seq<Option<real>>, current: seq<Option<real>>, n: nat, ln: real -> real): real
    requires n > 0
  {
    PsiNumeric(Clean(reference), Clean(current), n, ln)
  }

  /** The share of a sample's numbers that a bin holds; an empty bin is given a millionth. */
  ghost function ShareIn(xs: seq<Option<real>>, edges: seq<Edge>, i: nat): real {
    var c := |InBinAt(xs, edges, i)|;
    if c == 0 || Numbers(xs) == 0 then 0.000001 else c as real / Numbers(xs) as real
  }

  ghost function SharesIn(xs: seq<Option<real>>, edges: seq<Edge>): (r: seq<real>)
    requires edges != []
    ensures |r| == |edges| - 1
  {
    seq(|edges| - 1, i requires 0 <= i < |edges| - 1 => ShareIn(xs, edges, i))
  }

  /** The relative entropy of p against q. */
  ghost function Divergence(p: seq<real>, q: seq<real>, ln: real -> real): real
    requires |p| == |q| && forall i :: 0 <= i < |q| ==> p[i] > 0.0 && q[i] > 0.0
  {
    if p == [] then 0.0 else p[0] * ln(p[0] / q[0]) + Divergence(p[1..], q[1..], ln)
  }

  /** A logarithm: the one of a product is the sum of the two. */
  ghost predicate Logarithm(ln: real -> real) {
    LogLike(ln) && forall x, y :: x > 0.0 && y > 0.0 ==> ln(x * y) == ln(x) + ln(y)
  }

  lemma {:induction false} Inverses(a: real, b: real)
    requires a > 0.0 && b > 0.0
    ensures a / b > 0.0 && b / a > 0.0 && (a / b) * (b / a) == 1.0
  {
    RatioAgainstOne(a, b);
    RatioAgainstOne(b, a);
    var x, y := a / b, b / a;
    assert x * b == a && y * a == b;
    SameFactor(y, x * b, a);
    assert x * y * b == y * (x * b);
    CancelFactor(x * y, 1.0, b);
    CancelFactor(1.0, x * y, b);
  }

  lemma {:induction false} SameFactor(y: real, u: real, v: real)
    requires u == v
    ensures y * u == y * v
  {
  }

  lemma {:induction false} LnOfOne(ln: real -> real)
    requires LogLike(ln)
    ensures ln(1.0) == 0.0
  {
  }

  lemma {:induction false} LnInverse(a: real, b: real, ln: real -> real)
    requires Logarithm(ln) && a > 0.0 && b > 0.0
    ensures ln(b / a) == -ln(a / b)
  {
    hide LogLike;
    Inverses(a, b);
    LnOfOne(ln);
    LnProduct(a / b, b / a, ln);
  }

  lemma {:induction false} LnProduct(x: real, y: real, ln: real -> real)
    requires Logarithm(ln) && x > 0.0 && y > 0.0
    ensures ln(x * y) == ln(x) + ln(y)
  {
    hide LogLike;
  }

  lemma {:induction false} TermSplits(c: real, r: real, ln: real -> real)
    requires Logarithm(ln) && c > 0.0 && r > 0.0
    ensures Term(c, r, ln) == c * ln(c / r) + r * ln(r / c)
  {
    hide Logarithm;
    LnInverse(c, r, ln);
    var l := ln(c / r);
    assert (c - r) * l == c * l - r * l;
  }

  function Smoothed(f: seq<real>): (r: seq<real>)
    requires NonNegative(f)
    ensures |r| == |f| && forall i :: 0 <= i < |f| ==> r[i] == Smooth(f[i]) && r[i] > 0.0
  {
    seq(|f|, i requires 0 <= i < |f| => Smooth(f[i]))
  }

  /** The sum is the relative entropy both ways, added up. */
  lemma {:induction false} PsiSumIsDivergence(r: seq<real>, c: seq<real>, ln: real -> real)
    requires |r| == |c| && Logarithm(ln) && NonNegative(r) && NonNegative(c)
    ensures PsiSum(r, c, ln) == Divergence(Smoothed(c), Smoothed(r), ln) + Divergence(Smoothed(r), Smoothed(c), ln)
  {
    hide Logarithm, Term, Smooth, Smoothed, Divergence;
    if r == [] {
      DivergenceStep(Smoothed(c), Smoothed(r), ln);
      DivergenceStep(Smoothed(r), Smoothed(c), ln);
    } else {
      PsiSumIsDivergence(r[1..], c[1..], ln);
      TermSplits(Smoothed(c)[0], Smoothed(r)[0], ln);
      SmoothedTail(r);
      SmoothedTail(c);
      DivergenceStep(Smoothed(c), Smoothed(r), ln);
      DivergenceStep(Smoothed(r), Smoothed(c), ln);
    }
  }

  lemma {:induction false} SmoothedTail(f: seq<real>)
    requires NonNegative(f) && f != []
    ensures NonNegative(f[1..]) && Smoothed(f)[1..] == Smoothed(f[1..])
  {
  }

  lemma {:induction false} DivergenceStep(p: seq<real>, q: seq<real>, ln: real -> real)
    requires |p| == |q| && forall i :: 0 <= i < |q| ==> p[i] > 0.0 && q[i] > 0.0
    ensures Divergence(p, q, ln) == if p == [] then 0.0 else p[0] * ln(p[0] / q[0]) + Divergence(p[1..], q[1..], ln)
  {
  }

  lemma {:induction false} SharesExactly(xs: seq<Option<real>>, edges: seq<Edge>)
    requires Covering(edges)
    ensures Smoothed(Fractions(Histogram(Clean(xs), edges))) == SharesIn(xs, edges)
  {
    hide Increasing, CountBin, Clean, InBinAt, Numbers;
    var counts := Histogram(Clean(xs), edges);
    CountsSumToSize(Clean(xs), edges);
    CleanCounts(xs, 0.0);
    forall i | 0 <= i < |counts| ensures Smooth(Fractions(counts)[i]) == ShareIn(xs, edges, i) {
      CountExactly(xs, edges, i);
      ShareZero(counts[i], Numbers(xs));
    }
  }

  lemma {:induction false} ShareZero(c: nat, n: nat)
    ensures n > 0 ==> (c as real / n as real == 0.0 <==> c == 0)
  {
    if n > 0 { assert c as real / n as real * n as real == c as real; }
  }

  /**
   * The index of two samples: bins cut at the reference's quantiles, each sample's shares of them, and the
   * relative entropy of the two, both ways, added up.
   */
  lemma {:induction false} PsiIsDivergence(reference: seq<Option<real>>, current: seq<Option<real>>, n: nat, ln: real -> real)
    requires Numbers(reference) > 0 && n > 0 && Logarithm(ln)
    ensures var edges := BinEdges(Clean(reference), n);
      var p, q := SharesIn(reference, edges), SharesIn(current, edges);
      && (forall i :: 0 <= i < |p| ==> p[i] > 0.0 && q[i] > 0.0)
      && PsiOf(reference, current, n, ln) == Divergence(q, p, ln) + Divergence(p, q, ln)
  {
    hide BinEdges, Clean, Histogram, Numbers, ShareIn, Logarithm;
    CleanCounts(reference, 0.0);
    var edges := BinEdges(Clean(reference), n);
    EdgesCoverTheLine(Clean(reference), n);
    SharesExactly(reference, edges);
    SharesExactly(current, edges);
    PsiSumIsDivergence(Fractions(Histogram(Clean(reference), edges)), Fractions(Histogram(Clean(current), edges)), ln);
  }

  /** How large a part of the entries is this level; one that does not occur is given a millionth. */
  ghost function LevelShare(xs: seq<Option<string>>, level: string): real
    requires xs != []
  {
    var c := multiset(xs)[Some(level)];
    if c == 0 then 0.000001 else c as real / |xs| as real
  }

  ghost function LevelShares(xs: seq<Option<string>>, levels: seq<string>): (r: seq<real>)
    requires xs != []
    ensures |r| == |levels| && forall i :: 0 <= i < |r| ==> r[i] > 0.0
  {
    seq(|levels|, i requires 0 <= i < |levels| => LevelShare(xs, levels[i]))
  }

  lemma {:induction false} CountLevelExactly(xs: seq<Option<string>>, level: string)
    ensures CountLevel(xs, level) == multiset(xs)[Some(level)]
  {
    if xs != [] {
      CountLevelExactly(xs[1..], level);
      assert xs == [xs[0]] + xs[1..];
    }
  }

  lemma {:induction false} LevelSharesExactly(xs: seq<Option<string>>, levels: seq<string>)
    requires xs != []
    ensures Smoothed(Shares(xs, levels)) == LevelShares(xs, levels)
  {
    hide CountLevel;
    forall i | 0 <= i < |levels| ensures Smooth(Shares(xs, levels)[i]) == LevelShare(xs, levels[i]) {
      CountLevelExactly(xs, levels[i]);
      ShareZero(CountLevel(xs, levels[i]), |xs|);
    }
  }

  /** The same for categories: the levels that occur, in ascending order, and the samples' shares of them. */
  lemma {:induction false} CategoricalIsDivergence(reference: seq<Option<string>>, current: seq<Option<string>>, levels: seq<string>, ln: real -> real)
    requires Logarithm(ln) && reference != [] && current != []
    requires SortedBy(StringLt, levels) && forall l :: l in levels <==> Some(l) in reference || Some(l) in current
    ensures var p, q := LevelShares(reference, levels), LevelShares(current, levels);
      PsiCategorical(reference, current, ln) == Some(Divergence(q, p, ln) + Divergence(p, q, ln))
  {
    hide Logarithm, Shares, SortedStrings, StringLt, PsiSum, LevelShares, Levels;
    AllLevels(reference, current, levels);
    LevelSharesExactly(reference, levels);
    LevelSharesExactly(current, levels);
    if levels == [] { NoShares(reference, current, ln); } else {
      PsiSumIsDivergence(Shares(reference, levels), Shares(current, levels), ln);
    }
  }

  lemma {:induction false} AllLevels(reference: seq<Option<string>>, current: seq<Option<string>>, levels: seq<string>)
    requires SortedBy(StringLt, levels) && forall l :: l in levels <==> Some(l) in reference || Some(l) in current
    ensures SortedStrings(Levels(reference) + Levels(current)) == levels
  {
    hide SortedStrings, StringLt, Levels;
    forall l ensures l in levels <==> l in Levels(reference) + Levels(current) {
      LevelIn(reference, l);
      LevelIn(current, l);
    }
    AscendingIsSorted(levels, Levels(reference) + Levels(current));
  }

  lemma {:induction false} LevelIn(xs: seq<Option<string>>, l: string)
    ensures l in Levels(xs) <==> Some(l) in xs
  {
    if Some(l) in xs { var i :| 0 <= i < |xs| && xs[i] == Some(l); }
  }

  lemma {:induction false} NoShares(reference: seq<Option<string>>, current: seq<Option<string>>, ln: real -> real)
    requires reference != [] && current != []
    ensures Divergence(LevelShares(reference, []), LevelShares(current, []), ln) == 0.0
  {
  }

  /** Below a tenth a feature is stable, from a quarter on it has drifted. */
  lemma {:induction false} BandExactly(psi: real)
    ensures BandOf(psi) == Stable <==> psi < 0.1
    ensures BandOf(psi) == Drift <==> psi >= 0.25
  {
  }
}
