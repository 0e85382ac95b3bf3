/**
 * The two-sample Kolmogorov-Smirnov statistic in exact real arithmetic: a maximum over the merged
 * sample points, found with binary search, against the supremum over all reals.
 */
module KsStatistic {
  import opened Options
  import opened Sorting

  predicate RealLe(x: real, y: real) {
    x <= y
  }

  function Abs(x: real): real {
    if x < 0.0 then -x else x
  }

  /** Drops NaN entries. */
  function Clean(xs: seq<Option<real>>): seq<real> {
    if xs == [] then [] else
      if xs[0].Some? then [xs[0].value] + Clean(xs[1..]) else Clean(xs[1..])
  }

  // ---- The computation ----

  /** Position after the last element <= x of the sorted stretch s[lo..hi], by bisection. */
  function SearchRight(s: seq<real>, x: real, lo: nat, hi: nat): (r: nat)
    requires lo <= hi <= |s|
    ensures lo <= r <= hi
    decreases hi - lo
  {
    if lo == hi then lo else
      var mid := lo + (hi - lo) / 2;
      if s[mid] <= x then SearchRight(s, x, mid + 1, hi) else SearchRight(s, x, lo, mid)
  }

  /** The fraction of the sorted sample that is <= x, as the code computes it. */
  function CdfAt(sorted: seq<real>, x: real): real
    requires sorted != []
  {
    SearchRight(sorted, x, 0, |sorted|) as real / |sorted| as real
  }

  function Dedup(s: seq<real>): seq<real> {
    if |s| <= 1 then s
    else if s[0] == s[1] then Dedup(s[1..])
    else [s[0]] + Dedup(s[1..])
  }

  /** The distinct elements, sorted. */
  function Unique(s: seq<real>): seq<real> {
    Dedup(Sort(RealLe, s))
  }

  function MaxOf(s: seq<real>): (m: real)
    requires s != []
    ensures m in s && forall x :: x in s ==> x <= m
  {
    if |s| == 1 then s[0] else
      var m := MaxOf(s[1..]);
      assert forall x :: x in s ==> x == s[0] || x in s[1..];
      if s[0] >= m then s[0] else m
  }

  lemma {:induction false} DedupIn(s: seq<real>)
    ensures forall x :: x in Dedup(s) <==> x in s
    ensures s != [] ==> Dedup(s) != [] && Dedup(s)[0] == s[0]
  {
    if |s| > 1 {
      DedupIn(s[1..]);
      assert forall x :: x in s <==> x == s[0] || x in s[1..];
    }
  }

  lemma {:induction false} UniqueIn(s: seq<real>)
    ensures forall x :: x in Unique(s) <==> x in s
    ensures s != [] ==> Unique(s) != []
  {
    InSort(RealLe, s);
    DedupIn(Sort(RealLe, s));
    if s != [] { assert s[0] in Unique(s); }
  }

  /** The gap between the two empirical distributions at the i-th grid point. */
  function Gaps(a: seq<real>, b: seq<real>, grid: seq<real>): (r: seq<real>)
    requires a != [] && b != []
    ensures |r| == |grid| && forall i :: 0 <= i < |grid| ==> r[i] == Abs(CdfAt(a, grid[i]) - CdfAt(b, grid[i]))
  {
    seq(|grid|, i requires 0 <= i < |grid| => Abs(CdfAt(a, grid[i]) - CdfAt(b, grid[i])))
  }

  function Ks(a: seq<Option<real>>, b: seq<Option<real>>): real {
    var sa, sb := Sort(RealLe, Clean(a)), Sort(RealLe, Clean(b));
    if sa == [] || sb == [] then 0.0 else
      UniqueIn(sa + sb);
      MaxOf(Gaps(sa, sb, Unique(sa + sb)))
  }

  /** The scores of one class. */
  function ScoresOf(labels: seq<int>, scores: seq<real>, wanted: int): seq<Option<real>>
    requires |labels| == |scores|
  {
    if labels == [] then [] else
      (if labels[0] == wanted then [Some(scores[0])] else []) + ScoresOf(labels[1..], scores[1..], wanted)
  }

  /** The separation statistic of a binary classifier: the same computation on positives against negatives. */
  function ClassifierKs(labels: seq<int>, scores: seq<real>): real
    requires |labels| == |scores|
  {
    Ks(ScoresOf(labels, scores, 1), ScoresOf(labels, scores, 0))
  }

  // ---- The definition ----

  function CountLe(s: seq<real>, x: real): (n: nat)
    ensures n <= |s|
  {
    if s == [] then 0 else (if s[0] <= x then 1 else 0) + CountLe(s[1..], x)
  }

  /** The empirical distribution function of a sample, in any order. */
  function Ecdf(s: seq<real>, x: real): real
    requires s != []
  {
    CountLe(s, x) as real / |s| as real
  }

  /** `d` is the supremum over all reals of the distance between the two distribution functions. */
  ghost predicate IsDistance(a: seq<real>, b: seq<real>, d: real)
    requires a != [] && b != []
  {
    && (forall x: real :: Abs(Ecdf(a, x) - Ecdf(b, x)) <= d)
    && (exists x: real :: Abs(Ecdf(a, x) - Ecdf(b, x)) == d)
  }

  // ---- Binary search counts ----

  lemma {:induction false} CountLeSplit(s: seq<real>, x: real, k: nat)
    requires k <= |s| && (forall i :: 0 <= i < k ==> s[i] <= x) && (forall i :: k <= i < |s| ==> x < s[i])
    ensures CountLe(s, x) == k
  {
    if s != [] { CountLeSplit(s[1..], x, if k == 0 then 0 else k - 1); }
  }

  lemma {:induction false} SearchRightSplits(s: seq<real>, x: real, lo: nat, hi: nat)
    requires lo <= hi <= |s| && SortedBy(RealLe, s)
    requires (forall i :: 0 <= i < lo ==> s[i] <= x) && (forall i :: hi <= i < |s| ==> x < s[i])
    ensures var r := SearchRight(s, x, lo, hi); (forall i :: 0 <= i < r ==> s[i] <= x) && (forall i :: r <= i < |s| ==> x < s[i])
    decreases hi - lo
  {
    if lo < hi {
      var mid := lo + (hi - lo) / 2;
      if s[mid] <= x {
        forall i | 0 <= i < mid ensures s[i] <= x { assert RealLe(s[i], s[mid]); }
        SearchRightSplits(s, x, mid + 1, hi);
      } else {
        forall i | mid < i < |s| ensures x < s[i] { assert RealLe(s[mid], s[i]); }
        SearchRightSplits(s, x, lo, mid);
      }
    }
  }

  lemma {:induction false} RealLeTotalOrder()
    ensures TotalOrder(RealLe)
  {
  }

  lemma {:induction false} CountLeInsert(x: real, s: seq<real>, t: real)
    ensures CountLe(Insert(RealLe, x, s), t) == (if x <= t then 1 else 0) + CountLe(s, t)
  {
    if s == [] || RealLe(x, s[0]) {
      assert ([x] + s)[1..] == s;
    } else {
      CountLeInsert(x, s[1..], t);
      assert ([s[0]] + Insert(RealLe, x, s[1..]))[1..] == Insert(RealLe, x, s[1..]);
    }
  }

  lemma {:induction false} CountLeSort(s: seq<real>, t: real)
    ensures CountLe(Sort(RealLe, s), t) == CountLe(s, t)
  {
    if s != [] {
      CountLeSort(s[1..], t);
      CountLeInsert(s[0], Sort(RealLe, s[1..]), t);
    }
  }

  /** The code's fraction is the empirical distribution function. */
  lemma {:induction false} CdfIsEcdf(s: seq<real>, x: real)
    requires s != []
    ensures Sort(RealLe, s) != [] && CdfAt(Sort(RealLe, s), x) == Ecdf(s, x)
  {
    var sorted := Sort(RealLe, s);
    RealLeTotalOrder();
    SortPermutes(RealLe, s);
    SortSorts(RealLe, s);
    SearchRightSplits(sorted, x, 0, |sorted|);
    CountLeSplit(sorted, x, SearchRight(sorted, x, 0, |sorted|));
    CountLeSort(s, x);
  }

  // ---- Between two grid points nothing changes ----

  lemma {:induction false} CountLeSame(s: seq<real>, x: real, y: real)
    requires forall e :: e in s ==> (e <= x <==> e <= y)
    ensures CountLe(s, x) == CountLe(s, y)
  {
    if s != [] {
      assert s[0] in s && forall e :: e in s[1..] ==> e in s;
      CountLeSame(s[1..], x, y);
    }
  }

  lemma {:induction false} CountLeNone(s: seq<real>, x: real)
    requires forall e :: e in s ==> x < e
    ensures CountLe(s, x) == 0
  {
    if s != [] {
      assert s[0] in s && forall e :: e in s[1..] ==> e in s;
      CountLeNone(s[1..], x);
    }
  }

  /** Either every grid point exceeds x, or there is a largest one that does not. */
  lemma {:induction false} GridFloor(grid: seq<real>, x: real) returns (found: bool, g: real)
    ensures found ==> g in grid && g <= x && forall e :: e in grid && e <= x ==> e <= g
    ensures !found ==> forall e :: e in grid ==> x < e
  {
    if grid == [] {
      found, g := false, 0.0;
    } else {
      found, g := GridFloor(grid[1..], x);
      assert forall e :: e in grid <==> e == grid[0] || e in grid[1..];
      if grid[0] <= x && (!found || grid[0] > g) { found, g := true, grid[0]; }
    }
  }

  lemma {:induction false} FractionBounds(n: nat, m: nat)
    requires n <= m && m > 0
    ensures 0.0 <= n as real / m as real <= 1.0
  {
  }

  lemma {:induction false} EcdfBounds(s: seq<real>, x: real)
    requires s != []
    ensures 0.0 <= Ecdf(s, x) <= 1.0
  {
    FractionBounds(CountLe(s, x), |s|);
  }

  /** Off the grid, the distance is that of some grid point, or zero. */
  lemma {:induction false} GapOnGrid(a: seq<real>, b: seq<real>, grid: seq<real>, x: real) returns (found: bool, g: real)
    requires a != [] && b != [] && forall e :: e in a || e in b ==> e in grid
    ensures found ==> g in grid && Ecdf(a, x) == Ecdf(a, g) && Ecdf(b, x) == Ecdf(b, g)
    ensures !found ==> Ecdf(a, x) == 0.0 && Ecdf(b, x) == 0.0
  {
    found, g := GridFloor(grid, x);
    if found {
      CountLeSame(a, x, g);
      CountLeSame(b, x, g);
    } else {
      CountLeNone(a, x);
      CountLeNone(b, x);
    }
  }

  /** On the cleaned samples, the statistic is the supremum over all reals, attained. */
  lemma {:induction false} CleanedDistance(a: seq<Option<real>>, b: seq<Option<real>>)
    requires Clean(a) != [] && Clean(b) != []
    ensures IsDistance(Clean(a), Clean(b), Ks(a, b))
  {
    hide Sort, Dedup, CountLe, SearchRight, Clean, MaxOf;
    var ca, cb := Clean(a), Clean(b);
    var sa, sb := Sort(RealLe, ca), Sort(RealLe, cb);
    CdfIsEcdf(ca, 0.0);
    CdfIsEcdf(cb, 0.0);
    InSort(RealLe, ca);
    InSort(RealLe, cb);
    UniqueIn(sa + sb);
    var grid := Unique(sa + sb);
    var gaps := Gaps(sa, sb, grid);
    forall i | 0 <= i < |grid| ensures gaps[i] == Abs(Ecdf(ca, grid[i]) - Ecdf(cb, grid[i])) {
      CdfIsEcdf(ca, grid[i]);
      CdfIsEcdf(cb, grid[i]);
    }
    assert Ks(a, b) == MaxOf(gaps);
    var k :| 0 <= k < |gaps| && gaps[k] == MaxOf(gaps);
    assert Abs(Ecdf(ca, grid[k]) - Ecdf(cb, grid[k])) == Ks(a, b);
    forall x: real ensures Abs(Ecdf(ca, x) - Ecdf(cb, x)) <= Ks(a, b) {
      var found, g := GapOnGrid(ca, cb, grid, x);
      if found {
        var i :| 0 <= i < |grid| && grid[i] == g;
        assert gaps[i] in gaps;
      }
    }
  }

  /** It lies in [0, 1]. */
  lemma {:induction false} KsInUnit(a: seq<Option<real>>, b: seq<Option<real>>)
    ensures 0.0 <= Ks(a, b) <= 1.0
  {
    hide Sort, Clean, Unique, CountLe;
    if Clean(a) != [] && Clean(b) != [] {
      CleanedDistance(a, b);
      var x: real :| Abs(Ecdf(Clean(a), x) - Ecdf(Clean(b), x)) == Ks(a, b);
      EcdfBounds(Clean(a), x);
      EcdfBounds(Clean(b), x);
    } else {
      SortPermutes(RealLe, Clean(a));
      SortPermutes(RealLe, Clean(b));
    }
  }

  lemma {:induction false} DistanceUnique(a: seq<real>, b: seq<real>, d: real, e: real)
    requires a != [] && b != [] && IsDistance(a, b, d) && IsDistance(b, a, e)
    ensures d == e
  {
    hide CountLe, Ecdf;
    var x: real :| Abs(Ecdf(a, x) - Ecdf(b, x)) == d;
    var y: real :| Abs(Ecdf(b, y) - Ecdf(a, y)) == e;
    assert Abs(Ecdf(b, x) - Ecdf(a, x)) == d && Abs(Ecdf(a, y) - Ecdf(b, y)) == e;
  }

  lemma {:induction false} KsSymmetric(a: seq<Option<real>>, b: seq<Option<real>>)
    ensures Ks(a, b) == Ks(b, a)
  {
    hide Sort, Clean, Unique, IsDistance;
    if Clean(a) != [] && Clean(b) != [] {
      CleanedDistance(a, b);
      CleanedDistance(b, a);
      DistanceUnique(Clean(a), Clean(b), Ks(a, b), Ks(b, a));
    } else {
      SortPermutes(RealLe, Clean(a));
      SortPermutes(RealLe, Clean(b));
    }
  }

  // ---- In terms of the samples as given ----

  /** Where a sample has numbers, and where numbers up to x. */
  ghost function NumbersAt(xs: seq<Option<real>>): set<nat> {
    set i: nat | i < |xs| && xs[i].Some?
  }

  ghost function AtMostAt(xs: seq<Option<real>>, x: real): set<nat> {
    set i: nat | i < |xs| && xs[i].Some? && xs[i].value <= x
  }

  ghost function Numbers(xs: seq<Option<real>>): nat {
    |NumbersAt(xs)|
  }

  ghost function AtMost(xs: seq<Option<real>>, x: real): nat {
    |AtMostAt(xs, x)|
  }

  /** The fraction of a sample's numbers that is <= x. */
  ghost function Cdf(xs: seq<Option<real>>, x: real): real
    requires Numbers(xs) > 0
  {
    AtMost(xs, x) as real / Numbers(xs) as real
  }

  /** Cleaning keeps each number exactly as often as it is there. */
  lemma {:induction false} CleanKeeps(xs: seq<Option<real>>, r: real)
    ensures multiset(Clean(xs))[r] == multiset(xs)[Some(r)]
  {
    if xs != [] {
      CleanKeeps(xs[1..], r);
      assert xs == [xs[0]] + xs[1..];
    }
  }

  lemma {:induction false} CleanPush(xs: seq<Option<real>>, e: Option<real>)
    ensures Clean(xs + [e]) == Clean(xs) + if e.Some? then [e.value] else []
  {
    if xs != [] {
      CleanPush(xs[1..], e);
      assert (xs + [e])[1..] == xs[1..] + [e];
    } else {
      assert [e][1..] == [] && xs + [e] == [e];
    }
  }

  lemma {:induction false} CountLePush(s: seq<real>, e: real, x: real)
    ensures CountLe(s + [e], x) == CountLe(s, x) + if e <= x then 1 else 0
  {
    if s != [] {
      CountLePush(s[1..], e, x);
      assert (s + [e])[1..] == s[1..] + [e];
    } else {
      assert [e][1..] == [] && s + [e] == [e];
    }
  }

  lemma {:induction false} CleanCounts(xs: seq<Option<real>>, x: real)
    ensures |Clean(xs)| == Numbers(xs) && CountLe(Clean(xs), x) == AtMost(xs, x)
  {
    hide Clean, CountLe, Numbers, AtMost;
    if xs == [] {
      NothingToCount(x);
    } else {
      var n := |xs| - 1;
      var before, e := xs[..n], xs[n];
      assert xs == before + [e];
      CleanCounts(before, x);
      CleanPush(before, e);
      if e.Some? { CountLePush(Clean(before), e.value, x); }
      NumbersPush(before, e, x);
      assert Clean(before) + [] == Clean(before);
    }
  }

  lemma {:induction false} NothingToCount(x: real)
    ensures Clean([]) == [] && CountLe([], x) == 0 && Numbers([]) == 0 && AtMost([], x) == 0
  {
    assert NumbersAt([]) == AtMostAt([], x) == {};
  }

  lemma {:induction false} NumbersPush(xs: seq<Option<real>>, e: Option<real>, x: real)
    ensures Numbers(xs + [e]) == Numbers(xs) + if e.Some? then 1 else 0
    ensures AtMost(xs + [e], x) == AtMost(xs, x) + if e.Some? && e.value <= x then 1 else 0
  {
    hide NumbersAt, AtMostAt;
    NumbersAtPush(xs, e);
    AtMostAtPush(xs, e, x);
  }

  lemma {:induction false} NumbersAtPush(xs: seq<Option<real>>, e: Option<real>)
    ensures |NumbersAt(xs + [e])| == |NumbersAt(xs)| + if e.Some? then 1 else 0
  {
    var n: nat := |xs|;
    assert NumbersAt(xs + [e]) == NumbersAt(xs) + if e.Some? then {n} else {};
  }

  lemma {:induction false} AtMostAtPush(xs: seq<Option<real>>, e: Option<real>, x: real)
    ensures |AtMostAt(xs + [e], x)| == |AtMostAt(xs, x)| + if e.Some? && e.value <= x then 1 else 0
  {
    var n: nat := |xs|;
    assert AtMostAt(xs + [e], x) == AtMostAt(xs, x) + if e.Some? && e.value <= x then {n} else {};
  }

  lemma {:induction false} CleanCdf(xs: seq<Option<real>>, x: real)
    requires Numbers(xs) > 0
    ensures Clean(xs) != [] && Ecdf(Clean(xs), x) == Cdf(xs, x)
  {
    hide Clean, CountLe, AtMost, Numbers;
    CleanCounts(xs, x);
  }

  /** The statistic is the supremum, over all reals, of the distance between the two samples' distribution functions, and is attained. */
  lemma {:induction false} KsIsDistance(a: seq<Option<real>>, b: seq<Option<real>>)
    requires Numbers(a) > 0 && Numbers(b) > 0
    ensures forall x: real :: Abs(Cdf(a, x) - Cdf(b, x)) <= Ks(a, b)
    ensures exists x: real :: Abs(Cdf(a, x) - Cdf(b, x)) == Ks(a, b)
  {
    hide Clean, Ks, Cdf, Ecdf, Numbers;
    CleanCdf(a, 0.0);
    CleanCdf(b, 0.0);
    CleanedDistance(a, b);
    forall x: real ensures Ecdf(Clean(a), x) == Cdf(a, x) && Ecdf(Clean(b), x) == Cdf(b, x) {
      CleanCdf(a, x);
      CleanCdf(b, x);
    }
    var x: real :| Abs(Ecdf(Clean(a), x) - Ecdf(Clean(b), x)) == Ks(a, b);
  }

  /** It vanishes exactly when the two samples have the same distribution function, or one has no number. */
  lemma {:induction false} KsZero(a: seq<Option<real>>, b: seq<Option<real>>)
    ensures Ks(a, b) == 0.0 <==> (Numbers(a) > 0 && Numbers(b) > 0 ==> forall x: real :: Cdf(a, x) == Cdf(b, x))
  {
    hide Clean, Cdf, Numbers, Sort, Unique, MaxOf, Gaps;
    CleanCounts(a, 0.0);
    CleanCounts(b, 0.0);
    if Numbers(a) > 0 && Numbers(b) > 0 {
      hide Ks;
      KsIsDistance(a, b);
      if Ks(a, b) == 0.0 {
        forall x: real ensures Cdf(a, x) == Cdf(b, x) { assert Abs(Cdf(a, x) - Cdf(b, x)) <= 0.0; }
      } else {
        var x: real :| Abs(Cdf(a, x) - Cdf(b, x)) == Ks(a, b);
      }
    } else {
      SortPermutes(RealLe, Clean(a));
      SortPermutes(RealLe, Clean(b));
    }
  }

  /** Where a class is, and where its scores are up to x. */
  ghost function ClassAt(labels: seq<int>, wanted: int): set<nat> {
    set i: nat | i < |labels| && labels[i] == wanted
  }

  ghost function ScoringAt(labels: seq<int>, scores: seq<real>, wanted: int, x: real): set<nat>
    requires |labels| == |scores|
  {
    set i: nat | i < |labels| && labels[i] == wanted && scores[i] <= x
  }

  ghost function ClassSize(labels: seq<int>, wanted: int): nat {
    |ClassAt(labels, wanted)|
  }

  ghost function ScoringUpTo(labels: seq<int>, scores: seq<real>, wanted: int, x: real): nat
    requires |labels| == |scores|
  {
    |ScoringAt(labels, scores, wanted, x)|
  }

  lemma {:induction false} ScoringPush(labels: seq<int>, scores: seq<real>, l: int, y: real, wanted: int, x: real)
    requires |labels| == |scores|
    ensures ClassSize(labels + [l], wanted) == ClassSize(labels, wanted) + if l == wanted then 1 else 0
    ensures ScoringUpTo(labels + [l], scores + [y], wanted, x) == ScoringUpTo(labels, scores, wanted, x) + if l == wanted && y <= x then 1 else 0
  {
    var n := |labels|;
    assert ClassAt(labels + [l], wanted) == ClassAt(labels, wanted) + if l == wanted then {n} else {};
    assert ScoringAt(labels + [l], scores + [y], wanted, x) == ScoringAt(labels, scores, wanted, x) + if l == wanted && y <= x then {n} else {};
  }

  lemma {:induction false} ScoresPush(labels: seq<int>, scores: seq<real>, l: int, y: real, wanted: int)
    requires |labels| == |scores|
    ensures ScoresOf(labels + [l], scores + [y], wanted) == ScoresOf(labels, scores, wanted) + if l == wanted then [Some(y)] else []
  {
    if labels != [] {
      ScoresPush(labels[1..], scores[1..], l, y, wanted);
      assert (labels + [l])[1..] == labels[1..] + [l] && (scores + [y])[1..] == scores[1..] + [y];
    } else {
      assert labels + [l] == [l] && scores + [y] == [y];
    }
  }

  /** A class's scores are those at its labels. */
  lemma {:induction false} ScoresCount(labels: seq<int>, scores: seq<real>, wanted: int, x: real)
    requires |labels| == |scores|
    ensures Numbers(ScoresOf(labels, scores, wanted)) == ClassSize(labels, wanted)
    ensures AtMost(ScoresOf(labels, scores, wanted), x) == ScoringUpTo(labels, scores, wanted, x)
  {
    hide ScoresOf, Numbers, AtMost, ClassSize, ScoringUpTo;
    if labels == [] {
      NoScores(x, wanted);
    } else {
      var n := |labels| - 1;
      var ls, ys, l, y := labels[..n], scores[..n], labels[n], scores[n];
      assert labels == ls + [l] && scores == ys + [y];
      ScoresCount(ls, ys, wanted, x);
      ScoresPush(ls, ys, l, y, wanted);
      ScoringPush(ls, ys, l, y, wanted, x);
      NumbersPush(ScoresOf(ls, ys, wanted), Some(y), x);
      assert ScoresOf(ls, ys, wanted) + [] == ScoresOf(ls, ys, wanted);
    }
  }

  lemma {:induction false} NoScores(x: real, wanted: int)
    ensures ScoresOf([], [], wanted) == [] && Numbers([]) == 0 && AtMost([], x) == 0
    ensures ClassSize([], wanted) == 0 && ScoringUpTo([], [], wanted, x) == 0
  {
    assert NumbersAt([]) == AtMostAt([], x) == {};
    assert ClassAt([], wanted) == ScoringAt([], [], wanted, x) == {};
  }

  /** How far a threshold separates the classes: the shares of either that score up to it. */
  ghost function Separation(labels: seq<int>, scores: seq<real>, x: real): real
    requires |labels| == |scores| && ClassSize(labels, 1) > 0 && ClassSize(labels, 0) > 0
  {
    Abs(ScoringUpTo(labels, scores, 1, x) as real / ClassSize(labels, 1) as real - ScoringUpTo(labels, scores, 0, x) as real / ClassSize(labels, 0) as real)
  }

  /** For a classifier: no score threshold separates the classes better than the statistic says, and one does as well. */
  lemma {:induction false} ClassifierKsIsBestSeparation(labels: seq<int>, scores: seq<real>)
    requires |labels| == |scores|
    ensures ClassSize(labels, 1) == 0 || ClassSize(labels, 0) == 0 ==> ClassifierKs(labels, scores) == 0.0
    ensures ClassSize(labels, 1) > 0 && ClassSize(labels, 0) > 0 ==>
      && (forall x: real :: Separation(labels, scores, x) <= ClassifierKs(labels, scores))
      && (exists x: real :: Separation(labels, scores, x) == ClassifierKs(labels, scores))
  {
    hide ScoresOf, Ks, Numbers, AtMost, ClassSize, ScoringUpTo;
    var pos, neg := ScoresOf(labels, scores, 1), ScoresOf(labels, scores, 0);
    ScoresCount(labels, scores, 1, 0.0);
    ScoresCount(labels, scores, 0, 0.0);
    KsZero(pos, neg);
    if ClassSize(labels, 1) > 0 && ClassSize(labels, 0) > 0 {
      KsIsDistance(pos, neg);
      forall x: real ensures Separation(labels, scores, x) == Abs(Cdf(pos, x) - Cdf(neg, x)) {
        ScoresCount(labels, scores, 1, x);
        ScoresCount(labels, scores, 0, x);
      }
      var x: real :| Abs(Cdf(pos, x) - Cdf(neg, x)) == Ks(pos, neg);
      assert Separation(labels, scores, x) == ClassifierKs(labels, scores);
    }
  }
}
