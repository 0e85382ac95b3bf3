/** Stable sorting as the host languages' library sorts do it, with the order passed as a function. */
module Sorting {

  /** A reflexive, transitive and total order: elements may tie. */
  ghost predicate TotalPreorder<T(!new)>(le: (T, T) -> bool) {
    && (forall x, y :: le(x, y) || le(y, x))
    && (forall x, y, z :: le(x, y) && le(y, z) ==> le(x, z))
  }

  /** A total preorder in which only equal elements tie. */
  ghost predicate TotalOrder<T(!new)>(le: (T, T) -> bool) {
    && TotalPreorder(le)
    && (forall x, y :: le(x, y) && le(y, x) ==> x == y)
  }

  ghost predicate SortedBy<T>(le: (T, T) -> bool, s: seq<T>) {
    forall i, j :: 0 <= i < j < |s| ==> le(s[i], s[j])
  }

  function Insert<T>(le: (T, T) -> bool, x: T, s: seq<T>): seq<T> {
    if s == [] || le(x, s[0]) then [x] + s else [s[0]] + Insert(le, x, s[1..])
  }

  /** Stable sort: an element stays ahead of the later elements it ties with. */
  function Sort<T>(le: (T, T) -> bool, s: seq<T>): seq<T> {
    if s == [] then [] else Insert(le, s[0], Sort(le, s[1..]))
  }

  lemma {:induction false} InsertPermutes<T>(le: (T, T) -> bool, x: T, s: seq<T>)
    ensures multiset(Insert(le, x, s)) == multiset(s) + multiset{x}
  {
    if s == [] || le(x, s[0]) {
    } else {
      InsertPermutes(le, x, s[1..]);
      assert s == [s[0]] + s[1..];
    }
  }

  lemma {:induction false} SortPermutes<T>(le: (T, T) -> bool, s: seq<T>)
    ensures multiset(Sort(le, s)) == multiset(s)
    ensures |Sort(le, s)| == |s|
  {
    if s == [] {
    } else {
      SortPermutes(le, s[1..]);
      InsertPermutes(le, s[0], Sort(le, s[1..]));
      assert s == [s[0]] + s[1..];
    }
    assert |multiset(Sort(le, s))| == |Sort(le, s)| && |multiset(s)| == |s|;
  }

  lemma {:induction false} InSort<T>(le: (T, T) -> bool, s: seq<T>)
    ensures forall x :: x in Sort(le, s) <==> x in s
  {
    SortPermutes(le, s);
    forall x ensures x in Sort(le, s) <==> x in s {
      assert x in Sort(le, s) <==> x in multiset(Sort(le, s));
      assert x in s <==> x in multiset(s);
    }
  }

  lemma {:induction false} InsertSorted<T(!new)>(le: (T, T) -> bool, x: T, s: seq<T>)
    requires TotalPreorder(le) && SortedBy(le, s)
    ensures SortedBy(le, Insert(le, x, s))
  {
    if s == [] || le(x, s[0]) {
    } else {
      var tail := Insert(le, x, s[1..]);
      InsertSorted(le, x, s[1..]);
      InsertPermutes(le, x, s[1..]);
      forall j | 0 <= j < |tail| ensures le(s[0], tail[j]) {
        assert tail[j] in multiset(tail);
        if tail[j] != x {
          assert tail[j] in s[1..];
        }
      }
    }
  }

  lemma {:induction false} SortSorts<T(!new)>(le: (T, T) -> bool, s: seq<T>)
    requires TotalPreorder(le)
    ensures SortedBy(le, Sort(le, s))
  {
    if s == [] {
    } else {
      SortSorts(le, s[1..]);
      InsertSorted(le, s[0], Sort(le, s[1..]));
    }
  }

  /** Sorting leaves a sorted sequence as it is. */
  lemma {:induction false} SortOfSorted<T>(le: (T, T) -> bool, s: seq<T>)
    requires SortedBy(le, s)
    ensures Sort(le, s) == s
  {
    if s == [] {
    } else {
      SortOfSorted(le, s[1..]);
      if |s| > 1 { assert le(s[0], s[1]); }
    }
  }

  lemma {:induction false} FirstIsLeast<T(!new)>(le: (T, T) -> bool, s: seq<T>, x: T)
    requires TotalPreorder(le) && SortedBy(le, s) && x in multiset(s)
    ensures s != [] && le(s[0], x)
  {
    assert x in s;
    assert le(x, x);
  }

  /** Elements of `s` that tie are equal. */
  ghost predicate NoTies<T>(le: (T, T) -> bool, s: seq<T>) {
    forall x, y :: x in s && y in s && le(x, y) && le(y, x) ==> x == y
  }

  lemma {:induction false} FirstsAgree<T(!new)>(le: (T, T) -> bool, a: seq<T>, b: seq<T>)
    requires TotalPreorder(le) && SortedBy(le, a) && SortedBy(le, b) && multiset(a) == multiset(b) && NoTies(le, a)
    requires a != [] && b != []
    ensures a[0] == b[0]
  {
    hide TotalPreorder, SortedBy;
    assert a[0] in multiset(a) && b[0] in multiset(b);
    assert b[0] in multiset(a) && a[0] in a && b[0] in a;
    FirstIsLeast(le, a, b[0]);
    FirstIsLeast(le, b, a[0]);
  }

  lemma {:induction false} MultisetTail<T>(s: seq<T>)
    requires s != []
    ensures multiset(s[1..]) == multiset(s) - multiset{s[0]}
  {
    assert s == [s[0]] + s[1..];
  }

  lemma {:induction false} SortedTail<T>(le: (T, T) -> bool, s: seq<T>)
    requires SortedBy(le, s) && s != []
    ensures SortedBy(le, s[1..])
  {
  }

  lemma {:induction false} NoTiesTail<T>(le: (T, T) -> bool, s: seq<T>)
    requires NoTies(le, s) && s != []
    ensures NoTies(le, s[1..])
  {
    assert forall x :: x in s[1..] ==> x in s;
  }

  /** Without ties the sorted arrangement of given elements is unique. */
  lemma {:induction false} SortedUnique<T(!new)>(le: (T, T) -> bool, a: seq<T>, b: seq<T>)
    requires TotalPreorder(le) && SortedBy(le, a) && SortedBy(le, b) && multiset(a) == multiset(b) && NoTies(le, a)
    ensures a == b
  {
    hide TotalPreorder, SortedBy, NoTies;
    assert |a| == |multiset(a)| == |b|;
    if a != [] {
      FirstsAgree(le, a, b);
      MultisetTail(a);
      MultisetTail(b);
      assert a == [a[0]] + a[1..] && b == [b[0]] + b[1..];
      SortedTail(le, a);
      SortedTail(le, b);
      NoTiesTail(le, a);
      SortedUnique(le, a[1..], b[1..]);
    }
  }

  /** Sorting elements without ties forgets the order they came in. */
  lemma {:induction false} SortForgetsOrder<T(!new)>(le: (T, T) -> bool, a: seq<T>, b: seq<T>)
    requires TotalPreorder(le) && multiset(a) == multiset(b) && NoTies(le, a)
    ensures Sort(le, a) == Sort(le, b)
  {
    SortSorts(le, a);
    SortSorts(le, b);
    SortPermutes(le, a);
    SortPermutes(le, b);
    InSort(le, a);
    SortedUnique(le, Sort(le, a), Sort(le, b));
  }

  // ---- Stability, and what it leaves open: nothing ----

  /** The elements of `s` that tie with `x`, in order. */
  function TiedWith<T>(le: (T, T) -> bool, x: T, s: seq<T>): seq<T> {
    if s == [] then [] else
      var rest := TiedWith(le, x, s[1..]);
      if le(x, s[0]) && le(s[0], x) then [s[0]] + rest else rest
  }

  /** `r` holds the elements of `s` in order, and those that tie as they came. */
  ghost predicate Arranges<T(!new)>(le: (T, T) -> bool, r: seq<T>, s: seq<T>) {
    SortedBy(le, r) && forall x :: TiedWith(le, x, r) == TiedWith(le, x, s)
  }

  lemma {:induction false} TiedInsert<T(!new)>(le: (T, T) -> bool, x: T, s: seq<T>, y: T)
    requires TotalPreorder(le)
    ensures TiedWith(le, y, Insert(le, x, s)) == TiedWith(le, y, [x] + s)
  {
    var plain := [x] + s;
    assert plain[1..] == s;
    if s == [] || le(x, s[0]) {
    } else {
      var r := Insert(le, x, s);
      assert r[1..] == Insert(le, x, s[1..]) && ([x] + s[1..])[1..] == s[1..];
      TiedInsert(le, x, s[1..], y);
    }
  }

  lemma {:induction false} TiedSort<T(!new)>(le: (T, T) -> bool, s: seq<T>, y: T)
    requires TotalPreorder(le)
    ensures TiedWith(le, y, Sort(le, s)) == TiedWith(le, y, s)
  {
    hide TotalPreorder, Insert;
    if s != [] {
      TiedSort(le, s[1..], y);
      TiedInsert(le, s[0], Sort(le, s[1..]), y);
      var plain := [s[0]] + Sort(le, s[1..]);
      assert plain[1..] == Sort(le, s[1..]);
    }
  }

  lemma {:induction false} TiedIn<T(!new)>(le: (T, T) -> bool, x: T, s: seq<T>)
    ensures forall y :: y in TiedWith(le, x, s) <==> y in s && le(x, y) && le(y, x)
  {
    if s != [] { TiedIn(le, x, s[1..]); }
  }

  lemma {:induction false} SortArranges<T(!new)>(le: (T, T) -> bool, s: seq<T>)
    requires TotalPreorder(le)
    ensures Arranges(le, Sort(le, s), s)
  {
    hide Sort, TiedWith;
    SortSorts(le, s);
    forall x ensures TiedWith(le, x, Sort(le, s)) == TiedWith(le, x, s) { TiedSort(le, s, x); }
  }

  /** The first element of a sorted list comes first among those it ties with, and nothing comes before it. */
  lemma {:induction false} HeadsAgree<T(!new)>(le: (T, T) -> bool, a: seq<T>, b: seq<T>)
    requires TotalPreorder(le) && SortedBy(le, a) && SortedBy(le, b) && a != []
    requires forall x :: TiedWith(le, x, a) == TiedWith(le, x, b)
    ensures b != [] && a[0] == b[0]
  {
    assert le(a[0], a[0]);
    assert TiedWith(le, a[0], a)[0] == a[0];
    TiedIn(le, a[0], b);
    assert TiedWith(le, a[0], b)[0] in TiedWith(le, a[0], b);
    assert a[0] in b;
    assert le(b[0], b[0]);
    assert TiedWith(le, b[0], b)[0] == b[0];
    TiedIn(le, b[0], a);
    assert TiedWith(le, b[0], a)[0] in TiedWith(le, b[0], a);
    assert b[0] in a;
    assert le(a[0], b[0]) && le(b[0], a[0]);
    assert TiedWith(le, a[0], b)[0] == b[0];
  }

  lemma {:induction false} TiedTail<T>(le: (T, T) -> bool, x: T, s: seq<T>)
    requires s != []
    ensures TiedWith(le, x, s[1..]) == if le(x, s[0]) && le(s[0], x) then TiedWith(le, x, s)[1..] else TiedWith(le, x, s)
  {
  }

  /** Order and stability together determine the arrangement. */
  lemma {:induction false} ArrangesUnique<T(!new)>(le: (T, T) -> bool, a: seq<T>, b: seq<T>)
    requires TotalPreorder(le) && SortedBy(le, a) && SortedBy(le, b)
    requires forall x :: TiedWith(le, x, a) == TiedWith(le, x, b)
    ensures a == b
  {
    hide TotalPreorder, TiedWith, SortedBy;
    if a == [] {
      if b != [] { HeadsAgree(le, b, a); }
    } else {
      HeadsAgree(le, a, b);
      SortedTail(le, a);
      SortedTail(le, b);
      forall x ensures TiedWith(le, x, a[1..]) == TiedWith(le, x, b[1..]) {
        TiedTail(le, x, a);
        TiedTail(le, x, b);
      }
      ArrangesUnique(le, a[1..], b[1..]);
      assert a == [a[0]] + a[1..] && b == [b[0]] + b[1..];
    }
  }

  /** An arrangement is what sorting gives. */
  lemma {:induction false} ArrangedIsSorted<T(!new)>(le: (T, T) -> bool, r: seq<T>, s: seq<T>)
    requires TotalPreorder(le) && Arranges(le, r, s)
    ensures r == Sort(le, s)
  {
    hide TotalPreorder, TiedWith, Sort, SortedBy;
    SortArranges(le, s);
    forall x ensures TiedWith(le, x, r) == TiedWith(le, x, Sort(le, s)) { }
    ArrangesUnique(le, r, Sort(le, s));
  }

  function Capped<T>(s: seq<T>, cap: nat): seq<T> {
    if |s| <= cap then s else s[..cap]
  }

  /** `top` holds the `cap` first elements of `all` in order; whatever is left out comes after whatever is in. */
  ghost predicate IsBest<T(!new)>(le: (T, T) -> bool, top: seq<T>, all: seq<T>, cap: nat) {
    && SortedBy(le, top)
    && |top| == (if |all| < cap then |all| else cap)
    && exists rest :: multiset(top + rest) == multiset(all) && forall x, y :: x in top && y in rest ==> le(x, y)
  }

  lemma {:induction false} PrefixIsBest<T(!new)>(le: (T, T) -> bool, sorted: seq<T>, all: seq<T>, cap: nat)
    requires SortedBy(le, sorted) && multiset(sorted) == multiset(all) && |sorted| == |all|
    ensures IsBest(le, Capped(sorted, cap), all, cap)
  {
    var top := Capped(sorted, cap);
    var rest := sorted[|top|..];
    assert sorted == top + rest;
    forall x, y | x in top && y in rest ensures le(x, y) {
      var i :| 0 <= i < |top| && top[i] == x;
      var j :| 0 <= j < |rest| && rest[j] == y;
      assert sorted[i] == x && sorted[|top| + j] == y;
    }
  }

  lemma {:induction false} SortedPrefixIsBest<T(!new)>(le: (T, T) -> bool, all: seq<T>, cap: nat)
    requires TotalPreorder(le)
    ensures IsBest(le, Capped(Sort(le, all), cap), all, cap)
  {
    hide TotalPreorder, IsBest, SortedBy;
    SortSorts(le, all);
    SortPermutes(le, all);
    PrefixIsBest(le, Sort(le, all), all, cap);
  }

  // ---- Strings, compared code unit by code unit ----

  predicate StringLe(a: string, b: string) {
    a == "" || (b != "" && (a[0] < b[0] || (a[0] == b[0] && StringLe(a[1..], b[1..]))))
  }

  lemma {:induction false} StringLeAntisymmetric(a: string, b: string)
    requires StringLe(a, b) && StringLe(b, a)
    ensures a == b
  {
    if a == "" || b == "" {
    } else {
      StringLeAntisymmetric(a[1..], b[1..]);
      assert a == [a[0]] + a[1..] && b == [b[0]] + b[1..];
    }
  }

  lemma {:induction false} StringLeTotal(a: string, b: string)
    ensures StringLe(a, b) || StringLe(b, a)
  {
    if a == "" || b == "" {
    } else {
      StringLeTotal(a[1..], b[1..]);
    }
  }

  lemma {:induction false} StringLeTransitive(a: string, b: string, c: string)
    requires StringLe(a, b) && StringLe(b, c)
    ensures StringLe(a, c)
  {
    if a == "" || b == "" || c == "" {
    } else if a[0] == b[0] == c[0] {
      StringLeTransitive(a[1..], b[1..], c[1..]);
    } else {
    }
  }

  lemma {:induction false} StringLeTotalOrder()
    ensures TotalOrder(StringLe)
  {
    forall x, y ensures StringLe(x, y) || StringLe(y, x) { StringLeTotal(x, y); }
    forall x, y, z | StringLe(x, y) && StringLe(y, z) ensures StringLe(x, z) { StringLeTransitive(x, y, z); }
    forall x, y | StringLe(x, y) && StringLe(y, x) ensures x == y { StringLeAntisymmetric(x, y); }
  }

  /** The dictionary order: a prefix comes first, otherwise the first code unit that differs decides. */
  lemma {:induction false} StringLeExactly(a: string, b: string)
    ensures StringLe(a, b) <==> a <= b || exists i :: 0 <= i < |a| && i < |b| && a[..i] == b[..i] && a[i] < b[i]
  {
    if a != "" && b != "" && a[0] == b[0] {
      StringLeExactly(a[1..], b[1..]);
      assert a == [a[0]] + a[1..] && b == [a[0]] + b[1..];
      if StringLe(a, b) && !(a[1..] <= b[1..]) {
        var i :| 0 <= i < |a[1..]| && i < |b[1..]| && a[1..][..i] == b[1..][..i] && a[1..][i] < b[1..][i];
        assert a[..i + 1] == [a[0]] + a[1..][..i] == b[..i + 1];
      }
      if i :| 0 <= i < |a| && i < |b| && a[..i] == b[..i] && a[i] < b[i] {
        assert a[1..][..i - 1] == a[..i][1..] == b[..i][1..] == b[1..][..i - 1];
        assert a[1..][i - 1] < b[1..][i - 1];
      }
    } else if a != "" && b != "" {
      if a[0] < b[0] { assert a[..0] == b[..0]; }
      assert forall i :: 0 < i < |a| && i < |b| && a[..i] == b[..i] ==> a[..i][0] == b[..i][0];
    }
  }

  // ---- The elements of a set of strings, in increasing order ----

  ghost predicate LeastOf<T>(le: (T, T) -> bool, s: set<T>, x: T) {
    x in s && forall y | y in s :: le(x, y)
  }

  lemma {:induction false} LeastOfMore<T(!new)>(le: (T, T) -> bool, s: set<T>, a: T, b: T) returns (x: T)
    requires TotalOrder(le) && a in s && LeastOf(le, s - {a}, b)
    ensures LeastOf(le, s, x)
  {
    x := if le(a, b) then a else b;
    forall y | y in s ensures le(x, y) {
      if y == a {
        assert le(a, a) && (le(a, b) || le(b, a));
      } else {
        assert y in s - {a};
        assert le(b, y);
      }
    }
  }

  lemma {:induction false} LeastExists<T(!new)>(le: (T, T) -> bool, s: set<T>)
    requires TotalOrder(le) && s != {}
    ensures exists x :: LeastOf(le, s, x)
  {
    var a :| a in s;
    if s == {a} {
      assert le(a, a);
      assert LeastOf(le, s, a);
    } else {
      assert s - {a} != {};
      LeastExists(le, s - {a});
      var b :| LeastOf(le, s - {a}, b);
      var x := LeastOfMore(le, s, a, b);
    }
  }

  function SortedStrings(s: set<string>): (r: seq<string>)
    ensures forall x :: x in r <==> x in s
    ensures |r| == |s|
  {
    if s == {} then [] else
      StringLeTotalOrder();
      LeastExists(StringLe, s);
      assert exists x :: x in s && forall y | y in s :: StringLe(x, y) by {
        var x :| LeastOf(StringLe, s, x);
      }
      var x :| x in s && forall y | y in s :: StringLe(x, y);
      [x] + SortedStrings(s - {x})
  }

  predicate StringLt(a: string, b: string) {
    StringLe(a, b) && a != b
  }

  /** The first element is the least, and the others follow as sorted by themselves. */
  lemma {:induction false} SortedStringsStep(s: set<string>)
    requires s != {}
    ensures var r := SortedStrings(s);
      r[0] in s && (forall y | y in s :: StringLe(r[0], y)) && r[1..] == SortedStrings(s - {r[0]})
  {
    hide StringLe;
  }

  /** The elements come in strictly ascending order, so each comes once. */
  lemma {:induction false} SortedStringsAscend(s: set<string>)
    ensures SortedBy(StringLt, SortedStrings(s))
  {
    var r := SortedStrings(s);
    if s != {} {
      SortedStringsStep(s);
      hide StringLe, SortedStrings;
      var rest := r[1..];
      SortedStringsAscend(s - {r[0]});
      forall j | 0 <= j < |rest| ensures StringLt(r[0], rest[j]) { assert rest[j] in rest; }
      PrependSorted(r);
    }
  }

  /** Whatever lists the set's elements in strictly ascending order is that sequence. */
  lemma {:induction false} AscendingIsSorted(r: seq<string>, s: set<string>)
    requires SortedBy(StringLt, r) && forall x :: x in r <==> x in s
    ensures r == SortedStrings(s)
  {
    hide StringLe, SortedStrings;
    if r == [] {
      assert forall x :: x !in s;
    } else {
      var least := r[0];
      assert least in s;
      SortedStringsStep(s);
      FirstOfAscending(r, SortedStrings(s)[0]);
      SortedTail(StringLt, r);
      assert forall x :: x in r[1..] <==> x in s - {least} by {
        forall x ensures x in r[1..] <==> x in s - {least} {
          if x in r[1..] { var i :| 0 <= i < |r[1..]| && r[1..][i] == x; assert StringLt(r[0], r[i + 1]); }
          if x in s - {least} { assert x in r; var i :| 0 <= i < |r| && r[i] == x; assert r[1..][i - 1] == x; }
        }
      }
      AscendingIsSorted(r[1..], s - {least});
      assert r == [least] + r[1..] && SortedStrings(s) == [least] + SortedStrings(s)[1..];
    }
  }

  function Elements(r: seq<string>): set<string> {
    set x | x in r
  }

  lemma {:induction false} AscendingSize(r: seq<string>)
    requires SortedBy(StringLt, r)
    ensures |Elements(r)| == |r|
  {
    hide StringLe;
    if r != [] {
      SortedTail(StringLt, r);
      AscendingSize(r[1..]);
      assert Elements(r) == {r[0]} + Elements(r[1..]);
      assert forall i :: 1 <= i < |r| ==> StringLt(r[0], r[i]);
    }
  }

  /** As many of them as the set has will do. */
  lemma {:induction false} AscendingFills(r: seq<string>, s: set<string>)
    requires SortedBy(StringLt, r) && |r| == |s| && forall x :: x in r ==> x in s
    ensures r == SortedStrings(s)
  {
    hide SortedStrings, SortedBy;
    AscendingSize(r);
    var t := Elements(r);
    assert s * t == t;
    assert |s - t| == |s| - |t|;
    AscendingIsSorted(r, s);
  }

  lemma {:induction false} FirstOfAscending(r: seq<string>, least: string)
    requires SortedBy(StringLt, r) && least in r && StringLe(least, r[0])
    ensures r[0] == least
  {
    var i :| 0 <= i < |r| && r[i] == least;
    if i > 0 {
      assert StringLt(r[0], r[i]);
      StringLeAntisymmetric(r[0], least);
    }
  }

  lemma {:induction false} PrependSorted(r: seq<string>)
    requires r != [] && SortedBy(StringLt, r[1..]) && forall j :: 0 <= j < |r[1..]| ==> StringLt(r[0], r[1..][j])
    ensures SortedBy(StringLt, r)
  {
    hide StringLe;
    forall i, j | 0 <= i < j < |r| ensures StringLt(r[i], r[j]) {
      assert r[j] == r[1..][j - 1] && (i > 0 ==> r[i] == r[1..][i - 1]);
    }
  }
}
