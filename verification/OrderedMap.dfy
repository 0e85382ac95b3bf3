/** A JavaScript Map: keys are unique, and iteration follows first insertion. */
module OrderedMap {
  import opened Options

  datatype Entry<K, V> = Entry(key: K, val: V)

  type OMap<K, V> = seq<Entry<K, V>>

  function Get<K(==), V>(m: OMap<K, V>, k: K): (r: Option<V>)
    ensures r.None? <==> forall i :: 0 <= i < |m| ==> m[i].key != k
  {
    if m == [] then None else if m[0].key == k then Some(m[0].val) else Get(m[1..], k)
  }

  /** Overwrites in place, or appends. */
  function Set<K(==), V>(m: OMap<K, V>, k: K, v: V): (r: OMap<K, V>) {
    if m == [] then [Entry(k, v)]
    else if m[0].key == k then [Entry(k, v)] + m[1..]
    else [m[0]] + Set(m[1..], k, v)
  }

  function Delete<K(==), V>(m: OMap<K, V>, k: K): (r: OMap<K, V>) {
    if m == [] then []
    else if m[0].key == k then m[1..]
    else [m[0]] + Delete(m[1..], k)
  }

  function Values<K, V>(m: OMap<K, V>): (r: seq<V>)
    ensures |r| == |m| && forall i :: 0 <= i < |m| ==> r[i] == m[i].val
  {
    seq(|m|, i requires 0 <= i < |m| => m[i].val)
  }

  ghost predicate UniqueKeys<K, V>(m: OMap<K, V>) {
    forall i, j :: 0 <= i < j < |m| ==> m[i].key != m[j].key
  }

  lemma {:induction false} SetGet<K, V>(m: OMap<K, V>, k: K, v: V, j: K)
    ensures Get(Set(m, k, v), j) == if j == k then Some(v) else Get(m, j)
  {
    if m != [] && m[0].key != k {
      SetGet(m[1..], k, v, j);
      assert Set(m, k, v)[1..] == Set(m[1..], k, v);
    } else if m != [] {
      assert Set(m, k, v)[1..] == m[1..];
    } else {
      assert Set(m, k, v)[1..] == m;
    }
  }

  lemma {:induction false} DeleteGet<K, V>(m: OMap<K, V>, k: K, j: K)
    requires UniqueKeys(m)
    ensures Get(Delete(m, k), j) == if j == k then None else Get(m, j)
  {
    if m != [] && m[0].key != k {
      DeleteGet(m[1..], k, j);
      assert Delete(m, k)[1..] == Delete(m[1..], k);
    } else if m != [] && j == k {
      assert forall i :: 0 <= i < |m[1..]| ==> m[1..][i] == m[i + 1];
    }
  }

  /** Keys stay unique, and at most `k` is new. */
  lemma {:induction false} SetKeys<K, V>(m: OMap<K, V>, k: K, v: V)
    requires UniqueKeys(m)
    ensures UniqueKeys(Set(m, k, v))
    ensures forall e :: e in Set(m, k, v) ==> e in m || e == Entry(k, v)
  {
    if m != [] && m[0].key != k {
      var tail := Set(m[1..], k, v);
      SetKeys(m[1..], k, v);
      forall i | 0 <= i < |tail| ensures tail[i].key != m[0].key { assert tail[i] in tail; }
    }
  }

  lemma {:induction false} DeleteKeys<K, V>(m: OMap<K, V>, k: K)
    requires UniqueKeys(m)
    ensures UniqueKeys(Delete(m, k))
    ensures forall e :: e in Delete(m, k) ==> e in m
  {
    if m != [] && m[0].key != k {
      var tail := Delete(m[1..], k);
      DeleteKeys(m[1..], k);
      forall i | 0 <= i < |tail| ensures tail[i].key != m[0].key { assert tail[i] in tail; }
    }
  }

  lemma {:induction false} GetIn<K, V>(m: OMap<K, V>, k: K)
    requires Get(m, k).Some?
    ensures Entry(k, Get(m, k).value) in m
  {
    if m[0].key != k { GetIn(m[1..], k); } else { assert m[0] == Entry(k, m[0].val); }
  }

  lemma {:induction false} InGet<K, V>(m: OMap<K, V>, i: nat)
    requires UniqueKeys(m) && i < |m|
    ensures Get(m, m[i].key) == Some(m[i].val)
  {
    if i > 0 { InGet(m[1..], i - 1); }
  }

  lemma {:induction false} SetNew<K, V>(m: OMap<K, V>, k: K, v: V)
    requires Get(m, k).None?
    ensures Set(m, k, v) == m + [Entry(k, v)]
  {
    if m != [] { SetNew(m[1..], k, v); }
  }

  /** Overwriting a present key changes that one entry, where it is. */
  lemma {:induction false} SetOld<K, V>(m: OMap<K, V>, k: K, v: V)
    requires Get(m, k).Some?
    ensures exists i :: 0 <= i < |m| && m[i] == Entry(k, Get(m, k).value) && Set(m, k, v) == m[i := Entry(k, v)]
  {
    if m[0].key == k {
      assert m[0] == Entry(k, Get(m, k).value) && Set(m, k, v) == m[0 := Entry(k, v)];
    } else {
      SetOld(m[1..], k, v);
      var i :| 0 <= i < |m[1..]| && m[1..][i] == Entry(k, Get(m[1..], k).value) && Set(m[1..], k, v) == m[1..][i := Entry(k, v)];
      assert m[i + 1] == Entry(k, Get(m, k).value) && Set(m, k, v) == m[i + 1 := Entry(k, v)];
    }
  }

  /** Deleting a present key takes out its first entry. */
  lemma {:induction false} DeleteOld<K, V>(m: OMap<K, V>, k: K)
    requires Get(m, k).Some?
    ensures exists i :: 0 <= i < |m| && m[i] == Entry(k, Get(m, k).value) && Delete(m, k) == m[..i] + m[i + 1..]
  {
    if m[0].key == k {
      assert m[0] == Entry(k, Get(m, k).value) && Delete(m, k) == m[..0] + m[1..];
    } else {
      DeleteOld(m[1..], k);
      var i :| 0 <= i < |m[1..]| && m[1..][i] == Entry(k, Get(m[1..], k).value) && Delete(m[1..], k) == m[1..][..i] + m[1..][i + 1..];
      assert m[i + 1] == Entry(k, Get(m, k).value);
      DropLater(m, i);
    }
  }

  lemma {:induction false} DropLater<T>(s: seq<T>, i: nat)
    requires i + 1 < |s|
    ensures [s[0]] + (s[1..][..i] + s[1..][i + 1..]) == s[..i + 1] + s[i + 1 + 1..]
  {
  }

  // ---- Sums over the values ----

  function Total<K, V>(w: V -> int, m: OMap<K, V>): int {
    if m == [] then 0 else w(m[0].val) + Total(w, m[1..])
  }

  lemma {:induction false} TotalSet<K, V>(w: V -> int, m: OMap<K, V>, k: K, v: V)
    ensures Total(w, Set(m, k, v)) == Total(w, m) + w(v) - (if Get(m, k).Some? then w(Get(m, k).value) else 0)
  {
    if m != [] && m[0].key != k {
      TotalSet(w, m[1..], k, v);
      assert Set(m, k, v)[1..] == Set(m[1..], k, v);
    } else if m != [] {
      assert Set(m, k, v)[1..] == m[1..];
    }
  }

  lemma {:induction false} TotalDelete<K, V>(w: V -> int, m: OMap<K, V>, k: K)
    ensures Total(w, Delete(m, k)) == Total(w, m) - (if Get(m, k).Some? then w(Get(m, k).value) else 0)
  {
    if m != [] && m[0].key != k {
      TotalDelete(w, m[1..], k);
      assert Delete(m, k)[1..] == Delete(m[1..], k);
    }
  }
}
