/** A stable sort by a caller-given order, the model of SQLite's `ORDER BY`
    and pandas' `sort_values` over several keys: elements the order ranks
    equal keep their input order. */
module Sorting {

  /** `le` is total and transitive, as every order a query sorts by is. */
  ghost predicate TotalPreorder<T(!new)>(le: (T, T) -> bool) {
    (forall a, b :: le(a, b) || le(b, a))
    && (forall a, b, c :: le(a, b) && le(b, c) ==> le(a, c))
  }

  /** Every element comes no later, under `le`, than every element after it. */
  predicate SortedBy<T>(s: seq<T>, le: (T, T) -> bool) {
    forall i, j :: 0 <= i < j < |s| ==> le(s[i], s[j])
  }

  /** Puts `x` before the first element it ranks no later than. */
  function Insert<T>(x: T, s: seq<T>, le: (T, T) -> bool): (r: seq<T>)
    ensures multiset(r) == multiset(s) + multiset{x}
    ensures |r| == |s| + 1
  {
    if s == [] then [x]
    else if le(x, s[0]) then [x] + s
    else
      assert s == [s[0]] + s[1..];
      [s[0]] + Insert(x, s[1..], le)
  }

  /** Insertion sort; earlier elements are inserted last, so ties keep
      their input order. */
  function Sort<T>(s: seq<T>, le: (T, T) -> bool): (r: seq<T>)
    ensures multiset(r) == multiset(s)
    ensures |r| == |s|
  {
    if s == [] then []
    else
      assert s == [s[0]] + s[1..];
      Insert(s[0], Sort(s[1..], le), le)
  }

  lemma {:induction false} InsertSorted<T(!new)>(x: T, s: seq<T>, le: (T, T) -> bool)
    requires TotalPreorder(le) && SortedBy(s, le)
    ensures SortedBy(Insert(x, s, le), le)
    decreases |s|
  {
    if s != [] && !le(x, s[0]) {
      InsertSorted(x, s[1..], le);
      var r := Insert(x, s, le);
      var t := Insert(x, s[1..], le);
      assert multiset(t) == multiset(s[1..]) + multiset{x};
      forall j | 1 <= j < |r| ensures le(s[0], r[j]) {
        assert r[j] == t[j - 1];
        assert r[j] in multiset(t);
        if r[j] != x {
          assert r[j] in multiset(s[1..]);
          var k :| 0 <= k < |s[1..]| && s[1..][k] == r[j];
          assert s[1..][k] == s[k + 1];
        }
      }
    }
  }

  /** The sort puts its input in order. */
  lemma {:induction false} SortSorted<T(!new)>(s: seq<T>, le: (T, T) -> bool)
    requires TotalPreorder(le)
    ensures SortedBy(Sort(s, le), le)
    decreases |s|
  {
    if s != [] {
      SortSorted(s[1..], le);
      InsertSorted(s[0], Sort(s[1..], le), le);
    }
  }

  /** A subsequence of a sorted sequence, such as a filtered one, is sorted. */
  lemma SortedFilter<T>(s: seq<T>, le: (T, T) -> bool, p: T -> bool)
    requires SortedBy(s, le)
    ensures SortedBy(Filter(s, p), le)
  {
    FilterOrigins(s, p);
  }

  /** The elements of `s` that satisfy `p`, in order. */
  function Filter<T>(s: seq<T>, p: T -> bool): (r: seq<T>)
    ensures |r| <= |s|
    ensures forall k :: 0 <= k < |r| ==> p(r[k])
    decreases |s|
  {
    if s == [] then []
    else if p(s[|s| - 1]) then Filter(s[..|s| - 1], p) + [s[|s| - 1]]
    else Filter(s[..|s| - 1], p)
  }

  /** `Filter` keeps exactly the elements satisfying `p`, each as many times
      as it occurs, and in their order. */
  lemma {:induction false} FilterOrigins<T>(s: seq<T>, p: T -> bool)
    ensures var r := Filter(s, p);
      exists o: seq<int> :: |o| == |r|
        && (forall k :: 0 <= k < |o| ==> 0 <= o[k] < |s| && r[k] == s[o[k]])
        && (forall k, l :: 0 <= k < l < |o| ==> o[k] < o[l])
    decreases |s|
  {
    if s != [] {
      var n := |s| - 1;
      FilterOrigins(s[..n], p);
      var r0 := Filter(s[..n], p);
      var o0: seq<int> :| |o0| == |r0|
        && (forall k :: 0 <= k < |o0| ==> 0 <= o0[k] < |s[..n]| && r0[k] == s[..n][o0[k]])
        && (forall k, l :: 0 <= k < l < |o0| ==> o0[k] < o0[l]);
      if p(s[n]) {
        var o := o0 + [n];
        assert forall k :: 0 <= k < |o| ==> 0 <= o[k] < |s| && Filter(s, p)[k] == s[o[k]];
      } else {
        assert forall k :: 0 <= k < |o0| ==> 0 <= o0[k] < |s| && Filter(s, p)[k] == s[o0[k]];
      }
    }
  }

  /** `Filter` keeps every element that passes as many times as it occurs
      and drops every other one. */
  lemma {:induction false} FilterMultiset<T>(s: seq<T>, p: T -> bool)
    ensures forall x :: multiset(Filter(s, p))[x] == if p(x) then multiset(s)[x] else 0
    ensures multiset(Filter(s, p)) <= multiset(s)
    decreases |s|
  {
    if s != [] {
      var n := |s| - 1;
      FilterMultiset(s[..n], p);
      assert s == s[..n] + [s[n]];
    }
  }

  /** Filtering a sequence with one more element in front. */
  lemma {:induction false} FilterCons<T>(a: T, s: seq<T>, p: T -> bool)
    ensures Filter([a] + s, p) == Keep(a, p) + Filter(s, p)
    decreases |s|
  {
    if s != [] {
      var n := |s| - 1;
      FilterCons(a, s[..n], p);
      assert ([a] + s)[..|s|] == [a] + s[..n];
    } else {
      assert [a] + s == [a];
    }
  }

  /** The elements `le` ranks equal to `k`. */
  function Ties<T>(le: (T, T) -> bool, k: T): T -> bool {
    x => le(x, k) && le(k, x)
  }

  /** The part of `[x]` that passes `p`. */
  function Keep<T>(x: T, p: T -> bool): (r: seq<T>)
    ensures r == if p(x) then [x] else []
  {
    if p(x) then [x] else []
  }

  /** Inserting `x` puts it before every element ranked equal to it, and
      leaves the order of the others as it was. */
  lemma {:induction false} InsertTies<T(!new)>(x: T, t: seq<T>, le: (T, T) -> bool, k: T)
    requires TotalPreorder(le)
    ensures Filter(Insert(x, t, le), Ties(le, k)) == Keep(x, Ties(le, k)) + Filter(t, Ties(le, k))
    decreases |t|
  {
    var q := Ties(le, k);
    if t == [] {
      FilterCons(x, [], q);
    } else if le(x, t[0]) {
      FilterCons(x, t, q);
    } else {
      var u := Insert(x, t[1..], le);
      assert Insert(x, t, le) == [t[0]] + u;
      InsertTies(x, t[1..], le, k);
      FilterCons(t[0], u, q);
      FilterCons(t[0], t[1..], q);
      assert t == [t[0]] + t[1..];
      var head, mid, rest := Keep(t[0], q), Keep(x, q), Filter(t[1..], q);
      assert head == [] || mid == [];
      SwapEmpty(head, mid, rest);
    }
  }

  /** Two parts one of which is empty may trade places. */
  lemma SwapEmpty<T>(a: seq<T>, b: seq<T>, c: seq<T>)
    requires a == [] || b == []
    ensures a + (b + c) == b + (a + c)
  {
  }

  /** The sort is stable: the elements ranked equal to any `k` come out in
      the order they went in. */
  lemma {:induction false} SortStable<T(!new)>(s: seq<T>, le: (T, T) -> bool, k: T)
    requires TotalPreorder(le)
    ensures Filter(Sort(s, le), Ties(le, k)) == Filter(s, Ties(le, k))
    decreases |s|
  {
    if s != [] {
      var q, rest := Ties(le, k), Sort(s[1..], le);
      assert Sort(s, le) == Insert(s[0], rest, le);
      SortStable(s[1..], le, k);
      InsertTies(s[0], rest, le, k);
      FilterFirst(s, q);
    }
  }

  /** Filtering a non-empty sequence: its first element, then the rest. */
  lemma FilterFirst<T>(s: seq<T>, p: T -> bool)
    requires s != []
    ensures Filter(s, p) == Keep(s[0], p) + Filter(s[1..], p)
  {
    assert s == [s[0]] + s[1..];
    FilterCons(s[0], s[1..], p);
  }
}
