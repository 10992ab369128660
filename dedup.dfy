/** Keep-the-first deduplication by a key, as both the store's `seen`-set
    loop and pandas' `drop_duplicates(keep="first")` perform it. Keys are
    compared with `==`, so a missing value equals another missing value. */
module Dedup {

  /** The keys of the elements of `s`. */
  function KeysOf<T, K>(s: seq<T>, key: T -> K): set<K> {
    set i | 0 <= i < |s| :: key(s[i])
  }

  /** `s[i]` is the first element of `s` with its key. */
  predicate IsFirstOccurrence<T, K(==)>(s: seq<T>, key: T -> K, i: int) {
    0 <= i < |s| && forall j :: 0 <= j < i ==> key(s[j]) != key(s[i])
  }

  /** The elements of `s` whose key has not been seen before them, in order. */
  function FirstSeen<T, K(==)>(s: seq<T>, key: T -> K): (r: seq<T>)
    ensures |r| <= |s|
    ensures s != [] ==> r != [] && r[0] == s[0]
    decreases |s|
  {
    if s == [] then []
    else
      var prefix := s[..|s| - 1];
      if key(s[|s| - 1]) in KeysOf(prefix, key) then FirstSeen(prefix, key)
      else FirstSeen(prefix, key) + [s[|s| - 1]]
  }

  /** Where each element of `FirstSeen(s, key)` sits in `s`. */
  ghost function Origins<T, K>(s: seq<T>, key: T -> K): (o: seq<int>)
    decreases |s|
  {
    if s == [] then []
    else
      var prefix := s[..|s| - 1];
      if key(s[|s| - 1]) in KeysOf(prefix, key) then Origins(prefix, key)
      else Origins(prefix, key) + [|s| - 1]
  }

  /** A first occurrence in a prefix is one in the whole sequence. */
  lemma FirstOccurrencePrefix<T, K>(s: seq<T>, key: T -> K, n: nat, i: int)
    requires n <= |s|
    ensures i < n ==> (IsFirstOccurrence(s[..n], key, i) <==> IsFirstOccurrence(s, key, i))
  {
  }

  /** The result of `FirstSeen` is exactly the first occurrences of `s`, in
      their order in `s`: an order-preserving subsequence that keeps the
      first element of every key and nothing else. */
  lemma {:induction false} FirstSeenOrigins<T, K>(s: seq<T>, key: T -> K)
    ensures var r, o := FirstSeen(s, key), Origins(s, key);
      |o| == |r|
      && (forall k :: 0 <= k < |o| ==> IsFirstOccurrence(s, key, o[k]) && r[k] == s[o[k]])
      && (forall k, l :: 0 <= k < l < |o| ==> o[k] < o[l])
      && (forall i :: IsFirstOccurrence(s, key, i) ==> i in o)
    decreases |s|
  {
    if s != [] {
      var n := |s| - 1;
      var prefix := s[..n];
      FirstSeenOrigins(prefix, key);
      var o := Origins(prefix, key);
      forall k | 0 <= k < |o| ensures IsFirstOccurrence(s, key, o[k]) {
        FirstOccurrencePrefix(s, key, n, o[k]);
      }
      forall i | IsFirstOccurrence(s, key, i) ensures i in Origins(s, key) {
        if i < n {
          FirstOccurrencePrefix(s, key, n, i);
        } else {
          assert forall j :: 0 <= j < n ==> key(prefix[j]) != key(s[n]);
        }
      }
      if key(s[n]) in KeysOf(prefix, key) {
        var j :| 0 <= j < n && key(prefix[j]) == key(s[n]);
        assert !IsFirstOccurrence(s, key, n);
      }
    }
  }

  /** No two elements of `s` share a key. */
  predicate DistinctBy<T, K(==)>(s: seq<T>, key: T -> K) {
    forall k, l :: 0 <= k < l < |s| ==> key(s[k]) != key(s[l])
  }

  /** No two elements of `FirstSeen(s, key)` share a key. */
  lemma {:induction false} FirstSeenDistinct<T, K>(s: seq<T>, key: T -> K)
    ensures DistinctBy(FirstSeen(s, key), key)
    decreases |s|
  {
    if s != [] {
      var prefix := s[..|s| - 1];
      FirstSeenDistinct(prefix, key);
      FirstSeenKeys(prefix, key);
    }
  }

  /** Every key of `s` is represented in `FirstSeen(s, key)`, and no other. */
  lemma {:induction false} FirstSeenKeys<T, K>(s: seq<T>, key: T -> K)
    ensures KeysOf(FirstSeen(s, key), key) == KeysOf(s, key)
    decreases |s|
  {
    if s != [] {
      var prefix := s[..|s| - 1];
      FirstSeenKeys(prefix, key);
      var r, rp := FirstSeen(s, key), FirstSeen(prefix, key);
      assert forall i :: 0 <= i < |prefix| ==> prefix[i] == s[i];
      if key(s[|s| - 1]) in KeysOf(prefix, key) {
        assert KeysOf(s, key) == KeysOf(prefix, key) + {key(s[|s| - 1])};
      } else {
        KeysOfAppend(rp, s[|s| - 1], key);
        assert KeysOf(s, key) == KeysOf(prefix, key) + {key(s[|s| - 1])};
      }
    }
  }

  lemma KeysOfAppend<T, K>(s: seq<T>, x: T, key: T -> K)
    ensures KeysOf(s + [x], key) == KeysOf(s, key) + {key(x)}
  {
    var t := s + [x];
    forall k | k in KeysOf(t, key) ensures k in KeysOf(s, key) + {key(x)} {
      var i :| 0 <= i < |t| && key(t[i]) == k;
      if i < |s| { assert t[i] == s[i]; }
    }
    forall k | k in KeysOf(s, key) + {key(x)} ensures k in KeysOf(t, key) {
      if k == key(x) {
        assert t[|s|] == x;
      } else {
        var i :| 0 <= i < |s| && key(s[i]) == k;
        assert t[i] == s[i];
      }
    }
  }

  /** Every element kept is an element of the input, as many times at most. */
  lemma {:induction false} FirstSeenSubMultiset<T, K>(s: seq<T>, key: T -> K)
    ensures multiset(FirstSeen(s, key)) <= multiset(s)
    decreases |s|
  {
    if s != [] {
      var prefix := s[..|s| - 1];
      FirstSeenSubMultiset(prefix, key);
      assert s == prefix + [s[|s| - 1]];
    }
  }

  /** Processing one more element, as the loop over a batch does. */
  lemma FirstSeenStep<T, K>(s: seq<T>, key: T -> K, i: nat)
    requires i < |s|
    ensures FirstSeen(s[..i + 1], key)
      == if key(s[i]) in KeysOf(s[..i], key) then FirstSeen(s[..i], key)
         else FirstSeen(s[..i], key) + [s[i]]
    ensures KeysOf(s[..i + 1], key) == KeysOf(s[..i], key) + {key(s[i])}
  {
    assert s[..i + 1][..i] == s[..i];
    var p := s[..i + 1];
    assert forall j :: 0 <= j < i ==> p[j] == s[..i][j];
  }

  /** With distinct keys, no element occurs twice. */
  lemma {:induction false} DistinctOnce<T, K>(s: seq<T>, key: T -> K, x: T)
    requires DistinctBy(s, key)
    ensures multiset(s)[x] <= 1
    decreases |s|
  {
    if s != [] {
      var n := |s| - 1;
      DistinctOnce(s[..n], key, x);
      assert s == s[..n] + [s[n]];
    }
  }

  /** Taking some of the elements of a sequence with distinct keys, in any
      order, keeps the keys distinct. */
  lemma DistinctSubMultiset<T, K>(s: seq<T>, r: seq<T>, key: T -> K)
    requires DistinctBy(s, key) && multiset(r) <= multiset(s)
    ensures DistinctBy(r, key)
  {
    forall k, l | 0 <= k < l < |r| ensures key(r[k]) != key(r[l]) {
      assert r[k] in multiset(s) && r[l] in multiset(s);
      if r[k] == r[l] {
        assert r == r[..l] + [r[l]] + r[l + 1..];
        assert r[k] == r[..l][k];
        assert multiset(r)[r[k]] >= 2;
        DistinctOnce(s, key, r[k]);
      } else {
        var i :| 0 <= i < |s| && s[i] == r[k];
        var j :| 0 <= j < |s| && s[j] == r[l];
        assert i != j;
      }
    }
  }
}
