/**
 * Sequence helpers standing in for `Array.prototype.filter`, the stable
 * `Array.prototype.sort` with a numeric comparator, and `Array.from(new Set(..))`.
 */
module Seqs {

  /** `a` is obtained from `b` by deleting elements, keeping the order of the rest. */
  predicate IsSubsequence<T(==)>(a: seq<T>, b: seq<T>)
    decreases |b|
  {
    if |a| == 0 then true
    else if |b| == 0 then false
    else (a[0] == b[0] && IsSubsequence(a[1..], b[1..])) || IsSubsequence(a, b[1..])
  }

  lemma {:induction false} SubsequenceReflexive<T>(s: seq<T>)
    ensures IsSubsequence(s, s)
    decreases |s|
  {
    if |s| > 0 {
      SubsequenceReflexive(s[1..]);
    }
  }

  lemma SubsequenceCons<T>(x: T, a: seq<T>, b: seq<T>)
    requires IsSubsequence(a, b)
    ensures IsSubsequence([x] + a, [x] + b)
  {
    assert ([x] + a)[1..] == a;
    assert ([x] + b)[1..] == b;
  }

  lemma SubsequenceSkip<T>(x: T, a: seq<T>, b: seq<T>)
    requires IsSubsequence(a, b)
    ensures IsSubsequence(a, [x] + b)
  {
    assert ([x] + b)[1..] == b;
  }

  /** The elements of `s` satisfying `p`, in their original order. */
  function Filter<T(==,!new)>(s: seq<T>, p: T -> bool): (r: seq<T>)
    ensures |r| <= |s|
    ensures forall i :: 0 <= i < |r| ==> p(r[i])
    ensures forall x :: x in r <==> x in s && p(x)
    ensures IsSubsequence(r, s)
    decreases |s|
  {
    if |s| == 0 then []
    else
      var rest := Filter(s[1..], p);
      assert s == [s[0]] + s[1..];
      if p(s[0]) then
        var r := [s[0]] + rest;
        assert r[0] == s[0] && r[1..] == rest;
        r
      else rest
  }

  /** Filtering keeps every occurrence of a selected element and none of the others. */
  lemma {:induction false} FilterCounts<T(!new)>(s: seq<T>, p: T -> bool)
    ensures forall x :: multiset(Filter(s, p))[x] == if p(x) then multiset(s)[x] else 0
    decreases |s|
  {
    if |s| > 0 {
      FilterCounts(s[1..], p);
      var rest := Filter(s[1..], p);
      assert s == [s[0]] + s[1..];
      assert multiset(s) == multiset{s[0]} + multiset(s[1..]);
      if p(s[0]) {
        assert Filter(s, p) == [s[0]] + rest;
        assert multiset(Filter(s, p)) == multiset{s[0]} + multiset(rest);
      } else {
        assert Filter(s, p) == rest;
      }
    }
  }

  /** A filter that keeps everything is the identity. */
  lemma {:induction false} FilterAll<T(!new)>(s: seq<T>, p: T -> bool)
    requires forall i :: 0 <= i < |s| ==> p(s[i])
    ensures Filter(s, p) == s
    decreases |s|
  {
    if |s| > 0 {
      FilterAll(s[1..], p);
    }
  }

  /** Filtering is idempotent. */
  lemma {:induction false} FilterTwice<T(!new)>(s: seq<T>, p: T -> bool)
    ensures Filter(Filter(s, p), p) == Filter(s, p)
  {
    FilterAll(Filter(s, p), p);
  }

  /** Two predicates that agree on every element of `s` select the same elements. */
  lemma {:induction false} FilterCongruent<T(!new)>(s: seq<T>, p: T -> bool, q: T -> bool)
    requires forall i :: 0 <= i < |s| ==> p(s[i]) == q(s[i])
    ensures Filter(s, p) == Filter(s, q)
    decreases |s|
  {
    if |s| > 0 {
      FilterCongruent(s[1..], p, q);
    }
  }

  /** The first element of `s` satisfying `p`: `Array.prototype.find`, as an index. */
  function FindIndex<T>(s: seq<T>, p: T -> bool): (r: int)
    ensures -1 <= r < |s|
    ensures r >= 0 ==> p(s[r])
    ensures r >= 0 ==> forall j :: 0 <= j < r ==> !p(s[j])
    ensures r == -1 <==> forall j :: 0 <= j < |s| ==> !p(s[j])
    decreases |s|
  {
    if |s| == 0 then -1
    else if p(s[0]) then 0
    else
      var k := FindIndex(s[1..], p);
      if k == -1 then -1 else k + 1
  }

  /** `key` does not decrease along `s`. */
  predicate SortedBy<T>(s: seq<T>, key: T -> int)
  {
    forall i, j :: 0 <= i < j < |s| ==> key(s[i]) <= key(s[j])
  }

  /** `x` placed in front of the first element of `t` whose key is not smaller. */
  function Insert<T>(x: T, t: seq<T>, key: T -> int): seq<T>
    decreases |t|
  {
    if |t| == 0 then [x]
    else if key(x) <= key(t[0]) then [x] + t
    else [t[0]] + Insert(x, t[1..], key)
  }

  /** Insertion adds exactly the one element. */
  lemma {:induction false} InsertCounts<T>(x: T, t: seq<T>, key: T -> int)
    ensures |Insert(x, t, key)| == |t| + 1
    ensures multiset(Insert(x, t, key)) == multiset(t) + multiset{x}
    decreases |t|
  {
    if |t| > 0 && key(x) > key(t[0]) {
      InsertCounts(x, t[1..], key);
      assert t == [t[0]] + t[1..];
    }
  }

  /** Insertion into a sorted sequence keeps it sorted. */
  lemma {:induction false} InsertSorted<T>(x: T, t: seq<T>, key: T -> int)
    requires SortedBy(t, key)
    ensures |Insert(x, t, key)| > 0
    ensures Insert(x, t, key)[0] == x || (|t| > 0 && Insert(x, t, key)[0] == t[0])
    ensures SortedBy(Insert(x, t, key), key)
    decreases |t|
  {
    var r := Insert(x, t, key);
    if |t| == 0 {
    } else if key(x) <= key(t[0]) {
      assert forall j :: 1 <= j < |r| ==> r[j] == t[j - 1];
    } else {
      var rest := Insert(x, t[1..], key);
      InsertSorted(x, t[1..], key);
      assert key(t[0]) <= key(rest[0]);
      assert forall j :: 1 <= j < |r| ==> r[j] == rest[j - 1];
    }
  }

  /**
   * Insertion sort: a stable sort by an integer key, as `result.sort((a, b) =>
   * key(a) - key(b))` on a stable engine. A descending sort negates the key.
   */
  function SortBy<T>(s: seq<T>, key: T -> int): (r: seq<T>)
    ensures SortedBy(r, key)
    ensures multiset(r) == multiset(s)
    ensures |r| == |s|
    decreases |s|
  {
    if |s| == 0 then []
    else
      var t := SortBy(s[1..], key);
      SortByStep(s, t, key);
      Insert(s[0], t, key)
  }

  /** One step of the insertion sort: the head goes into the sorted tail. */
  lemma SortByStep<T>(s: seq<T>, t: seq<T>, key: T -> int)
    requires |s| > 0 && SortedBy(t, key) && multiset(t) == multiset(s[1..])
    ensures SortedBy(Insert(s[0], t, key), key)
    ensures multiset(Insert(s[0], t, key)) == multiset(s)
    ensures |Insert(s[0], t, key)| == |s|
  {
    InsertCounts(s[0], t, key);
    InsertSorted(s[0], t, key);
    assert s == [s[0]] + s[1..];
    assert |t| == |multiset(t)| == |s[1..]|;
  }

  /** Sorting neither adds nor drops elements. */
  lemma SortByMembers<T>(s: seq<T>, key: T -> int)
    ensures forall x :: x in SortBy(s, key) <==> x in s
  {
    var r := SortBy(s, key);
    forall x
      ensures x in r <==> x in s
    {
      assert x in r <==> x in multiset(r);
      assert x in s <==> x in multiset(s);
    }
  }

  /** The elements of `s` whose key is `k`, in order. */
  function WithKey<T>(s: seq<T>, key: T -> int, k: int): seq<T>
    decreases |s|
  {
    if |s| == 0 then [] else (if key(s[0]) == k then [s[0]] else []) + WithKey(s[1..], key, k)
  }

  lemma {:induction false} InsertKeepsKeyClasses<T>(x: T, t: seq<T>, key: T -> int, k: int)
    ensures WithKey(Insert(x, t, key), key, k) == (if key(x) == k then [x] else []) + WithKey(t, key, k)
    decreases |t|
  {
    var r := Insert(x, t, key);
    if |t| == 0 {
      assert r == [x] && r[1..] == [];
    } else if key(x) <= key(t[0]) {
      assert r == [x] + t && r[0] == x && r[1..] == t;
    } else {
      var rest := Insert(x, t[1..], key);
      assert r == [t[0]] + rest && r[0] == t[0] && r[1..] == rest;
      InsertKeepsKeyClasses(x, t[1..], key, k);
      var w := WithKey(t[1..], key, k);
      if key(t[0]) == k {
        assert WithKey(rest, key, k) == w;
        assert WithKey(r, key, k) == [t[0]] + w;
        assert WithKey(t, key, k) == [t[0]] + w;
      } else {
        assert WithKey(r, key, k) == [] + WithKey(rest, key, k);
        assert WithKey(t, key, k) == [] + w;
      }
    }
  }

  /**
   * Stability: among elements with equal keys the sort keeps the input order,
   * as `Array.prototype.sort` does.
   */
  lemma {:induction false} SortByStable<T>(s: seq<T>, key: T -> int, k: int)
    ensures WithKey(SortBy(s, key), key, k) == WithKey(s, key, k)
    decreases |s|
  {
    if |s| > 0 {
      SortByStable(s[1..], key, k);
      InsertKeepsKeyClasses(s[0], SortBy(s[1..], key), key, k);
    }
  }

  /** No element occurs twice. */
  predicate NoDuplicates<T(==)>(s: seq<T>)
  {
    forall i, j :: 0 <= i < j < |s| ==> s[i] != s[j]
  }

  /** Inserting an element not yet present keeps a sequence free of duplicates. */
  lemma {:induction false} InsertKeepsNoDuplicates<T>(x: T, t: seq<T>, key: T -> int)
    requires NoDuplicates(t) && x !in t
    ensures NoDuplicates(Insert(x, t, key))
    decreases |t|
  {
    var r := Insert(x, t, key);
    if |t| == 0 {
    } else if key(x) <= key(t[0]) {
      assert r == [x] + t;
      assert forall j :: 0 < j < |r| ==> r[j] == t[j - 1];
    } else {
      var rest := Insert(x, t[1..], key);
      assert r == [t[0]] + rest;
      assert forall j :: 0 <= j < |t| - 1 ==> t[1..][j] == t[j + 1];
      assert x !in t[1..];
      InsertKeepsNoDuplicates(x, t[1..], key);
      InsertCounts(x, t[1..], key);
      assert t[0] != x;
      assert t[0] !in multiset(t[1..]);
      assert t[0] !in multiset(rest);
      assert forall j :: 0 < j < |r| ==> r[j] == rest[j - 1];
    }
  }

  /** Sorting a sequence without duplicates yields one without duplicates. */
  lemma {:induction false} SortByKeepsNoDuplicates<T>(s: seq<T>, key: T -> int)
    requires NoDuplicates(s)
    ensures NoDuplicates(SortBy(s, key))
    decreases |s|
  {
    if |s| > 0 {
      assert forall j :: 0 <= j < |s| - 1 ==> s[1..][j] == s[j + 1];
      SortByKeepsNoDuplicates(s[1..], key);
      var t := SortBy(s[1..], key);
      assert s[0] !in multiset(s[1..]);
      assert s[0] !in t;
      InsertKeepsNoDuplicates(s[0], t, key);
    }
  }

  /**
   * The distinct elements of `s` in first-occurrence order: what `Array.from`
   * yields for a `Set` filled by one pass over `s`.
   */
  function Distinct<T(==,!new)>(s: seq<T>): (r: seq<T>)
    ensures NoDuplicates(r)
    ensures forall x :: x in r <==> x in s
    ensures |r| <= |s|
    decreases |s|
  {
    if |s| == 0 then []
    else
      var d := Distinct(s[..|s| - 1]);
      assert s == s[..|s| - 1] + [s[|s| - 1]];
      if s[|s| - 1] in d then d else d + [s[|s| - 1]]
  }
}
