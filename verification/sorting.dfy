/** Stable sorting by a numeric key in descending order, as done by
    `Comparator.comparingDouble(key).reversed()` with `List.sort` or
    `Stream.sorted` (both stable) and by JavaScript's `Array.prototype.sort`
    with comparator `(a, b) => key(b) - key(a)` (stable since ES2019). Scores
    are modelled as reals; NaN never reaches a sort in this system. */
module Sorting {

  /** Non-increasing by `key`. */
  predicate SortedDesc<T>(s: seq<T>, key: T -> real) {
    forall i, j :: 0 <= i < j < |s| ==> key(s[i]) >= key(s[j])
  }

  /** The elements of `s` whose key is exactly `v`, in their order in `s`. */
  function WithKey<T>(s: seq<T>, key: T -> real, v: real): (r: seq<T>)
    ensures |r| <= |s|
  {
    if |s| == 0 then []
    else if key(s[0]) == v then [s[0]] + WithKey(s[1..], key, v)
    else WithKey(s[1..], key, v)
  }

  /** Places `x` in front of the first element whose key does not exceed its own. */
  function Insert<T>(x: T, s: seq<T>, key: T -> real): (r: seq<T>)
    requires SortedDesc(s, key)
    ensures SortedDesc(r, key)
    ensures multiset(r) == multiset(s) + multiset{x}
    ensures |r| == |s| + 1
  {
    if |s| == 0 || key(x) >= key(s[0]) then [x] + s
    else
      var rest := Insert(x, s[1..], key);
      assert s == [s[0]] + s[1..];
      HeadAboveInserted(x, s, key, rest);
      [s[0]] + rest
  }

  /** When `x` goes after the head, the head stays ahead of everything. */
  lemma HeadAboveInserted<T>(x: T, s: seq<T>, key: T -> real, rest: seq<T>)
    requires SortedDesc(s, key) && |s| > 0 && key(x) < key(s[0])
    requires SortedDesc(rest, key)
    requires multiset(rest) == multiset(s[1..]) + multiset{x}
    ensures SortedDesc([s[0]] + rest, key)
  {
    forall k | 0 <= k < |rest| ensures key(s[0]) >= key(rest[k]) {
      assert rest[k] in multiset(s[1..]) + multiset{x};
      if rest[k] != x {
        assert rest[k] in s[1..];
      }
    }
    var r := [s[0]] + rest;
    forall i, j | 0 <= i < j < |r| ensures key(r[i]) >= key(r[j]) {
      assert r[j] == rest[j - 1];
      if i > 0 {
        assert r[i] == rest[i - 1];
      }
    }
  }

  /** Insertion sort: non-increasing by key and a permutation of the input. */
  function SortDesc<T>(s: seq<T>, key: T -> real): (r: seq<T>)
    ensures SortedDesc(r, key)
    ensures multiset(r) == multiset(s)
    ensures |r| == |s|
  {
    if |s| == 0 then []
    else
      assert s == [s[0]] + s[1..];
      Insert(s[0], SortDesc(s[1..], key), key)
  }

  /** Inserting `x` puts it ahead of every element with the same key. */
  lemma {:induction false} InsertStable<T>(x: T, s: seq<T>, key: T -> real, v: real)
    requires SortedDesc(s, key)
    ensures WithKey(Insert(x, s, key), key, v)
         == (if key(x) == v then [x] else []) + WithKey(s, key, v)
  {
    if |s| == 0 || key(x) >= key(s[0]) {
      assert Insert(x, s, key) == [x] + s;
      assert ([x] + s)[1..] == s;
    } else {
      var rest := Insert(x, s[1..], key);
      InsertStable(x, s[1..], key, v);
      assert Insert(x, s, key) == [s[0]] + rest;
      assert ([s[0]] + rest)[1..] == rest;
      if key(s[0]) == v {
        assert key(x) != v;
      }
    }
  }

  /** Stability: elements with equal keys keep their relative input order. */
  lemma {:induction false} SortDescStable<T>(s: seq<T>, key: T -> real, v: real)
    ensures WithKey(SortDesc(s, key), key, v) == WithKey(s, key, v)
  {
    if |s| > 0 {
      SortDescStable(s[1..], key, v);
      InsertStable(s[0], SortDesc(s[1..], key), key, v);
    }
  }

  /** A sorted sequence is its own sort. */
  lemma {:induction false} SortDescOfSorted<T>(s: seq<T>, key: T -> real)
    requires SortedDesc(s, key)
    ensures SortDesc(s, key) == s
  {
    if |s| > 0 {
      SortDescOfSorted(s[1..], key);
      assert SortDesc(s[1..], key) == s[1..];
      if |s| > 1 {
        assert key(s[0]) >= key(s[1]);
      }
      assert s == [s[0]] + s[1..];
    }
  }

  /** Index of the first element with the highest key. */
  function FirstMaxIndex<T>(s: seq<T>, key: T -> real): (i: nat)
    requires |s| > 0
    ensures i < |s|
    ensures forall j :: 0 <= j < |s| ==> key(s[j]) <= key(s[i])
    ensures forall j :: 0 <= j < i ==> key(s[j]) < key(s[i])
    decreases |s|
  {
    if |s| == 1 then 0
    else
      var k := 1 + FirstMaxIndex(s[1..], key);
      assert forall j :: 1 <= j < |s| ==> s[j] == s[1..][j - 1];
      if key(s[0]) >= key(s[k]) then 0 else k
  }

  /** The first maximum is the only index that is maximal with every earlier
      element strictly below it. */
  lemma FirstMaxUnique<T>(s: seq<T>, key: T -> real, c: nat)
    requires c < |s|
    requires forall j :: 0 <= j < |s| ==> key(s[j]) <= key(s[c])
    requires forall j :: 0 <= j < c ==> key(s[j]) < key(s[c])
    ensures FirstMaxIndex(s, key) == c
  {
    var b := FirstMaxIndex(s, key);
    assert key(s[b]) == key(s[c]);
  }

  /** Appending one element moves the first maximum to it exactly when its
      key is strictly higher. */
  lemma FirstMaxExtend<T>(s: seq<T>, x: T, key: T -> real)
    requires |s| > 0
    ensures FirstMaxIndex(s + [x], key)
         == if key(x) > key(s[FirstMaxIndex(s, key)]) then |s| else FirstMaxIndex(s, key)
  {
    var b := FirstMaxIndex(s, key);
    var t := s + [x];
    assert forall j :: 0 <= j < |s| ==> t[j] == s[j];
    assert t[|s|] == x;
    if key(x) > key(s[b]) {
      assert forall j :: 0 <= j < |s| ==> key(t[j]) < key(t[|s|]);
      FirstMaxUnique(t, key, |s|);
    } else {
      assert forall j :: 0 <= j < |t| ==> key(t[j]) <= key(t[b]);
      assert forall j :: 0 <= j < b ==> key(t[j]) < key(t[b]);
      FirstMaxUnique(t, key, b);
    }
  }
}
