/** Order-preserving filtering and concatenation of sequences
    (`Array.prototype.filter`, stream `filter`, `flatMap`), and maps built by
    successive `put`s. */
module Seqs {
  import opened Wrappers

  /** `a` can be obtained from `b` by deleting elements, keeping the order of
      the rest. */
  predicate IsSubsequence<T(==)>(a: seq<T>, b: seq<T>)
    decreases |b|
  {
    if |a| == 0 then true
    else if |b| == 0 then false
    else if a[0] == b[0] then IsSubsequence(a[1..], b[1..])
    else IsSubsequence(a, b[1..])
  }

  /** The elements of `s` that satisfy `p`, in their original order. */
  function Filter<T(==)>(s: seq<T>, p: T -> bool): (r: seq<T>)
    ensures |r| <= |s|
    ensures forall i :: 0 <= i < |r| ==> p(r[i]) && r[i] in s
    ensures forall i :: 0 <= i < |s| && p(s[i]) ==> s[i] in r
    ensures IsSubsequence(r, s)
  {
    if |s| == 0 then []
    else if p(s[0]) then [s[0]] + Filter(s[1..], p)
    else Filter(s[1..], p)
  }

  /** An element survives the filter exactly when it occurs and passes. */
  lemma FilterMembers<T>(s: seq<T>, p: T -> bool, x: T)
    ensures x in Filter(s, p) <==> x in s && p(x)
  {
    var r := Filter(s, p);
    if x in r {
      var i :| 0 <= i < |r| && r[i] == x;
    }
    if x in s && p(x) {
      var i :| 0 <= i < |s| && s[i] == x;
    }
  }

  /** The elements of `s` that fail `p`, in their original order. */
  function Reject<T(==)>(s: seq<T>, p: T -> bool): (r: seq<T>)
    ensures |r| <= |s|
    ensures forall i :: 0 <= i < |r| ==> !p(r[i]) && r[i] in s
    ensures forall i :: 0 <= i < |s| && !p(s[i]) ==> s[i] in r
    ensures IsSubsequence(r, s)
  {
    if |s| == 0 then []
    else if p(s[0]) then Reject(s[1..], p)
    else [s[0]] + Reject(s[1..], p)
  }

  /** Filtering with `p` and rejecting with `p` split `s` into two parts that
      together hold every element exactly as often as `s` does. */
  lemma {:induction false} FilterPartition<T>(s: seq<T>, p: T -> bool)
    ensures multiset(Filter(s, p)) + multiset(Reject(s, p)) == multiset(s)
    ensures |Filter(s, p)| + |Reject(s, p)| == |s|
  {
    if |s| > 0 {
      FilterPartition(s[1..], p);
      assert s == [s[0]] + s[1..];
    }
  }

  /** The values `f` gives for the elements of `xs`, where it gives one. */
  function Defined<U, T>(xs: seq<U>, f: U -> Option<T>): set<T>
    decreases |xs|
  {
    if |xs| == 0 then {}
    else (match f(xs[0]) case Some(x) => {x} case None => {}) + Defined(xs[1..], f)
  }

  /** A value is defined for `xs` exactly when `f` gives it for some element. */
  lemma {:induction false} DefinedMembers<U, T>(xs: seq<U>, f: U -> Option<T>, x: T)
    ensures x in Defined(xs, f) <==> exists j :: 0 <= j < |xs| && f(xs[j]) == Some(x)
    decreases |xs|
  {
    if |xs| > 0 {
      DefinedMembers(xs[1..], f, x);
      if exists j :: 0 <= j < |xs| && f(xs[j]) == Some(x) {
        var j :| 0 <= j < |xs| && f(xs[j]) == Some(x);
        if j > 0 {
          assert xs[1..][j - 1] == xs[j];
        }
      }
      if exists j :: 0 <= j < |xs[1..]| && f(xs[1..][j]) == Some(x) {
        var j :| 0 <= j < |xs[1..]| && f(xs[1..][j]) == Some(x);
        assert xs[j + 1] == xs[1..][j];
      }
    }
  }

  /** Concatenation regroups freely. */
  lemma ConcatAssoc<T>(a: seq<T>, b: seq<T>, c: seq<T>)
    ensures (a + b) + c == a + (b + c)
  {
  }

  /** Concatenation of a sequence of sequences. */
  function Flatten<T>(ss: seq<seq<T>>): (r: seq<T>)
    ensures |ss| == 0 ==> r == []
  {
    if |ss| == 0 then [] else ss[0] + Flatten(ss[1..])
  }

  /** Appending one more part appends its elements. */
  lemma {:induction false} FlattenAppend<T>(ss: seq<seq<T>>, b: seq<T>)
    ensures Flatten(ss + [b]) == Flatten(ss) + b
  {
    if |ss| > 0 {
      FlattenAppend(ss[1..], b);
      assert (ss + [b])[1..] == ss[1..] + [b];
    } else {
      assert Flatten([b]) == b + Flatten([b][1..]);
    }
  }

  /** An element of the concatenation comes from one of the parts, and every
      element of every part is in the concatenation. */
  lemma {:induction false} FlattenMembership<T>(ss: seq<seq<T>>, x: T)
    ensures x in Flatten(ss) <==> exists i :: 0 <= i < |ss| && x in ss[i]
  {
    if |ss| > 0 {
      FlattenMembership(ss[1..], x);
      if x in ss[0] {
        assert x in ss[0] + Flatten(ss[1..]);
      }
      if exists i :: 1 <= i < |ss| && x in ss[i] {
        var i :| 1 <= i < |ss| && x in ss[i];
        assert x in ss[1..][i - 1];
      }
    }
  }

  /** No element occurs twice. */
  predicate Distinct<T(==)>(s: seq<T>) {
    forall i, j :: 0 <= i < j < |s| ==> s[i] != s[j]
  }

  /** The first occurrence of each element not already in `seen`, in
      order. */
  function DedupAfter<T(==,!new)>(s: seq<T>, seen: set<T>): (r: seq<T>)
    ensures Distinct(r)
    ensures forall x :: x in r <==> x in s && x !in seen
    decreases |s|
  {
    if |s| == 0 then []
    else if s[0] in seen then DedupAfter(s[1..], seen)
    else
      var rest := DedupAfter(s[1..], seen + {s[0]});
      assert s[0] !in rest;
      [s[0]] + rest
  }

  /** `Stream.distinct()`: the first occurrence of each element, in order. */
  function Dedup<T(==,!new)>(s: seq<T>): (r: seq<T>)
    ensures Distinct(r)
    ensures forall x :: x in r <==> x in s
  {
    DedupAfter(s, {})
  }

  /** A sequence without repeats is its own `distinct()`. */
  lemma {:induction false} DedupAfterOfDistinct<T(!new)>(s: seq<T>, seen: set<T>)
    requires Distinct(s)
    requires forall i :: 0 <= i < |s| ==> s[i] !in seen
    ensures DedupAfter(s, seen) == s
    decreases |s|
  {
    if |s| > 0 {
      assert forall i :: 0 <= i < |s[1..]| ==> s[1..][i] == s[i + 1] && s[1..][i] != s[0];
      DedupAfterOfDistinct(s[1..], seen + {s[0]});
    }
  }

  /** The map built by `put`ting each (key, value) pair in order, skipping
      pairs without a key: a later pair for a key replaces an earlier one. */
  function PutAll<K(!new), V>(pairs: seq<(Option<K>, V)>): (m: map<K, V>)
    ensures forall key :: key in m <==> exists k :: 0 <= k < |pairs| && pairs[k].0 == Some(key)
    ensures forall key :: key in m ==> exists k :: 0 <= k < |pairs| && pairs[k].0 == Some(key) && m[key] == pairs[k].1
    decreases |pairs|
  {
    if |pairs| == 0 then map[]
    else
      var prefix := pairs[..|pairs| - 1];
      var last := pairs[|pairs| - 1];
      assert forall k :: 0 <= k < |prefix| ==> prefix[k] == pairs[k];
      var m := PutAll(prefix);
      match last.0
      case Some(key) => m[key := last.1]
      case None => m
  }

  /** The value kept for a key is the one of the last pair with that key. */
  lemma {:induction false} PutAllLastWins<K(!new), V>(pairs: seq<(Option<K>, V)>, k: nat, key: K)
    requires k < |pairs| && pairs[k].0 == Some(key)
    requires forall j :: k < j < |pairs| ==> pairs[j].0 != Some(key)
    ensures key in PutAll(pairs) && PutAll(pairs)[key] == pairs[k].1
    decreases |pairs|
  {
    var prefix := pairs[..|pairs| - 1];
    assert forall j :: 0 <= j < |prefix| ==> prefix[j] == pairs[j];
    if k < |pairs| - 1 {
      PutAllLastWins(prefix, k, key);
    }
  }

  /** The map from each key in `keys` that `f` gives a value to that value. */
  function MapOf<K(!new), V>(keys: set<K>, f: K -> Option<V>): (m: map<K, V>)
    ensures forall k :: k in m <==> k in keys && f(k).Some?
    ensures forall k :: k in m ==> m[k] == f(k).value
  {
    map k | k in keys && f(k).Some? :: f(k).value
  }
}
