/** `merge_sort` (src/lib.rs): split at `len / 2`, sort both halves
    recursively, then merge them by repeatedly comparing the two heads and
    taking the right head only when it is strictly smaller. The library is
    generic over a partially ordered element type; here an element of any
    type `T` is compared through an integer key, so that elements with equal
    keys can still be told apart and stability can be stated. */
module Merge {
  import opened Order

  /** The merge of `a` and `b` as the library performs it: on equal keys
      the head of `a` (the left half) goes first. */
  function Merged<T>(a: seq<T>, b: seq<T>, key: T -> int): (r: seq<T>)
    ensures |r| == |a| + |b|
    decreases |a| + |b|
  {
    if a == [] then b
    else if b == [] then a
    else if key(b[0]) < key(a[0]) then [b[0]] + Merged(a, b[1..], key)
    else [a[0]] + Merged(a[1..], b, key)
  }

  /** Unfolding the merge of two non-empty sequences: its head is the
      right head when that key is strictly smaller, the left head
      otherwise, and its tail is the merge of what remains. */
  lemma MergedStep<T>(a: seq<T>, b: seq<T>, key: T -> int)
    requires a != [] && b != []
    ensures var m := Merged(a, b, key);
      if key(b[0]) < key(a[0]) then m[0] == b[0] && m[1..] == Merged(a, b[1..], key)
      else m[0] == a[0] && m[1..] == Merged(a[1..], b, key)
  {
    var m := Merged(a, b, key);
    if key(b[0]) < key(a[0]) {
      assert m == [b[0]] + Merged(a, b[1..], key);
    } else {
      assert m == [a[0]] + Merged(a[1..], b, key);
    }
  }

  /** A lower bound on every key of both inputs bounds every key of the
      merge. */
  lemma {:induction false} MergedLowerBound<T>(a: seq<T>, b: seq<T>, key: T -> int, x: int)
    requires forall i :: 0 <= i < |a| ==> x <= key(a[i])
    requires forall i :: 0 <= i < |b| ==> x <= key(b[i])
    ensures forall i :: 0 <= i < |Merged(a, b, key)| ==> x <= key(Merged(a, b, key)[i])
    decreases |a| + |b|
  {
    if a != [] && b != [] {
      var m := Merged(a, b, key);
      MergedStep(a, b, key);
      if key(b[0]) < key(a[0]) {
        MergedLowerBound(a, b[1..], key, x);
      } else {
        MergedLowerBound(a[1..], b, key, x);
      }
      assert forall i :: 1 <= i < |m| ==> m[i] == m[1..][i - 1];
    }
  }

  /** An element no greater than any element of a sorted sequence can be
      put in front of it. */
  lemma ConsSorted<T>(h: T, rest: seq<T>, key: T -> int)
    requires SortedBy(rest, key)
    requires forall i :: 0 <= i < |rest| ==> key(h) <= key(rest[i])
    ensures SortedBy([h] + rest, key)
  {
    var s := [h] + rest;
    forall i, j | 0 <= i < j < |s| ensures key(s[i]) <= key(s[j]) {
      assert s[j] == rest[j - 1];
      if i > 0 {
        assert s[i] == rest[i - 1];
      }
    }
  }

  /** Merging keeps every element of both inputs, with its multiplicity. */
  lemma {:induction false} MergedPermutes<T>(a: seq<T>, b: seq<T>, key: T -> int)
    ensures multiset(Merged(a, b, key)) == multiset(a) + multiset(b)
    decreases |a| + |b|
  {
    if a != [] && b != [] {
      var m := Merged(a, b, key);
      MergedStep(a, b, key);
      assert m == [m[0]] + m[1..];
      if key(b[0]) < key(a[0]) {
        MergedPermutes(a, b[1..], key);
        assert b == [b[0]] + b[1..];
      } else {
        MergedPermutes(a[1..], b, key);
        assert a == [a[0]] + a[1..];
      }
    }
  }

  /** Merging two sorted sequences gives a sorted sequence. */
  lemma {:induction false} MergedSorted<T>(a: seq<T>, b: seq<T>, key: T -> int)
    requires SortedBy(a, key) && SortedBy(b, key)
    ensures SortedBy(Merged(a, b, key), key)
    decreases |a| + |b|
  {
    if a != [] && b != [] {
      var m := Merged(a, b, key);
      MergedStep(a, b, key);
      assert m == [m[0]] + m[1..];
      if key(b[0]) < key(a[0]) {
        MergedSorted(a, b[1..], key);
        MergedLowerBound(a, b[1..], key, key(b[0]));
      } else {
        MergedSorted(a[1..], b, key);
        MergedLowerBound(a[1..], b, key, key(a[0]));
      }
      ConsSorted(m[0], m[1..], key);
    }
  }

  /** Stability of the merge: among the elements with any one key, those of
      `a` come first and those of `b` after them, each in its own order. */
  lemma {:induction false} MergedStable<T>(a: seq<T>, b: seq<T>, key: T -> int, k: int)
    requires SortedBy(a, key) && SortedBy(b, key)
    ensures WithKey(Merged(a, b, key), key, k) == WithKey(a, key, k) + WithKey(b, key, k)
    decreases |a| + |b|
  {
    if a != [] && b != [] {
      var m := Merged(a, b, key);
      MergedStep(a, b, key);
      var first := if key(m[0]) == k then [m[0]] else [];
      assert WithKey(m, key, k) == first + WithKey(m[1..], key, k);
      if key(b[0]) < key(a[0]) {
        MergedStable(a, b[1..], key, k);
        assert WithKey(b, key, k) == first + WithKey(b[1..], key, k);
        if key(b[0]) == k {
          // every key in `a` is above k, so `a` contributes nothing
          WithKeyNone(a, key, k);
          assert WithKey(m, key, k) == first + WithKey(b[1..], key, k);
        } else {
          assert first == [];
          assert WithKey(m, key, k) == WithKey(a, key, k) + WithKey(b[1..], key, k);
        }
      } else {
        MergedStable(a[1..], b, key, k);
        assert WithKey(a, key, k) == first + WithKey(a[1..], key, k);
        assert WithKey(m, key, k) == (first + WithKey(a[1..], key, k)) + WithKey(b, key, k);
      }
    }
  }

  /** The merge loop: walks both halves with one index each (the library's
      two iterators and their peeked heads) and pushes onto `res`. */
  method MergeHalves<T>(a: seq<T>, b: seq<T>, key: T -> int) returns (res: seq<T>)
    ensures res == Merged(a, b, key)
  {
    res := [];
    var i, j := 0, 0;
    while i < |a| && j < |b|
      invariant 0 <= i <= |a| && 0 <= j <= |b|
      invariant res + Merged(a[i..], b[j..], key) == Merged(a, b, key)
      decreases |a| - i + |b| - j
    {
      if key(b[j]) < key(a[i]) {
        assert b[j..][1..] == b[j + 1..];
        TakeHead(res, [b[j]], Merged(a[i..], b[j + 1..], key), Merged(a, b, key));
        res := res + [b[j]];
        j := j + 1;
      } else {
        assert a[i..][1..] == a[i + 1..];
        TakeHead(res, [a[i]], Merged(a[i + 1..], b[j..], key), Merged(a, b, key));
        res := res + [a[i]];
        i := i + 1;
      }
    }
    if i < |a| {
      // the right half is used up: push the left head, then the rest
      assert Merged(a[i..], b[j..], key) == a[i..];
      res := res + [a[i]];
      res := res + a[i + 1..];
      assert [a[i]] + a[i + 1..] == a[i..];
    } else {
      // the left half is used up: push the right head if any, then the rest
      assert Merged(a[i..], b[j..], key) == b[j..];
      if j < |b| {
        res := res + [b[j]];
        j := j + 1;
        assert [b[j - 1]] + b[j..] == b[j - 1..];
      }
      res := res + b[j..];
    }
  }

  /** Moving the head of the unmerged part onto the output keeps the
      output followed by the unmerged part the same. */
  lemma TakeHead<T>(res: seq<T>, head: seq<T>, rest: seq<T>, whole: seq<T>)
    requires res + (head + rest) == whole
    ensures (res + head) + rest == whole
  {
  }

  /** Sorts `v` by key. The result is a sorted permutation of `v`; inputs of
      length at most one, and inputs already sorted by key, come back
      unchanged; and the sort is stable: for every key, the elements
      carrying it appear in the order they had in `v`. */
  method MergeSort<T>(v: seq<T>, key: T -> int) returns (res: seq<T>)
    ensures |res| == |v|
    ensures SortedBy(res, key)
    ensures multiset(res) == multiset(v)
    ensures forall k :: WithKey(res, key, k) == WithKey(v, key, k)
    ensures |v| <= 1 ==> res == v
    ensures SortedBy(v, key) ==> res == v
    decreases |v|
  {
    if |v| <= 1 {
      return v;
    }
    var mid := |v| / 2;
    var left, right := v[..mid], v[mid..];
    var a := MergeSort(left, key);
    var b := MergeSort(right, key);
    res := MergeHalves(a, b, key);
    assert v == left + right;
    MergedSorted(a, b, key);
    MergedPermutes(a, b, key);
    forall k ensures WithKey(res, key, k) == WithKey(v, key, k) {
      MergedStable(a, b, key, k);
      WithKeyAppend(left, right, key, k);
    }
    if SortedBy(v, key) {
      SortedByKeysUnique(res, v, key);
    }
  }
}
