/** Ordering predicates shared by the sorting routines, and the facts about
    them that more than one routine needs. Elements compared with the
    source's `<`/`>` are modelled as `int`; merge sort compares through a key. */
module Order {

  /** Every earlier element is at most every later one. */
  predicate Sorted(s: seq<int>) {
    forall i, j :: 0 <= i < j < |s| ==> s[i] <= s[j]
  }

  /** No adjacent pair is out of order: the condition bubble sort tests. */
  predicate AdjacentSorted(s: seq<int>) {
    forall k :: 0 <= k < |s| - 1 ==> s[k] <= s[k + 1]
  }

  /** Sorted by the integer key of each element. */
  predicate SortedBy<T>(s: seq<T>, key: T -> int) {
    forall i, j :: 0 <= i < j < |s| ==> key(s[i]) <= key(s[j])
  }

  /** The elements of `s` whose key is `k`, in their original order. */
  function WithKey<T>(s: seq<T>, key: T -> int, k: int): (r: seq<T>) {
    if s == [] then []
    else (if key(s[0]) == k then [s[0]] else []) + WithKey(s[1..], key, k)
  }

  lemma {:induction false} WithKeyAppend<T>(s: seq<T>, t: seq<T>, key: T -> int, k: int)
    ensures WithKey(s + t, key, k) == WithKey(s, key, k) + WithKey(t, key, k)
  {
    if s == [] {
      assert s + t == t;
    } else {
      var first := if key(s[0]) == k then [s[0]] else [];
      assert (s + t)[0] == s[0] && (s + t)[1..] == s[1..] + t;
      assert WithKey(s + t, key, k) == first + WithKey(s[1..] + t, key, k);
      WithKeyAppend(s[1..], t, key, k);
      assert WithKey(s, key, k) == first + WithKey(s[1..], key, k);
    }
  }

  /** A sequence none of whose keys is `k` has nothing to keep. */
  lemma {:induction false} WithKeyNone<T>(s: seq<T>, key: T -> int, k: int)
    requires forall i :: 0 <= i < |s| ==> key(s[i]) != k
    ensures WithKey(s, key, k) == []
  {
    if s != [] {
      WithKeyNone(s[1..], key, k);
    }
  }

  /** Something is kept only if some element has key `k`. */
  lemma {:induction false} WithKeyMember<T>(s: seq<T>, key: T -> int, k: int)
    requires WithKey(s, key, k) != []
    ensures exists i :: 0 <= i < |s| && key(s[i]) == k
  {
    if key(s[0]) != k {
      WithKeyMember(s[1..], key, k);
      var i :| 0 <= i < |s[1..]| && key(s[1..][i]) == k;
      assert key(s[i + 1]) == k;
    }
  }

  /** Two non-empty sequences sorted by key that keep the same elements
      under every key start with the same element, and their tails again
      keep the same elements under every key. */
  lemma SortedByHeadsAgree<T>(s: seq<T>, t: seq<T>, key: T -> int)
    requires s != [] && t != []
    requires SortedBy(s, key) && SortedBy(t, key)
    requires forall k :: WithKey(s, key, k) == WithKey(t, key, k)
    ensures s[0] == t[0]
    ensures forall k :: WithKey(s[1..], key, k) == WithKey(t[1..], key, k)
  {
    // the heads carry the same key: each is a least key of both sequences
    assert WithKey(s, key, key(s[0])) != [];
    WithKeyMember(t, key, key(s[0]));
    assert WithKey(t, key, key(t[0])) != [];
    WithKeyMember(s, key, key(t[0]));
    // so they head the same kept sequence
    assert WithKey(s, key, key(s[0]))[0] == s[0];
    assert WithKey(t, key, key(t[0]))[0] == t[0];
    forall k ensures WithKey(s[1..], key, k) == WithKey(t[1..], key, k) {
      WithKeyTail(s, key, k);
      WithKeyTail(t, key, k);
    }
  }

  /** Dropping the head of a non-empty sequence drops it from what is kept
      under its own key and nothing else. */
  lemma WithKeyTail<T>(s: seq<T>, key: T -> int, k: int)
    requires s != []
    ensures WithKey(s[1..], key, k) == if key(s[0]) == k then WithKey(s, key, k)[1..] else WithKey(s, key, k)
  {
  }

  /** Two sequences sorted by key that keep, for every key, the same
      elements in the same order are equal: a sorted sequence is fixed by
      what it holds under each key. */
  lemma {:induction false} SortedByKeysUnique<T>(s: seq<T>, t: seq<T>, key: T -> int)
    requires |s| == |t|
    requires SortedBy(s, key) && SortedBy(t, key)
    requires forall k :: WithKey(s, key, k) == WithKey(t, key, k)
    ensures s == t
    decreases |s|
  {
    if s != [] {
      SortedByHeadsAgree(s, t, key);
      SortedByKeysUnique(s[1..], t[1..], key);
      assert s == [s[0]] + s[1..] && t == [t[0]] + t[1..];
    }
  }

  /** A sequence is sorted exactly when no adjacent pair is out of order:
      checking adjacent pairs is enough. */
  lemma {:induction false} SortedIffAdjacentSorted(s: seq<int>)
    ensures Sorted(s) <==> AdjacentSorted(s)
  {
    if |s| > 1 {
      SortedIffAdjacentSorted(s[1..]);
      if AdjacentSorted(s) {
        assert AdjacentSorted(s[1..]);
        assert s[0] <= s[1];
      }
    }
  }

  /** The first element of a sorted sequence is a least one. */
  lemma SortedHeadLeast(s: seq<int>, x: int)
    requires Sorted(s) && x in multiset(s)
    ensures s[0] <= x
  {
    var i :| 0 <= i < |s| && s[i] == x;
  }

  /** Two sorted permutations of each other start with the same element,
      and what follows it is again two sorted permutations of each other. */
  lemma SortedHeadsAgree(s: seq<int>, t: seq<int>)
    requires Sorted(s) && Sorted(t) && s != [] && t != []
    requires multiset(s) == multiset(t)
    ensures s[0] == t[0]
    ensures Sorted(s[1..]) && Sorted(t[1..])
    ensures multiset(s[1..]) == multiset(t[1..])
  {
    assert s[0] in multiset(s) && t[0] in multiset(t);
    SortedHeadLeast(s, t[0]);
    SortedHeadLeast(t, s[0]);
    assert s == [s[0]] + s[1..] && t == [t[0]] + t[1..];
    assert multiset(s[1..]) == multiset(s) - multiset{s[0]};
    assert multiset(t[1..]) == multiset(t) - multiset{t[0]};
  }

  /** A multiset has only one sorted arrangement: any two sorted permutations
      of each other are equal. */
  lemma {:induction false} SortedPermutationUnique(s: seq<int>, t: seq<int>)
    requires Sorted(s) && Sorted(t)
    requires multiset(s) == multiset(t)
    ensures s == t
    decreases |s|
  {
    assert |s| == |multiset(s)| == |multiset(t)| == |t|;
    if s != [] {
      SortedHeadsAgree(s, t);
      SortedPermutationUnique(s[1..], t[1..]);
      assert s == [s[0]] + s[1..] && t == [t[0]] + t[1..];
    }
  }

  /** A sorted sequence of elements below `x`, then `x`, then a sorted
      sequence of elements not below `x`, is sorted. */
  lemma SortedAround(left: seq<int>, x: int, right: seq<int>)
    requires Sorted(left) && Sorted(right)
    requires forall i :: 0 <= i < |left| ==> left[i] < x
    requires forall i :: 0 <= i < |right| ==> x <= right[i]
    ensures Sorted(left + [x] + right)
  {
    var s := left + [x] + right;
    forall i, j | 0 <= i < j < |s| ensures s[i] <= s[j] {
      var n := |left|;
      if j < n {
        assert s[i] == left[i] && s[j] == left[j];
      } else if i > n {
        assert s[i] == right[i - n - 1] && s[j] == right[j - n - 1];
      } else if i < n {
        assert s[i] == left[i];
        if j > n {
          assert s[j] == right[j - n - 1];
        }
      } else if j > n {
        assert s[j] == right[j - n - 1];
      }
    }
  }

  /** A strict upper bound on every element survives a permutation. */
  lemma AllBelowKept(s: seq<int>, t: seq<int>, c: int)
    requires multiset(s) == multiset(t)
    requires forall i :: 0 <= i < |s| ==> s[i] < c
    ensures forall i :: 0 <= i < |t| ==> t[i] < c
  {
    forall i | 0 <= i < |t| ensures t[i] < c {
      assert t[i] in multiset(s);
    }
  }

  /** A lower bound on every element survives a permutation. */
  lemma AllAtLeastKept(s: seq<int>, t: seq<int>, c: int)
    requires multiset(s) == multiset(t)
    requires forall i :: 0 <= i < |s| ==> c <= s[i]
    ensures forall i :: 0 <= i < |t| ==> c <= t[i]
  {
    forall i | 0 <= i < |t| ensures c <= t[i] {
      assert t[i] in multiset(s);
    }
  }

  /** If two sequences agree outside `[lo, hi)` and are permutations of each
      other, then so are their slices `[lo, hi)`. */
  lemma RangePermutation(s: seq<int>, t: seq<int>, lo: int, hi: int)
    requires 0 <= lo <= hi <= |s| == |t|
    requires forall k :: 0 <= k < lo || hi <= k < |s| ==> s[k] == t[k]
    requires multiset(s) == multiset(t)
    ensures multiset(s[lo..hi]) == multiset(t[lo..hi])
  {
    assert s == s[..lo] + s[lo..hi] + s[hi..];
    assert t == t[..lo] + t[lo..hi] + t[hi..];
    assert s[..lo] == t[..lo];
    assert s[hi..] == t[hi..];
    assert multiset(s) == multiset(s[..lo]) + multiset(s[lo..hi]) + multiset(s[hi..]);
    assert multiset(t) == multiset(t[..lo]) + multiset(t[lo..hi]) + multiset(t[hi..]);
    assert multiset(s[lo..hi]) == multiset(s) - multiset(s[..lo]) - multiset(s[hi..]);
    assert multiset(t[lo..hi]) == multiset(t) - multiset(t[..lo]) - multiset(t[hi..]);
  }

  /** Splitting a slice around one index splits its multiset. */
  lemma SplitAround(s: seq<int>, lo: int, p: int, hi: int)
    requires 0 <= lo <= p < hi <= |s|
    ensures multiset(s[lo..hi]) == multiset(s[lo..p]) + multiset{s[p]} + multiset(s[p + 1..hi])
  {
    assert s[lo..hi] == s[lo..p] + [s[p]] + s[p + 1..hi];
  }

  /** `slice::swap`: exchange two elements of an array (possibly the same
      one), leaving the others and the multiset of elements unchanged. */
  method Swap(a: array<int>, i: int, j: int)
    requires 0 <= i < a.Length && 0 <= j < a.Length
    modifies a
    ensures a[i] == old(a[j]) && a[j] == old(a[i])
    ensures forall k :: 0 <= k < a.Length && k != i && k != j ==> a[k] == old(a[k])
    ensures multiset(a[..]) == multiset(old(a[..]))
  {
    var t := a[i];
    a[i] := a[j];
    a[j] := t;
  }
}
