/** `bubble_sort` (src/lib.rs): in-place adjacent-swap sorting. The
    early-exit flag `sorted` is set once before the passes and never reset,
    so the routine returns early only when its first pass makes no swap;
    otherwise it runs all `len - 1` passes. The outer bound `len - 1` is a
    `usize` subtraction that underflows on an empty slice, so the slice must
    not be empty. */
module Bubble {
  import opened Order

  /** Sorts `a` in place. The ghost result `passes` counts the outer passes
      made: one when the input was already ascending (the early exit), all
      `len - 1` of them otherwise. */
  method BubbleSort(a: array<int>) returns (ghost passes: nat)
    requires a.Length > 0
    modifies a
    ensures Sorted(a[..])
    ensures multiset(a[..]) == multiset(old(a[..]))
    ensures Sorted(old(a[..])) ==> a[..] == old(a[..])
    ensures passes == if a.Length == 1 then 0 else if Sorted(old(a[..])) then 1 else a.Length - 1
  {
    var n := a.Length;
    var sorted := true;
    passes := 0;
    var i := 0;
    while i < n - 1
      invariant 0 <= i <= n - 1
      invariant passes == i
      invariant multiset(a[..]) == multiset(old(a[..]))
      // the last i places are in order and hold the i largest elements
      invariant forall k :: n - i <= k < n - 1 ==> a[k] <= a[k + 1]
      invariant i > 0 ==> forall k :: 0 <= k < n - i ==> a[k] <= a[n - i]
      invariant sorted ==> i == 0 && a[..] == old(a[..])
      invariant !sorted ==> !AdjacentSorted(old(a[..]))
    {
      ghost var before := a[..];
      var swapped := Pass(a, n - i);
      if swapped {
        sorted := false;
      }
      passes := passes + 1;
      if sorted {
        assert before[..n] == before;
        SortedIffAdjacentSorted(a[..]);
        return;
      }
      i := i + 1;
    }
    assert AdjacentSorted(a[..]);
    SortedIffAdjacentSorted(a[..]);
    SortedIffAdjacentSorted(old(a[..]));
  }

  /** One pass of the inner loop over `a[..m]`: swaps each adjacent pair
      that is out of order, carrying a largest element of `a[..m]` to
      `a[m - 1]`; when `a[m]` bounds `a[..m]`, that element ends no greater
      than `a[m]`. It reports whether it swapped, which happens exactly when
      `a[..m]` had an adjacent pair out of order. */
  method Pass(a: array<int>, m: int) returns (swapped: bool)
    requires 1 <= m <= a.Length
    requires m < a.Length ==> forall k :: 0 <= k < m ==> a[k] <= a[m]
    modifies a
    ensures multiset(a[..]) == multiset(old(a[..]))
    ensures forall k :: m <= k < a.Length ==> a[k] == old(a[k])
    ensures m < a.Length ==> a[m - 1] <= a[m]
    ensures forall k :: 0 <= k < m ==> a[k] <= a[m - 1]
    ensures swapped <==> !AdjacentSorted(old(a[..m]))
    ensures !swapped ==> a[..] == old(a[..])
  {
    swapped := false;
    var j := 0;
    while j < m - 1
      invariant 0 <= j <= m - 1
      invariant multiset(a[..]) == multiset(old(a[..]))
      // nothing after a[j] has been touched yet
      invariant forall k :: j < k < a.Length ==> a[k] == old(a[k])
      invariant m < a.Length ==> a[j] <= a[m]
      // a[j] is a largest element of a[..j + 1]
      invariant forall k :: 0 <= k <= j ==> a[k] <= a[j]
      invariant !swapped ==> a[..] == old(a[..]) && forall k :: 0 <= k < j ==> a[k] <= a[k + 1]
      invariant swapped ==> !AdjacentSorted(old(a[..m]))
    {
      if a[j] > a[j + 1] {
        if !swapped {
          assert old(a[..m])[j] > old(a[..m])[j + 1];
        }
        Swap(a, j, j + 1);
        swapped := true;
      }
      j := j + 1;
    }
  }
}
