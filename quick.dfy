/** `pivot` and `quick_sort` (src/lib.rs). The library's slices `v`,
    `v[..p]` and `v[p + 1..]` are the index ranges `[lo, hi)` of one array,
    and its process-wide generator is a `RandGen` handed down the recursion. */
module Quick {
  import opened Order
  import Rand

  /** `pivot` on the slice `a[lo..hi]`: draws an index below the slice's
      length from the generator, then partitions around the element found
      there. The slice must not be empty (the draw would reduce modulo
      zero). */
  method Pivot(a: array<int>, lo: int, hi: int, g: Rand.RandGen) returns (p: int)
    requires 0 <= lo < hi <= a.Length
    requires g.Valid()
    modifies a, g`curr
    ensures g.Valid() && g.curr == Rand.Next(old(g.curr))
    ensures lo <= p < hi
    ensures a[p] == old(a[lo + Rand.Draw(g.curr, hi - lo)])
    ensures forall k :: lo <= k < hi ==> (a[k] < a[p] <==> k < p)
    ensures multiset(a[lo..hi]) == multiset(old(a[lo..hi]))
    ensures forall k :: 0 <= k < lo || hi <= k < a.Length ==> a[k] == old(a[k])
  {
    var r := g.Gen(hi - lo);
    p := PartitionAt(a, lo, hi, r);
  }

  /** The rest of `pivot` once the index `r` (counted from the start of the
      slice) is drawn: swap that element to the front, then make one pass
      keeping it at `a[p]`, everything in `[lo, p)` strictly below it and
      everything scanned after `p` not below it. It returns `p`, where the
      drawn element now sits; every element of the slice is below it
      exactly when it lies before it, the slice is a permutation of what it
      was, and nothing outside it changes. */
  method PartitionAt(a: array<int>, lo: int, hi: int, r: int) returns (p: int)
    requires 0 <= lo < hi <= a.Length
    requires 0 <= r < hi - lo
    modifies a
    ensures lo <= p < hi
    ensures a[p] == old(a[lo + r])
    ensures forall k :: lo <= k < hi ==> (a[k] < a[p] <==> k < p)
    ensures multiset(a[lo..hi]) == multiset(old(a[lo..hi]))
    ensures forall k :: 0 <= k < lo || hi <= k < a.Length ==> a[k] == old(a[k])
  {
    Swap(a, lo + r, lo);
    p := lo;
    ghost var pv := a[p];
    var i := lo + 1;
    while i < hi
      invariant lo <= p < i <= hi
      invariant a[p] == pv
      invariant forall k :: lo <= k < p ==> a[k] < pv
      invariant forall k :: p < k < i ==> !(a[k] < pv)
      invariant multiset(a[..]) == multiset(old(a[..]))
      invariant forall k :: 0 <= k < lo || hi <= k < a.Length ==> a[k] == old(a[k])
    {
      if a[i] < a[p] {
        Swap(a, p + 1, i);
        Swap(a, p, p + 1);
        p := p + 1;
      }
      i := i + 1;
    }
    RangePermutation(old(a[..]), a[..], lo, hi);
    assert old(a[..])[lo..hi] == old(a[lo..hi]);
  }

  /** `quick_sort` on the slice `a[lo..hi]`: slices of length at most one
      are left alone; otherwise `pivot` places one element and `SortSides`
      sorts the parts before and after it. The slice ends sorted and a
      permutation of what it was, and nothing outside it changes. */
  method QuickSortRange(a: array<int>, lo: int, hi: int, g: Rand.RandGen)
    requires 0 <= lo <= hi <= a.Length
    requires g.Valid()
    modifies a, g`curr
    ensures g.Valid()
    ensures Sorted(a[lo..hi])
    ensures multiset(a[lo..hi]) == multiset(old(a[lo..hi]))
    ensures forall k :: 0 <= k < lo || hi <= k < a.Length ==> a[k] == old(a[k])
    ensures hi - lo <= 1 ==> a[..] == old(a[..])
    decreases hi - lo, 1
  {
    if hi - lo <= 1 {
      return;
    }
    var p := Pivot(a, lo, hi, g);
    SortSides(a, lo, p, hi, g);
  }

  /** The two recursive calls of `quick_sort` once `pivot` has returned
      `p`: sort `[lo, p)`, then `[p + 1, hi)`. Neither call touches `a[p]`
      or the other part, so the slice `[lo, hi)` ends sorted and a
      permutation of what it was. */
  method SortSides(a: array<int>, lo: int, p: int, hi: int, g: Rand.RandGen)
    requires 0 <= lo <= p < hi <= a.Length
    requires forall k :: lo <= k < p ==> a[k] < a[p]
    requires forall k :: p < k < hi ==> a[p] <= a[k]
    requires g.Valid()
    modifies a, g`curr
    ensures g.Valid()
    ensures Sorted(a[lo..hi])
    ensures multiset(a[lo..hi]) == multiset(old(a[lo..hi]))
    ensures forall k :: 0 <= k < lo || hi <= k < a.Length ==> a[k] == old(a[k])
    decreases hi - lo, 0
  {
    ghost var parted := a[..];
    QuickSortRange(a, lo, p, g);
    ghost var leftDone := a[..];
    QuickSortRange(a, p + 1, hi, g);
    assert a[lo..p] == leftDone[lo..p];
    assert leftDone[p + 1..hi] == parted[p + 1..hi];
    SortedAroundPivot(parted, a[..], lo, p, hi);
  }

  /** Once `parted` is partitioned around `parted[p]`, sorting the parts on
      either side of `p` in place, without moving `parted[p]`, sorts the
      whole slice `[lo, hi)` and permutes it. */
  lemma SortedAroundPivot(parted: seq<int>, s: seq<int>, lo: int, p: int, hi: int)
    requires 0 <= lo <= p < hi <= |parted| == |s|
    requires forall k :: lo <= k < p ==> parted[k] < parted[p]
    requires forall k :: p < k < hi ==> parted[p] <= parted[k]
    requires s[p] == parted[p]
    requires multiset(s[lo..p]) == multiset(parted[lo..p]) && Sorted(s[lo..p])
    requires multiset(s[p + 1..hi]) == multiset(parted[p + 1..hi]) && Sorted(s[p + 1..hi])
    ensures Sorted(s[lo..hi])
    ensures multiset(s[lo..hi]) == multiset(parted[lo..hi])
  {
    var left, right := s[lo..p], s[p + 1..hi];
    AllBelowKept(parted[lo..p], left, s[p]);
    AllAtLeastKept(parted[p + 1..hi], right, s[p]);
    assert s[lo..hi] == left + [s[p]] + right;
    SortedAround(left, s[p], right);
    SplitAround(s, lo, p, hi);
    SplitAround(parted, lo, p, hi);
  }

  /** `quick_sort` on a whole array. Sorted input is left as it is, since a
      sorted permutation of a sequence is unique. */
  method QuickSort(a: array<int>, g: Rand.RandGen)
    requires g.Valid()
    modifies a, g`curr
    ensures g.Valid()
    ensures Sorted(a[..])
    ensures multiset(a[..]) == multiset(old(a[..]))
    ensures a.Length <= 1 ==> a[..] == old(a[..])
    ensures Sorted(old(a[..])) ==> a[..] == old(a[..])
  {
    assert a[0..a.Length] == a[..];
    QuickSortRange(a, 0, a.Length, g);
    assert a[0..a.Length] == a[..];
    if Sorted(old(a[..])) {
      SortedPermutationUnique(a[..], old(a[..]));
    }
  }
}
