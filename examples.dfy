/** The library's unit tests (src/lib.rs), restated as methods whose
    postconditions are the tests' expected outputs. Quicksort draws its
    pivots from a generator with the library's default seed. */
module Examples {
  import opened Order
  import Rand
  import Bubble
  import Merge
  import Quick

  /** A generator in the state the library's process-wide one starts in. */
  method DefaultGenerator() returns (g: Rand.RandGen)
    ensures fresh(g) && g.Valid() && g.curr == Rand.DEFAULT_SEED
  {
    Rand.DefaultSeedSafe();
    g := new Rand.RandGen(Rand.DEFAULT_SEED);
  }

  // The multisets of the tests' inputs and expected outputs, one step at a
  // time: each literal sequence has the multiset of its elements, and the
  // two displays list the same elements.

  lemma SixInput()
    ensures multiset([4, 2, 3, 6, 1, 5]) == multiset{4, 2, 3, 6, 1, 5}
  {
  }

  lemma SixOutput()
    ensures multiset([1, 2, 3, 4, 5, 6]) == multiset{1, 2, 3, 4, 5, 6}
  {
  }

  lemma SixSame()
    ensures multiset{4, 2, 3, 6, 1, 5} == multiset{1, 2, 3, 4, 5, 6}
  {
  }

  lemma SixSorted()
    ensures Sorted([1, 2, 3, 4, 5, 6])
  {
  }

  lemma EightSorted()
    ensures Sorted([1, 3, 4, 6, 8, 11, 13, 19])
  {
  }

  lemma EightInput()
    ensures multiset([4, 6, 1, 19, 8, 11, 13, 3]) == multiset{4, 6, 1, 19, 8, 11, 13, 3}
  {
  }

  lemma EightOutput()
    ensures multiset([1, 3, 4, 6, 8, 11, 13, 19]) == multiset{1, 3, 4, 6, 8, 11, 13, 19}
  {
  }

  lemma EightSame()
    ensures multiset{4, 6, 1, 19, 8, 11, 13, 3} == multiset{1, 3, 4, 6, 8, 11, 13, 19}
  {
  }

  /** The only sorted arrangement of the tests' six-element input. */
  lemma SixSortsTo(s: seq<int>)
    requires multiset(s) == multiset([4, 2, 3, 6, 1, 5]) && Sorted(s)
    ensures s == [1, 2, 3, 4, 5, 6]
  {
    SixInput();
    SixOutput();
    SixSame();
    SixSorted();
    SortedPermutationUnique(s, [1, 2, 3, 4, 5, 6]);
  }

  /** The only sorted arrangement of the tests' eight-element input. */
  lemma EightSortsTo(s: seq<int>)
    requires multiset(s) == multiset([4, 6, 1, 19, 8, 11, 13, 3]) && Sorted(s)
    ensures s == [1, 3, 4, 6, 8, 11, 13, 19]
  {
    EightInput();
    EightOutput();
    EightSame();
    EightSorted();
    SortedPermutationUnique(s, [1, 3, 4, 6, 8, 11, 13, 19]);
  }

  /** `test_bubble_sort`. */
  method BubbleSortExample() returns (r: seq<int>)
    ensures r == [1, 2, 3, 4, 5, 6]
  {
    var a := new int[6] [4, 2, 3, 6, 1, 5];
    assert a[..] == [4, 2, 3, 6, 1, 5];
    ghost var passes := Bubble.BubbleSort(a);
    r := a[..];
    SixSortsTo(r);
  }

  /** Already-ascending input: bubble sort leaves it as it is and stops
      after its first pass. */
  method BubbleSortAscendingExample() returns (r: seq<int>, ghost passes: nat)
    ensures r == [1, 2, 3, 4, 5, 6, 7, 8]
    ensures passes == 1
  {
    var a := new int[8] [1, 2, 3, 4, 5, 6, 7, 8];
    assert Sorted(a[..]);
    passes := Bubble.BubbleSort(a);
    r := a[..];
  }

  /** `test_merge_sort`, with each number its own key. */
  method MergeSortExample() returns (r: seq<int>)
    ensures r == [1, 2, 3, 4, 5, 6]
  {
    r := Merge.MergeSort([4, 2, 3, 6, 1, 5], x => x);
    assert Sorted(r);
    SixSortsTo(r);
  }

  /** Stability on a concrete input: pairs are sorted by their first
      component, and the two pairs with key 1 keep their order. */
  method MergeSortStableExample() returns (r: seq<(int, int)>)
    ensures |r| == 4
    ensures WithKey(r, (e: (int, int)) => e.0, 1) == [(1, 10), (1, 20)]
  {
    r := Merge.MergeSort([(2, 0), (1, 10), (0, 0), (1, 20)], (e: (int, int)) => e.0);
  }

  /** `test_pivot`: after partitioning, an element is below the pivot
      exactly when it lies before it. */
  method PivotExample() returns (v: seq<int>, p: int)
    ensures |v| == 8 && 0 <= p < 8
    ensures forall x :: 1 <= x < |v| ==> (v[x] < v[p] <==> x < p)
  {
    var g := DefaultGenerator();
    var a := new int[8] [4, 6, 1, 19, 8, 11, 13, 3];
    p := Quick.Pivot(a, 0, 8, g);
    v := a[..];
  }

  /** `test_quick_sort`, first input. */
  method QuickSortExample() returns (r: seq<int>)
    ensures r == [1, 3, 4, 6, 8, 11, 13, 19]
  {
    var g := DefaultGenerator();
    var a := new int[8] [4, 6, 1, 19, 8, 11, 13, 3];
    assert a[..] == [4, 6, 1, 19, 8, 11, 13, 3];
    Quick.QuickSort(a, g);
    r := a[..];
    EightSortsTo(r);
  }

  /** `test_quick_sort`, second input: already sorted, so left as it is. */
  method QuickSortSortedExample() returns (r: seq<int>)
    ensures r == [1, 2, 3, 4, 5, 6, 7, 8]
  {
    var g := DefaultGenerator();
    var a := new int[8] [1, 2, 3, 4, 5, 6, 7, 8];
    ghost var before := a[..];
    assert before == [1, 2, 3, 4, 5, 6, 7, 8];
    assert Sorted(before);
    Quick.QuickSort(a, g);
    r := a[..];
    SortedPermutationUnique(r, before);
  }
}
