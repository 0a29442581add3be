# sorter-rs, sequential core, in Dafny

This project models the sequential core of `sorter-rs`, a small Rust
library of in-memory sorting routines, and proves what those routines
promise:

- `bubble_sort` sorts a slice in place by swapping adjacent elements, and
  stops early when its first pass makes no swap.
- `merge_sort` splits a vector at `len / 2`, sorts both halves and merges
  them. On equal heads it takes the left half's element first.
- `pivot` is a single-pass, Lomuto-style partition around a randomly drawn
  element. Here it is `Quick.Pivot`, which draws the index and hands it to
  `Quick.PartitionAt`.
- `quick_sort` partitions with `pivot` and recursively sorts the two sides
  of the pivot. Here the two recursive calls are `Quick.SortSides`.
- `RandGen` is the linear-congruential generator that draws pivot indices.

Modules:

- `Order` (order.dfy) holds the ordering predicates (`Sorted`,
  `AdjacentSorted`, `SortedBy`), `WithKey` (the elements with a given key,
  in order), `slice::swap` as `Swap`, and the lemmas the sorts share.
- `Rand` (rand.dfy) is `src/b_rand.rs`. `RandGen` is a class whose only
  mutable field is `curr`. Its multiplier, increment and modulus are
  constant fields set by the constructor.
- `Bubble`, `Merge` and `Quick` (bubble.dfy, merge.dfy, quick.dfy) are the
  sorts of `src/lib.rs`.
- `Examples` (examples.dfy) restates the library's unit tests as methods
  whose postconditions are the tests' expected outputs.

Modelling choices:

- Elements are `int` for bubble sort, `pivot` and quicksort. The library
  accepts any `PartialOrd` type.
- Merge sort is generic over `T` and compares elements through an integer
  key `T -> int`. Elements with equal keys can then differ, which is what
  lets stability be stated: for every key, the elements carrying it come
  out in the order they went in.
- `quick_sort` works on sub-slices `v[..p]` and `v[p + 1..]`. These are the
  index ranges `[lo, hi)` of one array (`Quick.QuickSortRange`).
- The library draws pivot indices from a process-wide, mutex-guarded
  generator seeded 34052. Here a `RandGen` object is passed down the
  recursion instead, and `Examples.DefaultGenerator` builds one in that
  starting state.
- The library's `usize` is 64 bits wide. Two of its operations panic:
  the generator's step `curr * mul + inc` when it overflows, and
  `bubble_sort`'s bound `v.len() - 1` on an empty slice. Both, and the
  generator's division by a zero `max`, are preconditions here.
- The generator's overflow is worked out exactly. States up to
  327103354083 step safely (`Rand.NoOverflowBound`). Every state reached
  after a draw is below the modulus and therefore safe
  (`Rand.NextNoOverflow`). The default seed is safe. The largest `usize`
  seed overflows on its first draw.
- `merge_sort` and `quick_sort` return inputs of length at most one
  unchanged (src/lib.rs:29-31, src/lib.rs:88-90). `bubble_sort` has no
  such guard: it computes `v.len() - 1`, which underflows on an empty
  slice (src/lib.rs:11). The model follows the code, so
  `Bubble.BubbleSort` requires a non-empty array.
- The inner loop of `bubble_sort` is the helper `Bubble.Pass`. It reports
  whether it swapped, and `BubbleSort` clears its `sorted` flag when it
  did. This is the same flag logic as setting the flag inside the loop.

## Model

| member | source | states |
|---|---|---|
| `Rand.RandGen.constructor` | src/b_rand.rs:19-26 | The state starts at the seed. The multiplier is 56394237, the increment 34642349 and the modulus 9384434935. The generator can be stepped safely exactly when the seed is at most 327103354083. |
| `Rand.RandGen.Gen` | src/b_rand.rs:28-31 | Requires `max > 0` (the library divides by `max`) and a state whose step does not overflow. The new state is `(curr * mul + inc) % modulo`, which is below the modulus. The result is that state reduced modulo `max`, so it lies in `[0, max)`. Only `curr` changes, and the generator stays safe to step. |
| `Rand.Next` | src/b_rand.rs:29 | The generator's next state is always below the modulus. |
| `Rand.Draw` | src/b_rand.rs:30 | A draw with bound `max > 0` lies in `[0, max)`. |
| `Rand.Outputs` | src/b_rand.rs:28-31 | The outputs of a run of draws are a function of the starting state and the bounds alone. There is one output per bound, and each is below its bound. |
| `Rand.RandGen.GenAll` | src/b_rand.rs:28-31 | Repeated calls of `gen` hand out exactly `Outputs(start state, bounds)` and end in the state `After(start state, bounds)`. |
| `Rand.SameSeedSameOutputs` | src/b_rand.rs:19-31 | Two generators created with the same seed and given the same bounds produce identical outputs. |
| `Rand.NoOverflowBound` | src/b_rand.rs:29 | The step `curr * 56394237 + 34642349` fits in 64 bits exactly when `curr <= 327103354083`. |
| `Rand.NextNoOverflow` | src/b_rand.rs:29 | Every state reached by a step can itself be stepped without overflow. |
| `Rand.DefaultSeedSafe` | src/b_rand.rs:3-5 | The process-wide generator's seed 34052 can be stepped without overflow. |
| `Rand.LargestSeedOverflows` | src/b_rand.rs:19-29 | The constructor accepts the largest `usize` seed, but that seed's first step overflows. |
| `Rand.HundredDraws` | src/b_rand.rs:38-45 | The generator test: a generator seeded 12 draws 100 values with bound 100, and each is at most 100. |
| `Order.Swap` | src/lib.rs:79-80 | `slice::swap` exchanges the two elements, possibly at the same index. No other element changes, and the multiset of elements is kept. |
| `Order.SortedIffAdjacentSorted` | src/lib.rs:13-20 | A slice is sorted exactly when no adjacent pair is out of order. This is why a pass without swaps lets `bubble_sort` stop. |
| `Bubble.Pass` | src/lib.rs:12-17 | One inner pass over `v[..m]`. It permutes the slice, leaves `v[m..]` alone and moves a largest element of `v[..m]` to `v[m - 1]`. When `m < len` it requires that `v[m]` is no smaller than any element of `v[..m]` (the outer loop of `bubble_sort` keeps this as an invariant at the only call), and then ends with `v[m - 1] <= v[m]`. It swaps exactly when `v[..m]` has an adjacent pair out of order, and leaves the slice unchanged when it does not. |
| `Bubble.BubbleSort` | src/lib.rs:9-22 | Requires a non-empty slice. The result is sorted (in particular no `v[j] > v[j + 1]`) and a permutation of the input. Ascending input is left as it was. The ghost pass count is 0 for one element; otherwise it is 1 (the early exit) when the input is already ascending and `len - 1` when it is not. For `len >= 3` a count of 1 therefore happens exactly on ascending input; for `len == 2` both cases make one pass. |
| `Merge.Merged` | src/lib.rs:44-70 | The merge the loop performs, as a function. It takes the right head only when its key is strictly smaller. Its length is the sum of both lengths. |
| `Merge.MergedPermutes` | src/lib.rs:44-70 | The merge's multiset is the union of both halves' multisets. |
| `Merge.MergedSorted` | src/lib.rs:44-70 | Merging two sorted halves gives a sorted result. |
| `Merge.MergedStable` | src/lib.rs:48-54 | Suppose both halves are sorted. Then for every key, the merge's elements with that key are the left half's ones, in order, followed by the right half's ones. Ties go to the left half. |
| `Merge.MergeHalves` | src/lib.rs:39-70 | The two-iterator loop (peek at each head, push, and append what is left once one side runs out) computes exactly `Merged(a, b)`. |
| `Merge.MergeSort` | src/lib.rs:25-71 | The result has the input's length, is sorted by key and is a permutation of the input. It is stable: for every key, its elements keep their input order. Inputs of length at most one, and inputs already sorted by key, come back unchanged. |
| `Order.SortedByKeysUnique` | src/lib.rs:25-71 | Two sequences of equal length, both sorted by key, that hold the same elements in the same order under every key are equal. This is why the stable `merge_sort` returns sorted input as it was. |
| `Quick.Pivot` | src/lib.rs:73-85 | Requires a non-empty slice. It advances the generator by one draw and returns `p` inside the slice. `v[p]` is the element that was at the drawn index. For every index `k` of the slice, `v[k] < v[p]` holds exactly when `k < p`. The slice is permuted, and nothing outside it changes. |
| `Quick.PartitionAt` | src/lib.rs:75-84 | The partition once the index `r` is drawn. It returns `p` inside the slice with `v[p]` the element that was at `r`. For every index `k` of the slice, `v[k] < v[p]` holds exactly when `k < p`. The slice is permuted, and nothing outside it changes. |
| `Quick.SortedAroundPivot` | src/lib.rs:91-95 | Take a slice partitioned around `v[p]`. Sort the parts before and after `p` in place without moving `v[p]`. Then the whole slice is sorted and is a permutation of the partitioned one. |
| `Quick.QuickSortRange` | src/lib.rs:87-96 | The slice `[lo, hi)` ends sorted and a permutation of its old contents. Nothing outside it changes, so the recursive calls never move the pivot or each other's elements. Slices of length 0 or 1 are left as they are. The generator stays safe to step. |
| `Quick.SortSides` | src/lib.rs:92-95 | Requires a slice partitioned around `v[p]`. After sorting `v[lo..p]` and then `v[p + 1..hi]`, the whole slice is sorted and a permutation of what it was. Nothing outside it changes, and the generator stays safe to step. |
| `Quick.QuickSort` | src/lib.rs:87-96 | Sorts the whole array in place into a permutation of its input. Arrays of length 0 or 1, and arrays already sorted, are left as they are. |
| `Examples.DefaultGenerator` | src/b_rand.rs:3-5 | A generator in the process-wide one's starting state, seed 34052, safe to step. |
| `Examples.BubbleSortExample` | src/lib.rs:140-145 | `[4, 2, 3, 6, 1, 5]` bubble-sorts to `[1, 2, 3, 4, 5, 6]`. |
| `Examples.BubbleSortAscendingExample` | src/lib.rs:10-20 | `[1..8]` is left unchanged by bubble sort after a single pass. |
| `Examples.MergeSortExample` | src/lib.rs:147-152 | `[4, 2, 3, 6, 1, 5]` merge-sorts to `[1, 2, 3, 4, 5, 6]`. |
| `Examples.MergeSortStableExample` | src/lib.rs:48-54 | Pairs sorted by their first component keep `(1, 10)` before `(1, 20)`. |
| `Examples.PivotExample` | src/lib.rs:154-162 | The pivot test: after `pivot` on `[4, 6, 1, 19, 8, 11, 13, 3]`, `v[x] < v[p]` holds exactly when `x < p`. |
| `Examples.QuickSortExample` | src/lib.rs:164-168 | `[4, 6, 1, 19, 8, 11, 13, 3]` quick-sorts to `[1, 3, 4, 6, 8, 11, 13, 19]`, whatever pivots are drawn. |
| `Examples.QuickSortSortedExample` | src/lib.rs:170-172 | `[1..8]` quick-sorts to itself. |

## Left out

- `threaded_quick_sort` (src/lib.rs:98-121) is not modelled. It spawns a
  thread per partition, shares the slice through a raw pointer and ignores
  a panicking worker's result. Run sequentially, it makes the same pivot
  and recursion steps as `quick_sort`. Its concurrency is outside a
  sequential model.
- `quick_sort_rayon` (src/lib.rs:123-134) is not modelled. It is the same
  recursion submitted to a fork-join library, which this model does not
  include.
- The process-wide generator (src/b_rand.rs:3-9) is not modelled: the
  `lazy_static` singleton, its mutex and `rand`. Callers pass a `RandGen`
  instead. The pivot sequence is then the one a fresh generator with the
  same seed would produce, not one shared across calls and threads.
- Rand.RandGen.Gen: states above 327103354083 are excluded by precondition.
  In a release build the library would wrap around modulo 2^64 there
  instead of panicking; that behaviour is not modelled.
- Element types: only integers (and, for merge sort, integer keys) are
  compared. The library's `PartialOrd` bound also admits incomparable
  elements, such as a floating-point NaN. `Debug` plays no part in the
  logic.
- `Vec::with_capacity` and the iterator machinery of `merge_sort` are
  replaced by sequences and indices. Allocation and moves are not modelled.
- Panics are not modelled as outcomes. The three panicking cases (empty
  `bubble_sort` input, `gen(0)`, generator overflow) are preconditions
  instead.
