# Sorting: in-place quicksort and mergesort on integer arrays

This project models the static C# class `Sorting` in Sorting/Sorting.cs. The class
has two public entry points, `Qsort` and `Mergesort`. Each one rejects a null
array with an argument-null error. Otherwise it sorts the `int[]` in place.

- **Quicksort.** `Qsorting` works on an inclusive range `[left, right]`.
  - It draws a pivot position from `[left, right]`.
  - `Partition` rearranges the range with the Lomuto scheme, using `Swap`.
  - It then recurses on the two sides of the pivot's final position.
- **Mergesort.** `Mergesorting` splits the range at `(left + right) / 2` and
  sorts both halves.
  - `Merge` then copies the halves into two fresh arrays.
  - Its main loop writes back the smaller front element, taking the right
    one when the fronts are equal.
  - Two closing loops drain whatever is left of the left copy and then of the
    right copy.

The model is imperative, like the source. The sorts are methods over a Dafny
`array<int>`, with `modifies` frames and loop invariants. Module `Sorting`
holds the methods and the proof steps that are specific to them. Module
`SortSpec` holds the vocabulary they are proved against:

- `Sorted` is the neighbour-by-neighbour check used by the test suite.
- `SameOutside` says which cells a call may touch.
- `Merged` is a functional reference definition of one merge.
- The lemmas relate these to permutations (multisets) and to each other.

`Merge`'s three copying and merging loops live in helper methods:

- `Subarray` is the allocation plus the copy loop; it is called once per
  temporary array.
- `MergeFronts` is the main loop.
- `CopyTail` is each closing loop.

Each helper is proved against the piece of the merge it writes.

The pivot in the source comes from `System.Random`. Here it is any index in
`[left, right]`, chosen by `:|`, so every proof covers every possible pivot
sequence.

## Model

| member | source | states |
|---|---|---|
| Sorting.ThrowIfNull | Sorting/Sorting.cs:235-240 | passes exactly when the array is present; otherwise fails with an argument-null error naming `array` |
| Sorting.Qsort | Sorting/Sorting.cs:28-33 | the outcome is that of the null check; a present array ends sorted and a permutation of its old contents, and an already sorted array (so any empty or one-element array) is left unchanged |
| Sorting.Mergesort | Sorting/Sorting.cs:44-49 | the same outcome as Qsort, reached by mergesort |
| Sorting.Qsorting | Sorting/Sorting.cs:63-76 | for every pivot choice in `[left, right]`, the range ends sorted, the array keeps its multiset, and no cell outside the range changes; an empty range leaves the whole array unchanged |
| Sorting.SortedAfterPartition | Sorting/Sorting.cs:72-75 | partitioning and then sorting each side of the pivot in place, left side first, leaves the whole range sorted |
| Sorting.LowerSideKept | Sorting/Sorting.cs:74 | the sorted left side holds only values below the pivot, and the pivot stays put through both recursive sorts |
| Sorting.UpperSideKept | Sorting/Sorting.cs:75 | the sorted right side holds only values at least the pivot |
| Sorting.Partition | Sorting/Sorting.cs:98-115 | the returned position is inside the range and holds the chosen pivot value; the elements before it (in range) are strictly smaller, the ones after it are at least as large, the multiset is kept, and the outside is untouched |
| Sorting.Swap | Sorting/Sorting.cs:126-131 | exchanges the two cells, changes no other cell and keeps the multiset; the same index on both sides changes nothing |
| Sorting.Mergesorting | Sorting/Sorting.cs:145-157 | the range ends sorted, the array keeps its multiset, and no cell outside the range changes; a range of fewer than two cells leaves the array unchanged |
| Sorting.Merge | Sorting/Sorting.cs:174-224 | the window becomes exactly `Merged` of the two old runs; it is sorted when both runs were, the multiset is kept, and nothing outside the window changes |
| Sorting.Subarray | Sorting/Sorting.cs:176-187 | returns a fresh array whose contents are the requested slice of the source array |
| Sorting.MergeFronts | Sorting/Sorting.cs:189-207 | stops with one copy used up and `arrayIndex == left + leftIndex + rightIndex`; it has written exactly the first `arrayIndex - left` elements of the merge from `left` on, and what remains to merge is the rest of the merge |
| Sorting.CopyTail | Sorting/Sorting.cs:209-223 | copies the unconsumed rest of a temporary array into consecutive cells from `arrayIndex`, changes nothing else, and ends with the source index at its length |
| Sorting.TakeLeft | Sorting/Sorting.cs:195-199 | when the right copy is used up or the left front is strictly smaller, the left front is the next element of the merge |
| Sorting.TakeRight | Sorting/Sorting.cs:200-204 | when the left copy is used up or the right front is not larger, the right front is the next element of the merge |
| Sorting.OverwrittenLayout | Sorting/Sorting.cs:193-207 | writing the merge cell by cell from `left` leaves the old array with the written prefix of the merge spliced in |
| Sorting.MergeTails | Sorting/Sorting.cs:209-223 | after the main loop, draining the left copy and then the right one completes the merge in the window |
| Sorting.MergedWindow | Sorting/Sorting.cs:174-224 | a window holding the merge of its two old runs, with the outside untouched, gives an array with the same multiset, and the window is sorted when both runs were |
| SortSpec.MergedFrom | Sorting/Sorting.cs:193-223 | the rest of the merge after `i` left and `j` right elements are consumed has exactly the unconsumed number of elements |
| SortSpec.MergedPermutation | Sorting/Sorting.cs:193-223 | the merge holds exactly the unconsumed elements of both runs, as a multiset |
| SortSpec.RestPermutation | Sorting/Sorting.cs:209-223 | once one run is used up, the rest of the merge holds exactly what is left of the other run |
| SortSpec.FrontPermutation | Sorting/Sorting.cs:195-204 | taking either front keeps the merge a rearrangement of the unconsumed elements |
| SortSpec.MergedSorted | Sorting/Sorting.cs:193-223 | merging two sorted runs gives a sorted sequence, whose first element is a front of one of the runs |
| SortSpec.SortedIffPairwise | Sorting.Tests/SortingTests.cs:280-291 | `Sorted` transcribes the neighbour check of the test helper `IsSorted` (line 284); it holds exactly when every earlier element is at most every later one |
| SortSpec.SortedPermutationUnique | Sorting/Sorting.cs:28-33 | two sorted sequences with the same multiset are equal, so a sort's result is determined by its input |
| SortSpec.RangePermutation | Sorting/Sorting.cs:74-75 | for arrays that agree outside a window, the whole arrays are permutations of each other exactly when the windows are |
| SortSpec.PermutationKeepsBounds | Sorting/Sorting.cs:74-75 | rearranging a range neither breaks nor creates a strict upper or a lower bound on its values |
| SortSpec.SortedAroundPivot | Sorting/Sorting.cs:72-75 | a sorted part below a pivot and a sorted part at or above it, on either side of the pivot, make a sorted whole |

## Left out

- The range overloads `Qsort(array, left, right)` and `Mergesort(array, left, right)`, together with their argument-out-of-range errors. Sorting/Sorting.cs does not contain them; only the two whole-array entry points are modelled.
- `System.Random`: the pivot position is any value in `[left, right]`, chosen nondeterministically. The proofs hold for every choice, but the distribution and the expected running time are not modelled.
- Sorting.Merge: does not claim stability. On equal fronts it takes the element of the right copy, because the comparison at Sorting/Sorting.cs:195 is a strict `<`. For plain integers equal values cannot be told apart, so the sorted result is the same either way (`SortSpec.SortedPermutationUnique`).
- Running time, recursion depth and the allocation cost of the temporary arrays.
- Sorting.Mergesorting: computes `(left + right) / 2` on unbounded integers and does not model the 32-bit overflow of that sum. In C#'s default unchecked arithmetic the sum wraps once an `int[]` has more than 2^30 + 1 elements, which 64-bit .NET allows: the right-most ranges then give `left + right > 2^31 - 1`, a negative `middle`, and out-of-range indexing.
- The exceptions an out-of-range index would raise inside the private workers. Their preconditions rule out such indices whenever the range is non-empty; the public entry points never pass such indices.
- The test harness in Sorting.Tests/SortingTests.cs. Only its `IsSorted` check is used, as the definition of `SortSpec.Sorted`.
