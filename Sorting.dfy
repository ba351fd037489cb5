/** The two in-place integer sorts: a randomised-pivot quicksort with a
    Lomuto partition, and a top-down mergesort whose merge step copies both
    halves into temporary arrays, as in the C# class `Sorting`
    (Sorting/Sorting.cs). Ranges are inclusive `[left, right]`; a range
    with `left > right` is empty, and the workers return at once on it,
    leaving the array as it was. */
module Sorting {
  import opened SortSpec

  /** The one failure the entry points report. */
  datatype Error = ArgumentNull(paramName: string)

  /** What an entry point does with its argument: sort it, or reject it. */
  datatype Outcome = Pass | Fail(error: Error)

  /** Argument validation shared by both entry points: an absent array is
      rejected with an argument-null error naming the parameter `array`. */
  function ThrowIfNull(a: array?<int>): (r: Outcome)
    ensures r.Pass? <==> a != null
    ensures r.Fail? ==> r.error.paramName == "array"
  {
    if a == null then Fail(ArgumentNull("array")) else Pass
  }

  /** Quicksort of the whole array. An absent array fails before anything
      is touched; otherwise the array ends sorted and holds the same values.
      An array that was already sorted (in particular an empty or
      one-element one) is left exactly as it was. */
  method Qsort(a: array?<int>) returns (r: Outcome)
    modifies a
    ensures r == ThrowIfNull(a)
    ensures a != null ==> Sorted(a[..]) && multiset(a[..]) == old(multiset(a[..]))
    ensures a != null && Sorted(old(a[..])) ==> a[..] == old(a[..])
  {
    r := ThrowIfNull(a);
    if r.Fail? {
      return;
    }
    ghost var before := a[..];
    Qsorting(a, 0, a.Length - 1);
    assert a[0..a.Length] == a[..];
    if Sorted(before) {
      SortedPermutationUnique(a[..], before);
    }
  }

  /** Mergesort of the whole array, with the same outcome as Qsort. */
  method Mergesort(a: array?<int>) returns (r: Outcome)
    modifies a
    ensures r == ThrowIfNull(a)
    ensures a != null ==> Sorted(a[..]) && multiset(a[..]) == old(multiset(a[..]))
    ensures a != null && Sorted(old(a[..])) ==> a[..] == old(a[..])
  {
    r := ThrowIfNull(a);
    if r.Fail? {
      return;
    }
    ghost var before := a[..];
    Mergesorting(a, 0, a.Length - 1);
    assert a[0..a.Length] == a[..];
    if Sorted(before) {
      SortedPermutationUnique(a[..], before);
    }
  }

  /** Sorts `a[left..right]` (inclusive). The pivot position is drawn
      from `[left, right]`; the proof covers every such choice. */
  method Qsorting(a: array<int>, left: int, right: int)
    requires left <= right ==> 0 <= left && right < a.Length
    modifies a
    ensures left <= right ==> Sorted(a[left..right + 1])
    ensures multiset(a[..]) == old(multiset(a[..]))
    ensures SameOutside(old(a[..]), a[..], left, right + 1)
    decreases right + 1 - left
  {
    if left > right {
      return;
    }

    var randomPivotIndex :| left <= randomPivotIndex <= right;
    var pivotIndex := Partition(a, left, right, randomPivotIndex);
    ghost var split := a[..];

    Qsorting(a, left, pivotIndex - 1);
    ghost var leftDone := a[..];
    Qsorting(a, pivotIndex + 1, right);
    ghost var done := a[..];

    SortedAfterPartition(split, leftDone, done, left, pivotIndex, right);
  }

  /** The quicksort step: once the range `[left, right]` of `split` is
      partitioned around position `p`, sorting `[left, p-1]` in place
      (giving `leftDone`) and then `[p+1, right]` (giving `done`) leaves the
      whole range sorted. */
  lemma SortedAfterPartition(split: seq<int>, leftDone: seq<int>, done: seq<int>,
                             left: int, p: int, right: int)
    requires 0 <= left <= p <= right < |split|
    requires forall k :: left <= k < p ==> split[k] < split[p]
    requires forall k :: p < k <= right ==> split[p] <= split[k]
    requires SameOutside(split, leftDone, left, p) && multiset(split) == multiset(leftDone)
    requires SameOutside(leftDone, done, p + 1, right + 1) && multiset(leftDone) == multiset(done)
    requires Sorted(leftDone[left..p]) && Sorted(done[p + 1..right + 1])
    ensures Sorted(done[left..right + 1])
  {
    var pivot := split[p];
    LowerSideKept(split, leftDone, done, left, p, right);
    UpperSideKept(split, leftDone, done, left, p, right);
    // Sorted below, the pivot, sorted above: sorted.
    var s := done[left..right + 1];
    assert s[p - left] == pivot;
    assert s[..p - left] == done[left..p];
    assert s[p - left + 1..] == done[p + 1..right + 1];
    SortedAroundPivot(s, p - left);
  }

  /** The part of SortedAfterPartition below the pivot: sorting
      `[left, p-1]` only rearranged values smaller than the pivot, and the
      later sort of `[p+1, right]` left them and the pivot alone. */
  lemma LowerSideKept(split: seq<int>, leftDone: seq<int>, done: seq<int>,
                      left: int, p: int, right: int)
    requires 0 <= left <= p <= right < |split|
    requires forall k :: left <= k < p ==> split[k] < split[p]
    requires SameOutside(split, leftDone, left, p) && multiset(split) == multiset(leftDone)
    requires SameOutside(leftDone, done, p + 1, right + 1)
    requires Sorted(leftDone[left..p])
    ensures done[p] == split[p]
    ensures Sorted(done[left..p]) && AllBelow(done[left..p], split[p])
  {
    assert AllBelow(split[left..p], split[p]);
    RangePermutation(split, leftDone, left, p);
    PermutationKeepsBounds(split[left..p], leftDone[left..p], split[p]);
    assert leftDone[left..p] == done[left..p];
  }

  /** The part of SortedAfterPartition above the pivot: the sort of
      `[p+1, right]` only rearranged values at least as large as the
      pivot. */
  lemma UpperSideKept(split: seq<int>, leftDone: seq<int>, done: seq<int>,
                      left: int, p: int, right: int)
    requires 0 <= left <= p <= right < |split|
    requires forall k :: p < k <= right ==> split[p] <= split[k]
    requires SameOutside(split, leftDone, left, p)
    requires SameOutside(leftDone, done, p + 1, right + 1) && multiset(leftDone) == multiset(done)
    ensures AllAtLeast(done[p + 1..right + 1], split[p])
  {
    assert AllAtLeast(split[p + 1..right + 1], split[p]);
    assert split[p + 1..right + 1] == leftDone[p + 1..right + 1];
    RangePermutation(leftDone, done, p + 1, right + 1);
    PermutationKeepsBounds(leftDone[p + 1..right + 1], done[p + 1..right + 1], split[p]);
  }

  /** Lomuto partition of `a[left..right]` around the value at `pivotIndex`:
      returns the pivot's final position `p`, with everything before it
      (within the range) strictly smaller and everything after it at
      least as large. */
  method Partition(a: array<int>, left: int, right: int, pivotIndex: int) returns (p: int)
    requires 0 <= left <= pivotIndex <= right < a.Length
    modifies a
    ensures left <= p <= right
    ensures a[p] == old(a[pivotIndex])
    ensures forall k :: left <= k < p ==> a[k] < a[p]
    ensures forall k :: p < k <= right ==> a[p] <= a[k]
    ensures multiset(a[..]) == old(multiset(a[..]))
    ensures SameOutside(old(a[..]), a[..], left, right + 1)
  {
    var pivot := a[pivotIndex];
    Swap(a, pivotIndex, right);
    var swapPosition := left;

    for i := left to right
      invariant left <= swapPosition <= i
      invariant a[right] == pivot
      invariant forall k :: left <= k < swapPosition ==> a[k] < pivot
      invariant forall k :: swapPosition <= k < i ==> pivot <= a[k]
      invariant multiset(a[..]) == old(multiset(a[..]))
      invariant SameOutside(old(a[..]), a[..], left, right + 1)
    {
      if a[i] < pivot {
        Swap(a, i, swapPosition);
        swapPosition := swapPosition + 1;
      }
    }

    Swap(a, swapPosition, right);
    p := swapPosition;
  }

  /** Exchanges the cells `i` and `j` of `a`; nothing else changes, and
      nothing at all when `i == j`. */
  method Swap(a: array<int>, i: int, j: int)
    requires 0 <= i < a.Length && 0 <= j < a.Length
    modifies a
    ensures a[i] == old(a[j]) && a[j] == old(a[i])
    ensures forall k :: 0 <= k < a.Length && k != i && k != j ==> a[k] == old(a[k])
    ensures multiset(a[..]) == old(multiset(a[..]))
  {
    var temp := a[i];
    a[i] := a[j];
    a[j] := temp;
  }

  /** Sorts `a[left..right]` (inclusive) by sorting each half, split at
      `(left + right) / 2`, and merging them. */
  method Mergesorting(a: array<int>, left: int, right: int)
    requires left < right ==> 0 <= left && right < a.Length
    modifies a
    ensures 0 <= left <= right < a.Length ==> Sorted(a[left..right + 1])
    ensures multiset(a[..]) == old(multiset(a[..]))
    ensures SameOutside(old(a[..]), a[..], left, right + 1)
    decreases right + 1 - left
  {
    if left >= right {
      return;
    }

    var middle := (left + right) / 2;
    Mergesorting(a, left, middle);
    ghost var leftDone := a[..];
    Mergesorting(a, middle + 1, right);
    assert a[left..middle + 1] == leftDone[left..middle + 1];
    Merge(a, left, middle, right);
  }

  /** Merges the adjacent runs `a[left..middle]` and `a[middle+1..right]`
      (inclusive) back into `a[left..right]` through two temporary copies.
      The window receives `Merged` of the two old runs, so it is sorted when
      both runs were and holds the same values in any case. */
  method Merge(a: array<int>, left: int, middle: int, right: int)
    requires 0 <= left <= middle < right < a.Length
    modifies a
    ensures a[left..right + 1] == Merged(old(a[left..middle + 1]), old(a[middle + 1..right + 1]))
    ensures Sorted(old(a[left..middle + 1])) && Sorted(old(a[middle + 1..right + 1])) ==>
      Sorted(a[left..right + 1])
    ensures multiset(a[..]) == old(multiset(a[..]))
    ensures SameOutside(old(a[..]), a[..], left, right + 1)
  {
    ghost var original := a[..];
    var leftSubarray := Subarray(a, left, middle - left + 1);
    var rightSubarray := Subarray(a, middle + 1, right - middle);
    ghost var lefts, rights := leftSubarray[..], rightSubarray[..];
    assert lefts == original[left..middle + 1] && rights == original[middle + 1..right + 1];

    var leftIndex, rightIndex, arrayIndex := MergeFronts(a, leftSubarray, rightSubarray, left);
    ghost var fronts, i, j, at := a[..], leftIndex, rightIndex, arrayIndex;
    assert leftSubarray[..] == lefts && rightSubarray[..] == rights;
    // Whatever is left of the copies goes back in order: first the left
    // one, then the right one (at most one of them is not used up).
    leftIndex, arrayIndex := CopyTail(a, leftSubarray, leftIndex, arrayIndex);
    ghost var drained, at' := a[..], arrayIndex;
    assert leftSubarray[..] == lefts && rightSubarray[..] == rights;
    rightIndex, arrayIndex := CopyTail(a, rightSubarray, rightIndex, arrayIndex);
    assert rightSubarray[..] == rights;

    MergeTails(original, fronts, drained, a[..], left, lefts, rights, i, j, at, at');
    SplicedWindow(original, left, Merged(lefts, rights), right + 1);
    MergedWindow(original, a[..], left, middle, right, lefts, rights);
  }

  /** A fresh array holding a copy of the `length` cells of `a` from `from`
      on: the allocation and copying loop that fill each of Merge's two
      temporary arrays. */
  method Subarray(a: array<int>, from: int, length: int) returns (copy: array<int>)
    requires 0 <= from && 0 <= length && from + length <= a.Length
    ensures fresh(copy)
    ensures copy[..] == a[from..from + length]
  {
    copy := new int[length];
    for i := 0 to length
      modifies copy
      invariant copy[..i] == a[from..from + i]
    {
      copy[i] := a[from + i];
    }
  }

  /** Merge's main loop: while both copies have elements left, write the
      smaller front into the next cell of `a`, the right one when the fronts
      are equal. It stops with one copy used up, having written the first
      `arrayIndex - left` elements of the merge from `left` on. */
  method MergeFronts(a: array<int>, leftSubarray: array<int>, rightSubarray: array<int>, left: int)
    returns (leftIndex: int, rightIndex: int, arrayIndex: int)
    requires leftSubarray != a && rightSubarray != a
    requires 0 <= left && left + leftSubarray.Length + rightSubarray.Length <= a.Length
    modifies a
    ensures 0 <= leftIndex <= leftSubarray.Length && 0 <= rightIndex <= rightSubarray.Length
    ensures leftIndex == leftSubarray.Length || rightIndex == rightSubarray.Length
    ensures arrayIndex == left + leftIndex + rightIndex
    ensures MergedFrom(leftSubarray[..], rightSubarray[..], leftIndex, rightIndex) ==
      Merged(leftSubarray[..], rightSubarray[..])[arrayIndex - left..]
    ensures a[..] == Spliced(old(a[..]), left, Merged(leftSubarray[..], rightSubarray[..])[..arrayIndex - left])
  {
    ghost var original := a[..];
    ghost var l, r := leftSubarray[..], rightSubarray[..];
    ghost var goal := Merged(l, r);
    leftIndex, rightIndex, arrayIndex := 0, 0, left;
    ghost var n := 0;

    while leftIndex < leftSubarray.Length && rightIndex < rightSubarray.Length
      invariant 0 <= leftIndex <= |l| && 0 <= rightIndex <= |r|
      invariant n == leftIndex + rightIndex && arrayIndex == left + n
      invariant MergedFrom(l, r, leftIndex, rightIndex) == goal[n..]
      invariant a[..] == Overwritten(original, left, goal, n)
    {
      if leftSubarray[leftIndex] < rightSubarray[rightIndex] {
        TakeLeft(l, r, leftIndex, rightIndex, n, goal);
        a[arrayIndex] := leftSubarray[leftIndex];
        leftIndex := leftIndex + 1;
      } else {
        TakeRight(l, r, leftIndex, rightIndex, n, goal);
        a[arrayIndex] := rightSubarray[rightIndex];
        rightIndex := rightIndex + 1;
      }
      arrayIndex := arrayIndex + 1;
      n := n + 1;
    }
    OverwrittenLayout(original, left, goal, n);
  }

  /** One of Merge's two closing loops: copy what is left of `src`, from
      index `from` on, into `a` from cell `at` on. */
  method CopyTail(a: array<int>, src: array<int>, from: int, at: int) returns (srcIndex: int, arrayIndex: int)
    requires src != a
    requires 0 <= from <= src.Length && 0 <= at && at + src.Length - from <= a.Length
    modifies a
    ensures srcIndex == src.Length && arrayIndex == at + src.Length - from
    ensures a[..] == Spliced(old(a[..]), at, src[from..])
  {
    ghost var original := a[..];
    ghost var rest := src[from..];
    srcIndex, arrayIndex := from, at;
    ghost var n := 0;
    assert Spliced(original, at, rest[..n]) == original;

    while srcIndex < src.Length
      invariant from <= srcIndex <= src.Length
      invariant n == srcIndex - from && arrayIndex == at + n
      invariant a[..] == Spliced(original, at, rest[..n])
    {
      SpliceNext(original, at, rest, n);
      a[arrayIndex] := src[srcIndex];
      srcIndex := srcIndex + 1;
      arrayIndex := arrayIndex + 1;
      n := n + 1;
    }
    assert rest[..n] == rest;
  }

  /** `original` with its cells from `left` on overwritten, one at a
      time, by the first `n` elements of `t`. */
  ghost function Overwritten(original: seq<int>, left: int, t: seq<int>, n: int): (s: seq<int>)
    requires 0 <= left && 0 <= n <= |t| && left + n <= |original|
    ensures |s| == |original|
    decreases n
  {
    if n == 0 then original
    else Overwritten(original, left, t, n - 1)[left + n - 1 := t[n - 1]]
  }

  /** Overwriting cell by cell is splicing in the prefix. */
  lemma {:induction false} OverwrittenLayout(original: seq<int>, left: int, t: seq<int>, n: int)
    requires 0 <= left && 0 <= n <= |t| && left + n <= |original|
    ensures Overwritten(original, left, t, n) == Spliced(original, left, t[..n])
    decreases n
  {
    if n == 0 {
      assert Spliced(original, left, t[..n]) == original;
    } else {
      OverwrittenLayout(original, left, t, n - 1);
      SpliceNext(original, left, t, n - 1);
    }
  }

  /** Taking the left front (the right copy is used up, or the left front
      is strictly smaller) produces the next element of the merge. */
  lemma TakeLeft(l: seq<int>, r: seq<int>, i: int, j: int, n: int, goal: seq<int>)
    requires 0 <= i < |l| && 0 <= j <= |r| && n == i + j && |goal| == |l| + |r|
    requires MergedFrom(l, r, i, j) == goal[n..]
    requires j == |r| || l[i] < r[j]
    ensures goal[n] == l[i] && MergedFrom(l, r, i + 1, j) == goal[n + 1..]
  {
    assert goal[n..] == [goal[n]] + goal[n + 1..];
    if j == |r| {
      assert l[i..] == [l[i]] + l[i + 1..];
    }
  }

  /** Taking the right front (the left copy is used up, or the fronts are
      equal, or the right one is smaller) produces the next element. */
  lemma TakeRight(l: seq<int>, r: seq<int>, i: int, j: int, n: int, goal: seq<int>)
    requires 0 <= i <= |l| && 0 <= j < |r| && n == i + j && |goal| == |l| + |r|
    requires MergedFrom(l, r, i, j) == goal[n..]
    requires i == |l| || r[j] <= l[i]
    ensures goal[n] == r[j] && MergedFrom(l, r, i, j + 1) == goal[n + 1..]
  {
    assert goal[n..] == [goal[n]] + goal[n + 1..];
    if i == |l| {
      assert r[j..] == [r[j]] + r[j + 1..];
    }
  }

  /** After the main loop stops with one copy used up, draining the rest
      of the left copy and then of the right one completes the merge. */
  lemma MergeTails(original: seq<int>, fronts: seq<int>, drained: seq<int>, final: seq<int>,
                   left: int, l: seq<int>, r: seq<int>, i: int, j: int, at: int, at': int)
    requires 0 <= i <= |l| && 0 <= j <= |r| && (i == |l| || j == |r|)
    requires 0 <= left && left + |l| + |r| <= |original|
    requires at == left + i + j && at' == at + |l| - i
    requires MergedFrom(l, r, i, j) == Merged(l, r)[at - left..]
    requires fronts == Spliced(original, left, Merged(l, r)[..at - left])
    requires drained == Spliced(fronts, at, l[i..])
    requires final == Spliced(drained, at', r[j..])
    ensures final == Spliced(original, left, Merged(l, r))
  {
    var goal := Merged(l, r);
    var done := goal[..at - left];
    SplicedTwice(original, left, done, at, l[i..]);
    SplicedTwice(original, left, done + l[i..], at', r[j..]);
    assert done + l[i..] + r[j..] == goal by {
      if i == |l| {
        assert l[i..] == [];
      } else {
        assert r[j..] == [];
      }
      assert goal == done + goal[at - left..];
    }
  }

  /** What Merge leaves behind: the window `[left, right]` holds the merge
      of the two runs that were there, and nothing outside it moved. Then
      the array holds the same values as before, and the window is sorted
      when both runs were. */
  lemma MergedWindow(original: seq<int>, final: seq<int>, left: int, middle: int, right: int,
                     lefts: seq<int>, rights: seq<int>)
    requires 0 <= left <= middle < right < |original|
    requires lefts == original[left..middle + 1] && rights == original[middle + 1..right + 1]
    requires SameOutside(original, final, left, right + 1)
    requires final[left..right + 1] == Merged(lefts, rights)
    ensures multiset(final) == multiset(original)
    ensures Sorted(lefts) && Sorted(rights) ==> Sorted(final[left..right + 1])
  {
    if Sorted(lefts) && Sorted(rights) {
      MergedSorted(lefts, rights, 0, 0);
    }
    MergedPermutation(lefts, rights, 0, 0);
    assert original[left..right + 1] == lefts + rights;
    RangePermutation(original, final, left, right + 1);
  }
}
