/** Specification side of the sorting routines: what "sorted" and "a
    permutation" mean, the functional picture of one merge step, and the
    lemmas the in-place methods of module Sorting lean on. */
module SortSpec {

  /** Non-decreasing in the form the test suite checks it: no element is
      smaller than its left neighbour. */
  predicate Sorted(s: seq<int>)
  {
    forall i :: 0 < i < |s| ==> s[i - 1] <= s[i]
  }

  /** Non-decreasing stated over every pair of positions. */
  predicate SortedPairwise(s: seq<int>)
  {
    forall i, j :: 0 <= i < j < |s| ==> s[i] <= s[j]
  }

  /** Every element of `s` is strictly smaller than `x`. */
  predicate AllBelow(s: seq<int>, x: int)
  {
    forall i :: 0 <= i < |s| ==> s[i] < x
  }

  /** Every element of `s` is at least `x`. */
  predicate AllAtLeast(s: seq<int>, x: int)
  {
    forall i :: 0 <= i < |s| ==> x <= s[i]
  }

  /** `s` and `t` have the same length and agree at every position outside
      the window `[lo, hi)`. */
  predicate SameOutside(s: seq<int>, t: seq<int>, lo: int, hi: int)
  {
    |s| == |t| && forall k :: 0 <= k < |s| && !(lo <= k < hi) ==> s[k] == t[k]
  }

  /** The neighbour-by-neighbour check and the all-pairs order agree. */
  lemma {:induction false} SortedIffPairwise(s: seq<int>)
    ensures Sorted(s) <==> SortedPairwise(s)
  {
    if Sorted(s) && |s| > 1 {
      var t := s[1..];
      assert Sorted(t) by {
        forall i | 0 < i < |t| ensures t[i - 1] <= t[i] {
          assert t[i - 1] == s[i] && t[i] == s[i + 1];
        }
      }
      SortedIffPairwise(t);
      forall i, j | 0 <= i < j < |s| ensures s[i] <= s[j] {
        if i == 0 {
          assert s[0] <= s[1] == t[0];
          if j > 1 { assert t[0] <= t[j - 1]; }
        } else {
          assert t[i - 1] <= t[j - 1];
        }
      }
    }
  }

  /** A value occurring in `t` is bounded as the elements of `s` are, when
      the two hold the same multiset. */
  lemma PermutationKeepsBoundsOneWay(s: seq<int>, t: seq<int>, x: int)
    requires multiset(s) == multiset(t)
    ensures AllBelow(s, x) ==> AllBelow(t, x)
    ensures AllAtLeast(s, x) ==> AllAtLeast(t, x)
  {
    forall i | 0 <= i < |t| ensures exists j :: 0 <= j < |s| && s[j] == t[i] {
      assert t[i] in multiset(t);
      assert t[i] in s;
    }
  }

  /** Rearranging a sequence neither breaks nor creates a bound on it. */
  lemma PermutationKeepsBounds(s: seq<int>, t: seq<int>, x: int)
    requires multiset(s) == multiset(t)
    ensures AllBelow(s, x) <==> AllBelow(t, x)
    ensures AllAtLeast(s, x) <==> AllAtLeast(t, x)
  {
    PermutationKeepsBoundsOneWay(s, t, x);
    PermutationKeepsBoundsOneWay(t, s, x);
  }

  /** The multiset of a sequence is that of its three consecutive pieces. */
  lemma MultisetSplit(s: seq<int>, lo: int, hi: int)
    requires 0 <= lo <= hi <= |s|
    ensures multiset(s) == multiset(s[..lo]) + multiset(s[lo..hi]) + multiset(s[hi..])
  {
    assert s == s[..lo] + s[lo..hi] + s[hi..];
  }

  /** When two arrays of equal length agree outside `[lo, hi)`, the whole
      arrays are permutations of each other exactly when the windows are. */
  lemma RangePermutation(s: seq<int>, t: seq<int>, lo: int, hi: int)
    requires 0 <= lo <= hi <= |s|
    requires SameOutside(s, t, lo, hi)
    ensures multiset(s) == multiset(t) <==> multiset(s[lo..hi]) == multiset(t[lo..hi])
  {
    assert s[..lo] == t[..lo];
    assert s[hi..] == t[hi..];
    MultisetSplit(s, lo, hi);
    MultisetSplit(t, lo, hi);
    if multiset(s) == multiset(t) {
      forall x ensures multiset(s[lo..hi])[x] == multiset(t[lo..hi])[x] {
        assert multiset(s)[x] == multiset(t)[x];
      }
    }
  }

  /** A window split at a pivot position `p`, with smaller elements sorted
      before it and the others sorted after it, is sorted as a whole. */
  lemma SortedAroundPivot(s: seq<int>, p: int)
    requires 0 <= p < |s|
    requires Sorted(s[..p]) && Sorted(s[p + 1..])
    requires AllBelow(s[..p], s[p]) && AllAtLeast(s[p + 1..], s[p])
    ensures Sorted(s)
  {
    forall i | 0 < i < |s| ensures s[i - 1] <= s[i] {
      if i < p {
        assert s[..p][i - 1] <= s[..p][i];
      } else if i == p {
        assert s[..p][i - 1] < s[p];
      } else if i == p + 1 {
        assert s[p] <= s[p + 1..][0];
      } else {
        assert s[p + 1..][i - p - 2] <= s[p + 1..][i - p - 1];
      }
    }
  }

  /** The sequence the merge loops write back once `i` elements of `l`
      and `j` of `r` are consumed: repeatedly take the smaller front
      element, the right one when the fronts are equal, and when one side
      is used up, the rest of the other. */
  function MergedFrom(l: seq<int>, r: seq<int>, i: nat, j: nat): (m: seq<int>)
    requires i <= |l| && j <= |r|
    ensures |m| == |l| - i + |r| - j
    decreases |l| - i + |r| - j
  {
    if i == |l| then r[j..]
    else if j == |r| then l[i..]
    else if l[i] < r[j] then [l[i]] + MergedFrom(l, r, i + 1, j)
    else [r[j]] + MergedFrom(l, r, i, j + 1)
  }

  /** The merge of two whole runs. */
  function Merged(l: seq<int>, r: seq<int>): (m: seq<int>)
    ensures |m| == |l| + |r|
  {
    MergedFrom(l, r, 0, 0)
  }

  /** Merging neither loses nor duplicates an element. */
  lemma {:induction false} MergedPermutation(l: seq<int>, r: seq<int>, i: nat, j: nat)
    requires i <= |l| && j <= |r|
    ensures multiset(MergedFrom(l, r, i, j)) == multiset(l[i..]) + multiset(r[j..])
    decreases |l| - i + |r| - j
  {
    if i == |l| || j == |r| {
      RestPermutation(l, r, i, j);
    } else if l[i] < r[j] {
      MergedPermutation(l, r, i + 1, j);
      FrontPermutation(l, r, i, j);
    } else {
      MergedPermutation(l, r, i, j + 1);
      FrontPermutation(l, r, i, j);
    }
  }

  /** Once one side is used up, the merge is the rest of the other. */
  lemma RestPermutation(l: seq<int>, r: seq<int>, i: nat, j: nat)
    requires i <= |l| && j <= |r| && (i == |l| || j == |r|)
    ensures multiset(MergedFrom(l, r, i, j)) == multiset(l[i..]) + multiset(r[j..])
  {
    if i == |l| {
      assert MergedFrom(l, r, i, j) == r[j..] && l[i..] == [];
    } else {
      assert MergedFrom(l, r, i, j) == l[i..] && r[j..] == [];
    }
  }

  /** Taking a front element keeps the merge a rearrangement of what is
      left, given that the merge of the rest is one. */
  lemma FrontPermutation(l: seq<int>, r: seq<int>, i: nat, j: nat)
    requires i < |l| && j < |r|
    requires l[i] < r[j] ==>
      multiset(MergedFrom(l, r, i + 1, j)) == multiset(l[i + 1..]) + multiset(r[j..])
    requires r[j] <= l[i] ==>
      multiset(MergedFrom(l, r, i, j + 1)) == multiset(l[i..]) + multiset(r[j + 1..])
    ensures multiset(MergedFrom(l, r, i, j)) == multiset(l[i..]) + multiset(r[j..])
  {
    if l[i] < r[j] {
      assert l[i..] == [l[i]] + l[i + 1..];
      assert MergedFrom(l, r, i, j) == [l[i]] + MergedFrom(l, r, i + 1, j);
    } else {
      assert r[j..] == [r[j]] + r[j + 1..];
      assert MergedFrom(l, r, i, j) == [r[j]] + MergedFrom(l, r, i, j + 1);
    }
  }

  /** Merging two sorted runs gives a sorted sequence: what remains to be
      merged is sorted, and it starts with a front of `l[i..]` or of
      `r[j..]`. */
  lemma {:induction false} MergedSorted(l: seq<int>, r: seq<int>, i: nat, j: nat)
    requires i <= |l| && j <= |r|
    requires Sorted(l) && Sorted(r)
    ensures Sorted(MergedFrom(l, r, i, j))
    ensures i < |l| || j < |r| ==>
      (i < |l| && MergedFrom(l, r, i, j)[0] == l[i]) || (j < |r| && MergedFrom(l, r, i, j)[0] == r[j])
    decreases |l| - i + |r| - j
  {
    var m := MergedFrom(l, r, i, j);
    if i == |l| {
      assert Sorted(r[j..]) by {
        forall k | 0 < k < |r| - j ensures r[j..][k - 1] <= r[j..][k] {
          assert r[j + k - 1] <= r[j + k];
        }
      }
    } else if j == |r| {
      assert Sorted(l[i..]) by {
        forall k | 0 < k < |l| - i ensures l[i..][k - 1] <= l[i..][k] {
          assert l[i + k - 1] <= l[i + k];
        }
      }
    } else if l[i] < r[j] {
      MergedSorted(l, r, i + 1, j);
      var rest := MergedFrom(l, r, i + 1, j);
      assert rest != [] ==> l[i] <= rest[0] by {
        if i + 1 < |l| {
          assert l[i] <= l[i + 1];
        }
      }
      assert m == [l[i]] + rest;
    } else {
      MergedSorted(l, r, i, j + 1);
      var rest := MergedFrom(l, r, i, j + 1);
      assert rest != [] ==> r[j] <= rest[0] by {
        if j + 1 < |r| {
          assert r[j] <= r[j + 1];
        }
      }
      assert m == [r[j]] + rest;
    }
  }

  /** `s` with the cells from `at` on overwritten by `t`. */
  function Spliced(s: seq<int>, at: int, t: seq<int>): (u: seq<int>)
    requires 0 <= at && at + |t| <= |s|
    ensures |u| == |s|
  {
    s[..at] + t + s[at + |t|..]
  }

  /** Overwriting one more cell extends the spliced-in prefix of `t` by one
      element. */
  lemma SpliceNext(s: seq<int>, at: int, t: seq<int>, n: int)
    requires 0 <= at && 0 <= n < |t| && at + n < |s|
    ensures Spliced(s, at, t[..n])[at + n := t[n]] == Spliced(s, at, t[..n + 1])
  {
    assert t[..n + 1] == t[..n] + [t[n]];
  }

  /** Two splices side by side are one splice of the joined pieces. */
  lemma SplicedTwice(s: seq<int>, at: int, t: seq<int>, mid: int, u: seq<int>)
    requires 0 <= at && mid == at + |t| && mid + |u| <= |s|
    ensures Spliced(Spliced(s, at, t), mid, u) == Spliced(s, at, t + u)
  {
    var first := Spliced(s, at, t);
    assert first[..mid] == s[..at] + t;
    assert first[mid + |u|..] == s[mid + |u|..];
  }

  /** A splice holds the spliced-in sequence and changes nothing else. */
  lemma SplicedWindow(s: seq<int>, at: int, t: seq<int>, end: int)
    requires 0 <= at && end == at + |t| <= |s|
    ensures Spliced(s, at, t)[at..end] == t
    ensures SameOutside(s, Spliced(s, at, t), at, end)
  {
  }

  /** The first element of a non-empty sorted sequence is its least value. */
  lemma HeadIsLeast(s: seq<int>, x: int)
    requires Sorted(s) && x in multiset(s)
    ensures s[0] <= x
  {
    SortedIffPairwise(s);
    assert x in s;
  }

  /** Dropping the head keeps a sequence sorted. */
  lemma SortedTail(s: seq<int>)
    requires Sorted(s) && s != []
    ensures Sorted(s[1..])
  {
    forall i | 0 < i < |s| - 1 ensures s[1..][i - 1] <= s[1..][i] {
      assert s[i] <= s[i + 1];
    }
  }

  /** Dropping the head removes one occurrence of it from the multiset. */
  lemma MultisetTail(s: seq<int>)
    requires s != []
    ensures multiset(s[1..]) == multiset(s) - multiset{s[0]}
  {
    assert s == [s[0]] + s[1..];
  }

  /** Two sorted arrangements of the same multiset are the same sequence:
      the sorted result is determined by the input alone. */
  lemma {:induction false} SortedPermutationUnique(s: seq<int>, t: seq<int>)
    requires Sorted(s) && Sorted(t) && multiset(s) == multiset(t)
    ensures s == t
    decreases |s|
  {
    assert |s| == |multiset(s)| == |multiset(t)| == |t|;
    if s != [] {
      assert s[0] in multiset(s) && t[0] in multiset(t);
      HeadIsLeast(t, s[0]);
      HeadIsLeast(s, t[0]);
      assert s[0] == t[0];
      MultisetTail(s);
      MultisetTail(t);
      assert multiset(s[1..]) == multiset(t[1..]);
      SortedTail(s);
      SortedTail(t);
      SortedPermutationUnique(s[1..], t[1..]);
    }
  }
}
