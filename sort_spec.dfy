/**
 * The meaning of "sorted" for both merge sorts: ascending order, a
 * reference insertion sort that fixes what a sorted permutation of a
 * sequence is, and the facts about merging that the divide-and-conquer
 * merge rests on.
 */
module SortSpec {

  /** Ascending order: every element is at most the one after it. */
  ghost predicate Sorted(s: seq<int>)
  {
    |s| < 2 || (s[0] <= s[1] && Sorted(s[1..]))
  }

  /**
   * Ascending order of the range [lo, hi) of s, stated on indices of s
   * rather than on a slice of it.
   */
  ghost predicate SortedRange(s: seq<int>, lo: int, hi: int)
    requires 0 <= lo <= hi <= |s|
    decreases hi - lo
  {
    hi - lo < 2 || (s[lo] <= s[lo + 1] && SortedRange(s, lo + 1, hi))
  }

  /** The two ways of saying that a range is in order agree. */
  lemma {:induction false} SortedRangeSlice(s: seq<int>, lo: int, hi: int)
    requires 0 <= lo <= hi <= |s|
    ensures SortedRange(s, lo, hi) <==> Sorted(s[lo..hi])
    decreases hi - lo
  {
    if hi - lo >= 2 {
      SortedRangeSlice(s, lo + 1, hi);
      assert s[lo..hi][1..] == s[lo + 1..hi];
    }
  }

  /**
   * The values of the range [lo, hi) of s, one index at a time: the same
   * sequence as the slice s[lo..hi] (SegmentIsSlice), written so that the
   * contracts over ranges of a buffer unfold one element at a time.
   */
  ghost function Segment(s: seq<int>, lo: int, hi: int): (r: seq<int>)
    requires 0 <= lo <= hi <= |s|
    ensures |r| == hi - lo
    decreases hi - lo
  {
    if lo == hi then [] else [s[lo]] + Segment(s, lo + 1, hi)
  }

  /** A segment is the slice of the same range. */
  lemma {:induction false} SegmentIsSlice(s: seq<int>, lo: int, hi: int)
    requires 0 <= lo <= hi <= |s|
    ensures Segment(s, lo, hi) == s[lo..hi]
    decreases hi - lo
  {
    if lo < hi {
      SegmentIsSlice(s, lo + 1, hi);
      assert s[lo..hi] == [s[lo]] + s[lo + 1..hi];
    }
  }

  /** In a sorted sequence every element is at most every later one. */
  lemma {:induction false} SortedIndex(s: seq<int>, i: int, j: int)
    requires Sorted(s) && 0 <= i <= j < |s|
    ensures s[i] <= s[j]
    decreases |s|
  {
    if i < j {
      if i == 0 {
        SortedIndex(s[1..], 0, j - 1);
      } else {
        SortedIndex(s[1..], i - 1, j - 1);
      }
    }
  }

  /** Conversely, a sequence whose elements are pairwise in order is sorted. */
  lemma {:induction false} SortedFromOrder(s: seq<int>)
    requires forall i, j :: 0 <= i < j < |s| ==> s[i] <= s[j]
    ensures Sorted(s)
    decreases |s|
  {
    if |s| >= 2 {
      assert s[0] <= s[1];
      forall i, j | 0 <= i < j < |s[1..]| ensures s[1..][i] <= s[1..][j] {
        assert s[1..][i] == s[i + 1] && s[1..][j] == s[j + 1];
      }
      SortedFromOrder(s[1..]);
    }
  }

  /** Every slice of a sorted sequence is sorted. */
  lemma SortedSlice(s: seq<int>, i: int, j: int)
    requires Sorted(s) && 0 <= i <= j <= |s|
    ensures Sorted(s[i..j])
  {
    forall a, b | 0 <= a < b < j - i ensures s[i..j][a] <= s[i..j][b] {
      SortedIndex(s, i + a, i + b);
    }
    SortedFromOrder(s[i..j]);
  }

  /** w is a sorted arrangement of the elements of a and b together. */
  ghost predicate IsMergeOf(w: seq<int>, a: seq<int>, b: seq<int>)
  {
    Sorted(w) && multiset(w) == multiset(a) + multiset(b)
  }

  /** The first element of a sorted sequence is its least. */
  lemma SortedHeadIsLeast(s: seq<int>, x: int)
    requires Sorted(s) && x in multiset(s)
    ensures |s| > 0 && s[0] <= x
  {
    var k :| 0 <= k < |s| && s[k] == x;
    SortedIndex(s, 0, k);
  }

  /** Inserts x in front of the first element that is not smaller than x. */
  function Insert(x: int, s: seq<int>): (r: seq<int>)
    ensures |r| == |s| + 1
  {
    if |s| == 0 || x <= s[0] then [x] + s
    else [s[0]] + Insert(x, s[1..])
  }

  /** Inserting adds exactly x to the elements. */
  lemma {:induction false} InsertPermutes(x: int, s: seq<int>)
    ensures multiset(Insert(x, s)) == multiset(s) + multiset{x}
  {
    if s != [] && s[0] < x {
      InsertPermutes(x, s[1..]);
      assert s == [s[0]] + s[1..];
    }
  }

  /** Inserting into a sorted sequence keeps it sorted. */
  lemma {:induction false} InsertSorted(x: int, s: seq<int>)
    requires Sorted(s)
    ensures Sorted(Insert(x, s))
  {
    if s != [] && s[0] < x {
      var rest := Insert(x, s[1..]);
      InsertSorted(x, s[1..]);
      InsertPermutes(x, s[1..]);
      assert rest[0] in multiset(rest);
      if rest[0] != x {
        SortedHeadIsLeast(s[1..], rest[0]);
        SortedIndex(s, 0, 1);
      }
      assert ([s[0]] + rest)[1..] == rest;
    }
  }

  /**
   * Reference sort: insertion sort, independent of the merge sorts it
   * judges. What it computes is stated by SortIsSortedPermutation.
   */
  function Sort(s: seq<int>): (r: seq<int>)
    ensures |r| == |s|
  {
    if |s| == 0 then [] else Insert(s[0], Sort(s[1..]))
  }

  /** The reference sort returns a sorted sequence. */
  lemma {:induction false} SortSorted(s: seq<int>)
    ensures Sorted(Sort(s))
  {
    if s != [] {
      SortSorted(s[1..]);
      InsertSorted(s[0], Sort(s[1..]));
    }
  }

  /** The reference sort returns a permutation of its input. */
  lemma {:induction false} SortPermutes(s: seq<int>)
    ensures multiset(Sort(s)) == multiset(s)
  {
    if s != [] {
      SortPermutes(s[1..]);
      InsertPermutes(s[0], Sort(s[1..]));
      assert s == [s[0]] + s[1..];
    }
  }

  /** Both together: the reference sort returns a sorted permutation of its input. */
  lemma SortIsSortedPermutation(s: seq<int>)
    ensures Sorted(Sort(s))
    ensures multiset(Sort(s)) == multiset(s)
  {
    SortSorted(s);
    SortPermutes(s);
  }

  /** Two sorted sequences with the same elements are equal. */
  lemma {:induction false} SortedUnique(a: seq<int>, b: seq<int>)
    requires Sorted(a) && Sorted(b)
    requires multiset(a) == multiset(b)
    ensures a == b
    decreases |a|
  {
    if a != [] {
      assert a[0] in multiset(a);
      SortedHeadIsLeast(b, a[0]);
      assert b[0] in multiset(b);
      SortedHeadIsLeast(a, b[0]);
      assert a == [a[0]] + a[1..];
      assert b == [b[0]] + b[1..];
      assert a[0] == b[0];
      assert multiset(a[1..]) == multiset(a) - multiset{a[0]};
      assert multiset(b[1..]) == multiset(b) - multiset{b[0]};
      SortedUnique(a[1..], b[1..]);
    } else {
      assert |multiset(b)| == 0;
    }
  }

  /** Sort(s) is exactly the sorted permutation of s, in both directions. */
  lemma SortCharacterization(s: seq<int>, t: seq<int>)
    ensures t == Sort(s) <==> Sorted(t) && multiset(t) == multiset(s)
  {
    SortIsSortedPermutation(s);
    if Sorted(t) && multiset(t) == multiset(s) {
      SortedUnique(t, Sort(s));
    }
  }

  /** The sorted result depends only on the multiset of the input. */
  lemma SortOfPermutation(a: seq<int>, b: seq<int>)
    requires multiset(a) == multiset(b)
    ensures Sort(a) == Sort(b)
  {
    SortIsSortedPermutation(a);
    SortIsSortedPermutation(b);
    SortedUnique(Sort(a), Sort(b));
  }

  /** In a sorted a + [m] + b, m bounds a from above and b from below. */
  lemma SortedAround(a: seq<int>, m: int, b: seq<int>)
    requires Sorted(a + [m] + b)
    ensures forall x :: x in multiset(a) ==> x <= m
    ensures forall x :: x in multiset(b) ==> m <= x
  {
    var s := a + [m] + b;
    forall x | x in multiset(a) ensures x <= m {
      var k :| 0 <= k < |a| && a[k] == x;
      SortedIndex(s, k, |a|);
    }
    forall x | x in multiset(b) ensures m <= x {
      var k :| 0 <= k < |b| && b[k] == x;
      SortedIndex(s, |a|, |a| + 1 + k);
    }
  }

  /** Joining two sorted runs around a pivot that separates them keeps the order. */
  lemma SortedJoin(l: seq<int>, m: int, r: seq<int>)
    requires Sorted(l) && Sorted(r)
    requires forall x :: x in multiset(l) ==> x <= m
    requires forall x :: x in multiset(r) ==> m <= x
    ensures Sorted(l + [m] + r)
  {
    var s := l + [m] + r;
    forall i, j | 0 <= i < j < |s| ensures s[i] <= s[j] {
      if j < |l| {
        SortedIndex(l, i, j);
      } else if |l| < i {
        SortedIndex(r, i - |l| - 1, j - |l| - 1);
      } else {
        if i < |l| {
          assert l[i] in multiset(l);
        }
        if |l| < j {
          assert r[j - |l| - 1] in multiset(r);
        }
      }
    }
    SortedFromOrder(s);
  }

  /** A merge of two runs whose values are all at most m holds only such values. */
  lemma MergedBelow(w: seq<int>, a: seq<int>, b: seq<int>, m: int)
    requires forall x :: x in multiset(a) ==> x <= m
    requires forall i :: 0 <= i < |b| ==> b[i] < m
    requires multiset(w) == multiset(a) + multiset(b)
    ensures forall x :: x in multiset(w) ==> x <= m
  {
    forall x | x in multiset(w) ensures x <= m {
      if x !in multiset(a) {
        var k :| 0 <= k < |b| && b[k] == x;
      }
    }
  }

  /** A merge of two runs whose values are all at least m holds only such values. */
  lemma MergedAbove(w: seq<int>, a: seq<int>, b: seq<int>, m: int)
    requires forall x :: x in multiset(a) ==> m <= x
    requires forall i :: 0 <= i < |b| ==> m <= b[i]
    requires multiset(w) == multiset(a) + multiset(b)
    ensures forall x :: x in multiset(w) ==> m <= x
  {
    forall x | x in multiset(w) ensures m <= x {
      if x !in multiset(a) {
        var k :| 0 <= k < |b| && b[k] == x;
      }
    }
  }

  /**
   * The step of the divide-and-conquer merge: range 1 splits at its pivot
   * m into a1 and b1, range 2 splits at the lower bound of m into a2 (all
   * smaller than m) and b2 (none smaller). Merging a1 with a2 on the left
   * of m and b1 with b2 on its right merges the two ranges.
   */
  lemma MergeStep(a1: seq<int>, m: int, b1: seq<int>, a2: seq<int>, b2: seq<int>,
                  left: seq<int>, right: seq<int>)
    requires Sorted(a1 + [m] + b1)
    requires forall i :: 0 <= i < |a2| ==> a2[i] < m
    requires forall i :: 0 <= i < |b2| ==> m <= b2[i]
    requires IsMergeOf(left, a1, a2) && IsMergeOf(right, b1, b2)
    ensures IsMergeOf(left + [m] + right, a1 + [m] + b1, a2 + b2)
  {
    SortedAround(a1, m, b1);
    MergedBelow(left, a1, a2, m);
    MergedAbove(right, b1, b2, m);
    SortedJoin(left, m, right);
    MergedAround(a1, m, b1, a2, b2, left, right);
  }

  /** Putting m between a merge of a1 with a2 and a merge of b1 with b2 keeps every value. */
  lemma MergedAround(a1: seq<int>, m: int, b1: seq<int>, a2: seq<int>, b2: seq<int>,
                     left: seq<int>, right: seq<int>)
    requires multiset(left) == multiset(a1) + multiset(a2)
    requires multiset(right) == multiset(b1) + multiset(b2)
    ensures multiset(left + [m] + right) == multiset(a1 + [m] + b1) + multiset(a2 + b2)
  {
    calc {
      multiset(left + [m] + right);
      multiset(left) + multiset{m} + multiset(right);
      multiset(a1) + multiset(a2) + multiset{m} + multiset(b1) + multiset(b2);
      multiset(a1 + [m] + b1) + multiset(a2 + b2);
    }
  }

  /**
   * The merge step stated on the reference sort: sorting a1 with a2 on the
   * left of m and b1 with b2 on its right sorts both ranges together.
   */
  lemma MergeCombine(a1: seq<int>, m: int, b1: seq<int>, a2: seq<int>, b2: seq<int>,
                     left: seq<int>, right: seq<int>)
    requires Sorted(a1 + [m] + b1)
    requires forall i :: 0 <= i < |a2| ==> a2[i] < m
    requires forall i :: 0 <= i < |b2| ==> m <= b2[i]
    requires left == Sort(a1 + a2) && right == Sort(b1 + b2)
    ensures left + [m] + right == Sort((a1 + [m] + b1) + (a2 + b2))
  {
    SortCharacterization(a1 + a2, left);
    SortCharacterization(b1 + b2, right);
    MergeStep(a1, m, b1, a2, b2, left, right);
    SortCharacterization((a1 + [m] + b1) + (a2 + b2), left + [m] + right);
  }

  /** The order in which two ranges are handed over does not change their sort. */
  lemma SortSwap(a: seq<int>, b: seq<int>)
    ensures Sort(a + b) == Sort(b + a)
  {
    assert multiset(a + b) == multiset(b + a);
    SortOfPermutation(a + b, b + a);
  }

  /** Sorting two halves first and then their concatenation sorts the whole. */
  lemma SortOfSortedHalves(a: seq<int>, b: seq<int>)
    ensures Sort(Sort(a) + Sort(b)) == Sort(a + b)
  {
    SortIsSortedPermutation(a);
    SortIsSortedPermutation(b);
    assert multiset(Sort(a) + Sort(b)) == multiset(a + b);
    SortOfPermutation(Sort(a) + Sort(b), a + b);
  }

  /** A single element is already sorted. */
  lemma SortSingleton(x: int)
    ensures Sort([x]) == [x]
  {
    assert [x][1..] == [];
  }
}
