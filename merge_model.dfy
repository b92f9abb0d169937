/**
 * The facts about sequences that the proofs of merge and merge_sort rest
 * on, over half-open ranges [lo, hi) of a buffer t: overwriting a window
 * of a sequence (Splice), the split of a merge at its pivot (MergePivot,
 * SpliceAroundPivot, MergeSplitStep), and the split of a sort into its two
 * halves (SpliceHalves, MergeSortStep).
 */
module MergeModel {
  import opened SortSpec
  import opened SortPrimitives

  /** a with the window starting at lo overwritten by w. */
  function Splice(a: seq<int>, lo: int, w: seq<int>): (r: seq<int>)
    requires 0 <= lo && lo + |w| <= |a|
    ensures |r| == |a|
  {
    seq(|a|, i requires 0 <= i < |a| => if lo <= i < lo + |w| then w[i - lo] else a[i])
  }

  /** Overwriting with nothing changes nothing. */
  lemma SpliceEmpty(a: seq<int>, lo: int)
    requires 0 <= lo <= |a|
    ensures Splice(a, lo, []) == a
  {
  }

  /** A sub-range of a sorted range is sorted. */
  lemma SortedSubrange(t: seq<int>, lo: int, hi: int, lo2: int, hi2: int)
    requires 0 <= lo <= lo2 <= hi2 <= hi <= |t| && SortedRange(t, lo, hi)
    ensures SortedRange(t, lo2, hi2)
  {
    SortedRangeSlice(t, lo, hi);
    SortedRangeSlice(t, lo2, hi2);
    SortedSlice(t[lo..hi], lo2 - lo, hi2 - lo);
    forall k | 0 <= k < hi2 - lo2 ensures t[lo2..hi2][k] == t[lo..hi][lo2 - lo..hi2 - lo][k] {
      assert t[lo..hi][lo2 - lo..hi2 - lo][k] == t[lo..hi][lo2 - lo + k] == t[lo2 + k];
    }
    assert t[lo2..hi2] == t[lo..hi][lo2 - lo..hi2 - lo];
  }

  /**
   * The pivot step of the merge: with range 1 split at its pivot t[q1] and
   * range 2 split at the lower bound q2 of that pivot, the sort of both
   * left parts, the pivot and the sort of both right parts form the sort of
   * both ranges.
   */
  lemma MergePivot(t: seq<int>, lo1: int, q1: int, hi1: int, lo2: int, q2: int, hi2: int)
    requires 0 <= lo1 <= q1 < hi1 <= |t| && 0 <= lo2 <= q2 <= hi2 <= |t|
    requires SortedRange(t, lo1, hi1)
    requires forall i :: lo2 <= i < q2 ==> t[i] < t[q1]
    requires forall i :: q2 <= i < hi2 ==> t[q1] <= t[i]
    ensures Sort(t[lo1..q1] + t[lo2..q2]) + [t[q1]] + Sort(t[q1 + 1..hi1] + t[q2..hi2])
            == Sort(t[lo1..hi1] + t[lo2..hi2])
  {
    SortedRangeSlice(t, lo1, hi1);
    var a1, m, b1 := t[lo1..q1], t[q1], t[q1 + 1..hi1];
    var a2, b2 := t[lo2..q2], t[q2..hi2];
    assert t[lo1..hi1] == a1 + [m] + b1;
    assert t[lo2..hi2] == a2 + b2;
    forall i | 0 <= i < |a2| ensures a2[i] < m {
      assert a2[i] == t[lo2 + i];
    }
    forall i | 0 <= i < |b2| ensures m <= b2[i] {
      assert b2[i] == t[q2 + i];
    }
    MergeCombine(a1, m, b1, a2, b2, Sort(a1 + a2), Sort(b1 + b2));
  }

  /**
   * Writing m at mid = lo + |left|, then left in front of it and right
   * behind it, overwrites the window at lo with left + [m] + right.
   */
  lemma SpliceAroundPivot(a0: seq<int>, lo: int, mid: int, left: seq<int>, m: int, right: seq<int>,
                          a1: seq<int>, a2: seq<int>, a3: seq<int>)
    requires 0 <= lo && mid == lo + |left| && mid + 1 + |right| <= |a0|
    requires a1 == a0[mid := m]
    requires a2 == Splice(a1, lo, left)
    requires a3 == Splice(a2, mid + 1, right)
    ensures a3 == Splice(a0, lo, left + [m] + right)
  {
    var w := left + [m] + right;
    forall i | 0 <= i < |a0| ensures a3[i] == Splice(a0, lo, w)[i] {
      if i < lo || lo + |w| <= i {
      } else if i < mid {
        assert a3[i] == a2[i] == left[i - lo] == w[i - lo];
      } else if i == mid {
        assert a3[i] == a2[i] == a1[i] == m;
      } else {
        assert a3[i] == right[i - mid - 1] == w[i - lo];
      }
    }
  }

  /**
   * Overwriting two disjoint windows gives the same sequence in either
   * order: the left and the right recursive merge write [p3, q3) and
   * [q3 + 1, p3 + n1 + n2), so it does not matter which finishes first.
   */
  lemma SpliceCommute(a: seq<int>, lo1: int, w1: seq<int>, lo2: int, w2: seq<int>)
    requires 0 <= lo1 && lo1 + |w1| <= lo2 && lo2 + |w2| <= |a|
    ensures Splice(Splice(a, lo1, w1), lo2, w2) == Splice(Splice(a, lo2, w2), lo1, w1)
  {
    var x, y := Splice(Splice(a, lo1, w1), lo2, w2), Splice(Splice(a, lo2, w2), lo1, w1);
    forall i | 0 <= i < |a| ensures x[i] == y[i] {
    }
  }

  /**
   * merge on two empty ranges [p1, r1] and [p2, r2] writes nothing: the
   * sort of no values is empty.
   */
  lemma MergeNothing(a: seq<int>, t: seq<int>, p1: int, r1: int, p2: int, r2: int, p3: int)
    requires 0 <= p1 == r1 + 1 <= |t| && 0 <= p2 == r2 + 1 <= |t| && 0 <= p3 <= |a|
    ensures a == Splice(a, p3, Sort(Segment(t, p1, r1 + 1) + Segment(t, p2, r2 + 1)))
  {
    assert Segment(t, p1, r1 + 1) + Segment(t, p2, r2 + 1) == [];
    SpliceEmpty(a, p3);
  }

  /**
   * The ranges merge recurses on are sorted: [p1, m1] and [s1, r1] on
   * either side of the pivot q1 of range 1, and [p2, m2] and [q2, r2] on
   * either side of the split q2 of range 2. Bounds are inclusive, as in
   * merge's arguments.
   */
  lemma SortedParts(t: seq<int>, p1: int, m1: int, q1: int, s1: int, r1: int, p2: int, m2: int, q2: int, r2: int)
    requires m1 == q1 - 1 && s1 == q1 + 1 && m2 == q2 - 1
    requires 0 <= p1 <= q1 <= r1 < |t| && 0 <= p2 <= q2 <= r2 + 1 <= |t|
    requires SortedRange(t, p1, r1 + 1) && SortedRange(t, p2, r2 + 1)
    ensures SortedRange(t, p1, m1 + 1) && SortedRange(t, s1, r1 + 1)
    ensures SortedRange(t, p2, m2 + 1) && SortedRange(t, q2, r2 + 1)
  {
    SortedSubrange(t, p1, r1 + 1, p1, q1);
    SortedSubrange(t, p1, r1 + 1, q1 + 1, r1 + 1);
    SortedSubrange(t, p2, r2 + 1, p2, q2);
    SortedSubrange(t, p2, r2 + 1, q2, r2 + 1);
  }

  /** MergePivot stated on segments rather than slices. */
  lemma MergePivotSegments(t: seq<int>, lo1: int, q1: int, hi1: int, lo2: int, q2: int, hi2: int)
    requires 0 <= lo1 <= q1 < hi1 <= |t| && 0 <= lo2 <= hi2 <= |t|
    requires SortedRange(t, lo1, hi1) && SortedRange(t, lo2, hi2)
    requires q2 == LowerBound(t, t[q1], lo2, hi2)
    ensures lo2 <= q2 <= hi2
    ensures Sort(Segment(t, lo1, q1) + Segment(t, lo2, q2)) + [t[q1]] + Sort(Segment(t, q1 + 1, hi1) + Segment(t, q2, hi2))
            == Sort(Segment(t, lo1, hi1) + Segment(t, lo2, hi2))
  {
    LowerBoundSpec(t, t[q1], lo2, hi2);
    MergePivot(t, lo1, q1, hi1, lo2, q2, hi2);
    SegmentIsSlice(t, lo1, q1);
    SegmentIsSlice(t, lo2, q2);
    SegmentIsSlice(t, q1 + 1, hi1);
    SegmentIsSlice(t, q2, hi2);
    SegmentIsSlice(t, lo1, hi1);
    SegmentIsSlice(t, lo2, hi2);
  }

  /**
   * One step of merge on two sorted ranges [p1, r1] and [p2, r2] of t,
   * range 1 non-empty: its middle element t[q1] written at q3 into a0,
   * giving a1, the sort of [p1, m1] and [p2, m2] written from p3 into a1,
   * giving a2, and the sort of [s1, r1] and [q2, r2] written from s3 into
   * a2, giving a3, leave in a3 the sort of both ranges from p3 and a0
   * everywhere else. Bounds are inclusive, as in merge's arguments.
   */
  lemma MergeSplitStep(a0: seq<int>, t: seq<int>, p1: int, m1: int, q1: int, s1: int, r1: int,
                       p2: int, m2: int, q2: int, r2: int, p3: int, q3: int, s3: int,
                       a1: seq<int>, a2: seq<int>, a3: seq<int>)
    requires m1 == q1 - 1 && s1 == q1 + 1 && m2 == q2 - 1 && s3 == q3 + 1
    requires 0 <= p1 <= q1 <= r1 < |t| && 0 <= p2 <= r2 + 1 <= |t|
    requires SortedRange(t, p1, r1 + 1) && SortedRange(t, p2, r2 + 1)
    requires q2 == LowerBound(t, t[q1], p2, r2 + 1)
    requires 0 <= p3 && q3 == p3 + (q1 - p1) + (q2 - p2) && p3 + (r1 - p1 + 1) + (r2 - p2 + 1) <= |a0|
    requires a1 == a0[q3 := t[q1]]
    requires a2 == Splice(a1, p3, Sort(Segment(t, p1, m1 + 1) + Segment(t, p2, m2 + 1)))
    requires a3 == Splice(a2, s3, Sort(Segment(t, s1, r1 + 1) + Segment(t, q2, r2 + 1)))
    ensures a3 == Splice(a0, p3, Sort(Segment(t, p1, r1 + 1) + Segment(t, p2, r2 + 1)))
  {
    MergePivotSegments(t, p1, q1, r1 + 1, p2, q2, r2 + 1);
    var left, right := Sort(Segment(t, p1, q1) + Segment(t, p2, q2)), Sort(Segment(t, q1 + 1, r1 + 1) + Segment(t, q2, r2 + 1));
    SpliceAroundPivot(a0, p3, q3, left, t[q1], right, a1, a2, a3);
  }

  /**
   * Writing x at the front of a buffer of |x| + |y| values and y behind it,
   * from m = |x|, leaves exactly x + y.
   */
  lemma SpliceHalves(t0: seq<int>, x: seq<int>, y: seq<int>, m: int)
    requires |t0| == |x| + |y| && m == |x|
    ensures Splice(Splice(t0, 0, x), m, y) == x + y
  {
    var t1 := Splice(t0, 0, x);
    forall i | 0 <= i < |t0| ensures Splice(t1, m, y)[i] == (x + y)[i] {
      if i < m {
        assert t1[i] == x[i];
      }
    }
  }

  /** The two segments of x + y on either side of m = |x| are x and y. */
  lemma SegmentsOfAppend(t: seq<int>, x: seq<int>, y: seq<int>, m: int, m1: int, n1: int)
    requires t == x + y && m == |x| && m1 == m - 1 && n1 == |t| - 1
    ensures Segment(t, 0, m1 + 1) == x && Segment(t, m, n1 + 1) == y
  {
    SegmentIsSlice(t, 0, m);
    SegmentIsSlice(t, m, |t|);
    assert t[0..m] == x;
    assert t[m..|t|] == y;
  }

  /** Two adjacent segments together are the segment of both ranges. */
  lemma {:induction false} SegmentSplit(s: seq<int>, lo: int, mid: int, hi: int)
    requires 0 <= lo <= mid <= hi <= |s|
    ensures Segment(s, lo, mid) + Segment(s, mid, hi) == Segment(s, lo, hi)
    decreases mid - lo
  {
    if lo < mid {
      SegmentSplit(s, lo + 1, mid, hi);
      assert [s[lo]] + Segment(s, lo + 1, mid) + Segment(s, mid, hi) == [s[lo]] + (Segment(s, lo + 1, mid) + Segment(s, mid, hi));
    }
  }

  /** A range is in order exactly when its segment is sorted. */
  lemma SortedRangeSegment(t: seq<int>, lo: int, hi: int)
    requires 0 <= lo <= hi <= |t|
    ensures SortedRange(t, lo, hi) <==> Sorted(Segment(t, lo, hi))
  {
    SegmentIsSlice(t, lo, hi);
    SortedRangeSlice(t, lo, hi);
  }

  /**
   * The buffer merge_sort fills: the sort of a[p..q] written at the front
   * of t0, giving t1, and the sort of a[q + 1..r] written behind it from m,
   * giving t2, leave those two sorts, each sorted, as the ranges [0, m1]
   * and [m, n1] of t2.
   */
  lemma BufferHalves(a: seq<int>, t0: seq<int>, t1: seq<int>, t2: seq<int>,
                     p: int, q: int, r: int, m: int, m1: int, n1: int)
    requires 0 <= p <= q < r < |a| && m == q - p + 1 && m1 == m - 1 && n1 == r - p && |t0| == n1 + 1
    requires t1 == Splice(t0, 0, Sort(Segment(a, p, q + 1)))
    requires t2 == Splice(t1, m, Sort(Segment(a, q + 1, r + 1)))
    ensures Segment(t2, 0, m1 + 1) == Sort(Segment(a, p, q + 1))
    ensures Segment(t2, m, n1 + 1) == Sort(Segment(a, q + 1, r + 1))
    ensures SortedRange(t2, 0, m1 + 1) && SortedRange(t2, m, n1 + 1)
  {
    var left, right := Sort(Segment(a, p, q + 1)), Sort(Segment(a, q + 1, r + 1));
    SpliceHalves(t0, left, right, m);
    SegmentsOfAppend(t2, left, right, m, m1, n1);
    SortSorted(Segment(a, p, q + 1));
    SortSorted(Segment(a, q + 1, r + 1));
    SortedRangeSegment(t2, 0, m1 + 1);
    SortedRangeSegment(t2, m, n1 + 1);
  }

  /**
   * One step of merge_sort on [p, r] with q the last index of its left
   * half: once the buffer holds the sorts of both halves (BufferHalves),
   * the sort of the two halves of the buffer together is the sort of
   * a[p..r].
   */
  lemma MergeSortStep(a: seq<int>, t0: seq<int>, t1: seq<int>, t2: seq<int>,
                      p: int, q: int, r: int, m: int, m1: int, n1: int)
    requires 0 <= p <= q < r < |a| && m == q - p + 1 && m1 == m - 1 && n1 == r - p && |t0| == n1 + 1
    requires t1 == Splice(t0, 0, Sort(Segment(a, p, q + 1)))
    requires t2 == Splice(t1, m, Sort(Segment(a, q + 1, r + 1)))
    ensures SortedRange(t2, 0, m1 + 1) && SortedRange(t2, m, n1 + 1)
    ensures Sort(Segment(t2, 0, m1 + 1) + Segment(t2, m, n1 + 1)) == Sort(Segment(a, p, r + 1))
  {
    BufferHalves(a, t0, t1, t2, p, q, r, m, m1, n1);
    SortOfSortedHalves(Segment(a, p, q + 1), Segment(a, q + 1, r + 1));
    SegmentSplit(a, p, q + 1, r + 1);
  }
}
