/**
 * The sequential merge sort: merge_sort sorts the range [p, r] of A into B
 * from s, splitting it in halves that it sorts into a temporary buffer T
 * and then merging the halves of T into B with merge. Both are proved to
 * write the sort of their input ranges into the window of their output and
 * to leave every other value of the output as it was.
 *
 * The source passes the arguments of both functions in a struct (MergeArgs,
 * SortArgs) so that they fit a thread routine's signature; here they are
 * the methods' parameters, in the struct's order. The struct's depth field
 * is read and passed on to the recursive calls as depth + 1, but it never
 * affects what is written, so it is left out.
 */
module TradMergeSort {
  import opened SortSpec
  import opened SortPrimitives
  import opened MergeModel

  /**
   * merge(T, p1, r1, p2, r2, A, p3): A is overwritten from p3 with the sort
   * of the two sorted ranges [p1, r1] and [p2, r2] of T, every other value
   * of A is kept, and T is left alone. T and A are different buffers, each
   * range is empty or lies in T, and A has room from p3 for both. The
   * longer range is made range 1 by swapping the bounds, and the rest of
   * the body is MergeOrdered.
   */
  method Merge(T: array<int>, p1: int, r1: int, p2: int, r2: int, A: array<int>, p3: int)
    requires T != A && 0 <= p1 <= r1 + 1 <= T.Length && 0 <= p2 <= r2 + 1 <= T.Length
    requires SortedRange(T[..], p1, r1 + 1) && SortedRange(T[..], p2, r2 + 1)
    requires 0 <= p3 && p3 + (r1 - p1 + 1) + (r2 - p2 + 1) <= A.Length
    modifies A
    ensures A[..] == Splice(old(A[..]), p3, Sort(Segment(T[..], p1, r1 + 1) + Segment(T[..], p2, r2 + 1)))
    decreases r1 - p1 + r2 - p2 + 2, 1
  {
    var x1, y1, x2, y2 := p1, r1, p2, r2;
    var n1 := y1 - x1 + 1;
    var n2 := y2 - x2 + 1;

    if n1 < n2 {
      x1, x2 := Swap(x1, x2);
      y1, y2 := Swap(y1, y2);
      n1, n2 := Swap(n1, n2);
    }
    MergeOrdered(T, x1, y1, x2, y2, A, p3);
    SortSwap(Segment(T[..], p1, r1 + 1), Segment(T[..], p2, r2 + 1));
  }

  /**
   * The body of merge once range 1 is the longer one: nothing when it is
   * empty; otherwise the middle element of range 1 is written at q3, after
   * the values of both ranges that are smaller, and the left parts and the
   * right parts are merged on either side of it.
   */
  method MergeOrdered(T: array<int>, p1: int, r1: int, p2: int, r2: int, A: array<int>, p3: int)
    requires T != A && 0 <= p1 <= r1 + 1 <= T.Length && 0 <= p2 <= r2 + 1 <= T.Length
    requires SortedRange(T[..], p1, r1 + 1) && SortedRange(T[..], p2, r2 + 1)
    requires r2 - p2 <= r1 - p1
    requires 0 <= p3 && p3 + (r1 - p1 + 1) + (r2 - p2 + 1) <= A.Length
    modifies A
    ensures A[..] == Splice(old(A[..]), p3, Sort(Segment(T[..], p1, r1 + 1) + Segment(T[..], p2, r2 + 1)))
    decreases r1 - p1 + r2 - p2 + 2, 0
  {
    var n1 := r1 - p1 + 1;
    if n1 == 0 {
      MergeNothing(A[..], T[..], p1, r1, p2, r2, p3);
      return;
    } else {
      ghost var a0, t := A[..], T[..];
      // p1 + r1 is never negative here, so the truncating division of the
      // source is the floor
      var q1 := (p1 + r1) / 2;
      var q2 := BinarySearch(T[q1], T, p2, r2);
      var q3 := p3 + (q1 - p1) + (q2 - p2);
      // the bounds of the two recursive merges, named once so that the
      // contracts of the calls and the lemmas speak of the same terms
      var m1, s1, m2, s3 := q1 - 1, q1 + 1, q2 - 1, q3 + 1;
      SortedParts(t, p1, m1, q1, s1, r1, p2, m2, q2, r2);

      A[q3] := T[q1];
      ghost var a1 := A[..];
      Merge(T, p1, m1, p2, m2, A, p3);
      ghost var a2 := A[..];
      Merge(T, s1, r1, q2, r2, A, s3);
      MergeSplitStep(a0, t, p1, m1, q1, s1, r1, p2, m2, q2, r2, p3, q3, s3, a1, a2, A[..]);
    }
  }

  /**
   * merge_sort(A, p, r, B, s): B is overwritten from s with the sort of
   * A[p..r], every other value of B is kept, and A is left alone. A and B
   * are different buffers, the range [p, r] is non-empty and lies in A, and
   * B has room for it from s.
   */
  method MergeSort(A: array<int>, p: int, r: int, B: array<int>, s: int)
    requires A != B && 0 <= p <= r < A.Length
    requires 0 <= s && s + (r - p + 1) <= B.Length
    modifies B
    ensures B[..] == Splice(old(B[..]), s, Sort(Segment(old(A[..]), p, r + 1)))
    ensures A[..] == old(A[..])
    decreases r - p
  {
    var n := r - p + 1;
    if n == 1 {
      ghost var b0 := B[..];
      B[s] := A[p];
      SortOneValue(A[..], b0, B[..], p, r, s);
    } else {
      ghost var a := A[..];
      // p + r is never negative here, so the division is the floor
      var q := (p + r) / 2;
      var qPrime := q - p + 1;
      var T := new int[n];
      ghost var t0 := T[..];

      MergeSort(A, p, q, T, 0);
      ghost var t1 := T[..];
      MergeSort(A, q + 1, r, T, qPrime);
      var m1, n1 := qPrime - 1, n - 1;
      MergeSortStep(a, t0, t1, T[..], p, q, r, qPrime, m1, n1);
      Merge(T, 0, m1, qPrime, n1, B, s);
    }
  }

  /** merge_sort on a range [p, r] of one value copies that value. */
  lemma SortOneValue(a: seq<int>, b0: seq<int>, b1: seq<int>, p: int, r: int, s: int)
    requires 0 <= p == r < |a| && 0 <= s < |b0| && b1 == b0[s := a[p]]
    ensures b1 == Splice(b0, s, Sort(Segment(a, p, r + 1)))
  {
    SortSingleton(a[p]);
    assert Segment(a, p, r + 1) == [a[p]];
  }
}
