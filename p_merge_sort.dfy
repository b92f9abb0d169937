/**
 * The pooled merge sort: p_merge and p_merge_sort are merge and merge_sort
 * with each pair of recursive calls handed to a thread pool while the pool
 * is there and the recursion is at most MAX_DEPTH deep. A call hands a sub-
 * problem over with addTaskFront, which answers 0 when the pool queued the
 * task and -1 when it refused it; a queued task is run by a worker and
 * waited for with waitForTask, a refused one is run on the calling thread.
 * Which answer comes back depends on the other threads, so here it is
 * chosen arbitrarily, and a queued task that has been waited for counts as
 * having run: either way each sub-problem is solved exactly once, and both
 * methods are proved to the same contracts as the sequential ones.
 *
 * The pool itself enters only through whether it is there (pooled, for
 * pool != NULL); its ring of tasks is the module Multithreading.
 */
module PMergeSort {
  import opened SortSpec
  import opened SortPrimitives
  import opened MergeModel
  import TradMergeSort

  /** Dispatch to the pool stops below this depth of the recursion. */
  const MAX_DEPTH := 2

  /** Whether a call at this depth hands its sub-problems to the pool. */
  predicate Dispatches(pooled: bool, depth: int)
  {
    pooled && depth <= MAX_DEPTH
  }

  /**
   * How a call hands one sub-problem over: when it dispatches, the answer
   * of addTaskFront, which depends on the other threads and is chosen
   * arbitrarily here, says whether the pool queued the task (0) or refused
   * it (-1); when it does not dispatch the sub-problem stays on this
   * thread.
   */
  method Hand(pooled: bool, depth: int) returns (queued: bool)
    ensures queued ==> Dispatches(pooled, depth)
  {
    if Dispatches(pooled, depth) {
      var status: int :| status == 0 || status == -1;
      queued := status == 0;
    } else {
      queued := false;
    }
  }

  /**
   * One recursive p_merge, queued or not: a queued task is run by a worker
   * and waitForTask returns once it is done, a refused one runs here; the
   * merge is performed exactly once either way.
   */
  method RunMerge(T: array<int>, p1: int, r1: int, p2: int, r2: int, A: array<int>, p3: int,
                  pooled: bool, depth: int, queued: bool)
    requires T != A && 0 <= p1 <= r1 + 1 <= T.Length && 0 <= p2 <= r2 + 1 <= T.Length
    requires SortedRange(T[..], p1, r1 + 1) && SortedRange(T[..], p2, r2 + 1)
    requires 0 <= p3 && p3 + (r1 - p1 + 1) + (r2 - p2 + 1) <= A.Length
    modifies A
    ensures A[..] == Splice(old(A[..]), p3, Sort(Segment(T[..], p1, r1 + 1) + Segment(T[..], p2, r2 + 1)))
    decreases r1 - p1 + r2 - p2 + 2, 2
  {
    if queued {
      PMerge(T, p1, r1, p2, r2, A, p3, pooled, depth);
    } else {
      PMerge(T, p1, r1, p2, r2, A, p3, pooled, depth);
    }
  }

  /** One recursive p_merge_sort, queued or not, performed exactly once. */
  method RunSort(A: array<int>, p: int, r: int, B: array<int>, s: int, pooled: bool, depth: int,
                 queued: bool)
    requires A != B && 0 <= p <= r < A.Length
    requires 0 <= s && s + (r - p + 1) <= B.Length
    modifies B
    ensures B[..] == Splice(old(B[..]), s, Sort(Segment(old(A[..]), p, r + 1)))
    ensures A[..] == old(A[..])
    decreases r - p, 3
  {
    if queued {
      PMergeSort(A, p, r, B, s, pooled, depth);
    } else {
      PMergeSort(A, p, r, B, s, pooled, depth);
    }
  }

  /**
   * p_merge(T, p1, r1, p2, r2, A, p3, pool, depth): A is overwritten from
   * p3 with the sort of the two sorted ranges [p1, r1] and [p2, r2] of T,
   * every other value of A is kept, and T is left alone, whatever the pool
   * does with the sub-problems. The longer range is made range 1 by
   * swapping the bounds, and the rest of the body is PMergeOrdered.
   */
  method PMerge(T: array<int>, p1: int, r1: int, p2: int, r2: int, A: array<int>, p3: int,
                pooled: bool, depth: int)
    requires T != A && 0 <= p1 <= r1 + 1 <= T.Length && 0 <= p2 <= r2 + 1 <= T.Length
    requires SortedRange(T[..], p1, r1 + 1) && SortedRange(T[..], p2, r2 + 1)
    requires 0 <= p3 && p3 + (r1 - p1 + 1) + (r2 - p2 + 1) <= A.Length
    modifies A
    ensures A[..] == Splice(old(A[..]), p3, Sort(Segment(T[..], p1, r1 + 1) + Segment(T[..], p2, r2 + 1)))
    decreases r1 - p1 + r2 - p2 + 2, 1
  {
    var x1, y1, x2, y2 := p1, r1, p2, r2;
    var n1 := y1 - x1 + 1;
    var n2 := y2 - x2 + 1;

    if n1 < n2 {
      x1, x2 := Swap(x1, x2);
      y1, y2 := Swap(y1, y2);
      n1, n2 := Swap(n1, n2);
    }
    PMergeOrdered(T, x1, y1, x2, y2, A, p3, pooled, depth);
    SortSwap(Segment(T[..], p1, r1 + 1), Segment(T[..], p2, r2 + 1));
  }

  /**
   * The body of p_merge once range 1 is the longer one: nothing when it is
   * empty; otherwise T[q1] is written at q3 and the left parts and the
   * right parts are merged on either side of it, each by the pool or on
   * this thread.
   */
  method PMergeOrdered(T: array<int>, p1: int, r1: int, p2: int, r2: int, A: array<int>, p3: int,
                       pooled: bool, depth: int)
    requires T != A && 0 <= p1 <= r1 + 1 <= T.Length && 0 <= p2 <= r2 + 1 <= T.Length
    requires SortedRange(T[..], p1, r1 + 1) && SortedRange(T[..], p2, r2 + 1)
    requires r2 - p2 <= r1 - p1
    requires 0 <= p3 && p3 + (r1 - p1 + 1) + (r2 - p2 + 1) <= A.Length
    modifies A
    ensures A[..] == Splice(old(A[..]), p3, Sort(Segment(T[..], p1, r1 + 1) + Segment(T[..], p2, r2 + 1)))
    decreases r1 - p1 + r2 - p2 + 2, 0
  {
    var n1 := r1 - p1 + 1;
    if n1 == 0 {
      MergeNothing(A[..], T[..], p1, r1, p2, r2, p3);
      return;
    } else {
      ghost var a0, t := A[..], T[..];
      // p1 + r1 is never negative here, so the truncating division of the
      // source is the floor
      var q1 := (p1 + r1) / 2;
      var q2 := BinarySearch(T[q1], T, p2, r2);
      var q3 := p3 + (q1 - p1) + (q2 - p2);
      // the bounds of the two recursive merges, named once so that the
      // contracts of the calls and the lemmas speak of the same terms
      var m1, s1, m2, s3 := q1 - 1, q1 + 1, q2 - 1, q3 + 1;
      SortedParts(t, p1, m1, q1, s1, r1, p2, m2, q2, r2);

      A[q3] := T[q1];
      ghost var a1 := A[..];
      var leftQueued := Hand(pooled, depth);
      var rightQueued := Hand(pooled, depth);
      ghost var a2;
      // a queued right task may be finished by a worker before the left
      // one, whether the left one is queued under it or run on this thread;
      // a queued left task is waited for before a refused right one runs
      var rightFirst: bool := *;
      if rightQueued && rightFirst {
        RunMerge(T, s1, r1, q2, r2, A, s3, pooled, depth + 1, rightQueued);
        RunMerge(T, p1, m1, p2, m2, A, p3, pooled, depth + 1, leftQueued);
        ghost var left := Sort(Segment(t, p1, m1 + 1) + Segment(t, p2, m2 + 1));
        ghost var right := Sort(Segment(t, s1, r1 + 1) + Segment(t, q2, r2 + 1));
        SpliceCommute(a1, p3, left, s3, right);
        a2 := Splice(a1, p3, left);
      } else {
        RunMerge(T, p1, m1, p2, m2, A, p3, pooled, depth + 1, leftQueued);
        a2 := A[..];
        RunMerge(T, s1, r1, q2, r2, A, s3, pooled, depth + 1, rightQueued);
      }
      MergeSplitStep(a0, t, p1, m1, q1, s1, r1, p2, m2, q2, r2, p3, q3, s3, a1, a2, A[..]);
    }
  }

  /**
   * p_merge_sort(A, p, r, B, s, pool, depth): B is overwritten from s with
   * the sort of A[p..r], every other value of B is kept, and A is left
   * alone, whatever the pool does with the sub-problems. The range [p, r]
   * is non-empty and lies in A, and B has room for it from s.
   */
  method PMergeSort(A: array<int>, p: int, r: int, B: array<int>, s: int, pooled: bool, depth: int)
    requires A != B && 0 <= p <= r < A.Length
    requires 0 <= s && s + (r - p + 1) <= B.Length
    modifies B
    ensures B[..] == Splice(old(B[..]), s, Sort(Segment(old(A[..]), p, r + 1)))
    ensures A[..] == old(A[..])
    decreases r - p, 2
  {
    var n := r - p + 1;
    if n == 1 {
      ghost var b0 := B[..];
      B[s] := A[p];
      TradMergeSort.SortOneValue(A[..], b0, B[..], p, r, s);
    } else {
      ghost var a := A[..];
      // p + r is never negative here, so the division is the floor
      var q := (p + r) / 2;
      var qPrime := q - p + 1;
      var T := new int[n];
      ghost var t0 := T[..];

      SortHalves(A, p, q, r, T, qPrime, pooled, depth);
      ghost var t1 := Splice(t0, 0, Sort(Segment(a, p, q + 1)));
      var m1, n1 := qPrime - 1, n - 1;
      MergeSortStep(a, t0, t1, T[..], p, q, r, qPrime, m1, n1);
      // the final merge starts again at depth 0
      PMerge(T, 0, m1, qPrime, n1, B, s, pooled, 0);
    }
  }

  /**
   * The two half sorts of p_merge_sort, each handed to the pool or run on
   * this thread: T[0..q') becomes the sort of A[p..q] and T[q'..n) the sort
   * of A[q+1..r], in whichever order they finish.
   */
  method SortHalves(A: array<int>, p: int, q: int, r: int, T: array<int>, qPrime: int,
                    pooled: bool, depth: int)
    requires A != T && 0 <= p <= q < r < A.Length && qPrime == q - p + 1 && T.Length == r - p + 1
    modifies T
    ensures T[..] == Splice(Splice(old(T[..]), 0, Sort(Segment(old(A[..]), p, q + 1))),
                            qPrime, Sort(Segment(old(A[..]), q + 1, r + 1)))
    ensures A[..] == old(A[..])
    decreases r - p, 1
  {
    ghost var a, t0 := A[..], T[..];
    var leftQueued := Hand(pooled, depth);
    var rightQueued := Hand(pooled, depth);
    // a queued right task may be finished by a worker before the left
    // one, whether the left one is queued under it or run on this thread;
    // a queued left task is waited for before a refused right one runs
    var rightFirst: bool := *;
    if rightQueued && rightFirst {
      RunSort(A, q + 1, r, T, qPrime, pooled, depth + 1, rightQueued);
      ghost var tr := T[..];
      RunSort(A, p, q, T, 0, pooled, depth + 1, leftQueued);
      HalvesEitherOrder(a, t0, tr, T[..], p, q, r, qPrime);
    } else {
      RunSort(A, p, q, T, 0, pooled, depth + 1, leftQueued);
      RunSort(A, q + 1, r, T, qPrime, pooled, depth + 1, rightQueued);
    }
  }

  /**
   * merge_sort and p_merge_sort, given the same input range and the same
   * output buffer contents, leave the same output, whether or not there is
   * a pool and whatever the pool answers.
   */
  method SortsAgree(A: array<int>, p: int, r: int, B1: array<int>, B2: array<int>, s: int,
                    pooled: bool, depth: int)
    requires A != B1 && A != B2 && B1 != B2 && 0 <= p <= r < A.Length
    requires 0 <= s && s + (r - p + 1) <= B1.Length && B1[..] == B2[..]
    modifies B1, B2
    ensures B1[..] == B2[..] && A[..] == old(A[..])
  {
    TradMergeSort.MergeSort(A, p, r, B1, s);
    PMergeSort(A, p, r, B2, s, pooled, depth);
  }

  /**
   * The half sorts write the disjoint windows [0, q') and [q', n) of T, so
   * sorting the right half first leaves T as the left-first order does.
   */
  lemma HalvesEitherOrder(a: seq<int>, t0: seq<int>, tr: seq<int>, t2: seq<int>, p: int, q: int, r: int, m: int)
    requires 0 <= p <= q < r < |a| && m == q - p + 1 && |t0| == r - p + 1
    requires tr == Splice(t0, m, Sort(Segment(a, q + 1, r + 1)))
    requires t2 == Splice(tr, 0, Sort(Segment(a, p, q + 1)))
    ensures t2 == Splice(Splice(t0, 0, Sort(Segment(a, p, q + 1))), m, Sort(Segment(a, q + 1, r + 1)))
  {
    SpliceCommute(t0, 0, Sort(Segment(a, p, q + 1)), m, Sort(Segment(a, q + 1, r + 1)));
  }
}
