/**
 * The two helpers that the sequential and the pooled merge sort each
 * define, word for word the same: the lower-bound binary search and the
 * exchange of two integers.
 */
module SortPrimitives {
  import opened SortSpec

  function Max(a: int, b: int): int
  {
    if a > b then a else b
  }

  /**
   * The search of binary_search on the half-open window [low, high) of s:
   * halve the window at the floor of its midpoint, keep the left half when
   * x is at most the midpoint value and the right half otherwise, and
   * answer the upper end once the window is empty.
   */
  function LowerBound(s: seq<int>, x: int, low: int, high: int): (h: int)
    requires low <= high && (low < high ==> 0 <= low && high <= |s|)
    ensures low <= h <= high
    decreases high - low
  {
    if low < high then
      var mid := (low + high) / 2;
      if x <= s[mid] then LowerBound(s, x, low, mid) else LowerBound(s, x, mid + 1, high)
    else high
  }

  /**
   * The answer of binary_search(x, s, p, r): the search over [p, max(p, r + 1)).
   * When the range is not reversed by more than one (p <= r + 1) that is
   * the search over [p, r + 1), whose answer lies in [p, r + 1].
   */
  function Search(s: seq<int>, x: int, p: int, r: int): (h: int)
    requires p <= r ==> 0 <= p && r < |s|
    ensures p <= h <= Max(p, r + 1)
    ensures p <= r + 1 ==> h <= r + 1 && h == LowerBound(s, x, p, r + 1)
  {
    LowerBound(s, x, p, Max(p, r + 1))
  }

  /**
   * What the search finds on [lo, hi), for any contents: an index of
   * [lo, hi] whose left neighbour (if it is in the range) is smaller than
   * x and whose own value (if it is in the range) is not. On a sorted
   * range that makes it the lower bound: every value before it is smaller
   * than x and every value from it on is not.
   */
  lemma LowerBoundSpec(s: seq<int>, x: int, lo: int, hi: int)
    requires 0 <= lo <= hi <= |s|
    ensures var h := LowerBound(s, x, lo, hi);
            && (lo < h ==> s[h - 1] < x)
            && (h < hi ==> x <= s[h])
            && (SortedRange(s, lo, hi) ==>
                  (forall i :: lo <= i < h ==> s[i] < x) &&
                  (forall i :: h <= i < hi ==> x <= s[i]))
  {
    LowerBoundBelow(s, x, lo, lo, hi);
    LowerBoundAbove(s, x, hi, lo, hi);
    if SortedRange(s, lo, hi) {
      LowerBoundSorted(s, x, lo, hi, lo, hi);
    }
  }

  /**
   * The left-neighbour fact of LowerBoundSpec, for a window the search has
   * narrowed to: what lies just left of the window is smaller than x.
   */
  lemma {:induction false} LowerBoundBelow(s: seq<int>, x: int, lo: int, low: int, high: int)
    requires 0 <= lo <= low <= high <= |s|
    requires lo < low ==> s[low - 1] < x
    ensures var h := LowerBound(s, x, low, high); lo < h ==> s[h - 1] < x
    decreases high - low
  {
    if low < high {
      var mid := (low + high) / 2;
      if x <= s[mid] {
        LowerBoundBelow(s, x, lo, low, mid);
        LowerBoundLeft(s, x, low, mid, high);
      } else {
        LowerBoundBelow(s, x, lo, mid + 1, high);
        LowerBoundRight(s, x, low, mid, high);
      }
    } else {
      assert low == high == LowerBound(s, x, low, high);
    }
  }

  /**
   * The right-neighbour fact of LowerBoundSpec, for a window the search has
   * narrowed to: what lies just right of the window is at least x.
   */
  lemma {:induction false} LowerBoundAbove(s: seq<int>, x: int, hi: int, low: int, high: int)
    requires 0 <= low <= high <= hi <= |s|
    requires high < hi ==> x <= s[high]
    ensures var h := LowerBound(s, x, low, high); h < hi ==> x <= s[h]
    decreases high - low
  {
    if low < high {
      var mid := (low + high) / 2;
      if x <= s[mid] {
        LowerBoundAbove(s, x, hi, low, mid);
        LowerBoundLeft(s, x, low, mid, high);
      } else {
        LowerBoundAbove(s, x, hi, mid + 1, high);
        LowerBoundRight(s, x, low, mid, high);
      }
    } else {
      assert low == high == LowerBound(s, x, low, high);
    }
  }

  /** One step of the search: a midpoint value at least x keeps the left half. */
  lemma LowerBoundLeft(s: seq<int>, x: int, low: int, mid: int, high: int)
    requires 0 <= low <= mid < high <= |s| && mid == (low + high) / 2 && x <= s[mid]
    ensures LowerBound(s, x, low, high) == LowerBound(s, x, low, mid)
  {
  }

  /** One step of the search: a midpoint value below x keeps the right half. */
  lemma LowerBoundRight(s: seq<int>, x: int, low: int, mid: int, high: int)
    requires 0 <= low <= mid < high <= |s| && mid == (low + high) / 2 && s[mid] < x
    ensures LowerBound(s, x, low, high) == LowerBound(s, x, mid + 1, high)
  {
  }

  /** The lower-bound facts of LowerBoundSpec, for a window of a sorted range. */
  lemma {:induction false} LowerBoundSorted(s: seq<int>, x: int, lo: int, hi: int, low: int, high: int)
    requires 0 <= lo <= low <= high <= hi <= |s| && SortedRange(s, lo, hi)
    requires forall i :: lo <= i < low ==> s[i] < x
    requires forall i :: high <= i < hi ==> x <= s[i]
    ensures var h := LowerBound(s, x, low, high);
            (forall i :: lo <= i < h ==> s[i] < x) && (forall i :: h <= i < hi ==> x <= s[i])
    decreases high - low
  {
    if low < high {
      var mid := (low + high) / 2;
      if x <= s[mid] {
        forall i | mid <= i < hi ensures x <= s[i] {
          SortedRangeIndex(s, lo, hi, mid, i);
        }
        LowerBoundSorted(s, x, lo, hi, low, mid);
      } else {
        forall i | lo <= i <= mid ensures s[i] < x {
          SortedRangeIndex(s, lo, hi, i, mid);
        }
        LowerBoundSorted(s, x, lo, hi, mid + 1, high);
      }
    }
  }

  /**
   * binary_search: the lower-bound search for x over arr between p and r,
   * with the properties LowerBoundSpec proves of it.
   */
  method BinarySearch(x: int, arr: array<int>, p: int, r: int) returns (h: int)
    requires p <= r ==> 0 <= p && r < arr.Length
    ensures h == Search(arr[..], x, p, r)
    ensures p <= r + 1 ==> h == LowerBound(arr[..], x, p, r + 1)
    ensures p <= r && SortedRange(arr[..], p, r + 1) ==>
              (forall i :: p <= i < h ==> arr[i] < x) &&
              (forall i :: h <= i <= r ==> x <= arr[i])
  {
    var low := p;
    var high := if p > r + 1 then p else r + 1;
    while low < high
      invariant p <= low <= high <= Max(p, r + 1)
      invariant LowerBound(arr[..], x, low, high) == LowerBound(arr[..], x, p, Max(p, r + 1))
      decreases high - low
    {
      // low + high is never negative here, so the floor of the halved
      // sum is integer division
      var mid := (low + high) / 2;
      if x <= arr[mid] {
        high := mid;
      } else {
        low := mid + 1;
      }
    }
    if p <= r {
      LowerBoundSpec(arr[..], x, p, r + 1);
    }
    return high;
  }

  /** Order between two indices of a sorted range. */
  lemma SortedRangeIndex(s: seq<int>, lo: int, hi: int, i: int, j: int)
    requires 0 <= lo <= i <= j < hi <= |s| && SortedRange(s, lo, hi)
    ensures s[i] <= s[j]
  {
    SortedRangeSlice(s, lo, hi);
    SortedIndex(s[lo..hi], i - lo, j - lo);
  }

  /** Exchanges two integers, as the source does through two pointers. */
  method Swap(n1: int, n2: int) returns (m1: int, m2: int)
    ensures m1 == n2 && m2 == n1
  {
    var temp := n1;
    m1 := n2;
    m2 := temp;
  }
}
