/**
 In-place quicksort over a closed index range `[start, end]` of an array,
 with a first-element pivot (`ClassicQuicksort`) or a pivot drawn from the
 range (`RandomQuicksort`). Both partition with the same two-pointer scheme
 (`ClassicDivide`).
 */
module Quicksort {

  /** Ascending order. */
  ghost predicate Sorted(s: seq<int>)
  {
    forall i, j :: 0 <= i < j < |s| ==> s[i] <= s[j]
  }

  ghost predicate AllAtMost(s: seq<int>, x: int)
  {
    forall i :: 0 <= i < |s| ==> s[i] <= x
  }

  ghost predicate AllAbove(s: seq<int>, x: int)
  {
    forall i :: 0 <= i < |s| ==> s[i] > x
  }

  /** Rearranging a sequence keeps every bound that holds of all its elements. */
  lemma PermutationKeepsBounds(s: seq<int>, t: seq<int>, x: int)
    requires multiset(s) == multiset(t)
    ensures AllAtMost(s, x) <==> AllAtMost(t, x)
    ensures AllAbove(s, x) <==> AllAbove(t, x)
  {
    forall i | 0 <= i < |s|
      ensures s[i] in t
    {
      assert s[i] in multiset(s);
    }
    forall i | 0 <= i < |t|
      ensures t[i] in s
    {
      assert t[i] in multiset(t);
    }
  }

  /** A sorted left part, the pivot and a sorted right part that it splits make a sorted whole. */
  lemma SortedAroundPivot(left: seq<int>, x: int, right: seq<int>)
    requires Sorted(left) && Sorted(right)
    requires AllAtMost(left, x) && AllAbove(right, x)
    ensures Sorted(left + [x] + right)
  {
    var s := left + [x] + right;
    forall i, j | 0 <= i < j < |s|
      ensures s[i] <= s[j]
    {
      if j < |left| {
      } else if j == |left| {
      } else if i < |left| {
        assert s[i] <= x < s[j];
      } else if i == |left| {
        assert s[j] == right[j - |left| - 1];
      } else {
        assert s[i] == right[i - |left| - 1] && s[j] == right[j - |left| - 1];
      }
    }
  }

  /** A sequence's elements are those before `lo`, those in `[lo, hi)` and those from `hi` on. */
  lemma ThreeParts(s: seq<int>, lo: int, hi: int)
    requires 0 <= lo <= hi <= |s|
    ensures multiset(s) == multiset(s[..lo]) + multiset(s[lo..hi]) + multiset(s[hi..])
  {
    assert s == s[..lo] + s[lo..hi] + s[hi..];
  }

  /**
   When two sequences of the same length agree outside `[lo, hi)` and hold
   the same elements overall, they hold the same elements inside `[lo, hi)`.
   */
  lemma {:induction false} RangePermutation(s: seq<int>, t: seq<int>, lo: int, hi: int)
    requires 0 <= lo <= hi <= |s| == |t|
    requires multiset(s) == multiset(t)
    requires forall i :: 0 <= i < |s| && (i < lo || hi <= i) ==> s[i] == t[i]
    ensures multiset(s[lo..hi]) == multiset(t[lo..hi])
  {
    ThreeParts(s, lo, hi);
    ThreeParts(t, lo, hi);
    assert s[..lo] == t[..lo];
    assert s[hi..] == t[hi..];
    forall x
      ensures multiset(s[lo..hi])[x] == multiset(t[lo..hi])[x]
    {
      assert multiset(s)[x] == multiset(t)[x];
    }
  }

  /**
   A sorted arrangement of a collection is unique: two sorted sequences with
   the same elements are equal. So whichever pivots are chosen, both
   quicksorts leave the same result, the ascending sort of the input.
   */
  lemma {:induction false} SortedPermutationUnique(s: seq<int>, t: seq<int>)
    requires Sorted(s) && Sorted(t)
    requires multiset(s) == multiset(t)
    ensures s == t
  {
    if s != [] {
      assert |t| == |multiset(t)| == |multiset(s)| == |s|;
      assert s[0] in multiset(t) && t[0] in multiset(s);
      assert s[0] == t[0] by {
        var i :| 0 <= i < |t| && t[i] == s[0];
        var j :| 0 <= j < |s| && s[j] == t[0];
        assert t[0] <= t[i] && s[0] <= s[j];
      }
      assert s == [s[0]] + s[1..] && t == [t[0]] + t[1..];
      assert multiset(s) == multiset{s[0]} + multiset(s[1..]);
      assert multiset(t) == multiset{t[0]} + multiset(t[1..]);
      forall x
        ensures multiset(s[1..])[x] == multiset(t[1..])[x]
      {
        assert multiset(s)[x] == multiset(t)[x];
      }
      SortedPermutationUnique(s[1..], t[1..]);
    }
  }

  /** Exchanges two elements of the array, as the tuple assignments of the partition do. */
  method Swap(a: array<int>, i: int, j: int)
    requires 0 <= i < a.Length && 0 <= j < a.Length
    modifies a
    ensures a[i] == old(a[j]) && a[j] == old(a[i])
    ensures forall k :: 0 <= k < a.Length && k != i && k != j ==> a[k] == old(a[k])
    ensures multiset(a[..]) == old(multiset(a[..]))
  {
    a[i], a[j] := a[j], a[i];
  }

  /**
   The left scan of the partition: moves `left` rightwards over elements
   not greater than the pivot value, stopping at the first greater one or
   just past `right`.
   */
  method SkipNotGreater(a: array<int>, left: int, right: int, anchor: int) returns (l: int)
    requires 0 <= left <= right + 1 <= a.Length
    ensures left <= l <= right + 1
    ensures forall i :: left <= i < l ==> a[i] <= anchor
    ensures l <= right ==> a[l] > anchor
  {
    l := left;
    while l <= right && a[l] <= anchor
      invariant left <= l <= right + 1
      invariant forall i :: left <= i < l ==> a[i] <= anchor
      decreases right - l
    {
      l := l + 1;
    }
  }

  /**
   The right scan of the partition: moves `right` leftwards over elements
   greater than the pivot value, stopping at the first one that is not
   greater or just before `left`.
   */
  method SkipGreater(a: array<int>, left: int, right: int, anchor: int) returns (r: int)
    requires 0 <= left <= right + 1 <= a.Length
    ensures left - 1 <= r <= right
    ensures forall i :: r < i <= right ==> a[i] > anchor
    ensures left <= r ==> a[r] <= anchor
  {
    r := right;
    while left <= r && a[r] > anchor
      invariant left - 1 <= r <= right
      invariant forall i :: r < i <= right ==> a[i] > anchor
      decreases r - left
    {
      r := r - 1;
    }
  }

  /**
   Two-pointer partition of `a[start..end]` around the pivot `a[start]`.
   On return the pivot sits at `p`, nothing before it in the range is
   greater and everything after it in the range is greater.
   */
  method ClassicDivide(a: array<int>, start: int, end: int) returns (p: int)
    requires 0 <= start <= end < a.Length
    modifies a
    ensures start <= p <= end
    ensures a[p] == old(a[start])
    ensures AllAtMost(a[start..p], a[p]) && AllAbove(a[p + 1..end + 1], a[p])
    ensures multiset(a[start..end + 1]) == old(multiset(a[start..end + 1]))
    ensures forall i :: 0 <= i < a.Length && (i < start || end < i) ==> a[i] == old(a[i])
  {
    var anchor := a[start];
    var left := start + 1;
    var right := end;
    ghost var swapped := false;
    while true
      invariant start + 1 <= left <= right + 1 <= end + 1
      invariant swapped ==> left < right && a[left] <= anchor && a[right] > anchor
      invariant a[start] == anchor
      invariant forall i :: start + 1 <= i < left ==> a[i] <= anchor
      invariant forall i :: right < i <= end ==> a[i] > anchor
      invariant multiset(a[..]) == old(multiset(a[..]))
      invariant forall i :: 0 <= i < a.Length && (i < start || end < i) ==> a[i] == old(a[i])
      decreases right - left + (if swapped then 1 else 2)
    {
      left := SkipNotGreater(a, left, right, anchor);
      right := SkipGreater(a, left, right, anchor);
      if left <= right {
        Swap(a, left, right);
        swapped := true;
      } else {
        break;
      }
    }
    ghost var scanned := a[..];
    Swap(a, start, right);
    p := right;
    PivotPlaced(old(a[..]), scanned, a[..], start, p, end, anchor);
  }

  /**
   The closing exchange of the partition: with the pivot at `start`, no
   greater element in `(start, p]` and only greater ones in `(p, end]`,
   exchanging positions `start` and `p` leaves the pivot between the two
   sides, and the range still holds the elements it held originally.
   */
  lemma PivotPlaced(orig: seq<int>, s: seq<int>, t: seq<int>, start: int, p: int, end: int, x: int)
    requires 0 <= start <= p <= end < |orig| == |s| == |t|
    requires multiset(s) == multiset(orig)
    requires forall i :: 0 <= i < |s| && (i < start || end < i) ==> s[i] == orig[i]
    requires s[start] == x
    requires forall i :: start + 1 <= i <= p ==> s[i] <= x
    requires forall i :: p < i <= end ==> s[i] > x
    requires t[start] == s[p] && t[p] == s[start]
    requires forall i :: 0 <= i < |s| && i != start && i != p ==> t[i] == s[i]
    requires multiset(t) == multiset(s)
    ensures t[p] == x
    ensures AllAtMost(t[start..p], x) && AllAbove(t[p + 1..end + 1], x)
    ensures multiset(t[start..end + 1]) == multiset(orig[start..end + 1])
    ensures forall i :: 0 <= i < |t| && (i < start || end < i) ==> t[i] == orig[i]
  {
    RangePermutation(t, orig, start, end + 1);
  }

  /** The first-element-pivot quicksort of the closed range `[start, end]`; a no-op when `start >= end`. */
  method ClassicQuicksort(a: array<int>, start: int, end: int)
    requires start < end ==> 0 <= start && end < a.Length
    modifies a
    ensures start < end ==> Sorted(a[start..end + 1])
    ensures start < end ==> multiset(a[start..end + 1]) == old(multiset(a[start..end + 1]))
    ensures forall i :: 0 <= i < a.Length && (i < start || end < i) ==> a[i] == old(a[i])
    ensures start >= end ==> a[..] == old(a[..])
    decreases end - start
  {
    if start < end {
      var p := ClassicDivide(a, start, end);
      ghost var divided := a[..];
      ClassicQuicksort(a, start, p - 1);
      ghost var leftDone := a[..];
      ClassicQuicksort(a, p + 1, end);
      SortedAfterDivide(old(a[..]), divided, leftDone, a[..], start, p, end);
    }
  }

  /**
   Partitioning with a pivot drawn from `[start, end]`: the drawn element
   is swapped to the front and the range is then partitioned as by
   `ClassicDivide`. The draw is a free choice, so the guarantees hold for
   every pivot index.
   */
  method RandomDivide(a: array<int>, start: int, end: int) returns (p: int)
    requires 0 <= start <= end < a.Length
    modifies a
    ensures start <= p <= end
    ensures exists r :: start <= r <= end && a[p] == old(a[r])
    ensures AllAtMost(a[start..p], a[p]) && AllAbove(a[p + 1..end + 1], a[p])
    ensures multiset(a[start..end + 1]) == old(multiset(a[start..end + 1]))
    ensures forall i :: 0 <= i < a.Length && (i < start || end < i) ==> a[i] == old(a[i])
  {
    var randomIdx :| start <= randomIdx <= end;
    Swap(a, start, randomIdx);
    RangePermutation(a[..], old(a[..]), start, end + 1);
    p := ClassicDivide(a, start, end);
  }

  /** Quicksort of the closed range `[start, end]` with a freely chosen pivot at every level. */
  method RandomQuicksort(a: array<int>, start: int, end: int)
    requires start < end ==> 0 <= start && end < a.Length
    modifies a
    ensures start < end ==> Sorted(a[start..end + 1])
    ensures start < end ==> multiset(a[start..end + 1]) == old(multiset(a[start..end + 1]))
    ensures forall i :: 0 <= i < a.Length && (i < start || end < i) ==> a[i] == old(a[i])
    ensures start >= end ==> a[..] == old(a[..])
    decreases end - start
  {
    if start < end {
      var p := RandomDivide(a, start, end);
      ghost var divided := a[..];
      RandomQuicksort(a, start, p - 1);
      ghost var leftDone := a[..];
      RandomQuicksort(a, p + 1, end);
      SortedAfterDivide(old(a[..]), divided, leftDone, a[..], start, p, end);
    }
  }

  /**
   Two sides of a partition, each sorted as a permutation of itself,
   joined around the pivot, are sorted and hold the elements of the
   partitioned range.
   */
  lemma JoinSides(left0: seq<int>, left1: seq<int>, x: int, right0: seq<int>, right1: seq<int>)
    requires AllAtMost(left0, x) && AllAbove(right0, x)
    requires Sorted(left1) && multiset(left1) == multiset(left0)
    requires Sorted(right1) && multiset(right1) == multiset(right0)
    ensures Sorted(left1 + [x] + right1)
    ensures multiset(left1 + [x] + right1) == multiset(left0 + [x] + right0)
  {
    PermutationKeepsBounds(left1, left0, x);
    PermutationKeepsBounds(right1, right0, x);
    SortedAroundPivot(left1, x, right1);
  }

  /**
   One side of the pivot after its recursive sort: a side of at most one
   element is left as it was, a longer one is sorted in place; either way
   it ends sorted and with the elements it had.
   */
  lemma SideSorted(before: seq<int>, after: seq<int>, lo: int, hi: int)
    requires 0 <= lo <= hi <= |before| == |after|
    requires lo < hi - 1 ==> Sorted(after[lo..hi]) && multiset(after[lo..hi]) == multiset(before[lo..hi])
    requires lo >= hi - 1 ==> after == before
    ensures Sorted(after[lo..hi])
    ensures multiset(after[lo..hi]) == multiset(before[lo..hi])
  {
  }

  /** Two sequences that agree outside `[lo, hi]` agree on every slice `[from, to)` that avoids it. */
  lemma AgreeOutside(s: seq<int>, t: seq<int>, lo: int, hi: int, from: int, to: int)
    requires |s| == |t| && 0 <= from <= to <= |s|
    requires to <= lo || hi < from
    requires forall i :: 0 <= i < |s| && (i < lo || hi < i) ==> t[i] == s[i]
    ensures t[from..to] == s[from..to]
  {
  }

  /** The left side `[start, p - 1]` after its sort: untouched by the later sort of the right side. */
  lemma LeftSideDone(divided: seq<int>, leftDone: seq<int>, done: seq<int>, start: int, p: int, end: int)
    requires 0 <= start <= p <= end < |divided| == |leftDone| == |done|
    requires start < p - 1 ==> Sorted(leftDone[start..p])
    requires start < p - 1 ==> multiset(leftDone[start..p]) == multiset(divided[start..p])
    requires start >= p - 1 ==> leftDone == divided
    requires forall i :: 0 <= i < |done| && (i < p + 1 || end < i) ==> done[i] == leftDone[i]
    ensures Sorted(done[start..p]) && multiset(done[start..p]) == multiset(divided[start..p])
  {
    SideSorted(divided, leftDone, start, p);
    AgreeOutside(leftDone, done, p + 1, end, start, p);
  }

  /** The right side `[p + 1, end]` after its sort: the earlier sort of the left side left it as partitioned. */
  lemma RightSideDone(divided: seq<int>, leftDone: seq<int>, done: seq<int>, start: int, p: int, end: int)
    requires 0 <= start <= p <= end < |divided| == |leftDone| == |done|
    requires forall i :: 0 <= i < |leftDone| && (i < start || p - 1 < i) ==> leftDone[i] == divided[i]
    requires p + 1 < end ==> Sorted(done[p + 1..end + 1])
    requires p + 1 < end ==> multiset(done[p + 1..end + 1]) == multiset(leftDone[p + 1..end + 1])
    requires p + 1 >= end ==> done == leftDone
    ensures Sorted(done[p + 1..end + 1]) && multiset(done[p + 1..end + 1]) == multiset(divided[p + 1..end + 1])
  {
    SideSorted(leftDone, done, p + 1, end + 1);
    AgreeOutside(divided, leftDone, start, p - 1, p + 1, end + 1);
  }

  /**
   The step shared by both quicksorts: after a partition of `[start, end]`
   at `p`, the left side `[start, p - 1]` and then the right side
   `[p + 1, end]` are each sorted in place; the range is then sorted and a
   permutation of the original range.
   */
  lemma SortedAfterDivide(orig: seq<int>, divided: seq<int>, leftDone: seq<int>, done: seq<int>,
                          start: int, p: int, end: int)
    requires 0 <= start <= p <= end < |orig| == |divided| == |leftDone| == |done|
    requires multiset(divided[start..end + 1]) == multiset(orig[start..end + 1])
    requires AllAtMost(divided[start..p], divided[p]) && AllAbove(divided[p + 1..end + 1], divided[p])
    requires start < p - 1 ==> Sorted(leftDone[start..p])
    requires start < p - 1 ==> multiset(leftDone[start..p]) == multiset(divided[start..p])
    requires forall i :: 0 <= i < |leftDone| && (i < start || p - 1 < i) ==> leftDone[i] == divided[i]
    requires start >= p - 1 ==> leftDone == divided
    requires p + 1 < end ==> Sorted(done[p + 1..end + 1])
    requires p + 1 < end ==> multiset(done[p + 1..end + 1]) == multiset(leftDone[p + 1..end + 1])
    requires forall i :: 0 <= i < |done| && (i < p + 1 || end < i) ==> done[i] == leftDone[i]
    requires p + 1 >= end ==> done == leftDone
    ensures Sorted(done[start..end + 1])
    ensures multiset(done[start..end + 1]) == multiset(orig[start..end + 1])
  {
    LeftSideDone(divided, leftDone, done, start, p, end);
    RightSideDone(divided, leftDone, done, start, p, end);
    var x := divided[p];
    assert done[p] == leftDone[p] == x;
    Around(done, start, p, end + 1);
    Around(divided, start, p, end + 1);
    JoinSides(divided[start..p], done[start..p], x, divided[p + 1..end + 1], done[p + 1..end + 1]);
  }

  /** A range of an array seen as its part before `p`, the element at `p` and its part after `p`. */
  lemma Around(s: seq<int>, lo: int, p: int, hi: int)
    requires 0 <= lo <= p < hi <= |s|
    ensures s[lo..hi] == s[lo..p] + [s[p]] + s[p + 1..hi]
  {
  }
}
