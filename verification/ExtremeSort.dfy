/** The recursive merge sort without extra storage: the queue of displaced left elements
    is kept in the consumed front of the right run, and is then merged itself with what
    is left of the right run, until the queue is empty. */
module ExtremeSort {
  import opened StableOrder
  import opened QueueMerge
  import opened TopDownSorts

  /** A left merge in progress on the runs s[lo..mid] and s[mid..hi]: l left and j right
      elements are out, the queue a[mid..mid + j] holds the next j left elements. */
  ghost predicate Queueing(s: seq<Element>, lo: nat, mid: nat, hi: nat, cells: seq<Element>, l: int, j: int)
    requires lo <= mid <= hi <= |s|
  {
    && 0 <= l && 0 <= j <= hi - mid && l + j <= mid - lo && |cells| == |s|
    && Remains(Ascending, s[lo..mid], s[mid..hi], l, j)
    && cells[..lo + l + j] == Merged(Ascending, s, lo, mid, hi)[..lo + l + j]
    && cells[lo + l + j..mid] == s[lo + l + j..mid]
    && cells[mid..mid + j] == s[lo + l..lo + l + j]
    && cells[mid + j..] == s[mid + j..]
  }

  lemma QueueingStart(s: seq<Element>, lo: nat, mid: nat, hi: nat)
    requires lo <= mid <= hi <= |s|
    ensures Queueing(s, lo, mid, hi, s, 0, 0)
  {
    hide Merge;
    RemainsStart(Ascending, s[lo..mid], s[mid..hi]);
  }

  /** What an iteration reads, in terms of the initial memory. */
  lemma QueueingReads(s: seq<Element>, lo: nat, mid: nat, hi: nat, cells: seq<Element>, l: int, j: int)
    requires lo <= mid <= hi <= |s| && Queueing(s, lo, mid, hi, cells, l, j) && l + j < mid - lo
    ensures 0 <= l && 0 <= j <= hi - mid && |cells| == |s|
    ensures cells[lo + l + j] == s[lo + l + j]
    ensures j > 0 ==> cells[mid] == s[lo + l]
    ensures j < hi - mid ==> cells[mid + j] == s[mid + j]
  {
    hide Remains, Merged;
    assert cells[lo + l + j] == cells[lo + l + j..mid][0];
    if j > 0 {
      assert cells[mid] == cells[mid..mid + j][0];
    }
    if j < hi - mid {
      assert cells[mid + j] == cells[mid + j..][0];
    }
  }

  /** The next element to be written, and what is left to merge after it. */
  lemma NextOut(s: seq<Element>, lo: nat, mid: nat, hi: nat, l: int, j: int)
    requires lo <= mid <= hi <= |s| && 0 <= l < mid - lo && 0 <= j <= hi - mid && l + j < mid - lo
    requires Remains(Ascending, s[lo..mid], s[mid..hi], l, j)
    ensures var right := j < hi - mid && Compare(Ascending, s[lo + l], s[mid + j]) > 0;
            && Merged(Ascending, s, lo, mid, hi)[lo + l + j] == (if right then s[mid + j] else s[lo + l])
            && (if right then Remains(Ascending, s[lo..mid], s[mid..hi], l, j + 1)
                else Remains(Ascending, s[lo..mid], s[mid..hi], l + 1, j))
  {
    hide Merge, Merged, Remains, Compare;
    var A, B := s[lo..mid], s[mid..hi];
    if j < hi - mid && Compare(Ascending, s[lo + l], s[mid + j]) > 0 {
      RemainsRight(Ascending, A, B, l, j);
    } else {
      RemainsLeft(Ascending, A, B, l, j);
    }
    MergedAt(Ascending, s, lo, mid, hi, lo + l + j);
  }

  lemma TakeSnoc(s: seq<Element>, lo: nat, n: nat)
    requires lo <= n < |s|
    ensures s[lo..n + 1] == s[lo..n] + [s[n]]
  {
  }

  lemma RightWins(s: seq<Element>, lo: nat, mid: nat, hi: nat, cells: seq<Element>, l: int, j: int)
    requires lo <= mid <= hi <= |s| && Queueing(s, lo, mid, hi, cells, l, j)
    requires l + j < mid - lo && 0 <= l && 0 <= j < hi - mid && |cells| == |s|
    requires Compare(Ascending, s[lo + l], s[mid + j]) > 0
    ensures Queueing(s, lo, mid, hi, cells[lo + l + j := cells[mid + j]][mid + j := cells[lo + l + j]], l, j + 1)
  {
    hide Remains, Merged, Compare;
    QueueingReads(s, lo, mid, hi, cells, l, j);
    NextOut(s, lo, mid, hi, l, j);
    var w, T := lo + l + j, Merged(Ascending, s, lo, mid, hi);
    var c := cells[w := cells[mid + j]][mid + j := cells[w]];
    assert c[..w + 1] == T[..w + 1] by {
      assert c[..w] == cells[..w];
      TakeSnoc(c, 0, w);
      TakeSnoc(T, 0, w);
    }
    assert c[w + 1..mid] == cells[w..mid][1..] == s[w + 1..mid];
    assert c[mid..mid + j + 1] == cells[mid..mid + j] + [s[w]] == s[lo + l..w + 1];
    assert c[mid + j + 1..] == cells[mid + j..][1..];
  }

  /** The queue's first element is written at w, the cell's element is appended to the queue. */
  ghost predicate Rotated(cells: seq<Element>, c: seq<Element>, w: nat, mid: nat, j: nat)
    requires w < mid && 0 < j && mid + j <= |cells|
  {
    && |c| == |cells|
    && c[..w] == cells[..w] && c[w] == cells[mid] && c[w + 1..mid] == cells[w + 1..mid]
    && c[mid..mid + j] == cells[mid + 1..mid + j] + [cells[w]]
    && c[mid + j..] == cells[mid + j..]
  }

  lemma QueueWins(s: seq<Element>, lo: nat, mid: nat, hi: nat, cells: seq<Element>, c: seq<Element>, l: int, j: int)
    requires lo <= mid <= hi <= |s| && Queueing(s, lo, mid, hi, cells, l, j)
    requires l + j < mid - lo && 0 <= l && 0 < j <= hi - mid && |cells| == |s|
    requires j < hi - mid ==> Compare(Ascending, s[lo + l], s[mid + j]) <= 0
    requires Rotated(cells, c, lo + l + j, mid, j)
    ensures Queueing(s, lo, mid, hi, c, l + 1, j)
  {
    hide Remains, Merged, Compare;
    QueueingReads(s, lo, mid, hi, cells, l, j);
    NextOut(s, lo, mid, hi, l, j);
    var w, T := lo + l + j, Merged(Ascending, s, lo, mid, hi);
    assert c[..w + 1] == T[..w + 1] by {
      TakeSnoc(c, 0, w);
      TakeSnoc(T, 0, w);
    }
    assert c[w + 1..mid] == cells[w..mid][1..] == s[w + 1..mid];
    assert cells[mid + 1..mid + j] == cells[mid..mid + j][1..] == s[lo + l + 1..w];
  }

  lemma CellWins(s: seq<Element>, lo: nat, mid: nat, hi: nat, cells: seq<Element>, l: int)
    requires lo <= mid <= hi <= |s| && Queueing(s, lo, mid, hi, cells, l, 0)
    requires 0 <= l < mid - lo
    requires 0 < hi - mid ==> Compare(Ascending, s[lo + l], s[mid]) <= 0
    ensures Queueing(s, lo, mid, hi, cells, l + 1, 0)
  {
    hide Remains, Merged, Compare;
    QueueingReads(s, lo, mid, hi, cells, l, 0);
    NextOut(s, lo, mid, hi, l, 0);
    var w, T := lo + l, Merged(Ascending, s, lo, mid, hi);
    assert cells[..w + 1] == T[..w + 1] by {
      TakeSnoc(cells, 0, w);
      TakeSnoc(T, 0, w);
    }
    assert cells[w + 1..mid] == cells[w..mid][1..] == s[w + 1..mid];
  }

  /** Once the left run's cells are filled, merging the queue with the rest of the right
      run completes the merge. */
  lemma QueueRemains(s: seq<Element>, lo: nat, mid: nat, hi: nat, cells: seq<Element>, l: int, j: int)
    requires lo <= mid <= hi <= |s| && Queueing(s, lo, mid, hi, cells, l, j) && l + j == mid - lo
    ensures j <= hi - mid && |cells| == |s|
    ensures Merged(Ascending, cells, mid, mid + j, hi) == Merged(Ascending, s, lo, mid, hi)
  {
    var A, B, T := s[lo..mid], s[mid..hi], Merged(Ascending, s, lo, mid, hi);
    assert A[l..] == cells[mid..mid + j];
    SubSlice(cells, mid + j, mid + j, hi, |s|);
    SubSlice(s, mid + j, mid + j, hi, |s|);
    assert B[j..] == cells[mid + j..hi];
    assert Merge(Ascending, A, B)[l + j..] == Merge(Ascending, cells[mid..mid + j], cells[mid + j..hi]);
    var C := Merged(Ascending, cells, mid, mid + j, hi);
    assert C[..mid] == T[..mid];
    forall k | mid <= k < |s|
      ensures C[k] == T[k]
    {
      MergedAt(Ascending, s, lo, mid, hi, k);
      MergedAt(Ascending, cells, mid, mid + j, hi, k);
      if k >= hi {
        assert cells[k] == cells[mid + j..][k - mid - j];
      } else {
        assert T[k] == Merge(Ascending, A, B)[l + j..][k - mid];
      }
    }
    forall k | 0 <= k < mid
      ensures C[k] == T[k]
    {
      assert C[k] == C[..mid][k] && T[k] == T[..mid][k];
    }
  }

  /** Shifts a[p + 1..p + n] one cell down. */
  method ShiftDown(a: array<Element>, p: nat, n: nat)
    requires 0 < n && p + n <= a.Length
    modifies a
    ensures a[..p] == old(a[..p]) && a[p..p + n - 1] == old(a[p + 1..p + n]) && a[p + n - 1..] == old(a[p + n - 1..])
  {
    var k := 0;
    while k < n - 1
      invariant 0 <= k <= n - 1
      invariant forall x :: 0 <= x < p || p + k <= x < a.Length ==> a[x] == old(a[x])
      invariant forall x :: p <= x < p + k ==> a[x] == old(a[x + 1])
    {
      a[p + k] := a[p + k + 1];
      k := k + 1;
    }
  }

  /** Fills a[lo..mid] with the first elements of the merge and returns the size of the
      queue left at a[mid..]: the rest of the merge is that of the queue and what follows it. */
  method LeftMerge(a: array<Element>, lo: nat, mid: nat, hi: nat) returns (queued: nat)
    requires lo <= mid <= hi <= a.Length
    modifies a
    ensures queued <= hi - mid && queued <= mid - lo
    ensures Merged(Ascending, a[..], mid, mid + queued, hi) == Merged(Ascending, old(a[..]), lo, mid, hi)
  {
    hide Queueing, Merged, Compare;
    ghost var s, c := a[..], a[..];
    QueueingStart(s, lo, mid, hi);
    var i, j := 0, 0;
    queued := 0;
    while i < mid - lo
      invariant 0 <= j <= i <= mid - lo && queued == j <= hi - mid
      invariant c == a[..] && Queueing(s, lo, mid, hi, c, i - j, j)
    {
      QueueingReads(s, lo, mid, hi, c, i - j, j);
      var leftCompare := if queued > 0 then a[mid] else a[lo + i];
      if j < hi - mid && Compare(Ascending, leftCompare, a[mid + j]) > 0 {
        RightWins(s, lo, mid, hi, c, i - j, j);
        var swapped := a[lo + i];
        a[lo + i] := a[mid + j];
        a[mid + queued] := swapped;
        queued, j := queued + 1, j + 1;
      } else if queued > 0 {
        var swapped := a[lo + i];
        a[lo + i] := a[mid];
        ghost var c1 := a[..];
        ShiftDown(a, mid, queued);
        ghost var c2 := a[..];
        a[mid + queued - 1] := swapped;
        RotatedBySteps(c, c1, c2, a[..], lo + i, mid, queued);
        QueueWins(s, lo, mid, hi, c, a[..], i - j, j);
      } else {
        CellWins(s, lo, mid, hi, c, i);
      }
      i := i + 1;
      c := a[..];
    }
    QueueRemains(s, lo, mid, hi, c, i - j, j);
  }

  lemma RotatedBySteps(c: seq<Element>, c1: seq<Element>, c2: seq<Element>, c3: seq<Element>, w: nat, mid: nat, j: nat)
    requires w < mid && 0 < j && mid + j <= |c|
    requires c1 == c[w := c[mid]] && |c2| == |c| && c3 == c2[mid + j - 1 := c[w]]
    requires c2[..mid] == c1[..mid] && c2[mid..mid + j - 1] == c1[mid + 1..mid + j]
    requires c2[mid + j - 1..] == c1[mid + j - 1..]
    ensures Rotated(c, c3, w, mid, j)
  {
    assert c3[..mid] == c1[..mid];
    assert c3[..w] == c3[..mid][..w] && c3[w] == c3[..mid][w] && c3[w + 1..mid] == c3[..mid][w + 1..];
    assert c1[..mid][..w] == c[..w] && c1[..mid][w + 1..] == c[w + 1..mid];
    assert c3[mid..mid + j] == c2[mid..mid + j - 1] + [c[w]];
    assert c1[mid + 1..mid + j] == c[mid + 1..mid + j];
    assert c3[mid + j..] == c2[mid + j - 1..][1..] == c1[mid + j - 1..][1..] == c[mid + j..];
  }

  lemma NoQueueMerged(s: seq<Element>, mid: nat, hi: nat)
    requires mid <= hi <= |s|
    ensures Merged(Ascending, s, mid, mid, hi) == s
  {
    assert s[mid..mid] == [] && Merge(Ascending, [], s[mid..hi]) == s[mid..hi];
    assert s == s[..mid] + s[mid..hi] + s[hi..];
  }

  /** Merges a[lo..mid] and a[mid..hi] without extra storage. The right run gets strictly
      shorter with every round. */
  method MergeNoStorage(a: array<Element>, lo: nat, mid: nat, hi: nat)
    requires lo <= mid <= hi <= a.Length
    modifies a
    ensures a[..] == Merged(Ascending, old(a[..]), lo, mid, hi)
  {
    hide Merged;
    var middle := mid;
    var queued := LeftMerge(a, lo, mid, hi);
    while queued > 0
      invariant 0 <= queued && 0 <= middle && middle + queued <= hi
      invariant Merged(Ascending, a[..], middle, middle + queued, hi) == Merged(Ascending, old(a[..]), lo, mid, hi)
      decreases hi - middle
    {
      var left := middle;
      middle := middle + queued;
      queued := LeftMerge(a, left, middle, hi);
    }
    NoQueueMerged(a[..], middle, hi);
  }

  /** The recursive sort on top of it. */
  method NoStorageSort(a: array<Element>, lo: nat, hi: nat)
    requires lo <= hi <= a.Length
    modifies a
    ensures a[..] == RangeSorted(old(a[..]), lo, hi)
    decreases hi - lo
  {
    hide TopDown, RangeSorted, Merged;
    if hi - lo <= 1 {
      SmallRange(a[..], lo, hi);
    } else {
      var mid := lo + (hi - lo + 1) / 2;
      HalvesMerged(a[..], lo, mid, hi);
      NoStorageSort(a, lo, mid);
      NoStorageSort(a, mid, hi);
      MergeNoStorage(a, lo, mid, hi);
    }
  }
}
