/** The three recursive merge sorts: with one shared swap space, with no extra storage at
    all, and out of place. They split a range into a left half rounded up and the rest. */
module TopDownSorts {
  import opened StableOrder
  import opened QueueMerge
  import BottomUpSort
  import BottomUpTheorems

  /** What all three compute. */
  function TopDown(s: seq<Element>): (t: seq<Element>)
    ensures |t| == |s|
  {
    if |s| <= 1 then s
    else
      var k := (|s| + 1) / 2;
      Merge(Ascending, TopDown(s[..k]), TopDown(s[k..]))
  }

  /** The cells visited by the sort with a shared swap space. */
  function TopDownVisits(s: seq<Element>): nat {
    if |s| <= 1 then 0
    else
      var k := (|s| + 1) / 2;
      TopDownVisits(s[..k]) + TopDownVisits(s[k..]) + Visits(Ascending, TopDown(s[..k]), TopDown(s[k..]))
  }

  lemma {:induction false} TopDownSorts(s: seq<Element>)
    ensures StableSortOf(Ascending, TopDown(s), s)
  {
    hide Merge, StableSortOf;
    if |s| <= 1 {
      OneIsSorted(s);
    } else {
      var k := (|s| + 1) / 2;
      TopDownSorts(s[..k]);
      TopDownSorts(s[k..]);
      MergeStable(Ascending, TopDown(s[..k]), s[..k], TopDown(s[k..]), s[k..]);
      assert s == s[..k] + s[k..];
    }
  }

  lemma OneIsSorted(s: seq<Element>)
    requires |s| <= 1
    ensures StableSortOf(Ascending, s, s)
  {
  }

  /** The recursive sorts and the bottom-up sort agree element by element. */
  lemma TopDownAgreesWithBottomUp(s: seq<Element>)
    ensures TopDown(s) == BottomUpSort.BottomUp(Ascending, s, 1)
  {
    TopDownSorts(s);
    BottomUpTheorems.BottomUpSorts(Ascending, s);
    StableSortUnique(Ascending, TopDown(s), BottomUpSort.BottomUp(Ascending, s, 1), s);
  }

  lemma {:induction false} CeilLog2Monotone(m: nat, n: nat)
    requires m <= n
    ensures BottomUpTheorems.CeilLog2(m) <= BottomUpTheorems.CeilLog2(n)
  {
    if m > 1 {
      CeilLog2Monotone((m + 1) / 2, (n + 1) / 2);
    }
  }

  lemma HalvesBound(m: nat, n: nat, c: nat, d: nat)
    requires d <= c
    ensures m * c + n * d + (m + n) <= (m + n) * (1 + c)
  {
    assert n * d <= n * c;
  }

  /** The recursive sort, too, visits at most n * ceil(log2 n) cells. */
  lemma {:induction false} TopDownVisitsBound(s: seq<Element>)
    ensures TopDownVisits(s) <= |s| * BottomUpTheorems.CeilLog2(|s|)
  {
    hide TopDown, Visits;
    if |s| > 1 {
      var k := (|s| + 1) / 2;
      TopDownVisitsBound(s[..k]);
      TopDownVisitsBound(s[k..]);
      CeilLog2Monotone(|s| - k, k);
      HalvesBound(k, |s| - k, BottomUpTheorems.CeilLog2(k), BottomUpTheorems.CeilLog2(|s| - k));
    }
  }

  /** s with its range s[lo..hi] sorted. */
  function RangeSorted(s: seq<Element>, lo: nat, hi: nat): (t: seq<Element>)
    requires lo <= hi <= |s|
    ensures |t| == |s|
  {
    s[..lo] + TopDown(s[lo..hi]) + s[hi..]
  }

  /** In terms of keys and tags: nothing outside the range changes, and inside it the keys never go
      down, no element is lost, and equal keys keep their order. */
  lemma RangeSortedMeaning(s: seq<Element>, lo: nat, hi: nat)
    requires lo <= hi <= |s|
    ensures var t := RangeSorted(s, lo, hi);
            && t[..lo] == s[..lo] && t[hi..] == s[hi..] && multiset(t[lo..hi]) == multiset(s[lo..hi])
            && (forall i, j :: lo <= i < j < hi ==> t[i].key <= t[j].key)
            && (TagsGrow(s[lo..hi]) ==>
                  forall i, j :: lo <= i < j < hi && t[i].key == t[j].key ==> t[i].tag < t[j].tag)
  {
    hide TopDown, StableSortOf, RangeSorted, TagsGrow;
    RangeSlices(s, lo, hi);
    var t, r := RangeSorted(s, lo, hi), s[lo..hi];
    TopDownSorts(r);
    StableSortMeaning(Ascending, TopDown(r), r);
    assert forall i :: lo <= i < hi ==> t[i] == t[lo..hi][i - lo];
  }

  lemma RangeSlices(s: seq<Element>, lo: nat, hi: nat)
    requires lo <= hi <= |s|
    ensures var t := RangeSorted(s, lo, hi); t[..lo] == s[..lo] && t[lo..hi] == TopDown(s[lo..hi]) && t[hi..] == s[hi..]
  {
    hide TopDown;
  }

  lemma SubSlice(s: seq<Element>, lo: nat, x: nat, y: nat, hi: nat)
    requires lo <= x <= y <= hi <= |s|
    ensures s[lo..hi][x - lo..y - lo] == s[x..y]
    ensures s[lo..][x - lo..y - lo] == s[x..y] && s[..hi][x..y] == s[x..y]
    ensures s[lo..][x - lo..] == s[x..]
  {
    var t := s[lo..hi];
    assert forall k :: 0 <= k < y - x ==> t[x - lo..y - lo][k] == t[x - lo + k] == s[x + k] == s[x..y][k];
  }

  /** Sorting the left half of a range, and then the right half, leaves both sorted. */
  lemma BothHalves(s: seq<Element>, lo: nat, mid: nat, hi: nat)
    requires lo <= mid <= hi <= |s|
    ensures RangeSorted(s, lo, mid)[mid..hi] == s[mid..hi]
    ensures var h := RangeSorted(RangeSorted(s, lo, mid), mid, hi);
            && h[lo..mid] == TopDown(s[lo..mid]) && h[mid..hi] == TopDown(s[mid..hi])
            && h[..lo] == s[..lo] && h[hi..] == s[hi..]
  {
    hide TopDown, RangeSorted;
    var l := RangeSorted(s, lo, mid);
    var h := RangeSorted(l, mid, hi);
    RangeSlices(s, lo, mid);
    SubSlice(l, mid, mid, hi, |s|);
    SubSlice(s, mid, mid, hi, |s|);
    SubSlice(l, mid, hi, hi, |s|);
    SubSlice(s, mid, hi, hi, |s|);
    RangeSlices(l, mid, hi);
    SubSlice(h, 0, lo, mid, mid);
    SubSlice(l, 0, lo, mid, mid);
    assert h[..lo] == h[..mid][..lo] == l[..lo];
  }

  /** Sorting both halves of a range and merging them sorts the range. */
  lemma HalvesMerged(s: seq<Element>, lo: nat, mid: nat, hi: nat)
    requires lo <= hi <= |s| && hi - lo >= 2 && mid == lo + (hi - lo + 1) / 2
    ensures Merged(Ascending, RangeSorted(RangeSorted(s, lo, mid), mid, hi), lo, mid, hi) == RangeSorted(s, lo, hi)
  {
    hide Merge;
    BothHalves(s, lo, mid, hi);
    SubSlice(s, lo, lo, mid, hi);
    SubSlice(s, lo, mid, hi, hi);
    var k := mid - lo;
    assert s[lo..hi][..k] == s[lo..hi][0..k] && s[lo..hi][k..] == s[lo..hi][k..hi - lo];
  }

  lemma HalvesVisits(s: seq<Element>, lo: nat, mid: nat, hi: nat)
    requires lo <= hi <= |s| && hi - lo >= 2 && mid == lo + (hi - lo + 1) / 2
    ensures TopDownVisits(s[lo..hi]) == TopDownVisits(s[lo..mid]) + TopDownVisits(s[mid..hi])
              + Visits(Ascending, TopDown(s[lo..mid]), TopDown(s[mid..hi]))
  {
    hide *;
    VisitsOfHalves(s[lo..hi], s[lo..mid], s[mid..hi]);
  }

  lemma VisitsOfHalves(s: seq<Element>, left: seq<Element>, right: seq<Element>)
    requires s == left + right && |s| >= 2 && |left| == (|s| + 1) / 2
    ensures TopDownVisits(s) == TopDownVisits(left) + TopDownVisits(right)
                                + Visits(Ascending, TopDown(left), TopDown(right))
  {
    hide TopDownVisits, Visits, TopDown;
    VisitsStep(s);
    assert s[..|left|] == left && s[|left|..] == right;
  }

  lemma VisitsStep(s: seq<Element>)
    requires |s| >= 2
    ensures var k := (|s| + 1) / 2;
            TopDownVisits(s) == TopDownVisits(s[..k]) + TopDownVisits(s[k..])
                                + Visits(Ascending, TopDown(s[..k]), TopDown(s[k..]))
  {
    hide Visits, TopDown;
  }

  lemma SmallRange(s: seq<Element>, lo: nat, hi: nat)
    requires lo <= hi <= |s| && hi - lo <= 1
    ensures RangeSorted(s, lo, hi) == s && TopDownVisits(s[lo..hi]) == 0
  {
    assert s == s[..lo] + s[lo..hi] + s[hi..];
  }

  /** The sort with one swap space of ceil(n/2) slots, taken at the outermost call. */
  method SharedSwapSort(a: array<Element>, lo: nat, hi: nat, ss: array?<Element>) returns (visited: nat)
    requires lo <= hi <= a.Length
    requires ss != null ==> ss != a && ss.Length >= (hi - lo + 1) / 2
    modifies a, ss
    ensures a[..] == RangeSorted(old(a[..]), lo, hi)
    ensures visited == TopDownVisits(old(a[lo..hi]))
    decreases hi - lo
  {
    hide TopDown, TopDownVisits, RangeSorted, Visits, Merged, SlotsNeeded;
    ghost var s := a[..];
    assert s[lo..hi] == a[lo..hi];
    visited := 0;
    if hi - lo <= 1 {
      SmallRange(s, lo, hi);
    } else {
      var sizeLeft := (hi - lo + 1) / 2;
      var mid := lo + sizeLeft;
      var swap := ss;
      if swap == null {
        swap := new Element[sizeLeft](_ => Element(0, 0));
      }
      BothHalves(s, lo, mid, hi);
      HalvesMerged(s, lo, mid, hi);
      HalvesVisits(s, lo, mid, hi);
      var left := SharedSwapSort(a, lo, mid, swap);
      assert a[mid..hi] == a[..][mid..hi];
      var right := SharedSwapSort(a, mid, hi, swap);
      assert a[lo..mid] == a[..][lo..mid] && a[mid..hi] == a[..][mid..hi];
      var ok, visits;
      ghost var peak;
      ok, visits, peak := MergeInPlace(Ascending, a, lo, mid, hi, swap);
      visited := left + right + visits;
    }
  }
}
