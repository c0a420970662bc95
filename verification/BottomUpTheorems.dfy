/** What the bottom-up sort computes, which swap space it needs, and how many cells it visits. */
module BottomUpTheorems {
  import opened StableOrder
  import opened QueueMerge
  import opened BottomUpSort

  // ----- the result is the stable sort of the input

  /** Every aligned run of length span of t, a shorter last one included, is the stable
      sort of the same cells of s. */
  ghost predicate Runs(order: SortOrder, t: seq<Element>, s: seq<Element>, span: nat)
    requires span > 0
    decreases |t|
  {
    |t| == |s| &&
    if |t| <= span then StableSortOf(order, t, s)
    else StableSortOf(order, t[..span], s[..span]) && Runs(order, t[span..], s[span..], span)
  }

  lemma {:induction false} RunsOfOne(order: SortOrder, s: seq<Element>)
    ensures Runs(order, s, s, 1)
  {
    if |s| > 1 {
      RunsOfOne(order, s[1..]);
    }
  }

  lemma RunsSecond(order: SortOrder, t: seq<Element>, s: seq<Element>, span: nat)
    requires 0 < span < |t| && Runs(order, t, s, span)
    ensures var hi := Min(2 * span, |t|);
            StableSortOf(order, t[span..hi], s[span..hi]) && (hi < |t| ==> Runs(order, t[hi..], s[hi..], span))
  {
    hide StableSortOf;
    if |t| <= 2 * span {
      assert t[span..|t|] == t[span..] && s[span..|t|] == s[span..];
    } else {
      assert t[span..2 * span] == t[span..][..span] && s[span..2 * span] == s[span..][..span];
      assert t[2 * span..] == t[span..][span..] && s[2 * span..] == s[span..][span..];
    }
  }

  /** A pass doubles the length of the sorted runs. */
  lemma {:induction false} PassDoublesRuns(order: SortOrder, t: seq<Element>, s: seq<Element>, span: nat)
    requires span > 0 && Runs(order, t, s, span)
    ensures Runs(order, Pass(order, t, span), s, 2 * span)
    decreases |t|
  {
    hide StableSortOf, Merge;
    if |t| > span {
      var hi := Min(2 * span, |t|);
      var m, p := Merge(order, t[..span], t[span..hi]), Pass(order, t, span);
      RunsSecond(order, t, s, span);
      MergeStable(order, t[..span], s[..span], t[span..hi], s[span..hi]);
      assert s[..hi] == s[..span] + s[span..hi];
      if hi < |t| {
        PassDoublesRuns(order, t[hi..], s[hi..], span);
        assert p[..hi] == m && p[hi..] == Pass(order, t[hi..], span);
      } else {
        assert Pass(order, t[hi..], span) == [] && p == m && s[..hi] == s;
      }
    }
  }

  lemma {:induction false} BottomUpFromRuns(order: SortOrder, t: seq<Element>, s: seq<Element>, span: nat)
    requires span > 0 && Runs(order, t, s, span)
    ensures StableSortOf(order, BottomUp(order, t, span), s)
    decreases |t| - span
  {
    if span < |t| {
      PassDoublesRuns(order, t, s, span);
      BottomUpFromRuns(order, Pass(order, t, span), s, 2 * span);
    }
  }

  /** The bottom-up sort returns the stable sort of its input, for both orders. */
  lemma BottomUpSorts(order: SortOrder, s: seq<Element>)
    ensures StableSortOf(order, BottomUp(order, s, 1), s)
  {
    RunsOfOne(order, s);
    BottomUpFromRuns(order, s, s, 1);
  }

  /** The same in terms of keys and tags: downwards the keys never go up, otherwise they never
      go down; no element is lost; and equal keys keep the order of the input. */
  lemma BottomUpKeys(order: SortOrder, s: seq<Element>)
    ensures var t := BottomUp(order, s, 1);
            && multiset(t) == multiset(s)
            && (order == Descending ==> forall i, j :: 0 <= i < j < |t| ==> t[i].key >= t[j].key)
            && (order != Descending ==> forall i, j :: 0 <= i < j < |t| ==> t[i].key <= t[j].key)
            && (TagsGrow(s) ==> forall i, j :: 0 <= i < j < |t| && t[i].key == t[j].key ==> t[i].tag < t[j].tag)
  {
    hide BottomUp, StableSortOf;
    BottomUpSorts(order, s);
    StableSortMeaning(order, BottomUp(order, s, 1), s);
  }

  // ----- the swap space it needs

  /** Whether some element of right comes strictly before x. */
  predicate Beaten(order: SortOrder, x: Element, right: seq<Element>) {
    exists k :: 0 <= k < |right| && Rank(order, right[k]) < Rank(order, x)
  }

  /** How many elements of left are preceded by some element of right. */
  function Overtaken(order: SortOrder, left: seq<Element>, right: seq<Element>): (n: nat)
    ensures n <= |left|
  {
    if left == [] then 0
    else (if Beaten(order, left[0], right) then 1 else 0) + Overtaken(order, left[1..], right)
  }

  lemma {:induction false} OvertakenConcat(order: SortOrder, a: seq<Element>, b: seq<Element>, right: seq<Element>)
    ensures Overtaken(order, a + b, right) == Overtaken(order, a, right) + Overtaken(order, b, right)
  {
    if a == [] {
      assert a + b == b;
    } else {
      assert (a + b)[1..] == a[1..] + b;
      OvertakenConcat(order, a[1..], b, right);
    }
  }

  lemma OvertakenWithout(order: SortOrder, b: seq<Element>, k: nat, right: seq<Element>)
    requires k < |b|
    ensures Overtaken(order, b, right) == Overtaken(order, [b[k]], right) + Overtaken(order, b[..k] + b[k + 1..], right)
  {
    OvertakenConcat(order, b[..k], b[k + 1..], right);
    OvertakenConcat(order, b[..k], [b[k]], right);
    OvertakenConcat(order, b[..k] + [b[k]], b[k + 1..], right);
    assert b == b[..k] + [b[k]] + b[k + 1..];
  }

  lemma Without(s: seq<Element>, k: nat)
    requires k < |s|
    ensures multiset(s[..k] + s[k + 1..]) == multiset(s) - multiset{s[k]}
  {
    assert s == s[..k] + ([s[k]] + s[k + 1..]);
  }

  lemma {:induction false} OvertakenPermuted(order: SortOrder, a: seq<Element>, b: seq<Element>, right: seq<Element>)
    requires multiset(a) == multiset(b)
    ensures Overtaken(order, a, right) == Overtaken(order, b, right)
    decreases |a|
  {
    hide Overtaken, Beaten;
    if a == [] {
      assert |b| == |multiset(b)| == 0;
    } else {
      assert a[0] in multiset(b);
      var k :| 0 <= k < |b| && b[k] == a[0];
      Without(a, 0);
      Without(b, k);
      assert a[..0] + a[1..] == a[1..] && a == [a[0]] + a[1..];
      assert multiset(a[1..]) == multiset(b[..k] + b[k + 1..]);
      OvertakenPermuted(order, a[1..], b[..k] + b[k + 1..], right);
      OvertakenConcat(order, [a[0]], a[1..], right);
      OvertakenWithout(order, b, k, right);
    }
  }

  lemma BeatenPermuted(order: SortOrder, x: Element, right: seq<Element>, right': seq<Element>)
    requires multiset(right) == multiset(right')
    ensures Beaten(order, x, right) == Beaten(order, x, right')
  {
    forall e
      ensures e in right <==> e in right'
    {
      assert e in right <==> e in multiset(right);
    }
    if Beaten(order, x, right) {
      var k :| 0 <= k < |right| && Rank(order, right[k]) < Rank(order, x);
      assert right[k] in right';
    }
    if Beaten(order, x, right') {
      var k :| 0 <= k < |right'| && Rank(order, right'[k]) < Rank(order, x);
      assert right'[k] in right;
    }
  }

  lemma {:induction false} OvertakenByPermuted(order: SortOrder, a: seq<Element>, right: seq<Element>,
                                               right': seq<Element>)
    requires multiset(right) == multiset(right')
    ensures Overtaken(order, a, right) == Overtaken(order, a, right')
  {
    if a != [] {
      BeatenPermuted(order, a[0], right, right');
      OvertakenByPermuted(order, a[1..], right, right');
    }
  }

  lemma {:induction false} AllOvertaken(order: SortOrder, a: seq<Element>, b: seq<Element>)
    requires b != [] && forall k :: 0 <= k < |a| ==> Rank(order, b[0]) < Rank(order, a[k])
    ensures Overtaken(order, a, b) == |a|
  {
    if a != [] {
      assert Beaten(order, a[0], b);
      forall k | 0 <= k < |a[1..]| ensures Rank(order, b[0]) < Rank(order, a[1..][k]) {
        assert a[1..][k] == a[k + 1];
      }
      AllOvertaken(order, a[1..], b);
    }
  }

  /** For sorted runs, the slots a merge writes are the overtaken elements of its left run. */
  lemma {:induction false} SlotsAreOvertaken(order: SortOrder, a: seq<Element>, b: seq<Element>)
    requires Sorted(order, a) && Sorted(order, b)
    ensures SlotsNeeded(order, a, b) == Overtaken(order, a, b)
  {
    if a != [] && b != [] {
      if Compare(order, a[0], b[0]) > 0 {
        AllOvertaken(order, a, b);
      } else {
        assert !Beaten(order, a[0], b);
        SlotsAreOvertaken(order, a[1..], b);
      }
    } else if b == [] {
      NoneOvertaken(order, a);
    }
  }

  lemma {:induction false} NoneOvertaken(order: SortOrder, a: seq<Element>)
    ensures Overtaken(order, a, []) == 0
  {
    if a != [] {
      NoneOvertaken(order, a[1..]);
    }
  }

  lemma {:induction false} SmallSpanFits(order: SortOrder, s: seq<Element>, span: nat, slots: nat)
    requires 0 < span <= slots
    ensures PassFits(order, s, span, slots)
    decreases |s|
  {
    if |s| > span {
      SmallSpanFits(order, s[Min(2 * span, |s|)..], span, slots);
    }
  }

  /** The run length of the last pass over n elements: the largest power of two below n. */
  function LastSpan(span: nat, n: nat): nat
    requires span > 0
    decreases n - span
  {
    if 2 * span >= n then span else LastSpan(2 * span, n)
  }

  lemma {:induction false} LastSpanBounds(span: nat, n: nat)
    requires 0 < span < n
    ensures LastSpan(span, n) < n <= 2 * LastSpan(span, n)
    decreases n - span
  {
    if 2 * span < n {
      LastSpanBounds(2 * span, n);
    }
  }

  lemma LastPassFits(order: SortOrder, t: seq<Element>, span: nat, slots: nat)
    requires 0 < span < |t| <= 2 * span
    ensures SortFits(order, t, span, slots) == (SlotsNeeded(order, t[..span], t[span..]) <= slots)
  {
    hide SlotsNeeded, Pass;
    assert t[span..Min(2 * span, |t|)] == t[span..] && t[Min(2 * span, |t|)..] == [];
    assert PassFits(order, [], span, slots);
    assert PassFits(order, t, span, slots) == (SlotsNeeded(order, t[..span], t[span..]) <= slots);
    assert SortFits(order, Pass(order, t, span), 2 * span, slots);
  }

  lemma {:induction false} FitsFromRuns(order: SortOrder, t: seq<Element>, s: seq<Element>, span: nat, slots: nat)
    requires 0 < span < |s| && Runs(order, t, s, span) && 2 * slots + 1 >= |s|
    requires LastSpan(span, |s|) < |s|
    ensures SortFits(order, t, span, slots) <==>
            Overtaken(order, s[..LastSpan(span, |s|)], s[LastSpan(span, |s|)..]) <= slots
    decreases |s| - span
  {
    if 2 * span < |s| {
      PassDoublesRuns(order, t, s, span);
      SmallSpanFits(order, t, span, slots);
      FitsFromRuns(order, Pass(order, t, span), s, 2 * span, slots);
    } else {
      var (A, B) := (t[..span], t[span..]);
      assert t[span..Min(2 * span, |t|)] == B && t[Min(2 * span, |t|)..] == [];
      LastPassFits(order, t, span, slots);
      StableSortIsPermutation(order, A, s[..span]);
      StableSortIsPermutation(order, B, s[span..]);
      SlotsAreOvertaken(order, A, B);
      OvertakenPermuted(order, A, s[..span], B);
      OvertakenByPermuted(order, s[..span], B, s[span..]);
    }
  }

  /** With at least floor(n/2) slots, the sort stays within its swap space if and only if
      the elements of the last pass's left half that some right element precedes fit in it. */
  lemma SwapSpaceSuffices(order: SortOrder, s: seq<Element>, slots: nat)
    requires |s| >= 2 && slots >= |s| / 2
    ensures LastSpan(1, |s|) < |s|
    ensures SortFits(order, s, 1, slots) <==>
            Overtaken(order, s[..LastSpan(1, |s|)], s[LastSpan(1, |s|)..]) <= slots
  {
    LastSpanBounds(1, |s|);
    RunsOfOne(order, s);
    FitsFromRuns(order, s, s, 1, slots);
  }

  /** A power-of-two length never needs more than the floor(n/2) slots that are allocated. */
  lemma PowerOfTwoSuffices(order: SortOrder, s: seq<Element>)
    requires |s| >= 2 && |s| == 2 * LastSpan(1, |s|)
    ensures SortFits(order, s, 1, |s| / 2)
  {
    SwapSpaceSuffices(order, s, |s| / 2);
  }

  /** The allocated floor(n/2) slots, and even ceil(n/2), can be too few: five elements
      whose last one is the smallest need four slots. */
  lemma SwapSpaceTooSmall()
    ensures var s := [Element(2, 0), Element(3, 1), Element(4, 2), Element(5, 3), Element(1, 4)];
            !SortFits(Ascending, s, 1, |s| / 2) && !SortFits(Ascending, s, 1, (|s| + 1) / 2)
  {
    var s := [Element(2, 0), Element(3, 1), Element(4, 2), Element(5, 3), Element(1, 4)];
    assert LastSpan(1, |s|) == 4 by {
      assert LastSpan(4, 5) == 4 && LastSpan(2, 5) == 4;
    }
    var (left, right) := (s[..4], s[4..]);
    assert right[0] == Element(1, 4);
    forall k | 0 <= k < |left|
      ensures Rank(Ascending, right[0]) < Rank(Ascending, left[k])
    {
    }
    AllOvertaken(Ascending, left, right);
    SwapSpaceSuffices(Ascending, s, |s| / 2);
    SwapSpaceSuffices(Ascending, s, (|s| + 1) / 2);
  }

  /** An input of length n whose last pass overtakes the whole left run. */
  function WorstInput(n: nat): (s: seq<Element>)
    requires n >= 2
    ensures |s| == n
  {
    seq(n, i requires 0 <= i < n => Element(if i < LastSpan(1, n) then 1 else 0, i))
  }

  /** For a length that is no power of two, floor(n/2) slots are too few for some input:
      only as many slots as the last pass's run length are enough for all of them. */
  lemma WorstInputNeedsLastSpan(n: nat, slots: nat)
    requires n >= 2 && slots >= n / 2
    ensures SortFits(Ascending, WorstInput(n), 1, slots) <==> LastSpan(1, n) <= slots
  {
    LastSpanBounds(1, n);
    var s, k := WorstInput(n), LastSpan(1, n);
    assert s[k..][0] == s[k];
    AllOvertaken(Ascending, s[..k], s[k..]);
    SwapSpaceSuffices(Ascending, s, slots);
  }

  // ----- the cells it visits

  /** The binary logarithm rounded up. */
  function CeilLog2(n: nat): nat {
    if n <= 1 then 0 else 1 + CeilLog2((n + 1) / 2)
  }

  function Pow2(k: nat): nat {
    if k == 0 then 1 else 2 * Pow2(k - 1)
  }

  lemma {:induction false} CeilLog2Meaning(n: nat)
    requires n >= 1
    ensures n <= Pow2(CeilLog2(n))
    ensures n >= 2 ==> CeilLog2(n) >= 1 && Pow2(CeilLog2(n) - 1) < n
  {
    if n >= 2 {
      CeilLog2Meaning((n + 1) / 2);
      if n >= 3 {
        assert Pow2(CeilLog2(n) - 1) == 2 * Pow2(CeilLog2((n + 1) / 2) - 1);
      }
    }
  }

  lemma {:induction false} PassesHalve(span: nat, n: nat)
    requires span > 0
    ensures Passes(2 * span, n) == Passes(span, (n + 1) / 2)
    decreases n - span
  {
    if 2 * span < n {
      PassesHalve(2 * span, n);
    }
  }

  lemma {:induction false} PassesAreCeilLog2(n: nat)
    ensures Passes(1, n) == CeilLog2(n)
  {
    if n > 1 {
      PassesHalve(1, n);
      PassesAreCeilLog2((n + 1) / 2);
    }
  }

  lemma {:induction false} VisitsPerPass(order: SortOrder, s: seq<Element>, span: nat)
    requires span > 0
    ensures SortVisits(order, s, span) <= |s| * Passes(span, |s|)
    decreases |s| - span
  {
    hide Pass, PassVisits;
    if span < |s| {
      VisitsPerPass(order, Pass(order, s, span), 2 * span);
      var p := Passes(2 * span, |s|);
      assert Passes(span, |s|) == 1 + p;
      assert |s| * (1 + p) == |s| + |s| * p;
    }
  }

  /** Sorting n elements bottom-up visits at most n * ceil(log2 n) cells. */
  lemma BottomUpVisits(order: SortOrder, s: seq<Element>)
    ensures SortVisits(order, s, 1) <= |s| * CeilLog2(|s|)
  {
    VisitsPerPass(order, s, 1);
    PassesAreCeilLog2(|s|);
  }
}
