/** The bottom-up merge sort: passes over runs of doubling span, one swap space for all merges. */
module BottomUpSort {
  import opened StableOrder
  import opened QueueMerge

  function Min(x: int, y: int): int { if x < y then x else y }

  // ----- what one pass and all passes compute, need and visit

  /** One pass: every two neighbouring runs of length span are merged; a last run
      without a neighbour stays as it is. */
  function Pass(order: SortOrder, s: seq<Element>, span: nat): (t: seq<Element>)
    requires span > 0
    ensures |t| == |s|
    decreases |s|
  {
    if |s| <= span then s
    else
      var hi := Min(2 * span, |s|);
      Merge(order, s[..span], s[span..hi]) + Pass(order, s[hi..], span)
  }

  /** Every merge of a pass stays within a swap space of the given number of slots. */
  predicate PassFits(order: SortOrder, s: seq<Element>, span: nat, slots: nat)
    requires span > 0
    decreases |s|
  {
    |s| <= span ||
    var hi := Min(2 * span, |s|);
    SlotsNeeded(order, s[..span], s[span..hi]) <= slots && PassFits(order, s[hi..], span, slots)
  }

  function PassVisits(order: SortOrder, s: seq<Element>, span: nat): (n: nat)
    requires span > 0
    ensures n <= |s|
    decreases |s|
  {
    if |s| <= span then 0
    else
      var hi := Min(2 * span, |s|);
      Visits(order, s[..span], s[span..hi]) + PassVisits(order, s[hi..], span)
  }

  function BottomUp(order: SortOrder, s: seq<Element>, span: nat): (t: seq<Element>)
    requires span > 0
    ensures |t| == |s|
    decreases |s| - span
  {
    if span >= |s| then s else BottomUp(order, Pass(order, s, span), 2 * span)
  }

  predicate SortFits(order: SortOrder, s: seq<Element>, span: nat, slots: nat)
    requires span > 0
    decreases |s| - span
  {
    span >= |s| ||
    (PassFits(order, s, span, slots) && SortFits(order, Pass(order, s, span), 2 * span, slots))
  }

  function SortVisits(order: SortOrder, s: seq<Element>, span: nat): (n: nat)
    requires span > 0
    decreases |s| - span
  {
    if span >= |s| then 0
    else
      PassVisits(order, s, span) + SortVisits(order, Pass(order, s, span), 2 * span)
  }

  /** How often span can be doubled before it covers n elements. */
  function Passes(span: nat, n: nat): nat
    requires span > 0
    decreases n - span
  {
    if span >= n then 0 else 1 + Passes(2 * span, n)
  }

  // ----- one merge inside a pass

  /** The part of s from index i on is still to be passed over, with the same outcome. */
  ghost predicate PassedTo(order: SortOrder, before: seq<Element>, s: seq<Element>, span: nat, slots: nat, i: nat,
                           visited: nat)
    requires span > 0
  {
    && i <= |s| && |before| == |s|
    && Pass(order, before, span) == s[..i] + Pass(order, s[i..], span)
    && PassFits(order, before, span, slots) == PassFits(order, s[i..], span, slots)
    && PassVisits(order, before, span) == visited + PassVisits(order, s[i..], span)
  }

  lemma PassStart(order: SortOrder, s: seq<Element>, span: nat, slots: nat)
    requires span > 0
    ensures PassedTo(order, s, s, span, slots, 0, 0)
  {
    assert s[0..] == s && s[..0] == [];
  }

  /** What a pass does at index i, and what it leaves for the rest. */
  lemma PassUnfold(order: SortOrder, s: seq<Element>, span: nat, slots: nat, i: nat, hi: nat)
    requires span > 0 && i + span < |s| && hi == Min(i + 2 * span, |s|)
    ensures Pass(order, s[i..], span) == Merge(order, s[i..i + span], s[i + span..hi]) + Pass(order, s[hi..], span)
    ensures PassFits(order, s[i..], span, slots) <==>
            SlotsNeeded(order, s[i..i + span], s[i + span..hi]) <= slots && PassFits(order, s[hi..], span, slots)
    ensures PassVisits(order, s[i..], span) ==
            Visits(order, s[i..i + span], s[i + span..hi]) + PassVisits(order, s[hi..], span)
  {
    hide Merge, SlotsNeeded, Visits;
    var r := s[i..];
    assert hi - i == Min(2 * span, |r|);
    assert r[..span] == s[i..i + span] && r[span..hi - i] == s[i + span..hi] && r[hi - i..] == s[hi..];
  }

  lemma PassMerge(order: SortOrder, before: seq<Element>, s: seq<Element>, span: nat, slots: nat, i: nat, visited: nat)
    requires span > 0 && i + span < |s| && PassedTo(order, before, s, span, slots, i, visited)
    ensures var mid, hi := i + span, Min(i + 2 * span, |s|);
            var (A, B) := (s[i..mid], s[mid..hi]);
            && (SlotsNeeded(order, A, B) > slots ==> !PassFits(order, before, span, slots))
            && (SlotsNeeded(order, A, B) <= slots ==>
                  PassedTo(order, before, Merged(order, s, i, mid, hi), span, slots, hi, visited + Visits(order, A, B)))
  {
    hide Merge, SlotsNeeded, Visits, Pass, PassFits, PassVisits;
    var mid, hi := i + span, Min(i + 2 * span, |s|);
    PassUnfold(order, s, span, slots, i, hi);
    var m, t := Merge(order, s[i..mid], s[mid..hi]), Merged(order, s, i, mid, hi);
    assert t[..hi] == s[..i] + m && t[hi..] == s[hi..];
    assert s[..i] + (m + Pass(order, s[hi..], span)) == (s[..i] + m) + Pass(order, s[hi..], span);
  }

  lemma PassRest(order: SortOrder, s: seq<Element>, span: nat, slots: nat)
    requires span > 0 && PassFits(order, s, span, slots)
    ensures PassedTo(order, s, Pass(order, s, span), span, slots, |s|, PassVisits(order, s, span))
  {
    var t := Pass(order, s, span);
    assert t[|s|..] == [] && t[..|s|] == t;
  }

  lemma PassEnd(order: SortOrder, before: seq<Element>, s: seq<Element>, span: nat, slots: nat, i: nat, visited: nat)
    requires span > 0 && i + span >= |s| && PassedTo(order, before, s, span, slots, i, visited)
    ensures s == Pass(order, before, span) && PassFits(order, before, span, slots)
    ensures visited == PassVisits(order, before, span)
  {
    assert s == s[..i] + s[i..];
  }

  lemma MergedPrefix(order: SortOrder, s: seq<Element>, lo: nat, mid: nat, hi: nat, size: nat)
    requires lo <= mid <= hi <= size <= |s|
    ensures Merged(order, s, lo, mid, hi)[..size] == Merged(order, s[..size], lo, mid, hi)
    ensures Merged(order, s, lo, mid, hi)[size..] == s[size..]
    ensures s[..size][lo..mid] == s[lo..mid] && s[..size][mid..hi] == s[mid..hi]
  {
    hide Merge;
    assert s[..size][lo..mid] == s[lo..mid] && s[..size][mid..hi] == s[mid..hi];
  }

  /** The inner loop: one pass over a[..size]. */
  method SortPass(order: SortOrder, a: array<Element>, size: nat, span: nat, swap: array<Element>)
    returns (ok: bool, visited: nat)
    requires size <= a.Length && span > 0 && a != swap
    modifies a, swap
    ensures ok <==> PassFits(order, old(a[..size]), span, swap.Length)
    ensures ok ==> a[..size] == Pass(order, old(a[..size]), span)
    ensures ok ==> visited == PassVisits(order, old(a[..size]), span)
    ensures ok ==> a[size..] == old(a[size..])
  {
    hide Pass, PassFits, PassVisits, PassedTo, Merged, SlotsNeeded, Visits;
    ghost var before := a[..size];
    ok, visited := true, 0;
    PassStart(order, before, span, swap.Length);
    var i := 0;
    while i < size
      invariant PassedTo(order, before, a[..size], span, swap.Length, Min(i, size), visited)
      invariant a[size..] == old(a[size..])
    {
      if i + span < size {
        var rightSize := span;
        if i + span + rightSize > size {
          rightSize := size - (i + span);
        }
        PassMerge(order, before, a[..size], span, swap.Length, i, visited);
        MergedPrefix(order, a[..], i, i + span, i + span + rightSize, size);
        var visits;
        ghost var peak;
        ok, visits, peak := MergeInPlace(order, a, i, i + span, i + span + rightSize, swap);
        if !ok { return; }
        visited := visited + visits;
      } else {
        PassEnd(order, before, a[..size], span, swap.Length, i, visited);
        PassRest(order, before, span, swap.Length);
      }
      i := i + 2 * span;
    }
    PassEnd(order, before, a[..size], span, swap.Length, Min(i, size), visited);
  }

  /** Sorts a[..size] with a swap space of the given number of slots; ok tells whether
      every write to the swap space stayed within it. */
  method NlognSort(order: SortOrder, a: array<Element>, size: nat, slots: nat) returns (ok: bool, visited: nat)
    requires size <= a.Length
    modifies a
    ensures ok <==> SortFits(order, old(a[..size]), 1, slots)
    ensures ok ==> a[..size] == BottomUp(order, old(a[..size]), 1)
    ensures ok ==> visited == SortVisits(order, old(a[..size]), 1)
    ensures ok ==> a[size..] == old(a[size..])
  {
    hide Pass, PassFits, PassVisits;
    ok, visited := true, 0;
    if size > 1 {
      var swap := new Element[slots](_ => Element(0, 0));
      var span := 1;
      ghost var s := a[..size];
      while span < size
        invariant span > 0
        invariant BottomUp(order, s, 1) == BottomUp(order, a[..size], span)
        invariant SortFits(order, s, 1, slots) == SortFits(order, a[..size], span, slots)
        invariant SortVisits(order, s, 1) == visited + SortVisits(order, a[..size], span)
        invariant a[size..] == old(a[size..])
        decreases size - span
      {
        var visits;
        ok, visits := SortPass(order, a, size, span, swap);
        if !ok { return; }
        visited := visited + visits;
        span := 2 * span;
      }
    }
  }
}
