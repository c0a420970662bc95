/** The plain merge sort: every merge fills a fresh array. */
module OutOfPlaceSort {
  import opened StableOrder
  import opened TopDownSorts

  /** Merges a[i0..i0 + sizeA] and b[j0..j0 + sizeB] into a new array. */
  method MergeToNew(a: array<Element>, i0: nat, sizeA: nat, b: array<Element>, j0: nat, sizeB: nat)
    returns (out: array<Element>)
    requires i0 + sizeA <= a.Length && j0 + sizeB <= b.Length
    ensures fresh(out) && out[..] == Merge(Ascending, a[i0..i0 + sizeA], b[j0..j0 + sizeB])
  {
    hide Merge, Remains, Compare;
    ghost var A, B := a[i0..i0 + sizeA], b[j0..j0 + sizeB];
    ghost var M := Merge(Ascending, A, B);
    RemainsStart(Ascending, A, B);
    out := new Element[sizeA + sizeB](_ => Element(0, 0));
    var i, j, o := 0, 0, 0;
    while o < sizeA + sizeB
      invariant 0 <= i <= sizeA && 0 <= j <= sizeB && o == i + j
      invariant Remains(Ascending, A, B, i, j)
      invariant out[..o] == M[..o]
    {
      assert i < sizeA ==> a[i0 + i] == A[i];
      assert j < sizeB ==> b[j0 + j] == B[j];
      if j >= sizeB {
        RemainsLeft(Ascending, A, B, i, j);
        out[o] := a[i0 + i];
        o, i := o + 1, i + 1;
      } else if i >= sizeA {
        RemainsRight(Ascending, A, B, i, j);
        out[o] := b[j0 + j];
        o, j := o + 1, j + 1;
      } else if Compare(Ascending, a[i0 + i], b[j0 + j]) > 0 {
        RemainsRight(Ascending, A, B, i, j);
        out[o] := b[j0 + j];
        o, j := o + 1, j + 1;
      } else {
        RemainsLeft(Ascending, A, B, i, j);
        out[o] := a[i0 + i];
        o, i := o + 1, i + 1;
      }
    }
  }

  lemma TopDownSplit(s: seq<Element>, left: seq<Element>, right: seq<Element>)
    requires s == left + right && |s| >= 2 && |left| == (|s| + 1) / 2
    ensures TopDown(s) == Merge(Ascending, TopDown(left), TopDown(right))
  {
    hide Merge;
    assert s[..|left|] == left && s[|left|..] == right;
  }

  lemma TopDownSmall(s: seq<Element>)
    requires |s| <= 1
    ensures TopDown(s) == s
  {
  }

  /** The sorted range is found at r[offset..]: a range of at most one element is
      returned in place, a longer one in a new array. */
  method SortToNew(a: array<Element>, lo: nat, hi: nat) returns (r: array<Element>, offset: nat)
    requires lo <= hi <= a.Length
    ensures offset + (hi - lo) <= r.Length && r[offset..offset + (hi - lo)] == TopDown(a[lo..hi])
    ensures if hi - lo <= 1 then r == a && offset == lo else fresh(r) && offset == 0 && r.Length == hi - lo
    decreases hi - lo
  {
    hide Merge, TopDown;
    ghost var s := a[lo..hi];
    if hi - lo <= 1 {
      TopDownSmall(s);
      r, offset := a, lo;
    } else {
      var sizeLeft := (hi - lo + 1) / 2;
      var mid := lo + sizeLeft;
      TopDownSplit(s, a[lo..mid], a[mid..hi]);
      var A, i0 := SortToNew(a, lo, mid);
      var B, j0 := SortToNew(a, mid, hi);
      r := MergeToNew(A, i0, sizeLeft, B, j0, hi - mid);
      offset := 0;
      assert |r[..]| == |s|;
    }
  }
}
