/** Elements, the two sort orders, and the out-of-place stable merge that every
    sorting variant is measured against. */
module StableOrder {

  /** A sortable value: comparisons look at the key only, so that two elements
      with equal keys can still be told apart and stability can be stated. */
  datatype Element = Element(key: int, tag: int)

  datatype SortOrder = Unsorted | Ascending | Descending

  /** The three-way comparison; every order but Descending compares upwards. */
  function Compare(order: SortOrder, a: Element, b: Element): (r: int)
    ensures r == 0 <==> a.key == b.key
    ensures r > 0 <==> Rank(order, b) < Rank(order, a)
    ensures r > 0 <==> if order == Descending then a.key < b.key else a.key > b.key
  {
    if a.key == b.key then 0
    else if a.key > b.key then (if order == Descending then -1 else 1)
    else (if order == Descending then 1 else -1)
  }

  /** The integer whose increasing order is the sort order. */
  function Rank(order: SortOrder, e: Element): int {
    if order == Descending then -e.key else e.key
  }

  /** The stable merge: ties go to the left run. */
  function Merge(order: SortOrder, a: seq<Element>, b: seq<Element>): (m: seq<Element>)
    ensures |m| == |a| + |b|
  {
    if b == [] then a
    else if a == [] then b
    else if Compare(order, a[0], b[0]) > 0 then [b[0]] + Merge(order, a, b[1..])
    else [a[0]] + Merge(order, a[1..], b)
  }

  ghost predicate Sorted(order: SortOrder, s: seq<Element>) {
    forall i, j :: 0 <= i < j < |s| ==> Rank(order, s[i]) <= Rank(order, s[j])
  }

  /** The keys never go down or, in descending order, never go up. */
  predicate KeysOrdered(order: SortOrder, s: seq<Element>) {
    forall i, j :: 0 <= i < j < |s| ==> if order == Descending then s[i].key >= s[j].key else s[i].key <= s[j].key
  }

  /** The elements of s with the given key, in their order of appearance. */
  function WithKey(s: seq<Element>, key: int): seq<Element> {
    if s == [] then []
    else if s[0].key == key then [s[0]] + WithKey(s[1..], key)
    else WithKey(s[1..], key)
  }

  /** t is s brought into order, elements with equal keys keeping their relative order. */
  ghost predicate StableSortOf(order: SortOrder, t: seq<Element>, s: seq<Element>) {
    Sorted(order, t) && forall key :: WithKey(t, key) == WithKey(s, key)
  }

  // ----- elements by key

  lemma {:induction false} WithKeyConcat(a: seq<Element>, b: seq<Element>, key: int)
    ensures WithKey(a + b, key) == WithKey(a, key) + WithKey(b, key)
  {
    if a == [] {
      assert a + b == b;
    } else {
      assert (a + b)[1..] == a[1..] + b;
      WithKeyConcat(a[1..], b, key);
    }
  }

  lemma {:induction false} WithKeyMember(s: seq<Element>, e: Element)
    ensures multiset(WithKey(s, e.key))[e] == multiset(s)[e]
  {
    if s != [] {
      assert s == [s[0]] + s[1..];
      WithKeyMember(s[1..], e);
    }
  }

  lemma {:induction false} WithKeyHead(s: seq<Element>, key: int)
    ensures WithKey(s, key) != [] ==> exists i :: 0 <= i < |s| && s[i].key == key
  {
    if s != [] && s[0].key != key {
      WithKeyHead(s[1..], key);
      if WithKey(s[1..], key) != [] {
        var i :| 0 <= i < |s[1..]| && s[1..][i].key == key;
        assert s[i + 1].key == key;
      }
    }
  }

  /** A stable sort is a permutation of its input. */
  lemma StableSortIsPermutation(order: SortOrder, t: seq<Element>, s: seq<Element>)
    requires StableSortOf(order, t, s)
    ensures multiset(t) == multiset(s)
    ensures |t| == |s|
  {
    forall e: Element
      ensures multiset(t)[e] == multiset(s)[e]
    {
      WithKeyMember(t, e);
      WithKeyMember(s, e);
    }
    assert multiset(t) == multiset(s);
    assert |t| == |multiset(t)| && |s| == |multiset(s)|;
  }

  // ----- what a stable sort is, without ranks and subsequences

  /** Tags tell the position in the input. */
  predicate TagsGrow(s: seq<Element>) {
    forall i, j :: 0 <= i < j < |s| ==> s[i].tag < s[j].tag
  }

  lemma {:induction false} WithKeyTags(s: seq<Element>, key: int)
    requires TagsGrow(s)
    ensures TagsGrow(WithKey(s, key))
    ensures forall e :: e in WithKey(s, key) ==> e in s && e.key == key
  {
    if s != [] {
      WithKeyTags(s[1..], key);
    }
  }

  /** Two elements with the same key keep their order among those with that key. */
  lemma {:induction false} WithKeyOrder(t: seq<Element>, i: nat, j: nat) returns (k: nat, l: nat)
    requires i < j < |t| && t[i].key == t[j].key
    ensures var w := WithKey(t, t[i].key); k < l < |w| && w[k] == t[i] && w[l] == t[j]
    decreases |t|
  {
    var key := t[i].key;
    if i > 0 {
      k, l := WithKeyOrder(t[1..], i - 1, j - 1);
      if t[0].key == key {
        k, l := k + 1, l + 1;
      }
    } else {
      l := WithKeyAt(t[1..], j - 1);
      k, l := 0, l + 1;
    }
  }

  lemma {:induction false} WithKeyAt(t: seq<Element>, j: nat) returns (l: nat)
    requires j < |t|
    ensures var w := WithKey(t, t[j].key); l < |w| && w[l] == t[j]
    decreases |t|
  {
    if j == 0 {
      l := 0;
    } else {
      l := WithKeyAt(t[1..], j - 1);
      if t[0].key == t[j].key {
        l := l + 1;
      }
    }
  }

  /** A stable sort brings the keys into order, keeps the elements, and leaves elements with
      equal keys in the order of the input. */
  lemma StableSortMeaning(order: SortOrder, t: seq<Element>, s: seq<Element>)
    requires StableSortOf(order, t, s)
    ensures KeysOrdered(order, t) && multiset(t) == multiset(s)
    ensures TagsGrow(s) ==> forall i, j :: 0 <= i < j < |t| && t[i].key == t[j].key ==> t[i].tag < t[j].tag
  {
    StableSortIsPermutation(order, t, s);
    if TagsGrow(s) {
      forall i, j | 0 <= i < j < |t| && t[i].key == t[j].key
        ensures t[i].tag < t[j].tag
      {
        WithKeyTags(s, t[i].key);
        var k, l := WithKeyOrder(t, i, j);
      }
    }
  }

  // ----- the stable sort of a sequence is unique

  lemma FirstRanksBelow(order: SortOrder, t: seq<Element>, u: seq<Element>)
    requires u != [] && Sorted(order, t)
    requires forall key :: WithKey(t, key) == WithKey(u, key)
    ensures t != [] && Rank(order, t[0]) <= Rank(order, u[0])
  {
    assert WithKey(u, u[0].key) != [];
    WithKeyHead(t, u[0].key);
  }

  lemma {:induction false} SameKeysSameSequence(order: SortOrder, t: seq<Element>, u: seq<Element>)
    requires Sorted(order, t) && Sorted(order, u)
    requires forall key :: WithKey(t, key) == WithKey(u, key)
    ensures t == u
    decreases |t|
  {
    if u != [] {
      FirstRanksBelow(order, t, u);
    }
    if t != [] {
      FirstRanksBelow(order, u, t);
      assert WithKey(t, t[0].key)[0] == t[0];
      assert WithKey(u, t[0].key)[0] == u[0];
      forall key
        ensures WithKey(t[1..], key) == WithKey(u[1..], key)
      {
        assert WithKey(t, key) == WithKey(u, key);
        if key == t[0].key {
          assert WithKey(t, key)[1..] == WithKey(t[1..], key);
          assert WithKey(u, key)[1..] == WithKey(u[1..], key);
        }
      }
      SameKeysSameSequence(order, t[1..], u[1..]);
      assert t == [t[0]] + t[1..] && u == [u[0]] + u[1..];
    }
  }

  /** There is one stable sort of s, so all algorithms that compute one agree. */
  lemma StableSortUnique(order: SortOrder, t: seq<Element>, u: seq<Element>, s: seq<Element>)
    requires StableSortOf(order, t, s) && StableSortOf(order, u, s)
    ensures t == u
  {
    forall key
      ensures WithKey(t, key) == WithKey(u, key)
    {
      assert WithKey(t, key) == WithKey(s, key);
    }
    SameKeysSameSequence(order, t, u);
  }

  // ----- the merge of two stable sorts is a stable sort

  lemma {:induction false} MergeKeys(order: SortOrder, a: seq<Element>, b: seq<Element>, key: int)
    requires Sorted(order, a)
    ensures WithKey(Merge(order, a, b), key) == WithKey(a, key) + WithKey(b, key)
    decreases |a| + |b|
  {
    if a != [] && b != [] {
      if Compare(order, a[0], b[0]) > 0 {
        MergeKeys(order, a, b[1..], key);
        if b[0].key == key {
          WithKeyHead(a, key);
        }
        assert Merge(order, a, b)[1..] == Merge(order, a, b[1..]);
      } else {
        MergeKeys(order, a[1..], b, key);
        assert Merge(order, a, b)[1..] == Merge(order, a[1..], b);
      }
    }
  }

  lemma {:induction false} MergeMembers(order: SortOrder, a: seq<Element>, b: seq<Element>)
    ensures forall e :: e in Merge(order, a, b) ==> e in a || e in b
    decreases |a| + |b|
  {
    if a != [] && b != [] {
      if Compare(order, a[0], b[0]) > 0 {
        MergeMembers(order, a, b[1..]);
      } else {
        MergeMembers(order, a[1..], b);
      }
    }
  }

  lemma SortedCons(order: SortOrder, e: Element, s: seq<Element>)
    requires Sorted(order, s) && forall x :: x in s ==> Rank(order, e) <= Rank(order, x)
    ensures Sorted(order, [e] + s)
  {
    forall i, j | 0 <= i < j < |[e] + s|
      ensures Rank(order, ([e] + s)[i]) <= Rank(order, ([e] + s)[j])
    {
      assert ([e] + s)[j] == s[j - 1];
      if i > 0 {
        assert ([e] + s)[i] == s[i - 1];
      }
    }
  }

  lemma {:induction false} MergeSorted(order: SortOrder, a: seq<Element>, b: seq<Element>)
    requires Sorted(order, a) && Sorted(order, b)
    ensures Sorted(order, Merge(order, a, b))
    decreases |a| + |b|
  {
    if a != [] && b != [] {
      var (a', b') := if Compare(order, a[0], b[0]) > 0 then (a, b[1..]) else (a[1..], b);
      var m := Merge(order, a', b');
      MergeSorted(order, a', b');
      MergeMembers(order, a', b');
      assert Merge(order, a, b) == [Merge(order, a, b)[0]] + m;
      SortedCons(order, Merge(order, a, b)[0], m);
    }
  }

  /** Merging the stable sorts of two adjacent pieces sorts their concatenation stably. */
  lemma MergeStable(order: SortOrder, a: seq<Element>, s: seq<Element>, b: seq<Element>, t: seq<Element>)
    requires StableSortOf(order, a, s) && StableSortOf(order, b, t)
    ensures StableSortOf(order, Merge(order, a, b), s + t)
  {
    MergeSorted(order, a, b);
    forall key
      ensures WithKey(Merge(order, a, b), key) == WithKey(s + t, key)
    {
      MergeKeys(order, a, b, key);
      WithKeyConcat(s, t, key);
    }
  }

  // ----- a merge in progress

  /** Once l elements of a and j of b are out, what is left to merge is the rest of each. */
  ghost predicate Remains(order: SortOrder, a: seq<Element>, b: seq<Element>, l: int, j: int) {
    && 0 <= l <= |a| && 0 <= j <= |b|
    && Merge(order, a, b)[l + j..] == Merge(order, a[l..], b[j..])
  }

  lemma RemainsStart(order: SortOrder, a: seq<Element>, b: seq<Element>)
    ensures Remains(order, a, b, 0, 0)
  {
    assert a[0..] == a && b[0..] == b;
  }

  lemma RemainsLeft(order: SortOrder, a: seq<Element>, b: seq<Element>, l: int, j: int)
    requires Remains(order, a, b, l, j) && l < |a|
    requires j < |b| ==> Compare(order, a[l], b[j]) <= 0
    ensures Merge(order, a, b)[l + j] == a[l] && Remains(order, a, b, l + 1, j)
  {
    var m := Merge(order, a, b);
    assert a[l..][1..] == a[l + 1..];
    assert m[l + j..] == [a[l]] + Merge(order, a[l + 1..], b[j..]);
    assert m[l + j..][1..] == m[l + j + 1..];
  }

  lemma RemainsRight(order: SortOrder, a: seq<Element>, b: seq<Element>, l: int, j: int)
    requires Remains(order, a, b, l, j) && j < |b|
    requires l < |a| ==> Compare(order, a[l], b[j]) > 0
    ensures Merge(order, a, b)[l + j] == b[j] && Remains(order, a, b, l, j + 1)
  {
    var m := Merge(order, a, b);
    assert b[j..][1..] == b[j + 1..];
    assert a[l..] == [] ==> m[l + j..] == b[j..] && Merge(order, a[l..], b[j + 1..]) == b[j + 1..];
    assert m[l + j..] == [b[j]] + Merge(order, a[l..], b[j + 1..]);
    assert m[l + j..][1..] == m[l + j + 1..];
  }
}
