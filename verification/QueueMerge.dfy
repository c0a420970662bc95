/** The in-place merge of two adjacent runs through a flat first-in first-out swap
    space. The left run's displaced elements queue up in the swap space; once the left
    run's cells are used up, writing goes on into the already consumed front of the
    right run. */
module QueueMerge {
  import opened StableOrder

  /** The number of swap slots written by a merge: nothing is queued before the right
      run's first element wins, and every later left cell is queued exactly once. */
  function SlotsNeeded(order: SortOrder, a: seq<Element>, b: seq<Element>): (n: nat)
    ensures n <= |a|
  {
    if a == [] || b == [] then 0
    else if Compare(order, a[0], b[0]) > 0 then |a|
    else SlotsNeeded(order, a[1..], b)
  }

  /** The number of cells visited by a merge: it stops when the left run is used up. */
  function Visits(order: SortOrder, a: seq<Element>, b: seq<Element>): (n: nat)
    ensures |a| <= n <= |a| + |b|
    decreases |a| + |b|
  {
    if a == [] then 0
    else if b != [] && Compare(order, a[0], b[0]) > 0 then 1 + Visits(order, a, b[1..])
    else 1 + Visits(order, a[1..], b)
  }

  /** Of a merge m, the first v elements end with the last one of a, and what follows them is the
      rest of b. */
  ghost predicate VisitedAll(m: seq<Element>, v: nat, a: seq<Element>, b: seq<Element>) {
    && (v == 0 <==> a == []) && |a| <= v <= |m| && v <= |a| + |b|
    && (v > 0 ==> m[v - 1] == a[|a| - 1]) && m[v..] == b[v - |a|..]
  }

  /** The last element visited is the last one of the left run; all that follow are of the right run
      and in place already. */
  lemma {:induction false} VisitsMeaning(order: SortOrder, a: seq<Element>, b: seq<Element>)
    ensures VisitedAll(Merge(order, a, b), Visits(order, a, b), a, b)
    decreases |a| + |b|
  {
    hide Merge, Visits, Compare, VisitedAll;
    VisitsStep(order, a, b);
    if a == [] {
      NothingVisited(b);
    } else if b != [] && Compare(order, a[0], b[0]) > 0 {
      VisitsMeaning(order, a, b[1..]);
      VisitedRight(Merge(order, a, b[1..]), Visits(order, a, b[1..]), a, b);
    } else {
      VisitsMeaning(order, a[1..], b);
      VisitedLeft(Merge(order, a[1..], b), Visits(order, a[1..], b), a, b);
    }
  }

  lemma NothingVisited(b: seq<Element>)
    ensures VisitedAll(b, 0, [], b)
  {
  }

  lemma VisitedRight(m: seq<Element>, v: nat, a: seq<Element>, b: seq<Element>)
    requires a != [] && b != [] && VisitedAll(m, v, a, b[1..])
    ensures VisitedAll([b[0]] + m, v + 1, a, b)
  {
    assert ([b[0]] + m)[v + 1..] == m[v..];
    assert b[v + 1 - |a|..] == b[1..][v - |a|..];
  }

  lemma VisitedLeft(m: seq<Element>, v: nat, a: seq<Element>, b: seq<Element>)
    requires a != [] && VisitedAll(m, v, a[1..], b)
    ensures VisitedAll([a[0]] + m, v + 1, a, b)
  {
    assert ([a[0]] + m)[v + 1..] == m[v..];
  }

  lemma VisitsStep(order: SortOrder, a: seq<Element>, b: seq<Element>)
    ensures var m, v := Merge(order, a, b), Visits(order, a, b);
            if a == [] then m == b && v == 0
            else if b != [] && Compare(order, a[0], b[0]) > 0
            then m == [b[0]] + Merge(order, a, b[1..]) && v == 1 + Visits(order, a, b[1..])
            else m == [a[0]] + Merge(order, a[1..], b) && v == 1 + Visits(order, a[1..], b)
  {
    if a != [] {
      hide Compare;
      assert a == [a[0]] + a[1..];
    }
  }

  /** How many of the first n elements of a merge come from its right run. */
  function RightAmong(order: SortOrder, a: seq<Element>, b: seq<Element>, n: nat): (k: nat)
    ensures k <= n && k <= |b|
    decreases n
  {
    if n == 0 || b == [] then 0
    else if a == [] || Compare(order, a[0], b[0]) > 0 then 1 + RightAmong(order, a, b[1..], n - 1)
    else RightAmong(order, a[1..], b, n - 1)
  }

  /** The right elements that end up in the left run's cells; each of them leaves an element
      of the left run in the queue. */
  function Occupancy(order: SortOrder, a: seq<Element>, b: seq<Element>): (k: nat)
    ensures k <= |a| && k <= |b|
  {
    RightAmong(order, a, b, |a|)
  }

  /** The first n elements of m are the first ones of a and the first k of b. */
  ghost predicate Splits(m: seq<Element>, a: seq<Element>, b: seq<Element>, n: nat, k: nat) {
    && n <= |m| && k <= |b| && k <= n <= k + |a|
    && multiset(m[..n]) == multiset(a[..n - k]) + multiset(b[..k])
  }

  /** The first n elements of a merge are as many of its right run as counted, and the rest
      from its left run. */
  lemma {:induction false} RightAmongMeaning(order: SortOrder, a: seq<Element>, b: seq<Element>, n: nat)
    requires n <= |a| + |b|
    ensures Splits(Merge(order, a, b), a, b, n, RightAmong(order, a, b, n))
    decreases n
  {
    hide Merge, RightAmong, Compare, Splits;
    if n == 0 || a == [] || b == [] {
      OnlyOneRun(order, a, b, n);
    } else if Compare(order, a[0], b[0]) > 0 {
      RightAmongStep(order, a, b, n);
      RightAmongMeaning(order, a, b[1..], n - 1);
      SplitsRight(Merge(order, a, b[1..]), a, b, n - 1, RightAmong(order, a, b[1..], n - 1));
    } else {
      RightAmongStep(order, a, b, n);
      RightAmongMeaning(order, a[1..], b, n - 1);
      SplitsLeft(Merge(order, a[1..], b), a, b, n - 1, RightAmong(order, a[1..], b, n - 1));
    }
  }

  lemma SplitsRight(m: seq<Element>, a: seq<Element>, b: seq<Element>, n: nat, k: nat)
    requires b != [] && Splits(m, a, b[1..], n, k)
    ensures Splits([b[0]] + m, a, b, n + 1, k + 1)
  {
    TakeCons(b[0], m, n + 1);
    TakeFirst(b, k + 1);
  }

  lemma SplitsLeft(m: seq<Element>, a: seq<Element>, b: seq<Element>, n: nat, k: nat)
    requires a != [] && Splits(m, a[1..], b, n, k)
    ensures Splits([a[0]] + m, a, b, n + 1, k)
  {
    TakeCons(a[0], m, n + 1);
    TakeFirst(a, n + 1 - k);
  }

  lemma RightAmongStep(order: SortOrder, a: seq<Element>, b: seq<Element>, n: nat)
    requires n > 0 && a != [] && b != []
    ensures if Compare(order, a[0], b[0]) > 0
            then RightAmong(order, a, b, n) == 1 + RightAmong(order, a, b[1..], n - 1)
                 && Merge(order, a, b) == [b[0]] + Merge(order, a, b[1..])
            else RightAmong(order, a, b, n) == RightAmong(order, a[1..], b, n - 1)
                 && Merge(order, a, b) == [a[0]] + Merge(order, a[1..], b)
  {
  }

  lemma OnlyOneRun(order: SortOrder, a: seq<Element>, b: seq<Element>, n: nat)
    requires n <= |a| + |b| && (n == 0 || a == [] || b == [])
    ensures Splits(Merge(order, a, b), a, b, n, RightAmong(order, a, b, n))
  {
    if n > 0 && b != [] {
      AllRight(order, b, n);
    }
  }

  lemma {:induction false} AllRight(order: SortOrder, b: seq<Element>, n: nat)
    requires n <= |b|
    ensures RightAmong(order, [], b, n) == n
    decreases n
  {
    if n > 0 {
      AllRight(order, b[1..], n - 1);
    }
  }

  lemma TakeCons(e: Element, s: seq<Element>, n: nat)
    requires 0 < n <= |s| + 1
    ensures multiset(([e] + s)[..n]) == multiset{e} + multiset(s[..n - 1])
  {
    assert ([e] + s)[..n] == [e] + s[..n - 1];
  }

  lemma TakeFirst(s: seq<Element>, n: nat)
    requires 0 < n <= |s|
    ensures multiset(s[..n]) == multiset{s[0]} + multiset(s[1..][..n - 1])
  {
    assert s == [s[0]] + s[1..];
    TakeCons(s[0], s[1..], n);
  }

  /** A merge in progress, together with the cells visited and the right elements taken so far. */
  ghost predicate Reached(order: SortOrder, a: seq<Element>, b: seq<Element>, l: int, j: int) {
    && Remains(order, a, b, l, j) && Visits(order, a, b) == l + j + Visits(order, a[l..], b[j..])
    && (l + j <= |a| ==> Occupancy(order, a, b) == j + RightAmong(order, a[l..], b[j..], |a| - l - j))
  }

  lemma ReachedOccupancy(order: SortOrder, a: seq<Element>, b: seq<Element>, l: int, j: int)
    requires Reached(order, a, b, l, j) && l + j <= |a|
    ensures j <= Occupancy(order, a, b) && (l + j == |a| ==> j == Occupancy(order, a, b))
  {
  }

  lemma ReachedStart(order: SortOrder, a: seq<Element>, b: seq<Element>)
    ensures Reached(order, a, b, 0, 0)
  {
    RemainsStart(order, a, b);
    assert a[0..] == a && b[0..] == b;
  }

  lemma ReachedBounds(order: SortOrder, a: seq<Element>, b: seq<Element>, l: int, j: int)
    requires Reached(order, a, b, l, j)
    ensures 0 <= l <= |a| && 0 <= j <= |b|
  {
  }

  lemma ReachedEnd(order: SortOrder, a: seq<Element>, b: seq<Element>, j: int)
    requires Reached(order, a, b, |a|, j)
    ensures 0 <= j <= |b| && Visits(order, a, b) == |a| + j
    ensures forall k :: |a| + j <= k < |a| + |b| ==> Merge(order, a, b)[k] == b[j..][k - |a| - j]
  {
    assert a[|a|..] == [];
    var m := Merge(order, a, b);
    forall k | |a| + j <= k < |a| + |b|
      ensures m[k] == b[j..][k - |a| - j]
    {
      assert m[k] == m[|a| + j..][k - |a| - j];
    }
  }

  lemma TakeLeft(order: SortOrder, a: seq<Element>, b: seq<Element>, l: int, j: int)
    requires Reached(order, a, b, l, j) && l < |a|
    requires j < |b| ==> Compare(order, a[l], b[j]) <= 0
    ensures Merge(order, a, b)[l + j] == a[l] && Reached(order, a, b, l + 1, j)
  {
    hide Merge;
    RemainsLeft(order, a, b, l, j);
    assert a[l..][1..] == a[l + 1..];
  }

  lemma TakeRight(order: SortOrder, a: seq<Element>, b: seq<Element>, l: int, j: int)
    requires Reached(order, a, b, l, j) && l < |a| && j < |b|
    requires Compare(order, a[l], b[j]) > 0
    ensures Merge(order, a, b)[l + j] == b[j] && Reached(order, a, b, l, j + 1)
  {
    hide Merge;
    RemainsRight(order, a, b, l, j);
    assert b[j..][1..] == b[j + 1..];
  }

  /** After i cells of the left run, with j right winners and push slots written. */
  ghost predicate SlotsWritten(order: SortOrder, a: seq<Element>, b: seq<Element>, i: int, j: int, push: int)
    requires 0 <= i <= |a|
  {
    if j == 0 then push == 0 && SlotsNeeded(order, a, b) == SlotsNeeded(order, a[i..], b)
    else SlotsNeeded(order, a, b) == push + |a| - i
  }

  lemma SlotsStart(order: SortOrder, a: seq<Element>, b: seq<Element>)
    ensures SlotsWritten(order, a, b, 0, 0, 0)
  {
    assert a[0..] == a;
  }

  lemma QueueOne(order: SortOrder, a: seq<Element>, b: seq<Element>, i: int, j: int, push: int, j': int)
    requires 0 <= i < |a| && 0 <= j && SlotsWritten(order, a, b, i, j, push)
    requires j == 0 ==> b != [] && Compare(order, a[i], b[0]) > 0
    ensures 0 < j' ==> SlotsWritten(order, a, b, i + 1, j', push + 1)
    ensures SlotsNeeded(order, a, b) > push
  {
  }

  lemma QueueNone(order: SortOrder, a: seq<Element>, b: seq<Element>, i: int)
    requires 0 <= i < |a| && SlotsWritten(order, a, b, i, 0, 0)
    requires b == [] || Compare(order, a[i], b[0]) <= 0
    ensures SlotsWritten(order, a, b, i + 1, 0, 0)
  {
    assert a[i..][1..] == a[i + 1..];
  }

  /** s with its two adjacent runs s[lo..mid] and s[mid..hi] merged. */
  function Merged(order: SortOrder, s: seq<Element>, lo: nat, mid: nat, hi: nat): (t: seq<Element>)
    requires lo <= mid <= hi <= |s|
    ensures |t| == |s|
  {
    s[..lo] + Merge(order, s[lo..mid], s[mid..hi]) + s[hi..]
  }

  lemma MergedAt(order: SortOrder, s: seq<Element>, lo: nat, mid: nat, hi: nat, k: int)
    requires lo <= mid <= hi <= |s| && 0 <= k < |s|
    ensures Merged(order, s, lo, mid, hi)[k] ==
            if lo <= k < hi then Merge(order, s[lo..mid], s[mid..hi])[k - lo] else s[k]
  {
  }

  lemma StepLeft(order: SortOrder, s: seq<Element>, lo: nat, mid: nat, hi: nat, l: int, j: int, w: int)
    requires lo <= mid <= hi <= |s| && w == lo + l + j && 0 <= l < mid - lo && 0 <= j <= hi - mid
    requires Reached(order, s[lo..mid], s[mid..hi], l, j)
    requires j < hi - mid ==> Compare(order, s[lo + l], s[mid + j]) <= 0
    ensures Merged(order, s, lo, mid, hi)[w] == s[lo + l]
    ensures Reached(order, s[lo..mid], s[mid..hi], l + 1, j)
  {
    hide Merge, Merged, Reached, Compare;
    var A, B := s[lo..mid], s[mid..hi];
    TakeLeft(order, A, B, l, j);
    assert Merged(order, s, lo, mid, hi)[w] == Merge(order, A, B)[l + j] by {
      MergedAt(order, s, lo, mid, hi, w);
    }
  }

  lemma StepRight(order: SortOrder, s: seq<Element>, lo: nat, mid: nat, hi: nat, l: int, j: int, w: int)
    requires lo <= mid <= hi <= |s| && w == lo + l + j && 0 <= l < mid - lo && 0 <= j < hi - mid
    requires Reached(order, s[lo..mid], s[mid..hi], l, j)
    requires Compare(order, s[lo + l], s[mid + j]) > 0
    ensures Merged(order, s, lo, mid, hi)[w] == s[mid + j]
    ensures Reached(order, s[lo..mid], s[mid..hi], l, j + 1)
  {
    hide Merge, Merged, Reached, Compare;
    var A, B := s[lo..mid], s[mid..hi];
    assert B[j] == s[mid + j];
    TakeRight(order, A, B, l, j);
    assert Merged(order, s, lo, mid, hi)[w] == Merge(order, A, B)[l + j] by {
      MergedAt(order, s, lo, mid, hi, w);
    }
  }

  // ----- the queue

  /** The live slots hold the elements of the left run a from index l on. */
  ghost predicate Queued(slots: seq<Element>, a: seq<Element>, l: int, pop: int, push: int) {
    && 0 <= pop <= push <= |slots| && 0 <= l && l + push - pop <= |a|
    && slots[pop..push] == a[l..l + push - pop]
  }

  lemma QueueFront(slots: seq<Element>, a: seq<Element>, l: int, pop: int, push: int)
    requires Queued(slots, a, l, pop, push)
    ensures 0 <= pop <= push <= |slots| && 0 <= l && l + push - pop <= |a|
    ensures pop < push ==> slots[pop] == a[l] && Queued(slots, a, l + 1, pop + 1, push)
  {
    if pop < push {
      assert slots[pop] == slots[pop..push][0];
      assert slots[pop + 1..push] == slots[pop..push][1..];
    }
  }

  lemma QueuePush(slots: seq<Element>, a: seq<Element>, l: int, pop: int, push: int, e: Element)
    requires Queued(slots, a, l, pop, push) && push < |slots|
    requires l + push - pop < |a| && a[l + push - pop] == e
    ensures Queued(slots[push := e], a, l, pop, push + 1)
  {
    assert slots[push := e][pop..push + 1] == slots[pop..push] + [e];
    assert a[l..l + push + 1 - pop] == a[l..l + push - pop] + [e];
  }

  // ----- the cells

  /** The cells below w are final (they agree with t), those from r on are untouched (as in s). */
  ghost predicate Written(cells: seq<Element>, s: seq<Element>, t: seq<Element>, w: int, r: int) {
    && |cells| == |s| == |t| && 0 <= w <= r <= |s|
    && cells[..w] == t[..w] && cells[r..] == s[r..]
  }

  lemma WriteOne(cells: seq<Element>, s: seq<Element>, t: seq<Element>, w: int, r: int, r': int)
    requires Written(cells, s, t, w, r) && w < r' && r <= r' <= |s|
    ensures Written(cells[w := t[w]], s, t, w + 1, r')
  {
    assert cells[w := t[w]][..w + 1] == cells[..w] + [t[w]];
    assert cells[w := t[w]][r'..] == cells[r..][r' - r..];
  }

  lemma ReadOne(cells: seq<Element>, s: seq<Element>, t: seq<Element>, w: int, r: int, k: int)
    requires Written(cells, s, t, w, r) && r <= k < |s|
    ensures |cells| == |s| && cells[k] == s[k]
  {
    assert cells[k] == cells[r..][k - r] && s[k] == s[r..][k - r];
  }

  lemma WrittenAll(cells: seq<Element>, s: seq<Element>, t: seq<Element>, w: int)
    requires Written(cells, s, t, w, w) && forall k :: w <= k < |s| ==> s[k] == t[k]
    ensures cells == t
  {
    assert s[w..] == t[w..];
    assert cells == cells[..w] + cells[w..] && t == t[..w] + t[w..];
  }

  // ----- what holds between two iterations

  /** The memory a merge works on, with its write index, its right index and the ends of
      the queue; l elements of the left run are in their final place. */
  datatype State = State(cells: seq<Element>, slots: seq<Element>, i: int, l: int, j: int, pop: int, push: int)

  /** The element the left run offers next: the front of the queue, or the next cell. */
  function Front(lo: nat, m: State): Element
    requires 0 <= m.pop <= m.push <= |m.slots| && 0 <= m.i
    requires m.pop == m.push ==> lo + m.i < |m.cells|
  {
    if m.push - m.pop > 0 then m.slots[m.pop] else m.cells[lo + m.i]
  }

  /** What both loops keep, for the runs s[lo..mid] and s[mid..hi] of the initial memory s:
      the cells from r on are still unread. */
  ghost predicate Merging(order: SortOrder, s: seq<Element>, lo: nat, mid: nat, hi: nat, m: State, r: int)
    requires lo <= mid <= hi <= |s|
  {
    && 0 <= m.j && 0 <= m.l && m.i == m.l + m.j && |m.cells| == |s|
    && Reached(order, s[lo..mid], s[mid..hi], m.l, m.j)
    && Queued(m.slots, s[lo..mid], m.l, m.pop, m.push)
    && Written(m.cells, s, Merged(order, s, lo, mid, hi), lo + m.i, r)
  }

  /** The first loop fills the left run's cells; the queue holds one element per right winner. */
  ghost predicate Filling(order: SortOrder, s: seq<Element>, lo: nat, mid: nat, hi: nat, m: State)
    requires lo <= mid <= hi <= |s|
  {
    && m.i <= mid - lo && m.push - m.pop == m.j
    && Merging(order, s, lo, mid, hi, m, lo + m.i)
    && SlotsWritten(order, s[lo..mid], s[mid..hi], m.i, m.j, m.push)
  }

  /** The second loop empties the queue; the write index stays behind the unread right run. */
  ghost predicate Draining(order: SortOrder, s: seq<Element>, lo: nat, mid: nat, hi: nat, m: State)
    requires lo <= mid <= hi <= |s|
  {
    && m.l + m.push - m.pop == mid - lo
    && Merging(order, s, lo, mid, hi, m, mid + m.j)
  }

  lemma FillStart(order: SortOrder, s: seq<Element>, lo: nat, mid: nat, hi: nat, slots: seq<Element>)
    requires lo <= mid <= hi <= |s|
    ensures Filling(order, s, lo, mid, hi, State(s, slots, 0, 0, 0, 0, 0))
  {
    hide Merge;
    ReachedStart(order, s[lo..mid], s[mid..hi]);
    SlotsStart(order, s[lo..mid], s[mid..hi]);
  }

  /** What the first loop reads: both candidates and the cell to displace are as in s. */
  lemma FillReads(order: SortOrder, s: seq<Element>, lo: nat, mid: nat, hi: nat, m: State)
    requires lo <= mid <= hi <= |s| && Filling(order, s, lo, mid, hi, m)
    requires 0 <= m.pop <= m.push <= |m.slots| && 0 <= m.j && 0 <= m.i < mid - lo
    ensures |m.cells| == |s| && m.l + m.push - m.pop == m.i && 0 <= m.l && m.j <= hi - mid
    ensures m.cells[lo + m.i] == s[lo..mid][m.i] && Front(lo, m) == s[lo..mid][m.l]
    ensures m.j < hi - mid ==> m.cells[mid + m.j] == s[mid + m.j]
    ensures m.pop < m.push ==> Queued(m.slots, s[lo..mid], m.l + 1, m.pop + 1, m.push)
  {
    hide Merge, Merged, Reached, SlotsWritten, Queued, Written;
    var T, w := Merged(order, s, lo, mid, hi), lo + m.i;
    ReadOne(m.cells, s, T, w, w, w);
    if m.j < hi - mid {
      ReadOne(m.cells, s, T, w, w, mid + m.j);
    }
    QueueFront(m.slots, s[lo..mid], m.l, m.pop, m.push);
    ReachedBounds(order, s[lo..mid], s[mid..hi], m.l, m.j);
  }

  /** A push is about to happen, so the slot it needs is counted. */
  lemma FillSlot(order: SortOrder, s: seq<Element>, lo: nat, mid: nat, hi: nat, m: State, winners: nat)
    requires lo <= mid <= hi <= |s| && Filling(order, s, lo, mid, hi, m)
    requires 0 <= m.pop <= m.push <= |m.slots| && 0 <= m.j && 0 <= m.i < mid - lo
    requires m.pop == m.push ==> m.j < hi - mid && Compare(order, Front(lo, m), m.cells[mid + m.j]) > 0
    ensures SlotsNeeded(order, s[lo..mid], s[mid..hi]) > m.push
    ensures 0 < winners ==> SlotsWritten(order, s[lo..mid], s[mid..hi], m.i + 1, winners, m.push + 1)
    ensures m.j <= Occupancy(order, s[lo..mid], s[mid..hi])
  {
    hide Merge, Merged, Reached, SlotsWritten, SlotsNeeded, Compare, Queued, Written, Occupancy;
    ReachedOccupancy(order, s[lo..mid], s[mid..hi], m.l, m.j);
    FillReads(order, s, lo, mid, hi, m);
    QueueOne(order, s[lo..mid], s[mid..hi], m.i, m.j, m.push, winners);
  }

  lemma FillRight(order: SortOrder, s: seq<Element>, lo: nat, mid: nat, hi: nat, m: State)
    requires lo <= mid <= hi <= |s| && Filling(order, s, lo, mid, hi, m)
    requires 0 <= m.pop <= m.push < |m.slots| && 0 <= m.j && 0 <= m.i < mid - lo
    requires m.j < hi - mid && Compare(order, Front(lo, m), m.cells[mid + m.j]) > 0
    ensures Filling(order, s, lo, mid, hi, State(m.cells[lo + m.i := m.cells[mid + m.j]],
                m.slots[m.push := m.cells[lo + m.i]], m.i + 1, m.l, m.j + 1, m.pop, m.push + 1))
  {
    hide Merge, Merged, Reached, SlotsWritten, SlotsNeeded, Compare, Front, Queued, Written;
    var w := lo + m.i;
    FillReads(order, s, lo, mid, hi, m);
    FillSlot(order, s, lo, mid, hi, m, m.j + 1);
    StepRight(order, s, lo, mid, hi, m.l, m.j, w);
    WriteOne(m.cells, s, Merged(order, s, lo, mid, hi), w, w, w + 1);
    QueuePush(m.slots, s[lo..mid], m.l, m.pop, m.push, m.cells[w]);
  }

  lemma FillQueue(order: SortOrder, s: seq<Element>, lo: nat, mid: nat, hi: nat, m: State)
    requires lo <= mid <= hi <= |s| && Filling(order, s, lo, mid, hi, m)
    requires 0 <= m.pop < m.push < |m.slots| && 0 <= m.j && 0 <= m.i < mid - lo
    requires m.j < hi - mid ==> Compare(order, m.slots[m.pop], m.cells[mid + m.j]) <= 0
    ensures Filling(order, s, lo, mid, hi, State(m.cells[lo + m.i := m.slots[m.pop]],
                m.slots[m.push := m.cells[lo + m.i]], m.i + 1, m.l + 1, m.j, m.pop + 1, m.push + 1))
  {
    hide Merge, Merged, Reached, SlotsWritten, SlotsNeeded, Compare, Queued, Written;
    var w := lo + m.i;
    FillReads(order, s, lo, mid, hi, m);
    FillSlot(order, s, lo, mid, hi, m, m.j);
    StepLeft(order, s, lo, mid, hi, m.l, m.j, w);
    WriteOne(m.cells, s, Merged(order, s, lo, mid, hi), w, w, w + 1);
    QueuePush(m.slots, s[lo..mid], m.l + 1, m.pop + 1, m.push, m.cells[w]);
  }

  lemma FillNone(order: SortOrder, s: seq<Element>, lo: nat, mid: nat, hi: nat, m: State)
    requires lo <= mid <= hi <= |s| && Filling(order, s, lo, mid, hi, m)
    requires 0 <= m.pop == m.push <= |m.slots| && 0 <= m.j && 0 <= m.i < mid - lo
    requires m.j < hi - mid ==> Compare(order, Front(lo, m), m.cells[mid + m.j]) <= 0
    ensures Filling(order, s, lo, mid, hi, m.(i := m.i + 1, l := m.l + 1))
  {
    hide Merge, Merged, Reached, Compare, Written;
    var w := lo + m.i;
    FillReads(order, s, lo, mid, hi, m);
    QueueNone(order, s[lo..mid], s[mid..hi], m.i);
    StepLeft(order, s, lo, mid, hi, m.l, m.j, w);
    WriteOne(m.cells, s, Merged(order, s, lo, mid, hi), w, w, w + 1);
    assert m.cells[w := m.cells[w]] == m.cells;
  }

  lemma FillEnd(order: SortOrder, s: seq<Element>, lo: nat, mid: nat, hi: nat, m: State)
    requires lo <= mid <= hi <= |s| && Filling(order, s, lo, mid, hi, m) && m.i == mid - lo
    ensures Draining(order, s, lo, mid, hi, m)
    ensures m.push == SlotsNeeded(order, s[lo..mid], s[mid..hi])
    ensures m.j == Occupancy(order, s[lo..mid], s[mid..hi])
  {
    hide Merge, Merged, Reached, Occupancy;
    ReachedOccupancy(order, s[lo..mid], s[mid..hi], m.l, m.j);
    assert m.cells[mid + m.j..] == m.cells[mid..][m.j..];
    assert s[mid + m.j..] == s[mid..][m.j..];
    assert s[lo..mid][m.i..] == [];
  }

  lemma DrainRight(order: SortOrder, s: seq<Element>, lo: nat, mid: nat, hi: nat, m: State)
    requires lo <= mid <= hi <= |s| && Draining(order, s, lo, mid, hi, m) && 0 <= m.pop < m.push <= |m.slots|
    requires 0 <= m.i && 0 <= m.j < hi - mid && Compare(order, m.slots[m.pop], m.cells[mid + m.j]) > 0
    ensures lo + m.i < mid + m.j
    ensures Draining(order, s, lo, mid, hi,
                     m.(cells := m.cells[lo + m.i := m.cells[mid + m.j]], i := m.i + 1, j := m.j + 1))
  {
    hide Merge, Merged, Reached, Compare, Queued, Written;
    var T, w := Merged(order, s, lo, mid, hi), lo + m.i;
    ReadOne(m.cells, s, T, w, mid + m.j, mid + m.j);
    QueueFront(m.slots, s[lo..mid], m.l, m.pop, m.push);
    StepRight(order, s, lo, mid, hi, m.l, m.j, w);
    WriteOne(m.cells, s, T, w, mid + m.j, mid + m.j + 1);
  }

  lemma DrainQueue(order: SortOrder, s: seq<Element>, lo: nat, mid: nat, hi: nat, m: State)
    requires lo <= mid <= hi <= |s| && Draining(order, s, lo, mid, hi, m) && 0 <= m.pop < m.push <= |m.slots|
    requires 0 <= m.i && 0 <= m.j
    requires m.j < hi - mid ==> Compare(order, m.slots[m.pop], m.cells[mid + m.j]) <= 0
    ensures lo + m.i < mid + m.j
    ensures Draining(order, s, lo, mid, hi,
                     m.(cells := m.cells[lo + m.i := m.slots[m.pop]], i := m.i + 1, l := m.l + 1, pop := m.pop + 1))
  {
    hide Merge, Merged, Reached, Compare, Queued, Written;
    var T, w := Merged(order, s, lo, mid, hi), lo + m.i;
    ReachedBounds(order, s[lo..mid], s[mid..hi], m.l, m.j);
    if m.j < hi - mid {
      ReadOne(m.cells, s, T, w, mid + m.j, mid + m.j);
    }
    QueueFront(m.slots, s[lo..mid], m.l, m.pop, m.push);
    StepLeft(order, s, lo, mid, hi, m.l, m.j, w);
    WriteOne(m.cells, s, T, w, mid + m.j, mid + m.j);
  }

  lemma DrainEnd(order: SortOrder, s: seq<Element>, lo: nat, mid: nat, hi: nat, m: State)
    requires lo <= mid <= hi <= |s| && Draining(order, s, lo, mid, hi, m) && m.pop == m.push
    ensures m.cells == Merged(order, s, lo, mid, hi)
    ensures m.i == Visits(order, s[lo..mid], s[mid..hi])
  {
    hide Merge, Merged, Reached, Queued;
    var A, B, T := s[lo..mid], s[mid..hi], Merged(order, s, lo, mid, hi);
    ReachedEnd(order, A, B, m.j);
    forall k | mid + m.j <= k < |s|
      ensures s[k] == T[k]
    {
      MergedAt(order, s, lo, mid, hi, k);
      if k < hi {
        assert Merge(order, A, B)[k - lo] == B[m.j..][k - mid - m.j];
      }
    }
    WrittenAll(m.cells, s, T, lo + m.i);
  }

  /** Merges a[lo..mid] and a[mid..hi]. A write past the end of the swap space is
      undefined in the original; here it ends the merge with ok == false. */
  method MergeInPlace(order: SortOrder, a: array<Element>, lo: nat, mid: nat, hi: nat, swap: array<Element>)
    returns (ok: bool, visited: nat, ghost peak: nat)
    requires lo <= mid <= hi <= a.Length && a != swap
    modifies a, swap
    ensures ok <==> SlotsNeeded(order, old(a[lo..mid]), old(a[mid..hi])) <= swap.Length
    ensures ok ==> a[..] == Merged(order, old(a[..]), lo, mid, hi)
    ensures ok ==> visited == Visits(order, old(a[lo..mid]), old(a[mid..hi]))
    ensures var occupancy := Occupancy(order, old(a[lo..mid]), old(a[mid..hi]));
            if ok then peak == occupancy else peak <= occupancy
  {
    hide Merged, Merge, SlotsNeeded, Visits, Filling, Draining, Compare, Occupancy;
    ghost var s := a[..];
    assert s[lo..mid] == a[lo..mid] && s[mid..hi] == a[mid..hi];
    var sizeA, sizeB := mid - lo, hi - mid;
    var push, pop, i, j := 0, 0, 0, 0;
    visited, peak := 0, 0;
    ghost var m := State(s, swap[..], 0, 0, 0, 0, 0);
    FillStart(order, s, lo, mid, hi, swap[..]);
    while i < sizeA
      invariant m == State(a[..], swap[..], i, i - j, j, pop, push) && visited == i
      invariant 0 <= i <= sizeA && 0 <= j <= sizeB && 0 <= pop <= push <= swap.Length
      invariant push - pop == j == peak
      invariant Filling(order, s, lo, mid, hi, m)
    {
      var leftCompare := if push - pop > 0 then swap[pop] else a[lo + i];
      if j < sizeB && Compare(order, leftCompare, a[mid + j]) > 0 {
        FillSlot(order, s, lo, mid, hi, m, 0);
        if push == swap.Length { return false, visited, peak; }
        FillRight(order, s, lo, mid, hi, m);
        var swapped := a[lo + i];
        a[lo + i] := a[mid + j];
        swap[push] := swapped;
        push, j := push + 1, j + 1;
      } else if push - pop > 0 {
        FillSlot(order, s, lo, mid, hi, m, 0);
        if push == swap.Length { return false, visited, peak; }
        FillQueue(order, s, lo, mid, hi, m);
        var swapped := a[lo + i];
        a[lo + i] := swap[pop];
        pop := pop + 1;
        swap[push] := swapped;
        push := push + 1;
      } else {
        FillNone(order, s, lo, mid, hi, m);
      }
      i := i + 1;
      visited := visited + 1;
      m := State(a[..], swap[..], i, i - j, j, pop, push);
      peak := if push - pop > peak then push - pop else peak;
    }
    FillEnd(order, s, lo, mid, hi, m);
    ok := true;
    while push - pop > 0
      invariant m == State(a[..], swap[..], i, i - j, j, pop, push) && visited == i
      invariant 0 <= i && 0 <= j <= sizeB && 0 <= pop <= push <= swap.Length
      invariant push - pop <= peak
      invariant Draining(order, s, lo, mid, hi, m)
      decreases push - pop + sizeB - j
    {
      var leftCompare := swap[pop];
      if j < sizeB && Compare(order, leftCompare, a[mid + j]) > 0 {
        DrainRight(order, s, lo, mid, hi, m);
        a[lo + i] := a[mid + j];
        j := j + 1;
      } else {
        DrainQueue(order, s, lo, mid, hi, m);
        a[lo + i] := swap[pop];
        pop := pop + 1;
      }
      i := i + 1;
      visited := visited + 1;
      m := State(a[..], swap[..], i, i - j, j, pop, push);
    }
    DrainEnd(order, s, lo, mid, hi, m);
  }
}
