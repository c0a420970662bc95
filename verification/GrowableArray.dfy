/** The container around the bottom-up sort: insertion and removal at any position, a
    capacity that follows the size, and a flag that remembers the order of the contents. */
module GrowableArray {
  import opened StableOrder
  import opened BottomUpSort
  import BottomUpTheorems

  /** The capacity chosen for n elements: n times 1.75, truncated. */
  function UpSized(n: nat): (cap: nat)
    ensures n <= cap && 4 * cap <= 7 * n && 7 * n < 4 * cap + 4
  {
    7 * n / 4
  }

  // ----- the ring of displaced elements

  function Wrap(k: nat, n: nat): nat { if k >= n then k - n else k }

  /** The live elements of a ring, oldest first. */
  function Queue(bucket: seq<Element>, pop: nat, live: nat): (q: seq<Element>)
    requires pop < |bucket| && live <= |bucket|
    ensures |q| == live
  {
    if pop + live <= |bucket| then bucket[pop..pop + live] else bucket[pop..] + bucket[..pop + live - |bucket|]
  }

  /** The ring holds live elements of c from index first on, the oldest of them at pop. */
  ghost predicate Ring(bucket: seq<Element>, c: seq<Element>, pop: nat, push: nat, first: nat, live: nat) {
    && pop < |bucket| && live <= |bucket| && push == Wrap(pop + live, |bucket|) && first + live <= |c|
    && Queue(bucket, pop, live) == c[first..first + live]
  }

  lemma RingPop(bucket: seq<Element>, c: seq<Element>, pop: nat, push: nat, first: nat, live: nat)
    requires Ring(bucket, c, pop, push, first, live) && live > 0
    ensures bucket[pop] == c[first]
    ensures Ring(bucket, c, Wrap(pop + 1, |bucket|), push, first + 1, live - 1)
  {
    var q := Queue(bucket, pop, live);
    assert bucket[pop] == q[0] == c[first..first + live][0];
    assert Queue(bucket, Wrap(pop + 1, |bucket|), live - 1) == q[1..] == c[first + 1..first + live];
  }

  lemma RingPush(bucket: seq<Element>, c: seq<Element>, pop: nat, push: nat, first: nat, live: nat)
    requires Ring(bucket, c, pop, push, first, live) && live < |bucket| && first + live < |c|
    ensures push < |bucket|
    ensures Ring(bucket[push := c[first + live]], c, pop, Wrap(push + 1, |bucket|), first, live + 1)
  {
    var b := bucket[push := c[first + live]];
    assert Queue(b, pop, live + 1) == Queue(bucket, pop, live) + [c[first + live]];
    assert c[first..first + live + 1] == c[first..first + live] + [c[first + live]];
  }

  // ----- insertion

  /** c with the elements els inserted at pos. */
  function Spliced(c: seq<Element>, pos: nat, els: seq<Element>): (r: seq<Element>)
    requires pos <= |c|
    ensures |r| == |c| + |els|
  {
    c[..pos] + els + c[pos..]
  }

  /** The insertion loop has come to index i: the first i cells of the target are final and
      the ring holds the contents they displaced. */
  ghost predicate Inserting(c: seq<Element>, pos: nat, els: seq<Element>, i: nat, target: seq<Element>,
                            bucket: seq<Element>, pop: nat, push: nat)
    requires pos <= |c|
  {
    var first := if i < pos + |els| then pos else i - |els|;
    && |bucket| == |els| && pos <= i <= |c| + |els| <= |target|
    && target[..i] == Spliced(c, pos, els)[..i]
    && first <= Min(i, |c|)
    && Ring(bucket, c, pop, push, first, Min(i, |c|) - first)
  }

  /** The elements an insertion takes from the numEls cells of els from index from on. In place,
      cells of the array itself that lie before pos are read before they change, and so are
      those from pos on; a stretch across pos is read again after it has been overwritten, which
      repeats its part before pos. */
  function Taken(els: seq<Element>, from: nat, numEls: nat, pos: nat, inPlace: bool): (e: seq<Element>)
    requires from + numEls <= |els|
    ensures |e| == numEls
  {
    if inPlace && from < pos then
      seq(numEls, k requires 0 <= k < numEls => els[from + Again(k, pos - from)])
    else els[from..from + numEls]
  }

  function Again(k: nat, period: nat): (r: nat)
    requires period > 0
    ensures r <= k && r < period
  {
    if k < period then k else Again(k - period, period)
  }

  /** Whether t repeats itself after p elements. */
  predicate Repeats(t: seq<Element>, p: nat) {
    forall k :: p <= k < |t| ==> t[k] == t[k - p]
  }

  /** The elements inserted are those given exactly if the insertion is not in place, or their
      stretch of the array begins at pos or later, or what lies from pos on repeats what lies
      before it; in particular if the stretch ends before pos. */
  lemma TakenAsIs(els: seq<Element>, from: nat, numEls: nat, pos: nat, inPlace: bool)
    requires from + numEls <= |els|
    ensures var given := els[from..from + numEls];
            Taken(els, from, numEls, pos, inPlace) == given <==> (inPlace && from < pos ==> Repeats(given, pos - from))
  {
    var e, given := Taken(els, from, numEls, pos, inPlace), els[from..from + numEls];
    if inPlace && from < pos {
      var p := pos - from;
      hide Taken;
      if e == given {
        forall k | p <= k < numEls
          ensures given[k] == given[k - p]
        {
          TakenAgain(els, from, numEls, pos, k);
        }
      }
      if Repeats(given, p) {
        forall k | 0 <= k < numEls
          ensures e[k] == given[k]
        {
          RepeatsTaken(els, from, numEls, pos, k);
        }
      }
    }
  }

  lemma {:induction false} RepeatsTaken(els: seq<Element>, from: nat, numEls: nat, pos: nat, k: nat)
    requires from + numEls <= |els| && from < pos && k < numEls
    requires Repeats(els[from..from + numEls], pos - from)
    ensures Taken(els, from, numEls, pos, true)[k] == els[from..from + numEls][k]
    decreases k
  {
    hide Taken;
    TakenAgain(els, from, numEls, pos, k);
    if k >= pos - from {
      RepeatsTaken(els, from, numEls, pos, k - (pos - from));
    }
  }

  /** Inserting the first two of the elements 1, 2, 3 after the first one, in place, inserts the
      first one twice. */
  lemma TakenTwice(room: Element)
    ensures var els := [Element(1, 0), Element(2, 1), Element(3, 2), room, room];
            Taken(els, 0, 2, 1, true) == [els[0], els[0]] != els[0..2]
  {
    var els := [Element(1, 0), Element(2, 1), Element(3, 2), room, room];
    TakenAt(els, 0, 2, 1, 0);
    TakenAt(els, 0, 2, 1, 1);
    assert els[0..2][1] == els[1];
  }

  lemma TakenAgain(els: seq<Element>, from: nat, numEls: nat, pos: nat, k: nat)
    requires from + numEls <= |els| && from < pos && k < numEls
    ensures k < pos - from ==> Taken(els, from, numEls, pos, true)[k] == els[from + k]
    ensures k >= pos - from ==>
              Taken(els, from, numEls, pos, true)[k] == Taken(els, from, numEls, pos, true)[k - (pos - from)]
  {
    hide Taken, Again;
    TakenAt(els, from, numEls, pos, k);
    AgainStep(k, pos - from);
    if k >= pos - from {
      TakenAt(els, from, numEls, pos, k - (pos - from));
    }
  }

  lemma AgainStep(k: nat, period: nat)
    requires period > 0
    ensures Again(k, period) == if k < period then k else Again(k - period, period)
  {
  }

  lemma TakenAt(els: seq<Element>, from: nat, numEls: nat, pos: nat, k: nat)
    requires from + numEls <= |els| && from < pos && k < numEls
    ensures Taken(els, from, numEls, pos, true)[k] == els[from + Again(k, pos - from)]
  {
  }

  lemma SplicedElements(c: seq<Element>, pos: nat, els: seq<Element>)
    requires pos <= |c|
    ensures var r := Spliced(c, pos, els);
            && (forall i :: 0 <= i < pos ==> r[i] == c[i]) && r[pos..pos + |els|] == els
            && (forall i :: pos + |els| <= i < |r| ==> r[i] == c[i - |els|])
  {
  }

  lemma SplicedNothing(c: seq<Element>, els: seq<Element>)
    requires els == []
    ensures Spliced(c, |c|, els) == c
  {
  }

  lemma SplicedAt(c: seq<Element>, pos: nat, els: seq<Element>, i: nat)
    requires pos <= i < |c| + |els| && pos <= |c|
    ensures Spliced(c, pos, els)[i] == if i < pos + |els| then els[i - pos] else c[i - |els|]
  {
  }

  lemma InsertStart(c: seq<Element>, pos: nat, els: seq<Element>, target: seq<Element>, bucket: seq<Element>)
    requires pos <= |c| && |bucket| == |els| > 0 && |c| + |els| <= |target| && target[..pos] == c[..pos]
    ensures Inserting(c, pos, els, pos, target, bucket, 0, 0)
  {
    assert Spliced(c, pos, els)[..pos] == c[..pos];
  }

  lemma InsertValue(c: seq<Element>, pos: nat, els: seq<Element>, i: nat, target: seq<Element>,
                    bucket: seq<Element>, pop: nat, push: nat)
    requires pos <= |c| && Inserting(c, pos, els, i, target, bucket, pop, push) && i < |c| + |els|
    ensures |bucket| == |els| && pop < |els| && push < |els| && i < |target|
    ensures Spliced(c, pos, els)[i] == if i < pos + |els| then els[i - pos] else bucket[pop]
  {
    SplicedAt(c, pos, els, i);
    if i >= pos + |els| {
      RingPop(bucket, c, pop, push, i - |els|, Min(i, |c|) - (i - |els|));
    }
  }

  lemma InsertStep(c: seq<Element>, pos: nat, els: seq<Element>, i: nat, target: seq<Element>,
                   bucket: seq<Element>, pop: nat, push: nat)
    requires pos <= |c| && Inserting(c, pos, els, i, target, bucket, pop, push) && i < |c| + |els| && |bucket| == |els|
    requires push < |els| && i < |target|
    ensures var pop' := if i < pos + |els| then pop else Wrap(pop + 1, |els|);
            var push' := if i < |c| then Wrap(push + 1, |els|) else push;
            var bucket' := if i < |c| then bucket[push := c[i]] else bucket;
            Inserting(c, pos, els, i + 1, target[i := Spliced(c, pos, els)[i]], bucket', pop', push')
  {
    hide Ring, Wrap, Spliced;
    var t := target[i := Spliced(c, pos, els)[i]];
    assert t[..i + 1] == target[..i] + [Spliced(c, pos, els)[i]] == Spliced(c, pos, els)[..i + 1];
    if i < pos + |els| {
      if i < |c| {
        RingPush(bucket, c, pop, push, pos, i - pos);
      }
    } else {
      var first := i - |els|;
      RingPop(bucket, c, pop, push, first, Min(i, |c|) - first);
      if i < |c| {
        RingPush(bucket, c, Wrap(pop + 1, |els|), push, first + 1, i - first - 1);
      }
    }
  }

  /** What an insertion in place reads from the array itself. */
  lemma ReadTaken(c: seq<Element>, pos: nat, e: seq<Element>, i: nat, target: seq<Element>, bucket: seq<Element>,
                  pop: nat, push: nat, cells: seq<Element>, from: nat, numEls: nat)
    requires pos <= |c| && Inserting(c, pos, e, i, target, bucket, pop, push) && i < pos + numEls
    requires from + numEls <= |cells| == |target| && e == Taken(cells, from, numEls, pos, true)
    requires forall k :: 0 <= k < |cells| && (k < pos || k >= i) ==> target[k] == cells[k]
    ensures pos <= i && target[from + i - pos] == e[i - pos]
  {
    hide Ring, Taken, Spliced;
    var r := from + i - pos;
    if from >= pos {
      TakenAsIs(cells, from, numEls, pos, true);
    } else {
      TakenAgain(cells, from, numEls, pos, i - pos);
      if r >= pos {
        assert target[r] == target[..i][r] == Spliced(c, pos, e)[..i][r];
        SplicedAt(c, pos, e, r);
      }
    }
  }

  lemma InsertEnd(c: seq<Element>, pos: nat, els: seq<Element>, target: seq<Element>,
                  bucket: seq<Element>, pop: nat, push: nat)
    requires pos <= |c| && Inserting(c, pos, els, |c| + |els|, target, bucket, pop, push)
    ensures target[..|c| + |els|] == Spliced(c, pos, els)
  {
  }

  // ----- removal

  /** c without the num elements from pos on. */
  function Cut(c: seq<Element>, pos: nat, num: nat): (r: seq<Element>)
    requires pos + num <= |c|
    ensures |r| == |c| - num
  {
    c[..pos] + c[pos + num..]
  }

  lemma CutElements(c: seq<Element>, pos: nat, num: nat)
    requires pos + num <= |c|
    ensures forall i :: 0 <= i < |c| - num ==> Cut(c, pos, num)[i] == c[if i < pos then i else i + num]
  {
  }

  lemma CutSorted(order: SortOrder, c: seq<Element>, pos: nat, num: nat)
    requires pos + num <= |c| && Sorted(order, c)
    ensures Sorted(order, Cut(c, pos, num))
  {
    var r := Cut(c, pos, num);
    forall i, j | 0 <= i < j < |r|
      ensures Rank(order, r[i]) <= Rank(order, r[j])
    {
      var i', j' := if i < pos then i else i + num, if j < pos then j else j + num;
      assert r[i] == c[i'] && r[j] == c[j'];
    }
  }

  lemma SortedIsStableSort(order: SortOrder, c: seq<Element>)
    requires Sorted(order, c)
    ensures StableSortOf(order, c, c)
  {
  }

  /** Copies a[..n] to the front of b. */
  method CopyPrefix(a: array<Element>, b: array<Element>, n: nat)
    requires n <= a.Length && n <= b.Length && a != b
    modifies b
    ensures b[..n] == a[..n]
  {
    var i := 0;
    while i < n
      invariant 0 <= i <= n && b[..i] == a[..i]
    {
      b[i] := a[i];
      i := i + 1;
    }
  }

  class Array {
    var buf: array<Element>
    var cap: nat
    var size: nat
    var sorted: SortOrder
    ghost var moved: nat  // elements copied to a larger buffer so far

    /** The size never exceeds the capacity, and an order the flag claims is the order of the contents. */
    ghost predicate Valid()
      reads this, buf
    {
      && buf.Length == cap && size <= cap
      && (sorted != Unsorted ==> Sorted(sorted, buf[..size]))
    }

    ghost function Contents(): seq<Element>
      requires Valid()
      reads this, buf
    {
      buf[..size]
    }

    constructor (initialCap: nat)
      ensures Valid() && Contents() == [] && cap == initialCap && sorted == Unsorted && moved == 0 && fresh(buf)
    {
      buf := new Element[initialCap](_ => Element(0, 0));
      cap, size, sorted, moved := initialCap, 0, Unsorted, 0;
    }

    constructor FromList(list: seq<Element>)
      ensures Valid() && Contents() == list && cap == UpSized(|list|) && sorted == Unsorted && moved == 0 && fresh(buf)
    {
      var n := UpSized(|list|);
      buf := new Element[n](i requires 0 <= i < n => if i < |list| then list[i] else Element(0, 0));
      cap, size, sorted, moved := n, |list|, Unsorted, 0;
    }

    /** Sorts unless the flag says that this has been done; ok tells whether the sort
        stayed within its swap space of floor(size/2) slots. */
    method Sort(order: SortOrder) returns (ok: bool)
      requires Valid()
      modifies this, buf
      ensures ok <==> order == Unsorted || old(sorted) == order || SortFits(order, old(Contents()), 1, old(size) / 2)
      ensures ok ==> Valid() && buf == old(buf) && cap == old(cap) && size == old(size) && moved == old(moved)
      ensures ok && order == Unsorted ==> Contents() == old(Contents()) && sorted == old(sorted)
      ensures ok && order != Unsorted ==> sorted == order && StableSortOf(order, Contents(), old(Contents()))
      ensures ok && order == Descending ==>
                var c := Contents(); forall i, j :: 0 <= i < j < |c| ==> c[i].key >= c[j].key
      ensures ok && order == Ascending ==>
                var c := Contents(); forall i, j :: 0 <= i < j < |c| ==> c[i].key <= c[j].key
    {
      hide StableSortOf, SortFits, BottomUp;
      ok := true;
      if order != Unsorted && sorted != order {
        sorted := order;
        BottomUpTheorems.BottomUpSorts(order, buf[..size]);
        var visited;
        ok, visited := NlognSort(order, buf, size, size / 2);
        if ok {
          StableSortSorted(order, buf[..size], old(Contents()));
        }
      } else if order != Unsorted {
        SortedIsStableSort(order, buf[..size]);
      }
      if ok && order != Unsorted {
        StableSortMeaning(order, buf[..size], old(Contents()));
      }
    }

    /** Inserts the numEls elements of els from index from on at pos; a position past the end is
        an error. Before the end, an insertion of no elements reads an empty ring, which is
        undefined. */
    method Insert(pos: nat, els: array<Element>, from: nat, numEls: nat) returns (ok: bool)
      requires Valid() && from + numEls <= els.Length
      modifies this, buf
      ensures ok <==> pos <= old(size) && (numEls > 0 || pos == old(size))
      ensures ok || pos > old(size) ==> Valid() && (buf == old(buf) || fresh(buf))
      ensures pos > old(size) ==> buf == old(buf) && Contents() == old(Contents())
      ensures pos > old(size) ==> cap == old(cap) && sorted == old(sorted) && moved == old(moved)
      ensures ok ==> var e := Taken(old(els[..]), from, numEls, pos, els == old(buf) && numEls + old(size) <= old(cap));
                     Contents() == Spliced(old(Contents()), pos, e) && sorted == Unsorted
      ensures ok ==> var (c, now) := (old(Contents()), Contents());
                     && |now| == |c| + numEls
                     && (forall i :: 0 <= i < pos ==> now[i] == c[i])
                     && (forall i :: pos + numEls <= i < |now| ==> now[i] == c[i - numEls])
      ensures ok && (els != old(buf) || numEls + old(size) > old(cap) || from >= pos) ==>
                Contents()[pos..pos + numEls] == old(els[..])[from..from + numEls]
      ensures ok ==> var n := numEls + old(size);
                     if n > old(cap) then cap == UpSized(n) && moved == old(moved) + pos
                     else cap == old(cap) && moved == old(moved)
    {
      hide Spliced, Taken, Repeats, Sorted, UpSized;
      ghost var c, cells, inPlace := Contents(), els[..], els == buf && numEls + size <= cap;
      ghost var e := Taken(cells, from, numEls, pos, inPlace);
      if pos > size || (numEls == 0 && pos < size) {
        return false;
      }
      Splice(pos, els, from, numEls);
      ok := true;
      SplicedElements(c, pos, e);
      TakenAsIs(cells, from, numEls, pos, inPlace);
    }

    /** The insertion proper. */
    method Splice(pos: nat, els: array<Element>, from: nat, numEls: nat)
      requires Valid() && from + numEls <= els.Length && pos <= size && (numEls > 0 || pos == size)
      modifies this, buf
      ensures Valid() && (buf == old(buf) || fresh(buf)) && sorted == Unsorted
      ensures var e := Taken(old(els[..]), from, numEls, pos, els == old(buf) && numEls + old(size) <= old(cap));
              Contents() == Spliced(old(Contents()), pos, e)
      ensures var n := numEls + old(size);
              if n > old(cap) then cap == UpSized(n) && moved == old(moved) + pos
              else cap == old(cap) && moved == old(moved)
    {
      hide Spliced, Taken, Sorted, UpSized;
      ghost var c, e := Contents(), Taken(els[..], from, numEls, pos, els == buf && numEls + size <= cap);
      var newBuf := Room(pos, numEls);
      if numEls > 0 {
        Displace(newBuf, pos, els, from, numEls);
      } else {
        SplicedNothing(c, e);
      }
      buf, size, sorted := newBuf, size + numEls, Unsorted;
    }

    /** A buffer with room for numEls more elements, which holds those before pos: the present
        one or, if that is too small, a new one. */
    method Room(pos: nat, numEls: nat) returns (newBuf: array<Element>)
      requires buf.Length == cap && pos <= size <= cap
      modifies this`cap, this`moved
      ensures newBuf.Length == cap >= pos && newBuf[..pos] == buf[..pos]
      ensures if numEls + size > old(cap)
              then cap == UpSized(numEls + size) && moved == old(moved) + pos && fresh(newBuf)
              else cap == old(cap) && moved == old(moved) && newBuf == buf
    {
      newBuf := buf;
      if numEls + size > cap {
        cap := UpSized(numEls + size);
        newBuf := new Element[cap](_ => Element(0, 0));
        CopyPrefix(buf, newBuf, pos);
        moved := moved + pos;
      }
    }

    /** The insertion loop: writes the new contents to target, which is either the buffer
        itself or a new one that already holds the contents up to pos. */
    method Displace(target: array<Element>, pos: nat, els: array<Element>, from: nat, numEls: nat)
      requires size <= buf.Length && pos <= size && 0 < numEls && from + numEls <= els.Length
      requires size + numEls <= target.Length && target[..pos] == buf[..pos]
      modifies target
      ensures target[..size + numEls] ==
              Spliced(old(buf[..size]), pos, Taken(old(els[..]), from, numEls, pos, els == target))
    {
      hide Inserting, Spliced, Taken;
      ghost var c, cells := buf[..size], els[..];
      ghost var e := Taken(cells, from, numEls, pos, els == target);
      var bucket := new Element[numEls](_ => Element(0, 0));
      var push, pop := 0, 0;
      assert c[..pos] == buf[..pos];
      InsertStart(c, pos, e, target[..], bucket[..]);
      var i := pos;
      while i < size + numEls
        invariant pos <= i <= size + numEls
        invariant Inserting(c, pos, e, i, target[..], bucket[..], pop, push)
        invariant forall k :: i <= k < size ==> buf[k] == c[k]
        invariant forall k :: 0 <= k < els.Length && (els != target || k < pos || k >= i) ==> els[k] == cells[k]
      {
        InsertValue(c, pos, e, i, target[..], bucket[..], pop, push);
        InsertStep(c, pos, e, i, target[..], bucket[..], pop, push);
        var value;
        if i < pos + numEls {
          if els == target {
            ReadTaken(c, pos, e, i, target[..], bucket[..], pop, push, cells, from, numEls);
          } else {
            TakenAsIs(cells, from, numEls, pos, false);
          }
          value := els[from + i - pos];
        } else {
          value := bucket[pop];
          pop := pop + 1;
          if pop == numEls {
            pop := 0;
          }
        }
        if i < size {
          bucket[push] := buf[i];
          push := push + 1;
          if push == numEls {
            push := 0;
          }
        }
        target[i] := value;
        i := i + 1;
      }
      InsertEnd(c, pos, e, target[..], bucket[..], pop, push);
    }

    /** Removes num elements from pos on; a range that is not inside the contents is an error. */
    method Remove(pos: nat, num: nat) returns (ok: bool)
      requires Valid()
      modifies this, buf
      ensures ok <==> pos + num <= old(size)
      ensures Valid() && (buf == old(buf) || fresh(buf)) && sorted == old(sorted) && moved == old(moved)
      ensures !ok ==> buf == old(buf) && Contents() == old(Contents()) && cap == old(cap)
      ensures ok ==> Contents() == Cut(old(Contents()), pos, num)
      ensures ok ==> var (c, now) := (old(Contents()), Contents());
                     |now| == |c| - num && forall i :: 0 <= i < |now| ==> now[i] == c[if i < pos then i else i + num]
      ensures ok ==> cap == if UpSized(old(size) - num) < old(cap) / 2 then UpSized(old(size) - num) else old(cap)
    {
      hide Sorted, Cut;
      if pos + num > size {
        return false;
      }
      var selected := buf;
      var potentialCap := UpSized(size - num);
      if potentialCap < cap / 2 {
        selected := new Element[potentialCap](_ => Element(0, 0));
        cap := potentialCap;
        CopyPrefix(buf, selected, pos);
      }
      if sorted != Unsorted {
        CutSorted(sorted, buf[..size], pos, num);
      }
      CloseGap(selected, pos, num);
      CutElements(old(buf[..size]), pos, num);
      buf, size, ok := selected, size - num, true;
    }

    /** The removal loop: moves what follows the removed elements to target, which is either
        the buffer itself or a new one that already holds the contents up to pos. */
    method CloseGap(target: array<Element>, pos: nat, num: nat)
      requires size <= buf.Length && pos + num <= size
      requires size - num <= target.Length && target[..pos] == buf[..pos]
      modifies target
      ensures target[..size - num] == Cut(old(buf[..size]), pos, num)
    {
      hide Cut;
      ghost var c := buf[..size];
      CutElements(c, pos, num);
      assert forall k :: 0 <= k < pos ==> target[k] == target[..pos][k] == c[k];
      var i := pos;
      while i < size
        invariant pos <= i <= size
        invariant forall k :: 0 <= k < pos ==> target[k] == c[k]
        invariant forall k :: pos <= k < i && k < size - num ==> target[k] == c[k + num]
        invariant forall k :: i <= k < size ==> buf[k] == c[k]
      {
        if i + num < size {
          target[i] := buf[i + num];
        }
        i := i + 1;
      }
    }
  }

  // ----- the cost of growing

  /** Appending elements one at a time to an empty array copies fewer than 7/3 of them
      to larger buffers in all, whatever the initial capacity. */
  method AppendEach(a: Array, els: seq<Element>)
    requires a.Valid() && a.size == 0 && a.moved == 0
    modifies a, a.buf
    ensures a.Valid() && a.Contents() == els
    ensures 3 * a.moved <= 7 * |els|
  {
    var i := 0;
    while i < |els|
      invariant 0 <= i <= |els| && a.Valid() && (a.buf == old(a.buf) || fresh(a.buf))
      invariant a.Contents() == els[..i]
      invariant 3 * a.moved <= 4 * a.cap && 3 * a.moved <= 7 * i
    {
      var el := new Element[1](_ => els[i]);
      var ok := a.Insert(a.size, el, 0, 1);
      i := i + 1;
    }
  }

  lemma StableSortSorted(order: SortOrder, t: seq<Element>, s: seq<Element>)
    requires StableSortOf(order, t, s)
    ensures Sorted(order, t)
  {
  }
}
