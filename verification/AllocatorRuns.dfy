/** What holds after every history of allocations and frees. */
module AllocatorRuns {
  import opened Optional
  import opened MemoryHeap
  import opened BlockHeap

  /** A pointer is its distance from the start of the arena; None is NULL. */
  datatype Call = Malloc(size: nat) | Free(pointer: Option<int>)

  function Step(h: Heap, n: nat, c: Call): Heap {
    match c
    case Malloc(size) => Emalloc(h, n, size).heap
    case Free(None) => h
    case Free(Some(distance)) => Efree(h, n, distance % U32)
  }

  /** The heap after a history of calls. */
  function Run(h: Heap, n: nat, calls: seq<Call>): Heap
    decreases |calls|
  {
    if calls == [] then h else Run(Step(h, n, calls[0]), n, calls[1..])
  }

  lemma StepKeeps(h: Heap, n: nat, c: Call)
    requires 1 <= n <= U16 && Inv(h, n)
    ensures Inv(Step(h, n, c), n)
  {
    hide Emalloc, Efree, Inv;
    match c
    case Malloc(size) => EmallocInv(h, n, size);
    case Free(None) =>
    case Free(Some(distance)) => EfreeInv(h, n, distance % U32);
  }

  /** Every reachable heap has its lists ordered by size and its blocks placed apart. */
  lemma {:induction false} RunKeeps(h: Heap, n: nat, calls: seq<Call>)
    requires 1 <= n <= U16 && Inv(h, n)
    ensures Inv(Run(h, n, calls), n)
    decreases |calls|
  {
    hide Inv, Step;
    if calls != [] {
      StepKeeps(h, n, calls[0]);
      RunKeeps(Step(h, n, calls[0]), n, calls[1..]);
    }
  }

  /** No two live allocations of a reachable heap overlap, and none overlaps a free block. */
  lemma LiveApart(n: nat, calls: seq<Call>, i: nat, j: nat)
    requires 1 <= n <= U16
    ensures var h := Run(FRESH_HEAP, n, calls);
            && (i < j < |h.used| ==> Apart(h.used[i], h.used[j]))
            && (i < |h.used| && j < |h.freed| ==> Apart(h.used[i], h.freed[j]))
  {
    hide Run;
    FreshInv(n);
    RunKeeps(FRESH_HEAP, n, calls);
    var h := Run(FRESH_HEAP, n, calls);
    if n < U16 && i < |h.used| {
      if i < j < |h.used| {
        TwoOccurrences(h.used, i, j);
        assert h.used[i] in All(h) && h.used[j] in All(h);
      }
      if j < |h.freed| {
        assert h.used[i] in h.used && h.freed[j] in h.freed;
        assert h.used[i] in All(h) && h.freed[j] in All(h);
        assert h.used[i] == h.freed[j] ==> All(h)[h.used[i]] >= 2;
      }
    }
  }

  lemma TwoOccurrences(l: seq<Block>, i: nat, j: nat)
    requires i < j < |l|
    ensures l[i] == l[j] ==> multiset(l)[l[i]] >= 2
  {
    assert l == l[..j] + l[j..];
    assert l[i] in l[..j] && l[j] in l[j..];
  }

  lemma StepSound(h: Heap, n: nat, c: Call)
    requires 1 <= n < U16 && Inv(h, n) && Sound(h, n)
    ensures c.Malloc? ==> (Tiles(All(Step(h, n, c)), n) <==> !Loses(h, n, c.size))
    ensures c.Free? ==> Sound(Step(h, n, c), n) && (Tiles(All(h), n) ==> Tiles(All(Step(h, n, c)), n))
  {
    hide Emalloc, Efree, SizeOrdered, Placed, Tiles, All, Loses;
    match c
    case Malloc(size) => EmallocTiles(h, n, size);
    case Free(None) =>
    case Free(Some(distance)) =>
      if u :| u in h.used && u.index == distance % U32 {
        EfreeKeeps(h, n, u);
      } else {
        EfreeUnknown(h, n, distance % U32);
      }
  }

  /** After every request of the history, the blocks tile the arena. */
  ghost predicate AlwaysTiled(h: Heap, n: nat, calls: seq<Call>)
    decreases |calls|
  {
    calls == [] ||
    (var r := Step(h, n, calls[0]); (calls[0].Malloc? ==> Tiles(All(r), n)) && AlwaysTiled(r, n, calls[1..]))
  }

  /** No request of the history loses a block. */
  predicate NeverLoses(h: Heap, n: nat, calls: seq<Call>)
    decreases |calls|
  {
    calls == [] ||
    ((calls[0].Malloc? ==> !Loses(h, n, calls[0].size)) && NeverLoses(Step(h, n, calls[0]), n, calls[1..]))
  }

  /** Over any history, the arena is tiled after every request exactly if none loses a block. */
  lemma {:induction false} RunTilesExactly(h: Heap, n: nat, calls: seq<Call>)
    requires 1 <= n < U16 && Inv(h, n) && Sound(h, n)
    ensures AlwaysTiled(h, n, calls) <==> NeverLoses(h, n, calls)
    decreases |calls|
  {
    hide Inv, Step, Tiles, All, Loses;
    if calls != [] {
      StepKeeps(h, n, calls[0]);
      StepSound(h, n, calls[0]);
      if calls[0].Malloc? ==> !Loses(h, n, calls[0].size) {
        RunTilesExactly(Step(h, n, calls[0]), n, calls[1..]);
      }
    }
  }

  /** Requests below 2^32 bytes never lose a block. */
  predicate SmallRequests(calls: seq<Call>) {
    forall c :: c in calls && c.Malloc? ==> c.size < 0x1_0000_0000
  }

  lemma SmallStepSound(h: Heap, n: nat, c: Call)
    requires 1 <= n < U16 && Inv(h, n) && Sound(h, n) && (c.Malloc? ==> c.size < U32)
    ensures Sound(Step(h, n, c), n)
    ensures c.Malloc? || Tiles(All(h), n) ==> Tiles(All(Step(h, n, c)), n)
  {
    hide Step, Tiles, All, Inv;
    StepSound(h, n, c);
  }

  /** From the first request on, free and used blocks tile the arena exactly; it is
      therefore never initialised a second time. */
  lemma {:induction false} RunTiles(h: Heap, n: nat, calls: seq<Call>)
    requires 1 <= n < U16 && Inv(h, n) && Sound(h, n) && SmallRequests(calls)
    ensures Sound(Run(h, n, calls), n)
    ensures Tiles(All(h), n) || (exists c :: c in calls && c.Malloc?) ==>
              Tiles(All(Run(h, n, calls)), n) && Initialized(Run(h, n, calls), n) == Run(h, n, calls)
    decreases |calls|
  {
    hide Inv, Step, Tiles, All, Initialized, Sound;
    if calls == [] {
      SoundInitialized(h, n);
    } else {
      assert calls[0] in calls;
      StepKeeps(h, n, calls[0]);
      SmallStepSound(h, n, calls[0]);
      assert forall c :: c in calls[1..] ==> c in calls;
      RunTiles(Step(h, n, calls[0]), n, calls[1..]);
      if Sound(h, n) && exists c :: c in calls && c.Malloc? {
        var c :| c in calls && c.Malloc?;
        assert c == calls[0] || c in calls[1..];
      }
    }
  }

  // ----- bytes

  predicate FreeByte(h: Heap, x: int) {
    exists b :: b in multiset(h.freed) && In(x, b)
  }

  /** An allocation takes exactly its bytes from the free ones and leaves the other live
      allocations alone. */
  lemma EmallocTakes(h: Heap, n: nat, size: nat)
    requires 1 <= n < U16 && Inv(h, n) && Emalloc(h, n, size).pointer.Some?
    ensures var (i, r) := (Initialized(h, n), Emalloc(h, n, size).heap);
            var u := Block(Emalloc(h, n, size).pointer.value, size);
            && multiset(r.used) == multiset(i.used) + multiset{u}
            && forall x :: FreeByte(r, x) <==> FreeByte(i, x) && !In(x, u)
  {
    hide Emalloc, Initialized, SizeOrdered, Placed, Covered, Loses;
    InitializedInv(h, n);
    var b := EmallocEffect(h, n, size);
    var i, r := Initialized(h, n), Emalloc(h, n, size).heap;
    assert multiset(i.freed) <= All(i);
    SubPlaced(All(i), multiset(i.freed), n);
    GrantTakes(i, r, b, size, n);
    FreeBytes(i);
    FreeBytes(r);
  }

  lemma FreeBytes(h: Heap)
    ensures forall x :: FreeByte(h, x) <==> Covered(multiset(h.freed), x)
  {
  }

  lemma GrantTakes(i: Heap, r: Heap, b: Block, size: nat, n: nat)
    requires Granted(i, r, b, size) && Placed(multiset(i.freed), n)
    ensures forall x :: Covered(multiset(r.freed), x) <==> Covered(multiset(i.freed), x) && !In(x, Block(b.index, size))
  {
    hide Placed, Covered;
    var f, u := multiset(i.freed), Block(b.index, size);
    DropPlaced(f, b, n);
    forall x | In(x, b)
      ensures Covered(f, x)
    {
      assert Covered(f, x) by { assert b in f && In(x, b); CoveredBy(f, b, x); }
    }
    if size < b.size {
      var tail := Block(b.index + size, b.size - size);
      FreedAdds(f - multiset{b}, tail);
      assert forall x :: In(x, b) <==> In(x, u) || In(x, tail);
      assert forall x :: !(In(x, u) && In(x, tail));
    }
  }

  lemma CoveredBy(m: multiset<Block>, b: Block, x: int)
    requires b in m && In(x, b)
    ensures Covered(m, x)
  {
  }

  /** Freeing what was just allocated gives back the same free bytes and live allocations. */
  lemma AllocateThenFree(h: Heap, n: nat, size: nat)
    requires 1 <= n < U16 && Inv(h, n) && Emalloc(h, n, size).pointer.Some?
    ensures var (i, a) := (Initialized(h, n), Emalloc(h, n, size));
            var f := Efree(a.heap, n, a.pointer.value);
            multiset(f.used) == multiset(i.used) && forall x :: FreeByte(f, x) <==> FreeByte(i, x)
  {
    hide Emalloc, Efree, Initialized, SizeOrdered, Placed, Covered, Inv, FreeByte, Granted;
    var i, a := Initialized(h, n), Emalloc(h, n, size);
    var u := Block(a.pointer.value, size);
    InitializedInv(h, n);
    EmallocKeeps(h, n, size);
    EmallocTakes(h, n, size);
    assert u in multiset(a.heap.used);
    EfreeKeeps(a.heap, n, u);
    FreeBytes(a.heap);
    FreeBytes(Efree(a.heap, n, u.index));
    FreeBytes(i);
    var b := EmallocEffect(h, n, size);
    GrantedBytes(i, a.heap, b, size);
    assert multiset(i.used) + multiset{u} - multiset{u} == multiset(i.used);
  }

  lemma GrantedBytes(i: Heap, r: Heap, b: Block, size: nat)
    requires Granted(i, r, b, size)
    ensures forall x :: In(x, Block(b.index, size)) ==> FreeByte(i, x)
  {
    assert b in multiset(i.freed);
    forall x | In(x, Block(b.index, size))
      ensures FreeByte(i, x)
    {
      assert In(x, b);
    }
  }

  // ----- fragmentation

  /** Whether a call frees a block with a free one right after it. */
  predicate Fragments(h: Heap, c: Call) {
    c.Free? && c.pointer.Some? && exists u :: u in h.used && u.index == c.pointer.value % U32 && FreeAfter(h, u)
  }

  ghost predicate NeverFragments(h: Heap, n: nat, calls: seq<Call>)
    decreases |calls|
  {
    calls == [] || (!Fragments(h, calls[0]) && NeverFragments(Step(h, n, calls[0]), n, calls[1..]))
  }

  ghost predicate AlwaysCoalesced(h: Heap, n: nat, calls: seq<Call>)
    decreases |calls|
  {
    Coalesced(multiset(h.freed)) && (calls == [] || AlwaysCoalesced(Step(h, n, calls[0]), n, calls[1..]))
  }

  lemma StepCoalesced(h: Heap, n: nat, c: Call)
    requires 1 <= n < U16 && Inv(h, n) && Coalesced(multiset(h.freed))
    ensures Coalesced(multiset(Step(h, n, c).freed)) <==> !Fragments(h, c)
  {
    hide Emalloc, Efree, Placed, Coalesced, FreeAfter;
    match c
    case Malloc(size) => EmallocKeepsCoalesced(h, n, size);
    case Free(None) =>
    case Free(Some(distance)) =>
      if u :| u in h.used && u.index == distance % U32 {
        EfreeCoalesces(h, n, u);
        forall v | v in h.used && v.index == distance % U32
          ensures v == u
        {
          UsedUnique(h, n, u, v);
        }
      } else {
        EfreeUnknown(h, n, distance % U32);
      }
  }

  /** Over any history, the free list stays coalesced throughout exactly if no call frees a
      block with a free one right after it. */
  lemma {:induction false} RunCoalesced(h: Heap, n: nat, calls: seq<Call>)
    requires 1 <= n < U16 && Inv(h, n) && Coalesced(multiset(h.freed))
    ensures AlwaysCoalesced(h, n, calls) <==> NeverFragments(h, n, calls)
    decreases |calls|
  {
    hide Inv, Step, Fragments, Coalesced;
    if calls != [] {
      StepKeeps(h, n, calls[0]);
      StepCoalesced(h, n, calls[0]);
      if !Fragments(h, calls[0]) {
        RunCoalesced(Step(h, n, calls[0]), n, calls[1..]);
      }
    }
  }

  /** Whether size bytes from x on are all free. */
  ghost predicate FreeStretch(h: Heap, x: int, size: nat) {
    forall y :: x <= y < x + size ==> FreeByte(h, y)
  }

  /** A stretch of free bytes in a coalesced heap lies in one free block. */
  lemma {:induction false} StretchInBlock(h: Heap, n: nat, x: int, size: nat) returns (b: Block)
    requires Placed(All(h), n) && Coalesced(multiset(h.freed)) && size >= 1 && FreeStretch(h, x, size)
    ensures b in h.freed && b.index <= x && x + size <= b.index + b.size
    decreases size
  {
    assert FreeByte(h, x + size - 1);
    if size == 1 {
      b :| b in multiset(h.freed) && In(x, b);
    } else {
      b := StretchInBlock(h, n, x, size - 1);
      var c :| c in multiset(h.freed) && In(x + size - 1, c);
      assert b in multiset(h.freed) && b in All(h) && c in All(h);
      if b != c {
        assert Apart(b, c);
      }
    }
  }

  /** While the free list is coalesced, fragmentation costs nothing: a request is served
      exactly if as many consecutive bytes are free. */
  lemma ServedFromStretch(h: Heap, n: nat, size: nat)
    requires 1 <= n < U16 && Inv(h, n) && size >= 1
    requires Coalesced(multiset(Initialized(h, n).freed))
    ensures Emalloc(h, n, size).pointer.Some? <==> exists x :: FreeStretch(Initialized(h, n), x, size)
  {
    hide Emalloc, Initialized, Placed, Coalesced, SizeOrdered, FreeByte;
    var i := Initialized(h, n);
    InitializedInv(h, n);
    EmallocResult(h, n, size);
    if x :| FreeStretch(i, x, size) {
      var b := StretchInBlock(i, n, x, size);
    }
    if b :| b in i.freed && size <= b.size {
      BlockIsStretch(i, b, size);
    }
  }

  lemma BlockIsStretch(h: Heap, b: Block, size: nat)
    requires b in h.freed && size <= b.size
    ensures FreeStretch(h, b.index, size)
  {
    assert b in multiset(h.freed);
    forall y | b.index <= y < b.index + size
      ensures FreeByte(h, y)
    {
      assert In(y, b);
    }
  }

  // ----- where the allocator falls short

  /** On a fresh arena, a request that fits succeeds exactly if the arena's size fits the
      16-bit field: with the default size of 65536 bytes no request ever does. */
  lemma FirstRequest(n: nat, size: nat)
    requires 1 <= n <= U16 && 1 <= size <= n
    ensures Emalloc(FRESH_HEAP, n, size).pointer.Some? <==> n < 65536
  {
    hide Emalloc, Push, Inv, SizeOrdered;
    FreshInv(n);
    EmallocResult(FRESH_HEAP, n, size);
    OneBlock(Block(0, Narrow(n)));
    assert Initialized(FRESH_HEAP, n).freed[0] == Block(0, Narrow(n));
    assert Block(0, Narrow(n)) in Initialized(FRESH_HEAP, n).freed;
  }

  lemma DefaultArenaNeverServes(calls: seq<Call>, size: nat)
    ensures Emalloc(Run(FRESH_HEAP, 65536, calls), 65536, size).pointer == None
  {
    FreshInv(U16);
    RunKeeps(FRESH_HEAP, U16, calls);
    EmallocFails(Run(FRESH_HEAP, U16, calls), size);
  }

  lemma FirstGrant(n: nat, size: nat)
    requires 1 <= size < n < U16
    ensures var a := Emalloc(FRESH_HEAP, n, size);
            && a.pointer == Some(0) && Inv(a.heap, n)
            && multiset(a.heap.used) == multiset{Block(0, size)}
            && multiset(a.heap.freed) == multiset{Block(size, n - size)}
  {
    hide Emalloc, SizeOrdered, Placed;
    FreshInv(n);
    FirstRequest(n, size);
    InitializedInv(FRESH_HEAP, n);
    EmallocKeeps(FRESH_HEAP, n, size);
    var b := EmallocEffect(FRESH_HEAP, n, size);
    assert b == Block(0, n);
    assert multiset([Block(0, n)]) - multiset{b} == multiset{};
  }

  /** A freed block joins only a free block before it: after one allocation is freed again,
      the whole arena is free and yet too fragmented for a request of its full size. */
  lemma FreeButFragmented(n: nat, size: nat)
    requires 1 <= size < n < U16
    ensures var h := Run(FRESH_HEAP, n, [Malloc(size), Free(Some(0))]);
            h.used == [] && (forall x :: 0 <= x < n ==> FreeByte(h, x)) && Emalloc(h, n, n).pointer == None
  {
    hide Emalloc, Efree, SizeOrdered, Placed, Covered, FreeByte;
    FirstGrant(n, size);
    var h1, u := Emalloc(FRESH_HEAP, n, size).heap, Block(0, size);
    var h2 := Efree(h1, n, 0);
    assert [Malloc(size), Free(Some(0))][1..] == [Free(Some(0))] && [Free(Some(0))][1..] == [];
    assert Run(FRESH_HEAP, n, [Malloc(size), Free(Some(0))]) == Run(h1, n, [Free(Some(0))]) == Run(h2, n, []) == h2;
    assert u in multiset(h1.used);
    EfreeKeeps(h1, n, u);
    assert |h2.used| == |multiset(h2.used)| == 0;
    FreshInv(n);
    InitializedInv(FRESH_HEAP, n);
    EmallocTakes(FRESH_HEAP, n, size);
    AllocateThenFree(FRESH_HEAP, n, size);
    forall x | 0 <= x < n
      ensures FreeByte(h2, x)
    {
      assert FreeByte(Heap([Block(0, n)], []), x) by { OneFree(n, x); }
    }
    EfreeReturns(h1, n, u);
    SmallPieces(h1, h2, n, size);
    EmallocResult(h2, n, n);
  }

  lemma OneFree(n: nat, x: int)
    requires 0 <= x < n
    ensures FreeByte(Heap([Block(0, n)], []), x)
  {
    assert [Block(0, n)][0] in multiset([Block(0, n)]) && In(x, Block(0, n));
  }

  lemma SmallPieces(h1: Heap, h2: Heap, n: nat, size: nat)
    requires 1 <= size < n && Returned(h1, h2, Block(0, size)) && multiset(h1.freed) == multiset{Block(size, n - size)}
    ensures h2 != FRESH_HEAP && forall b :: b in h2.freed ==> b.size < n
  {
    assert forall p :: p in h1.freed ==> p in multiset(h1.freed);
    assert multiset(h2.freed) == multiset{Block(size, n - size), Block(0, size)};
    assert forall b :: b in h2.freed ==> b in multiset(h2.freed);
    assert |multiset(h2.freed)| == 2;
  }

  /** A request of 2^32 bytes or more can destroy the only block there is. */
  lemma HugeRequestLosesArena()
    ensures Emalloc(Heap([Block(0, 5)], []), 5, 0x1_0000_0001) == Allocation(Heap([], []), None)
  {
    assert FirstMatch([Block(0, 5)], FitsSize(1)) == 0;
    assert Rest([Block(0, 5)], FitsSize(1)) == [];
  }
}
