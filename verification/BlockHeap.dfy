/** The allocator's two block lists as values: what allocating and freeing do to them,
    and what every history of calls keeps. */
module BlockHeap {
  import opened Optional
  import opened MemoryHeap

  const U16 := 0x1_0000
  const U32 := 0x1_0000_0000

  /** The 16-bit fields of a node keep a value modulo 2^16. */
  function Narrow(x: nat): nat { x % U16 }

  datatype Heap = Heap(freed: seq<Block>, used: seq<Block>)

  datatype Allocation = Allocation(heap: Heap, pointer: Option<nat>)

  const FRESH_HEAP := Heap([], [])

  // ----- the operations

  /** As long as both lists are empty, the whole arena of n bytes becomes one free block. */
  function Initialized(h: Heap, n: nat): Heap {
    if h == FRESH_HEAP then Heap(Push([], Block(0, Narrow(n))), []) else h
  }

  /** The search reads only the low 32 bits of the size; the comparison after it reads all. */
  function Emalloc(h: Heap, n: nat, size: nat): Allocation {
    var h := Initialized(h, n);
    var fits := FitsSize(size % U32);
    if size < 1 || Popped(h.freed, fits) == None then Allocation(h, None)
    else
      var b, rest := Popped(h.freed, fits).value, Rest(h.freed, fits);
      if b.size < size || b.index >= n then Allocation(Heap(rest, h.used), None)
      else if b.size == size then Allocation(Heap(rest, Push(h.used, b)), Some(b.index))
      else
        var tail := Block(Narrow(b.index + size), Narrow(b.size - size));
        Allocation(Heap(Push(rest, tail), Push(h.used, Block(b.index, Narrow(size)))), Some(b.index))
  }

  function Efree(h: Heap, n: nat, index: nat): Heap {
    if index >= n || Popped(h.used, StartsAt(index)) == None then h
    else
      var u, used := Popped(h.used, StartsAt(index)).value, Rest(h.used, StartsAt(index));
      match Popped(h.freed, EndsAt(index))
      case None => Heap(Push(h.freed, u), used)
      case Some(p) => Heap(Push(Rest(h.freed, EndsAt(index)), Block(p.index, Narrow(p.size + u.size))), used)
  }

  // ----- the placement of the blocks

  function All(h: Heap): multiset<Block> { multiset(h.freed) + multiset(h.used) }

  predicate Apart(b: Block, c: Block) {
    b.index + b.size <= c.index || c.index + c.size <= b.index
  }

  predicate In(x: int, b: Block) { b.index <= x < b.index + b.size }

  /** No block occurs twice, is empty, leaves the arena or overlaps another one. */
  ghost predicate Placed(m: multiset<Block>, n: nat) {
    && (forall b :: b in m ==> m[b] == 1 && b.size >= 1 && b.index + b.size <= n)
    && (forall b, c :: b in m && c in m && b != c ==> Apart(b, c))
  }

  ghost predicate Covered(m: multiset<Block>, x: int) {
    exists b :: b in m && In(x, b)
  }

  /** The blocks leave no gap in the arena. */
  ghost predicate Tiles(m: multiset<Block>, n: nat) {
    forall x :: 0 <= x < n ==> Covered(m, x)
  }

  lemma DropPlaced(m: multiset<Block>, b: Block, n: nat)
    requires Placed(m, n) && b in m
    ensures Placed(m - multiset{b}, n) && b !in m - multiset{b}
    ensures forall x :: In(x, b) ==> !Covered(m - multiset{b}, x)
    ensures forall x :: !In(x, b) ==> Covered(m - multiset{b}, x) == Covered(m, x)
  {
    var d := m - multiset{b};
    assert forall c :: c in d ==> c in m && c != b && d[c] == m[c];
    assert forall c :: c in d ==> Apart(b, c);
    forall x | !In(x, b)
      ensures Covered(d, x) == Covered(m, x)
    {
      if c :| c in m && In(x, c) {
        assert c in d;
      }
    }
  }

  lemma AddPlaced(m: multiset<Block>, b: Block, n: nat)
    requires Placed(m, n) && b.size >= 1 && b.index + b.size <= n
    requires forall x :: In(x, b) ==> !Covered(m, x)
    ensures Placed(m + multiset{b}, n)
    ensures forall x :: Covered(m + multiset{b}, x) <==> Covered(m, x) || In(x, b)
  {
    var a := m + multiset{b};
    forall c | c in m
      ensures Apart(b, c) && c != b
    {
      if !Apart(b, c) || c == b {
        var x := if b.index < c.index then c.index else b.index;
        assert In(x, b) && In(x, c);
        assert Covered(m, x);
      }
    }
    assert forall c :: c in a <==> c in m || c == b;
    forall x
      ensures Covered(a, x) <==> Covered(m, x) || In(x, b)
    {
      assert b in a;
      if Covered(m, x) {
        var c :| c in m && In(x, c);
        assert c in a;
      }
    }
  }

  // ----- the invariant

  /** What every reachable heap satisfies. An arena of 2^16 bytes is announced with the
      truncated size 0, so that nothing can ever be allocated from it. */
  ghost predicate Inv(h: Heap, n: nat) {
    && SizeOrdered(h.freed) && SizeOrdered(h.used)
    && if n == U16 then h.used == [] && (h.freed == [] || h.freed == [Block(0, 0)])
       else 1 <= n < U16 && Placed(All(h), n)
  }

  lemma FreshInv(n: nat)
    requires 1 <= n <= U16
    ensures Inv(FRESH_HEAP, n)
  {
  }

  lemma OneBlock(b: Block)
    ensures Push([], b) == [b] && SizeOrdered([b]) && multiset([b]) == multiset{b}
  {
    assert Push([], b)[0] == b;
  }

  lemma InitializedInv(h: Heap, n: nat)
    requires 1 <= n <= U16 && Inv(h, n)
    ensures Inv(Initialized(h, n), n)
    ensures h == FRESH_HEAP && n < U16 ==>
              Initialized(h, n) == Heap([Block(0, n)], []) && Tiles(All(Initialized(h, n)), n)
  {
    hide Push, SizeOrdered, Placed, Tiles;
    OneBlock(Block(0, Narrow(n)));
    if h == FRESH_HEAP && n < U16 {
      assert All(Heap([Block(0, n)], [])) == multiset{Block(0, n)};
      OneTiles(n);
    }
  }

  lemma OneTiles(n: nat)
    requires n >= 1
    ensures Placed(multiset{Block(0, n)}, n) && Tiles(multiset{Block(0, n)}, n)
  {
    var m := multiset{Block(0, n)};
    assert Block(0, n) in m;
    forall x | 0 <= x < n
      ensures Covered(m, x)
    {
      assert In(x, Block(0, n));
    }
  }

  /** Adding two adjacent pieces of b in its place covers the same bytes. */
  lemma SplitPlaced(m: multiset<Block>, b: Block, size: nat, n: nat)
    requires Placed(m, n) && b in m && 1 <= size < b.size
    ensures var s := m - multiset{b} + multiset{Block(b.index + size, b.size - size)} + multiset{Block(b.index, size)};
            Placed(s, n) && forall x :: Covered(s, x) <==> Covered(m, x)
  {
    var d, tail, head := m - multiset{b}, Block(b.index + size, b.size - size), Block(b.index, size);
    DropPlaced(m, b, n);
    assert forall x :: In(x, tail) || In(x, head) <==> In(x, b);
    AddPlaced(d, tail, n);
    AddPlaced(d + multiset{tail}, head, n);
    assert forall x :: In(x, b) ==> Covered(m, x);
  }

  /** Replacing two adjacent blocks by their union covers the same bytes. */
  lemma JoinPlaced(m: multiset<Block>, p: Block, u: Block, n: nat)
    requires Placed(m, n) && p in m && u in m && p.index + p.size == u.index
    ensures var j := m - multiset{p} - multiset{u} + multiset{Block(p.index, p.size + u.size)};
            Placed(j, n) && forall x :: Covered(j, x) <==> Covered(m, x)
  {
    var d, joined := m - multiset{p} - multiset{u}, Block(p.index, p.size + u.size);
    assert p != u;
    DropPlaced(m, p, n);
    DropPlaced(m - multiset{p}, u, n);
    assert forall x :: In(x, p) || In(x, u) <==> In(x, joined);
    AddPlaced(d, joined, n);
    assert forall x :: In(x, p) || In(x, u) ==> Covered(m, x);
  }

  // ----- allocating

  /** The request wraps around to a small one that some free block satisfies: that block
      is taken off the free list and then found too small. */
  predicate Loses(h: Heap, n: nat, size: nat) {
    size >= U32 && exists b :: b in Initialized(h, n).freed && size % U32 <= b.size
  }

  /** The result is NULL exactly when the size is 0 or no free block is large enough;
      otherwise it is the start of a smallest sufficient free block. */
  lemma EmallocResult(h: Heap, n: nat, size: nat)
    requires 1 <= n <= U16 && Inv(h, n)
    ensures var (freed, p) := (Initialized(h, n).freed, Emalloc(h, n, size).pointer);
            && (p == None <==> size == 0 || forall b :: b in freed ==> b.size < size)
            && (p.Some? ==> exists b :: b in freed && b.index == p.value && size <= b.size
                              && forall c :: c in freed && size <= c.size ==> b.size <= c.size)
  {
    hide Push, Rest, Popped, SizeOrdered, Inv, Initialized;
    InitializedInv(h, n);
    var freed := Initialized(h, n).freed;
    InvSizes(Initialized(h, n), n);
    if size < U32 {
      assert size % U32 == size;
      PopFinds(freed, FitsSize(size));
    } else {
      PopFinds(freed, FitsSize(size % U32));
    }
  }

  lemma InvSizes(h: Heap, n: nat)
    requires 1 <= n <= U16 && Inv(h, n)
    ensures SizeOrdered(h.freed) && SizeOrdered(h.used)
    ensures forall b :: b in h.freed || b in h.used ==> b.size < U16 && b.index < n && b.index + b.size <= n
  {
    if n < U16 {
      assert forall b :: b in h.freed || b in h.used ==> b in All(h);
    }
  }

  /** Between i and r, the front of the free block b has become a used block of the given size. */
  ghost predicate Granted(i: Heap, r: Heap, b: Block, size: nat) {
    && b in i.freed && 1 <= size <= b.size
    && multiset(r.used) == multiset(i.used) + multiset{Block(b.index, size)}
    && multiset(r.freed) == if size == b.size then multiset(i.freed) - multiset{b}
                            else multiset(i.freed) - multiset{b} + multiset{Block(b.index + size, b.size - size)}
  }

  /** Between i and r, the free block b has disappeared. */
  ghost predicate Dropped(i: Heap, r: Heap, b: Block) {
    b in i.freed && r.used == i.used && multiset(r.freed) == multiset(i.freed) - multiset{b}
  }

  lemma GrantByLists(i: Heap, rest: seq<Block>, b: Block, size: nat)
    requires SizeOrdered(i.used) && SizeOrdered(rest) && b in i.freed && 1 <= size <= b.size
    requires multiset(i.freed) == multiset(rest) + multiset{b}
    ensures var r := Heap(if size == b.size then rest else Push(rest, Block(b.index + size, b.size - size)),
                          Push(i.used, Block(b.index, size)));
            Granted(i, r, b, size) && SizeOrdered(r.freed) && SizeOrdered(r.used)
  {
    hide Push, SizeOrdered;
    PushAdds(i.used, Block(b.index, size));
    if size < b.size {
      PushAdds(rest, Block(b.index + size, b.size - size));
    }
  }

  /** The outcome of a request from an initialised heap, without any narrowing. */
  function Carved(i: Heap, size: nat): Allocation {
    var found, rest := Popped(i.freed, FitsSize(size % U32)), Rest(i.freed, FitsSize(size % U32));
    if found == None || found.value.size < size then Allocation(Heap(rest, i.used), None)
    else
      var b := found.value;
      Allocation(Heap(if size == b.size then rest else Push(rest, Block(b.index + size, b.size - size)),
                      Push(i.used, Block(b.index, size))), Some(b.index))
  }

  /** No 16-bit field ever truncates, and no index check ever fails. */
  lemma EmallocCases(h: Heap, n: nat, size: nat)
    requires 1 <= n <= U16 && Inv(Initialized(h, n), n)
    ensures Emalloc(h, n, size) ==
            if size < 1 then Allocation(Initialized(h, n), None) else Carved(Initialized(h, n), size)
  {
    hide Push, Rest, Popped, Initialized, Inv;
    var i, fits := Initialized(h, n), FitsSize(size % U32);
    InvSizes(i, n);
    RestMembers(i.freed, fits);
  }

  lemma RestMembers(l: seq<Block>, c: Condition)
    ensures forall b :: b in Rest(l, c) ==> b in l
    ensures Popped(l, c).Some? ==> Popped(l, c).value in l
    ensures Popped(l, c) == None ==> Rest(l, c) == l
  {
    PopRemoves(l, c);
    assert forall b :: b in Rest(l, c) ==> b in multiset(l);
  }

  /** What the search for a free block yields. */
  lemma Searched(h: Heap, n: nat, size: nat, i: Heap, found: Option<Block>, rest: seq<Block>)
    requires i == Initialized(h, n) && SizeOrdered(i.freed)
    requires found == Popped(i.freed, FitsSize(size % U32)) && rest == Rest(i.freed, FitsSize(size % U32))
    ensures SizeOrdered(rest) && (Loses(h, n, size) <==> size >= U32 && found.Some?)
    ensures found.Some? ==> found.value in i.freed && multiset(i.freed) == multiset(rest) + multiset{found.value}
    ensures found.Some? ==> Dropped(i, Heap(rest, i.used), found.value)
    ensures found.Some? && size < U32 ==> size <= found.value.size
  {
    hide Rest, Popped, SizeOrdered, Initialized;
    PopFinds(i.freed, FitsSize(size % U32));
    PopRemoves(i.freed, FitsSize(size % U32));
  }

  /** How a request changes the two lists, with the free block b that the search extracts. */
  lemma EmallocEffect(h: Heap, n: nat, size: nat) returns (b: Block)
    requires 1 <= n <= U16 && Inv(h, n)
    ensures var (i, r, p) := (Initialized(h, n), Emalloc(h, n, size).heap, Emalloc(h, n, size).pointer);
            && SizeOrdered(r.freed) && SizeOrdered(r.used)
            && (p == None && !Loses(h, n, size) ==> r == i)
            && (Loses(h, n, size) ==> p == None && Dropped(i, r, b))
            && (p.Some? ==> p == Some(b.index) && Granted(i, r, b, size))
  {
    hide Push, Rest, Popped, SizeOrdered, Inv, Initialized, Granted, Dropped, Emalloc, Loses;
    InitializedInv(h, n);
    var i, fits := Initialized(h, n), FitsSize(size % U32);
    var found, rest := Popped(i.freed, fits), Rest(i.freed, fits);
    b := if found.Some? then found.value else Block(0, 0);
    InvSizes(i, n);
    Searched(h, n, size, i, found, rest);
    RestMembers(i.freed, fits);
    EmallocCases(h, n, size);
    if found.Some? && 1 <= size <= b.size {
      GrantByLists(i, rest, b, size);
    }
  }

  lemma GrantKeeps(i: Heap, r: Heap, b: Block, size: nat, n: nat)
    requires Granted(i, r, b, size) && Placed(All(i), n)
    ensures Placed(All(r), n) && forall x :: Covered(All(r), x) <==> Covered(All(i), x)
  {
    hide Placed, Covered;
    var m := All(i);
    assert b in m;
    var f, u := multiset(i.freed), multiset(i.used);
    var tail, head := Block(b.index + size, b.size - size), Block(b.index, size);
    if size < b.size {
      SplitPlaced(m, b, size, n);
      SplitMultisets(f, u, b, tail, head);
    } else {
      MovedMultisets(f, u, b);
      assert head == b;
    }
  }

  lemma SplitMultisets(f: multiset<Block>, u: multiset<Block>, b: Block, tail: Block, head: Block)
    requires b in f
    ensures (f - multiset{b} + multiset{tail}) + (u + multiset{head})
         == f + u - multiset{b} + multiset{tail} + multiset{head}
  {
  }

  lemma MovedMultisets(f: multiset<Block>, u: multiset<Block>, b: Block)
    requires b in f
    ensures (f - multiset{b}) + (u + multiset{b}) == f + u
  {
  }

  lemma DropKeeps(i: Heap, r: Heap, b: Block, n: nat)
    requires Dropped(i, r, b) && Placed(All(i), n)
    ensures Placed(All(r), n) && b in All(i) && forall x :: In(x, b) ==> !Covered(All(r), x)
  {
    hide Placed, Covered;
    assert All(r) == All(i) - multiset{b};
    DropPlaced(All(i), b, n);
  }

  /** An arena of 2^16 bytes serves no request at all. */
  lemma EmallocFails(h: Heap, size: nat)
    requires Inv(h, U16)
    ensures Emalloc(h, U16, size).pointer == None && Inv(Emalloc(h, U16, size).heap, U16)
  {
    hide Emalloc, Initialized, SizeOrdered;
    InitializedInv(h, U16);
    EmallocResult(h, U16, size);
    var b := EmallocEffect(h, U16, size);
    if Loses(h, U16, size) {
      var freed := Emalloc(h, U16, size).heap.freed;
      assert |multiset(freed)| == 0;
      assert |freed| == |multiset(freed)|;
    }
  }

  /** A request keeps the invariant and, unless it loses a block, the bytes covered. */
  lemma EmallocKeeps(h: Heap, n: nat, size: nat)
    requires 1 <= n < U16 && Inv(h, n)
    ensures Inv(Emalloc(h, n, size).heap, n)
    ensures !Loses(h, n, size) ==>
              forall x :: Covered(All(Emalloc(h, n, size).heap), x) <==> Covered(All(Initialized(h, n)), x)
  {
    hide Emalloc, Initialized, Loses, SizeOrdered, Placed, Covered, Granted, Dropped, All;
    InitializedInv(h, n);
    var b := EmallocEffect(h, n, size);
    var i, r := Initialized(h, n), Emalloc(h, n, size).heap;
    if Loses(h, n, size) {
      DropKeeps(i, r, b, n);
    } else if Emalloc(h, n, size).pointer.Some? {
      GrantKeeps(i, r, b, size, n);
    }
  }

  /** A heap that nothing was taken from yet, or whose blocks tile the arena. */
  ghost predicate Sound(h: Heap, n: nat) {
    h == FRESH_HEAP || Tiles(All(h), n)
  }

  lemma SoundInitialized(h: Heap, n: nat)
    requires 1 <= n < U16 && Inv(h, n) && Sound(h, n)
    ensures Tiles(All(Initialized(h, n)), n)
    ensures Tiles(All(h), n) ==> Initialized(h, n) == h
  {
    InitializedInv(h, n);
    if h == FRESH_HEAP {
      assert !Covered(All(h), 0);
    }
  }

  /** After a request, the blocks tile the arena exactly if it did not lose one. Requests
      below 2^32 never do. */
  lemma EmallocTiles(h: Heap, n: nat, size: nat)
    requires 1 <= n < U16 && Inv(h, n) && Sound(h, n)
    ensures Tiles(All(Emalloc(h, n, size).heap), n) <==> !Loses(h, n, size)
    ensures size < 0x1_0000_0000 ==> !Loses(h, n, size)
  {
    hide Emalloc, Initialized, Placed, Covered, Granted, All;
    SoundInitialized(h, n);
    EmallocKeeps(h, n, size);
    if Loses(h, n, size) {
      InitializedInv(h, n);
      var b := EmallocEffect(h, n, size);
      DropKeeps(Initialized(h, n), Emalloc(h, n, size).heap, b, n);
      DroppedByte(Initialized(h, n), b, n);
    }
  }

  lemma DroppedByte(h: Heap, b: Block, n: nat)
    requires Placed(All(h), n) && b in h.freed
    ensures In(b.index, b) && b.index < n
  {
    assert b in All(h);
  }

  // ----- freeing

  /** Between h and r, the used block u went to the free list, joined with the free block
      that ends where u starts, if there is one. */
  ghost predicate Returned(h: Heap, r: Heap, u: Block) {
    && u in h.used && multiset(r.used) == multiset(h.used) - multiset{u}
    && ((multiset(r.freed) == multiset(h.freed) + multiset{u}
         && forall p :: p in h.freed ==> p.index + p.size != u.index)
        || exists p :: p in h.freed && p.index + p.size == u.index && Joined(h, r, p, u))
  }

  ghost predicate Joined(h: Heap, r: Heap, p: Block, u: Block) {
    multiset(r.freed) == multiset(h.freed) - multiset{p} + multiset{Block(p.index, p.size + u.size)}
  }

  lemma UsedUnique(h: Heap, n: nat, u: Block, v: Block)
    requires Placed(All(h), n) && u in h.used && v in h.used && u.index == v.index
    ensures u == v
  {
    assert u in All(h) && v in All(h);
  }

  lemma TwoFit(h: Heap, n: nat, p: Block, u: Block)
    requires Placed(All(h), n) && p in h.freed && u in h.used && p.index + p.size == u.index
    ensures p.size + u.size <= n
  {
    assert u in All(h) && p in All(h);
  }

  /** What the search for the used block finds. */
  lemma UsedFound(h: Heap, n: nat, u: Block)
    requires 1 <= n < U16 && Inv(h, n) && u in h.used
    ensures u.index < n && Popped(h.used, StartsAt(u.index)) == Some(u)
    ensures multiset(Rest(h.used, StartsAt(u.index))) == multiset(h.used) - multiset{u}
    ensures SizeOrdered(Rest(h.used, StartsAt(u.index)))
  {
    hide Rest, Popped, SizeOrdered, Placed;
    InvSizes(h, n);
    PopFinds(h.used, StartsAt(u.index));
    PopRemoves(h.used, StartsAt(u.index));
    UsedUnique(h, n, u, Popped(h.used, StartsAt(u.index)).value);
  }

  /** What the search for a free block to join with finds. */
  lemma JoinFound(h: Heap, n: nat, u: Block)
    requires 1 <= n < U16 && Inv(h, n) && u in h.used
    ensures var (found, rest) := (Popped(h.freed, EndsAt(u.index)), Rest(h.freed, EndsAt(u.index)));
            && SizeOrdered(rest)
            && (found == None ==> forall p :: p in h.freed ==> p.index + p.size != u.index)
            && (found.Some? ==> found.value in h.freed && multiset(rest) == multiset(h.freed) - multiset{found.value})
            && (found.Some? ==> found.value.index + found.value.size == u.index && found.value.size + u.size < U16)
  {
    hide Rest, Popped, SizeOrdered, Placed;
    PopFinds(h.freed, EndsAt(u.index));
    PopRemoves(h.freed, EndsAt(u.index));
    if Popped(h.freed, EndsAt(u.index)).Some? {
      TwoFit(h, n, Popped(h.freed, EndsAt(u.index)).value, u);
    }
  }

  lemma EfreeCases(h: Heap, n: nat, u: Block, found: Option<Block>, rest: seq<Block>)
    requires u.index < n && Popped(h.used, StartsAt(u.index)) == Some(u)
    requires found == Popped(h.freed, EndsAt(u.index)) && rest == Rest(h.freed, EndsAt(u.index))
    requires found.Some? ==> found.value.size + u.size < U16
    ensures Efree(h, n, u.index) ==
            Heap(if found == None then Push(h.freed, u)
                 else Push(rest, Block(found.value.index, found.value.size + u.size)),
                 Rest(h.used, StartsAt(u.index)))
  {
    hide Push, Rest, Popped;
  }

  /** Freeing a live pointer returns exactly its block. */
  lemma EfreeReturns(h: Heap, n: nat, u: Block)
    requires 1 <= n < U16 && Inv(h, n) && u in h.used
    ensures Returned(h, Efree(h, n, u.index), u)
    ensures SizeOrdered(Efree(h, n, u.index).freed) && SizeOrdered(Efree(h, n, u.index).used)
  {
    hide Push, Rest, Popped, SizeOrdered, Inv, Efree, Returned;
    InvSizes(h, n);
    UsedFound(h, n, u);
    JoinFound(h, n, u);
    var found, rest := Popped(h.freed, EndsAt(u.index)), Rest(h.freed, EndsAt(u.index));
    EfreeCases(h, n, u, found, rest);
    if found.Some? {
      ReturnedJoined(h, Efree(h, n, u.index), found.value, u, rest);
    } else {
      ReturnedAlone(h, Efree(h, n, u.index), u);
    }
  }

  lemma ReturnedJoined(h: Heap, r: Heap, p: Block, u: Block, rest: seq<Block>)
    requires u in h.used && multiset(r.used) == multiset(h.used) - multiset{u}
    requires p in h.freed && p.index + p.size == u.index && r.freed == Push(rest, Block(p.index, p.size + u.size))
    requires SizeOrdered(rest) && multiset(rest) == multiset(h.freed) - multiset{p}
    ensures Returned(h, r, u) && SizeOrdered(r.freed)
  {
    hide Push, SizeOrdered;
    PushAdds(rest, Block(p.index, p.size + u.size));
    assert Joined(h, r, p, u);
  }

  lemma ReturnedAlone(h: Heap, r: Heap, u: Block)
    requires u in h.used && multiset(r.used) == multiset(h.used) - multiset{u}
    requires SizeOrdered(h.freed) && r.freed == Push(h.freed, u)
    requires forall p :: p in h.freed ==> p.index + p.size != u.index
    ensures Returned(h, r, u) && SizeOrdered(r.freed)
  {
    hide Push, SizeOrdered;
    PushAdds(h.freed, u);
  }

  /** Freeing any other index changes nothing. */
  lemma EfreeUnknown(h: Heap, n: nat, index: nat)
    requires 1 <= n <= U16 && Inv(h, n) && forall u :: u in h.used ==> u.index != index
    ensures Efree(h, n, index) == h
  {
    PopFinds(h.used, StartsAt(index));
  }

  lemma SubPlaced(m: multiset<Block>, s: multiset<Block>, n: nat)
    requires Placed(m, n) && s <= m
    ensures Placed(s, n)
  {
    assert forall b :: b in s ==> b in m && s[b] <= m[b];
  }

  lemma ReturnKeeps(h: Heap, r: Heap, u: Block, n: nat)
    requires Returned(h, r, u) && Placed(All(h), n)
    ensures Placed(All(r), n) && forall x :: Covered(All(r), x) <==> Covered(All(h), x)
    ensures forall x :: Covered(multiset(r.freed), x) <==> Covered(multiset(h.freed), x) || In(x, u)
  {
    hide Placed, Covered, All, In;
    FreedAdds(multiset(h.freed), u);
    ReturnedAll(h, r, u);
    if p :| p in h.freed && p.index + p.size == u.index && Joined(h, r, p, u) {
      JoinKeeps(h, r, p, u, n);
    }
  }

  lemma ReturnedAll(h: Heap, r: Heap, u: Block)
    requires u in h.used && multiset(r.used) == multiset(h.used) - multiset{u}
    ensures multiset(r.freed) == multiset(h.freed) + multiset{u} ==> All(r) == All(h)
    ensures multiset(h.freed) + multiset{u} <= All(h)
  {
  }

  lemma JoinKeeps(h: Heap, r: Heap, p: Block, u: Block, n: nat)
    requires u in h.used && p in h.freed && p.index + p.size == u.index && Placed(All(h), n)
    requires multiset(r.used) == multiset(h.used) - multiset{u} && Joined(h, r, p, u)
    ensures Placed(All(r), n) && forall x :: Covered(All(r), x) <==> Covered(All(h), x)
    ensures forall x :: Covered(multiset(r.freed), x) <==> Covered(multiset(h.freed) + multiset{u}, x)
  {
    hide Placed, Covered, All;
    AllMembers(h, p, u);
    JoinedAll(h, r, p, u);
    JoinPlaced(All(h), p, u, n);
    JoinKeepsFreed(h, r, p, u, n);
  }

  lemma JoinedAll(h: Heap, r: Heap, p: Block, u: Block)
    requires u in h.used && p in h.freed
    requires multiset(r.used) == multiset(h.used) - multiset{u} && Joined(h, r, p, u)
    ensures All(r) == All(h) - multiset{p} - multiset{u} + multiset{Block(p.index, p.size + u.size)}
  {
    JoinedMultisets(multiset(h.freed), multiset(h.used), p, u, multiset{Block(p.index, p.size + u.size)});
  }

  lemma JoinKeepsFreed(h: Heap, r: Heap, p: Block, u: Block, n: nat)
    requires u in h.used && p in h.freed && p.index + p.size == u.index && Placed(All(h), n) && Joined(h, r, p, u)
    ensures forall x :: Covered(multiset(r.freed), x) <==> Covered(multiset(h.freed) + multiset{u}, x)
  {
    hide Placed, Covered;
    var uf := multiset(h.freed) + multiset{u};
    assert uf <= All(h);
    SubPlaced(All(h), uf, n);
    JoinPlaced(uf, p, u, n);
    JoinedMultisets(multiset(h.freed), multiset(h.used), p, u, multiset{Block(p.index, p.size + u.size)});
  }

  lemma AllMembers(h: Heap, p: Block, u: Block)
    requires p in h.freed && u in h.used
    ensures p in All(h) && u in All(h)
  {
  }

  lemma JoinedMultisets(f: multiset<Block>, s: multiset<Block>, p: Block, u: Block, j: multiset<Block>)
    requires p in f && u in s
    ensures (f - multiset{p} + j) + (s - multiset{u}) == f + s - multiset{p} - multiset{u} + j
    ensures f - multiset{p} + j == f + multiset{u} - multiset{p} - multiset{u} + j
  {
  }

  lemma FreedAdds(f: multiset<Block>, u: Block)
    ensures forall x :: Covered(f + multiset{u}, x) <==> Covered(f, x) || In(x, u)
  {
    forall x
      ensures Covered(f + multiset{u}, x) <==> Covered(f, x) || In(x, u)
    {
      assert u in f + multiset{u};
      if Covered(f, x) {
        var b :| b in f && In(x, b);
        assert b in f + multiset{u};
      }
    }
  }

  /** Freeing a live pointer keeps the invariant and the tiling, and adds exactly its bytes
      to the free ones. */
  lemma EfreeKeeps(h: Heap, n: nat, u: Block)
    requires 1 <= n < U16 && Inv(h, n) && u in h.used
    ensures Inv(Efree(h, n, u.index), n)
    ensures Tiles(All(h), n) ==> Tiles(All(Efree(h, n, u.index)), n)
    ensures forall x :: Covered(multiset(Efree(h, n, u.index).freed), x) <==> Covered(multiset(h.freed), x) || In(x, u)
    ensures multiset(Efree(h, n, u.index).used) == multiset(h.used) - multiset{u}
  {
    hide Efree, SizeOrdered, Placed, Covered, All;
    EfreeReturns(h, n, u);
    ReturnKeeps(h, Efree(h, n, u.index), u, n);
  }

  // ----- fragmentation

  /** No block ends where another one starts. */
  ghost predicate Coalesced(m: multiset<Block>) {
    forall p, q :: p in m && q in m ==> p.index + p.size != q.index
  }

  /** Whether some free block starts where u ends. */
  predicate FreeAfter(h: Heap, u: Block) {
    exists q :: q in h.freed && q.index == u.index + u.size
  }

  lemma ReturnCoalesced(f: multiset<Block>, u: Block)
    requires Coalesced(f) && u.size >= 1 && forall p :: p in f ==> p.index + p.size != u.index
    ensures Coalesced(f + multiset{u}) <==> forall q :: q in f ==> q.index != u.index + u.size
  {
    var r := f + multiset{u};
    assert u in r && forall q :: q in r <==> q in f || q == u;
  }

  lemma JoinCoalesced(f: multiset<Block>, p: Block, u: Block)
    requires Coalesced(f) && p in f && p.index + p.size == u.index && p.size + u.size >= 1
    ensures var j := Block(p.index, p.size + u.size);
            Coalesced(f - multiset{p} + multiset{j}) <==> forall q :: q in f ==> q.index != u.index + u.size
  {
    var j := Block(p.index, p.size + u.size);
    var r := f - multiset{p} + multiset{j};
    assert j in r;
    assert forall q :: q in f && q != p ==> q in r;
    assert forall q :: q in r ==> q in f || q == j;
    if q :| q in f && q.index == u.index + u.size {
      assert q != p && q in r;
    }
  }

  /** Freeing a block joins it with the free block before it only. It keeps a coalesced free
      list coalesced exactly if the block after it is not free. */
  lemma EfreeCoalesces(h: Heap, n: nat, u: Block)
    requires 1 <= n < U16 && Inv(h, n) && u in h.used && Coalesced(multiset(h.freed))
    ensures Coalesced(multiset(Efree(h, n, u.index).freed)) <==> !FreeAfter(h, u)
  {
    hide Efree, SizeOrdered, Coalesced, Joined;
    EfreeReturns(h, n, u);
    var f, r := multiset(h.freed), Efree(h, n, u.index);
    assert u in All(h);
    assert forall q :: q in f <==> q in h.freed;
    if multiset(r.freed) == f + multiset{u} && forall p :: p in h.freed ==> p.index + p.size != u.index {
      ReturnCoalesced(f, u);
    } else {
      var p :| p in h.freed && p.index + p.size == u.index && Joined(h, r, p, u);
      JoinedFree(h, r, p, u);
      JoinCoalesced(f, p, u);
    }
  }

  lemma JoinedFree(h: Heap, r: Heap, p: Block, u: Block)
    requires Joined(h, r, p, u)
    ensures multiset(r.freed) == multiset(h.freed) - multiset{p} + multiset{Block(p.index, p.size + u.size)}
  {
  }

  lemma GrantCoalesced(i: Heap, r: Heap, b: Block, size: nat, n: nat)
    requires Granted(i, r, b, size) && Placed(All(i), n) && Coalesced(multiset(i.freed))
    ensures Coalesced(multiset(r.freed))
  {
    var f, g, tail := multiset(i.freed), multiset(r.freed), Block(b.index + size, b.size - size);
    assert b in f;
    assert forall q :: q in g ==> (q in f && q != b) || (q == tail && size < b.size) by {
      assert All(i)[b] == 1;
    }
    forall p, q | p in g && q in g
      ensures p.index + p.size != q.index
    {
      if q == tail && size < b.size && p != tail {
        assert p in All(i) && b in All(i) && Apart(p, b);
      }
    }
  }

  /** An allocation never leaves neighbouring free blocks where there were none. */
  lemma EmallocKeepsCoalesced(h: Heap, n: nat, size: nat)
    requires 1 <= n < U16 && Inv(h, n) && Coalesced(multiset(h.freed))
    ensures Coalesced(multiset(Emalloc(h, n, size).heap.freed))
  {
    hide Emalloc, SizeOrdered, Placed, Granted;
    InitializedInv(h, n);
    var i, r := Initialized(h, n), Emalloc(h, n, size).heap;
    assert Coalesced(multiset(i.freed));
    var b := EmallocEffect(h, n, size);
    if Emalloc(h, n, size).pointer.Some? {
      GrantCoalesced(i, r, b, size, n);
    } else if Loses(h, n, size) {
      assert multiset(r.freed) <= multiset(i.freed);
    }
  }

  lemma EmallocInv(h: Heap, n: nat, size: nat)
    requires 1 <= n <= U16 && Inv(h, n)
    ensures Inv(Emalloc(h, n, size).heap, n)
  {
    hide Emalloc, Inv;
    if n == U16 {
      EmallocFails(h, size);
    } else {
      EmallocKeeps(h, n, size);
    }
  }

  /** No block starts strictly inside a free block. */
  lemma InsideNoStart(h: Heap, n: nat, b: Block, k: nat)
    requires 1 <= n <= U16 && Inv(h, n) && b in h.freed && b.index < k < b.index + b.size
    ensures n < U16 && k < n && b.index + b.size <= n
    ensures forall c :: c in h.freed || c in h.used ==> c.index != k
  {
    hide SizeOrdered;
    if n < U16 {
      assert b in All(h);
      forall c | c in h.freed || c in h.used
        ensures c.index != k
      {
        assert c in All(h) && All(h)[c] == 1;
        assert b != c ==> Apart(b, c);
      }
    }
  }

  lemma EfreeInv(h: Heap, n: nat, index: nat)
    requires 1 <= n <= U16 && Inv(h, n)
    ensures Inv(Efree(h, n, index), n)
  {
    hide Efree, SizeOrdered, Placed;
    if u :| u in h.used && u.index == index {
      EfreeKeeps(h, n, u);
    } else {
      EfreeUnknown(h, n, index);
    }
  }

  lemma EfreeUnfold(h: Heap, n: nat, index: nat)
    ensures var (u, p) := (Popped(h.used, StartsAt(index)), Popped(h.freed, EndsAt(index)));
            Efree(h, n, index) ==
            if index >= n || u == None then h
            else Heap(if p == None then Push(h.freed, u.value)
                      else Push(Rest(h.freed, EndsAt(index)),
                                Block(p.value.index, Narrow(p.value.size + u.value.size))),
                      Rest(h.used, StartsAt(index)))
  {
    hide Push, Rest, Popped;
  }
}
