/** The allocator proper: a table with one node per byte of the arena, and two lists of
    those nodes. Its operations do exactly what Emalloc and Efree do to the block lists. */
module BlockAllocator {
  import opened Optional
  import opened MemoryHeap
  import opened BlockHeap
  import opened AllocatorRuns

  class Arena {
    const n: nat
    const nodes: seq<MemoryHeapNode>
    var freedRoot: MemoryHeapNode?
    var usedRoot: MemoryHeapNode?
    ghost var freed: seq<MemoryHeapNode>
    ghost var used: seq<MemoryHeapNode>

    ghost function Table(): set<MemoryHeapNode> {
      set x | x in nodes
    }

    /** A listed node is the table's at its own index. */
    ghost predicate Listed(l: seq<MemoryHeapNode>)
      reads l`index
    {
      forall x :: x in l ==> x.index < |nodes| && nodes[x.index] == x
    }

    /** The table has one node per byte, and no node is in both lists. */
    ghost predicate Shaped()
      reads this, freed, used
    {
      && 1 <= n <= U16 && |nodes| == n && Distinct(nodes)
      && Listed(freed) && Listed(used) && (forall x :: x in freed ==> x !in used)
      && Linked(freedRoot, freed) && Linked(usedRoot, used)
    }

    ghost function Abs(): Heap
      reads this, freed, used
    {
      Heap(Blocks(freed), Blocks(used))
    }

    ghost predicate Valid()
      reads this, freed, used
    {
      Shaped() && Inv(Abs(), n)
    }

    constructor (size: nat)
      requires 1 <= size <= U16
      ensures Valid() && n == size && Abs() == FRESH_HEAP && fresh(nodes)
    {
      hide Inv;
      var table := NewTable(size);
      FreshInv(size);
      n, nodes := size, table;
      freedRoot, usedRoot, freed, used := null, null, [], [];
    }

    static method NewTable(size: nat) returns (table: seq<MemoryHeapNode>)
      ensures |table| == size && Distinct(table) && fresh(table)
    {
      table := [];
      while |table| < size
        invariant |table| <= size && Distinct(table) && fresh(table)
      {
        var node := new MemoryHeapNode();
        table := table + [node];
      }
    }

    /** The node of an index that no listed block starts at is in neither list. */
    lemma Unlisted(k: nat)
      requires Shaped() && k < n
      requires forall b :: b in Abs().freed || b in Abs().used ==> b.index != k
      ensures nodes[k] !in freed && nodes[k] !in used
    {
      forall x | x in freed || x in used
        ensures x != nodes[k]
      {
        if x in freed {
          var i :| 0 <= i < |freed| && freed[i] == x;
          assert Abs().freed[i] == BlockOf(x);
        } else {
          var i :| 0 <= i < |used| && used[i] == x;
          assert Abs().used[i] == BlockOf(x);
        }
      }
    }

    lemma ListedInTable(l: seq<MemoryHeapNode>)
      requires Listed(l)
      ensures forall x :: x in l ==> x in Table()
    {
    }

    /** Puts a node that is in neither list on the used list. */
    method Use(node: MemoryHeapNode)
      requires Shaped() && node.child == null && node.index < n && nodes[node.index] == node
      requires node !in freed && node !in used
      modifies this`used, this`usedRoot, node`child, used`child
      ensures Shaped() && Blocks(used) == Push(old(Blocks(used)), old(BlockOf(node)))
      ensures freed == old(freed) && Blocks(freed) == old(Blocks(freed))
    {
      hide Push, Linked, Blocks, Distinct, At;
      LinksOf(freedRoot, freed);
      usedRoot, used := PushBlock(usedRoot, node, used);
      forall i | 0 <= i < |freed|
        ensures freed[i].child == old(freed[i].child)
      {
        assert freed[i] in freed;
      }
      LinksOf(freedRoot, freed);
    }

    /** Puts a node that is in neither list on the free list. */
    method Release(node: MemoryHeapNode)
      requires Shaped() && node.child == null && node.index < n && nodes[node.index] == node
      requires node !in freed && node !in used
      modifies this`freed, this`freedRoot, node`child, freed`child
      ensures Shaped() && Blocks(freed) == Push(old(Blocks(freed)), old(BlockOf(node)))
      ensures used == old(used) && Blocks(used) == old(Blocks(used))
      ensures forall x :: x in freed <==> x in old(freed) || x == node
    {
      hide Push, Linked, Blocks, Distinct, At;
      LinksOf(usedRoot, used);
      freedRoot, freed := PushBlock(freedRoot, node, freed);
      forall i | 0 <= i < |used|
        ensures used[i].child == old(used[i].child)
      {
        assert used[i] in used;
      }
      LinksOf(usedRoot, used);
    }

    /** Puts the table's node at the given index, described anew, on the free list. */
    method FreeNew(tail: MemoryHeapNode, index: nat, size: nat)
      requires Shaped() && index < n && index < U16 && size < U16 && tail == nodes[index]
      requires tail !in freed && tail !in used
      modifies this`freed, this`freedRoot, tail, freed`child
      ensures Shaped() && Blocks(freed) == Push(old(Blocks(freed)), Block(index, size))
      ensures used == old(used) && Blocks(used) == old(Blocks(used))
      ensures forall x :: x in freed <==> x in old(freed) || x == tail
    {
      hide Push, Linked, Blocks, Distinct;
      tail.index := Narrow(index);
      tail.blockSize := Narrow(size);
      tail.child := null;
      Release(tail);
    }

    /** Puts the table's node at the given index, described anew, on the used list. */
    method UseNew(node: MemoryHeapNode, index: nat, size: nat)
      requires Shaped() && index < n && index < U16 && size < U16 && node == nodes[index]
      requires node !in freed && node !in used
      modifies this`used, this`usedRoot, node, used`child
      ensures Shaped() && Blocks(used) == Push(old(Blocks(used)), Block(index, size))
      ensures freed == old(freed) && Blocks(freed) == old(Blocks(freed))
    {
      hide Push, Linked, Blocks, Distinct;
      node.index := index;
      node.blockSize := Narrow(size);
      node.child := null;
      Use(node);
    }

    /** Takes the first free block that meets the condition off the free list. */
    method TakeFree(c: Condition) returns (node: MemoryHeapNode?)
      requires Shaped()
      modifies this`freed, this`freedRoot, freed`child
      ensures Shaped() && Blocks(freed) == Rest(old(Blocks(freed)), c)
      ensures Popped(old(Blocks(freed)), c) == if node == null then None else Some(BlockOf(node))
      ensures node != null ==> node.child == null && node.index < n && nodes[node.index] == node
      ensures node != null ==> node !in freed && node !in used
      ensures forall x :: x in freed ==> x in old(freed)
      ensures used == old(used) && Blocks(used) == old(Blocks(used))
    {
      hide Rest, Popped, Linked, Blocks, Distinct, At;
      LinksOf(usedRoot, used);
      freedRoot, node, freed := PopBlock(freedRoot, c, freed);
      forall i | 0 <= i < |used|
        ensures used[i].child == old(used[i].child)
      {
        assert used[i] in used;
      }
      LinksOf(usedRoot, used);
    }

    /** Takes the first used block that meets the condition off the used list. */
    method TakeUsed(c: Condition) returns (node: MemoryHeapNode?)
      requires Shaped()
      modifies this`used, this`usedRoot, used`child
      ensures Shaped() && Blocks(used) == Rest(old(Blocks(used)), c)
      ensures Popped(old(Blocks(used)), c) == if node == null then None else Some(BlockOf(node))
      ensures node != null ==> node.child == null && node.index < n && nodes[node.index] == node
      ensures node != null ==> node !in freed && node !in used
      ensures forall x :: x in used ==> x in old(used)
      ensures freed == old(freed) && Blocks(freed) == old(Blocks(freed))
    {
      hide Rest, Popped, Linked, Blocks, Distinct, At;
      LinksOf(freedRoot, freed);
      usedRoot, node, used := PopBlock(usedRoot, c, used);
      forall i | 0 <= i < |freed|
        ensures freed[i].child == old(freed[i].child)
      {
        assert freed[i] in freed;
      }
      LinksOf(freedRoot, freed);
    }

    method InitializeData()
      requires Valid()
      modifies this`freed, this`freedRoot, Table()
      ensures Valid() && Abs() == Initialized(old(Abs()), n)
    {
      hide SizeOrdered, Placed, Push;
      InitializedInv(Abs(), n);
      if freedRoot == null && usedRoot == null {
        FreeNew(nodes[0], 0, Narrow(n));
      }
    }

    /** The node right behind the front of a free block is in neither list. */
    lemma TailUnlisted(i: Heap, b: Block, k: nat)
      requires Shaped() && Inv(i, n) && b in i.freed && b.index < k < b.index + b.size
      requires forall c :: c in Abs().freed || c in Abs().used ==> c in i.freed || c in i.used
      ensures b.index + b.size <= n < U16 && nodes[k] !in freed && nodes[k] !in used
    {
      hide Inv, Linked, Blocks;
      InsideNoStart(i, n, b, k);
      Unlisted(k);
    }

    /** Turns a free node that was just popped into a used one of the given size, and what
        is left of it into a free one. */
    method Grant(node: MemoryHeapNode, size: nat, ghost i: Heap)
      requires Shaped() && node.child == null && node.index < n && nodes[node.index] == node
      requires node !in freed && node !in used && 1 <= size < node.blockSize
      requires Inv(i, n) && BlockOf(node) in i.freed
      requires forall c :: c in Abs().freed || c in Abs().used ==> c in i.freed || c in i.used
      modifies this`freed, this`freedRoot, this`used, this`usedRoot, Table()
      ensures Shaped()
      ensures Blocks(freed) == Push(old(Blocks(freed)), Block(old(node.index) + size, old(node.blockSize) - size))
      ensures Blocks(used) == Push(old(Blocks(used)), Block(old(node.index), size))
    {
      hide Push, Linked, Blocks, Inv;
      TailUnlisted(i, BlockOf(node), node.index + size);
      var freedIndex := node.index + size;
      var tail := nodes[freedIndex];
      ListedInTable(freed);
      FreeNew(tail, freedIndex, node.blockSize - size);
      ListedInTable(used);
      UseNew(node, node.index, size);
    }

    /** The allocation from an initialised heap. */
    method Carve(size: nat) returns (pointer: Option<nat>)
      requires Valid() && size >= 1
      modifies this`freed, this`freedRoot, this`used, this`usedRoot, Table()
      ensures Shaped() && Allocation(Abs(), pointer) == Carved(old(Abs()), size)
    {
      hide Popped, Rest, Push, Inv, Blocks, Linked, Distinct;
      var fits := FitsSize(size % U32);
      ghost var i := Abs();
      RestMembers(i.freed, fits);
      ListedInTable(freed);
      ListedInTable(used);
      var node := TakeFree(fits);
      if node == null {
        return None;
      }
      if node.blockSize < size || node.index >= n {
        return None;
      }
      pointer := Some(node.index);
      if node.blockSize == size {
        Use(node);
      } else {
        Grant(node, size, i);
      }
    }

    /** Allocates size bytes: the start index of the block, or None for the NULL pointer. */
    method Emalloc(size: nat) returns (pointer: Option<nat>)
      requires Valid()
      modifies this`freed, this`freedRoot, this`used, this`usedRoot, Table()
      ensures Allocation(Abs(), pointer) == BlockHeap.Emalloc(old(Abs()), n, size)
      ensures Valid()
    {
      hide Inv, Initialized, Blocks, Linked, Listed, Distinct, Carved, BlockHeap.Emalloc;
      EmallocInv(Abs(), n, size);
      InitializedInv(Abs(), n);
      EmallocCases(Abs(), n, size);
      InitializeData();
      if size < 1 {
        return None;
      }
      pointer := Carve(size);
    }

    /** Frees a pointer, given by its distance from the start of the arena; NULL, which is None,
        is ignored. */
    method Efree(pointer: Option<int>)
      requires Valid()
      modifies this`freed, this`freedRoot, this`used, this`usedRoot, Table()
      ensures Abs() == if pointer == None then old(Abs())
                       else BlockHeap.Efree(old(Abs()), n, pointer.value % 0x1_0000_0000)
      ensures Valid()
    {
      hide Popped, Rest, Push, Inv, Blocks, Linked, Distinct, BlockHeap.Efree;
      if pointer == None {
        return;
      }
      var index := pointer.value % U32;
      ghost var h := Abs();
      EfreeInv(h, n, index);
      EfreeUnfold(h, n, index);
      if index < n {
        RestMembers(h.used, StartsAt(index));
        ListedInTable(freed);
        ListedInTable(used);
        var node := TakeUsed(StartsAt(index));
        if node != null {
          Return(node, index);
        }
      }
    }

    /** Joins a node that was just popped off the used list with the free block before it. */
    method Return(node: MemoryHeapNode, index: nat)
      requires Shaped() && node.child == null && node.index < n && nodes[node.index] == node
      requires node !in freed && node !in used
      modifies this`freed, this`freedRoot, Table()
      ensures Shaped() && Blocks(used) == old(Blocks(used))
      ensures var (found, rest) := (Popped(old(Blocks(freed)), EndsAt(index)), Rest(old(Blocks(freed)), EndsAt(index)));
              Blocks(freed) == if found == None then Push(old(Blocks(freed)), old(BlockOf(node)))
                               else Push(rest, Block(found.value.index, Narrow(found.value.size + old(node.blockSize))))
    {
      hide Popped, Rest, Push, Blocks, Linked, Distinct;
      RestMembers(Blocks(freed), EndsAt(index));
      ListedInTable(freed);
      var before := TakeFree(EndsAt(index));
      if before == null {
        Release(node);
      } else {
        before.blockSize := Narrow(before.blockSize + node.blockSize);
        Release(before);
      }
    }
  }

  /** Runs a history of calls: the linked lists follow it as the block lists do. */
  method Replay(arena: Arena, calls: seq<Call>)
    requires arena.Valid()
    modifies arena`freed, arena`freedRoot, arena`used, arena`usedRoot, arena.Table()
    ensures arena.Valid() && arena.Abs() == Run(old(arena.Abs()), arena.n, calls)
  {
    hide Run, Step, Arena.Valid, Arena.Abs;
    ghost var start := arena.Abs();
    assert calls[0..] == calls;
    var i := 0;
    while i < |calls|
      invariant 0 <= i <= |calls| && arena.Valid()
      invariant Run(arena.Abs(), arena.n, calls[i..]) == Run(start, arena.n, calls)
    {
      RunStep(arena.Abs(), arena.n, calls[i..]);
      assert calls[i..][1..] == calls[i + 1..];
      match calls[i] {
        case Malloc(size) => var pointer := arena.Emalloc(size);
        case Free(pointer) => arena.Efree(pointer);
      }
      i := i + 1;
    }
    RunStep(arena.Abs(), arena.n, calls[i..]);
  }

  lemma RunStep(h: Heap, n: nat, calls: seq<Call>)
    ensures calls == [] ==> Run(h, n, calls) == h
    ensures calls != [] ==> Run(h, n, calls) == Run(Step(h, n, calls[0]), n, calls[1..])
    ensures forall size :: Step(h, n, Malloc(size)) == BlockHeap.Emalloc(h, n, size).heap
    ensures forall p: Option<int> ::
              Step(h, n, Free(p)) == if p == None then h else BlockHeap.Efree(h, n, p.value % U32)
  {
  }

  /** Every history on a new arena leaves acyclic lists that share no node and whose blocks are
      apart; with requests below 2^32 bytes, once there has been one, they tile the arena. */
  method ReplayFromStart(size: nat, calls: seq<Call>) returns (arena: Arena)
    requires 1 <= size <= U16
    ensures arena.Valid() && arena.n == size && arena.Abs() == Run(FRESH_HEAP, size, calls)
    ensures size < U16 && SmallRequests(calls) && (exists c :: c in calls && c.Malloc?) ==>
              Tiles(All(arena.Abs()), size)
  {
    hide Run, Arena.Valid, Arena.Abs, Tiles, All, Inv;
    arena := new Arena(size);
    Replay(arena, calls);
    FreshInv(size);
    if size < U16 && SmallRequests(calls) && exists c :: c in calls && c.Malloc? {
      RunTiles(FRESH_HEAP, size, calls);
    }
  }
}
