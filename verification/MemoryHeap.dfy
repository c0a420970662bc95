/** The singly linked lists of memory blocks, ordered by block size. */
module MemoryHeap {
  import opened Optional

  /** The bytes [index, index + size) of the arena. */
  datatype Block = Block(index: nat, size: nat)

  /** The pop conditions: large enough for a request, starting at an index, ending just before it. */
  datatype Condition = FitsSize(size: nat) | StartsAt(index: nat) | EndsAt(index: nat)

  predicate Holds(c: Condition, b: Block) {
    match c
    case FitsSize(size) => size <= b.size
    case StartsAt(index) => index == b.index
    case EndsAt(index) => b.index + b.size == index
  }

  // ----- sequences with one element more or less

  function Inserted<T>(l: seq<T>, k: nat, x: T): (m: seq<T>)
    requires k <= |l|
    ensures |m| == |l| + 1
  {
    l[..k] + [x] + l[k..]
  }

  function Removed<T>(l: seq<T>, k: nat): (m: seq<T>)
    requires k < |l|
    ensures |m| == |l| - 1
  {
    l[..k] + l[k + 1..]
  }

  lemma InsertedElements<T>(l: seq<T>, k: nat, x: T)
    requires k <= |l|
    ensures forall i :: 0 <= i < k ==> Inserted(l, k, x)[i] == l[i]
    ensures Inserted(l, k, x)[k] == x
    ensures forall i :: k < i <= |l| ==> Inserted(l, k, x)[i] == l[i - 1]
  {
  }

  lemma InsertedMultiset<T>(l: seq<T>, k: nat, x: T)
    requires k <= |l|
    ensures multiset(Inserted(l, k, x)) == multiset(l) + multiset{x}
  {
    assert l == l[..k] + l[k..];
  }

  ghost predicate Distinct<T>(l: seq<T>) {
    forall i, j :: 0 <= i < j < |l| ==> l[i] != l[j]
  }

  lemma OnlyAt<T>(l: seq<T>, k: nat)
    requires k < |l| && Distinct(l)
    ensures forall i :: 0 <= i < |l| && i != k ==> l[i] != l[k]
  {
  }

  lemma InsertedDistinct<T>(l: seq<T>, k: nat, x: T)
    requires k <= |l| && Distinct(l) && x !in l
    ensures Distinct(Inserted(l, k, x))
  {
  }

  lemma RemovedDistinct<T>(l: seq<T>, k: nat)
    requires k < |l| && Distinct(l)
    ensures Distinct(Removed(l, k))
  {
  }

  lemma RemovedElements<T>(l: seq<T>, k: nat)
    requires k < |l|
    ensures forall i :: 0 <= i < k ==> Removed(l, k)[i] == l[i]
    ensures forall i :: k <= i < |l| - 1 ==> Removed(l, k)[i] == l[i + 1]
  {
  }

  lemma RemovedMultiset<T>(l: seq<T>, k: nat)
    requires k < |l|
    ensures multiset(l) == multiset(Removed(l, k)) + multiset{l[k]}
  {
    assert l == l[..k] + ([l[k]] + l[k + 1..]);
  }

  // ----- the lists as sequences of blocks

  /** The position of the first block larger than size, or the end. */
  function FirstAbove(l: seq<Block>, size: nat): (k: nat)
    ensures k <= |l| && (forall j :: 0 <= j < k ==> l[j].size <= size) && (k < |l| ==> l[k].size > size)
  {
    if l == [] || l[0].size > size then 0 else 1 + FirstAbove(l[1..], size)
  }

  /** The position of the first block that meets the condition, or the end. */
  function FirstMatch(l: seq<Block>, c: Condition): (k: nat)
    ensures k <= |l| && (forall j :: 0 <= j < k ==> !Holds(c, l[j])) && (k < |l| ==> Holds(c, l[k]))
  {
    if l == [] || Holds(c, l[0]) then 0 else 1 + FirstMatch(l[1..], c)
  }

  function Push(l: seq<Block>, b: Block): seq<Block> {
    Inserted(l, FirstAbove(l, b.size), b)
  }

  /** The block a pop extracts, if any. */
  function Popped(l: seq<Block>, c: Condition): Option<Block> {
    var k := FirstMatch(l, c);
    if k == |l| then None else Some(l[k])
  }

  /** The list a pop leaves. */
  function Rest(l: seq<Block>, c: Condition): seq<Block> {
    var k := FirstMatch(l, c);
    if k == |l| then l else Removed(l, k)
  }

  ghost predicate SizeOrdered(l: seq<Block>) {
    forall i, j :: 0 <= i < j < |l| ==> l[i].size <= l[j].size
  }

  /** Pushing adds exactly the block and keeps the order by size. */
  lemma PushAdds(l: seq<Block>, b: Block)
    requires SizeOrdered(l)
    ensures multiset(Push(l, b)) == multiset(l) + multiset{b}
    ensures SizeOrdered(Push(l, b))
  {
    hide Inserted, FirstAbove;
    var k, p := FirstAbove(l, b.size), Push(l, b);
    InsertedElements(l, k, b);
    InsertedMultiset(l, k, b);
    forall i, j | 0 <= i < j < |p|
      ensures p[i].size <= p[j].size
    {
      if j > k {
        assert p[j] == l[j - 1] && l[k].size <= l[j - 1].size;
      }
    }
  }

  /** The place of a pushed block: behind all blocks of its size or less, before all larger ones. */
  lemma PushPlace(l: seq<Block>, b: Block) returns (k: nat)
    requires SizeOrdered(l)
    ensures k <= |l| && Push(l, b) == l[..k] + [b] + l[k..]
    ensures (forall j :: 0 <= j < k ==> l[j].size <= b.size) && (forall j :: k <= j < |l| ==> b.size < l[j].size)
  {
    k := FirstAbove(l, b.size);
  }

  /** The place of a popped block: it is the first one that meets the condition, and all others stay. */
  lemma PopPlace(l: seq<Block>, c: Condition) returns (k: nat)
    ensures if Popped(l, c) == None then k == |l| && Rest(l, c) == l
            else k < |l| && Popped(l, c) == Some(l[k]) && Rest(l, c) == l[..k] + l[k + 1..]
    ensures forall j :: 0 <= j < k ==> match c case FitsSize(size) => l[j].size < size
                                               case StartsAt(index) => l[j].index != index
                                               case EndsAt(index) => l[j].index + l[j].size != index
    ensures k < |l| ==> match c case FitsSize(size) => size <= l[k].size
                                case StartsAt(index) => l[k].index == index
                                case EndsAt(index) => l[k].index + l[k].size == index
  {
    k := FirstMatch(l, c);
  }

  /** Popping removes exactly the block it returns. */
  lemma PopRemoves(l: seq<Block>, c: Condition)
    ensures Popped(l, c) == None ==> Rest(l, c) == l
    ensures Popped(l, c).Some? ==> multiset(l) == multiset(Rest(l, c)) + multiset{Popped(l, c).value}
    ensures SizeOrdered(l) ==> SizeOrdered(Rest(l, c))
  {
    hide Removed, FirstMatch;
    var k := FirstMatch(l, c);
    if k < |l| {
      RemovedElements(l, k);
      RemovedMultiset(l, k);
    }
  }

  /** A pop finds a block exactly when one meets the condition, and then a smallest one. */
  lemma PopFinds(l: seq<Block>, c: Condition)
    requires SizeOrdered(l)
    ensures Popped(l, c) == None <==> forall b :: b in l ==> !Holds(c, b)
    ensures Popped(l, c).Some? ==> Popped(l, c).value in l && Holds(c, Popped(l, c).value)
    ensures Popped(l, c).Some? ==> forall b :: b in l && Holds(c, b) ==> Popped(l, c).value.size <= b.size
  {
    var k := FirstMatch(l, c);
    if k < |l| {
      assert l[k] in l;
    }
  }

  // ----- the lists as linked nodes

  class MemoryHeapNode {
    var index: nat
    var blockSize: nat
    var child: MemoryHeapNode?

    constructor ()
      ensures child == null && index == 0 && blockSize == 0
    {
      index, blockSize, child := 0, 0, null;
    }
  }

  function At(l: seq<MemoryHeapNode>, i: nat): MemoryHeapNode? {
    if i < |l| then l[i] else null
  }

  /** The nodes of l, all different, are those reached from root through the child links. */
  ghost predicate Linked(root: MemoryHeapNode?, l: seq<MemoryHeapNode>)
    reads l
  {
    && root == At(l, 0)
    && (forall i :: 0 <= i < |l| ==> l[i].child == At(l, i + 1))
    && Distinct(l)
  }

  lemma LinksOf(root: MemoryHeapNode?, l: seq<MemoryHeapNode>)
    ensures Linked(root, l) <==>
            root == At(l, 0) && Distinct(l) && forall i :: 0 <= i < |l| ==> l[i].child == At(l, i + 1)
  {
  }

  ghost function BlockOf(n: MemoryHeapNode): Block
    reads n`index, n`blockSize
  {
    Block(n.index, n.blockSize)
  }

  ghost function Blocks(l: seq<MemoryHeapNode>): (bs: seq<Block>)
    reads l`index, l`blockSize
    ensures |bs| == |l| && forall i :: 0 <= i < |l| ==> bs[i] == BlockOf(l[i])
  {
    if l == [] then [] else [BlockOf(l[0])] + Blocks(l[1..])
  }

  /** The walk of a push: the node to insert before, or the last node, and its predecessor. */
  method WalkAbove(root: MemoryHeapNode, size: nat, ghost l: seq<MemoryHeapNode>)
    returns (prev: MemoryHeapNode?, node: MemoryHeapNode, found: bool)
    requires Linked(root, l)
    ensures var k := FirstAbove(Blocks(l), size);
            && found == (k < |l|) && (found ==> node == l[k]) && (!found ==> node == l[|l| - 1])
            && (found ==> prev == if k == 0 then null else l[k - 1])
  {
    prev, node := null, root;
    ghost var i := 0;
    found := node.blockSize > size;
    while !found
      invariant 0 <= i < |l| && node == l[i] && i <= FirstAbove(Blocks(l), size)
      invariant prev == if i == 0 then null else l[i - 1]
      invariant found == (Blocks(l)[i].size > size)
      decreases |l| - i, !found
    {
      if node.child == null {
        break;
      }
      prev, node, i := node, node.child, i + 1;
      found := node.blockSize > size;
    }
  }

  /** The walk of a pop: the first node that meets the condition, and its predecessor. */
  method WalkMatch(root: MemoryHeapNode, c: Condition, ghost l: seq<MemoryHeapNode>)
    returns (prev: MemoryHeapNode?, node: MemoryHeapNode, found: bool)
    requires Linked(root, l)
    ensures var k := FirstMatch(Blocks(l), c);
            && found == (k < |l|) && (found ==> node == l[k])
            && (found ==> prev == if k == 0 then null else l[k - 1])
  {
    prev, node := null, root;
    ghost var i := 0;
    found := Holds(c, Block(node.index, node.blockSize));
    while !found
      invariant 0 <= i < |l| && node == l[i] && i <= FirstMatch(Blocks(l), c)
      invariant prev == if i == 0 then null else l[i - 1]
      invariant found == Holds(c, Blocks(l)[i])
      decreases |l| - i, !found
    {
      if node.child == null {
        break;
      }
      prev, node, i := node, node.child, i + 1;
      found := Holds(c, Block(node.index, node.blockSize));
    }
  }

  /** Once the new node and its predecessor point on, the list with the new node is linked. */
  lemma LinksInserted(newRoot: MemoryHeapNode?, l: seq<MemoryHeapNode>, k: nat, x: MemoryHeapNode)
    requires Distinct(l) && x !in l && k <= |l|
    requires newRoot == if k == 0 then x else At(l, 0)
    requires x.child == At(l, k) && (k > 0 ==> l[k - 1].child == x)
    requires forall i :: 0 <= i < |l| && i + 1 != k ==> l[i].child == At(l, i + 1)
    ensures Linked(newRoot, Inserted(l, k, x))
  {
    hide Inserted, Distinct;
    InsertedElements(l, k, x);
    InsertedDistinct(l, k, x);
    var m := Inserted(l, k, x);
    forall i | 0 <= i < |m|
      ensures m[i].child == At(m, i + 1)
    {
      if i < k {
        assert m[i] == l[i];
      } else if i > k {
        assert m[i] == l[i - 1];
      }
    }
  }

  lemma LinksRemoved(newRoot: MemoryHeapNode?, l: seq<MemoryHeapNode>, k: nat)
    requires Distinct(l) && k < |l|
    requires newRoot == if k == 0 then At(l, 1) else l[0]
    requires k > 0 ==> l[k - 1].child == At(l, k + 1)
    requires forall i :: 0 <= i < |l| && i + 1 != k && i != k ==> l[i].child == At(l, i + 1)
    ensures Linked(newRoot, Removed(l, k))
  {
    hide Removed, Distinct;
    RemovedElements(l, k);
    RemovedDistinct(l, k);
    var m := Removed(l, k);
    forall i | 0 <= i < |m|
      ensures m[i].child == At(m, i + 1)
    {
      if i < k {
        assert m[i] == l[i];
      } else {
        assert m[i] == l[i + 1];
      }
    }
  }

  /** Links newNode in before the first node with a larger block. */
  method MemoryHeapPush(root: MemoryHeapNode?, newNode: MemoryHeapNode, ghost l: seq<MemoryHeapNode>)
    returns (newRoot: MemoryHeapNode?, ghost m: seq<MemoryHeapNode>)
    requires Linked(root, l) && newNode !in l && newNode.child == null
    modifies newNode`child, l`child
    ensures m == Inserted(l, FirstAbove(old(Blocks(l)), newNode.blockSize), newNode)
    ensures Linked(newRoot, m)
  {
    hide Inserted, FirstAbove, Blocks;
    ghost var k := FirstAbove(Blocks(l), newNode.blockSize);
    m := Inserted(l, k, newNode);
    newRoot := root;
    if root == null {
      newRoot := newNode;
    } else {
      var prev, node, found := WalkAbove(root, newNode.blockSize, l);
      if found {
        if prev == null {
          newRoot := newNode;
        } else {
          prev.child := newNode;
        }
        newNode.child := node;
      } else {
        node.child := newNode;
        newNode.child := null;
      }
    }
    LinksInserted(newRoot, l, k, newNode);
  }

  /** Unlinks the first node that meets the condition. */
  method MemoryHeapPop(root: MemoryHeapNode?, c: Condition, ghost l: seq<MemoryHeapNode>)
    returns (newRoot: MemoryHeapNode?, popped: MemoryHeapNode?, ghost m: seq<MemoryHeapNode>)
    requires Linked(root, l)
    modifies l`child
    ensures var k := FirstMatch(old(Blocks(l)), c);
            if k == |l| then popped == null && m == l
            else popped == l[k] && m == Removed(l, k) && popped.child == null
    ensures Linked(newRoot, m)
  {
    hide Removed, FirstMatch, Blocks, Linked, Distinct, Holds;
    LinksOf(root, l);
    newRoot, popped, m := root, null, l;
    if root != null {
      ghost var k := FirstMatch(Blocks(l), c);
      var prev, node, found := WalkMatch(root, c, l);
      if found {
        OnlyAt(l, k);
        OnlyAt(l, if k == 0 then 0 else k - 1);
        if prev == null {
          newRoot := node.child;
        } else {
          prev.child := node.child;
        }
        node.child := null;
        popped := node;
        m := Removed(l, k);
        LinksRemoved(newRoot, l, k);
      }
    }
  }

  // ----- what pushing and popping do to the blocks

  lemma BlocksAt(l: seq<MemoryHeapNode>, bs: seq<Block>)
    requires |bs| == |l| && forall i :: 0 <= i < |l| ==> bs[i] == BlockOf(l[i])
    ensures Blocks(l) == bs
  {
  }

  lemma BlocksInserted(l: seq<MemoryHeapNode>, x: MemoryHeapNode)
    ensures Blocks(Inserted(l, FirstAbove(Blocks(l), x.blockSize), x)) == Push(Blocks(l), BlockOf(x))
  {
    hide Inserted, FirstAbove, Blocks;
    var k := FirstAbove(Blocks(l), x.blockSize);
    InsertedElements(l, k, x);
    InsertedElements(Blocks(l), k, BlockOf(x));
    BlocksAt(Inserted(l, k, x), Inserted(Blocks(l), k, BlockOf(x)));
  }

  lemma BlocksRemoved(l: seq<MemoryHeapNode>, k: nat)
    requires k < |l|
    ensures Blocks(Removed(l, k)) == Removed(Blocks(l), k)
  {
    hide Removed, Blocks;
    RemovedElements(l, k);
    RemovedElements(Blocks(l), k);
    BlocksAt(Removed(l, k), Removed(Blocks(l), k));
  }

  lemma InsertedMembers(l: seq<MemoryHeapNode>, k: nat, x: MemoryHeapNode)
    requires k <= |l|
    ensures forall y :: y in Inserted(l, k, x) <==> y in l || y == x
  {
    InsertedMultiset(l, k, x);
    assert forall y :: y in Inserted(l, k, x) <==> y in multiset(Inserted(l, k, x));
  }

  lemma RemovedMembers(l: seq<MemoryHeapNode>, k: nat)
    requires k < |l| && Distinct(l)
    ensures forall y :: y in Removed(l, k) <==> y in l && y != l[k]
  {
    RemovedMultiset(l, k);
    assert forall y :: y in Removed(l, k) ==> y in multiset(Removed(l, k));
    forall y | y in l && y != l[k]
      ensures y in Removed(l, k)
    {
      assert y in multiset(l);
    }
    assert l[k] !in Removed(l, k);
  }

  /** A push in terms of the nodes' blocks and of membership. */
  method PushBlock(root: MemoryHeapNode?, x: MemoryHeapNode, ghost l: seq<MemoryHeapNode>)
    returns (newRoot: MemoryHeapNode?, ghost m: seq<MemoryHeapNode>)
    requires Linked(root, l) && x !in l && x.child == null
    modifies x`child, l`child
    ensures Linked(newRoot, m) && Blocks(m) == Push(old(Blocks(l)), old(BlockOf(x)))
    ensures forall y :: y in m <==> y in l || y == x
  {
    hide Blocks, Inserted, Push, FirstAbove, Linked;
    ghost var k := FirstAbove(Blocks(l), x.blockSize);
    ghost var longer := Inserted(l, k, x);
    BlocksInserted(l, x);
    InsertedMembers(l, k, x);
    newRoot, m := MemoryHeapPush(root, x, l);
    assert m == longer && Blocks(longer) == old(Blocks(longer));
  }

  /** A pop in terms of the nodes' blocks and of membership. */
  method PopBlock(root: MemoryHeapNode?, c: Condition, ghost l: seq<MemoryHeapNode>)
    returns (newRoot: MemoryHeapNode?, x: MemoryHeapNode?, ghost m: seq<MemoryHeapNode>)
    requires Linked(root, l)
    modifies l`child
    ensures Linked(newRoot, m) && Blocks(m) == Rest(old(Blocks(l)), c)
    ensures Popped(old(Blocks(l)), c) == if x == null then None else Some(BlockOf(x))
    ensures x != null ==> x in l && x.child == null
    ensures forall y :: y in m <==> y in l && y != x
  {
    hide Blocks, Removed, FirstMatch;
    ghost var k, shorter := FirstMatch(Blocks(l), c), l;
    if k < |l| {
      shorter := Removed(l, k);
      BlocksRemoved(l, k);
      RemovedMembers(l, k);
    }
    newRoot, x, m := MemoryHeapPop(root, c, l);
    assert m == shorter && Blocks(shorter) == old(Blocks(shorter));
  }
}
