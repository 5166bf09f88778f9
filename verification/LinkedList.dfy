/** The intrusive doubly linked list (list/udpdk_list.c, udpdk_list_node.c, udpdk_list_iterator.c).
    Every struct lives in a block of a shared-memory pool; an object stands for one such struct
    from the allocation of its block to the release of it. */
module LinkedList {
  import opened Sequences
  import opened Shmalloc

  class ListNode<V> {
    const block: nat
    const val: V
    var prev: ListNode?<V>
    var next: ListNode?<V>

    constructor (block: nat, val: V)
      ensures this.block == block && this.val == val
      ensures prev == null && next == null
    {
      this.block := block;
      this.val := val;
      this.prev := null;
      this.next := null;
    }
  }

  datatype Direction = LIST_HEAD | LIST_TAIL

  ghost predicate Distinct<T>(s: seq<T>) {
    forall i, j :: 0 <= i < j < |s| ==> s[i] != s[j]
  }

  // The node at position i, NULL outside the sequence.
  ghost function At<V>(nodes: seq<ListNode<V>>, i: int): ListNode?<V> {
    if 0 <= i < |nodes| then nodes[i] else null
  }

  lemma AtRemoved<V>(nodes: seq<ListNode<V>>, k: nat)
    requires k < |nodes|
    ensures forall i {:trigger At(RemoveAt(nodes, k), i)} ::
              At(RemoveAt(nodes, k), i) == At(nodes, if i < k then i else i + 1)
  {
  }

  // The prev and next pointers of `nodes` spell out that sequence.
  ghost predicate Linked<V>(nodes: seq<ListNode<V>>)
    reads nodes
  {
    && (forall i {:trigger nodes[i].prev} :: 0 <= i < |nodes| ==> nodes[i].prev == At(nodes, i - 1))
    && (forall i {:trigger nodes[i].next} :: 0 <= i < |nodes| ==> nodes[i].next == At(nodes, i + 1))
    && Distinct(nodes)
  }

  // Bypassing node k in both directions links up the sequence without it.
  lemma RelinkedAround<V>(nodes: seq<ListNode<V>>, k: nat)
    requires k < |nodes| && Distinct(nodes)
    requires forall i {:trigger nodes[i].prev} :: 0 <= i < |nodes| && i != k ==>
               nodes[i].prev == At(nodes, if i == k + 1 then k - 1 else i - 1)
    requires forall i {:trigger nodes[i].next} :: 0 <= i < |nodes| && i != k ==>
               nodes[i].next == At(nodes, if i == k - 1 then k + 1 else i + 1)
    ensures Linked(RemoveAt(nodes, k))
  {
    AtRemoved(nodes, k);
    var s := RemoveAt(nodes, k);
    forall i | 0 <= i < |s|
      ensures s[i].prev == At(s, i - 1) && s[i].next == At(s, i + 1)
    {
      var m := if i < k then i else i + 1;
      assert s[i] == nodes[m] && nodes[m].prev == At(nodes, if m == k + 1 then k - 1 else m - 1);
      assert nodes[m].next == At(nodes, if m == k - 1 then k + 1 else m + 1);
    }
  }

  class List<V> {
    const block: nat
    var head: ListNode?<V>
    var tail: ListNode?<V>
    var len: nat
    ghost var nodes: seq<ListNode<V>>

    ghost predicate Valid()
      reads this, nodes
    {
      && len == |nodes|
      && head == At(nodes, 0)
      && tail == At(nodes, |nodes| - 1)
      && Linked(nodes)
    }

    constructor (block: nat)
      ensures Valid() && nodes == [] && this.block == block
    {
      this.block := block;
      this.head := null;
      this.tail := null;
      this.len := 0;
      this.nodes := [];
    }

    method RPush(node: ListNode?<V>) returns (pushed: ListNode?<V>)
      requires Valid() && (node != null ==> node !in nodes)
      modifies this`head, this`tail, this`len, this`nodes
      modifies nodes`next, node
      ensures Valid() && pushed == node
      ensures nodes == if node == null then old(nodes) else old(nodes) + [node]
    {
      if node == null {
        return null;
      }
      if len != 0 {
        node.prev := tail;
        node.next := null;
        tail.next := node;
        tail := node;
      } else {
        head := node;
        tail := node;
        node.prev := null;
        node.next := null;
      }
      len := len + 1;
      nodes := nodes + [node];
      return node;
    }

    method LPush(node: ListNode?<V>) returns (pushed: ListNode?<V>)
      requires Valid() && (node != null ==> node !in nodes)
      modifies this`head, this`tail, this`len, this`nodes
      modifies nodes`prev, node
      ensures Valid() && pushed == node
      ensures nodes == if node == null then old(nodes) else [node] + old(nodes)
    {
      if node == null {
        return null;
      }
      if len != 0 {
        node.next := head;
        node.prev := null;
        head.prev := node;
        head := node;
      } else {
        head := node;
        tail := node;
        node.prev := null;
        node.next := null;
      }
      len := len + 1;
      nodes := [node] + nodes;
      return node;
    }

    method RPop() returns (node: ListNode?<V>)
      requires Valid()
      modifies this`head, this`tail, this`len, this`nodes, nodes
      ensures Valid()
      ensures old(nodes) == [] ==> node == null && nodes == []
      ensures old(nodes) != [] ==> old(nodes) == nodes + [node] && node.prev == node.next == null
    {
      if len == 0 {
        return null;
      }
      node := tail;
      assert node.prev == At(nodes, |nodes| - 2);
      len := len - 1;
      if len != 0 {
        tail := node.prev;
        tail.next := null;
      } else {
        tail := null;
        head := null;
      }
      node.next := null;
      node.prev := null;
      nodes := nodes[..|nodes| - 1];
    }

    method LPop() returns (node: ListNode?<V>)
      requires Valid()
      modifies this`head, this`tail, this`len, this`nodes, nodes
      ensures Valid()
      ensures old(nodes) == [] ==> node == null && nodes == []
      ensures old(nodes) != [] ==> old(nodes) == [node] + nodes && node.prev == node.next == null
    {
      if len == 0 {
        return null;
      }
      node := head;
      assert node.next == At(nodes, 1);
      len := len - 1;
      if len != 0 {
        head := node.next;
        head.prev := null;
      } else {
        head := null;
        tail := null;
      }
      node.next := null;
      node.prev := null;
      nodes := nodes[1..];
    }

    /** Unlinks the node at position k, wherever it is, and gives its block back. */
    method Remove(node: ListNode<V>, ghost k: nat, nodeAlloc: Allocator)
      requires Valid() && k < |nodes| && nodes[k] == node
      requires nodeAlloc.Valid()
      modifies this`head, this`tail, this`len, this`nodes, nodes
      modifies nodeAlloc
      ensures Valid() && nodeAlloc.Valid()
      ensures nodes == RemoveAt(old(nodes), k)
      ensures node.block in old(nodeAlloc.live) ==> nodeAlloc.live == old(nodeAlloc.live) - {node.block}
    {
      Unlink(node, k);
      FreeBlock(nodeAlloc, node.block);
      len := len - 1;
    }

    method Unlink(node: ListNode<V>, ghost k: nat)
      requires Valid() && k < |nodes| && nodes[k] == node
      modifies this`head, this`tail, this`nodes, nodes
      ensures len == |nodes| + 1
      ensures nodes == RemoveAt(old(nodes), k)
      ensures head == At(nodes, 0)
      ensures tail == At(nodes, |nodes| - 1)
      ensures Linked(nodes)
    {
      assert node.prev == At(nodes, k - 1) && node.next == At(nodes, k + 1);
      if node.prev != null {
        node.prev.next := node.next;
      } else {
        head := node.next;
      }
      if node.next != null {
        node.next.prev := node.prev;
      } else {
        tail := node.prev;
      }
      AtRemoved(nodes, k);
      RelinkedAround(nodes, k);
      nodes := RemoveAt(nodes, k);
    }

    /** The node at `index`; a negative index counts from the tail, -1 being the last node. */
    method ItemAt(index: int, iterAlloc: Allocator) returns (node: ListNode?<V>)
      requires Valid() && iterAlloc.Valid() && iterAlloc.nFree > 0
      modifies iterAlloc
      ensures node == At(nodes, if index < 0 then |nodes| + index else index)
      ensures iterAlloc.Valid() && iterAlloc.live == old(iterAlloc.live)
    {
      var direction := LIST_HEAD;
      var position := index;
      if position < 0 {
        direction := LIST_TAIL;
        position := -position - 1;  // ~index
      }
      if position >= len {
        return null;
      }
      var it := IteratorNew(this, direction, iterAlloc);
      node := it.Walk(nodes, position);
      it.Destroy(iterAlloc);
    }

    /** Gives back every node of the list and then the list itself. */
    method Destroy(nodeAlloc: Allocator, listAlloc: Allocator)
      requires Valid() && nodeAlloc.Valid() && listAlloc.Valid()
      requires nodeAlloc != listAlloc
      requires forall i :: 0 <= i < |nodes| ==> nodes[i].block in nodeAlloc.live
      requires DistinctBlocks(nodes)
      requires block in listAlloc.live
      modifies nodeAlloc
      modifies listAlloc
      ensures nodeAlloc.Valid() && listAlloc.Valid()
      ensures nodeAlloc.live == old(nodeAlloc.live) - Blocks(nodes)
      ensures listAlloc.live == old(listAlloc.live) - {block}
    {
      DestroyNodes(nodeAlloc);
      FreeBlock(listAlloc, block);
    }

    method DestroyNodes(nodeAlloc: Allocator)
      requires Valid() && nodeAlloc.Valid()
      requires forall i :: 0 <= i < |nodes| ==> nodes[i].block in nodeAlloc.live
      requires DistinctBlocks(nodes)
      modifies nodeAlloc
      ensures nodeAlloc.Valid()
      ensures nodeAlloc.live == old(nodeAlloc.live) - Blocks(nodes)
    {
      var curr := head;
      ghost var held := nodeAlloc.live;
      for i := 0 to len
        invariant curr == At(nodes, i)
        invariant nodeAlloc.Valid() && nodeAlloc.live == held - Blocks(nodes[..i])
      {
        curr := DestroyNode(curr, i, nodeAlloc, held);
      }
      assert nodes[..len] == nodes;
    }

    // One turn of the loop: the successor is read before the node is freed.
    method DestroyNode(curr: ListNode<V>, ghost i: nat, nodeAlloc: Allocator, ghost held: set<nat>)
        returns (next: ListNode?<V>)
      requires Valid() && nodeAlloc.Valid() && i < |nodes| && curr == nodes[i]
      requires DistinctBlocks(nodes) && curr.block in held && nodeAlloc.live == held - Blocks(nodes[..i])
      modifies nodeAlloc
      ensures nodeAlloc.Valid() && nodeAlloc.live == held - Blocks(nodes[..i + 1])
      ensures next == At(nodes, i + 1)
    {
      assert nodes[i].next == At(nodes, i + 1);
      BlocksStep(nodes, i);
      next := curr.next;
      FreeBlock(nodeAlloc, curr.block);
    }
  }

  // ---------------------------------------------------------------- iteration

  // Where an iterator of the given direction is after `steps` steps over `nodes`.
  ghost function Visit<V>(nodes: seq<ListNode<V>>, direction: Direction, steps: nat): ListNode?<V> {
    if direction == LIST_HEAD then At(nodes, steps) else At(nodes, |nodes| - 1 - steps)
  }

  class ListIterator<V> {
    const block: nat
    const direction: Direction
    var next: ListNode?<V>

    constructor (block: nat, node: ListNode?<V>, direction: Direction)
      ensures this.block == block && this.direction == direction && next == node
    {
      this.block := block;
      this.next := node;
      this.direction := direction;
    }

    ghost predicate OnPath(nodes: seq<ListNode<V>>, steps: nat)
      reads this
    {
      next == Visit(nodes, direction, steps)
    }

    /** Step number `steps` of a traversal returns that node of the list, NULL past its end. */
    method Next(ghost nodes: seq<ListNode<V>>, ghost steps: nat) returns (curr: ListNode?<V>)
      requires Linked(nodes) && OnPath(nodes, steps)
      modifies this
      ensures curr == Visit(nodes, direction, steps)
      ensures OnPath(nodes, if curr == null then steps else steps + 1)
    {
      curr := next;
      if curr != null {
        next := if direction == LIST_HEAD then curr.next else curr.prev;
      }
    }

    // The loop of list_at: one step, then `count` more.
    method Walk(ghost nodes: seq<ListNode<V>>, count: nat) returns (node: ListNode?<V>)
      requires Linked(nodes) && OnPath(nodes, 0) && count < |nodes|
      modifies this
      ensures node == Visit(nodes, direction, count)
    {
      node := Next(nodes, 0);
      for i := 0 to count
        invariant OnPath(nodes, i + 1)
        invariant node == Visit(nodes, direction, i)
      {
        node := Next(nodes, i + 1);
      }
    }

    method Destroy(iterAlloc: Allocator)
      requires iterAlloc.Valid() && block in iterAlloc.live
      modifies iterAlloc
      ensures iterAlloc.Valid() && iterAlloc.live == old(iterAlloc.live) - {block}
    {
      FreeBlock(iterAlloc, block);
    }
  }

  method IteratorNew<V>(list: List<V>, direction: Direction, iterAlloc: Allocator)
      returns (it: ListIterator?<V>)
    requires list.Valid() && iterAlloc.Valid()
    modifies iterAlloc
    ensures iterAlloc.Valid()
    ensures it == null <==> |old(iterAlloc.live)| == iterAlloc.size
    ensures it == null ==> iterAlloc.live == old(iterAlloc.live)
    ensures it != null ==> fresh(it) && it.direction == direction && it.OnPath(list.nodes, 0)
    ensures it != null ==> it.block !in old(iterAlloc.live)
    ensures it != null ==> iterAlloc.live == old(iterAlloc.live) + {it.block}
  {
    var node := if direction == LIST_HEAD then list.head else list.tail;
    var self := iterAlloc.Malloc();
    if self.None? {
      return null;
    }
    it := new ListIterator(self.value, node, direction);
  }

  // ---------------------------------------------------------------- allocation of structs

  ghost function Blocks<V>(nodes: seq<ListNode<V>>): set<nat> {
    if nodes == [] then {} else Blocks(nodes[..|nodes| - 1]) + {nodes[|nodes| - 1].block}
  }

  ghost predicate DistinctBlocks<V>(nodes: seq<ListNode<V>>) {
    forall i, j :: 0 <= i < j < |nodes| ==> nodes[i].block != nodes[j].block
  }

  lemma {:induction false} BlocksMember<V>(nodes: seq<ListNode<V>>, b: nat)
    ensures b in Blocks(nodes) <==> exists i :: 0 <= i < |nodes| && nodes[i].block == b
  {
    if nodes != [] {
      var front := nodes[..|nodes| - 1];
      BlocksMember(front, b);
      if b in Blocks(front) {
        var i :| 0 <= i < |front| && front[i].block == b;
        assert nodes[i].block == b;
      }
      if i :| 0 <= i < |front| && nodes[i].block == b {
        assert front[i].block == b;
      }
    }
  }

  lemma BlocksStep<V>(nodes: seq<ListNode<V>>, i: nat)
    requires i < |nodes| && DistinctBlocks(nodes)
    ensures Blocks(nodes[..i + 1]) == Blocks(nodes[..i]) + {nodes[i].block}
    ensures nodes[i].block !in Blocks(nodes[..i])
  {
    assert nodes[..i + 1][..i] == nodes[..i];
    BlocksMember(nodes[..i], nodes[i].block);
  }

  // Releasing a live block by its own address releases exactly that block.
  method FreeBlock(alloc: Allocator, block: nat)
    requires alloc.Valid()
    modifies alloc
    ensures alloc.Valid()
    ensures block in old(alloc.live) ==> alloc.live == old(alloc.live) - {block}
  {
    if block in alloc.live {
      alloc.LiveAddress(block);
    }
    alloc.Free(block);
  }

  method ListNew<V>(listAlloc: Allocator) returns (self: List?<V>)
    requires listAlloc.Valid()
    modifies listAlloc
    ensures listAlloc.Valid()
    ensures self == null <==> |old(listAlloc.live)| == listAlloc.size
    ensures self == null ==> listAlloc.live == old(listAlloc.live)
    ensures self != null ==> fresh(self) && self.Valid() && self.nodes == []
    ensures self != null ==> self.block !in old(listAlloc.live)
    ensures self != null ==> listAlloc.live == old(listAlloc.live) + {self.block}
  {
    var addr := listAlloc.Malloc();
    if addr.None? {
      return null;
    }
    self := new List(addr.value);
  }

  method ListNodeNew<V>(val: V, nodeAlloc: Allocator) returns (self: ListNode?<V>)
    requires nodeAlloc.Valid()
    modifies nodeAlloc
    ensures nodeAlloc.Valid()
    ensures self == null <==> |old(nodeAlloc.live)| == nodeAlloc.size
    ensures self == null ==> nodeAlloc.live == old(nodeAlloc.live)
    ensures self != null ==> fresh(self) && self.val == val && self.prev == self.next == null
    ensures self != null ==> self.block !in old(nodeAlloc.live)
    ensures self != null ==> nodeAlloc.live == old(nodeAlloc.live) + {self.block}
  {
    var addr := nodeAlloc.Malloc();
    if addr.None? {
      return null;
    }
    self := new ListNode(addr.value, val);
  }
}
