/** The operations of the L4 switching table (udpdk_bind_table.c) over sock_bind_table and the
    four shared-memory pools of bind_infos, lists, nodes and iterators. */
module BindTables {
  import opened Constants
  import opened Sequences
  import opened Shmalloc
  import opened LinkedList
  import opened Bindings
  import opened PortTables

  class BindTable {
    const ports: PortTable
    const bindInfoAlloc: Allocator
    const listAlloc: Allocator
    const nodeAlloc: Allocator
    const iterAlloc: Allocator

    ghost function Pools(): set<Allocator> {
      {bindInfoAlloc, listAlloc, nodeAlloc, iterAlloc}
    }

    // The abstract contents: the bindings of every port.
    ghost function Table(): Bindings.Table
      reads ports
    {
      ports.table
    }

    // The pools are four different ones, of the sizes that the program gives them.
    ghost predicate PoolsApart() {
      && bindInfoAlloc != listAlloc && bindInfoAlloc != nodeAlloc && bindInfoAlloc != iterAlloc
      && listAlloc != nodeAlloc && listAlloc != iterAlloc && nodeAlloc != iterAlloc
      && bindInfoAlloc.size == NUM_SOCKETS_MAX && nodeAlloc.size == NUM_SOCKETS_MAX
      && listAlloc.size == UDP_MAX_PORT && iterAlloc.size == ITERATORS_MAX
    }

    // No pool is part of the table: stated outright, to keep the frames of the methods simple.
    ghost predicate Separate()
      reads ports
    {
      Outside(bindInfoAlloc) && Outside(listAlloc) && Outside(nodeAlloc) && Outside(iterAlloc)
    }

    ghost predicate Outside(o: object)
      reads ports
    {
      o !in ports.lists && o !in ports.nodes && o != ports && o != ports.slots
    }

    ghost predicate PoolsValid()
      reads Pools()
    {
      && PoolsApart()
      && bindInfoAlloc.Valid() && listAlloc.Valid() && nodeAlloc.Valid() && iterAlloc.Valid()
    }

    // The live blocks are exactly those the table uses; `spare` lists have no binding yet.
    ghost predicate BlocksMatch(spare: nat)
      reads ports, bindInfoAlloc`live, listAlloc`live, nodeAlloc`live
    {
      && ports.nodeOf.Keys == nodeAlloc.live && ports.infoOf.Keys == bindInfoAlloc.live
      && ports.listOf.Keys == listAlloc.live
      && |nodeAlloc.live| == Total(ports.table) && |bindInfoAlloc.live| == Total(ports.table)
      && |listAlloc.live| == Busy(ports.table) + spare
    }

    // A port has a list only while it has bindings, `port` excepted.
    ghost predicate OthersOccupied(port: nat)
      reads ports
    {
      OccupiedBut(ports.table, ports.listed, port)
    }

    ghost predicate Valid()
      reads ports, ports.slots, ports.lists, ports.nodes, Pools()
    {
      && PoolsValid() && Separate() && ports.Valid() && BlocksMatch(0) && iterAlloc.live == {}
      && OthersOccupied(UDP_MAX_PORT)
    }

    /** btable_init: all ports free, a full pool of bind_info (12 bytes each). The other pools
        come from udpdk_list_init. */
    constructor Init(infoZone: nat, listAlloc: Allocator, nodeAlloc: Allocator, iterAlloc: Allocator)
      requires listAlloc.Valid() && nodeAlloc.Valid() && iterAlloc.Valid()
      requires listAlloc.live == nodeAlloc.live == iterAlloc.live == {}
      requires listAlloc.size == UDP_MAX_PORT && nodeAlloc.size == NUM_SOCKETS_MAX
      requires iterAlloc.size == ITERATORS_MAX
      requires listAlloc != nodeAlloc && listAlloc != iterAlloc && nodeAlloc != iterAlloc
      ensures Valid() && Table() == EmptyTable()
      ensures fresh(ports.Repr()) && fresh(bindInfoAlloc)
      ensures bindInfoAlloc.mzAddr == infoZone && bindInfoAlloc.HasLayout(Layout(1, 149, 1173))
      ensures this.listAlloc == listAlloc && this.nodeAlloc == nodeAlloc && this.iterAlloc == iterAlloc
    {
      PoolLayouts();
      var infos := new Allocator.Init(infoZone, NUM_SOCKETS_MAX, 12);
      var empty := new PortTable();
      bindInfoAlloc, ports := infos, empty;
      this.listAlloc, this.nodeAlloc, this.iterAlloc := listAlloc, nodeAlloc, iterAlloc;
    }

    /** The index of a free port, -1 if there is none. */
    method GetFreePort() returns (port: int)
      requires Valid()
      ensures FreePort(Table()) == if port < 0 then None else Some(port)
      ensures port == -1 || 0 <= port < UDP_MAX_PORT
    {
      for i := 0 to UDP_MAX_PORT
        invariant FreePort(ports.table) == FreePortFrom(ports.table, i)
      {
        assert ports.PortOk(i);
        if ports.slots[i] == null {
          return i;
        }
      }
      return -1;
    }

    /** The scan with early exit decides the conflict rule for the whole port. */
    method CanBindAt(ip: nat, port: nat, reuseAddr: bool, reusePort: bool) returns (canBind: bool)
      requires Valid() && port < UDP_MAX_PORT
      modifies iterAlloc
      ensures Valid()
      ensures forall s: nat {:trigger Binding(s, ip, reuseAddr, reusePort)} ::
                canBind <==> CanBind(Table()[port], Binding(s, ip, reuseAddr, reusePort))
    {
      assert ports.PortOk(port);
      if ports.slots[port] == null {
        return true;
      }
      canBind := FindConflict(ports.slots[port], ports.table[port], ip, reuseAddr, reusePort, iterAlloc);
    }

    /** A socket is bound to (ip, port) exactly when the conflict rule allows it; nothing else
        changes. The pools never run out while fewer than 1024 bindings exist. */
    method AddBinding(s: nat, ip: nat, port: nat, reuseAddr: bool, reusePort: bool) returns (ret: int)
      requires Valid() && port < UDP_MAX_PORT && Total(Table()) < NUM_SOCKETS_MAX
      modifies ports, ports.slots, Pools(), ports.lists, ports.nodes
      ensures Valid()
      ensures forall l :: l in ports.lists ==> l in old(ports.lists) || fresh(l)
      ensures forall n :: n in ports.nodes ==> n in old(ports.nodes) || fresh(n)
      ensures var b := Binding(s, ip, reuseAddr, reusePort);
              if CanBind(old(Table())[port], b)
              then ret == 0 && Table() == old(Table())[port := Insert(old(Table())[port], b)]
              else ret == -1 && Table() == old(Table())
    {
      var canBind := CanBindAt(ip, port, reuseAddr, reusePort);
      ghost var b := Binding(s, ip, reuseAddr, reusePort);
      assert canBind <==> CanBind(old(Table())[port], b);
      if !canBind {
        return -1;
      }
      ghost var list, node := Install(s, ip, port, reuseAddr, reusePort);
      return 0;
    }

    // The part of btable_add_binding behind the check.
    method Install(s: nat, ip: nat, port: nat, reuseAddr: bool, reusePort: bool)
        returns (ghost list: List<BindInfo>, ghost node: Node)
      requires Valid() && port < UDP_MAX_PORT && Total(Table()) < NUM_SOCKETS_MAX
      modifies ports, ports.slots, ports.lists, ports.nodes
      modifies bindInfoAlloc, nodeAlloc, listAlloc
      ensures Valid()
      ensures ports.lists == old(ports.lists) + {list} && (list in old(ports.lists) || fresh(list))
      ensures ports.nodes == old(ports.nodes) + {node} && fresh(node)
      ensures Table() == old(Table())[port := Insert(old(Table())[port], Binding(s, ip, reuseAddr, reusePort))]
    {
      BusyBounds(Table());
      list := EnsureList(port);
      node := Append(port, s, ip, reuseAddr, reusePort);
    }

    // All is well except that the list of `port` may be empty: just allocated, or about to go.
    ghost predicate Reserved(port: nat)
      reads ports, ports.slots, ports.lists, ports.nodes, Pools()
    {
      && PoolsValid() && Separate() && ports.Valid() && iterAlloc.live == {} && OthersOccupied(port)
      && port < UDP_MAX_PORT && ports.slots[port] != null
      && BlocksMatch(if ports.table[port] == [] then 1 else 0)
    }

    // Allocate the list of a port if it is missing.
    method EnsureList(port: nat) returns (ghost list: List<BindInfo>)
      requires Valid() && port < UDP_MAX_PORT && Busy(Table()) < UDP_MAX_PORT
      modifies ports`listed, ports`lists, ports`listOf, ports.slots, listAlloc
      ensures Reserved(port)
      ensures ports.lists == old(ports.lists) + {list} && (list in old(ports.lists) || fresh(list))
    {
      assert ports.PortOk(port);
      if ports.slots[port] != null {
        return ports.slots[port];
      }
      list := NewList(port);
    }

    method NewList(port: nat) returns (ghost list: List<BindInfo>)
      requires Valid() && port < UDP_MAX_PORT && ports.slots[port] == null && |listAlloc.live| < UDP_MAX_PORT
      modifies ports`listed, ports`lists, ports`listOf, ports.slots, listAlloc
      ensures Reserved(port) && ports.lists == old(ports.lists) + {list} && fresh(list)
    {
      assert ports.PortOk(port);
      var self := ListNew<BindInfo>(listAlloc);
      InstallList(port, self);
      list := self;
    }

    // An empty list that holds a block of its own becomes the list of the port.
    method InstallList(port: nat, list: List<BindInfo>)
      requires PoolsValid() && Separate() && ports.Valid() && iterAlloc.live == {} && OthersOccupied(port)
      requires port < UDP_MAX_PORT && ports.slots[port] == null && ports.table[port] == []
      requires list.Valid() && list.nodes == [] && list !in ports.lists && (list as object) !in Pools()
      requires list.block !in ports.listOf && listAlloc.live == ports.listOf.Keys + {list.block}
      requires ports.nodeOf.Keys == nodeAlloc.live && ports.infoOf.Keys == bindInfoAlloc.live
      requires |nodeAlloc.live| == |bindInfoAlloc.live| == Total(ports.table)
      requires |listAlloc.live| == Busy(ports.table) + 1
      modifies ports`listed, ports`lists, ports`listOf, ports.slots
      ensures Reserved(port) && ports.lists == old(ports.lists) + {list}
    {
      ports.SetList(port, list);
    }

    // Allocate a bind_info with its node and put it in the list of the port.
    method Append(port: nat, s: nat, ip: nat, reuseAddr: bool, reusePort: bool) returns (ghost node: Node)
      requires Reserved(port) && Total(Table()) < NUM_SOCKETS_MAX
      modifies ports`table, ports`nodes, ports`nodeOf, ports`infoOf, ports.lists, ports.nodes
      modifies bindInfoAlloc, nodeAlloc
      ensures Valid() && fresh(node) && ports.nodes == old(ports.nodes) + {node}
      ensures ports.lists == old(ports.lists)
      ensures Table() == old(Table())[port := Insert(old(Table())[port], Binding(s, ip, reuseAddr, reusePort))]
    {
      var ln := NewNode(Binding(s, ip, reuseAddr, reusePort), port, bindInfoAlloc, nodeAlloc);
      node := ln;
      Attach(port, ln);
    }

    method Attach(port: nat, node: Node)
      requires PoolsValid() && Separate() && ports.Valid() && iterAlloc.live == {} && OthersOccupied(port)
      requires port < UDP_MAX_PORT && ports.slots[port] != null
      requires node !in ports.nodes && node.val.port == port && (node as object) !in Pools()
      requires node.block !in ports.nodeOf && nodeAlloc.live == ports.nodeOf.Keys + {node.block}
      requires node.val.block !in ports.infoOf
      requires bindInfoAlloc.live == ports.infoOf.Keys + {node.val.block}
      requires ports.listOf.Keys == listAlloc.live
      requires |nodeAlloc.live| == |bindInfoAlloc.live| == Total(ports.table) + 1
      requires |listAlloc.live| == Busy(ports.table) + if ports.table[port] == [] then 1 else 0
      modifies ports`table, ports`nodes, ports`nodeOf, ports`infoOf, ports.lists, ports.nodes, node
      ensures Valid() && ports.nodes == old(ports.nodes) + {node} && ports.lists == old(ports.lists)
      ensures Table() == old(Table())[port := Insert(old(Table())[port], node.val.info)]
    {
      ghost var after := AfterInsert(ports.table, ports.listed, port, node.val.info);
      ports.Push(port, node, node.val.info.ip == INADDR_ANY);
      assert ports.table == after;
    }

    /** Removes the first binding of socket s from the port and frees the port when it was the
        last one; every block that the binding used is given back. The caller names a port that
        has bindings: the code reads its list without checking. */
    method DelBinding(s: nat, port: nat)
      requires Valid() && port < UDP_MAX_PORT && Table()[port] != []
      modifies ports`table, ports`listed, ports`listOf, ports`nodeOf, ports`infoOf, ports.slots, Pools(), ports.lists, ports.nodes
      ensures Valid() && ports.lists == old(ports.lists) && ports.nodes == old(ports.nodes)
      ensures Table() == old(Table())[port := Delete(old(Table())[port], s)]
    {
      assert ports.PortOk(port);
      Unbind(s, port);
      ReleasePort(port);
    }

    method Unbind(s: nat, port: nat)
      requires Valid() && port < UDP_MAX_PORT && ports.slots[port] != null
      modifies ports`table, ports`nodeOf, ports`infoOf, ports.lists, ports.nodes
      modifies bindInfoAlloc, nodeAlloc, iterAlloc
      ensures Reserved(port) && ports.lists == old(ports.lists) && ports.nodes == old(ports.nodes)
      ensures Table() == old(Table())[port := Delete(old(Table())[port], s)]
    {
      var node, k := FindAt(s, port);
      if node != null {
        Detach(port, node, k);
      }
    }

    method FindAt(s: nat, port: nat) returns (node: ListNode?<BindInfo>, ghost k: nat)
      requires Valid() && port < UDP_MAX_PORT && ports.slots[port] != null
      modifies iterAlloc
      ensures Reserved(port)
      ensures k == IndexOf(Table()[port], s) && node == At(ports.slots[port].nodes, k)
      ensures |ports.slots[port].nodes| == |Table()[port]|
    {
      assert ports.PortOk(port);
      node, k := FindSocket(ports.slots[port], ports.table[port], s, iterAlloc);
    }

    // Give back the bind_info and the node of a binding.
    method Detach(port: nat, node: Node, ghost k: nat)
      requires Reserved(port) && k < |ports.slots[port].nodes| && ports.slots[port].nodes[k] == node
      modifies ports`table, ports`nodeOf, ports`infoOf, ports.lists, ports.nodes
      modifies bindInfoAlloc, nodeAlloc
      ensures Reserved(port) && ports.lists == old(ports.lists) && ports.nodes == old(ports.nodes)
      ensures k < |old(Table())[port]|
      ensures Table() == old(Table())[port := RemoveAt(old(Table())[port], k)]
    {
      assert ports.PortOk(port);
      FreeBlock(bindInfoAlloc, node.val.block);
      RemoveNode(port, node, k);
    }

    method RemoveNode(port: nat, node: Node, ghost k: nat)
      requires PoolsValid() && Separate() && ports.Valid() && iterAlloc.live == {} && OthersOccupied(port)
      requires port < UDP_MAX_PORT && ports.slots[port] != null
      requires k < |ports.slots[port].nodes| && ports.slots[port].nodes[k] == node
      requires node.block in nodeAlloc.live && nodeAlloc.live == ports.nodeOf.Keys
      requires bindInfoAlloc.live == ports.infoOf.Keys - {node.val.block}
      requires ports.listOf.Keys == listAlloc.live
      requires |nodeAlloc.live| == |bindInfoAlloc.live| + 1 == Total(ports.table)
      requires |listAlloc.live| == Busy(ports.table) && ports.table[port] != []
      modifies ports`table, ports`nodeOf, ports`infoOf, ports.lists, ports.nodes
      modifies nodeAlloc
      ensures Reserved(port) && ports.lists == old(ports.lists) && ports.nodes == old(ports.nodes)
      ensures k < |old(Table())[port]|
      ensures Table() == old(Table())[port := RemoveAt(old(Table())[port], k)]
    {
      assert ports.PortOk(port);
      ghost var after := AfterRemove(ports.table, ports.listed, port, k);
      CardMinus(nodeAlloc.live, node.block);
      ports.Remove(port, node, k, nodeAlloc, after);
    }

    // If no more bindings are left, free the list of the port.
    method ReleasePort(port: nat)
      requires Reserved(port)
      modifies ports`listed, ports`listOf, ports.slots, listAlloc, nodeAlloc
      ensures Valid() && Table() == old(Table())
    {
      assert ports.PortOk(port);
      if ports.slots[port].len == 0 {
        FreeList(port);
      }
    }

    method FreeList(port: nat)
      requires Reserved(port) && Table()[port] == []
      modifies ports`listed, ports`listOf, ports.slots, listAlloc, nodeAlloc
      ensures Valid() && Table() == old(Table())
    {
      assert ports.PortOk(port) && ports.slots[port].nodes == [] && Blocks(ports.slots[port].nodes) == {};
      CardMinus(listAlloc.live, ports.slots[port].block);
      ports.slots[port].Destroy(nodeAlloc, listAlloc);
      UninstallList(port);
    }

    // The port gives up its list, whose block is free already.
    method UninstallList(port: nat)
      requires PoolsValid() && Separate() && ports.Valid() && iterAlloc.live == {} && OthersOccupied(port)
      requires port < UDP_MAX_PORT && ports.slots[port] != null && ports.table[port] == []
      requires listAlloc.live == ports.listOf.Keys - {ports.slots[port].block}
      requires ports.nodeOf.Keys == nodeAlloc.live && ports.infoOf.Keys == bindInfoAlloc.live
      requires |nodeAlloc.live| == |bindInfoAlloc.live| == Total(ports.table)
      requires |listAlloc.live| == Busy(ports.table)
      modifies ports`listed, ports`listOf, ports.slots
      ensures Valid() && Table() == old(Table())
    {
      ports.ClearList(port);
    }
  }

  // btable_can_bind on a list: an iterator is taken from the pool and given back.
  method FindConflict(list: List<BindInfo>, ghost bound: Bound, ip: nat, reuseAddr: bool,
      reusePort: bool, iterAlloc: Allocator) returns (canBind: bool)
    requires list.Valid() && Carries(list.nodes, bound)
    requires iterAlloc.Valid() && iterAlloc.live == {} && iterAlloc.size > 0
    modifies iterAlloc
    ensures iterAlloc.Valid() && iterAlloc.live == {}
    ensures forall s: nat {:trigger Binding(s, ip, reuseAddr, reusePort)} ::
              canBind <==> CanBind(bound, Binding(s, ip, reuseAddr, reusePort))
  {
    ghost var nodes := list.nodes;
    var it := IteratorNew(list, LIST_HEAD, iterAlloc);
    canBind := ScanConflicts(it, nodes, bound, ip, reuseAddr, reusePort);
    it.Destroy(iterAlloc);
  }

  // The loop of btable_can_bind.
  method ScanConflicts(it: ListIterator<BindInfo>, ghost nodes: seq<Node>,
      ghost bound: Bound, ip: nat, reuseAddr: bool, reusePort: bool) returns (canBind: bool)
    requires Linked(nodes) && it.direction == LIST_HEAD && it.OnPath(nodes, 0)
    requires Carries(nodes, bound)
    modifies it
    ensures forall s: nat :: canBind <==> CanBind(bound, Binding(s, ip, reuseAddr, reusePort))
  {
    canBind := true;
    ghost var k: nat := 0;
    while true
      invariant it.OnPath(nodes, k) && k <= |nodes|
      invariant forall s: nat, i :: 0 <= i < k ==> Passes(bound[i], Binding(s, ip, reuseAddr, reusePort))
      decreases |nodes| - k
    {
      var node := it.Next(nodes, k);
      if node == null {
        return true;
      }
      if Passes(node.val.info, Binding(0, ip, reuseAddr, reusePort)) {
        k := k + 1;
        continue;
      }
      assert forall s: nat :: !Passes(bound[k], Binding(s, ip, reuseAddr, reusePort));
      return false;
    }
  }

  // The search of btable_del_binding: the first node of the list with that socket.
  method FindSocket(list: List<BindInfo>, ghost bound: Bound, s: nat, iterAlloc: Allocator)
      returns (node: ListNode?<BindInfo>, ghost k: nat)
    requires list.Valid() && Carries(list.nodes, bound)
    requires iterAlloc.Valid() && iterAlloc.live == {} && iterAlloc.size > 0
    modifies iterAlloc
    ensures iterAlloc.Valid() && iterAlloc.live == {}
    ensures k == IndexOf(bound, s) && node == At(list.nodes, k)
  {
    ghost var nodes := list.nodes;
    var it := IteratorNew(list, LIST_HEAD, iterAlloc);
    node, k := ScanForSocket(it, nodes, bound, s);
    it.Destroy(iterAlloc);
  }

  method ScanForSocket(it: ListIterator<BindInfo>, ghost nodes: seq<Node>, ghost bound: Bound, s: nat)
      returns (node: ListNode?<BindInfo>, ghost k: nat)
    requires Linked(nodes) && it.direction == LIST_HEAD && it.OnPath(nodes, 0)
    requires Carries(nodes, bound)
    modifies it
    ensures k == IndexOf(bound, s) && node == At(nodes, k)
  {
    k := 0;
    while true
      invariant it.OnPath(nodes, k) && k <= |nodes|
      invariant forall i :: 0 <= i < k ==> bound[i].sockfd != s
      decreases |nodes| - k
    {
      node := it.Next(nodes, k);
      if node == null || node.val.info.sockfd == s {
        break;
      }
      k := k + 1;
    }
  }

  // A bind_info block and a list node that carries it.
  method NewNode(b: Binding, ghost port: nat, infoAlloc: Allocator, nodeAlloc: Allocator)
      returns (node: Node)
    requires infoAlloc.Valid() && nodeAlloc.Valid()
    requires infoAlloc != nodeAlloc
    requires |infoAlloc.live| < infoAlloc.size && |nodeAlloc.live| < nodeAlloc.size
    modifies infoAlloc, nodeAlloc
    ensures infoAlloc.Valid() && nodeAlloc.Valid()
    ensures fresh(node) && node.val.info == b && node.val.port == port
    ensures node.block !in old(nodeAlloc.live) && node.val.block !in old(infoAlloc.live)
    ensures nodeAlloc.live == old(nodeAlloc.live) + {node.block}
    ensures infoAlloc.live == old(infoAlloc.live) + {node.val.block}
  {
    var addr := infoAlloc.Malloc();
    var info := new BindInfo(addr.value, b, port);
    var ln := ListNodeNew(info, nodeAlloc);
    node := ln;
  }
}
