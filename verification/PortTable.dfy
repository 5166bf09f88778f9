/** sock_bind_table itself (udpdk_bind_table.c): an array of 65536 list pointers whose lists
    spell out the abstract table. */
module PortTables {
  import opened Constants
  import opened Sequences
  import opened Shmalloc
  import opened LinkedList
  import opened Bindings

  class BindInfo {
    const block: nat
    const info: Binding
    ghost const port: nat  // the port it is bound to

    constructor (block: nat, info: Binding, ghost port: nat)
      ensures this.block == block && this.info == info && this.port == port
    {
      this.block := block;
      this.info := info;
      this.port := port;
    }
  }

  type Node = ListNode<BindInfo>

  // The bindings that a list of nodes carries.
  ghost predicate Carries(nodes: seq<Node>, bound: Bound) {
    |nodes| == |bound| && forall i :: 0 <= i < |nodes| ==> nodes[i].val.info == bound[i]
  }

  // Every node is of the given port and is the registered holder of its two blocks.
  ghost predicate Registered(nodes: seq<Node>, p: nat, nodeOf: map<nat, Node>, infoOf: map<nat, Node>) {
    forall i {:trigger nodes[i]} :: 0 <= i < |nodes| ==>
      && nodes[i].val.port == p
      && nodes[i].block in nodeOf && nodeOf[nodes[i].block] == nodes[i]
      && nodes[i].val.block in infoOf && infoOf[nodes[i].val.block] == nodes[i]
  }

  class PortTable {
    const slots: array<List?<BindInfo>>
    ghost var table: Table  // the abstract contents
    ghost var listed: set<nat>  // the ports that have a list
    ghost var lists: set<List<BindInfo>>
    ghost var nodes: set<Node>
    // who holds each block that the table uses
    ghost var listOf: map<nat, nat>
    ghost var nodeOf: map<nat, Node>
    ghost var infoOf: map<nat, Node>

    ghost function Repr(): set<object>
      reads this
    {
      {this, slots} + lists + nodes
    }

    // The list of port p, if any, spells out table[p] and owns its nodes.
    ghost predicate PortOk(p: nat)
      requires p < slots.Length && p < |table|
      reads this, slots, lists, nodes
    {
      && (slots[p] != null <==> p in listed)
      && if slots[p] == null then table[p] == [] else ListOk(p, slots[p])
    }

    ghost predicate ListOk(p: nat, list: List<BindInfo>)
      requires p < |table|
      reads this, lists, nodes
    {
      && list in lists && (forall n :: n in list.nodes ==> n in nodes)
      && list.Valid() && Carries(list.nodes, table[p])
      && list.block in listOf && listOf[list.block] == p
      && Registered(list.nodes, p, nodeOf, infoOf)
    }

    ghost predicate Valid()
      reads this, slots, lists, nodes
    {
      && slots.Length == UDP_MAX_PORT && |table| == UDP_MAX_PORT
      && (forall p :: p in listed ==> p < UDP_MAX_PORT)
      && (forall p: nat {:trigger PortOk(p)} :: p < UDP_MAX_PORT ==> PortOk(p))
    }

    constructor ()
      ensures Valid() && fresh(Repr()) && table == EmptyTable()
      ensures listOf == map[] && nodeOf == map[] && infoOf == map[]
      ensures listed == {}
    {
      slots := new List?<BindInfo>[UDP_MAX_PORT](_ => null);
      table, listed := EmptyTable(), {};
      lists, nodes, listOf, nodeOf, infoOf := {}, {}, map[], map[], map[];
    }

    // An empty list becomes the list of a port that had none.
    method SetList(port: nat, list: List<BindInfo>)
      requires Valid() && port < UDP_MAX_PORT && slots[port] == null
      requires list.Valid() && list.nodes == [] && list !in lists && list.block !in listOf
      modifies this`listed, this`lists, this`listOf, slots
      ensures Valid() && slots[port] == list && listed == old(listed) + {port}
      ensures lists == old(lists) + {list} && listOf.Keys == old(listOf.Keys) + {list.block}
    {
      assert PortOk(port);
      slots[port] := list;
      listed := listed + {port};
      lists := lists + {list};
      listOf := listOf[list.block := port];
      forall p: nat | p < UDP_MAX_PORT
        ensures PortOk(p)
      {
        assert old(PortOk(p));
      }
    }

    // A new node joins the list of the port at the head or at the tail.
    method Push(port: nat, node: Node, head: bool)
      requires Valid() && port < UDP_MAX_PORT && slots[port] != null
      requires node !in nodes && node.val.port == port
      requires node.block !in nodeOf && node.val.block !in infoOf
      modifies this`table, this`nodes, this`nodeOf, this`infoOf, lists, nodes, node
      ensures Valid()
      ensures table == old(table)[port := WithNode(old(table)[port], node.val.info, head)]
      ensures nodes == old(nodes) + {node} && lists == old(lists) && listOf == old(listOf)
      ensures listed == old(listed) && unchanged(slots)
      ensures nodeOf.Keys == old(nodeOf.Keys) + {node.block}
      ensures infoOf.Keys == old(infoOf.Keys) + {node.val.block}
    {
      assert PortOk(port);
      PushNode(slots[port], node, head);
      forall p: nat | p < UDP_MAX_PORT && p != port
        ensures PortOk(p)
      {
        assert old(PortOk(p));
        if slots[p] != null {
          assert forall n :: n in old(slots[p].nodes) ==> n !in old(slots[port].nodes) && n != node;
        }
      }
      RegisteredWith(old(slots[port].nodes), port, nodeOf, infoOf, node, head);
      Register(port, node, WithNode(table[port], node.val.info, head));
    }

    // The bookkeeping of Push, once the pointers are in place.
    ghost method Register(port: nat, node: Node, bound: Bound)
      requires slots.Length == UDP_MAX_PORT && |table| == UDP_MAX_PORT && port in listed
      requires forall p :: p in listed ==> p < UDP_MAX_PORT
      requires forall p: nat {:trigger PortOk(p)} :: p < UDP_MAX_PORT && p != port ==> PortOk(p)
      requires slots[port] != null && slots[port] in lists && slots[port].Valid()
      requires slots[port].block in listOf && listOf[slots[port].block] == port
      requires (forall n :: n in slots[port].nodes ==> n in nodes + {node})
      requires Carries(slots[port].nodes, bound)
      requires Registered(slots[port].nodes, port, nodeOf[node.block := node], infoOf[node.val.block := node])
      requires node.block !in nodeOf && node.val.block !in infoOf
      modifies this`table, this`nodes, this`nodeOf, this`infoOf
      ensures Valid()
      ensures table == old(table)[port := bound] && nodes == old(nodes) + {node}
      ensures nodeOf == old(nodeOf)[node.block := node]
      ensures infoOf == old(infoOf)[node.val.block := node]
    {
      table := table[port := bound];
      nodes := nodes + {node};
      nodeOf := nodeOf[node.block := node];
      infoOf := infoOf[node.val.block := node];
      forall p: nat | p < UDP_MAX_PORT
        ensures PortOk(p)
      {
        if p != port {
          assert old(PortOk(p));
        }
      }
    }

    // Unlinks the node at position k of the list of the port and frees it.
    method Remove(port: nat, node: Node, ghost k: nat, nodeAlloc: Allocator, ghost after: Table)
      requires Valid() && port < UDP_MAX_PORT && slots[port] != null
      requires k < |slots[port].nodes| && slots[port].nodes[k] == node
      requires nodeAlloc.Valid() && node.block in nodeAlloc.live
      requires k < |table[port]| && after == table[port := RemoveAt(table[port], k)]
      modifies this`table, this`nodeOf, this`infoOf, lists, nodes, nodeAlloc
      ensures Valid() && nodeAlloc.Valid()
      ensures nodeAlloc.live == old(nodeAlloc.live) - {node.block}
      ensures table == after
      ensures nodes == old(nodes) && lists == old(lists) && listOf == old(listOf)
      ensures listed == old(listed) && unchanged(slots)
      ensures nodeOf.Keys == old(nodeOf.Keys) - {node.block}
      ensures infoOf.Keys == old(infoOf.Keys) - {node.val.block}
    {
      assert PortOk(port);
      ghost var before := slots[port].nodes;
      slots[port].Remove(node, k, nodeAlloc);
      forall p: nat | p < UDP_MAX_PORT && p != port
        ensures PortOk(p)
      {
        assert old(PortOk(p));
        if slots[p] != null {
          assert forall n :: n in old(slots[p].nodes) ==> n !in old(slots[port].nodes);
        }
      }
      Unregister(port, node, k, before);
    }

    // The bookkeeping of Remove, once the pointers are in place.
    ghost method Unregister(port: nat, node: Node, k: nat, before: seq<Node>)
      requires slots.Length == UDP_MAX_PORT && |table| == UDP_MAX_PORT && port in listed
      requires forall p :: p in listed ==> p < UDP_MAX_PORT
      requires forall p: nat {:trigger PortOk(p)} :: p < UDP_MAX_PORT && p != port ==> PortOk(p)
      requires slots[port] != null && slots[port] in lists && slots[port].Valid()
      requires slots[port].block in listOf && listOf[slots[port].block] == port
      requires k < |before| && before[k] == node && slots[port].nodes == RemoveAt(before, k)
      requires Distinct(before) && (forall n :: n in before ==> n in nodes)
      requires Carries(before, table[port]) && Registered(before, port, nodeOf, infoOf)
      modifies this`table, this`nodeOf, this`infoOf
      ensures Valid()
      ensures table == old(table)[port := RemoveAt(old(table)[port], k)]
      ensures nodeOf == old(nodeOf) - {node.block} && infoOf == old(infoOf) - {node.val.block}
    {
      assert node.val.port == port;
      table := table[port := RemoveAt(table[port], k)];
      nodeOf := nodeOf - {node.block};
      infoOf := infoOf - {node.val.block};
      forall p: nat | p < UDP_MAX_PORT
        ensures PortOk(p)
      {
        if p != port {
          assert old(PortOk(p));
          if slots[p] != null {
            RegisteredWithoutOther(slots[p].nodes, p, old(nodeOf), old(infoOf), node);
          }
        } else {
          RegisteredWithout(before, port, old(nodeOf), old(infoOf), k);
        }
      }
    }

    // The port gives up its list, which is empty.
    method ClearList(port: nat)
      requires Valid() && port < UDP_MAX_PORT && slots[port] != null && table[port] == []
      modifies this`listed, this`listOf, slots
      ensures Valid() && slots[port] == null && listed == old(listed) - {port}
      ensures listOf.Keys == old(listOf.Keys) - {old(slots[port]).block}
    {
      assert PortOk(port);
      listOf := listOf - {slots[port].block};
      slots[port] := null;
      listed := listed - {port};
      forall p: nat | p < UDP_MAX_PORT
        ensures PortOk(p)
      {
        assert old(PortOk(p));
      }
    }
  }

  function WithNode<T>(s: seq<T>, x: T, head: bool): seq<T> {
    if head then [x] + s else s + [x]
  }

  lemma RegisteredWith(before: seq<Node>, p: nat, nodeOf: map<nat, Node>, infoOf: map<nat, Node>,
      node: Node, head: bool)
    requires Registered(before, p, nodeOf, infoOf)
    requires node.val.port == p && node.block !in nodeOf && node.val.block !in infoOf
    ensures Registered(WithNode(before, node, head), p, nodeOf[node.block := node],
                       infoOf[node.val.block := node])
  {
  }

  lemma RegisteredWithout(before: seq<Node>, p: nat, nodeOf: map<nat, Node>, infoOf: map<nat, Node>, k: nat)
    requires Registered(before, p, nodeOf, infoOf) && Distinct(before) && k < |before|
    ensures Registered(RemoveAt(before, k), p, nodeOf - {before[k].block}, infoOf - {before[k].val.block})
  {
    var after := RemoveAt(before, k);
    forall i | 0 <= i < |after|
      ensures after[i] in before && after[i] != before[k]
    {
      assert after[i] == before[if i < k then i else i + 1];
    }
  }

  lemma RegisteredWithoutOther(s: seq<Node>, p: nat, nodeOf: map<nat, Node>, infoOf: map<nat, Node>, node: Node)
    requires Registered(s, p, nodeOf, infoOf) && node.val.port != p
    requires node.block in nodeOf && nodeOf[node.block] == node
    requires node.val.block in infoOf && infoOf[node.val.block] == node
    ensures Registered(s, p, nodeOf - {node.block}, infoOf - {node.val.block})
  {
  }

  method PushNode(list: List<BindInfo>, node: Node, head: bool)
    requires list.Valid() && node !in list.nodes
    modifies list, list.nodes, node
    ensures list.Valid() && list.nodes == WithNode(old(list.nodes), node, head)
  {
    if head {
      var _ := list.LPush(node);
    } else {
      var _ := list.RPush(node);
    }
  }
}
