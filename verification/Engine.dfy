/** The socket state machine (udpdk_syscall.c, and udpdk_close_all_sockets of udpdk_init.c) as
    functions on values: one step per call. Sockets.dfy has the imperative form. */
module Engines {
  import opened Constants
  import opened Sequences
  import opened Bindings
  import opened Datagrams

  // ---------------------------------------------------------------- socket options

  // An option word as the set of its one-bits.
  type OptionBits = set<nat>

  // The Linux values of the two flags: 2 and 15. They share a bit.
  const SO_REUSEADDR: OptionBits := {1}
  const SO_REUSEPORT: OptionBits := {0, 1, 2, 3}

  // so_options & flag
  predicate IsSet(options: OptionBits, flag: OptionBits) {
    options * flag != {}
  }

  // Setting a flag that already reads as set, or clearing one that reads as clear, does nothing.
  function SetOption(options: OptionBits, flag: OptionBits, on: bool): OptionBits {
    if on && !IsSet(options, flag) then options + flag
    else if !on && IsSet(options, flag) then options - flag
    else options
  }

  /** A flag reads as it was last set. */
  lemma OptionReadsBack(options: OptionBits, flag: OptionBits, on: bool)
    requires flag != {}
    ensures IsSet(SetOption(options, flag, on), flag) == on
  {
    if on && !IsSet(options, flag) {
      assert (options + flag) * flag == flag;
    } else if !on && IsSet(options, flag) {
      assert (options - flag) * flag == {};
    }
  }

  /** Two flags can be set without disturbing one another exactly when their masks are disjoint. */
  lemma OptionsIndependent(a: OptionBits, b: OptionBits)
    requires a != {} && b != {}
    ensures (forall options: OptionBits, on: bool ::
               && IsSet(SetOption(options, a, on), b) == IsSet(options, b)
               && IsSet(SetOption(options, b, on), a) == IsSet(options, a))
            <==> a * b == {}
  {
    if a * b == {} {
      forall options: OptionBits, on: bool
        ensures IsSet(SetOption(options, a, on), b) == IsSet(options, b)
        ensures IsSet(SetOption(options, b, on), a) == IsSet(options, a)
      {
        assert (options + a) * b == options * b && (options - a) * b == options * b;
        assert (options + b) * a == options * a && (options - b) * a == options * a;
      }
    } else {
      assert IsSet(SetOption({}, a, true), b) by {
        assert ({} + a) * b == a * b;
      }
      assert !IsSet({}, b);
    }
  }

  /** With the Linux values a socket that asked for SO_REUSEADDR also reads as SO_REUSEPORT. */
  lemma ReuseAddrImpliesReusePort(options: OptionBits)
    ensures IsSet(options, SO_REUSEADDR) ==> IsSet(options, SO_REUSEPORT)
  {
    if IsSet(options, SO_REUSEADDR) {
      var x :| x in options * SO_REUSEADDR;
      assert x in options * SO_REUSEPORT;
    }
  }

  // ---------------------------------------------------------------- state

  /** struct exch_slot_info */
  datatype Slot = Slot(used: bool, bound: bool, sockfd: nat, udpPort: uint16, ipAddr: uint32,
                       soOptions: OptionBits)

  type Ring = seq<Mbuf>

  /** The exchange zone, the bind table, and the receive and transmit rings of every slot. */
  datatype Engine = Engine(slots: seq<Slot>, nZonesActive: nat, table: Table,
                           rx: seq<Ring>, tx: seq<Ring>)

  datatype Errno = EBADF | EINVAL | EADDRINUSE | ENOBUFS | ENOTSOCK | ENOMEM |
                   EAFNOSUPPORT | EPROTONOSUPPORT | ENOPROTOOPT | EFAULT | EINTR

  datatype Reply = Done(value: nat) | Failed(errno: Errno) | Waiting

  const FRESH_SLOT: Slot := Slot(false, false, 0, 0, 0, {})

  function InitialEngine(): Engine {
    Engine(seq(NUM_SOCKETS_MAX, _ => FRESH_SLOT), 0, EmptyTable(),
           seq(NUM_SOCKETS_MAX, _ => []), seq(NUM_SOCKETS_MAX, _ => []))
  }

  predicate Shape(e: Engine) {
    && |e.slots| == |e.rx| == |e.tx| == NUM_SOCKETS_MAX && |e.table| == UDP_MAX_PORT
  }

  // ---------------------------------------------------------------- the calls

  // The first slot that is not in use, from slot s on.
  function FreeSlotFrom(slots: seq<Slot>, s: nat): (r: Option<nat>)
    requires s <= |slots|
    ensures r.Some? ==> s <= r.value < |slots| && !slots[r.value].used
    ensures r.None? ==> forall i :: s <= i < |slots| ==> slots[i].used
    ensures r.Some? ==> forall i :: s <= i < r.value ==> slots[i].used
    decreases |slots| - s
  {
    if s == |slots| then None
    else if !slots[s].used then Some(s)
    else FreeSlotFrom(slots, s + 1)
  }

  function Socket(e: Engine): (Engine, Reply)
    requires Shape(e)
  {
    if e.nZonesActive > NUM_SOCKETS_MAX then (e, Failed(ENOBUFS))
    else match FreeSlotFrom(e.slots, 0)
         case None => (e, Failed(ENOBUFS))
         case Some(s) =>
           var slot := e.slots[s].(used := true, bound := false, sockfd := s, soOptions := {});
           (e.(slots := e.slots[s := slot], nZonesActive := e.nZonesActive + 1), Done(s))
  }

  function SetSockOpt(e: Engine, s: nat, flag: OptionBits, on: bool): (Engine, Reply)
    requires Shape(e) && s < NUM_SOCKETS_MAX
  {
    if !e.slots[s].used then (e, Failed(EBADF))
    else
      var slot := e.slots[s].(soOptions := SetOption(e.slots[s].soOptions, flag, on));
      (e.(slots := e.slots[s := slot]), Done(0))
  }

  function BindingOf(s: nat, slot: Slot, ip: uint32): Binding {
    Binding(s, ip, IsSet(slot.soOptions, SO_REUSEADDR), IsSet(slot.soOptions, SO_REUSEPORT))
  }

  ghost function Bind(e: Engine, s: nat, ip: uint32, port: uint16): (Engine, Reply)
    requires Shape(e) && s < NUM_SOCKETS_MAX
  {
    if !e.slots[s].used then (e, Failed(EBADF))
    else if e.slots[s].bound then (e, Failed(EINVAL))
    else
      var b := BindingOf(s, e.slots[s], ip);
      if !CanBind(e.table[port], b) then (e, Failed(EADDRINUSE))
      else
        var slot := e.slots[s].(bound := true, udpPort := port, ipAddr := ip);
        (e.(slots := e.slots[s := slot], table := e.table[port := Insert(e.table[port], b)]), Done(0))
  }

  // The port that btable_get_free_port names, -1 squeezed into sin_port if there is none.
  function FreePortNumber(table: Table): uint16
    requires |table| == UDP_MAX_PORT
  {
    match FreePort(table)
    case Some(p) => p
    case None => Low16(-1)
  }

  // The implicit bind of sendto: INADDR_ANY and a free port.
  ghost function EnsureBound(e: Engine, s: nat): (Engine, Reply)
    requires Shape(e) && s < NUM_SOCKETS_MAX
  {
    if e.slots[s].bound then (e, Done(0))
    else Bind(e, s, INADDR_ANY, FreePortNumber(e.table))
  }

  function FlowOf(slot: Slot, cfg: Config, dstIp: uint32, dstPort: uint16): Flow {
    var srcIp := if slot.bound && slot.ipAddr != INADDR_ANY then slot.ipAddr else cfg.srcIp;
    Flow(srcIp, slot.udpPort, dstIp, dstPort)
  }

  // `mbuf` says whether the pool had a packet buffer left.
  ghost function SendTo(e: Engine, s: nat, cfg: Config, payload: Bytes, dstIp: uint32, dstPort: uint16,
      cksum: uint16, mbuf: bool): (Engine, Reply)
    requires Shape(e) && cfg.Valid()
  {
    if s >= NUM_SOCKETS_MAX then (e, Failed(ENOTSOCK))
    else if !e.slots[s].used then (e, Failed(EBADF))
    else
      var (e1, r) := EnsureBound(e, s);
      if !r.Done? then (e1, r)
      else if !mbuf then (e1, Failed(ENOMEM))
      else if |e1.tx[s]| >= RING_CAPACITY then (e1, Failed(ENOBUFS))
      else
        var m := SentMbuf(cfg, FlowOf(e1.slots[s], cfg, dstIp, dstPort), payload, cksum);
        (e1.(tx := e1.tx[s := e1.tx[s] + [m]]), Done(|payload|))
  }

  // The oldest packet leaves the receive ring; how its payload is copied is in Datagrams.
  function RecvFrom(e: Engine, s: nat): (Engine, Reply)
    requires Shape(e)
  {
    if s >= NUM_SOCKETS_MAX then (e, Failed(ENOTSOCK))
    else if !e.slots[s].used then (e, Failed(EBADF))
    else if e.rx[s] == [] then (e, Waiting)
    else (e.(rx := e.rx[s := e.rx[s][1..]]), Done(0))
  }

  // The table without the binding of slot s, if it has one.
  function TableWithout(e: Engine, s: nat): (table: Table)
    requires Shape(e) && s < NUM_SOCKETS_MAX
    ensures |table| == UDP_MAX_PORT
  {
    var p := e.slots[s].udpPort;
    if e.slots[s].bound then e.table[p := Delete(e.table[p], s)] else e.table
  }

  // Slot s as it is reset. The counter of active slots is incremented, as the code has it.
  function Reset(e: Engine, s: nat): Engine
    requires Shape(e) && s < NUM_SOCKETS_MAX
  {
    var slot := e.slots[s].(bound := false, used := false, soOptions := {});
    e.(slots := e.slots[s := slot], nZonesActive := e.nZonesActive + 1)
  }

  function Close(e: Engine, s: nat): (Engine, Reply)
    requires Shape(e) && s < NUM_SOCKETS_MAX
  {
    if !e.slots[s].used then (e, Failed(EBADF))
    else (Reset(e.(table := TableWithout(e, s)), s), Done(0))
  }

  // ---------------------------------------------------------------- the invariant

  // A bound slot is in use and has its entry at its port.
  ghost predicate SlotOk(slots: seq<Slot>, table: Table, s: nat)
    requires s < |slots| && |table| == UDP_MAX_PORT
  {
    slots[s].bound ==>
      var bound := table[slots[s].udpPort];
      && slots[s].used
      && IndexOf(bound, s) < |bound| && bound[IndexOf(bound, s)].ip == slots[s].ipAddr
  }

  // An entry of port p belongs to a slot that is bound to that port and address.
  ghost predicate EntryOk(slots: seq<Slot>, p: nat, b: Binding) {
    && b.sockfd < |slots| && slots[b.sockfd].bound
    && slots[b.sockfd].udpPort == p && slots[b.sockfd].ipAddr == b.ip
  }

  ghost predicate PortAgrees(slots: seq<Slot>, table: Table, p: nat)
    requires p < |table|
  {
    && WellOrdered(table[p]) && DistinctSockets(table[p])
    && forall i :: 0 <= i < |table[p]| ==> EntryOk(slots, p, table[p][i])
  }

  function BoundSlots(slots: seq<Slot>): set<nat> {
    set s: nat | s < |slots| && slots[s].bound
  }

  function UsedSlots(slots: seq<Slot>): set<nat> {
    set s: nat | s < |slots| && slots[s].used
  }

  ghost predicate Agree(slots: seq<Slot>, table: Table) {
    && |slots| == NUM_SOCKETS_MAX && |table| == UDP_MAX_PORT
    && (forall s: nat {:trigger SlotOk(slots, table, s)} :: s < |slots| ==> SlotOk(slots, table, s))
    && (forall p: nat {:trigger PortAgrees(slots, table, p)} :: p < |table| ==> PortAgrees(slots, table, p))
    && Total(table) == |BoundSlots(slots)|
  }

  ghost predicate RingsFit(e: Engine)
    requires Shape(e)
  {
    forall s :: 0 <= s < NUM_SOCKETS_MAX ==> |e.rx[s]| <= RING_CAPACITY && |e.tx[s]| <= RING_CAPACITY
  }

  /** What every call keeps: the slots and the bind table agree, the port lists are well ordered,
      and no ring is over its capacity. */
  ghost predicate Inv(e: Engine) {
    Shape(e) && Agree(e.slots, e.table) && RingsFit(e)
  }

  lemma InitialInv()
    ensures Inv(InitialEngine())
    ensures UsedSlots(InitialEngine().slots) == {} && InitialEngine().nZonesActive == 0
  {
    var e := InitialEngine();
    assert BoundSlots(e.slots) == {};
    forall p: nat | p < |e.table|
      ensures PortAgrees(e.slots, e.table, p)
    {
    }
    forall s: nat | s < |e.slots|
      ensures SlotOk(e.slots, e.table, s)
    {
    }
  }

  // Slots that differ only in what the bind table does not depend on.
  lemma AgreeKept(slots: seq<Slot>, table: Table, s: nat, slot: Slot)
    requires Agree(slots, table) && s < |slots|
    requires if slots[s].bound then slot == slots[s].(soOptions := slot.soOptions) else !slot.bound
    ensures Agree(slots[s := slot], table)
  {
    var after := slots[s := slot];
    assert BoundSlots(after) == BoundSlots(slots);
    forall t: nat | t < |after|
      ensures SlotOk(after, table, t)
    {
      assert SlotOk(slots, table, t);
    }
    forall p: nat | p < |table|
      ensures PortAgrees(after, table, p)
    {
      assert PortAgrees(slots, table, p);
      forall i | 0 <= i < |table[p]|
        ensures EntryOk(after, p, table[p][i])
      {
        assert EntryOk(slots, p, table[p][i]);
      }
    }
  }

  lemma SocketKeepsInv(e: Engine)
    requires Inv(e)
    ensures Inv(Socket(e).0)
  {
    var (e1, r) := Socket(e);
    if r.Done? {
      var s := r.value;
      assert SlotOk(e.slots, e.table, s);
      AgreeKept(e.slots, e.table, s, e1.slots[s]);
    }
  }

  // A socket that is not bound has no entry anywhere.
  lemma UnboundNotListed(slots: seq<Slot>, table: Table, s: nat, p: nat)
    requires Agree(slots, table) && s < |slots| && !slots[s].bound && p < |table|
    ensures IndexOf(table[p], s) == |table[p]|
  {
    assert PortAgrees(slots, table, p);
    var k := IndexOf(table[p], s);
    assert k == |table[p]| || EntryOk(slots, p, table[p][k]);
  }

  lemma MoreBound(slots: seq<Slot>, s: nat, slot: Slot)
    requires s < |slots| && !slots[s].bound && slot.bound
    ensures |BoundSlots(slots[s := slot])| == |BoundSlots(slots)| + 1
  {
    assert BoundSlots(slots[s := slot]) == BoundSlots(slots) + {s};
  }

  lemma FewerBound(slots: seq<Slot>, s: nat, slot: Slot)
    requires s < |slots| && slots[s].bound && !slot.bound
    ensures |BoundSlots(slots[s := slot])| == |BoundSlots(slots)| - 1
  {
    assert BoundSlots(slots[s := slot]) == BoundSlots(slots) - {s};
  }

  lemma IndexOfAppended(bound: Bound, b: Binding, s: nat)
    ensures IndexOf(bound + [b], s) == if IndexOf(bound, s) < |bound| then IndexOf(bound, s)
                                       else if b.sockfd == s then |bound| else |bound| + 1
  {
    assert forall i :: 0 <= i < |bound| ==> (bound + [b])[i] == bound[i];
    assert (bound + [b])[|bound|] == b;
  }

  /** A bind that the conflict rule lets through keeps slots and table in agreement. */
  lemma BindKeepsAgree(slots: seq<Slot>, table: Table, s: nat, ip: uint32, port: uint16)
    requires Agree(slots, table) && s < |slots| && slots[s].used && !slots[s].bound
    requires CanBind(table[port], BindingOf(s, slots[s], ip))
    ensures Agree(slots[s := slots[s].(bound := true, udpPort := port, ipAddr := ip)],
                  table[port := Insert(table[port], BindingOf(s, slots[s], ip))])
  {
    var b := BindingOf(s, slots[s], ip);
    var slots', table' := slots[s := slots[s].(bound := true, udpPort := port, ipAddr := ip)],
                          table[port := Insert(table[port], b)];
    assert PortAgrees(slots, table, port);
    InsertKeepsOrder(table[port], b);
    UnboundNotListed(slots, table, s, port);
    MoreBound(slots, s, slots'[s]);
    TotalUpdate(table, port, Insert(table[port], b));
    forall t: nat | t < |slots'|
      ensures SlotOk(slots', table', t)
    {
      assert SlotOk(slots, table, t);
      IndexOfAppended(table[port], b, t);
    }
    forall p: nat | p < |table'|
      ensures PortAgrees(slots', table', p)
    {
      BindKeepsPort(slots, table, s, ip, port, p);
    }
  }

  lemma BindKeepsPort(slots: seq<Slot>, table: Table, s: nat, ip: uint32, port: uint16, p: nat)
    requires Agree(slots, table) && s < |slots| && slots[s].used && !slots[s].bound && p < |table|
    requires CanBind(table[port], BindingOf(s, slots[s], ip))
    ensures PortAgrees(slots[s := slots[s].(bound := true, udpPort := port, ipAddr := ip)],
                   table[port := Insert(table[port], BindingOf(s, slots[s], ip))], p)
  {
    var b := BindingOf(s, slots[s], ip);
    var slots' := slots[s := slots[s].(bound := true, udpPort := port, ipAddr := ip)];
    assert PortAgrees(slots, table, p);
    UnboundNotListed(slots, table, s, p);
    forall i | 0 <= i < |table[p]|
      ensures EntryOk(slots', p, table[p][i])
    {
      assert EntryOk(slots, p, table[p][i]);
    }
    if p == port {
      InsertKeepsOrder(table[p], b);
    }
  }

  lemma BindKeepsInv(e: Engine, s: nat, ip: uint32, port: uint16)
    requires Inv(e) && s < NUM_SOCKETS_MAX
    ensures Inv(Bind(e, s, ip, port).0)
  {
    if Bind(e, s, ip, port).1.Done? {
      BindKeepsAgree(e.slots, e.table, s, ip, port);
    }
  }

  lemma IndexOfRemoved(bound: Bound, k: nat, s: nat)
    requires DistinctSockets(bound) && k < |bound| && bound[k].sockfd != s && IndexOf(bound, s) < |bound|
    ensures var j := IndexOf(RemoveAt(bound, k), s);
            j < |RemoveAt(bound, k)| && RemoveAt(bound, k)[j] == bound[IndexOf(bound, s)]
  {
    var i := IndexOf(bound, s);
    var after := RemoveAt(bound, k);
    assert after[if i < k then i else i - 1] == bound[i];
    var j := IndexOf(after, s);
    assert after[j] == bound[if j < k then j else j + 1];
  }

  /** Closing a slot keeps slots and table in agreement, bound or not. */
  lemma CloseKeepsAgree(slots: seq<Slot>, table: Table, s: nat, slot: Slot)
    requires Agree(slots, table) && s < |slots| && slots[s].bound && !slot.bound
    ensures Agree(slots[s := slot], table[slots[s].udpPort := Delete(table[slots[s].udpPort], s)])
  {
    var port := slots[s].udpPort;
    var slots', table' := slots[s := slot], table[port := Delete(table[port], s)];
    assert SlotOk(slots, table, s) && PortAgrees(slots, table, port);
    var k := IndexOf(table[port], s);
    FewerBound(slots, s, slot);
    TotalUpdate(table, port, Delete(table[port], s));
    forall t: nat | t < |slots'|
      ensures SlotOk(slots', table', t)
    {
      assert SlotOk(slots, table, t);
      if t != s && slots[t].bound && slots[t].udpPort == port {
        IndexOfRemoved(table[port], k, t);
      }
    }
    forall p: nat | p < |table'|
      ensures PortAgrees(slots', table', p)
    {
      CloseKeepsPort(slots, table, s, slot, p);
    }
  }

  lemma CloseKeepsPort(slots: seq<Slot>, table: Table, s: nat, slot: Slot, p: nat)
    requires Agree(slots, table) && s < |slots| && slots[s].bound && !slot.bound && p < |table|
    ensures PortAgrees(slots[s := slot], table[slots[s].udpPort := Delete(table[slots[s].udpPort], s)], p)
  {
    var port := slots[s].udpPort;
    assert PortAgrees(slots, table, p) && SlotOk(slots, table, s);
    var k := IndexOf(table[p], s);
    var after := if p == port then Delete(table[p], s) else table[p];
    DeleteKeepsOrder(table[p], s);
    forall i | 0 <= i < |after|
      ensures EntryOk(slots[s := slot], p, after[i])
    {
      var m := if p == port && i >= k then i + 1 else i;
      assert after[i] == table[p][m] && EntryOk(slots, p, table[p][m]);
    }
  }

  lemma CloseKeepsInv(e: Engine, s: nat)
    requires Inv(e) && s < NUM_SOCKETS_MAX
    ensures Inv(Close(e, s).0)
  {
    if e.slots[s].used {
      var e1 := Close(e, s).0;
      if e.slots[s].bound {
        CloseKeepsAgree(e.slots, e.table, s, e1.slots[s]);
      } else {
        AgreeKept(e.slots, e.table, s, e1.slots[s]);
      }
    }
  }

  // ---------------------------------------------------------------- what the invariant means

  /** A slot is bound exactly when the table has an entry with its descriptor; the entry is at the
      slot's port, with the slot's address, and there is no second one anywhere. */
  lemma BoundMeansListedOnce(e: Engine, s: nat)
    requires Inv(e) && s < NUM_SOCKETS_MAX
    ensures e.slots[s].bound ==>
              var p := e.slots[s].udpPort;
              exists k :: 0 <= k < |e.table[p]| && e.table[p][k].sockfd == s && e.table[p][k].ip == e.slots[s].ipAddr
                && forall q, j :: 0 <= q < |e.table| && 0 <= j < |e.table[q]| && e.table[q][j].sockfd == s ==> q == p && j == k
    ensures !e.slots[s].bound ==>
              forall q, j :: 0 <= q < |e.table| && 0 <= j < |e.table[q]| ==> e.table[q][j].sockfd != s
  {
    assert SlotOk(e.slots, e.table, s);
    var p := e.slots[s].udpPort;
    var k := IndexOf(e.table[p], s);
    forall q, j | 0 <= q < |e.table| && 0 <= j < |e.table[q]| && e.table[q][j].sockfd == s
      ensures e.slots[s].bound && q == p && j == k
    {
      assert PortAgrees(e.slots, e.table, q) && EntryOk(e.slots, q, e.table[q][j]);
    }
  }

  /** The fixed pools suffice: at most 1024 bindings exist, fewer while some socket is unbound, and
      no more lists than bindings. */
  lemma PoolsSuffice(e: Engine)
    requires Inv(e)
    ensures Busy(e.table) <= Total(e.table) <= NUM_SOCKETS_MAX
    ensures (exists s :: 0 <= s < NUM_SOCKETS_MAX && !e.slots[s].bound) ==> Total(e.table) < NUM_SOCKETS_MAX
  {
    BusyBounds(e.table);
    var bound, all := BoundSlots(e.slots), Below(NUM_SOCKETS_MAX);
    SubsetCount(bound, all);
    if s :| 0 <= s < NUM_SOCKETS_MAX && !e.slots[s].bound {
      assert s in all;
      SubsetCount(bound, all - {s});
    }
  }

  /** The implicit bind of sendto cannot fail for a socket in use: there is always a free port, and
      the socket becomes its only binding. */
  lemma ImplicitBindSucceeds(e: Engine, s: nat)
    requires Inv(e) && s < NUM_SOCKETS_MAX && e.slots[s].used && !e.slots[s].bound
    ensures FreePort(e.table).Some?
    ensures var (e1, r) := EnsureBound(e, s);
            && r == Done(0) && e1.slots[s].bound && e1.slots[s].udpPort == FreePort(e.table).value
            && e1.table == e.table[FreePort(e.table).value := [BindingOf(s, e.slots[s], INADDR_ANY)]]
  {
    PoolsSuffice(e);
    FreePortExists(e.table);
    var b := BindingOf(s, e.slots[s], INADDR_ANY);
    assert Insert([], b) == [b];
  }

  /** It takes port 0 exactly while that has no binding. */
  lemma ImplicitBindPortZero(e: Engine, s: nat)
    requires Inv(e) && s < NUM_SOCKETS_MAX && e.slots[s].used && !e.slots[s].bound
    ensures EnsureBound(e, s).0.slots[s].udpPort == 0 <==> e.table[0] == []
  {
    ImplicitBindSucceeds(e, s);
  }

  /** Bind and close leave no trace in the table. */
  lemma CloseUndoesBind(e: Engine, s: nat, ip: uint32, port: uint16)
    requires Inv(e) && s < NUM_SOCKETS_MAX && Bind(e, s, ip, port).1.Done?
    ensures var e1 := Bind(e, s, ip, port).0;
            Close(e1, s).0.table == e.table
  {
    assert PortAgrees(e.slots, e.table, port);
    UnboundNotListed(e.slots, e.table, s, port);
    DeleteAfterInsert(e.table[port], BindingOf(s, e.slots[s], ip));
  }

  // ---------------------------------------------------------------- runs

  /** One call of the interface, with the answers of the environment. */
  datatype Op =
    | OpSocket
    | OpSetReuseAddr(s: nat, on: bool)
    | OpSetReusePort(s: nat, on: bool)
    | OpBind(s: nat, ip: uint32, port: uint16)
    | OpSendTo(s: nat, cfg: Config, payload: Bytes, dstIp: uint32, dstPort: uint16, cksum: uint16, mbuf: bool)
    | OpRecvFrom(s: nat)
    | OpClose(s: nat)
    | OpArrive(s: nat, packets: Ring)  // the poller puts packets in a receive ring: all or none
    | OpDrain(s: nat, n: nat)          // the poller takes packets from a transmit ring

  predicate Legal(op: Op) {
    match op
    case OpSocket => true
    case OpSendTo(_, cfg, _, _, _, _, _) => cfg.Valid()
    case OpRecvFrom(_) => true
    case OpSetReuseAddr(s, _) => s < NUM_SOCKETS_MAX
    case OpSetReusePort(s, _) => s < NUM_SOCKETS_MAX
    case OpBind(s, _, _) => s < NUM_SOCKETS_MAX
    case OpClose(s) => s < NUM_SOCKETS_MAX
    case OpArrive(s, _) => s < NUM_SOCKETS_MAX
    case OpDrain(s, _) => s < NUM_SOCKETS_MAX
  }

  ghost function Step(e: Engine, op: Op): (Engine, Reply)
    requires Shape(e) && Legal(op)
  {
    match op
    case OpSocket => Socket(e)
    case OpSetReuseAddr(s, on) => SetSockOpt(e, s, SO_REUSEADDR, on)
    case OpSetReusePort(s, on) => SetSockOpt(e, s, SO_REUSEPORT, on)
    case OpBind(s, ip, port) => Bind(e, s, ip, port)
    case OpSendTo(s, cfg, payload, dstIp, dstPort, cksum, mbuf) =>
      SendTo(e, s, cfg, payload, dstIp, dstPort, cksum, mbuf)
    case OpRecvFrom(s) => RecvFrom(e, s)
    case OpClose(s) => Close(e, s)
    case OpArrive(s, packets) => (e.(rx := e.rx[s := EnqueueBulk(e.rx[s], packets, RING_CAPACITY)]), Done(0))
    case OpDrain(s, n) => (e.(tx := e.tx[s := if n <= |e.tx[s]| then e.tx[s][n..] else []]), Done(0))
  }

  lemma StepKeepsInv(e: Engine, op: Op)
    requires Inv(e) && Legal(op)
    ensures Inv(Step(e, op).0)
  {
    match op
    case OpSocket => SocketKeepsInv(e);
    case OpSetReuseAddr(s, on) => SetSockOptKeepsInv(e, s, SO_REUSEADDR, on);
    case OpSetReusePort(s, on) => SetSockOptKeepsInv(e, s, SO_REUSEPORT, on);
    case OpBind(s, ip, port) => BindKeepsInv(e, s, ip, port);
    case OpSendTo(s, cfg, payload, dstIp, dstPort, cksum, mbuf) =>
      SendToKeepsInv(e, s, cfg, payload, dstIp, dstPort, cksum, mbuf);
    case OpClose(s) => CloseKeepsInv(e, s);
    case OpRecvFrom(s) =>
    case OpArrive(s, packets) =>
    case OpDrain(s, n) =>
  }

  lemma SetSockOptKeepsInv(e: Engine, s: nat, flag: OptionBits, on: bool)
    requires Inv(e) && s < NUM_SOCKETS_MAX
    ensures Inv(SetSockOpt(e, s, flag, on).0)
  {
    var e1 := SetSockOpt(e, s, flag, on).0;
    AgreeKept(e.slots, e.table, s, e1.slots[s]);
  }

  lemma SendToKeepsInv(e: Engine, s: nat, cfg: Config, payload: Bytes, dstIp: uint32, dstPort: uint16,
      cksum: uint16, mbuf: bool)
    requires Inv(e) && cfg.Valid()
    ensures Inv(SendTo(e, s, cfg, payload, dstIp, dstPort, cksum, mbuf).0)
  {
    if s < NUM_SOCKETS_MAX {
      BindKeepsInv(e, s, INADDR_ANY, FreePortNumber(e.table));
    }
  }

  ghost predicate AllLegal(ops: seq<Op>) {
    forall i :: 0 <= i < |ops| ==> Legal(ops[i])
  }

  // The engine after a sequence of calls.
  ghost function Run(e: Engine, ops: seq<Op>): (r: Engine)
    requires Shape(e) && AllLegal(ops)
    ensures Shape(r)
    decreases |ops|
  {
    if ops == [] then e else Run(Step(e, ops[0]).0, ops[1..])
  }

  lemma RunCons(e: Engine, op: Op, ops: seq<Op>)
    requires Shape(e) && Legal(op) && AllLegal(ops)
    ensures AllLegal([op] + ops) && Run(e, [op] + ops) == Run(Step(e, op).0, ops)
  {
    assert ([op] + ops)[1..] == ops && ([op] + ops)[0] == op;
  }

  lemma {:induction false} RunAppend(e: Engine, a: seq<Op>, b: seq<Op>)
    requires Shape(e) && AllLegal(a) && AllLegal(b)
    ensures AllLegal(a + b) && Run(e, a + b) == Run(Run(e, a), b)
    decreases |a|
  {
    if a == [] {
      assert a + b == b;
    } else {
      assert (a + b)[1..] == a[1..] + b && (a + b)[0] == a[0];
      RunAppend(Step(e, a[0]).0, a[1..], b);
    }
  }

  /** The invariant holds in every state of every run. */
  lemma {:induction false} RunKeepsInv(e: Engine, ops: seq<Op>)
    requires Inv(e) && AllLegal(ops)
    ensures Inv(Run(e, ops))
    decreases |ops|
  {
    if ops != [] {
      StepKeepsInv(e, ops[0]);
      RunKeepsInv(Step(e, ops[0]).0, ops[1..]);
    }
  }

  // How many calls of udpdk_socket, and of udpdk_close, succeed in a run.
  ghost function Opens(e: Engine, ops: seq<Op>): nat
    requires Shape(e) && AllLegal(ops)
    decreases |ops|
  {
    if ops == [] then 0
    else (if ops[0].OpSocket? && Step(e, ops[0]).1.Done? then 1 else 0) + Opens(Step(e, ops[0]).0, ops[1..])
  }

  ghost function Closes(e: Engine, ops: seq<Op>): nat
    requires Shape(e) && AllLegal(ops)
    decreases |ops|
  {
    if ops == [] then 0
    else (if ops[0].OpClose? && Step(e, ops[0]).1.Done? then 1 else 0) + Closes(Step(e, ops[0]).0, ops[1..])
  }

  lemma StepCounts(e: Engine, op: Op)
    requires Shape(e) && Legal(op)
    ensures var (e1, r) := Step(e, op);
            var plus := if op.OpSocket? && r.Done? then 1 else 0;
            var minus := if op.OpClose? && r.Done? then 1 else 0;
            && e1.nZonesActive == e.nZonesActive + plus + minus
            && |UsedSlots(e1.slots)| == |UsedSlots(e.slots)| + plus - minus
            && (plus == 1 ==> e.nZonesActive <= NUM_SOCKETS_MAX && |UsedSlots(e.slots)| < NUM_SOCKETS_MAX)
  {
    match op
    case OpSocket => SocketCounts(e);
    case OpClose(s) => CloseCounts(e, s);
    case OpBind(s, ip, port) => BindCounts(e, s, ip, port);
    case OpSendTo(s, _, _, _, _, _, _) =>
      if s < NUM_SOCKETS_MAX {
        BindCounts(e, s, INADDR_ANY, FreePortNumber(e.table));
      }
    case OpSetReuseAddr(s, on) => assert UsedSlots(Step(e, op).0.slots) == UsedSlots(e.slots);
    case OpSetReusePort(s, on) => assert UsedSlots(Step(e, op).0.slots) == UsedSlots(e.slots);
    case OpRecvFrom(s) =>
    case OpArrive(s, packets) =>
    case OpDrain(s, n) =>
  }

  lemma SocketCounts(e: Engine)
    requires Shape(e)
    ensures Socket(e).1.Done? ==> |UsedSlots(Socket(e).0.slots)| == |UsedSlots(e.slots)| + 1
    ensures Socket(e).1.Done? ==> |UsedSlots(e.slots)| < NUM_SOCKETS_MAX
  {
    var (e1, r) := Socket(e);
    if r.Done? {
      var used := UsedSlots(e.slots);
      assert UsedSlots(e1.slots) == used + {r.value};
      assert r.value in Below(NUM_SOCKETS_MAX) && r.value !in used;
      SubsetCount(used, Below(NUM_SOCKETS_MAX) - {r.value});
    }
  }

  lemma CloseCounts(e: Engine, s: nat)
    requires Shape(e) && s < NUM_SOCKETS_MAX
    ensures e.slots[s].used ==> |UsedSlots(Close(e, s).0.slots)| == |UsedSlots(e.slots)| - 1
  {
    assert e.slots[s].used ==> UsedSlots(Close(e, s).0.slots) == UsedSlots(e.slots) - {s};
  }

  lemma BindCounts(e: Engine, s: nat, ip: uint32, port: uint16)
    requires Shape(e) && s < NUM_SOCKETS_MAX
    ensures UsedSlots(Bind(e, s, ip, port).0.slots) == UsedSlots(e.slots)
  {
  }

  /** n_zones_active counts the opened and the closed sockets together. */
  lemma {:induction false} RunCounts(e: Engine, ops: seq<Op>)
    requires Shape(e) && AllLegal(ops)
    ensures Run(e, ops).nZonesActive == e.nZonesActive + Opens(e, ops) + Closes(e, ops)
    ensures |UsedSlots(Run(e, ops).slots)| == |UsedSlots(e.slots)| + Opens(e, ops) - Closes(e, ops)
    decreases |ops|
  {
    if ops != [] {
      StepCounts(e, ops[0]);
      RunCounts(Step(e, ops[0]).0, ops[1..]);
    }
  }

  /** So it is the number of open sockets exactly as long as none has been closed. */
  lemma ActiveCountExact(ops: seq<Op>)
    requires AllLegal(ops)
    ensures var e := Run(InitialEngine(), ops);
            e.nZonesActive == |UsedSlots(e.slots)| <==> Closes(InitialEngine(), ops) == 0
  {
    InitialInv();
    RunCounts(InitialEngine(), ops);
  }

  /** And it locks the engine up: no run, however long, opens more than 1024 sockets in all, even
      if every one of them is closed at once. */
  lemma {:induction false} OpensBounded(e: Engine, ops: seq<Op>)
    requires Shape(e) && AllLegal(ops)
    ensures Opens(e, ops) == 0 || e.nZonesActive + |UsedSlots(e.slots)| + 2 * Opens(e, ops) <= 2 * NUM_SOCKETS_MAX + 1
    decreases |ops|
  {
    if ops != [] {
      StepCounts(e, ops[0]);
      OpensBounded(Step(e, ops[0]).0, ops[1..]);
    }
  }

  lemma AtMost1024Opens(ops: seq<Op>)
    requires AllLegal(ops)
    ensures Opens(InitialEngine(), ops) <= NUM_SOCKETS_MAX
  {
    InitialInv();
    OpensBounded(InitialEngine(), ops);
  }

  /** Once the counter is over the limit it stays there, and no later call opens a socket. */
  lemma {:induction false} LockedForGood(e: Engine, ops: seq<Op>)
    requires Shape(e) && AllLegal(ops) && e.nZonesActive > NUM_SOCKETS_MAX
    ensures Opens(e, ops) == 0 && Run(e, ops).nZonesActive > NUM_SOCKETS_MAX
    decreases |ops|
  {
    if ops != [] {
      StepCounts(e, ops[0]);
      LockedForGood(Step(e, ops[0]).0, ops[1..]);
    }
  }

  /** A socket call succeeds exactly when the counter is within bounds and a slot is unused. */
  lemma SocketSucceeds(e: Engine)
    requires Shape(e)
    ensures Socket(e).1.Done? <==>
            e.nZonesActive <= NUM_SOCKETS_MAX && exists s :: 0 <= s < NUM_SOCKETS_MAX && !e.slots[s].used
    ensures Socket(e).1.Done? ==> !e.slots[Socket(e).1.value].used
  {
  }

  // ---------------------------------------------------------------- rings are queues

  // What a call appends to the transmit ring of slot s, and what it takes from its front.
  ghost function SentBy(e: Engine, op: Op, s: nat): Ring
    requires Shape(e) && Legal(op) && s < NUM_SOCKETS_MAX
  {
    if op.OpSendTo? && op.s == s && Step(e, op).1.Done?
    then [SentMbuf(op.cfg, FlowOf(EnsureBound(e, s).0.slots[s], op.cfg, op.dstIp, op.dstPort), op.payload, op.cksum)]
    else []
  }

  ghost function DrainedBy(e: Engine, op: Op, s: nat): Ring
    requires Shape(e) && Legal(op) && s < NUM_SOCKETS_MAX
  {
    if op.OpDrain? && op.s == s then e.tx[s][..Min(op.n, |e.tx[s]|)] else []
  }

  // What a call appends to the receive ring of slot s, and what it takes from its front.
  ghost function ArrivedBy(e: Engine, op: Op, s: nat): Ring
    requires Shape(e) && Legal(op) && s < NUM_SOCKETS_MAX
  {
    if op.OpArrive? && op.s == s && |e.rx[s]| + |op.packets| <= RING_CAPACITY then op.packets else []
  }

  ghost function ReceivedBy(e: Engine, op: Op, s: nat): Ring
    requires Shape(e) && Legal(op) && s < NUM_SOCKETS_MAX
  {
    if op.OpRecvFrom? && op.s == s && Step(e, op).1.Done? then [e.rx[s][0]] else []
  }

  lemma Split<T>(s: seq<T>, n: nat)
    requires n <= |s|
    ensures s[..n] + s[n..] == s
    ensures s + [] == s == [] + s
    ensures n == 1 ==> s[..n] == [s[0]]
  {
  }

  lemma StepQueuesTx(e: Engine, op: Op, s: nat)
    requires Shape(e) && Legal(op) && s < NUM_SOCKETS_MAX
    ensures e.tx[s] + SentBy(e, op, s) == DrainedBy(e, op, s) + Step(e, op).0.tx[s]
  {
    var after := Step(e, op).0.tx[s];
    Split(e.tx[s], 0);
    Split(after, 0);
    if op.OpDrain? && op.s == s {
      Split(e.tx[s], Min(op.n, |e.tx[s]|));
    } else if !(op.OpSendTo? && op.s == s && Step(e, op).1.Done?) {
      assert after == e.tx[s];
    }
  }

  lemma StepQueuesRx(e: Engine, op: Op, s: nat)
    requires Shape(e) && Legal(op) && s < NUM_SOCKETS_MAX
    ensures e.rx[s] + ArrivedBy(e, op, s) == ReceivedBy(e, op, s) + Step(e, op).0.rx[s]
  {
    var after := Step(e, op).0.rx[s];
    Split(e.rx[s], 0);
    Split(after, 0);
    if op.OpRecvFrom? && op.s == s && Step(e, op).1.Done? {
      Split(e.rx[s], 1);
    } else if !(op.OpArrive? && op.s == s) {
      assert after == e.rx[s];
    }
  }

  ghost function AllSent(e: Engine, ops: seq<Op>, s: nat): Ring
    requires Shape(e) && AllLegal(ops) && s < NUM_SOCKETS_MAX
    decreases |ops|
  {
    if ops == [] then [] else SentBy(e, ops[0], s) + AllSent(Step(e, ops[0]).0, ops[1..], s)
  }

  ghost function AllDrained(e: Engine, ops: seq<Op>, s: nat): Ring
    requires Shape(e) && AllLegal(ops) && s < NUM_SOCKETS_MAX
    decreases |ops|
  {
    if ops == [] then [] else DrainedBy(e, ops[0], s) + AllDrained(Step(e, ops[0]).0, ops[1..], s)
  }

  ghost function AllArrived(e: Engine, ops: seq<Op>, s: nat): Ring
    requires Shape(e) && AllLegal(ops) && s < NUM_SOCKETS_MAX
    decreases |ops|
  {
    if ops == [] then [] else ArrivedBy(e, ops[0], s) + AllArrived(Step(e, ops[0]).0, ops[1..], s)
  }

  ghost function AllReceived(e: Engine, ops: seq<Op>, s: nat): Ring
    requires Shape(e) && AllLegal(ops) && s < NUM_SOCKETS_MAX
    decreases |ops|
  {
    if ops == [] then [] else ReceivedBy(e, ops[0], s) + AllReceived(Step(e, ops[0]).0, ops[1..], s)
  }

  lemma QueueStep<T>(queue: seq<T>, pushed: seq<T>, popped: seq<T>, mid: seq<T>, morePushed: seq<T>,
      morePopped: seq<T>, end: seq<T>)
    requires queue + pushed == popped + mid && mid + morePushed == morePopped + end
    ensures queue + (pushed + morePushed) == (popped + morePopped) + end
  {
    assert queue + (pushed + morePushed) == (queue + pushed) + morePushed;
    assert (popped + mid) + morePushed == popped + (mid + morePushed);
    assert popped + (morePopped + end) == (popped + morePopped) + end;
  }

  /** Over a whole run each ring is a queue, whatever sockets come and go on its slot: what the
      poller has taken from a transmit ring, followed by what is left, is exactly what was sent, in
      order; and likewise for what recvfrom has taken from a receive ring. */
  lemma {:induction false} RingsAreQueues(e: Engine, ops: seq<Op>, s: nat)
    requires Shape(e) && AllLegal(ops) && s < NUM_SOCKETS_MAX
    ensures e.tx[s] + AllSent(e, ops, s) == AllDrained(e, ops, s) + Run(e, ops).tx[s]
    ensures e.rx[s] + AllArrived(e, ops, s) == AllReceived(e, ops, s) + Run(e, ops).rx[s]
    decreases |ops|
  {
    if ops == [] {
      assert e.tx[s] + [] == [] + e.tx[s] && e.rx[s] + [] == [] + e.rx[s];
    } else {
      var e1, rest := Step(e, ops[0]).0, ops[1..];
      StepQueuesTx(e, ops[0], s);
      StepQueuesRx(e, ops[0], s);
      RingsAreQueues(e1, rest, s);
      QueueStep(e.tx[s], SentBy(e, ops[0], s), DrainedBy(e, ops[0], s), e1.tx[s],
                AllSent(e1, rest, s), AllDrained(e1, rest, s), Run(e, ops).tx[s]);
      QueueStep(e.rx[s], ArrivedBy(e, ops[0], s), ReceivedBy(e, ops[0], s), e1.rx[s],
                AllArrived(e1, rest, s), AllReceived(e1, rest, s), Run(e, ops).rx[s]);
    }
  }

  // ---------------------------------------------------------------- teardown

  // The loop of udpdk_close_all_sockets, from slot s on.
  function CloseAllFrom(e: Engine, s: nat): (r: Engine)
    requires Shape(e) && s <= NUM_SOCKETS_MAX
    ensures Shape(r)
    decreases NUM_SOCKETS_MAX - s
  {
    if s == NUM_SOCKETS_MAX then e
    else CloseAllFrom(if e.slots[s].bound then Close(e, s).0 else e, s + 1)
  }

  lemma {:induction false} CloseAllSlots(e: Engine, s: nat)
    requires Inv(e) && s <= NUM_SOCKETS_MAX
    ensures Inv(CloseAllFrom(e, s))
    ensures forall t :: 0 <= t < s ==> CloseAllFrom(e, s).slots[t] == e.slots[t]
    ensures forall t :: s <= t < NUM_SOCKETS_MAX ==>
              CloseAllFrom(e, s).slots[t].used == (e.slots[t].used && !e.slots[t].bound)
    ensures forall t :: s <= t < NUM_SOCKETS_MAX ==> !CloseAllFrom(e, s).slots[t].bound
    decreases NUM_SOCKETS_MAX - s
  {
    if s < NUM_SOCKETS_MAX {
      assert SlotOk(e.slots, e.table, s);
      CloseKeepsInv(e, s);
      CloseAllSlots(if e.slots[s].bound then Close(e, s).0 else e, s + 1);
    }
  }

  /** Teardown from any state of a run: every port is free and nothing is bound, so no block of the
      table is left allocated. Sockets that were never bound stay open. */
  lemma CloseAllEmptiesTable(e: Engine)
    requires Inv(e)
    ensures var e1 := CloseAllFrom(e, 0);
            && Inv(e1) && Total(e1.table) == 0
            && (forall p :: 0 <= p < UDP_MAX_PORT ==> e1.table[p] == [])
            && forall t :: 0 <= t < NUM_SOCKETS_MAX ==> e1.slots[t].used == (e.slots[t].used && !e.slots[t].bound)
  {
    CloseAllSlots(e, 0);
    var e1 := CloseAllFrom(e, 0);
    assert BoundSlots(e1.slots) == {};
    TotalZero(e1.table);
  }
}
