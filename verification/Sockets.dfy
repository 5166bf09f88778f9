/** The calls of the socket interface as the program carries them out (udpdk_syscall.c and
    udpdk_close_all_sockets of udpdk_init.c): on the exchange zone, the rings and the bind table
    in shared memory. Every method computes the corresponding step of Engine.dfy. */
module Sockets {
  import opened Constants
  import opened Sequences
  import opened Bindings
  import opened BindTables
  import opened Datagrams
  import opened Engines
  import opened Arguments

  // What a receiver learns from a packet: its source, the count, and the payload in its buffer.
  ghost predicate Received(segs: seq<Bytes>, before: Bytes, after: Bytes, len: nat, n: nat,
      srcIp: uint32, srcPort: uint16)
  {
    && |segs| > 0 && |segs[0]| >= HEADERS
    && srcIp == SrcIp(segs[0]) && srcPort == SrcPort(segs[0])
    && var stream := Stream(segs, DgramPaylLen(segs[0]));
       && n == len - Low32(len) + Min(Low32(len), |stream|)
       && Copied(after, before, stream, Min(Low32(len), |stream|))
  }

  method ReadPacket(pkt: Mbuf, buf: array<byte>, len: nat) returns (n: nat, srcIp: uint32, srcPort: uint16)
    requires Readable(pkt.segs) && len <= buf.Length
    modifies buf
    ensures Received(pkt.segs, old(buf[..]), buf[..], len, n, srcIp, srcPort)
  {
    srcIp, srcPort := SrcIp(pkt.segs[0]), SrcPort(pkt.segs[0]);
    n := CopyOut(pkt.segs, DgramPaylLen(pkt.segs[0]), buf, len);
  }

  class SocketLayer {
    const btable: BindTable
    const slots: array<Slot>
    var nZonesActive: nat
    var rx: seq<Ring>  // the DPDK rings, one pair per slot
    var tx: seq<Ring>

    // The abstract state.
    ghost function State(): Engine
      reads this, slots, btable.ports
    {
      Engine(slots[..], nZonesActive, btable.Table(), rx, tx)
    }

    ghost predicate Valid()
      reads this, slots, btable.ports, btable.ports.slots, btable.ports.lists, btable.ports.nodes, btable.Pools()
    {
      btable.Valid() && Apart() && Inv(State())
    }

    // The exchange zone is no part of the bind table.
    ghost predicate Apart()
      reads btable.ports
    {
      && btable.Outside(this) && btable.Outside(slots)
      && (this as object) !in btable.Pools() && (slots as object) !in btable.Pools()
    }

    // Write one slot and the counter.
    method Store(s: nat, slot: Slot, active: nat)
      requires btable.Valid() && Apart() && s < slots.Length
      modifies this`nZonesActive, slots
      ensures btable.Valid() && Apart()
      ensures State() == old(State()).(slots := old(State()).slots[s := slot], nZonesActive := active)
    {
      ghost var before := slots[..];
      slots[s] := slot;
      nZonesActive := active;
      assert slots[..] == before[s := slot];
    }

    /** Zeroed exchange zone, empty rings. */
    constructor (btable: BindTable)
      requires btable.Valid() && btable.Table() == EmptyTable()
      ensures Valid() && this.btable == btable && fresh(slots)
      ensures State() == InitialEngine()
    {
      this.btable := btable;
      this.slots := new Slot[NUM_SOCKETS_MAX](_ => FRESH_SLOT);
      this.nZonesActive := 0;
      this.rx := seq(NUM_SOCKETS_MAX, _ => []);
      this.tx := seq(NUM_SOCKETS_MAX, _ => []);
      new;
      assert slots[..] == InitialEngine().slots;
      InitialInv();
    }

    /** udpdk_socket */
    method Socket(domain: int, type_: int, protocol: int) returns (r: Reply)
      requires Valid()
      modifies this`nZonesActive, slots
      ensures Valid()
      ensures (State(), r) == SocketCall(old(State()), domain, type_, protocol)
    {
      if domain != AF_INET {
        return Failed(EAFNOSUPPORT);
      }
      if type_ != SOCK_DGRAM {
        return Failed(EPROTONOSUPPORT);
      }
      if protocol != 0 && protocol != IPPROTO_UDP {
        return Failed(EINVAL);
      }
      r := OpenSocket();
    }

    // The lowest free descriptor.
    method OpenSocket() returns (r: Reply)
      requires Valid()
      modifies this`nZonesActive, slots
      ensures Valid()
      ensures (State(), r) == Engines.Socket(old(State()))
    {
      if nZonesActive > NUM_SOCKETS_MAX {
        return Failed(ENOBUFS);
      }
      var free := FindFreeSlot();
      if free.None? {
        return Failed(ENOBUFS);
      }
      TakeSlot(free.value);
      return Done(free.value);
    }

    method TakeSlot(s: nat)
      requires Valid() && nZonesActive <= NUM_SOCKETS_MAX && FreeSlotFrom(slots[..], 0) == Some(s)
      modifies this`nZonesActive, slots
      ensures Valid()
      ensures (State(), Done(s)) == Engines.Socket(old(State()))
    {
      SocketKeepsInv(State());
      Store(s, slots[s].(used := true, bound := false, sockfd := s, soOptions := {}), nZonesActive + 1);
    }

    method FindFreeSlot() returns (r: Option<nat>)
      requires slots.Length == NUM_SOCKETS_MAX
      ensures r == FreeSlotFrom(slots[..], 0)
    {
      for s := 0 to NUM_SOCKETS_MAX
        invariant FreeSlotFrom(slots[..], 0) == FreeSlotFrom(slots[..], s)
      {
        if !slots[s].used {
          return Some(s);
        }
      }
      return None;
    }

    /** udpdk_setsockopt; `optVal` is None for a NULL pointer. */
    method SetSockOpt(s: nat, level: int, optName: int, optVal: Option<int>) returns (r: Reply)
      requires Valid() && s < NUM_SOCKETS_MAX
      modifies slots
      ensures Valid()
      ensures (State(), r) == SetSockOptCall(old(State()), s, level, optName, optVal)
    {
      if !slots[s].used {
        return Failed(EBADF);
      }
      if level != SOL_SOCKET {
        return Failed(EINVAL);
      }
      var flag := FlagOf(optName);
      if flag.None? {
        return Failed(ENOPROTOOPT);
      }
      if optVal.None? {
        return Failed(EFAULT);
      }
      r := SwitchOption(s, flag.value, optVal.value != 0);
    }

    // Set or reset a flag that does not read so already.
    method SwitchOption(s: nat, flag: OptionBits, on: bool) returns (r: Reply)
      requires Valid() && s < NUM_SOCKETS_MAX && slots[s].used
      modifies slots
      ensures Valid()
      ensures (State(), r) == Engines.SetSockOpt(old(State()), s, flag, on)
    {
      SetSockOptKeepsInv(State(), s, flag, on);
      ghost var before := slots[..];
      var isSet := IsSet(slots[s].soOptions, flag);
      if on && !isSet {
        slots[s] := slots[s].(soOptions := slots[s].soOptions + flag);
      } else if !on && isSet {
        slots[s] := slots[s].(soOptions := slots[s].soOptions - flag);
      }
      assert slots[..] == before[s := slots[s]];
      return Done(0);
    }

    /** udpdk_bind */
    method Bind(s: nat, family: int, addrLen: nat, ip: uint32, port: uint16) returns (r: Reply)
      requires Valid() && s < NUM_SOCKETS_MAX
      modifies this`nZonesActive, slots, btable.ports, btable.ports.slots, btable.Pools(), btable.ports.lists, btable.ports.nodes
      ensures Valid()
      ensures (State(), r) == BindCall(old(State()), s, family, addrLen, ip, port)
    {
      if !slots[s].used {
        return Failed(EBADF);
      }
      if slots[s].bound || family != AF_INET || addrLen != SOCKADDR_LEN {
        return Failed(EINVAL);
      }
      r := BindTo(s, ip, port);
    }

    method BindTo(s: nat, ip: uint32, port: uint16) returns (r: Reply)
      requires Valid() && s < NUM_SOCKETS_MAX && slots[s].used && !slots[s].bound
      modifies this`nZonesActive, slots, btable.ports, btable.ports.slots, btable.Pools(), btable.ports.lists, btable.ports.nodes
      ensures Valid()
      ensures (State(), r) == Engines.Bind(old(State()), s, ip, port)
      ensures forall l :: l in btable.ports.lists ==> l in old(btable.ports.lists) || fresh(l)
      ensures forall n :: n in btable.ports.nodes ==> n in old(btable.ports.nodes) || fresh(n)
    {
      ghost var e := State();
      BindKeepsInv(e, s, ip, port);
      PoolsSuffice(e);
      assert !e.slots[s].bound;
      var options := slots[s].soOptions;
      var ret := btable.AddBinding(s, ip, port, IsSet(options, SO_REUSEADDR), IsSet(options, SO_REUSEPORT));
      if ret < 0 {
        return Failed(EADDRINUSE);
      }
      Store(s, slots[s].(bound := true, udpPort := port, ipAddr := ip), nZonesActive);
      return Done(0);
    }

    /** udpdk_sendto: an unbound socket is bound first, which cannot fail; then the packet goes to
        the end of the transmit ring. `dest` is None for a NULL pointer; `mbuf`: the packet pool is
        not exhausted. A call that gets to fill a packet must not write past the end of its buffer,
        which the code does not check. */
    method SendTo(s: nat, cfg: Config, payload: Bytes, flags: int, dest: Option<Destination>, cksum: uint16,
        mbuf: bool) returns (r: Reply)
      requires Valid() && cfg.Valid()
      requires s < NUM_SOCKETS_MAX && slots[s].used && flags == 0 && dest.Some? && mbuf ==> FitsRoom(cfg, |payload|)
      modifies this`nZonesActive, this`tx, slots
      modifies btable.ports, btable.ports.slots, btable.Pools(), btable.ports.lists, btable.ports.nodes
      ensures Valid()
      ensures (State(), r) == SendToCall(old(State()), s, cfg, payload, flags, dest, cksum, mbuf)
      ensures r != Failed(EADDRINUSE) && (r == Failed(EINVAL) ==> flags != 0 || dest.None?)
    {
      if s >= NUM_SOCKETS_MAX {
        return Failed(ENOTSOCK);
      }
      if !slots[s].used {
        return Failed(EBADF);
      }
      if flags != 0 || dest.None? {
        return Failed(EINVAL);
      }
      if !slots[s].bound {
        r := BindToFreePort(s);
        if !r.Done? {
          return r;
        }
      }
      r := Transmit(s, cfg, payload, dest.value.ip, dest.value.port, cksum, mbuf);
    }

    // The implicit bind of sendto.
    method BindToFreePort(s: nat) returns (r: Reply)
      requires Valid() && s < NUM_SOCKETS_MAX && slots[s].used && !slots[s].bound
      modifies this`nZonesActive, slots, btable.ports, btable.ports.slots, btable.Pools(), btable.ports.lists, btable.ports.nodes
      ensures Valid()
      ensures (State(), r) == EnsureBound(old(State()), s) && r == Done(0)
    {
      ImplicitBindSucceeds(State(), s);
      var port := FreePortShort();
      r := Bind(s, AF_INET, SOCKADDR_LEN, INADDR_ANY, port);
    }

    // The int result of btable_get_free_port, stored in a 16-bit field.
    method FreePortShort() returns (port: uint16)
      requires btable.Valid()
      ensures port == FreePortNumber(btable.Table())
    {
      var p := btable.GetFreePort();
      assert p >= 0 ==> Low16(p) == p;
      port := Low16(p);
    }

    method Transmit(s: nat, cfg: Config, payload: Bytes, dstIp: uint32, dstPort: uint16, cksum: uint16,
        mbuf: bool) returns (r: Reply)
      requires Valid() && cfg.Valid() && s < NUM_SOCKETS_MAX && slots[s].bound
      requires mbuf ==> FitsRoom(cfg, |payload|)
      modifies this`tx
      ensures Valid()
      ensures (State(), r) == Engines.SendTo(old(State()), s, cfg, payload, dstIp, dstPort, cksum, mbuf)
      ensures r.Done? || r == Failed(ENOMEM) || r == Failed(ENOBUFS)
    {
      SendToKeepsInv(State(), s, cfg, payload, dstIp, dstPort, cksum, mbuf);
      assert SlotOk(State().slots, State().table, s);
      if !mbuf {
        return Failed(ENOMEM);
      }
      var m := MakePacket(cfg, FlowOf(slots[s], cfg, dstIp, dstPort), payload, cksum);
      if |tx[s]| >= RING_CAPACITY {
        return Failed(ENOBUFS);
      }
      tx := tx[s := tx[s] + [m]];
      return Done(|payload|);
    }

    /** udpdk_recvfrom, once a packet is there: its payload goes to the caller's buffer and its
        source address to the caller, as much of it as there is room for. `nullBuf`: the caller passed
        NULL, and `buf` stands for no memory; `addrLen` is None if it passed NULL for the address;
        `interrupted`: a signal came before. The frame is taken to hold its headers, which the code
        never checks. */
    method RecvFrom(s: nat, buf: array<byte>, len: nat, flags: int, nullBuf: bool, addrLen: Option<nat>,
        interrupted: bool) returns (r: Reply, n: nat, srcAddr: Bytes)
      requires Valid() && (buf as object) != slots && (buf as object) != btable.ports.slots
      requires !(nullBuf && addrLen.Some?) ==> len <= buf.Length
      requires s < NUM_SOCKETS_MAX && rx[s] != [] ==> Readable(rx[s][0].segs)
      modifies this`rx, buf
      ensures Valid()
      ensures (State(), r) == RecvFromCall(old(State()), s, flags, nullBuf, addrLen, interrupted)
      ensures r.Done? ==>
                var segs := old(rx)[s][0].segs;
                && Received(segs, old(buf[..]), buf[..], len, n, SrcIp(segs[0]), SrcPort(segs[0]))
                && srcAddr == SourceAddress(segs[0], addrLen)
      ensures !r.Done? ==> buf[..] == old(buf[..])
    {
      n, srcAddr := 0, [];
      if s >= NUM_SOCKETS_MAX {
        return Failed(ENOTSOCK), n, srcAddr;
      }
      if !slots[s].used {
        return Failed(EBADF), n, srcAddr;
      }
      if flags != 0 || (nullBuf && addrLen.Some?) {
        return Failed(EINVAL), n, srcAddr;
      }
      if interrupted {
        return Failed(EINTR), n, srcAddr;
      }
      r, n, srcAddr := TakePacket(s, buf, len, addrLen);
    }

    method TakePacket(s: nat, buf: array<byte>, len: nat, addrLen: Option<nat>)
        returns (r: Reply, n: nat, srcAddr: Bytes)
      requires Valid() && len <= buf.Length && (buf as object) != slots && (buf as object) != btable.ports.slots
      requires s < NUM_SOCKETS_MAX && slots[s].used && (rx[s] != [] ==> Readable(rx[s][0].segs))
      modifies this`rx, buf
      ensures Valid()
      ensures (State(), r) == Engines.RecvFrom(old(State()), s)
      ensures r.Done? ==>
                var segs := old(rx)[s][0].segs;
                && Received(segs, old(buf[..]), buf[..], len, n, SrcIp(segs[0]), SrcPort(segs[0]))
                && srcAddr == SourceAddress(segs[0], addrLen)
      ensures !r.Done? ==> buf[..] == old(buf[..])
    {
      if rx[s] == [] {
        return Waiting, 0, [];
      }
      var pkt := rx[s][0];
      rx := rx[s := rx[s][1..]];
      assert Valid();
      r, srcAddr := Done(0), SourceAddress(pkt.segs[0], addrLen);
      var srcIp, srcPort;
      n, srcIp, srcPort := ReadPacket(pkt, buf, len);
    }

    /** udpdk_close */
    method Close(s: nat) returns (r: Reply)
      requires Valid() && s < NUM_SOCKETS_MAX
      modifies this`nZonesActive, slots
      modifies btable.ports, btable.ports.slots, btable.Pools(), btable.ports.lists, btable.ports.nodes
      ensures Valid()
      ensures (State(), r) == Engines.Close(old(State()), s)
      ensures btable.ports.lists == old(btable.ports.lists) && btable.ports.nodes == old(btable.ports.nodes)
    {
      ghost var e := State();
      CloseKeepsInv(e, s);
      if !slots[s].used {
        return Failed(EBADF);
      }
      Unbind(s);
      ResetSlot(s);
      return Done(0);
    }

    method ResetSlot(s: nat)
      requires btable.Valid() && Apart() && Shape(State()) && s < NUM_SOCKETS_MAX
      modifies this`nZonesActive, slots
      ensures btable.Valid() && Apart()
      ensures State() == Reset(old(State()), s)
    {
      Store(s, slots[s].(bound := false, used := false, soOptions := {}), nZonesActive + 1);
    }

    // Take the binding of slot s, if it has one, out of the table.
    method Unbind(s: nat)
      requires Valid() && s < NUM_SOCKETS_MAX
      modifies btable.ports, btable.ports.slots, btable.Pools(), btable.ports.lists, btable.ports.nodes
      ensures btable.Valid() && Apart()
      ensures State() == old(State()).(table := TableWithout(old(State()), s))
      ensures btable.ports.lists == old(btable.ports.lists) && btable.ports.nodes == old(btable.ports.nodes)
    {
      if slots[s].bound {
        assert SlotOk(State().slots, State().table, s);
        btable.DelBinding(s, slots[s].udpPort);
      }
    }

    /** The pools follow the sockets: one bind_info and one node for every bound socket, one list for
        every port in use, and no iterator outside a call. */
    lemma PoolsTrackSockets()
      requires Valid()
      ensures |btable.bindInfoAlloc.live| == |btable.nodeAlloc.live| == |BoundSlots(State().slots)| <= NUM_SOCKETS_MAX
      ensures |btable.listAlloc.live| == Busy(State().table) <= |BoundSlots(State().slots)|
      ensures btable.iterAlloc.live == {}
    {
      PoolsSuffice(State());
    }

    // n_free of the pools of bind_infos, lists, nodes and iterators.
    ghost function FreeBlocks(): (nat, nat, nat, nat)
      reads btable.Pools()
    {
      (btable.bindInfoAlloc.nFree, btable.listAlloc.nFree, btable.nodeAlloc.nFree, btable.iterAlloc.nFree)
    }

    /** The free counts of all four pools are determined by the contents of the table. */
    lemma PoolsFollowTable()
      requires Valid()
      ensures Total(State().table) <= NUM_SOCKETS_MAX && Busy(State().table) <= UDP_MAX_PORT
      ensures FreeBlocks() == (NUM_SOCKETS_MAX - Total(State().table), UDP_MAX_PORT - Busy(State().table),
                               NUM_SOCKETS_MAX - Total(State().table), ITERATORS_MAX)
    {
      PoolsSuffice(State());
      BusyBounds(State().table);
    }

    /** So a bind followed by a close, which restore the table, restore every free count. */
    twostate lemma BindAndCloseRestorePools(s: nat, ip: uint32, port: uint16)
      requires old(Valid()) && Valid() && s < NUM_SOCKETS_MAX
      requires Engines.Bind(old(State()), s, ip, port).1.Done?
      requires State() == Engines.Close(Engines.Bind(old(State()), s, ip, port).0, s).0
      ensures State().table == old(State()).table && FreeBlocks() == old(FreeBlocks())
    {
      CloseUndoesBind(old(State()), s, ip, port);
      PoolsFollowTable();
      assert old(FreeBlocks()) == (NUM_SOCKETS_MAX - Total(old(State()).table), UDP_MAX_PORT - Busy(old(State()).table),
                                   NUM_SOCKETS_MAX - Total(old(State()).table), ITERATORS_MAX) by {
        PoolsFollowTableBefore();
      }
    }

    // The same for the earlier of two states.
    twostate lemma PoolsFollowTableBefore()
      requires old(Valid())
      ensures old(FreeBlocks()) == (NUM_SOCKETS_MAX - Total(old(State()).table), UDP_MAX_PORT - Busy(old(State()).table),
                                    NUM_SOCKETS_MAX - Total(old(State()).table), ITERATORS_MAX)
    {
      PoolsSuffice(old(State()));
      BusyBounds(old(State()).table);
    }

    /** udpdk_close_all_sockets: every block of the bind table goes back to its pool. */
    method CloseAll()
      requires Valid()
      modifies this`nZonesActive, slots
      modifies btable.ports, btable.ports.slots, btable.Pools(), btable.ports.lists, btable.ports.nodes
      ensures Valid() && State() == CloseAllFrom(old(State()), 0)
      ensures btable.bindInfoAlloc.live == btable.nodeAlloc.live == btable.listAlloc.live == btable.iterAlloc.live == {}
    {
      CloseAllEmptiesTable(State());
      CloseEach();
      BusyBounds(btable.Table());
    }

    method CloseEach()
      requires Valid()
      modifies this`nZonesActive, slots
      modifies btable.ports, btable.ports.slots, btable.Pools(), btable.ports.lists, btable.ports.nodes
      ensures Valid() && State() == CloseAllFrom(old(State()), 0)
    {
      for s := 0 to NUM_SOCKETS_MAX
        invariant Valid() && CloseAllFrom(State(), s) == CloseAllFrom(old(State()), 0)
        invariant btable.ports.lists == old(btable.ports.lists) && btable.ports.nodes == old(btable.ports.nodes)
      {
        CloseIfBound(s);
      }
    }

    method CloseIfBound(s: nat)
      requires Valid() && s < NUM_SOCKETS_MAX
      modifies this`nZonesActive, slots
      modifies btable.ports, btable.ports.slots, btable.Pools(), btable.ports.lists, btable.ports.nodes
      ensures Valid() && CloseAllFrom(State(), s + 1) == CloseAllFrom(old(State()), s)
      ensures btable.ports.lists == old(btable.ports.lists) && btable.ports.nodes == old(btable.ports.nodes)
    {
      if slots[s].bound {
        var _ := Close(s);
      }
    }
  }

  /** What a receiver reads of a datagram from the ring of a sender is the sender's address and port
      and, up to the largest payload, its first bytes, as many as it asked for. */
  lemma ReceivedIsSent(cfg: Config, flow: Flow, payload: Bytes, cksum: uint16, beyond: Bytes, segs: seq<Bytes>,
      before: Bytes, after: Bytes, len: nat, n: nat, srcIp: uint32, srcPort: uint16)
    requires cfg.Valid() && |beyond| == 0x1_0000 && len < 0x1_0000_0000
    requires ArrivesAs(segs, SentFrame(cfg, flow, payload, cksum, beyond))
    requires Received(segs, before, after, len, n, srcIp, srcPort)
    ensures srcIp == flow.srcIp && srcPort == flow.srcPort
    ensures |payload| <= MaxPayload(cfg) ==>
              n == Min(len, |payload|) <= |after| && after[..n] == payload[..n] && after[n..] == before[n..]
  {
    RoundTrip(cfg, flow, payload, cksum, beyond, segs);
    if |payload| <= MaxPayload(cfg) {
      ReceivedPrefix(segs, payload, before, after, len, n, srcIp, srcPort);
    }
  }

  lemma ReceivedPrefix(segs: seq<Bytes>, payload: Bytes, before: Bytes, after: Bytes, len: nat, n: nat,
      srcIp: uint32, srcPort: uint16)
    requires Received(segs, before, after, len, n, srcIp, srcPort) && len < 0x1_0000_0000
    requires Stream(segs, DgramPaylLen(segs[0])) == payload
    ensures n == Min(len, |payload|) <= |after| && after[..n] == payload[..n] && after[n..] == before[n..]
  {
    assert Low32(len) == len;
    CopiedSlices(after, before, payload, n);
  }

  lemma CopiedSlices(after: Bytes, before: Bytes, stream: Bytes, n: nat)
    requires Copied(after, before, stream, n)
    ensures after[..n] == stream[..n] && after[n..] == before[n..]
  {
  }
}
