/** What a caller sees of each call, and what the call leaves as it was: when it succeeds, which
    error it gives otherwise, and the state after it (udpdk_syscall.c). */
module Outcomes {
  import opened Constants
  import opened Sequences
  import opened Bindings
  import opened Datagrams
  import opened Engines
  import opened Arguments

  // Only slot s differs, and not its rings or the table.
  ghost predicate OnlySlot(e: Engine, e1: Engine, s: nat)
    requires Shape(e) && Shape(e1) && s < NUM_SOCKETS_MAX
  {
    && e1.table == e.table && e1.rx == e.rx && e1.tx == e.tx
    && forall t :: 0 <= t < NUM_SOCKETS_MAX && t != s ==> e1.slots[t] == e.slots[t]
  }

  // ---------------------------------------------------------------- socket

  /** A new socket has the lowest free descriptor, is unbound and has no option set. */
  lemma SocketOpens(e: Engine)
    requires Shape(e) && Socket(e).1.Done?
    ensures var (e1, s) := (Socket(e).0, Socket(e).1.value);
            && s < NUM_SOCKETS_MAX && !e.slots[s].used && (forall t :: 0 <= t < s ==> e.slots[t].used)
            && OnlySlot(e, e1, s) && e1.nZonesActive == e.nZonesActive + 1
            && e1.slots[s].used && !e1.slots[s].bound && e1.slots[s].sockfd == s && e1.slots[s].soOptions == {}
  {
  }

  /** Which answer socket gives. */
  lemma SocketAnswers(e: Engine, domain: int, type_: int, protocol: int)
    requires Shape(e)
    ensures var (e1, r) := SocketCall(e, domain, type_, protocol);
            && (r == Failed(EAFNOSUPPORT) <==> domain != 2)
            && (r == Failed(EPROTONOSUPPORT) <==> domain == 2 && type_ != 2)
            && (r == Failed(EINVAL) <==> domain == 2 && type_ == 2 && protocol != 0 && protocol != 17)
            && (r == Failed(ENOBUFS) <==>
                  domain == 2 && type_ == 2 && (protocol == 0 || protocol == 17) &&
                  (e.nZonesActive > 1024 || forall s :: 0 <= s < 1024 ==> e.slots[s].used))
            && (!r.Done? ==> e1 == e)
  {
    SocketSucceeds(e);
  }

  // ---------------------------------------------------------------- setsockopt

  // The bits of a flag that are set in an option word.
  ghost predicate Reads(options: OptionBits, flag: OptionBits) {
    exists bit: nat :: bit in options && bit in flag
  }

  lemma ReadsIsSet(options: OptionBits, flag: OptionBits)
    ensures Reads(options, flag) <==> IsSet(options, flag)
  {
    if bit: nat :| bit in options && bit in flag {
      assert bit in options * flag;
    }
    if IsSet(options, flag) {
      var bit :| bit in options * flag;
      assert bit in options && bit in flag;
    }
  }

  /** After the call the option reads as asked for; only bits of that option have changed, and none if
      it read so before; everything else is as it was. */
  lemma OptionAfterCall(e: Engine, s: nat, flag: OptionBits, on: bool)
    requires Shape(e) && s < NUM_SOCKETS_MAX && e.slots[s].used && flag != {}
    ensures var (e1, r) := SetSockOpt(e, s, flag, on);
            && r == Done(0) && OnlySlot(e, e1, s) && e1.nZonesActive == e.nZonesActive
            && e1.slots[s] == e.slots[s].(soOptions := e1.slots[s].soOptions)
            && (Reads(e1.slots[s].soOptions, flag) <==> on)
            && (forall bit: nat :: bit !in flag ==> (bit in e1.slots[s].soOptions <==> bit in e.slots[s].soOptions))
            && ((Reads(e.slots[s].soOptions, flag) <==> on) ==> e1.slots[s].soOptions == e.slots[s].soOptions)
  {
    var e1 := SetSockOpt(e, s, flag, on).0;
    ReadsIsSet(e.slots[s].soOptions, flag);
    ReadsIsSet(e1.slots[s].soOptions, flag);
    OptionReadsBack(e.slots[s].soOptions, flag, on);
  }

  /** Which answer setsockopt gives. */
  lemma SetSockOptAnswers(e: Engine, s: nat, level: int, optName: int, optVal: Option<int>)
    requires Shape(e) && s < NUM_SOCKETS_MAX
    ensures var (e1, r) := SetSockOptCall(e, s, level, optName, optVal);
            && (r == Failed(EBADF) <==> !e.slots[s].used)
            && (r == Failed(EINVAL) <==> e.slots[s].used && level != 1)
            && (r == Failed(ENOPROTOOPT) <==> e.slots[s].used && level == 1 && optName != 2 && optName != 15)
            && (r == Failed(EFAULT) <==>
                  e.slots[s].used && level == 1 && (optName == 2 || optName == 15) && optVal.None?)
            && (!r.Done? ==> e1 == e)
            && (r.Done? ==>
                  (Reads(e1.slots[s].soOptions, if optName == 2 then {1} else {0, 1, 2, 3}) <==> optVal.value != 0))
  {
    if SetSockOptCall(e, s, level, optName, optVal).1.Done? {
      OptionAfterCall(e, s, if optName == 2 then {1} else {0, 1, 2, 3}, optVal.value != 0);
    }
  }

  // ---------------------------------------------------------------- bind

  // The binding of a socket with the reuse options that its option word reads.
  ghost predicate IsBindingOf(b: Binding, s: nat, ip: nat, options: OptionBits) {
    && b.sockfd == s && b.ip == ip
    && (b.reuseAddr <==> Reads(options, {1})) && (b.reusePort <==> Reads(options, {0, 1, 2, 3}))
  }

  /** A bind of a used and unbound socket succeeds exactly if its binding, with the options that its
      option word reads, is compatible with every binding of the port. Then that joins the port behind
      the others, the slot has its port and address, and all else is as it was. */
  lemma BindDecides(e: Engine, s: nat, ip: uint32, port: uint16, b: Binding)
    requires Inv(e) && s < NUM_SOCKETS_MAX && e.slots[s].used && !e.slots[s].bound
    requires IsBindingOf(b, s, ip, e.slots[s].soOptions)
    ensures var (e1, r) := Bind(e, s, ip, port);
            && (r.Done? <==> forall i :: 0 <= i < |e.table[port]| ==> Compatible(e.table[port][i], b))
            && (!r.Done? ==> r == Failed(EADDRINUSE) && e1 == e)
            && (r.Done? ==>
                  && e1.table == e.table[port := e.table[port] + [b]]
                  && e1.slots == e.slots[s := e.slots[s].(bound := true, udpPort := port, ipAddr := ip)]
                  && e1.rx == e.rx && e1.tx == e.tx && e1.nZonesActive == e.nZonesActive)
  {
    ReadsIsSet(e.slots[s].soOptions, SO_REUSEADDR);
    ReadsIsSet(e.slots[s].soOptions, SO_REUSEPORT);
    assert b == BindingOf(s, e.slots[s], ip);
    assert PortAgrees(e.slots, e.table, port);
    forall i | 0 <= i < |e.table[port]|
      ensures Passes(e.table[port][i], b) <==> Compatible(e.table[port][i], b)
    {
      PassesMeansCompatible(e.table[port][i], b);
    }
    if CanBind(e.table[port], b) {
      InsertKeepsOrder(e.table[port], b);
    }
  }

  /** Which answer bind gives. */
  lemma BindAnswers(e: Engine, s: nat, family: int, addrLen: nat, ip: uint32, port: uint16)
    requires Shape(e) && s < NUM_SOCKETS_MAX
    ensures var (e1, r) := BindCall(e, s, family, addrLen, ip, port);
            && (r == Failed(EBADF) <==> !e.slots[s].used)
            && (r == Failed(EINVAL) <==> e.slots[s].used && (e.slots[s].bound || family != 2 || addrLen != 16))
            && (r == Failed(EADDRINUSE) <==>
                  e.slots[s].used && !e.slots[s].bound && family == 2 && addrLen == 16 &&
                  !Bind(e, s, ip, port).1.Done?)
            && (!r.Done? ==> e1 == e)
  {
  }

  // Either reuse option, as a step.
  function ReuseOp(s: nat, addr: bool): Op {
    if addr then OpSetReuseAddr(s, true) else OpSetReusePort(s, true)
  }

  lemma AfterReuse(e: Engine, s: nat, addr: bool)
    requires Inv(e) && s < NUM_SOCKETS_MAX && e.slots[s].used
    ensures var e1 := Step(e, ReuseOp(s, addr)).0;
            && Inv(e1) && OnlySlot(e, e1, s) && e1.slots[s] == e.slots[s].(soOptions := e1.slots[s].soOptions)
            && Reads(e1.slots[s].soOptions, {0, 1, 2, 3})
  {
    var flag := if addr then SO_REUSEADDR else SO_REUSEPORT;
    StepKeepsInv(e, ReuseOp(s, addr));
    OptionAfterCall(e, s, flag, true);
    var options := Step(e, ReuseOp(s, addr)).0.slots[s].soOptions;
    ReadsIsSet(options, SO_REUSEADDR);
    ReadsIsSet(options, SO_REUSEPORT);
    ReuseAddrImpliesReusePort(options);
  }

  /** With the Linux values of the options, two sockets that set either of them can share any specific
      address on a free port. */
  lemma EitherOptionShares(e: Engine, s: nat, t: nat, addrS: bool, addrT: bool, ip: uint32, port: uint16)
    requires Inv(e) && s < NUM_SOCKETS_MAX && t < NUM_SOCKETS_MAX && s != t && ip != INADDR_ANY && e.table[port] == []
    requires e.slots[s].used && !e.slots[s].bound && e.slots[t].used && !e.slots[t].bound
    ensures var e1 := Step(Step(e, ReuseOp(s, addrS)).0, ReuseOp(t, addrT)).0;
            var (e2, r2) := Step(e1, OpBind(s, ip, port));
            var (e3, r3) := Step(e2, OpBind(t, ip, port));
            r2 == Done(0) && r3 == Done(0) && e3.slots[s].bound && e3.slots[t].bound
  {
    AfterReuse(e, s, addrS);
    AfterReuse(Step(e, ReuseOp(s, addrS)).0, t, addrT);
    BothBind(Step(Step(e, ReuseOp(s, addrS)).0, ReuseOp(t, addrT)).0, s, t, ip, port);
  }

  lemma BothBind(e: Engine, s: nat, t: nat, ip: uint32, port: uint16)
    requires Inv(e) && s < NUM_SOCKETS_MAX && t < NUM_SOCKETS_MAX && s != t && ip != INADDR_ANY && e.table[port] == []
    requires e.slots[s].used && !e.slots[s].bound && Reads(e.slots[s].soOptions, {0, 1, 2, 3})
    requires e.slots[t].used && !e.slots[t].bound && Reads(e.slots[t].soOptions, {0, 1, 2, 3})
    ensures var (e1, r1) := Bind(e, s, ip, port);
            var (e2, r2) := Bind(e1, t, ip, port);
            r1 == Done(0) && r2 == Done(0) && e2.slots[s].bound && e2.slots[t].bound
  {
    ReadsIsSet(e.slots[s].soOptions, SO_REUSEADDR);
    ReadsIsSet(e.slots[t].soOptions, SO_REUSEADDR);
    var bs := Binding(s, ip, IsSet(e.slots[s].soOptions, SO_REUSEADDR), true);
    var bt := Binding(t, ip, IsSet(e.slots[t].soOptions, SO_REUSEADDR), true);
    BindDecides(e, s, ip, port, bs);
    BindKeepsInv(e, s, ip, port);
    assert [] + [bs] == [bs];
    BindDecides(Bind(e, s, ip, port).0, t, ip, port, bt);
  }

  // ---------------------------------------------------------------- sendto

  /** A call of sendto succeeds exactly if the socket is in use, a packet buffer is there and the ring
      holds less than 2047 packets. It gives the length of the payload, and the ring has one packet
      more at its end. ENOBUFS means that there was a buffer and the ring was full. */
  lemma SendToDecides(e: Engine, s: nat, cfg: Config, payload: Bytes, dstIp: uint32, dstPort: uint16, cksum: uint16,
      mbuf: bool)
    requires Inv(e) && cfg.Valid()
    ensures var (e1, r) := SendTo(e, s, cfg, payload, dstIp, dstPort, cksum, mbuf);
            && (r.Done? <==> s < NUM_SOCKETS_MAX && e.slots[s].used && mbuf && |e.tx[s]| < 2047)
            && (r == Failed(ENOTSOCK) <==> s >= NUM_SOCKETS_MAX)
            && (r == Failed(EBADF) <==> s < NUM_SOCKETS_MAX && !e.slots[s].used)
            && (r == Failed(ENOMEM) <==> s < NUM_SOCKETS_MAX && e.slots[s].used && !mbuf)
            && (r == Failed(ENOBUFS) <==> s < NUM_SOCKETS_MAX && e.slots[s].used && mbuf && |e.tx[s]| == 2047)
            && e1.rx == e.rx && e1.nZonesActive == e.nZonesActive
            && (!r.Done? ==> e1.tx == e.tx)
            && (r.Done? ==>
                  && r.value == |payload| && e1.slots[s].used && e1.slots[s].bound
                  && |e1.tx[s]| == |e.tx[s]| + 1 && e1.tx == e.tx[s := e.tx[s] + [e1.tx[s][|e.tx[s]|]]])
  {
    if s < NUM_SOCKETS_MAX && e.slots[s].used && !e.slots[s].bound {
      ImplicitBindSucceeds(e, s);
    }
  }

  /** A bound socket stays as it is; another one is bound to INADDR_ANY and the lowest free port first,
      even if the packet is then refused. */
  lemma SendToBinds(e: Engine, s: nat, cfg: Config, payload: Bytes, dstIp: uint32, dstPort: uint16, cksum: uint16,
      mbuf: bool)
    requires Inv(e) && cfg.Valid() && s < NUM_SOCKETS_MAX && e.slots[s].used
    ensures var e1 := SendTo(e, s, cfg, payload, dstIp, dstPort, cksum, mbuf).0;
            && (e.slots[s].bound ==> e1.slots == e.slots && e1.table == e.table)
            && (!e.slots[s].bound ==>
                  var p := e1.slots[s].udpPort;
                  && e1.slots == e.slots[s := e.slots[s].(bound := true, udpPort := p, ipAddr := INADDR_ANY)]
                  && e.table[p] == [] && (forall q :: 0 <= q < p ==> e.table[q] != []))
  {
    if !e.slots[s].bound {
      ImplicitBindSucceeds(e, s);
    }
  }

  /** The packet that joins the ring, byte for byte, as long as it fits its buffer and 16 bits of data
      length: from the address and port the socket is bound to, or the configured address if that is
      INADDR_ANY, to the destination of the call. */
  lemma SendToFills(e: Engine, s: nat, cfg: Config, payload: Bytes, dstIp: uint32, dstPort: uint16, cksum: uint16)
    requires Inv(e) && cfg.Valid() && SendTo(e, s, cfg, payload, dstIp, dstPort, cksum, true).1.Done?
    requires 42 + |payload| <= cfg.room && |payload| <= 65493
    ensures |SendTo(e, s, cfg, payload, dstIp, dstPort, cksum, true).0.tx[s]| == |e.tx[s]| + 1
    ensures var e1 := SendTo(e, s, cfg, payload, dstIp, dstPort, cksum, true).0;
            var m, srcIp, srcPort := e1.tx[s][|e.tx[s]|], e1.slots[s].ipAddr, e1.slots[s].udpPort;
            && m.pktLen == 42 + |payload|
            && m.segs ==
               [(cfg.dstMac + cfg.srcMac + [8, 0])
                + ([0x45, 0, (28 + |payload|) / 256 % 256, (28 + |payload|) % 256, 0, 0, 0, 0, 64, 17,
                    cksum % 256, cksum / 256]
                   + InMemory(if srcIp == 0 then cfg.srcIp else srcIp) + InMemory(dstIp))
                + [srcPort % 256, srcPort / 256, dstPort % 256, dstPort / 256,
                   (8 + |payload|) / 256 % 256, (8 + |payload|) % 256, 0, 0]
                + payload]
  {
    SendToFrames(e, s, cfg, payload, dstIp, dstPort, cksum);
    var e1 := SendTo(e, s, cfg, payload, dstIp, dstPort, cksum, true).0;
    FrameBytes(cfg, SlotFlow(e1.slots[s], cfg, dstIp, dstPort), payload, cksum);
  }

  // Where a packet of a bound slot comes from and goes to.
  function SlotFlow(slot: Slot, cfg: Config, dstIp: uint32, dstPort: uint16): Flow {
    Flow(if slot.ipAddr == 0 then cfg.srcIp else slot.ipAddr, slot.udpPort, dstIp, dstPort)
  }

  lemma SendToFrames(e: Engine, s: nat, cfg: Config, payload: Bytes, dstIp: uint32, dstPort: uint16, cksum: uint16)
    requires Inv(e) && cfg.Valid() && SendTo(e, s, cfg, payload, dstIp, dstPort, cksum, true).1.Done?
    requires 42 + |payload| <= cfg.room && |payload| <= 65493
    ensures |SendTo(e, s, cfg, payload, dstIp, dstPort, cksum, true).0.tx[s]| == |e.tx[s]| + 1
    ensures var e1 := SendTo(e, s, cfg, payload, dstIp, dstPort, cksum, true).0;
            && e1.tx[s][|e.tx[s]|].pktLen == 42 + |payload|
            && e1.tx[s][|e.tx[s]|].segs == [Frame(cfg, SlotFlow(e1.slots[s], cfg, dstIp, dstPort), payload, cksum)]
  {
    var e1 := SendTo(e, s, cfg, payload, dstIp, dstPort, cksum, true).0;
    SendToAppends(e, s, cfg, payload, dstIp, dstPort, cksum);
    PacketLength(cfg, SlotFlow(e1.slots[s], cfg, dstIp, dstPort), payload, cksum);
    SentWhole(cfg, SlotFlow(e1.slots[s], cfg, dstIp, dstPort), payload, cksum);
  }

  lemma PacketLength(cfg: Config, flow: Flow, payload: Bytes, cksum: uint16)
    requires cfg.Valid() && |payload| <= 65493
    ensures SentMbuf(cfg, flow, payload, cksum).pktLen == 42 + |payload|
  {
    assert |Frame(cfg, flow, payload, cksum)| == 42 + |payload|;
    Low32Keeps(42 + |payload|);
  }

  lemma Low32Keeps(x: nat)
    requires x < 0x1_0000_0000
    ensures Low32(x) == x
  {
  }

  lemma SendToAppends(e: Engine, s: nat, cfg: Config, payload: Bytes, dstIp: uint32, dstPort: uint16, cksum: uint16)
    requires Inv(e) && cfg.Valid() && SendTo(e, s, cfg, payload, dstIp, dstPort, cksum, true).1.Done?
    ensures var e1 := SendTo(e, s, cfg, payload, dstIp, dstPort, cksum, true).0;
            e1.tx[s] == e.tx[s] + [SentMbuf(cfg, SlotFlow(e1.slots[s], cfg, dstIp, dstPort), payload, cksum)]
  {
    if !e.slots[s].bound {
      ImplicitBindSucceeds(e, s);
    }
  }

  /** Which arguments sendto rejects. */
  lemma SendToAnswers(e: Engine, s: nat, cfg: Config, payload: Bytes, flags: int, dest: Option<Destination>,
      cksum: uint16, mbuf: bool)
    requires Inv(e) && cfg.Valid()
    ensures var (e1, r) := SendToCall(e, s, cfg, payload, flags, dest, cksum, mbuf);
            && (r == Failed(EINVAL) <==> s < NUM_SOCKETS_MAX && e.slots[s].used && (flags != 0 || dest.None?))
            && (r == Failed(ENOTSOCK) <==> s >= NUM_SOCKETS_MAX)
            && (r == Failed(EBADF) <==> s < NUM_SOCKETS_MAX && !e.slots[s].used)
            && (r == Failed(EINVAL) || r == Failed(ENOTSOCK) || r == Failed(EBADF) ==> e1 == e)
  {
    if dest.Some? {
      SendToDecides(e, s, cfg, payload, dest.value.ip, dest.value.port, cksum, mbuf);
    }
  }

  // ---------------------------------------------------------------- recvfrom and close

  /** A call of recvfrom takes the oldest packet, if there is one, and changes nothing else. */
  lemma RecvFromDecides(e: Engine, s: nat)
    requires Shape(e)
    ensures var (e1, r) := RecvFrom(e, s);
            && (r.Done? <==> s < NUM_SOCKETS_MAX && e.slots[s].used && e.rx[s] != [])
            && (r.Waiting? <==> s < NUM_SOCKETS_MAX && e.slots[s].used && e.rx[s] == [])
            && (!r.Done? ==> e1 == e)
            && (r.Done? ==> e.rx[s] == [e.rx[s][0]] + e1.rx[s] && e1 == e.(rx := e.rx[s := e1.rx[s]]))
  {
  }

  /** Which arguments recvfrom rejects. */
  lemma RecvFromAnswers(e: Engine, s: nat, flags: int, nullBuf: bool, addrLen: Option<nat>, interrupted: bool)
    requires Shape(e)
    ensures var (e1, r) := RecvFromCall(e, s, flags, nullBuf, addrLen, interrupted);
            && (r == Failed(ENOTSOCK) <==> s >= NUM_SOCKETS_MAX)
            && (r == Failed(EBADF) <==> s < NUM_SOCKETS_MAX && !e.slots[s].used)
            && (r == Failed(EINVAL) <==>
                  s < NUM_SOCKETS_MAX && e.slots[s].used && (flags != 0 || (nullBuf && addrLen.Some?)))
            && (r == Failed(EINTR) <==>
                  s < NUM_SOCKETS_MAX && e.slots[s].used && flags == 0 && !(nullBuf && addrLen.Some?) && interrupted)
            && (!r.Done? ==> e1 == e)
  {
  }

  /** A close of a used slot succeeds. The slot is free, unbound and without options, its bindings are
      gone from its port and no others are, its rings are as they were. */
  lemma CloseFrees(e: Engine, s: nat)
    requires Inv(e) && s < NUM_SOCKETS_MAX
    ensures var (e1, r) := Close(e, s);
            && (r == Done(0) <==> e.slots[s].used) && (r == Failed(EBADF) <==> !e.slots[s].used)
            && (!r.Done? ==> e1 == e)
            && (r.Done? ==>
                  && !e1.slots[s].used && !e1.slots[s].bound && e1.slots[s].soOptions == {}
                  && (forall t :: 0 <= t < NUM_SOCKETS_MAX && t != s ==> e1.slots[t] == e.slots[t])
                  && e1.rx == e.rx && e1.tx == e.tx && e1.nZonesActive == e.nZonesActive + 1
                  && |e1.table| == |e.table|
                  && forall p :: 0 <= p < |e.table| ==> e1.table[p] == Without(e.table[p], s))
  {
    if e.slots[s].used {
      forall p | 0 <= p < |e.table|
        ensures Close(e, s).0.table[p] == Without(e.table[p], s)
      {
        CloseClearsPort(e, s, p);
      }
    }
  }

  // The bindings of other sockets, in their order.
  function Without(bound: Bound, s: nat): Bound {
    if bound == [] then []
    else (if bound[0].sockfd == s then [] else [bound[0]]) + Without(bound[1..], s)
  }

  lemma {:induction false} WithoutAbsent(bound: Bound, s: nat)
    requires forall i :: 0 <= i < |bound| ==> bound[i].sockfd != s
    ensures Without(bound, s) == bound
  {
    if bound != [] {
      WithoutAbsent(bound[1..], s);
      assert [bound[0]] + bound[1..] == bound;
    }
  }

  lemma {:induction false} WithoutIsDelete(bound: Bound, s: nat)
    requires DistinctSockets(bound)
    ensures Delete(bound, s) == Without(bound, s)
  {
    if bound != [] {
      var rest := bound[1..];
      if bound[0].sockfd == s {
        WithoutAbsent(rest, s);
        assert IndexOf(bound, s) == 0 && RemoveAt(bound, 0) == rest;
      } else {
        WithoutIsDelete(rest, s);
        DeleteFromRest(bound, s);
      }
    }
  }

  lemma DeleteFromRest(bound: Bound, s: nat)
    requires bound != [] && bound[0].sockfd != s
    ensures Delete(bound, s) == [bound[0]] + Delete(bound[1..], s)
  {
    var k := IndexOf(bound[1..], s);
    assert IndexOf(bound, s) == k + 1;
    if k < |bound| - 1 {
      assert RemoveAt(bound, k + 1) == [bound[0]] + RemoveAt(bound[1..], k);
    } else {
      assert bound == [bound[0]] + bound[1..];
    }
  }

  lemma CloseClearsPort(e: Engine, s: nat, p: nat)
    requires Inv(e) && s < NUM_SOCKETS_MAX && e.slots[s].used && p < |e.table|
    ensures Close(e, s).0.table[p] == Without(e.table[p], s)
  {
    assert PortAgrees(e.slots, e.table, p);
    WithoutIsDelete(e.table[p], s);
    if !(e.slots[s].bound && e.slots[s].udpPort == p) {
      forall i | 0 <= i < |e.table[p]|
        ensures e.table[p][i].sockfd != s
      {
        assert EntryOk(e.slots, p, e.table[p][i]);
      }
      WithoutAbsent(e.table[p], s);
    }
  }
}
