/** The layers together: what the socket calls, the bind table and the poller guarantee as one
    engine, in every state that a run can reach. */
module System {
  import opened Constants
  import opened Sequences
  import opened Bindings
  import opened Datagrams
  import opened Engines
  import opened Hosts
  import D = Delivery
  import O = Overflows
  import S = Sockets
  import T = Transmit

  // ---------------------------------------------------------------- which sockets are selected

  // The slot is bound to the port, and to the destination address or to all addresses.
  ghost predicate ListensTo(slot: Slot, dstIp: uint32, port: uint16) {
    slot.bound && slot.udpPort == port && (slot.ipAddr == dstIp || slot.ipAddr == INADDR_ANY)
  }

  lemma ListenersMatch(e: Engine, s: nat, dstIp: uint32, port: uint16)
    requires Inv(e) && s < NUM_SOCKETS_MAX
    ensures s in D.SocketsOf(D.Matching(e.table[port], dstIp)) <==> ListensTo(e.slots[s], dstIp, port)
  {
    var bound := e.table[port];
    var matching := D.Matching(bound, dstIp);
    D.InSocketsOf(matching, s);
    assert SlotOk(e.slots, e.table, s) && PortAgrees(e.slots, e.table, port);
    if i :| 0 <= i < |matching| && matching[i].sockfd == s {
      D.InMatching(bound, dstIp, matching[i]);
      var k :| 0 <= k < |bound| && bound[k] == matching[i];
      assert EntryOk(e.slots, port, bound[k]);
    }
    if ListensTo(e.slots[s], dstIp, port) {
      var b := bound[IndexOf(bound, s)];
      D.InMatching(bound, dstIp, b);
      assert exists i :: 0 <= i < |matching| && matching[i] == b;
    }
  }

  /** The scan for receivers selects, in every reachable state, exactly the sockets that listen to
      the destination, unless the port is headed by a wildcard without reuse options that shares it;
      then it selects that one only. */
  lemma ListenersAreSelected(e: Engine, s: nat, dstIp: uint32, port: uint16)
    requires Inv(e) && s < NUM_SOCKETS_MAX
    ensures var selected := D.SocketsOf(D.Receivers(e.table[port], dstIp));
            if D.Greedy(e.table[port]) then selected == [e.table[port][0].sockfd]
            else s in selected <==> ListensTo(e.slots[s], dstIp, port)
  {
    var bound := e.table[port];
    assert PortAgrees(e.slots, e.table, port);
    D.EarlyStopLosesNobody(bound);
    ListenersMatch(e, s, dstIp, port);
    if D.Greedy(bound) {
      assert D.Receivers(bound, dstIp) == [bound[0]];
    }
  }

  // ---------------------------------------------------------------- which rings they reach

  // How often a datagram is put into the buffer of slot k.
  ghost function PortHits(e: Engine, k: nat, port: uint16, dstIp: uint32): nat
    requires Shape(e)
  {
    D.Hits(D.SocketsOf(D.Receivers(e.table[port], dstIp)), k)
  }

  // How often it should be.
  ghost function Due(e: Engine, k: nat, port: uint16, dstIp: uint32): nat
    requires Shape(e) && k < NUM_SOCKETS_MAX
  {
    if ListensTo(e.slots[k], dstIp, port) then 1 else 0
  }

  // A receiver with another descriptor is served by slot k.
  ghost predicate Intrudes(e: Engine, k: nat, p: nat, i: nat)
    requires Shape(e) && p < |e.table| && i < |e.table[p]|
  {
    O.CanReceive(e.table[p], i) && e.table[p][i].sockfd != k && D.SlotIndex(e.table[p][i].sockfd) == k
  }

  /** Slot k serves its own socket and no other: a bound descriptor fits the 8-bit index and is not
      hidden behind a wildcard that keeps the port for itself, and no other receiver has a
      descriptor that is equal modulo 256. */
  ghost predicate OwnRing(e: Engine, k: nat)
    requires Shape(e) && k < NUM_SOCKETS_MAX
  {
    && (e.slots[k].bound ==>
          var bound := e.table[e.slots[k].udpPort];
          k < 256 && (D.Greedy(bound) ==> bound[0].sockfd == k))
    && NoIntruder(e, k)
  }

  ghost predicate NoIntruder(e: Engine, k: nat)
    requires Shape(e)
  {
    forall p: nat, i: nat {:trigger Intrudes(e, k, p, i)} ::
      p < |e.table| && i < |e.table[p]| ==> !Intrudes(e, k, p, i)
  }

  lemma OwnEntry(e: Engine, k: nat, p: nat, i: nat)
    requires Shape(e) && NoIntruder(e, k) && p < |e.table| && i < |e.table[p]|
    requires O.CanReceive(e.table[p], i) && D.SlotIndex(e.table[p][i].sockfd) == k
    ensures e.table[p][i].sockfd == k
  {
    assert !Intrudes(e, k, p, i);
  }

  lemma OwnRingHits(e: Engine, k: nat, port: uint16, dstIp: uint32)
    requires Inv(e) && k < NUM_SOCKETS_MAX && OwnRing(e, k)
    ensures PortHits(e, k, port, dstIp) == Due(e, k, port, dstIp)
  {
    var bound := e.table[port];
    assert PortAgrees(e.slots, e.table, port) && SlotOk(e.slots, e.table, k);
    if D.Greedy(bound) {
      O.GreedyHits(bound, dstIp, k);
      assert EntryOk(e.slots, port, bound[0]) && !Intrudes(e, k, port, 0);
    } else {
      D.NoEarlyStop(bound, dstIp);
      if ListensTo(e.slots[k], dstIp, port) {
        O.OneHit(bound, dstIp, k, IndexOf(bound, k));
      }
      if PortHits(e, k, port, dstIp) > Due(e, k, port, dstIp) {
        var i := O.FindHit(bound, dstIp, k);
        OwnEntry(e, k, port, i);
        assert EntryOk(e.slots, port, bound[i]);
        var j: nat :| i < j < |bound| && O.HitBy(bound, dstIp, k, j);
        OwnEntry(e, k, port, j);
      }
    }
  }

  lemma IntruderMisdirects(e: Engine, k: nat, p: nat, i: nat) returns (port: uint16, dstIp: uint32)
    requires Inv(e) && k < NUM_SOCKETS_MAX && p < |e.table| && i < |e.table[p]| && Intrudes(e, k, p, i)
    ensures PortHits(e, k, port, dstIp) != Due(e, k, port, dstIp)
  {
    port := p;
    var bound := e.table[port];
    assert PortAgrees(e.slots, e.table, port) && SlotOk(e.slots, e.table, k) && EntryOk(e.slots, port, bound[i]);
    if D.Greedy(bound) {
      dstIp := if e.slots[k].ipAddr == 1 then 2 else 1;
      O.GreedyHits(bound, dstIp, k);
      if ListensTo(e.slots[k], dstIp, port) {
        WildcardIsHead(bound, IndexOf(bound, k));
      }
    } else {
      dstIp := bound[i].ip;
      D.NoEarlyStop(bound, dstIp);
      O.OneHit(bound, dstIp, k, i);
      if ListensTo(e.slots[k], dstIp, port) {
        var j := IndexOf(bound, k);
        O.TwoHits(bound, dstIp, k, if i < j then i else j, if i < j then j else i);
      }
    }
  }

  lemma DeafMisdirects(e: Engine, k: nat) returns (port: uint16, dstIp: uint32)
    requires Inv(e) && k < NUM_SOCKETS_MAX && !OwnRing(e, k)
    requires NoIntruder(e, k)
    ensures PortHits(e, k, port, dstIp) == 0 && Due(e, k, port, dstIp) == 1
  {
    port, dstIp := e.slots[k].udpPort, e.slots[k].ipAddr;
    var bound := e.table[port];
    assert PortAgrees(e.slots, e.table, port);
    if PortHits(e, k, port, dstIp) >= 1 {
      var i := O.HitIsReceiving(bound, dstIp, k);
      OwnEntry(e, k, port, i);
    }
  }

  lemma OwnRingNeeded(e: Engine, k: nat) returns (port: uint16, dstIp: uint32)
    requires Inv(e) && k < NUM_SOCKETS_MAX && !OwnRing(e, k)
    ensures PortHits(e, k, port, dstIp) != Due(e, k, port, dstIp)
  {
    if p: nat, i: nat :| p < |e.table| && i < |e.table[p]| && Intrudes(e, k, p, i) {
      port, dstIp := IntruderMisdirects(e, k, p, i);
    } else {
      port, dstIp := DeafMisdirects(e, k);
    }
  }

  // The frame carries a datagram that the slot listens to.
  ghost predicate IsFor(slot: Slot, frame: D.RxFrame) {
    frame.class_.Udp? && ListensTo(slot, frame.class_.dstIp, frame.class_.dstPort)
  }

  // The datagrams of a burst that the slot listens to, in the order of arrival.
  ghost function Wanted(slot: Slot, burst: seq<Arrival>): Ring {
    if burst == [] then []
    else Wanted(slot, burst[..|burst| - 1]) +
         if IsFor(slot, burst[|burst| - 1].frame) then [burst[|burst| - 1].m] else []
  }

  lemma {:induction false} WantedAppend(slot: Slot, a: seq<Arrival>, b: seq<Arrival>)
    ensures Wanted(slot, a + b) == Wanted(slot, a) + Wanted(slot, b)
  {
    if b == [] {
      assert a + b == a;
    } else {
      var front, last := b[..|b| - 1], b[|b| - 1];
      WantedAppend(slot, a, front);
      assert (a + b)[..|a + b| - 1] == a + front && (a + b)[|a + b| - 1] == last;
      ConcatAssoc(Wanted(slot, a), Wanted(slot, front), if IsFor(slot, last.frame) then [last.m] else []);
    }
  }

  lemma {:induction false} QueuedIsWanted(e: Engine, k: nat, burst: seq<Arrival>)
    requires Inv(e) && k < NUM_SOCKETS_MAX && OwnRing(e, k)
    ensures Queued(e.table, burst, k) == Wanted(e.slots[k], burst)
  {
    if burst != [] {
      var frame := burst[|burst| - 1].frame;
      QueuedIsWanted(e, k, burst[..|burst| - 1]);
      if frame.class_.Udp? {
        OwnRingHits(e, k, frame.class_.dstPort, frame.class_.dstIp);
      }
    }
  }

  lemma {:induction false} FewerHits(bound: Bound, k: nat)
    ensures D.Hits(D.SocketsOf(bound), k) <= |bound|
  {
    if bound != [] {
      FewerHits(bound[1..], k);
      D.SocketsOfCons(bound[0], bound[1..]);
      assert [bound[0]] + bound[1..] == bound;
      D.HitsCons(bound[0].sockfd, D.SocketsOf(bound[1..]), k);
    }
  }

  lemma {:induction false} FewerReceivers(bound: Bound, dstIp: nat)
    ensures |D.Receivers(bound, dstIp)| <= |bound|
  {
    if bound != [] {
      FewerReceivers(bound[1..], dstIp);
      D.ReceiversStep(bound, dstIp);
    }
  }

  lemma FewHits(e: Engine, k: nat, port: uint16, dstIp: uint32)
    requires Inv(e)
    ensures PortHits(e, k, port, dstIp) <= NUM_SOCKETS_MAX
  {
    FewerHits(D.Receivers(e.table[port], dstIp), k);
    FewerReceivers(e.table[port], dstIp);
    TotalPart(e.table, port);
    PoolsSuffice(e);
  }

  lemma OneArrival(h: Host, k: nat, port: uint16, dstIp: uint32) returns (burst: seq<Arrival>)
    requires HostShape(h) && k < NUM_SOCKETS_MAX
    ensures |burst| == 1
    ensures |InBuffers(h, burst)[k]| == |h.bufs[k]| + PortHits(h.e, k, port, dstIp)
    ensures |Wanted(h.e.slots[k], burst)| == Due(h.e, k, port, dstIp)
  {
    var a := Arrival(D.RxFrame(0, D.Udp(0, port, dstIp)), Mbuf(0, []));
    burst := [a];
    assert burst[..0] == [];
    assert Queued(h.e.table, burst, k) == [] + Same(a.m, PortHits(h.e, k, port, dstIp));
  }

  // What the ring of slot k should be after a pass: what waits in the buffer and what the socket
  // listens to, behind its old contents, or none of it.
  ghost function Fair(h: Host, k: nat, burst: seq<Arrival>): Ring
    requires HostShape(h) && k < NUM_SOCKETS_MAX
  {
    EnqueueBulk(h.e.rx[k], h.bufs[k] + Wanted(h.e.slots[k], burst), RING_CAPACITY)
  }

  /** Delivery to the rings, in every reachable state. What a burst puts into the buffer of a slot is,
      whatever the burst, exactly the datagrams that its socket listens to, one copy of each in the
      order of arrival, if and only if the slot serves its own socket and no other. Then that goes to
      the ring of a slot in use, all or nothing. And if a copy too many or too few would show in the
      ring, since it has room for one to every socket, it is the same condition for the ring. */
  lemma RingGetsWhatItListensTo(h: Host, k: nat)
    requires HostShape(h) && Inv(h.e) && k < NUM_SOCKETS_MAX && h.e.slots[k].used
    ensures (forall burst: seq<Arrival> :: |burst| <= BURST_SIZE ==>
               InBuffers(h, burst)[k] == h.bufs[k] + Wanted(h.e.slots[k], burst)) <==> OwnRing(h.e, k)
    ensures OwnRing(h.e, k) ==>
              forall burst: seq<Arrival> :: 1 <= |burst| <= BURST_SIZE ==> Receive(h, burst).e.rx[k] == Fair(h, k, burst)
    ensures |h.e.rx[k]| + |h.bufs[k]| + NUM_SOCKETS_MAX <= RING_CAPACITY ==>
              ((forall burst: seq<Arrival> :: 1 <= |burst| <= BURST_SIZE ==>
                  Receive(h, burst).e.rx[k] == Fair(h, k, burst)) <==> OwnRing(h.e, k))
  {
    if OwnRing(h.e, k) {
      forall burst: seq<Arrival> | |burst| <= BURST_SIZE
        ensures InBuffers(h, burst)[k] == h.bufs[k] + Wanted(h.e.slots[k], burst)
        ensures burst != [] ==> Receive(h, burst).e.rx[k] == Fair(h, k, burst)
      {
        QueuedIsWanted(h.e, k, burst);
      }
    } else {
      var port, dstIp := OwnRingNeeded(h.e, k);
      FewHits(h.e, k, port, dstIp);
      var burst := OneArrival(h, k, port, dstIp);
      assert InBuffers(h, burst)[k] != h.bufs[k] + Wanted(h.e.slots[k], burst);
      if |h.e.rx[k]| + |h.bufs[k]| + NUM_SOCKETS_MAX <= RING_CAPACITY {
        assert |Receive(h, burst).e.rx[k]| == |h.e.rx[k]| + |h.bufs[k]| + PortHits(h.e, k, port, dstIp);
        assert |Fair(h, k, burst)| == |h.e.rx[k]| + |h.bufs[k]| + Due(h.e, k, port, dstIp);
        assert Receive(h, burst).e.rx[k] != Fair(h, k, burst);
      }
    }
  }

  /** A descriptor below 256 has its own slot as long as only such are bound. */
  lemma LowSlotsOwnTheirRings(e: Engine, k: nat)
    requires Inv(e) && UsedBelow(e.slots, 256) && k < NUM_SOCKETS_MAX
    ensures OwnRing(e, k) <==>
            (e.slots[k].bound && D.Greedy(e.table[e.slots[k].udpPort]) ==> e.table[e.slots[k].udpPort][0].sockfd == k)
  {
    assert SlotOk(e.slots, e.table, k);
    forall p: nat, i: nat | p < |e.table| && i < |e.table[p]|
      ensures !Intrudes(e, k, p, i)
    {
      var b := e.table[p][i];
      assert PortAgrees(e.slots, e.table, p) && EntryOk(e.slots, p, b) && SlotOk(e.slots, e.table, b.sockfd);
    }
  }

  // ---------------------------------------------------------------- the transmit pass

  lemma MapSuffix<X>(items: seq<X>, n: nat, data: X -> Mbuf)
    requires n <= |items|
    ensures Map(items[n..], data) == Map(items, data)[n..]
  {
  }

  /** A transmit pass is, for every ring, the transmission of as many packets as it takes, at least
      one if the slot is in use and has one, and none from a slot that is not in use. */
  lemma SendIsPass(h: Host, cut: T.Fragmenter, nic: T.Nic, rings: T.TxRings, out: T.Out, taken: seq<nat>, k: nat,
      data: T.Packet -> Mbuf)
    requires HostShape(h) && |rings| == |taken| == NUM_SOCKETS_MAX && k < NUM_SOCKETS_MAX
    requires h.e.tx[k] == Map(rings[k], data)
    requires taken[k] == |T.TakenFrom(cut, nic, rings, out, UsedFlags(h.e.slots), k)|
    ensures taken[k] <= |rings[k]| && (rings[k] != [] && h.e.slots[k].used ==> taken[k] > 0)
    ensures !h.e.slots[k].used ==> taken[k] == 0
    ensures Map(T.TxPass(cut, nic, UsedFlags(h.e.slots), rings, out).rings[k], data) == Do(h, Sends(taken)).e.tx[k]
  {
    var used := UsedFlags(h.e.slots);
    T.PassSplitsRing(cut, nic, used, rings, T.Tx([], out), |rings|, k);
    if used[k] {
      MapSuffix(rings[k], taken[k], data);
    } else {
      T.UnusedUntouched(cut, nic, used, rings, T.Tx([], out), |rings|, k);
    }
  }

  // ---------------------------------------------------------------- from sender to receiver

  // A complete datagram as the poller gets it.
  function ArrivalOf(whole: D.Ref, m: Mbuf): Arrival
    requires Readable(m.segs)
  {
    Arrival(D.RxFrame(whole, D.ClassOf(whole, m.segs[0])), m)
  }

  // The engine after n calls of recvfrom.
  function AfterRecvs(e: Engine, t: nat, n: nat): (r: Engine)
    requires Shape(e)
    ensures Shape(r)
    decreases n
  {
    if n == 0 then e else AfterRecvs(RecvFrom(e, t).0, t, n - 1)
  }

  // The call of recvfrom after n others takes packet m.
  ghost predicate Gets(e: Engine, t: nat, n: nat, m: Mbuf)
    requires Shape(e) && t < NUM_SOCKETS_MAX
  {
    var e1 := AfterRecvs(e, t, n);
    RecvFrom(e1, t).1 == Done(0) && e1.rx[t] != [] && e1.rx[t][0] == m
  }

  lemma {:induction false} NthReceived(e: Engine, t: nat, n: nat)
    requires Shape(e) && t < NUM_SOCKETS_MAX && e.slots[t].used && n < |e.rx[t]|
    ensures Gets(e, t, n, e.rx[t][n])
    decreases n
  {
    if n > 0 {
      NthReceived(RecvFrom(e, t).0, t, n - 1);
    }
  }

  /** What a call of sendto that is accepted leaves at the end of the transmit ring, and how the
      sender is bound then. */
  lemma SentLast(a: Engine, s: nat, cfg: Config, payload: Bytes, dstIp: uint32, dstPort: uint16, cksum: uint16)
    requires Inv(a) && s < NUM_SOCKETS_MAX && cfg.Valid()
    requires SendTo(a, s, cfg, payload, dstIp, dstPort, cksum, true).1.Done?
    ensures var a1 := SendTo(a, s, cfg, payload, dstIp, dstPort, cksum, true).0;
            && a1.slots[s].bound && |a1.tx[s]| > 0
            && a1.tx[s][|a1.tx[s]| - 1] == SentMbuf(cfg, FlowOf(a1.slots[s], cfg, dstIp, dstPort), payload, cksum)
  {
    if !a.slots[s].bound {
      ImplicitBindSucceeds(a, s);
    }
  }

  // The sending half: what anyone reads of a frame from the transmit ring of socket s.
  lemma FrameIsRead(a: Engine, s: nat, cfg: Config, payload: Bytes, dstIp: uint32, dstPort: uint16, cksum: uint16,
      beyond: Bytes, segs: seq<Bytes>)
    requires Inv(a) && s < NUM_SOCKETS_MAX && cfg.Valid() && |beyond| == 0x1_0000
    requires SendTo(a, s, cfg, payload, dstIp, dstPort, cksum, true).1.Done?
    requires var m := LastSent(a, s, cfg, payload, dstIp, dstPort, cksum);
             |m.segs| > 0 && ArrivesAs(segs, OnTheWire(m, beyond))
    ensures var sender := SendTo(a, s, cfg, payload, dstIp, dstPort, cksum, true).0.slots[s];
            sender.bound && ReadsFields(segs[0], FlowOf(sender, cfg, dstIp, dstPort))
    ensures |payload| <= MaxPayload(cfg) ==> Stream(segs, DgramPaylLen(segs[0])) == payload
  {
    var sender := SendTo(a, s, cfg, payload, dstIp, dstPort, cksum, true).0.slots[s];
    SentLast(a, s, cfg, payload, dstIp, dstPort, cksum);
    RoundTrip(cfg, FlowOf(sender, cfg, dstIp, dstPort), payload, cksum, beyond, segs);
  }

  // The packet at the end of the transmit ring after a call of sendto that is accepted.
  ghost function LastSent(a: Engine, s: nat, cfg: Config, payload: Bytes, dstIp: uint32, dstPort: uint16,
      cksum: uint16): Mbuf
    requires Inv(a) && s < NUM_SOCKETS_MAX && cfg.Valid()
    requires SendTo(a, s, cfg, payload, dstIp, dstPort, cksum, true).1.Done?
  {
    SentLast(a, s, cfg, payload, dstIp, dstPort, cksum);
    var ring := SendTo(a, s, cfg, payload, dstIp, dstPort, cksum, true).0.tx[s];
    ring[|ring| - 1]
  }

  /** The payload of an accepted sendto comes through, whatever the memory behind the packet buffer
      holds and however the frame arrives, exactly if it fits the buffer and has at most 65493 bytes. */
  lemma AcceptedComesThrough(a: Engine, s: nat, cfg: Config, payload: Bytes, dstIp: uint32, dstPort: uint16,
      cksum: uint16)
    requires Inv(a) && s < NUM_SOCKETS_MAX && cfg.Valid()
    requires SendTo(a, s, cfg, payload, dstIp, dstPort, cksum, true).1.Done?
    ensures |LastSent(a, s, cfg, payload, dstIp, dstPort, cksum).segs| > 0
    ensures ArrivesExactly(LastSent(a, s, cfg, payload, dstIp, dstPort, cksum), payload) <==> |payload| <= MaxPayload(cfg)
  {
    var sender := SendTo(a, s, cfg, payload, dstIp, dstPort, cksum, true).0.slots[s];
    SentLast(a, s, cfg, payload, dstIp, dstPort, cksum);
    RoundTripExactly(cfg, FlowOf(sender, cfg, dstIp, dstPort), payload, cksum);
  }

  // Where a datagram ends up: behind what was in the ring and in the buffer, and what came before it
  // in the burst.
  ghost function Ahead(b: Host, t: nat, before: seq<Arrival>): nat
    requires HostShape(b) && t < NUM_SOCKETS_MAX
  {
    |b.e.rx[t]| + |b.bufs[t]| + |Wanted(b.e.slots[t], before)|
  }

  lemma RingHolds(b: Host, t: nat, before: seq<Arrival>, x: Arrival, after: seq<Arrival>)
    requires HostShape(b) && Inv(b.e) && t < NUM_SOCKETS_MAX && b.e.slots[t].used
    requires OwnRing(b.e, t) && IsFor(b.e.slots[t], x.frame)
    requires Ahead(b, t, before + [x] + after) <= RING_CAPACITY
    ensures var e1, n := Receive(b, before + [x] + after).e, Ahead(b, t, before);
            e1.slots[t].used && n < |e1.rx[t]| && e1.rx[t][n] == x.m
  {
    var slot := b.e.slots[t];
    WantedAppend(slot, before + [x], after);
    WantedAppend(slot, before, [x]);
    assert [x][..0] == [];
    assert Wanted(slot, [x]) == [] + [x.m];
    QueuedIsWanted(b.e, t, before + [x] + after);
    InMiddle(b.e.rx[t], b.bufs[t], Wanted(slot, before), x.m, Wanted(slot, after));
  }

  lemma InMiddle<X>(a: seq<X>, z: seq<X>, b: seq<X>, x: X, c: seq<X>)
    ensures (a + (z + ((b + [x]) + c)))[|a| + |z| + |b|] == x
  {
  }

  // The receiving half: the call of recvfrom after those for what came before gets the datagram.
  lemma DatagramIsReceived(b: Host, t: nat, before: seq<Arrival>, x: Arrival, after: seq<Arrival>)
    requires HostShape(b) && Inv(b.e) && t < NUM_SOCKETS_MAX && b.e.slots[t].used
    requires OwnRing(b.e, t) && IsFor(b.e.slots[t], x.frame)
    requires Ahead(b, t, before + [x] + after) <= RING_CAPACITY
    ensures Gets(Receive(b, before + [x] + after).e, t, Ahead(b, t, before), x.m)
  {
    RingHolds(b, t, before, x, after);
    NthReceived(Receive(b, before + [x] + after).e, t, Ahead(b, t, before));
  }

  /** From the sender to the receiver. A datagram is accepted by sendto and its frame comes over, as
      part of any burst, to another machine, where a socket listens to its destination on a slot that
      serves this socket alone, with room in the ring. Then the socket receives the datagram after
      those that came before it. It reads the address and port that the sender is bound to; and it
      reads the payload as it was sent, if that fits the sender's packet buffer and has at most 65493
      bytes: AcceptedComesThrough says that no larger bound will do. */
  lemma EndToEnd(a: Engine, s: nat, cfg: Config, payload: Bytes, dstIp: uint32, dstPort: uint16, cksum: uint16,
      beyond: Bytes, b: Host, t: nat, before: seq<Arrival>, whole: D.Ref, m: Mbuf, after: seq<Arrival>)
    requires Inv(a) && s < NUM_SOCKETS_MAX && cfg.Valid() && |beyond| == 0x1_0000
    requires SendTo(a, s, cfg, payload, dstIp, dstPort, cksum, true).1.Done?
    requires var sent := LastSent(a, s, cfg, payload, dstIp, dstPort, cksum);
             |sent.segs| > 0 && Readable(m.segs) && ArrivesAs(m.segs, OnTheWire(sent, beyond))
    requires HostShape(b) && Inv(b.e) && t < NUM_SOCKETS_MAX && b.e.slots[t].used
    requires ListensTo(b.e.slots[t], dstIp, dstPort) && OwnRing(b.e, t)
    requires Ahead(b, t, before + [ArrivalOf(whole, m)] + after) <= RING_CAPACITY
    ensures Gets(Receive(b, before + [ArrivalOf(whole, m)] + after).e, t, Ahead(b, t, before), m)
    ensures var sender := SendTo(a, s, cfg, payload, dstIp, dstPort, cksum, true).0.slots[s];
            && sender.bound && SrcPort(m.segs[0]) == sender.udpPort
            && SrcIp(m.segs[0]) == (if sender.ipAddr == INADDR_ANY then cfg.srcIp else sender.ipAddr)
    ensures |payload| <= MaxPayload(cfg) ==> Stream(m.segs, DgramPaylLen(m.segs[0])) == payload
  {
    FrameIsRead(a, s, cfg, payload, dstIp, dstPort, cksum, beyond, m.segs);
    DatagramIsReceived(b, t, before, ArrivalOf(whole, m), after);
  }

  /** And with it, in the buffer of the caller: the first bytes of the payload, as many as it asked
      for. */
  lemma ReadsAsSent(payload: Bytes, m: Mbuf, before: Bytes, after: Bytes, len: nat, n: nat, srcIp: uint32, srcPort: uint16)
    requires Readable(m.segs) && Stream(m.segs, DgramPaylLen(m.segs[0])) == payload && len < 0x1_0000_0000
    requires S.Received(m.segs, before, after, len, n, srcIp, srcPort)
    ensures n == Min(len, |payload|) <= |after| && after[..n] == payload[..n] && after[n..] == before[n..]
    ensures srcIp == SrcIp(m.segs[0]) && srcPort == SrcPort(m.segs[0])
  {
    S.ReceivedPrefix(m.segs, payload, before, after, len, n, srcIp, srcPort);
  }

  // ---------------------------------------------------------------- teardown

  /** Whatever happened before, closing all bound sockets frees every port. */
  lemma TeardownAfterAnyRun(events: seq<Event>)
    requires AllPossible(events)
    ensures var e := CloseAllFrom(HostRun(InitialHost(), events).e, 0);
            Total(e.table) == 0 && BoundSlots(e.slots) == {} && forall p :: 0 <= p < |e.table| ==> e.table[p] == []
  {
    HostRunKeepsInv(events);
    CloseAllEmptiesTable(HostRun(InitialHost(), events).e);
    CloseAllSlots(HostRun(InitialHost(), events).e, 0);
  }
}
