/** Where the code departs from its comments or its evident intent: for each case a concrete input
    that shows it. The exact conditions are in the modules of the code itself. */
module Departures {
  import opened Constants
  import opened Sequences
  import opened Bindings
  import opened Datagrams
  import opened Engines
  import Shmalloc
  import D = Delivery
  import H = Hosts
  import O = Overflows

  /** The pool of list nodes: 1024 blocks of 24 bytes are laid out one byte apart. */
  lemma NodePoolOverlaps()
    ensures Shmalloc.LayoutAsWritten(NUM_SOCKETS_MAX, 24).elemSize == 1
    ensures !Shmalloc.HoldsBlocks(Shmalloc.LayoutAsWritten(NUM_SOCKETS_MAX, 24), NUM_SOCKETS_MAX, 24)
  {
    Shmalloc.WrittenLayoutHolds(NUM_SOCKETS_MAX, 24);
  }

  /** The documented rule lets a wildcard with SO_REUSEADDR join a specific address; the code does not. */
  lemma WildcardRefused()
    ensures var bound, b := [Binding(0, 1, true, true)], Binding(1, INADDR_ANY, true, false);
            DocumentedCanBind(bound, b) && !CanBind(bound, b)
  {
    var bound, b := [Binding(0, 1, true, true)], Binding(1, INADDR_ANY, true, false);
    assert !Passes(bound[0], b);
  }

  /** Setting one reuse option sets the other, and clearing one clears both. */
  lemma OptionsOverlap()
    ensures IsSet(SetOption({}, SO_REUSEADDR, true), SO_REUSEPORT)
    ensures !IsSet(SetOption(SetOption({}, SO_REUSEADDR, true), SO_REUSEPORT, false), SO_REUSEADDR)
  {
    assert 1 in SetOption({}, SO_REUSEADDR, true) * SO_REUSEPORT;
    assert (SO_REUSEADDR - SO_REUSEPORT) * SO_REUSEADDR == {};
    assert SetOption({}, SO_REUSEADDR, true) == SO_REUSEADDR;
  }

  /** One socket opened and closed again: the counter of active slots says two. */
  lemma ActiveCountDrifts()
    ensures var e := Run(InitialEngine(), [OpSocket, OpClose(0)]);
            e.nZonesActive == 2 && UsedSlots(e.slots) == {}
  {
    var e0, ops := InitialEngine(), [OpSocket, OpClose(0)];
    var e1 := Step(e0, OpSocket).0;
    var e2 := Step(e1, OpClose(0)).0;
    assert ops[1..] == [OpClose(0)] && [OpClose(0)][1..] == [];
    assert Run(e0, ops) == Run(e1, [OpClose(0)]) == Run(e2, []);
  }

  function OpenAndClose(n: nat): (ops: seq<Op>)
    ensures AllLegal(ops)
  {
    if n == 0 then [] else [OpSocket, OpClose(0)] + OpenAndClose(n - 1)
  }

  lemma {:induction false} OpenAndCloseCounts(e: Engine, n: nat)
    requires Shape(e) && e.nZonesActive + 2 * n <= NUM_SOCKETS_MAX + 2
    requires forall s :: 0 <= s < NUM_SOCKETS_MAX ==> !e.slots[s].used
    ensures var r := Run(e, OpenAndClose(n));
            r.nZonesActive == e.nZonesActive + 2 * n && forall s :: 0 <= s < NUM_SOCKETS_MAX ==> !r.slots[s].used
    decreases n
  {
    if n > 0 {
      var ops := OpenAndClose(n);
      var e1 := Step(e, OpSocket).0;
      var e2 := Step(e1, OpClose(0)).0;
      assert ops[0] == OpSocket && ops[1..][0] == OpClose(0) && ops[1..][1..] == OpenAndClose(n - 1);
      OpenAndCloseCounts(e2, n - 1);
    }
  }

  /** After 513 sockets, each closed before the next is opened, no socket can be opened any more. */
  lemma LockedUpWithNothingOpen()
    ensures var e := Run(InitialEngine(), OpenAndClose(513));
            UsedSlots(e.slots) == {} && Socket(e).1 == Failed(ENOBUFS)
  {
    OpenAndCloseCounts(InitialEngine(), 513);
  }

  /** A closed slot keeps its rings: the next socket on it receives what the last one left. */
  lemma StaleRing(m: Mbuf)
    ensures var e := Run(InitialEngine(), [OpSocket, OpArrive(0, [m]), OpClose(0), OpSocket]);
            e.slots[0].used && RecvFrom(e, 0).1.Done? && e.rx[0] == [m]
  {
    var e0, ops := InitialEngine(), [OpSocket, OpArrive(0, [m]), OpClose(0), OpSocket];
    var e1 := Step(e0, ops[0]).0;
    var e2 := Step(e1, ops[1]).0;
    var e3 := Step(e2, ops[2]).0;
    var e4 := Step(e3, ops[3]).0;
    assert e2.rx[0] == [m];
    assert ops[1..][0] == ops[1] && ops[1..][1..][0] == ops[2] && ops[1..][1..][1..][0] == ops[3];
    assert ops[1..][1..][1..][1..] == [];
    assert Run(e0, ops) == Run(e1, ops[1..]) == Run(e2, ops[1..][1..]) == Run(e3, ops[1..][1..][1..]) == e4;
  }

  /** And it leaves the last one's packets in the transmit ring: while the slot is closed the poller
      passes it by, and when the slot is opened again they are sent. */
  lemma StaleTransmit(cfg: Config, payload: Bytes, dstIp: uint32, dstPort: uint16, cksum: uint16)
    requires cfg.Valid()
    ensures var send := OpSendTo(0, cfg, payload, dstIp, dstPort, cksum, true);
            var e := Run(InitialEngine(), [OpSocket] + ([send] + ([OpClose(0)] + ([OpSocket] + []))));
            e.slots[0].used && !e.slots[0].bound && |e.tx[0]| == 1
  {
    var send := OpSendTo(0, cfg, payload, dstIp, dstPort, cksum, true);
    var e0 := InitialEngine();
    InitialInv();
    SocketKeepsInv(e0);
    var e1 := Step(e0, OpSocket).0;
    ImplicitBindSucceeds(e1, 0);
    var e2 := Step(e1, send).0;
    assert |e2.tx[0]| == 1 && e2.slots[0].used;
    var e3 := Step(e2, OpClose(0)).0;
    RunCons(e3, OpSocket, []);
    RunCons(e2, OpClose(0), [OpSocket] + []);
    RunCons(e1, send, [OpClose(0)] + ([OpSocket] + []));
    RunCons(e0, OpSocket, [send] + ([OpClose(0)] + ([OpSocket] + [])));
  }

  /** The first socket that sends without a bind gets port 0, which in UDP stands for no port. */
  lemma ImplicitBindTakesPortZero()
    ensures var e := Step(InitialEngine(), OpSocket).0;
            EnsureBound(e, 0).1 == Done(0) && EnsureBound(e, 0).0.slots[0].udpPort == 0
  {
    InitialInv();
    SocketKeepsInv(InitialEngine());
    ImplicitBindSucceeds(Step(InitialEngine(), OpSocket).0, 0);
  }

  /** A frame that is not IPv4 is never freed. */
  lemma ForeignFrameLeaks(table: Table)
    requires |table| == UDP_MAX_PORT
    ensures D.Switch(table, D.RxFrame(5, D.NotIpv4), 9) == D.Disposal([], [], [5], 9)
  {
  }

  lemma NothingOf(frame: Bytes)
    requires |frame| == 65536
    ensures Low32(|frame|) == 65536 && frame[..Low16(65536)] == []
  {
  }

  /** With the packet buffers that the pool has, a payload of 2007 bytes is written past the end of
      its buffer, and need not come through; one of 2006 bytes still fits. */
  lemma PayloadOverrunsBuffer(cfg: Config, flow: Flow, payload: Bytes, cksum: uint16)
    requires cfg.Valid() && cfg.room == DEFAULT_ROOM && |payload| == 2007
    ensures exists mem: Bytes :: HEADERS + |payload| <= |mem| &&
              !ChangedInside(mem, Stored(mem, 0, Frame(cfg, flow, payload, cksum)), 0, cfg.room)
    ensures MaxPayload(cfg) == 2006 && !ArrivesExactly(SentMbuf(cfg, flow, payload, cksum), payload)
  {
    CopyStaysInside(cfg, flow, payload, cksum, 0);
    RoundTripExactly(cfg, flow, payload, cksum);
  }

  /** And whatever the buffers, 65494 bytes, well below the limit of UDP, leave with a data length of 0. */
  lemma LargePayloadIsCut(cfg: Config, flow: Flow, payload: Bytes, cksum: uint16)
    requires cfg.Valid() && |payload| == 65494
    ensures SentMbuf(cfg, flow, payload, cksum) == Mbuf(65536, [[]])
  {
    NothingOf(Frame(cfg, flow, payload, cksum));
  }

  // ---------------------------------------------------------------- runs that go wrong

  // Socket s, which asked for SO_REUSEPORT, is bound next to what the port has.
  lemma BindsBehind(e: Engine, s: nat, ip: uint32, port: uint16, bound: Bound)
    requires Shape(e) && s < NUM_SOCKETS_MAX && e.slots[s].used && !e.slots[s].bound
    requires e.slots[s].soOptions == SO_REUSEPORT && ip != INADDR_ANY && e.table[port] == bound
    requires bound == [] || bound == [Binding(0, INADDR_ANY, false, false)] || bound == [Binding(0, ip, true, true)]
    ensures Bind(e, s, ip, port) == (e.(slots := e.slots[s := e.slots[s].(bound := true, udpPort := port, ipAddr := ip)],
                                        table := e.table[port := bound + [Binding(s, ip, true, true)]]), Done(0))
  {
    assert 1 in SO_REUSEPORT * SO_REUSEADDR && 1 in SO_REUSEPORT * SO_REUSEPORT;
    assert BindingOf(s, e.slots[s], ip) == Binding(s, ip, true, true);
  }

  function DeafRun(ip: uint32, port: uint16): (ops: seq<Op>)
    ensures AllLegal(ops)
  {
    [OpSocket] + ([OpSocket] + ([OpSetReusePort(1, true)] + ([OpBind(0, INADDR_ANY, port)] + ([OpBind(1, ip, port)] + []))))
  }

  /** Two sockets share a port by the rules, the wildcard first; the specific one never receives. */
  lemma DeafSocket(ip: uint32, port: uint16)
    requires ip != INADDR_ANY
    ensures var e := Run(InitialEngine(), DeafRun(ip, port));
            && e.slots[1].bound && e.slots[1].udpPort == port && e.slots[1].ipAddr == ip
            && e.table[port] == [Binding(0, INADDR_ANY, false, false), Binding(1, ip, true, true)]
            && D.Receivers(e.table[port], ip) == [Binding(0, INADDR_ANY, false, false)]
  {
    var e0 := InitialEngine();
    var e1 := Step(e0, OpSocket).0;
    var e2 := Step(e1, OpSocket).0;
    var e3 := Step(e2, OpSetReusePort(1, true)).0;
    assert e3.slots[1].soOptions == SO_REUSEPORT by {
      assert {} + SO_REUSEPORT == SO_REUSEPORT;
    }
    var e4 := Step(e3, OpBind(0, INADDR_ANY, port)).0;
    var head := Binding(0, INADDR_ANY, false, false);
    assert BindingOf(0, e3.slots[0], INADDR_ANY) == head;
    assert e4.table[port] == [head] by {
      assert Insert([], head) == [head];
    }
    BindsBehind(e4, 1, ip, port, [head]);
    RunCons(e0, OpSocket, [OpSocket] + ([OpSetReusePort(1, true)] + ([OpBind(0, INADDR_ANY, port)] + ([OpBind(1, ip, port)] + []))));
    RunCons(e1, OpSocket, [OpSetReusePort(1, true)] + ([OpBind(0, INADDR_ANY, port)] + ([OpBind(1, ip, port)] + [])));
    RunCons(e2, OpSetReusePort(1, true), [OpBind(0, INADDR_ANY, port)] + ([OpBind(1, ip, port)] + []));
    RunCons(e3, OpBind(0, INADDR_ANY, port), [OpBind(1, ip, port)] + []);
    RunCons(e4, OpBind(1, ip, port), []);
    HeadTakesAll(head, Binding(1, ip, true, true), ip);
  }

  lemma HeadTakesAll(head: Binding, other: Binding, ip: nat)
    requires head.Wildcard() && !head.Reuses()
    ensures D.Receivers([head, other], ip) == [head]
  {
    assert D.Matching([head, other], ip)[0] == head;
  }

  function Opening(n: nat): (ops: seq<Op>)
    ensures AllLegal(ops)
  {
    if n == 0 then [] else Opening(n - 1) + [OpSocket]
  }

  // n fresh sockets: descriptors 0 to n - 1.
  lemma {:induction false} AfterOpening(n: nat)
    requires n <= NUM_SOCKETS_MAX
    ensures var e := Run(InitialEngine(), Opening(n));
            && e.nZonesActive == n && e.table == EmptyTable()
            && forall i :: 0 <= i < NUM_SOCKETS_MAX ==>
                 e.slots[i] == if i < n then FRESH_SLOT.(used := true, sockfd := i) else FRESH_SLOT
  {
    if n > 0 {
      AfterOpening(n - 1);
      RunAppend(InitialEngine(), Opening(n - 1), [OpSocket]);
      var e := Run(InitialEngine(), Opening(n - 1));
      assert [OpSocket][1..] == [];
      assert Run(e, [OpSocket]) == Step(e, OpSocket).0;
      assert e.slots[n - 1] == FRESH_SLOT && Socket(e).1 == Done(n - 1);
    }
  }

  function Sharing(ip: uint32, port: uint16): (ops: seq<Op>)
    ensures AllLegal(ops)
  {
    [OpSetReusePort(0, true)] + ([OpSetReusePort(256, true)] + ([OpBind(0, ip, port)] + ([OpBind(256, ip, port)] + [])))
  }

  // Sockets 0 and 256, as they are when fresh, come to share an address.
  lemma AfterSharing(e: Engine, ip: uint32, port: uint16)
    requires Shape(e) && ip != INADDR_ANY && e.table[port] == []
    requires e.slots[0] == FRESH_SLOT.(used := true)
    requires e.slots[256] == FRESH_SLOT.(used := true, sockfd := 256)
    ensures Run(e, Sharing(ip, port)).table[port] == [Binding(0, ip, true, true), Binding(256, ip, true, true)]
  {
    assert {} + SO_REUSEPORT == SO_REUSEPORT;
    var first := Binding(0, ip, true, true);
    var e1 := Step(e, OpSetReusePort(0, true)).0;
    var e2 := Step(e1, OpSetReusePort(256, true)).0;
    BindsBehind(e2, 0, ip, port, []);
    var e3 := Step(e2, OpBind(0, ip, port)).0;
    assert e3.table[port] == [first];
    BindsBehind(e3, 256, ip, port, [first]);
    var rest := [OpBind(256, ip, port)] + [];
    RunCons(e3, OpBind(256, ip, port), []);
    RunCons(e2, OpBind(0, ip, port), rest);
    RunCons(e1, OpSetReusePort(256, true), [OpBind(0, ip, port)] + rest);
    RunCons(e, OpSetReusePort(0, true), [OpSetReusePort(256, true)] + ([OpBind(0, ip, port)] + rest));
  }

  /** With 257 sockets open, two of them sharing an address by SO_REUSEPORT, one burst overflows a
      receive buffer: both sockets are served by slot 0. */
  lemma OverflowIsReachable(ip: uint32, port: uint16, p: D.Poller, rings: D.Buffers)
    requires ip != INADDR_ANY && |p.bufs| == |rings| == NUM_SOCKETS_MAX && O.AllEmpty(p.bufs)
    ensures var e := Run(InitialEngine(), Opening(257) + Sharing(ip, port));
            !O.OneSlotEach(e.table) && !O.NeverOverflows(e.table, H.UsedFlags(e.slots), p, rings)
  {
    AfterOpening(257);
    RunAppend(InitialEngine(), Opening(257), Sharing(ip, port));
    var e := Run(InitialEngine(), Opening(257) + Sharing(ip, port));
    AfterSharing(Run(InitialEngine(), Opening(257)), ip, port);
    assert O.Meet(e.table[port], 0, 1);
    InitialInv();
    RunKeepsInv(InitialEngine(), Opening(257) + Sharing(ip, port));
    H.OverflowInReachableState(e, p, rings);
  }

  // Socket 256 alone is bound, and slot 0 is closed or still in use.
  lemma AfterBinding256(e: Engine, ip: uint32, port: uint16)
    requires Shape(e) && ip != INADDR_ANY && e.table == EmptyTable()
    requires e.slots[256] == FRESH_SLOT.(used := true, sockfd := 256)
    ensures var r := Run(e, [OpBind(256, ip, port)] + []);
            && r.table == EmptyTable()[port := [Binding(256, ip, false, false)]]
            && r.rx == e.rx && forall s :: 0 <= s < NUM_SOCKETS_MAX && s != 256 ==> r.slots[s] == e.slots[s]
  {
    var b := Binding(256, ip, false, false);
    assert BindingOf(256, e.slots[256], ip) == b;
    assert [] + [b] == [b];
    RunCons(e, OpBind(256, ip, port), []);
  }

  function ClosingFirst(ip: uint32, port: uint16): (ops: seq<Op>)
    ensures AllLegal(ops)
  {
    [OpClose(0)] + ([OpBind(256, ip, port)] + [])
  }

  lemma AfterClosingFirst(ip: uint32, port: uint16)
    requires ip != INADDR_ANY
    ensures var e := Run(InitialEngine(), Opening(257) + ClosingFirst(ip, port));
            e.table == EmptyTable()[port := [Binding(256, ip, false, false)]] && !e.slots[0].used
  {
    AfterOpening(257);
    RunAppend(InitialEngine(), Opening(257), ClosingFirst(ip, port));
    var e := Run(InitialEngine(), Opening(257));
    RunCons(e, OpClose(0), [OpBind(256, ip, port)] + []);
    AfterBinding256(Step(e, OpClose(0)).0, ip, port);
  }

  lemma OneEntry(table: Table, port: uint16, ip: uint32, used: seq<bool>)
    requires table == EmptyTable()[port := [Binding(256, ip, false, false)]]
    requires |used| == NUM_SOCKETS_MAX && !used[0]
    ensures O.OneSlotEach(table) && !O.Flushable(table, used)
  {
    assert O.CanReceive(table[port], 0) && table[port][0].sockfd == 256;
  }

  /** With 257 sockets opened and the first one closed, packets for the last one, the only one that is
      bound, pile up in the buffer of slot 0 from pass to pass, until they overflow it. No packet is
      put twice into a buffer here. */
  lemma ClosedSlotOverflows(ip: uint32, port: uint16, p: D.Poller, rings: D.Buffers)
    requires ip != INADDR_ANY && |p.bufs| == |rings| == NUM_SOCKETS_MAX && O.AllEmpty(p.bufs)
    ensures var e := Run(InitialEngine(), Opening(257) + ClosingFirst(ip, port));
            O.OneSlotEach(e.table) && !O.NeverOverflows(e.table, H.UsedFlags(e.slots), p, rings)
  {
    var ops := Opening(257) + ClosingFirst(ip, port);
    var e := Run(InitialEngine(), ops);
    AfterClosingFirst(ip, port);
    OneEntry(e.table, port, ip, H.UsedFlags(e.slots));
    InitialInv();
    RunKeepsInv(InitialEngine(), ops);
    H.OverflowInReachableState(e, p, rings);
  }

  /** With 257 sockets open and the last one bound, a datagram for it goes to the first one, which is
      not bound at all. */
  lemma WrongSocketReceives(ip: uint32, port: uint16, m: Mbuf)
    requires ip != INADDR_ANY
    ensures var e := Run(InitialEngine(), Opening(257) + ([OpBind(256, ip, port)] + []));
            var h := H.Host(e, seq(NUM_SOCKETS_MAX, _ => []));
            var rx := H.Receive(h, [H.Arrival(D.RxFrame(0, D.Udp(0, port, ip)), m)]).e.rx;
            !e.slots[0].bound && rx[0] == [m] && rx[256] == []
  {
    AfterOpening(257);
    AfterOpeningRings(257);
    RunAppend(InitialEngine(), Opening(257), [OpBind(256, ip, port)] + []);
    AfterBinding256(Run(InitialEngine(), Opening(257)), ip, port);
    OneDatagram(Run(InitialEngine(), Opening(257) + ([OpBind(256, ip, port)] + [])), ip, port, m);
  }

  lemma OneDatagram(e: Engine, ip: uint32, port: uint16, m: Mbuf)
    requires Shape(e) && e.table[port] == [Binding(256, ip, false, false)]
    requires e.rx[0] == e.rx[256] == [] && e.slots[0].used
    ensures var h := H.Host(e, seq(NUM_SOCKETS_MAX, _ => []));
            var rx := H.Receive(h, [H.Arrival(D.RxFrame(0, D.Udp(0, port, ip)), m)]).e.rx;
            rx[0] == [m] && rx[256] == []
  {
    var a := H.Arrival(D.RxFrame(0, D.Udp(0, port, ip)), m);
    assert [a][..0] == [];
    OnlyReceiver(256, ip, 0);
    OnlyReceiver(256, ip, 256);
    assert H.Queued(e.table, [a], 0) == [] + H.Same(m, 1) == [m];
    assert H.Queued(e.table, [a], 256) == [] + H.Same(m, 0) == [];
  }

  lemma OnlyReceiver(s: nat, ip: uint32, k: nat)
    ensures D.Hits(D.SocketsOf(D.Receivers([Binding(s, ip, false, false)], ip)), k) ==
            if D.SlotIndex(s) == k then 1 else 0
  {
    var b := Binding(s, ip, false, false);
    D.ReceiversStep([b], ip);
    D.SocketsOfCons(b, []);
    D.HitsCons(s, [], k);
  }

  lemma {:induction false} AfterOpeningRings(n: nat)
    requires n <= NUM_SOCKETS_MAX
    ensures Run(InitialEngine(), Opening(n)).rx == InitialEngine().rx
    ensures Run(InitialEngine(), Opening(n)).tx == InitialEngine().tx
  {
    if n > 0 {
      AfterOpeningRings(n - 1);
      RunAppend(InitialEngine(), Opening(n - 1), [OpSocket]);
      assert [OpSocket][1..] == [];
    }
  }

  // The calls of a run, as events.
  function Calls(ops: seq<Op>): (events: seq<H.Event>)
    requires AllLegal(ops) && forall i :: 0 <= i < |ops| ==> !ops[i].OpArrive? && !ops[i].OpDrain?
    ensures H.AllPossible(events) && |events| == |ops|
  {
    if ops == [] then [] else [H.Call(ops[0])] + Calls(ops[1..])
  }

  lemma {:induction false} AfterCalls(h: H.Host, ops: seq<Op>)
    requires H.HostShape(h)
    requires AllLegal(ops) && forall i :: 0 <= i < |ops| ==> !ops[i].OpArrive? && !ops[i].OpDrain?
    ensures H.HostRun(h, Calls(ops)) == h.(e := Run(h.e, ops))
    decreases |ops|
  {
    if ops != [] {
      assert Calls(ops)[0] == H.Call(ops[0]) && Calls(ops)[1..] == Calls(ops[1..]);
      AfterCalls(H.Do(h, H.Call(ops[0])), ops[1..]);
    }
  }

  lemma {:induction false} OpeningIsCalls(n: nat)
    ensures forall i :: 0 <= i < |Opening(n)| ==> Opening(n)[i] == OpSocket
  {
    if n > 0 {
      OpeningIsCalls(n - 1);
    }
  }

  /** The calls of ClosedSlotOverflows: slot 0 is closed, with both rings empty. */
  lemma ClosedCleanly(ip: uint32, port: uint16) returns (events: seq<H.Event>)
    requires ip != INADDR_ANY
    ensures H.AllPossible(events)
    ensures H.HostRun(H.InitialHost(), events) ==
            H.InitialHost().(e := Run(InitialEngine(), Opening(257) + ClosingFirst(ip, port)))
    ensures var h := H.HostRun(H.InitialHost(), events);
            && !h.e.slots[0].used && h.e.rx[0] == [] && h.e.tx[0] == [] && h.e.nZonesActive == 258
            && h.e.table == EmptyTable()[port := [Binding(256, ip, false, false)]]
  {
    OpeningIsCalls(257);
    events := Calls(Opening(257) + ClosingFirst(ip, port));
    AfterCalls(H.InitialHost(), Opening(257) + ClosingFirst(ip, port));
    AfterClosingFirst(ip, port);
    AfterClosingFirstRings(ip, port);
  }

  lemma CloseThenBind(e: Engine, ip: uint32, port: uint16)
    requires Shape(e) && e.slots[0].used
    ensures var r := Run(e, ClosingFirst(ip, port));
            r.rx == e.rx && r.tx == e.tx && r.nZonesActive == e.nZonesActive + 1
  {
    var e1 := Step(e, OpClose(0)).0;
    RunCons(e, OpClose(0), [OpBind(256, ip, port)] + []);
    RunCons(e1, OpBind(256, ip, port), []);
    BindKeepsRings(e1, ip, port);
  }

  lemma BindKeepsRings(e: Engine, ip: uint32, port: uint16)
    requires Shape(e)
    ensures var r := Step(e, OpBind(256, ip, port)).0;
            r.rx == e.rx && r.tx == e.tx && r.nZonesActive == e.nZonesActive
  {
  }

  lemma AfterClosingFirstRings(ip: uint32, port: uint16)
    requires ip != INADDR_ANY
    ensures var e := Run(InitialEngine(), Opening(257) + ClosingFirst(ip, port));
            e.rx[0] == [] && e.tx[0] == [] && e.nZonesActive == 258
  {
    AfterOpening(257);
    AfterOpeningRings(257);
    RunAppend(InitialEngine(), Opening(257), ClosingFirst(ip, port));
    CloseThenBind(Run(InitialEngine(), Opening(257)), ip, port);
  }

  /** A new socket on that slot finds both rings empty, and still gets a packet that came before it was
      opened, from the receive buffer: there it waits until a later pass flushes it. */
  lemma StaleBuffer(ip: uint32, port: uint16, m: Mbuf) returns (events: seq<H.Event>)
    requires ip != INADDR_ANY
    ensures H.AllPossible(events)
    ensures var foreign := H.Arrival(D.RxFrame(1, D.NotIpv4), Mbuf(0, []));
            var h1 := H.HostRun(H.InitialHost(), events);
            var h2 := H.Do(h1, H.Receives([H.Arrival(D.RxFrame(0, D.Udp(0, port, ip)), m)]));
            var h3 := H.Do(h2, H.Call(OpSocket));
            var h4 := H.Do(h3, H.Receives([foreign]));
            && !h1.e.slots[0].used && h1.e.rx[0] == [] && h1.e.tx[0] == []
            && Step(h2.e, OpSocket).1 == Done(0) && h2.e.rx[0] == [] && h2.e.tx[0] == [] && h2.bufs[0] == [m]
            && h4.e.rx[0] == [m]
  {
    events := ClosedCleanly(ip, port);
    KeptAndFlushed(H.HostRun(H.InitialHost(), events), ip, port, m);
  }

  lemma KeptAndFlushed(h1: H.Host, ip: uint32, port: uint16, m: Mbuf)
    requires H.HostShape(h1) && h1.e.table[port] == [Binding(256, ip, false, false)]
    requires !h1.e.slots[0].used && h1.e.rx[0] == [] && h1.bufs[0] == [] && h1.e.nZonesActive <= NUM_SOCKETS_MAX
    ensures var foreign := H.Arrival(D.RxFrame(1, D.NotIpv4), Mbuf(0, []));
            var h2 := H.Do(h1, H.Receives([H.Arrival(D.RxFrame(0, D.Udp(0, port, ip)), m)]));
            var h3 := H.Do(h2, H.Call(OpSocket));
            var h4 := H.Do(h3, H.Receives([foreign]));
            && Step(h2.e, OpSocket).1 == Done(0) && h2.e.rx[0] == [] && h2.e.tx == h1.e.tx && h2.bufs[0] == [m]
            && h4.e.rx[0] == [m]
  {
    var a, foreign := H.Arrival(D.RxFrame(0, D.Udp(0, port, ip)), m), H.Arrival(D.RxFrame(1, D.NotIpv4), Mbuf(0, []));
    assert [a][..0] == [] && [foreign][..0] == [];
    OnlyReceiver(256, ip, 0);
    assert H.Queued(h1.e.table, [a], 0) == [] + H.Same(m, 1) == [m];
    assert H.Queued(h1.e.table, [foreign], 0) == [] + H.Same(foreign.m, 0) == [];
    assert [] + [m] == [m] == [m] + [];
  }
}
