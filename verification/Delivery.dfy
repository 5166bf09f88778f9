/** What the poller does with a received packet (reassemble, enqueue_rx_packet and flush_rx_queue
    of udpdk_poller.c), on values: who receives it, which packet buffers that takes, and when the
    per-slot buffers can overflow. A packet buffer is known by a number. */
module Delivery {
  import opened Constants
  import opened Sequences
  import opened Bindings
  import opened Datagrams

  type Ref = nat

  // What the headers of a frame say, and what the reassembly table answered.
  datatype Class =
    | NotIpv4
    | Incomplete                                  // a fragment that the reassembly table keeps
    | NotUdp(whole: Ref)                          // complete, but not UDP
    | Udp(whole: Ref, dstPort: uint16, dstIp: uint32)

  // A complete IPv4 datagram, from its bytes: is_udp_pkt, get_udp_dst_port and get_ipv4_dst_addr.
  function ClassOf(whole: Ref, first: Bytes): Class
    requires |first| >= HEADERS
  {
    if Protocol(first) == IPPROTO_UDP then Udp(whole, DstPort(first), DstIp(first)) else NotUdp(whole)
  }

  /** It is read off byte 23 (the protocol), 36 and 37 (the port) and 30 to 33 (the address). */
  lemma ClassFromBytes(whole: Ref, first: Bytes)
    requires |first| >= HEADERS
    ensures var port := first[36] as int + 256 * first[37] as int;
            var ip := first[30] as int + 256 * first[31] as int + 0x1_0000 * first[32] as int
                      + 0x100_0000 * first[33] as int;
            ClassOf(whole, first) ==
              if first[23] == 17 then Udp(whole, port, ip) else NotUdp(whole)
  {
    FieldsFromBytes(first);
  }

  datatype RxFrame = RxFrame(ref: Ref, class_: Class)

  // ---------------------------------------------------------------- who receives

  predicate Matches(b: Binding, dstIp: nat) {
    dstIp == b.ip || b.ip == INADDR_ANY
  }

  // All bindings that match, in list order.
  function Matching(bound: Bound, dstIp: nat): Bound {
    if bound == [] then []
    else (if Matches(bound[0], dstIp) then [bound[0]] else []) + Matching(bound[1..], dstIp)
  }

  // The matching bindings up to and including the first one without a reuse option.
  function UpToExclusive(bound: Bound): Bound {
    if bound == [] then []
    else if bound[0].Reuses() then [bound[0]] + UpToExclusive(bound[1..])
    else [bound[0]]
  }

  function Receivers(bound: Bound, dstIp: nat): Bound {
    UpToExclusive(Matching(bound, dstIp))
  }

  lemma ReceiversStep(bound: Bound, dstIp: nat)
    requires bound != []
    ensures Receivers(bound, dstIp) ==
            if !Matches(bound[0], dstIp) then Receivers(bound[1..], dstIp)
            else [bound[0]] + if bound[0].Reuses() then Receivers(bound[1..], dstIp) else []
  {
    var rest := Matching(bound[1..], dstIp);
    if Matches(bound[0], dstIp) {
      assert Matching(bound, dstIp)[0] == bound[0] && Matching(bound, dstIp)[1..] == rest;
    } else {
      assert Matching(bound, dstIp) == rest;
    }
  }

  // ---------------------------------------------------------------- the switching loop

  // What a scan of the list queues, the buffer it is left with, the next clone, and whether the
  // buffer it is left with has gone to a receiver.
  datatype Outcome = Outcome(queued: seq<(nat, Ref)>, m: Ref, next: Ref, deliveredLast: bool)

  // The loop of reassemble over the bindings of the port. Clones are numbered from `next`.
  function Scan(bound: Bound, dstIp: nat, m: Ref, next: Ref): Outcome {
    if bound == [] then Outcome([], m, next, false)
    else if !Matches(bound[0], dstIp) then Scan(bound[1..], dstIp, m, next)
    else if bound[0].Reuses() then
      var rest := Scan(bound[1..], dstIp, next, next + 1);
      rest.(queued := [(bound[0].sockfd, m)] + rest.queued)
    else Outcome([(bound[0].sockfd, m)], m, next, true)
  }

  // The buffers that exist for the packet: the original and its clones.
  function Copies(m: Ref, next: Ref, n: nat): seq<Ref>
    decreases n
  {
    if n == 0 then [m] else [m] + Copies(next, next + 1, n - 1)
  }

  function Refs(queued: seq<(nat, Ref)>): seq<Ref> {
    if queued == [] then [] else [queued[0].1] + Refs(queued[1..])
  }

  function Sockets(queued: seq<(nat, Ref)>): seq<nat> {
    if queued == [] then [] else [queued[0].0] + Sockets(queued[1..])
  }

  function SocketsOf(bound: Bound): seq<nat> {
    if bound == [] then [] else [bound[0].sockfd] + SocketsOf(bound[1..])
  }

  /** The loop delivers to exactly the receivers, in list order; and the original with its clones
      are, in order, the delivered buffers followed by the one freed at the end, if it is freed. */
  lemma {:induction false} ScanDelivers(bound: Bound, dstIp: nat, m: Ref, next: Ref)
    ensures var o := Scan(bound, dstIp, m, next);
            && Sockets(o.queued) == SocketsOf(Receivers(bound, dstIp))
            && o.next >= next
            && Copies(m, next, o.next - next) == Refs(o.queued) + (if o.deliveredLast then [] else [o.m])
  {
    if bound != [] {
      var rest := bound[1..];
      ReceiversStep(bound, dstIp);
      if !Matches(bound[0], dstIp) {
        ScanDelivers(rest, dstIp, m, next);
      } else if bound[0].Reuses() {
        ScanDelivers(rest, dstIp, next, next + 1);
        assert Scan(bound, dstIp, m, next).queued[1..] == Scan(rest, dstIp, next, next + 1).queued;
        SocketsOfCons(bound[0], Receivers(rest, dstIp));
      } else {
        SocketsOfCons(bound[0], []);
      }
    }
  }

  lemma SocketsOfCons(b: Binding, rest: Bound)
    ensures SocketsOf([b] + rest) == [b.sockfd] + SocketsOf(rest)
  {
    assert ([b] + rest)[1..] == rest;
  }

  /** The original and its clones are different buffers, all below the next free number. */
  lemma {:induction false} CopiesDistinct(m: Ref, next: Ref, n: nat)
    requires m < next
    ensures |Copies(m, next, n)| == n + 1
    ensures forall i, j :: 0 <= i < j <= n ==> Copies(m, next, n)[i] != Copies(m, next, n)[j]
    ensures forall i :: 0 <= i <= n ==> Copies(m, next, n)[i] == m || next <= Copies(m, next, n)[i] < next + n
    decreases n
  {
    if n > 0 {
      CopiesDistinct(next, next + 1, n - 1);
      var rest := Copies(next, next + 1, n - 1);
      assert forall i :: 1 <= i <= n ==> Copies(m, next, n)[i] == rest[i - 1];
    }
  }

  // ---------------------------------------------------------------- stopping early

  lemma {:induction false} MatchingMembers(bound: Bound, dstIp: nat, i: nat)
    requires i < |bound| && Matches(bound[i], dstIp)
    ensures bound[i] in Matching(bound, dstIp)
  {
    if i > 0 {
      MatchingMembers(bound[1..], dstIp, i - 1);
    }
  }

  lemma {:induction false} InSocketsOf(bound: Bound, s: nat)
    ensures s in SocketsOf(bound) <==> exists i :: 0 <= i < |bound| && bound[i].sockfd == s
  {
    if bound != [] {
      InSocketsOf(bound[1..], s);
      if s in SocketsOf(bound[1..]) {
        var i :| 0 <= i < |bound[1..]| && bound[1..][i].sockfd == s;
        assert bound[i + 1].sockfd == s;
      }
      if i :| 0 <= i < |bound| && bound[i].sockfd == s {
        assert i > 0 ==> bound[1..][i - 1].sockfd == s;
      }
    }
  }

  lemma {:induction false} InMatching(bound: Bound, dstIp: nat, b: Binding)
    ensures b in Matching(bound, dstIp) <==> b in bound && Matches(b, dstIp)
  {
    if bound != [] {
      InMatching(bound[1..], dstIp, b);
      assert bound == [bound[0]] + bound[1..];
    }
  }

  // A head that takes every packet of the port for itself: a wildcard without reuse options.
  predicate Greedy(bound: Bound) {
    |bound| > 1 && bound[0].Wildcard() && !bound[0].Reuses()
  }

  /** In a well-ordered port list two bindings that match the same destination both have a reuse
      option, unless the earlier one is the wildcard at the head. */
  lemma SharedMatch(bound: Bound, dstIp: nat, i: nat, j: nat)
    requires WellOrdered(bound) && i < j < |bound|
    requires Matches(bound[i], dstIp) && Matches(bound[j], dstIp)
    ensures bound[i].Reuses() || (i == 0 && bound[0].Wildcard())
  {
    assert Compatible(bound[i], bound[j]);
    if bound[i].Wildcard() {
      WildcardIsHead(bound, i);
    }
  }

  lemma {:induction false} NoEarlyStop(bound: Bound, dstIp: nat)
    requires WellOrdered(bound)
    requires !Greedy(bound)
    ensures Receivers(bound, dstIp) == Matching(bound, dstIp)
  {
    if bound != [] {
      var rest := bound[1..];
      assert WellOrdered(rest);
      assert !Greedy(rest) by {
        assert |rest| > 0 ==> Compatible(bound[0], bound[1]);
      }
      NoEarlyStop(rest, dstIp);
      if Matches(bound[0], dstIp) && !bound[0].Reuses() {
        assert Matching(bound, dstIp) == [bound[0]] + Matching(rest, dstIp);
        NoOtherMatch(bound, dstIp);
      } else if Matches(bound[0], dstIp) {
        assert Matching(bound, dstIp)[1..] == Matching(rest, dstIp);
      } else {
        assert Matching(bound, dstIp) == Matching(rest, dstIp);
      }
    }
  }

  lemma NoOtherMatch(bound: Bound, dstIp: nat)
    requires WellOrdered(bound) && bound != [] && !Greedy(bound)
    requires Matches(bound[0], dstIp) && !bound[0].Reuses()
    ensures Matching(bound[1..], dstIp) == []
  {
    if Matching(bound[1..], dstIp) != [] {
      var j := FirstMatch(bound[1..], dstIp);
      SharedMatch(bound, dstIp, 0, j + 1);
    }
  }

  lemma {:induction false} FirstMatch(bound: Bound, dstIp: nat) returns (j: nat)
    requires Matching(bound, dstIp) != []
    ensures j < |bound| && Matches(bound[j], dstIp)
  {
    if Matches(bound[0], dstIp) {
      j := 0;
    } else {
      j := FirstMatch(bound[1..], dstIp);
      j := j + 1;
    }
  }

  /** Stopping at the first binding without a reuse option loses nobody, for any destination,
      exactly when the list is not headed by a wildcard without reuse options. When it is, every
      later binding is deaf: it never receives a packet. */
  lemma EarlyStopLosesNobody(bound: Bound)
    requires WellOrdered(bound)
    ensures (forall dstIp: nat :: Receivers(bound, dstIp) == Matching(bound, dstIp)) <==> !Greedy(bound)
    ensures Greedy(bound) ==> forall dstIp: nat :: Receivers(bound, dstIp) == [bound[0]]
  {
    if Greedy(bound) {
      forall dstIp: nat
        ensures Receivers(bound, dstIp) == [bound[0]]
      {
        assert Matching(bound, dstIp)[0] == bound[0];
      }
      var dstIp := bound[1].ip;
      assert Compatible(bound[0], bound[1]);
      MatchingMembers(bound, dstIp, 1);
      assert bound[1] in Matching(bound, dstIp) && bound[1] != bound[0];
      assert Receivers(bound, dstIp) != Matching(bound, dstIp);
    } else {
      forall dstIp: nat
        ensures Receivers(bound, dstIp) == Matching(bound, dstIp)
      {
        NoEarlyStop(bound, dstIp);
      }
    }
  }

  /** Where no socket has a reuse option, no destination has two receivers. */
  lemma {:induction false} OneReceiverWithoutReuse(bound: Bound, dstIp: nat)
    requires WellOrdered(bound) && forall i :: 0 <= i < |bound| ==> !bound[i].Reuses()
    ensures |Matching(bound, dstIp)| <= 1 && Receivers(bound, dstIp) == Matching(bound, dstIp)
  {
    assert |bound| > 1 ==> Compatible(bound[0], bound[1]);
    NoEarlyStop(bound, dstIp);
    if bound != [] {
      OneReceiverWithoutReuse(bound[1..], dstIp);
      if Matches(bound[0], dstIp) {
        NoOtherMatch(bound, dstIp);
      }
    }
  }

  // ---------------------------------------------------------------- ownership

  // Where the buffers of one received frame end up.
  datatype Disposal = Disposal(queued: seq<(nat, Ref)>, freed: seq<Ref>, lost: seq<Ref>, next: Ref)

  // What reassemble does with a frame. The early returns drop the frame without freeing it.
  function Switch(table: Table, frame: RxFrame, next: Ref): Disposal
    requires |table| == UDP_MAX_PORT
  {
    match frame.class_
    case NotIpv4 => Disposal([], [], [frame.ref], next)
    case Incomplete => Disposal([], [], [], next)
    case NotUdp(whole) => Disposal([], [], [whole], next)
    case Udp(whole, dstPort, dstIp) =>
      if table[dstPort] == [] then Disposal([], [], [whole], next)
      else
        var o := Scan(table[dstPort], dstIp, whole, next);
        Disposal(o.queued, if o.deliveredLast then [] else [o.m], [], o.next)
  }

  // The buffer that the poller holds for the frame: itself, or the datagram it completed.
  function HeldFor(frame: RxFrame): seq<Ref> {
    match frame.class_
    case NotIpv4 => [frame.ref]
    case Incomplete => []
    case NotUdp(whole) => [whole]
    case Udp(whole, _, _) => [whole]
  }

  predicate HasNumberBelow(frame: RxFrame, next: Ref) {
    forall r :: r in HeldFor(frame) ==> r < next
  }

  // n clones, numbered from `next`.
  function Numbers(next: Ref, n: nat): seq<Ref>
    decreases n
  {
    if n == 0 then [] else [next] + Numbers(next + 1, n - 1)
  }

  lemma {:induction false} CopiesAreNumbers(m: Ref, next: Ref, n: nat)
    ensures Copies(m, next, n) == [m] + Numbers(next, n)
    decreases n
  {
    if n > 0 {
      CopiesAreNumbers(next, next + 1, n - 1);
    }
  }

  /** Conservation: the buffer held for a frame and the clones made for it are, one by one and in
      order, those queued to sockets, then the one freed, then the one lost. None is queued twice
      and none is both queued and freed. */
  lemma SwitchConserves(table: Table, frame: RxFrame, next: Ref)
    requires |table| == UDP_MAX_PORT && HasNumberBelow(frame, next)
    ensures var f := Switch(table, frame, next);
            var all := Refs(f.queued) + f.freed + f.lost;
            && f.next >= next
            && all == HeldFor(frame) + Numbers(next, f.next - next)
            && (forall i, j :: 0 <= i < j < |all| ==> all[i] != all[j])
  {
    var f := Switch(table, frame, next);
    if frame.class_.Udp? && table[frame.class_.dstPort] != [] {
      var whole := frame.class_.whole;
      assert whole in HeldFor(frame);
      ScanDelivers(table[frame.class_.dstPort], frame.class_.dstIp, whole, next);
      CopiesAreNumbers(whole, next, f.next - next);
      CopiesDistinct(whole, next, f.next - next);
    }
  }

  /** A buffer is lost exactly when the frame is not IPv4, not UDP, or for a port that nobody is
      bound to. */
  lemma LostExactly(table: Table, frame: RxFrame, next: Ref)
    requires |table| == UDP_MAX_PORT
    ensures Switch(table, frame, next).lost != [] <==>
            frame.class_.NotIpv4? || frame.class_.NotUdp? ||
            (frame.class_.Udp? && table[frame.class_.dstPort] == [])
  {
  }

  // ---------------------------------------------------------------- the receive buffers

  // The slot that enqueue_rx_packet writes to: its index parameter has 8 bits.
  function SlotIndex(sockfd: nat): nat {
    sockfd % 256
  }

  // How often a slot is written to for one packet.
  function Hits(sockets: seq<nat>, k: nat): nat {
    if sockets == [] then 0
    else (if SlotIndex(sockets[0]) == k then 1 else 0) + Hits(sockets[1..], k)
  }

  function FrameHits(table: Table, frame: RxFrame, k: nat): nat
    requires |table| == UDP_MAX_PORT
  {
    match frame.class_
    case Udp(_, dstPort, dstIp) => Hits(SocketsOf(Receivers(table[dstPort], dstIp)), k)
    case _ => 0
  }

  function BurstHits(table: Table, burst: seq<RxFrame>, k: nat): nat
    requires |table| == UDP_MAX_PORT
  {
    if burst == [] then 0 else FrameHits(table, burst[0], k) + BurstHits(table, burst[1..], k)
  }

  lemma HitsCons(s: nat, rest: seq<nat>, k: nat)
    ensures Hits([s] + rest, k) == (if SlotIndex(s) == k then 1 else 0) + Hits(rest, k)
  {
    assert ([s] + rest)[1..] == rest;
  }

  // ---------------------------------------------------------------- one receive pass

  type Buffers = seq<seq<Ref>>  // the receive buffers, or the receive rings, of all slots

  // Queue each buffer at the slot its socket is mapped to.
  function Place(bufs: Buffers, queued: seq<(nat, Ref)>): (r: Buffers)
    requires |bufs| == NUM_SOCKETS_MAX
    ensures |r| == NUM_SOCKETS_MAX
    decreases |queued|
  {
    if queued == [] then bufs
    else
      var k := SlotIndex(queued[0].0);
      Place(bufs[k := bufs[k] + [queued[0].1]], queued[1..])
  }

  // What a sequence of queued buffers means for slot k, in order of arrival.
  function For(queued: seq<(nat, Ref)>, k: nat): seq<Ref> {
    if queued == [] then []
    else (if SlotIndex(queued[0].0) == k then [queued[0].1] else []) + For(queued[1..], k)
  }

  lemma AppendTwice<T>(a: seq<T>, x: T, b: seq<T>)
    ensures (a + [x]) + b == a + ([x] + b)
  {
  }

  lemma {:induction false} PlaceAppends(bufs: Buffers, queued: seq<(nat, Ref)>, k: nat)
    requires |bufs| == NUM_SOCKETS_MAX && k < NUM_SOCKETS_MAX
    ensures Place(bufs, queued)[k] == bufs[k] + For(queued, k)
    decreases |queued|
  {
    if queued == [] {
      assert bufs[k] + [] == bufs[k];
    } else {
      var i, r := SlotIndex(queued[0].0), queued[0].1;
      PlaceAppends(bufs[i := bufs[i] + [r]], queued[1..], k);
      if i == k {
        AppendTwice(bufs[k], r, For(queued[1..], k));
      } else {
        assert [] + For(queued[1..], k) == For(queued[1..], k);
      }
    }
  }

  lemma {:induction false} ForCount(queued: seq<(nat, Ref)>, k: nat)
    ensures |For(queued, k)| == Hits(Sockets(queued), k)
  {
    if queued != [] {
      ForCount(queued[1..], k);
      HitsCons(queued[0].0, Sockets(queued[1..]), k);
    }
  }

  // The poller between two frames of a burst.
  datatype Poller = Poller(bufs: Buffers, freed: seq<Ref>, lost: seq<Ref>, next: Ref)

  function SwitchOne(table: Table, p: Poller, frame: RxFrame): Poller
    requires |table| == UDP_MAX_PORT && |p.bufs| == NUM_SOCKETS_MAX
  {
    var f := Switch(table, frame, p.next);
    Poller(Place(p.bufs, f.queued), p.freed + f.freed, p.lost + f.lost, f.next)
  }

  function SwitchBurst(table: Table, p: Poller, burst: seq<RxFrame>): (r: Poller)
    requires |table| == UDP_MAX_PORT && |p.bufs| == NUM_SOCKETS_MAX
    ensures |r.bufs| == NUM_SOCKETS_MAX
  {
    if burst == [] then p
    else SwitchOne(table, SwitchBurst(table, p, burst[..|burst| - 1]), burst[|burst| - 1])
  }

  // Everything that is queued by a burst, in order.
  function Queued(table: Table, burst: seq<RxFrame>, next: Ref): (seq<(nat, Ref)>, Ref)
    requires |table| == UDP_MAX_PORT
  {
    if burst == [] then ([], next)
    else
      var (q, n) := Queued(table, burst[..|burst| - 1], next);
      var f := Switch(table, burst[|burst| - 1], n);
      (q + f.queued, f.next)
  }

  lemma {:induction false} ForAppend(a: seq<(nat, Ref)>, b: seq<(nat, Ref)>, k: nat)
    ensures For(a + b, k) == For(a, k) + For(b, k)
  {
    if a == [] {
      assert a + b == b;
    } else {
      var rest, all := a[1..], a + b;
      assert all[1..] == rest + b && all[0] == a[0];
      ForAppend(rest, b, k);
      var head := if SlotIndex(a[0].0) == k then [a[0].1] else [];
      assert For(all, k) == head + For(rest + b, k) == head + (For(rest, k) + For(b, k));
      assert For(a, k) == head + For(rest, k);
    }
  }

  /** After a burst the buffer of slot k has grown by the buffers queued for it, in the order of
      arrival, and by no more than the burst hits it. */
  lemma {:induction false} BurstFillsBuffers(table: Table, p: Poller, burst: seq<RxFrame>, k: nat)
    requires |table| == UDP_MAX_PORT && |p.bufs| == NUM_SOCKETS_MAX && k < NUM_SOCKETS_MAX
    ensures SwitchBurst(table, p, burst).next == Queued(table, burst, p.next).1
    ensures SwitchBurst(table, p, burst).bufs[k] == p.bufs[k] + For(Queued(table, burst, p.next).0, k)
    ensures |For(Queued(table, burst, p.next).0, k)| == BurstHits(table, burst, k)
  {
    if burst != [] {
      var front, last := burst[..|burst| - 1], burst[|burst| - 1];
      BurstFillsBuffers(table, p, front, k);
      FrameFillsBuffers(table, SwitchBurst(table, p, front), last, k, p.bufs[k], Queued(table, front, p.next).0);
      BurstHitsLast(table, burst, k);
    }
  }

  // One more frame, when `queued` is what was queued before.
  lemma FrameFillsBuffers(table: Table, p: Poller, frame: RxFrame, k: nat, start: seq<Ref>, queued: seq<(nat, Ref)>)
    requires |table| == UDP_MAX_PORT && |p.bufs| == NUM_SOCKETS_MAX && k < NUM_SOCKETS_MAX
    requires p.bufs[k] == start + For(queued, k)
    ensures var f := Switch(table, frame, p.next);
            && SwitchOne(table, p, frame).bufs[k] == start + For(queued + f.queued, k)
            && |For(queued + f.queued, k)| == |For(queued, k)| + FrameHits(table, frame, k)
  {
    var f := Switch(table, frame, p.next);
    PlaceAppends(p.bufs, f.queued, k);
    ForCount(f.queued, k);
    ForAppend(queued, f.queued, k);
    DisposalHits(table, frame, p.next, k);
    ConcatAssoc(start, For(queued, k), For(f.queued, k));
  }

  lemma DisposalHits(table: Table, frame: RxFrame, next: Ref, k: nat)
    requires |table| == UDP_MAX_PORT
    ensures Hits(Sockets(Switch(table, frame, next).queued), k) == FrameHits(table, frame, k)
  {
    if frame.class_.Udp? {
      ScanDelivers(table[frame.class_.dstPort], frame.class_.dstIp, frame.class_.whole, next);
    }
  }

  lemma {:induction false} BurstHitsLast(table: Table, burst: seq<RxFrame>, k: nat)
    requires |table| == UDP_MAX_PORT && burst != []
    ensures BurstHits(table, burst, k) ==
            BurstHits(table, burst[..|burst| - 1], k) + FrameHits(table, burst[|burst| - 1], k)
  {
    if |burst| > 1 {
      BurstHitsLast(table, burst[1..], k);
      assert burst[..|burst| - 1][1..] == burst[1..][..|burst| - 2];
    }
  }

  // ---------------------------------------------------------------- flushing

  // flush_rx_queue for slot k: all of the buffer goes to the ring, or all of it is freed.
  function FlushSlot(p: Poller, rings: Buffers, k: nat): (Poller, Buffers)
    requires |p.bufs| == |rings| == NUM_SOCKETS_MAX && k < NUM_SOCKETS_MAX
  {
    var ring := EnqueueBulk(rings[k], p.bufs[k], RING_CAPACITY);
    var freed := if |rings[k]| + |p.bufs[k]| <= RING_CAPACITY then [] else p.bufs[k];
    (p.(bufs := p.bufs[k := []], freed := p.freed + freed), rings[k := ring])
  }

  // The slots below n that are in use are flushed, the others keep their buffers.
  function FlushBelow(used: seq<bool>, p: Poller, rings: Buffers, n: nat): (r: (Poller, Buffers))
    requires |used| == |p.bufs| == |rings| == NUM_SOCKETS_MAX && n <= NUM_SOCKETS_MAX
    ensures |r.0.bufs| == |r.1| == NUM_SOCKETS_MAX
  {
    if n == 0 then (p, rings)
    else
      var (q, rs) := FlushBelow(used, p, rings, n - 1);
      if used[n - 1] then FlushSlot(q, rs, n - 1) else (q, rs)
  }

  lemma {:induction false} FlushedSlots(used: seq<bool>, p: Poller, rings: Buffers, n: nat, k: nat)
    requires |used| == |p.bufs| == |rings| == NUM_SOCKETS_MAX && n <= NUM_SOCKETS_MAX && k < NUM_SOCKETS_MAX
    ensures var (q, rs) := FlushBelow(used, p, rings, n);
            if k < n && used[k]
            then q.bufs[k] == [] && rs[k] == EnqueueBulk(rings[k], p.bufs[k], RING_CAPACITY)
            else q.bufs[k] == p.bufs[k] && rs[k] == rings[k]
  {
    if n > 0 {
      FlushedSlots(used, p, rings, n - 1, k);
    }
  }

  // The RX half of a round of poller_body: without packets there is no flush either.
  function RxPass(table: Table, used: seq<bool>, p: Poller, rings: Buffers, burst: seq<RxFrame>): (Poller, Buffers)
    requires |table| == UDP_MAX_PORT
    requires |used| == |p.bufs| == |rings| == NUM_SOCKETS_MAX
  {
    if burst == [] then (p, rings) else FlushBelow(used, SwitchBurst(table, p, burst), rings, |used|)
  }

  /** Once packets are received the ring of a slot in use gets all that its buffer held before the pass and what the burst
      queued for it, in the order of arrival, or nothing of it; the buffer is empty then. A slot that
      is not in use keeps its ring as it was, and its buffer grows. */
  lemma PassFillsRings(table: Table, used: seq<bool>, p: Poller, rings: Buffers, burst: seq<RxFrame>, k: nat)
    requires |table| == UDP_MAX_PORT
    requires |used| == |p.bufs| == |rings| == NUM_SOCKETS_MAX && k < NUM_SOCKETS_MAX
    ensures var (q, rs) := RxPass(table, used, p, rings, burst);
            var waiting := p.bufs[k] + For(Queued(table, burst, p.next).0, k);
            && rs[k] == (if used[k] && burst != [] then EnqueueBulk(rings[k], waiting, RING_CAPACITY) else rings[k])
            && q.bufs[k] == (if used[k] && burst != [] then [] else waiting)
  {
    assert p.bufs[k] + [] == p.bufs[k];
    var mid := SwitchBurst(table, p, burst);
    BurstFillsBuffers(table, p, burst, k);
    FlushedSlots(used, mid, rings, |used|, k);
  }

  // ---------------------------------------------------------------- conservation over a pass

  // How often buffer r occurs in all the buffers.
  function TimesIn(bufs: Buffers, r: Ref): nat {
    if bufs == [] then 0 else TimesIn(bufs[..|bufs| - 1], r) + Times(bufs[|bufs| - 1], r)
  }

  lemma {:induction false} TimesUpdate(bufs: Buffers, k: nat, b: seq<Ref>, r: Ref)
    requires k < |bufs|
    ensures TimesIn(bufs[k := b], r) + Times(bufs[k], r) == TimesIn(bufs, r) + Times(b, r)
  {
    var last := |bufs| - 1;
    if k == last {
      assert bufs[k := b][..last] == bufs[..last];
    } else {
      assert bufs[k := b][..last] == bufs[..last][k := b];
      TimesUpdate(bufs[..last], k, b, r);
    }
  }

  lemma {:induction false} PlaceTimes(bufs: Buffers, queued: seq<(nat, Ref)>, r: Ref)
    requires |bufs| == NUM_SOCKETS_MAX
    ensures TimesIn(Place(bufs, queued), r) == TimesIn(bufs, r) + Times(Refs(queued), r)
    decreases |queued|
  {
    if queued != [] {
      var k, m := SlotIndex(queued[0].0), queued[0].1;
      PlaceTimes(bufs[k := bufs[k] + [m]], queued[1..], r);
      TimesUpdate(bufs, k, bufs[k] + [m], r);
      TimesAppend(bufs[k], [m], r);
      TimesAppend([m], Refs(queued[1..]), r);
    }
  }

  function HeldForAll(burst: seq<RxFrame>): seq<Ref> {
    if burst == [] then [] else HeldForAll(burst[..|burst| - 1]) + HeldFor(burst[|burst| - 1])
  }

  // How often the poller has, freed or lost buffer r.
  function Accounted(p: Poller, r: Ref): nat {
    TimesIn(p.bufs, r) + Times(p.freed, r) + Times(p.lost, r)
  }

  lemma {:induction false} NumbersAppend(next: Ref, a: nat, b: nat)
    ensures Numbers(next, a + b) == Numbers(next, a) + Numbers(next + a, b)
    decreases a
  {
    if a > 0 {
      NumbersAppend(next + 1, a - 1, b);
    }
  }

  // `q` comes after `p`, holding also `held` and the clones that were numbered in between.
  ghost predicate Balanced(p: Poller, held: seq<Ref>, q: Poller, r: Ref) {
    && p.next <= q.next
    && Accounted(q, r) == Accounted(p, r) + Times(held, r) + Times(Numbers(p.next, q.next - p.next), r)
  }

  lemma DisposalConserves(p: Poller, f: Disposal, held: seq<Ref>, r: Ref)
    requires |p.bufs| == NUM_SOCKETS_MAX && f.next >= p.next
    requires Refs(f.queued) + f.freed + f.lost == held + Numbers(p.next, f.next - p.next)
    ensures Balanced(p, held, Poller(Place(p.bufs, f.queued), p.freed + f.freed, p.lost + f.lost, f.next), r)
  {
    PlaceTimes(p.bufs, f.queued, r);
    TimesAppend(p.freed, f.freed, r);
    TimesAppend(p.lost, f.lost, r);
    TimesAppend(Refs(f.queued), f.freed, r);
    TimesAppend(Refs(f.queued) + f.freed, f.lost, r);
    TimesAppend(held, Numbers(p.next, f.next - p.next), r);
  }

  lemma NumbersTwice(a: Ref, b: Ref, c: Ref, r: Ref)
    requires a <= b <= c
    ensures Times(Numbers(a, c - a), r) == Times(Numbers(a, b - a), r) + Times(Numbers(b, c - b), r)
  {
    NumbersAppend(a, b - a, c - b);
    TimesAppend(Numbers(a, b - a), Numbers(b, c - b), r);
  }

  lemma BalancedTwice(p: Poller, held: seq<Ref>, mid: Poller, more: seq<Ref>, q: Poller, r: Ref)
    requires Balanced(p, held, mid, r) && Balanced(mid, more, q, r)
    ensures Balanced(p, held + more, q, r)
  {
    NumbersTwice(p.next, mid.next, q.next, r);
    TimesAppend(held, more, r);
  }

  /** Over a burst nothing is created or destroyed but the clones: what is in the buffers, freed or
      lost afterwards is what was there before, the held frames and the clones. */
  lemma {:induction false} BurstConserves(table: Table, p: Poller, burst: seq<RxFrame>, r: Ref)
    requires |table| == UDP_MAX_PORT && |p.bufs| == NUM_SOCKETS_MAX
    requires forall i :: 0 <= i < |burst| ==> HasNumberBelow(burst[i], p.next)
    ensures Balanced(p, HeldForAll(burst), SwitchBurst(table, p, burst), r)
  {
    if burst == [] {
      assert Numbers(p.next, 0) == [];
    } else {
      var front, last := burst[..|burst| - 1], burst[|burst| - 1];
      BurstConserves(table, p, front, r);
      var mid := SwitchBurst(table, p, front);
      assert HasNumberBelow(last, p.next);
      SwitchConserves(table, last, mid.next);
      DisposalConserves(mid, Switch(table, last, mid.next), HeldFor(last), r);
      BalancedTwice(p, HeldForAll(front), mid, HeldFor(last), SwitchOne(table, mid, last), r);
    }
  }

  lemma FlushSlotConserves(p: Poller, rings: Buffers, k: nat, r: Ref)
    requires |p.bufs| == |rings| == NUM_SOCKETS_MAX && k < NUM_SOCKETS_MAX
    ensures var (q, rs) := FlushSlot(p, rings, k);
            Accounted(q, r) + TimesIn(rs, r) == Accounted(p, r) + TimesIn(rings, r)
  {
    var (q, rs) := FlushSlot(p, rings, k);
    TimesUpdate(p.bufs, k, [], r);
    TimesUpdate(rings, k, rs[k], r);
    TimesAppend(rings[k], p.bufs[k], r);
    TimesAppend(p.freed, p.bufs[k], r);
    assert p.freed + [] == p.freed;
  }

  lemma {:induction false} FlushConserves(used: seq<bool>, p: Poller, rings: Buffers, n: nat, r: Ref)
    requires |used| == |p.bufs| == |rings| == NUM_SOCKETS_MAX && n <= NUM_SOCKETS_MAX
    ensures var (q, rs) := FlushBelow(used, p, rings, n);
            Accounted(q, r) + TimesIn(rs, r) == Accounted(p, r) + TimesIn(rings, r) && q.next == p.next
  {
    if n > 0 {
      FlushConserves(used, p, rings, n - 1, r);
      var (q, rs) := FlushBelow(used, p, rings, n - 1);
      if used[n - 1] {
        FlushSlotConserves(q, rs, n - 1, r);
      }
    }
  }

  // Rings included: `after` accounts for what was there before, for `held` and for the clones.
  ghost predicate Settled(p: Poller, rings: Buffers, held: seq<Ref>, after: (Poller, Buffers), r: Ref) {
    && p.next <= after.0.next
    && Accounted(after.0, r) + TimesIn(after.1, r) ==
       Accounted(p, r) + TimesIn(rings, r) + Times(held, r) + Times(Numbers(p.next, after.0.next - p.next), r)
  }

  /** Conservation over a whole pass, rings included, for every buffer r: a frame that the poller
      held or a clone it made is afterwards in a ring, in a buffer, freed or lost, just once. */
  lemma PassConserves(table: Table, used: seq<bool>, p: Poller, rings: Buffers, burst: seq<RxFrame>, r: Ref)
    requires |table| == UDP_MAX_PORT
    requires |used| == |p.bufs| == |rings| == NUM_SOCKETS_MAX
    requires forall i :: 0 <= i < |burst| ==> HasNumberBelow(burst[i], p.next)
    ensures Settled(p, rings, HeldForAll(burst), RxPass(table, used, p, rings, burst), r)
  {
    BurstConserves(table, p, burst, r);
    FlushSettles(used, p, SwitchBurst(table, p, burst), HeldForAll(burst), rings, |used|, r);
  }

  lemma FlushSettles(used: seq<bool>, p: Poller, mid: Poller, held: seq<Ref>, rings: Buffers, n: nat, r: Ref)
    requires |used| == |mid.bufs| == |rings| == NUM_SOCKETS_MAX && n <= |used|
    requires Balanced(p, held, mid, r)
    ensures Settled(p, rings, held, FlushBelow(used, mid, rings, n), r)
  {
    FlushConserves(used, mid, rings, n, r);
  }
}
