/** When the receive buffers of the poller can overflow (enqueue_rx_packet and flush_rx_queue of
    udpdk_poller.c): over one burst, and over any number of passes. */
module Overflows {
  import opened Constants
  import opened Sequences
  import opened Bindings
  import opened Datagrams
  import opened Delivery

  // The addresses of a port list are IPv4 addresses.
  ghost predicate RealAddresses(bound: Bound) {
    forall i :: 0 <= i < |bound| ==> bound[i].ip < 0x1_0000_0000
  }

  // What every reachable table is.
  ghost predicate WellFormed(table: Table) {
    && |table| == UDP_MAX_PORT
    && forall p :: 0 <= p < |table| ==>
         WellOrdered(table[p]) && DistinctSockets(table[p]) && RealAddresses(table[p])
  }

  // ---------------------------------------------------------------- which entries receive

  // Entry i of a port list gets packets.
  predicate CanReceive(bound: Bound, i: nat)
    requires i < |bound|
  {
    i == 0 || !Greedy(bound)
  }

  // Entries i and j of a port list get copies of one packet.
  predicate Meet(bound: Bound, i: nat, j: nat)
    requires i < j < |bound|
  {
    !Greedy(bound) && (bound[i].ip == bound[j].ip || bound[i].Wildcard() || bound[j].Wildcard())
  }

  /** An entry is a receiver for some destination exactly if it heads its list or the head is not a
      wildcard that keeps the port for itself. */
  lemma CanReceiveExactly(bound: Bound, i: nat)
    requires WellOrdered(bound) && DistinctSockets(bound) && RealAddresses(bound) && i < |bound|
    ensures CanReceive(bound, i) <==> exists dstIp: uint32 :: bound[i] in Receivers(bound, dstIp)
    ensures CanReceive(bound, i) ==> bound[i] in Receivers(bound, bound[i].ip)
  {
    EarlyStopLosesNobody(bound);
    if CanReceive(bound, i) {
      var dstIp: uint32 := bound[i].ip;
      InMatching(bound, dstIp, bound[i]);
      assert bound[i] in Receivers(bound, dstIp);
    } else {
      assert bound[i].sockfd != bound[0].sockfd;
    }
  }

  /** Two entries are both receivers for some destination exactly if no wildcard keeps the port for
      itself and they have the same address or one is a wildcard. */
  lemma MeetExactly(bound: Bound, i: nat, j: nat)
    requires WellOrdered(bound) && DistinctSockets(bound) && RealAddresses(bound) && i < j < |bound|
    ensures Meet(bound, i, j) <==>
            exists dstIp: uint32 :: bound[i] in Receivers(bound, dstIp) && bound[j] in Receivers(bound, dstIp)
  {
    EarlyStopLosesNobody(bound);
    assert bound[i].sockfd != bound[j].sockfd;
    if Meet(bound, i, j) {
      var dstIp: uint32 := if bound[i].Wildcard() then bound[j].ip else bound[i].ip;
      InMatching(bound, dstIp, bound[i]);
      InMatching(bound, dstIp, bound[j]);
      assert bound[i] in Receivers(bound, dstIp) && bound[j] in Receivers(bound, dstIp);
    }
    if dstIp: uint32 :| bound[i] in Receivers(bound, dstIp) && bound[j] in Receivers(bound, dstIp) {
      InMatching(bound, dstIp, bound[i]);
      InMatching(bound, dstIp, bound[j]);
    }
  }

  // ---------------------------------------------------------------- counting hits

  lemma MatchHits(bound: Bound, dstIp: nat, k: nat)
    requires bound != []
    ensures Hits(SocketsOf(Matching(bound, dstIp)), k) ==
            (if Matches(bound[0], dstIp) && SlotIndex(bound[0].sockfd) == k then 1 else 0)
            + Hits(SocketsOf(Matching(bound[1..], dstIp)), k)
  {
    var rest := Matching(bound[1..], dstIp);
    if Matches(bound[0], dstIp) {
      SocketsOfCons(bound[0], rest);
      HitsCons(bound[0].sockfd, SocketsOf(rest), k);
    } else {
      assert Matching(bound, dstIp) == rest;
    }
  }

  // Entry i matches the destination and is served by slot k.
  predicate HitBy(bound: Bound, dstIp: nat, k: nat, i: nat)
    requires i < |bound|
  {
    Matches(bound[i], dstIp) && SlotIndex(bound[i].sockfd) == k
  }

  lemma {:induction false} OneHit(bound: Bound, dstIp: nat, k: nat, i: nat)
    requires i < |bound| && HitBy(bound, dstIp, k, i)
    ensures Hits(SocketsOf(Matching(bound, dstIp)), k) >= 1
  {
    MatchHits(bound, dstIp, k);
    if i > 0 {
      OneHit(bound[1..], dstIp, k, i - 1);
    }
  }

  lemma {:induction false} TwoHits(bound: Bound, dstIp: nat, k: nat, i: nat, j: nat)
    requires i < j < |bound| && HitBy(bound, dstIp, k, i) && HitBy(bound, dstIp, k, j)
    ensures Hits(SocketsOf(Matching(bound, dstIp)), k) >= 2
  {
    MatchHits(bound, dstIp, k);
    if i > 0 {
      TwoHits(bound[1..], dstIp, k, i - 1, j - 1);
    } else {
      OneHit(bound[1..], dstIp, k, j - 1);
    }
  }

  lemma {:induction false} FindHit(bound: Bound, dstIp: nat, k: nat) returns (i: nat)
    requires Hits(SocketsOf(Matching(bound, dstIp)), k) >= 1
    ensures i < |bound| && HitBy(bound, dstIp, k, i)
    ensures Hits(SocketsOf(Matching(bound, dstIp)), k) >= 2 ==>
              exists j: nat :: i < j < |bound| && HitBy(bound, dstIp, k, j)
  {
    MatchHits(bound, dstIp, k);
    if HitBy(bound, dstIp, k, 0) {
      i := 0;
      if Hits(SocketsOf(Matching(bound[1..], dstIp)), k) >= 1 {
        var j := FindHit(bound[1..], dstIp, k);
        assert HitBy(bound, dstIp, k, j + 1);
      }
    } else {
      i := FindHit(bound[1..], dstIp, k);
      if j: nat :| i < j < |bound[1..]| && HitBy(bound[1..], dstIp, k, j) {
        assert HitBy(bound, dstIp, k, j + 1);
      }
      i := i + 1;
    }
  }

  lemma GreedyHits(bound: Bound, dstIp: nat, k: nat)
    requires WellOrdered(bound) && Greedy(bound)
    ensures Hits(SocketsOf(Receivers(bound, dstIp)), k) == if SlotIndex(bound[0].sockfd) == k then 1 else 0
  {
    EarlyStopLosesNobody(bound);
    assert Receivers(bound, dstIp) == [bound[0]] + [];
    SocketsOfCons(bound[0], []);
    HitsCons(bound[0].sockfd, [], k);
  }

  // ---------------------------------------------------------------- the two conditions

  /** No two entries of a port that get copies of one packet are served by the same slot. */
  ghost predicate OneSlotEach(table: Table) {
    forall p, i: nat, j: nat {:trigger Meet(table[p], i, j)} ::
      0 <= p < |table| && i < j < |table[p]| && Meet(table[p], i, j) ==>
        SlotIndex(table[p][i].sockfd) != SlotIndex(table[p][j].sockfd)
  }

  /** Every entry that gets packets is served by a slot that is in use, and so flushed. */
  ghost predicate Flushable(table: Table, used: seq<bool>)
    requires |used| == NUM_SOCKETS_MAX
  {
    forall p, i: nat {:trigger CanReceive(table[p], i)} ::
      0 <= p < |table| && i < |table[p]| && CanReceive(table[p], i) ==> used[SlotIndex(table[p][i].sockfd)]
  }

  // No packet is written twice to one slot.
  ghost predicate HitsOnce(table: Table)
    requires |table| == UDP_MAX_PORT
  {
    forall p: uint16, dstIp: uint32, k: nat {:trigger Hits(SocketsOf(Receivers(table[p], dstIp)), k)} ::
      Hits(SocketsOf(Receivers(table[p], dstIp)), k) <= 1
  }

  lemma AtMostOneHit(bound: Bound, dstIp: nat, k: nat)
    requires WellOrdered(bound)
    requires forall i: nat, j: nat {:trigger Meet(bound, i, j)} :: i < j < |bound| && Meet(bound, i, j) ==>
               SlotIndex(bound[i].sockfd) != SlotIndex(bound[j].sockfd)
    ensures Hits(SocketsOf(Receivers(bound, dstIp)), k) <= 1
  {
    EarlyStopLosesNobody(bound);
    if Greedy(bound) {
      GreedyHits(bound, dstIp, k);
    } else if Hits(SocketsOf(Matching(bound, dstIp)), k) >= 2 {
      var i := FindHit(bound, dstIp, k);
      var j: nat :| i < j < |bound| && HitBy(bound, dstIp, k, j);
      assert Meet(bound, i, j);
    }
  }

  /** So the condition on the entries is exactly that no packet is written twice to one slot. */
  lemma HitsOnceExactly(table: Table)
    requires WellFormed(table)
    ensures HitsOnce(table) <==> OneSlotEach(table)
  {
    if OneSlotEach(table) {
      forall p: uint16, dstIp: uint32, k: nat
        ensures Hits(SocketsOf(Receivers(table[p], dstIp)), k) <= 1
      {
        AtMostOneHit(table[p], dstIp, k);
      }
    } else {
      var p, i: nat, j: nat :| 0 <= p < |table| && i < j < |table[p]| && Meet(table[p], i, j) &&
        SlotIndex(table[p][i].sockfd) == SlotIndex(table[p][j].sockfd);
      var dstIp, k := MeetingHitsTwice(table[p], i, j);
      var port: uint16 := p;
      assert Hits(SocketsOf(Receivers(table[port], dstIp)), k) >= 2;
    }
  }

  lemma MeetingHitsTwice(bound: Bound, i: nat, j: nat) returns (dstIp: uint32, k: nat)
    requires WellOrdered(bound) && RealAddresses(bound) && i < j < |bound| && Meet(bound, i, j)
    requires SlotIndex(bound[i].sockfd) == SlotIndex(bound[j].sockfd)
    ensures Hits(SocketsOf(Receivers(bound, dstIp)), k) >= 2 && k < NUM_SOCKETS_MAX
  {
    dstIp := if bound[i].Wildcard() then bound[j].ip else bound[i].ip;
    k := SlotIndex(bound[i].sockfd);
    NoEarlyStop(bound, dstIp);
    TwoHits(bound, dstIp, k, i, j);
  }

  // The packet that reaches an entry which can receive.
  lemma ReceivingHits(bound: Bound, i: nat) returns (dstIp: uint32)
    requires WellOrdered(bound) && RealAddresses(bound) && i < |bound| && CanReceive(bound, i)
    ensures Hits(SocketsOf(Receivers(bound, dstIp)), SlotIndex(bound[i].sockfd)) >= 1
  {
    dstIp := bound[i].ip;
    if Greedy(bound) {
      GreedyHits(bound, dstIp, SlotIndex(bound[i].sockfd));
    } else {
      NoEarlyStop(bound, dstIp);
      OneHit(bound, dstIp, SlotIndex(bound[i].sockfd), i);
    }
  }

  lemma HitIsReceiving(bound: Bound, dstIp: nat, k: nat) returns (i: nat)
    requires WellOrdered(bound) && Hits(SocketsOf(Receivers(bound, dstIp)), k) >= 1
    ensures i < |bound| && CanReceive(bound, i) && SlotIndex(bound[i].sockfd) == k
  {
    if Greedy(bound) {
      GreedyHits(bound, dstIp, k);
      i := 0;
    } else {
      NoEarlyStop(bound, dstIp);
      i := FindHit(bound, dstIp, k);
    }
  }

  // ---------------------------------------------------------------- bursts

  lemma {:induction false} BurstBound(table: Table, burst: seq<RxFrame>, k: nat)
    requires |table| == UDP_MAX_PORT && HitsOnce(table)
    ensures BurstHits(table, burst, k) <= |burst|
  {
    if burst != [] {
      BurstBound(table, burst[1..], k);
    }
  }

  lemma {:induction false} NoBurstHits(table: Table, used: seq<bool>, burst: seq<RxFrame>, k: nat)
    requires WellFormed(table) && |used| == NUM_SOCKETS_MAX && Flushable(table, used)
    requires k < NUM_SOCKETS_MAX && !used[k]
    ensures BurstHits(table, burst, k) == 0
  {
    if burst != [] {
      NoBurstHits(table, used, burst[1..], k);
      if FrameHits(table, burst[0], k) > 0 {
        var _ := HitIsReceiving(table[burst[0].class_.dstPort], burst[0].class_.dstIp, k);
      }
    }
  }

  function Repeat(frame: RxFrame, n: nat): (burst: seq<RxFrame>)
    ensures |burst| == n
  {
    if n == 0 then [] else [frame] + Repeat(frame, n - 1)
  }

  lemma {:induction false} RepeatHits(table: Table, frame: RxFrame, n: nat, k: nat, h: nat)
    requires |table| == UDP_MAX_PORT && FrameHits(table, frame, k) >= h
    ensures BurstHits(table, Repeat(frame, n), k) >= h * n
  {
    if n > 0 {
      RepeatHits(table, frame, n - 1, k, h);
      assert Repeat(frame, n)[1..] == Repeat(frame, n - 1);
      assert h * n == h * (n - 1) + h;
    }
  }

  lemma {:induction false} PrefixHits(table: Table, burst: seq<RxFrame>, j: nat, k: nat)
    requires |table| == UDP_MAX_PORT && j <= |burst|
    ensures BurstHits(table, burst[..j], k) <= BurstHits(table, burst, k)
  {
    if j > 0 {
      PrefixHits(table, burst[1..], j - 1, k);
      assert burst[..j][1..] == burst[1..][..j - 1];
    }
  }

  // ---------------------------------------------------------------- passes

  ghost predicate AllEmpty(bufs: Buffers) {
    forall k :: 0 <= k < |bufs| ==> bufs[k] == []
  }

  /** A burst writes past the end of some receive buffer. */
  ghost predicate Overflow(table: Table, p: Poller, burst: seq<RxFrame>)
    requires |table| == UDP_MAX_PORT && |p.bufs| == NUM_SOCKETS_MAX
  {
    exists k: nat :: k < NUM_SOCKETS_MAX && |SwitchBurst(table, p, burst).bufs[k]| > EXCH_BUF_SIZE
  }

  lemma BufferGrows(table: Table, used: seq<bool>, p: Poller, rings: Buffers, burst: seq<RxFrame>, k: nat)
    requires |table| == UDP_MAX_PORT
    requires |used| == |p.bufs| == |rings| == NUM_SOCKETS_MAX && k < NUM_SOCKETS_MAX
    ensures |SwitchBurst(table, p, burst).bufs[k]| == |p.bufs[k]| + BurstHits(table, burst, k)
    ensures |RxPass(table, used, p, rings, burst).0.bufs[k]| ==
            if used[k] && burst != [] then 0 else |p.bufs[k]| + BurstHits(table, burst, k)
  {
    BurstFillsBuffers(table, p, burst, k);
    PassFillsRings(table, used, p, rings, burst, k);
  }

  lemma PassEmpties(table: Table, used: seq<bool>, p: Poller, rings: Buffers, burst: seq<RxFrame>)
    requires WellFormed(table) && |used| == |p.bufs| == |rings| == NUM_SOCKETS_MAX
    requires AllEmpty(p.bufs) && Flushable(table, used)
    ensures AllEmpty(RxPass(table, used, p, rings, burst).0.bufs)
  {
    forall k | 0 <= k < NUM_SOCKETS_MAX
      ensures RxPass(table, used, p, rings, burst).0.bufs[k] == []
    {
      BufferGrows(table, used, p, rings, burst, k);
      if !used[k] {
        NoBurstHits(table, used, burst, k);
      }
    }
  }

  lemma EmptyAgain(table: Table, used: seq<bool>, p: Poller, rings: Buffers, burst: seq<RxFrame>)
    requires |table| == UDP_MAX_PORT && |used| == |p.bufs| == |rings| == NUM_SOCKETS_MAX
    ensures WellFormed(table) && Flushable(table, used) && AllEmpty(p.bufs) ==>
              AllEmpty(RxPass(table, used, p, rings, burst).0.bufs)
  {
    if WellFormed(table) && Flushable(table, used) && AllEmpty(p.bufs) {
      PassEmpties(table, used, p, rings, burst);
    }
  }

  lemma FrameLeaves(table: Table, used: seq<bool>) returns (frame: RxFrame, k: nat)
    requires WellFormed(table) && |used| == NUM_SOCKETS_MAX && !Flushable(table, used)
    ensures k < NUM_SOCKETS_MAX && !used[k] && FrameHits(table, frame, k) >= 1
  {
    var p, i: nat :| 0 <= p < |table| && i < |table[p]| && CanReceive(table[p], i) && !used[SlotIndex(table[p][i].sockfd)];
    var dstIp := ReceivingHits(table[p], i);
    var port: uint16 := p;
    frame, k := RxFrame(0, Udp(0, port, dstIp)), SlotIndex(table[p][i].sockfd);
  }

  /** Empty buffers are empty again after a pass, whatever it receives, exactly if every entry that
      gets packets is served by a slot in use. */
  lemma EmptyAgainExactly(table: Table, used: seq<bool>, p: Poller, rings: Buffers)
    requires WellFormed(table) && |used| == |p.bufs| == |rings| == NUM_SOCKETS_MAX && AllEmpty(p.bufs)
    ensures (forall burst: seq<RxFrame> :: |burst| <= BURST_SIZE ==>
               AllEmpty(RxPass(table, used, p, rings, burst).0.bufs)) <==> Flushable(table, used)
  {
    if Flushable(table, used) {
      forall burst: seq<RxFrame> | |burst| <= BURST_SIZE
        ensures AllEmpty(RxPass(table, used, p, rings, burst).0.bufs)
      {
        PassEmpties(table, used, p, rings, burst);
      }
    } else {
      var frame, k := FrameLeaves(table, used);
      var burst := Repeat(frame, 1);
      RepeatHits(table, frame, 1, k, 1);
      BufferGrows(table, used, p, rings, burst, k);
      assert !AllEmpty(RxPass(table, used, p, rings, burst).0.bufs);
    }
  }

  // Some pass of a row of passes overflows. The sockets stay as they are in between.
  ghost predicate SomeOverflow(table: Table, used: seq<bool>, p: Poller, rings: Buffers, bursts: seq<seq<RxFrame>>)
    requires |table| == UDP_MAX_PORT && |used| == |p.bufs| == |rings| == NUM_SOCKETS_MAX
    decreases |bursts|
  {
    bursts != [] &&
    (|| Overflow(table, p, bursts[0])
     || var (q, rs) := RxPass(table, used, p, rings, bursts[0]);
        SomeOverflow(table, used, q, rs, bursts[1..]))
  }

  ghost predicate BurstsFit(bursts: seq<seq<RxFrame>>) {
    forall i :: 0 <= i < |bursts| ==> |bursts[i]| <= BURST_SIZE
  }

  /** However long the poller runs and whatever it receives, no buffer overflows. */
  ghost predicate NeverOverflows(table: Table, used: seq<bool>, p: Poller, rings: Buffers)
    requires |table| == UDP_MAX_PORT && |used| == |p.bufs| == |rings| == NUM_SOCKETS_MAX
  {
    forall bursts: seq<seq<RxFrame>> :: BurstsFit(bursts) ==> !SomeOverflow(table, used, p, rings, bursts)
  }

  lemma NoOverflow(table: Table, p: Poller, burst: seq<RxFrame>)
    requires WellFormed(table) && |p.bufs| == NUM_SOCKETS_MAX && AllEmpty(p.bufs)
    requires OneSlotEach(table) && |burst| <= BURST_SIZE
    ensures !Overflow(table, p, burst)
  {
    HitsOnceExactly(table);
    forall k: nat | k < NUM_SOCKETS_MAX
      ensures |SwitchBurst(table, p, burst).bufs[k]| <= EXCH_BUF_SIZE
    {
      BurstFillsBuffers(table, p, burst, k);
      BurstBound(table, burst, k);
    }
  }

  lemma {:induction false} SafePasses(table: Table, used: seq<bool>, p: Poller, rings: Buffers, bursts: seq<seq<RxFrame>>)
    requires WellFormed(table) && |used| == |p.bufs| == |rings| == NUM_SOCKETS_MAX && AllEmpty(p.bufs)
    requires OneSlotEach(table) && Flushable(table, used) && BurstsFit(bursts)
    ensures !SomeOverflow(table, used, p, rings, bursts)
    decreases |bursts|
  {
    if bursts != [] {
      var (q, rs) := RxPass(table, used, p, rings, bursts[0]);
      NoOverflow(table, p, bursts[0]);
      PassEmpties(table, used, p, rings, bursts[0]);
      SafePasses(table, used, q, rs, bursts[1..]);
    }
  }

  lemma SharedSlotOverflows(table: Table, used: seq<bool>, p: Poller, rings: Buffers)
    requires WellFormed(table) && |used| == |p.bufs| == |rings| == NUM_SOCKETS_MAX && AllEmpty(p.bufs)
    requires !OneSlotEach(table)
    ensures !NeverOverflows(table, used, p, rings)
  {
    var port, i: nat, j: nat :| 0 <= port < |table| && i < j < |table[port]| && Meet(table[port], i, j) &&
      SlotIndex(table[port][i].sockfd) == SlotIndex(table[port][j].sockfd);
    var dstIp, k := MeetingHitsTwice(table[port], i, j);
    var frame := RxFrame(0, Udp(0, port, dstIp));
    var burst := Repeat(frame, BURST_SIZE);
    RepeatHits(table, frame, BURST_SIZE, k, 2);
    BurstFillsBuffers(table, p, burst, k);
    assert Overflow(table, p, [burst][0]);
    assert SomeOverflow(table, used, p, rings, [burst]) && BurstsFit([burst]);
  }

  lemma UnusedSlotOverflows(table: Table, used: seq<bool>, p: Poller, rings: Buffers)
    requires WellFormed(table) && |used| == |p.bufs| == |rings| == NUM_SOCKETS_MAX
    requires !Flushable(table, used)
    ensures !NeverOverflows(table, used, p, rings)
  {
    var frame, k := FrameLeaves(table, used);
    var first, second := Repeat(frame, BURST_SIZE), Repeat(frame, 1);
    var bursts := [first, second];
    RepeatHits(table, frame, BURST_SIZE, k, 1);
    RepeatHits(table, frame, 1, k, 1);
    var (q, rs) := RxPass(table, used, p, rings, first);
    BufferGrows(table, used, p, rings, first, k);
    BufferGrows(table, used, q, rs, second, k);
    assert Overflow(table, q, [second][0]);
    assert SomeOverflow(table, used, q, rs, [second]);
    assert bursts[1..] == [second];
    assert SomeOverflow(table, used, p, rings, bursts) && BurstsFit(bursts);
  }

  /** The receive buffers never overflow, in any number of passes over any bursts, exactly if no two
      receivers of one packet are served by the same slot and every receiver is served by a slot
      that is in use. */
  lemma OverflowExactly(table: Table, used: seq<bool>, p: Poller, rings: Buffers)
    requires WellFormed(table) && |used| == |p.bufs| == |rings| == NUM_SOCKETS_MAX && AllEmpty(p.bufs)
    ensures NeverOverflows(table, used, p, rings) <==> OneSlotEach(table) && Flushable(table, used)
  {
    if !OneSlotEach(table) {
      SharedSlotOverflows(table, used, p, rings);
    } else if !Flushable(table, used) {
      UnusedSlotOverflows(table, used, p, rings);
    } else {
      forall bursts: seq<seq<RxFrame>> | BurstsFit(bursts)
        ensures !SomeOverflow(table, used, p, rings, bursts)
      {
        SafePasses(table, used, p, rings, bursts);
      }
    }
  }

  // Every descriptor fits the 8-bit slot index.
  ghost predicate SmallSockets(table: Table) {
    forall p, i :: 0 <= p < |table| && 0 <= i < |table[p]| ==> table[p][i].sockfd < 256
  }

  /** Descriptors below 256 share no slot. */
  lemma SmallSocketsShareNoSlot(table: Table)
    requires WellFormed(table) && SmallSockets(table)
    ensures OneSlotEach(table)
  {
    forall p, i: nat, j: nat | 0 <= p < |table| && i < j < |table[p]| && Meet(table[p], i, j)
      ensures SlotIndex(table[p][i].sockfd) != SlotIndex(table[p][j].sockfd)
    {
      assert DistinctSockets(table[p]);
    }
  }
}
