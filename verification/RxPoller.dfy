/** The receive side of the poller as the program carries it out (udpdk_poller.c): the per-slot
    buffers and rings, the scan of the port's list, and the passes over a burst. */
module RxPollers {
  import opened Constants
  import opened Sequences
  import opened Shmalloc
  import opened LinkedList
  import opened Bindings
  import opened PortTables
  import opened BindTables
  import opened Datagrams
  import opened Delivery
  import opened Overflows

  /** The receive buffer of one slot: struct exch_slot without its rings. */
  datatype ExchBuffer = ExchBuffer(rxBuffer: seq<Ref>, rxCount: nat) {
    ghost predicate Ok() {
      |rxBuffer| == EXCH_BUF_SIZE && rxCount <= EXCH_BUF_SIZE
    }

    ghost function Contents(): seq<Ref> {
      if Ok() then rxBuffer[..rxCount] else []
    }
  }

  ghost function BufsOf(exch: seq<ExchBuffer>): (bufs: Buffers)
    ensures |bufs| == |exch|
    ensures forall k :: 0 <= k < |exch| ==> bufs[k] == exch[k].Contents()
  {
    seq(|exch|, k requires 0 <= k < |exch| => exch[k].Contents())
  }

  lemma BufsUpdate(exch: seq<ExchBuffer>, k: nat, b: ExchBuffer)
    requires k < |exch|
    ensures BufsOf(exch[k := b]) == BufsOf(exch)[k := b.Contents()]
  {
  }

  // Room for everything that is still to be queued.
  ghost predicate Room(bufs: Buffers, queued: seq<(nat, Ref)>) {
    forall k :: 0 <= k < |bufs| ==> |bufs[k]| + Hits(Sockets(queued), k) <= EXCH_BUF_SIZE
  }

  lemma PlaceLast(bufs: Buffers, queued: seq<(nat, Ref)>, s: nat, r: Ref)
    requires |bufs| == NUM_SOCKETS_MAX
    ensures Place(bufs, queued + [(s, r)]) ==
            Place(bufs, queued)[SlotIndex(s) := Place(bufs, queued)[SlotIndex(s)] + [r]]
    decreases |queued|
  {
    var all := queued + [(s, r)];
    if queued == [] {
      assert all[1..] == [];
    } else {
      var k := SlotIndex(queued[0].0);
      assert all[1..] == queued[1..] + [(s, r)];
      PlaceLast(bufs[k := bufs[k] + [queued[0].1]], queued[1..], s, r);
    }
  }

  lemma RoomAfter(bufs: Buffers, s: nat, r: Ref, queued: seq<(nat, Ref)>)
    requires |bufs| == NUM_SOCKETS_MAX && Room(bufs, [(s, r)] + queued)
    ensures Room(bufs[SlotIndex(s) := bufs[SlotIndex(s)] + [r]], queued)
    ensures |bufs[SlotIndex(s)]| < EXCH_BUF_SIZE
  {
    assert ([(s, r)] + queued)[1..] == queued;
    forall k | 0 <= k < |bufs|
      ensures Hits(Sockets([(s, r)] + queued), k) == (if SlotIndex(s) == k then 1 else 0) + Hits(Sockets(queued), k)
    {
      HitsCons(s, Sockets(queued), k);
    }
  }

  /** A burst that overflows no buffer leaves room for each of its frames in turn. */
  lemma RoomForNext(table: Table, p: Poller, burst: seq<RxFrame>, j: nat)
    requires |table| == UDP_MAX_PORT && |p.bufs| == NUM_SOCKETS_MAX && j < |burst|
    requires !Overflow(table, p, burst)
    ensures var mid := SwitchBurst(table, p, burst[..j]);
            Room(mid.bufs, Switch(table, burst[j], mid.next).queued)
  {
    var mid := SwitchBurst(table, p, burst[..j]);
    forall k: nat | k < NUM_SOCKETS_MAX
      ensures |mid.bufs[k]| + Hits(Sockets(Switch(table, burst[j], mid.next).queued), k) <= EXCH_BUF_SIZE
    {
      BurstFillsBuffers(table, p, burst[..j], k);
      BurstFillsBuffers(table, p, burst, k);
      DisposalHits(table, burst[j], mid.next, k);
      PrefixHits(table, burst, j + 1, k);
      BurstHitsLast(table, burst[..j + 1], k);
      assert burst[..j + 1][..j] == burst[..j];
    }
  }

  class RxPoller {
    const btable: BindTable
    const exch: array<ExchBuffer>
    var rings: Buffers  // the receive rings
    var next: Ref       // the number of the next clone
    ghost var freed: seq<Ref>
    ghost var lost: seq<Ref>

    /** setup_exch_zone: zeroed buffers; `next` numbers the first clone. */
    constructor (btable: BindTable, next: Ref)
      ensures this.btable == btable && fresh(exch) && BuffersOk()
      ensures |rings| == NUM_SOCKETS_MAX && this.next == next
      ensures forall k :: 0 <= k < NUM_SOCKETS_MAX ==> State().bufs[k] == [] && rings[k] == []
    {
      this.btable, this.next := btable, next;
      exch := new ExchBuffer[NUM_SOCKETS_MAX](_ => ExchBuffer(seq(EXCH_BUF_SIZE, _ => 0), 0));
      rings := seq(NUM_SOCKETS_MAX, _ => []);
      freed, lost := [], [];
    }

    ghost predicate BuffersOk()
      reads exch
    {
      exch.Length == NUM_SOCKETS_MAX && forall k :: 0 <= k < exch.Length ==> exch[k].Ok()
    }

    // The abstract state.
    ghost function State(): Poller
      reads this, exch
    {
      Poller(BufsOf(exch[..]), freed, lost, next)
    }

    // enqueue_rx_packet: the slot index is cut to 8 bits.
    method Enqueue(sockfd: nat, m: Ref)
      requires BuffersOk() && |State().bufs[SlotIndex(sockfd)]| < EXCH_BUF_SIZE
      modifies exch
      ensures BuffersOk()
      ensures State() == old(State()).(bufs := old(State()).bufs[SlotIndex(sockfd) := old(State()).bufs[SlotIndex(sockfd)] + [m]])
    {
      var k := SlotIndex(sockfd);
      ghost var before := exch[..];
      var b := exch[k];
      assert b.Contents() == b.rxBuffer[..b.rxCount];
      exch[k] := ExchBuffer(b.rxBuffer[b.rxCount := m], b.rxCount + 1);
      assert exch[..] == before[k := exch[k]];
      BufsUpdate(before, k, exch[k]);
      assert b.rxBuffer[b.rxCount := m][..b.rxCount + 1] == b.rxBuffer[..b.rxCount] + [m];
    }

    // flush_rx_queue
    method Flush(k: nat)
      requires BuffersOk() && |rings| == NUM_SOCKETS_MAX && k < NUM_SOCKETS_MAX
      modifies this`rings, this`freed, exch
      ensures BuffersOk() && |rings| == NUM_SOCKETS_MAX
      ensures (State(), rings) == FlushSlot(old(State()), old(rings), k)
    {
      ghost var before, packets := exch[..], State().bufs[k];
      var b := exch[k];
      if b.rxCount == 0 {
        assert packets == [] && BufsOf(before)[k := []] == BufsOf(before);
        assert rings[k] + [] == rings[k] && freed + [] == freed && rings[k := rings[k]] == rings;
        return;
      }
      if |rings[k]| + b.rxCount <= RING_CAPACITY {
        rings := rings[k := rings[k] + b.rxBuffer[..b.rxCount]];
        assert freed + [] == freed;
      } else {
        assert rings[k := rings[k]] == rings;
        freed := freed + b.rxBuffer[..b.rxCount];
      }
      exch[k] := b.(rxCount := 0);
      assert exch[..] == before[k := exch[k]];
      BufsUpdate(before, k, exch[k]);
    }

    // The loop over the bindings of a port: `k` nodes of the list are done and `done` is queued.
    ghost predicate Halfway(start: Poller, bound: Bound, dstIp: nat, m0: Ref, k: nat, done: seq<(nat, Ref)>, m: Ref)
      requires |start.bufs| == NUM_SOCKETS_MAX
      reads this, exch
    {
      && k <= |bound| && BuffersOk()
      && var all, rest := Scan(bound, dstIp, m0, start.next), Scan(bound[k..], dstIp, m, next);
         && all == rest.(queued := done + rest.queued)
         && State().bufs == Place(start.bufs, done) && Room(State().bufs, rest.queued)
         && freed == start.freed && lost == start.lost
    }

    // One matching binding without a reuse option: the packet is handed over for good.
    method HandOver(ghost start: Poller, ghost bound: Bound, dstIp: nat, ghost m0: Ref, ghost k: nat,
        ghost done: seq<(nat, Ref)>, m: Ref, b: Binding)
      requires |start.bufs| == NUM_SOCKETS_MAX && Halfway(start, bound, dstIp, m0, k, done, m)
      requires k < |bound| && bound[k] == b && Matches(b, dstIp) && !b.Reuses()
      modifies exch
      ensures BuffersOk() && Scan(bound, dstIp, m0, start.next) == Outcome(done + [(b.sockfd, m)], m, next, true)
      ensures State() == start.(bufs := Place(start.bufs, done + [(b.sockfd, m)]), next := next)
    {
      assert Scan(bound[k..], dstIp, m, next).queued == [(b.sockfd, m)] + [];
      RoomAfter(State().bufs, b.sockfd, m, []);
      PlaceLast(start.bufs, done, b.sockfd, m);
      Enqueue(b.sockfd, m);
    }

    // One matching binding with a reuse option: the packet is handed over and a clone is made.
    method HandOverAndClone(ghost start: Poller, ghost bound: Bound, dstIp: nat, ghost m0: Ref, ghost k: nat,
        ghost done: seq<(nat, Ref)>, m: Ref, b: Binding) returns (clone: Ref)
      requires |start.bufs| == NUM_SOCKETS_MAX && Halfway(start, bound, dstIp, m0, k, done, m)
      requires k < |bound| && bound[k] == b && Matches(b, dstIp) && b.Reuses()
      modifies exch, this`next
      ensures Halfway(start, bound, dstIp, m0, k + 1, done + [(b.sockfd, m)], clone)
    {
      assert bound[k..][1..] == bound[k + 1..];
      ghost var rest := Scan(bound[k + 1..], dstIp, next, next + 1);
      assert Scan(bound[k..], dstIp, m, next) == rest.(queued := [(b.sockfd, m)] + rest.queued);
      assert done + ([(b.sockfd, m)] + rest.queued) == (done + [(b.sockfd, m)]) + rest.queued;
      RoomAfter(State().bufs, b.sockfd, m, rest.queued);
      PlaceLast(start.bufs, done, b.sockfd, m);
      Enqueue(b.sockfd, m);
      clone := next;
      next := next + 1;
    }

    // A binding that does not match changes nothing.
    lemma PassOver(start: Poller, bound: Bound, dstIp: nat, m0: Ref, k: nat, done: seq<(nat, Ref)>, m: Ref)
      requires |start.bufs| == NUM_SOCKETS_MAX && Halfway(start, bound, dstIp, m0, k, done, m)
      requires k < |bound| && !Matches(bound[k], dstIp)
      ensures Halfway(start, bound, dstIp, m0, k + 1, done, m)
    {
      assert bound[k..][1..] == bound[k + 1..];
    }

    // The body of the loop: `last` says that the packet was handed over for good.
    method SwitchNode(ghost start: Poller, ghost bound: Bound, dstIp: nat, ghost m0: Ref, ghost k: nat,
        ghost done: seq<(nat, Ref)>, m: Ref, b: Binding)
        returns (last: bool, left: Ref, ghost queued: seq<(nat, Ref)>)
      requires |start.bufs| == NUM_SOCKETS_MAX && Halfway(start, bound, dstIp, m0, k, done, m)
      requires k < |bound| && bound[k] == b
      modifies exch, this`next
      ensures !last ==> Halfway(start, bound, dstIp, m0, k + 1, queued, left)
      ensures last ==> BuffersOk() && Scan(bound, dstIp, m0, start.next) == Outcome(queued, left, next, true)
      ensures last ==> State() == start.(bufs := Place(start.bufs, queued), next := next)
    {
      last, left, queued := false, m, done;
      if Matches(b, dstIp) {
        queued := done + [(b.sockfd, m)];
        if b.Reuses() {
          left := HandOverAndClone(start, bound, dstIp, m0, k, done, m, b);
        } else {
          HandOver(start, bound, dstIp, m0, k, done, m, b);
          last := true;
        }
      } else {
        PassOver(start, bound, dstIp, m0, k, done, m);
      }
    }

    // The end of the list: what is left over is freed.
    method FreeLast(ghost start: Poller, ghost bound: Bound, dstIp: nat, ghost m0: Ref, ghost done: seq<(nat, Ref)>, m: Ref)
      requires |start.bufs| == NUM_SOCKETS_MAX && Halfway(start, bound, dstIp, m0, |bound|, done, m)
      modifies this`freed
      ensures BuffersOk() && Scan(bound, dstIp, m0, start.next) == Outcome(done, m, next, false)
      ensures State() == start.(bufs := Place(start.bufs, done), freed := start.freed + [m], next := next)
    {
      assert bound[|bound|..] == [] && done + [] == done;
      freed := freed + [m];
    }

    // The loop of reassemble, with the free at its end.
    method SwitchScan(it: ListIterator<BindInfo>, ghost nodes: seq<Node>, ghost bound: Bound, dstIp: nat, whole: Ref)
      requires Linked(nodes) && it.direction == LIST_HEAD && it.OnPath(nodes, 0) && Carries(nodes, bound)
      requires BuffersOk() && Room(State().bufs, Scan(bound, dstIp, whole, next).queued)
      modifies it, exch, this`next, this`freed
      ensures BuffersOk()
      ensures var o := Scan(bound, dstIp, whole, old(next));
              State() == old(Poller(Place(State().bufs, o.queued), freed, lost, next))
                         .(freed := old(freed) + (if o.deliveredLast then [] else [o.m]), next := o.next)
    {
      ghost var start := State();
      ghost var k: nat, done: seq<(nat, Ref)> := 0, [];
      var m := whole;
      assert bound[0..] == bound && [] + Scan(bound, dstIp, whole, next).queued == Scan(bound, dstIp, whole, next).queued;
      while true
        invariant k <= |nodes| && it.OnPath(nodes, k)
        invariant Halfway(start, bound, dstIp, whole, k, done, m)
        decreases |nodes| - k
      {
        var node := it.Next(nodes, k);
        if node == null {
          FreeLast(start, bound, dstIp, whole, done, m);
          return;
        }
        var last;
        last, m, done := SwitchNode(start, bound, dstIp, whole, k, done, m, node.val.info);
        if last {
          return;
        }
        k := k + 1;
      }
    }

    ghost predicate Valid()
      reads this, exch, btable.ports, btable.ports.slots, btable.ports.lists, btable.ports.nodes, btable.Pools()
    {
      && btable.Valid() && BuffersOk() && |rings| == NUM_SOCKETS_MAX
      && btable.Outside(this) && btable.Outside(exch)
      && (this as object) !in btable.Pools() && (exch as object) !in btable.Pools()
    }

    /** reassemble: switch one frame to the sockets of its port. The early returns leave the frame
        behind without freeing it. */
    method Reassemble(frame: RxFrame)
      requires Valid() && Room(State().bufs, Switch(btable.Table(), frame, next).queued)
      modifies this`next, this`freed, this`lost, exch, btable.iterAlloc
      ensures Valid() && btable.Table() == old(btable.Table())
      ensures State() == SwitchOne(btable.Table(), old(State()), frame)
    {
      match frame.class_
      case NotIpv4 => Drop([frame.ref]);
      case Incomplete => Drop([]);
      case NotUdp(whole) => Drop([whole]);
      case Udp(whole, dstPort, dstIp) => Dispatch(frame, whole, dstPort, dstIp);
    }

    ghost method Drop(refs: seq<Ref>)
      requires BuffersOk()
      modifies this`lost
      ensures State() == old(State()).(lost := old(lost) + refs)
      ensures State().freed == old(freed) + [] && State().bufs == Place(old(State()).bufs, [])
    {
      lost := lost + refs;
    }

    // L4 switching of a UDP datagram.
    method Dispatch(ghost frame: RxFrame, whole: Ref, dstPort: uint16, dstIp: uint32)
      requires Valid() && frame.class_ == Udp(whole, dstPort, dstIp)
      requires Room(State().bufs, Switch(btable.Table(), frame, next).queued)
      modifies this`next, this`freed, this`lost, exch, btable.iterAlloc
      ensures Valid() && btable.Table() == old(btable.Table())
      ensures State() == SwitchOne(btable.Table(), old(State()), frame)
    {
      assert btable.ports.PortOk(dstPort);
      var binds := btable.ports.slots[dstPort];  // btable_get_bindings
      if binds == null {
        Drop([whole]);
        return;
      }
      SwitchList(binds, btable.ports.table[dstPort], dstIp, whole);
      assert lost + [] == lost;
    }

    method SwitchList(binds: List<BindInfo>, ghost bound: Bound, dstIp: nat, whole: Ref)
      requires binds.Valid() && Carries(binds.nodes, bound)
      requires btable.iterAlloc.Valid() && btable.iterAlloc.live == {} && btable.iterAlloc.size > 0
      requires BuffersOk() && Room(State().bufs, Scan(bound, dstIp, whole, next).queued)
      modifies this`next, this`freed, exch, btable.iterAlloc
      ensures BuffersOk() && btable.iterAlloc.Valid() && btable.iterAlloc.live == {}
      ensures var o := Scan(bound, dstIp, whole, old(next));
              State() == old(Poller(Place(State().bufs, o.queued), freed, lost, next))
                         .(freed := old(freed) + (if o.deliveredLast then [] else [o.m]), next := o.next)
    {
      ghost var nodes := binds.nodes;
      var it := IteratorNew(binds, LIST_HEAD, btable.iterAlloc);
      SwitchScan(it, nodes, bound, dstIp, whole);
      it.Destroy(btable.iterAlloc);
    }

    /** The RX half of a round of poller_body, for the frames of one burst: each is switched exactly
        once, in order, and then the buffers of the slots in use are flushed. The burst must not write
        past the end of a buffer: OverflowExactly says when that is certain. As long as every receiver
        is served by a slot in use, the buffers are as empty after the pass as they were before. */
    method Pass(burst: seq<RxFrame>, used: seq<bool>)
      requires Valid() && |used| == NUM_SOCKETS_MAX
      requires !Overflow(btable.Table(), State(), burst)
      modifies this`next, this`freed, this`lost, this`rings, exch, btable.iterAlloc
      ensures Valid() && btable.Table() == old(btable.Table())
      ensures (State(), rings) == RxPass(btable.Table(), used, old(State()), old(rings), burst)
      ensures WellFormed(btable.Table()) && Flushable(btable.Table(), used) && AllEmpty(old(State()).bufs) ==>
                AllEmpty(State().bufs)
    {
      ghost var start, before := State(), rings;
      if |burst| > 0 {
        SwitchAll(burst);
        FlushUsed(used);
      }
      EmptyAgain(btable.Table(), used, start, before, burst);
    }

    method SwitchAll(burst: seq<RxFrame>)
      requires Valid() && !Overflow(btable.Table(), State(), burst)
      modifies this`next, this`freed, this`lost, exch, btable.iterAlloc
      ensures Valid() && btable.Table() == old(btable.Table())
      ensures State() == SwitchBurst(btable.Table(), old(State()), burst)
    {
      ghost var start := State();
      assert burst[..0] == [];
      // the first frames, while later ones are prefetched, and then the others
      var j := SwitchUpTo(btable.Table(), start, burst, 0, |burst| - PREFETCH_OFFSET);
      j := SwitchUpTo(btable.Table(), start, burst, j, |burst|);
      assert burst[..j] == burst;
    }

    // The first j frames of the burst are switched.
    ghost predicate Switched(table: Table, start: Poller, burst: seq<RxFrame>, j: nat)
      reads this, exch, btable.ports, btable.ports.slots, btable.ports.lists, btable.ports.nodes, btable.Pools()
    {
      && Valid() && btable.Table() == table && |table| == UDP_MAX_PORT && |start.bufs| == NUM_SOCKETS_MAX
      && j <= |burst| && State() == SwitchBurst(table, start, burst[..j])
    }

    ghost predicate StartsSafely(table: Table, start: Poller, burst: seq<RxFrame>) {
      |table| == UDP_MAX_PORT && |start.bufs| == NUM_SOCKETS_MAX && !Overflow(table, start, burst)
    }

    // One of the two loops over the burst.
    method SwitchUpTo(ghost table: Table, ghost start: Poller, burst: seq<RxFrame>, from: nat, to: int) returns (j: nat)
      requires StartsSafely(table, start, burst) && Switched(table, start, burst, from) && to <= |burst|
      modifies this`next, this`freed, this`lost, exch, btable.iterAlloc
      ensures j == (if from < to then to else from)
      ensures Switched(table, start, burst, j)
    {
      j := from;
      while j < to
        invariant from <= j <= |burst| && (from < to ==> j <= to) && (to <= from ==> j == from)
        invariant Switched(table, start, burst, j)
      {
        SwitchNext(table, start, burst, j);
        j := j + 1;
      }
    }

    method SwitchNext(ghost table: Table, ghost start: Poller, burst: seq<RxFrame>, j: nat)
      requires StartsSafely(table, start, burst) && Switched(table, start, burst, j) && j < |burst|
      modifies this`next, this`freed, this`lost, exch, btable.iterAlloc
      ensures Switched(table, start, burst, j + 1)
    {
      RoomForNext(table, start, burst, j);
      assert burst[..j + 1][..j] == burst[..j];
      Reassemble(burst[j]);
    }

    method FlushUsed(used: seq<bool>)
      requires BuffersOk() && |rings| == |used| == NUM_SOCKETS_MAX
      modifies this`rings, this`freed, exch
      ensures BuffersOk() && |rings| == NUM_SOCKETS_MAX
      ensures (State(), rings) == FlushBelow(used, old(State()), old(rings), |used|)
    {
      for i := 0 to |used|
        invariant BuffersOk() && |rings| == NUM_SOCKETS_MAX
        invariant (State(), rings) == FlushBelow(used, old(State()), old(rings), i)
      {
        if used[i] {
          Flush(i);
        }
      }
    }
  }
}
