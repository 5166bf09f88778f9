/** The application and the poller as one machine: calls, receive passes and transmit passes in any
    order, on the exchange zone, the rings and the receive buffers that survive from pass to pass. */
module Hosts {
  import opened Constants
  import opened Sequences
  import opened Bindings
  import opened Datagrams
  import opened Engines
  import opened CleanRings
  import D = Delivery
  import O = Overflows

  // A received frame, with the datagram that it is or completes.
  datatype Arrival = Arrival(frame: D.RxFrame, m: Mbuf)

  // The engine, and what is in the receive buffers of the poller.
  datatype Host = Host(e: Engine, bufs: seq<Ring>)

  predicate HostShape(h: Host) {
    Shape(h.e) && |h.bufs| == NUM_SOCKETS_MAX
  }

  function InitialHost(): (h: Host)
    ensures HostShape(h)
  {
    Host(InitialEngine(), seq(NUM_SOCKETS_MAX, _ => []))
  }

  function UsedFlags(slots: seq<Slot>): (used: seq<bool>)
    ensures |used| == |slots| && forall s :: 0 <= s < |slots| ==> used[s] == slots[s].used
  {
    seq(|slots|, s requires 0 <= s < |slots| => slots[s].used)
  }

  // ---------------------------------------------------------------- a receive pass

  function Same(m: Mbuf, n: nat): (r: Ring)
    ensures |r| == n && forall i :: 0 <= i < n ==> r[i] == m
  {
    seq(n, _ => m)
  }

  // What a burst puts into the buffer of slot k: one copy of a datagram for every hit.
  function Queued(table: Table, burst: seq<Arrival>, k: nat): Ring
    requires |table| == UDP_MAX_PORT
  {
    if burst == [] then []
    else Queued(table, burst[..|burst| - 1], k) +
         Same(burst[|burst| - 1].m, D.FrameHits(table, burst[|burst| - 1].frame, k))
  }

  function FramesOf(burst: seq<Arrival>): (frames: seq<D.RxFrame>)
    ensures |frames| == |burst| && forall i :: 0 <= i < |burst| ==> frames[i] == burst[i].frame
  {
    seq(|burst|, i requires 0 <= i < |burst| => burst[i].frame)
  }

  // The buffers before the flush.
  function InBuffers(h: Host, burst: seq<Arrival>): (bufs: seq<Ring>)
    requires HostShape(h)
    ensures |bufs| == NUM_SOCKETS_MAX
    ensures forall k :: 0 <= k < NUM_SOCKETS_MAX ==> bufs[k] == h.bufs[k] + Queued(h.e.table, burst, k)
  {
    seq(NUM_SOCKETS_MAX, k requires 0 <= k < NUM_SOCKETS_MAX => h.bufs[k] + Queued(h.e.table, burst, k))
  }

  // The rings of the slots in use after the given packets arrive, each all or nothing.
  function Arrived(e: Engine, packets: seq<Ring>): (rx: seq<Ring>)
    requires Shape(e) && |packets| == NUM_SOCKETS_MAX
    ensures |rx| == NUM_SOCKETS_MAX
    ensures forall k :: 0 <= k < NUM_SOCKETS_MAX ==>
              rx[k] == if e.slots[k].used then EnqueueBulk(e.rx[k], packets[k], RING_CAPACITY) else e.rx[k]
  {
    seq(NUM_SOCKETS_MAX, k requires 0 <= k < NUM_SOCKETS_MAX =>
      if e.slots[k].used then EnqueueBulk(e.rx[k], packets[k], RING_CAPACITY) else e.rx[k])
  }

  function Receive(h: Host, burst: seq<Arrival>): (r: Host)
    requires HostShape(h)
    ensures HostShape(r)
    ensures forall k :: 0 <= k < NUM_SOCKETS_MAX ==>
              r.bufs[k] == if h.e.slots[k].used && burst != [] then [] else h.bufs[k] + Queued(h.e.table, burst, k)
  {
    var waiting := InBuffers(h, burst);
    if burst == [] then h else Host(h.e.(rx := Arrived(h.e, waiting)),
         seq(NUM_SOCKETS_MAX, k requires 0 <= k < NUM_SOCKETS_MAX => if h.e.slots[k].used then [] else waiting[k]))
  }

  lemma {:induction false} QueuedCount(table: Table, burst: seq<Arrival>, k: nat)
    requires |table| == UDP_MAX_PORT
    ensures |Queued(table, burst, k)| == D.BurstHits(table, FramesOf(burst), k)
  {
    if burst != [] {
      var front := burst[..|burst| - 1];
      QueuedCount(table, front, k);
      D.BurstHitsLast(table, FramesOf(burst), k);
      assert FramesOf(burst)[..|burst| - 1] == FramesOf(front);
    }
  }

  // ---------------------------------------------------------------- the pass on packet buffers

  function Map<T>(items: seq<T>, data: T -> Mbuf): (r: Ring)
    ensures |r| == |items|
    ensures forall i :: 0 <= i < |items| ==> r[i] == data(items[i])
  {
    seq(|items|, i requires 0 <= i < |items| => data(items[i]))
  }

  lemma MapEmpty<T>(data: T -> Mbuf)
    ensures Map<T>([], data) == []
  {
  }

  lemma MapAppend<T>(a: seq<T>, b: seq<T>, data: T -> Mbuf)
    ensures Map(a + b, data) == Map(a, data) + Map(b, data)
  {
  }

  // The datagram behind a buffer number: clones, numbered during the burst, share that of their
  // original.
  function Behind(table: Table, burst: seq<Arrival>, next: D.Ref, data: D.Ref -> Mbuf, r: D.Ref): Mbuf
    requires |table| == UDP_MAX_PORT
  {
    if burst == [] then data(r)
    else
      var front := burst[..|burst| - 1];
      if r >= D.Queued(table, FramesOf(front), next).1 then burst[|burst| - 1].m
      else Behind(table, front, next, data, r)
  }

  // The data behind all numbers after a burst.
  function After(table: Table, burst: seq<Arrival>, next: D.Ref, data: D.Ref -> Mbuf): D.Ref -> Mbuf
    requires |table| == UDP_MAX_PORT
  {
    (r: D.Ref) => Behind(table, burst, next, data, r)
  }

  // The data of the datagrams that the burst holds, under numbers that were given out before.
  ghost predicate Holds(burst: seq<Arrival>, next: D.Ref, data: D.Ref -> Mbuf) {
    forall i :: 0 <= i < |burst| ==>
      && D.HasNumberBelow(burst[i].frame, next)
      && (burst[i].frame.class_.Udp? ==> data(burst[i].frame.class_.whole) == burst[i].m)
  }

  lemma {:induction false} NextGrows(table: Table, burst: seq<D.RxFrame>, next: D.Ref)
    requires |table| == UDP_MAX_PORT && forall i :: 0 <= i < |burst| ==> D.HasNumberBelow(burst[i], next)
    ensures D.Queued(table, burst, next).1 >= next
  {
    if burst != [] {
      var front, last := burst[..|burst| - 1], burst[|burst| - 1];
      NextGrows(table, front, next);
      assert D.HasNumberBelow(last, next);
      D.SwitchConserves(table, last, D.Queued(table, front, next).1);
    }
  }

  lemma {:induction false} BehindOld(table: Table, burst: seq<Arrival>, next: D.Ref, data: D.Ref -> Mbuf, r: D.Ref)
    requires |table| == UDP_MAX_PORT && Holds(burst, next, data) && r < next
    ensures Behind(table, burst, next, data, r) == data(r)
  {
    if burst != [] {
      var front := burst[..|burst| - 1];
      NextGrows(table, FramesOf(front), next);
      BehindOld(table, front, next, data, r);
    }
  }

  lemma {:induction false} BehindAllOld(table: Table, burst: seq<Arrival>, next: D.Ref, data: D.Ref -> Mbuf, refs: seq<D.Ref>)
    requires |table| == UDP_MAX_PORT && Holds(burst, next, data)
    requires forall i :: 0 <= i < |refs| ==> refs[i] < next
    ensures Map(refs, After(table, burst, next, data)) == Map(refs, data)
  {
    forall i | 0 <= i < |refs|
      ensures Behind(table, burst, next, data, refs[i]) == data(refs[i])
    {
      BehindOld(table, burst, next, data, refs[i]);
    }
  }

  // Every number in a sequence of queued buffers is below `next`.
  ghost predicate AllBelow(queued: seq<(nat, D.Ref)>, next: D.Ref) {
    forall i :: 0 <= i < |queued| ==> queued[i].1 < next
  }

  // Every buffer is the original or was numbered from `next` on.
  ghost predicate CopiesOf(queued: seq<(nat, D.Ref)>, whole: D.Ref, next: D.Ref, end: D.Ref) {
    forall i :: 0 <= i < |queued| ==> queued[i].1 == whole || next <= queued[i].1 < end
  }

  lemma {:induction false} ScanCopies(bound: Bound, dstIp: nat, m: D.Ref, next: D.Ref)
    ensures var o := D.Scan(bound, dstIp, m, next);
            CopiesOf(o.queued, m, next, o.next) && o.next >= next
  {
    if bound != [] {
      var rest := bound[1..];
      if !D.Matches(bound[0], dstIp) {
        ScanCopies(rest, dstIp, m, next);
      } else if bound[0].Reuses() {
        ScanCopies(rest, dstIp, next, next + 1);
      }
    }
  }

  lemma {:induction false} ForMember(queued: seq<(nat, D.Ref)>, k: nat, i: nat) returns (j: nat)
    requires i < |D.For(queued, k)|
    ensures j < |queued| && D.For(queued, k)[i] == queued[j].1
  {
    if D.SlotIndex(queued[0].0) == k {
      if i == 0 {
        j := 0;
      } else {
        j := ForMember(queued[1..], k, i - 1);
        j := j + 1;
      }
    } else {
      j := ForMember(queued[1..], k, i);
      j := j + 1;
    }
  }

  lemma SwitchNumbers(table: Table, frame: D.RxFrame, next: D.Ref)
    requires |table| == UDP_MAX_PORT && D.HasNumberBelow(frame, next)
    ensures var f := D.Switch(table, frame, next);
            && f.next >= next && AllBelow(f.queued, f.next)
            && (frame.class_.Udp? ==> CopiesOf(f.queued, frame.class_.whole, next, f.next))
            && (!frame.class_.Udp? ==> f.queued == [])
  {
    if frame.class_.Udp? {
      assert frame.class_.whole in D.HeldFor(frame);
      ScanCopies(table[frame.class_.dstPort], frame.class_.dstIp, frame.class_.whole, next);
    }
  }

  lemma {:induction false} QueuedBelow(table: Table, burst: seq<D.RxFrame>, next: D.Ref)
    requires |table| == UDP_MAX_PORT && forall i :: 0 <= i < |burst| ==> D.HasNumberBelow(burst[i], next)
    ensures AllBelow(D.Queued(table, burst, next).0, D.Queued(table, burst, next).1)
  {
    if burst != [] {
      var front, last := burst[..|burst| - 1], burst[|burst| - 1];
      QueuedBelow(table, front, next);
      NextGrows(table, front, next);
      assert D.HasNumberBelow(last, next);
      SwitchNumbers(table, last, D.Queued(table, front, next).1);
    }
  }

  // The copies of the last datagram of a burst.
  lemma LastBehind(table: Table, burst: seq<Arrival>, next: D.Ref, data: D.Ref -> Mbuf, k: nat)
    requires |table| == UDP_MAX_PORT && Holds(burst, next, data) && burst != []
    ensures var last, n := burst[|burst| - 1], D.Queued(table, FramesOf(burst[..|burst| - 1]), next).1;
            Map(D.For(D.Switch(table, last.frame, n).queued, k), After(table, burst, next, data)) ==
            Same(last.m, D.FrameHits(table, last.frame, k))
  {
    var front, last := burst[..|burst| - 1], burst[|burst| - 1];
    var n := D.Queued(table, FramesOf(front), next).1;
    var queued := D.Switch(table, last.frame, n).queued;
    NextGrows(table, FramesOf(front), next);
    SwitchNumbers(table, last.frame, n);
    D.ForCount(queued, k);
    D.DisposalHits(table, last.frame, n, k);
    forall i | 0 <= i < |D.For(queued, k)|
      ensures Behind(table, burst, next, data, D.For(queued, k)[i]) == last.m
    {
      var j := ForMember(queued, k, i);
      if queued[j].1 < n {
        assert last.frame.class_.whole in D.HeldFor(last.frame) && D.HasNumberBelow(last.frame, next);
        BehindOld(table, burst, next, data, last.frame.class_.whole);
      }
    }
  }

  // The copies of the earlier ones.
  lemma FrontBehind(table: Table, burst: seq<Arrival>, next: D.Ref, data: D.Ref -> Mbuf, k: nat)
    requires |table| == UDP_MAX_PORT && Holds(burst, next, data) && burst != []
    ensures var front := burst[..|burst| - 1];
            var refs := D.For(D.Queued(table, FramesOf(front), next).0, k);
            Map(refs, After(table, burst, next, data)) == Map(refs, After(table, front, next, data))
  {
    var front := burst[..|burst| - 1];
    var queued := D.Queued(table, FramesOf(front), next).0;
    QueuedBelow(table, FramesOf(front), next);
    forall i | 0 <= i < |D.For(queued, k)|
      ensures Behind(table, burst, next, data, D.For(queued, k)[i]) == Behind(table, front, next, data, D.For(queued, k)[i])
    {
      var j := ForMember(queued, k, i);
    }
  }

  lemma {:induction false} QueuedBehind(table: Table, burst: seq<Arrival>, next: D.Ref, data: D.Ref -> Mbuf, k: nat)
    requires |table| == UDP_MAX_PORT && Holds(burst, next, data)
    ensures Map(D.For(D.Queued(table, FramesOf(burst), next).0, k), After(table, burst, next, data)) ==
            Queued(table, burst, k)
  {
    if burst != [] {
      var front, last := burst[..|burst| - 1], burst[|burst| - 1];
      var frames := FramesOf(burst);
      assert frames[..|burst| - 1] == FramesOf(front) && frames[|burst| - 1] == last.frame;
      var (q, n) := D.Queued(table, FramesOf(front), next);
      var more := D.Switch(table, last.frame, n).queued;
      QueuedBehind(table, front, next, data, k);
      FrontBehind(table, burst, next, data, k);
      LastBehind(table, burst, next, data, k);
      D.ForAppend(q, more, k);
      MapAppend(D.For(q, k), D.For(more, k), After(table, burst, next, data));
    }
  }

  lemma MapEnqueue<T>(ring: seq<T>, items: seq<T>, data: T -> Mbuf)
    ensures Map(EnqueueBulk(ring, items, RING_CAPACITY), data) ==
            EnqueueBulk(Map(ring, data), Map(items, data), RING_CAPACITY)
  {
    MapAppend(ring, items, data);
  }

  /** The pass of the poller on packet buffers does this to the datagrams behind them, in every
      buffer and every ring: a clone has the data of its original. */
  lemma ReceiveIsPass(h: Host, p: D.Poller, rings: D.Buffers, burst: seq<Arrival>, data: D.Ref -> Mbuf, k: nat)
    requires HostShape(h) && |p.bufs| == |rings| == NUM_SOCKETS_MAX && k < NUM_SOCKETS_MAX
    requires Holds(burst, p.next, data)
    requires Map(p.bufs[k], data) == h.bufs[k] && Map(rings[k], data) == h.e.rx[k]
    requires forall i :: 0 <= i < |p.bufs[k]| ==> p.bufs[k][i] < p.next
    requires forall i :: 0 <= i < |rings[k]| ==> rings[k][i] < p.next
    ensures var (q, rs) := D.RxPass(h.e.table, UsedFlags(h.e.slots), p, rings, FramesOf(burst));
            var after := After(h.e.table, burst, p.next, data);
            && Map(q.bufs[k], after) == Receive(h, burst).bufs[k]
            && Map(rs[k], after) == Receive(h, burst).e.rx[k]
  {
    var after := After(h.e.table, burst, p.next, data);
    var queued := D.For(D.Queued(h.e.table, FramesOf(burst), p.next).0, k);
    D.PassFillsRings(h.e.table, UsedFlags(h.e.slots), p, rings, FramesOf(burst), k);
    QueuedBehind(h.e.table, burst, p.next, data, k);
    BehindAllOld(h.e.table, burst, p.next, data, p.bufs[k]);
    BehindAllOld(h.e.table, burst, p.next, data, rings[k]);
    MapAppend(p.bufs[k], queued, after);
    MapEnqueue(rings[k], p.bufs[k] + queued, after);
  }

  // ---------------------------------------------------------------- runs of the machine

  /** A call of the application, a receive pass with its burst, or a transmit pass with the number
      of packets that it takes from each ring. */
  datatype Event = Call(op: Op) | Receives(burst: seq<Arrival>) | Sends(taken: seq<nat>)

  predicate Possible(ev: Event) {
    match ev
    case Call(op) => Legal(op) && !op.OpArrive? && !op.OpDrain?
    case Receives(burst) => |burst| <= BURST_SIZE
    case Sends(taken) => |taken| == NUM_SOCKETS_MAX
  }

  ghost predicate AllPossible(events: seq<Event>) {
    forall i :: 0 <= i < |events| ==> Possible(events[i])
  }

  // The rings of the slots in use without the packets that are taken from their front.
  function Drained(e: Engine, taken: seq<nat>): (tx: seq<Ring>)
    requires Shape(e) && |taken| == NUM_SOCKETS_MAX
    ensures |tx| == NUM_SOCKETS_MAX
    ensures forall k :: 0 <= k < NUM_SOCKETS_MAX ==>
              tx[k] == if e.slots[k].used then e.tx[k][Min(taken[k], |e.tx[k]|)..] else e.tx[k]
  {
    seq(NUM_SOCKETS_MAX, k requires 0 <= k < NUM_SOCKETS_MAX =>
      if e.slots[k].used then e.tx[k][Min(taken[k], |e.tx[k]|)..] else e.tx[k])
  }

  ghost function Do(h: Host, ev: Event): (r: Host)
    requires HostShape(h) && Possible(ev)
    ensures HostShape(r)
  {
    match ev
    case Call(op) => h.(e := Step(h.e, op).0)
    case Receives(burst) => Receive(h, burst)
    case Sends(taken) => h.(e := h.e.(tx := Drained(h.e, taken)))
  }

  ghost function HostRun(h: Host, events: seq<Event>): (r: Host)
    requires HostShape(h) && AllPossible(events)
    ensures HostShape(r)
    decreases |events|
  {
    if events == [] then h else HostRun(Do(h, events[0]), events[1..])
  }

  // ---------------------------------------------------------------- as runs of the engine

  // One arrival for every slot below n that is in use.
  function ArriveOps(slots: seq<Slot>, packets: seq<Ring>, n: nat): (ops: seq<Op>)
    requires n <= |slots| == |packets| == NUM_SOCKETS_MAX
    ensures AllLegal(ops) && forall i :: 0 <= i < |ops| ==> ops[i].OpArrive?
  {
    if n == 0 then []
    else ArriveOps(slots, packets, n - 1) + if slots[n - 1].used then [OpArrive(n - 1, packets[n - 1])] else []
  }

  function DrainOps(slots: seq<Slot>, taken: seq<nat>, n: nat): (ops: seq<Op>)
    requires n <= |slots| == |taken| == NUM_SOCKETS_MAX
    ensures AllLegal(ops) && forall i :: 0 <= i < |ops| ==> ops[i].OpDrain?
  {
    if n == 0 then []
    else DrainOps(slots, taken, n - 1) + if slots[n - 1].used then [OpDrain(n - 1, taken[n - 1])] else []
  }

  // A prefix of `a` before the rest of `b`, extended by one element.
  lemma OneFurther<X>(a: seq<X>, b: seq<X>, n: nat)
    requires 0 < n <= |a| == |b|
    ensures a[..n] + b[n..] == (a[..n - 1] + b[n - 1..])[n - 1 := a[n - 1]]
    ensures (a[..n - 1] + b[n - 1..])[n - 1] == b[n - 1]
  {
  }

  lemma DrainIs(e: Engine, s: nat, n: nat)
    requires Shape(e) && s < NUM_SOCKETS_MAX
    ensures Step(e, OpDrain(s, n)).0 == e.(tx := e.tx[s := e.tx[s][Min(n, |e.tx[s]|)..]])
  {
    assert e.tx[s][|e.tx[s]|..] == [];
  }

  lemma {:induction false} ArriveOpsRun(e: Engine, packets: seq<Ring>, n: nat)
    requires Shape(e) && n <= |packets| == NUM_SOCKETS_MAX
    ensures var ops := ArriveOps(e.slots, packets, n);
            && Run(e, ops) == e.(rx := Arrived(e, packets)[..n] + e.rx[n..]) && UsedOnly(e, ops)
  {
    var ops := ArriveOps(e.slots, packets, n);
    if n == 0 {
      assert Arrived(e, packets)[..0] + e.rx[0..] == e.rx;
    } else {
      ArriveOpsRun(e, packets, n - 1);
      var front := ArriveOps(e.slots, packets, n - 1);
      var mid := Run(e, front);
      OneFurther(Arrived(e, packets), e.rx, n);
      if e.slots[n - 1].used {
        OneMore(e, front, OpArrive(n - 1, packets[n - 1]));
      } else {
        assert ops == front;
      }
    }
  }

  lemma {:induction false} DrainOpsRun(e: Engine, taken: seq<nat>, n: nat)
    requires Shape(e) && n <= |taken| == NUM_SOCKETS_MAX
    ensures var ops := DrainOps(e.slots, taken, n);
            && Run(e, ops) == e.(tx := Drained(e, taken)[..n] + e.tx[n..]) && UsedOnly(e, ops)
  {
    var ops := DrainOps(e.slots, taken, n);
    if n == 0 {
      assert Drained(e, taken)[..0] + e.tx[0..] == e.tx;
    } else {
      DrainOpsRun(e, taken, n - 1);
      var front := DrainOps(e.slots, taken, n - 1);
      var mid := Run(e, front);
      OneFurther(Drained(e, taken), e.tx, n);
      if e.slots[n - 1].used {
        DrainIs(mid, n - 1, taken[n - 1]);
        OneMore(e, front, OpDrain(n - 1, taken[n - 1]));
      } else {
        assert ops == front;
      }
    }
  }

  // One more step at the end of a run.
  lemma OneMore(e: Engine, ops: seq<Op>, op: Op)
    requires Shape(e) && AllLegal(ops) && Legal(op) && UsedOnly(e, ops) && ServesUsed(Run(e, ops), op)
    ensures AllLegal(ops + [op]) && Run(e, ops + [op]) == Step(Run(e, ops), op).0 && UsedOnly(e, ops + [op])
  {
    var mid := Run(e, ops);
    assert [op][1..] == [];
    assert Run(mid, [op]) == Run(Step(mid, op).0, []) == Step(mid, op).0;
    assert UsedOnly(Step(mid, op).0, []);
    RunAppend(e, ops, [op]);
    UsedOnlyAppend(e, ops, [op]);
  }

  // The steps of the engine that an event amounts to.
  function OpsOf(h: Host, ev: Event): (ops: seq<Op>)
    requires HostShape(h) && Possible(ev)
    ensures AllLegal(ops)
  {
    match ev
    case Call(op) => [op]
    case Receives(burst) => if burst == [] then [] else ArriveOps(h.e.slots, InBuffers(h, burst), NUM_SOCKETS_MAX)
    case Sends(taken) => DrainOps(h.e.slots, taken, NUM_SOCKETS_MAX)
  }

  lemma EventIsRun(h: Host, ev: Event)
    requires HostShape(h) && Possible(ev)
    ensures Do(h, ev).e == Run(h.e, OpsOf(h, ev)) && UsedOnly(h.e, OpsOf(h, ev))
  {
    match ev
    case Call(op) =>
      assert [op][1..] == [];
      assert Run(h.e, [op]) == Run(Step(h.e, op).0, []);
      assert UsedOnly(Step(h.e, op).0, []);
    case Receives(burst) =>
      ArriveOpsRun(h.e, InBuffers(h, burst), NUM_SOCKETS_MAX);
      var rx := Arrived(h.e, InBuffers(h, burst));
      assert rx[..NUM_SOCKETS_MAX] + h.e.rx[NUM_SOCKETS_MAX..] == rx;
    case Sends(taken) =>
      DrainOpsRun(h.e, taken, NUM_SOCKETS_MAX);
      var tx := Drained(h.e, taken);
      assert tx[..NUM_SOCKETS_MAX] + h.e.tx[NUM_SOCKETS_MAX..] == tx;
  }

  ghost function AllOps(h: Host, events: seq<Event>): (ops: seq<Op>)
    requires HostShape(h) && AllPossible(events)
    ensures AllLegal(ops)
    decreases |events|
  {
    if events == [] then [] else OpsOf(h, events[0]) + AllOps(Do(h, events[0]), events[1..])
  }

  /** A run of the machine is a run of the engine in which the poller touches the rings of slots in
      use only. So all that holds of runs of the engine holds here. */
  lemma {:induction false} HostRunIsRun(h: Host, events: seq<Event>)
    requires HostShape(h) && AllPossible(events)
    ensures HostRun(h, events).e == Run(h.e, AllOps(h, events)) && UsedOnly(h.e, AllOps(h, events))
    decreases |events|
  {
    if events != [] {
      var h1, rest := Do(h, events[0]), events[1..];
      EventIsRun(h, events[0]);
      HostRunIsRun(h1, rest);
      RunAppend(h.e, OpsOf(h, events[0]), AllOps(h1, rest));
      UsedOnlyAppend(h.e, OpsOf(h, events[0]), AllOps(h1, rest));
    }
  }

  lemma EventKeepsInv(h: Host, ev: Event)
    requires HostShape(h) && Possible(ev) && Inv(h.e)
    ensures Inv(Do(h, ev).e)
  {
    EventIsRun(h, ev);
    RunKeepsInv(h.e, OpsOf(h, ev));
  }

  /** The invariant of the engine holds after every run of the machine. */
  lemma HostRunKeepsInv(events: seq<Event>)
    requires AllPossible(events)
    ensures Inv(HostRun(InitialHost(), events).e)
  {
    InitialInv();
    HostRunIsRun(InitialHost(), events);
    RunKeepsInv(InitialEngine(), AllOps(InitialHost(), events));
  }

  // ---------------------------------------------------------------- no overflow in any run

  // No receiver shares a slot with another receiver of the packet, and all are served by slots in use.
  ghost predicate Safe(e: Engine)
    requires Shape(e)
  {
    O.OneSlotEach(e.table) && O.Flushable(e.table, UsedFlags(e.slots))
  }

  lemma InvWellFormed(e: Engine)
    requires Inv(e)
    ensures O.WellFormed(e.table)
  {
    forall p | 0 <= p < |e.table|
      ensures WellOrdered(e.table[p]) && DistinctSockets(e.table[p]) && O.RealAddresses(e.table[p])
    {
      assert PortAgrees(e.slots, e.table, p);
      forall i | 0 <= i < |e.table[p]|
        ensures e.table[p][i].ip < 0x1_0000_0000
      {
        assert EntryOk(e.slots, p, e.table[p][i]);
      }
    }
  }

  /** In every reachable state: with empty buffers, the poller can go on for ever without an
      overflow, as long as no call comes in between, exactly if the state is safe. */
  lemma OverflowInReachableState(e: Engine, p: D.Poller, rings: D.Buffers)
    requires Inv(e) && |p.bufs| == |rings| == NUM_SOCKETS_MAX && O.AllEmpty(p.bufs)
    ensures O.NeverOverflows(e.table, UsedFlags(e.slots), p, rings) <==> Safe(e)
  {
    InvWellFormed(e);
    O.OverflowExactly(e.table, UsedFlags(e.slots), p, rings);
  }

  ghost predicate NothingKept(h: Host) {
    forall k :: 0 <= k < |h.bufs| ==> h.bufs[k] == []
  }

  /** A burst writes past the end of some receive buffer. */
  ghost predicate Overflows(h: Host, burst: seq<Arrival>)
    requires HostShape(h)
  {
    exists k: nat :: k < NUM_SOCKETS_MAX && |InBuffers(h, burst)[k]| > EXCH_BUF_SIZE
  }

  lemma SafePass(h: Host, burst: seq<Arrival>)
    requires HostShape(h) && Inv(h.e) && NothingKept(h) && Safe(h.e) && |burst| <= BURST_SIZE
    ensures !Overflows(h, burst) && NothingKept(Receive(h, burst))
  {
    var table, frames := h.e.table, FramesOf(burst);
    InvWellFormed(h.e);
    O.HitsOnceExactly(table);
    forall k: nat | k < NUM_SOCKETS_MAX
      ensures |InBuffers(h, burst)[k]| <= EXCH_BUF_SIZE && Receive(h, burst).bufs[k] == []
    {
      QueuedCount(table, burst, k);
      O.BurstBound(table, frames, k);
      if !h.e.slots[k].used {
        O.NoBurstHits(table, UsedFlags(h.e.slots), frames, k);
      }
    }
  }

  /** In every reachable state: empty buffers are empty again after a pass, whatever it receives,
      exactly if every entry of the table that gets packets is served by a slot in use. */
  lemma EmptyAgainExactly(h: Host)
    requires HostShape(h) && Inv(h.e) && NothingKept(h)
    ensures (forall burst: seq<Arrival> :: |burst| <= BURST_SIZE ==> NothingKept(Receive(h, burst))) <==>
            O.Flushable(h.e.table, UsedFlags(h.e.slots))
  {
    var table, used := h.e.table, UsedFlags(h.e.slots);
    InvWellFormed(h.e);
    if O.Flushable(table, used) {
      forall burst: seq<Arrival>, k: nat | |burst| <= BURST_SIZE && k < NUM_SOCKETS_MAX
        ensures Receive(h, burst).bufs[k] == []
      {
        QueuedCount(table, burst, k);
        if !used[k] {
          O.NoBurstHits(table, used, FramesOf(burst), k);
        }
      }
    } else {
      var frame, k := O.FrameLeaves(table, used);
      var burst := [Arrival(frame, Mbuf(0, []))];
      assert burst[..0] == [];
      assert |Queued(table, burst, k)| == D.FrameHits(table, frame, k);
      assert Receive(h, burst).bufs[k] != [];
    }
  }

  ghost predicate SafeWhenReceiving(h: Host, events: seq<Event>)
    requires HostShape(h) && AllPossible(events)
    decreases |events|
  {
    events != [] ==> (events[0].Receives? ==> Safe(h.e)) && SafeWhenReceiving(Do(h, events[0]), events[1..])
  }

  ghost predicate SomePassOverflows(h: Host, events: seq<Event>)
    requires HostShape(h) && AllPossible(events)
    decreases |events|
  {
    events != [] &&
    ((events[0].Receives? && Overflows(h, events[0].burst)) || SomePassOverflows(Do(h, events[0]), events[1..]))
  }

  /** A run that is in a safe state whenever it receives never overflows, and no packet stays in a
      buffer from one pass to the next. */
  lemma {:induction false} SafeRun(h: Host, events: seq<Event>)
    requires HostShape(h) && Inv(h.e) && NothingKept(h) && AllPossible(events) && SafeWhenReceiving(h, events)
    ensures !SomePassOverflows(h, events) && NothingKept(HostRun(h, events))
    decreases |events|
  {
    if events != [] {
      EventKeepsInv(h, events[0]);
      if events[0].Receives? {
        SafePass(h, events[0].burst);
      }
      SafeRun(Do(h, events[0]), events[1..]);
    }
  }

  // How many sockets a run opens.
  ghost function HostOpens(h: Host, events: seq<Event>): nat
    requires HostShape(h) && AllPossible(events)
    decreases |events|
  {
    if events == [] then 0
    else (if events[0] == Call(OpSocket) && Step(h.e, OpSocket).1.Done? then 1 else 0)
         + HostOpens(Do(h, events[0]), events[1..])
  }

  // Only the slots below n are in use.
  ghost predicate UsedBelow(slots: seq<Slot>, n: nat) {
    forall i :: n <= i < |slots| ==> !slots[i].used
  }

  lemma EventUsesLowSlots(h: Host, ev: Event, n: nat)
    requires HostShape(h) && Possible(ev) && UsedBelow(h.e.slots, n)
    ensures UsedBelow(Do(h, ev).e.slots, n + if ev == Call(OpSocket) && Step(h.e, OpSocket).1.Done? then 1 else 0)
  {
    if ev == Call(OpSocket) && Step(h.e, OpSocket).1.Done? {
      assert n < NUM_SOCKETS_MAX ==> !h.e.slots[n].used;
      assert Socket(h.e).1.value <= n;
    }
  }

  lemma LowSlotsAreSafe(e: Engine)
    requires Inv(e) && UsedBelow(e.slots, 256)
    ensures Safe(e)
  {
    InvWellFormed(e);
    forall p, i | 0 <= p < |e.table| && 0 <= i < |e.table[p]|
      ensures e.table[p][i].sockfd < 256 && e.slots[e.table[p][i].sockfd].used
    {
      var b := e.table[p][i];
      assert PortAgrees(e.slots, e.table, p) && EntryOk(e.slots, p, b) && SlotOk(e.slots, e.table, b.sockfd);
    }
    O.SmallSocketsShareNoSlot(e.table);
  }

  lemma {:induction false} FewSocketsAreSafe(h: Host, events: seq<Event>, n: nat)
    requires HostShape(h) && Inv(h.e) && AllPossible(events)
    requires UsedBelow(h.e.slots, n) && n + HostOpens(h, events) <= 256
    ensures SafeWhenReceiving(h, events) && UsedBelow(HostRun(h, events).e.slots, n + HostOpens(h, events))
    decreases |events|
  {
    if events != [] {
      LowSlotsAreSafe(h.e);
      EventKeepsInv(h, events[0]);
      EventUsesLowSlots(h, events[0], n);
      FewSocketsAreSafe(Do(h, events[0]), events[1..],
                        n + if events[0] == Call(OpSocket) && Step(h.e, OpSocket).1.Done? then 1 else 0);
    }
  }

  /** No run that opens at most 256 sockets in all, with any calls, bursts and transmissions in any
      order, ever overflows a receive buffer; and no packet waits in a buffer between two passes. */
  lemma BuffersNeverOverflow(events: seq<Event>)
    requires AllPossible(events) && HostOpens(InitialHost(), events) <= 256
    ensures !SomePassOverflows(InitialHost(), events) && NothingKept(HostRun(InitialHost(), events))
  {
    InitialInv();
    FewSocketsAreSafe(InitialHost(), events, 0);
    SafeRun(InitialHost(), events);
  }

  // ---------------------------------------------------------------- what a new socket finds

  // The event, if it opens a socket on slot s, finds its rings and its receive buffer empty.
  ghost predicate StartsClean(h: Host, ev: Event, s: nat)
    requires HostShape(h) && Possible(ev) && s < NUM_SOCKETS_MAX
  {
    ev.Call? && OpensSlot(h.e, ev.op, s) ==> Clean(h.e, s) && h.bufs[s] == []
  }

  /** Every socket that is opened finds both rings and the receive buffer of its slot empty. */
  ghost predicate CleanStarts(h: Host, events: seq<Event>)
    requires HostShape(h) && AllPossible(events)
    decreases |events|
  {
    events != [] ==>
      && (forall s: nat :: s < NUM_SOCKETS_MAX ==> StartsClean(h, events[0], s))
      && CleanStarts(Do(h, events[0]), events[1..])
  }

  // One event, while no packet waits in a buffer.
  lemma EventStartsClean(h: Host, ev: Event)
    requires HostShape(h) && Possible(ev) && NothingKept(h)
    ensures CleanOpens(h.e, OpsOf(h, ev)) <==> forall s: nat :: s < NUM_SOCKETS_MAX ==> StartsClean(h, ev, s)
  {
    if ev.Call? {
      assert OpsOf(h, ev) == [ev.op] && [ev.op][1..] == [];
      assert CleanOpens(Step(h.e, ev.op).0, []);
      forall s: nat | s < NUM_SOCKETS_MAX
        ensures OpenIsClean(h.e, ev.op, s) <==> StartsClean(h, ev, s)
      {
      }
    } else {
      NoOpensClean(h.e, OpsOf(h, ev));
    }
  }

  lemma {:induction false} StartsAreOpens(h: Host, events: seq<Event>)
    requires HostShape(h) && Inv(h.e) && NothingKept(h) && AllPossible(events) && SafeWhenReceiving(h, events)
    ensures CleanStarts(h, events) <==> CleanOpens(h.e, AllOps(h, events))
    decreases |events|
  {
    if events != [] {
      var h1, rest := Do(h, events[0]), events[1..];
      EventKeepsInv(h, events[0]);
      if events[0].Receives? {
        SafePass(h, events[0].burst);
      }
      StartsAreOpens(h1, rest);
      EventIsRun(h, events[0]);
      EventStartsClean(h, events[0]);
      CleanOpensAppend(h.e, OpsOf(h, events[0]), AllOps(h1, rest));
    }
  }

  /** In a run that is in a safe state whenever it receives, every new socket starts with both rings
      and the receive buffer of its slot empty, exactly if every slot that is opened again was closed
      with both rings empty. */
  lemma NewSocketsStartClean(events: seq<Event>)
    requires AllPossible(events) && SafeWhenReceiving(InitialHost(), events)
    ensures CleanStarts(InitialHost(), events) <==> CleanCloses(InitialEngine(), AllOps(InitialHost(), events))
  {
    InitialInv();
    HostRunIsRun(InitialHost(), events);
    StartsAreOpens(InitialHost(), events);
    CleanExactly(AllOps(InitialHost(), events));
  }

  /** Such are all runs that open at most 256 sockets. */
  lemma FewSocketsStartClean(events: seq<Event>)
    requires AllPossible(events) && HostOpens(InitialHost(), events) <= 256
    ensures CleanStarts(InitialHost(), events) <==> CleanCloses(InitialEngine(), AllOps(InitialHost(), events))
  {
    InitialInv();
    FewSocketsAreSafe(InitialHost(), events, 0);
    NewSocketsStartClean(events);
  }

  /** In any run at all, every new socket starts with empty rings under the same condition. */
  lemma NewSocketsFindEmptyRings(events: seq<Event>)
    requires AllPossible(events)
    ensures var ops := AllOps(InitialHost(), events);
            CleanOpens(InitialEngine(), ops) <==> CleanCloses(InitialEngine(), ops)
  {
    HostRunIsRun(InitialHost(), events);
    CleanExactly(AllOps(InitialHost(), events));
  }

  // ---------------------------------------------------------------- the poller over a whole run

  // All numbers in a buffer are below `next`.
  ghost predicate NumbersBelow(refs: seq<D.Ref>, next: D.Ref) {
    forall i :: 0 <= i < |refs| ==> refs[i] < next
  }

  // Slot k of the poller holds the packets of the machine, under numbers below the next one.
  ghost predicate SlotSimulates(h: Host, p: D.Poller, rings: D.Buffers, data: D.Ref -> Mbuf, k: nat)
    requires HostShape(h) && |p.bufs| == |rings| == NUM_SOCKETS_MAX && k < NUM_SOCKETS_MAX
  {
    && NumbersBelow(p.bufs[k], p.next) && NumbersBelow(rings[k], p.next)
    && Map(p.bufs[k], data) == h.bufs[k] && Map(rings[k], data) == h.e.rx[k]
  }

  /** The poller with its packet buffers stands for the machine. */
  ghost predicate Simulates(h: Host, p: D.Poller, rings: D.Buffers, data: D.Ref -> Mbuf)
    requires HostShape(h)
  {
    && |p.bufs| == |rings| == NUM_SOCKETS_MAX
    && forall k: nat :: k < NUM_SOCKETS_MAX ==> SlotSimulates(h, p, rings, data, k)
  }

  lemma ForBelow(queued: seq<(nat, D.Ref)>, k: nat, next: D.Ref)
    requires AllBelow(queued, next)
    ensures NumbersBelow(D.For(queued, k), next)
  {
    forall i | 0 <= i < |D.For(queued, k)|
      ensures D.For(queued, k)[i] < next
    {
      var _ := ForMember(queued, k, i);
    }
  }

  lemma PassNext(table: Table, used: seq<bool>, p: D.Poller, rings: D.Buffers, burst: seq<D.RxFrame>)
    requires |table| == UDP_MAX_PORT && |used| == |p.bufs| == |rings| == NUM_SOCKETS_MAX
    ensures D.RxPass(table, used, p, rings, burst).0.next == D.Queued(table, burst, p.next).1
  {
    D.BurstFillsBuffers(table, p, burst, 0);
    D.FlushConserves(used, D.SwitchBurst(table, p, burst), rings, |used|, 0);
  }

  // The numbers after a pass are below the next one again.
  lemma PassKeepsBelow(table: Table, used: seq<bool>, p: D.Poller, rings: D.Buffers, burst: seq<D.RxFrame>, k: nat)
    requires |table| == UDP_MAX_PORT && |used| == |p.bufs| == |rings| == NUM_SOCKETS_MAX && k < NUM_SOCKETS_MAX
    requires forall i :: 0 <= i < |burst| ==> D.HasNumberBelow(burst[i], p.next)
    requires NumbersBelow(p.bufs[k], p.next) && NumbersBelow(rings[k], p.next)
    ensures var (q, rs) := D.RxPass(table, used, p, rings, burst);
            q.next >= p.next && NumbersBelow(q.bufs[k], q.next) && NumbersBelow(rs[k], q.next)
  {
    NextGrows(table, burst, p.next);
    QueuedBelow(table, burst, p.next);
    ForBelow(D.Queued(table, burst, p.next).0, k, D.Queued(table, burst, p.next).1);
    D.PassFillsRings(table, used, p, rings, burst, k);
    PassNext(table, used, p, rings, burst);
  }

  lemma SimulatedPass(h: Host, p: D.Poller, rings: D.Buffers, burst: seq<Arrival>, data: D.Ref -> Mbuf)
    requires HostShape(h) && Simulates(h, p, rings, data) && Holds(burst, p.next, data)
    ensures var (q, rs) := D.RxPass(h.e.table, UsedFlags(h.e.slots), p, rings, FramesOf(burst));
            && q.next >= p.next
            && Simulates(Receive(h, burst), q, rs, After(h.e.table, burst, p.next, data))
  {
    var (q, rs) := D.RxPass(h.e.table, UsedFlags(h.e.slots), p, rings, FramesOf(burst));
    NextGrows(h.e.table, FramesOf(burst), p.next);
    PassNext(h.e.table, UsedFlags(h.e.slots), p, rings, FramesOf(burst));
    var after := After(h.e.table, burst, p.next, data);
    forall k: nat | k < NUM_SOCKETS_MAX
      ensures SlotSimulates(Receive(h, burst), q, rs, after, k)
    {
      assert SlotSimulates(h, p, rings, data, k);
      PassKeepsBelow(h.e.table, UsedFlags(h.e.slots), p, rings, FramesOf(burst), k);
      ReceiveIsPass(h, p, rings, burst, data, k);
    }
  }

  // What an event does to the buffers and the receive rings: a pass, or one packet taken.
  ghost function PollerDo(h: Host, ev: Event, p: D.Poller, rings: D.Buffers): (r: (D.Poller, D.Buffers))
    requires HostShape(h) && Possible(ev) && |p.bufs| == |rings| == NUM_SOCKETS_MAX
    ensures |r.0.bufs| == |r.1| == NUM_SOCKETS_MAX
  {
    match ev
    case Receives(burst) => D.RxPass(h.e.table, UsedFlags(h.e.slots), p, rings, FramesOf(burst))
    case Call(op) =>
      if op.OpRecvFrom? && Step(h.e, op).1.Done? && rings[op.s] != []
      then (p, rings[op.s := rings[op.s][1..]]) else (p, rings)
    case Sends(_) => (p, rings)
  }

  lemma SimulatedCall(h: Host, op: Op, p: D.Poller, rings: D.Buffers, data: D.Ref -> Mbuf)
    requires HostShape(h) && Possible(Call(op)) && Simulates(h, p, rings, data)
    ensures var (q, rs) := PollerDo(h, Call(op), p, rings);
            q == p && Simulates(Do(h, Call(op)), q, rs, data)
  {
    var (q, rs) := PollerDo(h, Call(op), p, rings);
    forall k: nat | k < NUM_SOCKETS_MAX
      ensures SlotSimulates(Do(h, Call(op)), q, rs, data, k)
    {
      assert SlotSimulates(h, p, rings, data, k);
    }
  }

  // The same data for all numbers that were given out before.
  ghost predicate AgreesBelow(data: D.Ref -> Mbuf, later: D.Ref -> Mbuf, next: D.Ref) {
    forall r: D.Ref :: r < next ==> later(r) == data(r)
  }

  lemma AfterAgrees(table: Table, burst: seq<Arrival>, next: D.Ref, data: D.Ref -> Mbuf)
    requires |table| == UDP_MAX_PORT && Holds(burst, next, data)
    ensures AgreesBelow(data, After(table, burst, next, data), next)
  {
    forall r: D.Ref | r < next
      ensures After(table, burst, next, data)(r) == data(r)
    {
      BehindOld(table, burst, next, data, r);
    }
  }

  lemma SimulatedSend(h: Host, taken: seq<nat>, p: D.Poller, rings: D.Buffers, data: D.Ref -> Mbuf)
    requires HostShape(h) && |taken| == NUM_SOCKETS_MAX && Simulates(h, p, rings, data)
    ensures Simulates(Do(h, Sends(taken)), p, rings, data)
  {
    forall k: nat | k < NUM_SOCKETS_MAX
      ensures SlotSimulates(Do(h, Sends(taken)), p, rings, data, k)
    {
      assert SlotSimulates(h, p, rings, data, k);
    }
  }

  lemma SimulatedEvent(h: Host, ev: Event, p: D.Poller, rings: D.Buffers, data: D.Ref -> Mbuf)
      returns (later: D.Ref -> Mbuf)
    requires HostShape(h) && Possible(ev) && Simulates(h, p, rings, data)
    requires ev.Receives? ==> Holds(ev.burst, p.next, data)
    ensures var (q, rs) := PollerDo(h, ev, p, rings);
            q.next >= p.next && Simulates(Do(h, ev), q, rs, later) && AgreesBelow(data, later, p.next)
  {
    later := data;
    match ev
    case Receives(burst) =>
      SimulatedPass(h, p, rings, burst, data);
      later := After(h.e.table, burst, p.next, data);
      AfterAgrees(h.e.table, burst, p.next, data);
    case Call(op) => SimulatedCall(h, op, p, rings, data);
    case Sends(taken) => SimulatedSend(h, taken, p, rings, data);
  }

  /** A burst overflows a buffer of the machine exactly if it overflows one of the poller. */
  lemma OverflowsAlike(h: Host, p: D.Poller, rings: D.Buffers, burst: seq<Arrival>, data: D.Ref -> Mbuf)
    requires HostShape(h) && Simulates(h, p, rings, data)
    ensures Overflows(h, burst) <==> O.Overflow(h.e.table, p, FramesOf(burst))
  {
    forall k: nat | k < NUM_SOCKETS_MAX
      ensures |InBuffers(h, burst)[k]| == |D.SwitchBurst(h.e.table, p, FramesOf(burst)).bufs[k]|
    {
      assert SlotSimulates(h, p, rings, data, k);
      QueuedCount(h.e.table, burst, k);
      D.BurstFillsBuffers(h.e.table, p, FramesOf(burst), k);
    }
  }

  // The poller after a run, and whether one of its passes overflowed.
  ghost function PollerRun(h: Host, events: seq<Event>, p: D.Poller, rings: D.Buffers): (r: (D.Poller, D.Buffers))
    requires HostShape(h) && AllPossible(events) && |p.bufs| == |rings| == NUM_SOCKETS_MAX
    ensures |r.0.bufs| == |r.1| == NUM_SOCKETS_MAX
    decreases |events|
  {
    if events == [] then (p, rings)
    else
      var (q, rs) := PollerDo(h, events[0], p, rings);
      PollerRun(Do(h, events[0]), events[1..], q, rs)
  }

  ghost predicate PollerOverflows(h: Host, events: seq<Event>, p: D.Poller, rings: D.Buffers)
    requires HostShape(h) && AllPossible(events) && |p.bufs| == |rings| == NUM_SOCKETS_MAX
    decreases |events|
  {
    events != [] &&
    (|| (events[0].Receives? && O.Overflow(h.e.table, p, FramesOf(events[0].burst)))
     || var (q, rs) := PollerDo(h, events[0], p, rings);
        PollerOverflows(Do(h, events[0]), events[1..], q, rs))
  }

  // The datagrams of all bursts have numbers from before the run.
  ghost predicate AllHold(events: seq<Event>, next: D.Ref, data: D.Ref -> Mbuf) {
    forall i :: 0 <= i < |events| && events[i].Receives? ==> Holds(events[i].burst, next, data)
  }

  lemma HoldLater(events: seq<Event>, next: D.Ref, data: D.Ref -> Mbuf, more: D.Ref, later: D.Ref -> Mbuf)
    requires AllHold(events, next, data) && next <= more && AgreesBelow(data, later, next)
    ensures AllHold(events, more, later)
  {
    forall i | 0 <= i < |events| && events[i].Receives?
      ensures Holds(events[i].burst, more, later)
    {
      HoldsLater(events[i].burst, next, data, more, later);
    }
  }

  lemma HoldsLater(burst: seq<Arrival>, next: D.Ref, data: D.Ref -> Mbuf, more: D.Ref, later: D.Ref -> Mbuf)
    requires Holds(burst, next, data) && next <= more && AgreesBelow(data, later, next)
    ensures Holds(burst, more, later)
  {
    forall i | 0 <= i < |burst|
      ensures D.HasNumberBelow(burst[i].frame, more)
      ensures burst[i].frame.class_.Udp? ==> later(burst[i].frame.class_.whole) == burst[i].m
    {
      assert D.HasNumberBelow(burst[i].frame, next);
      if burst[i].frame.class_.Udp? {
        assert burst[i].frame.class_.whole in D.HeldFor(burst[i].frame);
      }
    }
  }

  /** Simulation over any number of calls and passes in any order: the poller with its packet buffers
      goes on to stand for the machine, and a pass of the one overflows exactly if one of the other
      does. */
  lemma {:induction false} RunIsSimulated(h: Host, events: seq<Event>, p: D.Poller, rings: D.Buffers,
      data: D.Ref -> Mbuf) returns (later: D.Ref -> Mbuf)
    requires HostShape(h) && AllPossible(events) && Simulates(h, p, rings, data) && AllHold(events, p.next, data)
    ensures var (q, rs) := PollerRun(h, events, p, rings);
            Simulates(HostRun(h, events), q, rs, later)
    ensures PollerOverflows(h, events, p, rings) <==> SomePassOverflows(h, events)
    decreases |events|
  {
    if events == [] {
      later := data;
    } else {
      var (q, rs) := PollerDo(h, events[0], p, rings);
      if events[0].Receives? {
        OverflowsAlike(h, p, rings, events[0].burst, data);
      }
      var mid := SimulatedEvent(h, events[0], p, rings, data);
      HoldLater(events[1..], p.next, data, q.next, mid);
      later := RunIsSimulated(Do(h, events[0]), events[1..], q, rs, mid);
    }
  }

  /** So in every run that opens at most 256 sockets no pass of the poller is asked for a burst that
      overflows a buffer. */
  lemma PollerNeverOverflows(events: seq<Event>, p: D.Poller, rings: D.Buffers, data: D.Ref -> Mbuf)
    requires AllPossible(events) && HostOpens(InitialHost(), events) <= 256
    requires |p.bufs| == |rings| == NUM_SOCKETS_MAX && O.AllEmpty(p.bufs) && O.AllEmpty(rings)
    requires AllHold(events, p.next, data)
    ensures !PollerOverflows(InitialHost(), events, p, rings)
  {
    forall k: nat | k < NUM_SOCKETS_MAX
      ensures SlotSimulates(InitialHost(), p, rings, data, k)
    {
      MapEmpty(data);
    }
    var _ := RunIsSimulated(InitialHost(), events, p, rings, data);
    BuffersNeverOverflow(events);
  }
}
