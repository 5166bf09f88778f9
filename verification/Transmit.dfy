/** The TX half of a round of the poller (poller_body and flush_tx_table of udpdk_poller.c), on
    values: draining the transmit rings, fragmentation into the bounded table, and the bursts to
    the NIC. */
module Transmit {
  import opened Constants
  import opened Sequences

  // A packet taken from a transmit ring, by number and length.
  datatype Packet = Packet(id: nat, pktLen: nat)

  // What is put in the TX table: a whole packet or one of its fragments.
  datatype Item = Whole(id: nat) | Fragment(id: nat, index: nat)

  // The answers of the environment for one packet that needs fragmentation: the number of
  // fragments (none: it failed) and the first fragment that has no room for the Ethernet header.
  datatype Fragmentation = Failed | Cut(count: nat, noRoomAt: Option<nat>)

  type Fragmenter = Packet -> Fragmentation

  predicate NeedsCut(p: Packet) {
    p.pktLen > IPV4_MTU_DEFAULT
  }

  // A packet is cut into at least one fragment and at most as many as a datagram can have.
  ghost predicate Sane(cut: Fragmenter, maxFrag: nat) {
    forall p: Packet :: cut(p).Cut? ==> 1 <= cut(p).count <= maxFrag
  }

  function Max(a: nat, b: nat): nat {
    if a > b then a else b
  }

  // TX_MBUF_TABLE_SIZE, for a given MAX_PACKET_FRAG
  function TableSize(maxFrag: nat): nat {
    2 * Max(BURST_SIZE, maxFrag)
  }

  // The fragments of a packet, from number i on.
  function Fragments(id: nat, i: nat, count: nat): (s: seq<Item>)
    requires i <= count
    ensures |s| == count - i
    ensures forall k :: 0 <= k < |s| ==> s[k] == Fragment(id, i + k)
    decreases count - i
  {
    if i == count then [] else [Fragment(id, i)] + Fragments(id, i + 1, count)
  }

  // What becomes of one packet.
  datatype Fate =
    | Sent(items: seq<Item>)    // put in the table: itself, or all its fragments in order
    | Dropped(items: seq<Item>) // freed: the packet, or all its fragments

  function FateOf(cut: Fragmenter, p: Packet): Fate {
    if !NeedsCut(p) then Sent([Whole(p.id)])
    else match cut(p)
         case Failed => Dropped([Whole(p.id)])
         case Cut(n, None) => Sent(Fragments(p.id, 0, n))
         case Cut(n, Some(k)) =>
           if k < n then Dropped(Fragments(p.id, 0, n)) else Sent(Fragments(p.id, 0, n))
  }

  function Items(f: Fate): seq<Item> {
    if f.Sent? then f.items else []
  }

  // What the packets of a sequence put in the table, in order.
  function Offered(cut: Fragmenter, packets: seq<Packet>): seq<Item> {
    if packets == [] then [] else Offered(cut, packets[..|packets| - 1]) + Items(FateOf(cut, packets[|packets| - 1]))
  }

  predicate CutFails(cut: Fragmenter, p: Packet) {
    NeedsCut(p) && cut(p).Failed?
  }

  // How many packets one visit takes from a ring: until the TX table, which holds `held` items to
  // begin with, has a burst, until the ring is empty, or up to the first packet that cannot be cut.
  function Served(cut: Fragmenter, held: nat, ring: seq<Packet>): (n: nat)
    ensures n <= |ring|
    decreases |ring|
  {
    if ring == [] || held >= BURST_SIZE then 0
    else if CutFails(cut, ring[0]) then 1
    else 1 + Served(cut, held + |Items(FateOf(cut, ring[0]))|, ring[1..])
  }

  lemma {:induction false} OfferedAppend(cut: Fragmenter, a: seq<Packet>, b: seq<Packet>)
    ensures Offered(cut, a + b) == Offered(cut, a) + Offered(cut, b)
  {
    if b == [] {
      assert a + b == a;
    } else {
      var front, last := b[..|b| - 1], b[|b| - 1];
      OfferedAppend(cut, a, front);
      assert (a + b)[..|a + b| - 1] == a + front && (a + b)[|a + b| - 1] == last;
      ConcatAssoc(Offered(cut, a), Offered(cut, front), Items(FateOf(cut, last)));
    }
  }

  lemma OfferedFirst(cut: Fragmenter, ring: seq<Packet>, i: nat)
    requires 0 < i <= |ring|
    ensures |Offered(cut, ring[..i])| == |Items(FateOf(cut, ring[0]))| + |Offered(cut, ring[1..][..i - 1])|
  {
    assert ring[..i] == [ring[0]] + ring[1..][..i - 1];
    OfferedAppend(cut, [ring[0]], ring[1..][..i - 1]);
    assert [ring[0]][..0] == [];
  }

  // n packets are taken, each while the table holds less than a burst, and then no more for one of
  // three reasons.
  ghost predicate StopsRightly(cut: Fragmenter, held: nat, ring: seq<Packet>, n: nat) {
    && n <= |ring|
    && (forall i :: 0 <= i < n ==> held + |Offered(cut, ring[..i])| < BURST_SIZE)
    && (forall i :: 0 <= i < n - 1 ==> !CutFails(cut, ring[i]))
    && (|| n == |ring| || held + |Offered(cut, ring[..n])| >= BURST_SIZE
        || (n > 0 && CutFails(cut, ring[n - 1])))
  }

  lemma OneMoreServed(cut: Fragmenter, held: nat, ring: seq<Packet>, n: nat)
    requires ring != [] && held < BURST_SIZE && !CutFails(cut, ring[0])
    requires StopsRightly(cut, held + |Items(FateOf(cut, ring[0]))|, ring[1..], n)
    ensures StopsRightly(cut, held, ring, n + 1)
  {
    forall i | 0 <= i < n + 1
      ensures held + |Offered(cut, ring[..i])| < BURST_SIZE
    {
      if i > 0 {
        OfferedFirst(cut, ring, i);
      } else {
        assert ring[..0] == [];
      }
    }
    forall i | 0 <= i < n
      ensures !CutFails(cut, ring[i])
    {
      assert i > 0 ==> ring[i] == ring[1..][i - 1];
    }
    OfferedFirst(cut, ring, n + 1);
    assert n > 0 ==> ring[n] == ring[1..][n - 1];
  }

  lemma NoneServed(cut: Fragmenter, held: nat, ring: seq<Packet>)
    requires ring == [] || held >= BURST_SIZE
    ensures StopsRightly(cut, held, ring, 0)
  {
    assert ring[..0] == [];
  }

  lemma FailedServed(cut: Fragmenter, held: nat, ring: seq<Packet>)
    requires ring != [] && held < BURST_SIZE && CutFails(cut, ring[0])
    ensures StopsRightly(cut, held, ring, 1)
  {
    assert ring[..0] == [];
  }

  lemma {:induction false} VisitStops(cut: Fragmenter, held: nat, ring: seq<Packet>, n: nat)
    requires n == Served(cut, held, ring)
    ensures StopsRightly(cut, held, ring, n)
    decreases |ring|
  {
    if ring == [] || held >= BURST_SIZE {
      NoneServed(cut, held, ring);
    } else if CutFails(cut, ring[0]) {
      FailedServed(cut, held, ring);
    } else {
      VisitStops(cut, held + |Items(FateOf(cut, ring[0]))|, ring[1..], n - 1);
      OneMoreServed(cut, held, ring, n - 1);
    }
  }

  /** A visit that finds less than a burst in the table takes at least one packet from a ring that
      is not empty. It takes a packet only while the table holds less than a burst, and it stops
      because the ring is empty, the table has a burst, or a packet could not be cut. */
  lemma VisitServes(cut: Fragmenter, held: nat, ring: seq<Packet>)
    ensures ring != [] && held < BURST_SIZE ==> Served(cut, held, ring) >= 1
    ensures StopsRightly(cut, held, ring, Served(cut, held, ring))
  {
    VisitStops(cut, held, ring, Served(cut, held, ring));
  }

  // ---------------------------------------------------------------- the TX table

  // What went out to the NIC, what was freed instead, and how many bursts there were.
  datatype Out = Out(wire: seq<Item>, freed: seq<Item>, bursts: nat)

  // How many packets of a burst the NIC accepts: burst number and size to a count.
  type Nic = (nat, nat) -> nat

  function Accepted(nic: Nic, burst: nat, n: nat): (k: nat)
    ensures k <= n && (nic(burst, n) <= n ==> k == nic(burst, n)) && (nic(burst, n) >= n ==> k == n)
  {
    var k := nic(burst, n);
    if k <= n then k else n
  }

  // The TX table between two packets.
  datatype Tx = Tx(table: seq<Item>, out: Out)

  // flush_tx_table: the NIC takes a prefix, the rest is freed.
  function FlushTable(nic: Nic, t: Tx): Tx {
    var k := Accepted(nic, t.out.bursts, |t.table|);
    Tx([], Out(t.out.wire + t.table[..k], t.out.freed + t.table[k..], t.out.bursts + 1))
  }

  // Flushed if it holds at least `limit` items.
  function FlushFrom(nic: Nic, t: Tx, limit: nat): Tx {
    if |t.table| >= limit then FlushTable(nic, t) else t
  }

  // One packet: into the table, or freed.
  function Put(t: Tx, f: Fate): Tx {
    if f.Dropped? then t.(out := t.out.(freed := t.out.freed + f.items)) else t.(table := t.table + f.items)
  }

  function PutAll(cut: Fragmenter, t: Tx, packets: seq<Packet>): (r: Tx)
    ensures r.out.wire == t.out.wire && r.out.bursts == t.out.bursts
  {
    if packets == [] then t
    else Put(PutAll(cut, t, packets[..|packets| - 1]), FateOf(cut, packets[|packets| - 1]))
  }

  lemma {:induction false} PutAllTable(cut: Fragmenter, t: Tx, packets: seq<Packet>)
    ensures PutAll(cut, t, packets).table == t.table + Offered(cut, packets)
  {
    if packets == [] {
      assert t.table + [] == t.table;
    } else {
      var front, f := packets[..|packets| - 1], FateOf(cut, packets[|packets| - 1]);
      PutAllTable(cut, t, front);
      ConcatAssoc(t.table, Offered(cut, front), Items(f));
      assert Offered(cut, front) + [] == Offered(cut, front);
    }
  }

  lemma FateSize(cut: Fragmenter, p: Packet, maxFrag: nat)
    requires Sane(cut, maxFrag)
    ensures |Items(FateOf(cut, p))| <= Max(1, maxFrag)
  {
  }

  /** The table never overflows: whenever a visit takes a packet, all that the packet turns into
      fits behind what the table holds. */
  lemma TableFits(cut: Fragmenter, t: Tx, ring: seq<Packet>, maxFrag: nat, i: nat)
    requires Sane(cut, maxFrag) && i < Served(cut, |t.table|, ring)
    ensures |PutAll(cut, t, ring[..i]).table| < BURST_SIZE
    ensures |PutAll(cut, t, ring[..i]).table| + |Items(FateOf(cut, ring[i]))| <= TableSize(maxFrag)
  {
    FateSize(cut, ring[i], maxFrag);
    PutAllTable(cut, t, ring[..i]);
    VisitServes(cut, |t.table|, ring);
  }

  // ---------------------------------------------------------------- one transmit pass

  type TxRings = seq<seq<Packet>>

  // The state of a pass: the table, what is left in the rings, and what was taken, in order.
  datatype Round = Round(t: Tx, rings: TxRings, taken: seq<Packet>)

  // A visit to slot s, which ends with a flush of a full table.
  function AfterVisit(cut: Fragmenter, nic: Nic, r: Round, s: nat): (after: Round)
    requires s < |r.rings|
    ensures |after.rings| == |r.rings|
    ensures forall i :: 0 <= i < |r.rings| && i != s ==> after.rings[i] == r.rings[i]
  {
    var ring := r.rings[s];
    var k := Served(cut, |r.t.table|, ring);
    Round(FlushFrom(nic, PutAll(cut, r.t, ring[..k]), BURST_SIZE), r.rings[s := ring[k..]], r.taken + ring[..k])
  }

  // The pass after its visits to the slots below n.
  function Visited(cut: Fragmenter, nic: Nic, used: seq<bool>, rings: TxRings, t: Tx, n: nat): (r: Round)
    requires |used| == |rings| && n <= |rings|
    ensures |r.rings| == |rings| && forall s :: n <= s < |rings| ==> r.rings[s] == rings[s]
  {
    if n == 0 then Round(t, rings, [])
    else
      var r := Visited(cut, nic, used, rings, t, n - 1);
      if used[n - 1] then AfterVisit(cut, nic, r, n - 1) else r
  }

  // The TX half of a round of poller_body; the rest of the table is flushed in the end.
  function TxPass(cut: Fragmenter, nic: Nic, used: seq<bool>, rings: TxRings, out: Out): (r: Round)
    requires |used| == |rings|
    ensures |r.rings| == |rings|
  {
    var r := Visited(cut, nic, used, rings, Tx([], out), |rings|);
    r.(t := FlushFrom(nic, r.t, 1))
  }

  /** What holds at the start and is kept by every visit holds after the visits. */
  lemma {:induction false} VisitsKeep(cut: Fragmenter, nic: Nic, used: seq<bool>, rings: TxRings, t: Tx, n: nat,
      P: Round -> bool)
    requires |used| == |rings| && n <= |rings|
    requires P(Round(t, rings, []))
    requires forall r: Round, i: nat {:trigger AfterVisit(cut, nic, r, i)} ::
               i < n && |r.rings| == |rings| && r.rings[i] == rings[i] && P(r) ==> P(AfterVisit(cut, nic, r, i))
    ensures P(Visited(cut, nic, used, rings, t, n))
  {
    if n > 0 {
      VisitsKeep(cut, nic, used, rings, t, n - 1, P);
    }
  }

  lemma {:induction false} RoundHoldsLess(cut: Fragmenter, nic: Nic, used: seq<bool>, rings: TxRings, t: Tx, n: nat)
    requires |used| == |rings| && n <= |rings| && |t.table| < BURST_SIZE
    ensures |Visited(cut, nic, used, rings, t, n).t.table| < BURST_SIZE
  {
    if n > 0 {
      RoundHoldsLess(cut, nic, used, rings, t, n - 1);
    }
  }

  // ---------------------------------------------------------------- conservation

  // How often item x is in the table, on the wire or freed.
  function Ledger(t: Tx, x: Item): nat {
    Times(t.table, x) + Times(t.out.wire, x) + Times(t.out.freed, x)
  }

  lemma FlushLedger(nic: Nic, t: Tx, limit: nat, x: Item)
    ensures Ledger(FlushFrom(nic, t, limit), x) == Ledger(t, x)
  {
    var k := Accepted(nic, t.out.bursts, |t.table|);
    TimesAppend(t.table[..k], t.table[k..], x);
    assert t.table[..k] + t.table[k..] == t.table;
    TimesAppend(t.out.wire, t.table[..k], x);
    TimesAppend(t.out.freed, t.table[k..], x);
  }

  // Everything the packets turn into, sent or dropped, in order.
  function AllItems(cut: Fragmenter, packets: seq<Packet>): seq<Item> {
    if packets == [] then []
    else AllItems(cut, packets[..|packets| - 1]) + FateOf(cut, packets[|packets| - 1]).items
  }

  lemma {:induction false} AllItemsAppend(cut: Fragmenter, a: seq<Packet>, b: seq<Packet>, x: Item)
    ensures Times(AllItems(cut, a + b), x) == Times(AllItems(cut, a), x) + Times(AllItems(cut, b), x)
  {
    if b == [] {
      assert a + b == a;
    } else {
      var front, last := b[..|b| - 1], b[|b| - 1];
      AllItemsAppend(cut, a, front, x);
      assert (a + b)[..|a + b| - 1] == a + front && (a + b)[|a + b| - 1] == last;
      TimesAppend(AllItems(cut, a + front), FateOf(cut, last).items, x);
      TimesAppend(AllItems(cut, front), FateOf(cut, last).items, x);
    }
  }

  lemma {:induction false} PutAllLedger(cut: Fragmenter, t: Tx, packets: seq<Packet>, x: Item)
    ensures Ledger(PutAll(cut, t, packets), x) == Ledger(t, x) + Times(AllItems(cut, packets), x)
  {
    if packets != [] {
      var front, f := packets[..|packets| - 1], FateOf(cut, packets[|packets| - 1]);
      PutAllLedger(cut, t, front, x);
      var mid := PutAll(cut, t, front);
      TimesAppend(mid.out.freed, f.items, x);
      TimesAppend(mid.table, f.items, x);
      TimesAppend(AllItems(cut, front), f.items, x);
    }
  }

  lemma AfterVisitLedger(cut: Fragmenter, nic: Nic, r: Round, s: nat, t: Tx, x: Item)
    requires s < |r.rings| && Ledger(r.t, x) == Ledger(t, x) + Times(AllItems(cut, r.taken), x)
    ensures var after := AfterVisit(cut, nic, r, s);
            Ledger(after.t, x) == Ledger(t, x) + Times(AllItems(cut, after.taken), x)
  {
    var out := r.rings[s][..Served(cut, |r.t.table|, r.rings[s])];
    PutAllLedger(cut, r.t, out, x);
    FlushLedger(nic, PutAll(cut, r.t, out), BURST_SIZE, x);
    AllItemsAppend(cut, r.taken, out, x);
  }

  lemma VisitsLedger(cut: Fragmenter, nic: Nic, used: seq<bool>, rings: TxRings, t: Tx, n: nat, x: Item)
    requires |used| == |rings| && n <= |rings|
    ensures var r := Visited(cut, nic, used, rings, t, n);
            Ledger(r.t, x) == Ledger(t, x) + Times(AllItems(cut, r.taken), x)
  {
    var P := (r: Round) => Ledger(r.t, x) == Ledger(t, x) + Times(AllItems(cut, r.taken), x);
    forall r: Round, i: nat | i < n && |r.rings| == |rings| && P(r)
      ensures P(AfterVisit(cut, nic, r, i))
    {
      AfterVisitLedger(cut, nic, r, i, t, x);
    }
    VisitsKeep(cut, nic, used, rings, t, n, P);
  }

  /** After a pass the table is empty, and every packet that was taken from a ring is accounted for,
      as itself or as all of its fragments: handed to the NIC or freed, and only once. */
  lemma PassConserves(cut: Fragmenter, nic: Nic, used: seq<bool>, rings: TxRings, out: Out, x: Item)
    requires |used| == |rings|
    ensures var r := TxPass(cut, nic, used, rings, out);
            && r.t.table == []
            && Times(r.t.out.wire, x) + Times(r.t.out.freed, x) ==
               Times(out.wire, x) + Times(out.freed, x) + Times(AllItems(cut, r.taken), x)
  {
    VisitsLedger(cut, nic, used, rings, Tx([], out), |rings|, x);
    FlushLedger(nic, Visited(cut, nic, used, rings, Tx([], out), |rings|).t, 1, x);
  }

  // ---------------------------------------------------------------- what is sent and what is freed

  // The packet goes out as these items: as it is up to 1500 bytes, else as all its fragments, when it
  // can be cut and every one has room for its Ethernet header.
  ghost predicate SentAs(cut: Fragmenter, p: Packet, items: seq<Item>) {
    if p.pktLen <= 1500 then items == [Whole(p.id)]
    else
      && cut(p).Cut? && (cut(p).noRoomAt.Some? ==> cut(p).noRoomAt.value >= cut(p).count)
      && |items| == cut(p).count && forall f :: 0 <= f < |items| ==> items[f] == Fragment(p.id, f)
  }

  // The packet is freed as these items: as it is if it cannot be cut, else as all its fragments.
  ghost predicate FreedAs(cut: Fragmenter, p: Packet, items: seq<Item>) {
    && p.pktLen > 1500
    && if cut(p).Failed? then items == [Whole(p.id)]
       else
         && cut(p).noRoomAt.Some? && cut(p).noRoomAt.value < cut(p).count
         && |items| == cut(p).count && forall f :: 0 <= f < |items| ==> items[f] == Fragment(p.id, f)
  }

  lemma FateIs(cut: Fragmenter, p: Packet, items: seq<Item>)
    ensures SentAs(cut, p, items) <==> FateOf(cut, p) == Sent(items)
    ensures FreedAs(cut, p, items) <==> FateOf(cut, p) == Dropped(items)
  {
    if NeedsCut(p) && cut(p).Cut? {
      var all := Fragments(p.id, 0, cut(p).count);
      assert |items| == |all| && (forall f :: 0 <= f < |items| ==> items[f] == Fragment(p.id, f)) ==> items == all;
    }
  }

  // What the packets of a sequence turn into that is freed, in order.
  function Refused(cut: Fragmenter, packets: seq<Packet>): seq<Item> {
    if packets == [] then []
    else
      var f := FateOf(cut, packets[|packets| - 1]);
      Refused(cut, packets[..|packets| - 1]) + if f.Dropped? then f.items else []
  }

  lemma {:induction false} RefusedAppend(cut: Fragmenter, a: seq<Packet>, b: seq<Packet>)
    ensures Refused(cut, a + b) == Refused(cut, a) + Refused(cut, b)
  {
    if b == [] {
      assert a + b == a;
    } else {
      var front, last := b[..|b| - 1], b[|b| - 1];
      RefusedAppend(cut, a, front);
      assert (a + b)[..|a + b| - 1] == a + front && (a + b)[|a + b| - 1] == last;
      var more := if FateOf(cut, last).Dropped? then FateOf(cut, last).items else [];
      ConcatAssoc(Refused(cut, a), Refused(cut, front), more);
    }
  }

  lemma {:induction false} PutAllFreed(cut: Fragmenter, t: Tx, packets: seq<Packet>)
    ensures PutAll(cut, t, packets).out == t.out.(freed := t.out.freed + Refused(cut, packets))
  {
    if packets == [] {
      assert t.out.freed + [] == t.out.freed;
    } else {
      var front, f := packets[..|packets| - 1], FateOf(cut, packets[|packets| - 1]);
      PutAllFreed(cut, t, front);
      ConcatAssoc(t.out.freed, Refused(cut, front), if f.Dropped? then f.items else []);
      assert Refused(cut, front) + [] == Refused(cut, front);
    }
  }

  /** A burst: the NIC is offered the whole table and takes the first packets of it, as many as it
      says; exactly the rest is freed. Less than `limit` stays in the table. */
  lemma BurstSplits(nic: Nic, t: Tx, limit: nat)
    ensures var u, n := FlushFrom(nic, t, limit), |t.table|;
            if n < limit then u == t
            else
              var k := if nic(t.out.bursts, n) < n then nic(t.out.bursts, n) else n;
              && u.table == [] && u.out.bursts == t.out.bursts + 1
              && u.out.wire == t.out.wire + t.table[..k] && u.out.freed == t.out.freed + t.table[k..]
  {
  }

  /** A visit: what its packets turn into joins the table or is freed, and with 128 items or more the
      table goes out as one burst. */
  lemma VisitBursts(cut: Fragmenter, nic: Nic, r: Round, s: nat)
    requires s < |r.rings|
    ensures var after := AfterVisit(cut, nic, r, s);
            var out := r.rings[s][..|r.rings[s]| - |after.rings[s]|];
            var table, n := r.t.table + Offered(cut, out), |r.t.table + Offered(cut, out)|;
            var freed := r.t.out.freed + Refused(cut, out);
            && after.taken == r.taken + out && |after.rings[s]| <= |r.rings[s]|
            && if n < 128 then after.t == Tx(table, r.t.out.(freed := freed))
               else
                 var k := if nic(r.t.out.bursts, n) < n then nic(r.t.out.bursts, n) else n;
                 after.t == Tx([], Out(r.t.out.wire + table[..k], freed + table[k..], r.t.out.bursts + 1))
  {
    var out := r.rings[s][..Served(cut, |r.t.table|, r.rings[s])];
    PutAllTable(cut, r.t, out);
    PutAllFreed(cut, r.t, out);
    BurstSplits(nic, PutAll(cut, r.t, out), BURST_SIZE);
  }

  // The NIC takes every burst whole.
  ghost predicate TakesAll(nic: Nic) {
    forall burst: nat, n: nat :: nic(burst, n) >= n
  }

  // Nothing is lost so far: the wire and the table have all that was offered, the rest is freed.
  ghost predicate AllOut(cut: Fragmenter, t: Tx, taken: seq<Packet>, out: Out) {
    t.out.wire + t.table == out.wire + Offered(cut, taken) && t.out.freed == out.freed + Refused(cut, taken)
  }

  lemma AllOutFlush(cut: Fragmenter, nic: Nic, t: Tx, limit: nat, taken: seq<Packet>, out: Out)
    requires TakesAll(nic) && AllOut(cut, t, taken, out)
    ensures AllOut(cut, FlushFrom(nic, t, limit), taken, out)
    ensures |t.table| >= limit ==> FlushFrom(nic, t, limit).table == []
  {
    assert nic(t.out.bursts, |t.table|) >= |t.table|;
    BurstSplits(nic, t, limit);
    assert t.table[..|t.table|] == t.table && t.table[|t.table|..] == [];
    assert t.out.freed + [] == t.out.freed && (t.out.wire + t.table) + [] == t.out.wire + t.table;
  }

  lemma AfterVisitAllOut(cut: Fragmenter, nic: Nic, r: Round, s: nat, out: Out)
    requires s < |r.rings| && TakesAll(nic) && AllOut(cut, r.t, r.taken, out)
    ensures AllOut(cut, AfterVisit(cut, nic, r, s).t, AfterVisit(cut, nic, r, s).taken, out)
  {
    var served := r.rings[s][..Served(cut, |r.t.table|, r.rings[s])];
    var u := PutAll(cut, r.t, served);
    PutAllTable(cut, r.t, served);
    PutAllFreed(cut, r.t, served);
    OfferedAppend(cut, r.taken, served);
    RefusedAppend(cut, r.taken, served);
    ConcatAssoc(r.t.out.wire, r.t.table, Offered(cut, served));
    ConcatAssoc(out.wire, Offered(cut, r.taken), Offered(cut, served));
    ConcatAssoc(out.freed, Refused(cut, r.taken), Refused(cut, served));
    AllOutFlush(cut, nic, u, BURST_SIZE, r.taken + served, out);
  }

  lemma PassAllOut(cut: Fragmenter, nic: Nic, used: seq<bool>, rings: TxRings, out: Out)
    requires |used| == |rings| && TakesAll(nic)
    ensures var r := TxPass(cut, nic, used, rings, out);
            && r.t.out.wire == out.wire + Offered(cut, r.taken)
            && r.t.out.freed == out.freed + Refused(cut, r.taken)
  {
    var P := (r: Round) => AllOut(cut, r.t, r.taken, out);
    assert out.wire + [] == out.wire && out.freed + [] == out.freed;
    forall r: Round, i: nat | i < |rings| && |r.rings| == |rings| && P(r)
      ensures P(AfterVisit(cut, nic, r, i))
    {
      AfterVisitAllOut(cut, nic, r, i, out);
    }
    VisitsKeep(cut, nic, used, rings, Tx([], out), |rings|, P);
    var r := Visited(cut, nic, used, rings, Tx([], out), |rings|);
    AllOutFlush(cut, nic, r.t, 1, r.taken, out);
    var u := FlushFrom(nic, r.t, 1);
    assert u.table == [] && u.out.wire + [] == u.out.wire;
  }

  // `part` lies in `s` in one piece.
  ghost predicate InOnePiece(s: seq<Item>, part: seq<Item>) {
    exists before: seq<Item>, after: seq<Item> {:trigger before + part + after} :: s == before + part + after
  }

  lemma PieceOfMore(s: seq<Item>, part: seq<Item>, more: seq<Item>)
    requires InOnePiece(s, part)
    ensures InOnePiece(s + more, part)
  {
    var before: seq<Item>, after: seq<Item> :| s == before + part + after;
    assert s + more == before + part + (after + more);
  }

  lemma PieceAtEnd(s: seq<Item>, part: seq<Item>)
    ensures InOnePiece(s + part, part)
  {
    assert s + part == s + part + [];
  }

  lemma {:induction false} OfferedHas(cut: Fragmenter, packets: seq<Packet>, i: nat, items: seq<Item>)
    requires i < |packets| && SentAs(cut, packets[i], items)
    ensures InOnePiece(Offered(cut, packets), items)
  {
    var front, last := packets[..|packets| - 1], packets[|packets| - 1];
    if i < |front| {
      OfferedHas(cut, front, i, items);
      PieceOfMore(Offered(cut, front), items, Items(FateOf(cut, last)));
    } else {
      FateIs(cut, last, items);
      PieceAtEnd(Offered(cut, front), items);
    }
  }

  lemma {:induction false} RefusedHas(cut: Fragmenter, packets: seq<Packet>, i: nat, items: seq<Item>)
    requires i < |packets| && FreedAs(cut, packets[i], items)
    ensures InOnePiece(Refused(cut, packets), items)
  {
    var front, last := packets[..|packets| - 1], packets[|packets| - 1];
    if i < |front| {
      RefusedHas(cut, front, i, items);
      var f := FateOf(cut, last);
      PieceOfMore(Refused(cut, front), items, if f.Dropped? then f.items else []);
    } else {
      FateIs(cut, last, items);
      PieceAtEnd(Refused(cut, front), items);
    }
  }

  // The item comes from a packet that is freed.
  ghost predicate IsRefused(cut: Fragmenter, packets: seq<Packet>, x: Item) {
    exists i: nat, items: seq<Item> {:trigger FreedAs(cut, packets[i], items)} ::
      i < |packets| && FreedAs(cut, packets[i], items) && x in items
  }

  lemma {:induction false} RefusedOnly(cut: Fragmenter, packets: seq<Packet>, j: nat)
    requires j < |Refused(cut, packets)|
    ensures IsRefused(cut, packets, Refused(cut, packets)[j])
  {
    var front, last := packets[..|packets| - 1], packets[|packets| - 1];
    var x := Refused(cut, packets)[j];
    if j < |Refused(cut, front)| {
      RefusedOnly(cut, front, j);
      var i: nat, items: seq<Item> :| i < |front| && FreedAs(cut, front[i], items) && x in items;
      assert FreedAs(cut, packets[i], items);
    } else {
      var items := FateOf(cut, last).items;
      FateIs(cut, last, items);
      assert x == items[j - |Refused(cut, front)|];
      assert FreedAs(cut, packets[|packets| - 1], items);
    }
  }

  // Every packet went out in one piece or was freed, as it had to be, and nothing else was freed.
  ghost predicate AllAccounted(cut: Fragmenter, packets: seq<Packet>, sent: seq<Item>, freed: seq<Item>) {
    && (forall i: nat, items: seq<Item> {:trigger SentAs(cut, packets[i], items)} ::
          i < |packets| && SentAs(cut, packets[i], items) ==> InOnePiece(sent, items))
    && (forall i: nat, items: seq<Item> {:trigger FreedAs(cut, packets[i], items)} ::
          i < |packets| && FreedAs(cut, packets[i], items) ==> InOnePiece(freed, items))
    && (forall j :: 0 <= j < |freed| ==> IsRefused(cut, packets, freed[j]))
  }

  lemma OfferedAccounted(cut: Fragmenter, packets: seq<Packet>)
    ensures AllAccounted(cut, packets, Offered(cut, packets), Refused(cut, packets))
  {
    forall i: nat, items: seq<Item> | i < |packets| && SentAs(cut, packets[i], items)
      ensures InOnePiece(Offered(cut, packets), items)
    {
      OfferedHas(cut, packets, i, items);
    }
    forall i: nat, items: seq<Item> | i < |packets| && FreedAs(cut, packets[i], items)
      ensures InOnePiece(Refused(cut, packets), items)
    {
      RefusedHas(cut, packets, i, items);
    }
    forall j | 0 <= j < |Refused(cut, packets)|
      ensures IsRefused(cut, packets, Refused(cut, packets)[j])
    {
      RefusedOnly(cut, packets, j);
    }
  }

  /** Every packet is the one or the other, in just one way. */
  lemma SentOrFreed(cut: Fragmenter, p: Packet)
    ensures (exists items :: SentAs(cut, p, items)) <==> !exists items :: FreedAs(cut, p, items)
    ensures forall a, b :: SentAs(cut, p, a) && SentAs(cut, p, b) ==> a == b
    ensures forall a, b :: FreedAs(cut, p, a) && FreedAs(cut, p, b) ==> a == b
  {
    forall items: seq<Item>
      ensures SentAs(cut, p, items) <==> FateOf(cut, p) == Sent(items)
      ensures FreedAs(cut, p, items) <==> FateOf(cut, p) == Dropped(items)
    {
      FateIs(cut, p, items);
    }
    assert SentAs(cut, p, FateOf(cut, p).items) || FreedAs(cut, p, FateOf(cut, p).items);
  }

  /** If the NIC takes every burst whole, every packet that a pass takes from a ring goes out in that
      pass in one piece: as it is up to 1500 bytes, else as all its fragments in order. What is freed
      belongs to a packet that could not be cut, or had a fragment without room for its header. */
  lemma PassSendsAll(cut: Fragmenter, nic: Nic, used: seq<bool>, rings: TxRings, out: Out)
    requires |used| == |rings| && TakesAll(nic)
    ensures var r := TxPass(cut, nic, used, rings, out);
            && out.wire <= r.t.out.wire && out.freed <= r.t.out.freed
            && AllAccounted(cut, r.taken, r.t.out.wire[|out.wire|..], r.t.out.freed[|out.freed|..])
  {
    var r := TxPass(cut, nic, used, rings, out);
    PassAllOut(cut, nic, used, rings, out);
    assert r.t.out.wire[|out.wire|..] == Offered(cut, r.taken);
    assert r.t.out.freed[|out.freed|..] == Refused(cut, r.taken);
    OfferedAccounted(cut, r.taken);
  }

  // ---------------------------------------------------------------- order

  // The wire and the table together keep the order of `offered`.
  ghost predicate InOrder(t: Tx, offered: seq<Item>) {
    exists n: nat :: n <= |offered| && IsSubsequence(t.out.wire, offered[..n]) && t.table == offered[n..]
  }

  lemma FlushInOrder(nic: Nic, t: Tx, limit: nat, offered: seq<Item>)
    requires InOrder(t, offered)
    ensures InOrder(FlushFrom(nic, t, limit), offered)
  {
    var n: nat :| n <= |offered| && IsSubsequence(t.out.wire, offered[..n]) && t.table == offered[n..];
    var k := Accepted(nic, t.out.bursts, |t.table|);
    PrefixIsSubsequence(t.table, k);
    SubsequenceAppend(t.out.wire, offered[..n], t.table[..k], t.table);
    assert offered[..n] + t.table == offered == offered[..|offered|];
    assert offered[|offered|..] == [];
  }

  lemma PutAllInOrder(cut: Fragmenter, t: Tx, offered: seq<Item>, packets: seq<Packet>)
    requires InOrder(t, offered)
    ensures InOrder(PutAll(cut, t, packets), offered + Offered(cut, packets))
  {
    var n: nat :| n <= |offered| && IsSubsequence(t.out.wire, offered[..n]) && t.table == offered[n..];
    PutAllTable(cut, t, packets);
    SplitMore(offered, Offered(cut, packets), n);
  }

  lemma SplitMore<T>(a: seq<T>, b: seq<T>, n: nat)
    requires n <= |a|
    ensures (a + b)[..n] == a[..n] && (a + b)[n..] == a[n..] + b
  {
  }

  lemma AfterVisitInOrder(cut: Fragmenter, nic: Nic, r: Round, s: nat, offered: seq<Item>)
    requires s < |r.rings| && InOrder(r.t, offered + Offered(cut, r.taken))
    ensures var after := AfterVisit(cut, nic, r, s);
            InOrder(after.t, offered + Offered(cut, after.taken))
  {
    var out := r.rings[s][..Served(cut, |r.t.table|, r.rings[s])];
    PutAllInOrder(cut, r.t, offered + Offered(cut, r.taken), out);
    ConcatAssoc(offered, Offered(cut, r.taken), Offered(cut, out));
    OfferedAppend(cut, r.taken, out);
    FlushInOrder(nic, PutAll(cut, r.t, out), BURST_SIZE, offered + Offered(cut, r.taken + out));
  }

  /** What is on the wire, followed by what is still in the table, is in the order in which the
      packets left the rings. */
  lemma VisitsInOrder(cut: Fragmenter, nic: Nic, used: seq<bool>, rings: TxRings, t: Tx, offered: seq<Item>, n: nat)
    requires |used| == |rings| && n <= |rings| && InOrder(t, offered)
    ensures var r := Visited(cut, nic, used, rings, t, n);
            InOrder(r.t, offered + Offered(cut, r.taken))
  {
    var P := (r: Round) => InOrder(r.t, offered + Offered(cut, r.taken));
    assert offered + [] == offered;
    forall r: Round, i: nat | i < n && |r.rings| == |rings| && P(r)
      ensures P(AfterVisit(cut, nic, r, i))
    {
      AfterVisitInOrder(cut, nic, r, i, offered);
    }
    VisitsKeep(cut, nic, used, rings, t, n, P);
  }

  /** Over a pass the wire grows by a subsequence of what was taken, slot after slot, each in the
      order of its ring. */
  lemma PassKeepsOrder(cut: Fragmenter, nic: Nic, used: seq<bool>, rings: TxRings, out: Out)
    requires |used| == |rings|
    ensures var r := TxPass(cut, nic, used, rings, out);
            IsSubsequence(r.t.out.wire, out.wire + Offered(cut, r.taken))
  {
    var t0 := Tx([], out);
    PrefixIsSubsequence(out.wire, |out.wire|);
    assert out.wire[..|out.wire|] == out.wire && out.wire[|out.wire|..] == [];
    assert InOrder(t0, out.wire);
    VisitsInOrder(cut, nic, used, rings, t0, out.wire, |rings|);
    var r := Visited(cut, nic, used, rings, t0, |rings|);
    FlushInOrder(nic, r.t, 1, out.wire + Offered(cut, r.taken));
    OrderAtEnd(FlushFrom(nic, r.t, 1), out.wire + Offered(cut, r.taken));
  }

  lemma OrderAtEnd(t: Tx, offered: seq<Item>)
    requires InOrder(t, offered) && t.table == []
    ensures IsSubsequence(t.out.wire, offered)
  {
    var n: nat :| n <= |offered| && IsSubsequence(t.out.wire, offered[..n]) && t.table == offered[n..];
    assert n == |offered| && offered[..n] == offered;
  }

  // ---------------------------------------------------------------- many passes

  // One round of the poller: which slots are in use, and what is sent before the next one.
  datatype Event = Event(used: seq<bool>, arrivals: TxRings)

  ghost predicate Fits(events: seq<Event>, n: nat) {
    forall i :: 0 <= i < |events| ==> |events[i].used| == |events[i].arrivals| == n
  }

  function Joined(rings: TxRings, arrivals: TxRings): (r: TxRings)
    requires |rings| == |arrivals|
    ensures |r| == |rings| && forall s :: 0 <= s < |rings| ==> r[s] == rings[s] + arrivals[s]
  {
    seq(|rings|, s requires 0 <= s < |rings| => rings[s] + arrivals[s])
  }

  function RingsAfter(cut: Fragmenter, nic: Nic, rings: TxRings, out: Out, event: Event): (r: TxRings)
    requires |event.used| == |event.arrivals| == |rings|
    ensures |r| == |rings|
  {
    Joined(TxPass(cut, nic, event.used, rings, out).rings, event.arrivals)
  }

  // The packets that a pass takes from the ring of slot s.
  function TakenFrom(cut: Fragmenter, nic: Nic, rings: TxRings, out: Out, used: seq<bool>, s: nat): (r: seq<Packet>)
    requires |used| == |rings| && s < |rings|
  {
    Gone(rings[s], TxPass(cut, nic, used, rings, out).rings[s])
  }

  // What is left of a ring is a part at its end, and less than all of it if it had to shrink.
  ghost predicate LeftOver(ring: seq<Packet>, rest: seq<Packet>, shrinks: bool) {
    |rest| <= |ring| && ring[|ring| - |rest|..] == rest && (shrinks && ring != [] ==> |rest| < |ring|)
  }

  lemma ServedLeavesOver(cut: Fragmenter, held: nat, ring: seq<Packet>)
    ensures LeftOver(ring, ring[Served(cut, held, ring)..], held < BURST_SIZE)
  {
    VisitServes(cut, held, ring);
  }

  lemma VisitSplits(cut: Fragmenter, nic: Nic, r: Round, s: nat)
    requires s < |r.rings|
    ensures LeftOver(r.rings[s], AfterVisit(cut, nic, r, s).rings[s], |r.t.table| < BURST_SIZE)
  {
    ServedLeavesOver(cut, |r.t.table|, r.rings[s]);
  }

  /** A pass takes packets from the front of each ring, and at least one if the slot is in use and
      the ring is not empty. */
  lemma {:induction false} PassSplitsRing(cut: Fragmenter, nic: Nic, used: seq<bool>, rings: TxRings, t: Tx, n: nat, s: nat)
    requires |used| == |rings| && s < |rings| && n <= |rings|
    ensures LeftOver(rings[s], Visited(cut, nic, used, rings, t, n).rings[s], s < n && used[s] && |t.table| < BURST_SIZE)
  {
    if n > 0 {
      PassSplitsRing(cut, nic, used, rings, t, n - 1, s);
      if s == n - 1 && used[s] {
        if |t.table| < BURST_SIZE {
          RoundHoldsLess(cut, nic, used, rings, t, n - 1);
        }
        VisitSplits(cut, nic, Visited(cut, nic, used, rings, t, n - 1), s);
      }
    }
  }

  /** The ring of a slot that is not in use stays as it is. */
  lemma {:induction false} UnusedUntouched(cut: Fragmenter, nic: Nic, used: seq<bool>, rings: TxRings, t: Tx, n: nat,
      s: nat)
    requires |used| == |rings| && s < |rings| && n <= |rings| && !used[s]
    ensures Visited(cut, nic, used, rings, t, n).rings[s] == rings[s]
  {
    if n > 0 {
      UnusedUntouched(cut, nic, used, rings, t, n - 1, s);
    }
  }

  // How many packets leave the ring of slot s in the given rounds.
  function Departed(cut: Fragmenter, nic: Nic, rings: TxRings, out: Out, events: seq<Event>, s: nat): nat
    requires Fits(events, |rings|) && s < |rings|
    decreases |events|
  {
    if events == [] then 0
    else |TakenFrom(cut, nic, rings, out, events[0].used, s)| +
         Departed(cut, nic, RingsAfter(cut, nic, rings, out, events[0]),
                  TxPass(cut, nic, events[0].used, rings, out).t.out, events[1..], s)
  }

  // The number of rounds in which slot s is in use.
  function UsedRounds(events: seq<Event>, s: nat): nat
    requires forall i :: 0 <= i < |events| ==> s < |events[i].used|
  {
    if events == [] then 0 else (if events[0].used[s] then 1 else 0) + UsedRounds(events[1..], s)
  }

  /** No packet starves: the one at position k of a ring leaves it within k + 1 rounds in which its
      slot is in use, however many rounds pass while it is not, whatever the other slots send and
      whatever arrives behind it. */
  lemma {:induction false} NoStarvation(cut: Fragmenter, nic: Nic, rings: TxRings, out: Out, events: seq<Event>,
      s: nat, k: nat)
    requires Fits(events, |rings|) && s < |rings| && k < |rings[s]| && k < UsedRounds(events, s)
    ensures Departed(cut, nic, rings, out, events, s) > k
    decreases |events|
  {
    PassSplitsRing(cut, nic, events[0].used, rings, Tx([], out), |rings|, s);
    if !events[0].used[s] {
      UnusedUntouched(cut, nic, events[0].used, rings, Tx([], out), |rings|, s);
    }
    var n := |TakenFrom(cut, nic, rings, out, events[0].used, s)|;
    if n <= k {
      NoStarvation(cut, nic, RingsAfter(cut, nic, rings, out, events[0]),
                   TxPass(cut, nic, events[0].used, rings, out).t.out, events[1..], s, k - n);
    }
  }

  // The state of the NIC after the given rounds.
  function OutAfter(cut: Fragmenter, nic: Nic, rings: TxRings, out: Out, events: seq<Event>): Out
    requires Fits(events, |rings|)
    decreases |events|
  {
    if events == [] then out
    else OutAfter(cut, nic, RingsAfter(cut, nic, rings, out, events[0]),
                  TxPass(cut, nic, events[0].used, rings, out).t.out, events[1..])
  }

  // What is sent on slot s before and between the given rounds, in order.
  function SentOn(ring: seq<Packet>, events: seq<Event>, s: nat): seq<Packet>
    requires forall i :: 0 <= i < |events| ==> s < |events[i].arrivals|
    decreases |events|
  {
    if events == [] then ring else SentOn(ring + events[0].arrivals[s], events[1..], s)
  }

  // ---------------------------------------------------------------- the order of one socket

  type Owner = nat -> nat  // the slot of each packet number

  function SlotOf(owner: Owner, x: Item): nat {
    owner(x.id)
  }

  // The items of slot s.
  function Of(items: seq<Item>, owner: Owner, s: nat): seq<Item> {
    if items == [] then []
    else (if SlotOf(owner, items[0]) == s then [items[0]] else []) + Of(items[1..], owner, s)
  }

  lemma {:induction false} OfAppend(a: seq<Item>, b: seq<Item>, owner: Owner, s: nat)
    ensures Of(a + b, owner, s) == Of(a, owner, s) + Of(b, owner, s)
  {
    if a == [] {
      assert a + b == b;
    } else {
      OfAppend(a[1..], b, owner, s);
      assert (a + b)[1..] == a[1..] + b && (a + b)[0] == a[0];
      ConcatAssoc(if SlotOf(owner, a[0]) == s then [a[0]] else [], Of(a[1..], owner, s), Of(b, owner, s));
    }
  }

  lemma {:induction false} OfSubsequence(a: seq<Item>, b: seq<Item>, owner: Owner, s: nat)
    requires IsSubsequence(a, b)
    ensures IsSubsequence(Of(a, owner, s), Of(b, owner, s))
    decreases |b|
  {
    if a != [] {
      var head := if SlotOf(owner, b[0]) == s then [b[0]] else [];
      if a[0] == b[0] && IsSubsequence(a[1..], b[1..]) {
        OfSubsequence(a[1..], b[1..], owner, s);
        PrefixIsSubsequence(head, |head|);
        assert head[..|head|] == head;
        SubsequenceAppend(head, head, Of(a[1..], owner, s), Of(b[1..], owner, s));
      } else {
        OfSubsequence(a, b[1..], owner, s);
        SubsequenceOfMore(Of(a, owner, s), head, Of(b[1..], owner, s));
      }
    }
  }

  lemma {:induction false} OfUniform(items: seq<Item>, owner: Owner, t: nat, s: nat)
    requires forall i :: 0 <= i < |items| ==> SlotOf(owner, items[i]) == t
    ensures Of(items, owner, s) == if s == t then items else []
  {
    if items != [] {
      OfUniform(items[1..], owner, t, s);
      assert items == [items[0]] + items[1..];
    }
  }

  lemma {:induction false} OfferedUniform(cut: Fragmenter, packets: seq<Packet>, owner: Owner, t: nat)
    requires forall i :: 0 <= i < |packets| ==> owner(packets[i].id) == t
    ensures forall i :: 0 <= i < |Offered(cut, packets)| ==> SlotOf(owner, Offered(cut, packets)[i]) == t
  {
    if packets != [] {
      OfferedUniform(cut, packets[..|packets| - 1], owner, t);
    }
  }

  ghost predicate Owned(ring: seq<Packet>, owner: Owner, s: nat) {
    forall i :: 0 <= i < |ring| ==> owner(ring[i].id) == s
  }

  ghost predicate AllOwned(rings: TxRings, owner: Owner) {
    forall s {:trigger Owned(rings[s], owner, s)} :: 0 <= s < |rings| ==> Owned(rings[s], owner, s)
  }

  // One visit, to slot t: what it takes is for that slot only.
  lemma VisitOf(cut: Fragmenter, taken: seq<Packet>, out: seq<Packet>, owner: Owner, t: nat, s: nat, gone: seq<Packet>)
    requires Owned(out, owner, t)
    requires Of(Offered(cut, taken), owner, s) == Offered(cut, gone)
    requires s == t ==> gone == []
    ensures Of(Offered(cut, taken + out), owner, s) == Offered(cut, if s == t then out else gone)
  {
    OfferedAppend(cut, taken, out);
    OfAppend(Offered(cut, taken), Offered(cut, out), owner, s);
    OfferedUniform(cut, out, owner, t);
    OfUniform(Offered(cut, out), owner, t, s);
    if s == t {
      assert [] + Offered(cut, out) == Offered(cut, out);
    } else {
      assert Offered(cut, gone) + [] == Offered(cut, gone);
    }
  }

  // The part of a ring that is gone.
  function Gone(ring: seq<Packet>, rest: seq<Packet>): seq<Packet> {
    if |rest| <= |ring| then ring[..|ring| - |rest|] else []
  }

  lemma GoneAfter(ring: seq<Packet>, k: nat)
    requires k <= |ring|
    ensures Gone(ring, ring) == [] && Gone(ring, ring[k..]) == ring[..k]
  {
  }

  // A visit to slot n, which has its whole ring, when so far the items of slot s are from its own.
  lemma AfterVisitOf(cut: Fragmenter, nic: Nic, ring: seq<Packet>, r: Round, n: nat, owner: Owner, s: nat)
    requires n < |r.rings| && s < |r.rings| && Owned(r.rings[n], owner, n) && (s == n ==> r.rings[n] == ring)
    requires Of(Offered(cut, r.taken), owner, s) == Offered(cut, Gone(ring, r.rings[s]))
    ensures var after := AfterVisit(cut, nic, r, n);
            Of(Offered(cut, after.taken), owner, s) == Offered(cut, Gone(ring, after.rings[s]))
  {
    var k := Served(cut, |r.t.table|, r.rings[n]);
    GoneAfter(r.rings[n], k);
    VisitOf(cut, r.taken, r.rings[n][..k], owner, n, s, Gone(ring, r.rings[s]));
  }

  // Of what the visits take, the items of slot s are those from its own ring.
  lemma VisitsOf(cut: Fragmenter, nic: Nic, used: seq<bool>, rings: TxRings, t: Tx, n: nat, owner: Owner, s: nat)
    requires |used| == |rings| && s < |rings| && n <= |rings| && AllOwned(rings, owner)
    ensures var r := Visited(cut, nic, used, rings, t, n);
            Of(Offered(cut, r.taken), owner, s) == Offered(cut, Gone(rings[s], r.rings[s]))
  {
    var P := (r: Round) =>
      |r.rings| == |rings| && Of(Offered(cut, r.taken), owner, s) == Offered(cut, Gone(rings[s], r.rings[s]));
    GoneAfter(rings[s], 0);
    forall r: Round, i: nat | i < n && |r.rings| == |rings| && r.rings[i] == rings[i] && P(r)
      ensures P(AfterVisit(cut, nic, r, i))
    {
      assert Owned(rings[i], owner, i);
      AfterVisitOf(cut, nic, rings[s], r, i, owner, s);
    }
    VisitsKeep(cut, nic, used, rings, t, n, P);
  }

  ghost predicate EventsOwned(events: seq<Event>, owner: Owner) {
    forall i :: 0 <= i < |events| ==> AllOwned(events[i].arrivals, owner)
  }

  // One round: what was on the wire for slot s, and what the round adds, keeps the order.
  lemma RoundKeepsOrder(cut: Fragmenter, nic: Nic, rings: TxRings, out: Out, used: seq<bool>, owner: Owner, s: nat,
      before: seq<Packet>)
    requires |used| == |rings| && s < |rings| && AllOwned(rings, owner)
    requires IsSubsequence(Of(out.wire, owner, s), Offered(cut, before))
    ensures IsSubsequence(Of(TxPass(cut, nic, used, rings, out).t.out.wire, owner, s),
                          Offered(cut, before + TakenFrom(cut, nic, rings, out, used, s)))
  {
    var r := TxPass(cut, nic, used, rings, out);
    var taken := TakenFrom(cut, nic, rings, out, used, s);
    PassKeepsOrder(cut, nic, used, rings, out);
    OfSubsequence(r.t.out.wire, out.wire + Offered(cut, r.taken), owner, s);
    OfAppend(out.wire, Offered(cut, r.taken), owner, s);
    VisitsOf(cut, nic, used, rings, Tx([], out), |rings|, owner, s);
    OfferedAppend(cut, before, taken);
    PrefixIsSubsequence(Offered(cut, taken), |Offered(cut, taken)|);
    assert Offered(cut, taken)[..|Offered(cut, taken)|] == Offered(cut, taken);
    SubsequenceAppend(Of(out.wire, owner, s), Offered(cut, before), Offered(cut, taken), Offered(cut, taken));
    SubsequenceTransitive(Of(r.t.out.wire, owner, s), Of(out.wire, owner, s) + Offered(cut, taken),
                          Offered(cut, before) + Offered(cut, taken));
  }

  lemma OwnedRest(ring: seq<Packet>, rest: seq<Packet>, shrinks: bool, arrivals: seq<Packet>, owner: Owner, s: nat)
    requires LeftOver(ring, rest, shrinks) && Owned(ring, owner, s) && Owned(arrivals, owner, s)
    ensures Owned(rest + arrivals, owner, s)
  {
    assert forall i :: 0 <= i < |rest| ==> rest[i] == ring[|ring| - |rest| + i];
  }

  lemma RingStaysOwned(cut: Fragmenter, nic: Nic, rings: TxRings, out: Out, event: Event, owner: Owner, s: nat)
    requires |event.used| == |event.arrivals| == |rings| && s < |rings|
    requires Owned(rings[s], owner, s) && Owned(event.arrivals[s], owner, s)
    ensures Owned(RingsAfter(cut, nic, rings, out, event)[s], owner, s)
  {
    var t, rest := Tx([], out), TxPass(cut, nic, event.used, rings, out).rings[s];
    PassSplitsRing(cut, nic, event.used, rings, t, |rings|, s);
    OwnedRest(rings[s], rest, event.used[s] && |t.table| < BURST_SIZE, event.arrivals[s], owner, s);
  }

  lemma RoundKeepsOwned(cut: Fragmenter, nic: Nic, rings: TxRings, out: Out, event: Event, owner: Owner)
    requires |event.used| == |event.arrivals| == |rings|
    requires AllOwned(rings, owner) && AllOwned(event.arrivals, owner)
    ensures AllOwned(RingsAfter(cut, nic, rings, out, event), owner)
  {
    forall s | 0 <= s < |rings|
      ensures Owned(RingsAfter(cut, nic, rings, out, event)[s], owner, s)
    {
      assert Owned(rings[s], owner, s) && Owned(event.arrivals[s], owner, s);
      RingStaysOwned(cut, nic, rings, out, event, owner, s);
    }
  }

  lemma {:induction false} RoundsKeepOrder(cut: Fragmenter, nic: Nic, rings: TxRings, out: Out, events: seq<Event>,
      owner: Owner, s: nat, before: seq<Packet>)
    requires Fits(events, |rings|) && s < |rings| && AllOwned(rings, owner) && EventsOwned(events, owner)
    requires IsSubsequence(Of(out.wire, owner, s), Offered(cut, before))
    ensures IsSubsequence(Of(OutAfter(cut, nic, rings, out, events).wire, owner, s),
                          Offered(cut, SentOn(before + rings[s], events, s)))
    decreases |events|
  {
    if events == [] {
      OfferedAppend(cut, before, rings[s]);
      SubsequenceAppend(Of(out.wire, owner, s), Offered(cut, before), [], Offered(cut, rings[s]));
      assert Of(out.wire, owner, s) + [] == Of(out.wire, owner, s);
    } else {
      var taken := TakenFrom(cut, nic, rings, out, events[0].used, s);
      var next := RingsAfter(cut, nic, rings, out, events[0]);
      RoundKeepsOrder(cut, nic, rings, out, events[0].used, owner, s, before);
      RoundKeepsOwned(cut, nic, rings, out, events[0], owner);
      RoundsKeepOrder(cut, nic, next, TxPass(cut, nic, events[0].used, rings, out).t.out, events[1..], owner, s,
                      before + taken);
      PassSplitsRing(cut, nic, events[0].used, rings, Tx([], out), |rings|, s);
      var rest := TxPass(cut, nic, events[0].used, rings, out).rings[s];
      assert taken + rest == rings[s];
      Regroup(before, taken, rest, events[0].arrivals[s]);
    }
  }

  lemma Regroup<T>(a: seq<T>, b: seq<T>, c: seq<T>, d: seq<T>)
    ensures (a + b) + (c + d) == (a + (b + c)) + d
  {
  }

  /** For each socket, over any number of rounds: what reaches the wire of the packets it sent is a
      subsequence of what they turn into, in the order of sending. */
  lemma SocketKeepsOrder(cut: Fragmenter, nic: Nic, rings: TxRings, events: seq<Event>, owner: Owner, s: nat)
    requires Fits(events, |rings|) && s < |rings| && AllOwned(rings, owner) && EventsOwned(events, owner)
    ensures IsSubsequence(Of(OutAfter(cut, nic, rings, Out([], [], 0), events).wire, owner, s),
                          Offered(cut, SentOn(rings[s], events, s)))
  {
    RoundsKeepOrder(cut, nic, rings, Out([], [], 0), events, owner, s, []);
    assert [] + rings[s] == rings[s];
  }
}
