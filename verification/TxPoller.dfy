/** The transmit side of the poller as the program carries it out (udpdk_poller.c): nested loops
    over slots and packets, a TX table of fixed size with a counter, and bursts to the NIC. */
module TxPollers {
  import opened Constants
  import opened Sequences
  import opened Transmit

  class TxPoller {
    const txMbufTable: array<Item>
    var txCount: nat
    var rings: TxRings
    var wire: seq<Item>   // what the NIC has accepted
    var freed: seq<Item>  // what was given back to the pools
    var bursts: nat

    ghost predicate Valid()
      reads this, txMbufTable
    {
      txCount <= txMbufTable.Length && |rings| == NUM_SOCKETS_MAX
    }

    // The abstract state.
    ghost function State(): Tx
      requires txCount <= txMbufTable.Length
      reads this, txMbufTable
    {
      Tx(txMbufTable[..txCount], Transmit.Out(wire, freed, bursts))
    }

    /** Empty table of TX_MBUF_TABLE_SIZE entries, empty rings. */
    constructor (maxFrag: nat)
      ensures Valid() && fresh(txMbufTable) && txMbufTable.Length == TableSize(maxFrag)
      ensures State() == Tx([], Transmit.Out([], [], 0))
    {
      txMbufTable := new Item[TableSize(maxFrag)](_ => Whole(0));
      txCount := 0;
      rings := seq(NUM_SOCKETS_MAX, _ => []);
      wire, freed, bursts := [], [], 0;
    }

    /** flush_tx_table: the NIC accepts a prefix of the table and the rest is freed. */
    method Flush(nic: Nic)
      requires Valid()
      modifies this`txCount, this`wire, this`freed, this`bursts
      ensures Valid() && txCount == 0
      ensures var n := old(txCount);
              var k := if nic(old(bursts), n) < n then nic(old(bursts), n) else n;
              && wire == old(wire) + old(txMbufTable[..])[..k]
              && freed == old(freed) + old(txMbufTable[..])[k..n]
      ensures State() == FlushTable(nic, old(State()))
    {
      var n := txCount;
      var txSent := Accepted(nic, bursts, n);
      wire := wire + txMbufTable[..txSent];
      ghost var start := freed;
      var k := txSent;
      while k < n
        invariant txSent <= k <= n && freed == start + txMbufTable[txSent..k]
        invariant wire == old(wire) + txMbufTable[..txSent] && bursts == old(bursts)
      {
        freed := freed + [txMbufTable[k]];
        k := k + 1;
      }
      ghost var table := txMbufTable[..n];
      assert table[..txSent] == txMbufTable[..txSent] && table[txSent..] == txMbufTable[txSent..n];
      bursts := bursts + 1;
      txCount := 0;
      assert txMbufTable[..0] == [];
    }

    // A packet that fits the MTU goes into the table.
    method PutWhole(p: Packet)
      requires Valid() && txCount < txMbufTable.Length
      modifies this`txCount, txMbufTable
      ensures Valid() && txCount == old(txCount) + 1
      ensures State() == old(State()).(table := old(State()).table + [Whole(p.id)])
    {
      ghost var table := txMbufTable[..txCount];
      txMbufTable[txCount] := Whole(p.id);
      txCount := txCount + 1;
      assert txMbufTable[..txCount] == table + [Whole(p.id)];
    }

    /** The fragments of a packet go behind what is in the table. When one has no room for the
        Ethernet header all are freed, and the counter is decreased and then increased by their
        number, modulo 2^16. */
    method PutFragments(p: Packet, count: nat, noRoomAt: Option<nat>)
      requires Valid() && txCount + count <= txMbufTable.Length < 0x1_0000
      modifies this`txCount, this`freed, txMbufTable
      ensures Valid()
      ensures var items := Fragments(p.id, 0, count);
              State() == if noRoomAt.Some? && noRoomAt.value < count
                         then old(State()).(out := old(State()).out.(freed := old(freed) + items))
                         else old(State()).(table := old(State()).table + items)
    {
      ghost var table, items := txMbufTable[..txCount], Fragments(p.id, 0, count);
      WriteFragments(p, count);
      var count16 := txCount;
      var j := txCount;
      while j < txCount + count
        invariant txCount <= j <= txCount + count
        invariant noRoomAt.Some? ==> j <= txCount + noRoomAt.value
        invariant freed == old(freed) && txMbufTable[txCount..txCount + count] == items
      {
        if noRoomAt == Some(j - txCount) {
          freed := freed + txMbufTable[txCount..txCount + count];
          count16 := (count16 - count) % 0x1_0000;
          break;
        }
        j := j + 1;
      }
      ghost var failed := j < txCount + count;
      count16 := (count16 + count) % 0x1_0000;
      CountersCancel(txCount, count);
      assert txMbufTable[..txCount] == table && txMbufTable[..txCount + count] == table + items;
      txCount := count16;
    }

    // rte_ipv4_fragment_packet writes its output behind what is in the table.
    method WriteFragments(p: Packet, count: nat)
      requires Valid() && txCount + count <= txMbufTable.Length
      modifies txMbufTable
      ensures txMbufTable[..txCount] == old(txMbufTable[..txCount])
      ensures txMbufTable[txCount..txCount + count] == Fragments(p.id, 0, count)
    {
      for i := 0 to count
        invariant txMbufTable[..txCount] == old(txMbufTable[..txCount])
        invariant forall k :: 0 <= k < i ==> txMbufTable[txCount + k] == Fragment(p.id, k)
      {
        txMbufTable[txCount + i] := Fragment(p.id, i);
      }
    }

    /** One packet: into the table, whole or in fragments, or freed. The answer says whether it could
        be cut, if that was needed. */
    method Handle(cut: Fragmenter, p: Packet, ghost maxFrag: nat) returns (ok: bool)
      requires Valid() && txCount < BURST_SIZE && txMbufTable.Length == TableSize(maxFrag) < 0x1_0000
      requires Sane(cut, maxFrag)
      modifies this`txCount, this`freed, txMbufTable
      ensures Valid()
      ensures State() == Put(old(State()), FateOf(cut, p))
      ensures ok <==> !CutFails(cut, p)
    {
      ok := true;
      if !NeedsCut(p) {
        PutWhole(p);
      } else {
        match cut(p)
        case Failed =>
          freed := freed + [Whole(p.id)];
          return false;
        case Cut(count, noRoomAt) =>
          PutFragments(p, count, noRoomAt);
      }
    }

    // k packets of the ring of slot s have been handled, and the visit has `more` to go.
    ghost predicate Handled(cut: Fragmenter, start: Tx, before: TxRings, s: nat, k: nat, more: nat)
      reads this, txMbufTable
    {
      && Valid() && s < |before| == NUM_SOCKETS_MAX && k <= |before[s]|
      && rings == before[s := before[s][k..]] && State() == PutAll(cut, start, before[s][..k])
      && Served(cut, |start.table|, before[s]) == k + more
    }

    // One turn of the inner loop.
    method HandleNext(cut: Fragmenter, ghost start: Tx, ghost before: TxRings, s: nat, ghost k: nat,
        ghost maxFrag: nat) returns (ok: bool, ghost more: nat)
      requires s < |before| && k <= |before[s]|
      requires Handled(cut, start, before, s, k, Served(cut, txCount, before[s][k..]))
      requires txCount < BURST_SIZE && rings[s] != []
      requires Sane(cut, maxFrag) && txMbufTable.Length == TableSize(maxFrag) < 0x1_0000
      modifies this`txCount, this`freed, this`rings, txMbufTable
      ensures Handled(cut, start, before, s, k + 1, more)
      ensures more == if ok then Served(cut, txCount, before[s][k + 1..]) else 0
    {
      ghost var ring := before[s];
      ServedStep(cut, txCount, ring, k);
      var p := rings[s][0];
      rings := rings[s := rings[s][1..]];
      OneFurther(ring, k);
      ok := Handle(cut, p, maxFrag);
      assert |State().table| == txCount;
      more := if ok then Served(cut, txCount, ring[k + 1..]) else 0;
    }

    lemma VisitStarts(cut: Fragmenter, s: nat)
      requires Valid() && s < NUM_SOCKETS_MAX
      ensures Handled(cut, State(), rings, s, 0, Served(cut, txCount, rings[s]))
      ensures rings[s][0..] == rings[s]
    {
      assert rings[s][0..] == rings[s] && rings[s][..0] == [] && rings[s := rings[s]] == rings;
    }

    // The visit to one slot: packets are taken while the table holds less than a burst, until the
    // ring is empty or one cannot be cut.
    method Drain(cut: Fragmenter, s: nat, ghost maxFrag: nat)
      requires Valid() && txMbufTable.Length == TableSize(maxFrag) < 0x1_0000
      requires Sane(cut, maxFrag) && s < NUM_SOCKETS_MAX
      modifies this`txCount, this`freed, this`rings, txMbufTable
      ensures Handled(cut, old(State()), old(rings), s, Served(cut, old(txCount), old(rings)[s]), 0)
    {
      ghost var start, before, ring := State(), rings, rings[s];
      ghost var k: nat, more := 0, Served(cut, txCount, ring);
      VisitStarts(cut, s);
      while txCount < BURST_SIZE
        invariant k <= |ring| && Handled(cut, start, before, s, k, more)
        invariant more == Served(cut, txCount, ring[k..])
        decreases |ring| - k
      {
        if rings[s] == [] {
          break;
        }
        var ok;
        ok, more := HandleNext(cut, start, before, s, k, maxFrag);
        k := k + 1;
        if !ok {
          break;
        }
      }
    }

    // If a batch of packets is ready, send it.
    method FlushIf(nic: Nic, limit: nat)
      requires Valid()
      modifies this`txCount, this`wire, this`freed, this`bursts
      ensures Valid()
      ensures State() == FlushFrom(nic, old(State()), limit)
    {
      if txCount >= limit {
        Flush(nic);
      }
    }

    /** The TX half of a round of poller_body: every slot in use is visited, a table with a burst in
        it is flushed after the visit, and what is left in the end is flushed as well, so that the
        next pass finds the table empty. */
    method Pass(cut: Fragmenter, nic: Nic, used: seq<bool>, ghost maxFrag: nat)
      requires Valid() && txCount == 0 && txMbufTable.Length == TableSize(maxFrag) < 0x1_0000
      requires Sane(cut, maxFrag) && |used| == NUM_SOCKETS_MAX
      modifies this`txCount, this`wire, this`freed, this`bursts, this`rings, txMbufTable
      ensures Valid() && txCount == 0
      ensures var r := TxPass(cut, nic, used, old(rings), Transmit.Out(old(wire), old(freed), old(bursts)));
              State() == r.t && rings == r.rings
    {
      assert State() == Tx([], Transmit.Out(wire, freed, bursts));
      VisitAll(cut, nic, used, maxFrag);
      FlushIf(nic, 1);
      assert State().table == [];
    }

    method VisitAll(cut: Fragmenter, nic: Nic, used: seq<bool>, ghost maxFrag: nat)
      requires Valid() && txMbufTable.Length == TableSize(maxFrag) < 0x1_0000
      requires Sane(cut, maxFrag) && |used| == NUM_SOCKETS_MAX
      modifies this`txCount, this`wire, this`freed, this`bursts, this`rings, txMbufTable
      ensures Valid()
      ensures var r := Visited(cut, nic, used, old(rings), old(State()), |used|);
              State() == r.t && rings == r.rings
    {
      ghost var start, before := State(), rings;
      for i := 0 to |used|
        invariant Valid()
        invariant State() == Visited(cut, nic, used, before, start, i).t
        invariant rings == Visited(cut, nic, used, before, start, i).rings
      {
        if used[i] {
          Drain(cut, i, maxFrag);
          FlushIf(nic, BURST_SIZE);
        }
      }
    }
  }

  lemma OneFurther<T>(s: seq<T>, k: nat)
    requires k < |s|
    ensures s[..k + 1][..k] == s[..k] && s[..k + 1][k] == s[k] && s[k..][0] == s[k] && s[k..][1..] == s[k + 1..]
  {
  }

  lemma ServedStep(cut: Fragmenter, held: nat, ring: seq<Packet>, k: nat)
    requires k < |ring| && held < BURST_SIZE
    ensures Served(cut, held, ring[k..]) ==
            if CutFails(cut, ring[k]) then 1 else 1 + Served(cut, held + |Items(FateOf(cut, ring[k]))|, ring[k + 1..])
  {
    OneFurther(ring, k);
  }

  lemma CountersCancel(txCount: nat, count: nat)
    requires txCount + count < 0x1_0000
    ensures ((txCount - count) % 0x1_0000 + count) % 0x1_0000 == txCount
    ensures (txCount + count) % 0x1_0000 == txCount + count
  {
  }
}
