/** What the bind table means (udpdk_bind_table.c), on values: which sockets are bound to which
    (IP, port) pairs, when a further binding is allowed, and how the table is counted. */
module Bindings {
  import opened Constants
  import opened Sequences

  /** struct bind_info */
  datatype Binding = Binding(sockfd: nat, ip: nat, reuseAddr: bool, reusePort: bool) {
    predicate Wildcard() {
      ip == INADDR_ANY
    }

    predicate Reuses() {
      reuseAddr || reusePort
    }
  }

  type Bound = seq<Binding>  // the bindings of one port, in list order
  type Table = seq<Bound>    // one entry per port

  // ---------------------------------------------------------------- the conflict rule

  // The three `continue` branches of btable_can_bind, as written.
  predicate Passes(oth: Binding, new_: Binding) {
    || (oth.ip != new_.ip && oth.ip != INADDR_ANY && new_.ip != INADDR_ANY)
    || (oth.ip != new_.ip && (oth.ip == INADDR_ANY || new_.ip != INADDR_ANY)
        && (new_.reuseAddr || new_.reusePort))
    || (oth.ip == new_.ip && new_.ip != INADDR_ANY && new_.reusePort && oth.reusePort)
  }

  // What the rule amounts to: `second` may join a port where `first` is already bound.
  ghost predicate Compatible(first: Binding, second: Binding) {
    && !second.Wildcard()
    && (if first.Wildcard() then second.Reuses()
        else first.ip != second.ip || (first.reusePort && second.reusePort))
  }

  // The rule in the comments of btable_can_bind: a wildcard and a specific address can share
  // the port, whichever came first, when the later one has a reuse option.
  ghost predicate DocumentedCompatible(first: Binding, second: Binding) {
    if first.ip != second.ip then
      (!first.Wildcard() && !second.Wildcard()) || second.Reuses()
    else
      !first.Wildcard() && first.reusePort && second.reusePort
  }

  ghost predicate CanBind(bound: Bound, b: Binding) {
    forall i :: 0 <= i < |bound| ==> Passes(bound[i], b)
  }

  ghost predicate DocumentedCanBind(bound: Bound, b: Binding) {
    forall i :: 0 <= i < |bound| ==> DocumentedCompatible(bound[i], b)
  }

  lemma PassesMeansCompatible(first: Binding, second: Binding)
    ensures Passes(first, second) <==> Compatible(first, second)
  {
  }

  /** The code decides as documented except in one situation: a wildcard binding with a reuse
      option, on a port whose bindings (at least one) are all specific. The code refuses it. */
  lemma CanBindVersusDocumented(bound: Bound, b: Binding)
    ensures (CanBind(bound, b) <==> DocumentedCanBind(bound, b)) <==>
            !(b.Wildcard() && b.Reuses() && bound != [] &&
              forall i :: 0 <= i < |bound| ==> !bound[i].Wildcard())
    ensures CanBind(bound, b) ==> DocumentedCanBind(bound, b)
  {
    if bound != [] {
      assert Passes(bound[0], b) ==> !b.Wildcard();
    }
  }

  // ---------------------------------------------------------------- one port

  // Two bindings at different places of one port list, the earlier one first.
  ghost predicate WellOrdered(bound: Bound) {
    forall i, j :: 0 <= i < j < |bound| ==> Compatible(bound[i], bound[j])
  }

  ghost predicate DistinctSockets(bound: Bound) {
    forall i, j :: 0 <= i < j < |bound| ==> bound[i].sockfd != bound[j].sockfd
  }

  // A wildcard goes to the front, everything else to the back.
  function Insert(bound: Bound, b: Binding): Bound {
    if b.Wildcard() then [b] + bound else bound + [b]
  }

  function IndexOf(bound: Bound, s: nat): (k: nat)
    ensures k <= |bound|
    ensures k < |bound| ==> bound[k].sockfd == s
    ensures forall i :: 0 <= i < k ==> bound[i].sockfd != s
  {
    if bound == [] || bound[0].sockfd == s then 0 else 1 + IndexOf(bound[1..], s)
  }

  // Without the first binding of socket s; unchanged if there is none.
  function Delete(bound: Bound, s: nat): Bound {
    var k := IndexOf(bound, s);
    if k < |bound| then RemoveAt(bound, k) else bound
  }

  /** A binding that is let in ends up last: the list of a port is in the order of binding, and
      every binding is compatible with all that came before it. */
  lemma InsertKeepsOrder(bound: Bound, b: Binding)
    requires WellOrdered(bound) && CanBind(bound, b)
    ensures Insert(bound, b) == bound + [b]
    ensures WellOrdered(Insert(bound, b))
  {
    assert bound == [] || Passes(bound[0], b);
    forall i | 0 <= i < |bound|
      ensures Compatible(bound[i], b)
    {
      assert Passes(bound[i], b);
    }
  }

  lemma DeleteKeepsOrder(bound: Bound, s: nat)
    requires WellOrdered(bound)
    ensures WellOrdered(Delete(bound, s))
  {
  }

  /** Only the head of a port list can be a wildcard binding. */
  lemma WildcardIsHead(bound: Bound, i: nat)
    requires WellOrdered(bound) && i < |bound| && bound[i].Wildcard()
    ensures i == 0
  {
    assert i == 0 || Compatible(bound[0], bound[i]);
  }

  /** Deleting what was just let in gives the port back as it was. */
  lemma DeleteAfterInsert(bound: Bound, b: Binding)
    requires WellOrdered(bound) && CanBind(bound, b)
    requires forall i :: 0 <= i < |bound| ==> bound[i].sockfd != b.sockfd
    ensures Delete(Insert(bound, b), b.sockfd) == bound
  {
    InsertKeepsOrder(bound, b);
    assert forall i :: 0 <= i < |bound| ==> (bound + [b])[i] == bound[i];
    assert (bound + [b])[|bound|] == b;
    assert IndexOf(bound + [b], b.sockfd) == |bound|;
  }

  // ---------------------------------------------------------------- counting

  function Total(table: Table): nat {
    if table == [] then 0 else Total(table[..|table| - 1]) + |table[|table| - 1]|
  }

  // The number of ports with at least one binding.
  function Busy(table: Table): nat {
    if table == [] then 0
    else Busy(table[..|table| - 1]) + if table[|table| - 1] == [] then 0 else 1
  }

  function EmptyTable(): (table: Table)
    ensures |table| == UDP_MAX_PORT && Total(table) == 0 && Busy(table) == 0
    ensures forall p :: 0 <= p < |table| ==> table[p] == []
  {
    var table: Table := seq(UDP_MAX_PORT, _ => []);
    TotalZero(table);
    BusyBounds(table);
    table
  }

  lemma {:induction false} TotalUpdate(table: Table, p: nat, bound: Bound)
    requires p < |table|
    ensures Total(table[p := bound]) == Total(table) - |table[p]| + |bound|
  {
    var last := |table| - 1;
    if p == last {
      assert table[p := bound][..last] == table[..last];
    } else {
      assert table[p := bound][..last] == table[..last][p := bound];
      TotalUpdate(table[..last], p, bound);
    }
  }

  lemma {:induction false} BusyUpdate(table: Table, p: nat, bound: Bound)
    requires p < |table|
    ensures Busy(table[p := bound]) ==
            Busy(table) - (if table[p] == [] then 0 else 1) + (if bound == [] then 0 else 1)
  {
    var last := |table| - 1;
    if p == last {
      assert table[p := bound][..last] == table[..last];
    } else {
      assert table[p := bound][..last] == table[..last][p := bound];
      BusyUpdate(table[..last], p, bound);
    }
  }

  // Every port of `listed`, p excepted, has a binding.
  ghost predicate OccupiedBut(table: Table, listed: set<nat>, p: nat) {
    forall q :: q in listed && q != p ==> q < |table| && table[q] != []
  }

  /** The counts after one more binding at port p. */
  lemma AfterInsert(table: Table, listed: set<nat>, p: nat, b: Binding) returns (after: Table)
    requires p < |table| && OccupiedBut(table, listed, p)
    ensures after == table[p := Insert(table[p], b)]
    ensures |after| == |table| && Total(after) == Total(table) + 1
    ensures Busy(after) == Busy(table) + if table[p] == [] then 1 else 0
    ensures OccupiedBut(after, listed, |after|)
  {
    after := table[p := Insert(table[p], b)];
    TotalUpdate(table, p, Insert(table[p], b));
    BusyUpdate(table, p, Insert(table[p], b));
  }

  /** The counts after one binding less at port p. */
  lemma AfterRemove(table: Table, listed: set<nat>, p: nat, k: nat) returns (after: Table)
    requires p < |table| && k < |table[p]| && OccupiedBut(table, listed, p)
    ensures after == table[p := RemoveAt(table[p], k)]
    ensures |after| == |table| && Total(after) == Total(table) - 1
    ensures Busy(after) == Busy(table) - if after[p] == [] then 1 else 0
    ensures OccupiedBut(after, listed, p)
  {
    after := table[p := RemoveAt(table[p], k)];
    TotalUpdate(table, p, RemoveAt(table[p], k));
    BusyUpdate(table, p, RemoveAt(table[p], k));
  }

  lemma {:induction false} BusyBounds(table: Table)
    ensures Busy(table) <= Total(table)
    ensures Busy(table) <= |table|
    ensures (forall p :: 0 <= p < |table| ==> table[p] != []) ==> Busy(table) == |table|
  {
    if table != [] {
      BusyBounds(table[..|table| - 1]);
    }
  }

  lemma {:induction false} TotalPart(table: Table, p: nat)
    requires p < |table|
    ensures |table[p]| <= Total(table)
  {
    if p < |table| - 1 {
      TotalPart(table[..|table| - 1], p);
    }
  }

  lemma {:induction false} TotalZero(table: Table)
    ensures Total(table) == 0 <==> forall p :: 0 <= p < |table| ==> table[p] == []
  {
    if table != [] {
      TotalZero(table[..|table| - 1]);
    }
  }

  // ---------------------------------------------------------------- the free-port search

  // The first port without bindings, from port p on.
  function FreePortFrom(table: Table, p: nat): (r: Option<nat>)
    requires p <= |table|
    ensures r.Some? ==> p <= r.value < |table| && table[r.value] == []
    ensures r.Some? ==> forall q :: p <= q < r.value ==> table[q] != []
    ensures r.None? ==> forall q :: p <= q < |table| ==> table[q] != []
    decreases |table| - p
  {
    if p == |table| then None
    else if table[p] == [] then Some(p)
    else FreePortFrom(table, p + 1)
  }

  function FreePort(table: Table): Option<nat> {
    FreePortFrom(table, 0)
  }

  /** Pigeonhole: fewer bindings than ports leave a port free. */
  lemma {:induction false} FreePortExists(table: Table)
    requires Total(table) < |table|
    ensures FreePort(table).Some?
  {
    BusyBounds(table);
  }
}
