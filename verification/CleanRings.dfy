/** When a new socket starts with empty rings: udpdk_close does not drain the rings of its slot, and
    udpdk_socket does not either (udpdk_syscall.c). */
module CleanRings {
  import opened Constants
  import opened Engines

  predicate Clean(e: Engine, s: nat)
    requires Shape(e) && s < NUM_SOCKETS_MAX
  {
    e.rx[s] == [] && e.tx[s] == []
  }

  // The poller serves the rings of slots in use only.
  predicate ServesUsed(e: Engine, op: Op)
    requires Shape(e) && Legal(op)
  {
    op.OpArrive? || op.OpDrain? ==> e.slots[op.s].used
  }

  ghost predicate UsedOnly(e: Engine, ops: seq<Op>)
    requires Shape(e) && AllLegal(ops)
    decreases |ops|
  {
    ops == [] || (ServesUsed(e, ops[0]) && UsedOnly(Step(e, ops[0]).0, ops[1..]))
  }

  lemma {:induction false} UsedOnlyAppend(e: Engine, a: seq<Op>, b: seq<Op>)
    requires Shape(e) && AllLegal(a) && AllLegal(b)
    requires UsedOnly(e, a) && UsedOnly(Run(e, a), b)
    ensures AllLegal(a + b) && UsedOnly(e, a + b)
    decreases |a|
  {
    if a == [] {
      assert a + b == b;
    } else {
      assert (a + b)[1..] == a[1..] + b && (a + b)[0] == a[0];
      UsedOnlyAppend(Step(e, a[0]).0, a[1..], b);
    }
  }

  // The call opens a socket on slot s.
  ghost predicate OpensSlot(e: Engine, op: Op, s: nat)
    requires Shape(e) && Legal(op)
  {
    op.OpSocket? && Step(e, op).1 == Done(s)
  }

  // Some later call opens a socket on slot s.
  ghost predicate OpenedLater(e: Engine, ops: seq<Op>, s: nat)
    requires Shape(e) && AllLegal(ops)
    decreases |ops|
  {
    ops != [] && (OpensSlot(e, ops[0], s) || OpenedLater(Step(e, ops[0]).0, ops[1..], s))
  }

  // The call, if it opens a socket on slot s, finds both rings empty.
  ghost predicate OpenIsClean(e: Engine, op: Op, s: nat)
    requires Shape(e) && Legal(op) && s < NUM_SOCKETS_MAX
  {
    OpensSlot(e, op, s) ==> Clean(e, s)
  }

  // The first call, if it closes slot s and that is opened again, is made with both rings empty.
  ghost predicate CloseIsClean(e: Engine, ops: seq<Op>, s: nat)
    requires Shape(e) && AllLegal(ops) && ops != [] && s < NUM_SOCKETS_MAX
  {
    ops[0] == OpClose(s) && e.slots[s].used && OpenedLater(Step(e, ops[0]).0, ops[1..], s) ==> Clean(e, s)
  }

  /** Every socket that is opened finds both rings of its slot empty. */
  ghost predicate CleanOpens(e: Engine, ops: seq<Op>)
    requires Shape(e) && AllLegal(ops)
    decreases |ops|
  {
    ops != [] ==>
      && (forall s: nat :: s < NUM_SOCKETS_MAX ==> OpenIsClean(e, ops[0], s))
      && CleanOpens(Step(e, ops[0]).0, ops[1..])
  }

  /** Every close of a slot that is opened again later is made with both rings empty. */
  ghost predicate CleanCloses(e: Engine, ops: seq<Op>)
    requires Shape(e) && AllLegal(ops)
    decreases |ops|
  {
    ops != [] ==>
      && (forall s: nat :: s < NUM_SOCKETS_MAX ==> CloseIsClean(e, ops, s))
      && CleanCloses(Step(e, ops[0]).0, ops[1..])
  }

  // An unused slot is clean if it is opened again.
  ghost predicate Ready(e: Engine, ops: seq<Op>, s: nat)
    requires Shape(e) && AllLegal(ops) && s < NUM_SOCKETS_MAX
  {
    !e.slots[s].used && OpenedLater(e, ops, s) ==> Clean(e, s)
  }

  ghost predicate AllReady(e: Engine, ops: seq<Op>)
    requires Shape(e) && AllLegal(ops)
  {
    forall s: nat :: s < NUM_SOCKETS_MAX ==> Ready(e, ops, s)
  }

  // What a step does to a slot that it neither opens nor closes.
  lemma SlotKept(e: Engine, op: Op, s: nat)
    requires Shape(e) && Legal(op) && ServesUsed(e, op) && s < NUM_SOCKETS_MAX
    requires !OpensSlot(e, op, s) && op != OpClose(s)
    ensures Step(e, op).0.slots[s].used == e.slots[s].used
    ensures !e.slots[s].used ==> Step(e, op).0.rx[s] == e.rx[s] && Step(e, op).0.tx[s] == e.tx[s]
  {
    UseKept(e, op, s);
  }

  lemma UseKept(e: Engine, op: Op, s: nat)
    requires Shape(e) && Legal(op) && s < NUM_SOCKETS_MAX && !OpensSlot(e, op, s) && op != OpClose(s)
    ensures Step(e, op).0.slots[s].used == e.slots[s].used
  {
  }

  lemma SlotOpened(e: Engine, op: Op, s: nat)
    requires Shape(e) && Legal(op) && s < NUM_SOCKETS_MAX && OpensSlot(e, op, s)
    ensures !e.slots[s].used && Step(e, op).0.slots[s].used
  {
  }

  lemma SlotClosed(e: Engine, s: nat)
    requires Shape(e) && s < NUM_SOCKETS_MAX
    ensures !Step(e, OpClose(s)).0.slots[s].used
    ensures Step(e, OpClose(s)).0.rx == e.rx && Step(e, OpClose(s)).0.tx == e.tx
  {
  }

  lemma SlotStep(e: Engine, ops: seq<Op>, s: nat)
    requires Shape(e) && AllLegal(ops) && ops != [] && ServesUsed(e, ops[0]) && s < NUM_SOCKETS_MAX
    ensures OpenIsClean(e, ops[0], s) && Ready(Step(e, ops[0]).0, ops[1..], s) <==>
            Ready(e, ops, s) && CloseIsClean(e, ops, s)
  {
    if OpensSlot(e, ops[0], s) {
      SlotOpened(e, ops[0], s);
    } else if ops[0] == OpClose(s) {
      SlotClosed(e, s);
    } else {
      SlotKept(e, ops[0], s);
    }
  }

  lemma StepReady(e: Engine, ops: seq<Op>)
    requires Shape(e) && AllLegal(ops) && ops != [] && ServesUsed(e, ops[0])
    ensures (forall s: nat :: s < NUM_SOCKETS_MAX ==> OpenIsClean(e, ops[0], s)) &&
            AllReady(Step(e, ops[0]).0, ops[1..]) <==>
            AllReady(e, ops) && (forall s: nat :: s < NUM_SOCKETS_MAX ==> CloseIsClean(e, ops, s))
  {
    forall s: nat | s < NUM_SOCKETS_MAX
      ensures OpenIsClean(e, ops[0], s) && Ready(Step(e, ops[0]).0, ops[1..], s) <==>
              Ready(e, ops, s) && CloseIsClean(e, ops, s)
    {
      SlotStep(e, ops, s);
    }
  }

  lemma {:induction false} OpensCleanExactly(e: Engine, ops: seq<Op>)
    requires Shape(e) && AllLegal(ops) && UsedOnly(e, ops)
    ensures CleanOpens(e, ops) <==> AllReady(e, ops) && CleanCloses(e, ops)
    decreases |ops|
  {
    if ops != [] {
      OpensCleanExactly(Step(e, ops[0]).0, ops[1..]);
      StepReady(e, ops);
    }
  }

  /** In a run of the engine every new socket starts with both rings of its slot empty exactly if
      every slot that is opened again was closed with both rings empty. */
  lemma CleanExactly(ops: seq<Op>)
    requires AllLegal(ops) && UsedOnly(InitialEngine(), ops)
    ensures CleanOpens(InitialEngine(), ops) <==> CleanCloses(InitialEngine(), ops)
  {
    OpensCleanExactly(InitialEngine(), ops);
    forall s: nat | s < NUM_SOCKETS_MAX
      ensures Ready(InitialEngine(), ops, s)
    {
      assert Clean(InitialEngine(), s);
    }
  }

  lemma {:induction false} CleanOpensAppend(e: Engine, a: seq<Op>, b: seq<Op>)
    requires Shape(e) && AllLegal(a) && AllLegal(b)
    ensures AllLegal(a + b) && (CleanOpens(e, a + b) <==> CleanOpens(e, a) && CleanOpens(Run(e, a), b))
    decreases |a|
  {
    if a == [] {
      assert a + b == b;
    } else {
      assert (a + b)[1..] == a[1..] + b && (a + b)[0] == a[0];
      CleanOpensAppend(Step(e, a[0]).0, a[1..], b);
    }
  }

  lemma {:induction false} NoOpensClean(e: Engine, ops: seq<Op>)
    requires Shape(e) && AllLegal(ops) && forall i :: 0 <= i < |ops| ==> !ops[i].OpSocket?
    ensures CleanOpens(e, ops)
    decreases |ops|
  {
    if ops != [] {
      NoOpensClean(Step(e, ops[0]).0, ops[1..]);
    }
  }
}
