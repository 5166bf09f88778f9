# UDPDK socket engine, verified

A Dafny 4.11 model of the userspace UDP engine of UDPDK, with proofs. `dafny verify dfyconfig.toml`
checks all of it. The engine is modelled in layers, and the invariant of each is what the next one
needs:

1. **Allocator** (`Bits`, `Shmalloc`): fixed-size blocks with a bit per block, a free count and a
   next-fit cursor. It refines a set of live addresses.
2. **List and iterator** (`LinkedList`): the doubly linked list on nodes from the allocator. It
   refines a sequence.
3. **Bind table** (`Bindings` for its meaning, `PortTables` and `BindTables` for the code): the
   65536 port lists over four pools. It refines a sequence of bindings per port.
4. **Sockets** (`Datagrams`, `Engines` and `Arguments` for the calls as functions on values,
   `Outcomes` for what a caller sees of each, `Sockets` for the code): socket, setsockopt, bind,
   sendto, recvfrom, close and the teardown. The invariant `Engines.Inv` holds after every run of
   calls.
5. **Poller** (`Delivery`, `Overflows` and `RxPollers` for receiving, `Transmit` and `TxPollers` for
   sending): switching, clones and buffers; the bounded TX table, fragments and bursts.
6. **The whole** (`Hosts` for calls and passes in any order, `CleanRings` for what a new socket
   finds, `System` for what all layers give together): no overflow in any run, delivery to the
   rings, and the way of a datagram from a sender to a receiver.

Where the C code changes state the model does so too: classes with fields, loops with invariants,
objects that share pools. The state of each class is tied to a value, and each method is proved to
do on that value exactly what a function says; what those functions guarantee over runs, bursts and
passes is proved as lemmas about them.

## Code and comments

The model follows the code where it disagrees with its own comments or its evident intent. For each
of these there is a theorem that says exactly when the code still does what was meant, and in
`Departures` a concrete input for which it does not:

- `udpdk/shmalloc/udpdk_shmalloc.c:37,41`: sizes are divided for rounding and not multiplied back,
  so the blocks of every real pool overlap. `Shmalloc.WrittenLayoutHolds`,
  `Shmalloc.DocumentedLayoutHolds`.
- `udpdk/udpdk_bind_table.c:74`: the test for "one is INADDR_ANY" lets a wildcard never join a
  port that is in use. `Bindings.CanBindVersusDocumented`.
- `udpdk/udpdk_syscall.c:519`: the counter of active slots is incremented on close. It is exact
  only until the first close, and no run opens more than 1024 sockets in all.
  `Engines.ActiveCountExact`, `Engines.AtMost1024Opens`, `Engines.LockedForGood`.
- `udpdk/udpdk_syscall.c:162-179`: the Linux values of the two reuse options share a bit.
  `Engines.OptionsIndependent`, `Engines.ReuseAddrImpliesReusePort`.
- `udpdk/udpdk_poller.c:294,538`: the slot index has 8 bits, so descriptors from 256 on are served
  by the slot of another socket, and the flush skips slots that are not in use. So a receive buffer
  can overflow in two ways: two receivers of one packet have descriptors that are equal modulo 256,
  and one burst is enough; or a receiver is served by a slot that is not in use, and packets pile up
  from pass to pass. `Overflows.OverflowExactly` (neither, if and only if no overflow, over any
  number of passes), `Overflows.EmptyAgainExactly`, `Hosts.BuffersNeverOverflow`.
- The same index decides which ring a datagram reaches: `System.RingGetsWhatItListensTo` says for
  which slots that is the right one.
- `udpdk/udpdk_poller.c:362-380`: the early returns leak the packet. `Delivery.LostExactly`.
- `udpdk/udpdk_poller.c:396-403`: the scan for receivers stops at a wildcard without reuse options,
  even when others were allowed to join its port; they never receive. `Delivery.EarlyStopLosesNobody`.
- `udpdk/udpdk_syscall.c:356` with `udpdk/udpdk_init.c:85-86`: the payload is copied into the packet
  buffer without a look at its room, which is 2048 bytes. From 2007 bytes on the copy runs into the
  next buffer of the pool. `Datagrams.CopyStaysInside`, `Datagrams.RoundTripExactly`.
- `udpdk/udpdk_syscall.c:348-349`: the 16-bit data length wraps, so payloads above 65493 bytes would be
  cut in buffers of any size, although UDP allows 65507. `Datagrams.LengthFields`,
  `Datagrams.RoundTripExactly`.
- `udpdk/udpdk_syscall.c:501-521`: close leaves packets in both rings of the slot. The next socket on
  it receives those in the one, and those in the other are sent once the slot is in use again.
  `CleanRings.CleanExactly`. And packets that wait in the receive buffer of a slot that is not in use
  reach the next socket on it as well. `Hosts.NewSocketsStartClean` has both.
- `udpdk/udpdk_syscall.c:299`: the implicit bind takes the lowest free port, port 0 first, which RFC
  768 keeps for "no port". `Engines.ImplicitBindPortZero`.

## Model

| member | source | states |
|---|---|---|
| Bits.SetBitTests | udpdk/shmalloc/udpdk_shmalloc.c:16-18 | setting bit k makes it read as set and leaves every other bit of the field as it was |
| Bits.ClearBitTests | udpdk/shmalloc/udpdk_shmalloc.c:16-18 | clearing bit k makes it read as clear and leaves every other bit as it was |
| Shmalloc.IndexOfBlock | udpdk/shmalloc/udpdk_shmalloc.c:140 | for every address inside block i the division of udpdk_shfree gives back i |
| Shmalloc.ScanCoversAll | udpdk/shmalloc/udpdk_shmalloc.c:101-111 | size steps of the wrap-around scan visit every block |
| Shmalloc.AllMarked | udpdk/shmalloc/udpdk_shmalloc.c:101-111 | if all steps of the scan meet set bits then no block is free, so the scan cannot fail while one is |
| Shmalloc.Allocator.Init | udpdk/shmalloc/udpdk_shmalloc.c:28-64 | the pool starts with the invariant and no live block; its start, size, block size and pool offset are the arguments and the two numbers of the layout as the code computes it, its cursor is at block 0 |
| Shmalloc.Allocator.InitAsDocumented | udpdk/shmalloc/udpdk_shmalloc.c:36-43 | the same pool with the layout as the comments describe it |
| Shmalloc.Allocator.Malloc | udpdk/shmalloc/udpdk_shmalloc.c:71-115 | fails exactly when all blocks are live; otherwise returns zone + pool offset + cursor * block size, which was not live, and adds just that one; the cursor moves to the first clear bit after the block; invariant: free count and live blocks add up to size, the cursor is clear while a block is free |
| Shmalloc.Allocator.FindNextFree | udpdk/shmalloc/udpdk_shmalloc.c:99-112 | with a free block left the scan ends at the first clear bit after the cursor |
| Shmalloc.Allocator.Free | udpdk/shmalloc/udpdk_shmalloc.c:118-154 | an address inside a live block frees exactly that block; a double free or an address outside the pool changes nothing; a full pool gets a valid cursor again |
| Shmalloc.Allocator.LiveAddress | udpdk/shmalloc/udpdk_shmalloc.c:92 | a live address lies in the pool and is the start of its block |
| Shmalloc.Allocator.LiveBlocksApart | udpdk/shmalloc/udpdk_shmalloc.c:71-115 | the addresses handed out and not given back are apart, behind the bit words and inside the zone in every state of the pool if its layout keeps blocks so, and in a full pool only if it does |
| Shmalloc.Allocator.DocumentedPoolHolds | udpdk/shmalloc/udpdk_shmalloc.c:36-43 | so they always are in a pool with the layout of the comments |
| Shmalloc.Allocator.WrittenPoolHolds | udpdk/shmalloc/udpdk_shmalloc.c:36-43 | and in a full pool with the layout of the code exactly in the cases of WrittenLayoutHolds |
| Shmalloc.DocumentedLayoutHolds | udpdk/shmalloc/udpdk_shmalloc.c:36-43 | with sizes rounded as the comments say, for every pool all blocks hold the request, are disjoint, lie inside the zone and behind the words of the bit field |
| Shmalloc.WrittenLayoutHolds | udpdk/shmalloc/udpdk_shmalloc.c:36-43 | with sizes as the code computes them this holds exactly for empty pools and for one-byte blocks whose bit words fit the bytes reserved |
| Shmalloc.LayoutDoesNotWrap | udpdk/shmalloc/udpdk_shmalloc.c:36-43 | as long as no sum exceeds 32 bits the unsigned arithmetic of the code gives this layout |
| Shmalloc.PoolsDoNotWrap | udpdk/list/udpdk_list_init.c:10-12 | that is so for the four pools of the engine |
| Shmalloc.PoolLayouts | udpdk/list/udpdk_list_init.c:10-12 | the block size, pool offset and reserved bytes of the four pools in numbers, as the code has them and as the comments mean them: the bind_infos start at byte 149, one byte apart |
| LinkedList.RelinkedAround | udpdk/list/udpdk_list.c:216-224 | if every pointer skips node k in both directions, the pointers spell out the sequence without it |
| LinkedList.List.RPush | udpdk/list/udpdk_list.c:56-72 | the node joins at the end; NULL is refused; links, head, tail and len stay consistent |
| LinkedList.List.LPush | udpdk/list/udpdk_list.c:119-135 | the node joins at the front; NULL is refused |
| LinkedList.List.RPop | udpdk/list/udpdk_list.c:78-92 | the last node leaves, unlinked; NULL from an empty list |
| LinkedList.List.LPop | udpdk/list/udpdk_list.c:98-112 | the first node leaves, unlinked; NULL from an empty list |
| LinkedList.List.Remove | udpdk/list/udpdk_list.c:215-229 | any node, at an end or inside, is unlinked and its block given back; the others keep their order |
| LinkedList.List.ItemAt | udpdk/list/udpdk_list.c:191-209 | index i counts from the front, -1 is the last node, NULL outside; the iterator pool is as before |
| LinkedList.List.Destroy | udpdk/list/udpdk_list.c:35-49 | the blocks of all nodes and of the list go back to their pools and no other block does |
| LinkedList.IteratorNew | udpdk/list/udpdk_list_iterator.c:18-39 | starts at the head or the tail; NULL exactly when the iterator pool is exhausted |
| LinkedList.ListIterator.Next | udpdk/list/udpdk_list_iterator.c:46-55 | step n of a traversal is node n from the chosen end; NULL past the other end, and it stays there |
| LinkedList.ListIterator.Destroy | udpdk/list/udpdk_list_iterator.c:61-65 | gives its block back |
| LinkedList.ListNew | udpdk/list/udpdk_list.c:18-29 | an empty list in a block that was not live; NULL exactly when the pool is exhausted |
| LinkedList.ListNodeNew | udpdk/list/udpdk_list_node.c:17-26 | a node without neighbours in a block that was not live; NULL exactly when the pool is exhausted |
| Bindings.PassesMeansCompatible | udpdk/udpdk_bind_table.c:69-84 | the three continue branches together mean: the newcomer is specific; next to a wildcard it has a reuse option; next to its own address both have SO_REUSEPORT |
| Bindings.CanBindVersusDocumented | udpdk/udpdk_bind_table.c:69-84 | the code decides as its comments say exactly unless a wildcard with a reuse option meets a port that has bindings, all specific; it is never more liberal |
| Bindings.InsertKeepsOrder | udpdk/udpdk_bind_table.c:118-124 | what is let in ends up last, head or tail insertion alike, and every binding stays compatible with all before it |
| Bindings.DeleteKeepsOrder | udpdk/udpdk_bind_table.c:135-141 | pairwise compatibility survives deletion |
| Bindings.WildcardIsHead | udpdk/udpdk_bind_table.c:118-124 | a port has at most one INADDR_ANY binding, and it is the head |
| Bindings.DeleteAfterInsert | udpdk/udpdk_bind_table.c:118-141 | deleting the newest binding restores the list of the port |
| Bindings.FreePortExists | udpdk/udpdk_bind_table.c:33-42 | fewer bindings than ports: the search finds a free port |
| PortTables.PortTable.Push | udpdk/udpdk_bind_table.c:118-124 | one port list grows at head or tail, all other lists are untouched, and every block in use has one holder |
| PortTables.PortTable.Remove | udpdk/udpdk_bind_table.c:135-141 | one port list loses node k, all other lists are untouched, and only that node's block is released |
| BindTables.BindTable.Init | udpdk/udpdk_bind_table.c:21-30 | all ports free, all pools full, invariant established; the pool of bind_infos lies in its zone with blocks one byte apart from byte 149 on |
| BindTables.BindTable.GetFreePort | udpdk/udpdk_bind_table.c:33-42 | the first port without bindings, -1 exactly if there is none |
| BindTables.BindTable.CanBindAt | udpdk/udpdk_bind_table.c:47-89 | the scan with early exit decides the rule for all bindings of the port and returns its iterator |
| BindTables.BindTable.AddBinding | udpdk/udpdk_bind_table.c:92-126 | binds exactly when the rule allows, else returns -1 and changes nothing; no allocation fails while fewer than 1024 bindings exist |
| BindTables.BindTable.DelBinding | udpdk/udpdk_bind_table.c:129-149 | the first binding of the socket leaves the port; its blocks, and the list if it was the last, go back to the pools |
| BindTables.FindConflict | udpdk/udpdk_bind_table.c:64-88 | the loop answers yes exactly if every binding passes |
| BindTables.FindSocket | udpdk/udpdk_bind_table.c:134-142 | the loop finds the first node with that descriptor, NULL if there is none |
| Datagrams.LengthFields | udpdk/udpdk_syscall.c:336-349 | the total length of the IP header is right up to 65507 bytes of payload, the UDP length up to 65527, the data length of the mbuf up to 65493, and not beyond |
| Datagrams.HeaderFields | udpdk/udpdk_syscall.c:321-344 | protocol, both addresses, both ports and both length fields lie where a receiver looks for them; `Datagrams.FrameBytes` has the bytes |
| Datagrams.FrameBytes | udpdk/udpdk_syscall.c:313-356 | every byte of a frame in numbers: both MAC addresses in their order, 8 and 0 for IPv4, the IP header with its length high byte first, addresses and ports as the socket structures have them, the UDP length high byte first, the payload |
| Datagrams.FrameBytesAt | udpdk/udpdk_syscall.c:313-356 | by position: bytes 0-5 destination MAC, 6-11 source MAC, 12-13 8 and 0, 16-17 the length of the IP packet, 38-39 that of the UDP datagram, high byte first, and from 42 on the payload |
| Datagrams.FieldsFromBytes | udpdk/udpdk_syscall.c:438-452 | what a receiver takes from any first segment: 256 times byte 38 plus byte 39, less 8, as the length, addresses and ports from the bytes 26 to 37, the protocol from byte 23 |
| Datagrams.OnePiecePayload | udpdk/udpdk_syscall.c:456-487 | of a frame in one piece a receiver is offered what follows the headers, cut to the length that its bytes 38 and 39 declare |
| Datagrams.SegmentReads | udpdk/udpdk_syscall.c:456-466 | what is taken for payload lies inside the segment exactly if the first segment holds the headers; otherwise the 32-bit subtraction wraps |
| Datagrams.TakenStep | udpdk/udpdk_syscall.c:457-479 | each segment adds exactly what the loop copies of it, always a prefix of the whole stream |
| Datagrams.CopyOut | udpdk/udpdk_syscall.c:456-487 | the buffer gets the first bytes of the stream, as many as asked for (in 32 bits) and available, and keeps the rest; the count says how many; no read past a segment, no write past len |
| Datagrams.ExactDelivery | udpdk/udpdk_syscall.c:461-466 | the stream is the declared payload exactly if there is one segment, or the segments do not exceed the declared length |
| Datagrams.RoundTrip | udpdk/udpdk_syscall.c:317-356 | of a frame that leaves the machine, whatever lies behind its packet buffer, cut into any segments or padded on the way, the receiver reads the sender's address and port and the destination, and the payload exactly as sent if it fits the buffer and 16 bits of data length |
| Datagrams.RoundTripExactly | udpdk/udpdk_syscall.c:346-356 | the payload comes through, whatever the memory behind the buffer holds and however the frame arrives, if and only if it has at most Min(room - 42, 65493) bytes |
| Datagrams.CopyStaysInside | udpdk/udpdk_syscall.c:354-356 | the copy changes no byte outside its packet buffer, whatever the memory holds, if and only if headers and payload fit the room |
| Datagrams.MakePacket | udpdk/udpdk_syscall.c:313-356 | a packet filled in place in its buffer holds the headers and the payload; `Datagrams.FrameBytes` says which bytes these are |
| Datagrams.SentWhole | udpdk/udpdk_syscall.c:346-356 | the packet buffer holds the whole frame exactly up to Min(room - 42, 65493) bytes of payload, and then that is what leaves the machine |
| Engines.OptionReadsBack | udpdk/udpdk_syscall.c:162-179 | an option reads as it was last set |
| Engines.OptionsIndependent | udpdk/udpdk_syscall.c:162-179 | two options do not disturb each other exactly if their masks are disjoint |
| Engines.ReuseAddrImpliesReusePort | udpdk/udpdk_bind_table.c:114-115 | with the Linux values a socket that asked for SO_REUSEADDR also counts as SO_REUSEPORT |
| Engines.FreeSlotFrom | udpdk/udpdk_syscall.c:62-70 | the lowest slot not in use; none exactly if all are in use |
| Arguments.CallsAreSteps | udpdk/udpdk_syscall.c:23-217 | socket, setsockopt and bind with their arguments checked are a step of the engine or are rejected without any change; which of the two is said exactly |
| Arguments.TransfersAreSteps | udpdk/udpdk_syscall.c:247-399 | the same for sendto and recvfrom, with flags, NULL pointers and a signal |
| Arguments.SourceAddressReads | udpdk/udpdk_syscall.c:440-454 | the source address is family 2, then port and address of the sender, then zeroes, cut to the room that the caller has |
| Outcomes.SocketOpens | udpdk/udpdk_syscall.c:62-81 | a new socket has the lowest free descriptor, is unbound and without options; the counter grows by one and nothing else changes |
| Outcomes.SocketAnswers | udpdk/udpdk_syscall.c:23-60 | for which arguments and states socket gives each of its four errors, exactly |
| Outcomes.OptionAfterCall | udpdk/udpdk_syscall.c:152-192 | after setsockopt the option reads as asked for, on or off; no bit outside its mask changes, none at all if it read so before, and no other slot |
| Outcomes.SetSockOptAnswers | udpdk/udpdk_syscall.c:83-192 | for which arguments and states setsockopt gives each of its four errors, exactly, and that the named option then reads as its value |
| Outcomes.BindDecides | udpdk/udpdk_syscall.c:219-245 | a bind of an unbound socket succeeds if and only if the binding, with the reuse options that its option word has a bit of, is compatible with every binding of the port; then that very binding joins the port last, the slot has its port and address, and all else is as before |
| Outcomes.BindAnswers | udpdk/udpdk_syscall.c:194-245 | for which arguments and states bind gives each of its three errors, exactly |
| Outcomes.EitherOptionShares | udpdk/udpdk_bind_table.c:77-82 | in a run, two sockets that each set either reuse option both bind to any specific address on a free port |
| Outcomes.SendToDecides | udpdk/udpdk_syscall.c:278-368 | sendto succeeds if and only if the socket is in use, a packet buffer is there and the transmit ring holds less than 2047 packets; it returns the length of the payload, and the ring is the old one with one packet more; each of the four errors exactly, ENOBUFS if and only if there was a buffer and the ring was full |
| Outcomes.SendToBinds | udpdk/udpdk_syscall.c:294-304 | a bound socket stays as it is; another is bound to INADDR_ANY and the lowest free port, even if the packet is then refused |
| Outcomes.SendToFills | udpdk/udpdk_syscall.c:313-359 | the packet that joins the ring, byte for byte: from the address and port the socket is bound to, or the configured address for INADDR_ANY, to the destination of the call, with the payload |
| Outcomes.SendToAnswers | udpdk/udpdk_syscall.c:247-283 | which arguments sendto rejects, exactly, and that this changes nothing |
| Outcomes.RecvFromDecides | udpdk/udpdk_syscall.c:401-433 | recvfrom succeeds if and only if the socket is in use and its ring is not empty; then the oldest packet leaves the ring and nothing else changes |
| Outcomes.RecvFromAnswers | udpdk/udpdk_syscall.c:370-433 | for which arguments and states recvfrom gives each of its errors, exactly |
| Outcomes.CloseFrees | udpdk/udpdk_syscall.c:501-521 | a close frees the slot and takes the bindings of that socket, and no others, from the table; rings and other slots are as they were |
| Engines.InitialInv | udpdk/udpdk_types.h:49-53 | the zeroed zone and the empty table satisfy the invariant |
| Engines.BindKeepsAgree | udpdk/udpdk_syscall.c:229-240 | a bind that the rule allows keeps slots and table in agreement |
| Engines.CloseKeepsAgree | udpdk/udpdk_syscall.c:508-516 | so does a close |
| Engines.StepKeepsInv | udpdk/udpdk_syscall.c:48-521 | every call, and every step of the poller on the rings, keeps the invariant |
| Engines.RunKeepsInv | udpdk/udpdk_syscall.c:48-521 | the invariant holds after every run |
| Engines.BoundMeansListedOnce | udpdk/udpdk_syscall.c:219-245 | a slot is bound exactly when the whole table has an entry with its descriptor; there is one only, at the slot's port and address |
| Engines.PoolsSuffice | udpdk/udpdk_bind_table.c:105-119 | at most 1024 bindings, fewer while a socket is unbound, and no more lists than bindings |
| Engines.ImplicitBindSucceeds | udpdk/udpdk_syscall.c:294-304 | the bind inside sendto finds a free port, cannot fail, and makes the socket the port's only binding |
| Engines.ImplicitBindPortZero | udpdk/udpdk_syscall.c:299 | the implicit bind takes port 0 exactly while that has no binding |
| Engines.CloseUndoesBind | udpdk/udpdk_syscall.c:501-516 | bind and close restore the contents of every port |
| Engines.RunCounts | udpdk/udpdk_syscall.c:48-521 | over a run the counter grows by opens plus closes while the slots in use grow by opens minus closes |
| Engines.ActiveCountExact | udpdk/udpdk_syscall.c:518-519 | the counter is the number of open sockets exactly if no socket was ever closed |
| Engines.AtMost1024Opens | udpdk/udpdk_syscall.c:57-60 | no run, however long, opens more than 1024 sockets in all |
| Engines.LockedForGood | udpdk/udpdk_syscall.c:57-60 | once the counter is over the limit no later call opens a socket |
| Engines.SocketSucceeds | udpdk/udpdk_syscall.c:48-81 | a socket call succeeds exactly if the counter is not over the limit and some slot is unused, and returns an unused slot |
| Engines.RingsAreQueues | udpdk/udpdk_syscall.c:359-426 | over a whole run: taken from a ring, then left in it, is what was there and then put in, in order, for both rings of every slot |
| Engines.CloseAllEmptiesTable | udpdk/udpdk_init.c:381-389 | teardown leaves every port free and nothing bound; only sockets never bound stay open |
| Sockets.SocketLayer.constructor | udpdk/udpdk_types.h:49-53 | starts in the initial state with the invariant |
| Sockets.SocketLayer.Socket | udpdk/udpdk_syscall.c:23-81 | the whole new state and the reply are those of the abstract call: domain, type and protocol are checked in this order; the lowest free slot is taken and reset, the counter grows, ENOBUFS over the limit or without a free slot; nothing else changes |
| Sockets.SocketLayer.SetSockOpt | udpdk/udpdk_syscall.c:83-192 | the whole new state and the reply are those of the abstract call, which `Outcomes.SetSockOptAnswers` and `Outcomes.OptionAfterCall` describe: descriptor, level, option name and NULL are checked in this order; only the option word of that slot changes |
| Sockets.SocketLayer.Bind | udpdk/udpdk_syscall.c:194-245 | the whole new state and the reply are those of the abstract call, which `Outcomes.BindDecides` and `Outcomes.BindAnswers` describe, on slots and linked lists together: EBADF, EINVAL for a bound socket, a wrong family or length, and EADDRINUSE change nothing, and no allocation in the pools fails |
| Sockets.SocketLayer.SendTo | udpdk/udpdk_syscall.c:247-368 | the whole new state and the reply are those of the abstract call, which `Outcomes.SendToDecides`, `Outcomes.SendToBinds` and `Outcomes.SendToFills` describe: checks, implicit bind, packet filled in its buffer and put at the end of the transmit ring; never EADDRINUSE, and EINVAL only for flags or a missing destination, since the implicit bind cannot fail |
| Sockets.SocketLayer.RecvFrom | udpdk/udpdk_syscall.c:370-488 | the whole new state and the reply are those of the abstract call: checks, a signal, then the oldest packet leaves the ring, its payload goes to the buffer, its source address, cut to the room for it, to the caller; on any error the buffer is untouched |
| Sockets.SocketLayer.Close | udpdk/udpdk_syscall.c:501-521 | the whole new state and the reply are those of the abstract call, on slots and linked lists together; the blocks of the binding go back |
| Sockets.SocketLayer.CloseAll | udpdk/udpdk_init.c:381-389 | every block of all four pools is given back |
| Sockets.SocketLayer.PoolsTrackSockets | udpdk/list/udpdk_list_init.c:8-13 | between calls: one bind_info and one node per bound socket, one list per port in use, no iterator |
| Sockets.SocketLayer.PoolsFollowTable | udpdk/list/udpdk_list_init.c:8-13 | the free counts of all four pools are determined by the bindings in the table |
| Sockets.SocketLayer.BindAndCloseRestorePools | udpdk/udpdk_syscall.c:501-516 | bind and close restore the free counts of all four pools |
| Sockets.ReceivedIsSent | udpdk/udpdk_syscall.c:438-487 | from a frame that left the sender a receiver gets its address and port and, up to Min(room - 42, 65493) bytes of payload, the first min(len, n) of its n bytes with that count |
| Delivery.ScanDelivers | udpdk/udpdk_poller.c:383-408 | the loop delivers to exactly the matching bindings in list order, up to the first without reuse option; original and clones are, one by one, the delivered buffers and the freed one |
| Delivery.EarlyStopLosesNobody | udpdk/udpdk_poller.c:396-403 | stopping early loses no receiver, for any destination, exactly if the list is not a wildcard without reuse options with others behind it; then all of those are deaf |
| Delivery.OneReceiverWithoutReuse | udpdk/udpdk_poller.c:387-403 | on a port without reuse options at most one binding matches any destination |
| Delivery.ClassFromBytes | udpdk/udpdk_poller.c:368-373 | what a complete datagram is for is read off its bytes: UDP exactly if byte 23 is 17, the port from 36 and 37, the address from 30 to 33 |
| Delivery.SwitchConserves | udpdk/udpdk_poller.c:316-413 | the buffer held for a frame and its clones are exactly those queued, freed and lost, all different |
| Delivery.LostExactly | udpdk/udpdk_poller.c:362-380 | a buffer leaks exactly if the frame is not IPv4, not UDP or for a port with no binding |
| Overflows.CanReceiveExactly | udpdk/udpdk_poller.c:387-403 | an entry is a receiver for some destination exactly if it heads its list or no wildcard without reuse options heads it |
| Overflows.MeetExactly | udpdk/udpdk_poller.c:387-403 | two entries are receivers of one packet exactly if no such wildcard heads the list and their addresses are equal or one is a wildcard |
| Overflows.HitsOnceExactly | udpdk/udpdk_poller.c:294-298 | no packet is put twice into one buffer exactly if no two entries that are receivers of one packet have descriptors equal modulo 256 |
| Overflows.EmptyAgainExactly | udpdk/udpdk_poller.c:536-541 | empty buffers are empty again after every possible burst exactly if each entry that receives is served by a slot in use |
| Overflows.OverflowExactly | udpdk/udpdk_poller.c:294-298 | from empty buffers no row of passes, however long, overflows a buffer exactly if both conditions on the entries hold |
| Overflows.SmallSocketsShareNoSlot | udpdk/udpdk_poller.c:294-298 | bound descriptors below 256 share no slot |
| Delivery.BurstFillsBuffers | udpdk/udpdk_poller.c:519-534 | after a burst the buffer of a slot has grown by what was queued for it, in the order of arrival |
| Delivery.PassFillsRings | udpdk/udpdk_poller.c:274-292 | after the flush the ring of a slot in use has what its buffer held before and what was queued, in order behind its old contents, or none of it; other rings are untouched and their buffers grow |
| Delivery.BurstConserves | udpdk/udpdk_poller.c:519-534 | over a burst nothing is created but clones and nothing vanishes |
| Delivery.PassConserves | udpdk/udpdk_poller.c:516-545 | over a pass every held frame and clone is afterwards in a ring, in a buffer, freed or lost, just once |
| RxPollers.RoomForNext | udpdk/udpdk_constants.h:41-52 | a burst that overflows no buffer leaves room for each of its frames in turn, whatever the buffers hold to begin with |
| RxPollers.RxPoller.Enqueue | udpdk/udpdk_poller.c:294-298 | one more packet in the buffer of the slot with the low 8 bits of the descriptor |
| RxPollers.RxPoller.Flush | udpdk/udpdk_poller.c:274-292 | the buffer goes to the ring as a whole or is freed as a whole |
| RxPollers.RxPoller.SwitchScan | udpdk/udpdk_poller.c:383-408 | the loop over the linked list does what the scan of the abstract list does |
| RxPollers.RxPoller.Reassemble | udpdk/udpdk_poller.c:316-413 | one frame switched; the table is unchanged and the iterator returned |
| RxPollers.RxPoller.Pass | udpdk/udpdk_poller.c:516-541 | the two loops around the prefetch switch each frame exactly once, in order, and the flush follows; buffers that start empty end empty if every receiver is served by a slot in use |
| Transmit.VisitServes | udpdk/udpdk_poller.c:455-502 | a visit takes at least one packet if there is one, takes packets only while the table holds less than a burst, and stops for one of three reasons only |
| Transmit.TableFits | udpdk/udpdk_poller.c:455-502 | whatever a packet turns into fits behind what the TX table holds when it is taken |
| Transmit.BurstSplits | udpdk/udpdk_poller.c:415-425 | for any NIC, a burst puts the first packets of the table on the wire, as many as the NIC says, and frees exactly the rest |
| Transmit.VisitBursts | udpdk/udpdk_poller.c:448-514 | for any NIC, a visit takes packets from the front of the ring; what they turn into joins the table or is freed, and with 128 items or more the table goes out as one burst |
| Transmit.SentOrFreed | udpdk/udpdk_poller.c:455-502 | every packet is either sent, as it is up to 1500 bytes, else as all its fragments, or freed, because it cannot be cut or a fragment has no room for its header; never both, and in one way only |
| Transmit.PassSendsAll | udpdk/udpdk_poller.c:452-514 | if the NIC takes every burst whole, every packet taken goes out in that pass in one piece, as it is or as all its fragments in order; what is freed comes only from packets that could not be cut or had no room for a header |
| Transmit.PassConserves | udpdk/udpdk_poller.c:452-514 | after a pass the table is empty and every packet taken is on the wire or freed, whole or as all its fragments, once |
| Transmit.PassKeepsOrder | udpdk/udpdk_poller.c:452-514 | the wire grows by a subsequence of what was taken, slot after slot in ring order |
| Transmit.UnusedUntouched | udpdk/udpdk_poller.c:453-454 | a pass takes nothing from the ring of a slot that is not in use |
| Transmit.NoStarvation | udpdk/udpdk_poller.c:452-514 | the packet at position k of a ring leaves it within k + 1 rounds in which its slot is in use, however many others come in between and whatever else is sent |
| Transmit.SocketKeepsOrder | udpdk/udpdk_poller.c:448-514 | over any number of rounds the packets of each socket reach the wire as a subsequence of the order of sending |
| TxPollers.TxPoller.Flush | udpdk/udpdk_poller.c:415-425 | with k the smaller of what the NIC says and what the table holds, the first k go to the wire in order, exactly the rest is freed, the table is empty |
| TxPollers.TxPoller.PutFragments | udpdk/udpdk_poller.c:465-500 | all fragments join the table in order, or all are freed and the 16-bit counter ends where it was |
| TxPollers.TxPoller.Drain | udpdk/udpdk_poller.c:455-502 | the inner loop takes exactly the packets that the visit serves |
| TxPollers.TxPoller.Pass | udpdk/udpdk_poller.c:452-514 | the nested loops do the pass that `Transmit.PassSendsAll` and `Transmit.PassConserves` describe; the table never overflows and is empty in the end |
| CleanRings.CleanExactly | udpdk/udpdk_syscall.c:62-70 | in a run of the engine every new socket finds both rings of its slot empty exactly if every close of a slot that is opened again was made with both rings empty |
| Hosts.ReceiveIsPass | udpdk/udpdk_poller.c:519-541 | what one receive pass does to packet buffers is, for the datagrams behind them, the pass of the whole machine; clones have the data of their original |
| Hosts.RunIsSimulated | udpdk/udpdk_poller.c:448-546 | over any number of calls and passes in any order the poller with its packet buffers goes on to stand for the machine, and a pass of the one overflows exactly if one of the other does |
| Hosts.PollerNeverOverflows | udpdk/udpdk_poller.c:294-298 | in a run that opens at most 256 sockets no pass of the poller over its packet buffers overflows one |
| Hosts.HostRunIsRun | udpdk/udpdk_poller.c:448-546 | calls and passes in any order are a run of the engine in which the poller touches rings of slots in use only |
| Hosts.NewSocketsFindEmptyRings | udpdk/udpdk_syscall.c:501-521 | the condition for empty rings holds for calls and passes in any order |
| Hosts.NewSocketsStartClean | udpdk/udpdk_syscall.c:501-521 | in a run that is in a safe state whenever it receives every new socket finds both rings and the receive buffer of its slot empty exactly if every slot that is opened again was closed with both rings empty |
| Hosts.FewSocketsStartClean | udpdk/udpdk_syscall.c:501-521 | so in every run that opens at most 256 sockets |
| Hosts.OverflowInReachableState | udpdk/udpdk_poller.c:294-298 | in every reachable state, from empty buffers, no later pass overflows exactly if no two receivers of one packet share a slot and all are served by slots in use |
| Hosts.EmptyAgainExactly | udpdk/udpdk_poller.c:536-541 | in every reachable state empty buffers are empty again after any burst exactly if all receivers are served by slots in use |
| Hosts.SafeRun | udpdk/udpdk_poller.c:448-546 | a run in which both hold whenever packets are received never overflows, and keeps no packet in a buffer between passes |
| Hosts.FewSocketsAreSafe | udpdk/udpdk_syscall.c:62-70 | a run that opens n sockets uses descriptors below n only; up to 256 both conditions always hold |
| Hosts.BuffersNeverOverflow | udpdk/udpdk_poller.c:294-298 | no run of calls and passes that opens at most 256 sockets in all ever overflows a receive buffer |
| System.ListenersAreSelected | udpdk/udpdk_poller.c:375-405 | in every reachable state the scan selects exactly the sockets that listen to the destination, or the greedy wildcard alone |
| System.RingGetsWhatItListensTo | udpdk/udpdk_poller.c:274-298 | in every reachable state a burst adds to the buffer of a slot in use, whatever it holds, exactly one copy of each datagram its socket listens to, in order, if and only if its bound descriptor is below 256 and not hidden by a greedy wildcard, and no other receiver has a descriptor equal modulo 256; then that goes to the ring, all or nothing, and the same condition is exact for the ring where a wrong copy would show |
| System.LowSlotsOwnTheirRings | udpdk/udpdk_poller.c:294-298 | with descriptors below 256 only the greedy wildcard keeps a ring from its datagrams |
| System.SendIsPass | udpdk/udpdk_poller.c:452-514 | a transmit pass takes packets from the front of each ring, at least one if the slot is in use and has one, none if it is not in use |
| System.AcceptedComesThrough | udpdk/udpdk_syscall.c:278-368 | the payload of an accepted sendto comes through, whatever the memory behind the buffer holds, if and only if it has at most Min(room - 42, 65493) bytes |
| System.EndToEnd | udpdk/udpdk_syscall.c:278-488 | a frame from the transmit ring of a sender, in any burst, reaches the ring, if it has room, of a socket that listens on a slot of its own, and recvfrom gets it after what came before; it reads the address and port the sender is bound to, and the payload as sent up to that bound |
| System.ReadsAsSent | udpdk/udpdk_syscall.c:456-487 | then the caller's buffer has the first bytes of the payload, as many as asked for |
| System.TeardownAfterAnyRun | udpdk/udpdk_init.c:381-389 | after any run the teardown frees every port |
| Departures.NodePoolOverlaps | udpdk/list/udpdk_list_init.c:11 | the pool of 1024 list nodes is laid out one byte per node |
| Departures.WildcardRefused | udpdk/udpdk_bind_table.c:73-77 | a wildcard with SO_REUSEADDR is refused next to a specific address |
| Departures.OptionsOverlap | udpdk/udpdk_syscall.c:162-179 | setting SO_REUSEADDR sets SO_REUSEPORT, clearing SO_REUSEPORT clears both |
| Departures.ActiveCountDrifts | udpdk/udpdk_syscall.c:518-519 | one socket opened and closed: the counter says two |
| Departures.LockedUpWithNothingOpen | udpdk/udpdk_syscall.c:57-60 | after 513 opens with closes nothing is open and nothing can be opened |
| Departures.StaleRing | udpdk/udpdk_syscall.c:513-516 | a new socket receives a packet meant for the last one on its slot |
| Departures.StaleTransmit | udpdk/udpdk_syscall.c:513-516 | a packet of a closed socket is still to be sent when the next one opens its slot |
| Departures.StaleBuffer | udpdk/udpdk_poller.c:536-541 | a new socket on a slot that was closed with empty rings gets an older packet from the receive buffer |
| Departures.ImplicitBindTakesPortZero | udpdk/udpdk_syscall.c:299 | the first socket that sends without a bind gets port 0 |
| Departures.ForeignFrameLeaks | udpdk/udpdk_poller.c:362-366 | a frame that is not IPv4 is never freed |
| Departures.PayloadOverrunsBuffer | udpdk/udpdk_init.c:85-86 | with a room of 2048 bytes a payload of 2007 is written past its buffer and need not come through |
| Departures.LargePayloadIsCut | udpdk/udpdk_syscall.c:348-349 | in buffers of any size 65494 bytes of payload leave with a data length of 0 |
| Departures.DeafSocket | udpdk/udpdk_poller.c:396-403 | a reachable state where a bound socket gets none of its packets |
| Departures.OverflowIsReachable | udpdk/udpdk_poller.c:294-298 | a reachable state where one burst overflows a receive buffer |
| Departures.ClosedSlotOverflows | udpdk/udpdk_poller.c:536-541 | a reachable state with one bound socket, number 256, where packets for it pile up in slot 0, which is closed, and overflow it |
| Departures.WrongSocketReceives | udpdk/udpdk_poller.c:294-298 | a reachable state where a datagram for socket 256 goes to socket 0, which is not bound |

## Left out

- Shmalloc.Allocator: the words of the bit field are a field holding a sequence, reassigned word by word, not bytes inside the memory zone; the layout lemmas show where those bytes lie.
- Shmalloc.Allocator.Init: the reservation of the zone is taken to succeed. Sizes and offsets are unbounded; `Shmalloc.PoolsDoNotWrap` says that 32 bits are enough.
- LinkedList.ListNode: structs are objects with a block number, so overlapping blocks are not seen above the allocator; the layers above describe the engine with the documented layout.
- LinkedList.List.ItemAt: the iterator pool is taken not to be exhausted, because the code dereferences the iterator unchecked.
- BindTables.BindTable.DelBinding: the port is taken to have bindings, because the code dereferences its list unchecked; every caller in the engine meets this.
- Sockets.SocketLayer.SetSockOpt: descriptors are taken to be in 0..1023 where the code does not check them, here and in bind and close.
- Sockets.SocketLayer.SendTo: a call that fills a packet is taken to fit it into the buffer, since beyond that the code overwrites other packets; `Datagrams.CopyStaysInside` says when.
- Engines.RunKeepsInv: a larger payload is queued with what its own buffer holds of it; what the overrun does to other packets of the pool is not modelled.
- Sockets.SocketLayer.RecvFrom: waiting for a packet is an answer, not a loop, so a signal comes before the call or not at all; the source address and its length are both given or both NULL.
- Datagrams.CopyOut: the first segment is taken to hold the 42 header bytes, which the code never checks; `Datagrams.SegmentReads` says what happens otherwise.
- Engines.ReuseAddrImpliesReusePort: the option masks are those of Linux; system headers are not part of this model. Option words are sets of bit positions.
- Datagrams.RoundTrip: hosts are little-endian; the value of the IP checksum is a parameter, and so is the memory behind a packet buffer.
- RxPollers.RxPoller.Pass: the burst is taken to overflow no buffer, since beyond that the code writes past the end of an array; `Overflows.OverflowExactly` and `Hosts.BuffersNeverOverflow` say when that is certain.
- Hosts.ReceiveIsPass: whether a frame is IPv4 and what the reassembly table answers come from DPDK; what a complete datagram is for is read from its bytes (`Delivery.ClassOf`).
- System.RingGetsWhatItListensTo: for the ring itself the condition is exact where it has room for a copy to every socket; a full ring takes nothing either way.
- Delivery.SwitchConserves: cloning is taken to succeed; the code does not check it.
- Transmit.TableFits: the fragmentation of DPDK is a parameter that returns at most as many fragments as its limit; the header that the code reads back from the packet it has just freed is not modelled.
- Transmit.PassConserves: packets and fragments are numbers; their bytes are in Datagrams.
- DPDK itself: memory pools, NIC, prefetch, reassembly and its death row. Bursts send a prefix, bulk enqueue is all or nothing.
- Races between the application and the poller: every call and every pass is one step.
- `getsockopt`, `list_spush`, `list_find`, the `free` and `match` callbacks and the unused `closed` flag: easy or not used by the engine.
- Start-up and its handshake, arguments, link monitoring, packet dumps, signals and the example applications.
