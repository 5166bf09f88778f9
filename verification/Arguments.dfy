/** The calls as the application makes them: their arguments are checked first, in the order of the
    code, and a call that is rejected changes nothing (the *_validate_args functions and the switches
    of udpdk_syscall.c). */
module Arguments {
  import opened Constants
  import opened Sequences
  import opened Datagrams
  import opened Engines

  // The Linux values
  const AF_INET: int := 2
  const SOCK_DGRAM: int := 2
  const SOL_SOCKET: int := 1
  const OPT_REUSEADDR: int := 2
  const OPT_REUSEPORT: int := 15
  const SOCKADDR_LEN: nat := 16  // sizeof(struct sockaddr_in)

  function SocketCall(e: Engine, domain: int, type_: int, protocol: int): (Engine, Reply)
    requires Shape(e)
  {
    if domain != AF_INET then (e, Failed(EAFNOSUPPORT))
    else if type_ != SOCK_DGRAM then (e, Failed(EPROTONOSUPPORT))
    else if protocol != 0 && protocol != IPPROTO_UDP then (e, Failed(EINVAL))
    else Socket(e)
  }

  function FlagOf(optName: int): Option<OptionBits> {
    if optName == OPT_REUSEADDR then Some(SO_REUSEADDR)
    else if optName == OPT_REUSEPORT then Some(SO_REUSEPORT)
    else None
  }

  // `optVal` is None for a NULL pointer.
  function SetSockOptCall(e: Engine, s: nat, level: int, optName: int, optVal: Option<int>): (Engine, Reply)
    requires Shape(e) && s < NUM_SOCKETS_MAX
  {
    if !e.slots[s].used then (e, Failed(EBADF))
    else if level != SOL_SOCKET then (e, Failed(EINVAL))
    else if FlagOf(optName).None? then (e, Failed(ENOPROTOOPT))
    else if optVal.None? then (e, Failed(EFAULT))
    else SetSockOpt(e, s, FlagOf(optName).value, optVal.value != 0)
  }

  ghost function BindCall(e: Engine, s: nat, family: int, addrLen: nat, ip: uint32, port: uint16): (Engine, Reply)
    requires Shape(e) && s < NUM_SOCKETS_MAX
  {
    if !e.slots[s].used then (e, Failed(EBADF))
    else if e.slots[s].bound || family != AF_INET || addrLen != SOCKADDR_LEN then (e, Failed(EINVAL))
    else Bind(e, s, ip, port)
  }

  datatype Destination = Destination(ip: uint32, port: uint16)

  // `dest` is None for a NULL pointer or an address length of 0.
  ghost function SendToCall(e: Engine, s: nat, cfg: Config, payload: Bytes, flags: int, dest: Option<Destination>,
      cksum: uint16, mbuf: bool): (Engine, Reply)
    requires Shape(e) && cfg.Valid()
  {
    if s >= NUM_SOCKETS_MAX then (e, Failed(ENOTSOCK))
    else if !e.slots[s].used then (e, Failed(EBADF))
    else if flags != 0 || dest.None? then (e, Failed(EINVAL))
    else SendTo(e, s, cfg, payload, dest.value.ip, dest.value.port, cksum, mbuf)
  }

  // A signal that came before the call makes it return at once.
  function RecvFromCall(e: Engine, s: nat, flags: int, nullBuf: bool, addrLen: Option<nat>, interrupted: bool):
      (Engine, Reply)
    requires Shape(e)
  {
    if s >= NUM_SOCKETS_MAX then (e, Failed(ENOTSOCK))
    else if !e.slots[s].used then (e, Failed(EBADF))
    else if flags != 0 || (nullBuf && addrLen.Some?) then (e, Failed(EINVAL))
    else if interrupted then (e, Failed(EINTR))
    else RecvFrom(e, s)
  }

  // The source address as udpdk_recvfrom writes it: struct sockaddr_in, cut to the caller's length.
  function SockAddr(ip: uint32, port: uint16): (b: Bytes)
    ensures |b| == SOCKADDR_LEN
  {
    Store16(2) + Store16(port) + Store32(ip) + [0, 0, 0, 0, 0, 0, 0, 0]
  }

  function SourceAddress(first: Bytes, addrLen: Option<nat>): Bytes
    requires |first| >= HEADERS
  {
    if addrLen.None? then [] else SockAddr(SrcIp(first), SrcPort(first))[..Min(SOCKADDR_LEN, addrLen.value)]
  }

  // The call leaves the state alone and reports an error, or it is the step.
  ghost predicate RejectedOr(e: Engine, call: (Engine, Reply), op: Op)
    requires Shape(e) && Legal(op)
  {
    (call.0 == e && call.1.Failed?) || call == Step(e, op)
  }

  // The option step that a name stands for.
  function OptionOp(s: nat, optName: int, on: bool): Op {
    if optName == OPT_REUSEADDR then OpSetReuseAddr(s, on) else OpSetReusePort(s, on)
  }

  /** Every call is a step of the engine or is rejected without any change, so what holds over runs of
      steps holds over runs of calls. It is the step exactly for valid arguments, apart from the
      errors that the step itself gives. */
  lemma CallsAreSteps(e: Engine, s: nat, a: int, b: int, c: int, optVal: Option<int>, addrLen: nat, ip: uint32,
      port: uint16)
    requires Shape(e) && s < NUM_SOCKETS_MAX
    ensures RejectedOr(e, SocketCall(e, a, b, c), OpSocket)
    ensures SocketCall(e, a, b, c).1.Done? ==> a == AF_INET && b == SOCK_DGRAM && (c == 0 || c == IPPROTO_UDP)
    ensures RejectedOr(e, SetSockOptCall(e, s, a, b, optVal), OptionOp(s, b, optVal.Some? && optVal.value != 0))
    ensures SetSockOptCall(e, s, a, b, optVal).1.Done? <==>
            e.slots[s].used && a == SOL_SOCKET && (b == OPT_REUSEADDR || b == OPT_REUSEPORT) && optVal.Some?
    ensures RejectedOr(e, BindCall(e, s, a, addrLen, ip, port), OpBind(s, ip, port))
    ensures BindCall(e, s, a, addrLen, ip, port).1.Done? <==>
            Bind(e, s, ip, port).1.Done? && a == AF_INET && addrLen == SOCKADDR_LEN
  {
  }

  lemma TransfersAreSteps(e: Engine, s: nat, cfg: Config, payload: Bytes, flags: int, dest: Option<Destination>,
      cksum: uint16, mbuf: bool, nullBuf: bool, addrLen: Option<nat>, interrupted: bool)
    requires Shape(e) && cfg.Valid()
    ensures var d := if dest.Some? then dest.value else Destination(0, 0);
            && RejectedOr(e, SendToCall(e, s, cfg, payload, flags, dest, cksum, mbuf),
                          OpSendTo(s, cfg, payload, d.ip, d.port, cksum, mbuf))
            && (SendToCall(e, s, cfg, payload, flags, dest, cksum, mbuf).1.Done? <==>
                flags == 0 && dest.Some? && SendTo(e, s, cfg, payload, d.ip, d.port, cksum, mbuf).1.Done?)
    ensures RejectedOr(e, RecvFromCall(e, s, flags, nullBuf, addrLen, interrupted), OpRecvFrom(s))
    ensures RecvFromCall(e, s, flags, nullBuf, addrLen, interrupted).1.Done? <==>
            flags == 0 && !(nullBuf && addrLen.Some?) && !interrupted && RecvFrom(e, s).1.Done?
  {
  }

  /** The source address reads back as the address and port of the sender, in full exactly if the
      caller has room for all of it. */
  lemma SourceAddressReads(first: Bytes, len: nat)
    requires |first| >= HEADERS
    ensures var a := SourceAddress(first, Some(len));
            && |a| == Min(16, len)
            && (|a| >= 2 ==> a[0] == 2 && a[1] == 0)
            && (|a| >= 4 ==> Load16(a, 2) == SrcPort(first))
            && (|a| >= 8 ==> Load32(a, 4) == SrcIp(first))
            && forall k :: 8 <= k < |a| ==> a[k] == 0
  {
    var full, a := SockAddr(SrcIp(first), SrcPort(first)), SourceAddress(first, Some(len));
    assert full[2..4] == Store16(SrcPort(first)) && full[4..8] == Store32(SrcIp(first));
    if |a| >= 4 {
      assert a[2..4] == full[2..4];
      Load16Stored(a, 2, SrcPort(first));
    }
    if |a| >= 8 {
      assert a[4..8] == full[4..8];
      Load32Stored(a, 4, SrcIp(first));
    }
  }
}
