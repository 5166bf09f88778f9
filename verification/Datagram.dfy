/** One datagram on its way through the engine: the frame that udpdk_sendto builds, and the
    copy out of a chain of segments that udpdk_recvfrom makes (udpdk_syscall.c). The host is
    little-endian, as on the x86 machines the engine runs on. */
module Datagrams {
  import opened Constants

  type byte = x: int | 0 <= x < 256
  type uint16 = x: int | 0 <= x < 0x1_0000
  type uint32 = x: int | 0 <= x < 0x1_0000_0000
  type Bytes = seq<byte>

  const ETH_LEN: nat := 14
  const IP_LEN: nat := 20
  const UDP_LEN: nat := 8
  const IPPROTO_UDP: byte := 17
  const HEADERS: nat := ETH_LEN + IP_LEN + UDP_LEN  // 42

  // ---------------------------------------------------------------- integers in memory

  function Low16(x: int): uint16 {
    x % 0x1_0000
  }

  function Low32(x: int): uint32 {
    x % 0x1_0000_0000
  }

  // rte_cpu_to_be_16 and rte_be_to_cpu_16 on a little-endian host
  function Swap16(x: uint16): uint16 {
    x % 256 * 256 + x / 256
  }

  function Store16(x: uint16): Bytes {
    [x % 256, x / 256]
  }

  function Load16(b: Bytes, at: nat): uint16
    requires at + 2 <= |b|
  {
    var lo: int, hi: int := b[at], b[at + 1];
    lo + 256 * hi
  }

  function Store32(x: uint32): Bytes {
    [x % 256, x / 256 % 256, x / 0x1_0000 % 256, x / 0x100_0000]
  }

  function Load32(b: Bytes, at: nat): uint32
    requires at + 4 <= |b|
  {
    Load16(b, at) as int + 0x1_0000 * (Load16(b, at + 2) as int)
  }

  lemma SwapTwice(x: uint16)
    ensures Swap16(Swap16(x)) == x
  {
    var high, low := x / 256, x % 256;
    assert Swap16(x) == low * 256 + high && 0 <= high < 256;
    assert Swap16(x) / 256 == low && Swap16(x) % 256 == high;
  }

  function Min(a: nat, b: nat): nat {
    if a < b then a else b
  }

  // ---------------------------------------------------------------- sending

  /** The part of the global configuration that goes into headers, and the room for data in a
      packet buffer of the pool that udpdk_sendto takes its packets from. */
  datatype Config = Config(srcMac: Bytes, dstMac: Bytes, srcIp: uint32, room: nat) {
    predicate Valid() {
      |srcMac| == 6 && |dstMac| == 6 && room >= HEADERS
    }
  }

  // RTE_MBUF_DEFAULT_BUF_SIZE without the headroom
  const DEFAULT_ROOM: nat := 2048

  // A packet buffer: the packet length it declares and the data of its segments.
  datatype Mbuf = Mbuf(pktLen: nat, segs: seq<Bytes>)

  // The addresses of one datagram, in the byte order of the socket structures.
  datatype Flow = Flow(srcIp: uint32, srcPort: uint16, dstIp: uint32, dstPort: uint16)

  function EthHeader(cfg: Config): (b: Bytes)
    requires cfg.Valid()
    ensures |b| == ETH_LEN
  {
    cfg.dstMac + cfg.srcMac + Store16(Swap16(0x0800))
  }

  // version and header length, type of service, total length, id, fragment offset, TTL,
  // protocol, checksum, addresses
  function IpHeader(flow: Flow, len: nat, cksum: uint16): (b: Bytes)
    ensures |b| == IP_LEN
  {
    [0x45, 0] + Store16(Swap16(Low16(len + IP_LEN + UDP_LEN))) + [0, 0, 0, 0] + [64, IPPROTO_UDP]
    + Store16(cksum) + Store32(flow.srcIp) + Store32(flow.dstIp)
  }

  function UdpHeader(flow: Flow, len: nat): (b: Bytes)
    ensures |b| == UDP_LEN
  {
    Store16(flow.srcPort) + Store16(flow.dstPort) + Store16(Swap16(Low16(len + UDP_LEN))) + [0, 0]
  }

  function Headers(cfg: Config, flow: Flow, len: nat, cksum: uint16): (b: Bytes)
    requires cfg.Valid()
    ensures |b| == HEADERS
  {
    EthHeader(cfg) + IpHeader(flow, len, cksum) + UdpHeader(flow, len)
  }

  function Frame(cfg: Config, flow: Flow, payload: Bytes, cksum: uint16): Bytes
    requires cfg.Valid()
  {
    Headers(cfg, flow, |payload|, cksum) + payload
  }

  // The mbuf that udpdk_sendto fills: pkt_len has 32 bits, data_len only 16. Its data is what it
  // has in its own buffer.
  function SentMbuf(cfg: Config, flow: Flow, payload: Bytes, cksum: uint16): Mbuf
    requires cfg.Valid()
  {
    var frame := Frame(cfg, flow, payload, cksum);
    var pktLen := Low32(|frame|);
    LowBounds(|frame|);
    Mbuf(pktLen, [frame[..Min(Low16(pktLen), cfg.room)]])
  }

  // data_len
  function DataLen(m: Mbuf): uint16 {
    Low16(m.pktLen)
  }

  // The frame that leaves the machine: data_len bytes from the start of the data. Those past the
  // end of the buffer are `beyond`, whatever the memory behind it holds by then.
  function OnTheWire(m: Mbuf, beyond: Bytes): Bytes
    requires |m.segs| > 0 && |beyond| == 0x1_0000
  {
    var own := m.segs[0];
    if |own| <= DataLen(m) then own + beyond[..DataLen(m) - |own|] else own[..DataLen(m)]
  }

  // The headers and the payload fit the packet buffer.
  predicate FitsRoom(cfg: Config, len: nat) {
    HEADERS + len <= cfg.room
  }

  // The largest payload that is sent whole.
  function MaxPayload(cfg: Config): nat
    requires cfg.Valid()
  {
    Min(cfg.room - HEADERS, 65493)
  }

  lemma LowBounds(x: nat)
    ensures Low16(Low32(x)) == Low16(x) <= x
    ensures Low16(x) == x <==> x < 0x1_0000
  {
  }

  // A length as it comes back from a 16-bit header field in network byte order.
  function ThroughField(len: nat): uint16 {
    Swap16(Swap16(Low16(len)))
  }

  lemma FieldExact(len: nat)
    ensures ThroughField(len) == Low16(len)
    ensures ThroughField(len) == len <==> len < 0x1_0000
  {
    SwapTwice(Low16(len));
  }

  // ---------------------------------------------------------------- receiving

  function Flatten(segs: seq<Bytes>): Bytes {
    if segs == [] then [] else segs[0] + Flatten(segs[1..])
  }

  // dgram_payl_len: the length in the UDP header less the header, in 16 bits
  function DgramPaylLen(first: Bytes): uint16
    requires |first| >= HEADERS
  {
    Low16(Swap16(Load16(first, ETH_LEN + IP_LEN + 4)) - UDP_LEN)
  }

  function SrcPort(first: Bytes): uint16
    requires |first| >= HEADERS
  {
    Load16(first, ETH_LEN + IP_LEN)
  }

  function SrcIp(first: Bytes): uint32
    requires |first| >= HEADERS
  {
    Load32(first, ETH_LEN + 12)
  }

  function DstPort(first: Bytes): uint16
    requires |first| >= HEADERS
  {
    Load16(first, ETH_LEN + IP_LEN + 2)
  }

  function DstIp(first: Bytes): uint32
    requires |first| >= HEADERS
  {
    Load32(first, ETH_LEN + 16)
  }

  // next_proto_id
  function Protocol(first: Bytes): byte
    requires |first| >= HEADERS
  {
    first[ETH_LEN + 9]
  }

  // seg_len as computed for segment s: 32-bit subtraction, then the cut for padding
  function SegLen(s: nat, dataLen: nat, paylLen: uint16): uint32 {
    var offset := if s == 0 then HEADERS else 0;
    var len := Low32(dataLen - offset);
    if s == 0 && len > paylLen then paylLen else len
  }

  /** What the code takes for the payload of segment s lies inside the segment exactly when the
      first segment holds the headers; the unsigned subtraction wraps otherwise. */
  lemma SegmentReads(s: nat, dataLen: nat, paylLen: uint16)
    requires dataLen < 0x1_0000
    ensures (if s == 0 then HEADERS else 0) + SegLen(s, dataLen, paylLen) <= dataLen <==>
            s > 0 || dataLen >= HEADERS
  {
  }

  // The bytes that the copy loop offers, segment after segment.
  function Stream(segs: seq<Bytes>, paylLen: uint16): Bytes
    requires |segs| > 0 && |segs[0]| >= HEADERS
  {
    FirstPart(segs[0], paylLen) + Flatten(segs[1..])
  }

  function FirstPart(first: Bytes, paylLen: uint16): Bytes
    requires |first| >= HEADERS
  {
    var rest := first[HEADERS..];
    if |rest| > paylLen then rest[..paylLen] else rest
  }

  // The payload that the frame declares: what follows the headers, up to the declared length.
  function Declared(segs: seq<Bytes>, paylLen: uint16): Bytes
    requires |segs| > 0 && |segs[0]| >= HEADERS
  {
    var rest := segs[0][HEADERS..] + Flatten(segs[1..]);
    if |rest| > paylLen then rest[..paylLen] else rest
  }

  // The part of the stream that comes from the segments before segment s.
  function Taken(segs: seq<Bytes>, paylLen: uint16, s: nat): Bytes
    requires |segs| > 0 && |segs[0]| >= HEADERS && s <= |segs|
  {
    if s == 0 then [] else FirstPart(segs[0], paylLen) + Flatten(segs[1..][..s - 1])
  }

  // What the code copies of segment s into a buffer that is large enough.
  function Part(segs: seq<Bytes>, paylLen: uint16, s: nat): Bytes
    requires |segs| > 0 && |segs[0]| >= HEADERS && s < |segs|
    requires |segs[s]| < 0x1_0000
  {
    SegmentReads(s, |segs[s]|, paylLen);
    var offset := if s == 0 then HEADERS else 0;
    segs[s][offset..offset + SegLen(s, |segs[s]|, paylLen)]
  }

  lemma {:induction false} FlattenTake(segs: seq<Bytes>, i: nat)
    requires i < |segs|
    ensures Flatten(segs[..i + 1]) == Flatten(segs[..i]) + segs[i]
    ensures Flatten(segs[..i + 1]) <= Flatten(segs)
  {
    if i > 0 {
      FlattenTake(segs[1..], i - 1);
      assert segs[1..][..i] == segs[..i + 1][1..];
      assert segs[1..][..i - 1] == segs[..i][1..];
    } else {
      assert segs[..1][1..] == [] && segs[..0] == [];
    }
  }

  lemma ExtendPrefix<T>(head: seq<T>, a: seq<T>, x: seq<T>, b: seq<T>)
    requires a + x <= b
    ensures head + (a + x) == (head + a) + x
    ensures head + (a + x) <= head + b
  {
  }

  /** Segment s adds exactly what the code copies of it, and what was taken so far is always a
      prefix of the stream. */
  lemma TakenStep(segs: seq<Bytes>, paylLen: uint16, s: nat)
    requires |segs| > 0 && |segs[0]| >= HEADERS && s < |segs| && |segs[s]| < 0x1_0000
    ensures Taken(segs, paylLen, s + 1) == Taken(segs, paylLen, s) + Part(segs, paylLen, s)
    ensures Taken(segs, paylLen, s + 1) <= Stream(segs, paylLen)
  {
    if s == 0 {
      FirstPartIsPart(segs, paylLen);
    } else {
      LaterPart(segs, paylLen, s);
      FlattenTake(segs[1..], s - 1);
      ExtendPrefix(FirstPart(segs[0], paylLen), Flatten(segs[1..][..s - 1]), segs[s], Flatten(segs[1..]));
    }
  }

  lemma LaterPart(segs: seq<Bytes>, paylLen: uint16, s: nat)
    requires |segs| > 0 && |segs[0]| >= HEADERS && 0 < s < |segs| && |segs[s]| < 0x1_0000
    ensures Part(segs, paylLen, s) == segs[s]
  {
  }

  lemma FirstPartIsPart(segs: seq<Bytes>, paylLen: uint16)
    requires |segs| > 0 && HEADERS <= |segs[0]| < 0x1_0000
    ensures Part(segs, paylLen, 0) == FirstPart(segs[0], paylLen)
    ensures Taken(segs, paylLen, 1) == FirstPart(segs[0], paylLen)
  {
    SegmentReads(0, |segs[0]|, paylLen);
    assert segs[1..][..0] == [];
  }

  lemma SliceOfPrefix<T>(a: seq<T>, x: seq<T>, stream: seq<T>, n: nat)
    requires a + x <= stream && n <= |x|
    ensures |a| + n <= |stream| && x[..n] == stream[|a|..|a| + n]
  {
    assert (a + x)[|a|..|a| + n] == x[..n];
  }

  lemma TakenAll(segs: seq<Bytes>, paylLen: uint16)
    requires |segs| > 0 && |segs[0]| >= HEADERS
    ensures Taken(segs, paylLen, |segs|) == Stream(segs, paylLen)
  {
    assert segs[1..][..|segs| - 1] == segs[1..];
  }

  // What udpdk_recvfrom relies on: the headers lie in the first segment, lengths have 16 bits.
  predicate Readable(segs: seq<Bytes>) {
    |segs| > 0 && |segs[0]| >= HEADERS && forall i :: 0 <= i < |segs| ==> |segs[i]| < 0x1_0000
  }

  // The first n bytes are those of the stream, the others are as before.
  ghost predicate Copied(after: Bytes, before: Bytes, stream: Bytes, n: nat) {
    && n <= |stream| && n <= |before| == |after|
    && (forall k :: 0 <= k < n ==> after[k] == stream[k])
    && (forall k :: n <= k < |after| ==> after[k] == before[k])
  }

  /** The copy loop of udpdk_recvfrom: the caller's buffer gets the first bytes of the stream, as
      many as fit, and keeps the rest of its contents. The count of wanted bytes has 32 bits. */
  method CopyOut(segs: seq<Bytes>, paylLen: uint16, buf: array<byte>, len: nat) returns (ret: nat)
    requires Readable(segs) && len <= buf.Length
    modifies buf
    ensures var n := Min(Low32(len), |Stream(segs, paylLen)|);
            && ret == len - Low32(len) + n
            && Copied(buf[..], old(buf[..]), Stream(segs, paylLen), n)
  {
    var bytesLeft: uint32 := Low32(len);
    var pos: nat := 0;
    ghost var before := buf[..];
    for s := 0 to |segs|
      invariant pos + bytesLeft == Low32(len)
      invariant pos == |Taken(segs, paylLen, s)|
      invariant Copied(buf[..], before, Stream(segs, paylLen), pos)
    {
      var effLen := CopySegment(segs, paylLen, s, buf, pos, bytesLeft, before);
      pos := pos + effLen;
      bytesLeft := bytesLeft - effLen;
      if bytesLeft == 0 {
        return len - bytesLeft;
      }
    }
    TakenAll(segs, paylLen);
    return len - bytesLeft;
  }

  // The body of the copy loop: the smaller of what the segment holds and what is still wanted.
  method CopySegment(segs: seq<Bytes>, paylLen: uint16, s: nat, buf: array<byte>, pos: nat,
      bytesLeft: uint32, ghost before: Bytes) returns (effLen: uint32)
    requires Readable(segs) && s < |segs|
    requires pos == |Taken(segs, paylLen, s)| && pos + bytesLeft <= buf.Length
    requires Copied(buf[..], before, Stream(segs, paylLen), pos)
    modifies buf
    ensures effLen <= bytesLeft
    ensures effLen < bytesLeft ==> pos + effLen == |Taken(segs, paylLen, s + 1)|
    ensures Copied(buf[..], before, Stream(segs, paylLen), pos + effLen)
  {
    var offset := if s == 0 then HEADERS else 0;
    var segLen := SegLen(s, |segs[s]|, paylLen);
    effLen := if segLen < bytesLeft then segLen else bytesLeft;
    PartBytes(segs, paylLen, s, effLen);
    ghost var mid := buf[..];
    CopyBytes(buf, pos, segs[s][offset..offset + effLen]);
    CopiedMore(buf[..], mid, before, pos, segs[s][offset..offset + effLen], Stream(segs, paylLen));
  }

  lemma CopiedMore(buf: Bytes, mid: Bytes, before: Bytes, pos: nat, src: Bytes, stream: Bytes)
    requires Copied(mid, before, stream, pos) && |buf| == |mid|
    requires pos + |src| <= |buf| && pos + |src| <= |stream| && src == stream[pos..pos + |src|]
    requires forall k :: pos <= k < pos + |src| ==> buf[k] == src[k - pos]
    requires forall k :: 0 <= k < pos || pos + |src| <= k < |buf| ==> buf[k] == mid[k]
    ensures Copied(buf, before, stream, pos + |src|)
  {
  }

  // rte_memcpy into the buffer
  method CopyBytes(buf: array<byte>, pos: nat, src: Bytes)
    requires pos + |src| <= buf.Length
    modifies buf
    ensures forall k :: pos <= k < pos + |src| ==> buf[..][k] == src[k - pos]
    ensures forall k :: 0 <= k < pos || pos + |src| <= k < buf.Length ==> buf[..][k] == old(buf[..])[k]
  {
    forall k | pos <= k < pos + |src| {
      buf[k] := src[k - pos];
    }
  }

  // The first n bytes that segment s contributes, seen from the segment and from the stream.
  lemma PartBytes(segs: seq<Bytes>, paylLen: uint16, s: nat, n: nat)
    requires |segs| > 0 && |segs[0]| >= HEADERS && s < |segs| && |segs[s]| < 0x1_0000
    requires n <= SegLen(s, |segs[s]|, paylLen)
    ensures var offset, pos := if s == 0 then HEADERS else 0, |Taken(segs, paylLen, s)|;
            && offset + n <= |segs[s]| && pos + n <= |Stream(segs, paylLen)|
            && segs[s][offset..offset + n] == Stream(segs, paylLen)[pos..pos + n]
    ensures n == SegLen(s, |segs[s]|, paylLen) ==>
              |Taken(segs, paylLen, s + 1)| == |Taken(segs, paylLen, s)| + n
  {
    SegmentReads(s, |segs[s]|, paylLen);
    TakenStep(segs, paylLen, s);
    SliceOfPrefix(Taken(segs, paylLen, s), Part(segs, paylLen, s), Stream(segs, paylLen), n);
    SliceOfSlice(segs[s], if s == 0 then HEADERS else 0, SegLen(s, |segs[s]|, paylLen), n);
  }

  lemma SliceOfSlice<T>(s: seq<T>, from: nat, len: nat, n: nat)
    requires n <= len && from + len <= |s|
    ensures s[from..from + len][..n] == s[from..from + n]
  {
  }

  /** The loop delivers the declared payload to every buffer exactly when the declared length
      agrees with the segments: padding is cut from a single segment, and the segments of a chain
      add up. */
  lemma ExactDelivery(segs: seq<Bytes>, paylLen: uint16)
    requires |segs| > 0 && |segs[0]| >= HEADERS
    ensures (Stream(segs, paylLen) == Declared(segs, paylLen)) <==>
            (Flatten(segs[1..]) == [] || |segs[0]| - HEADERS + |Flatten(segs[1..])| <= paylLen)
  {
    var first, rest := segs[0][HEADERS..], Flatten(segs[1..]);
    if |first| > paylLen {
      assert |Stream(segs, paylLen)| == paylLen + |rest|;
      assert |Declared(segs, paylLen)| == paylLen;
    } else {
      assert Stream(segs, paylLen) == first + rest;
    }
    if rest == [] {
      assert first + rest == first;
    }
  }

  // ---------------------------------------------------------------- round trip

  lemma Load16Stored(b: Bytes, at: nat, x: uint16)
    requires at + 2 <= |b| && b[at..at + 2] == Store16(x)
    ensures Load16(b, at) == x
  {
    assert b[at] == b[at..at + 2][0] && b[at + 1] == b[at..at + 2][1];
  }

  lemma Load32Stored(b: Bytes, at: nat, x: uint32)
    requires at + 4 <= |b| && b[at..at + 4] == Store32(x)
    ensures Load32(b, at) == x
  {
    var s := b[at..at + 4];
    assert b[at] == s[0] && b[at + 1] == s[1] && b[at + 2] == s[2] && b[at + 3] == s[3];
    Digits(x);
  }

  lemma Digits(x: uint32)
    ensures x == x % 256 + 256 * (x / 256 % 256) + 0x1_0000 * (x / 0x1_0000 % 256 + 256 * (x / 0x100_0000))
  {
    assert x / 0x1_0000 == x / 256 / 256 && x / 0x100_0000 == x / 256 / 256 / 256;
  }

  // Where the fields that a receiver reads lie in the headers.
  lemma HeaderFields(cfg: Config, flow: Flow, len: nat, cksum: uint16)
    requires cfg.Valid()
    ensures var h := Headers(cfg, flow, len, cksum);
            && h[ETH_LEN + 2..ETH_LEN + 4] == Store16(Swap16(Low16(len + IP_LEN + UDP_LEN)))
            && h[ETH_LEN + 9] == IPPROTO_UDP
            && h[ETH_LEN + 12..ETH_LEN + 16] == Store32(flow.srcIp)
            && h[ETH_LEN + 16..ETH_LEN + 20] == Store32(flow.dstIp)
            && h[ETH_LEN + IP_LEN..ETH_LEN + IP_LEN + 2] == Store16(flow.srcPort)
            && h[ETH_LEN + IP_LEN + 2..ETH_LEN + IP_LEN + 4] == Store16(flow.dstPort)
            && h[ETH_LEN + IP_LEN + 4..ETH_LEN + IP_LEN + 6] == Store16(Swap16(Low16(len + UDP_LEN)))
  {
    var e, i, u := EthHeader(cfg), IpHeader(flow, len, cksum), UdpHeader(flow, len);
    HeaderPart(e, i, u, 2, 4);
    HeaderPart(e, i, u, 9, 10);
    HeaderPart(e, i, u, 12, 16);
    HeaderPart(e, i, u, 16, 20);
    HeaderPart(e, i, u, IP_LEN, IP_LEN + 2);
    HeaderPart(e, i, u, IP_LEN + 2, IP_LEN + 4);
    HeaderPart(e, i, u, IP_LEN + 4, IP_LEN + 6);
    var h := Headers(cfg, flow, len, cksum);
    assert h[ETH_LEN + 9] == h[ETH_LEN + 9..ETH_LEN + 10][0] && i[9..10][0] == i[9];
  }

  // Bytes of the IP header, or of the UDP header behind it.
  lemma HeaderPart(e: Bytes, i: Bytes, u: Bytes, from: nat, to: nat)
    requires |e| == ETH_LEN && |i| == IP_LEN && from <= to <= IP_LEN + |u|
    ensures to <= IP_LEN ==> (e + i + u)[ETH_LEN + from..ETH_LEN + to] == i[from..to]
    ensures from >= IP_LEN ==> (e + i + u)[ETH_LEN + from..ETH_LEN + to] == u[from - IP_LEN..to - IP_LEN]
  {
  }

  lemma FrameField(h: Bytes, payload: Bytes, at: nat, len: nat)
    requires at + 2 <= |h| && h[at..at + 2] == Store16(Swap16(Low16(len)))
    ensures Swap16(Load16(h + payload, at)) == ThroughField(len)
    ensures ThroughField(len) == len <==> len < 0x1_0000
  {
    assert (h + payload)[at..at + 2] == h[at..at + 2];
    Load16Stored(h + payload, at, Swap16(Low16(len)));
    FieldExact(len);
  }

  /** How far the lengths of a sent datagram tell the truth: the total length in the IP header
      (RFC 791, section 3.1), the length in the UDP header (RFC 768) and the data length of the
      mbuf. */
  lemma LengthFields(cfg: Config, flow: Flow, payload: Bytes, cksum: uint16)
    requires cfg.Valid()
    ensures var frame, len := Frame(cfg, flow, payload, cksum), |payload|;
            && (Swap16(Load16(frame, ETH_LEN + 2)) == IP_LEN + UDP_LEN + len <==> len <= 65507)
            && (Swap16(Load16(frame, ETH_LEN + IP_LEN + 4)) == UDP_LEN + len <==> len <= 65527)
            && (DataLen(SentMbuf(cfg, flow, payload, cksum)) == HEADERS + len <==> len <= 65493)
  {
    var h := Headers(cfg, flow, |payload|, cksum);
    HeaderFields(cfg, flow, |payload|, cksum);
    FrameField(h, payload, ETH_LEN + 2, |payload| + IP_LEN + UDP_LEN);
    FrameField(h, payload, ETH_LEN + IP_LEN + 4, |payload| + UDP_LEN);
    LowBounds(|Frame(cfg, flow, payload, cksum)|);
  }

  // What a receiver may find of a frame: the protocol and the bytes from the source address on
  // arrive as they were sent (routers rewrite other bytes before those), cut into segments in any
  // way that leaves the headers together; a frame in one piece may carry padding.
  ghost predicate ArrivesAs(segs: seq<Bytes>, frame: Bytes) {
    var all := Flatten(segs);
    && |frame| >= HEADERS && |segs| > 0 && |segs[0]| >= HEADERS
    && |all| >= |frame| && (|segs| == 1 || |all| == |frame|)
    && all[ETH_LEN + 9] == frame[ETH_LEN + 9]
    && forall k :: ETH_LEN + 12 <= k < |frame| ==> all[k] == frame[k]
  }

  // What a receiver reads in the first segment of a datagram that was sent.
  ghost predicate ReadsFields(first: Bytes, flow: Flow) {
    && |first| >= HEADERS && Protocol(first) == IPPROTO_UDP
    && SrcIp(first) == flow.srcIp && SrcPort(first) == flow.srcPort
    && DstIp(first) == flow.dstIp && DstPort(first) == flow.dstPort
  }

  // The frame of a datagram as it leaves the machine.
  function SentFrame(cfg: Config, flow: Flow, payload: Bytes, cksum: uint16, beyond: Bytes): Bytes
    requires cfg.Valid() && |beyond| == 0x1_0000
  {
    OnTheWire(SentMbuf(cfg, flow, payload, cksum), beyond)
  }

  // What comes behind its headers, when data_len counts them.
  function SentTail(cfg: Config, payload: Bytes, beyond: Bytes): (tail: Bytes)
    requires cfg.Valid() && |beyond| == 0x1_0000 && Low16(HEADERS + |payload|) >= HEADERS
    ensures |tail| == Low16(HEADERS + |payload|) - HEADERS
  {
    var n := Low16(HEADERS + |payload|);
    var own := Min(n, cfg.room);
    LowBounds(HEADERS + |payload|);
    payload[..own - HEADERS] + beyond[..n - own]
  }

  lemma SentFrameIs(cfg: Config, flow: Flow, payload: Bytes, cksum: uint16, beyond: Bytes)
    requires cfg.Valid() && |beyond| == 0x1_0000
    ensures |SentFrame(cfg, flow, payload, cksum, beyond)| == Low16(HEADERS + |payload|)
    ensures Low16(HEADERS + |payload|) >= HEADERS ==>
              SentFrame(cfg, flow, payload, cksum, beyond) ==
              Headers(cfg, flow, |payload|, cksum) + SentTail(cfg, payload, beyond)
  {
    var h, frame := Headers(cfg, flow, |payload|, cksum), Frame(cfg, flow, payload, cksum);
    LowBounds(|frame|);
    var n := Low16(|frame|);
    var own := Min(n, cfg.room);
    if n >= HEADERS {
      assert frame[..own] == h + payload[..own - HEADERS];
    }
  }

  lemma TailIsPayload(cfg: Config, payload: Bytes, beyond: Bytes)
    requires cfg.Valid() && |beyond| == 0x1_0000 && |payload| <= MaxPayload(cfg)
    ensures Low16(HEADERS + |payload|) == HEADERS + |payload| && SentTail(cfg, payload, beyond) == payload
  {
    LowBounds(HEADERS + |payload|);
    assert payload[..|payload|] + beyond[..0] == payload;
  }

  /** Send, carry, receive: whatever the segmentation, the padding and the memory behind the buffer,
      of what udpdk_sendto has put in the ring the receiver reads the sender's address and port and
      the destination; and its copy loop offers exactly the payload, if that fits the buffer and
      16 bits of data length. */
  lemma RoundTrip(cfg: Config, flow: Flow, payload: Bytes, cksum: uint16, beyond: Bytes, segs: seq<Bytes>)
    requires cfg.Valid() && |beyond| == 0x1_0000
    requires ArrivesAs(segs, SentFrame(cfg, flow, payload, cksum, beyond))
    ensures ReadsFields(segs[0], flow) && DgramPaylLen(segs[0]) == Low16(|payload|)
    ensures |payload| <= MaxPayload(cfg) ==> Stream(segs, DgramPaylLen(segs[0])) == payload
    ensures |payload| > 65493 ==> Stream(segs, DgramPaylLen(segs[0])) != payload
  {
    var h := Headers(cfg, flow, |payload|, cksum);
    SentFrameIs(cfg, flow, payload, cksum, beyond);
    var tail := SentTail(cfg, payload, beyond);
    ReceivedFields(cfg, flow, |payload|, cksum, tail, segs);
    if |payload| <= MaxPayload(cfg) {
      TailIsPayload(cfg, payload, beyond);
      assert (h + payload)[HEADERS..] == payload;
      Low16Wraps(|payload|);
      ReceivedPayload(segs, h + payload, |payload|);
    } else if |payload| > 65493 {
      StreamBound(segs, h + tail, DgramPaylLen(segs[0]));
      TooShort(|payload|);
    }
  }

  /** The frame of the mbuf can arrive, and whatever the memory behind its buffer holds and however it
      arrives, the payload is read from it. */
  ghost predicate ArrivesExactly(m: Mbuf, payload: Bytes)
    requires |m.segs| > 0
  {
    && DataLen(m) >= HEADERS
    && forall beyond: Bytes, segs: seq<Bytes> {:trigger ArrivesAs(segs, OnTheWire(m, beyond))} ::
         |beyond| == 0x1_0000 && ArrivesAs(segs, OnTheWire(m, beyond)) ==>
           Stream(segs, DgramPaylLen(segs[0])) == payload
  }

  // A frame arrives as itself.
  lemma ArrivesAsItself(frame: Bytes)
    requires |frame| >= HEADERS
    ensures ArrivesAs([frame], frame)
  {
    assert Flatten([frame]) == frame + Flatten([]) == frame;
  }

  function Other(b: byte): (other: byte)
    ensures other != b
  {
    if b == 0 then 1 else 0
  }

  function Filled(n: nat, b: byte): (bytes: Bytes)
    ensures |bytes| == n && forall k :: 0 <= k < n ==> bytes[k] == b
  {
    seq(n, _ => b)
  }

  // Beyond the room, a receiver reads bytes that are not those of the payload.
  lemma OverrunMisread(cfg: Config, flow: Flow, payload: Bytes, cksum: uint16) returns (beyond: Bytes, segs: seq<Bytes>)
    requires cfg.Valid() && cfg.room - HEADERS < |payload| <= 65493
    ensures |beyond| == 0x1_0000 && ArrivesAs(segs, SentFrame(cfg, flow, payload, cksum, beyond))
    ensures Stream(segs, DgramPaylLen(segs[0])) != payload
  {
    var at := cfg.room - HEADERS;
    beyond := Filled(0x1_0000, Other(payload[at]));
    var frame := SentFrame(cfg, flow, payload, cksum, beyond);
    segs := [frame];
    LowBounds(HEADERS + |payload|);
    SentFrameIs(cfg, flow, payload, cksum, beyond);
    ArrivesAsItself(frame);
    RoundTrip(cfg, flow, payload, cksum, beyond, segs);
    Low16Wraps(|payload|);
    ReceivedPayload(segs, frame, |payload|);
    var tail := SentTail(cfg, payload, beyond);
    assert frame[HEADERS..] == tail;
    assert tail[at] == beyond[0];
  }

  /** So the payload comes through exactly up to the room in the packet buffer, and 65493 bytes. */
  lemma RoundTripExactly(cfg: Config, flow: Flow, payload: Bytes, cksum: uint16)
    requires cfg.Valid()
    ensures ArrivesExactly(SentMbuf(cfg, flow, payload, cksum), payload) <==> |payload| <= MaxPayload(cfg)
  {
    var m := SentMbuf(cfg, flow, payload, cksum);
    LowBounds(HEADERS + |payload|);
    if |payload| <= MaxPayload(cfg) {
      forall beyond: Bytes, segs: seq<Bytes> | |beyond| == 0x1_0000 && ArrivesAs(segs, OnTheWire(m, beyond))
        ensures Stream(segs, DgramPaylLen(segs[0])) == payload
      {
        RoundTrip(cfg, flow, payload, cksum, beyond, segs);
      }
    } else if DataLen(m) >= HEADERS {
      var beyond: Bytes, segs: seq<Bytes>;
      if |payload| <= 65493 {
        beyond, segs := OverrunMisread(cfg, flow, payload, cksum);
      } else {
        beyond := Filled(0x1_0000, 0);
        segs := [SentFrame(cfg, flow, payload, cksum, beyond)];
        SentFrameIs(cfg, flow, payload, cksum, beyond);
        ArrivesAsItself(segs[0]);
        RoundTrip(cfg, flow, payload, cksum, beyond, segs);
      }
      assert ArrivesAs(segs, OnTheWire(m, beyond));
    }
  }

  // A payload over the bound has either no room for its headers or 65536 bytes and more.
  lemma TooShort(len: nat)
    requires len > 65493 && Low16(HEADERS + len) >= HEADERS
    ensures len >= 0x1_0000
  {
  }

  lemma StreamBound(segs: seq<Bytes>, frame: Bytes, n: uint16)
    requires ArrivesAs(segs, frame) && |frame| < 0x1_0000
    ensures |Stream(segs, n)| < 0x1_0000
  {
    assert Flatten(segs) == segs[0] + Flatten(segs[1..]);
    if |segs| == 1 {
      assert Flatten(segs[1..]) == [];
    }
  }

  // The first segment agrees with the headers where the network leaves them alone.
  lemma FirstAgrees(segs: seq<Bytes>, h: Bytes, payload: Bytes)
    requires |h| == HEADERS && ArrivesAs(segs, h + payload)
    ensures segs[0][ETH_LEN + 9] == h[ETH_LEN + 9]
    ensures forall k :: ETH_LEN + 12 <= k < HEADERS ==> segs[0][k] == h[k]
  {
    assert Flatten(segs) == segs[0] + Flatten(segs[1..]);
    forall k | ETH_LEN + 12 <= k < HEADERS
      ensures segs[0][k] == h[k]
    {
      assert Flatten(segs)[k] == (h + payload)[k];
    }
  }

  lemma ReceivedFields(cfg: Config, flow: Flow, len: nat, cksum: uint16, tail: Bytes, segs: seq<Bytes>)
    requires cfg.Valid() && ArrivesAs(segs, Headers(cfg, flow, len, cksum) + tail)
    ensures ReadsFields(segs[0], flow)
    ensures DgramPaylLen(segs[0]) == Low16(len)
  {
    var h := Headers(cfg, flow, len, cksum);
    HeaderFields(cfg, flow, len, cksum);
    FirstAgrees(segs, h, tail);
    ReadFields(segs[0], h, flow, len);
    ReadLength(segs[0], h, len);
  }

  lemma ReadFields(first: Bytes, h: Bytes, flow: Flow, len: nat)
    requires |first| >= HEADERS && |h| == HEADERS && first[ETH_LEN + 9] == h[ETH_LEN + 9] == IPPROTO_UDP
    requires forall k :: ETH_LEN + 12 <= k < HEADERS ==> first[k] == h[k]
    requires h[ETH_LEN + 12..ETH_LEN + 16] == Store32(flow.srcIp)
    requires h[ETH_LEN + 16..ETH_LEN + 20] == Store32(flow.dstIp)
    requires h[ETH_LEN + IP_LEN..ETH_LEN + IP_LEN + 2] == Store16(flow.srcPort)
    requires h[ETH_LEN + IP_LEN + 2..ETH_LEN + IP_LEN + 4] == Store16(flow.dstPort)
    ensures ReadsFields(first, flow)
  {
    Load32Stored(h, ETH_LEN + 12, flow.srcIp);
    Load32Stored(h, ETH_LEN + 16, flow.dstIp);
    Load16Stored(h, ETH_LEN + IP_LEN, flow.srcPort);
    Load16Stored(h, ETH_LEN + IP_LEN + 2, flow.dstPort);
  }

  lemma ReadLength(first: Bytes, h: Bytes, len: nat)
    requires |first| >= HEADERS && |h| == HEADERS
    requires forall k :: ETH_LEN + 12 <= k < HEADERS ==> first[k] == h[k]
    requires h[ETH_LEN + IP_LEN + 4..ETH_LEN + IP_LEN + 6] == Store16(Swap16(Low16(len + UDP_LEN)))
    ensures DgramPaylLen(first) == Low16(len)
  {
    Load16Stored(h, ETH_LEN + IP_LEN + 4, Swap16(Low16(len + UDP_LEN)));
    assert DgramPaylLen(first) == Low16(Swap16(Load16(h, ETH_LEN + IP_LEN + 4)) - UDP_LEN);
    LengthBack(len);
  }

  // The 16-bit wrap of the length field on sending is undone on receiving.
  lemma LengthBack(len: nat)
    ensures Low16(ThroughField(len + UDP_LEN) - UDP_LEN) == Low16(len)
  {
    FieldExact(len + UDP_LEN);
  }

  lemma Low16Wraps(r: nat)
    requires r < 0x1_0000
    ensures Low16(r) == r
  {
  }

  lemma ReceivedPayload(segs: seq<Bytes>, frame: Bytes, n: uint16)
    requires ArrivesAs(segs, frame) && |frame| == HEADERS + n
    ensures Stream(segs, n) == frame[HEADERS..]
  {
    var all, rest := Flatten(segs), Flatten(segs[1..]);
    assert all == segs[0] + rest;
    assert all[HEADERS..|frame|] == frame[HEADERS..];
    if |segs| == 1 {
      assert rest == [] && all == segs[0];
      assert segs[0][HEADERS..][..n] == all[HEADERS..|frame|];
    } else {
      assert all[HEADERS..] == segs[0][HEADERS..] + rest;
    }
  }

  /** The buffer of the mbuf holds the whole frame exactly up to the largest payload; then that is the
      frame that leaves the machine. */
  lemma SentWhole(cfg: Config, flow: Flow, payload: Bytes, cksum: uint16)
    requires cfg.Valid()
    ensures SentMbuf(cfg, flow, payload, cksum).segs == [Frame(cfg, flow, payload, cksum)] <==>
            |payload| <= MaxPayload(cfg)
    ensures |payload| <= MaxPayload(cfg) ==>
              forall beyond: Bytes :: |beyond| == 0x1_0000 ==>
                SentFrame(cfg, flow, payload, cksum, beyond) == Frame(cfg, flow, payload, cksum)
  {
    var frame, own := Frame(cfg, flow, payload, cksum), SentMbuf(cfg, flow, payload, cksum).segs[0];
    LowBounds(|frame|);
    assert |own| == |frame| <==> |payload| <= MaxPayload(cfg);
    if |payload| <= MaxPayload(cfg) {
      assert own == frame;
    }
  }

  // ---------------------------------------------------------------- the bytes themselves

  // A 16-bit length in network byte order: the high byte first.
  lemma NetworkOrder(x: nat)
    ensures Store16(Swap16(Low16(x))) == [x / 256 % 256, x % 256]
  {
    var y := Low16(x);
    var high, low := y / 256, y % 256;
    assert Swap16(y) == low * 256 + high;
    assert Swap16(y) % 256 == high && Swap16(y) / 256 == low;
    assert high == x / 256 % 256 && low == x % 256;
  }

  lemma SwapLoaded(b: Bytes, at: nat)
    requires at + 2 <= |b|
    ensures Swap16(Load16(b, at)) == 256 * b[at] as int + b[at + 1] as int
  {
    var lo: int, hi: int := b[at], b[at + 1];
    var x := lo + 256 * hi;
    assert x % 256 == lo && x / 256 == hi;
  }

  lemma EthBytes(cfg: Config)
    requires cfg.Valid()
    ensures EthHeader(cfg) == cfg.dstMac + cfg.srcMac + [8, 0]
  {
    NetworkOrder(0x0800);
    assert Low16(0x0800) == 0x0800;
  }

  // The four bytes of an address as it lies in memory.
  function InMemory(ip: uint32): (b: Bytes)
    ensures |b| == 4
    ensures b[0] as int + 256 * b[1] as int + 0x1_0000 * b[2] as int + 0x100_0000 * b[3] as int == ip
  {
    Digits(ip);
    [ip % 256, ip / 256 % 256, ip / 0x1_0000 % 256, ip / 0x100_0000]
  }

  lemma IpBytes(flow: Flow, len: nat, cksum: uint16)
    ensures IpHeader(flow, len, cksum) ==
            [0x45, 0, (28 + len) / 256 % 256, (28 + len) % 256, 0, 0, 0, 0, 64, 17, cksum % 256, cksum / 256]
            + InMemory(flow.srcIp) + InMemory(flow.dstIp)
  {
    NetworkOrder(len + IP_LEN + UDP_LEN);
  }

  lemma UdpBytes(flow: Flow, len: nat)
    ensures UdpHeader(flow, len) == [flow.srcPort % 256, flow.srcPort / 256, flow.dstPort % 256, flow.dstPort / 256,
                                     (8 + len) / 256 % 256, (8 + len) % 256, 0, 0]
  {
    NetworkOrder(len + UDP_LEN);
  }

  lemma ByteOfFrame(e: Bytes, i: Bytes, u: Bytes, p: Bytes, k: nat)
    requires |e| == ETH_LEN && |i| == IP_LEN && |u| == UDP_LEN && k < HEADERS + |p|
    ensures (e + i + u + p)[k] ==
            if k < 14 then e[k] else if k < 34 then i[k - 14] else if k < 42 then u[k - 34] else p[k - 42]
  {
  }

  /** Every byte of a sent frame: destination and source MAC address, the type of IPv4; version and
      header length, total length (high byte first), no fragment, TTL 64, UDP, checksum, addresses;
      ports, length (high byte first), no checksum; the payload. Addresses and ports lie in memory
      as the socket structures have them. */
  lemma FrameBytes(cfg: Config, flow: Flow, payload: Bytes, cksum: uint16)
    requires cfg.Valid()
    ensures Frame(cfg, flow, payload, cksum) ==
            (cfg.dstMac + cfg.srcMac + [8, 0])
            + ([0x45, 0, (28 + |payload|) / 256 % 256, (28 + |payload|) % 256, 0, 0, 0, 0, 64, 17, cksum % 256, cksum / 256]
               + InMemory(flow.srcIp) + InMemory(flow.dstIp))
            + [flow.srcPort % 256, flow.srcPort / 256, flow.dstPort % 256, flow.dstPort / 256,
               (8 + |payload|) / 256 % 256, (8 + |payload|) % 256, 0, 0]
            + payload
  {
    EthBytes(cfg);
    IpBytes(flow, |payload|, cksum);
    UdpBytes(flow, |payload|);
  }

  /** In particular, by position: the addresses of the Ethernet header, its type, the two lengths, and
      the payload. */
  lemma FrameBytesAt(cfg: Config, flow: Flow, payload: Bytes, cksum: uint16, k: nat)
    requires cfg.Valid()
    ensures var f := Frame(cfg, flow, payload, cksum);
            && |f| == 42 + |payload| && f[..6] == cfg.dstMac && f[6..12] == cfg.srcMac
            && f[12] == 8 && f[13] == 0
            && f[16] == (28 + |payload|) / 256 % 256 && f[17] == (28 + |payload|) % 256
            && f[38] == (8 + |payload|) / 256 % 256 && f[39] == (8 + |payload|) % 256
            && (k < |payload| ==> f[42 + k] == payload[k])
  {
    var e, i, u := EthHeader(cfg), IpHeader(flow, |payload|, cksum), UdpHeader(flow, |payload|);
    var f := Frame(cfg, flow, payload, cksum);
    EthBytes(cfg);
    ByteOfFrame(e, i, u, payload, 12);
    ByteOfFrame(e, i, u, payload, 13);
    MacBytes(cfg, i, u, payload);
    IpBytes(flow, |payload|, cksum);
    ByteOfFrame(e, i, u, payload, 16);
    ByteOfFrame(e, i, u, payload, 17);
    UdpBytes(flow, |payload|);
    ByteOfFrame(e, i, u, payload, 38);
    ByteOfFrame(e, i, u, payload, 39);
    if k < |payload| {
      ByteOfFrame(e, i, u, payload, 42 + k);
    }
  }

  lemma MacBytes(cfg: Config, i: Bytes, u: Bytes, p: Bytes)
    requires cfg.Valid()
    ensures (EthHeader(cfg) + i + u + p)[..6] == cfg.dstMac && (EthHeader(cfg) + i + u + p)[6..12] == cfg.srcMac
  {
    EthBytes(cfg);
  }

  /** What a receiver makes of the bytes of any first segment: the UDP length with the high byte first,
      less the header; addresses and ports as they lie in memory. */
  lemma FieldsFromBytes(first: Bytes)
    requires |first| >= HEADERS
    ensures DgramPaylLen(first) == (256 * first[38] as int + first[39] as int - 8) % 65536
    ensures SrcPort(first) == first[34] as int + 256 * first[35] as int
    ensures DstPort(first) == first[36] as int + 256 * first[37] as int
    ensures SrcIp(first) == first[26] as int + 256 * first[27] as int + 0x1_0000 * first[28] as int
                          + 0x100_0000 * first[29] as int
    ensures DstIp(first) == first[30] as int + 256 * first[31] as int + 0x1_0000 * first[32] as int
                          + 0x100_0000 * first[33] as int
    ensures Protocol(first) == first[23]
  {
    SwapLoaded(first, 38);
  }

  /** The payload of a frame in one piece: what follows the headers, cut to the length that the bytes
      38 and 39 declare. */
  lemma OnePiecePayload(first: Bytes)
    requires |first| >= HEADERS
    ensures var declared := (256 * first[38] as int + first[39] as int - 8) % 65536;
            Stream([first], DgramPaylLen(first)) == first[42..42 + Min(declared, |first| - 42)]
  {
    FieldsFromBytes(first);
    assert [first][1..] == [] && Flatten([]) == [];
    var rest := first[42..];
    assert forall n :: 0 <= n <= |rest| ==> rest[..n] == first[42..42 + n];
  }

  // ---------------------------------------------------------------- the copy of udpdk_sendto

  // Memory after a frame is written at `at`.
  function Stored(mem: Bytes, at: nat, frame: Bytes): Bytes
    requires at + |frame| <= |mem|
  {
    mem[..at] + frame + mem[at + |frame|..]
  }

  // Only the `room` bytes from `at` on have changed.
  ghost predicate ChangedInside(mem: Bytes, after: Bytes, at: nat, room: nat) {
    |after| == |mem| && forall k :: 0 <= k < |mem| && !(at <= k < at + room) ==> after[k] == mem[k]
  }

  lemma StoredByte(mem: Bytes, at: nat, frame: Bytes, k: nat)
    requires at + |frame| <= |mem| && k < |mem|
    ensures |Stored(mem, at, frame)| == |mem|
    ensures Stored(mem, at, frame)[k] == if at <= k < at + |frame| then frame[k - at] else mem[k]
  {
  }

  /** The copy stays inside its packet buffer, whatever the memory around it holds, exactly if the
      headers and the payload fit the room. The code does not compare them. */
  lemma CopyStaysInside(cfg: Config, flow: Flow, payload: Bytes, cksum: uint16, at: nat)
    requires cfg.Valid()
    ensures (forall mem: Bytes :: at + HEADERS + |payload| <= |mem| ==>
               ChangedInside(mem, Stored(mem, at, Frame(cfg, flow, payload, cksum)), at, cfg.room))
            <==> FitsRoom(cfg, |payload|)
  {
    StoresInside(Frame(cfg, flow, payload, cksum), at, cfg.room);
  }

  lemma StoresInside(frame: Bytes, at: nat, room: nat)
    ensures (forall mem: Bytes :: at + |frame| <= |mem| ==> ChangedInside(mem, Stored(mem, at, frame), at, room))
            <==> |frame| <= room
  {
    if |frame| <= room {
      forall mem: Bytes | at + |frame| <= |mem|
        ensures ChangedInside(mem, Stored(mem, at, frame), at, room)
      {
        forall k: nat | k < |mem|
          ensures Stored(mem, at, frame)[k] == if at <= k < at + |frame| then frame[k - at] else mem[k]
        {
          StoredByte(mem, at, frame, k);
        }
      }
    } else {
      var mem := Filled(at + |frame|, Other(frame[room]));
      StoredByte(mem, at, frame, at + room);
      assert !ChangedInside(mem, Stored(mem, at, frame), at, room);
    }
  }

  // The headers and the payload are written one after the other.
  method FillPacket(buf: array<byte>, cfg: Config, flow: Flow, payload: Bytes, cksum: uint16)
    requires cfg.Valid() && buf.Length == cfg.room && FitsRoom(cfg, |payload|)
    modifies buf
    ensures buf[..HEADERS + |payload|] == Frame(cfg, flow, payload, cksum)
  {
    CopyBytes(buf, 0, EthHeader(cfg));
    CopyBytes(buf, ETH_LEN, IpHeader(flow, |payload|, cksum));
    CopyBytes(buf, ETH_LEN + IP_LEN, UdpHeader(flow, |payload|));
    CopyBytes(buf, HEADERS, payload);
    FourParts(buf[..HEADERS + |payload|], EthHeader(cfg), IpHeader(flow, |payload|, cksum), UdpHeader(flow, |payload|),
              payload);
  }

  lemma FourParts(all: Bytes, e: Bytes, i: Bytes, u: Bytes, p: Bytes)
    requires |all| == |e| + |i| + |u| + |p|
    requires forall k :: 0 <= k < |e| ==> all[k] == e[k]
    requires forall k :: |e| <= k < |e| + |i| ==> all[k] == i[k - |e|]
    requires forall k :: |e| + |i| <= k < |e| + |i| + |u| ==> all[k] == u[k - (|e| + |i|)]
    requires forall k :: |e| + |i| + |u| <= k < |all| ==> all[k] == p[k - (|e| + |i| + |u|)]
    ensures all == e + i + u + p
  {
  }

  /** The packet that udpdk_sendto fills in its buffer. */
  method MakePacket(cfg: Config, flow: Flow, payload: Bytes, cksum: uint16) returns (m: Mbuf)
    requires cfg.Valid() && FitsRoom(cfg, |payload|)
    ensures m == SentMbuf(cfg, flow, payload, cksum)
  {
    var buf := new byte[cfg.room];
    FillPacket(buf, cfg, flow, payload, cksum);
    var pktLen := Low32(HEADERS + |payload|);
    LowBounds(HEADERS + |payload|);
    ghost var frame := Frame(cfg, flow, payload, cksum);
    assert buf[..Low16(pktLen)] == frame[..Low16(pktLen)];
    m := Mbuf(pktLen, [buf[..Low16(pktLen)]]);
  }
}
