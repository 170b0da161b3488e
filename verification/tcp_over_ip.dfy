/** TCP messages in IPv4 datagrams, and back (util/tcp_over_ip.cc). */
module TcpOverIp {
  import opened MachineTypes
  import opened Checksums
  import opened Parsers
  import opened TcpMessages
  import opened Ipv4
  import opened TcpSegments

  datatype Endpoint = Endpoint(ip: uint32, port: uint16)

  datatype AdapterConfig = AdapterConfig(source: Endpoint, destination: Endpoint)

  /** A listening adapter takes on the addresses of the first SYN it sees; a connected one filters by them. */
  datatype Adapter = Adapter(config: AdapterConfig, listening: bool)

  /** The segment that carries `msg`, before its checksum. */
  function BareSegment(cfg: AdapterConfig, msg: TcpMessage): Segment {
    Segment(msg, cfg.source.port, cfg.destination.port, 0)
  }

  /** Unsigned 16-bit: the length of an oversized payload is cut. */
  function BareHeader(cfg: AdapterConfig, msg: TcpMessage): Header {
    DEFAULT_HEADER.(
      src := cfg.source.ip,
      dst := cfg.destination.ip,
      len := (DEFAULT_HEADER.hlen * 4 + TCP_HEADER_LENGTH + |msg.sender.payload|) % U16)
  }

  function WrappedHeader(cfg: AdapterConfig, msg: TcpMessage): Header {
    BareHeader(cfg, msg).WithChecksum()
  }

  function WrappedBytes(cfg: AdapterConfig, msg: TcpMessage): seq<byte> {
    BareSegment(cfg, msg).WithChecksum(BareHeader(cfg, msg).PseudoChecksum()).Bytes()
  }

  /** The filters of `unwrap_tcp_in_ip`, in order, on the bytes of the payload. */
  function Unwrapped(a: Adapter, h: Header, payload: seq<byte>): (Option<TcpMessage>, Adapter) {
    if !a.listening && h.dst != a.config.source.ip then (None, a)
    else if !a.listening && h.src != a.config.destination.ip then (None, a)
    else if h.proto != PROTO_TCP then (None, a)
    else if !IsSegment(payload, h.PseudoChecksum()) then (None, a)
    else
      var seg := SegmentOf(payload);
      if seg.dstPort != a.config.source.port then (None, a)
      else if a.listening && !(seg.message.sender.syn && !seg.message.sender.rst) then (None, a)
      else
        var a' := if a.listening then
                    Adapter(AdapterConfig(a.config.source.(ip := h.dst), Endpoint(h.src, seg.srcPort)), false)
                  else a;
        if seg.srcPort != a'.config.destination.port then (None, a')
        else (Some(seg.message), a')
  }

  function Mirrored(cfg: AdapterConfig): AdapterConfig {
    AdapterConfig(cfg.destination, cfg.source)
  }

  /** The message fits an IPv4 datagram, and both its halves agree on the reset flag, of which the wire has one. */
  predicate FitsDatagram(msg: TcpMessage) {
    msg.sender.rst == msg.receiver.rst && 40 + |msg.sender.payload| < U16
  }

  /** The message wrapped at one end is the message unwrapped at the connected other end. */
  lemma UnwrapOfWrap(cfg: AdapterConfig, msg: TcpMessage)
    requires FitsDatagram(msg)
    ensures var peer := Adapter(Mirrored(cfg), false);
            Unwrapped(peer, WrappedHeader(cfg, msg), WrappedBytes(cfg, msg)) == (Some(msg), peer)
  {
    hide Segment.Bytes, SegmentOf, Verifies, Complement, WordSum;
    var pseudo := BareHeader(cfg, msg).PseudoChecksum();
    var seg := BareSegment(cfg, msg).WithChecksum(pseudo);
    assert WrappedHeader(cfg, msg).PseudoChecksum() == pseudo;
    SegmentChecksumVerifies(BareSegment(cfg, msg), pseudo);
    SegmentRoundTrip(seg);
    SegmentSlices(seg);
  }

  /** A listening adapter that sees a wrapped SYN for its port unwraps it, and is connected to the sender. */
  lemma ListenerAcceptsSyn(cfg: AdapterConfig, msg: TcpMessage, any: AdapterConfig)
    requires FitsDatagram(msg) && msg.sender.syn && !msg.sender.rst && any.source.port == cfg.destination.port
    ensures Unwrapped(Adapter(any, true), WrappedHeader(cfg, msg), WrappedBytes(cfg, msg))
         == (Some(msg), Adapter(Mirrored(cfg), false))
  {
    hide Segment.Bytes, SegmentOf, Verifies, Complement, WordSum;
    var pseudo := BareHeader(cfg, msg).PseudoChecksum();
    var seg := BareSegment(cfg, msg).WithChecksum(pseudo);
    assert WrappedHeader(cfg, msg).PseudoChecksum() == pseudo;
    SegmentChecksumVerifies(BareSegment(cfg, msg), pseudo);
    SegmentRoundTrip(seg);
    SegmentSlices(seg);
  }

  /** The serialised datagram starts with an acceptable header, which is read back as it was, and announces
      exactly the segment as its payload, with nothing after it. */
  lemma WrappedDatagramParses(cfg: AdapterConfig, msg: TcpMessage, bytes: seq<byte>)
    requires FitsDatagram(msg) && bytes == WrappedHeader(cfg, msg).Bytes() + WrappedBytes(cfg, msg)
    ensures StartsWithHeader(bytes) && HeaderOf(bytes) == WrappedHeader(cfg, msg)
    ensures !HasTrailer(bytes) && PayloadOf(bytes) == WrappedBytes(cfg, msg)
  {
    hide Header.Bytes, Segment.Bytes, HeaderOf, Complement, WordSum;
    var h := WrappedHeader(cfg, msg);
    HeaderRoundTrip(h, WrappedBytes(cfg, msg));
    assert h.(cksum := 0) == BareHeader(cfg, msg).(cksum := 0);
    assert bytes[20..] == WrappedBytes(cfg, msg);
  }

  /** But padding after the datagram, as Ethernet adds to short frames, breaks the journey when everything arrives
      in one chunk: the boundary between header and payload then falls inside that chunk, 20 bytes in, so by the
      contract of `ParseDatagram` the last 20 bytes of every such segment are lost. */
  lemma PaddingInOneChunk(cfg: AdapterConfig, msg: TcpMessage, padding: seq<byte>)
    requires FitsDatagram(msg) && padding != []
    ensures var bytes := WrappedHeader(cfg, msg).Bytes() + WrappedBytes(cfg, msg) + padding;
            && StartsWithHeader(bytes) && HasTrailer(bytes) && PayloadOf(bytes) == WrappedBytes(cfg, msg)
            && SkipAt([bytes], PayloadStart(bytes)) == HEADER_LENGTH <= HeaderOf(bytes).PayloadLength()
  {
    hide Header.Bytes, Segment.Bytes, HeaderOf, Complement, WordSum;
    var h := WrappedHeader(cfg, msg);
    var bytes := h.Bytes() + WrappedBytes(cfg, msg) + padding;
    assert bytes == h.Bytes() + (WrappedBytes(cfg, msg) + padding);
    HeaderRoundTrip(h, WrappedBytes(cfg, msg) + padding);
    assert h.(cksum := 0) == BareHeader(cfg, msg).(cksum := 0);
    assert bytes[20..] == WrappedBytes(cfg, msg) + padding;
  }

  // ---- What is delivered, read off the bytes.

  /** The 16-bit number at byte `i`. */
  function WordAt(b: seq<byte>, i: nat): uint16
    requires i + 1 < |b|
  {
    b[i] as int * 0x100 + b[i + 1] as int
  }

  /** A complete TCP header, and a sum with the pseudo-header that is 0 modulo 65535 without being 0. */
  ghost predicate WholeSegment(h: Header, payload: seq<byte>) {
    && |payload| >= TCP_HEADER_LENGTH && payload[12] / 0x10 * 4 >= TCP_HEADER_LENGTH
    && var sum := WordSum(false, h.PseudoHeader() + payload) % U32;
       sum != 0 && sum % 0xffff == 0
  }

  /** A whole TCP segment from the connection's other end to this one. */
  ghost predicate ForConnection(cfg: AdapterConfig, h: Header, payload: seq<byte>) {
    && h.proto == PROTO_TCP && WholeSegment(h, payload)
    && h.src == cfg.destination.ip && h.dst == cfg.source.ip
    && WordAt(payload, 0) == cfg.destination.port && WordAt(payload, 2) == cfg.source.port
  }

  /** A whole TCP segment for the port listened on, with SYN and without RST. */
  ghost predicate ForListener(port: uint16, h: Header, payload: seq<byte>) {
    && h.proto == PROTO_TCP && WholeSegment(h, payload)
    && WordAt(payload, 2) == port
    && payload[13] / 0x02 % 2 == 1 && payload[13] / 0x04 % 2 == 0
  }

  lemma IsWholeSegment(h: Header, payload: seq<byte>)
    ensures IsSegment(payload, h.PseudoChecksum()) <==> WholeSegment(h, payload)
  {
    hide WordSum, Header.PseudoHeader, Header.PseudoChecksum, Fold;
    PseudoChecksumIsSum(h);
    WordSumConcat(false, h.PseudoHeader(), payload);
    FoldIsResidue((h.PseudoChecksum() + WordSum(false, payload)) % U32);
  }

  lemma PortsAndFlags(b: seq<byte>)
    requires |b| >= TCP_HEADER_LENGTH
    ensures var s := SegmentOf(b);
            && s.srcPort == WordAt(b, 0) && s.dstPort == WordAt(b, 2)
            && (s.message.sender.syn <==> b[13] / 0x02 % 2 == 1) && (s.message.sender.rst <==> b[13] / 0x04 % 2 == 1)
  {
    OneByte(b[13]);
    assert b[13..14] == [b[13]];
    SegmentFields(b, b[13]);
    TwoByteWord(b[0], b[1]);
    TwoByteWord(b[2], b[3]);
    assert b[0..2] == [b[0], b[1]] && b[2..4] == [b[2], b[3]];
  }

  lemma TwoByteWord(high: byte, low: byte)
    ensures BigEndian([high, low]) == high * 0x100 + low
  {
    assert [high, low][..1] == [high];
    OneByte(high);
  }

  /** Exactly what is unwrapped. A connected adapter delivers the segments of its own connection and is not changed by
      anything. A listening one delivers a SYN for its port, and is connected to the sender from then on; nothing
      else makes it leave listening. */
  lemma UnwrappedIff(a: Adapter, h: Header, payload: seq<byte>)
    ensures var (msg, a') := Unwrapped(a, h, payload);
            if a.listening then
              && (msg.Some? <==> ForListener(a.config.source.port, h, payload))
              && a' == (if msg.None? then a
                        else Adapter(AdapterConfig(Endpoint(h.dst, a.config.source.port),
                                                   Endpoint(h.src, WordAt(payload, 0))), false))
            else
              && (msg.Some? <==> ForConnection(a.config, h, payload))
              && a' == a
  {
    hide SegmentOf, IsSegment, WholeSegment, Header.PseudoChecksum;
    IsWholeSegment(h, payload);
    WholeIsLong(h, payload);
    if |payload| >= TCP_HEADER_LENGTH {
      PortsAndFlags(payload);
    }
  }

  lemma WholeIsLong(h: Header, payload: seq<byte>)
    ensures WholeSegment(h, payload) ==> |payload| >= TCP_HEADER_LENGTH
    ensures IsSegment(payload, h.PseudoChecksum()) ==> |payload| >= TCP_HEADER_LENGTH
  {}

  /** So of all connected adapters only the one at the other end of the connection delivers what was wrapped. */
  lemma OnlyTheOtherEndDelivers(cfg: AdapterConfig, other: AdapterConfig, msg: TcpMessage)
    requires FitsDatagram(msg)
    ensures ForConnection(Mirrored(other), WrappedHeader(cfg, msg), WrappedBytes(cfg, msg)) <==> other == cfg
  {
    hide SegmentOf, IsSegment, WholeSegment, Segment.Bytes, Verifies, Complement, WordSum;
    var h, b := WrappedHeader(cfg, msg), WrappedBytes(cfg, msg);
    UnwrapOfWrap(cfg, msg);
    UnwrappedIff(Adapter(Mirrored(cfg), false), h, b);
    WholeIsLong(h, b);
  }

  // ---- The program's operations.

  method WrapTcpInIp(cfg: AdapterConfig, msg: TcpMessage) returns (d: Datagram)
    ensures d.header == WrappedHeader(cfg, msg)
    ensures AllSolid(d.payload) && Concat(d.payload) == WrappedBytes(cfg, msg)
  {
    hide Segment.Bytes, Header.PseudoChecksum, Complement, WordSum;
    var payloadSize := |msg.sender.payload|;
    var seg := Segment(msg, cfg.source.port, cfg.destination.port, 0);
    var header := DEFAULT_HEADER;
    header := header.(src := cfg.source.ip);
    header := header.(dst := cfg.destination.ip);
    header := header.(len := (header.hlen * 4 + 20 + payloadSize) % U16);
    seg := ComputeSegmentChecksum(seg, header.PseudoChecksum());
    var checked := ComputeChecksum(header);
    var s := new Serializer();
    SerializeSegment(seg, s);
    assert [] + seg.Bytes() == seg.Bytes();
    var payload := s.Finish();
    d := Datagram(checked.value, payload);
  }

  method UnwrapTcpInIp(a: Adapter, d: Datagram) returns (msg: Option<TcpMessage>, a': Adapter)
    requires AllSolid(d.payload)
    ensures (msg, a') == Unwrapped(a, d.header, Concat(d.payload))
    ensures !a.listening ==> a' == a && (msg.Some? <==> ForConnection(a.config, d.header, Concat(d.payload)))
    ensures a.listening ==> (msg.Some? <==> ForListener(a.config.source.port, d.header, Concat(d.payload)))
    ensures msg.None? ==> a' == a
  {
    UnwrappedIff(a, d.header, Concat(d.payload));
    msg, a' := None, a;
    hide ForConnection, ForListener, SegmentOf, IsSegment, Header.PseudoChecksum;
    if !a.listening && d.header.dst != a.config.source.ip {
      return;
    }
    if !a.listening && d.header.src != a.config.destination.ip {
      return;
    }
    if d.header.proto != PROTO_TCP {
      return;
    }
    var parsed := ParseSegment(d.payload, d.header.PseudoChecksum());
    if parsed.None? {
      return;
    }
    var seg := parsed.value;
    if seg.dstPort != a.config.source.port {
      return;
    }
    if a.listening {
      if seg.message.sender.syn && !seg.message.sender.rst {
        a' := Adapter(AdapterConfig(a.config.source.(ip := d.header.dst), Endpoint(d.header.src, seg.srcPort)), false);
      } else {
        return;
      }
    }
    if seg.srcPort != a'.config.destination.port {
      return;
    }
    msg := Some(seg.message);
  }

  /** The whole journey: wrapped, serialised, cut into any non-empty chunks, parsed and unwrapped at the connected
      other end, the message arrives as it was sent. */
  method WireRoundTrip(cfg: AdapterConfig, msg: TcpMessage, chunks: seq<seq<byte>>) returns (received: Option<TcpMessage>)
    requires FitsDatagram(msg) && AllSolid(chunks)
    requires Concat(chunks) == WrappedHeader(cfg, msg).Bytes() + WrappedBytes(cfg, msg)
    ensures received == Some(msg)
  {
    hide Header.Bytes, Segment.Bytes, HeaderOf, Unwrapped, Concat;
    WrappedDatagramParses(cfg, msg, Concat(chunks));
    UnwrapOfWrap(cfg, msg);
    var outcome := ParseDatagram(chunks);
    var other := Adapter(Mirrored(cfg), false);
    received, other := UnwrapTcpInIp(other, outcome.datagram);
  }
}
