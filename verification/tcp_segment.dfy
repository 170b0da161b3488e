/** TCP segments on the wire (util/tcp_segment.hh, util/tcp_segment.cc). */
module TcpSegments {
  import opened MachineTypes
  import opened Checksums
  import opened Parsers
  import opened TcpMessages
  import opened Ipv4

  const TCP_HEADER_LENGTH: nat := 20
  const CHECKSUM_OFFSET: nat := 16

  datatype Segment = Segment(message: TcpMessage, srcPort: uint16, dstPort: uint16, cksum: uint16) {

    function Flags(): byte {
      (if message.receiver.ackno.Some? then 0x10 else 0)
      + (if message.sender.rst || message.receiver.rst then 0x04 else 0)
      + (if message.sender.syn then 0x02 else 0)
      + (if message.sender.fin then 0x01 else 0)
    }

    function RawAckno(): uint32 {
      if message.receiver.ackno.Some? then message.receiver.ackno.value else 0
    }

    function BeforeChecksum(): (b: seq<byte>)
      ensures |b| == CHECKSUM_OFFSET
    {
      ToBytes(srcPort, 2) + ToBytes(dstPort, 2) + ToBytes(message.sender.seqno, 4) + ToBytes(RawAckno(), 4)
      + [0x50, Flags()] + ToBytes(message.receiver.window, 2)
    }

    /** The segment on the wire: 20 bytes of header, no options, then the payload. */
    function Bytes(): (b: seq<byte>)
      ensures |b| == TCP_HEADER_LENGTH + |message.sender.payload|
    {
      BeforeChecksum() + ToBytes(cksum, 2) + ToBytes(0, 2) + message.sender.payload
    }

    function WithChecksum(pseudo: uint32): Segment {
      this.(cksum := Complement((pseudo + WordSum(false, this.(cksum := 0).Bytes())) % U32))
    }
  }

  function WithPayload(s: Segment, payload: seq<byte>): Segment {
    s.(message := s.message.(sender := s.message.sender.(payload := payload)))
  }

  /** A segment as it is read off the wire: whatever lies past the header and its options is payload. */
  function SegmentOf(b: seq<byte>): Segment
    requires |b| >= TCP_HEADER_LENGTH
  {
    WithPayload(HeaderFieldsOf(b), b[Min(b[12] / 0x10 * 4, |b|)..])
  }

  /** The header's fields; the wire has one reset flag for both halves of the message. */
  function HeaderFieldsOf(b: seq<byte>): Segment
    requires |b| >= TCP_HEADER_LENGTH
  {
    BigEndianBound(b[0..2]); BigEndianBound(b[2..4]); BigEndianBound(b[4..8]); BigEndianBound(b[8..12]);
    BigEndianBound(b[14..16]); BigEndianBound(b[16..18]);
    PowersOf256();
    var flags := b[13];
    var rst := flags / 0x04 % 2 == 1;
    var ackno: uint32 := BigEndian(b[8..12]);
    var sender := SenderMessage(BigEndian(b[4..8]), flags / 0x02 % 2 == 1, [], flags % 2 == 1, rst);
    var receiver := ReceiverMessage(if flags / 0x10 % 2 == 1 then Some(ackno) else None, BigEndian(b[14..16]), rst);
    Segment(TcpMessage(sender, receiver), BigEndian(b[0..2]), BigEndian(b[2..4]), BigEndian(b[16..18]))
  }

  /** The data, summed after the pseudo-header, verifies. */
  predicate Verifies(b: seq<byte>, pseudo: uint32) {
    Complement((pseudo + WordSum(false, b)) % U32) == 0
  }

  /** What `parse` accepts. */
  predicate IsSegment(b: seq<byte>, pseudo: uint32) {
    Verifies(b, pseudo) && |b| >= TCP_HEADER_LENGTH && b[12] / 0x10 * 4 >= TCP_HEADER_LENGTH
  }

  lemma FlagBits(s: Segment)
    ensures var f := s.Flags();
            && (f / 0x10 % 2 == 1 <==> s.message.receiver.ackno.Some?)
            && (f / 0x04 % 2 == 1 <==> s.message.sender.rst || s.message.receiver.rst)
            && (f / 0x02 % 2 == 1 <==> s.message.sender.syn) && (f % 2 == 1 <==> s.message.sender.fin)
  {}

  lemma SegmentSlices(s: Segment)
    ensures var b := s.Bytes();
            && b[0..2] == ToBytes(s.srcPort, 2) && b[2..4] == ToBytes(s.dstPort, 2)
            && b[4..8] == ToBytes(s.message.sender.seqno, 4) && b[8..12] == ToBytes(s.RawAckno(), 4)
            && b[12] == 0x50 && b[13] == s.Flags() && b[14..16] == ToBytes(s.message.receiver.window, 2)
            && b[16..18] == ToBytes(s.cksum, 2) && b[20..] == s.message.sender.payload
  {
    hide ToBytes, Segment.Flags, Segment.RawAckno, Segment.BeforeChecksum;
    FrontSlices(s);
    assert s.Bytes()[..16] == s.BeforeChecksum();
  }

  lemma FrontSlices(s: Segment)
    ensures var b := s.BeforeChecksum();
            && b[0..2] == ToBytes(s.srcPort, 2) && b[2..4] == ToBytes(s.dstPort, 2)
            && b[4..8] == ToBytes(s.message.sender.seqno, 4) && b[8..12] == ToBytes(s.RawAckno(), 4)
            && b[12] == 0x50 && b[13] == s.Flags() && b[14..16] == ToBytes(s.message.receiver.window, 2)
  {
    hide ToBytes, Segment.Flags, Segment.RawAckno;
  }

  /** A segment is recovered from its bytes, provided both halves agree on the reset flag. */
  lemma SegmentRoundTrip(s: Segment)
    requires s.message.sender.rst == s.message.receiver.rst
    ensures SegmentOf(s.Bytes()) == s
  {
    hide ToBytes, BigEndian, Pow256, Segment.Flags, Segment.Bytes;
    PowersOf256();
    SegmentSlices(s);
    FlagBits(s);
    BigEndianOfToBytes(s.srcPort, 2);
    BigEndianOfToBytes(s.dstPort, 2);
    BigEndianOfToBytes(s.message.sender.seqno, 4);
    BigEndianOfToBytes(s.RawAckno(), 4);
    BigEndianOfToBytes(s.message.receiver.window, 2);
    BigEndianOfToBytes(s.cksum, 2);
  }

  /** The computed checksum verifies, pseudo-header included, for any segment that fits a datagram. */
  lemma SegmentChecksumVerifies(s: Segment, pseudo: uint32)
    requires |s.Bytes()| < U16 && pseudo < 8 * U16
    ensures Verifies(s.WithChecksum(pseudo).Bytes(), pseudo)
  {
    hide Complement, WordSum, ToBytes, Segment.BeforeChecksum;
    var zeroed: seq<byte> := s.(cksum := 0).Bytes();
    WordSumBound(false, zeroed);
    var c: uint16 := Complement(pseudo + WordSum(false, zeroed));
    var high: byte := c / 0x100;
    var low: byte := c % 0x100;
    var stored: seq<byte> := zeroed[16 := high][17 := low];
    TwoBytes(0);
    TwoBytes(c);
    SegmentChecksumField(s, 0);
    SegmentChecksumField(s, c);
    assert s.(cksum := c).Bytes() == stored;
    StoredChecksumVerifies(pseudo, zeroed, 16);
  }

  lemma SegmentChecksumField(s: Segment, c: uint16)
    ensures s.(cksum := c).Bytes() == s.BeforeChecksum() + ToBytes(c, 2) + ToBytes(0, 2) + s.message.sender.payload
  {}

  /** A segment with one damaged byte is rejected. */
  lemma DamagedSegmentIsRejected(b: seq<byte>, pseudo: uint32, k: nat, v: byte)
    requires |b| < U16 && pseudo < 8 * U16 && IsSegment(b, pseudo) && k < |b| && v != b[k]
    ensures !IsSegment(b[k := v], pseudo)
  {
    hide Complement, WordSum;
    WordSumBound(false, b);
    WordSumBound(false, b[k := v]);
    DamageIsSeen(pseudo, b, k, v);
  }

  // ---- The program's operations.

  method SerializeSegment(seg: Segment, s: Serializer)
    requires AllSolid(s.output)
    modifies s
    ensures AllSolid(s.output) && s.Content() == old(s.Content()) + seg.Bytes()
  {
    hide ToBytes, Concat, Segment.Flags, Segment.RawAckno;
    ghost var start := s.Content();
    s.Integer(seg.srcPort, 2);
    s.Integer(seg.dstPort, 2);
    s.Integer(seg.message.sender.seqno, 4);
    s.Integer(seg.RawAckno(), 4);
    OneByte(0x50);
    OneByte(seg.Flags());
    s.Integer(0x50, 1);
    s.Integer(seg.Flags(), 1);
    s.Integer(seg.message.receiver.window, 2);
    assert s.Content() == start + seg.BeforeChecksum();
    s.Integer(seg.cksum, 2);
    s.Integer(0, 2);
    s.Buffer(seg.message.sender.payload);
    assert s.Content() == start + seg.Bytes();
  }

  method ComputeSegmentChecksum(seg: Segment, pseudo: uint32) returns (r: Segment)
    ensures r == seg.WithChecksum(pseudo)
  {
    var s := new Serializer();
    SerializeSegment(seg.(cksum := 0), s);
    assert [] + seg.(cksum := 0).Bytes() == seg.(cksum := 0).Bytes();
    var chunks := s.Finish();
    var check := new InternetChecksum(pseudo);
    check.AddAll(chunks);
    var c := check.Value();
    r := seg.(cksum := c);
  }

  method ParseSegment(chunks: seq<seq<byte>>, pseudo: uint32) returns (r: Option<Segment>)
    requires AllSolid(chunks)
    ensures r == if IsSegment(Concat(chunks), pseudo) then Some(SegmentOf(Concat(chunks))) else None
  {
    hide BigEndian, Parser.Valid, HeaderFieldsOf, Verifies;
    var p := new Parser(chunks);
    assert p.bytes[0..] == p.bytes;
    var ok := VerifyChecksum(p, pseudo);
    if !ok {
      return None;
    }
    var seg, dataOffset := ReadHeader(p);
    if p.error || dataOffset < TCP_HEADER_LENGTH / 4 {
      return None;
    }
    p.RemovePrefix(dataOffset * 4 - TCP_HEADER_LENGTH);
    var payload := p.ConcatenateAllRemaining();
    r := Some(WithPayload(seg, payload));
  }

  method ReadHeader(p: Parser) returns (seg: Segment, dataOffset: nat)
    requires p.Valid() && !p.error && p.pos == 0
    modifies p, p.input
    ensures p.Valid() && (p.error <==> |p.bytes| < TCP_HEADER_LENGTH)
    ensures !p.error ==> p.pos == TCP_HEADER_LENGTH && seg == HeaderFieldsOf(p.bytes) && dataOffset == p.bytes[12] / 0x10
  {
    hide BigEndian, Pow256, Parser.Valid, HeaderFieldsOf;
    var srcPort, dstPort, seqno, ackno := ReadNumbers(p);
    var octet, flags, window, cksum := ReadRest(p);
    dataOffset := octet / 0x10;
    var rst := flags / 0x04 % 2 == 1;
    var sender := SenderMessage(seqno, flags / 0x02 % 2 == 1, [], flags % 2 == 1, rst);
    var receiver := ReceiverMessage(if flags / 0x10 % 2 == 1 then Some(ackno) else None, window, rst);
    seg := Segment(TcpMessage(sender, receiver), srcPort, dstPort, cksum);
    if !p.error {
      SegmentFields(p.bytes, flags);
    }
  }

  method ReadNumbers(p: Parser) returns (srcPort: uint16, dstPort: uint16, seqno: uint32, ackno: uint32)
    requires p.Valid() && !p.error && p.pos == 0
    modifies p, p.input
    ensures p.Valid() && (p.error <==> |p.bytes| < 12)
    ensures !p.error ==>
              && p.pos == 12
              && srcPort == BigEndian(p.bytes[0..2]) && dstPort == BigEndian(p.bytes[2..4])
              && seqno == BigEndian(p.bytes[4..8]) && ackno == BigEndian(p.bytes[8..12])
  {
    hide BigEndian, Pow256, Parser.Valid;
    PowersOf256();
    srcPort := p.Integer(2, 0);
    dstPort := p.Integer(2, 0);
    seqno := p.Integer(4, 0);
    ackno := p.Integer(4, 0);
  }

  method ReadRest(p: Parser) returns (octet: byte, flags: byte, window: uint16, cksum: uint16)
    requires p.Valid() && (!p.error ==> p.pos == 12)
    modifies p, p.input
    ensures p.Valid() && (p.error <==> old(p.error) || |p.bytes| < TCP_HEADER_LENGTH)
    ensures !p.error ==>
              && p.pos == TCP_HEADER_LENGTH
              && octet == BigEndian(p.bytes[12..13]) && flags == BigEndian(p.bytes[13..14])
              && window == BigEndian(p.bytes[14..16]) && cksum == BigEndian(p.bytes[16..18])
  {
    hide BigEndian, Pow256, Parser.Valid;
    PowersOf256();
    octet := p.Integer(1, 0);
    flags := p.Integer(1, octet);
    window := p.Integer(2, 0);
    cksum := p.Integer(2, 0);
    var urgent := p.Integer(2, 0);
  }

  method VerifyChecksum(p: Parser, pseudo: uint32) returns (ok: bool)
    requires p.Valid()
    ensures ok == Verifies(p.bytes[p.pos..], pseudo)
  {
    var check := new InternetChecksum(pseudo);
    var views := p.input.Buffers();
    check.AddAll(views);
    var c := check.Value();
    ok := c == 0;
  }

  /** `HeaderFieldsOf`, field by field. */
  lemma SegmentFields(b: seq<byte>, flags: byte)
    requires |b| >= TCP_HEADER_LENGTH && flags == BigEndian(b[13..14])
    ensures BigEndian(b[12..13]) == b[12]
    ensures var s := HeaderFieldsOf(b);
            && s.srcPort == BigEndian(b[0..2]) && s.dstPort == BigEndian(b[2..4]) && s.cksum == BigEndian(b[16..18])
            && s.message.sender.seqno == BigEndian(b[4..8])
            && s.message.receiver.ackno == (if flags / 0x10 % 2 == 1 then Some(BigEndian(b[8..12])) else None)
            && s.message.sender.rst == s.message.receiver.rst == (flags / 0x04 % 2 == 1)
            && s.message.sender.syn == (flags / 0x02 % 2 == 1) && s.message.sender.fin == (flags % 2 == 1)
            && s.message.receiver.window == BigEndian(b[14..16])
            && s.message.sender.payload == []
  {
    OneByte(b[12]);
    OneByte(b[13]);
    assert b[12..13] == [b[12]] && b[13..14] == [b[13]];
  }
}
