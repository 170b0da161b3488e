/** The IPv4 header and datagram (util/ipv4_header.hh, util/ipv4_header.cc, util/ipv4_datagram.hh). */
module Ipv4 {
  import opened MachineTypes
  import opened Division
  import opened Checksums
  import opened Parsers

  const HEADER_LENGTH: nat := 20
  const PROTO_TCP: byte := 6
  const DEFAULT_TTL: byte := 128

  datatype Header = Header(
    ver: byte,
    hlen: byte,
    tos: byte,
    len: uint16,
    id: uint16,
    df: bool,
    mf: bool,
    offset: uint16,
    ttl: byte,
    proto: byte,
    cksum: uint16,
    src: uint32,
    dst: uint32)
  {
    /** Unsigned 16-bit: a length shorter than the header wraps. */
    function PayloadLength(): uint16 {
      (len - 4 * hlen) % U16
    }

    /** Source, destination, protocol and payload length, summed as 16-bit words. */
    function PseudoChecksum(): uint32 {
      src / U16 + src % U16 + (dst / U16 + dst % U16) + proto + PayloadLength()
    }

    /** The pseudo-header that a TCP checksum covers (section 3.1 of RFC 9293). */
    function PseudoHeader(): (b: seq<byte>)
      ensures |b| == 12
    {
      ToBytes(src, 4) + ToBytes(dst, 4) + [0, proto] + ToBytes(PayloadLength(), 2)
    }

    /** Fragment flags and offset as they share 16 bits. */
    function FragmentWord(): uint16 {
      (if df then 0x4000 else 0) + (if mf then 0x2000 else 0) + offset % 0x2000
    }

    function BeforeChecksum(): (b: seq<byte>)
      ensures |b| == 10
    {
      [0x40 + hlen % 0x10, tos] + ToBytes(len, 2) + ToBytes(id, 2) + ToBytes(FragmentWord(), 2) + [ttl, proto]
    }

    function AfterChecksum(): (b: seq<byte>)
      ensures |b| == 8
    {
      ToBytes(src, 4) + ToBytes(dst, 4)
    }

    /** The 20 bytes on the wire, version 4. */
    function Bytes(): (b: seq<byte>)
      ensures |b| == HEADER_LENGTH
    {
      BeforeChecksum() + ToBytes(cksum, 2) + AfterChecksum()
    }

    function WithChecksum(): Header {
      this.(cksum := Complement(WordSum(false, this.(cksum := 0).Bytes())))
    }

    /** What a header can hold after parsing: 4-bit version and length, 13-bit offset. */
    predicate Fits() {
      ver == 4 && 5 <= hlen < 0x10 && offset < 0x2000
    }
  }

  const DEFAULT_HEADER := Header(4, 5, 0, 0, 0, true, false, 0, DEFAULT_TTL, PROTO_TCP, 0, 0, 0)

  datatype Datagram = Datagram(header: Header, payload: seq<seq<byte>>)

  /** The fields as they are read off the wire. */
  function HeaderOf(b: seq<byte>): Header
    requires |b| >= HEADER_LENGTH
  {
    var fragment := BigEndian(b[6..8]);
    BigEndianBound(b[2..4]); BigEndianBound(b[4..6]); BigEndianBound(b[6..8]);
    BigEndianBound(b[10..12]); BigEndianBound(b[12..16]); BigEndianBound(b[16..20]);
    PowersOf256();
    Header(b[0] / 0x10, b[0] % 0x10, b[1], BigEndian(b[2..4]), BigEndian(b[4..6]),
           fragment / 0x4000 % 2 == 1, fragment / 0x2000 % 2 == 1, fragment % 0x2000,
           b[8], b[9], BigEndian(b[10..12]), BigEndian(b[12..16]), BigEndian(b[16..20]))
  }

  lemma PowersOf256()
    ensures Pow256(0) == 1 && Pow256(1) == 0x100 && Pow256(2) == U16 && Pow256(3) == 0x100_0000 && Pow256(4) == U32
  {
    assert Pow256(3) == 0x100_0000;
  }

  /** Every header that fits its fields is recovered from its own bytes, whatever follows them. */
  lemma HeaderRoundTrip(h: Header, rest: seq<byte>)
    requires h.Fits()
    ensures HeaderOf(h.Bytes() + rest) == h
  {
    hide Header.Bytes, Header.FragmentWord, BigEndian, ToBytes, Pow256;
    PowersOf256();
    FieldSlices(h, rest);
    FragmentFields(h);
    BigEndianOfToBytes(h.len, 2);
    BigEndianOfToBytes(h.id, 2);
    BigEndianOfToBytes(h.FragmentWord(), 2);
    BigEndianOfToBytes(h.cksum, 2);
    BigEndianOfToBytes(h.src, 4);
    BigEndianOfToBytes(h.dst, 4);
  }

  lemma FragmentFields(h: Header)
    requires h.offset < 0x2000
    ensures var w := h.FragmentWord();
            (w / 0x4000 % 2 == 1 <==> h.df) && (w / 0x2000 % 2 == 1 <==> h.mf) && w % 0x2000 == h.offset
  {}

  lemma FieldSlices(h: Header, rest: seq<byte>)
    ensures var b := h.Bytes() + rest;
            && b[0] == 0x40 + h.hlen % 0x10 && b[1] == h.tos && b[8] == h.ttl && b[9] == h.proto
            && b[2..4] == ToBytes(h.len, 2) && b[4..6] == ToBytes(h.id, 2) && b[6..8] == ToBytes(h.FragmentWord(), 2)
            && b[10..12] == ToBytes(h.cksum, 2) && b[12..16] == ToBytes(h.src, 4) && b[16..20] == ToBytes(h.dst, 4)
  {
    hide ToBytes, Header.FragmentWord;
    BeforeSlices(h);
    assert (h.Bytes() + rest)[..10] == h.BeforeChecksum();
  }

  lemma BeforeSlices(h: Header)
    ensures var b := h.BeforeChecksum();
            && b[0] == 0x40 + h.hlen % 0x10 && b[1] == h.tos && b[8] == h.ttl && b[9] == h.proto
            && b[2..4] == ToBytes(h.len, 2) && b[4..6] == ToBytes(h.id, 2) && b[6..8] == ToBytes(h.FragmentWord(), 2)
  {
    hide ToBytes, Header.FragmentWord;
  }

  /** The stored header checksum verifies. */
  lemma HeaderChecksumVerifies(h: Header)
    ensures Complement(WordSum(false, h.WithChecksum().Bytes())) == 0
  {
    hide Complement, WordSum, ToBytes, Header.BeforeChecksum, Header.AfterChecksum;
    var zeroed: seq<byte> := h.(cksum := 0).Bytes();
    var c: uint16 := Complement(WordSum(false, zeroed));
    var high: byte := c / 0x100;
    var low: byte := c % 0x100;
    var stored: seq<byte> := zeroed[10 := high][11 := low];
    TwoBytes(0);
    TwoBytes(c);
    ChecksumField(h, 0);
    ChecksumField(h, c);
    assert h.WithChecksum().Bytes() == stored;
    StoredChecksumVerifies(0, zeroed, 10);
  }

  /** Nothing else in the header depends on the checksum field. */
  lemma ChecksumField(h: Header, c: uint16)
    ensures h.(cksum := c).Bytes() == h.BeforeChecksum() + ToBytes(c, 2) + h.AfterChecksum()
  {}

  /** `PseudoChecksum` is the sum of the pseudo-header's bytes. */
  lemma PseudoChecksumIsSum(h: Header)
    ensures h.PseudoChecksum() == WordSum(false, h.PseudoHeader())
  {
    hide ToBytes, WordSum, Header.PayloadLength;
    FourBytes(h.src);
    FourBytes(h.dst);
    TwoBytes(h.PayloadLength());
    WordOf(h.PayloadLength() / 0x100, h.PayloadLength() % 0x100);
    WordOf(0, h.proto);
    assert h.PseudoHeader() == ToBytes(h.src, 4) + (ToBytes(h.dst, 4) + ([0, h.proto] + ToBytes(h.PayloadLength(), 2)));
    WordSumConcat(false, ToBytes(h.src, 4), ToBytes(h.dst, 4) + ([0, h.proto] + ToBytes(h.PayloadLength(), 2)));
    WordSumConcat(false, ToBytes(h.dst, 4), [0, h.proto] + ToBytes(h.PayloadLength(), 2));
    WordSumConcat(false, [0, h.proto], ToBytes(h.PayloadLength(), 2));
  }

  lemma FourBytes(v: uint32)
    ensures WordSum(false, ToBytes(v, 4)) == v / U16 + v % U16
  {
    hide WordSum, ToBytes;
    Halves(v);
    FourBytesAre(v);
    WordOf(v / 0x100_0000, v / U16 % 0x100);
    WordOf(v / 0x100 % 0x100, v % 0x100);
    assert ToBytes(v, 4) == [v / 0x100_0000, v / U16 % 0x100] + [v / 0x100 % 0x100, v % 0x100];
    WordSumConcat(false, [v / 0x100_0000, v / U16 % 0x100], [v / 0x100 % 0x100, v % 0x100]);
  }

  lemma Halves(v: uint32)
    ensures v / U16 == v / 0x100_0000 * 0x100 + v / U16 % 0x100
    ensures v % U16 == v / 0x100 % 0x100 * 0x100 + v % 0x100
  {}

  lemma FourBytesAre(v: uint32)
    ensures ToBytes(v, 4) == [v / 0x100_0000, v / U16 % 0x100, v / 0x100 % 0x100, v % 0x100]
  {
    hide ToBytes, Pow256;
    PowersOf256();
    ToBytesAt(v, 4, 0);
    ToBytesAt(v, 4, 1);
    ToBytesAt(v, 4, 2);
    ToBytesAt(v, 4, 3);
  }

  lemma TwoBytes(v: uint16)
    ensures ToBytes(v, 2) == [v / 0x100, v % 0x100]
  {
    assert ToBytes(v / 0x100, 1) == [] + [v / 0x100 % 0x100];
  }

  // ---- The program's operations.

  /** `false` is the exception for a wrong IP version. */
  method SerializeHeader(h: Header, s: Serializer) returns (ok: bool)
    modifies s
    ensures ok == (h.ver == 4) && s.output == old(s.output)
    ensures s.Content() == old(s.Content()) + if ok then h.Bytes() else []
  {
    if h.ver != 4 {
      return false;
    }
    hide ToBytes, Concat, Header.BeforeChecksum, Header.AfterChecksum;
    ok := true;
    ghost var start := s.Content();
    SerializeBeforeChecksum(h, s);
    s.Integer(h.cksum, 2);
    SerializeAfterChecksum(h, s);
    assert s.Content() == start + h.Bytes();
  }

  method SerializeBeforeChecksum(h: Header, s: Serializer)
    modifies s`buffer
    ensures s.Content() == old(s.Content()) + h.BeforeChecksum()
  {
    hide ToBytes, Concat;
    var firstByte: byte := 0x40 + h.hlen % 0x10;
    OneByte(firstByte);
    OneByte(h.tos);
    OneByte(h.ttl);
    OneByte(h.proto);
    ghost var start := s.Content();
    s.Integer(firstByte, 1);
    s.Integer(h.tos, 1);
    assert s.Content() == start + [firstByte, h.tos];
    s.Integer(h.len, 2);
    s.Integer(h.id, 2);
    s.Integer(h.FragmentWord(), 2);
    s.Integer(h.ttl, 1);
    s.Integer(h.proto, 1);
    assert s.Content() == start + h.BeforeChecksum();
  }

  method SerializeAfterChecksum(h: Header, s: Serializer)
    modifies s`buffer
    ensures s.Content() == old(s.Content()) + h.AfterChecksum()
  {
    hide ToBytes, Concat;
    ghost var start := s.Content();
    s.Integer(h.src, 4);
    s.Integer(h.dst, 4);
    assert s.Content() == start + h.AfterChecksum();
  }

  lemma OneByte(b: byte)
    ensures ToBytes(b, 1) == [b] && BigEndian([b]) == b
  {
    assert [b][..0] == [];
    assert ToBytes(b, 1) == ToBytes(b / 0x100, 0) + [b % 0x100];
  }

  method ComputeChecksum(h: Header) returns (r: Option<Header>)
    ensures r == if h.ver == 4 then Some(h.WithChecksum()) else None
  {
    var zeroed := h.(cksum := 0);
    var s := new Serializer();
    var ok := SerializeHeader(zeroed, s);
    if !ok {
      return None;
    }
    assert [] + zeroed.Bytes() == zeroed.Bytes();
    var chunks := s.Finish();
    var check := new InternetChecksum(0);
    check.AddAll(chunks);
    WordSumBound(false, zeroed.Bytes());
    var c := check.Value();
    r := Some(zeroed.(cksum := c));
  }

  /** What `parse` accepts: version 4, at least five words of header, and the right checksum. */
  predicate Acceptable(h: Header) {
    h.ver == 4 && h.hlen >= 5 && h.cksum == h.WithChecksum().cksum
  }

  predicate StartsWithHeader(b: seq<byte>) {
    |b| >= HEADER_LENGTH && Acceptable(HeaderOf(b))
  }

  method ParseHeader(p: Parser) returns (h: Header)
    requires p.Valid() && !p.error
    modifies p, p.input
    ensures p.Valid()
    ensures p.error <==> !StartsWithHeader(p.bytes[old(p.pos)..])
    ensures !p.error ==> h == HeaderOf(p.bytes[old(p.pos)..])
                         && p.pos == Min(old(p.pos) + h.hlen * 4, |p.bytes|)
  {
    h := ReadFields(p);
    if h.ver != 4 {
      p.SetError();
    }
    if h.hlen < 5 {
      p.SetError();
    }
    if p.error {
      return;
    }
    p.RemovePrefix(h.hlen * 4 - HEADER_LENGTH);
    var given := h.cksum;
    var computed := ComputeChecksum(h);
    h := computed.value;
    if h.cksum != given {
      p.SetError();
    }
  }

  /** The fixed 20 bytes, field by field. */
  method ReadFields(p: Parser) returns (h: Header)
    requires p.Valid() && !p.error
    modifies p, p.input
    ensures p.Valid()
    ensures p.error <==> |p.bytes| - old(p.pos) < HEADER_LENGTH
    ensures !p.error ==> h == HeaderOf(p.bytes[old(p.pos)..]) && p.pos == old(p.pos) + HEADER_LENGTH
  {
    hide BigEndian, Pow256, Parser.Valid, HeaderOf;
    ghost var at := p.pos;
    var firstByte, tos, len, id, fragment := ReadFront(p);
    var ttl, proto, cksum, src, dst := ReadBack(p);
    h := Header(firstByte / 0x10, firstByte % 0x10, tos, len, id, fragment / 0x4000 % 2 == 1,
                fragment / 0x2000 % 2 == 1, fragment % 0x2000, ttl, proto, cksum, src, dst);
    if !p.error {
      FieldsAt(p.bytes, at);
      HeaderFields(p.bytes[at..], firstByte, fragment);
    }
  }

  method ReadFront(p: Parser) returns (firstByte: byte, tos: byte, len: uint16, id: uint16, fragment: uint16)
    requires p.Valid() && !p.error
    modifies p, p.input
    ensures p.Valid()
    ensures p.error <==> |p.bytes| - old(p.pos) < 8
    ensures !p.error ==>
              && p.pos == old(p.pos) + 8
              && firstByte == BigEndian(p.bytes[old(p.pos)..old(p.pos) + 1])
              && tos == BigEndian(p.bytes[old(p.pos) + 1..old(p.pos) + 2])
              && len == BigEndian(p.bytes[old(p.pos) + 2..old(p.pos) + 4])
              && id == BigEndian(p.bytes[old(p.pos) + 4..old(p.pos) + 6])
              && fragment == BigEndian(p.bytes[old(p.pos) + 6..old(p.pos) + 8])
  {
    hide BigEndian, Pow256, Parser.Valid;
    PowersOf256();
    firstByte := p.Integer(1, 0);
    tos := p.Integer(1, 0);
    len := p.Integer(2, 0);
    id := p.Integer(2, 0);
    fragment := p.Integer(2, 0);
  }

  method ReadBack(p: Parser) returns (ttl: byte, proto: byte, cksum: uint16, src: uint32, dst: uint32)
    requires p.Valid()
    modifies p, p.input
    ensures p.Valid()
    ensures old(p.error) ==> p.error
    ensures !old(p.error) ==> (p.error <==> |p.bytes| - old(p.pos) < 12)
    ensures !p.error ==>
              && p.pos == old(p.pos) + 12
              && ttl == BigEndian(p.bytes[old(p.pos)..old(p.pos) + 1])
              && proto == BigEndian(p.bytes[old(p.pos) + 1..old(p.pos) + 2])
              && cksum == BigEndian(p.bytes[old(p.pos) + 2..old(p.pos) + 4])
              && src == BigEndian(p.bytes[old(p.pos) + 4..old(p.pos) + 8])
              && dst == BigEndian(p.bytes[old(p.pos) + 8..old(p.pos) + 12])
  {
    hide BigEndian, Pow256, Parser.Valid;
    PowersOf256();
    ttl := p.Integer(1, DEFAULT_TTL);
    proto := p.Integer(1, PROTO_TCP);
    cksum := p.Integer(2, 0);
    src := p.Integer(4, 0);
    dst := p.Integer(4, 0);
  }

  /** `HeaderOf`, field by field. */
  lemma HeaderFields(b: seq<byte>, firstByte: byte, fragment: uint16)
    requires |b| >= HEADER_LENGTH && firstByte == b[0] && fragment == BigEndian(b[6..8])
    ensures var h := HeaderOf(b);
            && h.ver == firstByte / 0x10 && h.hlen == firstByte % 0x10 && h.tos == b[1]
            && h.len == BigEndian(b[2..4]) && h.id == BigEndian(b[4..6])
            && h.df == (fragment / 0x4000 % 2 == 1) && h.mf == (fragment / 0x2000 % 2 == 1)
            && h.offset == fragment % 0x2000 && h.ttl == b[8] && h.proto == b[9]
            && h.cksum == BigEndian(b[10..12]) && h.src == BigEndian(b[12..16]) && h.dst == BigEndian(b[16..20])
  {}

  /** The fields of a header in the middle of a string, by position in that string. */
  lemma FieldsAt(bytes: seq<byte>, at: nat)
    requires at + HEADER_LENGTH <= |bytes|
    ensures var b := bytes[at..];
            && b[0] == BigEndian(bytes[at..at + 1]) && b[1] == BigEndian(bytes[at + 1..at + 2])
            && b[2..4] == bytes[at + 2..at + 4] && b[4..6] == bytes[at + 4..at + 6] && b[6..8] == bytes[at + 6..at + 8]
            && b[8] == BigEndian(bytes[at + 8..at + 9]) && b[9] == BigEndian(bytes[at + 9..at + 10])
            && b[10..12] == bytes[at + 10..at + 12]
            && b[12..16] == bytes[at + 12..at + 16] && b[16..20] == bytes[at + 16..at + 20]
  {
    hide BigEndian;
    OneByte(bytes[at]);
    OneByte(bytes[at + 1]);
    OneByte(bytes[at + 8]);
    OneByte(bytes[at + 9]);
    assert bytes[at..at + 1] == [bytes[at]] && bytes[at + 1..at + 2] == [bytes[at + 1]];
    assert bytes[at + 8..at + 9] == [bytes[at + 8]] && bytes[at + 9..at + 10] == [bytes[at + 9]];
  }

  method SerializeDatagram(d: Datagram, s: Serializer) returns (ok: bool)
    requires AllSolid(s.output)
    modifies s
    ensures ok == (d.header.ver == 4) && AllSolid(s.output)
    ensures ok ==> s.Content() == old(s.Content()) + d.header.Bytes() + Concat(d.payload)
  {
    ok := SerializeHeader(d.header, s);
    if ok {
      s.BufferAll(d.payload);
    }
  }

  datatype ParseOutcome = Parsed(datagram: Datagram) | Rejected | Thrown

  /** The same header and the same payload bytes, however these are cut into chunks. */
  ghost predicate SameDatagram(a: Datagram, b: Datagram) {
    a.header == b.header && Concat(a.payload) == Concat(b.payload)
  }

  /** Where the payload starts, in bytes. */
  function PayloadStart(bytes: seq<byte>): nat
    requires |bytes| >= HEADER_LENGTH
  {
    Min(HeaderOf(bytes).hlen * 4, |bytes|)
  }

  /** The payload the header announces, cut off at the end of what arrived. */
  function PayloadOf(bytes: seq<byte>): seq<byte>
    requires |bytes| >= HEADER_LENGTH
  {
    var rest := bytes[PayloadStart(bytes)..];
    rest[..Min(HeaderOf(bytes).PayloadLength(), |rest|)]
  }

  /** Something follows the announced payload, such as Ethernet padding. */
  predicate HasTrailer(bytes: seq<byte>)
    requires |bytes| >= HEADER_LENGTH
  {
    0 < HeaderOf(bytes).PayloadLength() < |bytes| - PayloadStart(bytes)
  }

  /** Parsing a datagram from its chunks. A trailer is cut off correctly only when a chunk boundary falls exactly
      between header and payload; otherwise the bytes of the header that share the payload's first chunk are
      counted against the payload, which comes out short by that many, or not at all. */
  method ParseDatagram(chunks: seq<seq<byte>>) returns (outcome: ParseOutcome)
    requires AllSolid(chunks)
    ensures !StartsWithHeader(Concat(chunks)) ==> !outcome.Parsed?
    ensures var bytes := Concat(chunks);
            StartsWithHeader(bytes) ==>
              var h, cut := HeaderOf(bytes), SkipAt(chunks, PayloadStart(bytes));
              if !HasTrailer(bytes) || cut == 0 then
                && outcome.Parsed? && outcome.datagram.header == h
                && Concat(outcome.datagram.payload) == PayloadOf(bytes) && AllSolid(outcome.datagram.payload)
              else if cut > h.PayloadLength() then outcome.Thrown?
              else outcome.Parsed? && outcome.datagram.header == h
                   && Concat(outcome.datagram.payload) == PayloadOf(bytes)[..h.PayloadLength() - cut]
  {
    hide HeaderOf, StartsWithHeader, SkipAt, Header.PayloadLength, Concat, AllSolid, Parser.Valid;
    var p := new Parser(chunks);
    ghost var bytes := p.bytes;
    assert bytes[0..] == bytes;
    var h := ParseHeader(p);
    var payload := TakePayload(p, h.PayloadLength());
    if payload.None? {
      return Thrown;
    }
    if p.error {
      return Rejected;
    }
    outcome := Parsed(Datagram(h, payload.value));
  }

  /** `truncate`, then `all_remaining`; `None` is the exception. */
  method TakePayload(p: Parser, length: nat) returns (payload: Option<seq<seq<byte>>>)
    requires p.Valid()
    modifies p.input
    ensures var rest, cut := p.bytes[p.pos..], SkipAt(p.chunks, p.pos);
            if length == 0 || length >= |rest| || cut == 0 then
              payload.Some? && Concat(payload.value) == rest[..Min(length, |rest|)] && AllSolid(payload.value)
            else if cut > length then payload.None?
            else payload.Some? && Concat(payload.value) == rest[..length - cut]
  {
    hide SkipAt, SameCuts, Concat, AllSolid;
    ViewOfWhole([]);
    p.SkipIsCut();
    assert p.input.Content() == p.bytes[p.pos..];
    assert |p.input.Content()| > 0 ==> p.input.buffer != [];
    p.input.Truncate(length);
    payload := p.input.DumpAll();
  }

  // ---- Damaged headers.

  /** The 20 header bytes as the fields keep them: the top bit of byte 6, which is reserved, is lost. */
  function KeptBytes(b: seq<byte>): (r: seq<byte>)
    requires |b| >= HEADER_LENGTH
    ensures |r| == HEADER_LENGTH
  {
    b[..HEADER_LENGTH][6 := b[6] % 0x80]
  }

  lemma BytesOfHeaderOf(b: seq<byte>)
    requires |b| >= HEADER_LENGTH && HeaderOf(b).ver == 4
    ensures HeaderOf(b).Bytes() == KeptBytes(b)
  {
    hide BigEndian, ToBytes, Pow256, Header.FragmentWord;
    ToBytesOfBigEndian(b[2..4]);
    ToBytesOfBigEndian(b[4..6]);
    ToBytesOfBigEndian(b[10..12]);
    ToBytesOfBigEndian(b[12..16]);
    ToBytesOfBigEndian(b[16..20]);
    KeptFragmentWord(b);
  }

  lemma KeptFragmentWord(b: seq<byte>)
    requires |b| >= HEADER_LENGTH
    ensures ToBytes(HeaderOf(b).FragmentWord(), 2) == [b[6] % 0x80, b[7]]
  {
    hide BigEndian, ToBytes, Pow256;
    var word := BigEndian(b[6..8]);
    BigEndianAppend([b[6]], b[7]);
    OneByte(b[6]);
    assert b[6..8] == [b[6]] + [b[7]];
    FlagsAndOffset(word);
    TwoBytes(HeaderOf(b).FragmentWord());
  }

  lemma FlagsAndOffset(word: nat)
    requires word < U16
    ensures (if word / 0x4000 % 2 == 1 then 0x4000 else 0) + (if word / 0x2000 % 2 == 1 then 0x2000 else 0)
            + word % 0x2000 % 0x2000 == word % 0x8000
    ensures word % 0x8000 / 0x100 == word / 0x100 % 0x80 && word % 0x8000 % 0x100 == word % 0x100
  {
    TopBits(word / 0x2000, word % 0x2000, word);
    HighAndLow(word / 0x8000, word % 0x8000, word);
  }

  lemma TopBits(q: nat, r: nat, word: nat)
    requires q < 8 && r < 0x2000 && word == q * 0x2000 + r
    ensures word / 0x4000 == q / 2 && word / 0x2000 == q && word % 0x2000 == r
    ensures word % 0x8000 == (if q / 2 % 2 == 1 then 0x4000 else 0) + (if q % 2 == 1 then 0x2000 else 0) + r
  {}

  lemma HighAndLow(q: nat, r: nat, word: nat)
    requires r < 0x8000 && word == q * 0x8000 + r
    ensures r / 0x100 == word / 0x100 % 0x80 && r % 0x100 == word % 0x100
  {
    var high, low := r / 0x100, r % 0x100;
    assert r == 0x100 * high + low;
    QuotientIs(word, 0x100, 0x80 * q + high, low);
    QuotientIs(0x80 * q + high, 0x80, q, high);
  }

  /** The checksum of the kept bytes with the checksum field zeroed. */
  lemma ComputedChecksum(b: seq<byte>)
    requires |b| >= HEADER_LENGTH && HeaderOf(b).ver == 4
    ensures HeaderOf(b).WithChecksum().cksum == Complement(WordSum(false, KeptBytes(b)[10 := 0][11 := 0]))
  {
    hide WordSum, Complement, HeaderOf, ToBytes, Header.BeforeChecksum, Header.AfterChecksum;
    var h := HeaderOf(b);
    BytesOfHeaderOf(b);
    TwoBytes(0);
    ChecksumField(h, 0);
    ChecksumField(h, h.cksum);
    assert h.(cksum := 0).Bytes() == h.Bytes()[10 := 0][11 := 0];
  }

  /** A header with one damaged byte is rejected, with one exception: nobody looks at the reserved bit. */
  lemma DamagedHeaderIsRejectedIff(b: seq<byte>, k: nat, v: byte)
    requires StartsWithHeader(b) && k < HEADER_LENGTH && v != b[k]
    ensures StartsWithHeader(b[k := v]) <==> k == 6 && v % 0x80 == b[6] % 0x80
  {
    hide WordSum, Complement, BigEndian, Header.WithChecksum;
    var d := b[k := v];
    ComputedChecksum(b);
    if HeaderOf(d).ver == 4 {
      ComputedChecksum(d);
      var whole, damaged := KeptBytes(b)[10 := 0][11 := 0], KeptBytes(d)[10 := 0][11 := 0];
      if k == 10 || k == 11 {
        assert damaged == whole;
        DifferentWords(b[10..12], d[10..12]);
      } else if k == 6 && v % 0x80 == b[6] % 0x80 {
        assert damaged == whole && d[10..12] == b[10..12];
      } else {
        var w: byte := damaged[k];
        assert damaged == whole[k := w] && d[10..12] == b[10..12];
        DamageIsSeen(0, whole, k, w);
      }
    }
  }

  lemma DifferentWords(a: seq<byte>, b: seq<byte>)
    requires |a| == |b| == 2 && a != b
    ensures BigEndian(a) != BigEndian(b)
  {
    ToBytesOfBigEndian(a);
    ToBytesOfBigEndian(b);
  }

  // ---- Datagrams that survive the wire.

  /** The header is in order, and it announces all of the payload right behind the 20 bytes that are serialised:
      options are skipped when parsing but never written. */
  ghost predicate SurvivesWire(d: Datagram) {
    && d.header.Fits() && Acceptable(d.header)
    && var n := |Concat(d.payload)|;
       n == 0 || (d.header.hlen * 4 == HEADER_LENGTH && d.header.PayloadLength() >= n)
  }

  /** What a parser finds in a serialised datagram. */
  lemma SerializedBytes(d: Datagram, bytes: seq<byte>)
    requires bytes == d.header.Bytes() + Concat(d.payload) && d.header.Fits()
    ensures HeaderOf(bytes) == d.header
    ensures var n := |Concat(d.payload)|;
            if n == 0 || (d.header.hlen * 4 == HEADER_LENGTH && d.header.PayloadLength() >= n)
            then PayloadOf(bytes) == Concat(d.payload) && !HasTrailer(bytes)
            else |PayloadOf(bytes)| < n
  {
    hide Header.Bytes, HeaderOf, Header.PayloadLength, Concat;
    HeaderRoundTrip(d.header, Concat(d.payload));
  }

  lemma HeaderReadFits(b: seq<byte>)
    requires |b| >= HEADER_LENGTH && Acceptable(HeaderOf(b))
    ensures HeaderOf(b).Fits()
  {
    hide BigEndian, Header.WithChecksum, ToBytes;
  }

  /** Serialised, cut into any non-empty chunks and parsed, a datagram comes back if and only if `SurvivesWire`. */
  method ParseSerialized(ghost d: Datagram, chunks: seq<seq<byte>>) returns (outcome: ParseOutcome)
    requires AllSolid(chunks) && Concat(chunks) == d.header.Bytes() + Concat(d.payload)
    ensures outcome.Parsed? && SameDatagram(outcome.datagram, d) <==> SurvivesWire(d)
    ensures outcome.Parsed? && SameDatagram(outcome.datagram, d) ==> AllSolid(outcome.datagram.payload)
  {
    hide Header.Bytes, HeaderOf, Header.PayloadLength, Concat, SkipAt, Header.WithChecksum;
    outcome := ParseDatagram(chunks);
    ghost var bytes := Concat(chunks);
    if StartsWithHeader(bytes) {
      HeaderReadFits(bytes);
    }
    if d.header.Fits() {
      SerializedBytes(d, bytes);
    }
  }
}
