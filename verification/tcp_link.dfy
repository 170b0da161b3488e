/** One direction of a connection: a sender, the receiver at the far end, the segments ever sent to it and the
    acknowledgments ever sent back. The network may lose, repeat and reorder, so everything ever sent may still
    arrive, any number of times. */
module TcpLinks {
  import opened MachineTypes
  import opened WrappingIntegers
  import opened ByteStreams
  import opened Reassemblers
  import opened TcpMessages
  import opened TcpSenders
  import opened TcpReceivers

  /** Room for one full segment with its SYN and FIN, and the two sequence numbers beyond the bytes. */
  const SLACK: nat := MAX_PAYLOAD_SIZE + 4

  /** Old duplicates stay recognisable: the stream, one receive window and one segment fit the sequence space. */
  ghost predicate FitsSequenceSpace(written: int, capacity: int) {
    written + capacity + SLACK <= U32
  }

  /** Where a segment claims to stand, read off its sequence number. */
  function Place(m: SenderMessage, s: Sender): nat {
    Offset(m.seqno, s.isn)
  }

  ghost predicate GenuineSegment(m: SenderMessage, s: Sender) {
    Faithful(m, Place(m, s), s)
  }

  /** An acknowledgment some state of the receiver has really given. */
  ghost predicate GenuineAck(m: ReceiverMessage, s: Sender, r: Receiver) {
    m.ackno.Some? ==> Offset(m.ackno.value, s.isn) <= r.AbsAck()
  }

  /** The reassembler holds only bytes of the sender's stream that have been sent, in their places, and knows
      the end only if the FIN was sent. */
  ghost predicate HoldsBytes(q: Reasm, s: Sender) {
    && q.Valid()
    && Agrees(q, s.input.history)
    && (forall i: nat :: q.Known(i).Some? ==> i < s.input.popped)
    && (q.end != NO_END ==> s.finSent)
  }

  /** Before the SYN the receiver holds nothing; afterwards it counts from the sender's own zero point. */
  ghost predicate Holds(r: Receiver, s: Sender) {
    && HoldsBytes(r.reasm, s)
    && (if r.isn.None? then r.reasm.Needed() == 0 && !r.reasm.out.closed
        else r.isn.value == s.isn && s.absSeqno >= 1)
  }

  ghost predicate LinkInvariant(s: Sender, r: Receiver, segments: seq<TcpMessage>, acks: seq<TcpMessage>) {
    && s.Valid() && FitsSequenceSpace(|s.input.history|, r.reasm.out.capacity)
    && Holds(r, s)
    && s.absAckno <= r.AbsAck()
    && (forall m :: m in segments ==> GenuineSegment(m.sender, s))
    && (forall m :: m in acks ==> GenuineAck(m.receiver, s, r))
  }

  /** The receiver never acknowledges more than was sent; it closes only on the whole stream. */
  lemma AckAtMostSent(s: Sender, r: Receiver)
    requires s.Valid() && Holds(r, s)
    ensures r.AbsAck() <= s.absSeqno && r.reasm.Needed() <= s.input.popped
    ensures r.reasm.out.history <= s.input.history
    ensures r.reasm.out.closed ==> s.finSent && r.reasm.out.history == s.input.history && r.AbsAck() == s.absSeqno
    ensures r.AbsAck() == s.absSeqno && s.finSent ==> r.reasm.out.closed
    ensures r.Valid() || r.reasm.Limit() >= U64
  {
    AgreesIsPrefix(r.reasm, s.input.history);
    var n := r.reasm.Needed();
    assert n > 0 ==> r.reasm.Known(n - 1).Some?;
  }

  lemma InsertGenuine(s: Sender, q: Reasm, index: uint64, m: SenderMessage)
    requires s.Valid() && HoldsBytes(q, s)
    requires Fragment(s.input.history, index, m.payload, m.fin)
    requires forall i: nat :: Spans(index, |m.payload|, i) ==> i < s.input.popped
    requires m.fin ==> s.finSent
    ensures HoldsBytes(q.Insert(index, m.payload, m.fin), s)
  {
    InsertAgrees(q, s.input.history, index, m.payload, m.fin);
    InsertKnows(q, index, m.payload, m.fin);
    InsertExtends(q, index, m.payload, m.fin);
  }

  lemma InsertTooFar(s: Sender, q: Reasm, index: uint64, m: SenderMessage)
    requires s.Valid() && HoldsBytes(q, s) && index >= q.Limit() && !m.fin
    ensures HoldsBytes(q.Insert(index, m.payload, m.fin), s)
  {
    InsertKnows(q, index, m.payload, m.fin);
    InsertExtends(q, index, m.payload, m.fin);
    AgreesIsPrefix(q, s.input.history);
    var q' := q.Insert(index, m.payload, m.fin);
    assert forall i: nat :: q'.Known(i) == q.Known(i);
    assert q'.Known(q.Needed()).None?;
  }

  /** A segment that occupies sequence numbers, read in its own place, is a fragment of the sent stream. */
  lemma SegmentInPlace(m: SenderMessage, s: Sender)
    requires s.Valid() && GenuineSegment(m, s) && m.SequenceLength() > 0
    ensures var first := if m.syn then 0 else Place(m, s) - 1;
            && (m.syn <==> Place(m, s) == 0) && first >= 0
            && Fragment(s.input.history, first, m.payload, m.fin)
            && (forall i: nat :: Spans(first, |m.payload|, i) ==> i < s.input.popped)
            && (m.fin ==> s.finSent && Place(m, s) + MAX_PAYLOAD_SIZE >= |s.input.history|)
  {
  }

  /** Whatever genuine segment arrives, however old, the receiver holds only genuine bytes afterwards. An old
      duplicate may be unwrapped a whole 2^32 too far ahead, but then it lies beyond the window. */
  lemma ReceiveHolds(s: Sender, r: Receiver, m: SenderMessage)
    requires s.Valid() && r.Valid() && Holds(r, s) && GenuineSegment(m, s)
    requires FitsSequenceSpace(|s.input.history|, r.reasm.out.capacity)
    ensures Holds(r.Receive(m), s)
  {
    hide Unwrap, Reasm.Insert, Agrees, Sender.Valid;
    AckAtMostSent(s, r);
    var q := if m.rst then r.reasm.(out := r.reasm.out.(error := true)) else r.reasm;
    ErrorHolds(r.reasm, s);
    if m.SequenceLength() > 0 {
      SegmentInPlace(m, s);
    }
    if m.syn || r.isn.Some? {
      assert Offset(s.isn, s.isn) == 0 && (m.syn ==> m.seqno == s.isn);
      UnwrapInFirstBlock(m.seqno, s.isn, q.Needed());
      var index := StreamIndex(m, s.isn, q.Needed());
      if m.SequenceLength() > 0 && !m.syn && q.Needed() - Place(m, s) > U32 / 2 {
        InsertTooFar(s, q, index, m);
      } else {
        InsertGenuine(s, q, index, m);
      }
      assert r.Receive(m).reasm == q.Insert(index, m.payload, m.fin);
    }
  }

  lemma ErrorHolds(q: Reasm, s: Sender)
    requires HoldsBytes(q, s)
    ensures HoldsBytes(q.(out := q.out.(error := true)), s)
  {
    assert forall i: nat :: q.(out := q.out.(error := true)).Known(i) == q.Known(i);
  }

  // ---- The sender's side.

  lemma PlaceIsStart(m: SenderMessage, start: nat, s: Sender)
    requires s.Valid() && |s.input.history| + 2 < U32 && Faithful(m, start, s)
    ensures GenuineSegment(m, s) && Place(m, s) == start
  {
    OffsetOfWrap(start, s.isn);
  }

  lemma {:induction false} TilesAreGenuine(segments: seq<SenderMessage>, start: nat, s: Sender)
    requires s.Valid() && |s.input.history| + 2 < U32 && Tiles(segments, start, s)
    ensures forall m :: m in segments ==> GenuineSegment(m, s)
  {
    if segments != [] {
      PlaceIsStart(segments[0], start, s);
      TilesAreGenuine(segments[1..], start + segments[0].SequenceLength(), s);
    }
  }

  /** Everything a sender transmits is genuine: new segments, retransmissions and empty messages. */
  lemma TransmissionsAreGenuine(s: Sender, ms: nat)
    requires s.Valid() && |s.input.history| + 2 < U32
    ensures forall m :: m in s.Push().1 ==> GenuineSegment(m, s.Push().0)
    ensures forall m :: m in s.Tick(ms).1 ==> GenuineSegment(m, s.Tick(ms).0) && m == s.outstanding[0]
    ensures GenuineSegment(s.EmptyMessage(), s)
  {
    PushKeeps(s);
    TilesAreGenuine(s.Push().1, s.absSeqno, s.Push().0);
    TickKeeps(s, ms);
    TilesStay(s.outstanding, s.Base(), s, s.Tick(ms).0);
    TilesAreGenuine(s.outstanding, s.Base(), s.Tick(ms).0);
    PlaceIsStart(s.EmptyMessage(), s.absSeqno, s);
  }

  /** A step of the sender after which the written stream is the same, or the FIN was not yet sent. */
  ghost predicate SenderStep(s: Sender, t: Sender) {
    Extends(s, t) && t.Valid() && (s.finSent ==> t.input.history == s.input.history)
  }

  lemma SenderStepKeepsLink(s: Sender, t: Sender, r: Receiver)
    requires s.Valid() && Holds(r, s) && SenderStep(s, t)
    ensures Holds(r, t)
    ensures forall m: SenderMessage :: GenuineSegment(m, s) ==> GenuineSegment(m, t)
    ensures forall m: ReceiverMessage :: GenuineAck(m, s, r) ==> GenuineAck(m, t, r)
  {
    forall m: SenderMessage | GenuineSegment(m, s) ensures GenuineSegment(m, t) {
      FaithfulStays(m, Place(m, s), s, t);
    }
  }

  /** A genuine acknowledgment, however old, is never past what was sent, even when it is unwrapped a whole
      2^32 too far; so it keeps the sender's invariant and never takes `abs_ackno_` past the receiver. */
  lemma AckIsSafe(s: Sender, r: Receiver, m: ReceiverMessage)
    requires s.Valid() && Holds(r, s) && FitsSequenceSpace(|s.input.history|, r.reasm.out.capacity)
    requires s.absAckno <= r.AbsAck() && GenuineAck(m, s, r)
    ensures m.ackno.Some? ==> !OverAck(s, Unwrap(m.ackno.value, s.isn, s.input.popped))
    ensures SenderStep(s, s.Receive(m))
    ensures s.absAckno <= s.Receive(m).absAckno <= r.AbsAck()
    ensures m.ackno.Some? && s.input.popped - Offset(m.ackno.value, s.isn) <= U32 / 2 ==>
              s.Receive(m).absAckno == Max(s.absAckno, Offset(m.ackno.value, s.isn))
  {
    AckAtMostSent(s, r);
    if m.ackno.Some? {
      UnwrapInFirstBlock(m.ackno.value, s.isn, s.input.popped);
      assert s.outstanding != [] ==> Faithful(s.outstanding[0], s.Base(), s);
    }
    ReceiveKeeps(s, m);
  }

  // ---- The receiver's side.

  lemma ReceiverStepKeepsLink(s: Sender, r: Receiver, r': Receiver)
    requires r'.AbsAck() >= r.AbsAck()
    ensures forall m: ReceiverMessage :: GenuineAck(m, s, r) ==> GenuineAck(m, s, r')
  {}

  /** What the receiver says about itself is genuine, and exact. */
  lemma SendIsGenuine(s: Sender, r: Receiver)
    requires s.Valid() && Holds(r, s) && |s.input.history| + 2 < U32
    ensures GenuineAck(r.Send(), s, r)
    ensures r.isn.Some? ==> r.Send().ackno.Some? && Offset(r.Send().ackno.value, s.isn) == r.AbsAck()
  {
    AckAtMostSent(s, r);
    OffsetOfWrap(r.AbsAck(), s.isn);
  }

  lemma ReadHolds(s: Sender, r: Receiver, n: nat)
    requires Holds(r, s)
    ensures Holds(r.Read(n), s) && r.Read(n).AbsAck() == r.AbsAck()
  {
    assert forall i: nat :: r.Read(n).reasm.Known(i) == r.reasm.Known(i);
  }
}
