/** The receiving half of TCP: from wrapped sequence numbers to stream indices and back
    (src/tcp_receiver.cc). */
module TcpReceivers {
  import opened MachineTypes
  import opened WrappingIntegers
  import opened ByteStreams
  import opened Reassemblers
  import opened TcpMessages

  datatype Receiver = Receiver(reasm: Reasm, isn: Option<uint32>) {

    /** Window invariant; the byte counters stay within 64 bits. */
    ghost predicate Valid() {
      reasm.Valid() && reasm.Limit() < U64
    }

    /** The absolute sequence number the receiver needs next; 0 until the SYN arrives. */
    function AbsAck(): nat {
      if isn.None? then 0 else reasm.Needed() + (if reasm.out.closed then 2 else 1)
    }

    function Window(): int {
      Min(reasm.out.Available(), U16 - 1)
    }

    function Receive(m: SenderMessage): Receiver
      requires Valid()
    {
      var isn' := if m.syn then Some(m.seqno) else isn;
      var reasm' := if m.rst then reasm.(out := reasm.out.(error := true)) else reasm;
      if isn'.None? then Receiver(reasm', isn')
      else
        var index := StreamIndex(m, isn'.value, reasm'.Needed());
        Receiver(reasm'.Insert(index, m.payload, m.fin), isn')
    }

    function Send(): ReceiverMessage
      requires reasm.out.Valid()
    {
      ReceiverMessage(if isn.None? then None else Some(Wrap(AbsAck(), isn.value)), Window(), reasm.out.error)
    }

    function Read(n: nat): Receiver
      requires reasm.out.Valid()
    {
      this.(reasm := reasm.Read(n))
    }
  }

  /** Where the payload goes: sequence number 0 is the SYN, so data starts at 1. Unsigned: 0 - 1 wraps. */
  function StreamIndex(m: SenderMessage, isn: uint32, checkpoint: uint64): uint64 {
    var absSeqno := Unwrap(m.seqno, isn, checkpoint);
    if m.syn then 0 else if absSeqno == 0 then U64 - 1 else absSeqno - 1
  }

  function NewReceiver(capacity: nat): Receiver {
    Receiver(NewReasm(capacity), None)
  }

  /** Whatever segments arrive and however the reader reads, neither the acknowledgment nor the right edge
      of the advertised window moves left, and the reader is promised no more than the capacity
      (section 3.8.6 of RFC 9293). */
  lemma WindowNeverShrinks(v: Receiver, m: SenderMessage, n: nat)
    requires v.Valid()
    ensures var v' := v.Receive(m);
            && v'.Valid() && v'.AbsAck() >= v.AbsAck() && v'.AbsAck() + v'.Window() >= v.AbsAck() + v.Window()
            && v'.reasm.out.capacity == v.reasm.out.capacity && v'.reasm.out.popped == v.reasm.out.popped
    ensures var v' := v.Read(n);
            v'.reasm.Valid() && v'.AbsAck() == v.AbsAck() && v'.AbsAck() + v'.Window() >= v.AbsAck() + v.Window()
  {
    hide Unwrap, Reasm.Insert;
    var isn' := if m.syn then Some(m.seqno) else v.isn;
    var reasm' := if m.rst then v.reasm.(out := v.reasm.out.(error := true)) else v.reasm;
    if isn'.Some? {
      InsertExtends(reasm', StreamIndex(m, isn'.value, reasm'.Needed()), m.payload, m.fin);
    }
  }

  /** The window is exactly the room there is, as far as 16 bits can say: of the stream indices from the next one needed,
      the advertised ones are those at which a byte not yet known would be kept. */
  lemma WindowIsExact(v: Receiver, j: nat, b: byte)
    requires v.Valid() && j < U16 - 1 && v.reasm.Needed() + j < U64
    requires v.reasm.Known(v.reasm.Needed() + j).None?
    ensures j < v.Send().window <==>
            v.reasm.Insert(v.reasm.Needed() + j, [b], false).Known(v.reasm.Needed() + j) == Some(b)
  {
    hide Reasm.Insert, Wrap;
    InsertKnows(v.reasm, v.reasm.Needed() + j, [b], false);
  }

  /** Why a stream must fit the sequence space: a duplicate of the segment for byte `k`, arriving when the receiver
      needs byte 2^32 + k, is read as that byte, whatever the stream `s` holds there. */
  lemma OldDuplicateIsMisread(v: Receiver, s: seq<byte>, k: uint32)
    requires v.Valid() && v.isn.Some? && v.reasm.out.history <= s
    requires v.reasm.Needed() == U32 + k < |s| && v.reasm.Needed() < v.reasm.Limit()
    ensures var v' := v.Receive(SenderMessage(Wrap(1 + k, v.isn.value), false, [s[k]], false, false));
            && v'.reasm.Needed() > U32 + k && v'.reasm.out.history[U32 + k] == s[k]
            && (v'.reasm.out.history <= s ==> s[k] == s[U32 + k])
  {
    hide Unwrap, Reasm.Insert, Wrap;
    OffsetOfWrap(1 + k, v.isn.value);
    var m := SenderMessage(Wrap(1 + k, v.isn.value), false, [s[k]], false, false);
    UnwrapByBlock(m.seqno, v.isn.value, 1, k);
    assert StreamIndex(m, v.isn.value, U32 + k) == U32 + k;
    NextByteIsWritten(v.reasm, s[k]);
  }

  lemma NextByteIsWritten(q: Reasm, b: byte)
    requires q.Valid() && q.Needed() < q.Limit() && q.Needed() < U64
    ensures var q' := q.Insert(q.Needed(), [b], false);
            q'.Needed() > q.Needed() && q'.out.history[q.Needed()] == b
  {
    hide Reasm.Insert;
    InsertKnows(q, q.Needed(), [b], false);
    InsertExtends(q, q.Needed(), [b], false);
    assert q.Insert(q.Needed(), [b], false).Known(q.Needed()) == Some(b);
  }

  class TCPReceiver {
    const reassembler: Reassembler
    var isn: Option<uint32>

    ghost predicate Valid()
      reads this, reassembler, reassembler.output
    {
      reassembler.Valid() && Model().Valid()
    }

    ghost function Model(): Receiver
      requires reassembler.Valid()
      reads this, reassembler, reassembler.output
    {
      Receiver(reassembler.Model(), isn)
    }

    constructor (capacity: nat)
      requires capacity < U64
      ensures Valid() && Model() == NewReceiver(capacity)
      ensures fresh(reassembler) && fresh(reassembler.output)
    {
      var output := new ByteStream(capacity);
      reassembler := new Reassembler(output);
      isn := None;
    }

    method Receive(message: SenderMessage)
      requires Valid()
      modifies this, reassembler, reassembler.output
      ensures Valid() && Model() == old(Model()).Receive(message)
    {
      hide Unwrap, Reasm.Insert;
      ghost var before := Model();
      WindowNeverShrinks(before, message, 0);
      if message.syn {
        isn := Some(message.seqno);
      }
      if message.rst {
        reassembler.output.SetError();
      }
      if isn.None? {
        return;
      }
      var checkpoint := reassembler.output.BytesPushed();
      var absSeqno := Unwrap(message.seqno, isn.value, checkpoint);
      UnsignedPredecessor(absSeqno);
      var streamIndex: uint64 := if message.syn then 0 else (absSeqno - 1) % U64;
      reassembler.Insert(streamIndex, message.payload, message.fin);
      assert Model() == before.Receive(message);
    }

    static lemma UnsignedPredecessor(n: uint64)
      ensures (n - 1) % U64 == if n == 0 then U64 - 1 else n - 1
    {}

    method Send() returns (message: ReceiverMessage)
      requires Valid()
      ensures message == Model().Send()
    {
      var ackno := None;
      if isn.Some? {
        var pushed := reassembler.output.BytesPushed();
        var absAckno := pushed + 1;
        var closed := reassembler.output.IsClosed();
        if closed {
          absAckno := absAckno + 1;
        }
        ackno := Some(Wrap(absAckno, isn.value));
      }
      var available := reassembler.output.AvailableCapacity();
      var error := reassembler.output.HasError();
      message := ReceiverMessage(ackno, Min(available, 65535), error);
    }
  }
}
