/** One end of a connection: a sender and a receiver side by side (util/tcp_peer.hh). */
module TcpPeers {
  import opened MachineTypes
  import opened WrappingIntegers
  import opened ByteStreams
  import opened Reassemblers
  import opened TcpMessages
  import opened TcpSenders
  import opened TcpReceivers

  datatype Config = Config(rtTimeout: nat, recvCapacity: nat, sendCapacity: nat, isn: uint32)

  datatype Peer = Peer(
    rtTimeout: nat,
    sender: Sender,
    receiver: Receiver,
    needSend: bool,
    linger: bool,
    cumulativeTime: nat,
    lastReceipt: nat)
  {
    ghost predicate Valid() {
      sender.Valid() && receiver.Valid()
    }

    ghost predicate Usable() {
      sender.Usable() && receiver.Valid()
    }

    predicate AnyErrors() {
      receiver.reasm.out.error || sender.input.error
    }

    predicate Active() {
      var senderActive := InFlight(sender.outstanding) != 0 || !sender.input.IsFinished();
      var receiverActive := !receiver.reasm.out.closed;
      var lingering := linger && cumulativeTime < lastReceipt + 10 * rtTimeout;
      !AnyErrors() && (senderActive || receiverActive || lingering)
    }

    /** Every outgoing segment carries the receiver's current acknowledgment and window. */
    function Stamp(segments: seq<SenderMessage>): (r: seq<TcpMessage>)
      requires receiver.reasm.out.Valid()
      ensures |r| == |segments|
      ensures forall i :: 0 <= i < |r| ==> r[i] == TcpMessage(segments[i], receiver.Send())
    {
      seq(|segments|, i requires 0 <= i < |segments| => TcpMessage(segments[i], receiver.Send()))
    }

    function Push(): (Peer, seq<TcpMessage>)
      requires sender.input.Valid() && receiver.reasm.out.Valid()
    {
      var (s, sent) := sender.Push();
      (this.(sender := s, needSend := needSend && sent == []), Stamp(sent))
    }

    function Tick(ms: nat): (Peer, seq<TcpMessage>)
      requires receiver.reasm.out.Valid() && (sender.timerOn ==> sender.outstanding != [])
    {
      var (s, sent) := sender.Tick(ms);
      (this.(sender := s, needSend := needSend && sent == [], cumulativeTime := cumulativeTime + ms), Stamp(sent))
    }

    /** A segment that occupies sequence numbers, or a keep-alive just before our acknowledgment, wants a reply. */
    predicate WantsReply(m: SenderMessage)
      requires receiver.reasm.out.Valid()
    {
      var ours := receiver.Send().ackno;
      m.SequenceLength() > 0 || (ours.Some? && (m.seqno + 1) % U32 == ours.value)
    }

    /** Both halves of an incoming message are absorbed before anything is sent. */
    function Absorb(msg: TcpMessage): Peer
      requires Usable()
    {
      this.(lastReceipt := cumulativeTime,
            needSend := needSend || WantsReply(msg.sender),
            receiver := receiver.Receive(msg.sender),
            sender := sender.Receive(msg.receiver))
    }

    function Reply(): (Peer, seq<TcpMessage>)
      requires sender.input.Valid() && receiver.reasm.out.Valid()
    {
      var (pushed, sent) := Push();
      var empty := if pushed.needSend then Stamp([pushed.sender.EmptyMessage()]) else [];
      var done := receiver.reasm.out.closed && !pushed.sender.input.IsFinished();
      (pushed.(needSend := false, linger := pushed.linger && !done), sent + empty)
    }

    function Receive(msg: TcpMessage): (Peer, seq<TcpMessage>)
      requires Usable()
    {
      AbsorbKeepsStreams(this, msg);
      if !Active() then (this, []) else Absorb(msg).Reply()
    }
  }

  function NewPeer(cfg: Config): Peer {
    Peer(cfg.rtTimeout, NewSender(cfg.sendCapacity, cfg.isn, cfg.rtTimeout), NewReceiver(cfg.recvCapacity),
         false, true, 0, 0)
  }

  lemma ValidIsUsable(p: Peer)
    requires p.Valid()
    ensures p.Usable()
  {}

  lemma AbsorbKeepsStreams(p: Peer, msg: TcpMessage)
    requires p.Usable()
    ensures p.Absorb(msg).sender.input == p.sender.input.(error := p.sender.input.error || msg.receiver.rst)
    ensures p.Absorb(msg).receiver.Valid()
  {
    WindowNeverShrinks(p.receiver, msg.sender, 0);
  }

  // ---- Errors reach the other end.

  /** The reset flag as it travels: a segment has one for both halves. */
  predicate Resets(m: TcpMessage) {
    m.sender.rst || m.receiver.rst
  }

  lemma {:induction false} PushCarriesError(s: Sender)
    requires s.input.Valid()
    ensures s.Push().0.input.error == s.input.error && forall m :: m in s.Push().1 ==> m.rst == s.input.error
    decreases s.input.Buffered()
  {
    hide Wrap, InFlight, Sender.Room;
    match s.NextPush()
    case Stop =>
    case Transmit(segment, next, isLast) =>
      if !isLast {
        PushCarriesError(next);
      }
  }

  /** A peer with an error says so in every segment it cuts and every reply. */
  lemma ErrorIsSent(p: Peer)
    requires p.sender.input.Valid() && p.receiver.reasm.out.Valid() && p.AnyErrors()
    ensures forall m :: m in p.Push().1 + p.Reply().1 ==> Resets(m)
    ensures p.Push().0.AnyErrors() && p.Reply().0.AnyErrors()
  {
    hide Sender.Push;
    PushCarriesError(p.sender);
  }

  /** A retransmission does not: it repeats the outbound stream's flag as it was when the segment was cut, next to
      the inbound stream's flag as it is now. It resets if and only if one of these two does. */
  lemma RetransmissionResetsIff(p: Peer, ms: nat, m: TcpMessage)
    requires p.Usable() && m in p.Tick(ms).1
    ensures Resets(m) <==> p.sender.outstanding[0].rst || p.receiver.reasm.out.error
    ensures p.Tick(ms).0.AnyErrors() == p.AnyErrors()
  {
    assert m in p.Stamp(p.sender.Tick(ms).1);
  }

  /** So an error can stay unsaid: a fresh peer pushes its SYN, its outbound stream fails, its timer runs out. It has
      an error and is inactive, and what it transmits resets nothing. */
  lemma ErrorLeftUnsaid(cfg: Config) returns (m: TcpMessage)
    requires cfg.recvCapacity < U64
    ensures var pushed := NewPeer(cfg).Push().0;
            var failed := pushed.(sender := pushed.sender.Fail());
            && failed.Usable() && failed.AnyErrors() && !failed.Active()
            && failed.Tick(cfg.rtTimeout).1 == [m] && !Resets(m)
  {
    var p := NewPeer(cfg);
    assert p.sender.NextPush().Transmit?;
    PushCarriesError(p.sender);
    var failed := p.Push().0.(sender := p.Push().0.sender.Fail());
    m := failed.Tick(cfg.rtTimeout).1[0];
    RetransmissionResetsIff(failed, cfg.rtTimeout, m);
  }

  /** Absorbing a message leaves an error exactly when there was one or the message resets. */
  lemma ErrorIsAbsorbedIff(p: Peer, m: TcpMessage)
    requires p.Usable()
    ensures p.Absorb(m).AnyErrors() <==> Resets(m) || p.AnyErrors()
    ensures p.Absorb(m).receiver.Valid()
  {
    hide Unwrap, Reasm.Insert, DropAcked;
    AbsorbKeepsStreams(p, m);
    var r := p.receiver;
    var q := if m.sender.rst then r.reasm.(out := r.reasm.out.(error := true)) else r.reasm;
    var isn' := if m.sender.syn then Some(m.sender.seqno) else r.isn;
    if isn'.Some? {
      InsertExtends(q, StreamIndex(m.sender, isn'.value, q.Needed()), m.sender.payload, m.sender.fin);
    }
  }

  /** How errors spread. A peer with an error is inactive, and of all it may still send exactly the retransmissions
      of `RetransmissionResetsIff` lack the reset flag. An active peer that receives a message has an error
      afterwards if and only if the message resets; then it is inactive, and all that it answers resets. */
  lemma ErrorsSpread(x: Peer, y: Peer, ms: nat, m: TcpMessage)
    requires x.Usable() && y.Usable() && x.AnyErrors()
    requires m in x.Push().1 + x.Reply().1 + x.Tick(ms).1
    ensures !x.Active()
    ensures Resets(m) || (m in x.Tick(ms).1 && !x.sender.outstanding[0].rst && !x.receiver.reasm.out.error)
    ensures y.Active() ==> (y.Receive(m).0.AnyErrors() <==> Resets(m))
    ensures Resets(m) ==> !y.Receive(m).0.Active() && forall answer :: answer in y.Receive(m).1 ==> Resets(answer)
  {
    hide Peer.Push, Peer.Reply, Peer.Absorb, Peer.Tick;
    ErrorIsSent(x);
    if m in x.Tick(ms).1 {
      RetransmissionResetsIff(x, ms, m);
    }
    AbsorbKeepsStreams(y, m);
    if y.Active() {
      ErrorIsAbsorbedIff(y, m);
      ReplyKeepsErrors(y.Absorb(m));
      if Resets(m) {
        ErrorIsSent(y.Absorb(m));
      }
    }
  }

  lemma ReplyKeepsErrors(p: Peer)
    requires p.sender.input.Valid() && p.receiver.reasm.out.Valid()
    ensures p.Reply().0.AnyErrors() == p.AnyErrors()
  {
    hide Sender.Push;
    PushCarriesError(p.sender);
  }

  class TCPPeer {
    const rtTimeout: nat
    const sender: TCPSender
    const receiver: TCPReceiver
    var needSend: bool
    var linger: bool
    var cumulativeTime: nat
    var lastReceipt: nat

    ghost const Repr: set<object>

    ghost predicate Separate() {
      && Repr == {this, sender, sender.input, receiver, receiver.reassembler, receiver.reassembler.output}
      && sender.input != receiver.reassembler.output
    }

    ghost predicate Valid()
      reads Repr, this, sender, sender.input, receiver, receiver.reassembler, receiver.reassembler.output
    {
      Separate() && sender.Valid() && receiver.Valid()
    }

    ghost function Model(): Peer
      requires sender.input.Valid() && receiver.reassembler.Valid()
      reads this, sender, sender.input, receiver, receiver.reassembler, receiver.reassembler.output
    {
      Peer(rtTimeout, sender.Model(), receiver.Model(), needSend, linger, cumulativeTime, lastReceipt)
    }

    constructor (cfg: Config)
      requires cfg.recvCapacity < U64
      ensures Valid() && Model() == NewPeer(cfg)
      ensures fresh(Repr)
    {
      rtTimeout := cfg.rtTimeout;
      var s := new TCPSender(cfg.sendCapacity, cfg.isn, cfg.rtTimeout);
      var r := new TCPReceiver(cfg.recvCapacity);
      sender, receiver := s, r;
      needSend, linger := false, true;
      cumulativeTime, lastReceipt := 0, 0;
      Repr := {this, s, s.input, r, r.reassembler, r.reassembler.output};
    }

    method Active() returns (active: bool)
      requires Valid()
      ensures active == Model().Active()
    {
      var inboundError := receiver.reassembler.output.HasError();
      var outboundError := sender.input.HasError();
      var inFlight := sender.SequenceNumbersInFlight();
      var finished := sender.input.IsFinished();
      var closed := receiver.reassembler.output.IsClosed();
      var senderActive := inFlight != 0 || !finished;
      var lingering := linger && cumulativeTime < lastReceipt + 10 * rtTimeout;
      active := !(inboundError || outboundError) && (senderActive || !closed || lingering);
    }

    method Push() returns (transmitted: seq<TcpMessage>)
      requires Valid()
      modifies Repr
      ensures Valid() && (Model(), transmitted) == old(Model()).Push()
    {
      hide Sender.Push, Receiver.Valid;
      var segments := sender.Push();
      transmitted := Send(segments);
    }

    /** The `send` callback, applied to each segment the sender transmits. */
    method Send(segments: seq<SenderMessage>) returns (transmitted: seq<TcpMessage>)
      requires Valid()
      modifies this
      ensures Valid() && transmitted == Model().Stamp(segments)
      ensures Model() == old(Model()).(needSend := old(needSend) && segments == [])
    {
      hide Receiver.Valid, Reasm.Valid, Receiver.Send;
      transmitted := [];
      for i := 0 to |segments|
        invariant Valid() && Model() == old(Model()).(needSend := old(needSend) && i == 0)
        invariant |transmitted| == i
        invariant forall k :: 0 <= k < i ==> transmitted[k] == TcpMessage(segments[k], Model().receiver.Send())
      {
        var reply := receiver.Send();
        transmitted := transmitted + [TcpMessage(segments[i], reply)];
        needSend := false;
      }
    }

    method Tick(t: nat) returns (transmitted: seq<TcpMessage>)
      requires Valid()
      modifies Repr
      ensures Valid() && (Model(), transmitted) == old(Model()).Tick(t)
    {
      hide Sender.Tick, Receiver.Valid;
      cumulativeTime := cumulativeTime + t;
      var segments := sender.Tick(t);
      transmitted := Send(segments);
    }

    method Receive(msg: TcpMessage) returns (transmitted: seq<TcpMessage>)
      requires Valid()
      modifies Repr
      ensures Valid() && (Model(), transmitted) == old(Model()).Receive(msg)
    {
      hide Receiver.Valid, Peer.Absorb, Peer.Reply, Unwrap;
      transmitted := [];
      var active := Active();
      if active {
        AbsorbMessage(msg);
        transmitted := Reply();
      }
    }

    method AbsorbMessage(msg: TcpMessage)
      requires Valid()
      modifies Repr
      ensures Valid() && Model() == old(Model()).Absorb(msg)
    {
      hide Receiver.Valid, Reasm.Valid, Sender.Receive, Receiver.Receive, Receiver.Send, Unwrap;
      lastReceipt := cumulativeTime;
      needSend := needSend || msg.sender.SequenceLength() > 0;
      var ours := receiver.Send();
      needSend := needSend || (ours.ackno.Some? && (msg.sender.seqno + 1) % U32 == ours.ackno.value);
      receiver.Receive(msg.sender);
      sender.Receive(msg.receiver);
    }

    method Reply() returns (transmitted: seq<TcpMessage>)
      requires Valid()
      modifies Repr
      ensures Valid() && (Model(), transmitted) == old(Model()).Reply()
    {
      hide Receiver.Valid, Reasm.Valid, Sender.Push, Receiver.Send;
      ghost var before := Model();
      transmitted := Push();
      ghost var pushed := Model();
      assert (pushed, transmitted) == before.Push();
      if needSend {
        var empty := sender.MakeEmptyMessage();
        var reply := Send([empty]);
        transmitted := transmitted + reply;
      } else {
        assert transmitted + [] == transmitted;
      }
      var closed := receiver.reassembler.output.IsClosed();
      var finished := sender.input.IsFinished();
      if closed && !finished {
        linger := false;
      }
    }
  }
}
