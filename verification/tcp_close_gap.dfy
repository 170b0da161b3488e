/** A run in which closing goes wrong: the last close is not followed by a push, so the peer counts as finished
    although its FIN was never sent (`active` in util/tcp_peer.hh looks only at what is in flight and at whether
    the stream has been read to its end). */
module TcpCloseGap {
  import opened MachineTypes
  import opened WrappingIntegers
  import opened ByteStreams
  import opened Reassemblers
  import opened TcpMessages
  import opened TcpSenders
  import opened TcpReceivers
  import opened TcpPeers
  import opened TcpLinks
  import opened TcpConnections

  const CONFIG := Config(1000, 10, 10, 0)
  const SYN := SenderMessage(0, true, [], false, false)
  const FIN := SenderMessage(1, false, [], true, false)
  const EMPTY := SenderMessage(1, false, [], false, false)
  const OPEN := Stream(10, [], 0, false, false)
  const SHUT := Stream(10, [], 0, true, false)
  const UNACKED := ReceiverMessage(None, 10, false)
  const ACKED := ReceiverMessage(Some(1), 10, false)
  const ALL_ACKED := ReceiverMessage(Some(2), 10, false)

  /** A sender that has sent `segments`, up to `absSeqno`, and is acknowledged up to `absAckno`. */
  function SenderAt(input: Stream, segments: seq<SenderMessage>, absSeqno: nat, absAckno: nat, window: nat,
                    finSent: bool): Sender {
    Sender(input, 0, 1000, segments, 1000, 0, segments != [], absSeqno, absAckno, 0, window, finSent)
  }

  function PeerAt(s: Sender, r: Receiver, linger: bool): Peer {
    Peer(1000, s, r, false, linger, 0, 0)
  }

  const FRESH := Receiver(Reasm(OPEN, map[], NO_END), None)
  const SYNCED := Receiver(Reasm(OPEN, map[], NO_END), Some(0))
  const ENDED := Receiver(Reasm(SHUT, map[], 0), Some(0))

  const right1 := PeerAt(SenderAt(SHUT, [], 0, 0, 1, false), FRESH, true)
  const right2 := PeerAt(SenderAt(SHUT, [SYN], 1, 0, 1, false), FRESH, true)
  const right4 := PeerAt(SenderAt(SHUT, [FIN], 2, 1, 10, true), SYNCED, true)
  const left3 := PeerAt(SenderAt(OPEN, [SYN], 1, 0, 10, false), SYNCED, true)
  const left5 := PeerAt(SenderAt(OPEN, [], 1, 1, 10, false), ENDED, false)

  // ---- The functions on these states.

  lemma InFlightOfOne(m: SenderMessage)
    ensures InFlight([m]) == m.SequenceLength() && InFlight([]) == 0
  {
    assert [m][1..] == [];
  }

  lemma StampOne(p: Peer, m: SenderMessage)
    requires p.receiver.reasm.out.Valid()
    ensures p.Stamp([m]) == [TcpMessage(m, p.receiver.Send())] && p.Stamp([]) == []
  {}

  lemma InsertEmpty(q: Reasm, index: uint64, last: bool)
    requires q.out.Valid() && q.pending == map[]
    ensures var end := if last then index else q.end;
            q.Insert(index, [], last) == Reasm(if q.Needed() == end then q.out.(closed := true) else q.out, map[], end)
  {
    assert q.Store(index, []) == map[];
  }

  lemma PushOneSegment(s: Sender, m: SenderMessage, t: Sender)
    requires s.input.Valid() && s.NextPush() == Transmit(m, t, true)
    ensures s.Push() == (t, [m])
  {}

  lemma ReplyWith(p: Peer, t: Sender, m: SenderMessage)
    requires p.sender.input.Valid() && p.receiver.reasm.out.Valid() && !p.receiver.reasm.out.closed
    requires p.sender.NextPush() == Transmit(m, t, true)
    ensures p.Reply() == (p.(sender := t, needSend := false), [TcpMessage(m, p.receiver.Send())])
  {
    hide Sender.NextPush, Receiver.Send;
    PushOneSegment(p.sender, m, t);
    StampOne(p, m);
    var out := [TcpMessage(m, p.receiver.Send())];
    assert out + [] == out;
  }

  // ---- The parts of each step.

  lemma SendersPush(unsent: Sender, open: Sender, acked: Sender, idle: Sender)
    requires unsent == SenderAt(SHUT, [], 0, 0, 1, false) && open == SenderAt(OPEN, [], 0, 0, 10, false)
    requires acked == SenderAt(SHUT, [], 1, 1, 10, false) && idle == SenderAt(OPEN, [], 1, 1, 10, false)
    ensures unsent.NextPush() == Transmit(SYN, SenderAt(SHUT, [SYN], 1, 0, 1, false), true)
    ensures open.NextPush() == Transmit(SYN, SenderAt(OPEN, [SYN], 1, 0, 10, false), true)
    ensures acked.NextPush() == Transmit(FIN, SenderAt(SHUT, [FIN], 2, 1, 10, true), true)
    ensures idle.NextPush() == Stop
  {
    assert [] + [SYN] == [SYN] && [] + [FIN] == [FIN];
    assert OPEN.Peek()[..0] == [] && SHUT.Peek()[..0] == [];
  }

  lemma SynIsAcked(s: Sender, input: Stream, window: nat)
    requires input.popped == 0 && s == SenderAt(input.(error := false), [SYN], 1, 0, window, false)
    ensures s.Receive(ACKED) == SenderAt(input.(error := false), [], 1, 1, 10, false)
  {
    UnwrapInFirstBlock(1, 0, 0);
    UnwrapInFirstBlock(0, 0, 0);
    hide Unwrap;
    InFlightOfOne(SYN);
    assert [SYN][1..] == [];
    assert DropAcked([SYN], 1, 0, 0) == [];
  }

  lemma ReceiversReceive()
    ensures FRESH.Receive(SYN) == SYNCED && SYNCED.Receive(FIN) == ENDED
    ensures FRESH.Send() == UNACKED && SYNCED.Send() == ACKED && ENDED.Send() == ALL_ACKED
  {
    hide Unwrap, Reasm.Insert;
    UnwrapInFirstBlock(1, 0, 0);
    InsertEmpty(FRESH.reasm, 0, false);
    InsertEmpty(SYNCED.reasm, 0, true);
    assert ENDED.AbsAck() == 2 && Wrap(2, 0) == 2;
  }

  // ---- The run: the right end closes and completes its half; then the left end closes and is done.

  lemma RightPushesSyn()
    ensures right1.Push() == (right2, [TcpMessage(SYN, UNACKED)])
  {
    hide Sender.NextPush, Receiver.Send;
    SendersPush(right1.sender, SenderAt(OPEN, [], 0, 0, 10, false), SenderAt(SHUT, [], 1, 1, 10, false),
                SenderAt(OPEN, [], 1, 1, 10, false));
    ReceiversReceive();
    PushOneSegment(right1.sender, SYN, right2.sender);
    StampOne(right1, SYN);
  }

  lemma LeftAnswersSyn(p: Peer)
    requires p == NewPeer(CONFIG) && p.Valid()
    ensures p.Receive(TcpMessage(SYN, UNACKED)) == (left3, [TcpMessage(SYN, ACKED)])
  {
    hide Sender.NextPush, Sender.Valid, Receiver.Receive, Receiver.Send, Peer.Reply, InFlight;
    var a := p.Absorb(TcpMessage(SYN, UNACKED));
    ReceiversReceive();
    assert SYN.SequenceLength() == 1;
    assert a == Peer(1000, SenderAt(OPEN, [], 0, 0, 10, false), SYNCED, true, true, 0, 0);
    SendersPush(SenderAt(SHUT, [], 0, 0, 1, false), a.sender, SenderAt(SHUT, [], 1, 1, 10, false),
                SenderAt(OPEN, [], 1, 1, 10, false));
    ReplyWith(a, left3.sender, SYN);
  }

  lemma RightSendsFin()
    requires right2.Valid()
    ensures right2.Receive(TcpMessage(SYN, ACKED)) == (right4, [TcpMessage(FIN, ACKED)])
  {
    hide Sender.NextPush, Sender.Receive, Receiver.Receive, Receiver.Send, Peer.Reply;
    var a := right2.Absorb(TcpMessage(SYN, ACKED));
    ReceiversReceive();
    SynIsAcked(right2.sender, SHUT, 1);
    SendersPush(SenderAt(SHUT, [], 0, 0, 1, false), SenderAt(OPEN, [], 0, 0, 10, false), a.sender,
                SenderAt(OPEN, [], 1, 1, 10, false));
    ReplyWith(a, right4.sender, FIN);
  }

  lemma LeftAcksFin()
    requires left3.Valid()
    ensures left3.Receive(TcpMessage(FIN, ACKED)) == (left5, [TcpMessage(EMPTY, ALL_ACKED)])
  {
    hide Sender.NextPush, Sender.Receive, Receiver.Receive, Receiver.Send;
    var a := left3.Absorb(TcpMessage(FIN, ACKED));
    ReceiversReceive();
    SynIsAcked(left3.sender, OPEN, 10);
    SendersPush(SenderAt(SHUT, [], 0, 0, 1, false), SenderAt(OPEN, [], 0, 0, 10, false),
                SenderAt(SHUT, [], 1, 1, 10, false), a.sender);
    assert a.sender.Push() == (left5.sender, []);
    StampOne(a, EMPTY);
    assert [] + [TcpMessage(EMPTY, ALL_ACKED)] == [TcpMessage(EMPTY, ALL_ACKED)];
  }

  const left0 := NewPeer(CONFIG)
  const left6 := PeerAt(SenderAt(SHUT, [], 1, 1, 10, false), ENDED, false)
  const toLeft: seq<TcpMessage> := [TcpMessage(SYN, UNACKED), TcpMessage(FIN, ACKED)]
  const toRight: seq<TcpMessage> := [TcpMessage(SYN, ACKED), TcpMessage(EMPTY, ALL_ACKED)]

  /** The connection after each of the six steps. */
  function At(i: nat): Connection
    requires i <= 6
  {
    if i == 0 then Connection(left0, left0, [], [])
    else if i == 1 then Connection(left0, right1, [], [])
    else if i == 2 then Connection(left0, right2, toLeft[..1], [])
    else if i == 3 then Connection(left3, right2, toLeft[..1], toRight[..1])
    else if i == 4 then Connection(left3, right4, toLeft, toRight[..1])
    else if i == 5 then Connection(left5, right4, toLeft, toRight)
    else Connection(left6, right4, toLeft, toRight)
  }

  function StepAt(i: nat): Step
    requires i < 6
  {
    if i == 0 then Step(Right, Close)
    else if i == 1 then Step(Right, Push)
    else if i == 2 then Step(Left, Deliver(0))
    else if i == 3 then Step(Right, Deliver(0))
    else if i == 4 then Step(Left, Deliver(1))
    else Step(Left, Close)
  }

  /** What the acting peer becomes in each step, and what it transmits. */
  function MovedAt(i: nat): Peer
    requires i < 6
  {
    if i == 0 then right1 else if i == 1 then right2 else if i == 2 then left3
    else if i == 3 then right4 else if i == 4 then left5 else left6
  }

  function OutAt(i: nat): seq<TcpMessage>
    requires i < 6
  {
    if i == 1 then [TcpMessage(SYN, UNACKED)]
    else if i == 2 then [TcpMessage(SYN, ACKED)]
    else if i == 3 then [TcpMessage(FIN, ACKED)]
    else if i == 4 then [TcpMessage(EMPTY, ALL_ACKED)]
    else []
  }

  lemma PeerMoves(i: nat, x: Peer, toX: seq<TcpMessage>)
    requires i < 6 && x.Valid()
    requires x == At(i).From(StepAt(i).side).left && toX == At(i).From(StepAt(i).side).toLeft
    ensures CanHappen(At(i), StepAt(i)) && (StepAt(i).action.Deliver? ==> StepAt(i).action.k < |toX|)
    ensures PeerNext(x, toX, StepAt(i).action) == (MovedAt(i), OutAt(i))
  {
    hide Peer.Push, Peer.Receive, Peer.Valid;
    if i == 1 {
      RightPushesSyn();
    } else if i == 2 {
      LeftAnswersSyn(left0);
    } else if i == 3 {
      RightSendsFin();
    } else if i == 4 {
      LeftAcksFin();
    }
  }

  lemma StepLeadsOn(i: nat)
    requires i < 6 && At(i).Invariant()
    ensures CanHappen(At(i), StepAt(i)) && Next(At(i), StepAt(i)) == At(i + 1)
  {
    hide PeerNext, PairInvariant, Peer.Valid, CanHappen, NewPeer, PeerAt, SenderAt;
    var v := At(i).From(StepAt(i).side);
    PeerMoves(i, v.left, v.toLeft);
    assert [] + [toLeft[0]] == toLeft[..1] && [] + [toRight[0]] == toRight[..1];
    assert toLeft[..1] + [toLeft[1]] == toLeft && toRight[..1] + [toRight[1]] == toRight;
    assert forall m: seq<TcpMessage> :: m + [] == m;
  }

  function StepsFrom(i: nat): seq<Step>
    requires i <= 6
    decreases 6 - i
  {
    if i == 6 then [] else [StepAt(i)] + StepsFrom(i + 1)
  }

  lemma {:induction false} RunFrom(i: nat)
    requires i <= 6 && At(i).Invariant()
    ensures Possible(At(i), StepsFrom(i)) && Run(At(i), StepsFrom(i)) == At(6)
    decreases 6 - i
  {
    hide Next, CanHappen, At, Connection.Invariant, StepAt;
    if i < 6 {
      StepLeadsOn(i);
      NextKeepsInvariant(At(i), StepAt(i));
      RunFrom(i + 1);
      assert StepsFrom(i)[1..] == StepsFrom(i + 1);
    }
  }

  /** The left end is inactive, without error and without lingering, its FIN never sent, while the right end, with
      everything acknowledged to it, still waits for the end of the stream. */
  predicate LeftGoneRightWaiting(c: Connection) {
    && !c.left.linger && !c.left.Active() && !c.left.AnyErrors() && !c.left.sender.finSent
    && c.right.Active() && !c.right.receiver.reasm.out.closed
  }

  /** A close without a push ends like this. */
  lemma ClosedWithoutFin() returns (steps: seq<Step>)
    ensures FitsSequenceSpace(0, CONFIG.recvCapacity) && Possible(NewConnection(CONFIG, CONFIG), steps)
    ensures LeftGoneRightWaiting(Run(NewConnection(CONFIG, CONFIG), steps))
  {
    hide Run, Possible, LeftGoneRightWaiting, Peer.Active, Connection.Invariant;
    assert At(0) == NewConnection(CONFIG, CONFIG);
    steps := StepsFrom(0);
    RunFrom(0);
    LastState();
  }

  lemma LastState()
    ensures LeftGoneRightWaiting(At(6))
  {
    InFlightOfOne(FIN);
  }
}
