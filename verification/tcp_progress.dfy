/** Progress: one round of timer expiry, delivery of the retransmission and delivery of its answer always moves
    the connection forward (src/tcp_sender.cc, src/tcp_receiver.cc, util/tcp_peer.hh). */
module TcpProgress {
  import opened MachineTypes
  import opened WrappingIntegers
  import opened ByteStreams
  import opened Reassemblers
  import opened TcpMessages
  import opened TcpSenders
  import opened TcpReceivers
  import opened TcpPeers
  import opened TcpLinks
  import opened TcpConnections

  /** If the receiver is waiting for a byte that has been sent, it has room for it. */
  ghost predicate RoomForNext(s: Sender, r: Receiver) {
    r.isn.Some? && r.reasm.Needed() < s.input.popped ==> r.reasm.out.Available() > 0
  }

  /** The first outstanding segment reaches the receiver while it needs something from that segment. */
  lemma FrontAdvances(s: Sender, r: Receiver)
    requires s.Valid() && r.Valid() && Holds(r, s) && FitsSequenceSpace(|s.input.history|, r.reasm.out.capacity)
    requires s.outstanding != [] && r.AbsAck() == s.absAckno && RoomForNext(s, r)
    ensures r.Receive(s.outstanding[0]).AbsAck() > r.AbsAck()
  {
    hide Unwrap, Reasm.Insert, Agrees, Tiles, InFlight, Sender.TimerConsistent;
    var m := s.outstanding[0];
    FrontIsFaithful(s);
    PlaceIsStart(m, s.Base(), s);
    SegmentInPlace(m, s);
    AckAtMostSent(s, r);
    if r.isn.Some? {
      var q := if m.rst then r.reasm.(out := r.reasm.out.(error := true)) else r.reasm;
      ErrorHolds(r.reasm, s);
      UnwrapInFirstBlock(m.seqno, s.isn, q.Needed());
      var first: uint64 := if m.syn then 0 else s.Base() - 1;
      assert StreamIndex(m, s.isn, q.Needed()) == first;
      InsertAdvances(s, q, first, m);
      assert r.Receive(m).reasm == q.Insert(first, m.payload, m.fin);
    }
  }

  lemma InsertAdvances(s: Sender, q: Reasm, first: uint64, m: SenderMessage)
    requires s.Valid() && HoldsBytes(q, s) && !q.out.closed && |s.input.history| + 2 < U32
    requires Fragment(s.input.history, first, m.payload, m.fin)
    requires first <= q.Needed() < first + |m.payload| + (if m.fin then 1 else 0)
    requires q.Needed() < s.input.popped ==> q.out.Available() > 0
    requires forall i: nat :: Spans(first, |m.payload|, i) ==> i < s.input.popped
    requires m.fin ==> s.finSent
    ensures var q' := q.Insert(first, m.payload, m.fin);
            q'.Needed() >= q.Needed() && (q'.Needed() > q.Needed() || q'.out.closed)
  {
    var q' := q.Insert(first, m.payload, m.fin);
    InsertExtends(q, first, m.payload, m.fin);
    InsertKnows(q, first, m.payload, m.fin);
    InsertGenuine(s, q, first, m);
    AgreesIsPrefix(q', s.input.history);
    if q.Needed() < first + |m.payload| {
      assert Spans(first, |m.payload|, q.Needed());
      assert q'.Known(q.Needed()).Some?;
    }
  }

  /** An incoming segment that occupies sequence numbers is answered, with the receiver's new state. */
  lemma Answered(y: Peer, x: Peer, toY: seq<TcpMessage>, toX: seq<TcpMessage>, k: nat)
    requires PairInvariant(y, x, toY, toX) && y.Valid() && k < |toY| && y.Active()
    requires toY[k].sender.SequenceLength() > 0
    ensures var (y', out) := PeerNext(y, toY, Deliver(k));
            && out != [] && y'.receiver == y.receiver.Receive(toY[k].sender)
            && forall m :: m in out ==> m.receiver == y'.receiver.Send()
  {
    StepIsGood(y, x, toY, toX, Deliver(k));
    AbsorbKeepsStreams(y, toY[k]);
  }

  /** Progress: from any state the connection can reach with something outstanding at `x`, if the timer runs out,
      the retransmission arrives and its answer arrives, then the receiver's acknowledgment and `abs_ackno_`
      together have grown, provided both ends are still up and the receiver has room when it is waiting for a
      byte. */
  lemma RoundMakesProgress(x: Peer, y: Peer, toX: seq<TcpMessage>, toY: seq<TcpMessage>, ms: nat)
    requires PairInvariant(x, y, toX, toY) && x.Valid() && y.Valid()
    requires x.sender.outstanding != [] && !x.AnyErrors() && y.Active()
    requires x.sender.timerTime + ms >= x.sender.rto && RoomForNext(x.sender, y.receiver)
    ensures var (x1, out1) := PeerNext(x, toX, Tick(ms));
            && out1 == [TcpMessage(x.sender.outstanding[0], x.receiver.Send())]
            && x1.Valid()
            && var (y1, out2) := PeerNext(y, toY + out1, Deliver(|toY|));
            && out2 != []
            && var (x2, out3) := PeerNext(x1, toX + out2, Deliver(|toX| + |out2| - 1));
            && x2.sender.absAckno >= x.sender.absAckno && y1.receiver.AbsAck() >= y.receiver.AbsAck()
            && x2.sender.absAckno + y1.receiver.AbsAck() > x.sender.absAckno + y.receiver.AbsAck()
  {
    var (x1, out1) := PeerNext(x, toX, Tick(ms));
    TickKeeps(x.sender, ms);
    StepIsGood(x, y, toX, toY, Tick(ms));
    GoodStepKeepsPair(x, x1, out1, y, toX, toY);
    assert out1 == [TcpMessage(x.sender.outstanding[0], x.receiver.Send())];
    var toY1 := toY + out1;
    PairIsValid(x1, y, toX, toY1);

    var (y1, out2) := PeerNext(y, toY1, Deliver(|toY|));
    Answered(y, x1, toY1, toX, |toY|);
    StepIsGood(y, x1, toY1, toX, Deliver(|toY|));
    GoodStepKeepsPair(y, y1, out2, x1, toY1, toX);
    AnswerAcks(x1, y1, toX + out2, toY1, |toX| + |out2| - 1);
    if y.receiver.AbsAck() == x.sender.absAckno {
      FrontAdvances(x.sender, y.receiver);
    }
  }

  /** The receiver's current acknowledgment, taken by the sender. */
  lemma CurrentAckIsTaken(s: Sender, r: Receiver)
    requires s.Valid() && Holds(r, s) && FitsSequenceSpace(|s.input.history|, r.reasm.out.capacity)
    requires s.absAckno <= r.AbsAck() && s.outstanding != []
    ensures s.Receive(r.Send()).absAckno >= r.AbsAck()
  {
    hide Unwrap, Sender.Receive, Receiver.Send, Tiles, Faithful;
    SendIsGenuine(s, r);
    AckIsSafe(s, r, r.Send());
    FrontIsFaithful(s);
  }

  /** The answer carries the receiver's acknowledgment to the sender. */
  lemma AnswerAcks(x: Peer, y: Peer, toX: seq<TcpMessage>, toY: seq<TcpMessage>, k: nat)
    requires PairInvariant(x, y, toX, toY) && x.Valid() && k < |toX| && toX[k].receiver == y.receiver.Send()
    requires x.sender.outstanding != [] && !x.AnyErrors()
    ensures var x' := PeerNext(x, toX, Deliver(k)).0;
            x'.sender.absAckno >= y.receiver.AbsAck()
  {
    hide Sender.Receive, Receiver.Receive, Sender.Push, Receiver.Send, Sender.Valid, Holds, Tiles;
    ValidIsUsable(x);
    CurrentAckIsTaken(x.sender, y.receiver);
    AbsorbIsGood(x, y, toX, toY, toX[k]);
    TimerCoversInFlight(x.sender);
    FrontIsInFlight(x.sender);
    PushKeeps(x.Absorb(toX[k]).sender);
  }

  // ---- Rounds come to an end.

  /** The far end reads `read` bytes; then `ms` pass here, the retransmission arrives, and its answer arrives. */
  datatype Round = Round(read: nat, ms: nat)

  /** Both ends are up, the timer runs out, and the reader has made room if a byte is awaited. */
  ghost predicate Ready(c: Connection, r: Round)
    requires c.Invariant()
  {
    && !c.left.AnyErrors() && c.right.Active()
    && c.left.sender.timerTime + r.ms >= c.left.sender.rto
    && RoomForNext(c.left.sender, c.right.receiver.Read(r.read))
  }

  lemma ReadFirst(c: Connection, r: Round)
    requires c.Invariant() && Ready(c, r)
    ensures var d := Next(c, Step(Right, Read(r.read)));
            && d.Invariant() && Ready(d, Round(0, r.ms)) && d.left == c.left && d.toRight == c.toRight
            && d.toLeft == c.toLeft && RoomForNext(d.left.sender, d.right.receiver)
            && d.right.receiver.AbsAck() == c.right.receiver.AbsAck()
  {
    NextKeepsInvariant(c, Step(Right, Read(r.read)));
  }

  ghost function Outcome(c: Connection, ms: nat): (d: Connection)
    requires c.Invariant() && Ready(c, Round(0, ms)) && RoomForNext(c.left.sender, c.right.receiver)
    requires c.left.sender.outstanding != []
  {
    RoundMakesProgress(c.left, c.right, c.toLeft, c.toRight, ms);
    var (x1, out1) := PeerNext(c.left, c.toLeft, Tick(ms));
    NextKeepsInvariant(c, Step(Left, Tick(ms)));
    var c1 := Next(c, Step(Left, Tick(ms)));
    NextKeepsInvariant(c1, Step(Right, Deliver(|c.toRight|)));
    var c2 := Next(c1, Step(Right, Deliver(|c.toRight|)));
    Next(c2, Step(Left, Deliver(|c2.toLeft| - 1)))
  }

  /** The connection after a whole round. */
  ghost function AfterRound(c: Connection, r: Round): Connection
    requires c.Invariant() && Ready(c, r) && c.left.sender.outstanding != []
  {
    ReadFirst(c, r);
    Outcome(Next(c, Step(Right, Read(r.read))), r.ms)
  }

  function Acked(c: Connection): nat {
    c.left.sender.absAckno + c.right.receiver.AbsAck()
  }

  /** Neither time nor messages change what was written. */
  lemma HistoryStays(x: Peer, toX: seq<TcpMessage>, a: Action)
    requires x.Valid() && (a.Tick? || (a.Deliver? && a.k < |toX|))
    requires a.Deliver? && toX[a.k].receiver.ackno.Some? ==>
               !OverAck(x.sender, Unwrap(toX[a.k].receiver.ackno.value, x.sender.isn, x.sender.input.popped))
    ensures PeerNext(x, toX, a).0.sender.input.history == x.sender.input.history
  {
    match a
    case Tick(ms) => TickKeeps(x.sender, ms);
    case Deliver(k) =>
      AbsorbKeepsStreams(x, toX[k]);
      ReceiveKeeps(x.sender, toX[k].receiver);
      PushKeeps(x.Absorb(toX[k]).sender);
  }

  lemma OutcomeAdvances(c: Connection, ms: nat)
    requires c.Invariant() && Ready(c, Round(0, ms)) && RoomForNext(c.left.sender, c.right.receiver)
    requires c.left.sender.outstanding != []
    ensures var d := Outcome(c, ms);
            d.Invariant() && Acked(d) > Acked(c) && d.left.sender.input.history == c.left.sender.input.history
  {
    hide PeerNext, LinkInvariant, Peer.Valid;
    RoundMakesProgress(c.left, c.right, c.toLeft, c.toRight, ms);
    NextKeepsInvariant(c, Step(Left, Tick(ms)));
    var c1 := Next(c, Step(Left, Tick(ms)));
    NextKeepsInvariant(c1, Step(Right, Deliver(|c.toRight|)));
    var c2 := Next(c1, Step(Right, Deliver(|c.toRight|)));
    NextKeepsInvariant(c2, Step(Left, Deliver(|c2.toLeft| - 1)));
    HistoryStays(c.left, c.toLeft, Tick(ms));
    DeliveredAckIsSafe(c2, |c2.toLeft| - 1);
    HistoryStays(c2.left, c2.toLeft, Deliver(|c2.toLeft| - 1));
  }

  lemma DeliveredAckIsSafe(c: Connection, k: nat)
    requires c.Invariant() && k < |c.toLeft|
    ensures c.toLeft[k].receiver.ackno.Some? ==>
              !OverAck(c.left.sender,
                       Unwrap(c.toLeft[k].receiver.ackno.value, c.left.sender.isn, c.left.sender.input.popped))
  {
    AckIsSafe(c.left.sender, c.right.receiver, c.toLeft[k].receiver);
  }

  lemma RoundAdvances(c: Connection, r: Round)
    requires c.Invariant() && Ready(c, r) && c.left.sender.outstanding != []
    ensures var d := AfterRound(c, r);
            d.Invariant() && Acked(d) > Acked(c) && d.left.sender.input.history == c.left.sender.input.history
  {
    hide Outcome, Next, Connection.Invariant, Ready;
    ReadFirst(c, r);
    OutcomeAdvances(Next(c, Step(Right, Read(r.read))), r.ms);
  }

  /** Each round until nothing is outstanding finds its conditions met. */
  ghost predicate AllReady(c: Connection, rounds: seq<Round>)
    requires c.Invariant()
    decreases |rounds|
  {
    c.left.sender.outstanding != [] && rounds != [] ==>
      Ready(c, rounds[0]) &&
      (RoundAdvances(c, rounds[0]); AllReady(AfterRound(c, rounds[0]), rounds[1..]))
  }

  /** The connection after these rounds, or as many of them as there was something outstanding. */
  ghost function AfterRounds(c: Connection, rounds: seq<Round>): Connection
    requires c.Invariant() && AllReady(c, rounds)
    decreases |rounds|
  {
    if c.left.sender.outstanding == [] || rounds == [] then c
    else
      RoundAdvances(c, rounds[0]);
      AfterRounds(AfterRound(c, rounds[0]), rounds[1..])
  }

  lemma AckedIsBounded(c: Connection)
    requires c.Invariant()
    ensures Acked(c) <= 2 * (|c.left.sender.input.history| + 2)
    ensures Acked(c) == 2 * (|c.left.sender.input.history| + 2) ==> c.left.sender.outstanding == []
  {
    AckAtMostSent(c.left.sender, c.right.receiver);
  }

  /** Rounds cannot go on for ever: after as many as twice the sequence numbers of the stream, SYN and FIN included,
      nothing is outstanding any more. `Turned` gives the same for the other end. */
  lemma {:induction false} RoundsEnd(c: Connection, rounds: seq<Round>)
    requires c.Invariant() && AllReady(c, rounds)
    requires |rounds| >= 2 * (|c.left.sender.input.history| + 2) - Acked(c)
    ensures AfterRounds(c, rounds).left.sender.outstanding == []
    decreases |rounds|
  {
    hide AfterRound, Connection.Invariant, Ready, Acked;
    AckedIsBounded(c);
    if c.left.sender.outstanding != [] {
      RoundAdvances(c, rounds[0]);
      RoundsEnd(AfterRound(c, rounds[0]), rounds[1..]);
    }
  }
}
