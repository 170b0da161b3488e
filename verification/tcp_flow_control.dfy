/** Flow control: with acknowledgments arriving in order, though some may be lost, the receiver always has room
    for what is sent, zero-window probes excepted (src/tcp_sender.cc, src/tcp_receiver.cc). */
module TcpFlowControl {
  import opened MachineTypes
  import opened WrappingIntegers
  import opened ByteStreams
  import opened Reassemblers
  import opened TcpMessages
  import opened TcpSenders
  import opened TcpReceivers
  import opened TcpPeers
  import opened TcpLinks
  import opened TcpConnections

  /** The right edge of the window, as a sequence number. */
  function Edge(r: Receiver): int {
    r.AbsAck() + r.Window()
  }

  /** The absolute acknowledgment in a message; none counts as 0. */
  function AckNo(m: ReceiverMessage, isn: uint32): nat {
    if m.ackno.None? then 0 else Offset(m.ackno.value, isn)
  }

  /** What the sender takes for the window does not reach past the receiver's; before the first acknowledgment
      it may send the SYN and nothing else. */
  ghost predicate WithinEdge(s: Sender, r: Receiver) {
    s.absAckno + s.window <= Edge(r) || (s.absAckno == 0 && s.window <= 1)
  }

  /** The stream index of the first payload byte. */
  function FirstByte(m: SenderMessage, isn: uint32): int {
    if m.syn then 0 else Offset(m.seqno, isn) - 1
  }

  /** Every payload byte has room at the receiver. */
  ghost predicate HasRoom(m: SenderMessage, isn: uint32, r: Receiver) {
    m.payload == [] || FirstByte(m, isn) + |m.payload| <= r.reasm.Limit()
  }

  /** What a push sends against a window of zero, with nothing in flight. */
  ghost function ProbesOf(s: Sender): set<SenderMessage>
    requires s.input.Valid()
  {
    if s.window == 0 && InFlight(s.outstanding) == 0 then set m | m in s.Push().1 else {}
  }

  /** That is at most one segment, of a single sequence number. */
  lemma ProbeIsSingle(s: Sender)
    requires s.Valid() && s.window == 0 && InFlight(s.outstanding) == 0
    ensures |s.Push().1| <= 1 && forall m :: m in ProbesOf(s) ==> m.SequenceLength() == 1
  {
    if s.NextPush().Transmit? {
      PushStepKeeps(s);
      assert s.Room() == 1 && s.NextPush().next.Room() == 0;
    }
  }

  ghost predicate ProbeOrRoom(m: SenderMessage, isn: uint32, r: Receiver, probes: set<SenderMessage>) {
    m in probes || HasRoom(m, isn, r)
  }

  ghost predicate FlowInvariant(x: Peer, y: Peer, toX: seq<TcpMessage>, toY: seq<TcpMessage>, last: nat,
                                probes: set<SenderMessage>) {
    && PairInvariant(x, y, toX, toY)
    && WithinEdge(x.sender, y.receiver)
    && (forall i, j :: 0 <= i <= j < |toX| ==> AckNo(toX[i].receiver, x.sender.isn) <= AckNo(toX[j].receiver, x.sender.isn))
    && (forall j :: last <= j < |toX| ==> AckNo(toX[j].receiver, x.sender.isn) >= x.sender.absAckno)
    && (forall m :: m in toX ==> AckNo(m.receiver, x.sender.isn) + m.receiver.window <= Edge(y.receiver))
    && (forall m :: m in toY ==> ProbeOrRoom(m.sender, x.sender.isn, y.receiver, probes))
    && (forall m :: m in x.sender.outstanding ==> ProbeOrRoom(m, x.sender.isn, y.receiver, probes))
  }

  /** A segment that `push` cuts from an open window within the receiver's edge has room. */
  lemma PushStepHasRoom(s: Sender, r: Receiver)
    requires s.Valid() && Holds(r, s) && WithinEdge(s, r) && |s.input.history| + 2 < U32
    requires s.window > 0 && s.NextPush().Transmit?
    ensures HasRoom(s.NextPush().segment, s.NextPush().next.isn, r)
  {
    PushStepKeeps(s);
    AckAtMostSent(s, r);
    var Transmit(m, next, isLast) := s.NextPush();
    PlaceIsStart(m, s.absSeqno, next);
  }

  lemma {:induction false} OpenPushHasRoom(s: Sender, r: Receiver)
    requires s.Valid() && Holds(r, s) && WithinEdge(s, r) && |s.input.history| + 2 < U32
    requires s.window > 0
    ensures var (t, sent) := s.Push();
            WithinEdge(t, r) && forall m :: m in sent ==> HasRoom(m, t.isn, r)
    decreases s.input.Buffered()
  {
    hide HasRoom, Sender.NextPush, Faithful, Tiles;
    PushKeeps(s);
    if s.NextPush().Transmit? {
      PushStepKeeps(s);
      PushStepHasRoom(s, r);
      var next := s.NextPush().next;
      SenderStepKeepsLink(s, next, r);
      if !s.NextPush().isLast {
        OpenPushHasRoom(next, r);
        PushKeeps(next);
        assert next.Push().0.isn == next.isn;
      }
    }
  }

  /** All that `push` sends is a probe or has room. */
  lemma PushHasRoom(s: Sender, r: Receiver)
    requires s.Valid() && Holds(r, s) && WithinEdge(s, r) && |s.input.history| + 2 < U32
    ensures var (t, sent) := s.Push();
            WithinEdge(t, r) && forall m :: m in sent ==> ProbeOrRoom(m, s.isn, r, ProbesOf(s))
  {
    hide HasRoom, Faithful, Tiles;
    PushKeeps(s);
    if s.window > 0 {
      OpenPushHasRoom(s, r);
    }
  }

  /** An acknowledgment no older than the last sets the sender's window to the receiver's own. */
  lemma AbsorbWithinEdge(s: Sender, r: Receiver, m: ReceiverMessage)
    requires s.Valid() && Holds(r, s) && FitsSequenceSpace(|s.input.history|, r.reasm.out.capacity)
    requires s.absAckno <= r.AbsAck() && GenuineAck(m, s, r)
    requires AckNo(m, s.isn) >= s.absAckno && AckNo(m, s.isn) + m.window <= Edge(r)
    ensures var t := s.Receive(m);
            WithinEdge(t, r) && t.absAckno == AckNo(m, s.isn) && t.isn == s.isn
            && forall x :: x in t.outstanding ==> x in s.outstanding
  {
    AckIsSafe(s, r, m);
    ReceiveKeeps(s, m);
  }

  /** The index from which deliveries at `x` may continue. */
  function Reached(a: Action, last: nat): nat {
    if a.Deliver? then a.k else last
  }

  /** The probes a step of `x` sends. */
  ghost function StepProbes(x: Peer, toX: seq<TcpMessage>, a: Action): set<SenderMessage>
    requires x.Valid() && (a.Deliver? ==> a.k < |toX|)
  {
    match a
    case Push => ProbesOf(x.sender)
    case Deliver(k) =>
      AbsorbKeepsStreams(x, toX[k]);
      if x.Active() then ProbesOf(x.Absorb(toX[k]).sender) else {}
    case _ => {}
  }

  /** The window `x` sees stays within the receiver's, and all it transmits or holds is a probe or has room. */
  ghost predicate StepFits(x: Peer, x': Peer, out: seq<TcpMessage>, y: Peer, probes: set<SenderMessage>) {
    && x'.sender.isn == x.sender.isn
    && WithinEdge(x'.sender, y.receiver)
    && (forall m :: m in out ==> ProbeOrRoom(m.sender, x.sender.isn, y.receiver, probes))
    && (forall m :: m in x'.sender.outstanding ==> ProbeOrRoom(m, x.sender.isn, y.receiver, probes))
  }

  lemma StampFits(p: Peer, segments: seq<SenderMessage>, isn: uint32, y: Peer, probes: set<SenderMessage>)
    requires p.receiver.reasm.out.Valid()
    requires forall m :: m in segments ==> ProbeOrRoom(m, isn, y.receiver, probes)
    ensures forall m :: m in p.Stamp(segments) ==> ProbeOrRoom(m.sender, isn, y.receiver, probes)
  {
    hide ProbeOrRoom, Receiver.Send;
  }

  /** What pushing, at once or in reply, does when the window is within the receiver's. */
  lemma PushFits(x: Peer, y: Peer, probes: set<SenderMessage>)
    requires x.Valid() && Holds(y.receiver, x.sender) && WithinEdge(x.sender, y.receiver)
    requires |x.sender.input.history| + 2 < U32
    requires forall m :: m in x.sender.outstanding ==> ProbeOrRoom(m, x.sender.isn, y.receiver, probes)
    ensures StepFits(x, x.Push().0, x.Push().1, y, probes + ProbesOf(x.sender))
    ensures StepFits(x, x.Reply().0, x.Reply().1, y, probes + ProbesOf(x.sender))
    ensures x.Push().0.sender.absAckno == x.Reply().0.sender.absAckno == x.sender.absAckno
  {
    hide WithinEdge, Holds, Sender.Push, ProbesOf, Sender.Valid, Peer.Stamp, Tiles;
    assert x.sender.input.Valid() && x.receiver.reasm.out.Valid() by { ValidStreams(x); }
    PushKeeps(x.sender);
    PushHasRoom(x.sender, y.receiver);
    var all := probes + ProbesOf(x.sender);
    var sent := x.sender.Push().1;
    assert forall m :: m in sent ==> ProbeOrRoom(m, x.sender.isn, y.receiver, all);
    StampFits(x, sent, x.sender.isn, y, all);
    var empty := x.Push().0.sender.EmptyMessage();
    StampFits(x.Push().0, [empty], x.sender.isn, y, all);
    assert forall m :: m in x.Reply().1 ==> m in x.Stamp(sent) || m in x.Push().0.Stamp([empty]);
  }

  lemma ValidStreams(x: Peer)
    requires x.Valid()
    ensures x.sender.input.Valid() && x.receiver.reasm.out.Valid()
  {}

  lemma TickFits(x: Peer, y: Peer, ms: nat, probes: set<SenderMessage>)
    requires x.Valid() && WithinEdge(x.sender, y.receiver)
    requires forall m :: m in x.sender.outstanding ==> ProbeOrRoom(m, x.sender.isn, y.receiver, probes)
    ensures StepFits(x, x.Tick(ms).0, x.Tick(ms).1, y, probes) && x.Tick(ms).0.sender.absAckno == x.sender.absAckno
  {
    hide Sender.Tick, ProbeOrRoom;
    TickKeeps(x.sender, ms);
  }

  lemma DeliverFits(x: Peer, y: Peer, toX: seq<TcpMessage>, toY: seq<TcpMessage>, last: nat,
                    probes: set<SenderMessage>, k: nat)
    requires FlowInvariant(x, y, toX, toY, last, probes) && x.Valid() && last <= k < |toX| && x.Active()
    ensures var (x', out) := x.Absorb(toX[k]).Reply();
            && StepFits(x, x', out, y, probes + StepProbes(x, toX, Deliver(k)))
            && x'.sender.absAckno == AckNo(toX[k].receiver, x.sender.isn)
  {
    hide HasRoom, WithinEdge, AckNo, Edge, Sender.Receive, Receiver.Receive, Peer.Reply, Peer.Active, ProbesOf, Holds;
    AbsorbWithinEdge(x.sender, y.receiver, toX[k].receiver);
    AbsorbIsGood(x, y, toX, toY, toX[k]);
    GoodStepKeepsPair(x, x.Absorb(toX[k]), [], y, toX, toY);
    PairIsValid(x.Absorb(toX[k]), y, toX, toY + []);
    PushFits(x.Absorb(toX[k]), y, probes);
  }

  lemma OwnStepFits(x: Peer, y: Peer, toX: seq<TcpMessage>, toY: seq<TcpMessage>, last: nat,
                    probes: set<SenderMessage>, a: Action)
    requires FlowInvariant(x, y, toX, toY, last, probes) && x.Valid() && Enabled(x, y, toX, a)
    requires a.Deliver? ==> a.k >= last
    ensures var (x', out) := PeerNext(x, toX, a);
            && StepFits(x, x', out, y, probes + StepProbes(x, toX, a))
            && (x'.sender.absAckno == x.sender.absAckno
                || (a.Deliver? && x'.sender.absAckno == AckNo(toX[a.k].receiver, x.sender.isn)))
  {
    hide HasRoom, AckNo, Peer.Push, Peer.Tick, Peer.Reply, Peer.Active, Peer.Absorb, ProbesOf, Sender.Valid;
    match a
    case Push => PushFits(x, y, probes);
    case Tick(ms) => TickFits(x, y, ms, probes);
    case Deliver(k) =>
      if x.Active() {
        DeliverFits(x, y, toX, toY, last, probes, k);
      }
    case _ =>
  }

  lemma OwnStepKeepsFlow(x: Peer, y: Peer, toX: seq<TcpMessage>, toY: seq<TcpMessage>, last: nat,
                         probes: set<SenderMessage>, a: Action)
    requires FlowInvariant(x, y, toX, toY, last, probes) && x.Valid() && Enabled(x, y, toX, a)
    requires a.Deliver? ==> a.k >= last
    ensures var (x', out) := PeerNext(x, toX, a);
            FlowInvariant(x', y, toX, toY + out, Reached(a, last), probes + StepProbes(x, toX, a))
  {
    var (x', out) := PeerNext(x, toX, a);
    OwnStepFits(x, y, toX, toY, last, probes, a);
    StepIsGood(x, y, toX, toY, a);
    GoodStepKeepsPair(x, x', out, y, toX, toY);
  }

  lemma EdgeNeverShrinks(y: Peer, toY: seq<TcpMessage>, a: Action)
    requires y.Valid() && (a.Deliver? ==> a.k < |toY|)
    ensures var y' := PeerNext(y, toY, a).0;
            Edge(y'.receiver) >= Edge(y.receiver) && y'.receiver.reasm.Limit() >= y.receiver.reasm.Limit()
  {
    match a
    case Deliver(k) => AbsorbKeepsStreams(y, toY[k]); WindowNeverShrinks(y.receiver, toY[k].sender, 0);
    case Read(n) => WindowNeverShrinks(y.receiver, y.sender.EmptyMessage(), n);
    case _ =>
  }

  /** What a step of the far end adds: messages that all carry its new acknowledgment and window. */
  lemma OtherStepAnswers(x: Peer, y: Peer, toX: seq<TcpMessage>, toY: seq<TcpMessage>, a: Action)
    requires PairInvariant(x, y, toX, toY) && y.Valid() && Enabled(y, x, toY, a)
    ensures var (y', out) := PeerNext(y, toY, a);
            && PairInvariant(x, y', toX + out, toY)
            && x.sender.absAckno <= y.receiver.AbsAck() <= y'.receiver.AbsAck()
            && (forall m :: m in toX ==> AckNo(m.receiver, x.sender.isn) <= y.receiver.AbsAck())
            && (forall m :: m in out ==> AckNo(m.receiver, x.sender.isn) == y'.receiver.AbsAck()
                                         && m.receiver.window == y'.receiver.Window())
  {
    var (y', out) := PeerNext(y, toY, a);
    StepIsGood(y, x, toY, toX, a);
    GoodStepKeepsPair(y, y', out, x, toY, toX);
    SendIsGenuine(x.sender, y'.receiver);
  }

  lemma OtherStepKeepsFlow(x: Peer, y: Peer, toX: seq<TcpMessage>, toY: seq<TcpMessage>, last: nat,
                           probes: set<SenderMessage>, a: Action)
    requires FlowInvariant(x, y, toX, toY, last, probes) && y.Valid() && Enabled(y, x, toY, a)
    ensures var (y', out) := PeerNext(y, toY, a);
            FlowInvariant(x, y', toX + out, toY, last, probes)
  {
    hide PeerNext, PairInvariant, HasRoom, AckNo, WithinEdge, Peer.Valid;
    var (y', out) := PeerNext(y, toY, a);
    EdgeNeverShrinks(y, toY, a);
    OtherStepAnswers(x, y, toX, toY, a);
    RoomGrows(x.sender, y.receiver, y'.receiver);
    forall i, j | 0 <= i <= j < |toX + out|
      ensures AckNo((toX + out)[i].receiver, x.sender.isn) <= AckNo((toX + out)[j].receiver, x.sender.isn)
    {
      assert i < |toX| ==> (toX + out)[i] in toX;
      assert i >= |toX| ==> (toX + out)[i] in out;
      assert j >= |toX| ==> (toX + out)[j] in out;
    }
    forall j | last <= j < |toX + out|
      ensures AckNo((toX + out)[j].receiver, x.sender.isn) >= x.sender.absAckno
    {
      assert j >= |toX| ==> (toX + out)[j] in out;
    }
  }

  lemma RoomGrows(s: Sender, r: Receiver, r': Receiver)
    requires Edge(r') >= Edge(r) && r'.reasm.Limit() >= r.reasm.Limit()
    ensures WithinEdge(s, r) ==> WithinEdge(s, r')
    ensures forall m: SenderMessage, isn: uint32 :: HasRoom(m, isn, r) ==> HasRoom(m, isn, r')
  {}

  /** Nothing with room is discarded: after the segment arrives, every byte of it is known. */
  lemma RoomMeansKept(s: Sender, r: Receiver, m: SenderMessage, i: nat)
    requires s.Valid() && r.Valid() && Holds(r, s) && GenuineSegment(m, s)
    requires FitsSequenceSpace(|s.input.history|, r.reasm.out.capacity)
    requires m.payload != [] && HasRoom(m, s.isn, r)
    requires (m.syn || r.isn.Some?) && FirstByte(m, s.isn) <= i < FirstByte(m, s.isn) + |m.payload|
    ensures r.Receive(m).reasm.Known(i) == Some(s.input.history[i])
  {
    hide Unwrap, Reasm.Insert, Agrees, Tiles, Sender.TimerConsistent, Sender.AckInFront;
    var q := if m.rst then r.reasm.(out := r.reasm.out.(error := true)) else r.reasm;
    SegmentInPlace(m, s);
    AckAtMostSent(s, r);
    UnwrapInFirstBlock(m.seqno, s.isn, q.Needed());
    var index := StreamIndex(m, s.isn, q.Needed());
    assert index == FirstByte(m, s.isn) || i < q.Needed();
    InsertKeepsByte(q, index, m, FirstByte(m, s.isn), i);
    assert r.Receive(m).reasm == q.Insert(index, m.payload, m.fin);
    ReceiveHolds(s, r, m);
    HeldByteIsGenuine(r.Receive(m), s, i);
  }

  lemma InsertKeepsByte(q: Reasm, index: uint64, m: SenderMessage, first: nat, i: nat)
    requires q.Valid() && first <= i < first + |m.payload| <= q.Limit() && (index == first || i < q.Needed())
    ensures q.Insert(index, m.payload, m.fin).Known(i).Some?
  {
    InsertKnows(q, index, m.payload, m.fin);
    assert q.Known(i).Some? || Spans(index, |m.payload|, i);
  }

  lemma HeldByteIsGenuine(r: Receiver, s: Sender, i: nat)
    requires Holds(r, s) && r.reasm.Known(i).Some?
    ensures i < |s.input.history| && r.reasm.Known(i).value == s.input.history[i]
  {}

  // ---- Runs in which acknowledgments reach `side` in the order they were sent.

  ghost predicate InOrder(steps: seq<Step>, side: Side, last: nat) {
    steps != [] ==>
      var mine := steps[0].side == side;
      && (mine && steps[0].action.Deliver? ==> steps[0].action.k >= last)
      && InOrder(steps[1..], side, if mine then Reached(steps[0].action, last) else last)
  }

  /** The probes `side` sends in one step, and in the course of a run. */
  ghost function ProbesIn(c: Connection, e: Step, side: Side): set<SenderMessage>
    requires c.Invariant() && CanHappen(c, e)
  {
    var v := c.From(side);
    if e.side == side then StepProbes(v.left, v.toLeft, e.action) else {}
  }

  ghost function Probes(c: Connection, steps: seq<Step>, side: Side): set<SenderMessage>
    requires c.Invariant() && Possible(c, steps)
    decreases |steps|
  {
    if steps == [] then {}
    else
      NextKeepsInvariant(c, steps[0]);
      ProbesIn(c, steps[0], side) + Probes(Next(c, steps[0]), steps[1..], side)
  }

  ghost predicate FlowsFrom(c: Connection, side: Side, last: nat, probes: set<SenderMessage>) {
    var v := c.From(side);
    FlowInvariant(v.left, v.right, v.toLeft, v.toRight, last, probes)
  }

  lemma NextKeepsFlow(c: Connection, e: Step, side: Side, last: nat, probes: set<SenderMessage>)
    requires c.Invariant() && CanHappen(c, e) && FlowsFrom(c, side, last, probes)
    requires e.side == side && e.action.Deliver? ==> e.action.k >= last
    ensures FlowsFrom(Next(c, e), side, if e.side == side then Reached(e.action, last) else last,
                      probes + ProbesIn(c, e, side))
  {
    hide FlowInvariant, StepProbes, PeerNext;
    var v := c.From(side);
    if e.side == side {
      OwnStepKeepsFlow(v.left, v.right, v.toLeft, v.toRight, last, probes, e.action);
    } else {
      OtherStepKeepsFlow(v.left, v.right, v.toLeft, v.toRight, last, probes, e.action);
      assert probes + {} == probes;
    }
  }

  lemma {:induction false} RunKeepsFlow(c: Connection, steps: seq<Step>, side: Side, last: nat,
                                        probes: set<SenderMessage>) returns (final: nat)
    requires c.Invariant() && Possible(c, steps) && FlowsFrom(c, side, last, probes) && InOrder(steps, side, last)
    ensures FlowsFrom(Run(c, steps), side, final, probes + Probes(c, steps, side))
    decreases |steps|
  {
    hide Next, ProbesIn, FlowsFrom, Connection.Invariant, CanHappen;
    final := last;
    if steps == [] {
      assert probes + Probes(c, steps, side) == probes;
    } else {
      var e := steps[0];
      NextKeepsInvariant(c, e);
      NextKeepsFlow(c, e, side, last, probes);
      var more := probes + ProbesIn(c, e, side);
      final := RunKeepsFlow(Next(c, e), steps[1..], side, if e.side == side then Reached(e.action, last) else last, more);
      assert probes + Probes(c, steps, side) == more + Probes(Next(c, e), steps[1..], side);
    }
  }

  /** What is neither a probe nor too late is kept. */
  lemma KeptInFlow(x: Peer, y: Peer, toX: seq<TcpMessage>, toY: seq<TcpMessage>, last: nat,
                   probes: set<SenderMessage>, m: SenderMessage, i: nat)
    requires FlowInvariant(x, y, toX, toY, last, probes) && x.Valid() && y.Valid()
    requires exists k :: 0 <= k < |toY| && toY[k].sender == m
    requires m.payload != [] && m !in probes && (m.syn || y.receiver.isn.Some?)
    requires FirstByte(m, x.sender.isn) <= i < FirstByte(m, x.sender.isn) + |m.payload|
    ensures i < |x.sender.input.history|
    ensures y.receiver.Receive(m).reasm.Known(i) == Some(x.sender.input.history[i])
  {
    hide HasRoom, WithinEdge, AckNo, Edge, Holds, Sender.Valid;
    SegmentInPlace(m, x.sender);
    assert Spans(FirstByte(m, x.sender.isn), |m.payload|, i);
    RoomMeansKept(x.sender, y.receiver, m, i);
  }

  /** Flow control. In every run in which acknowledgments reach this sender in the order they were sent, any of
      them lost, whatever segment ever sent arrives whenever at the far receiver, no byte of it is discarded for
      lack of room, unless the segment was sent as a zero-window probe: afterwards each byte is stored or written. */
  lemma NothingIsDiscarded(left: Config, right: Config, steps: seq<Step>, side: Side, k: nat, i: nat)
    requires FitsSequenceSpace(0, left.recvCapacity) && FitsSequenceSpace(0, right.recvCapacity)
    requires Possible(NewConnection(left, right), steps) && InOrder(steps, side, 0)
    requires k < |Run(NewConnection(left, right), steps).From(side).toRight|
    requires var v := Run(NewConnection(left, right), steps).From(side);
             var m := v.toRight[k].sender;
             && m.payload != [] && m !in Probes(NewConnection(left, right), steps, side) && (m.syn || v.right.receiver.isn.Some?)
             && FirstByte(m, v.left.sender.isn) <= i < FirstByte(m, v.left.sender.isn) + |m.payload|
    ensures var v := Run(NewConnection(left, right), steps).From(side);
            && v.right.receiver.Valid() && i < |v.left.sender.input.history|
            && v.right.receiver.Receive(v.toRight[k].sender).reasm.Known(i) == Some(v.left.sender.input.history[i])
  {
    hide Run, Possible, Probes, FlowInvariant, Sender.Valid, Receiver.Receive, Connection.Invariant;
    var c := NewConnection(left, right);
    FlowsAtFirst(left, right, side);
    RunKeepsInvariant(c, steps);
    var last := RunKeepsFlow(c, steps, side, 0, {});
    var v := Run(c, steps).From(side);
    assert {} + Probes(c, steps, side) == Probes(c, steps, side);
    KeptInFlow(v.left, v.right, v.toLeft, v.toRight, last, Probes(c, steps, side), v.toRight[k].sender, i);
  }

  lemma FlowsAtFirst(left: Config, right: Config, side: Side)
    requires FitsSequenceSpace(0, left.recvCapacity) && FitsSequenceSpace(0, right.recvCapacity)
    ensures FlowsFrom(NewConnection(left, right), side, 0, {})
  {}
}
