/** Two peers and the network between them, which may lose, repeat and reorder whatever was ever sent. */
module TcpConnections {
  import opened MachineTypes
  import opened WrappingIntegers
  import opened ByteStreams
  import opened Reassemblers
  import opened TcpMessages
  import opened TcpSenders
  import opened TcpReceivers
  import opened TcpPeers
  import opened TcpLinks

  /** What can happen at one end. `Deliver(k)` hands over the k-th message ever sent to it, again or late. */
  datatype Action =
    | Write(data: seq<byte>)
    | Close
    | Push
    | Tick(ms: nat)
    | Deliver(k: nat)
    | Read(n: nat)
    | FailOutbound
    | FailInbound

  /** The application does not write behind its FIN, and the stream fits the sequence space. */
  predicate Enabled(x: Peer, y: Peer, toX: seq<TcpMessage>, a: Action) {
    match a
    case Write(data) =>
      !x.sender.finSent
      && |x.sender.input.history| + |data| + y.receiver.reasm.out.capacity + SLACK <= U32
    case Deliver(k) => k < |toX|
    case _ => true
  }

  /** One step of a peer: its new state and what it transmits. */
  function PeerNext(x: Peer, toX: seq<TcpMessage>, a: Action): (Peer, seq<TcpMessage>)
    requires x.Valid() && (a.Deliver? ==> a.k < |toX|)
  {
    match a
    case Write(data) => (x.(sender := x.sender.Write(data)), [])
    case Close => (x.(sender := x.sender.Close()), [])
    case Push => x.Push()
    case Tick(ms) => x.Tick(ms)
    case Deliver(k) => x.Receive(toX[k])
    case Read(n) => (x.(receiver := x.receiver.Read(n)), [])
    case FailOutbound => (x.(sender := x.sender.Fail()), [])
    case FailInbound =>
      var q := x.receiver.reasm;
      (x.(receiver := x.receiver.(reasm := q.(out := q.out.(error := true)))), [])
  }

  /** Both directions of the connection between `x` and `y`. */
  ghost predicate PairInvariant(x: Peer, y: Peer, toX: seq<TcpMessage>, toY: seq<TcpMessage>) {
    && LinkInvariant(x.sender, y.receiver, toY, toX)
    && LinkInvariant(y.sender, x.receiver, toX, toY)
  }

  lemma PairIsValid(x: Peer, y: Peer, toX: seq<TcpMessage>, toY: seq<TcpMessage>)
    requires PairInvariant(x, y, toX, toY)
    ensures x.Valid() && y.Valid()
  {
    AckAtMostSent(x.sender, y.receiver);
    AckAtMostSent(y.sender, x.receiver);
  }

  /** What one step of `x` does, seen from the other end: its sender only moves forward within what `y` has
      acknowledged, its receiver still holds genuine bytes and never takes an acknowledgment back, and
      everything it transmits is a genuine segment stamped with its receiver's state after the step. */
  ghost predicate GoodStep(x: Peer, x': Peer, out: seq<TcpMessage>, y: Peer) {
    && SenderStep(x.sender, x'.sender)
    && x.sender.absAckno <= x'.sender.absAckno <= y.receiver.AbsAck()
    && FitsSequenceSpace(|x'.sender.input.history|, y.receiver.reasm.out.capacity)
    && Holds(x'.receiver, y.sender) && x'.receiver.AbsAck() >= x.receiver.AbsAck()
    && x'.receiver.reasm.out.capacity == x.receiver.reasm.out.capacity
    && forall m :: m in out ==> m.receiver == x'.receiver.Send() && GenuineSegment(m.sender, x'.sender)
  }

  lemma GoodStepKeepsPair(x: Peer, x': Peer, out: seq<TcpMessage>, y: Peer, toX: seq<TcpMessage>, toY: seq<TcpMessage>)
    requires PairInvariant(x, y, toX, toY) && GoodStep(x, x', out, y)
    ensures PairInvariant(x', y, toX, toY + out)
  {
    SenderStepKeepsLink(x.sender, x'.sender, y.receiver);
    ReceiverStepKeepsLink(y.sender, x.receiver, x'.receiver);
    SendIsGenuine(y.sender, x'.receiver);
  }

  lemma PushIsGood(x: Peer, y: Peer, toX: seq<TcpMessage>, toY: seq<TcpMessage>)
    requires PairInvariant(x, y, toX, toY)
    ensures GoodStep(x, x.Push().0, x.Push().1, y)
  {
    PushKeeps(x.sender);
    TransmissionsAreGenuine(x.sender, 0);
  }

  lemma TickIsGood(x: Peer, y: Peer, toX: seq<TcpMessage>, toY: seq<TcpMessage>, ms: nat)
    requires PairInvariant(x, y, toX, toY)
    ensures GoodStep(x, x.Tick(ms).0, x.Tick(ms).1, y)
  {
    TickKeeps(x.sender, ms);
    TransmissionsAreGenuine(x.sender, ms);
  }

  lemma AbsorbIsGood(x: Peer, y: Peer, toX: seq<TcpMessage>, toY: seq<TcpMessage>, m: TcpMessage)
    requires PairInvariant(x, y, toX, toY) && m in toX && x.Valid()
    ensures GoodStep(x, x.Absorb(m), [], y)
  {
    AckIsSafe(x.sender, y.receiver, m.receiver);
    ReceiveHolds(y.sender, x.receiver, m.sender);
    WindowNeverShrinks(x.receiver, m.sender, 0);
    AbsorbKeepsStreams(x, m);
    hide Sender.Receive, Receiver.Receive, Holds, Extends, Sender.Valid, OverAck, Unwrap;
  }

  lemma ReplyIsGood(x: Peer, y: Peer, toX: seq<TcpMessage>, toY: seq<TcpMessage>)
    requires PairInvariant(x, y, toX, toY)
    ensures GoodStep(x, x.Reply().0, x.Reply().1, y)
  {
    PushIsGood(x, y, toX, toY);
    TransmissionsAreGenuine(x.Push().0.sender, 0);
  }

  lemma GoodStepsCompose(x: Peer, x': Peer, x'': Peer, out: seq<TcpMessage>, y: Peer)
    requires GoodStep(x, x', [], y) && GoodStep(x', x'', out, y)
    ensures GoodStep(x, x'', out, y)
  {}

  lemma StepIsGood(x: Peer, y: Peer, toX: seq<TcpMessage>, toY: seq<TcpMessage>, a: Action)
    requires PairInvariant(x, y, toX, toY) && x.Valid() && Enabled(x, y, toX, a)
    ensures var (x', out) := PeerNext(x, toX, a);
            GoodStep(x, x', out, y)
  {
    match a
    case Write(data) => WriteKeeps(x.sender, data);
    case Close => CloseOrFailKeeps(x.sender);
    case Push => PushIsGood(x, y, toX, toY);
    case Tick(ms) => TickIsGood(x, y, toX, toY, ms);
    case Deliver(k) =>
      if x.Active() {
        AbsorbIsGood(x, y, toX, toY, toX[k]);
        GoodStepKeepsPair(x, x.Absorb(toX[k]), [], y, toX, toY);
        assert toY + [] == toY;
        ReplyIsGood(x.Absorb(toX[k]), y, toX, toY);
        GoodStepsCompose(x, x.Absorb(toX[k]), x.Absorb(toX[k]).Reply().0, x.Absorb(toX[k]).Reply().1, y);
      }
    case Read(n) => ReadHolds(y.sender, x.receiver, n);
    case FailOutbound => CloseOrFailKeeps(x.sender);
    case FailInbound =>
      var q := x.receiver.reasm;
      assert forall i: nat :: q.(out := q.out.(error := true)).Known(i) == q.Known(i);
  }

  // ---- The connection, and its runs.

  datatype Side = Left | Right

  /** Two peers and everything ever sent to each of them. */
  datatype Connection = Connection(left: Peer, right: Peer, toLeft: seq<TcpMessage>, toRight: seq<TcpMessage>) {

    function Turned(): Connection {
      Connection(right, left, toRight, toLeft)
    }

    /** The connection as `side` sees it: itself on the left. */
    function From(side: Side): Connection {
      if side.Left? then this else Turned()
    }

    ghost predicate Invariant() {
      PairInvariant(left, right, toLeft, toRight) && left.Valid() && right.Valid()
    }
  }

  datatype Step = Step(side: Side, action: Action)

  predicate CanHappen(c: Connection, e: Step) {
    var v := c.From(e.side);
    Enabled(v.left, v.right, v.toLeft, e.action)
  }

  ghost function Next(c: Connection, e: Step): Connection
    requires c.Invariant() && CanHappen(c, e)
  {
    var v := c.From(e.side);
    var (x, out) := PeerNext(v.left, v.toLeft, e.action);
    Connection(x, v.right, v.toLeft, v.toRight + out).From(e.side)
  }

  lemma NextKeepsInvariant(c: Connection, e: Step)
    requires c.Invariant() && CanHappen(c, e)
    ensures Next(c, e).Invariant()
  {
    var v := c.From(e.side);
    var (x, out) := PeerNext(v.left, v.toLeft, e.action);
    hide PeerNext, Peer.Valid, LinkInvariant;
    StepIsGood(v.left, v.right, v.toLeft, v.toRight, e.action);
    GoodStepKeepsPair(v.left, x, out, v.right, v.toLeft, v.toRight);
    PairIsValid(x, v.right, v.toLeft, v.toRight + out);
  }

  ghost predicate Possible(c: Connection, steps: seq<Step>)
    requires c.Invariant()
    decreases |steps|
  {
    steps != [] ==>
      CanHappen(c, steps[0]) &&
      (NextKeepsInvariant(c, steps[0]); Possible(Next(c, steps[0]), steps[1..]))
  }

  ghost function Run(c: Connection, steps: seq<Step>): Connection
    requires c.Invariant() && Possible(c, steps)
    decreases |steps|
  {
    if steps == [] then c
    else
      NextKeepsInvariant(c, steps[0]);
      Run(Next(c, steps[0]), steps[1..])
  }

  lemma {:induction false} RunKeepsInvariant(c: Connection, steps: seq<Step>)
    requires c.Invariant() && Possible(c, steps)
    ensures Run(c, steps).Invariant()
    decreases |steps|
  {
    if steps != [] {
      NextKeepsInvariant(c, steps[0]);
      RunKeepsInvariant(Next(c, steps[0]), steps[1..]);
    }
  }

  /** Two fresh peers and nothing on the wire. */
  ghost function NewConnection(left: Config, right: Config): (c: Connection)
    requires FitsSequenceSpace(0, left.recvCapacity) && FitsSequenceSpace(0, right.recvCapacity)
    ensures c.Invariant()
  {
    var x, y := NewPeer(left), NewPeer(right);
    PairIsValid(x, y, [], []);
    Connection(x, y, [], [])
  }

  /** End-to-end safety. In every run, over a network that loses, repeats and reorders in both directions with
      all sequence numbers as 32-bit values: what the far receiver has written is a prefix of what was written at
      this sender; it is closed only when it equals the whole stream, which was closed and whose FIN was sent;
      acknowledgments never run ahead, `abs_ackno_` <= receiver's <= `abs_seqno_`; so once the FIN is sent
      and nothing is outstanding the far receiver holds everything. */
  lemma EndToEndSafety(left: Config, right: Config, steps: seq<Step>, side: Side)
    requires FitsSequenceSpace(0, left.recvCapacity) && FitsSequenceSpace(0, right.recvCapacity)
    requires Possible(NewConnection(left, right), steps)
    ensures var v := Run(NewConnection(left, right), steps).From(side);
            var s, r := v.left.sender, v.right.receiver;
            && r.reasm.out.history <= s.input.history
            && (r.reasm.out.closed ==> s.input.closed && s.finSent && r.reasm.out.history == s.input.history)
            && s.absAckno <= r.AbsAck() <= s.absSeqno
            && (s.finSent && s.outstanding == [] ==> r.reasm.out.closed && r.reasm.out.history == s.input.history)
  {
    RunKeepsInvariant(NewConnection(left, right), steps);
    var v := Run(NewConnection(left, right), steps).From(side);
    AckAtMostSent(v.left.sender, v.right.receiver);
  }
}
