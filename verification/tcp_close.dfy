/** Closing a connection: when a peer stops without lingering, the other end needs nothing more from it
    (`active` and the end of `receive` in util/tcp_peer.hh; section 3.6 of RFC 9293). */
module TcpClose {
  import opened MachineTypes
  import opened WrappingIntegers
  import opened ByteStreams
  import opened Reassemblers
  import opened TcpMessages
  import opened TcpSenders
  import opened TcpReceivers
  import opened TcpPeers
  import opened TcpLinks
  import opened TcpConnections

  /** If `x` has given up lingering, it has the whole stream of `y`; every copy of its own FIN on the wire carries
      an acknowledgment of `y`'s FIN; so if `y` has seen that FIN, all of `y`'s stream is acknowledged. */
  ghost predicate Settled(x: Peer, y: Peer, toY: seq<TcpMessage>) {
    !x.linger ==>
      && x.receiver.reasm.out.closed
      && (forall m :: m in toY && m.sender.fin ==> AcksEverything(m.receiver, y.sender))
      && (y.receiver.reasm.end != NO_END ==> y.sender.absAckno == y.sender.absSeqno)
  }

  predicate AcksEverything(m: ReceiverMessage, s: Sender) {
    m.ackno.Some? && Offset(m.ackno.value, s.isn) == s.absSeqno
  }

  ghost predicate CloseInvariant(c: Connection) {
    c.Invariant() && Settled(c.left, c.right, c.toRight) && Settled(c.right, c.left, c.toLeft)
  }

  lemma ReceiveEnd(r: Receiver, m: SenderMessage)
    requires r.Valid()
    ensures r.reasm.out.closed ==> r.Receive(m).reasm.out.closed
    ensures r.Receive(m).reasm.end != r.reasm.end ==> m.fin
  {
    var isn' := if m.syn then Some(m.seqno) else r.isn;
    var q := if m.rst then r.reasm.(out := r.reasm.out.(error := true)) else r.reasm;
    hide Unwrap;
    if isn'.Some? {
      InsertExtends(q, StreamIndex(m, isn'.value, q.Needed()), m.payload, m.fin);
    }
  }

  /** How one step touches what `Settled` speaks of. */
  lemma StepAndClosing(x: Peer, y: Peer, toX: seq<TcpMessage>, toY: seq<TcpMessage>, a: Action)
    requires PairInvariant(x, y, toX, toY) && x.Valid() && Enabled(x, y, toX, a)
    ensures var x' := PeerNext(x, toX, a).0;
            && (x.receiver.reasm.out.closed ==> x'.receiver.reasm.out.closed)
            && (x'.receiver.reasm.end != x.receiver.reasm.end ==>
                  a.Deliver? && toX[a.k].sender.fin
                  && (AcksEverything(toX[a.k].receiver, x.sender) ==> x'.sender.absAckno >= x.sender.absSeqno))
            && (!x'.linger ==> !x.linger || (x'.receiver.reasm.out.closed && !x'.sender.input.IsFinished()))
  {
    match a
    case Deliver(k) =>
      if x.Active() {
        ReceiveEnd(x.receiver, toX[k].sender);
        AckIsSafe(x.sender, y.receiver, toX[k].receiver);
        AbsorbIsGood(x, y, toX, toY, toX[k]);
        PushKeeps(x.Absorb(toX[k]).sender);
      }
    case Push => PushKeeps(x.sender);
    case Tick(ms) => TickKeeps(x.sender, ms);
    case _ =>
  }

  lemma OwnStepKeepsSettled(x: Peer, y: Peer, toX: seq<TcpMessage>, toY: seq<TcpMessage>, a: Action)
    requires PairInvariant(x, y, toX, toY) && x.Valid() && Enabled(x, y, toX, a) && Settled(x, y, toY)
    ensures var (x', out) := PeerNext(x, toX, a);
            Settled(x', y, toY + out)
  {
    var (x', out) := PeerNext(x, toX, a);
    StepAndClosing(x, y, toX, toY, a);
    StepIsGood(x, y, toX, toY, a);
    GoodStepKeepsPair(x, x', out, y, toX, toY);
    hide PeerNext;
    if !x'.linger {
      AckAtMostSent(y.sender, x'.receiver);
      SendIsGenuine(y.sender, x'.receiver);
    }
  }

  lemma OtherStepKeepsSettled(x: Peer, y: Peer, toX: seq<TcpMessage>, toY: seq<TcpMessage>, a: Action)
    requires PairInvariant(y, x, toY, toX) && y.Valid() && Enabled(y, x, toY, a) && Settled(x, y, toY)
    ensures Settled(x, PeerNext(y, toY, a).0, toY)
  {
    var (y', out) := PeerNext(y, toY, a);
    StepAndClosing(y, x, toY, toX, a);
    StepIsGood(y, x, toY, toX, a);
    hide PeerNext;
    if !x.linger {
      AckAtMostSent(y.sender, x.receiver);
    }
  }

  lemma NextKeepsCloseInvariant(c: Connection, e: Step)
    requires CloseInvariant(c) && CanHappen(c, e)
    ensures CloseInvariant(Next(c, e))
  {
    var v := c.From(e.side);
    NextKeepsInvariant(c, e);
    OwnStepKeepsSettled(v.left, v.right, v.toLeft, v.toRight, e.action);
    OtherStepKeepsSettled(v.right, v.left, v.toRight, v.toLeft, e.action);
  }

  lemma {:induction false} RunKeepsCloseInvariant(c: Connection, steps: seq<Step>)
    requires CloseInvariant(c) && Possible(c, steps)
    ensures CloseInvariant(Run(c, steps))
    decreases |steps|
  {
    if steps != [] {
      NextKeepsCloseInvariant(c, steps[0]);
      RunKeepsCloseInvariant(Next(c, steps[0]), steps[1..]);
    }
  }

  /** Clean close. In every run, when a peer that has given up lingering becomes inactive without error, it has
      received the other's whole stream and had all of its own acknowledged. If its FIN was sent, then the other
      receiver is closed with the complete stream and the other sender has everything, its FIN included,
      acknowledged; if its FIN was not sent, the other receiver is still open. `ClosedWithoutFin` shows that this
      happens when a close is not followed by a push; `CleanCloseAfterPush` that it cannot happen otherwise. */
  lemma CleanClose(left: Config, right: Config, steps: seq<Step>, side: Side)
    requires FitsSequenceSpace(0, left.recvCapacity) && FitsSequenceSpace(0, right.recvCapacity)
    requires Possible(NewConnection(left, right), steps)
    requires var x := Run(NewConnection(left, right), steps).From(side).left;
             !x.linger && !x.Active() && !x.AnyErrors()
    ensures var v := Run(NewConnection(left, right), steps).From(side);
            var x, y := v.left, v.right;
            && x.receiver.reasm.out.closed && x.receiver.reasm.out.history == y.sender.input.history
            && x.sender.input.IsFinished() && x.sender.outstanding == []
            && (x.sender.finSent <==> y.receiver.reasm.out.closed)
            && (x.sender.finSent ==> y.receiver.reasm.out.history == x.sender.input.history
                                     && y.sender.finSent && y.sender.absAckno == y.sender.absSeqno
                                     && y.sender.outstanding == [])
  {
    var c := NewConnection(left, right);
    RunKeepsCloseInvariant(c, steps);
    var v := Run(c, steps).From(side);
    AckAtMostSent(v.left.sender, v.right.receiver);
    AckAtMostSent(v.right.sender, v.left.receiver);
    TimerCoversInFlight(v.left.sender);
  }

  // ---- When the FIN is sent.

  /** A closed stream has its FIN on the way or work that will trigger it. */
  ghost predicate Flushed(s: Sender) {
    s.input.closed ==> s.finSent || s.outstanding != []
  }

  /** Only a close that is not followed by a push can leave a FIN behind with nothing in flight. */
  lemma StepKeepsFlushed(x: Peer, y: Peer, toX: seq<TcpMessage>, toY: seq<TcpMessage>, a: Action)
    requires PairInvariant(x, y, toX, toY) && x.Valid() && Enabled(x, y, toX, a)
    requires a.Push? || (Flushed(x.sender) && !a.Close?)
    ensures Flushed(PeerNext(x, toX, a).0.sender)
  {
    match a
    case Push => PushFillsTheWindow(x.sender); PushKeeps(x.sender); TimerCoversInFlight(x.sender.Push().0);
    case Tick(ms) => TickKeeps(x.sender, ms);
    case Deliver(k) =>
      if x.Active() {
        AbsorbIsGood(x, y, toX, toY, toX[k]);
        var s := x.Absorb(toX[k]).sender;
        PushFillsTheWindow(s);
        PushKeeps(s);
        TimerCoversInFlight(s.Push().0);
      }
    case _ =>
  }

  /** Every close at `side` is followed, sooner or later, by a push there. */
  predicate ClosesArePushed(steps: seq<Step>, side: Side) {
    forall i :: 0 <= i < |steps| && steps[i] == Step(side, Close) ==> Step(side, Push) in steps[i + 1..]
  }

  lemma NextKeepsFlushed(c: Connection, e: Step)
    requires c.Invariant() && CanHappen(c, e)
    ensures Flushed(c.From(e.side).right.sender) ==> Flushed(Next(c, e).From(e.side).right.sender)
    ensures e.action.Push? || (Flushed(c.From(e.side).left.sender) && !e.action.Close?) ==>
              Flushed(Next(c, e).From(e.side).left.sender)
  {
    var v := c.From(e.side);
    if e.action.Push? || (Flushed(v.left.sender) && !e.action.Close?) {
      StepKeepsFlushed(v.left, v.right, v.toLeft, v.toRight, e.action);
    }
  }

  lemma RestIsPushed(steps: seq<Step>, side: Side)
    requires steps != [] && ClosesArePushed(steps, side)
    ensures ClosesArePushed(steps[1..], side)
    ensures steps[0] == Step(side, Close) ==> Step(side, Push) in steps[1..]
    ensures Step(side, Push) in steps ==> steps[0] == Step(side, Push) || Step(side, Push) in steps[1..]
  {
    var rest := steps[1..];
    forall i | 0 <= i < |rest| && rest[i] == Step(side, Close) ensures Step(side, Push) in rest[i + 1..] {
      var j := i + 1;
      assert steps[j] == Step(side, Close) && rest[i + 1..] == steps[j + 1..];
    }
    assert steps[0 + 1..] == rest;
  }

  lemma {:induction false} RunIsFlushed(c: Connection, steps: seq<Step>, side: Side)
    requires c.Invariant() && Possible(c, steps) && ClosesArePushed(steps, side)
    requires Flushed(c.From(side).left.sender) || Step(side, Push) in steps
    ensures Flushed(Run(c, steps).From(side).left.sender)
    decreases |steps|
  {
    hide Next, Flushed, Connection.Invariant, CanHappen, ClosesArePushed;
    if steps != [] {
      NextKeepsInvariant(c, steps[0]);
      NextKeepsFlushed(c, steps[0]);
      RestIsPushed(steps, side);
      RunIsFlushed(Next(c, steps[0]), steps[1..], side);
    }
  }

  /** Nobody is left waiting: when every close at one end is followed by a push there, whatever happens in between
      and however the other end behaves, and that end stops without lingering and without error, then it leaves
      the other closed with the complete stream and fully acknowledged. */
  lemma CleanCloseAfterPush(left: Config, right: Config, steps: seq<Step>, side: Side)
    requires FitsSequenceSpace(0, left.recvCapacity) && FitsSequenceSpace(0, right.recvCapacity)
    requires Possible(NewConnection(left, right), steps) && ClosesArePushed(steps, side)
    requires var x := Run(NewConnection(left, right), steps).From(side).left;
             !x.linger && !x.Active() && !x.AnyErrors()
    ensures var v := Run(NewConnection(left, right), steps).From(side);
            var x, y := v.left, v.right;
            && y.receiver.reasm.out.closed && y.receiver.reasm.out.history == x.sender.input.history
            && y.sender.finSent && y.sender.absAckno == y.sender.absSeqno && y.sender.outstanding == []
  {
    RunIsFlushed(NewConnection(left, right), steps, side);
    CleanClose(left, right, steps, side);
  }
}
