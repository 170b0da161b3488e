/** When a peer still takes messages, and when it answers, in terms of the run that led there: `active` and `receive` in
    util/tcp_peer.hh without their stored clocks. */
module TcpLinger {
  import opened MachineTypes
  import opened Division
  import opened WrappingIntegers
  import opened ByteStreams
  import opened Reassemblers
  import opened TcpMessages
  import opened TcpSenders
  import opened TcpReceivers
  import opened TcpPeers
  import opened TcpLinks
  import opened TcpConnections

  /** What an observer of one end notes down: the time ticked there, that time when a message was last taken, and
      whether no message taken so far has found the inbound stream ended before the outbound one. */
  datatype Watch = Watch(now: nat, last: nat, lingers: bool)

  predicate HasError(x: Peer) {
    x.receiver.reasm.out.error || x.sender.input.error
  }

  /** The outbound stream was closed and all of it has been sent. */
  predicate OutboundSent(x: Peer) {
    x.sender.input.closed && x.sender.input.popped == |x.sender.input.history|
  }

  /** The inbound stream has ended, and all of the outbound one was sent and acknowledged. */
  predicate StreamsDone(x: Peer) {
    x.receiver.reasm.out.closed && OutboundSent(x) && x.sender.absAckno == x.sender.absSeqno
  }

  /** A message is taken unless there is an error, or both streams are done and lingering is over or was given up. */
  predicate Listens(x: Peer, w: Watch, timeout: nat) {
    !HasError(x) && (!StreamsDone(x) || (w.lingers && w.now < w.last + 10 * timeout))
  }

  ghost function WatchStep(c: Connection, e: Step, side: Side, w: Watch, timeout: nat): Watch
    requires c.Invariant() && CanHappen(c, e)
  {
    if e.side != side then w
    else
      match e.action
      case Tick(ms) => w.(now := w.now + ms)
      case Deliver(k) =>
        var after := Next(c, e).From(side).left;
        if Listens(c.From(side).left, w, timeout)
        then Watch(w.now, w.now, w.lingers && !(after.receiver.reasm.out.closed && !OutboundSent(after)))
        else w
      case _ => w
  }

  /** The notes after a run. */
  ghost function Watched(c: Connection, steps: seq<Step>, side: Side, w: Watch, timeout: nat): Watch
    requires c.Invariant() && Possible(c, steps)
    decreases |steps|
  {
    if steps == [] then w
    else
      NextKeepsInvariant(c, steps[0]);
      Watched(Next(c, steps[0]), steps[1..], side, WatchStep(c, steps[0], side, w, timeout), timeout)
  }

  /** The peer's own counters say the same. */
  predicate Noted(x: Peer, w: Watch, timeout: nat) {
    && x.rtTimeout == timeout && x.cumulativeTime == w.now && x.lastReceipt == w.last && x.linger == w.lingers
    && !x.needSend
  }

  lemma ActiveIsListening(x: Peer, w: Watch, timeout: nat)
    requires x.Valid() && Noted(x, w, timeout)
    ensures x.Active() <==> Listens(x, w, timeout)
  {
    hide Tiles, Sender.TimerConsistent, Sender.CountsSequenceNumbers, Receiver.Valid;
    if x.sender.outstanding == [] {
      assert InFlight(x.sender.outstanding) == 0;
    } else {
      FrontIsFaithful(x.sender);
      FrontIsInFlight(x.sender);
    }
  }

  /** The number just before the next one expected, which a keep-alive carries. */
  predicate KeepAlive(r: Receiver, m: SenderMessage) {
    r.isn.Some? && m.seqno == Wrap(r.AbsAck() + U32 - 1, r.isn.value)
  }

  lemma WantsReplyIff(x: Peer, m: SenderMessage)
    requires x.Usable()
    ensures x.WantsReply(m) <==> m.SequenceLength() > 0 || KeepAlive(x.receiver, m)
  {
    if x.receiver.isn.Some? {
      OneBefore(m.seqno, x.receiver.AbsAck(), x.receiver.isn.value);
    }
  }

  lemma OneBefore(seqno: uint32, n: nat, zero: uint32)
    ensures (seqno + 1) % U32 == Wrap(n, zero) <==> seqno == Wrap(n + U32 - 1, zero)
  {
    var q, m := n / U32, n % U32;
    assert n == U32 * q + m;
    if m == 0 {
      QuotientIs(n + U32 - 1, U32, q, U32 - 1);
    } else {
      QuotientIs(n + U32 - 1, U32, q + 1, m - 1);
    }
    OneBeforeInBlock(seqno, m, (n + U32 - 1) % U32, zero);
  }

  lemma OneBeforeInBlock(seqno: uint32, m: uint32, before: uint32, zero: uint32)
    requires before == if m == 0 then U32 - 1 else m - 1
    ensures (seqno + 1) % U32 == (zero + m) % U32 <==> seqno == (zero + before) % U32
  {
    assert (seqno + 1) % U32 == if seqno == U32 - 1 then 0 else seqno + 1;
    assert (zero + m) % U32 == if zero + m < U32 then zero + m else zero + m - U32;
    assert (zero + before) % U32 == if zero + before < U32 then zero + before else zero + before - U32;
  }

  /** What a listening peer does with a message: both halves are absorbed, then it pushes. It answers if it had
      something to push, or the message occupies sequence numbers or is a keep-alive, and not otherwise: a plain
      acknowledgment is not acknowledged. */
  ghost predicate Takes(x: Peer, msg: TcpMessage, x': Peer, out: seq<TcpMessage>)
    requires x.Usable()
  {
    && x'.receiver == x.receiver.Receive(msg.sender)
    && x'.sender == x.sender.Receive(msg.receiver).Push().0
    && (out != [] <==> || x.sender.Receive(msg.receiver).Push().1 != []
                       || msg.sender.SequenceLength() > 0 || KeepAlive(x.receiver, msg.sender))
  }

  lemma ReceiveTakes(x: Peer, msg: TcpMessage)
    requires x.Usable() && !x.needSend
    ensures var (x', out) := x.Receive(msg);
            if x.Active() then
              && Takes(x, msg, x', out)
              && x'.cumulativeTime == x.cumulativeTime && x'.lastReceipt == x.cumulativeTime
              && x'.rtTimeout == x.rtTimeout && !x'.needSend
              && x'.linger == (x.linger && !(x'.receiver.reasm.out.closed && !OutboundSent(x')))
            else x' == x && out == []
  {
    hide Sender.Push, Sender.Receive, Receiver.Receive, Receiver.Send, Peer.Active, KeepAlive, Sender.EmptyMessage;
    WantsReplyIff(x, msg.sender);
    AbsorbKeepsStreams(x, msg);
  }

  lemma OwnStepIsWatched(x: Peer, toX: seq<TcpMessage>, a: Action, w: Watch, timeout: nat)
    requires x.Valid() && (a.Deliver? ==> a.k < |toX|) && Noted(x, w, timeout)
    ensures var x' := PeerNext(x, toX, a).0;
            Noted(x', match a
                       case Tick(ms) => w.(now := w.now + ms)
                       case Deliver(k) =>
                         if Listens(x, w, timeout)
                         then Watch(w.now, w.now, w.lingers && !(x'.receiver.reasm.out.closed && !OutboundSent(x')))
                         else w
                       case _ => w, timeout)
  {
    hide Sender.Push, Sender.Tick, Peer.Active, Listens, Peer.Receive, OutboundSent;
    match a
    case Deliver(k) =>
      ActiveIsListening(x, w, timeout);
      ReceiveTakes(x, toX[k]);
    case _ =>
  }

  lemma NextIsWatched(c: Connection, e: Step, side: Side, w: Watch, timeout: nat)
    requires c.Invariant() && CanHappen(c, e) && Noted(c.From(side).left, w, timeout)
    ensures Noted(Next(c, e).From(side).left, WatchStep(c, e, side, w, timeout), timeout)
  {
    hide PairInvariant, PeerNext, Peer.Valid, Noted, Listens, OutboundSent;
    if e.side == side {
      var v := c.From(side);
      OwnStepIsWatched(v.left, v.toLeft, e.action, w, timeout);
    }
  }

  lemma {:induction false} RunIsWatched(c: Connection, steps: seq<Step>, side: Side, w: Watch, timeout: nat)
    requires c.Invariant() && Possible(c, steps) && Noted(c.From(side).left, w, timeout)
    ensures Noted(Run(c, steps).From(side).left, Watched(c, steps, side, w, timeout), timeout)
    decreases |steps|
  {
    hide Connection.Invariant, Next, CanHappen, Noted, WatchStep;
    if steps != [] {
      NextKeepsInvariant(c, steps[0]);
      NextIsWatched(c, steps[0], side, w, timeout);
      RunIsWatched(Next(c, steps[0]), steps[1..], side, WatchStep(c, steps[0], side, w, timeout), timeout);
    }
  }

  /** The notes on a connection from its beginning. */
  ghost function Notes(left: Config, right: Config, steps: seq<Step>, side: Side): Watch
    requires FitsSequenceSpace(0, left.recvCapacity) && FitsSequenceSpace(0, right.recvCapacity)
    requires Possible(NewConnection(left, right), steps)
  {
    Watched(NewConnection(left, right), steps, side, Watch(0, 0, true), Timeout(left, right, side))
  }

  function Timeout(left: Config, right: Config, side: Side): nat {
    if side.Left? then left.rtTimeout else right.rtTimeout
  }

  /** After any run, whatever message arrives again or late: a peer that listens takes it, and any other ignores it. So
      without an error nothing is ignored while the inbound stream is open or something of the peer's own is unsent
      or unacknowledged. */
  lemma MessagesAreTaken(left: Config, right: Config, steps: seq<Step>, side: Side, k: nat)
    requires FitsSequenceSpace(0, left.recvCapacity) && FitsSequenceSpace(0, right.recvCapacity)
    requires Possible(NewConnection(left, right), steps)
    requires k < |Run(NewConnection(left, right), steps).From(side).toLeft|
    ensures var v := Run(NewConnection(left, right), steps).From(side);
            var w := Notes(left, right, steps, side);
            && v.left.Valid()
            && var (x', out) := PeerNext(v.left, v.toLeft, Deliver(k));
            if Listens(v.left, w, Timeout(left, right, side)) then Takes(v.left, v.toLeft[k], x', out)
            else x' == v.left && out == []
  {
    hide Run, Possible, Watched, Listens, Takes, PairInvariant, Peer.Valid;
    var c, timeout := NewConnection(left, right), Timeout(left, right, side);
    RunKeepsInvariant(c, steps);
    RunIsWatched(c, steps, side, Watch(0, 0, true), timeout);
    var x := Run(c, steps).From(side).left;
    ActiveIsListening(x, Notes(left, right, steps, side), timeout);
    ValidIsUsable(x);
    ReceiveTakes(x, Run(c, steps).From(side).toLeft[k]);
  }

  /** Lingering: once both streams are done, an end that never found its inbound stream ended first still takes every
      message, and answers what wants an answer, exactly while less than ten timeouts have been ticked since it last
      took one. */
  lemma LingersTenTimeouts(left: Config, right: Config, steps: seq<Step>, side: Side, k: nat)
    requires FitsSequenceSpace(0, left.recvCapacity) && FitsSequenceSpace(0, right.recvCapacity)
    requires Possible(NewConnection(left, right), steps)
    requires k < |Run(NewConnection(left, right), steps).From(side).toLeft|
    requires var x := Run(NewConnection(left, right), steps).From(side).left; StreamsDone(x) && !HasError(x)
    ensures var v := Run(NewConnection(left, right), steps).From(side);
            var w := Notes(left, right, steps, side);
            && v.left.Valid()
            && var (x', out) := PeerNext(v.left, v.toLeft, Deliver(k));
            if w.lingers && w.now - w.last < 10 * Timeout(left, right, side)
            then Takes(v.left, v.toLeft[k], x', out)
            else x' == v.left && out == []
  {
    hide Run, Possible, Watched, Takes, PeerNext, Peer.Valid;
    MessagesAreTaken(left, right, steps, side, k);
  }
}
