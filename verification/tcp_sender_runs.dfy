/** Whole runs of one sender under any order of writes, pushes, acknowledgments and ticks: what has been
    transmitted so far, and how the retransmission timer spaces its retries (section 5 of RFC 6298). */
module TcpSenderRuns {
  import opened MachineTypes
  import opened WrappingIntegers
  import opened ByteStreams
  import opened TcpMessages
  import opened TcpSenders

  datatype Event =
    | Write(data: seq<byte>)
    | Close
    | Fail
    | Push
    | Ack(message: ReceiverMessage)
    | Tick(ms: nat)

  /** What an observer notes down: everything transmitted; the time ticked since sending began with nothing
      outstanding or new data was last acknowledged; how many retransmissions were made since then while the
      window was open; and the time ticked since then or since the last retransmission. */
  datatype Log = Log(sender: Sender, sent: seq<SenderMessage>, elapsed: nat, retries: nat, waited: nat)

  /** Nothing is written behind a FIN that is already out, and no acknowledgment falls in the gap of `AckKeepsInvariantIff`. */
  ghost predicate Allowed(s: Sender, e: Event)
    requires s.Valid()
  {
    match e
    case Write(data) => !s.finSent && |s.input.history| + |data| + 2 < U64
    case Ack(m) => m.ackno.Some? ==> !OverAck(s, Unwrap(m.ackno.value, s.isn, s.input.popped))
    case _ => true
  }

  ghost function Next(l: Log, e: Event): Log
    requires l.sender.Valid() && Allowed(l.sender, e)
  {
    var s := l.sender;
    match e
    case Write(data) => l.(sender := s.Write(data))
    case Close => l.(sender := s.Close())
    case Fail => l.(sender := s.Fail())
    case Push =>
      var (t, sent) := s.Push();
      if s.outstanding != [] then l.(sender := t, sent := l.sent + sent) else Log(t, l.sent + sent, 0, 0, 0)
    case Ack(m) =>
      var t := s.Receive(m);
      if t.absAckno > s.absAckno then Log(t, l.sent, 0, 0, 0) else l.(sender := t)
    case Tick(ms) =>
      var (t, again) := s.Tick(ms);
      if s.outstanding == [] then l.(sender := t)
      else if again == [] then l.(sender := t, elapsed := l.elapsed + ms, waited := l.waited + ms)
      else Log(t, l.sent + again, l.elapsed + ms, if s.window > 0 then l.retries + 1 else l.retries, 0)
  }

  ghost predicate Invariant(l: Log) {
    var s := l.sender;
    && s.Valid()
    && (forall m :: m in s.outstanding ==> m in l.sent)
    && Timed(l, s)
    && (forall m :: m in l.sent ==> SentFrom(m, s))
  }

  /** The sender's counters are what the observer counted. */
  ghost predicate Timed(l: Log, s: Sender) {
    && s.consecutive == l.retries
    && (s.timerOn ==> s.timerTime == l.waited && l.elapsed >= s.initialRto * (Pow2(l.retries) - 1) + l.waited)
  }

  /** `m` stands somewhere in the sender's stream. */
  ghost predicate SentFrom(m: SenderMessage, s: Sender) {
    exists start: nat :: Faithful(m, start, s) && m.SequenceLength() > 0
  }

  lemma SentFromStays(m: SenderMessage, s: Sender, t: Sender)
    requires SentFrom(m, s) && Extends(s, t)
    ensures SentFrom(m, t)
  {
    var start: nat :| Faithful(m, start, s) && m.SequenceLength() > 0;
    FaithfulStays(m, start, s, t);
  }

  lemma {:induction false} TiledIsSent(segments: seq<SenderMessage>, start: nat, s: Sender, m: SenderMessage)
    requires Tiles(segments, start, s) && m in segments
    ensures SentFrom(m, s)
  {
    if m != segments[0] {
      TiledIsSent(segments[1..], start + segments[0].SequenceLength(), s, m);
    }
  }

  lemma NextKeepsInvariant(l: Log, e: Event)
    requires Invariant(l) && Allowed(l.sender, e)
    ensures Invariant(Next(l, e)) && Extends(l.sender, Next(l, e).sender) && l.sent <= Next(l, e).sent
  {
    hide Sender.Push, Sender.Tick, Sender.Receive, SentFrom, Extends, Tiles, InFlight;
    match e {
      case Write(data) => WriteKeeps(l.sender, data); EarlierStaysSent(l, l.sender.Write(data));
      case Close => CloseOrFailKeeps(l.sender); EarlierStaysSent(l, l.sender.Close());
      case Fail => CloseOrFailKeeps(l.sender); EarlierStaysSent(l, l.sender.Fail());
      case Push => PushLogged(l); EarlierStaysSent(l, l.sender.Push().0);
      case Ack(m) => AckLogged(l, m); EarlierStaysSent(l, l.sender.Receive(m));
      case Tick(ms) => TickLogged(l, ms); EarlierStaysSent(l, l.sender.Tick(ms).0);
    }
  }

  lemma EarlierStaysSent(l: Log, t: Sender)
    requires Invariant(l) && Extends(l.sender, t)
    ensures forall m :: m in l.sent ==> SentFrom(m, t)
  {
    forall m | m in l.sent ensures SentFrom(m, t) {
      SentFromStays(m, l.sender, t);
    }
  }

  lemma PushLogged(l: Log)
    requires Invariant(l)
    ensures var (t, sent) := l.sender.Push();
            && t.Valid() && Extends(l.sender, t)
            && (forall m :: m in sent ==> SentFrom(m, t))
            && (forall m :: m in t.outstanding ==> m in l.sent + sent)
            && Timed(Next(l, Push), t)
  {
    hide Tiles, Faithful, Sender.Push, SentFrom;
    PushKeeps(l.sender);
    PushKeepsTimer(l.sender);
    var (t, sent) := l.sender.Push();
    forall m | m in sent ensures SentFrom(m, t) {
      TiledIsSent(sent, l.sender.absSeqno, t, m);
    }
  }

  lemma {:induction false} PushKeepsTimer(s: Sender)
    requires s.Valid()
    ensures var t := s.Push().0;
            && t.initialRto == s.initialRto && t.consecutive == s.consecutive
            && t.timerTime == (if s.timerOn || !t.timerOn then s.timerTime else 0)
            && (s.timerOn ==> t.timerOn)
    decreases s.input.Buffered()
  {
    if s.NextPush().Transmit? {
      PushStepKeeps(s);
      if !s.NextPush().isLast {
        PushKeepsTimer(s.NextPush().next);
      }
    }
  }

  lemma AckLogged(l: Log, m: ReceiverMessage)
    requires Invariant(l) && Allowed(l.sender, Ack(m))
    ensures var t := l.sender.Receive(m);
            && t.Valid() && Extends(l.sender, t)
            && (forall x :: x in t.outstanding ==> x in l.sent)
            && Timed(Next(l, Ack(m)), t)
  {
    hide Unwrap, Sender.Receive, Tiles, Faithful, SentFrom, InFlight;
    ReceiveKeeps(l.sender, m);
    ReceiveAndTimer(l.sender, m);
  }

  /** New data restarts the timer and the count; nothing else touches them. */
  lemma ReceiveAndTimer(s: Sender, m: ReceiverMessage)
    requires s.Valid()
    ensures var t := s.Receive(m);
            && t.initialRto == s.initialRto
            && (t.timerOn ==> s.timerOn)
            && if t.absAckno > s.absAckno then t.consecutive == 0 && t.timerTime == 0
               else t.consecutive == s.consecutive && t.timerTime == s.timerTime
  {
    hide Unwrap, DropAcked, InFlight, Tiles;
    AckUnpacked(s, m);
  }

  lemma TickLogged(l: Log, ms: nat)
    requires Invariant(l)
    ensures var (t, sent) := l.sender.Tick(ms);
            && t.Valid() && Extends(l.sender, t)
            && t.outstanding == l.sender.outstanding && (forall m :: m in sent ==> m in l.sent)
            && Timed(Next(l, Tick(ms)), t)
  {
    hide Tiles, Faithful, SentFrom, InFlight;
    var s := l.sender;
    TickKeeps(s, ms);
    Doubling(s.initialRto, Pow2(s.consecutive));
    assert Pow2(s.consecutive + 1) == 2 * Pow2(s.consecutive);
  }

  lemma Doubling(r: nat, p: nat)
    ensures r * (p - 1) + r * p == r * (2 * p - 1)
  {}

  // ---- Runs.

  ghost predicate AllAllowed(first: Log, events: seq<Event>)
    requires Invariant(first)
    decreases |events|
  {
    events != [] ==>
      Allowed(first.sender, events[0]) &&
      (NextKeepsInvariant(first, events[0]); AllAllowed(Next(first, events[0]), events[1..]))
  }

  ghost function Run(first: Log, events: seq<Event>): Log
    requires Invariant(first) && AllAllowed(first, events)
    decreases |events|
  {
    if events == [] then first
    else
      NextKeepsInvariant(first, events[0]);
      Run(Next(first, events[0]), events[1..])
  }

  ghost function NewLog(capacity: nat, isn: uint32, initialRto: nat): (l: Log)
    ensures Invariant(l)
  {
    NewSenderIsValid(capacity, isn, initialRto);
    Log(NewSender(capacity, isn, initialRto), [], 0, 0, 0)
  }

  lemma {:induction false} RunKeepsInvariant(first: Log, events: seq<Event>)
    requires Invariant(first) && AllAllowed(first, events)
    ensures Invariant(Run(first, events))
    decreases |events|
  {
    if events != [] {
      NextKeepsInvariant(first, events[0]);
      RunKeepsInvariant(Next(first, events[0]), events[1..]);
    }
  }

  /** Retransmission timing in every run, in terms of what was observed. With r retransmissions made against an open
      window since new data was last acknowledged, a tick retransmits exactly when something is outstanding and
      initialRto * 2^r have been ticked since then or since the last retransmission. It transmits the lowest
      outstanding segment as it was first transmitted. Against an open window the next timeout is twice as long,
      against a zero window it stays. So the k-th such retransmission comes at least (2^k - 1) initial timeouts
      after the start. */
  lemma RetransmissionTiming(capacity: nat, isn: uint32, initialRto: nat, events: seq<Event>, ms: nat)
    requires AllAllowed(NewLog(capacity, isn, initialRto), events)
    ensures var l := Run(NewLog(capacity, isn, initialRto), events);
            var s := l.sender;
            && s.Valid() && (s.timerOn <==> s.outstanding != [])
            && var (t, again) := s.Tick(ms);
            && s.consecutive == l.retries && s.rto == initialRto * Pow2(l.retries)
            && again == (if s.outstanding != [] && l.waited + ms >= initialRto * Pow2(l.retries)
                         then [s.outstanding[0]] else [])
            && (again != [] ==>
                  && s.outstanding[0] in l.sent && Faithful(s.outstanding[0], s.Base(), s)
                  && t.consecutive == (if s.window > 0 then l.retries + 1 else l.retries)
                  && t.rto == initialRto * Pow2(t.consecutive)
                  && l.elapsed + ms >= initialRto * (Pow2(l.retries + 1) - 1))
  {
    hide Run, AllAllowed, Tiles, SentFrom, Faithful;
    var first := NewLog(capacity, isn, initialRto);
    RunKeepsInvariant(first, events);
    RunKeepsRto(first, events);
    var s := Run(first, events).sender;
    TickKeeps(s, ms);
    if s.outstanding != [] {
      FrontIsFaithful(s);
    }
    Doubling(initialRto, Pow2(s.consecutive));
    assert Pow2(s.consecutive + 1) == 2 * Pow2(s.consecutive);
  }

  lemma {:induction false} RunKeepsRto(first: Log, events: seq<Event>)
    requires Invariant(first) && AllAllowed(first, events)
    ensures Run(first, events).sender.initialRto == first.sender.initialRto
    decreases |events|
  {
    if events != [] {
      NextKeepsInvariant(first, events[0]);
      if events[0].Push? {
        PushKeepsTimer(first.sender);
      }
      RunKeepsRto(Next(first, events[0]), events[1..]);
    }
  }

  // ---- A run into the gap of `AckKeepsInvariantIff`.

  const GAP_SYN := SenderMessage(0, true, [], false, false)
  const GAP_DATA := SenderMessage(1, false, [7, 7], false, false)

  function GapSender(rto: nat, written: seq<byte>, popped: nat, outstanding: seq<SenderMessage>, absSeqno: nat,
                     absAckno: nat, window: nat): Sender
  {
    Sender(Stream(10, written, popped, false, false), 0, rto, outstanding, rto, 0, outstanding != [], absSeqno,
           absAckno, 0, window, false)
  }

  function GapAck(ackno: uint32): ReceiverMessage {
    ReceiverMessage(Some(ackno), 10, false)
  }

  /** Two bytes are written, the SYN goes out and is acknowledged, then the bytes go out and one is acknowledged. */
  function GapEvent(i: nat): Event
    requires i < 5
  {
    if i == 0 then Write([7, 7])
    else if i == 1 || i == 3 then Push
    else if i == 2 then Ack(GapAck(1))
    else Ack(GapAck(2))
  }

  function GapLog(rto: nat, i: nat): Log
    requires i <= 5
  {
    if i == 0 then Log(NewSender(10, 0, rto), [], 0, 0, 0)
    else if i == 1 then Log(GapSender(rto, [7, 7], 0, [], 0, 0, 1), [], 0, 0, 0)
    else if i == 2 then Log(GapSender(rto, [7, 7], 0, [GAP_SYN], 1, 0, 1), [GAP_SYN], 0, 0, 0)
    else if i == 3 then Log(GapSender(rto, [7, 7], 0, [], 1, 1, 10), [GAP_SYN], 0, 0, 0)
    else if i == 4 then Log(GapSender(rto, [7, 7], 2, [GAP_DATA], 3, 1, 10), [GAP_SYN, GAP_DATA], 0, 0, 0)
    else Log(GapSender(rto, [7, 7], 2, [GAP_DATA], 3, 2, 10), [GAP_SYN, GAP_DATA], 0, 0, 0)
  }

  lemma GapPushes(rto: nat)
    ensures GapLog(rto, 1).sender.Push() == (GapLog(rto, 2).sender, [GAP_SYN])
    ensures GapLog(rto, 3).sender.Push() == (GapLog(rto, 4).sender, [GAP_DATA])
  {
    var s := GapLog(rto, 1).sender;
    assert s.input.Peek()[..0] == [] && [] + [GAP_SYN] == [GAP_SYN] && [GAP_SYN][1..] == [];
    assert s.NextPush() == Transmit(GAP_SYN, GapLog(rto, 2).sender, true);
    var u := GapLog(rto, 3).sender;
    assert u.input.Peek()[..2] == [7, 7] && [] + [GAP_DATA] == [GAP_DATA];
    assert u.NextPush() == Transmit(GAP_DATA, GapLog(rto, 4).sender, true);
  }

  lemma GapAcks(rto: nat)
    ensures GapLog(rto, 2).sender.Receive(GapAck(1)) == GapLog(rto, 3).sender
    ensures GapLog(rto, 4).sender.Receive(GapAck(2)) == GapLog(rto, 5).sender
    ensures GapLog(rto, 5).sender.Receive(GapAck(4)).absAckno == 4
    ensures Unwrap(1, 0, 0) == 1 && Unwrap(2, 0, 2) == 2 && Unwrap(4, 0, 2) == 4
  {
    UnwrapInFirstBlock(0, 0, 0);
    UnwrapInFirstBlock(1, 0, 0);
    UnwrapInFirstBlock(1, 0, 2);
    UnwrapInFirstBlock(2, 0, 2);
    UnwrapInFirstBlock(4, 0, 2);
    hide Unwrap;
    assert [GAP_SYN][1..] == [] && [GAP_DATA][1..] == [] && InFlight([]) == 0;
    assert DropAcked([GAP_SYN], 1, 0, 0) == [];
  }

  lemma GapStep(rto: nat, i: nat)
    requires i < 5 && Invariant(GapLog(rto, i))
    ensures Allowed(GapLog(rto, i).sender, GapEvent(i))
    ensures Next(GapLog(rto, i), GapEvent(i)) == GapLog(rto, i + 1)
  {
    hide Unwrap, Sender.Push, Sender.Receive, Sender.Valid;
    GapPushes(rto);
    GapAcks(rto);
    assert [] + [7, 7] == [7, 7] && [7, 7][..2] == [7, 7];
    assert [] + [GAP_SYN] == [GAP_SYN] && [GAP_SYN] + [GAP_DATA] == [GAP_SYN, GAP_DATA];
  }

  function GapEvents(i: nat): seq<Event>
    requires i <= 5
    decreases 5 - i
  {
    if i == 5 then [] else [GapEvent(i)] + GapEvents(i + 1)
  }

  lemma {:induction false} GapRun(rto: nat, i: nat)
    requires i <= 5 && Invariant(GapLog(rto, i))
    ensures AllAllowed(GapLog(rto, i), GapEvents(i)) && Run(GapLog(rto, i), GapEvents(i)) == GapLog(rto, 5)
    decreases 5 - i
  {
    hide Next, Allowed, GapLog, GapEvent, Invariant;
    if i < 5 {
      GapStep(rto, i);
      NextKeepsInvariant(GapLog(rto, i), GapEvent(i));
      GapRun(rto, i + 1);
      assert GapEvents(i)[1..] == GapEvents(i + 1);
    }
  }

  /** A fresh sender gets there in five events: the acknowledgment it then accepts is one more than it ever sent. */
  lemma OverAckReached(rto: nat)
    ensures AllAllowed(NewLog(10, 0, rto), GapEvents(0))
    ensures Run(NewLog(10, 0, rto), GapEvents(0)) == GapLog(rto, 5)
    ensures var s := GapLog(rto, 5).sender; s.absSeqno == 3 && OverAck(s, 4) && s.Receive(GapAck(4)).absAckno == 4
  {
    hide Run, AllAllowed, Unwrap, GapEvents;
    GapRun(rto, 0);
    GapAcks(rto);
    assert [GAP_DATA][1..] == [];
  }
}
