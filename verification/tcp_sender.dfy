/** The sending half of TCP: segmentation, window, acknowledgments and the retransmission timer
    (src/tcp_sender.cc, src/tcp_sender.hh). */
module TcpSenders {
  import opened MachineTypes
  import opened WrappingIntegers
  import opened ByteStreams
  import opened TcpMessages

  const MAX_PAYLOAD_SIZE: nat := 1000
  const MAX_WINDOW: nat := U16 - 1

  /** Sequence numbers occupied by a queue of segments. */
  function InFlight(segments: seq<SenderMessage>): nat {
    if segments == [] then 0 else segments[0].SequenceLength() + InFlight(segments[1..])
  }

  /** One turn of the `push` loop: it stops, or sends a segment, which may be the last. */
  datatype PushStep = Stop | Transmit(segment: SenderMessage, next: Sender, isLast: bool)

  datatype Sender = Sender(
    input: Stream,
    isn: uint32,
    initialRto: nat,
    outstanding: seq<SenderMessage>,
    rto: nat,
    timerTime: nat,
    timerOn: bool,
    absSeqno: nat,
    absAckno: nat,
    consecutive: nat,
    window: nat,
    finSent: bool)
  {
    /** `remaining_window_size`: a zero window counts as one when nothing is in flight. */
    function Room(): nat {
      var inFlight := InFlight(outstanding);
      if window == 0 && inFlight == 0 then 1
      else if inFlight < window then window - inFlight
      else 0
    }

    /** The next segment, what it leaves of the stream, and whether the loop ends with it. */
    function Cut(): (SenderMessage, Stream, bool)
      requires input.Valid() && Room() > 0
    {
      var syn := absSeqno == 0;
      var room := Room() - (if syn then 1 else 0);
      var wanted := Min(input.Buffered(), room);
      var isLast := wanted < MAX_PAYLOAD_SIZE;
      var len := if isLast then wanted else MAX_PAYLOAD_SIZE;
      var rest := input.Pop(len);
      var fin := rest.IsFinished() && room - len > 0;
      (SenderMessage(Wrap(absSeqno, isn), syn, input.Peek()[..len], fin, input.error), rest, isLast)
    }

    function NextPush(): PushStep
      requires input.Valid()
    {
      if Room() == 0 || finSent then Stop
      else
        var (segment, rest, isLast) := Cut();
        if segment.SequenceLength() == 0 then Stop
        else
          var next := this.(
            input := rest,
            outstanding := outstanding + [segment],
            absSeqno := absSeqno + segment.SequenceLength(),
            finSent := segment.fin,
            timerOn := true,
            timerTime := if timerOn then timerTime else 0);
          Transmit(segment, next, isLast)
    }

    /** The whole of `push`: the sender afterwards and the segments transmitted. */
    function Push(): (r: (Sender, seq<SenderMessage>))
      requires input.Valid()
      ensures r.0.input.Valid()
      decreases input.Buffered()
    {
      match NextPush()
      case Stop => (this, [])
      case Transmit(segment, next, isLast) =>
        if isLast then (next, [segment])
        else
          var (final, more) := next.Push();
          (final, [segment] + more)
    }

    function EmptyMessage(): SenderMessage {
      SenderMessage(Wrap(absSeqno, isn), false, [], false, input.error)
    }

    /** An absent acknowledgment number only updates the window (see `AbsentAcknoIsHarmless`). */
    function Receive(m: ReceiverMessage): Sender
      requires input.popped < U64
    {
      var s := this.(window := m.window, input := if m.rst then input.(error := true) else input);
      if m.ackno.None? then s else s.ReceiveAck(Unwrap(m.ackno.value, isn, input.popped))
    }

    function ReceiveAck(ackno: nat): Sender
      requires input.popped < U64
    {
      if ackno > absAckno + InFlight(outstanding) then this
      else
        var s := if ackno > absAckno then
                   this.(rto := initialRto, timerTime := 0, absAckno := ackno, consecutive := 0,
                         outstanding := DropAcked(outstanding, ackno, isn, input.popped))
                 else this;
        s.(timerOn := s.timerOn && InFlight(s.outstanding) != 0)
    }

    /** The timer is only on while something is outstanding, so `front()` exists. */
    function Tick(ms: nat): (r: (Sender, seq<SenderMessage>))
      requires timerOn ==> outstanding != []
    {
      if !timerOn then (this, [])
      else if timerTime + ms < rto then (this.(timerTime := timerTime + ms), [])
      else
        var backedOff := if window > 0 then this.(consecutive := consecutive + 1, rto := rto * 2) else this;
        (backedOff.(timerTime := 0), [outstanding[0]])
    }

    function Write(data: seq<byte>): Sender
      requires input.Valid()
    {
      this.(input := input.Push(data))
    }

    function Close(): Sender {
      this.(input := input.(closed := true))
    }

    function Fail(): Sender {
      this.(input := input.(error := true))
    }

    /** All that the program needs to run on: a well-formed stream within 64 bits, and a front for the timer. */
    ghost predicate Usable() {
      && input.Valid() && |input.history| < U64
      && (timerOn ==> outstanding != [])
    }

    // ---- What every operation keeps.

    /** Absolute sequence number of the first outstanding segment. */
    function Base(): int {
      absSeqno - InFlight(outstanding)
    }

    ghost predicate Valid() {
      && input.Valid() && |input.history| + 2 < U64
      && CountsSequenceNumbers()
      && (finSent ==> input.closed && input.popped == |input.history|)
      && InFlight(outstanding) <= MAX_WINDOW && window <= MAX_WINDOW
      && Base() >= 0 && Tiles(outstanding, Base(), this)
      && AckInFront()
      && TimerConsistent()
    }

    /** `abs_seqno_` counts the SYN, the bytes taken from the stream, and the FIN. */
    ghost predicate CountsSequenceNumbers() {
      if absSeqno == 0 then input.popped == 0 && !finSent
      else absSeqno == 1 + input.popped + (if finSent then 1 else 0)
    }

    /** The acknowledgment lies in the first outstanding segment; nothing is outstanding once all is acked. */
    ghost predicate AckInFront() {
      if outstanding == [] then absAckno == absSeqno
      else Base() <= absAckno < Base() + outstanding[0].SequenceLength()
    }

    ghost predicate TimerConsistent() {
      && (timerOn <==> outstanding != [])
      && (!timerOn ==> consecutive == 0)
      && rto == initialRto * Pow2(consecutive)
    }
  }

  /** The acknowledgment loop: segments wholly below `ackno` leave the front of the queue. */
  function DropAcked(segments: seq<SenderMessage>, ackno: nat, isn: uint32, checkpoint: uint64): seq<SenderMessage> {
    if InFlight(segments) > 0
       && ackno >= Unwrap(segments[0].seqno, isn, checkpoint) + segments[0].SequenceLength()
    then DropAcked(segments[1..], ackno, isn, checkpoint)
    else segments
  }

  function NewSender(capacity: nat, isn: uint32, initialRto: nat): Sender {
    Sender(NewStream(capacity), isn, initialRto, [], initialRto, 0, false, 0, 0, 0, 1, false)
  }

  /** `m` is what the sender's stream has at absolute sequence number `start`: the SYN at 0, bytes from 1 on,
      the FIN after the last byte. An empty message may stand anywhere up to the next sequence number. */
  ghost predicate Faithful(m: SenderMessage, start: nat, s: Sender) {
    && m.seqno == Wrap(start, s.isn)
    && start + m.SequenceLength() <= s.absSeqno
    && (m.SequenceLength() > 0 ==> (m.syn <==> start == 0))
    && |m.payload| <= MAX_PAYLOAD_SIZE
    && (m.fin ==> s.finSent && start + m.SequenceLength() == s.absSeqno)
    && (m.payload != [] ==>
          var first := if m.syn then 0 else start - 1;
          && first + |m.payload| <= s.input.popped <= |s.input.history|
          && forall k :: 0 <= k < |m.payload| ==> m.payload[k] == s.input.history[first + k])
  }

  /** The segments follow one another without gap from `start` to the next sequence number. */
  ghost predicate Tiles(segments: seq<SenderMessage>, start: nat, s: Sender) {
    if segments == [] then start == s.absSeqno
    else
      && Faithful(segments[0], start, s)
      && segments[0].SequenceLength() > 0
      && Tiles(segments[1..], start + segments[0].SequenceLength(), s)
  }

  // ---- Lemmas about the outstanding queue.

  lemma {:induction false} InFlightAppend(segments: seq<SenderMessage>, m: SenderMessage)
    ensures InFlight(segments + [m]) == InFlight(segments) + m.SequenceLength()
  {
    if segments != [] {
      assert (segments + [m])[1..] == segments[1..] + [m];
      InFlightAppend(segments[1..], m);
    } else {
      assert segments + [m] == [m] && [m][1..] == [];
    }
  }

  /** `t` is a later state of the same sender: what was sent stays sent. */
  ghost predicate Extends(s: Sender, t: Sender) {
    && t.isn == s.isn
    && s.absSeqno <= t.absSeqno
    && s.input.popped <= t.input.popped <= |t.input.history|
    && s.input.popped <= |s.input.history|
    && (forall i :: 0 <= i < s.input.popped ==> t.input.history[i] == s.input.history[i])
    && (s.finSent ==> t.finSent && t.absSeqno == s.absSeqno)
  }

  lemma FaithfulStays(m: SenderMessage, start: nat, s: Sender, t: Sender)
    requires Faithful(m, start, s) && Extends(s, t)
    ensures Faithful(m, start, t)
  {}

  lemma {:induction false} TilesAppend(segments: seq<SenderMessage>, start: nat, s: Sender, t: Sender, m: SenderMessage)
    requires Tiles(segments, start, s) && Extends(s, t)
    requires Faithful(m, s.absSeqno, t) && m.SequenceLength() > 0
    requires t.absSeqno == s.absSeqno + m.SequenceLength()
    ensures Tiles(segments + [m], start, t)
  {
    if segments == [] {
      assert segments + [m] == [m] && [m][1..] == [];
    } else {
      assert (segments + [m])[1..] == segments[1..] + [m];
      FaithfulStays(segments[0], start, s, t);
      TilesAppend(segments[1..], start + segments[0].SequenceLength(), s, t, m);
    }
  }

  lemma {:induction false} TilesStay(segments: seq<SenderMessage>, start: nat, s: Sender, t: Sender)
    requires Tiles(segments, start, s) && Extends(s, t) && t.absSeqno == s.absSeqno
    ensures Tiles(segments, start, t)
  {
    if segments != [] {
      FaithfulStays(segments[0], start, s, t);
      TilesStay(segments[1..], start + segments[0].SequenceLength(), s, t);
    }
  }

  /** Within 64 bits a segment of the queue is always unwrapped to its true place. */
  lemma StartIsRecovered(start: nat, isn: uint32, popped: nat, absSeqno: nat)
    requires popped <= absSeqno <= popped + 2 && absSeqno < U64 && start <= absSeqno <= start + MAX_WINDOW
    ensures Unwrap(Wrap(start, isn), isn, popped) == start
  {
    RoundTrip(start, isn, popped);
  }

  lemma TilesUnfold(segments: seq<SenderMessage>, start: nat, s: Sender)
    requires Tiles(segments, start, s)
    ensures if segments == [] then start == s.absSeqno
            else && segments[0].seqno == Wrap(start, s.isn) && segments[0].SequenceLength() > 0
                 && start + segments[0].SequenceLength() <= s.absSeqno
                 && Tiles(segments[1..], start + segments[0].SequenceLength(), s)
  {}

  /** An acknowledgment removes exactly the segments that lie wholly below it. */
  lemma {:induction false} DropAckedTiles(segments: seq<SenderMessage>, start: nat, s: Sender, ackno: nat)
    requires s.input.popped <= s.absSeqno <= s.input.popped + 2 && s.absSeqno < U64
    requires Tiles(segments, start, s) && s.absSeqno <= start + MAX_WINDOW
    ensures InFlight(segments) == s.absSeqno - start
    ensures var rest := DropAcked(segments, ackno, s.isn, s.input.popped);
            var start' := s.absSeqno - InFlight(rest);
            && start' >= start && Tiles(rest, start', s)
            && (start' == start || start' <= ackno)
            && (rest != [] ==> ackno < start' + rest[0].SequenceLength())
  {
    hide Wrap, Unwrap, Faithful, Tiles;
    TilesUnfold(segments, start, s);
    if segments != [] {
      var next := start + segments[0].SequenceLength();
      StartIsRecovered(start, s.isn, s.input.popped, s.absSeqno);
      DropAckedTiles(segments[1..], next, s, ackno);
    }
  }

  lemma {:induction false} DropAckedIsSuffix(segments: seq<SenderMessage>, ackno: nat, isn: uint32, checkpoint: uint64)
    ensures var rest := DropAcked(segments, ackno, isn, checkpoint);
            |rest| <= |segments| && rest == segments[|segments| - |rest|..]
  {
    if segments != [] {
      DropAckedIsSuffix(segments[1..], ackno, isn, checkpoint);
    }
  }

  lemma NextPushShrinks(s: Sender)
    requires s.Usable() && s.NextPush().Transmit?
    ensures var next := s.NextPush().next;
            next.Usable() && (!s.NextPush().isLast ==> next.input.Buffered() < s.input.Buffered())
  {
    hide InFlight, Wrap;
  }

  /** Whatever is acknowledged, the timer never runs without a segment to retransmit. */
  lemma ReceiveKeepsUsable(s: Sender, m: ReceiverMessage)
    requires s.Usable()
    ensures s.Receive(m).Usable()
  {
    hide Unwrap, DropAcked;
  }

  // ---- Every operation keeps the invariant.

  lemma TimerCoversInFlight(s: Sender)
    requires s.Valid()
    ensures s.timerOn <==> InFlight(s.outstanding) > 0
  {}

  /** What one step of `push` sends is the next piece of the stream. */
  lemma PushStepIsFaithful(s: Sender)
    requires s.Valid() && s.NextPush().Transmit?
    ensures var Transmit(segment, next, isLast) := s.NextPush();
            && Extends(s, next) && Faithful(segment, s.absSeqno, next)
            && next.CountsSequenceNumbers() && next.input.Valid()
            && (next.finSent ==> next.input.closed && next.input.popped == |next.input.history|)
            && (!isLast ==> next.input.Buffered() < s.input.Buffered())
            && next.input == s.input.(popped := next.input.popped)
  {
    hide Tiles, Sender.AckInFront, Sender.TimerConsistent, InFlight, Wrap;
  }

  lemma PushStepFitsRoom(s: Sender)
    requires s.Valid() && s.NextPush().Transmit?
    ensures 0 < s.NextPush().segment.SequenceLength() <= s.Room() <= MAX_WINDOW
    ensures InFlight(s.outstanding) + s.NextPush().segment.SequenceLength() <= MAX_WINDOW
  {
    hide Tiles, Sender.AckInFront, Sender.TimerConsistent, InFlight, Wrap;
  }

  lemma FrontIsInFlight(s: Sender)
    requires s.Valid() && s.outstanding != []
    ensures 0 < s.outstanding[0].SequenceLength() <= InFlight(s.outstanding)
  {}

  /** The first outstanding segment, which the acknowledgment lies in. */
  lemma FrontIsFaithful(s: Sender)
    requires s.Valid() && s.outstanding != []
    ensures var m := s.outstanding[0];
            && 0 <= s.Base() <= s.absAckno < s.Base() + m.SequenceLength()
            && Faithful(m, s.Base(), s)
  {}

  /** A transmitted segment is the next piece of the stream, fits the window, and extends the queue. */
  lemma PushStepKeeps(s: Sender)
    requires s.Valid() && s.NextPush().Transmit?
    ensures var Transmit(segment, next, isLast) := s.NextPush();
            && next.Valid() && Extends(s, next)
            && next.outstanding == s.outstanding + [segment]
            && Faithful(segment, s.absSeqno, next) && segment.SequenceLength() > 0
            && next.absSeqno == s.absSeqno + segment.SequenceLength()
            && InFlight(next.outstanding) == InFlight(s.outstanding) + segment.SequenceLength()
            && segment.SequenceLength() <= s.Room()
            && (!isLast ==> next.input.Buffered() < s.input.Buffered())
            && next.window == s.window && next.absAckno == s.absAckno
            && next.input == s.input.(popped := next.input.popped)
  {
    hide Tiles, Faithful, Extends, Sender.Cut, Sender.Room, Sender.CountsSequenceNumbers;
    var Transmit(segment, next, isLast) := s.NextPush();
    PushStepIsFaithful(s);
    PushStepFitsRoom(s);
    InFlightAppend(s.outstanding, segment);
    TilesAppend(s.outstanding, s.Base(), s, next, segment);
    assert next.outstanding[0] == if s.outstanding == [] then segment else s.outstanding[0];
  }

  /** `push` keeps the invariant; what it transmits is exactly the stretch of sequence space between the old
      and the new next sequence number, in order, and is what it adds to the queue. */
  lemma {:induction false} PushKeeps(s: Sender)
    requires s.Valid()
    ensures var (t, sent) := s.Push();
            && t.Valid() && Extends(s, t)
            && t.outstanding == s.outstanding + sent && Tiles(sent, s.absSeqno, t)
            && t.window == s.window && t.absAckno == s.absAckno
            && t.input == s.input.(popped := t.input.popped)
    decreases s.input.Buffered()
  {
    assert s.input.Valid() && Extends(s, s);
    NoTiles(s);
    assert s.NextPush().Transmit? ==> Extends(s.NextPush().next, s.NextPush().next) by {
      if s.NextPush().Transmit? { PushStepKeeps(s); }
    }
    hide Sender.NextPush, Sender.Valid, Faithful, InFlight, Tiles, Extends;
    match s.NextPush()
    case Stop =>
    case Transmit(segment, next, isLast) =>
      PushStepKeeps(s);
      if isLast {
        NoTiles(next);
        TilesCons(segment, [], s, next, next);
        assert [segment] + [] == [segment];
      } else {
        PushKeeps(next);
        var (t, more) := next.Push();
        TilesCons(segment, more, s, next, t);
        Reassociate(s.outstanding, segment, more);
      }
  }

  lemma TilesCons(m: SenderMessage, more: seq<SenderMessage>, s: Sender, next: Sender, t: Sender)
    requires Extends(s, next) && Extends(next, t)
    requires Faithful(m, s.absSeqno, next) && m.SequenceLength() > 0
    requires next.absSeqno == s.absSeqno + m.SequenceLength() && Tiles(more, next.absSeqno, t)
    ensures Extends(s, t) && Tiles([m] + more, s.absSeqno, t)
  {
    assert ([m] + more)[1..] == more;
  }

  lemma NoTiles(s: Sender)
    ensures Tiles([], s.absSeqno, s)
  {}

  lemma Reassociate<T>(xs: seq<T>, y: T, zs: seq<T>)
    ensures xs + ([y] + zs) == (xs + [y]) + zs
  {}

  /** Nothing more could have been sent: the window is full, or the buffer is empty and, if the stream is
      closed, the FIN is out. */
  ghost predicate NothingLeftToPush(s: Sender) {
    || InFlight(s.outstanding) >= Max(s.window, 1)
    || (s.input.Buffered() == 0 && (s.input.closed ==> s.finSent))
  }

  lemma LastPushStepIsGreedy(s: Sender)
    requires s.Valid()
    ensures s.NextPush().Stop? ==> NothingLeftToPush(s)
    ensures s.NextPush().Transmit? && s.NextPush().isLast ==> NothingLeftToPush(s.NextPush().next)
  {
    if s.NextPush().Transmit? {
      InFlightAppend(s.outstanding, s.NextPush().segment);
    }
  }

  lemma PushStepFits(s: Sender)
    requires s.Valid()
    ensures s.input.Valid()
    ensures s.NextPush().Transmit? ==>
              InFlight(s.NextPush().next.outstanding) <= Max(InFlight(s.outstanding), Max(s.window, 1))
  {
    hide Sender.NextPush, Tiles;
    if s.NextPush().Transmit? {
      PushStepKeeps(s);
    }
  }

  /** `push` fills the window and does not overfill it: afterwards no more is in flight than before or than
      the window (at least 1) allows, and nothing that could be sent is left. Then unsent work implies a
      running timer. */
  lemma {:induction false} PushFillsTheWindow(s: Sender)
    requires s.Valid()
    ensures var (t, sent) := s.Push();
            && InFlight(t.outstanding) <= Max(InFlight(s.outstanding), Max(s.window, 1))
            && NothingLeftToPush(t)
            && (t.input.Buffered() > 0 || (t.input.closed && !t.finSent) ==> t.timerOn)
    decreases s.input.Buffered()
  {
    hide Sender.NextPush, Sender.Valid, InFlight, Tiles, Faithful;
    PushStepFits(s);
    LastPushStepIsGreedy(s);
    PushKeeps(s);
    TimerCoversInFlight(s.Push().0);
    match s.NextPush()
    case Stop =>
    case Transmit(segment, next, isLast) =>
      PushStepKeeps(s);
      if !isLast {
        PushFillsTheWindow(next);
      }
  }

  /** All segments but the last are as large as segments may be. */
  ghost predicate FullButLast(segments: seq<SenderMessage>) {
    forall i :: 0 <= i < |segments| - 1 ==> |segments[i].payload| == MAX_PAYLOAD_SIZE
  }

  lemma {:induction false} PushedSegmentsAreFull(s: Sender)
    requires s.input.Valid()
    ensures FullButLast(s.Push().1)
    decreases s.input.Buffered()
  {
    hide Sender.NextPush, FullButLast;
    PushStepIsFull(s);
    FullCons(s.EmptyMessage(), []);
    match s.NextPush()
    case Stop =>
    case Transmit(segment, next, isLast) =>
      if isLast {
        FullCons(segment, []);
      } else {
        PushedSegmentsAreFull(next);
        FullCons(segment, next.Push().1);
      }
  }

  lemma FullCons(segment: SenderMessage, more: seq<SenderMessage>)
    requires more == [] || (|segment.payload| == MAX_PAYLOAD_SIZE && FullButLast(more))
    ensures FullButLast([segment] + more) && FullButLast([segment]) && FullButLast([])
  {}

  lemma PushStepIsFull(s: Sender)
    requires s.input.Valid()
    ensures s.NextPush().Transmit? ==>
              && s.NextPush().next.input.Valid()
              && (!s.NextPush().isLast ==>
                    && |s.NextPush().segment.payload| == MAX_PAYLOAD_SIZE
                    && s.NextPush().next.input.Buffered() < s.input.Buffered())
  {
    hide InFlight, Wrap, Sender.Room;
  }

  /** Acknowledgments up to the next sequence number move `abs_ackno_` to the furthest one seen and remove
      exactly the segments wholly below it. */
  lemma ReceiveAckKeeps(s: Sender, ackno: nat)
    requires s.Valid() && ackno <= s.absSeqno
    ensures var t := s.ReceiveAck(ackno);
            && t.Valid() && Extends(s, t)
            && t.absAckno == Max(s.absAckno, ackno)
            && t.absSeqno == s.absSeqno && t.finSent == s.finSent && t.input == s.input && t.window == s.window
            && |t.outstanding| <= |s.outstanding|
            && t.outstanding == s.outstanding[|s.outstanding| - |t.outstanding|..]
  {
    hide DropAcked, Faithful;
    var t := s.ReceiveAck(ackno);
    TimerCoversInFlight(s);
    if ackno <= s.absAckno {
      assert t == s;
    } else {
      DropAckedTiles(s.outstanding, s.Base(), s, ackno);
      DropAckedIsSuffix(s.outstanding, ackno, s.isn, s.input.popped);
      TilesStay(t.outstanding, t.Base(), s, t);
      assert t.outstanding == [] <==> InFlight(t.outstanding) == 0;
    }
  }

  /** An acknowledgment the sender accepts although nothing with that number was ever sent. */
  predicate OverAck(s: Sender, ackno: nat) {
    s.absSeqno < ackno <= s.absSeqno + (s.absAckno - s.Base())
  }

  /** The range test `ackno > abs_ackno_ + in flight` rejects every number beyond what was sent only while no
      segment is partly acknowledged: in-flight counts whole segments, so after a partial acknowledgment it
      admits numbers past `abs_seqno_`. Exactly those break the invariant. */
  lemma AckKeepsInvariantIff(s: Sender, ackno: nat)
    requires s.Valid()
    ensures s.ReceiveAck(ackno).Valid() <==> !OverAck(s, ackno)
  {
    if ackno <= s.absSeqno {
      ReceiveAckKeeps(s, ackno);
    } else {
      DropAckedTiles(s.outstanding, s.Base(), s, ackno);
      assert DropAcked(s.outstanding, ackno, s.isn, s.input.popped) != [] ==>
        ackno < s.absSeqno;
    }
  }

  lemma OverAckAccepted() returns (s: Sender)
    ensures s.Valid() && s.ReceiveAck(s.absSeqno + 1).absAckno > s.absSeqno
  {
    var stream := Stream(10, [7, 7], 2, false, false);
    var segment := SenderMessage(1, false, [7, 7], false, false);
    s := Sender(stream, 0, 1000, [segment], 1000, 0, true, 3, 2, 0, 10, false);
    assert [segment][1..] == [];
    assert Tiles([segment], 1, s);
  }

  /** An absent acknowledgment number is read as whatever the storage holds. It changes nothing but the window if
      and only if that value unwraps to nothing new or to more than the range test admits; so with nothing in
      flight, which is how a listening peer meets the first SYN, it never does any harm. */
  lemma AbsentAcknoIsHarmless(s: Sender, m: ReceiverMessage, whatever: uint32)
    requires s.Valid()
    ensures var ackno := Unwrap(whatever, s.isn, s.input.popped);
            s.Receive(m.(ackno := Some(whatever))) == s.Receive(m.(ackno := None)) <==>
            (ackno <= s.absAckno || ackno > s.absAckno + InFlight(s.outstanding))
    ensures s.outstanding == [] ==> s.Receive(m.(ackno := Some(whatever))) == s.Receive(m.(ackno := None))
  {
    hide Unwrap, DropAcked;
  }

  /** The window and the error flag have no part in what was sent. */
  lemma WindowUpdateKeeps(s: Sender, m: ReceiverMessage)
    requires s.Valid()
    ensures var u := s.(window := m.window, input := if m.rst then s.input.(error := true) else s.input);
            u.Valid() && Extends(s, u)
  {
    hide InFlight, Faithful, Pow2;
    var u := s.(window := m.window, input := if m.rst then s.input.(error := true) else s.input);
    TilesStay(s.outstanding, s.Base(), s, u);
  }

  /** A number beyond what was sent is ignored, except in the gap. */
  lemma TooFarIsIgnored(s: Sender, ackno: nat)
    requires s.Valid() && ackno > s.absSeqno && !OverAck(s, ackno)
    ensures s.ReceiveAck(ackno) == s
  {
    hide Tiles, Faithful, DropAcked, Unwrap;
  }

  lemma AckUnpacked(s: Sender, m: ReceiverMessage)
    requires s.input.popped < U64
    ensures var u := s.(window := m.window, input := if m.rst then s.input.(error := true) else s.input);
            s.Receive(m) == if m.ackno.None? then u else u.ReceiveAck(Unwrap(m.ackno.value, s.isn, s.input.popped))
  {}

  /** What a whole receiver message does: window and error flag always, the acknowledgment if it is new and
      stays within what was sent. */
  lemma ReceiveKeeps(s: Sender, m: ReceiverMessage)
    requires s.Valid()
    requires m.ackno.Some? ==> !OverAck(s, Unwrap(m.ackno.value, s.isn, s.input.popped))
    ensures var t := s.Receive(m);
            && t.Valid() && Extends(s, t)
            && t.absSeqno == s.absSeqno && t.finSent == s.finSent && t.window == m.window
            && t.input == s.input.(error := s.input.error || m.rst)
            && (forall x :: x in t.outstanding ==> x in s.outstanding)
            && t.absAckno == if m.ackno.None? then s.absAckno
                             else var ackno := Unwrap(m.ackno.value, s.isn, s.input.popped);
                                  if ackno > s.absSeqno then s.absAckno else Max(s.absAckno, ackno)
  {
    hide Unwrap, Sender.Receive, Sender.ReceiveAck, Tiles, Faithful, InFlight, Sender.AckInFront, Sender.TimerConsistent;
    var u := s.(window := m.window, input := if m.rst then s.input.(error := true) else s.input);
    WindowUpdateKeeps(s, m);
    AckUnpacked(s, m);
    if m.ackno.Some? {
      var ackno := Unwrap(m.ackno.value, s.isn, s.input.popped);
      if ackno <= u.absSeqno {
        ReceiveAckKeeps(u, ackno);
      } else {
        TooFarIsIgnored(u, ackno);
      }
    }
  }

  /** A tick sends nothing, or, once the timer has run out, the lowest outstanding segment exactly as it was. */
  lemma TickKeeps(s: Sender, ms: nat)
    requires s.Valid()
    ensures var (t, sent) := s.Tick(ms);
            && t.Valid() && Extends(s, t)
            && t == s.(rto := t.rto, timerTime := t.timerTime, consecutive := t.consecutive)
            && sent == if s.timerOn && s.timerTime + ms >= s.rto then [s.outstanding[0]] else []
  {
    hide Faithful, InFlight, Tiles;
    var (t, sent) := s.Tick(ms);
    TilesStay(s.outstanding, s.Base(), s, t);
    DoubleRto(s.initialRto, s.consecutive);
  }

  lemma DoubleRto(initial: nat, c: nat)
    ensures initial * Pow2(c) * 2 == initial * Pow2(c + 1)
  {}

  /** The stream accepts writes even after closing. What was sent stays sent; the invariant survives exactly when
      no byte is added behind a FIN that is already out. */
  lemma WriteKeeps(s: Sender, data: seq<byte>)
    requires s.Valid() && |s.input.history| + |data| + 2 < U64
    ensures Extends(s, s.Write(data))
    ensures s.Write(data).Valid() <==> !s.finSent || data == [] || s.input.Available() == 0
    ensures s.finSent && s.Write(data).Valid() ==> s.Write(data) == s
  {
    FirstInFirstOut(s.input, data, 0);
    TilesStay(s.outstanding, s.Base(), s, s.Write(data));
    if s.finSent && (data == [] || s.input.Available() == 0) {
      assert s.Write(data).input.history == s.input.history;
    }
  }

  lemma CloseOrFailKeeps(s: Sender)
    requires s.Valid()
    ensures s.Close().Valid() && Extends(s, s.Close())
    ensures s.Fail().Valid() && Extends(s, s.Fail())
  {
    TilesStay(s.outstanding, s.Base(), s, s.Close());
    TilesStay(s.outstanding, s.Base(), s, s.Fail());
  }

  lemma NewSenderIsValid(capacity: nat, isn: uint32, initialRto: nat)
    ensures NewSender(capacity, isn, initialRto).Valid()
  {}

  // ---- The program's object.

  class TCPSender {
    const input: ByteStream
    const isn: uint32
    const initialRto: nat
    var outstanding: seq<SenderMessage>
    var rto: nat
    var timerTime: nat
    var timerOn: bool
    var absSeqno: nat
    var absAckno: nat
    var consecutiveRetransmissions: nat
    var windowSize: nat
    var finSent: bool

    ghost function Model(): Sender
      requires input.Valid()
      reads this, input
    {
      Sender(input.Model(), isn, initialRto, outstanding, rto, timerTime, timerOn, absSeqno, absAckno,
             consecutiveRetransmissions, windowSize, finSent)
    }

    ghost predicate Valid()
      reads this, input
    {
      input.Valid() && Model().Usable()
    }

    constructor (capacity: nat, isn: uint32, initialRto: nat)
      ensures Valid() && Model() == NewSender(capacity, isn, initialRto)
      ensures fresh(input)
    {
      input := new ByteStream(capacity);
      this.isn, this.initialRto := isn, initialRto;
      outstanding := [];
      rto, timerTime, timerOn := initialRto, 0, false;
      absSeqno, absAckno := 0, 0;
      consecutiveRetransmissions, windowSize, finSent := 0, 1, false;
    }

    method SequenceNumbersInFlight() returns (total: nat)
      ensures total == InFlight(outstanding)
    {
      total := 0;
      var temp := outstanding;
      while temp != []
        invariant total + InFlight(temp) == InFlight(outstanding)
        decreases |temp|
      {
        total := total + temp[0].SequenceLength();
        temp := temp[1..];
      }
    }

    /** The segments handed to `transmit`, in order, are returned. */
    method Push() returns (transmitted: seq<SenderMessage>)
      requires Valid()
      modifies this, input
      ensures Valid() && (Model(), transmitted) == old(Model()).Push()
    {
      ghost var before := Model();
      transmitted := [];
      var isLast := false;
      assert transmitted + before.Push().1 == before.Push().1;
      while !isLast
        invariant Valid()
        invariant before.Push() == if isLast then (Model(), transmitted)
                                   else (Model().Push().0, transmitted + Model().Push().1)
        decreases !isLast, Model().input.Buffered()
      {
        hide Sender.NextPush;
        ghost var start := Model();
        var segment: Option<SenderMessage>;
        segment, isLast := PushOnce();
        if segment.None? {
          assert transmitted + [] == transmitted;
          return;
        }
        NextPushShrinks(start);
        Reassociate(transmitted, segment.value, Model().Push().1);
        transmitted := transmitted + [segment.value];
      }
    }

    /** The body of the `push` loop. */
    method PushOnce() returns (segment: Option<SenderMessage>, isLast: bool)
      requires Valid()
      modifies this, input
      ensures Valid()
      ensures segment.None? ==> old(Model()).NextPush().Stop? && Model() == old(Model())
      ensures segment.Some? ==> old(Model()).NextPush() == Transmit(segment.value, Model(), isLast)
    {
      hide InFlight, Sender.Room, Sender.Cut;
      segment, isLast := None, false;
      var remainingWindow := RemainingWindow();
      if remainingWindow == 0 || finSent {
        return;
      }
      var msg;
      msg, isLast := TakeSegment(remainingWindow);
      if msg.SequenceLength() == 0 {
        return;
      }
      segment := Some(msg);
      finSent := msg.fin;
      outstanding := outstanding + [msg];
      absSeqno := absSeqno + msg.SequenceLength();
      if !timerOn {
        timerOn := true;
        timerTime := 0;
      }
    }

    method RemainingWindow() returns (room: nat)
      requires input.Valid()
      ensures room == Model().Room()
    {
      room := 0;
      var inFlight := SequenceNumbersInFlight();
      if windowSize == 0 && inFlight == 0 {
        room := 1;
      } else if inFlight < windowSize {
        room := windowSize - inFlight;
      }
    }

    /** Fills a segment with what the stream and the window allow. */
    method TakeSegment(room: nat) returns (msg: SenderMessage, isLast: bool)
      requires input.Valid() && room == Model().Room() > 0
      modifies input
      ensures input.Valid() && |input.Model().history| == |old(input.Model()).history|
      ensures (msg, input.Model(), isLast) == old(Model()).Cut()
      ensures msg.payload == [] ==> input.Model() == old(input.Model())
    {
      hide Wrap, Sender.Room;
      var seqno := Wrap(absSeqno, isn);
      var syn := absSeqno == 0;
      var remainingWindow := room - (if syn then 1 else 0);
      var rst := input.HasError();
      var buffered := input.BytesBuffered();
      var numBytesToRead := Min(buffered, remainingWindow);
      var len := numBytesToRead;
      isLast := false;
      if numBytesToRead < MAX_PAYLOAD_SIZE {
        isLast := true;
      } else {
        len := MAX_PAYLOAD_SIZE;
      }
      var payload := input.Read(len);
      remainingWindow := Max(0, remainingWindow - len);
      var finished := input.IsFinished();
      var fin := finished && remainingWindow > 0;
      msg := SenderMessage(seqno, syn, payload, fin, rst);
    }

    method MakeEmptyMessage() returns (msg: SenderMessage)
      requires Valid()
      ensures msg == Model().EmptyMessage()
    {
      var rst := input.HasError();
      msg := SenderMessage(Wrap(absSeqno, isn), false, [], false, rst);
    }

    /** An absent acknowledgment number is read as "window only". */
    method Receive(msg: ReceiverMessage)
      requires Valid()
      modifies this, input
      ensures Valid() && Model() == old(Model()).Receive(msg)
    {
      ghost var before := Model();
      ReceiveKeepsUsable(before, msg);
      hide Unwrap, Sender.ReceiveAck;
      if msg.rst {
        input.SetError();
      }
      windowSize := msg.window;
      if msg.ackno.Some? {
        var popped := input.BytesPopped();
        ProcessAck(Unwrap(msg.ackno.value, isn, popped), popped);
      }
      assert Model() == before.Receive(msg);
    }

    method ProcessAck(msgAbsAckno: nat, popped: uint64)
      requires input.Valid() && popped == Model().input.popped
      modifies this
      ensures Model() == old(Model()).ReceiveAck(msgAbsAckno)
    {
      hide Unwrap, DropAcked, InFlight;
      var inFlight := SequenceNumbersInFlight();
      if msgAbsAckno > absAckno + inFlight {
        return;
      }
      if msgAbsAckno > absAckno {
        rto := initialRto;
        timerTime := 0;
        absAckno := msgAbsAckno;
        consecutiveRetransmissions := 0;
        DropAckedSegments(msgAbsAckno, popped);
      }
      inFlight := SequenceNumbersInFlight();
      if inFlight == 0 {
        timerOn := false;
      }
    }

    method DropAckedSegments(ackno: nat, popped: uint64)
      modifies this`outstanding
      ensures outstanding == DropAcked(old(outstanding), ackno, isn, popped)
    {
      var inFlight := SequenceNumbersInFlight();
      while inFlight > 0
        invariant inFlight == InFlight(outstanding)
        invariant DropAcked(old(outstanding), ackno, isn, popped) == DropAcked(outstanding, ackno, isn, popped)
        decreases |outstanding|
      {
        var front := outstanding[0];
        var end := Unwrap(front.seqno, isn, popped) + front.SequenceLength();
        if ackno >= end {
          outstanding := outstanding[1..];
        } else {
          break;
        }
        inFlight := SequenceNumbersInFlight();
      }
    }

    method Tick(msSinceLastTick: nat) returns (transmitted: seq<SenderMessage>)
      requires Valid()
      modifies this
      ensures Valid() && (Model(), transmitted) == old(Model()).Tick(msSinceLastTick)
    {
      transmitted := [];
      if !timerOn {
        return;
      }
      timerTime := timerTime + msSinceLastTick;
      if timerTime >= rto {
        transmitted := [outstanding[0]];
        if windowSize > 0 {
          consecutiveRetransmissions := consecutiveRetransmissions + 1;
          rto := rto * 2;
        }
        timerTime := 0;
      }
    }
  }
}
