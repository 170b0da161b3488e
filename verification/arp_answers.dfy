/** What an interface says about itself, over every run: whom it answers, and what its messages contain
    (src/network_interface.cc; section 2.3.2 of RFC 1122). */
module ArpAnswers {
  import opened MachineTypes
  import opened Ipv4
  import opened NetworkInterfaces
  import opened ArpTiming

  predicate IsReply(e: Emission) {
    e.sent.frame.body.Arp? && e.sent.frame.body.message.opcode == Reply
  }

  /** The replies among what was transmitted, in order. */
  function RepliesIn(emitted: seq<Emission>): seq<Emission> {
    if emitted == [] then []
    else (if IsReply(emitted[0]) then [emitted[0]] else []) + RepliesIn(emitted[1..])
  }

  /** A request for the address `ip`, in a frame that reaches the interface with address `ethernet`. */
  predicate AsksFor(f: Frame, ethernet: EthernetAddress, ip: uint32) {
    && (f.dst == ethernet || f.dst == ETHERNET_BROADCAST)
    && f.body.Arp? && f.body.message.opcode == Request && f.body.message.targetIp == ip
  }

  /** The answer to whoever asks: our own addresses as sender, the asker's as target, to the asker alone. */
  function AnswerTo(asked: ArpMessage, ethernet: EthernetAddress, ip: uint32): Sent {
    var answer := ArpMessage(
      opcode := Reply,
      senderEthernet := ethernet, senderIp := ip,
      targetEthernet := asked.senderEthernet, targetIp := asked.senderIp);
    Sent(asked.senderIp, Frame(dst := asked.senderEthernet, src := ethernet, body := Arp(answer)))
  }

  /** The answers that a run calls for, read off the operations alone. */
  function AnswersDue(ethernet: EthernetAddress, ip: uint32, ops: seq<Op>): seq<Emission> {
    if ops == [] then []
    else
      var front, last := ops[..|ops| - 1], ops[|ops| - 1];
      AnswersDue(ethernet, ip, front)
      + if last.RecvOp? && AsksFor(last.frame, ethernet, ip)
        then [Emission(Clock(front), AnswerTo(last.frame.body.message, ethernet, ip))] else []
  }

  lemma {:induction false} RepliesInConcat(a: seq<Emission>, b: seq<Emission>)
    ensures RepliesIn(a + b) == RepliesIn(a) + RepliesIn(b)
  {
    if a == [] {
      assert a + b == b;
    } else {
      assert (a + b)[0] == a[0] && (a + b)[1..] == a[1..] + b;
      RepliesInConcat(a[1..], b);
    }
  }

  lemma {:induction false} NoReplies(emitted: seq<Emission>)
    requires forall k :: 0 <= k < |emitted| ==> !IsReply(emitted[k])
    ensures RepliesIn(emitted) == []
  {
    if emitted != [] {
      NoReplies(emitted[1..]);
    }
  }

  lemma StepAnswers(i: Interface, op: Op)
    ensures RepliesIn(At(i.now, Step(i, op).1)) ==
              if op.RecvOp? && AsksFor(op.frame, i.ethernet, i.ip)
              then [Emission(i.now, AnswerTo(op.frame.body.message, i.ethernet, i.ip))] else []
  {
    hide At, Interface.Flushed, Sendable, RepliesIn, Interface.SendDatagram, Interface.Unsent;
    match op
    case TickOp(ms) => NoReplies(At(i.now, []));
    case SendOp(d, hop) => SendAnswersNobody(i, d, hop);
    case RecvOp(f) =>
      if i.Accepts(f) && f.body.Arp? {
        ArpAnswersOnce(i, f.body.message);
      } else {
        NoReplies(At(i.now, []));
      }
  }

  lemma SendAnswersNobody(i: Interface, d: Datagram, hop: uint32)
    ensures RepliesIn(At(i.now, i.SendDatagram(d, hop).1)) == []
  {
    hide At, RepliesIn;
    NoReplies(At(i.now, i.SendDatagram(d, hop).1));
  }

  lemma ArpAnswersOnce(i: Interface, m: ArpMessage)
    ensures RepliesIn(At(i.now, i.RecvArp(m).1)) ==
              if m.opcode == Request && m.targetIp == i.ip then [Emission(i.now, AnswerTo(m, i.ethernet, i.ip))] else []
  {
    hide At, Interface.Flushed, Sendable, RepliesIn, Interface.Unsent, Interface.Queue;
    var queue := i.Queue(m.senderIp);
    var flushed := i.Flushed(m.senderIp, m.senderEthernet, queue[..Sendable(queue)]);
    var answer := AnswerTo(m, i.ethernet, i.ip);
    NoReplies(At(i.now, flushed));
    assert [] + flushed == flushed;
    FirstIsReply(i.now, answer, flushed);
  }

  lemma FirstIsReply(now: nat, answer: Sent, others: seq<Sent>)
    requires IsReply(Emission(now, answer)) && RepliesIn(At(now, others)) == []
    ensures RepliesIn(At(now, [answer] + others)) == [Emission(now, answer)]
  {
    assert ([answer] + others)[1..] == others;
    assert At(now, [answer] + others)[1..] == At(now, others);
  }

  lemma {:induction false} RunKeepsAddresses(ethernet: EthernetAddress, ip: uint32, ops: seq<Op>)
    ensures var i := After(NewInterface(ethernet, ip), ops);
            i.ethernet == ethernet && i.ip == ip && i.now == Clock(ops)
  {
    if ops != [] {
      hide Interface.Flushed, Interface.Unsent, Sendable;
      RunKeepsAddresses(ethernet, ip, ops[..|ops| - 1]);
    }
  }

  /** In every run the replies transmitted are exactly one for each request that reaches the interface and asks for its
      own address, in order and at once. A request for anybody else's address is not answered. */
  lemma {:induction false} RepliesAreAnswersDue(ethernet: EthernetAddress, ip: uint32, ops: seq<Op>)
    ensures RepliesIn(Emitted(NewInterface(ethernet, ip), ops)) == AnswersDue(ethernet, ip, ops)
  {
    hide Step, At, AnswerTo, AsksFor;
    if ops == [] {
      NoReplies([]);
    } else {
      var i := NewInterface(ethernet, ip);
      var front, op := ops[..|ops| - 1], ops[|ops| - 1];
      RepliesAreAnswersDue(ethernet, ip, front);
      RunKeepsAddresses(ethernet, ip, front);
      var before := After(i, front);
      StepAnswers(before, op);
      RepliesInConcat(Emitted(i, front), At(before.now, Step(before, op).1));
    }
  }

  /** And every request transmitted in a run is a broadcast that asks for the next hop with the interface's own
      addresses. */
  lemma {:induction false} RequestsAskForTheHop(ethernet: EthernetAddress, ip: uint32, ops: seq<Op>, k: nat)
    requires var emitted := Emitted(NewInterface(ethernet, ip), ops);
             k < |emitted| && emitted[k].sent.frame.body.Arp? && emitted[k].sent.frame.body.message.opcode == Request
    ensures var sent := Emitted(NewInterface(ethernet, ip), ops)[k].sent;
            sent.frame == Frame(dst := ETHERNET_BROADCAST, src := ethernet,
                                body := Arp(ArpMessage(opcode := Request, senderEthernet := ethernet, senderIp := ip,
                                                       targetEthernet := 0, targetIp := sent.hop)))
  {
    hide At, Interface.Flushed, Sendable, Interface.Unsent;
    if ops != [] {
      var i := NewInterface(ethernet, ip);
      var front := ops[..|ops| - 1];
      RunKeepsAddresses(ethernet, ip, front);
      if k < |Emitted(i, front)| {
        RequestsAskForTheHop(ethernet, ip, front, k);
      }
    }
  }

  /** The datagrams that reach the interface in a run, in order: those in frames to its own address or to all. */
  function Addressed(ethernet: EthernetAddress, ops: seq<Op>): seq<Datagram> {
    if ops == [] then []
    else
      var last := ops[|ops| - 1];
      Addressed(ethernet, ops[..|ops| - 1])
      + if last.RecvOp? && last.frame.body.IPv4? && last.frame.dst in {ethernet, ETHERNET_BROADCAST}
        then [last.frame.body.datagram] else []
  }

  /** Nothing else is handed up, and nothing of it is left out. */
  lemma {:induction false} ReceivedIsAddressed(ethernet: EthernetAddress, ip: uint32, ops: seq<Op>)
    ensures After(NewInterface(ethernet, ip), ops).received == Addressed(ethernet, ops)
  {
    if ops != [] {
      hide Interface.Flushed, Interface.Unsent, Sendable;
      RunKeepsAddresses(ethernet, ip, ops[..|ops| - 1]);
      ReceivedIsAddressed(ethernet, ip, ops[..|ops| - 1]);
    }
  }
}
