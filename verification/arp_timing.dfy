/** Pacing of address requests and freshness of addresses, over every run of an interface
    (src/network_interface.cc; section 2.3.2 of RFC 1122). */
module ArpTiming {
  import opened MachineTypes
  import opened Ipv4
  import opened NetworkInterfaces

  // ---- Requests for the same address are more than five seconds apart.

  predicate IsRequestFor(e: Emission, hop: uint32) {
    e.sent.hop == hop && e.sent.frame.body.Arp? && e.sent.frame.body.message.opcode == Request
  }

  ghost predicate Apart(emitted: seq<Emission>, hop: uint32) {
    forall j, k :: 0 <= j < k < |emitted| && IsRequestFor(emitted[j], hop) && IsRequestFor(emitted[k], hop) ==>
      emitted[k].at - emitted[j].at > REQUEST_MS
  }

  /** Past requests are no newer than the pending one; with none pending, all are more than five seconds old. */
  ghost predicate Settled(i: Interface, emitted: seq<Emission>, hop: uint32) {
    forall j :: 0 <= j < |emitted| && IsRequestFor(emitted[j], hop) ==>
      if hop in i.requests then emitted[j].at <= i.requests[hop] else i.now - emitted[j].at > REQUEST_MS
  }

  lemma StepRequests(i: Interface, op: Op, hop: uint32)
    requires i.Valid()
    ensures var sent := At(i.now, Step(i, op).1);
            forall j :: 0 <= j < |sent| && IsRequestFor(sent[j], hop) ==>
              |sent| == 1 && hop !in i.requests && hop in Step(i, op).0.requests && Step(i, op).0.requests[hop] == i.now
  {
    hide At, Interface.Flushed;
  }

  lemma StepKeepsPacing(i: Interface, op: Op, hop: uint32, before: seq<Emission>)
    requires i.Valid() && Apart(before, hop) && Settled(i, before, hop)
    ensures var after := before + At(i.now, Step(i, op).1);
            Apart(after, hop) && Settled(Step(i, op).0, after, hop)
  {
    StepRequests(i, op, hop);
    hide At, Interface.SendDatagram, Interface.RecvFrame;
    RequestsMove(i, op, hop);
  }

  /** A pending request stays until a tick finds it more than five seconds old. */
  lemma RequestsMove(i: Interface, op: Op, hop: uint32)
    ensures var i' := Step(i, op).0;
            && i'.now >= i.now
            && (hop in i.requests ==>
                  if hop in i'.requests then i'.requests[hop] == i.requests[hop]
                  else i'.now - i.requests[hop] > REQUEST_MS)
            && (hop in i'.requests && hop !in i.requests ==> i'.requests[hop] == i.now)
  {
    hide Interface.Flushed;
  }

  lemma {:induction false} RunKeepsPacing(i: Interface, ops: seq<Op>, hop: uint32)
    requires i.Valid()
    ensures Apart(Emitted(i, ops), hop) && Settled(After(i, ops), Emitted(i, ops), hop)
  {
    hide Step, At, Apart, Settled;
    if ops == [] {
      NothingEmitted(i, hop);
    } else {
      var front, op := ops[..|ops| - 1], ops[|ops| - 1];
      RunKeepsPacing(i, front, hop);
      RunKeepsValid(i, front);
      StepKeepsPacing(After(i, front), op, hop, Emitted(i, front));
    }
  }

  lemma NothingEmitted(i: Interface, hop: uint32)
    ensures Apart([], hop) && Settled(i, [], hop)
  {}

  /** Pacing: in every run, any two requests broadcast for the same address are more than 5000 ms apart. */
  lemma RequestsArePaced(ethernet: EthernetAddress, ip: uint32, ops: seq<Op>, hop: uint32, j: nat, k: nat)
    requires var emitted := Emitted(NewInterface(ethernet, ip), ops);
             j < k < |emitted| && IsRequestFor(emitted[j], hop) && IsRequestFor(emitted[k], hop)
    ensures var emitted := Emitted(NewInterface(ethernet, ip), ops);
            emitted[k].at - emitted[j].at > REQUEST_MS
  {
    RunKeepsPacing(NewInterface(ethernet, ip), ops, hop);
  }

  // ---- Every datagram goes to the address announced last, and recently.

  /** The time after a run: the ticks added up. */
  function Clock(ops: seq<Op>): nat {
    if ops == [] then 0
    else
      var last := ops[|ops| - 1];
      Clock(ops[..|ops| - 1]) + if last.TickOp? then last.ms else 0
  }

  /** The frame announces an address for `hop` to the interface with address `ethernet`. */
  predicate Announces(f: Frame, ethernet: EthernetAddress, hop: uint32) {
    (f.dst == ethernet || f.dst == ETHERNET_BROADCAST) && f.body.Arp? && f.body.message.senderIp == hop
  }

  /** The address announced last for `hop` in a run, and when. */
  function LastAnnounced(ethernet: EthernetAddress, ops: seq<Op>, hop: uint32): Option<ArpEntry> {
    if ops == [] then None
    else
      var front, last := ops[..|ops| - 1], ops[|ops| - 1];
      if last.RecvOp? && Announces(last.frame, ethernet, hop) then
        Some(ArpEntry(last.frame.body.message.senderEthernet, Clock(front)))
      else LastAnnounced(ethernet, front, hop)
  }

  lemma StepFollowsAnnouncements(i: Interface, op: Op, hop: uint32)
    ensures var i' := Step(i, op).0;
            && i'.ethernet == i.ethernet
            && i'.now == i.now + (if op.TickOp? then op.ms else 0)
            && (op.RecvOp? && Announces(op.frame, i.ethernet, hop) ==>
                  hop in i'.cache && i'.cache[hop] == ArpEntry(op.frame.body.message.senderEthernet, i.now))
            && (!(op.RecvOp? && Announces(op.frame, i.ethernet, hop)) ==>
                  && (hop in i'.cache <==>
                        hop in i.cache && (op.TickOp? ==> i'.now - i.cache[hop].timeCreated <= CACHE_MS))
                  && (hop in i'.cache ==> i'.cache[hop] == i.cache[hop]))
  {
    hide Interface.Flushed;
  }

  /** The cache holds exactly the last announcements that are no older than 30 seconds. */
  lemma {:induction false} CacheIsLastAnnounced(ethernet: EthernetAddress, ip: uint32, ops: seq<Op>, hop: uint32)
    ensures var i := After(NewInterface(ethernet, ip), ops);
            var last := LastAnnounced(ethernet, ops, hop);
            && i.ethernet == ethernet && i.now == Clock(ops)
            && (last.Some? ==> last.value.timeCreated <= Clock(ops))
            && (hop in i.cache <==> last.Some? && Clock(ops) - last.value.timeCreated <= CACHE_MS)
            && (hop in i.cache ==> i.cache[hop] == last.value)
  {
    hide Step;
    if ops != [] {
      var front := ops[..|ops| - 1];
      CacheIsLastAnnounced(ethernet, ip, front, hop);
      StepFollowsAnnouncements(After(NewInterface(ethernet, ip), front), ops[|ops| - 1], hop);
    }
  }

  /** Where a step may send a datagram: to the address in the cache after it. */
  lemma DatagramsGoToTheCache(i: Interface, op: Op, k: nat)
    requires i.Valid() && k < |Step(i, op).1| && Step(i, op).1[k].frame.body.IPv4?
    ensures var (i', sent) := Step(i, op);
            sent[k].hop in i'.cache && sent[k].frame.dst == i'.cache[sent[k].hop].ethernet
  {}

  /** Freshness: after any run, every IPv4 frame the last operation transmits goes to the Ethernet address
      announced last by the neighbour it is for, and that announcement is at most 30000 ms old. */
  lemma DatagramsGoToFreshAddresses(ethernet: EthernetAddress, ip: uint32, ops: seq<Op>, op: Op, k: nat)
    requires var sent := Step(After(NewInterface(ethernet, ip), ops), op).1;
             k < |sent| && sent[k].frame.body.IPv4?
    ensures var s := Step(After(NewInterface(ethernet, ip), ops), op).1[k];
            var last := LastAnnounced(ethernet, ops + [op], s.hop);
            && last.Some? && s.frame.dst == last.value.ethernet
            && last.value.timeCreated <= Clock(ops + [op]) <= last.value.timeCreated + CACHE_MS
  {
    hide Step;
    var i := NewInterface(ethernet, ip);
    var all := ops + [op];
    assert all[..|all| - 1] == ops && all[|all| - 1] == op;
    RunKeepsValid(i, ops);
    RunKeepsValid(i, all);
    var s := Step(After(i, ops), op).1[k];
    DatagramsGoToTheCache(After(i, ops), op, k);
    CacheIsLastAnnounced(ethernet, ip, all, s.hop);
  }

  // ---- The exchange itself.

  /** What the parser at the other end makes of a transmitted frame. `Ipv4.ParseSerialized` shows that a datagram
      comes back if and only if it survives the wire. */
  ghost predicate Heard(sent: Frame, heard: Frame) {
    && heard.dst == sent.dst && heard.src == sent.src
    && match sent.body
       case IPv4(d) =>
         && !heard.body.Arp?
         && (SurvivesWire(d) <==> heard.body.IPv4? && SameDatagram(heard.body.datagram, d))
       case _ => heard.body == sent.body
  }

  /** `d` has been received between the two states, and nothing else. */
  ghost predicate Arrived(before: Interface, after: Interface, d: Datagram) {
    && |after.received| == |before.received| + 1 && before.received <= after.received
    && SameDatagram(after.received[|before.received|], d)
  }

  /** Two interfaces on one wire: the first asks for the second's address and learns it from the reply, and the second
      has learnt the first's on the way. Then the waiting datagram is transmitted, and it arrives if and only if it
      survives the wire; one of another IP version throws instead, and stays. */
  lemma AddressIsResolved(a: Interface, b: Interface, d: Datagram)
    requires b.ip !in a.cache && b.ip !in a.requests && a.ip !in b.waiting
    ensures var (a1, asked) := a.SendDatagram(d, b.ip);
            && |asked| == 1
            && var (b1, answered) := b.RecvFrame(asked[0].frame);
            && |answered| == 1
            && var (a2, sent) := a1.RecvFrame(answered[0].frame);
            && a2.cache == a.cache[b.ip := ArpEntry(b.ethernet, a.now)]
            && b1.cache == b.cache[a.ip := ArpEntry(a.ethernet, b.now)]
            && (!Serializable(d) ==> a1.RecvThrows(answered[0].frame) && sent == [] && a2.Queue(b.ip) == [d])
            && (Serializable(d) ==>
                  && |sent| == 1 && a2.Queue(b.ip) == []
                  && forall heard :: Heard(sent[0].frame, heard) ==>
                       var (b2, nothing) := b1.RecvFrame(heard);
                       nothing == [] && b2.cache == b1.cache && (Arrived(b, b2, d) <==> SurvivesWire(d)))
  {
    hide SurvivesWire, SameDatagram;
    var (a1, asked) := a.SendDatagram(d, b.ip);
    var (b1, answered) := b.RecvFrame(asked[0].frame);
    assert b.Queue(a.ip) == [] && answered == [b.ReplyTo(asked[0].frame.body.message)];
    assert a1.Queue(b.ip) == [d] && [d][..1] == [d] && [d][1..] == [] && [d][0..] == [d];
    assert Sendable([d]) == if Serializable(d) then 1 else 0;
    var (a2, sent) := a1.RecvFrame(answered[0].frame);
    if Serializable(d) {
      assert sent == [a1.DatagramTo(b.ip, b.ethernet, d)];
      forall heard | Heard(sent[0].frame, heard)
        ensures Arrived(b, b1.RecvFrame(heard).0, d) <==> SurvivesWire(d)
      {
        assert b1.RecvFrame(heard).0.received == if heard.body.IPv4? then b.received + [heard.body.datagram] else b.received;
      }
    } else {
      assert a1.Flushed(b.ip, b.ethernet, []) == [];
    }
  }
}
