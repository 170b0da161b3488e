/** Between IP and Ethernet: address resolution, and the datagrams that wait for it
    (src/network_interface.hh, src/network_interface.cc). */
module NetworkInterfaces {
  import opened MachineTypes
  import opened Ipv4

  type EthernetAddress = n: int | 0 <= n < 0x1_0000_0000_0000
  const ETHERNET_BROADCAST: EthernetAddress := 0xffff_ffff_ffff

  const CACHE_MS: nat := 30000
  const REQUEST_MS: nat := 5000

  datatype Opcode = Request | Reply

  datatype ArpMessage = ArpMessage(
    opcode: Opcode,
    senderEthernet: EthernetAddress,
    senderIp: uint32,
    targetEthernet: EthernetAddress,
    targetIp: uint32)

  /** A frame's payload as its type and its parser see it; `Other` is any other type, or what does not parse. */
  datatype Body = IPv4(datagram: Datagram) | Arp(message: ArpMessage) | Other

  datatype Frame = Frame(dst: EthernetAddress, src: EthernetAddress, body: Body)

  /** A transmitted frame, and the neighbour it is meant for. */
  datatype Sent = Sent(hop: uint32, frame: Frame)

  datatype ArpEntry = ArpEntry(ethernet: EthernetAddress, timeCreated: nat)

  /** Serialising a datagram of another IP version throws. */
  predicate Serializable(d: Datagram) {
    d.header.ver == 4
  }

  /** How many datagrams at the front of a queue can be sent before serialising one throws. */
  function Sendable(queue: seq<Datagram>): (n: nat)
    ensures n <= |queue| && (n < |queue| ==> !Serializable(queue[n]))
    ensures forall k :: 0 <= k < n ==> Serializable(queue[k])
  {
    if queue == [] || !Serializable(queue[0]) then 0 else 1 + Sendable(queue[1..])
  }

  datatype Interface = Interface(
    ethernet: EthernetAddress,
    ip: uint32,
    received: seq<Datagram>,
    waiting: map<uint32, seq<Datagram>>,
    requests: map<uint32, nat>,
    cache: map<uint32, ArpEntry>,
    now: nat)
  {
    function RequestFor(hop: uint32): Sent {
      Sent(hop, Frame(ETHERNET_BROADCAST, ethernet, Arp(ArpMessage(Request, ethernet, ip, 0, hop))))
    }

    function DatagramTo(hop: uint32, dst: EthernetAddress, d: Datagram): Sent {
      Sent(hop, Frame(dst, ethernet, IPv4(d)))
    }

    /** The datagrams waiting for an address, none if there is no queue. */
    function Queue(hop: uint32): seq<Datagram> {
      if hop in waiting then waiting[hop] else []
    }

    function SendDatagram(d: Datagram, hop: uint32): (Interface, seq<Sent>) {
      if hop in cache then (this, if Serializable(d) then [DatagramTo(hop, cache[hop].ethernet, d)] else [])
      else if hop in requests then (this.(waiting := waiting[hop := Queue(hop) + [d]]), [])
      else (this.(waiting := waiting[hop := [d]], requests := requests[hop := now]), [RequestFor(hop)])
    }

    predicate SendThrows(d: Datagram, hop: uint32) {
      hop in cache && !Serializable(d)
    }

    predicate Accepts(f: Frame) {
      f.dst == ethernet || f.dst == ETHERNET_BROADCAST
    }

    function RecvFrame(f: Frame): (Interface, seq<Sent>) {
      if !Accepts(f) || f.body.Other? then (this, [])
      else if f.body.IPv4? then (this.(received := received + [f.body.datagram]), [])
      else RecvArp(f.body.message)
    }

    function RecvArp(m: ArpMessage): (Interface, seq<Sent>) {
      var replies := if m.opcode == Request && m.targetIp == ip then [ReplyTo(m)] else [];
      var queue := Queue(m.senderIp);
      (this.(cache := cache[m.senderIp := ArpEntry(m.senderEthernet, now)], waiting := Unsent(m.senderIp)),
       replies + Flushed(m.senderIp, m.senderEthernet, queue[..Sendable(queue)]))
    }

    /** What waits after a queue is flushed: nothing for that address, or the datagram that throws and those behind. */
    function Unsent(hop: uint32): map<uint32, seq<Datagram>> {
      var queue := Queue(hop);
      if Sendable(queue) == |queue| then waiting - {hop} else waiting[hop := queue[Sendable(queue)..]]
    }

    predicate RecvThrows(f: Frame) {
      Accepts(f) && f.body.Arp? && Sendable(Queue(f.body.message.senderIp)) < |Queue(f.body.message.senderIp)|
    }

    function ReplyTo(m: ArpMessage): Sent {
      Sent(m.senderIp, Frame(m.senderEthernet, ethernet,
                             Arp(ArpMessage(Reply, ethernet, ip, m.senderEthernet, m.senderIp))))
    }

    /** The queue as frames, in order. */
    function Flushed(hop: uint32, dst: EthernetAddress, queue: seq<Datagram>): (r: seq<Sent>)
      ensures |r| == |queue| && forall k :: 0 <= k < |r| ==> r[k] == DatagramTo(hop, dst, queue[k])
    {
      if queue == [] then [] else [DatagramTo(hop, dst, queue[0])] + Flushed(hop, dst, queue[1..])
    }

    function Tick(ms: nat): Interface {
      var t := now + ms;
      var expired := set hop | hop in requests && t - requests[hop] > REQUEST_MS;
      this.(now := t,
            cache := map hop | hop in cache && t - cache[hop].timeCreated <= CACHE_MS :: cache[hop],
            waiting := waiting - expired,
            requests := requests - expired)
    }

    // ---- What the three maps always satisfy.

    /** Queues wait only for addresses asked for and, unless the first datagram of the queue cannot be serialised,
        not known; a request without a queue has been answered, and the answer, being at least as new, outlives it
        because 30000 > 5000. */
    ghost predicate Valid() {
      && waiting.Keys <= requests.Keys
      && (forall hop :: hop in waiting ==> waiting[hop] != [] && (hop in cache ==> !Serializable(waiting[hop][0])))
      && (forall hop :: hop in requests && hop !in waiting ==>
            hop in cache && cache[hop].timeCreated >= requests[hop])
      && (forall hop :: hop in requests ==> requests[hop] <= now <= requests[hop] + REQUEST_MS)
      && (forall hop :: hop in cache ==> cache[hop].timeCreated <= now <= cache[hop].timeCreated + CACHE_MS)
    }
  }

  function NewInterface(ethernet: EthernetAddress, ip: uint32): Interface {
    Interface(ethernet, ip, [], map[], map[], map[], 0)
  }

  // ---- Runs.

  datatype Op = SendOp(datagram: Datagram, hop: uint32) | RecvOp(frame: Frame) | TickOp(ms: nat)

  function Step(i: Interface, op: Op): (Interface, seq<Sent>) {
    match op
    case SendOp(d, hop) => i.SendDatagram(d, hop)
    case RecvOp(f) => i.RecvFrame(f)
    case TickOp(ms) => (i.Tick(ms), [])
  }

  /** The consistency of the three maps survives every operation. */
  lemma StepKeepsValid(i: Interface, op: Op)
    requires i.Valid()
    ensures Step(i, op).0.Valid()
  {
    hide Interface.Valid, Interface.SendDatagram, Interface.RecvFrame, Interface.Tick;
    match op
    case SendOp(d, hop) => SendKeepsValid(i, d, hop);
    case RecvOp(f) => RecvKeepsValid(i, f);
    case TickOp(ms) => TickKeepsValid(i, ms);
  }

  lemma SendKeepsValid(i: Interface, d: Datagram, hop: uint32)
    requires i.Valid()
    ensures i.SendDatagram(d, hop).0.Valid()
  {}

  lemma RecvKeepsValid(i: Interface, f: Frame)
    requires i.Valid()
    ensures i.RecvFrame(f).0.Valid()
  {
    hide Interface.Flushed, Sendable;
  }

  /** The answer to a request outlives the request: its entry expires at least 25 seconds later. */
  lemma TickKeepsValid(i: Interface, ms: nat)
    requires i.Valid()
    ensures i.Tick(ms).Valid()
  {}

  /** The interface `i` after a run. */
  function After(i: Interface, ops: seq<Op>): Interface {
    if ops == [] then i else Step(After(i, ops[..|ops| - 1]), ops[|ops| - 1]).0
  }

  datatype Emission = Emission(at: nat, sent: Sent)

  function At(time: nat, sent: seq<Sent>): (r: seq<Emission>)
    ensures |r| == |sent| && forall k :: 0 <= k < |r| ==> r[k] == Emission(time, sent[k])
  {
    if sent == [] then [] else [Emission(time, sent[0])] + At(time, sent[1..])
  }

  /** Everything transmitted in a run, in order, with the time. */
  function Emitted(i: Interface, ops: seq<Op>): seq<Emission> {
    if ops == [] then []
    else
      var before := After(i, ops[..|ops| - 1]);
      Emitted(i, ops[..|ops| - 1]) + At(before.now, Step(before, ops[|ops| - 1]).1)
  }

  lemma {:induction false} RunKeepsValid(i: Interface, ops: seq<Op>)
    requires i.Valid()
    ensures After(i, ops).Valid()
  {
    if ops != [] {
      RunKeepsValid(i, ops[..|ops| - 1]);
      StepKeepsValid(After(i, ops[..|ops| - 1]), ops[|ops| - 1]);
    }
  }

  // ---- Conservation and order.

  /** The IPv4 datagrams transmitted to a neighbour, in order. */
  function DatagramsTo(hop: uint32, emitted: seq<Emission>): seq<Datagram> {
    if emitted == [] then []
    else
      var first := emitted[0].sent;
      (if first.hop == hop && first.frame.body.IPv4? then [first.frame.body.datagram] else [])
      + DatagramsTo(hop, emitted[1..])
  }

  /** The queue for `hop` is thrown away by a tick of `ms`. */
  predicate Drops(i: Interface, hop: uint32, ms: nat) {
    hop in i.requests && i.now + ms - i.requests[hop] > REQUEST_MS
  }

  /** The datagrams submitted for a neighbour, minus the whole queue each time its request expires. */
  function Kept(i: Interface, ops: seq<Op>, hop: uint32): seq<Datagram> {
    if ops == [] then []
    else
      var before, kept := After(i, ops[..|ops| - 1]), Kept(i, ops[..|ops| - 1], hop);
      match ops[|ops| - 1]
      case SendOp(d, h) => if h == hop then kept + [d] else kept
      case RecvOp(_) => kept
      case TickOp(ms) => if Drops(before, hop, ms) then kept[..Max(|kept| - |before.Queue(hop)|, 0)] else kept
  }

  lemma {:induction false} DatagramsToConcat(hop: uint32, a: seq<Emission>, b: seq<Emission>)
    ensures DatagramsTo(hop, a + b) == DatagramsTo(hop, a) + DatagramsTo(hop, b)
  {
    if a == [] {
      assert a + b == b;
    } else {
      assert (a + b)[1..] == a[1..] + b;
      DatagramsToConcat(hop, a[1..], b);
    }
  }

  lemma {:induction false} FlushedInOrder(i: Interface, hop: uint32, dst: EthernetAddress, queue: seq<Datagram>, h: uint32)
    ensures DatagramsTo(h, At(i.now, i.Flushed(hop, dst, queue))) == if h == hop then queue else []
  {
    if queue != [] {
      var first := [i.DatagramTo(hop, dst, queue[0])];
      var rest := i.Flushed(hop, dst, queue[1..]);
      assert (first + rest)[1..] == rest;
      assert At(i.now, first + rest)[1..] == At(i.now, rest);
      FlushedInOrder(i, hop, dst, queue[1..], h);
    }
  }

  /** What one step transmits to a neighbour plus what it leaves waiting is what waited plus what was submitted. */
  ghost predicate Conserves(i: Interface, op: Op, hop: uint32) {
    var (i', sent) := Step(i, op);
    DatagramsTo(hop, At(i.now, sent)) + i'.Queue(hop) ==
      (if op.TickOp? && Drops(i, hop, op.ms) then [] else i.Queue(hop))
      + (if op.SendOp? && op.hop == hop then [op.datagram] else [])
  }

  /** The one way to lose or overtake: a datagram for a known address that cannot be serialised, or that finds a
      queue still waiting there, blocked by such a datagram. */
  predicate Misplaces(i: Interface, op: Op, hop: uint32) {
    op.SendOp? && op.hop == hop && hop in i.cache && (!Serializable(op.datagram) || i.Queue(hop) != [])
  }

  lemma SendConserves(i: Interface, d: Datagram, h: uint32, hop: uint32)
    requires i.Valid()
    ensures Conserves(i, SendOp(d, h), hop) <==> !Misplaces(i, SendOp(d, h), hop)
  {
    hide DatagramsTo, At;
    Single(i, i.RequestFor(h), hop);
    NothingSent(i, hop);
    if h in i.cache {
      var queue := i.Queue(h);
      Single(i, i.DatagramTo(h, i.cache[h].ethernet, d), hop);
      assert [] + queue == queue && |queue + [d]| == |queue| + 1;
      assert queue != [] ==> ([d] + queue)[0] == d && (queue + [d])[0] == queue[0];
      assert queue == [] ==> [d] + queue == queue + [d];
    }
  }

  lemma NothingSent(i: Interface, hop: uint32)
    ensures DatagramsTo(hop, At(i.now, [])) == []
  {}

  lemma RecvConserves(i: Interface, f: Frame, hop: uint32)
    requires i.Valid()
    ensures Conserves(i, RecvOp(f), hop)
  {
    hide DatagramsTo, At, Interface.RecvArp, Interface.Valid;
    NothingSent(i, hop);
    if i.Accepts(f) && f.body.Arp? {
      ArpConserves(i, f.body.message, hop);
    }
    assert i.Queue(hop) + [] == i.Queue(hop) == [] + i.Queue(hop);
  }

  lemma ArpConserves(i: Interface, m: ArpMessage, hop: uint32)
    ensures DatagramsTo(hop, At(i.now, i.RecvArp(m).1)) + i.RecvArp(m).0.Queue(hop) == i.Queue(hop)
  {
    hide DatagramsTo, At, Interface.RecvArp, Sendable, Interface.Queue;
    var queue := i.Queue(m.senderIp);
    ArpSends(i, m, hop);
    UnsentQueue(i, m, hop);
    assert queue[..Sendable(queue)] + queue[Sendable(queue)..] == queue;
    assert [] + i.Queue(hop) == i.Queue(hop);
  }

  lemma ArpSends(i: Interface, m: ArpMessage, hop: uint32)
    ensures var queue := i.Queue(m.senderIp);
            DatagramsTo(hop, At(i.now, i.RecvArp(m).1)) == if hop == m.senderIp then queue[..Sendable(queue)] else []
  {
    hide DatagramsTo, At, Interface.Flushed, Sendable, Interface.Queue, Interface.Unsent, Interface.ReplyTo;
    var queue := i.Queue(m.senderIp);
    var flushed := i.Flushed(m.senderIp, m.senderEthernet, queue[..Sendable(queue)]);
    FlushedInOrder(i, m.senderIp, m.senderEthernet, queue[..Sendable(queue)], hop);
    ReplyIsNoDatagram(i, m, flushed, hop);
    assert [] + flushed == flushed;
  }

  lemma UnsentQueue(i: Interface, m: ArpMessage, hop: uint32)
    ensures var queue := i.Queue(m.senderIp);
            i.RecvArp(m).0.Queue(hop) == if hop == m.senderIp then queue[Sendable(queue)..] else i.Queue(hop)
  {
    hide Interface.Flushed, Sendable;
  }

  lemma ReplyIsNoDatagram(i: Interface, m: ArpMessage, more: seq<Sent>, hop: uint32)
    ensures DatagramsTo(hop, At(i.now, [i.ReplyTo(m)] + more)) == DatagramsTo(hop, At(i.now, more))
  {
    assert ([i.ReplyTo(m)] + more)[1..] == more;
    assert At(i.now, [i.ReplyTo(m)] + more)[1..] == At(i.now, more);
  }

  lemma StepConserves(i: Interface, op: Op, hop: uint32)
    requires i.Valid()
    ensures Conserves(i, op, hop) <==> !Misplaces(i, op, hop)
  {
    hide At, DatagramsTo, Interface.SendDatagram, Interface.RecvFrame;
    match op
    case SendOp(d, h) => SendConserves(i, d, h, hop);
    case RecvOp(f) => RecvConserves(i, f, hop);
    case TickOp(ms) => NothingSent(i, hop);
  }

  lemma Single(i: Interface, s: Sent, hop: uint32)
    ensures DatagramsTo(hop, At(i.now, [s])) ==
              if s.hop == hop && s.frame.body.IPv4? then [s.frame.body.datagram] else []
  {
    assert [s][1..] == [];
    assert At(i.now, [s]) == [Emission(i.now, s)];
    assert [Emission(i.now, s)][1..] == [];
  }

  /** The datagrams transmitted to a neighbour followed by those still waiting are exactly those submitted for it,
      each once and in order, minus the queues dropped whole when a request expired. */
  ghost predicate Balanced(i: Interface, ops: seq<Op>, hop: uint32) {
    Kept(i, ops, hop) == DatagramsTo(hop, Emitted(i, ops)) + After(i, ops).Queue(hop)
  }

  lemma BalancedNext(i: Interface, ops: seq<Op>, op: Op, hop: uint32)
    requires i.Valid() && Balanced(i, ops, hop)
    ensures Balanced(i, ops + [op], hop) <==> !Misplaces(After(i, ops), op, hop)
  {
    hide Step, DatagramsTo, At, Misplaces;
    var all := ops + [op];
    assert all[..|all| - 1] == ops && all[|all| - 1] == op;
    RunKeepsValid(i, ops);
    var before := After(i, ops);
    StepConserves(before, op, hop);
    var now := At(before.now, Step(before, op).1);
    DatagramsToConcat(hop, Emitted(i, ops), now);
    ConserveTail(DatagramsTo(hop, Emitted(i, ops)), before.Queue(hop), DatagramsTo(hop, now),
                 After(i, all).Queue(hop),
                 (if op.TickOp? && Drops(before, hop, op.ms) then [] else before.Queue(hop))
                 + (if op.SendOp? && op.hop == hop then [op.datagram] else []));
  }

  /** Put together, what is submitted next goes behind what is kept. */
  lemma ConserveTail(sent: seq<Datagram>, queue: seq<Datagram>, more: seq<Datagram>, left: seq<Datagram>,
                     right: seq<Datagram>)
    ensures (sent + more) + left == sent + right <==> more + left == right
    ensures (sent + queue)[..|sent + queue| - |queue|] == sent
    ensures forall d: Datagram :: (sent + queue) + [d] == sent + (queue + [d])
    ensures sent + [] == sent && queue + [] == queue && [] + queue == queue
  {
    assert (sent + more) + left == sent + (more + left);
    assert (sent + (more + left))[|sent|..] == more + left && (sent + right)[|sent|..] == right;
  }

  lemma NothingKept(i: Interface, hop: uint32)
    requires hop !in i.waiting
    ensures Balanced(i, [], hop)
  {}

  /** Conservation and order, exactly: they hold throughout a run, for one neighbour, if and only if no datagram is
      ever submitted that `Misplaces` speaks of. */
  lemma {:induction false} ConservedIff(i: Interface, ops: seq<Op>, hop: uint32)
    requires i.Valid() && hop !in i.waiting
    ensures (forall n :: 0 <= n <= |ops| ==> Balanced(i, ops[..n], hop)) <==>
            (forall n :: 0 <= n < |ops| ==> !Misplaces(After(i, ops[..n]), ops[n], hop))
  {
    hide Balanced, Misplaces, After;
    if ops == [] {
      NothingKept(i, hop);
      assert ops[..0] == [];
    } else {
      var m := |ops| - 1;
      var front := ops[..m];
      ConservedIff(i, front, hop);
      assert forall n :: 0 <= n <= m ==> front[..n] == ops[..n];
      assert ops[..|ops|] == front + [ops[m]];
      if Balanced(i, front, hop) {
        BalancedNext(i, front, ops[m], hop);
      }
      assert front[..m] == front;
    }
  }

  /** Such a submission exists: a neighbour announces itself, and a datagram of another version is sent to it. It
      is neither transmitted nor waiting. */
  lemma LostToAnException(i: Interface, announcement: ArpMessage, d: Datagram)
    requires i.Valid() && announcement.senderIp !in i.waiting && announcement.opcode == Reply && !Serializable(d)
    ensures var hop := announcement.senderIp;
            var ops := [RecvOp(Frame(i.ethernet, announcement.senderEthernet, Arp(announcement))), SendOp(d, hop)];
            Kept(i, ops, hop) == [d] && DatagramsTo(hop, Emitted(i, ops)) + After(i, ops).Queue(hop) == []
  {
    var hop := announcement.senderIp;
    var first := RecvOp(Frame(i.ethernet, announcement.senderEthernet, Arp(announcement)));
    var ops := [first, SendOp(d, hop)];
    assert [first][..0] == [] && ops[..1] == [first];
    assert After(i, []) == i && Kept(i, [], hop) == [] && Emitted(i, []) == [];
    var known := Step(i, first).0;
    assert Step(i, first).1 == [] && hop in known.cache && known.Queue(hop) == [];
    assert After(i, [first]) == known && Kept(i, [first], hop) == [] && Emitted(i, [first]) == [];
    assert Step(known, SendOp(d, hop)) == (known, []);
  }

  /** All that is submitted for a neighbour can be serialised. */
  ghost predicate AllSerializable(ops: seq<Op>, hop: uint32) {
    forall n :: 0 <= n < |ops| && ops[n].SendOp? && ops[n].hop == hop ==> Serializable(ops[n].datagram)
  }

  lemma {:induction false} QueueIsSerializable(i: Interface, ops: seq<Op>, hop: uint32)
    requires hop !in i.waiting && AllSerializable(ops, hop)
    ensures forall d :: d in After(i, ops).Queue(hop) ==> Serializable(d)
  {
    hide Serializable, Interface.Flushed;
    if ops != [] {
      QueueIsSerializable(i, ops[..|ops| - 1], hop);
    }
  }

  /** So a neighbour for whom only version 4 is submitted gets everything, each once and in order, whatever is
      submitted for others and whatever that throws. */
  lemma {:induction false} QueueConservation(i: Interface, ops: seq<Op>, hop: uint32)
    requires i.Valid() && hop !in i.waiting && AllSerializable(ops, hop)
    ensures Kept(i, ops, hop) == DatagramsTo(hop, Emitted(i, ops)) + After(i, ops).Queue(hop)
  {
    hide After, Kept, DatagramsTo, Emitted;
    if ops == [] {
      NothingKept(i, hop);
    } else {
      var front := ops[..|ops| - 1];
      QueueConservation(i, front, hop);
      QueueIsSerializable(i, front, hop);
      RunKeepsValid(i, front);
      BalancedNext(i, front, ops[|ops| - 1], hop);
      assert front + [ops[|ops| - 1]] == ops;
    }
  }

  // ---- The interface itself. Each method returns the frames it transmits.

  class NetworkInterface {
    const ethernet: EthernetAddress
    const ip: uint32
    var received: seq<Datagram>
    var waiting: map<uint32, seq<Datagram>>
    var requests: map<uint32, nat>
    var cache: map<uint32, ArpEntry>
    var now: nat

    ghost function Model(): Interface
      reads this
    {
      Interface(ethernet, ip, received, waiting, requests, cache, now)
    }

    constructor (ethernet: EthernetAddress, ip: uint32)
      ensures Model() == NewInterface(ethernet, ip)
    {
      this.ethernet, this.ip := ethernet, ip;
      received, waiting, requests, cache, now := [], map[], map[], map[], 0;
    }

    /** `ok` is false when serialising throws. */
    method SendDatagram(d: Datagram, hop: uint32) returns (ok: bool, sent: seq<Sent>)
      modifies this`waiting, this`requests
      ensures (Model(), sent) == old(Model()).SendDatagram(d, hop)
      ensures ok == !old(Model()).SendThrows(d, hop)
    {
      ok, sent := true, [];
      if hop in cache {
        if d.header.ver != 4 {
          return false, [];
        }
        return true, [Sent(hop, Frame(cache[hop].ethernet, ethernet, IPv4(d)))];
      }
      if hop !in requests {
        var request := ArpMessage(Request, ethernet, ip, 0, hop);
        sent := [Sent(hop, Frame(ETHERNET_BROADCAST, ethernet, Arp(request)))];
        waiting := waiting[hop := []];
        requests := requests[hop := now];
      }
      var queue := if hop in waiting then waiting[hop] else [];
      waiting := waiting[hop := queue + [d]];
      ghost var before := old(Model());
      assert queue + [d] == if hop in before.requests then before.Queue(hop) + [d] else [d];
      assert waiting == old(waiting)[hop := queue + [d]];
    }

    method RecvFrame(f: Frame) returns (ok: bool, sent: seq<Sent>)
      modifies this`received, this`waiting, this`cache
      ensures (Model(), sent) == old(Model()).RecvFrame(f)
      ensures ok == !old(Model()).RecvThrows(f)
    {
      hide Sendable, Interface.RecvArp;
      ok, sent := true, [];
      if f.dst != ethernet && f.dst != ETHERNET_BROADCAST {
        return;
      }
      match f.body
      case Other =>
      case IPv4(datagram) => received := received + [datagram];
      case Arp(m) => ok, sent := RecvArp(m);
    }

    /** Learns the sender's address, replies if asked, and sends what waited for it. */
    method RecvArp(m: ArpMessage) returns (ok: bool, sent: seq<Sent>)
      modifies this`waiting, this`cache
      ensures (Model(), sent) == old(Model()).RecvArp(m)
      ensures var queue := old(Model()).Queue(m.senderIp); ok == (Sendable(queue) == |queue|)
    {
      hide Sendable, Interface.Flushed;
      sent := [];
      cache := cache[m.senderIp := ArpEntry(m.senderEthernet, now)];
      if m.opcode == Request && m.targetIp == ip {
        var reply := ArpMessage(Reply, ethernet, ip, m.senderEthernet, m.senderIp);
        sent := [Sent(m.senderIp, Frame(m.senderEthernet, ethernet, Arp(reply)))];
      }
      ghost var queue := old(Model()).Queue(m.senderIp);
      FlushedAlike(old(Model()), Model(), m.senderIp, m.senderEthernet, queue[..Sendable(queue)]);
      var flushed;
      ok, flushed := Flush(m.senderIp, m.senderEthernet);
      sent := sent + flushed;
    }

    static lemma FlushedAlike(i: Interface, j: Interface, hop: uint32, dst: EthernetAddress, queue: seq<Datagram>)
      requires i.ethernet == j.ethernet
      ensures i.Flushed(hop, dst, queue) == j.Flushed(hop, dst, queue)
    {}

    /** Sends the queue for an address that has just become known, up to the first datagram that throws. */
    method Flush(hop: uint32, dst: EthernetAddress) returns (ok: bool, sent: seq<Sent>)
      modifies this`waiting
      ensures var queue := old(Model()).Queue(hop);
              && sent == old(Model()).Flushed(hop, dst, queue[..Sendable(queue)])
              && ok == (Sendable(queue) == |queue|)
      ensures waiting == old(Model()).Unsent(hop)
    {
      hide Sendable, Interface.Flushed;
      ok, sent := true, [];
      NothingSendable();
      if hop in waiting {
        ghost var queue := waiting[hop];
        while waiting[hop] != []
          invariant hop in waiting && waiting == old(waiting)[hop := waiting[hop]]
          invariant |sent| + |waiting[hop]| == |queue| && waiting[hop] == queue[|sent|..]
          invariant forall k :: 0 <= k < |sent| ==> sent[k] == old(Model()).DatagramTo(hop, dst, queue[k])
          invariant forall k :: 0 <= k < |sent| ==> Serializable(queue[k])
          decreases |waiting[hop]|
        {
          if waiting[hop][0].header.ver != 4 {
            SendableIs(queue, |sent|);
            return false, sent;
          }
          sent := sent + [Sent(hop, Frame(dst, ethernet, IPv4(waiting[hop][0])))];
          waiting := waiting[hop := waiting[hop][1..]];
        }
        SendableIs(queue, |sent|);
        waiting := waiting - {hop};
      }
    }

    static lemma NothingSendable()
      ensures Sendable([]) == 0
    {}

    static lemma SendableIs(queue: seq<Datagram>, n: nat)
      requires n <= |queue| && forall k :: 0 <= k < n ==> Serializable(queue[k])
      requires n < |queue| ==> !Serializable(queue[n])
      ensures Sendable(queue) == n
    {}

    method Tick(ms: nat)
      modifies this
      ensures Model() == old(Model()).Tick(ms)
    {
      now := now + ms;
      ExpireCache();
      ExpireRequests();
    }

    /** Walks the cache, erasing what is older than 30 seconds. */
    method ExpireCache()
      modifies this`cache
      ensures cache == map hop | hop in old(cache) && now - old(cache)[hop].timeCreated <= CACHE_MS :: old(cache)[hop]
    {
      var left := cache.Keys;
      while left != {}
        invariant left <= cache.Keys <= old(cache).Keys
        invariant forall hop :: hop in cache ==> cache[hop] == old(cache)[hop]
        invariant forall hop :: hop in old(cache) && hop !in left ==>
                    (hop in cache <==> now - old(cache)[hop].timeCreated <= CACHE_MS)
      {
        var hop :| hop in left;
        if now - cache[hop].timeCreated > CACHE_MS {
          cache := cache - {hop};
        }
        left := left - {hop};
      }
    }

    /** Walks the requests, erasing what is older than 5 seconds together with its queue. */
    method ExpireRequests()
      modifies this`requests, this`waiting
      ensures var expired := set hop | hop in old(requests) && now - old(requests)[hop] > REQUEST_MS;
              requests == old(requests) - expired && waiting == old(waiting) - expired
    {
      var left := requests.Keys;
      while left != {}
        invariant left <= requests.Keys <= old(requests).Keys
        invariant forall hop :: hop in requests ==> requests[hop] == old(requests)[hop]
        invariant forall hop :: hop in old(requests) && hop !in left ==>
                    (hop in requests <==> now - old(requests)[hop] <= REQUEST_MS)
        invariant waiting == old(waiting) - (old(requests).Keys - requests.Keys)
      {
        var hop :| hop in left;
        if now - requests[hop] > REQUEST_MS {
          if hop in waiting {
            waiting := waiting - {hop};
          }
          requests := requests - {hop};
        }
        left := left - {hop};
      }
    }
  }
}
