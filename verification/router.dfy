/** Longest-prefix-match routing between interfaces (src/router.hh, src/router.cc). */
module Routers {
  import opened MachineTypes
  import opened BitOperations
  import opened Division
  import opened Checksums
  import opened Ipv4
  import opened NetworkInterfaces

  type PrefixLength = n: int | 0 <= n <= 32

  datatype Route = Route(prefix: uint32, length: PrefixLength, nextHop: Option<uint32>, interfaceNum: nat)

  /** The mask of the leading `length` bits. */
  function Mask(length: PrefixLength): uint32 {
    if length == 0 then 0 else ShiftLeft(0xffff_ffff, 32 - length)
  }

  predicate Matches(route: Route, dest: uint32) {
    And(dest, Mask(route.length)) == And(route.prefix, Mask(route.length))
  }

  /** Under its mask an address is rounded down to a multiple of 2^(32 - length). */
  lemma MaskRoundsDown(address: uint32, length: PrefixLength)
    ensures And(address, Mask(length)) == address / Pow2(32 - length) * Pow2(32 - length)
  {
    hide And, ShiftLeft, Pow2;
    PowersUpTo32(32 - length);
    AndLeadingOnes(address, 32, 32 - length);
    if length > 0 {
      ShiftedOnes(32 - length);
    }
  }

  /** A route matches an address exactly when the two agree in their leading `length` bits: they give the same
      quotient by 2^(32 - length). So it covers 2^(32 - length) consecutive addresses, the first being a multiple of
      2^(32 - length). */
  lemma RouteCoversBlock(route: Route, dest: uint32)
    ensures var size := Pow2(32 - route.length);
            && (Matches(route, dest) <==> dest / size == route.prefix / size)
            && (Matches(route, dest) <==>
                  route.prefix / size * size <= dest < route.prefix / size * size + size)
  {
    hide And, Mask, Pow2;
    var size := Pow2(32 - route.length);
    MaskRoundsDown(dest, route.length);
    MaskRoundsDown(route.prefix, route.length);
    SameMultiple(dest, route.prefix, size);
  }

  lemma SameMultiple(a: nat, b: nat, size: nat)
    requires size > 0
    ensures a / size * size == b / size * size <==> a / size == b / size
    ensures a / size == b / size <==> b / size * size <= a < b / size * size + size
  {
    var p, q := a / size, b / size;
    assert a == p * size + a % size;
    Grows(size, p, q);
    Grows(size, q, p);
    assert size * p == p * size && size * q == q * size;
  }

  // ---- The best route: the longest matching prefix, and the earliest added among those.

  /** `best` is -1 when nothing matches. */
  ghost predicate IsBest(routes: seq<Route>, dest: uint32, best: int) {
    && -1 <= best < |routes|
    && (best == -1 ==> forall k :: 0 <= k < |routes| ==> !Matches(routes[k], dest))
    && (best >= 0 ==>
          && Matches(routes[best], dest)
          && forall k :: 0 <= k < |routes| && Matches(routes[k], dest) ==>
               routes[k].length < routes[best].length || (routes[k].length == routes[best].length && best <= k))
  }

  lemma BestIsUnique(routes: seq<Route>, dest: uint32, a: int, b: int)
    requires IsBest(routes, dest, a) && IsBest(routes, dest, b)
    ensures a == b
  {
    hide Matches;
    assert a >= 0 ==> Matches(routes[a], dest);
    assert b >= 0 ==> Matches(routes[b], dest);
  }

  function Best(routes: seq<Route>, dest: uint32): (best: int)
    ensures -1 <= best < |routes|
  {
    if routes == [] then -1
    else
      var n := |routes| - 1;
      Better(routes, dest, n, Best(routes[..n], dest))
  }

  /** The `n`-th route replaces the best so far only if it is strictly longer. */
  function Better(routes: seq<Route>, dest: uint32, n: nat, best: int): int
    requires n < |routes| && -1 <= best < n
  {
    if Matches(routes[n], dest) && (best == -1 || routes[n].length > routes[best].length) then n else best
  }

  lemma {:induction false} BestIsBest(routes: seq<Route>, dest: uint32)
    ensures IsBest(routes, dest, Best(routes, dest))
  {
    hide Matches;
    if routes != [] {
      BestIsBest(routes[..|routes| - 1], dest);
    }
  }

  // ---- What becomes of one datagram.

  datatype Forwarded = Forwarded(interfaceNum: nat, datagram: Datagram, nextHop: uint32)

  /** One hop fewer to live, and the checksum that goes with it. */
  function Aged(d: Datagram): Datagram
    requires d.header.ttl > 1
  {
    d.(header := d.header.(ttl := d.header.ttl - 1).WithChecksum())
  }

  /** Dropped exactly when no route matches or the time to live is used up. */
  function Forward(routes: seq<Route>, d: Datagram): Option<Forwarded> {
    var best := Best(routes, d.header.dst);
    if best == -1 || d.header.ttl <= 1 then None
    else
      var route := routes[best];
      Some(Forwarded(route.interfaceNum, Aged(d), if route.nextHop.Some? then route.nextHop.value else d.header.dst))
  }

  /** Whichever route is best decides: the datagram is dropped exactly when there is none or its time to live is
      used up; otherwise it leaves by that route's interface, to that route's next hop or, on a network directly
      attached, to its destination. */
  lemma ForwardFollowsBestRoute(routes: seq<Route>, d: Datagram, best: int)
    requires IsBest(routes, d.header.dst, best)
    ensures Forward(routes, d).None? <==> best == -1 || d.header.ttl <= 1
    ensures Forward(routes, d).Some? ==>
              var f := Forward(routes, d).value;
              && f.interfaceNum == routes[best].interfaceNum
              && f.nextHop == (match routes[best].nextHop case Some(hop) => hop case None => d.header.dst)
  {
    hide Matches, Header.WithChecksum;
    BestIsBest(routes, d.header.dst);
    BestIsUnique(routes, d.header.dst, best, Best(routes, d.header.dst));
  }

  /** A forwarded header is valid at the next hop: its checksum verifies, and nothing else but the time to live
      has changed. Whether the payload comes through whole depends on what arrived: with options in the header or a
      wrong length it does not. */
  lemma ForwardedIsValid(routes: seq<Route>, d: Datagram)
    requires Forward(routes, d).Some? && d.header.ver == 4 && d.header.hlen >= 5
    ensures var f := Forward(routes, d).value.datagram;
            && f.payload == d.payload && f.header.ttl == d.header.ttl - 1
            && f.header.(ttl := 0, cksum := 0) == d.header.(ttl := 0, cksum := 0)
            && Acceptable(f.header) && Complement(WordSum(false, f.header.Bytes())) == 0
            && (SurvivesWire(f) <==> SurvivesWire(d.(header := d.header.WithChecksum())))
  {
    hide Best, Complement, WordSum, Header.Bytes;
    HeaderChecksumVerifies(d.header.(ttl := d.header.ttl - 1));
  }

  function Listed(f: Option<Forwarded>): seq<Forwarded> {
    if f.Some? then [f.value] else []
  }

  lemma ChecksumKeepsVersion(h: Header)
    ensures h.WithChecksum().ver == h.ver
  {}

  function ForwardAll(routes: seq<Route>, ds: seq<Datagram>): seq<Forwarded> {
    if ds == [] then [] else Listed(Forward(routes, ds[0])) + ForwardAll(routes, ds[1..])
  }

  lemma {:induction false} ForwardAllConcat(routes: seq<Route>, a: seq<Datagram>, b: seq<Datagram>)
    ensures ForwardAll(routes, a + b) == ForwardAll(routes, a) + ForwardAll(routes, b)
  {
    hide Forward, Listed;
    if a == [] {
      assert a + b == b;
    } else {
      assert (a + b)[0] == a[0] && (a + b)[1..] == a[1..] + b;
      ForwardAllConcat(routes, a[1..], b);
    }
  }

  /** Each datagram has exactly one place in what is forwarded, in order, or none if it is dropped. */
  lemma EachForwardedOnce(routes: seq<Route>, ds: seq<Datagram>, k: nat)
    requires k < |ds|
    ensures var all := ForwardAll(routes, ds);
            var before, upTo := |ForwardAll(routes, ds[..k])|, |ForwardAll(routes, ds[..k + 1])|;
            if Forward(routes, ds[k]).Some?
            then before < |all| && upTo == before + 1 && all[before] == Forward(routes, ds[k]).value
            else upTo == before
  {
    hide Forward;
    assert ds == ds[..k] + ([ds[k]] + ds[k + 1..]);
    assert ds[..k + 1] == ds[..k] + [ds[k]];
    ForwardAllConcat(routes, ds[..k], [ds[k]] + ds[k + 1..]);
    ForwardAllConcat(routes, ds[..k], [ds[k]]);
    ForwardAllConcat(routes, [ds[k]], ds[k + 1..]);
    assert [ds[k]][1..] == [];
  }

  // ---- Loops end.

  /** What is left of a datagram that meets these routing tables one after the other; a loop is a table that
      comes again. */
  function Through(tables: seq<seq<Route>>, d: Datagram): Option<Datagram> {
    if tables == [] then Some(d)
    else
      var f := Forward(tables[0], d);
      if f.None? then None else Through(tables[1..], f.value.datagram)
  }

  /** Along any path, loops included, a datagram is forwarded all the way if and only if every table has a route
      for its destination and there are fewer of them than its TTL: at most TTL - 1 hops, whatever the network.
      What arrives is what was sent, with that much less to live. */
  lemma {:induction false} ForwardedLessThanTtl(tables: seq<seq<Route>>, d: Datagram)
    ensures Through(tables, d).Some? <==>
              (forall k :: 0 <= k < |tables| ==> Best(tables[k], d.header.dst) != -1)
              && (tables != [] ==> |tables| < d.header.ttl)
    ensures Through(tables, d).Some? && tables != [] ==>
              Through(tables, d).value == d.(header := d.header.(ttl := d.header.ttl - |tables|).WithChecksum())
  {
    hide Best, Header.WithChecksum;
    if tables != [] {
      var f := Forward(tables[0], d);
      if f.Some? {
        AgedHeader(d);
        ForwardedLessThanTtl(tables[1..], f.value.datagram);
        assert forall k :: 0 <= k < |tables[1..]| ==> tables[1..][k] == tables[k + 1];
        assert forall k :: 1 <= k < |tables| ==> tables[k] == tables[1..][k - 1];
      }
    }
  }

  lemma AgedHeader(d: Datagram)
    requires d.header.ttl > 1
    ensures var h := Aged(d).header;
            && h.dst == d.header.dst && h.ttl == d.header.ttl - 1
            && forall ttl: byte :: h.(ttl := ttl).WithChecksum() == d.header.(ttl := ttl).WithChecksum()
  {
    hide Complement, WordSum, Header.Bytes;
  }

  // ---- Any number of datagrams in any network of routers.

  /** How often these datagrams can still be forwarded. */
  function Fuel(ds: seq<Datagram>): nat {
    if ds == [] then 0 else Max(ds[0].header.ttl - 1, 0) + Fuel(ds[1..])
  }

  function TotalFuel(queues: seq<seq<Datagram>>): nat {
    if queues == [] then 0 else Fuel(queues[0]) + TotalFuel(queues[1..])
  }

  /** One call of `route` somewhere: which router, its routes at that time, and where each datagram it forwards
      arrives, if at a router at all. */
  datatype Visit = Visit(router: nat, routes: seq<Route>, arrives: Forwarded -> Option<nat>)

  function Spread(queues: seq<seq<Datagram>>, fs: seq<Forwarded>, arrives: Forwarded -> Option<nat>):
      (r: seq<seq<Datagram>>)
    ensures |r| == |queues|
    decreases |fs|
  {
    if fs == [] then queues
    else
      var at := arrives(fs[0]);
      var next := if at.Some? && at.value < |queues|
                  then queues[at.value := queues[at.value] + [fs[0].datagram]] else queues;
      Spread(next, fs[1..], arrives)
  }

  /** The queues after a visit; the router's own queue is drained first. */
  function AfterVisit(queues: seq<seq<Datagram>>, v: Visit): (r: seq<seq<Datagram>>)
    requires v.router < |queues|
    ensures |r| == |queues|
  {
    Spread(queues[v.router := []], ForwardAll(v.routes, queues[v.router]), v.arrives)
  }

  ghost predicate AllInside(visits: seq<Visit>, n: nat) {
    forall k :: 0 <= k < |visits| ==> visits[k].router < n
  }

  /** How many times any datagram is forwarded during the visits. */
  function Forwards(queues: seq<seq<Datagram>>, visits: seq<Visit>): nat
    requires AllInside(visits, |queues|)
    decreases |visits|
  {
    if visits == [] then 0
    else
      |ForwardAll(visits[0].routes, queues[visits[0].router])|
      + Forwards(AfterVisit(queues, visits[0]), visits[1..])
  }

  lemma {:induction false} FuelConcat(a: seq<Datagram>, b: seq<Datagram>)
    ensures Fuel(a + b) == Fuel(a) + Fuel(b)
  {
    if a == [] {
      assert a + b == b;
    } else {
      assert (a + b)[1..] == a[1..] + b;
      FuelConcat(a[1..], b);
    }
  }

  lemma {:induction false} TotalFuelUpdate(queues: seq<seq<Datagram>>, k: nat, queue: seq<Datagram>)
    requires k < |queues|
    ensures TotalFuel(queues[k := queue]) == TotalFuel(queues) - Fuel(queues[k]) + Fuel(queue)
  {
    if k > 0 {
      assert queues[k := queue][1..] == queues[1..][k - 1 := queue];
      TotalFuelUpdate(queues[1..], k - 1, queue);
    } else {
      assert queues[k := queue][1..] == queues[1..];
    }
  }

  function Outgoing(fs: seq<Forwarded>): nat {
    if fs == [] then 0 else Max(fs[0].datagram.header.ttl - 1, 0) + Outgoing(fs[1..])
  }

  /** Every forwarding costs at least one. */
  lemma {:induction false} ForwardingCosts(routes: seq<Route>, ds: seq<Datagram>)
    ensures Outgoing(ForwardAll(routes, ds)) + |ForwardAll(routes, ds)| <= Fuel(ds)
  {
    if ds != [] {
      hide Best, Header.WithChecksum;
      var f := Forward(routes, ds[0]);
      ForwardingCosts(routes, ds[1..]);
      if f.Some? {
        assert ([f.value] + ForwardAll(routes, ds[1..]))[1..] == ForwardAll(routes, ds[1..]);
        AgedHeader(ds[0]);
      } else {
        assert [] + ForwardAll(routes, ds[1..]) == ForwardAll(routes, ds[1..]);
      }
    }
  }

  lemma {:induction false} SpreadingAddsNone(queues: seq<seq<Datagram>>, fs: seq<Forwarded>,
                                             arrives: Forwarded -> Option<nat>)
    ensures TotalFuel(Spread(queues, fs, arrives)) <= TotalFuel(queues) + Outgoing(fs)
    decreases |fs|
  {
    if fs != [] {
      var at := arrives(fs[0]);
      if at.Some? && at.value < |queues| {
        var queue := queues[at.value] + [fs[0].datagram];
        TotalFuelUpdate(queues, at.value, queue);
        FuelConcat(queues[at.value], [fs[0].datagram]);
        assert [fs[0].datagram][1..] == [];
        SpreadingAddsNone(queues[at.value := queue], fs[1..], arrives);
      } else {
        SpreadingAddsNone(queues, fs[1..], arrives);
      }
    }
  }

  /** Through any network of routers, in whatever order they run, however their links and tables loop or change,
      the number of forwardings is at most the sum of TTL - 1 over the datagrams there at the start. */
  lemma {:induction false} ForwardingEnds(queues: seq<seq<Datagram>>, visits: seq<Visit>)
    requires AllInside(visits, |queues|)
    ensures Forwards(queues, visits) <= TotalFuel(queues)
    decreases |visits|
  {
    hide ForwardAll, Spread;
    if visits != [] {
      var v := visits[0];
      var fs := ForwardAll(v.routes, queues[v.router]);
      ForwardingCosts(v.routes, queues[v.router]);
      TotalFuelUpdate(queues, v.router, []);
      SpreadingAddsNone(queues[v.router := []], fs, v.arrives);
      ForwardingEnds(AfterVisit(queues, v), visits[1..]);
    }
  }

  // ---- The router itself.

  datatype Transmission = Transmission(interfaceNum: nat, sent: Sent)

  function Tagged(interfaceNum: nat, sent: seq<Sent>): seq<Transmission> {
    seq(|sent|, k requires 0 <= k < |sent| => Transmission(interfaceNum, sent[k]))
  }

  /** A datagram handed to its interface. */
  function DeliverOne(interfaces: seq<Interface>, f: Forwarded): (seq<Interface>, seq<Transmission>)
    requires f.interfaceNum < |interfaces|
  {
    var (next, sent) := interfaces[f.interfaceNum].SendDatagram(f.datagram, f.nextHop);
    (interfaces[f.interfaceNum := next], Tagged(f.interfaceNum, sent))
  }

  ghost predicate AllDeliverable(fs: seq<Forwarded>, n: nat) {
    forall k :: 0 <= k < |fs| ==> fs[k].interfaceNum < n
  }

  ghost function Deliver(interfaces: seq<Interface>, fs: seq<Forwarded>): (r: (seq<Interface>, seq<Transmission>))
    requires AllDeliverable(fs, |interfaces|)
    ensures |r.0| == |interfaces|
  {
    if fs == [] then (interfaces, [])
    else
      var (before, sent) := Deliver(interfaces, fs[..|fs| - 1]);
      var (after, more) := DeliverOne(before, fs[|fs| - 1]);
      (after, sent + more)
  }

  /** All that waits to be routed, in the order `route` takes it. */
  function Queued(interfaces: seq<Interface>): seq<Datagram> {
    if interfaces == [] then [] else interfaces[0].received + Queued(interfaces[1..])
  }

  /** The exceptions while routing: a header of another version, or a route to an interface that does not exist. */
  predicate Throws(routes: seq<Route>, n: nat, d: Datagram) {
    var f := Forward(routes, d);
    f.Some? && (d.header.ver != 4 || f.value.interfaceNum >= n)
  }

  /** How many datagrams are dealt with before the first exception. */
  function Completed(routes: seq<Route>, n: nat, ds: seq<Datagram>): (r: nat)
    ensures r <= |ds|
    ensures r < |ds| ==> Throws(routes, n, ds[r])
    ensures forall k :: 0 <= k < r ==> !Throws(routes, n, ds[k])
  {
    if ds == [] || Throws(routes, n, ds[0]) then 0 else 1 + Completed(routes, n, ds[1..])
  }

  lemma {:induction false} QueuedNext(interfaces: seq<Interface>, k: nat)
    requires k < |interfaces| && forall j :: 0 <= j < k ==> interfaces[j].received == []
    requires interfaces[k].received != []
    ensures Queued(interfaces) == [interfaces[k].received[0]]
                                  + Queued(interfaces[k := interfaces[k].(received := interfaces[k].received[1..])])
  {
    var next := interfaces[k := interfaces[k].(received := interfaces[k].received[1..])];
    if k > 0 {
      assert next[1..] == interfaces[1..][k - 1 := next[k]];
      QueuedNext(interfaces[1..], k - 1);
    } else {
      assert next[1..] == interfaces[1..];
    }
  }

  lemma {:induction false} QueuedSame(a: seq<Interface>, b: seq<Interface>)
    requires |a| == |b| && forall k :: 0 <= k < |a| ==> a[k].received == b[k].received
    ensures Queued(a) == Queued(b)
    ensures (forall k :: 0 <= k < |a| ==> a[k].received == []) ==> Queued(a) == []
  {
    if a != [] {
      QueuedSame(a[1..], b[1..]);
    }
  }

  /** Equal up to the queues of received datagrams. */
  ghost predicate SameButReceived(a: seq<Interface>, b: seq<Interface>) {
    |a| == |b| && forall k :: 0 <= k < |a| ==> a[k] == b[k].(received := a[k].received)
  }

  /** What `forwarded` does to the interfaces, and what they transmit for it. */
  ghost predicate Delivered(before: seq<Interface>, after: seq<Interface>, forwarded: seq<Forwarded>,
                            transmitted: seq<Transmission>) {
    && AllDeliverable(forwarded, |before|)
    && SameButReceived(after, Deliver(before, forwarded).0)
    && transmitted == Deliver(before, forwarded).1
  }

  /** Sending does not look at the received datagrams. */
  lemma DeliverOneIgnoresReceived(a: seq<Interface>, b: seq<Interface>, f: Forwarded)
    requires SameButReceived(a, b) && f.interfaceNum < |a|
    ensures SameButReceived(DeliverOne(a, f).0, DeliverOne(b, f).0) && DeliverOne(a, f).1 == DeliverOne(b, f).1
    ensures forall k :: 0 <= k < |a| ==> DeliverOne(a, f).0[k].received == a[k].received
  {}

  /** The datagrams `ds` have been dealt with up to `taken`; the rest is still waiting. */
  ghost predicate Progress(routes: seq<Route>, before: seq<Interface>, now: seq<Interface>, taken: nat,
                           forwarded: seq<Forwarded>, transmitted: seq<Transmission>) {
    var ds := Queued(before);
    && taken <= |ds| && Queued(now) == ds[taken..]
    && |now| == |before|
    && forwarded == ForwardAll(routes, ds[..taken])
    && Delivered(before, now, forwarded, transmitted)
    && forall k :: 0 <= k < taken ==> !Throws(routes, |before|, ds[k])
  }

  lemma NoProgress(routes: seq<Route>, before: seq<Interface>)
    ensures Progress(routes, before, before, 0, [], [])
  {}

  lemma ProgressNext(routes: seq<Route>, before: seq<Interface>, now: seq<Interface>, taken: nat,
                     forwarded: seq<Forwarded>, transmitted: seq<Transmission>, d: Datagram, after: seq<Interface>,
                     sent: seq<Transmission>)
    requires Progress(routes, before, now, taken, forwarded, transmitted)
    requires Queued(now) == [d] + Queued(after) && !Throws(routes, |before|, d) && |after| == |now| == |before|
    requires Forward(routes, d).None? ==> sent == [] && SameButReceived(after, now)
    requires Forward(routes, d).Some? ==>
               var f := Forward(routes, d).value;
               && f.interfaceNum < |before| && sent == DeliverOne(now, f).1
               && SameButReceived(after, DeliverOne(now, f).0)
    ensures Progress(routes, before, after, taken + 1, forwarded + Listed(Forward(routes, d)), transmitted + sent)
  {
    hide Forward, Throws, Queued, DeliverOne, ForwardAll, Delivered, SameButReceived;
    var ds := Queued(before);
    assert ds[taken] == d && ds[taken + 1..] == ds[taken..][1..];
    ForwardAllNext(routes, ds, taken);
    if Forward(routes, d).Some? {
      DeliveredNext(before, now, forwarded, transmitted, Forward(routes, d).value, after);
    } else {
      DeliveredSame(before, now, after, forwarded, transmitted);
      assert forwarded + [] == forwarded && transmitted + [] == transmitted;
    }
  }

  function SentBy(out: seq<Transmission>): seq<Sent> {
    seq(|out|, k requires 0 <= k < |out| => out[k].sent)
  }

  /** A forwarded datagram is handed to its own interface for its own next hop, and to nobody else: it is transmitted
      there, behind what was, or waits at the end of that neighbour's queue. */
  lemma DeliveredToNextHop(interfaces: seq<Interface>, f: Forwarded, hop: uint32)
    requires f.interfaceNum < |interfaces| && interfaces[f.interfaceNum].Valid()
    requires !Misplaces(interfaces[f.interfaceNum], SendOp(f.datagram, f.nextHop), f.nextHop)
    ensures var (after, out) := DeliverOne(interfaces, f);
            var before := interfaces[f.interfaceNum];
            && (forall k :: 0 <= k < |interfaces| && k != f.interfaceNum ==> after[k] == interfaces[k])
            && (forall t :: t in out ==> t.interfaceNum == f.interfaceNum)
            && DatagramsTo(hop, At(before.now, SentBy(out))) + after[f.interfaceNum].Queue(hop)
            == before.Queue(hop) + (if hop == f.nextHop then [f.datagram] else [])
  {
    hide DatagramsTo, At, Interface.SendDatagram, Interface.Queue, Interface.Valid;
    var before := interfaces[f.interfaceNum];
    StepConserves(before, SendOp(f.datagram, f.nextHop), hop);
    assert SentBy(DeliverOne(interfaces, f).1) == before.SendDatagram(f.datagram, f.nextHop).1;
  }

  /** The effect of `route`. The datagrams waiting at all interfaces are dealt with one by one, each forwarded once
      or dropped; what is forwarded is handed to its interface in the same order. After an exception `ok` is
      false: the offending datagram is gone and those behind it still wait. */
  ghost predicate Routed(routes: seq<Route>, before: seq<Interface>, after: seq<Interface>, ok: bool,
                         forwarded: seq<Forwarded>, transmitted: seq<Transmission>) {
    var ds := Queued(before);
    var n := Completed(routes, |before|, ds);
    && ok == (n == |ds|)
    && forwarded == ForwardAll(routes, ds[..n])
    && Queued(after) == (if ok then [] else ds[n + 1..])
    && Delivered(before, after, forwarded, transmitted)
  }

  lemma RoutedAll(routes: seq<Route>, before: seq<Interface>, now: seq<Interface>, taken: nat,
                  forwarded: seq<Forwarded>, transmitted: seq<Transmission>)
    requires Progress(routes, before, now, taken, forwarded, transmitted)
    requires forall k :: 0 <= k < |now| ==> now[k].received == []
    ensures Routed(routes, before, now, true, forwarded, transmitted)
  {
    hide Throws, Delivered;
    QueuedSame(now, now);
  }

  lemma RoutedUntil(routes: seq<Route>, before: seq<Interface>, now: seq<Interface>, taken: nat,
                    forwarded: seq<Forwarded>, transmitted: seq<Transmission>, d: Datagram, after: seq<Interface>)
    requires Progress(routes, before, now, taken, forwarded, transmitted)
    requires Queued(now) == [d] + Queued(after) && Throws(routes, |before|, d) && SameButReceived(after, now)
    ensures Routed(routes, before, after, false, forwarded, transmitted)
  {
    hide Throws, Delivered, Queued, SameButReceived;
    assert Queued(before)[taken] == d && Queued(before)[taken + 1..] == Queued(before)[taken..][1..];
    DeliveredSame(before, now, after, forwarded, transmitted);
  }

  lemma DeliveredSame(before: seq<Interface>, now: seq<Interface>, after: seq<Interface>, forwarded: seq<Forwarded>,
                      transmitted: seq<Transmission>)
    requires Delivered(before, now, forwarded, transmitted) && SameButReceived(after, now)
    ensures Delivered(before, after, forwarded, transmitted)
  {}

  lemma DeliveredNext(before: seq<Interface>, now: seq<Interface>, forwarded: seq<Forwarded>,
                      transmitted: seq<Transmission>, f: Forwarded, after: seq<Interface>)
    requires Delivered(before, now, forwarded, transmitted) && f.interfaceNum < |before|
    requires SameButReceived(after, DeliverOne(now, f).0)
    ensures Delivered(before, after, forwarded + [f], transmitted + DeliverOne(now, f).1)
  {
    hide DeliverOne;
    assert (forwarded + [f])[..|forwarded|] == forwarded;
    assert AllDeliverable(forwarded + [f], |before|);
    DeliverOneIgnoresReceived(now, Deliver(before, forwarded).0, f);
  }

  lemma ForwardAllNext(routes: seq<Route>, ds: seq<Datagram>, taken: nat)
    requires taken < |ds|
    ensures ForwardAll(routes, ds[..taken + 1]) == ForwardAll(routes, ds[..taken]) + Listed(Forward(routes, ds[taken]))
  {
    hide Forward;
    assert ds[..taken + 1] == ds[..taken] + [ds[taken]];
    ForwardAllConcat(routes, ds[..taken], [ds[taken]]);
    assert [ds[taken]][1..] == [];
  }

  class Router {
    var interfaces: seq<NetworkInterface>
    var routes: seq<Route>

    /** No interface is added twice. */
    ghost predicate Valid()
      reads this
    {
      forall j, k :: 0 <= j < k < |interfaces| ==> interfaces[j] != interfaces[k]
    }

    ghost function Models(): (r: seq<Interface>)
      reads this, interfaces
      ensures |r| == |interfaces| && forall k :: 0 <= k < |r| ==> r[k] == interfaces[k].Model()
    {
      seq(|interfaces|, k requires 0 <= k < |interfaces| reads this, interfaces => interfaces[k].Model())
    }

    constructor ()
      ensures Valid() && interfaces == [] && routes == []
    {
      interfaces, routes := [], [];
    }

    method AddInterface(added: NetworkInterface) returns (index: nat)
      requires Valid() && added !in interfaces
      modifies this`interfaces
      ensures Valid() && interfaces == old(interfaces) + [added] && index == |old(interfaces)|
    {
      interfaces := interfaces + [added];
      index := |interfaces| - 1;
    }

    method AddRoute(prefix: uint32, length: PrefixLength, nextHop: Option<uint32>, interfaceNum: nat)
      modifies this`routes
      ensures routes == old(routes) + [Route(prefix, length, nextHop, interfaceNum)]
    {
      routes := routes + [Route(prefix, length, nextHop, interfaceNum)];
    }

    method FindRoute(dest: uint32) returns (best: int)
      ensures best == Best(routes, dest)
    {
      hide Matches;
      best := -1;
      var maxLength: int := -1;
      for i := 0 to |routes|
        invariant best == Best(routes[..i], dest)
        invariant maxLength == if best == -1 then -1 else routes[best].length
      {
        assert routes[..i + 1][..i] == routes[..i];
        var route := routes[i];
        if Matches(route, dest) && route.length > maxLength {
          maxLength := route.length;
          best := i;
        }
      }
      assert routes[..|routes|] == routes;
    }

    /** One turn of the loop in `route`; `ok` is false when it throws. */
    method RouteOne(d: Datagram) returns (ok: bool, forwarded: seq<Forwarded>, transmitted: seq<Transmission>)
      requires Valid()
      modifies interfaces
      ensures ok == !Throws(routes, |interfaces|, d)
      ensures forwarded == if ok then Listed(Forward(routes, d)) else []
      ensures forwarded != [] ==> forwarded[0].interfaceNum < |interfaces|
      ensures (Models(), transmitted) ==
                if forwarded == [] then (old(Models()), []) else DeliverOne(old(Models()), forwarded[0])
    {
      hide Best, Header.WithChecksum;
      ok, forwarded, transmitted := true, [], [];
      var best := FindRoute(d.header.dst);
      if best == -1 || d.header.ttl <= 1 {
        return;
      }
      var header := ComputeChecksum(d.header.(ttl := d.header.ttl - 1));
      if header.None? {
        return false, [], [];
      }
      var route := routes[best];
      var nextHop := if route.nextHop.Some? then route.nextHop.value else d.header.dst;
      if route.interfaceNum >= |interfaces| {
        return false, [], [];
      }
      var f := Forwarded(route.interfaceNum, d.(header := header.value), nextHop);
      ghost var before := Models();
      ChecksumKeepsVersion(d.header.(ttl := d.header.ttl - 1));
      var sent;
      ok, sent := interfaces[f.interfaceNum].SendDatagram(f.datagram, f.nextHop);
      forwarded := [f];
      transmitted := Tagged(f.interfaceNum, sent);
      assert Models() == DeliverOne(before, f).0;
    }

    /** Takes the first waiting datagram, which is at interface `i`, and routes it. */
    method RouteNext(i: nat) returns (ok: bool, forwarded: seq<Forwarded>, transmitted: seq<Transmission>)
      requires Valid() && i < |interfaces| && interfaces[i].received != []
      requires forall k :: 0 <= k < i ==> interfaces[k].received == []
      modifies interfaces
      ensures Queued(old(Models())) == [old(interfaces[i].received[0])] + Queued(Models())
      ensures forall k :: 0 <= k < i ==> interfaces[k].received == []
      ensures interfaces[i].received == old(interfaces[i].received[1..])
      ensures ok == !Throws(routes, |interfaces|, old(interfaces[i].received[0]))
      ensures forwarded == if ok then Listed(Forward(routes, old(interfaces[i].received[0]))) else []
      ensures forwarded == [] ==> transmitted == [] && SameButReceived(Models(), old(Models()))
      ensures forwarded != [] ==>
                && forwarded[0].interfaceNum < |interfaces| && transmitted == DeliverOne(old(Models()), forwarded[0]).1
                && SameButReceived(Models(), DeliverOne(old(Models()), forwarded[0]).0)
    {
      hide Forward, Throws, Queued, DeliverOne;
      ghost var before := Models();
      var d := interfaces[i].received[0];
      interfaces[i].received := interfaces[i].received[1..];
      ghost var popped := Models();
      assert popped == before[i := before[i].(received := before[i].received[1..])];
      QueuedNext(before, i);
      ok, forwarded, transmitted := RouteOne(d);
      if forwarded != [] {
        DeliverOneIgnoresReceived(popped, before, forwarded[0]);
      }
      QueuedSame(popped, Models());
    }

    /** The inner loop: drains the queue of interface `i`, those before it being empty. */
    method Drain(i: nat, ghost before: seq<Interface>, ghost taken: nat, forwarded: seq<Forwarded>,
                 transmitted: seq<Transmission>)
      returns (ok: bool, forwarded': seq<Forwarded>, transmitted': seq<Transmission>, ghost taken': nat)
      requires Valid() && i < |interfaces| == |before|
      requires forall k :: 0 <= k < i ==> interfaces[k].received == []
      requires Progress(routes, before, Models(), taken, forwarded, transmitted)
      modifies interfaces
      ensures ok ==> && (forall k :: 0 <= k <= i ==> interfaces[k].received == [])
                     && Progress(routes, before, Models(), taken', forwarded', transmitted')
      ensures !ok ==> Routed(routes, before, Models(), false, forwarded', transmitted')
    {
      hide Forward, Throws, DeliverOne, Queued, SameButReceived, Progress, Routed;
      ok, forwarded', transmitted', taken' := true, forwarded, transmitted, taken;
      while interfaces[i].received != []
        invariant ok && forall k :: 0 <= k < i ==> interfaces[k].received == []
        invariant Progress(routes, before, Models(), taken', forwarded', transmitted')
        decreases |interfaces[i].received|
      {
        ghost var now, d := Models(), interfaces[i].received[0];
        var more: seq<Forwarded>, sent: seq<Transmission>;
        ok, more, sent := RouteNext(i);
        if !ok {
          RoutedUntil(routes, before, now, taken', forwarded', transmitted', d, Models());
          return;
        }
        ProgressNext(routes, before, now, taken', forwarded', transmitted', d, Models(), sent);
        forwarded', transmitted' := forwarded' + more, transmitted' + sent;
        taken' := taken' + 1;
      }
    }

    /** Drains every queue, in order. */
    method RouteDatagrams() returns (ok: bool, forwarded: seq<Forwarded>, transmitted: seq<Transmission>)
      requires Valid()
      modifies interfaces
      ensures Routed(routes, old(Models()), Models(), ok, forwarded, transmitted)
      ensures ok ==> forall k :: 0 <= k < |interfaces| ==> interfaces[k].received == []
    {
      hide Progress, Routed;
      ghost var before := Models();
      ghost var taken := 0;
      ok, forwarded, transmitted := true, [], [];
      NoProgress(routes, before);
      var i := 0;
      while i < |interfaces|
        invariant 0 <= i <= |interfaces| && ok
        invariant forall k :: 0 <= k < i ==> interfaces[k].received == []
        invariant Progress(routes, before, Models(), taken, forwarded, transmitted)
      {
        ok, forwarded, transmitted, taken := Drain(i, before, taken, forwarded, transmitted);
        if !ok {
          return;
        }
        i := i + 1;
      }
      RoutedAll(routes, before, Models(), taken, forwarded, transmitted);
    }
  }
}
