/** A TCP message on its whole way: wrapped, forwarded by router after router, unwrapped
    (util/tcp_over_ip.cc, util/ipv4_datagram.hh, src/router.cc). */
module TcpOverRouters {
  import opened MachineTypes
  import opened Checksums
  import opened Parsers
  import opened TcpMessages
  import opened Ipv4
  import opened TcpSegments
  import opened TcpOverIp
  import opened Routers

  /** The header a wrapped message has after so many hops. */
  function HeaderAfter(cfg: AdapterConfig, msg: TcpMessage, hops: nat): Header
    requires hops < DEFAULT_TTL
  {
    BareHeader(cfg, msg).(ttl := DEFAULT_TTL - hops).WithChecksum()
  }

  ghost predicate IsAfter(d: Datagram, cfg: AdapterConfig, msg: TcpMessage, hops: nat) {
    hops < DEFAULT_TTL && d.header == HeaderAfter(cfg, msg, hops) && Concat(d.payload) == WrappedBytes(cfg, msg)
  }

  /** Such a datagram comes back whole from every parser. */
  lemma AfterSurvives(d: Datagram, cfg: AdapterConfig, msg: TcpMessage, hops: nat)
    requires FitsDatagram(msg) && IsAfter(d, cfg, msg, hops)
    ensures SurvivesWire(d)
  {
    hide Segment.Bytes, Header.Bytes, Complement, WordSum;
  }

  lemma AfterForward(routes: seq<Route>, d: Datagram, cfg: AdapterConfig, msg: TcpMessage, hops: nat)
    requires IsAfter(d, cfg, msg, hops)
    ensures Forward(routes, d).Some? <==>
              Best(routes, cfg.destination.ip) != -1 && hops + 1 < DEFAULT_TTL
    ensures Forward(routes, d).Some? ==> IsAfter(Forward(routes, d).value.datagram, cfg, msg, hops + 1)
  {
    hide Best, Segment.Bytes, Header.Bytes, Complement, WordSum;
  }

  /** Neither the hops nor their checksums matter to the adapter at the end. */
  lemma AfterUnwraps(d: Datagram, cfg: AdapterConfig, msg: TcpMessage, hops: nat)
    requires FitsDatagram(msg) && IsAfter(d, cfg, msg, hops)
    ensures var peer := Adapter(Mirrored(cfg), false);
            Unwrapped(peer, d.header, Concat(d.payload)) == (Some(msg), peer)
  {
    hide Segment.Bytes, IsSegment, SegmentOf, Complement, WordSum, Header.Bytes;
    UnwrapOfWrap(cfg, msg);
  }

  /** Every router on the way has a route for the destination, and there are fewer of them than the time to live. */
  ghost predicate Routable(cfg: AdapterConfig, tables: seq<seq<Route>>) {
    && |tables| < DEFAULT_TTL
    && forall k :: 0 <= k < |tables| ==> Best(tables[k], cfg.destination.ip) != -1
  }

  /** What travels after so many hops, cut into any non-empty chunks. */
  ghost predicate Travels(chunks: seq<seq<byte>>, cfg: AdapterConfig, msg: TcpMessage, hops: nat) {
    && AllSolid(chunks)
    && (hops < DEFAULT_TTL ==> Concat(chunks) == HeaderAfter(cfg, msg, hops).Bytes() + WrappedBytes(cfg, msg))
  }

  /** The whole journey: parsed, routed and serialised again by every router, however the bytes are cut on each hop,
      the message arrives at the connected other end as it was sent, if and only if `Routable`; otherwise it is
      dropped on the way. */
  method RoutedRoundTrip(cfg: AdapterConfig, msg: TcpMessage, tables: seq<seq<Route>>, hops: seq<seq<seq<byte>>>)
    returns (received: Option<TcpMessage>)
    requires FitsDatagram(msg) && |hops| == |tables| + 1
    requires forall k :: 0 <= k < |hops| ==> Travels(hops[k], cfg, msg, k)
    ensures received == if Routable(cfg, tables) then Some(msg) else None
  {
    hide Best, HeaderAfter, WrappedBytes, SurvivesWire, Concat, Unwrapped, Forward;
    for k := 0 to |tables|
      invariant k < DEFAULT_TTL
      invariant forall j :: 0 <= j < k ==> Best(tables[j], cfg.destination.ip) != -1
    {
      assert Travels(hops[k], cfg, msg, k);
      var d := Parsed(cfg, msg, hops[k], k);
      AfterForward(tables[k], d, cfg, msg, k);
      var f := Forward(tables[k], d);
      if f.None? {
        return None;
      }
    }
    assert Travels(hops[|tables|], cfg, msg, |tables|);
    var d := Parsed(cfg, msg, hops[|tables|], |tables|);
    AfterUnwraps(d, cfg, msg, |tables|);
    var other := Adapter(Mirrored(cfg), false);
    received, other := UnwrapTcpInIp(other, d);
  }

  method Parsed(cfg: AdapterConfig, msg: TcpMessage, chunks: seq<seq<byte>>, hops: nat) returns (d: Datagram)
    requires FitsDatagram(msg) && hops < DEFAULT_TTL && Travels(chunks, cfg, msg, hops)
    ensures IsAfter(d, cfg, msg, hops) && AllSolid(d.payload)
  {
    hide HeaderAfter, WrappedBytes, SurvivesWire;
    ghost var sent := Datagram(HeaderAfter(cfg, msg, hops), [WrappedBytes(cfg, msg)]);
    assert Concat(sent.payload) == WrappedBytes(cfg, msg);
    AfterSurvives(sent, cfg, msg, hops);
    var outcome := ParseSerialized(sent, chunks);
    d := outcome.datagram;
  }
}
