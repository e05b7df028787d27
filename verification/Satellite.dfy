/** The satellite node: learns contacts from discovery replies and forwards routed packets. */
module Satellite {
  import opened Bytes
  import opened Iteration
  import opened Addresses
  import opened Packets
  import opened IpTable
  import opened Routing
  import opened RoutePayload
  import opened Registry
  import opened Discovery

  /** What a node sends on, and to whom. */
  datatype Leg = Leg(kind: byte, to: u32, payload: seq<byte>)

  /** A node that receives a ROUTE payload takes its own id off the front. With one id left it
      sends the data, with more it forwards the route; with none there is nothing to do. */
  function Forwarded(payload: seq<byte>): Option<Leg> {
    var route, data := Ids(payload), Rest(payload);
    if |route| <= 1 then None
    else if |route| == 2 then Some(Leg(DATA, route[1], data))
    else Some(Leg(ROUTE, route[1], Compose(route[1..], data)))
  }

  /** What the satellite sends when it receives `p` and `p` is not a discovery reply. */
  function Sends(id: u32, addresses: map<u32, Text>, p: Packet, ks: Keystream, nonce: Nonce, now: u64): seq<Datagram> {
    if p.kind == DATA then Posted(addresses, p, ks, nonce)
    else if p.kind == ROUTE && Forwarded(p.payload).Some? then
      var leg := Forwarded(p.payload).value;
      Posted(addresses, Message(id, leg.to, leg.kind, 0, leg.payload, 0, now), ks, nonce)
    else []
  }

  function Knows(c: Contacts, p: Packet): Contacts {
    if p.kind == DISCOVERY then Learn(c, p.payload) else c
  }

  /** A discovery reply is made of whole records. */
  predicate Readable(frame: seq<byte>, ks: Keystream) {
    |frame| >= HEADER_SIZE + 2
    && (Parse(frame, ks).Ok? && Parse(frame, ks).value.kind == DISCOVERY ==>
          |Parse(frame, ks).value.payload| % ROW == 0)
  }

  /** The type byte of edge devices. */
  const EDGE_DEVICE: byte := 2

  /** Where a node listens itself: its socket is open there, so the text is an address. */
  datatype Host = Host(ip: Text, port: u16)

  predicate IsHost(host: Host) {
    IsQuad(host.ip)
  }

  /** What the satellite asks an edge device: the payload says where to answer. */
  function PullRequest(id: u32, peer: u32, host: Host, now: u64): Packet
    requires IsHost(host)
  {
    Message(id, peer, PULL, 0, Octets(host.ip).value + Be16(host.port), 0, now)
  }

  /** What is sent after one record has been entered. */
  function PullAfter(id: u32, host: Host, c: Contacts, row: seq<byte>, ks: Keystream, nonce: Nonce, now: u64):
    seq<Datagram>
    requires IsHost(host) && |row| == ROW
  {
    if row[4] == EDGE_DEVICE then Posted(c.addresses, PullRequest(id, ReadU32(row[..4]), host, now), ks, nonce) else []
  }

  /** What is sent while a reply is entered into `c`; the clock is read for every packet. */
  function Pulls(id: u32, host: Host, c: Contacts, payload: seq<byte>, ks: Keystream, nonce: Nonce, clock: nat -> u64):
    seq<Datagram>
    requires IsHost(host)
    decreases |payload|
  {
    if |payload| < ROW then []
    else
      var after := Learn1(c, payload[..ROW]);
      PullAfter(id, host, after, payload[..ROW], ks, nonce, clock(|payload|))
      + Pulls(id, host, after, payload[ROW..], ks, nonce, clock)
  }

  class PeerSatelliteNode {
    const id: u32
    const host: Host
    const keystream: Keystream
    const ipTable: DeviceIPTable
    var types: map<u32, byte>

    ghost function Contacts(): Contacts
      reads this, ipTable
    {
      Discovery.Contacts(ipTable.table, types)
    }

    constructor (id: u32, host: Host, keystream: Keystream)
      ensures this.id == id && this.host == host && this.keystream == keystream
      ensures Contacts() == Discovery.Contacts(map[], map[]) && fresh(ipTable)
    {
      this.id, this.host, this.keystream := id, host, keystream;
      ipTable := new DeviceIPTable();
      types := map[];
    }

    method LearnPeers(payload: seq<byte>, nonce: Nonce, clock: nat -> u64) returns (out: seq<Datagram>)
      requires |payload| % ROW == 0 && IsHost(host)
      modifies this, ipTable
      ensures Contacts() == Learn(old(Contacts()), payload)
      ensures out == Pulls(id, host, old(Contacts()), payload, keystream, nonce, clock)
    {
      hide Learn1, Learn, Pulls, PullAfter, IsHost;
      out := [];
      var i := 0;
      assert payload[0..] == payload;
      while i < |payload|
        invariant i <= |payload| && (|payload| - i) % ROW == 0
        invariant Learn(Contacts(), payload[i..]) == Learn(old(Contacts()), payload)
        invariant out + Pulls(id, host, Contacts(), payload[i..], keystream, nonce, clock)
          == Pulls(id, host, old(Contacts()), payload, keystream, nonce, clock)
      {
        LearnNext(payload, i, Contacts());
        PullNext(id, host, Contacts(), payload, i, keystream, nonce, clock);
        LearnRecord(payload[i..i + ROW]);
        var pull := PullEdge(payload[i..i + ROW], nonce, clock(|payload| - i));
        out := out + pull;
        i := i + ROW;
      }
      LearnedAll(Contacts(), payload[i..]);
      PulledAll(id, host, Contacts(), payload[i..], keystream, nonce, clock);
    }

    /** Asks the peer of a record for its data if it is an edge device. */
    method PullEdge(row: seq<byte>, nonce: Nonce, now: u64) returns (out: seq<Datagram>)
      requires |row| == ROW && IsHost(host)
      ensures out == PullAfter(id, host, Contacts(), row, keystream, nonce, now)
    {
      hide ReadU32, Octets, Posted, Dotted;
      if row[4] != EDGE_DEVICE {
        return [];
      }
      var ipVector := ConvertIpToVector(host.ip);
      var payload := new byte[6](_ => 0);
      CopyInto(payload, 0, ipVector.value);
      CopyInto(payload, 4, Be16(host.port));
      assert payload[..] == ipVector.value + Be16(host.port);
      out := SendData(ipTable, Message(id, ReadU32(row[..4]), PULL, 0, payload[..], 0, now), keystream, nonce);
    }

    method LearnRecord(row: seq<byte>)
      requires |row| == ROW
      modifies this, ipTable
      ensures Contacts() == Learn1(old(Contacts()), row)
    {
      hide ReadU32, ReadBe16, SatelliteText;
      var peer := ReadU32(row[..4]);
      var ipPort := SatelliteText(row[5], row[6], row[7], row[8], ReadBe16(row[9..11]));
      ipTable.UpdateIp(peer, ipPort);
      types := types[peer := row[4]];
    }

    method ForwardRoute(packet: Packet, nonce: Nonce, now: u64) returns (out: seq<Datagram>)
      requires packet.kind == ROUTE
      ensures out == Sends(id, ipTable.table, packet, keystream, nonce, now)
    {
      hide Ids, Rest, Compose, Posted;
      var route, data := DeserializeRoutePayload(packet.payload);
      if route == [] || |route| == 1 {
        return [];
      }
      if |route| == 2 {
        route := route[1..];
        out := SendData(ipTable, Message(id, route[0], DATA, 0, data, 0, now), keystream, nonce);
      } else {
        route := route[1..];
        var updated := SerializeRoutePacket(route, data);
        out := SendData(ipTable, Message(id, route[0], ROUTE, 0, updated, 0, now), keystream, nonce);
      }
    }

    method ReceiveData(buffer: seq<byte>, nonce: Nonce, clock: nat -> u64) returns (out: seq<Datagram>)
      requires Readable(buffer, keystream) && IsHost(host)
      modifies this, ipTable
      ensures Parse(buffer, keystream).Err? ==> out == [] && Contacts() == old(Contacts())
      ensures Parse(buffer, keystream).Ok? ==>
        var p := Parse(buffer, keystream).value;
        Contacts() == Knows(old(Contacts()), p)
        && out == if p.kind == DISCOVERY then Pulls(id, host, old(Contacts()), p.payload, keystream, nonce, clock)
                  else Sends(id, old(ipTable.table), p, keystream, nonce, clock(0))
    {
      hide Parse, Learn, Forwarded, Posted, Pulls, IsHost;
      out := [];
      var parsed := Deserialize(buffer, keystream);
      if parsed.Err? {
        return;
      }
      var packet := parsed.value;
      if packet.kind == DATA {
        out := SendData(ipTable, packet, keystream, nonce);
      } else if packet.kind == ROUTE {
        out := ForwardRoute(packet, nonce, clock(0));
      } else if packet.kind == DISCOVERY {
        out := LearnPeers(packet.payload, nonce, clock);
      }
    }
  }

  lemma LearnNext(payload: seq<byte>, i: nat, c: Contacts)
    requires i + ROW <= |payload|
    ensures Learn(c, payload[i..]) == Learn(Learn1(c, payload[i..i + ROW]), payload[i + ROW..])
  {
    hide Learn1;
    assert payload[i..][..ROW] == payload[i..i + ROW] && payload[i..][ROW..] == payload[i + ROW..];
  }

  lemma LearnedAll(c: Contacts, rest: seq<byte>)
    requires |rest| < ROW
    ensures Learn(c, rest) == c
  {
  }

  lemma PullNext(id: u32, host: Host, c: Contacts, payload: seq<byte>, i: nat, ks: Keystream, nonce: Nonce,
                 clock: nat -> u64)
    requires IsHost(host) && i + ROW <= |payload|
    ensures var row := payload[i..i + ROW];
      Pulls(id, host, c, payload[i..], ks, nonce, clock)
      == PullAfter(id, host, Learn1(c, row), row, ks, nonce, clock(|payload| - i))
         + Pulls(id, host, Learn1(c, row), payload[i + ROW..], ks, nonce, clock)
  {
    hide Learn1, PullAfter, IsHost;
    assert payload[i..][..ROW] == payload[i..i + ROW] && payload[i..][ROW..] == payload[i + ROW..];
  }

  lemma PulledAll(id: u32, host: Host, c: Contacts, rest: seq<byte>, ks: Keystream, nonce: Nonce, clock: nat -> u64)
    requires IsHost(host) && |rest| < ROW
    ensures Pulls(id, host, c, rest, ks, nonce, clock) == []
  {
  }

  // ----- Who is asked -----

  /** The edge devices among some registered peers. */
  function Edges(r: Registry, peers: seq<u32>): (edges: seq<u32>)
    requires Listed(r, peers)
    ensures forall k :: k in edges <==> k in peers && r.types[k] == EDGE_DEVICE
  {
    if peers == [] then []
    else (if r.types[peers[0]] == EDGE_DEVICE then [peers[0]] else []) + Edges(r, peers[1..])
  }

  /** The datagram asks `peer`, where it listens according to the bootstrap, to answer to `host`. */
  ghost predicate Asks(d: Datagram, id: u32, peer: u32, r: Registry, host: Host, ks: Keystream, clock: nat -> u64)
    requires IsHost(host)
  {
    peer in r.addresses && Resolve(r.addresses[peer]) == Some(d.to)
    && |d.frame| >= HEADER_SIZE + 2 && Parse(d.frame, ks).Ok?
    && var p := Parse(d.frame, ks).value;
       p.kind == 6 && p.source == id && p.destination == peer && p.priority == 1 && p.sequence == 0
       && p.payload == Octets(host.ip).value + Be16(host.port) && exists n: nat :: clock(n) == p.timestamp
  }

  lemma {:induction false} RowsFromFirst(r: Registry, peers: seq<u32>)
    requires Listed(r, peers) && peers != []
    ensures Listed(r, peers[1..]) && Rows(r, peers) == RowOf(r, peers[0]) + Rows(r, peers[1..])
    decreases |peers|
  {
    hide RowOf;
    var n := |peers| - 1;
    if n == 0 {
      assert peers[..0] == [] && peers[1..] == [];
    } else {
      var front, rest := peers[..n], peers[1..];
      RowsFromFirst(r, front);
      assert front[1..] == rest[..n - 1] && front[0] == peers[0] && rest[n - 1] == peers[n];
    }
  }

  lemma {:induction false} NonePulled(id: u32, host: Host, c: Contacts, n: nat, ks: Keystream, nonce: Nonce,
                                      clock: nat -> u64)
    requires IsHost(host)
    ensures Pulls(id, host, c, Zeros(ROW * n), ks, nonce, clock) == []
    decreases n
  {
    hide Learn1, IsHost, Posted, Zeros;
    var z := Zeros(ROW * n);
    if n != 0 {
      ZerosSplit(ROW, ROW * (n - 1));
      assert z[..ROW] == Zeros(ROW) && z[ROW..] == Zeros(ROW * (n - 1));
      assert z[4] == 0;
      NonePulled(id, host, Learn1(c, Zeros(ROW)), n - 1, ks, nonce, clock);
    }
  }

  lemma OnePulled(id: u32, host: Host, c: Contacts, r: Registry, peer: u32, ks: Keystream, nonce: Nonce,
                  clock: nat -> u64, n: nat)
    requires IsHost(host) && Consistent(r) && peer in r.addresses
    ensures |RowOf(r, peer)| == ROW
    ensures var out := PullAfter(id, host, Learn1(c, RowOf(r, peer)), RowOf(r, peer), ks, nonce, clock(n));
      AllAsk(out, id, if r.types[peer] == EDGE_DEVICE then [peer] else [], r, host, ks, clock)
  {
    hide Parse, Resolve, AddressText, Be16, Octets, Dotted, Learn1, RowOf, Posted, CarriesMessage, Asks;
    StartOfRow(r, peer);
    var after := Learn1(c, RowOf(r, peer));
    LearnRow(c, r, peer);
    var ip, port := StoredAddress(r, peer);
    ResolveAddress(ip, port);
    PostedCarries(after.addresses, id, peer, 6, 0, Octets(host.ip).value + Be16(host.port), 0, clock(n), ks, nonce);
    forall d | CarriesMessage(d, ks, id, peer, 6, 0, Octets(host.ip).value + Be16(host.port), 0, clock(n))
      && Resolve(r.addresses[peer]) == Some(d.to) ensures Asks(d, id, peer, r, host, ks, clock)
    {
      MessageAsks(d, id, peer, r, host, ks, clock, n);
    }
  }

  lemma StartOfRow(r: Registry, peer: u32)
    requires Consistent(r) && peer in r.addresses
    ensures |RowOf(r, peer)| == ROW && ReadU32(RowOf(r, peer)[..4]) == peer && RowOf(r, peer)[4] == r.types[peer]
  {
    hide IpBytes, PortNumber, Le, Be16, ReadU32;
    RowLength(r, peer);
    ReadBack32(peer);
    assert RowOf(r, peer)[..4] == Le(peer, 4);
  }

  lemma MessageAsks(d: Datagram, id: u32, peer: u32, r: Registry, host: Host, ks: Keystream, clock: nat -> u64, n: nat)
    requires IsHost(host) && peer in r.addresses && Resolve(r.addresses[peer]) == Some(d.to)
    requires CarriesMessage(d, ks, id, peer, 6, 0, Octets(host.ip).value + Be16(host.port), 0, clock(n))
    ensures Asks(d, id, peer, r, host, ks, clock)
  {
    hide Parse, Resolve, Be16, Octets;
  }

  lemma {:induction false} RowsPulled(id: u32, host: Host, c: Contacts, r: Registry, peers: seq<u32>, n: nat,
                                      ks: Keystream, nonce: Nonce, clock: nat -> u64)
    requires IsHost(host) && Consistent(r) && Listed(r, peers)
    ensures var out := Pulls(id, host, c, Rows(r, peers) + Zeros(ROW * n), ks, nonce, clock);
      AllAsk(out, id, Edges(r, peers), r, host, ks, clock)
    decreases |peers|
  {
    hide Consistent, AllAsk, IsHost, RowOf, Learn1, Zeros, PullAfter, Pulls, Edges, Listed;
    var payload := Rows(r, peers) + Zeros(ROW * n);
    if peers == [] {
      assert payload == Zeros(ROW * n);
      NonePulled(id, host, c, n, ks, nonce, clock);
      NoneAsk(id, r, peers, host, ks, clock);
    } else {
      FirstIsListed(r, peers);
      RowsFromFirst(r, peers);
      var row, rest := RowOf(r, peers[0]), Rows(r, peers[1..]) + Zeros(ROW * n);
      OnePulled(id, host, c, r, peers[0], ks, nonce, clock, |payload|);
      assert payload == row + rest;
      assert payload[0..] == payload && payload[0..0 + ROW] == row && payload[0 + ROW..] == rest;
      PullNext(id, host, c, payload, 0, ks, nonce, clock);
      RowsPulled(id, host, Learn1(c, row), r, peers[1..], n, ks, nonce, clock);
      AskFirst(PullAfter(id, host, Learn1(c, row), row, ks, nonce, clock(|payload|)),
               Pulls(id, host, Learn1(c, row), rest, ks, nonce, clock), id, r, peers, host, ks, clock);
    }
  }

  /** The datagrams ask these peers, one each, in this order. */
  ghost predicate AllAsk(out: seq<Datagram>, id: u32, edges: seq<u32>, r: Registry, host: Host, ks: Keystream,
                         clock: nat -> u64)
    requires IsHost(host)
  {
    |out| == |edges| && forall i :: 0 <= i < |out| ==> Asks(out[i], id, edges[i], r, host, ks, clock)
  }

  lemma FirstIsListed(r: Registry, peers: seq<u32>)
    requires Listed(r, peers) && peers != []
    ensures peers[0] in r.addresses && peers[0] in r.types && Listed(r, peers[1..])
  {
  }

  lemma NoneAsk(id: u32, r: Registry, peers: seq<u32>, host: Host, ks: Keystream, clock: nat -> u64)
    requires IsHost(host) && Listed(r, peers) && peers == []
    ensures AllAsk([], id, Edges(r, peers), r, host, ks, clock)
  {
  }

  lemma AskFirst(first: seq<Datagram>, rest: seq<Datagram>, id: u32, r: Registry, peers: seq<u32>, host: Host,
                 ks: Keystream, clock: nat -> u64)
    requires IsHost(host) && peers != [] && Listed(r, peers) && Listed(r, peers[1..])
    requires AllAsk(first, id, if r.types[peers[0]] == EDGE_DEVICE then [peers[0]] else [], r, host, ks, clock)
    requires AllAsk(rest, id, Edges(r, peers[1..]), r, host, ks, clock)
    ensures AllAsk(first + rest, id, Edges(r, peers), r, host, ks, clock)
  {
    hide Asks, IsHost, Listed;
  }

  /** While it enters a reply the satellite sends one request to every edge device in range, in
      the order of the reply, each to where the bootstrap says that device listens; padding
      makes it ask nobody. */
  lemma EdgesAreAsked(id: u32, host: Host, r: Registry, m: Metric, order: seq<u32>, c: Contacts, ks: Keystream,
                      nonce: Nonce, clock: nat -> u64)
    requires IsHost(host) && Consistent(r) && Enumerates(order, r.positions.Keys)
    requires ReplyPayload(r, m, id, order).Some?
    ensures var out := Pulls(id, host, c, ReplyPayload(r, m, id, order).value, ks, nonce, clock);
      var edges := Edges(r, Near(r, m, id, order));
      && AllAsk(out, id, edges, r, host, ks, clock)
      && forall k :: k in edges <==> InRange(r, m, id, k) && r.types[k] == 2
  {
    hide Consistent, InRange, Rows, Near, Zeros, IsHost, Pulls, AllAsk;
    var near := Near(r, m, id, order);
    RowsLength(r, near);
    NearCount(r, m, id, order);
    RowsPulled(id, host, c, r, near, |r.positions| - 1 - |near|, ks, nonce, clock);
    forall k: u32 ensures k in near <==> InRange(r, m, id, k) { InRangeScanned(r, m, id, order, k); }
  }

  // ----- Hop by hop -----

  /** The packet after `n` hops, starting from `start`; a DATA packet goes no further. */
  function LegAfter(start: Leg, n: nat): Option<Leg> {
    if n == 0 then Some(start)
    else
      var leg := LegAfter(start, n - 1);
      if leg.None? || leg.value.kind != ROUTE then None else Forwarded(leg.value.payload)
  }

  function StartLeg(route: seq<u32>, data: seq<byte>): Leg
    requires route != []
  {
    Leg(ROUTE, route[0], Compose(route, data))
  }

  lemma ForwardedRoute(route: seq<u32>, data: seq<byte>)
    requires |route| >= 2
    ensures Forwarded(Compose(route, data)) ==
      if |route| == 2 && |data| < 4 then Some(Leg(DATA, route[1], data))
      else Some(Leg(ROUTE, route[1], Compose(route[1..], data)))
  {
    hide Compose, Ids, Rest;
    var b := Compose(route, data);
    ReadRoute(route, data);
    ComposeFromFirst(route, data);
    ForwardDropsOneWord(b);
    IdsLength(b);
    IdsLength(data);
    if |data| < 4 { ShortPayload(data); }
  }

  lemma IdsLength(b: seq<byte>)
    ensures |Ids(b)| == |b| / 4
    ensures |Ids(b)| > 0 <==> |b| >= 4
  {
  }

  lemma ComposeFromFirst(route: seq<u32>, data: seq<byte>)
    requires route != []
    ensures |Compose(route, data)| >= 4 && Compose(route, data)[4..] == Compose(route[1..], data)
  {
    hide Le;
    assert [route[0]] + route[1..] == route;
    WordsFromFirst(route[0], route[1..]);
  }

  lemma {:induction false} RouteShrinks(route: seq<u32>, data: seq<byte>, n: nat)
    requires n < |route| && (|data| < 4 ==> n < |route| - 1)
    ensures LegAfter(StartLeg(route, data), n) == Some(Leg(ROUTE, route[n], Compose(route[n..], data)))
    decreases n
  {
    hide Compose, Forwarded;
    if n == 0 {
      assert route[0..] == route;
    } else {
      RouteShrinks(route, data, n - 1);
      ForwardedRoute(route[n - 1..], data);
      assert route[n - 1..][1..] == route[n..];
    }
  }

  /** A route of k + 1 ids brings its data to the last of them, unchanged and in a DATA packet,
      after exactly k hops if and only if there is a hop at all and the data is shorter than a
      word. */
  lemma DataArrivesIff(route: seq<u32>, data: seq<byte>)
    requires route != []
    ensures var k := |route| - 1;
      LegAfter(StartLeg(route, data), k) == Some(Leg(DATA, route[k], data)) <==> |route| >= 2 && |data| < 4
  {
    hide Compose, Forwarded;
    var k := |route| - 1;
    if k > 0 && |data| < 4 {
      RouteShrinks(route, data, k - 1);
      ForwardedRoute(route[k - 1..], data);
    } else if |data| >= 4 {
      RouteShrinks(route, data, k);
    }
  }

  /** Full words of the data are taken for more of the route. */
  lemma WordsBecomeRoute(route: seq<u32>, data: seq<byte>)
    ensures Compose(route, data) == Compose(route + Ids(data), Rest(data))
    ensures |Rest(data)| < 4
  {
    hide Compose, Ids, Rest;
    RewriteRoute(Compose(route, data));
    ReadRoute(route, data);
    RestLength(data);
  }

  lemma RestLength(data: seq<byte>)
    ensures |Rest(data)| < 4
  {
  }

  /** Whatever the data: its full words prolong the route, and the packet visits them too. After
      the last of them what is left of the data arrives in a DATA packet; with one id in all
      nothing is ever sent on. */
  lemma WhereDataEndsUp(route: seq<u32>, data: seq<byte>)
    requires route != []
    ensures var all := route + Ids(data);
      var k := |all| - 1;
      && (forall n :: 0 <= n < k ==> Stop(StartLeg(route, data), n, ROUTE, all[n]))
      && LegAfter(StartLeg(route, data), |all|) == None
      && (k > 0 ==> LegAfter(StartLeg(route, data), k) == Some(Leg(DATA, all[k], Rest(data))))
  {
    hide Compose, Forwarded, Ids, Rest, LegAfter;
    var all, start := route + Ids(data), StartLeg(route, data);
    var k := |all| - 1;
    WordsBecomeRoute(route, data);
    assert start == StartLeg(all, Rest(data));
    forall n | 0 <= n < k ensures Stop(start, n, ROUTE, all[n]) { RouteShrinks(all, Rest(data), n); }
    if k > 0 { DataArrivesIff(all, Rest(data)); }
    LastLeg(all, Rest(data));
  }

  /** The packet after `n` hops is of this kind and goes to this node. */
  predicate Stop(start: Leg, n: nat, kind: byte, to: u32) {
    var leg := LegAfter(start, n);
    leg.Some? && leg.value.kind == kind && leg.value.to == to
  }

  lemma LastLeg(route: seq<u32>, data: seq<byte>)
    requires route != [] && |data| < 4
    ensures LegAfter(StartLeg(route, data), |route|) == None
  {
    hide Compose, Forwarded;
    DataArrivesIff(route, data);
    if |route| == 1 {
      LastIdStays(route, data);
      assert LegAfter(StartLeg(route, data), 0) == Some(StartLeg(route, data));
    }
  }

  lemma LastIdStays(route: seq<u32>, data: seq<byte>)
    requires |route| == 1 && |data| < 4
    ensures Forwarded(Compose(route, data)) == None
  {
    hide Compose, Ids, Rest;
    ReadRoute(route, data);
    ShortPayload(data);
  }

  // ----- The echo -----

  /** A DATA packet that has come to the node it is addressed to is sent once more, to the same
      node, exactly when that node's own table holds its address. It is read there as the same
      packet, and it is the same bit for bit unless it was encrypted under another nonce. */
  lemma DataIsEchoedIff(id: u32, addresses: map<u32, Text>, frame: seq<byte>, ks: Keystream, nonce: Nonce, now: u64)
    requires |frame| >= HEADER_SIZE + 2 && Parse(frame, ks).Ok? && Parse(frame, ks).value.kind == DATA
    requires Parse(frame, ks).value.destination == id
    ensures var p := Parse(frame, ks).value;
      var out := Sends(id, addresses, p, ks, nonce, now);
      if id in addresses && Resolve(addresses[id]).Some? then
        |out| == 1 && out[0].to == Resolve(addresses[id]).value
        && ReadsAs(out[0].frame, p, ks)
        && (out[0].frame == frame <==> frame[9] != ENCRYPTED || nonce <= frame[HEADER_SIZE..|frame| - 2])
      else out == []
  {
    hide Parse, Frame, Resolve;
    var p := Parse(frame, ks).value;
    FrameRoundTrip(p, ks, nonce);
    PriorityOfParsed(frame, ks);
    if frame[9] != ENCRYPTED || nonce <= frame[HEADER_SIZE..|frame| - 2] {
      ParseRoundTrip(frame, ks, nonce);
    } else {
      NonceInFrame(p, ks, nonce);
    }
  }

  // ----- What a node sends on -----

  /** A node that forwards names itself as the source, and sends what it got without the first
      word; from a route of two it sends the data alone, in a DATA packet. */
  lemma ForwardsInOwnName(id: u32, addresses: map<u32, Text>, p: Packet, ks: Keystream, nonce: Nonce, now: u64)
    requires p.kind == 4
    ensures var out, ids := Sends(id, addresses, p, ks, nonce, now), Ids(p.payload);
      && |out| <= 1
      && (out != [] <==> |ids| >= 2 && ids[1] in addresses && Resolve(addresses[ids[1]]).Some?)
      && forall d :: d in out ==>
           (|ids| >= 2 && Resolve(addresses[ids[1]]) == Some(d.to)
            && if |ids| == 2 then CarriesMessage(d, ks, id, ids[1], 1, 0, p.payload[8..], 0, now)
               else CarriesMessage(d, ks, id, ids[1], 4, 0, p.payload[4..], 0, now))
  {
    hide Posted, Resolve, CarriesMessage, Ids, Rest, Compose;
    var ids := Ids(p.payload);
    if |ids| >= 2 {
      var leg := Forwarded(p.payload).value;
      IdsLength(p.payload);
      ForwardDropsOneWord(p.payload);
      if |ids| == 2 { RestOfTwo(p.payload); }
      PostedCarries(addresses, id, leg.to, leg.kind, 0, leg.payload, 0, now, ks, nonce);
    }
  }

  lemma RestOfTwo(b: seq<byte>)
    requires |b| / 4 == 2
    ensures |b| >= 8 && Rest(b) == b[8..]
  {
  }

  /** A DATA packet is sent on as it is, to wherever its destination is. */
  lemma DataIsSentOn(id: u32, addresses: map<u32, Text>, p: Packet, ks: Keystream, nonce: Nonce, now: u64, d: Datagram)
    requires p.kind == 1
    ensures |Sends(id, addresses, p, ks, nonce, now)| <= 1
    ensures d in Sends(id, addresses, p, ks, nonce, now) <==>
      p.destination in addresses && Resolve(addresses[p.destination]) == Some(d.to) && d.frame == Frame(p, ks, nonce)
  {
    hide Posted, Frame, Resolve;
    PostedIff(addresses, p, ks, nonce, d);
  }

  /** A node sends nothing on packets of other kinds, and learns from discovery replies only. */
  lemma OthersAreIgnored(id: u32, addresses: map<u32, Text>, c: Contacts, p: Packet, ks: Keystream, nonce: Nonce,
                         now: u64)
    ensures p.kind != 1 && p.kind != 4 ==> Sends(id, addresses, p, ks, nonce, now) == []
    ensures p.kind != 2 ==> Knows(c, p) == c
    ensures p.kind == 2 ==> Knows(c, p) == Learn(c, p.payload)
  {
  }
}
