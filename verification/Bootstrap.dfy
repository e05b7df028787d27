/** The bootstrap node: registers peers, answers discovery and computes routes. */
module Bootstrap {
  import opened Bytes
  import opened Iteration
  import opened Addresses
  import opened Packets
  import opened IpTable
  import opened Routing
  import opened RoutePayload
  import opened Registry
  import opened Discovery

  /** The route search throws: the requester is not where it wants to be and has no position. */
  predicate CannotStart(ps: Positions, source: u32, destination: u32) {
    source != destination && source !in ps
  }

  /** What the node may send on a packet, for some iteration order, once its tables are `r`. */
  ghost predicate Answers(id: u32, r: Registry, m: Metric, p: Packet, ks: Keystream, nonce: Nonce, now: u64,
                          out: seq<Datagram>) {
    if p.kind == DISCOVERY then
      exists order: seq<u32> :: ScansAll(order, r) && out == DiscoveryAnswer(id, r, m, p.source, order, ks, nonce, now)
    else if p.kind == HANDSHAKE then
      exists order: seq<u32> :: ScansAll(order, r) && out == HandshakeAnswer(id, r, m, p.source, order, ks, nonce, now)
    else if p.kind == ROUTE then
      if CannotStart(r.positions, p.source, p.destination) then out == []
      else exists route: seq<u32> ::
        IsRoute(route, r.positions, m, p.source, p.destination) && out == RouteAnswer(id, r, p, route, ks, nonce, now)
    else out == []
  }

  ghost predicate ScansAll(order: seq<u32>, r: Registry) {
    Enumerates(order, r.positions.Keys)
  }

  function DiscoveryAnswer(id: u32, r: Registry, m: Metric, to: u32, order: seq<u32>, ks: Keystream, nonce: Nonce,
                           now: u64): seq<Datagram> {
    var payload := ReplyPayload(r, m, to, order);
    if payload.None? || payload.value == [] then []
    else Posted(r.addresses, Message(id, to, DISCOVERY, 0, payload.value, 0, now), ks, nonce)
  }

  function HandshakeAnswer(id: u32, r: Registry, m: Metric, to: u32, order: seq<u32>, ks: Keystream, nonce: Nonce,
                           now: u64): seq<Datagram> {
    var payload := ReplyPayload(r, m, to, order);
    if payload.None? then []
    else Posted(r.addresses, Message(id, to, DISCOVERY, 255, payload.value, 1, now), ks, nonce)
  }

  function RouteAnswer(id: u32, r: Registry, p: Packet, route: seq<u32>, ks: Keystream, nonce: Nonce,
                       now: u64): seq<Datagram> {
    Posted(r.addresses, Message(id, p.source, ROUTE, 0, Compose(route, p.payload), 0, now), ks, nonce)
  }

  class PeerBootstrapNode {
    const id: u32
    const metric: Metric
    const keystream: Keystream
    const ipTable: DeviceIPTable
    var positions: Positions
    var types: map<u32, byte>

    ghost function Contents(): Registry
      reads this, ipTable
    {
      Registry(ipTable.table, types, positions)
    }

    constructor (id: u32, metric: Metric, keystream: Keystream)
      ensures this.id == id && this.metric == metric && this.keystream == keystream
      ensures Contents() == EMPTY && fresh(ipTable)
    {
      this.id, this.metric, this.keystream := id, metric, keystream;
      ipTable := new DeviceIPTable();
      positions, types := map[], map[];
    }

    /** Scans the peers in the order `ids`, whatever it is, and stops at the first that is visited
        or no nearer than the one before. */
    method GreedyForwarding(sourceId: u32, optimalRoute: seq<u32>, ids: seq<u32>) returns (r: Option<u32>)
      requires Enumerates(ids, positions.Keys)
      ensures r.None? <==> sourceId !in positions
      ensures r.Some? ==> HopFor(ids, positions, metric, sourceId, optimalRoute, r.value)
    {
      hide HopFor, RunSoFar, Enumerates;
      if sourceId !in positions {
        return None;
      }
      var requester := positions[sourceId];
      var nextHop := NO_HOP;
      var minDistance := metric.farthest;
      assert forall k :: k in ids ==> k in positions by { OnlyKeys(ids, positions); }
      StartOfRun(positions, metric, sourceId, optimalRoute);
      for k := 0 to |ids|
        invariant RunSoFar(ids[..k], positions, metric, sourceId, optimalRoute, nextHop, minDistance)
      {
        var peer := ids[k];
        assert ids[..k + 1] == ids[..k] + [peer];
        if sourceId != peer {
          var distance := metric.distance(requester, positions[peer]);
          if distance < minDistance && peer !in optimalRoute {
            ExtendRun(ids[..k], peer, positions, metric, sourceId, optimalRoute, nextHop, minDistance);
            minDistance := distance;
            nextHop := peer;
          } else {
            EndRun(ids, k, positions, metric, sourceId, optimalRoute, nextHop, minDistance);
            return Some(nextHop);
          }
        } else {
          SkipSource(ids[..k], positions, metric, sourceId, optimalRoute, nextHop, minDistance);
        }
      }
      assert ids[..|ids|] == ids;
      FullRun(ids, positions, metric, sourceId, optimalRoute, nextHop, minDistance);
      r := Some(nextHop);
    }

    /** The route search: hop until the destination or a dead end. */
    method FindRoute(source: u32, destination: u32) returns (r: Option<seq<u32>>)
      ensures r.None? <==> CannotStart(positions, source, destination)
      ensures r.Some? ==> IsRoute(r.value, positions, metric, source, destination)
    {
      hide GreedyPath, NextHop, HopFor, Distinct;
      var optimalRoute: seq<u32> := [];
      var peer := source;
      StartOfRoute(source, positions, metric);
      while peer != destination
        invariant Explored(optimalRoute + [peer], positions, metric, source)
        invariant optimalRoute == [] ==> peer == source
        invariant optimalRoute != [] ==> peer in positions && source in positions
        invariant destination !in optimalRoute
        decreases positions.Keys - (set k | k in optimalRoute)
      {
        var ids := Enumerate(positions.Keys);
        var nextHop := GreedyForwarding(peer, optimalRoute, ids);
        if nextHop.None? {
          return None;
        }
        SomeHop(ids, positions, metric, peer, optimalRoute, nextHop.value);
        LastUnvisited(optimalRoute, peer, positions, metric, source);
        LongerShrinks(positions.Keys, optimalRoute, peer);
        optimalRoute := optimalRoute + [peer];
        if nextHop.value == NO_HOP {
          return Some(optimalRoute);
        }
        AppendHop(optimalRoute, nextHop.value, positions, metric);
        peer := nextHop.value;
      }
      LastUnvisited(optimalRoute, peer, positions, metric, source);
      optimalRoute := optimalRoute + [destination];
      r := Some(optimalRoute);
    }

    /** The table is scanned in the order given. The records are written into a buffer sized for
        all other peers, zero to begin with. */
    method SerializeIpTable(requester: u32, order: seq<u32>) returns (r: Option<seq<byte>>)
      requires Consistent(Contents()) && Enumerates(order, positions.Keys)
      ensures r == ReplyPayload(Contents(), metric, requester, order)
    {
      hide Consistent, Near, Rows, RowOf, ReplyPayload, Written;
      ghost var reg := Contents();
      if requester !in positions {
        NoReply(reg, metric, requester, order);
        return None;
      }
      assert |positions| > 0;
      var response := new byte[ROW * (|positions| - 1)](_ => 0);
      var index := 0;
      NothingWritten(reg, metric, requester, response[..]);
      for k := 0 to |order|
        invariant Contents() == reg
        invariant Written(reg, metric, requester, order[..k], index, response[..])
      {
        var peer := order[k];
        if !InRange(reg, metric, requester, peer) {
          NoRow(reg, metric, requester, order, k, index, response[..]);
        }
        if peer != requester {
          var distance := metric.distance(positions[requester], positions[peer]);
          if distance <= RANGE {
            var text := ipTable.GetIp(peer);
            if text.None? {
              LookupFails(reg, metric, requester, order, k);
              return None;
            }
            SlotIsFree(reg, metric, requester, order, k, index, response[..]);
            var entry := MakeEntry(peer, text.value);
            RowLength(reg, peer);
            ghost var before := response[..];
            CopyInto(response, ROW * index, entry);
            RowWritten(reg, metric, requester, order, k, index, before, response[..]);
            index := index + 1;
          }
        }
      }
      assert order[..|order|] == order;
      WholeReply(reg, metric, requester, order, index, response[..]);
      r := Some(response[..]);
    }

    method MakeEntry(peer: u32, text: Text) returns (entry: seq<byte>)
      requires Consistent(Contents()) && peer in ipTable.table && text == ipTable.table[peer]
      ensures entry == RowOf(Contents(), peer)
    {
      hide IpOf, Stoi, PortText;
      ghost var ip, port := StoredAddress(Contents(), peer);
      var ipVector := ConvertIpPortToIpVector(text);
      var networkPort := Stoi(PortText(text));
      entry := Le(peer, 4) + [types[peer]] + ipVector.value + Be16(networkPort.value % 0x1_0000);
    }

    /** One incoming frame: the tables change as the registry says, and what is sent is one of
        the answers the packet allows. */
    method ReceiveData(buffer: seq<byte>, nonce: Nonce, now: u64) returns (out: seq<Datagram>)
      requires Receivable(buffer, keystream) && Consistent(Contents())
      modifies this, ipTable
      ensures Contents() == AfterFrame(old(Contents()), buffer, keystream) && Consistent(Contents())
      ensures Parse(buffer, keystream).Err? ==> out == []
      ensures Parse(buffer, keystream).Ok? ==>
        Answers(id, Contents(), metric, Parse(buffer, keystream).value, keystream, nonce, now, out)
    {
      hide Parse, Consistent, ReplyPayload, Posted, IsRoute, Compose, AddressText, Enumerates, ReadPosition;
      out := [];
      var parsed := Deserialize(buffer, keystream);
      if parsed.Err? {
        return;
      }
      var packet := parsed.value;
      PacketKeepsConsistent(Contents(), packet);
      if packet.kind == DISCOVERY {
        var order := Enumerate(positions.Keys);
        assert ScansAll(order, Contents()) by { Scanned(order, Contents()); }
        var payload := SerializeIpTable(packet.source, order);
        if payload.Some? && |payload.value| > 0 {
          out := SendData(ipTable, Message(id, packet.source, DISCOVERY, 0, payload.value, 0, now), keystream, nonce);
        }
        assert out == DiscoveryAnswer(id, Contents(), metric, packet.source, order, keystream, nonce, now);
      } else if packet.kind == ROUTE {
        var route := FindRoute(packet.source, packet.destination);
        if route.Some? {
          var payload := SerializeRoutePacket(route.value, packet.payload);
          out := SendData(ipTable, Message(id, packet.source, ROUTE, 0, payload, 0, now), keystream, nonce);
        }
      } else if packet.kind == HANDSHAKE {
        var ipPort := ConvertIpPortVectorToIpPortString(packet.payload[0..4], packet.payload[4..6]);
        var position := ReadPosition(packet.payload, 7);
        ipTable.UpdateIp(packet.source, ipPort);
        positions := positions[packet.source := position];
        types := types[packet.source := packet.payload[6]];
        assert packet.payload[4..6][..2] == packet.payload[4..6];
        var order := Enumerate(positions.Keys);
        assert ScansAll(order, Contents()) by { Scanned(order, Contents()); }
        var payload := SerializeIpTable(packet.source, order);
        if payload.Some? {
          out := SendData(ipTable, Message(id, packet.source, DISCOVERY, 255, payload.value, 1, now), keystream, nonce);
        }
        assert out == HandshakeAnswer(id, Contents(), metric, packet.source, order, keystream, nonce, now);
      } else if packet.kind == KEEP_ALIVE {
        positions := positions[packet.source := ReadPosition(packet.payload, 0)];
      }
    }
  }

  lemma Scanned(order: seq<u32>, r: Registry)
    requires Enumerates(order, r.positions.Keys)
    ensures ScansAll(order, r)
  {
  }

  // ----- Filling the reply buffer -----

  ghost predicate Written(r: Registry, m: Metric, id: u32, scanned: seq<u32>, index: nat, buffer: seq<byte>) {
    var near := Near(r, m, id, scanned);
    && id in r.positions && |buffer| == ROW * (|r.positions| - 1)
    && Listed(r, near) && index == |near| && ROW * index <= |buffer|
    && buffer == Rows(r, near) + Zeros(|buffer| - ROW * index)
  }

  lemma NoReply(r: Registry, m: Metric, id: u32, order: seq<u32>)
    requires id !in r.positions
    ensures ReplyPayload(r, m, id, order) == None
  {
  }

  lemma NothingWritten(r: Registry, m: Metric, id: u32, buffer: seq<byte>)
    requires id in r.positions && |buffer| == ROW * (|r.positions| - 1)
    requires forall i :: 0 <= i < |buffer| ==> buffer[i] == 0
    ensures Written(r, m, id, [], 0, buffer)
  {
    hide Zeros;
    assert buffer == Zeros(|buffer|);
  }

  lemma NearNext(r: Registry, m: Metric, id: u32, order: seq<u32>, k: nat)
    requires k < |order|
    ensures Near(r, m, id, order[..k + 1])
         == Near(r, m, id, order[..k]) + if InRange(r, m, id, order[k]) then [order[k]] else []
  {
    hide InRange;
    assert order[..k + 1][..k] == order[..k];
  }

  lemma LookupFails(r: Registry, m: Metric, id: u32, order: seq<u32>, k: nat)
    requires k < |order| && InRange(r, m, id, order[k]) && order[k] !in r.addresses
    ensures ReplyPayload(r, m, id, order) == None
  {
    hide InRange, Rows;
    assert order[k] in Near(r, m, id, order);
  }

  lemma SlotIsFree(r: Registry, m: Metric, id: u32, order: seq<u32>, k: nat, index: nat, buffer: seq<byte>)
    requires k < |order| && Enumerates(order, r.positions.Keys)
    requires Written(r, m, id, order[..k], index, buffer) && InRange(r, m, id, order[k])
    ensures ROW * index + ROW <= |buffer|
  {
    hide InRange, Rows, Near;
    NearNext(r, m, id, order, k);
    NearOfPrefix(r, m, id, order, k + 1);
    NearCount(r, m, id, order);
  }

  lemma NoRow(r: Registry, m: Metric, id: u32, order: seq<u32>, k: nat, index: nat, buffer: seq<byte>)
    requires k < |order| && !InRange(r, m, id, order[k]) && Written(r, m, id, order[..k], index, buffer)
    ensures Written(r, m, id, order[..k + 1], index, buffer)
  {
    hide InRange, Near, Rows;
    NearNext(r, m, id, order, k);
    assert Near(r, m, id, order[..k + 1]) == Near(r, m, id, order[..k]);
  }

  lemma RowWritten(r: Registry, m: Metric, id: u32, order: seq<u32>, k: nat, index: nat, before: seq<byte>,
                   after: seq<byte>)
    requires Consistent(r) && k < |order| && order[k] in r.addresses && InRange(r, m, id, order[k])
    requires Written(r, m, id, order[..k], index, before) && ROW * index + ROW <= |before|
    requires after == before[..ROW * index] + RowOf(r, order[k]) + before[ROW * index + ROW..]
    ensures Written(r, m, id, order[..k + 1], index + 1, after)
  {
    hide InRange, RowOf, Near, Zeros, Rows, Consistent;
    var near := Near(r, m, id, order[..k]);
    NearNext(r, m, id, order, k);
    RowsLength(r, near);
    RowLength(r, order[k]);
    assert order[k] in r.types by { SameIds(r); }
    RowsOneMore(r, near, order[k]);
    FillSlot(Rows(r, near), RowOf(r, order[k]), |before| - ROW * index, before);
  }

  lemma SameIds(r: Registry)
    requires Consistent(r)
    ensures r.addresses.Keys == r.types.Keys
  {
  }

  lemma RowsOneMore(r: Registry, peers: seq<u32>, peer: u32)
    requires Listed(r, peers) && peer in r.addresses && peer in r.types
    ensures Listed(r, peers + [peer]) && Rows(r, peers + [peer]) == Rows(r, peers) + RowOf(r, peer)
  {
    hide RowOf;
    assert (peers + [peer])[..|peers|] == peers;
  }

  lemma FillSlot(front: seq<byte>, row: seq<byte>, free: nat, buffer: seq<byte>)
    requires |row| == ROW <= free && buffer == front + Zeros(free)
    ensures buffer[..|front|] + row + buffer[|front| + ROW..] == front + row + Zeros(free - ROW)
  {
    hide Zeros;
    ZerosSplit(ROW, free - ROW);
    assert buffer[|front| + ROW..] == Zeros(free - ROW);
  }

  lemma WholeReply(r: Registry, m: Metric, id: u32, order: seq<u32>, index: nat, buffer: seq<byte>)
    requires Consistent(r) && Written(r, m, id, order, index, buffer)
    ensures ReplyPayload(r, m, id, order) == Some(buffer)
  {
    hide InRange, Near, Rows, Consistent;
    RowsLength(r, Near(r, m, id, order));
  }

  /** A route as far as it has been explored. */
  ghost predicate Explored(route: seq<u32>, ps: Positions, m: Metric, source: u32) {
    route != [] && route[0] == source && Distinct(route) && GreedyPath(route, ps, m)
  }

  lemma StartOfRoute(source: u32, ps: Positions, m: Metric)
    ensures Explored([] + [source], ps, m, source)
  {
  }

  lemma LastUnvisited(visited: seq<u32>, peer: u32, ps: Positions, m: Metric, source: u32)
    requires Explored(visited + [peer], ps, m, source)
    ensures peer !in visited
    ensures (visited + [peer])[..|visited + [peer]| - 1] == visited
  {
    var route := visited + [peer];
    assert forall i :: 0 <= i < |visited| ==> route[i] == visited[i] && route[i] != route[|visited|];
  }

  lemma LongerShrinks(keys: set<u32>, visited: seq<u32>, peer: u32)
    requires peer in keys && peer !in visited
    ensures keys - (set k | k in visited + [peer]) < keys - (set k | k in visited)
  {
    assert peer in visited + [peer];
    assert peer in keys - (set k | k in visited);
  }

  // ----- One greedy scan -----

  /** All peers scanned so far improve; the scan remembers the last of them and its distance. */
  predicate RunSoFar(scanned: seq<u32>, ps: Positions, m: Metric, source: u32, visited: seq<u32>, hop: u32, best: real)
  {
    var seen := Others(scanned, source);
    source in ps && (forall k :: k in seen ==> k in ps)
    && Improving(seen, ps, m, source, visited) && hop == LastOf(seen, |seen|)
    && best == if seen == [] then m.farthest else m.distance(ps[source], ps[seen[|seen| - 1]])
  }

  lemma StartOfRun(ps: Positions, m: Metric, source: u32, visited: seq<u32>)
    requires source in ps
    ensures RunSoFar([], ps, m, source, visited, NO_HOP, m.farthest)
  {
  }

  lemma OthersOneMore(scanned: seq<u32>, peer: u32, source: u32)
    ensures Others(scanned + [peer], source) == Others(scanned, source) + if peer == source then [] else [peer]
  {
    assert (scanned + [peer])[..|scanned|] == scanned;
  }

  lemma SkipSource(scanned: seq<u32>, ps: Positions, m: Metric, source: u32, visited: seq<u32>, hop: u32, best: real)
    requires RunSoFar(scanned, ps, m, source, visited, hop, best)
    ensures RunSoFar(scanned + [source], ps, m, source, visited, hop, best)
  {
    hide Others, Improving;
    OthersOneMore(scanned, source, source);
    assert Others(scanned + [source], source) == Others(scanned, source);
  }

  lemma ExtendRun(scanned: seq<u32>, peer: u32, ps: Positions, m: Metric, source: u32, visited: seq<u32>, hop: u32,
                  best: real)
    requires RunSoFar(scanned, ps, m, source, visited, hop, best)
    requires peer in ps && peer != source && peer !in visited && m.distance(ps[source], ps[peer]) < best
    ensures RunSoFar(scanned + [peer], ps, m, source, visited, peer, m.distance(ps[source], ps[peer]))
  {
    hide Others;
    OthersOneMore(scanned, peer, source);
    var seen, longer := Others(scanned, source), Others(scanned + [peer], source);
    forall i | 0 <= i < |longer| ensures Improves(longer, i, ps, m, source, visited) {
      assert i < |seen| ==> Improves(seen, i, ps, m, source, visited);
    }
  }

  lemma EndRun(ids: seq<u32>, k: nat, ps: Positions, m: Metric, source: u32, visited: seq<u32>, hop: u32, best: real)
    requires k < |ids| && Enumerates(ids, ps.Keys)
    requires RunSoFar(ids[..k], ps, m, source, visited, hop, best)
    requires ids[k] != source && (ids[k] in visited || m.distance(ps[source], ps[ids[k]]) >= best)
    ensures HopFor(ids, ps, m, source, visited, hop)
  {
    hide Others;
    var seen, others := Others(ids[..k], source), Others(ids, source);
    assert ids[..k + 1] == ids[..k] + [ids[k]];
    OthersOneMore(ids[..k], ids[k], source);
    OthersOfPrefix(ids, source, k);
    OthersOfPrefix(ids, source, k + 1);
    var n := |seen|;
    assert others[..n] == seen && others[..n + 1] == seen + [ids[k]];
    assert !Improves(others[..n + 1], n, ps, m, source, visited);
    assert Scans(ids, n, ps, m, source, visited, hop);
  }

  lemma FullRun(ids: seq<u32>, ps: Positions, m: Metric, source: u32, visited: seq<u32>, hop: u32, best: real)
    requires Enumerates(ids, ps.Keys) && RunSoFar(ids, ps, m, source, visited, hop, best)
    ensures HopFor(ids, ps, m, source, visited, hop)
  {
    hide Others, Improving;
    var others := Others(ids, source);
    assert others[..|others|] == others;
    assert Scans(ids, |others|, ps, m, source, visited, hop);
  }

  // ----- What is answered, and how -----

  /** Some peer in range has a position but no address. */
  ghost predicate Unregistered(r: Registry, m: Metric, id: u32) {
    exists k :: InRange(r, m, id, k) && k !in r.addresses
  }

  /** At most one datagram, to where the addressee is, with the fields of a discovery reply. */
  predicate IsReply(out: seq<Datagram>, id: u32, r: Registry, to: u32, sequence: u32, payloadType: u16, ks: Keystream,
                    now: u64, payload: seq<byte>) {
    |out| == 1 && to in r.addresses && Resolve(r.addresses[to]) == Some(out[0].to)
    && CarriesMessage(out[0], ks, id, to, 2, sequence, payload, payloadType, now)
  }

  /** A peer that has just registered is told of the peers in range, with sequence number 255 and
      payload type 1, unless one of them is unregistered; an empty reply is sent too. */
  lemma HandshakeIsAnsweredIff(id: u32, r: Registry, m: Metric, p: Packet, ks: Keystream, nonce: Nonce, now: u64,
                               out: seq<Datagram>)
    requires Consistent(r) && p.kind == 0 && p.source in r.addresses
    requires Answers(id, r, m, p, ks, nonce, now, out)
    ensures out == [] <==> Unregistered(r, m, p.source)
    ensures out != [] ==> exists order: seq<u32> ::
      (ScansAll(order, r) && ReplyPayload(r, m, p.source, order).Some?
       && IsReply(out, id, r, p.source, 255, 1, ks, now, ReplyPayload(r, m, p.source, order).value))
  {
    hide Posted, ReplyPayload, Consistent, Resolve, Parse, CarriesMessage, InRange, Enumerates;
    var order: seq<u32> :| ScansAll(order, r) && out == HandshakeAnswer(id, r, m, p.source, order, ks, nonce, now);
    ReplyExistsFor(r, m, p.source, order);
    RegisteredResolves(r, p.source);
    if ReplyPayload(r, m, p.source, order).Some? {
      PostedCarries(r.addresses, id, p.source, 2, 255, ReplyPayload(r, m, p.source, order).value, 1, now, ks, nonce);
    }
  }

  /** A peer that asks is answered exactly when it is registered, there are other peers, and all in
      range are registered. */
  lemma DiscoveryIsAnsweredIff(id: u32, r: Registry, m: Metric, p: Packet, ks: Keystream, nonce: Nonce, now: u64,
                               out: seq<Datagram>)
    requires Consistent(r) && p.kind == 2 && Answers(id, r, m, p, ks, nonce, now, out)
    ensures out != [] <==> p.source in r.addresses && |r.positions| >= 2 && !Unregistered(r, m, p.source)
    ensures out != [] ==> exists order: seq<u32> ::
      (ScansAll(order, r) && ReplyPayload(r, m, p.source, order).Some?
       && IsReply(out, id, r, p.source, 0, 0, ks, now, ReplyPayload(r, m, p.source, order).value))
  {
    hide Posted, ReplyPayload, Consistent, Resolve, Parse, CarriesMessage, InRange, Enumerates;
    var order: seq<u32> :| ScansAll(order, r) && out == DiscoveryAnswer(id, r, m, p.source, order, ks, nonce, now);
    ReplyExistsFor(r, m, p.source, order);
    if p.source in r.addresses { RegisteredResolves(r, p.source); }
    if ReplyPayload(r, m, p.source, order).Some? {
      PostedCarries(r.addresses, id, p.source, 2, 0, ReplyPayload(r, m, p.source, order).value, 0, now, ks, nonce);
    }
  }

  lemma ReplyExistsFor(r: Registry, m: Metric, to: u32, order: seq<u32>)
    requires Consistent(r) && ScansAll(order, r)
    ensures to in r.addresses ==> to in r.positions
    ensures ReplyPayload(r, m, to, order).Some? <==> to in r.positions && !Unregistered(r, m, to)
    ensures ReplyPayload(r, m, to, order).Some? ==> |ReplyPayload(r, m, to, order).value| == 11 * (|r.positions| - 1)
  {
    hide ReplyPayload, InRange, Enumerates;
    ReplyExistsIff(r, m, to, order);
  }

  lemma RegisteredResolves(r: Registry, id: u32)
    requires Consistent(r) && id in r.addresses
    ensures Resolve(r.addresses[id]).Some?
  {
    hide Resolve, AddressText;
    var ip, port := StoredAddress(r, id);
    ResolveAddress(ip, port);
  }

  /** A request is answered with a route and its own payload, if the requester has an address and
      the search can start; other packets are not answered. */
  lemma RouteIsAnsweredIff(id: u32, r: Registry, m: Metric, p: Packet, ks: Keystream, nonce: Nonce, now: u64,
                           out: seq<Datagram>)
    requires Consistent(r) && p.kind != 0 && p.kind != 2 && Answers(id, r, m, p, ks, nonce, now, out)
    ensures out != [] <==>
      p.kind == 4 && p.source in r.addresses && (p.source == p.destination || p.source in r.positions)
    ensures out != [] ==>
      (|out| == 1 && Resolve(r.addresses[p.source]) == Some(out[0].to)
       && exists route ::
            (IsRoute(route, r.positions, m, p.source, p.destination)
             && CarriesMessage(out[0], ks, id, p.source, 4, 0, Words(route) + p.payload, 0, now)))
  {
    hide Posted, Consistent, Resolve, Parse, CarriesMessage, IsRoute, Words;
    if p.source in r.addresses { RegisteredResolves(r, p.source); }
    if p.kind == 4 && !CannotStart(r.positions, p.source, p.destination) {
      var route :| IsRoute(route, r.positions, m, p.source, p.destination)
        && out == RouteAnswer(id, r, p, route, ks, nonce, now);
      PostedCarries(r.addresses, id, p.source, 4, 0, Words(route) + p.payload, 0, now, ks, nonce);
    }
  }
}
