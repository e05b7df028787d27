/** Whether the data of a request ends up where it was asked to go, and a whole history in which
    it does, from empty tables on. */
module Service {
  import opened Bytes
  import opened Iteration
  import opened Addresses
  import opened Packets
  import opened Routing
  import opened RoutePayload
  import opened Registry
  import opened Discovery
  import opened Satellite
  import opened Network
  import opened Handshake
  import opened Constellation
  import opened Reachability
  import Bootstrap

  // ----- The destination that was asked for -----

  function LastId(q: Request): u32
    requires q.route != []
  {
    q.route[|q.route| - 1]
  }

  lemma EndOfRoute(id: u32, route: seq<u32>, data: seq<byte>, ps: Positions, m: Metric, s: u32, t: u32)
    requires IsRoute(route, ps, m, s, t) && |data| < 4
    ensures Effective(Request(route, data, id)) == Request(route, data, id) && route != []
    ensures LastId(Request(route, data, id)) == t <==> t in route
  {
    hide Stuck, GreedyPath, Distinct, Effective;
    RouteReachesOrStops(route, ps, m, s, t);
    ReducedIsEffective(Request(route, data, id));
  }

  /** The end of the route, where `RequestIsServed` brings the data, is the destination asked for,
      whatever the order of iteration, exactly when that destination is the only choice. */
  lemma ArrivesAsAskedIff(id: u32, r: Registry, m: Metric, p: Packet)
    requires p.source in r.positions && p.source != p.destination && |p.payload| < 4
    ensures (forall route :: IsRoute(route, r.positions, m, p.source, p.destination) ==>
               route != [] && LastId(Request(route, p.payload, id)) == p.destination)
      <==> OnlyChoice(r.positions, m, p.source, p.destination)
  {
    hide IsRoute, OnlyChoice, InOneOrder;
    var s, t := p.source, p.destination;
    AlwaysReachesIff(r.positions, m, s, t);
    forall route | IsRoute(route, r.positions, m, s, t)
      ensures route != [] && (LastId(Request(route, p.payload, id)) == t <==> t in route)
    {
      EndOfRoute(id, route, p.payload, r.positions, m, s, t);
    }
  }

  /** If the destination is the only choice and the requester has heard of it, one delivery brings
      the data there. */
  lemma OnlyChoiceIsServed(homes: Homes, ks: Keystream, id: u32, m: Metric, w: World, w': World, frame: seq<byte>,
                           p: Packet, route: seq<u32>, out: seq<Datagram>, nonce: Nonce, now: u64)
    returns (run: seq<World>, g: Flight)
    requires WellPlaced(homes) && Sound(homes, ks, false, w)
    requires Hears(homes, ks, id, m, w, w', frame, route, out, nonce, now)
    requires |frame| >= HEADER_SIZE + 2 && Parse(frame, ks) == Ok(p) && p.kind == ROUTE && |p.payload| < 4
    requires p.source in w'.registry.positions && p.source != p.destination
    requires OnlyChoice(w'.registry.positions, m, p.source, p.destination)
    requires p.source in w'.registry.addresses && HasContact(w', p.source, p.destination)
    ensures IsHistory(homes, ks, id, m, false, run) && run[0] == w' && |run| == 2
    ensures Arrived(homes, ks, run[1].net, g, Request([p.source, p.destination], p.payload, id))
  {
    hide Parse, Sound, Hears, Launched, OnlyChoice, WellPlaced, IsHistory, Arrived, Effective, HasContact, IsRoute;
    HearsRequest(homes, ks, id, m, w, w', frame, p, route, out, nonce, now);
    LaunchedIsRoute(ks, w.net, w'.net, id, w'.registry, m, p, route, nonce, now);
    OnlyChoiceIsRoute(route, w'.registry.positions, m, p.source, p.destination);
    ReducedIsEffective(Request(route, p.payload, id));
    run, g := RequestIsServed(homes, ks, id, m, w, w', frame, p, route, out, nonce, now);
  }

  lemma LaunchedIsRoute(ks: Keystream, n: Net, n': Net, id: u32, r: Registry, m: Metric, p: Packet, route: seq<u32>,
                        nonce: Nonce, now: u64)
    requires Launched(ks, n, n', id, r, m, p, route, nonce, now)
    ensures IsRoute(route, r.positions, m, p.source, p.destination)
  {
    hide IsRoute;
  }

  // ----- Joining histories -----

  lemma OneState(homes: Homes, ks: Keystream, id: u32, m: Metric, w: World)
    ensures IsHistory(homes, ks, id, m, false, [w])
  {
  }

  lemma OneMore(homes: Homes, ks: Keystream, id: u32, m: Metric, run: seq<World>, w: World)
    requires IsHistory(homes, ks, id, m, false, run) && Next(homes, ks, id, m, false, run[|run| - 1], w)
    ensures IsHistory(homes, ks, id, m, false, run + [w])
  {
    hide Next;
    var longer := run + [w];
    forall i | 0 <= i < |longer| - 1 ensures NextAt(homes, ks, id, m, false, longer, i) {
      if i < |run| - 1 { assert NextAt(homes, ks, id, m, false, run, i); }
    }
  }

  lemma HistoriesJoin(homes: Homes, ks: Keystream, id: u32, m: Metric, a: seq<World>, b: seq<World>)
    requires IsHistory(homes, ks, id, m, false, a) && IsHistory(homes, ks, id, m, false, b) && a[|a| - 1] == b[0]
    ensures IsHistory(homes, ks, id, m, false, a + b[1..])
    ensures (a + b[1..])[0] == a[0] && (a + b[1..])[|a + b[1..]| - 1] == b[|b| - 1]
  {
    hide Next;
    var longer := a + b[1..];
    forall i | 0 <= i < |longer| - 1 ensures NextAt(homes, ks, id, m, false, longer, i) {
      if i < |a| - 1 {
        assert NextAt(homes, ks, id, m, false, a, i);
      } else {
        assert NextAt(homes, ks, id, m, false, b, i - |a| + 1);
      }
    }
  }

  // ----- From empty tables -----

  /** A peer as it is: where it listens, what it is, where it is. */
  datatype Peer = Peer(id: u32, ip: seq<byte>, port: u16, peerType: byte, position: Position)

  predicate IsPeer(homes: Homes, a: Peer) {
    |a.ip| == 4 && a.id in homes && homes[a.id] == Endpoint(Dotted(a.ip), a.port)
  }

  function Enter(r: Registry, a: Peer): Registry {
    Registry(r.addresses[a.id := AddressText(a.ip, a.port)], r.types[a.id := a.peerType],
             r.positions[a.id := a.position])
  }

  /** The bootstrap node hears the handshake of an honest peer. */
  lemma HearsHandshake(homes: Homes, ks: Keystream, id: u32, m: Metric, w: World, a: Peer, nonce: Nonce, now: u64)
    returns (w': World)
    requires IsPeer(homes, a)
    ensures Next(homes, ks, id, m, false, w, w')
    ensures w'.registry == Enter(w.registry, a) && w'.contacts == w.contacts && w'.net == w.net
  {
    hide Parse, Frame, Bootstrap.HandshakeAnswer, HonestFrame, AfterFrame, HandshakePacket, Enter, Dotted, Enumerates;
    var frame := Frame(HandshakePacket(a.id, a.ip, a.port, a.peerType, a.position, now), ks, nonce);
    var r := Enter(w.registry, a);
    HandshakeIsHonest(homes, ks, w.registry, a, nonce, now);
    var order := AnyOrder(r.positions.Keys);
    var out := Bootstrap.HandshakeAnswer(id, r, m, a.id, order, ks, nonce, now);
    w' := World(r, w.contacts, w.replies + (set d | d in out), w.net);
    assert Bootstrap.ScansAll(order, r);
    assert Hears(homes, ks, id, m, w, w', frame, [], out, nonce, now);
  }

  lemma HandshakeIsHonest(homes: Homes, ks: Keystream, r: Registry, a: Peer, nonce: Nonce, now: u64)
    requires IsPeer(homes, a)
    ensures var frame := Frame(HandshakePacket(a.id, a.ip, a.port, a.peerType, a.position, now), ks, nonce);
      HonestFrame(homes, frame, ks) && AfterFrame(r, frame, ks) == Enter(r, a)
      && |frame| >= HEADER_SIZE + 2 && Parse(frame, ks).Ok?
      && Parse(frame, ks).value.kind == HANDSHAKE && Parse(frame, ks).value.source == a.id
  {
    hide Parse, Frame, AddressText, Dotted, ReadPosition, Payload, AfterFrame, Be16, ReadBe16;
    HandshakeRegisters(r, a.id, a.ip, a.port, a.peerType, a.position, ks, nonce, now);
    FrameRoundTrip(HandshakePacket(a.id, a.ip, a.port, a.peerType, a.position, now), ks, nonce);
    PayloadPieces(a.ip, a.port, a.peerType, a.position);
    Be16RoundTrip(a.port, Be16(a.port));
  }

  /** A request for neighbours or for a route is read as sent and changes no table. */
  lemma RequestIsHonest(homes: Homes, ks: Keystream, r: Registry, p: Packet, nonce: Nonce)
    requires p.kind == DISCOVERY || p.kind == ROUTE
    ensures HonestFrame(homes, Frame(p, ks, nonce), ks) && AfterFrame(r, Frame(p, ks, nonce), ks) == r
    ensures ReadsAs(Frame(p, ks, nonce), p, ks)
  {
    hide Parse, Frame;
    FrameRoundTrip(p, ks, nonce);
  }

  /** The bootstrap node hears a peer ask for its neighbours. */
  lemma HearsDiscovery(homes: Homes, ks: Keystream, id: u32, m: Metric, w: World, a: u32, nonce: Nonce, now: u64)
    returns (w': World, order: seq<u32>)
    ensures Next(homes, ks, id, m, false, w, w') && Enumerates(order, w.registry.positions.Keys)
    ensures w'.registry == w.registry && w'.contacts == w.contacts && w'.net == w.net
    ensures forall d :: d in Bootstrap.DiscoveryAnswer(id, w.registry, m, a, order, ks, nonce, now) ==> d in w'.replies
  {
    hide Parse, Frame, Bootstrap.DiscoveryAnswer, Enumerates, HonestFrame, AfterFrame;
    var p := Message(a, BOOTSTRAP_ID, DISCOVERY, 0, [], 0, now);
    var frame := Frame(p, ks, nonce);
    RequestIsHonest(homes, ks, w.registry, p, nonce);
    order := AnyOrder(w.registry.positions.Keys);
    var out := Bootstrap.DiscoveryAnswer(id, w.registry, m, a, order, ks, nonce, now);
    w' := w.(replies := w.replies + (set d | d in out));
    assert Bootstrap.ScansAll(order, w.registry);
    assert Hears(homes, ks, id, m, w, w', frame, [], out, nonce, now);
  }

  /** A registered satellite gets the answer and learns of a registered peer in range. */
  lemma LearnsOfPeer(homes: Homes, ks: Keystream, id: u32, m: Metric, w: World, order: seq<u32>, a: u32, b: u32,
                     nonce: Nonce, now: u64) returns (w': World)
    requires WellPlaced(homes) && Sound(homes, ks, false, w) && Enumerates(order, w.registry.positions.Keys)
    requires a in w.contacts && a in w.registry.addresses && b != 0 && InRange(w.registry, m, a, b)
    requires forall k :: k in w.registry.positions ==> k in w.registry.addresses
    requires forall d :: d in Bootstrap.DiscoveryAnswer(id, w.registry, m, a, order, ks, nonce, now) ==> d in w.replies
    ensures Next(homes, ks, id, m, false, w, w') && HasContact(w', a, b)
    ensures w'.registry == w.registry && w'.net == w.net && w'.contacts.Keys == w.contacts.Keys
  {
    hide Parse, Posted, Consistent, RightAddresses, Exact, Learn, Resolve, Enumerates, ReplyPayload, InRange, Sound,
      WellPlaced, Padded, Taught, Hearing, Forwarding, Losing, Copying;
    var r := w.registry;
    SoundParts(homes, ks, w);
    var payload := AnswerPayload(homes, r, m, a, b, order);
    var p := Message(id, a, DISCOVERY, 0, payload, 0, now);
    RegistryIsExact(homes, r);
    ExactThere(homes, r.addresses, a);
    PostedIfKnown(r.addresses, p, ks, nonce);
    PostedMessage(homes, r.addresses, p, ks, nonce);
    var d := Posted(r.addresses, p, ks, nonce)[0];
    assert d in Bootstrap.DiscoveryAnswer(id, r, m, a, order, ks, nonce, now);
    var c := w.contacts[a];
    EntryTaught(r, m, a, order, c, b);
    TaughtContact(r, m, a, c, Learn(c, payload), b);
    w' := w.(contacts := w.contacts[a := Learn(c, payload)]);
    assert Learns(homes, ks, w, w', d, a);
  }

  lemma TaughtContact(r: Registry, m: Metric, a: u32, c: Contacts, d: Contacts, b: u32)
    requires Taught(r, m, a, c, d, b) && InRange(r, m, a, b)
    ensures b in d.addresses
  {
  }

  lemma AnswerPayload(homes: Homes, r: Registry, m: Metric, a: u32, b: u32, order: seq<u32>)
    returns (payload: seq<byte>)
    requires RegistryIsRight(homes, r) && Enumerates(order, r.positions.Keys) && InRange(r, m, a, b)
    requires forall k :: k in r.positions ==> k in r.addresses
    ensures ReplyPayload(r, m, a, order) == Some(payload) && payload != []
  {
    hide Consistent, RightAddresses, ReplyPayload, Enumerates;
    ReplyExistsIff(r, m, a, order);
    payload := ReplyPayload(r, m, a, order).value;
    assert {a, b} <= r.positions.Keys;
    Fewer({a, b}, r.positions.Keys);
  }

  /** The bootstrap node hears a request whose destination is the only choice. */
  lemma HearsRoute(homes: Homes, ks: Keystream, id: u32, m: Metric, w: World, a: u32, b: u32, data: seq<byte>,
                   nonce: Nonce, now: u64)
    returns (w': World, frame: seq<byte>, p: Packet, out: seq<Datagram>)
    requires a != b && a in w.registry.positions && OnlyChoice(w.registry.positions, m, a, b)
    ensures |frame| >= HEADER_SIZE + 2 && Parse(frame, ks) == Ok(p)
    ensures p.source == a && p.destination == b && p.kind == ROUTE && p.payload == data
    ensures Hears(homes, ks, id, m, w, w', frame, [a, b], out, nonce, now)
    ensures w'.registry == w.registry && w'.contacts == w.contacts
  {
    hide Parse, Frame, Bootstrap.RouteAnswer, OnlyChoice, IsRoute, HonestFrame, AfterFrame;
    var sent := Message(a, BOOTSTRAP_ID, ROUTE, 0, data, 0, now).(destination := b);
    frame := Frame(sent, ks, nonce);
    RequestIsHonest(homes, ks, w.registry, sent, nonce);
    p := Parse(frame, ks).value;
    OnlyChoiceGivesRoute(w.registry.positions, m, a, b);
    out := Bootstrap.RouteAnswer(id, w.registry, p, [a, b], ks, nonce, now);
    var n := w.net;
    w' := w.(net := Net(n.requests + [Request([a, b], data, id)], n.flights + Tagged(|n.requests|, out),
                        n.handled + [[]]));
  }

  lemma NextHears(homes: Homes, ks: Keystream, id: u32, m: Metric, w: World, w': World, frame: seq<byte>,
                  route: seq<u32>, out: seq<Datagram>, nonce: Nonce, now: u64)
    requires Hears(homes, ks, id, m, w, w', frame, route, out, nonce, now)
    ensures Next(homes, ks, id, m, false, w, w')
  {
    hide Hears;
  }

  /** Two satellites in range of each other register, the first asks for its neighbours and then
      for a route to the second: there is a history from empty tables in which its data arrives
      there. */
  lemma TwoSatellites(homes: Homes, ks: Keystream, id: u32, m: Metric, a: Peer, b: Peer, data: seq<byte>, nonce: Nonce,
                      now: u64) returns (run: seq<World>, g: Flight)
    requires WellPlaced(homes) && IsPeer(homes, a) && IsPeer(homes, b) && a.id != b.id && b.id != 0 && b.id != NO_HOP
    requires m.distance(a.position, b.position) <= RANGE && RANGE < m.farthest && |data| < 4
    ensures IsHistory(homes, ks, id, m, false, run) && run[0] == Start({a.id, b.id})
    ensures Arrived(homes, ks, run[|run| - 1].net, g, Request([a.id, b.id], data, id))
  {
    hide Next, Sound, WellPlaced, IsHistory, IsPeer, Arrived, Hears, Parse, HasContact, AddressText,
      Bootstrap.DiscoveryAnswer;
    var start := Start({a.id, b.id});
    OneState(homes, ks, id, m, start);
    run := [start];
    var w1 := HearsHandshake(homes, ks, id, m, start, a, nonce, now);
    OneMore(homes, ks, id, m, run, w1);
    run := run + [w1];
    var w2 := HearsHandshake(homes, ks, id, m, w1, b, nonce, now);
    OneMore(homes, ks, id, m, run, w2);
    run := run + [w2];
    var w3, order := HearsDiscovery(homes, ks, id, m, w2, a.id, nonce, now);
    OneMore(homes, ks, id, m, run, w3);
    run := run + [w3];
    HistoryIsSound(homes, ks, false, id, m, run, {a.id, b.id}, 3);
    var w4 := LearnsOfPeer(homes, ks, id, m, w3, order, a.id, b.id, nonce, now);
    OneMore(homes, ks, id, m, run, w4);
    run := run + [w4];
    HistoryIsSound(homes, ks, false, id, m, run, {a.id, b.id}, 4);
    var w5, frame, p, out := HearsRoute(homes, ks, id, m, w4, a.id, b.id, data, nonce, now);
    NextHears(homes, ks, id, m, w4, w5, frame, [a.id, b.id], out, nonce, now);
    OneMore(homes, ks, id, m, run, w5);
    run := run + [w5];
    KeepsContact(w4, w5, a.id, b.id);
    var rest;
    rest, g := OnlyChoiceIsServed(homes, ks, id, m, w4, w5, frame, p, [a.id, b.id], out, nonce, now);
    HistoriesJoin(homes, ks, id, m, run, rest);
    run := run + rest[1..];
  }

  lemma KeepsContact(w: World, w': World, a: u32, b: u32)
    requires HasContact(w, a, b) && w'.contacts == w.contacts
    ensures HasContact(w', a, b)
  {
  }
}
