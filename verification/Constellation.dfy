/** The whole system: the tables of the bootstrap node and of the satellites, the discovery
    replies on their way and the routed packets in flight. Peers tell the truth about where they
    listen; nothing is assumed of the tables, which start out empty. */
module Constellation {
  import opened Bytes
  import opened Iteration
  import opened Addresses
  import opened Packets
  import opened Routing
  import opened RoutePayload
  import opened Registry
  import opened Discovery
  import opened Satellite
  import opened Network
  import opened Handshake
  import Bootstrap
  import Reachability

  /** Discovery replies are kept once sent: each may be delivered late, never, or repeatedly. */
  datatype World = World(registry: Registry, contacts: map<u32, Contacts>, replies: set<Datagram>, net: Net)

  function Start(satellites: set<u32>): World {
    World(EMPTY, map id | id in satellites :: Contacts(map[], map[]), {}, QUIET)
  }

  // ----- Steps -----

  /** Different ids lead to different places, and id 0, which padding puts into the tables, leads
      where the zeros point. */
  predicate WellPlaced(homes: Homes) {
    OneNodePerHome(homes) && 0 in homes && homes[0] == ZeroEndpoint()
  }

  /** The bootstrap node `id` receives `frame`. Its tables change, and what it sends goes out as
      a discovery reply or as the start of a route. */
  ghost predicate Hears(homes: Homes, ks: Keystream, id: u32, m: Metric, w: World, w': World, frame: seq<byte>,
                        route: seq<u32>, out: seq<Datagram>, nonce: Nonce, now: u64) {
    HonestFrame(homes, frame, ks)
    && w'.registry == AfterFrame(w.registry, frame, ks) && w'.contacts == w.contacts
    && if Parse(frame, ks).Err? then w'.replies == w.replies && w'.net == w.net
       else
         var p := Parse(frame, ks).value;
         Bootstrap.Answers(id, w'.registry, m, p, ks, nonce, now, out)
         && if Routes(w'.registry, p) then
              w'.replies == w.replies
              && out == Bootstrap.RouteAnswer(id, w'.registry, p, route, ks, nonce, now)
              && Launched(ks, w.net, w'.net, id, w'.registry, m, p, route, nonce, now)
            else w'.replies == w.replies + (set d | d in out) && w'.net == w.net
  }

  /** The packet asks for a route and gets one. */
  predicate Routes(r: Registry, p: Packet) {
    p.kind == ROUTE && !Bootstrap.CannotStart(r.positions, p.source, p.destination)
  }

  /** Satellite `id` receives the discovery reply `d`. */
  predicate Learns(homes: Homes, ks: Keystream, w: World, w': World, d: Datagram, id: u32) {
    d in w.replies && id in w.contacts && id in homes && homes[id] == d.to
    && |d.frame| >= HEADER_SIZE + 2 && Parse(d.frame, ks).Ok?
    && w' == w.(contacts := w.contacts[id := Knows(w.contacts[id], Parse(d.frame, ks).value)])
  }

  /** Satellite `id` receives routed flight `i` and goes by its own table. */
  predicate Forwards(homes: Homes, ks: Keystream, w: World, w': World, i: nat, id: u32, nonce: Nonce, now: u64) {
    id in w.contacts && w' == w.(net := w'.net)
    && Moved(homes, ks, w.net, w'.net, i, id, w.contacts[id].addresses, nonce, now)
  }

  predicate Loses(w: World, w': World, i: nat) {
    Network.Lost(w.net, w'.net, i) && w' == w.(net := w'.net)
  }

  predicate Copies(w: World, w': World, i: nat) {
    Copied(w.net, w'.net, i) && w' == w.(net := w'.net)
  }

  ghost predicate Hearing(homes: Homes, ks: Keystream, id: u32, m: Metric, w: World, w': World) {
    exists frame: seq<byte>, route: seq<u32>, out: seq<Datagram>, nonce: Nonce, now: u64 ::
      Hears(homes, ks, id, m, w, w', frame, route, out, nonce, now)
  }

  ghost predicate Learning(homes: Homes, ks: Keystream, w: World, w': World) {
    exists d: Datagram, id: u32 :: Learns(homes, ks, w, w', d, id)
  }

  ghost predicate Forwarding(homes: Homes, ks: Keystream, w: World, w': World) {
    exists i: nat, id: u32, nonce: Nonce, now: u64 :: Forwards(homes, ks, w, w', i, id, nonce, now)
  }

  ghost predicate Losing(w: World, w': World) {
    exists i: nat :: Loses(w, w', i)
  }

  ghost predicate Copying(w: World, w': World) {
    exists i: nat :: Copies(w, w', i)
  }

  /** One step; with `copies`, a routed datagram may be duplicated. */
  ghost predicate Next(homes: Homes, ks: Keystream, id: u32, m: Metric, copies: bool, w: World, w': World) {
    Hearing(homes, ks, id, m, w, w') || Learning(homes, ks, w, w') || Forwarding(homes, ks, w, w') || Losing(w, w')
    || (copies && Copying(w, w'))
  }

  ghost predicate IsHistory(homes: Homes, ks: Keystream, id: u32, m: Metric, copies: bool, run: seq<World>) {
    run != [] && forall i :: 0 <= i < |run| - 1 ==> NextAt(homes, ks, id, m, copies, run, i)
  }

  ghost predicate NextAt(homes: Homes, ks: Keystream, id: u32, m: Metric, copies: bool, run: seq<World>, i: nat)
    requires i + 1 < |run|
  {
    Next(homes, ks, id, m, copies, run[i], run[i + 1])
  }

  // ----- The invariant -----

  /** If there is an address for `id`, it is where `id` listens. */
  predicate ExactAt(homes: Homes, addresses: map<u32, Text>, id: u32) {
    id in addresses ==> Resolve(addresses[id]).Some? && RightAt(homes, addresses, id)
  }

  predicate Exact(homes: Homes, addresses: map<u32, Text>) {
    forall id: u32 :: ExactAt(homes, addresses, id)
  }

  /** A reply that can be read and goes to where its destination is. Whoever learns from it
      keeps exact addresses, and does not learn of the destination itself. */
  ghost predicate Truthful(homes: Homes, ks: Keystream, d: Datagram) {
    Readable(d.frame, ks) && Parse(d.frame, ks).Ok?
    && var p := Parse(d.frame, ks).value;
       p.kind == DISCOVERY && p.destination in homes && d.to == homes[p.destination]
       && forall c: Contacts :: KeepsExact(homes, c, p.payload) && KeepsSelfOut(c, p.payload, p.destination)
  }

  predicate KeepsExact(homes: Homes, c: Contacts, payload: seq<byte>) {
    Exact(homes, c.addresses) ==> Exact(homes, Learn(c, payload).addresses)
  }

  predicate KeepsSelfOut(c: Contacts, payload: seq<byte>, id: u32) {
    id != 0 && id !in c.addresses ==> id !in Learn(c, payload).addresses
  }

  ghost predicate RegistryIsRight(homes: Homes, r: Registry) {
    Consistent(r) && RightAddresses(homes, r.addresses)
  }

  /** A satellite's addresses are exact, and it has none for itself. */
  predicate GoodContacts(homes: Homes, id: u32, c: Contacts) {
    Exact(homes, c.addresses) && (id != 0 ==> id !in c.addresses)
  }

  ghost predicate Routed(homes: Homes, ks: Keystream, copies: bool, n: Net) {
    AllSomewhere(homes, ks, n) && (!copies ==> Tracked(homes, ks, n))
  }

  ghost predicate Sound(homes: Homes, ks: Keystream, copies: bool, w: World) {
    RegistryIsRight(homes, w.registry)
    && (forall id :: id in w.contacts ==> GoodContacts(homes, id, w.contacts[id]))
    && (forall d :: d in w.replies ==> Truthful(homes, ks, d))
    && Routed(homes, ks, copies, w.net)
  }

  lemma StartIsSound(homes: Homes, ks: Keystream, copies: bool, satellites: set<u32>)
    ensures Sound(homes, ks, copies, Start(satellites))
  {
    NothingRegistered();
    NothingWrong(homes);
  }

  // ----- The bootstrap node hears a frame -----

  lemma RegistryStaysRight(homes: Homes, r: Registry, frame: seq<byte>, ks: Keystream)
    requires RegistryIsRight(homes, r) && HonestFrame(homes, frame, ks)
    ensures RegistryIsRight(homes, AfterFrame(r, frame, ks))
  {
    hide Parse, Consistent, RightAddresses, AddressText, ReadPosition, Honest;
    FrameKeepsConsistent(r, frame, ks);
    FrameKeepsRight(homes, r, frame, ks);
  }

  lemma ExactIsRight(homes: Homes, addresses: map<u32, Text>)
    requires Exact(homes, addresses)
    ensures RightAddresses(homes, addresses)
  {
    hide Resolve;
    forall id: u32 ensures RightAt(homes, addresses, id) { assert ExactAt(homes, addresses, id); }
  }

  lemma RegistryIsExact(homes: Homes, r: Registry)
    requires RegistryIsRight(homes, r)
    ensures Exact(homes, r.addresses) && RightAddresses(homes, r.addresses)
  {
    hide Resolve, AddressText, RightAt;
    forall id: u32 | id in r.addresses ensures Resolve(r.addresses[id]).Some? {
      var ip, port := StoredAddress(r, id);
      ResolveAddress(ip, port);
    }
  }

  lemma ReplyKeepsExact(homes: Homes, r: Registry, m: Metric, id: u32, order: seq<u32>, c: Contacts)
    requires WellPlaced(homes) && Consistent(r) && Enumerates(order, r.positions.Keys)
    requires ReplyPayload(r, m, id, order).Some? && Exact(homes, r.addresses)
    ensures KeepsExact(homes, c, ReplyPayload(r, m, id, order).value)
  {
    hide Consistent, Enumerates, ReplyPayload, Learn, Padded, Resolve, InRange, OneNodePerHome, ZeroText, ZeroEndpoint;
    var d := Learn(c, ReplyPayload(r, m, id, order).value);
    if Exact(homes, c.addresses) {
      forall k: u32 ensures ExactAt(homes, d.addresses, k) {
        assert ExactAt(homes, r.addresses, k) && ExactAt(homes, c.addresses, k);
        if k != 0 || !Padded(r, m, id) {
          EntryTaught(r, m, id, order, c, k);
        } else {
          PaddingTaught(r, m, id, order, c);
          ZeroTextResolves();
        }
      }
    }
  }

  /** No reply tells its requester about itself. */
  lemma ReplyKeepsSelfOut(r: Registry, m: Metric, id: u32, order: seq<u32>, c: Contacts)
    requires Consistent(r) && Enumerates(order, r.positions.Keys)
    requires ReplyPayload(r, m, id, order).Some?
    ensures KeepsSelfOut(c, ReplyPayload(r, m, id, order).value, id)
  {
    hide Consistent, Enumerates, ReplyPayload, Learn, Padded;
    if id != 0 { EntryTaught(r, m, id, order, c, id); }
  }

  /** A reply payload made from right tables makes a truthful reply. */
  lemma ReplyIsTruthful(homes: Homes, ks: Keystream, id: u32, r: Registry, m: Metric, to: u32, order: seq<u32>,
                        sequence: u32, payloadType: u16, nonce: Nonce, now: u64)
    requires WellPlaced(homes) && RegistryIsRight(homes, r) && Bootstrap.ScansAll(order, r)
    requires ReplyPayload(r, m, to, order).Some?
    ensures var p := Message(id, to, DISCOVERY, sequence, ReplyPayload(r, m, to, order).value, payloadType, now);
      forall d :: d in Posted(r.addresses, p, ks, nonce) ==> Truthful(homes, ks, d)
  {
    hide Parse, Consistent, RightAddresses, Exact, Enumerates, ReplyPayload, Posted, KeepsExact, KeepsSelfOut,
      WellPlaced;
    var payload := ReplyPayload(r, m, to, order).value;
    var p := Message(id, to, DISCOVERY, sequence, payload, payloadType, now);
    RegistryIsExact(homes, r);
    PostedMessage(homes, r.addresses, p, ks, nonce);
    ReplyExistsIff(r, m, to, order);
    forall c: Contacts ensures KeepsExact(homes, c, payload) && KeepsSelfOut(c, payload, to) {
      ReplyKeepsExact(homes, r, m, to, order, c);
      ReplyKeepsSelfOut(r, m, to, order, c);
    }
  }

  lemma AnswersAreTruthful(homes: Homes, ks: Keystream, id: u32, r: Registry, m: Metric, p: Packet, nonce: Nonce,
                           now: u64, out: seq<Datagram>)
    requires WellPlaced(homes) && RegistryIsRight(homes, r) && !Routes(r, p)
    requires Bootstrap.Answers(id, r, m, p, ks, nonce, now, out)
    ensures forall d :: d in out ==> Truthful(homes, ks, d)
  {
    hide Posted, ReplyPayload, Truthful, RegistryIsRight, Bootstrap.ScansAll, WellPlaced;
    if p.kind == DISCOVERY {
      var order: seq<u32> :| Bootstrap.ScansAll(order, r)
        && out == Bootstrap.DiscoveryAnswer(id, r, m, p.source, order, ks, nonce, now);
      if out != [] { ReplyIsTruthful(homes, ks, id, r, m, p.source, order, 0, 0, nonce, now); }
    } else if p.kind == HANDSHAKE {
      var order: seq<u32> :| Bootstrap.ScansAll(order, r)
        && out == Bootstrap.HandshakeAnswer(id, r, m, p.source, order, ks, nonce, now);
      if out != [] { ReplyIsTruthful(homes, ks, id, r, m, p.source, order, 255, 1, nonce, now); }
    }
  }

  lemma LaunchKeepsRouted(homes: Homes, ks: Keystream, copies: bool, n: Net, n': Net, id: u32, r: Registry, m: Metric,
                          p: Packet, route: seq<u32>, nonce: Nonce, now: u64)
    requires Routed(homes, ks, copies, n) && RegistryIsRight(homes, r)
    requires Launched(ks, n, n', id, r, m, p, route, nonce, now)
    ensures Answered(homes, ks, n, n', id, r, m, p, route, nonce, now) && Routed(homes, ks, copies, n')
  {
    hide RegistryIsRight, RightAddresses, Launched, Tracked, AllSomewhere;
    RegistryIsExact(homes, r);
    AskedKeepsSomewhere(homes, ks, n, n', id, r, m, p, route, nonce, now);
    if !copies { AskedKeepsTrack(homes, ks, n, n', id, r, m, p, route, nonce, now); }
  }

  lemma HearingKeepsSound(homes: Homes, ks: Keystream, copies: bool, id: u32, m: Metric, w: World, w': World,
                          frame: seq<byte>, route: seq<u32>, out: seq<Datagram>, nonce: Nonce, now: u64)
    requires WellPlaced(homes) && Sound(homes, ks, copies, w)
    requires Hears(homes, ks, id, m, w, w', frame, route, out, nonce, now)
    ensures Sound(homes, ks, copies, w')
  {
    hide Parse, Routed, Truthful, RegistryIsRight, GoodContacts, Launched, Bootstrap.Answers, AfterFrame, WellPlaced;
    RegistryStaysRight(homes, w.registry, frame, ks);
    if Parse(frame, ks).Ok? {
      var p := Parse(frame, ks).value;
      if Routes(w'.registry, p) {
        LaunchKeepsRouted(homes, ks, copies, w.net, w'.net, id, w'.registry, m, p, route, nonce, now);
      } else {
        AnswersAreTruthful(homes, ks, id, w'.registry, m, p, nonce, now, out);
      }
    }
  }

  // ----- A satellite receives something -----

  lemma LearningKeepsSound(homes: Homes, ks: Keystream, copies: bool, w: World, w': World, d: Datagram, id: u32)
    requires WellPlaced(homes) && Sound(homes, ks, copies, w) && Learns(homes, ks, w, w', d, id)
    ensures Sound(homes, ks, copies, w')
  {
    hide Parse, Routed, Exact, RegistryIsRight, Learn, ZeroEndpoint;
    assert Truthful(homes, ks, d);
    var c := w.contacts[id];
    var p := Parse(d.frame, ks).value;
    assert GoodContacts(homes, id, c);
    assert KeepsExact(homes, c, p.payload) && KeepsSelfOut(c, p.payload, id);
  }

  lemma ForwardingKeepsSound(homes: Homes, ks: Keystream, copies: bool, w: World, w': World, i: nat, id: u32,
                             nonce: Nonce, now: u64)
    requires WellPlaced(homes) && Sound(homes, ks, copies, w) && Forwards(homes, ks, w, w', i, id, nonce, now)
    ensures Sound(homes, ks, copies, w')
  {
    hide Tracked, AllSomewhere, RightAddresses, Exact, RegistryIsRight, Moved, Truthful, OneNodePerHome, ZeroEndpoint;
    assert GoodContacts(homes, id, w.contacts[id]);
    ExactIsRight(homes, w.contacts[id].addresses);
    DeliveredKeepsSomewhere(homes, ks, w.net, w'.net, i, id, w.contacts[id].addresses, nonce, now);
    if !copies { DeliveredKeepsTrack(homes, ks, w.net, w'.net, i, id, w.contacts[id].addresses, nonce, now); }
  }

  lemma LosingKeepsSound(homes: Homes, ks: Keystream, copies: bool, w: World, w': World, i: nat)
    requires Sound(homes, ks, copies, w) && Loses(w, w', i)
    ensures Sound(homes, ks, copies, w')
  {
    hide Tracked, AllSomewhere, GoodContacts, RegistryIsRight, Truthful;
    FewerSomewhere(homes, ks, w.net, w'.net);
    if !copies { LostKeepsTrack(homes, ks, w.net, w'.net, i); }
  }

  lemma CopyingKeepsSound(homes: Homes, ks: Keystream, w: World, w': World, i: nat)
    requires Sound(homes, ks, true, w) && Copies(w, w', i)
    ensures Sound(homes, ks, true, w')
  {
    hide Tracked, AllSomewhere, GoodContacts, RegistryIsRight, Truthful;
    FewerSomewhere(homes, ks, w.net, w'.net);
  }

  lemma NextKeepsSound(homes: Homes, ks: Keystream, copies: bool, id: u32, m: Metric, w: World, w': World)
    requires WellPlaced(homes) && Sound(homes, ks, copies, w) && Next(homes, ks, id, m, copies, w, w')
    ensures Sound(homes, ks, copies, w')
  {
    hide Sound, WellPlaced, Hears, Learns, Forwards, Loses, Copies;
    if Hearing(homes, ks, id, m, w, w') {
      var frame: seq<byte>, route: seq<u32>, out: seq<Datagram>, nonce: Nonce, now: u64 :|
        Hears(homes, ks, id, m, w, w', frame, route, out, nonce, now);
      HearingKeepsSound(homes, ks, copies, id, m, w, w', frame, route, out, nonce, now);
    } else if Learning(homes, ks, w, w') {
      var d: Datagram, peer: u32 :| Learns(homes, ks, w, w', d, peer);
      LearningKeepsSound(homes, ks, copies, w, w', d, peer);
    } else if Forwarding(homes, ks, w, w') {
      var i: nat, peer: u32, nonce: Nonce, now: u64 :| Forwards(homes, ks, w, w', i, peer, nonce, now);
      ForwardingKeepsSound(homes, ks, copies, w, w', i, peer, nonce, now);
    } else if Losing(w, w') {
      var i: nat :| Loses(w, w', i);
      LosingKeepsSound(homes, ks, copies, w, w', i);
    } else {
      var i: nat :| Copies(w, w', i);
      CopyingKeepsSound(homes, ks, w, w', i);
    }
  }

  // ----- Every history -----

  lemma {:induction false} HistoryIsSound(homes: Homes, ks: Keystream, copies: bool, id: u32, m: Metric,
                                          run: seq<World>, satellites: set<u32>, k: nat)
    requires WellPlaced(homes) && IsHistory(homes, ks, id, m, copies, run) && run[0] == Start(satellites) && k < |run|
    ensures Sound(homes, ks, copies, run[k])
  {
    hide Next, WellPlaced, Sound, Start;
    if k == 0 {
      StartIsSound(homes, ks, copies, satellites);
    } else {
      HistoryIsSound(homes, ks, copies, id, m, run, satellites, k - 1);
      assert NextAt(homes, ks, id, m, copies, run, k - 1);
      NextKeepsSound(homes, ks, copies, id, m, run[k - 1], run[k]);
    }
  }

  /** From empty tables on, whatever the peers send and however it is delivered: the bootstrap's
      tables are consistent; every address a satellite holds is where its id leads, and none is
      its own; every discovery reply can be read; every routed packet carries what is left of its
      effective route and data; and without copies the routed packets are safe. */
  lemma HistoryIsSafe(homes: Homes, ks: Keystream, copies: bool, id: u32, m: Metric, run: seq<World>,
                      satellites: set<u32>, k: nat)
    requires WellPlaced(homes) && IsHistory(homes, ks, id, m, copies, run) && run[0] == Start(satellites) && k < |run|
    ensures Consistent(run[k].registry)
    ensures forall s, peer :: s in run[k].contacts && peer in run[k].contacts[s].addresses ==>
      ExactAt(homes, run[k].contacts[s].addresses, peer) && (peer != s || s == 0)
    ensures forall d :: d in run[k].replies ==> Readable(d.frame, ks)
    ensures forall f :: f in run[k].net.flights ==> Carries(homes, ks, run[k].net, f)
    ensures !copies ==> SafeNet(homes, ks, run[k].net)
  {
    hide WellPlaced, IsHistory, Start, SafeNet, Tracked, Readable, Parse, Consistent, Learn, ExactAt, Carries,
      Somewhere;
    HistoryIsSound(homes, ks, copies, id, m, run, satellites, k);
    forall f | f in run[k].net.flights ensures Carries(homes, ks, run[k].net, f) {
      SomewhereCarries(homes, ks, run[k].net, f);
    }
    if !copies { TrackedIsSafe(homes, ks, run[k].net); }
  }

  // ----- The echo -----

  /** In an honest history no DATA packet that has arrived is sent again. */
  lemma ArrivedDataStays(homes: Homes, ks: Keystream, copies: bool, id: u32, m: Metric, run: seq<World>,
                         satellites: set<u32>, k: nat, i: nat, s: u32, nonce: Nonce, now: u64)
    requires WellPlaced(homes) && IsHistory(homes, ks, id, m, copies, run) && run[0] == Start(satellites)
    requires k + 1 < |run| && Forwards(homes, ks, run[k], run[k + 1], i, s, nonce, now) && s != 0
    requires Parse(run[k].net.flights[i].datagram.frame, ks).value.kind == DATA
    ensures run[k + 1].net.flights == Without(run[k].net.flights, i)
  {
    hide WellPlaced, IsHistory, Start, Sound, Parse;
    HistoryIsSound(homes, ks, copies, id, m, run, satellites, k);
    DataIsNotSentOn(homes, ks, copies, run[k], i, s, nonce, now);
  }

  lemma DataIsNotSentOn(homes: Homes, ks: Keystream, copies: bool, w: World, i: nat, s: u32, nonce: Nonce, now: u64)
    requires WellPlaced(homes) && Sound(homes, ks, copies, w) && s in w.contacts && s != 0 && s in homes
    requires i < |w.net.flights| && homes[s] == w.net.flights[i].datagram.to
    requires |w.net.flights[i].datagram.frame| >= HEADER_SIZE + 2
    requires Parse(w.net.flights[i].datagram.frame, ks).Ok?
    requires Parse(w.net.flights[i].datagram.frame, ks).value.kind == DATA
    ensures Sends(s, w.contacts[s].addresses, Parse(w.net.flights[i].datagram.frame, ks).value, ks, nonce, now) == []
  {
    hide Parse, Tracked, Exact, RegistryIsRight, Truthful, ZeroEndpoint, Compose, Effective, StartsWell;
    assert Somewhere(homes, ks, w.net, w.net.flights[i]);
    assert GoodContacts(homes, s, w.contacts[s]);
  }

  /** A node that is handed the reply meant for another one in range learns its own address, and
      then sends every DATA packet on that has come to it. */
  lemma MisdeliveredReplyEchoes(homes: Homes, r: Registry, m: Metric, other: u32, order: seq<u32>, s: u32, c: Contacts,
                                p: Packet, ks: Keystream, nonce: Nonce, now: u64)
    requires RegistryIsRight(homes, r) && Enumerates(order, r.positions.Keys) && s != 0
    requires ReplyPayload(r, m, other, order).Some? && InRange(r, m, other, s)
    requires p.kind == DATA && p.destination == s
    ensures var d := Learn(c, ReplyPayload(r, m, other, order).value);
      s in d.addresses && |Sends(s, d.addresses, p, ks, nonce, now)| == 1
  {
    hide Consistent, RightAddresses, Enumerates, ReplyPayload, Learn, Padded, Resolve, InRange, Frame;
    RegistryIsExact(homes, r);
    EntryTaught(r, m, other, order, c, s);
    assert ExactAt(homes, r.addresses, s);
  }

  // ----- Requests are served -----

  function Tables(w: World): map<u32, map<u32, Text>> {
    map id | id in w.contacts :: w.contacts[id].addresses
  }

  /** Every satellite on the route has heard of the next one. */
  ghost predicate HeardOfNext(w: World, route: seq<u32>) {
    forall h :: 0 <= h < |route| - 1 ==> HasContact(w, route[h], route[h + 1])
  }

  predicate HasContact(w: World, id: u32, peer: u32) {
    id in w.contacts && peer in w.contacts[id].addresses
  }

  lemma RouteIsKnown(homes: Homes, ks: Keystream, w: World, route: seq<u32>)
    requires Sound(homes, ks, false, w) && HeardOfNext(w, route)
    ensures KnowsRoute(homes, Tables(w), route)
  {
    hide Routed, Truthful, RegistryIsRight, RightAddresses, Resolve;
    forall h | 0 <= h < |route| - 1 ensures KnowsNext(homes, Tables(w), route, h) {
      assert HasContact(w, route[h], route[h + 1]);
      assert GoodContacts(homes, route[h], w.contacts[route[h]]);
      ExactIsRight(homes, w.contacts[route[h]].addresses);
      assert ExactAt(homes, w.contacts[route[h]].addresses, route[h + 1]);
    }
  }

  /** What happens to the routed packets alone is a history of the whole. */
  lemma DeliveryIsHistory(homes: Homes, ks: Keystream, id: u32, m: Metric, w: World, nets: seq<Net>)
    returns (run: seq<World>)
    requires IsDelivery(homes, ks, Tables(w), nets)
    ensures |run| == |nets| && IsHistory(homes, ks, id, m, false, run)
    ensures forall i :: 0 <= i < |nets| ==> run[i] == w.(net := nets[i])
  {
    hide Forwarding, DeliveredBy, Tables, Hearing, Learning, Losing, Copying;
    run := seq(|nets|, i requires 0 <= i < |nets| => w.(net := nets[i]));
    forall i | 0 <= i < |run| - 1 ensures NextAt(homes, ks, id, m, false, run, i) {
      assert DeliveryAt(homes, ks, Tables(w), nets, i);
      DeliveryIsForwarding(homes, ks, w, nets[i], nets[i + 1]);
    }
  }

  lemma DeliveryIsForwarding(homes: Homes, ks: Keystream, w: World, n: Net, n': Net)
    requires DeliveredBy(homes, ks, Tables(w), n, n')
    ensures Forwarding(homes, ks, w.(net := n), w.(net := n'))
  {
    hide Moved, RightAddresses;
    var j: nat, peer: u32, nonce: Nonce, now: u64 :|
      peer in Tables(w) && Delivered(homes, ks, n, n', j, peer, Tables(w)[peer], nonce, now);
    assert Forwards(homes, ks, w.(net := n), w.(net := n'), j, peer, nonce, now);
  }

  /** The bootstrap node hears a request with an effective route of k hops, k at least 1. If it
      has an address for the requester and every satellite on the route has heard of the next,
      the history can go on with exactly k deliveries that bring what is left of the data to the
      end of that route. */
  lemma RequestIsServed(homes: Homes, ks: Keystream, id: u32, m: Metric, w: World, w': World, frame: seq<byte>,
                        p: Packet, route: seq<u32>, out: seq<Datagram>, nonce: Nonce, now: u64)
    returns (run: seq<World>, g: Flight)
    requires WellPlaced(homes) && Sound(homes, ks, false, w)
    requires Hears(homes, ks, id, m, w, w', frame, route, out, nonce, now)
    requires |frame| >= HEADER_SIZE + 2 && Parse(frame, ks) == Ok(p) && Routes(w'.registry, p)
    requires p.source in w'.registry.addresses
    requires var q := Effective(Request(route, p.payload, id)); HeardOfNext(w', q.route) && |q.route| >= 2
    ensures IsHistory(homes, ks, id, m, false, run) && run[0] == w'
    ensures var q := Effective(Request(route, p.payload, id));
      |run| == |q.route| && Arrived(homes, ks, run[|run| - 1].net, g, q)
  {
    hide *;
    var q := Effective(Request(route, p.payload, id));
    HearingKeepsSound(homes, ks, false, id, m, w, w', frame, route, out, nonce, now);
    RequestIsAnswered(homes, ks, id, m, w, w', frame, p, route, out, nonce, now);
    RouteIsKnown(homes, ks, w', q.route);
    var nets, last;
    nets, last, g := RequestIsCarried(homes, ks, w.net, w'.net, id, w'.registry, m, p, route, Tables(w'), nonce, now);
    run := DeliveryIsHistory(homes, ks, id, m, w', nets);
    SameWorld(w');
  }

  lemma SameWorld(w: World)
    ensures w.(net := w.net) == w
  {
  }

  lemma RequestIsAnswered(homes: Homes, ks: Keystream, id: u32, m: Metric, w: World, w': World, frame: seq<byte>,
                          p: Packet, route: seq<u32>, out: seq<Datagram>, nonce: Nonce, now: u64)
    requires WellPlaced(homes) && Sound(homes, ks, false, w)
    requires Hears(homes, ks, id, m, w, w', frame, route, out, nonce, now)
    requires |frame| >= HEADER_SIZE + 2 && Parse(frame, ks) == Ok(p) && Routes(w'.registry, p)
    requires p.source in w'.registry.addresses
    ensures OneNodePerHome(homes) && Tracked(homes, ks, w.net)
    ensures Answered(homes, ks, w.net, w'.net, id, w'.registry, m, p, route, nonce, now)
    ensures Reaches(homes, w'.registry.addresses, p.source)
  {
    hide Hears, Sound, Parse, RegistryIsRight, RightAddresses, Launched, Resolve, Exact, Routes, Tracked, AllSomewhere;
    HearsRequest(homes, ks, id, m, w, w', frame, p, route, out, nonce, now);
    HearingKeepsSound(homes, ks, false, id, m, w, w', frame, route, out, nonce, now);
    SoundParts(homes, ks, w);
    SoundParts(homes, ks, w');
    RegistryIsExact(homes, w'.registry);
    LaunchKeepsRouted(homes, ks, false, w.net, w'.net, id, w'.registry, m, p, route, nonce, now);
    ExactThere(homes, w'.registry.addresses, p.source);
  }

  lemma HearsRequest(homes: Homes, ks: Keystream, id: u32, m: Metric, w: World, w': World, frame: seq<byte>,
                     p: Packet, route: seq<u32>, out: seq<Datagram>, nonce: Nonce, now: u64)
    requires Hears(homes, ks, id, m, w, w', frame, route, out, nonce, now)
    requires |frame| >= HEADER_SIZE + 2 && Parse(frame, ks) == Ok(p) && Routes(w'.registry, p)
    ensures Launched(ks, w.net, w'.net, id, w'.registry, m, p, route, nonce, now)
  {
    hide Parse, Launched, Bootstrap.Answers, AfterFrame, HonestFrame;
  }

  lemma SoundParts(homes: Homes, ks: Keystream, w: World)
    requires Sound(homes, ks, false, w)
    ensures Routed(homes, ks, false, w.net) && RegistryIsRight(homes, w.registry)
  {
    hide Routed, RegistryIsRight, Truthful, GoodContacts;
  }

  lemma ExactThere(homes: Homes, addresses: map<u32, Text>, id: u32)
    requires Exact(homes, addresses) && id in addresses
    ensures Resolve(addresses[id]).Some? && id in homes && Resolve(addresses[id]).value == homes[id]
  {
    hide Resolve;
    assert ExactAt(homes, addresses, id);
  }
}
