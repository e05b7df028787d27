/** Routed packets in flight between satellites: any number of requests, delivered in any order
    or lost. A packet in flight is a frame on its way to an endpoint, tagged with the request it
    belongs to. */
module Network {
  import opened Bytes
  import opened Iteration
  import opened Addresses
  import opened Packets
  import opened Routing
  import opened RoutePayload
  import opened Registry
  import opened Discovery
  import opened Satellite
  import Bootstrap

  /** Where every id leads. An id that padding has put into the tables has a place too, where
      no node need be. */
  type Homes = map<u32, Endpoint>

  /** `sender` is the bootstrap node that answers the request. */
  datatype Request = Request(route: seq<u32>, data: seq<byte>, sender: u32)

  /** Who sends a request on to place `h` of its route. */
  function Before(q: Request, h: nat): u32
    requires h <= |q.route|
  {
    if h == 0 then q.sender else q.route[h - 1]
  }

  /** What the satellites make of a request: full words of its data are more of its route. */
  function Effective(q: Request): Request {
    Request(q.route + Ids(q.data), Rest(q.data), q.sender)
  }

  predicate Reduced(q: Request) {
    q.route != [] && |q.data| < 4
  }

  lemma ReducedIsEffective(q: Request)
    requires Reduced(q)
    ensures Effective(q) == q
  {
    hide Ids, Rest;
    ShortPayload(q.data);
  }

  datatype Flight = Flight(request: nat, datagram: Datagram)

  /** `handled[q]` lists, in order, the nodes that have received a ROUTE packet of request `q`. */
  datatype Net = Net(requests: seq<Request>, flights: seq<Flight>, handled: seq<seq<u32>>)

  const QUIET := Net([], [], [])

  predicate OneNodePerHome(homes: Homes) {
    forall a, b :: a in homes && b in homes && homes[a] == homes[b] ==> a == b
  }

  /** The address held for `id`, if there is one, is right. */
  predicate RightAt(homes: Homes, addresses: map<u32, Text>, id: u32) {
    id in addresses && Resolve(addresses[id]).Some? ==> id in homes && Resolve(addresses[id]).value == homes[id]
  }

  /** Every address a node holds is right, though it need not hold all of them. */
  predicate RightAddresses(homes: Homes, addresses: map<u32, Text>) {
    forall id: u32 :: RightAt(homes, addresses, id)
  }

  function Tagged(q: nat, out: seq<Datagram>): seq<Flight> {
    seq(|out|, i requires 0 <= i < |out| => Flight(q, out[i]))
  }

  // ----- Steps -----

  /** The bootstrap answers a request `p` with a route, and the answer starts its flight. */
  ghost predicate Asked(homes: Homes, ks: Keystream, n: Net, n': Net) {
    exists id: u32, r: Registry, m: Metric, p: Packet, route: seq<u32>, nonce: Nonce, now: u64 ::
      Answered(homes, ks, n, n', id, r, m, p, route, nonce, now)
  }

  ghost predicate Answered(homes: Homes, ks: Keystream, n: Net, n': Net, id: u32, r: Registry, m: Metric, p: Packet,
                           route: seq<u32>, nonce: Nonce, now: u64) {
    RightAddresses(homes, r.addresses) && Launched(ks, n, n', id, r, m, p, route, nonce, now)
  }

  /** The answer of the bootstrap node to the ROUTE packet `p` takes off. */
  ghost predicate Launched(ks: Keystream, n: Net, n': Net, id: u32, r: Registry, m: Metric, p: Packet,
                           route: seq<u32>, nonce: Nonce, now: u64) {
    IsRoute(route, r.positions, m, p.source, p.destination)
    && n' == Net(n.requests + [Request(route, p.payload, id)],
                 n.flights + Tagged(|n.requests|, Bootstrap.RouteAnswer(id, r, p, route, ks, nonce, now)),
                 n.handled + [[]])
  }

  function Without(fs: seq<Flight>, i: nat): seq<Flight>
    requires i < |fs|
  {
    fs[..i] + fs[i + 1..]
  }

  predicate Lost(n: Net, n': Net, i: nat) {
    i < |n.flights| && n' == n.(flights := Without(n.flights, i))
  }

  /** Flight `i` reaches a satellite whose addresses are right. */
  predicate Delivered(homes: Homes, ks: Keystream, n: Net, n': Net, i: nat, id: u32, addresses: map<u32, Text>,
                      nonce: Nonce, now: u64) {
    RightAddresses(homes, addresses) && Moved(homes, ks, n, n', i, id, addresses, nonce, now)
  }

  /** Flight `i` reaches the satellite that listens at its endpoint, which sends what it sends. */
  predicate Moved(homes: Homes, ks: Keystream, n: Net, n': Net, i: nat, id: u32, addresses: map<u32, Text>,
                  nonce: Nonce, now: u64) {
    i < |n.flights| && n.flights[i].request < |n.handled|
    && id in homes && homes[id] == n.flights[i].datagram.to
    && var f := n.flights[i];
       |f.datagram.frame| >= HEADER_SIZE + 2
       && var parsed := Parse(f.datagram.frame, ks);
          parsed.Ok?
          && n'.requests == n.requests
          && n'.flights == Without(n.flights, i) + Tagged(f.request, Sends(id, addresses, parsed.value, ks, nonce, now))
          && n'.handled == if parsed.value.kind == ROUTE
                           then n.handled[f.request := n.handled[f.request] + [id]] else n.handled
  }

  ghost predicate Step(homes: Homes, ks: Keystream, n: Net, n': Net) {
    || Asked(homes, ks, n, n')
    || (exists i: nat :: Lost(n, n', i))
    || DeliveredSome(homes, ks, n, n')
  }

  ghost predicate DeliveredSome(homes: Homes, ks: Keystream, n: Net, n': Net) {
    exists i: nat, id: u32, addresses: map<u32, Text>, nonce: Nonce, now: u64 ::
      Delivered(homes, ks, n, n', i, id, addresses, nonce, now)
  }

  // ----- The invariant -----

  /** A flight that carries the rest of its route, or at the end the data, to the node whose
      turn it is after `h` have handled it, in the name of the one before. */
  predicate OnTrack(homes: Homes, ks: Keystream, d: Datagram, q: Request, h: nat) {
    h < |q.route| && |d.frame| >= HEADER_SIZE + 2 && Parse(d.frame, ks).Ok?
    && q.route[h] in homes && d.to == homes[q.route[h]]
    && var p := Parse(d.frame, ks).value;
       p.destination == q.route[h] && p.source == Before(q, h)
       && p.priority == 1 && p.sequence == 0
       && ((p.kind == ROUTE && p.payload == Compose(q.route[h..], q.data))
           || (p.kind == DATA && p.payload == q.data && h > 0 && h == |q.route| - 1))
  }

  predicate Tracked(homes: Homes, ks: Keystream, n: Net) {
    |n.handled| == |n.requests|
    && (forall q :: 0 <= q < |n.requests| ==>
          StartsWell(n.requests[q]) && n.handled[q] <= Effective(n.requests[q]).route)
    && (forall i :: 0 <= i < |n.flights| ==> FlightOnTrack(homes, ks, n, n.flights[i]))
    && (forall i, j :: 0 <= i < j < |n.flights| ==> n.flights[i].request != n.flights[j].request)
  }

  /** The route of a request is as the search returns it. */
  predicate StartsWell(q: Request) {
    q.route != [] && Distinct(q.route)
  }

  lemma EffectiveIsReduced(q: Request)
    requires StartsWell(q)
    ensures Reduced(Effective(q))
  {
    hide Ids, Rest, Distinct;
    RestLength(q.data);
  }

  predicate FlightOnTrack(homes: Homes, ks: Keystream, n: Net, f: Flight) {
    f.request < |n.requests| && f.request < |n.handled|
    && OnTrack(homes, ks, f.datagram, Effective(n.requests[f.request]), |n.handled[f.request]|)
  }

  // ----- One packet at one node -----

  /** A posted message travels to the home of its destination and is read there as sent. */
  lemma PostedMessage(homes: Homes, addresses: map<u32, Text>, p: Packet, ks: Keystream, nonce: Nonce)
    requires RightAddresses(homes, addresses)
    ensures |Posted(addresses, p, ks, nonce)| <= 1
    ensures forall d :: d in Posted(addresses, p, ks, nonce) ==>
      p.destination in homes && d.to == homes[p.destination] && |d.frame| >= HEADER_SIZE + 2
      && Parse(d.frame, ks).Ok? && Parse(d.frame, ks).value == p.(crc := Parse(d.frame, ks).value.crc)
  {
    hide Frame, Parse, Resolve;
    assert RightAt(homes, addresses, p.destination);
    FrameRoundTrip(p, ks, nonce);
  }

  lemma PostedOnTrack(homes: Homes, addresses: map<u32, Text>, p: Packet, ks: Keystream, nonce: Nonce, q: Request,
                      h: nat)
    requires RightAddresses(homes, addresses) && Reduced(q) && h < |q.route| && p.destination == q.route[h]
    requires p.source == Before(q, h) && p.priority == 1 && p.sequence == 0
    requires (p.kind == ROUTE && p.payload == Compose(q.route[h..], q.data))
      || (p.kind == DATA && p.payload == q.data && h > 0 && h == |q.route| - 1)
    ensures |Posted(addresses, p, ks, nonce)| <= 1
    ensures forall d :: d in Posted(addresses, p, ks, nonce) ==> OnTrack(homes, ks, d, q, h)
  {
    hide Posted, Parse, Compose, RightAddresses;
    PostedMessage(homes, addresses, p, ks, nonce);
  }

  /** The node whose turn it is sends at most one packet, which is on track again. */
  lemma NodeKeepsTrack(homes: Homes, ks: Keystream, d: Datagram, q: Request, h: nat, id: u32,
                       addresses: map<u32, Text>, nonce: Nonce, now: u64)
    requires OneNodePerHome(homes) && RightAddresses(homes, addresses) && Reduced(q)
    requires OnTrack(homes, ks, d, q, h) && id in homes && homes[id] == d.to
    ensures id == q.route[h]
    ensures var p := Parse(d.frame, ks).value;
      var out := Sends(id, addresses, p, ks, nonce, now);
      |out| <= 1 && forall e :: e in out ==> OnTrack(homes, ks, e, q, if p.kind == ROUTE then h + 1 else h)
  {
    hide Parse, Compose, Forwarded, RightAddresses, Posted;
    var p := Parse(d.frame, ks).value;
    if p.kind == DATA {
      PostedOnTrack(homes, addresses, p, ks, nonce, q, h);
    } else if h + 1 < |q.route| {
      var rest := q.route[h..];
      ForwardedRoute(rest, q.data);
      assert rest[1..] == q.route[h + 1..] && rest[1] == q.route[h + 1];
      var leg := Forwarded(p.payload).value;
      PostedOnTrack(homes, addresses, Message(id, leg.to, leg.kind, 0, leg.payload, 0, now), ks, nonce, q, h + 1);
    } else {
      LastIdStays(q.route[h..], q.data);
    }
  }

  // ----- Every step keeps the invariant -----

  /** The answer to a request starts out on track, whatever the data. */
  lemma Departure(homes: Homes, addresses: map<u32, Text>, message: Packet, ks: Keystream, nonce: Nonce, q: Request)
    requires RightAddresses(homes, addresses) && StartsWell(q)
    requires message.kind == ROUTE && message.destination == q.route[0] && message.source == q.sender
    requires message.priority == 1 && message.sequence == 0
    requires message.payload == Compose(q.route, q.data)
    ensures |Posted(addresses, message, ks, nonce)| <= 1
    ensures forall d :: d in Posted(addresses, message, ks, nonce) ==> OnTrack(homes, ks, d, Effective(q), 0)
  {
    hide Posted, OnTrack, Compose, RightAddresses, Ids, Rest;
    var e := Effective(q);
    WordsBecomeRoute(q.route, q.data);
    EffectiveIsReduced(q);
    assert e.route[0..] == e.route;
    PostedOnTrack(homes, addresses, message, ks, nonce, e, 0);
  }

  lemma AskedKeepsTrack(homes: Homes, ks: Keystream, n: Net, n': Net, id: u32, r: Registry, m: Metric, p: Packet,
                        route: seq<u32>, nonce: Nonce, now: u64)
    requires Tracked(homes, ks, n) && Answered(homes, ks, n, n', id, r, m, p, route, nonce, now)
    ensures Tracked(homes, ks, n')
  {
    hide Posted, OnTrack, Compose, GreedyPath, Stuck, RightAddresses;
    var message := Message(id, p.source, ROUTE, 0, Compose(route, p.payload), 0, now);
    Departure(homes, r.addresses, message, ks, nonce, Request(route, p.payload, id));
    var out := Posted(r.addresses, message, ks, nonce);
    forall i | 0 <= i < |n'.flights| ensures FlightOnTrack(homes, ks, n', n'.flights[i]) {
      if i < |n.flights| {
        assert FlightOnTrack(homes, ks, n, n.flights[i]);
      } else {
        assert n'.flights[i] == Flight(|n.requests|, out[i - |n.flights|]);
        assert out[i - |n.flights|] in out;
      }
    }
    forall i, j | 0 <= i < j < |n'.flights| ensures n'.flights[i].request != n'.flights[j].request {
      assert FlightOnTrack(homes, ks, n, n.flights[i]);
      if j < |n.flights| { assert FlightOnTrack(homes, ks, n, n.flights[j]); }
    }
  }

  lemma LostKeepsTrack(homes: Homes, ks: Keystream, n: Net, n': Net, i: nat)
    requires Tracked(homes, ks, n) && Lost(n, n', i)
    ensures Tracked(homes, ks, n')
  {
    hide OnTrack;
    WithoutKeeps(n.flights, i);
    forall k | 0 <= k < |n'.flights| ensures FlightOnTrack(homes, ks, n', n'.flights[k]) {
      assert FlightOnTrack(homes, ks, n, n.flights[if k < i then k else k + 1]);
    }
  }

  lemma WithoutKeeps(fs: seq<Flight>, i: nat)
    requires i < |fs|
    ensures |Without(fs, i)| == |fs| - 1
    ensures forall k :: 0 <= k < |fs| - 1 ==> Without(fs, i)[k] == fs[if k < i then k else k + 1]
  {
  }

  lemma DeliveredKeepsTrack(homes: Homes, ks: Keystream, n: Net, n': Net, i: nat, id: u32,
                            addresses: map<u32, Text>, nonce: Nonce, now: u64)
    requires OneNodePerHome(homes) && Tracked(homes, ks, n)
    requires Delivered(homes, ks, n, n', i, id, addresses, nonce, now)
    ensures Tracked(homes, ks, n')
  {
    hide OnTrack, Parse, Sends, OneNodePerHome, RightAddresses, Reduced, Effective;
    var f := n.flights[i];
    var q, h := Effective(n.requests[f.request]), |n.handled[f.request]|;
    assert FlightOnTrack(homes, ks, n, f);
    EffectiveIsReduced(n.requests[f.request]);
    NodeKeepsTrack(homes, ks, f.datagram, q, h, id, addresses, nonce, now);
    OnTrackBounds(homes, ks, f.datagram, q, h);
    assert q.route[..h] + [q.route[h]] == q.route[..h + 1];
    assert n.handled[f.request] == q.route[..h];
    WithoutKeeps(n.flights, i);
    var kept := Without(n.flights, i);
    var out := Sends(id, addresses, Parse(f.datagram.frame, ks).value, ks, nonce, now);
    forall k | 0 <= k < |n'.flights| ensures FlightOnTrack(homes, ks, n', n'.flights[k]) {
      if k < |kept| {
        var j := if k < i then k else k + 1;
        assert FlightOnTrack(homes, ks, n, n.flights[j]);
        assert n.flights[j].request != f.request;
      } else {
        assert out[k - |kept|] in out;
      }
    }
  }

  lemma OnTrackBounds(homes: Homes, ks: Keystream, d: Datagram, q: Request, h: nat)
    requires OnTrack(homes, ks, d, q, h)
    ensures h < |q.route|
  {
    hide Parse, Compose;
  }

  lemma StepKeepsTrack(homes: Homes, ks: Keystream, n: Net, n': Net)
    requires OneNodePerHome(homes) && Tracked(homes, ks, n) && Step(homes, ks, n, n')
    ensures Tracked(homes, ks, n')
  {
    hide Tracked, OneNodePerHome, Answered, Delivered, Lost;
    if Asked(homes, ks, n, n') {
      var id: u32, r: Registry, m: Metric, p: Packet, route: seq<u32>, nonce: Nonce, now: u64 :|
        Answered(homes, ks, n, n', id, r, m, p, route, nonce, now);
      AskedKeepsTrack(homes, ks, n, n', id, r, m, p, route, nonce, now);
    } else if DeliveredSome(homes, ks, n, n') {
      var i: nat, id: u32, addresses: map<u32, Text>, nonce: Nonce, now: u64 :|
        Delivered(homes, ks, n, n', i, id, addresses, nonce, now);
      DeliveredKeepsTrack(homes, ks, n, n', i, id, addresses, nonce, now);
    } else {
      var i: nat :| Lost(n, n', i);
      LostKeepsTrack(homes, ks, n, n', i);
    }
  }

  /** A finite run: consecutive states are related by steps. */
  ghost predicate IsRun(homes: Homes, ks: Keystream, run: seq<Net>) {
    run != [] && forall i :: 0 <= i < |run| - 1 ==> StepAt(homes, ks, run, i)
  }

  ghost predicate StepAt(homes: Homes, ks: Keystream, run: seq<Net>, i: nat)
    requires i + 1 < |run|
  {
    Step(homes, ks, run[i], run[i + 1])
  }

  lemma {:induction false} RunKeepsTrack(homes: Homes, ks: Keystream, run: seq<Net>, k: nat)
    requires OneNodePerHome(homes) && IsRun(homes, ks, run) && run[0] == QUIET && k < |run|
    ensures Tracked(homes, ks, run[k])
  {
    hide Step, OneNodePerHome;
    if k == 0 {
    } else {
      RunKeepsTrack(homes, ks, run, k - 1);
      assert StepAt(homes, ks, run, k - 1);
      StepKeepsTrack(homes, ks, run[k - 1], run[k]);
    }
  }

  /** Nodes handle a request in the order of its effective route, and none handles it twice if
      no id is on that route twice, as is always so with less data than a word. */
  predicate HandledInOrder(q: Request, handled: seq<u32>) {
    handled <= Effective(q).route
    && (Distinct(Effective(q).route) ==> Distinct(handled))
    && (|q.data| < 4 ==> Effective(q) == q && Distinct(handled))
  }

  /** Requests are handled in order. A ROUTE packet in flight is addressed to the first id of its
      own payload, and the ids in it are what is left of the effective route; a DATA packet
      carries what is left of the data to the end of it. Either names the node that handled it
      last as its source, or at first the bootstrap node. At most one packet per request is in
      flight. */
  predicate SafeNet(homes: Homes, ks: Keystream, n: Net) {
    |n.handled| == |n.requests|
    && (forall q :: 0 <= q < |n.requests| ==> HandledInOrder(n.requests[q], n.handled[q]))
    && (forall i :: 0 <= i < |n.flights| ==> Safe(homes, ks, n, n.flights[i]))
    && (forall i, j :: 0 <= i < j < |n.flights| ==> n.flights[i].request != n.flights[j].request)
  }

  /** Every state of every run is safe. */
  lemma RoutedRunIsSafe(homes: Homes, ks: Keystream, run: seq<Net>, k: nat)
    requires OneNodePerHome(homes) && IsRun(homes, ks, run) && run[0] == QUIET && k < |run|
    ensures SafeNet(homes, ks, run[k])
  {
    hide Step, OneNodePerHome, SafeNet, Tracked;
    RunKeepsTrack(homes, ks, run, k);
    TrackedIsSafe(homes, ks, run[k]);
  }

  lemma TrackedIsSafe(homes: Homes, ks: Keystream, n: Net)
    requires Tracked(homes, ks, n)
    ensures SafeNet(homes, ks, n)
  {
    hide OnTrack, Parse, Safe, Distinct, Effective;
    forall q | 0 <= q < |n.requests| ensures HandledInOrder(n.requests[q], n.handled[q]) {
      var request := n.requests[q];
      if Distinct(Effective(request).route) { PrefixDistinct(n.handled[q], Effective(request).route); }
      if |request.data| < 4 { ReducedIsEffective(request); }
    }
    forall i | 0 <= i < |n.flights| ensures Safe(homes, ks, n, n.flights[i]) {
      assert FlightOnTrack(homes, ks, n, n.flights[i]);
      OnTrackIsSafe(homes, ks, n, n.flights[i]);
    }
  }

  predicate Safe(homes: Homes, ks: Keystream, n: Net, f: Flight) {
    f.request < |n.requests| && f.request < |n.handled|
    && |f.datagram.frame| >= HEADER_SIZE + 2 && Parse(f.datagram.frame, ks).Ok?
    && var p, q, done := Parse(f.datagram.frame, ks).value, Effective(n.requests[f.request]), n.handled[f.request];
       p.destination in homes && f.datagram.to == homes[p.destination]
       && p.source == (if done == [] then q.sender else done[|done| - 1])
       && (p.kind == ROUTE || p.kind == DATA)
       && (p.kind == ROUTE ==>
             Ids(p.payload) != [] && p.destination == Ids(p.payload)[0]
             && done + Ids(p.payload) == q.route && Rest(p.payload) == q.data)
       && (p.kind == DATA ==> q.route == done + [p.destination] && p.payload == q.data)
  }

  lemma PrefixDistinct(s: seq<u32>, t: seq<u32>)
    requires s <= t && Distinct(t)
    ensures Distinct(s)
  {
    forall i, j | 0 <= i < j < |s| ensures s[i] != s[j] { assert t[i] != t[j]; }
  }

  lemma OnTrackIsSafe(homes: Homes, ks: Keystream, n: Net, f: Flight)
    requires FlightOnTrack(homes, ks, n, f) && StartsWell(n.requests[f.request])
    requires n.handled[f.request] <= Effective(n.requests[f.request]).route
    ensures Safe(homes, ks, n, f)
  {
    hide Parse, Compose, Ids, Rest, Effective, StartsWell;
    var q, h := Effective(n.requests[f.request]), |n.handled[f.request]|;
    EffectiveIsReduced(n.requests[f.request]);
    ReadRoute(q.route[h..], q.data);
    ShortPayload(q.data);
    assert n.handled[f.request] == q.route[..h];
    assert q.route == q.route[..h] + q.route[h..];
  }

  // ----- Copies -----

  /** A datagram in flight is duplicated. */
  predicate Copied(n: Net, n': Net, i: nat) {
    i < |n.flights| && n' == n.(flights := n.flights + [n.flights[i]])
  }

  ghost predicate StepOrCopy(homes: Homes, ks: Keystream, n: Net, n': Net) {
    Step(homes, ks, n, n') || exists i: nat :: Copied(n, n', i)
  }

  ghost predicate IsCopyingRun(homes: Homes, ks: Keystream, run: seq<Net>) {
    run != [] && forall i :: 0 <= i < |run| - 1 ==> StepOrCopyAt(homes, ks, run, i)
  }

  ghost predicate StepOrCopyAt(homes: Homes, ks: Keystream, run: seq<Net>, i: nat)
    requires i + 1 < |run|
  {
    StepOrCopy(homes, ks, run[i], run[i + 1])
  }

  /** The flight is on track somewhere along its route. */
  ghost predicate Somewhere(homes: Homes, ks: Keystream, n: Net, f: Flight) {
    f.request < |n.requests| && StartsWell(n.requests[f.request])
    && exists h: nat :: OnTrack(homes, ks, f.datagram, Effective(n.requests[f.request]), h)
  }

  ghost predicate AllSomewhere(homes: Homes, ks: Keystream, n: Net) {
    |n.handled| == |n.requests| && forall f :: f in n.flights ==> Somewhere(homes, ks, n, f)
  }

  lemma AskedKeepsSomewhere(homes: Homes, ks: Keystream, n: Net, n': Net, id: u32, r: Registry, m: Metric, p: Packet,
                            route: seq<u32>, nonce: Nonce, now: u64)
    requires AllSomewhere(homes, ks, n) && Answered(homes, ks, n, n', id, r, m, p, route, nonce, now)
    ensures AllSomewhere(homes, ks, n')
  {
    hide Posted, OnTrack, Compose, GreedyPath, Stuck, RightAddresses;
    var message := Message(id, p.source, ROUTE, 0, Compose(route, p.payload), 0, now);
    Departure(homes, r.addresses, message, ks, nonce, Request(route, p.payload, id));
    forall f | f in n'.flights ensures Somewhere(homes, ks, n', f) {
      if f in n.flights {
        assert Somewhere(homes, ks, n, f);
      } else {
        TaggedMember(|n.requests|, Posted(r.addresses, message, ks, nonce), f);
        assert OnTrack(homes, ks, f.datagram, Effective(n'.requests[f.request]), 0);
      }
    }
  }

  lemma TaggedMember(q: nat, out: seq<Datagram>, f: Flight)
    requires f in Tagged(q, out)
    ensures f.request == q && f.datagram in out
  {
  }

  lemma DeliveredKeepsSomewhere(homes: Homes, ks: Keystream, n: Net, n': Net, i: nat, id: u32,
                                addresses: map<u32, Text>, nonce: Nonce, now: u64)
    requires OneNodePerHome(homes) && AllSomewhere(homes, ks, n)
    requires Delivered(homes, ks, n, n', i, id, addresses, nonce, now)
    ensures AllSomewhere(homes, ks, n')
  {
    hide OnTrack, Parse, Sends, OneNodePerHome, RightAddresses, Reduced, Effective;
    var f := n.flights[i];
    assert Somewhere(homes, ks, n, f);
    var q := Effective(n.requests[f.request]);
    var h: nat :| OnTrack(homes, ks, f.datagram, q, h);
    EffectiveIsReduced(n.requests[f.request]);
    NodeKeepsTrack(homes, ks, f.datagram, q, h, id, addresses, nonce, now);
    forall g | g in n'.flights ensures Somewhere(homes, ks, n', g) {
      if g in n.flights {
        assert Somewhere(homes, ks, n, g);
      } else {
        TaggedMember(f.request, Sends(id, addresses, Parse(f.datagram.frame, ks).value, ks, nonce, now), g);
      }
    }
  }

  lemma FewerSomewhere(homes: Homes, ks: Keystream, n: Net, n': Net)
    requires AllSomewhere(homes, ks, n) && (forall f :: f in n'.flights ==> f in n.flights)
    requires n'.requests == n.requests && n'.handled == n.handled
    ensures AllSomewhere(homes, ks, n')
  {
    hide OnTrack, Reduced;
    forall f | f in n'.flights ensures Somewhere(homes, ks, n', f) { assert Somewhere(homes, ks, n, f); }
  }

  lemma CopyKeepsSomewhere(homes: Homes, ks: Keystream, n: Net, n': Net)
    requires OneNodePerHome(homes) && AllSomewhere(homes, ks, n) && StepOrCopy(homes, ks, n, n')
    ensures AllSomewhere(homes, ks, n')
  {
    hide AllSomewhere, OneNodePerHome, Answered, Delivered;
    if Asked(homes, ks, n, n') {
      var id: u32, r: Registry, m: Metric, p: Packet, route: seq<u32>, nonce: Nonce, now: u64 :|
        Answered(homes, ks, n, n', id, r, m, p, route, nonce, now);
      AskedKeepsSomewhere(homes, ks, n, n', id, r, m, p, route, nonce, now);
    } else if DeliveredSome(homes, ks, n, n') {
      var i: nat, id: u32, addresses: map<u32, Text>, nonce: Nonce, now: u64 :|
        Delivered(homes, ks, n, n', i, id, addresses, nonce, now);
      DeliveredKeepsSomewhere(homes, ks, n, n', i, id, addresses, nonce, now);
    } else {
      FewerSomewhere(homes, ks, n, n');
    }
  }

  /** The flight carries what is left of its effective route, or what is left of the data to the
      end of it. */
  predicate Carries(homes: Homes, ks: Keystream, n: Net, f: Flight) {
    f.request < |n.requests| && |f.datagram.frame| >= HEADER_SIZE + 2 && Parse(f.datagram.frame, ks).Ok?
    && var p, q := Parse(f.datagram.frame, ks).value, Effective(n.requests[f.request]);
       p.destination in homes && f.datagram.to == homes[p.destination]
       && (p.kind == ROUTE || p.kind == DATA)
       && (p.kind == ROUTE ==>
             Ids(p.payload) != [] && p.destination == Ids(p.payload)[0] && Rest(p.payload) == q.data
             && |Ids(p.payload)| <= |q.route| && Ids(p.payload) == q.route[|q.route| - |Ids(p.payload)|..]
             && p.source == Before(q, |q.route| - |Ids(p.payload)|))
       && (p.kind == DATA ==>
             q.route != [] && p.destination == q.route[|q.route| - 1] && p.payload == q.data
             && p.source == Before(q, |q.route| - 1))
  }

  lemma SomewhereCarries(homes: Homes, ks: Keystream, n: Net, f: Flight)
    requires Somewhere(homes, ks, n, f)
    ensures Carries(homes, ks, n, f)
  {
    hide Parse, Compose, Ids, Rest, Effective;
    var q := Effective(n.requests[f.request]);
    EffectiveIsReduced(n.requests[f.request]);
    var h: nat :| OnTrack(homes, ks, f.datagram, q, h);
    ReadRoute(q.route[h..], q.data);
    ShortPayload(q.data);
  }

  /** Even if datagrams are duplicated on the way, every packet in flight carries what is left of
      its own route, to the first node of it, or the original data to the end. */
  lemma {:induction false} CopyingRunCarries(homes: Homes, ks: Keystream, run: seq<Net>, k: nat)
    requires OneNodePerHome(homes) && IsCopyingRun(homes, ks, run) && run[0] == QUIET && k < |run|
    ensures AllSomewhere(homes, ks, run[k])
    ensures forall f :: f in run[k].flights ==> Carries(homes, ks, run[k], f)
  {
    hide StepOrCopy, OneNodePerHome, Carries, Somewhere;
    if k > 0 {
      CopyingRunCarries(homes, ks, run, k - 1);
      assert StepOrCopyAt(homes, ks, run, k - 1);
      CopyKeepsSomewhere(homes, ks, run[k - 1], run[k]);
    }
    forall f | f in run[k].flights ensures Carries(homes, ks, run[k], f) { SomewhereCarries(homes, ks, run[k], f); }
  }

  /** A ROUTE packet in flight is duplicated and both arrive. */
  lemma CopyIsHandledTwice(homes: Homes, ks: Keystream, n: Net, i: nat, id: u32, addresses: map<u32, Text>,
                           nonce: Nonce, now: u64) returns (n1: Net, n2: Net, n3: Net)
    requires i < |n.flights| && n.flights[i].request < |n.handled|
    requires id in homes && homes[id] == n.flights[i].datagram.to
    requires |n.flights[i].datagram.frame| >= HEADER_SIZE + 2 && Parse(n.flights[i].datagram.frame, ks).Ok?
    requires Parse(n.flights[i].datagram.frame, ks).value.kind == ROUTE
    ensures Copied(n, n1, i) && Moved(homes, ks, n1, n2, i, id, addresses, nonce, now)
    ensures Moved(homes, ks, n2, n3, |n.flights| - 1, id, addresses, nonce, now)
    ensures var q := n.flights[i].request; n3.handled[q] == n.handled[q] + [id, id]
  {
    hide Parse, Sends;
    var f := n.flights[i];
    var q, last := f.request, |n.flights| - 1;
    var out := Tagged(q, Sends(id, addresses, Parse(f.datagram.frame, ks).value, ks, nonce, now));
    n1 := n.(flights := n.flights + [f]);
    n2 := Net(n.requests, Without(n1.flights, i) + out, n.handled[q := n.handled[q] + [id]]);
    assert n2.flights[last] == f;
    n3 := Net(n.requests, Without(n2.flights, last) + out, n2.handled[q := n2.handled[q] + [id]]);
  }

  // ----- Progress -----

  predicate Reaches(homes: Homes, addresses: map<u32, Text>, id: u32) {
    RightAddresses(homes, addresses) && id in addresses && Resolve(addresses[id]).Some?
  }

  /** Each node on the route has, in its own table, the address of the next one. */
  ghost predicate KnowsRoute(homes: Homes, tables: map<u32, map<u32, Text>>, route: seq<u32>) {
    forall h :: 0 <= h < |route| - 1 ==> KnowsNext(homes, tables, route, h)
  }

  ghost predicate KnowsNext(homes: Homes, tables: map<u32, map<u32, Text>>, route: seq<u32>, h: nat)
    requires h + 1 < |route|
  {
    route[h] in tables && Reaches(homes, tables[route[h]], route[h + 1])
  }

  /** Flight `f` carries a packet of the given kind for a request that amounts to `q`, which `h`
      nodes have handled so far. */
  predicate Underway(homes: Homes, ks: Keystream, n: Net, f: Flight, kind: byte, q: Request, h: nat) {
    Tracked(homes, ks, n) && f in n.flights && FlightOnTrack(homes, ks, n, f)
    && Effective(n.requests[f.request]) == q && |n.handled[f.request]| == h
    && Parse(f.datagram.frame, ks).value.kind == kind
  }

  lemma PostedIfKnown(addresses: map<u32, Text>, p: Packet, ks: Keystream, nonce: Nonce)
    requires p.destination in addresses && Resolve(addresses[p.destination]).Some?
    ensures |Posted(addresses, p, ks, nonce)| == 1
  {
    hide Frame;
  }

  /** A node whose turn it is, with more than its own id left and the next address known, sends
      one packet: DATA if one id is left after its own, ROUTE if there are more. */
  lemma NodePassesOn(homes: Homes, ks: Keystream, d: Datagram, q: Request, h: nat, addresses: map<u32, Text>,
                     nonce: Nonce, now: u64) returns (e: Datagram)
    requires Reduced(q) && OnTrack(homes, ks, d, q, h) && h + 1 < |q.route|
    requires Parse(d.frame, ks).value.kind == ROUTE && Reaches(homes, addresses, q.route[h + 1])
    ensures Sends(q.route[h], addresses, Parse(d.frame, ks).value, ks, nonce, now) == [e]
    ensures |e.frame| >= HEADER_SIZE + 2 && Parse(e.frame, ks).Ok?
    ensures Parse(e.frame, ks).value.kind == if h + 2 == |q.route| then DATA else ROUTE
  {
    hide Parse, RightAddresses, Posted, Forwarded, Compose;
    var p, rest := Parse(d.frame, ks).value, q.route[h..];
    ForwardedRoute(rest, q.data);
    assert rest[1] == q.route[h + 1];
    var leg := Forwarded(p.payload).value;
    var message := Message(q.route[h], leg.to, leg.kind, 0, leg.payload, 0, now);
    PostedIfKnown(addresses, message, ks, nonce);
    PostedMessage(homes, addresses, message, ks, nonce);
    e := Posted(addresses, message, ks, nonce)[0];
  }

  /** Delivering a ROUTE packet that is not at the end of its route puts the next packet in
      flight. */
  lemma NextHopFollows(homes: Homes, ks: Keystream, n: Net, f: Flight, q: Request, h: nat,
                       addresses: map<u32, Text>, nonce: Nonce, now: u64) returns (n': Net, g: Flight)
    requires OneNodePerHome(homes) && Underway(homes, ks, n, f, ROUTE, q, h)
    requires h + 1 < |q.route| && Reaches(homes, addresses, q.route[h + 1])
    ensures exists i: nat :: Delivered(homes, ks, n, n', i, q.route[h], addresses, nonce, now)
    ensures g.request == f.request
    ensures Underway(homes, ks, n', g, if h + 2 == |q.route| then DATA else ROUTE, q, h + 1)
  {
    hide Parse, OneNodePerHome, RightAddresses, Sends, OnTrack, Effective;
    EffectiveIsReduced(n.requests[f.request]);
    var i :| 0 <= i < |n.flights| && n.flights[i] == f;
    var id := q.route[h];
    AtHome(homes, ks, f.datagram, q, h);
    var e := NodePassesOn(homes, ks, f.datagram, q, h, addresses, nonce, now);
    g := Flight(f.request, e);
    n' := Net(n.requests, Without(n.flights, i) + Tagged(f.request, [e]),
              n.handled[f.request := n.handled[f.request] + [id]]);
    assert Delivered(homes, ks, n, n', i, id, addresses, nonce, now);
    DeliveredKeepsTrack(homes, ks, n, n', i, id, addresses, nonce, now);
    assert n'.flights[|n'.flights| - 1] == g;
    assert FlightOnTrack(homes, ks, n', g);
  }

  lemma AtHome(homes: Homes, ks: Keystream, d: Datagram, q: Request, h: nat)
    requires OnTrack(homes, ks, d, q, h)
    ensures q.route[h] in homes && homes[q.route[h]] == d.to
    ensures |d.frame| >= HEADER_SIZE + 2 && Parse(d.frame, ks).Ok?
  {
    hide Parse, Compose;
  }

  /** A delivery to a node that goes by its entry in `tables`. */
  ghost predicate DeliveredBy(homes: Homes, ks: Keystream, tables: map<u32, map<u32, Text>>, n: Net, n': Net) {
    exists i: nat, id: u32, nonce: Nonce, now: u64 ::
      id in tables && Delivered(homes, ks, n, n', i, id, tables[id], nonce, now)
  }

  /** A run in which nothing happens but deliveries. */
  ghost predicate IsDelivery(homes: Homes, ks: Keystream, tables: map<u32, map<u32, Text>>, run: seq<Net>) {
    run != [] && forall i :: 0 <= i < |run| - 1 ==> DeliveryAt(homes, ks, tables, run, i)
  }

  ghost predicate DeliveryAt(homes: Homes, ks: Keystream, tables: map<u32, map<u32, Text>>, run: seq<Net>, i: nat)
    requires i + 1 < |run|
  {
    DeliveredBy(homes, ks, tables, run[i], run[i + 1])
  }

  lemma DeliveryIsRun(homes: Homes, ks: Keystream, tables: map<u32, map<u32, Text>>, run: seq<Net>)
    requires IsDelivery(homes, ks, tables, run)
    ensures IsRun(homes, ks, run)
  {
    hide Delivered;
    forall i | 0 <= i < |run| - 1 ensures StepAt(homes, ks, run, i) {
      assert DeliveryAt(homes, ks, tables, run, i);
      var j: nat, id: u32, nonce: Nonce, now: u64 :|
        id in tables && Delivered(homes, ks, run[i], run[i + 1], j, id, tables[id], nonce, now);
      assert DeliveredSome(homes, ks, run[i], run[i + 1]);
    }
  }

  lemma RunFrom(homes: Homes, ks: Keystream, tables: map<u32, map<u32, Text>>, n: Net, run: seq<Net>)
    requires IsDelivery(homes, ks, tables, run) && DeliveredBy(homes, ks, tables, n, run[0])
    ensures IsDelivery(homes, ks, tables, [n] + run)
  {
    hide DeliveredBy;
    var longer := [n] + run;
    forall i | 0 <= i < |longer| - 1 ensures DeliveryAt(homes, ks, tables, longer, i) {
      if i > 0 { assert DeliveryAt(homes, ks, tables, run, i - 1); }
    }
  }

  lemma RunOfOne(homes: Homes, ks: Keystream, tables: map<u32, map<u32, Text>>, n: Net)
    ensures IsDelivery(homes, ks, tables, [n])
  {
  }

  lemma NextIsDelivered(homes: Homes, ks: Keystream, n: Net, n': Net, id: u32, tables: map<u32, map<u32, Text>>,
                        nonce: Nonce, now: u64)
    requires id in tables && exists i: nat :: Delivered(homes, ks, n, n', i, id, tables[id], nonce, now)
    ensures DeliveredBy(homes, ks, tables, n, n')
  {
    hide Delivered;
  }

  /** From turn `h`, deliveries alone bring the data to the end of the route, in exactly as
      many steps as there are hops left. */
  lemma {:induction false} RouteIsCarried(homes: Homes, ks: Keystream, n: Net, f: Flight, q: Request, h: nat,
                                          tables: map<u32, map<u32, Text>>, nonce: Nonce, now: u64)
    returns (run: seq<Net>, last: Net, g: Flight)
    requires OneNodePerHome(homes) && Underway(homes, ks, n, f, ROUTE, q, h)
    requires KnowsRoute(homes, tables, q.route) && h + 1 < |q.route|
    ensures IsDelivery(homes, ks, tables, run) && run[0] == n && run[|run| - 1] == last
    ensures |run| == |q.route| - h && g.request == f.request
    ensures Underway(homes, ks, last, g, DATA, q, |q.route| - 1)
    decreases |q.route| - h
  {
    hide Delivered, DeliveredBy, OneNodePerHome, Reaches, Underway, IsDelivery;
    assert KnowsNext(homes, tables, q.route, h);
    var next, g1 := NextHopFollows(homes, ks, n, f, q, h, tables[q.route[h]], nonce, now);
    NextIsDelivered(homes, ks, n, next, q.route[h], tables, nonce, now);
    if h + 2 == |q.route| {
      RunOfOne(homes, ks, tables, next);
      RunFrom(homes, ks, tables, n, [next]);
      run, last, g := [n] + [next], next, g1;
    } else {
      var rest;
      rest, last, g := RouteIsCarried(homes, ks, next, g1, q, h + 1, tables, nonce, now);
      RunFrom(homes, ks, tables, n, rest);
      run := [n] + rest;
    }
  }

  /** An answered request takes off, if the bootstrap knows the address of the requester. */
  lemma RequestTakesOff(homes: Homes, ks: Keystream, n: Net, n': Net, id: u32, r: Registry, m: Metric, p: Packet,
                        route: seq<u32>, nonce: Nonce, now: u64) returns (f: Flight)
    requires Tracked(homes, ks, n) && Answered(homes, ks, n, n', id, r, m, p, route, nonce, now)
    requires Reaches(homes, r.addresses, p.source)
    ensures Step(homes, ks, n, n') && f.request == |n.requests|
    ensures Underway(homes, ks, n', f, ROUTE, Effective(Request(route, p.payload, id)), 0)
  {
    hide Posted, OnTrack, Parse, Compose, IsRoute, RightAddresses, Effective;
    AskedKeepsTrack(homes, ks, n, n', id, r, m, p, route, nonce, now);
    var message := Message(id, p.source, ROUTE, 0, Compose(route, p.payload), 0, now);
    RouteStarts(route, r.positions, m, p.source, p.destination);
    PostedIfKnown(r.addresses, message, ks, nonce);
    PostedMessage(homes, r.addresses, message, ks, nonce);
    f := Flight(|n.requests|, Posted(r.addresses, message, ks, nonce)[0]);
    assert n'.flights[|n.flights|] == f;
    assert FlightOnTrack(homes, ks, n', f);
    assert Asked(homes, ks, n, n');
  }

  lemma RouteStarts(route: seq<u32>, ps: Positions, m: Metric, source: u32, destination: u32)
    requires IsRoute(route, ps, m, source, destination)
    ensures route != [] && route[0] == source
  {
    hide GreedyPath, Stuck;
  }

  /** The data of a request has reached the end of its route. */
  predicate Arrived(homes: Homes, ks: Keystream, n: Net, g: Flight, q: Request) {
    var k := |q.route| - 1;
    k >= 0 && g in n.flights && g.request < |n.handled| && n.handled[g.request] == q.route[..k]
    && q.route[k] in homes && g.datagram.to == homes[q.route[k]]
    && |g.datagram.frame| >= HEADER_SIZE + 2 && Parse(g.datagram.frame, ks).Ok?
    && var d := Parse(g.datagram.frame, ks).value;
       d.kind == DATA && d.destination == q.route[k] && d.payload == q.data
       && d.source == Before(q, k) && d.priority == 1
  }

  lemma UnderwayArrived(homes: Homes, ks: Keystream, n: Net, g: Flight, q: Request)
    requires q.route != [] && Underway(homes, ks, n, g, DATA, q, |q.route| - 1)
    ensures Arrived(homes, ks, n, g, q)
  {
    hide Parse, Compose;
  }

  /** A request with an effective route of k hops, k at least 1: once answered, exactly k
      deliveries carry what is left of its data to the end of that route. */
  lemma RequestIsCarried(homes: Homes, ks: Keystream, n: Net, n': Net, id: u32, r: Registry, m: Metric, p: Packet,
                         route: seq<u32>, tables: map<u32, map<u32, Text>>, nonce: Nonce, now: u64)
    returns (run: seq<Net>, last: Net, g: Flight)
    requires OneNodePerHome(homes) && Tracked(homes, ks, n)
    requires Answered(homes, ks, n, n', id, r, m, p, route, nonce, now)
    requires Reaches(homes, r.addresses, p.source)
    requires var q := Effective(Request(route, p.payload, id)); KnowsRoute(homes, tables, q.route) && |q.route| >= 2
    ensures Step(homes, ks, n, n')
    ensures IsDelivery(homes, ks, tables, run) && IsRun(homes, ks, run)
    ensures var q := Effective(Request(route, p.payload, id));
      run[0] == n' && run[|run| - 1] == last && |run| == |q.route|
      && g.request == |n.requests| && Arrived(homes, ks, last, g, q)
  {
    hide Step, OneNodePerHome, KnowsRoute, Underway, IsDelivery, IsRun, Arrived, Tracked, Answered, Effective;
    var q := Effective(Request(route, p.payload, id));
    var f := RequestTakesOff(homes, ks, n, n', id, r, m, p, route, nonce, now);
    run, last, g := RouteIsCarried(homes, ks, n', f, q, 0, tables, nonce, now);
    UnderwayArrived(homes, ks, last, g, q);
    DeliveryIsRun(homes, ks, tables, run);
  }

  // ----- Where right addresses come from -----

  /** A handshake tells the truth about where its sender listens. */
  predicate Honest(homes: Homes, p: Packet) {
    p.kind == HANDSHAKE && WellSized(p) ==>
      p.source in homes && homes[p.source] == Endpoint(Dotted(p.payload[0..4]), ReadBe16(p.payload[4..6]))
  }

  predicate HonestFrame(homes: Homes, frame: seq<byte>, ks: Keystream) {
    Receivable(frame, ks) && (Parse(frame, ks).Ok? ==> Honest(homes, Parse(frame, ks).value))
  }

  lemma FrameKeepsRight(homes: Homes, r: Registry, frame: seq<byte>, ks: Keystream)
    requires RightAddresses(homes, r.addresses) && HonestFrame(homes, frame, ks)
    ensures RightAddresses(homes, AfterFrame(r, frame, ks).addresses)
  {
    hide Parse, Resolve, AddressText;
    if Parse(frame, ks).Ok? {
      var p := Parse(frame, ks).value;
      if p.kind == HANDSHAKE { ResolveAddress(p.payload[0..4], ReadBe16(p.payload[4..6])); }
    }
    forall id: u32 ensures RightAt(homes, AfterFrame(r, frame, ks).addresses, id) {
      assert RightAt(homes, r.addresses, id);
    }
  }

  /** If every handshake is honest, the bootstrap's addresses are right after every run. */
  lemma {:induction false} RunKeepsRight(homes: Homes, frames: seq<seq<byte>>, ks: Keystream)
    requires forall i :: 0 <= i < |frames| ==> Receivable(frames[i], ks) && HonestFrame(homes, frames[i], ks)
    ensures RightAddresses(homes, AfterRun(EMPTY, frames, ks).addresses)
    decreases |frames|
  {
    hide HonestFrame, Receivable, AfterFrame, RightAddresses;
    if frames == [] {
      NothingWrong(homes);
    } else {
      var n := |frames| - 1;
      RunKeepsRight(homes, frames[..n], ks);
      FrameKeepsRight(homes, AfterRun(EMPTY, frames[..n], ks), frames[n], ks);
    }
  }

  lemma NothingWrong(homes: Homes)
    ensures RightAddresses(homes, map[])
  {
  }

  /** What zeros resolve to. */
  function ZeroEndpoint(): Endpoint {
    Endpoint(Dotted([0, 0, 0, 0]), 0)
  }

  lemma ZeroTextResolves()
    ensures Resolve(ZeroText()) == Some(ZeroEndpoint())
  {
    hide Resolve, AddressText, SatelliteText, Dotted;
    SatellitePrintsAlike(0, 0, 0, 0, 0);
    ResolveAddress([0, 0, 0, 0], 0);
  }

  lemma EntryTaught(r: Registry, m: Metric, id: u32, order: seq<u32>, c: Contacts, k: u32)
    requires Consistent(r) && Enumerates(order, r.positions.Keys)
    requires ReplyPayload(r, m, id, order).Some? && (k != 0 || !Padded(r, m, id))
    ensures Taught(r, m, id, c, Learn(c, ReplyPayload(r, m, id, order).value), k)
  {
    hide *;
    ReplyTeaches(r, m, id, order, c);
  }

  lemma PaddingTaught(r: Registry, m: Metric, id: u32, order: seq<u32>, c: Contacts)
    requires Consistent(r) && Enumerates(order, r.positions.Keys)
    requires ReplyPayload(r, m, id, order).Some? && Padded(r, m, id)
    ensures var d := Learn(c, ReplyPayload(r, m, id, order).value);
      0 in d.addresses && d.addresses[0] == ZeroText()
  {
    hide *;
    ReplyTeaches(r, m, id, order, c);
  }

  /** A reply from right addresses leaves the satellite's addresses right if and only if it is
      not padded, or id 0 happens to live where zeros point. */
  lemma ReplyKeepsRightIff(homes: Homes, r: Registry, m: Metric, id: u32, order: seq<u32>, c: Contacts)
    requires Consistent(r) && Enumerates(order, r.positions.Keys)
    requires ReplyPayload(r, m, id, order).Some?
    requires RightAddresses(homes, r.addresses) && RightAddresses(homes, c.addresses)
    ensures RightAddresses(homes, Learn(c, ReplyPayload(r, m, id, order).value).addresses)
      <==> !Padded(r, m, id) || (0 in homes && homes[0] == ZeroEndpoint())
  {
    hide Consistent, Enumerates, ReplyPayload, Learn, Padded, Resolve, ZeroText, ZeroEndpoint, Taught;
    var d := Learn(c, ReplyPayload(r, m, id, order).value);
    ZeroTextResolves();
    if Padded(r, m, id) { PaddingTaught(r, m, id, order, c); }
    forall k: u32 | k != 0 || !Padded(r, m, id) ensures RightAt(homes, d.addresses, k) {
      EntryStaysRight(homes, r, m, id, order, c, k);
    }
    if Padded(r, m, id) { assert RightAt(homes, d.addresses, 0) <==> 0 in homes && homes[0] == ZeroEndpoint(); }
  }

  lemma EntryStaysRight(homes: Homes, r: Registry, m: Metric, id: u32, order: seq<u32>, c: Contacts, k: u32)
    requires Consistent(r) && Enumerates(order, r.positions.Keys)
    requires ReplyPayload(r, m, id, order).Some? && (k != 0 || !Padded(r, m, id))
    requires RightAt(homes, r.addresses, k) && RightAt(homes, c.addresses, k)
    ensures RightAt(homes, Learn(c, ReplyPayload(r, m, id, order).value).addresses, k)
  {
    hide Consistent, Enumerates, ReplyPayload, Learn, Padded, Resolve, InRange;
    EntryTaught(r, m, id, order, c, k);
  }
}
