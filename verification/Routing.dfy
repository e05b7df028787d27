/** The greedy choice of a next hop and the routes it leads to. */
module Routing {
  import opened Bytes
  import opened Iteration

  /** A coordinate, kept as the eight bytes of a double. */
  type Double = s: seq<byte> | |s| == 8 witness [0, 0, 0, 0, 0, 0, 0, 0]

  datatype Position = Position(x: Double, y: Double, z: Double)

  /** The distance between positions, and the largest finite double; a distance that is not
      finite counts as no less than it. */
  datatype Metric = Metric(distance: (Position, Position) -> real, farthest: real)

  type Positions = map<u32, Position>

  /** The unsigned reading of -1, returned when there is no next hop. */
  const NO_HOP: u32 := 0xFFFF_FFFF

  /** The peers scanned, in scanning order: all but the source. */
  function Others(order: seq<u32>, source: u32): (others: seq<u32>)
    ensures forall k :: k in others <==> k in order && k != source
    ensures |others| <= |order|
    decreases |order|
  {
    if order == [] then []
    else
      var n := |order| - 1;
      Others(order[..n], source) + if order[n] == source then [] else [order[n]]
  }

  lemma {:induction false} OthersOfPrefix(order: seq<u32>, source: u32, n: nat)
    requires n <= |order|
    ensures Others(order[..n], source) <= Others(order, source)
    decreases |order|
  {
    if n < |order| {
      var m := |order| - 1;
      OthersOfPrefix(order[..m], source, n);
      assert order[..m][..n] == order[..n];
    } else {
      assert order[..n] == order;
    }
  }

  /** Peer `i` is unvisited and nearer to the source than the one before it. */
  predicate Improves(peers: seq<u32>, i: nat, ps: Positions, m: Metric, source: u32, visited: seq<u32>)
    requires source in ps && (forall k :: k in peers ==> k in ps) && i < |peers|
  {
    peers[i] !in visited
    && m.distance(ps[source], ps[peers[i]])
       < if i == 0 then m.farthest else m.distance(ps[source], ps[peers[i - 1]])
  }

  predicate Improving(peers: seq<u32>, ps: Positions, m: Metric, source: u32, visited: seq<u32>)
    requires source in ps && forall k :: k in peers ==> k in ps
  {
    forall i :: 0 <= i < |peers| ==> Improves(peers, i, ps, m, source, visited)
  }

  /** The longest leading run of improving peers has length `n`. */
  predicate LeadingRun(peers: seq<u32>, ps: Positions, m: Metric, source: u32, visited: seq<u32>, n: nat)
    requires source in ps && forall k :: k in peers ==> k in ps
  {
    n <= |peers| && Improving(peers[..n], ps, m, source, visited)
    && (n < |peers| ==> !Improving(peers[..n + 1], ps, m, source, visited))
  }

  /** The last peer of a run, or the sentinel. */
  function LastOf(peers: seq<u32>, n: nat): u32
    requires n <= |peers|
  {
    if n == 0 then NO_HOP else peers[n - 1]
  }

  /** `hop` is the outcome of a greedy scan from `source` in this iteration order. */
  ghost predicate HopFor(order: seq<u32>, ps: Positions, m: Metric, source: u32, visited: seq<u32>, hop: u32)
    requires source in ps
  {
    exists n: nat :: Scans(order, n, ps, m, source, visited, hop)
  }

  /** `hop` may be the outcome of a greedy scan from `source`, for some iteration order. */
  ghost predicate NextHop(ps: Positions, m: Metric, source: u32, visited: seq<u32>, hop: u32)
    requires source in ps
  {
    exists order: seq<u32>, n: nat :: Scans(order, n, ps, m, source, visited, hop)
  }

  predicate Scans(order: seq<u32>, n: nat, ps: Positions, m: Metric, source: u32, visited: seq<u32>, hop: u32)
    requires source in ps
  {
    Enumerates(order, ps.Keys)
    && LeadingRun(Others(order, source), ps, m, source, visited, n)
    && hop == LastOf(Others(order, source), n)
  }

  /** Runs are determined by the order: one scan has one outcome. */
  lemma OneLeadingRun(peers: seq<u32>, ps: Positions, m: Metric, source: u32, visited: seq<u32>, n: nat, k: nat)
    requires source in ps && forall p :: p in peers ==> p in ps
    requires LeadingRun(peers, ps, m, source, visited, n) && LeadingRun(peers, ps, m, source, visited, k)
    ensures n == k
  {
    if n < k {
      ShorterRun(peers, ps, m, source, visited, n, k);
    } else if k < n {
      ShorterRun(peers, ps, m, source, visited, k, n);
    }
  }

  lemma OneHop(order: seq<u32>, ps: Positions, m: Metric, source: u32, visited: seq<u32>, a: u32, b: u32)
    requires source in ps && HopFor(order, ps, m, source, visited, a) && HopFor(order, ps, m, source, visited, b)
    ensures a == b
  {
    hide LeadingRun, Others;
    var n: nat :| Scans(order, n, ps, m, source, visited, a);
    var k: nat :| Scans(order, k, ps, m, source, visited, b);
    assert forall p :: p in Others(order, source) ==> p in order;
    OneLeadingRun(Others(order, source), ps, m, source, visited, n, k);
  }

  lemma SomeHop(order: seq<u32>, ps: Positions, m: Metric, source: u32, visited: seq<u32>, hop: u32)
    requires source in ps && HopFor(order, ps, m, source, visited, hop)
    ensures NextHop(ps, m, source, visited, hop)
  {
    hide Scans;
  }

  lemma ShorterRun(peers: seq<u32>, ps: Positions, m: Metric, source: u32, visited: seq<u32>, n: nat, k: nat)
    requires source in ps && forall p :: p in peers ==> p in ps
    requires n < k <= |peers| && Improving(peers[..k], ps, m, source, visited)
    ensures Improving(peers[..n + 1], ps, m, source, visited)
  {
    var short := peers[..n + 1];
    forall i | 0 <= i < |short| ensures Improves(short, i, ps, m, source, visited) {
      assert Improves(peers[..k], i, ps, m, source, visited);
    }
  }

  /** A next hop is a peer of the table, neither the source nor visited. */
  lemma NextHopIsNew(ps: Positions, m: Metric, source: u32, visited: seq<u32>, hop: u32)
    requires source in ps && NextHop(ps, m, source, visited, hop) && hop != NO_HOP
    ensures hop in ps && hop != source && hop !in visited
  {
    var order: seq<u32>, n: nat :| Scans(order, n, ps, m, source, visited, hop);
    var others := Others(order, source);
    assert Improves(others[..n], n - 1, ps, m, source, visited);
    assert hop in others;
  }

  // ----- Routes -----

  /** Every id but the last leads to the next by a greedy hop that knows what came before. */
  ghost predicate GreedyPath(route: seq<u32>, ps: Positions, m: Metric) {
    forall i :: 0 <= i < |route| - 1 ==> HopAt(route, i, ps, m)
  }

  ghost predicate HopAt(route: seq<u32>, i: nat, ps: Positions, m: Metric)
    requires i + 1 < |route|
  {
    route[i] in ps && route[i + 1] != NO_HOP && NextHop(ps, m, route[i], route[..i], route[i + 1])
  }

  /** The search may give up at the last id. */
  ghost predicate Stuck(route: seq<u32>, ps: Positions, m: Metric)
    requires route != []
  {
    var n := |route| - 1;
    route[n] in ps && NextHop(ps, m, route[n], route[..n], NO_HOP)
  }

  /** What the search from `source` for `destination` may return. */
  ghost predicate IsRoute(route: seq<u32>, ps: Positions, m: Metric, source: u32, destination: u32) {
    route != [] && route[0] == source && Distinct(route) && GreedyPath(route, ps, m)
    && destination !in route[..|route| - 1]
    && (route[|route| - 1] == destination || Stuck(route, ps, m))
  }

  lemma AppendHop(route: seq<u32>, hop: u32, ps: Positions, m: Metric)
    requires route != [] && Distinct(route) && GreedyPath(route, ps, m)
    requires route[|route| - 1] in ps && hop != NO_HOP
    requires NextHop(ps, m, route[|route| - 1], route[..|route| - 1], hop)
    ensures hop in ps && hop !in route
    ensures Distinct(route + [hop]) && GreedyPath(route + [hop], ps, m)
  {
    var n, longer := |route| - 1, route + [hop];
    NextHopIsNew(ps, m, route[n], route[..n], hop);
    assert route == route[..n] + [route[n]];
    forall i | 0 <= i < |longer| - 1 ensures HopAt(longer, i, ps, m) {
      assert longer[..i] == route[..i];
      assert i < n ==> HopAt(route, i, ps, m);
    }
  }

  /** A route holds the destination at its end or not at all; then it stops at a dead end, and
      the packet is sent along it all the same. */
  lemma RouteReachesOrStops(route: seq<u32>, ps: Positions, m: Metric, source: u32, destination: u32)
    requires IsRoute(route, ps, m, source, destination)
    ensures destination in route <==> route[|route| - 1] == destination
    ensures destination !in route ==> Stuck(route, ps, m)
    ensures source == destination ==> route == [source]
    ensures forall i :: 0 <= i < |route| ==> route[i] in ps || route == [destination]
  {
    hide Stuck, NextHop;
    assert route == route[..|route| - 1] + [route[|route| - 1]];
    StaysIfThere(route, source, destination);
    forall i | 0 <= i < |route| ensures route[i] in ps || route == [destination] {
      if i < |route| - 1 {
        assert HopAt(route, i, ps, m);
      } else if i > 0 {
        assert HopAt(route, i - 1, ps, m);
        NextHopIsNew(ps, m, route[i - 1], route[..i - 1], route[i]);
      } else {
        StuckHasPosition(route, ps, m, destination);
      }
    }
  }

  lemma StaysIfThere(route: seq<u32>, source: u32, destination: u32)
    requires route != [] && route[0] == source && destination !in route[..|route| - 1]
    ensures source == destination ==> route == [source]
  {
    if |route| > 1 { assert route[..|route| - 1][0] == source; }
  }

  lemma StuckHasPosition(route: seq<u32>, ps: Positions, m: Metric, destination: u32)
    requires |route| == 1 && (route[0] == destination || Stuck(route, ps, m))
    ensures route[0] in ps || route == [destination]
  {
    hide NextHop;
  }
}
