/** When the greedy search is sure to find the destination, and when one greedy hop is the
    nearest peer. The table is iterated in an order the program does not choose. */
module Reachability {
  import opened Bytes
  import opened Iteration
  import opened Routing

  // ----- Orders -----

  lemma {:induction false} AnyOrder(keys: set<u32>) returns (order: seq<u32>)
    ensures Enumerates(order, keys)
    decreases keys
  {
    if keys == {} {
      order := [];
    } else {
      var k :| k in keys;
      order := AnyOrder(keys - {k});
      order := [k] + order;
    }
  }

  /** There is an order that begins as one likes. */
  lemma OrderFrom(first: seq<u32>, keys: set<u32>) returns (order: seq<u32>)
    requires Distinct(first) && forall k :: k in first ==> k in keys
    ensures Enumerates(order, keys) && first <= order
  {
    var rest := AnyOrder(keys - set k | k in first);
    order := first + rest;
    forall i, j | 0 <= i < j < |order| ensures order[i] != order[j] {
      if i < |first| <= j { assert order[i] in first && order[j] in rest; }
    }
  }

  lemma {:induction false} OthersDistinct(order: seq<u32>, source: u32)
    requires Distinct(order)
    ensures Distinct(Others(order, source))
    decreases |order|
  {
    if order != [] {
      var n := |order| - 1;
      OthersDistinct(order[..n], source);
      assert order[n] !in order[..n];
    }
  }

  lemma {:induction false} OthersAfterSource(order: seq<u32>, source: u32)
    requires Distinct(order) && order != [] && order[0] == source
    ensures Others(order, source) == order[1..]
    decreases |order|
  {
    var n := |order| - 1;
    if n == 0 {
      assert order[..0] == [];
    } else {
      OthersAfterSource(order[..n], source);
      assert order[n] != order[0];
      assert order[..n][1..] == order[1..][..n - 1];
      assert order[1..] == order[1..][..n - 1] + [order[n]];
    }
  }

  lemma OthersStart(order: seq<u32>, source: u32)
    requires order != [] && order[0] != source
    ensures Others(order, source) != [] && Others(order, source)[0] == order[0]
  {
    OthersOfPrefix(order, source, 1);
    assert order[..1] == [order[0]] && order[..1][..0] == [];
    assert Others(order[..1], source) == [order[0]];
  }

  /** Every scan has an outcome. */
  lemma {:induction false} SomeRun(peers: seq<u32>, ps: Positions, m: Metric, source: u32, visited: seq<u32>, k: nat)
    returns (n: nat)
    requires source in ps && (forall p :: p in peers ==> p in ps)
    requires k <= |peers| && Improving(peers[..k], ps, m, source, visited)
    ensures n >= k && LeadingRun(peers, ps, m, source, visited, n)
    decreases |peers| - k
  {
    if k == |peers| || !Improving(peers[..k + 1], ps, m, source, visited) {
      n := k;
    } else {
      n := SomeRun(peers, ps, m, source, visited, k + 1);
    }
  }

  lemma ScanIs(order: seq<u32>, n: nat, ps: Positions, m: Metric, source: u32, visited: seq<u32>, hop: u32)
    requires source in ps && Scans(order, n, ps, m, source, visited, hop)
    ensures HopFor(order, ps, m, source, visited, hop)
  {
  }

  // ----- The first hop -----

  predicate IsFirst(order: seq<u32>, ps: Positions, source: u32) {
    Enumerates(order, ps.Keys) && order != [] && order[0] == source
  }

  lemma PeersOf(order: seq<u32>, ps: Positions, source: u32)
    requires Enumerates(order, ps.Keys)
    ensures forall k :: k in Others(order, source) <==> k in ps && k != source
  {
  }

  /** A peer that is too far away, scanned first, ends the search at once; -1 is returned, which
      reads as 4294967295. */
  lemma FarFirst(order: seq<u32>, ps: Positions, m: Metric, s: u32, a: u32)
    requires s in ps && IsFirst(order, ps, s) && |order| >= 2 && order[1] == a
    requires a in ps && m.distance(ps[s], ps[a]) >= m.farthest
    ensures HopFor(order, ps, m, s, [], 4294967295)
  {
    hide Others;
    OthersAfterSource(order, s);
    PeersOf(order, ps, s);
    var others := Others(order, s);
    assert others[0] == a;
    assert !Improves(others[..1], 0, ps, m, s, []);
    assert LeadingRun(others, ps, m, s, [], 0);
    ScanIs(order, 0, ps, m, s, [], NO_HOP);
  }

  /** Of two peers scanned first, the one before is taken if the one after is visited or no
      nearer. */
  lemma NearerFirst(order: seq<u32>, ps: Positions, m: Metric, s: u32, visited: seq<u32>, a: u32, b: u32)
    requires s in ps && IsFirst(order, ps, s) && |order| >= 3 && order[1] == a && order[2] == b
    requires a in ps && b in ps && a !in visited && m.distance(ps[s], ps[a]) < m.farthest
    requires b in visited || m.distance(ps[s], ps[b]) >= m.distance(ps[s], ps[a])
    ensures HopFor(order, ps, m, s, visited, a)
  {
    hide Others;
    OthersAfterSource(order, s);
    PeersOf(order, ps, s);
    var others := Others(order, s);
    assert others[0] == a && others[1] == b;
    assert Improving(others[..1], ps, m, s, visited);
    assert !Improves(others[..2], 1, ps, m, s, visited);
    assert LeadingRun(others, ps, m, s, visited, 1);
    ScanIs(order, 1, ps, m, s, visited, a);
  }

  /** The destination can be reached, is near enough, and is the only peer or the nearer of two. */
  predicate OnlyChoice(ps: Positions, m: Metric, s: u32, t: u32)
    requires s in ps
  {
    t in ps && t != NO_HOP && m.distance(ps[s], ps[t]) < m.farthest
    && forall p :: p in ps && p != s && p != t ==>
         m.distance(ps[s], ps[t]) < m.distance(ps[s], ps[p]) < m.farthest && ps.Keys == {s, p, t}
  }

  /** Otherwise some order, beginning with the source, leads the first hop elsewhere. */
  lemma ElsewhereFirst(ps: Positions, m: Metric, s: u32, t: u32) returns (order: seq<u32>, hop: u32)
    requires s in ps && s != t && !OnlyChoice(ps, m, s, t)
    ensures IsFirst(order, ps, s) && HopFor(order, ps, m, s, [], hop) && (hop == NO_HOP || hop != t)
  {
    if t !in ps || t == NO_HOP {
      order, hop := AnyFirst(ps, m, s);
      if hop != NO_HOP { HopIsNew(order, ps, m, s, [], hop); }
    } else if m.distance(ps[s], ps[t]) >= m.farthest {
      order := OrderFrom([s, t], ps.Keys);
      FarFirst(order, ps, m, s, t);
      hop := NO_HOP;
    } else {
      var p :| p in ps && p != s && p != t
        && !(m.distance(ps[s], ps[t]) < m.distance(ps[s], ps[p]) < m.farthest && ps.Keys == {s, p, t});
      order, hop := OtherPeerFirst(ps, m, s, t, p);
    }
  }

  lemma OtherPeerFirst(ps: Positions, m: Metric, s: u32, t: u32, p: u32) returns (order: seq<u32>, hop: u32)
    requires s in ps && t in ps && p in ps && s != t && p != s && p != t
    requires m.distance(ps[s], ps[t]) < m.farthest
    requires !(m.distance(ps[s], ps[t]) < m.distance(ps[s], ps[p]) < m.farthest && ps.Keys == {s, p, t})
    ensures IsFirst(order, ps, s) && HopFor(order, ps, m, s, [], hop) && (hop == NO_HOP || hop != t)
  {
    hide HopFor, OnlyChoice;
    if m.distance(ps[s], ps[p]) >= m.farthest {
      order := OrderFrom([s, p], ps.Keys);
      FarFirst(order, ps, m, s, p);
      hop := NO_HOP;
    } else if m.distance(ps[s], ps[p]) <= m.distance(ps[s], ps[t]) {
      order := OrderFrom([s, p, t], ps.Keys);
      NearerFirst(order, ps, m, s, [], p, t);
      hop := p;
    } else {
      var q :| q in ps && q !in {s, p, t};
      if m.distance(ps[s], ps[q]) >= m.distance(ps[s], ps[p]) {
        order := OrderFrom([s, p, q], ps.Keys);
        NearerFirst(order, ps, m, s, [], p, q);
        hop := p;
      } else {
        order := OrderFrom([s, q, p], ps.Keys);
        NearerFirst(order, ps, m, s, [], q, p);
        hop := q;
      }
    }
  }

  lemma AnyFirst(ps: Positions, m: Metric, s: u32) returns (order: seq<u32>, hop: u32)
    requires s in ps
    ensures IsFirst(order, ps, s) && HopFor(order, ps, m, s, [], hop)
  {
    order := OrderFrom([s], ps.Keys);
    var others := Others(order, s);
    var n := SomeRun(others, ps, m, s, [], 0);
    hop := LastOf(others, n);
    ScanIs(order, n, ps, m, s, [], hop);
  }

  lemma HopIsNew(order: seq<u32>, ps: Positions, m: Metric, source: u32, visited: seq<u32>, hop: u32)
    requires source in ps && HopFor(order, ps, m, source, visited, hop) && hop != NO_HOP
    ensures hop in ps && hop != source && hop !in visited
  {
    SomeHop(order, ps, m, source, visited, hop);
    NextHopIsNew(ps, m, source, visited, hop);
  }

  /** The second scan begins with the visited source and stops there. */
  lemma SecondScanStops(order: seq<u32>, ps: Positions, m: Metric, s: u32, hop: u32)
    requires s in ps && IsFirst(order, ps, s) && hop in ps && hop != s
    ensures HopFor(order, ps, m, hop, [s], NO_HOP)
  {
    hide Others;
    OthersStart(order, hop);
    PeersOf(order, ps, hop);
    var others := Others(order, hop);
    assert !Improves(others[..1], 0, ps, m, hop, [s]);
    assert LeadingRun(others, ps, m, hop, [s], 0);
    ScanIs(order, 0, ps, m, hop, [s], NO_HOP);
  }

  // ----- When the search is sure to reach its destination -----

  /** All scans of a search met the table in the same order. */
  ghost predicate InOneOrder(order: seq<u32>, route: seq<u32>, ps: Positions, m: Metric, t: u32) {
    Enumerates(order, ps.Keys) && route != []
    && (forall i :: 0 <= i < |route| - 1 ==> HopIn(order, route, i, ps, m))
    && (route[|route| - 1] != t ==> StuckIn(order, route, ps, m))
  }

  ghost predicate HopIn(order: seq<u32>, route: seq<u32>, i: nat, ps: Positions, m: Metric)
    requires i + 1 < |route|
  {
    route[i] in ps && HopFor(order, ps, m, route[i], route[..i], route[i + 1])
  }

  ghost predicate StuckIn(order: seq<u32>, route: seq<u32>, ps: Positions, m: Metric)
    requires route != []
  {
    var n := |route| - 1;
    route[n] in ps && HopFor(order, ps, m, route[n], route[..n], NO_HOP)
  }

  /** Unless the destination is the only choice, some order makes the search give up. */
  lemma GivesUp(ps: Positions, m: Metric, s: u32, t: u32) returns (order: seq<u32>, route: seq<u32>)
    requires s in ps && s != t && !OnlyChoice(ps, m, s, t)
    ensures IsRoute(route, ps, m, s, t) && InOneOrder(order, route, ps, m, t) && t !in route
  {
    hide *;
    var hop;
    order, hop := ElsewhereFirst(ps, m, s, t);
    Enumerated(order, ps, s);
    if hop == NO_HOP {
      route := [s];
      StopsAtOnce(order, ps, m, s, t);
    } else {
      HopIsNew(order, ps, m, s, [], hop);
      SecondScanStops(order, ps, m, s, hop);
      route := [s, hop];
      StopsAfterOne(order, ps, m, s, t, hop);
    }
  }

  lemma StopsAtOnce(order: seq<u32>, ps: Positions, m: Metric, s: u32, t: u32)
    requires s in ps && s != t && Enumerates(order, ps.Keys) && HopFor(order, ps, m, s, [], NO_HOP)
    ensures IsRoute([s], ps, m, s, t) && InOneOrder(order, [s], ps, m, t)
  {
    hide HopFor, NextHop, Enumerates;
    SomeHop(order, ps, m, s, [], NO_HOP);
    assert [s][..0] == [];
    assert Stuck([s], ps, m) && StuckIn(order, [s], ps, m);
  }

  lemma StopsAfterOne(order: seq<u32>, ps: Positions, m: Metric, s: u32, t: u32, hop: u32)
    requires s in ps && s != t && hop in ps && hop != s && hop != t && hop != NO_HOP && Enumerates(order, ps.Keys)
    requires HopFor(order, ps, m, s, [], hop) && HopFor(order, ps, m, hop, [s], NO_HOP)
    ensures IsRoute([s, hop], ps, m, s, t) && InOneOrder(order, [s, hop], ps, m, t)
  {
    hide HopFor, NextHop, Enumerates;
    var route := [s, hop];
    SomeHop(order, ps, m, s, [], hop);
    SomeHop(order, ps, m, hop, [s], NO_HOP);
    assert route[..0] == [] && route[..1] == [s];
    assert HopAt(route, 0, ps, m) && HopIn(order, route, 0, ps, m);
    assert Stuck(route, ps, m) && StuckIn(order, route, ps, m);
  }

  lemma Enumerated(order: seq<u32>, ps: Positions, s: u32)
    requires IsFirst(order, ps, s)
    ensures Enumerates(order, ps.Keys)
  {
  }

  /** The scan for an only choice takes it, whatever the order. */
  lemma OnlyChoiceIsTaken(order: seq<u32>, n: nat, ps: Positions, m: Metric, s: u32, t: u32, hop: u32)
    requires s in ps && s != t && OnlyChoice(ps, m, s, t) && Scans(order, n, ps, m, s, [], hop)
    ensures hop == t
  {
    hide Others, OnlyChoice;
    var others := Others(order, s);
    OthersDistinct(order, s);
    PeersOf(order, ps, s);
    NearEnough(ps, m, s, t);
    assert t in others;
    var k :| 0 <= k < |others| && others[k] == t;
    if k == 0 {
      assert Improves(others[..1], 0, ps, m, s, []);
      if |others| > 1 {
        FartherThan(ps, m, s, t, others[1]);
        assert !Improves(others[..2], 1, ps, m, s, []);
      }
    } else {
      FartherThan(ps, m, s, t, others[0]);
      assert k == 1 by { SecondIsLast(others, k, ps, m, s, t); }
      assert Improves(others[..2], 0, ps, m, s, []) && Improves(others[..2], 1, ps, m, s, []);
      assert |others| == 2 by { LastIsSecond(others, ps, m, s, t); }
    }
    assert LeadingRun(others, ps, m, s, [], k + 1);
    OneLeadingRun(others, ps, m, s, [], n, k + 1);
  }

  lemma NearEnough(ps: Positions, m: Metric, s: u32, t: u32)
    requires s in ps && OnlyChoice(ps, m, s, t)
    ensures t in ps && t != NO_HOP && m.distance(ps[s], ps[t]) < m.farthest
  {
  }

  lemma FartherThan(ps: Positions, m: Metric, s: u32, t: u32, p: u32)
    requires s in ps && OnlyChoice(ps, m, s, t) && p in ps && p != s && p != t
    ensures t in ps && m.distance(ps[s], ps[t]) < m.distance(ps[s], ps[p]) < m.farthest
    ensures ps.Keys == {s, p, t}
  {
  }

  lemma OneOther(ps: Positions, m: Metric, s: u32, t: u32, p: u32, q: u32)
    requires s in ps && OnlyChoice(ps, m, s, t)
    requires p in ps && p != s && p != t && q in ps && q != s && q != t
    ensures p == q
  {
    hide OnlyChoice;
    FartherThan(ps, m, s, t, p);
    assert q in ps.Keys;
  }

  lemma SecondIsLast(others: seq<u32>, k: nat, ps: Positions, m: Metric, s: u32, t: u32)
    requires s in ps && OnlyChoice(ps, m, s, t) && Distinct(others) && k < |others| && others[k] == t
    requires forall p :: p in others ==> p in ps && p != s
    ensures k <= 1
  {
    hide OnlyChoice;
    if k >= 2 {
      OneOther(ps, m, s, t, others[0], others[1]);
    }
  }

  lemma LastIsSecond(others: seq<u32>, ps: Positions, m: Metric, s: u32, t: u32)
    requires s in ps && OnlyChoice(ps, m, s, t) && Distinct(others) && |others| >= 2 && others[1] == t
    requires forall p :: p in others ==> p in ps && p != s
    ensures |others| == 2
  {
    hide OnlyChoice;
    if |others| > 2 {
      OneOther(ps, m, s, t, others[0], others[2]);
    }
  }

  /** The search then makes one hop. */
  lemma OnlyChoiceIsRoute(route: seq<u32>, ps: Positions, m: Metric, s: u32, t: u32)
    requires s in ps && s != t && OnlyChoice(ps, m, s, t) && IsRoute(route, ps, m, s, t)
    ensures route == [s, t]
  {
    hide Scans, OnlyChoice, Distinct;
    assert route[..0] == [];
    if |route| == 1 {
      var order: seq<u32>, n: nat :| Scans(order, n, ps, m, s, [], NO_HOP);
      OnlyChoiceIsTaken(order, n, ps, m, s, t, NO_HOP);
      NearEnough(ps, m, s, t);
    } else {
      assert HopAt(route, 0, ps, m);
      var order: seq<u32>, n: nat :| Scans(order, n, ps, m, s, [], route[1]);
      OnlyChoiceIsTaken(order, n, ps, m, s, t, route[1]);
      if |route| > 2 { SecondIsInFront(route); }
    }
  }

  lemma SecondIsInFront(route: seq<u32>)
    requires |route| > 2
    ensures route[1] in route[..|route| - 1]
  {
    assert route[..|route| - 1][1] == route[1];
  }

  lemma OnlyChoiceGivesRoute(ps: Positions, m: Metric, s: u32, t: u32)
    requires s in ps && s != t && OnlyChoice(ps, m, s, t)
    ensures IsRoute([s, t], ps, m, s, t)
  {
    hide Scans, OnlyChoice, IsFirst;
    var order, hop := AnyFirst(ps, m, s);
    var n: nat :| Scans(order, n, ps, m, s, [], hop);
    OnlyChoiceIsTaken(order, n, ps, m, s, t, hop);
    NearEnough(ps, m, s, t);
    SomeHop(order, ps, m, s, [], hop);
    var route := [s, t];
    assert route[..0] == [] && route[..1] == [s];
    assert HopAt(route, 0, ps, m);
  }

  /** The search reaches its destination, whatever the order of iteration, exactly when the
      destination is the only choice. It makes no difference whether every scan may meet another
      order or all meet the same. With four or more positions it never is. */
  lemma AlwaysReachesIff(ps: Positions, m: Metric, s: u32, t: u32)
    requires s in ps && s != t
    ensures (forall route :: IsRoute(route, ps, m, s, t) ==> t in route) <==> OnlyChoice(ps, m, s, t)
    ensures (forall order, route :: IsRoute(route, ps, m, s, t) && InOneOrder(order, route, ps, m, t) ==> t in route)
      <==> OnlyChoice(ps, m, s, t)
    ensures |ps| >= 4 ==> !OnlyChoice(ps, m, s, t)
  {
    hide IsRoute, InOneOrder, OnlyChoice;
    if OnlyChoice(ps, m, s, t) {
      forall route | IsRoute(route, ps, m, s, t) ensures t in route { OnlyChoiceIsRoute(route, ps, m, s, t); }
      AtMostThree(ps, m, s, t);
    } else {
      var order, route := GivesUp(ps, m, s, t);
    }
  }

  lemma AtMostThree(ps: Positions, m: Metric, s: u32, t: u32)
    requires s in ps && OnlyChoice(ps, m, s, t)
    ensures |ps| <= 3
  {
    if ps.Keys <= {s, t} {
      Fewer(ps.Keys, {s, t});
    } else {
      var p :| p in ps.Keys && p !in {s, t};
      Fewer(ps.Keys, {s, p, t});
    }
    assert |ps| == |ps.Keys|;
  }

  lemma {:induction false} Fewer(a: set<u32>, b: set<u32>)
    requires a <= b
    ensures |a| <= |b|
    decreases a
  {
    if a != {} {
      var k :| k in a;
      Fewer(a - {k}, b - {k});
    }
  }

  /** Three satellites at equal distances: from 1 to 3 the search goes to 2 and gives up. */
  lemma SearchCanGiveUp(here: Position)
    ensures var ps: Positions, m := map[1 := here, 2 := here, 3 := here], Metric((a, b) => 1.0, 2.0);
      IsRoute([1, 2], ps, m, 1, 3) && InOneOrder([1, 2, 3], [1, 2], ps, m, 3)
  {
    hide HopFor, NextHop;
    var ps: Positions, m := map[1 := here, 2 := here, 3 := here], Metric((a, b) => 1.0, 2.0);
    var order: seq<u32> := [1, 2, 3];
    NearerFirst(order, ps, m, 1, [], 2, 3);
    SecondScanStops(order, ps, m, 1, 2);
    StopsAfterOne(order, ps, m, 1, 3, 2);
  }

  // ----- When the greedy hop is the nearest peer -----

  /** No unvisited peer is nearer. */
  predicate Nearest(ps: Positions, m: Metric, s: u32, visited: seq<u32>, p: u32)
    requires s in ps
  {
    p in ps && p != s && p !in visited
    && forall q :: q in ps && q != s && q !in visited ==> m.distance(ps[s], ps[p]) <= m.distance(ps[s], ps[q])
  }

  /** The peer scanned at place `k` is nearest, and the scan gets that far. */
  predicate NearestAt(order: seq<u32>, k: nat, ps: Positions, m: Metric, s: u32, visited: seq<u32>)
    requires s in ps && forall p :: p in order ==> p in ps
  {
    var others := Others(order, s);
    k < |others| && Nearest(ps, m, s, visited, others[k]) && Improving(others[..k + 1], ps, m, s, visited)
  }

  lemma {:induction false} RunApproaches(peers: seq<u32>, ps: Positions, m: Metric, s: u32, visited: seq<u32>,
                                         i: nat, j: nat)
    requires s in ps && (forall p :: p in peers ==> p in ps) && Improving(peers, ps, m, s, visited)
    requires i < j < |peers|
    ensures m.distance(ps[s], ps[peers[j]]) < m.distance(ps[s], ps[peers[i]])
    decreases j
  {
    assert Improves(peers, j, ps, m, s, visited);
    if i < j - 1 { RunApproaches(peers, ps, m, s, visited, i, j - 1); }
  }

  /** A hop goes to a nearest unvisited peer exactly when the scan gets as far as one: when, in
      the order of the table, all peers up to it are unvisited and each nearer than the last. */
  lemma NearestIff(order: seq<u32>, ps: Positions, m: Metric, s: u32, visited: seq<u32>, hop: u32)
    requires s in ps && HopFor(order, ps, m, s, visited, hop) && hop != NO_HOP
    ensures forall p :: p in order ==> p in ps
    ensures Nearest(ps, m, s, visited, hop) <==> exists k: nat :: NearestAt(order, k, ps, m, s, visited)
  {
    hide Others, Nearest, Scans, NearestAt;
    var n: nat :| Scans(order, n, ps, m, s, visited, hop);
    ScanIsOverPositions(order, n, ps, m, s, visited, hop);
    if Nearest(ps, m, s, visited, hop) { var k := EndsAtNearest(order, n, ps, m, s, visited, hop); }
    if k: nat :| NearestAt(order, k, ps, m, s, visited) { NoFarther(order, n, k, ps, m, s, visited, hop); }
  }

  lemma ScanIsOverPositions(order: seq<u32>, n: nat, ps: Positions, m: Metric, s: u32, visited: seq<u32>, hop: u32)
    requires s in ps && Scans(order, n, ps, m, s, visited, hop)
    ensures forall p :: p in order ==> p in ps
  {
  }

  lemma EndsAtNearest(order: seq<u32>, n: nat, ps: Positions, m: Metric, s: u32, visited: seq<u32>, hop: u32)
    returns (k: nat)
    requires s in ps && Scans(order, n, ps, m, s, visited, hop) && hop != NO_HOP && Nearest(ps, m, s, visited, hop)
    ensures forall p :: p in order ==> p in ps
    ensures NearestAt(order, k, ps, m, s, visited)
  {
    hide Others, Nearest, Improving;
    k := n - 1;
  }

  lemma NoFarther(order: seq<u32>, n: nat, k: nat, ps: Positions, m: Metric, s: u32, visited: seq<u32>, hop: u32)
    requires s in ps && Scans(order, n, ps, m, s, visited, hop) && hop != NO_HOP
    requires (forall p :: p in order ==> p in ps) && NearestAt(order, k, ps, m, s, visited)
    ensures Nearest(ps, m, s, visited, hop)
  {
    hide Others;
    var others := Others(order, s);
    PeersOf(order, ps, s);
    if n < k + 1 { ShorterRun(others, ps, m, s, visited, n, k + 1); }
    var run := others[..n];
    assert run[n - 1] == hop && run[k] == others[k];
    assert Improves(run, n - 1, ps, m, s, visited);
    if k < n - 1 { RunApproaches(run, ps, m, s, visited, k, n - 1); }
  }

  /** Every peer the scan could take by mistake is farther than all others, none of them visited. */
  predicate SurelyNearest(ps: Positions, m: Metric, s: u32, visited: seq<u32>)
    requires s in ps
  {
    forall a, x :: Tempting(ps, m, s, visited, a) && x in ps && x != s && x != a ==>
      x !in visited && m.distance(ps[s], ps[x]) < m.distance(ps[s], ps[a])
  }

  /** A peer that is near enough to be taken, but not nearest. */
  predicate Tempting(ps: Positions, m: Metric, s: u32, visited: seq<u32>, a: u32)
    requires s in ps
  {
    a in ps && a != s && a !in visited && a != NO_HOP && m.distance(ps[s], ps[a]) < m.farthest
    && !Nearest(ps, m, s, visited, a)
  }

  lemma MisledIfNotSure(ps: Positions, m: Metric, s: u32, visited: seq<u32>) returns (order: seq<u32>, hop: u32)
    requires s in ps && !SurelyNearest(ps, m, s, visited)
    ensures HopFor(order, ps, m, s, visited, hop) && hop != NO_HOP && !Nearest(ps, m, s, visited, hop)
  {
    hide HopFor, Nearest;
    var a, x :| Tempting(ps, m, s, visited, a) && x in ps && x != s && x != a
      && !(x !in visited && m.distance(ps[s], ps[x]) < m.distance(ps[s], ps[a]));
    order := OrderFrom([s, a, x], ps.Keys);
    NearerFirst(order, ps, m, s, visited, a, x);
    hop := a;
  }

  lemma SureIsNearest(order: seq<u32>, n: nat, ps: Positions, m: Metric, s: u32, visited: seq<u32>, hop: u32)
    requires s in ps && SurelyNearest(ps, m, s, visited)
    requires Scans(order, n, ps, m, s, visited, hop) && hop != NO_HOP
    ensures Nearest(ps, m, s, visited, hop)
  {
    hide Others, Nearest;
    var others := Others(order, s);
    OthersDistinct(order, s);
    PeersOf(order, ps, s);
    var run := others[..n];
    assert run[n - 1] == hop;
    assert Improves(run, n - 1, ps, m, s, visited);
    FirstIsNear(run, ps, m, s, visited, n - 1);
    if !Nearest(ps, m, s, visited, hop) {
      assert Tempting(ps, m, s, visited, hop);
      if n < |others| { OneMoreImproves(others, n, ps, m, s, visited, hop); }
      assert run == others;
      LastOfAllIsNearest(others, ps, m, s, visited);
    }
  }

  lemma FirstIsNear(run: seq<u32>, ps: Positions, m: Metric, s: u32, visited: seq<u32>, i: nat)
    requires s in ps && (forall p :: p in run ==> p in ps) && Improving(run, ps, m, s, visited) && i < |run|
    ensures m.distance(ps[s], ps[run[i]]) < m.farthest
  {
    assert Improves(run, 0, ps, m, s, visited);
    if i > 0 { RunApproaches(run, ps, m, s, visited, 0, i); }
  }

  lemma OneMoreImproves(others: seq<u32>, n: nat, ps: Positions, m: Metric, s: u32, visited: seq<u32>, hop: u32)
    requires s in ps && SurelyNearest(ps, m, s, visited) && Tempting(ps, m, s, visited, hop)
    requires Distinct(others) && (forall p :: p in others ==> p in ps && p != s)
    requires 0 < n < |others| && others[n - 1] == hop && Improving(others[..n], ps, m, s, visited)
    ensures Improving(others[..n + 1], ps, m, s, visited)
  {
    hide Tempting;
    var longer := others[..n + 1];
    forall i | 0 <= i < |longer| ensures Improves(longer, i, ps, m, s, visited) {
      if i < n { assert Improves(others[..n], i, ps, m, s, visited); }
    }
  }

  lemma LastOfAllIsNearest(others: seq<u32>, ps: Positions, m: Metric, s: u32, visited: seq<u32>)
    requires s in ps && others != [] && (forall p :: p in others <==> p in ps && p != s)
    requires Improving(others, ps, m, s, visited)
    ensures Nearest(ps, m, s, visited, others[|others| - 1])
  {
    var last := |others| - 1;
    assert Improves(others, last, ps, m, s, visited);
    forall q | q in ps && q != s && q !in visited
      ensures m.distance(ps[s], ps[others[last]]) <= m.distance(ps[s], ps[q])
    {
      var i :| 0 <= i < |others| && others[i] == q;
      if i < last { RunApproaches(others, ps, m, s, visited, i, last); }
    }
  }

  /** Whatever the order of iteration, a hop goes to a nearest unvisited peer, exactly when the
      positions leave no room for a mistake. */
  lemma AlwaysNearestIff(ps: Positions, m: Metric, s: u32, visited: seq<u32>)
    requires s in ps
    ensures (forall hop :: NextHop(ps, m, s, visited, hop) && hop != NO_HOP ==> Nearest(ps, m, s, visited, hop))
      <==> SurelyNearest(ps, m, s, visited)
  {
    hide Scans, Nearest, SurelyNearest;
    if SurelyNearest(ps, m, s, visited) {
      forall hop | NextHop(ps, m, s, visited, hop) && hop != NO_HOP ensures Nearest(ps, m, s, visited, hop) {
        var order: seq<u32>, n: nat :| Scans(order, n, ps, m, s, visited, hop);
        SureIsNearest(order, n, ps, m, s, visited, hop);
      }
    } else {
      var order, hop := MisledIfNotSure(ps, m, s, visited);
      SomeHop(order, ps, m, s, visited, hop);
    }
  }

  /** Peers at distances 2, 3 and 1, scanned in this order: the first is taken, the last is
      nearest. */
  lemma NearestCanBeMissed(at: seq<Position>)
    requires |at| == 4 && at[1].x[0] == 2 && at[2].x[0] == 3 && at[3].x[0] == 1
    ensures var ps: Positions := map[1 := at[0], 2 := at[1], 3 := at[2], 4 := at[3]];
      var m := Metric((a: Position, b: Position) => b.x[0] as real, 100.0);
      HopFor([1, 2, 3, 4], ps, m, 1, [], 2) && !Nearest(ps, m, 1, [], 2) && Nearest(ps, m, 1, [], 4)
  {
    hide HopFor;
    var ps: Positions := map[1 := at[0], 2 := at[1], 3 := at[2], 4 := at[3]];
    var m := Metric((a: Position, b: Position) => b.x[0] as real, 100.0);
    NearerFirst([1, 2, 3, 4], ps, m, 1, [], 2, 3);
    assert 4 in ps && m.distance(ps[1], ps[4]) == 1.0;
  }
}
