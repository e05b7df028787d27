/** The discovery reply: eleven bytes for every other peer in range, padded with zeros to the
    number of other peers, and what a satellite learns from it. */
module Discovery {
  import opened Bytes
  import opened Iteration
  import opened Addresses
  import opened Routing
  import opened Registry

  const RANGE: real := 1000000.0
  const ROW := 11

  predicate InRange(r: Registry, m: Metric, id: u32, peer: u32) {
    peer != id && id in r.positions && peer in r.positions
    && m.distance(r.positions[id], r.positions[peer]) <= RANGE
  }

  /** The peers in range, in scanning order. */
  function Near(r: Registry, m: Metric, id: u32, order: seq<u32>): (near: seq<u32>)
    ensures forall k :: k in near <==> k in order && InRange(r, m, id, k)
    decreases |order|
  {
    if order == [] then []
    else
      var n := |order| - 1;
      Near(r, m, id, order[..n]) + if InRange(r, m, id, order[n]) then [order[n]] else []
  }

  /** The address bytes and the port a row carries, as read back from the stored text. */
  function IpBytes(t: Text): seq<byte> {
    if IpOf(t).Some? then IpOf(t).value else []
  }

  function PortNumber(t: Text): u16 {
    if Stoi(PortText(t)).Some? then Stoi(PortText(t)).value % 0x1_0000 else 0
  }

  predicate Listed(r: Registry, peers: seq<u32>) {
    forall k :: k in peers ==> k in r.addresses && k in r.types
  }

  function RowOf(r: Registry, peer: u32): seq<byte>
    requires peer in r.addresses && peer in r.types
  {
    var t := r.addresses[peer];
    Le(peer, 4) + [r.types[peer]] + IpBytes(t) + Be16(PortNumber(t))
  }

  function Rows(r: Registry, peers: seq<u32>): seq<byte>
    requires Listed(r, peers)
    decreases |peers|
  {
    if peers == [] then [] else Rows(r, peers[..|peers| - 1]) + RowOf(r, peers[|peers| - 1])
  }

  /** The reply to `id`; None where a table lookup throws. */
  function ReplyPayload(r: Registry, m: Metric, id: u32, order: seq<u32>): Option<seq<byte>> {
    var near := Near(r, m, id, order);
    if id !in r.positions || !Listed(r, near) then None
    else
      var padding := ROW * (|r.positions| - 1) - |Rows(r, near)|;
      Some(Rows(r, near) + Zeros(if padding < 0 then 0 else padding))
  }

  lemma RowLength(r: Registry, peer: u32)
    requires Consistent(r) && peer in r.addresses
    ensures |RowOf(r, peer)| == ROW
  {
    hide IpOf, Stoi, PortText, Le, Be16;
    var ip, port := StoredAddress(r, peer);
  }

  lemma {:induction false} RowsLength(r: Registry, peers: seq<u32>)
    requires Consistent(r) && Listed(r, peers)
    ensures |Rows(r, peers)| == ROW * |peers|
    decreases |peers|
  {
    hide RowOf, Consistent;
    if peers != [] {
      RowsLength(r, peers[..|peers| - 1]);
      RowLength(r, peers[|peers| - 1]);
    }
  }

  lemma {:induction false} NearOfPrefix(r: Registry, m: Metric, id: u32, order: seq<u32>, n: nat)
    requires n <= |order|
    ensures Near(r, m, id, order[..n]) <= Near(r, m, id, order)
    decreases |order|
  {
    hide InRange;
    if n < |order| {
      NearOfPrefix(r, m, id, order[..|order| - 1], n);
      assert order[..|order| - 1][..n] == order[..n];
    } else {
      assert order[..n] == order;
    }
  }

  lemma {:induction false} NearAmongOthers(r: Registry, m: Metric, id: u32, order: seq<u32>)
    ensures |Near(r, m, id, order)| <= |Others(order, id)|
    ensures |Near(r, m, id, order)| == |Others(order, id)| <==>
      forall k :: k in order && k != id ==> InRange(r, m, id, k)
    decreases |order|
  {
    if order != [] {
      var n := |order| - 1;
      NearAmongOthers(r, m, id, order[..n]);
      assert order == order[..n] + [order[n]];
    }
  }

  lemma {:induction false} OthersLength(order: seq<u32>, id: u32)
    requires Distinct(order)
    ensures |Others(order, id)| == if id in order then |order| - 1 else |order|
    decreases |order|
  {
    if order != [] {
      var n := |order| - 1;
      OthersLength(order[..n], id);
      assert order == order[..n] + [order[n]];
    }
  }

  /** Some other peer is out of range, so the reply ends in zeros. */
  ghost predicate Padded(r: Registry, m: Metric, id: u32) {
    exists k :: k in r.positions && k != id && !InRange(r, m, id, k)
  }

  lemma NearCount(r: Registry, m: Metric, id: u32, order: seq<u32>)
    requires id in r.positions && Enumerates(order, r.positions.Keys)
    ensures |Near(r, m, id, order)| <= |r.positions| - 1
    ensures |Near(r, m, id, order)| == |r.positions| - 1 <==> !Padded(r, m, id)
  {
    hide InRange;
    NearAmongOthers(r, m, id, order);
    OthersLength(order, id);
    EnumerationLength(order, r.positions.Keys);
  }

  // ----- What the satellite learns -----

  datatype Contacts = Contacts(addresses: map<u32, Text>, types: map<u32, byte>)

  /** The effect of one record. */
  function Learn1(c: Contacts, row: seq<byte>): Contacts
    requires |row| == ROW
  {
    var id := ReadU32(row[..4]);
    Contacts(c.addresses[id := SatelliteText(row[5], row[6], row[7], row[8], ReadBe16(row[9..11]))],
             c.types[id := row[4]])
  }

  function Learn(c: Contacts, payload: seq<byte>): Contacts
    decreases |payload|
  {
    if |payload| < ROW then c else Learn(Learn1(c, payload[..ROW]), payload[ROW..])
  }

  lemma {:induction false} LearnConcat(c: Contacts, a: seq<byte>, b: seq<byte>)
    requires |a| % ROW == 0
    ensures Learn(c, a + b) == Learn(Learn(c, a), b)
    decreases |a|
  {
    hide Learn1;
    if |a| < ROW {
      assert a + b == b;
    } else {
      LearnConcat(Learn1(c, a[..ROW]), a[ROW..], b);
      assert (a + b)[..ROW] == a[..ROW] && (a + b)[ROW..] == a[ROW..] + b;
    }
  }

  lemma LearnRow(c: Contacts, r: Registry, peer: u32)
    requires Consistent(r) && peer in r.addresses
    ensures |RowOf(r, peer)| == ROW
    ensures Learn1(c, RowOf(r, peer))
         == Contacts(c.addresses[peer := r.addresses[peer]], c.types[peer := r.types[peer]])
  {
    hide IpOf, Stoi, PortText, Le, Be16, AddressText, SatelliteText, ReadBe16, ReadU32;
    var ip, port := StoredAddress(r, peer);
    RowLength(r, peer);
    var row := RowOf(r, peer);
    assert row[..4] == Le(peer, 4) && row[4] == r.types[peer] && row[9..11] == Be16(port);
    assert row[5] == ip[0] && row[6] == ip[1] && row[7] == ip[2] && row[8] == ip[3];
    assert [ip[0], ip[1], ip[2], ip[3]] == ip;
    ReadBack32(peer);
    Be16RoundTrip(port, Be16(port));
    SatellitePrintsAlike(ip[0], ip[1], ip[2], ip[3], port);
  }

  /** The contacts after learning the rows of some peers. */
  function Merged(c: Contacts, r: Registry, peers: seq<u32>): Contacts
    requires Listed(r, peers)
  {
    Contacts(c.addresses + Restricted(r.addresses, peers), c.types + Restricted(r.types, peers))
  }

  lemma {:induction false} LearnRows(c: Contacts, r: Registry, peers: seq<u32>)
    requires Consistent(r) && Listed(r, peers)
    ensures Learn(c, Rows(r, peers)) == Merged(c, r, peers)
    decreases |peers|
  {
    hide RowOf, Consistent, Restricted, Learn1, Learn;
    if peers == [] {
      RestrictedToNone(c.addresses, r.addresses);
      RestrictedToNone(c.types, r.types);
      NothingLearned(c);
    } else {
      var n := |peers| - 1;
      LearnRows(c, r, peers[..n]);
      RowsLength(r, peers[..n]);
      LearnConcat(c, Rows(r, peers[..n]), RowOf(r, peers[n]));
      LearnRow(Learn(c, Rows(r, peers[..n])), r, peers[n]);
      LearnSingle(Learn(c, Rows(r, peers[..n])), RowOf(r, peers[n]));
      RestrictedOneMore(c.addresses, r.addresses, peers);
      RestrictedOneMore(c.types, r.types, peers);
    }
  }

  lemma NothingLearned(c: Contacts)
    ensures Learn(c, []) == c
  {
  }

  lemma LearnSingle(c: Contacts, row: seq<byte>)
    requires |row| == ROW
    ensures Learn(c, row) == Learn1(c, row)
  {
    hide Learn1;
    assert row[..ROW] == row;
  }

  /** The address text that a record of zeros is taken for. */
  function ZeroText(): Text {
    SatelliteText(0, 0, 0, 0, 0)
  }

  lemma {:induction false} UnLeOfZeros(n: nat)
    ensures UnLe(Zeros(n)) == 0
  {
    if n != 0 {
      UnLeOfZeros(n - 1);
      assert Zeros(n)[1..] == Zeros(n - 1);
    }
  }

  lemma LearnZeroRow(c: Contacts)
    ensures Learn1(c, Zeros(ROW)) == Contacts(c.addresses[0 := ZeroText()], c.types[0 := 0])
  {
    hide SatelliteText, UnLe;
    ZerosSplit(4, 7);
    assert Zeros(ROW)[..4] == Zeros(4);
    UnLeOfZeros(4);
  }

  lemma {:induction false} ZerosSplit(m: nat, n: nat)
    ensures Zeros(m + n) == Zeros(m) + Zeros(n)
    decreases m
  {
    if m != 0 {
      ZerosSplit(m - 1, n);
    }
  }

  lemma {:induction false} LearnPadding(c: Contacts, n: nat)
    ensures Learn(c, Zeros(ROW * n)) ==
      if n == 0 then c else Contacts(c.addresses[0 := ZeroText()], c.types[0 := 0])
    decreases n
  {
    hide Learn1, ZeroText, Zeros;
    if n != 0 {
      var z := Zeros(ROW * n);
      ZerosSplit(ROW, ROW * (n - 1));
      assert z[..ROW] == Zeros(ROW) && z[ROW..] == Zeros(ROW * (n - 1));
      LearnZeroRow(c);
      LearnPadding(Learn1(c, Zeros(ROW)), n - 1);
    }
  }

  /** Entry `k` of a table after a reply: as told, or as it was before. */
  predicate Updated<V(==)>(isTold: bool, told: map<u32, V>, before: map<u32, V>, after: map<u32, V>, k: u32) {
    if isTold then k in told && k in after && after[k] == told[k]
    else (k in after <==> k in before) && (k in before ==> after[k] == before[k])
  }

  /** What a satellite knows of `k` after a reply: the bootstrap's address and type if `k` is
      another peer in range, and what it knew before otherwise. */
  predicate Taught(r: Registry, m: Metric, id: u32, c: Contacts, d: Contacts, k: u32) {
    Updated(InRange(r, m, id, k), r.addresses, c.addresses, d.addresses, k)
    && Updated(InRange(r, m, id, k), r.types, c.types, d.types, k)
  }

  lemma RestrictedUpdates<V>(told: map<u32, V>, before: map<u32, V>, peers: seq<u32>, k: u32)
    requires forall p :: p in peers ==> p in told
    ensures Updated(k in peers, told, before, before + Restricted(told, peers), k)
  {
  }

  lemma RowsTeach(r: Registry, m: Metric, id: u32, order: seq<u32>, c: Contacts, k: u32)
    requires Enumerates(order, r.positions.Keys) && Listed(r, Near(r, m, id, order))
    ensures Taught(r, m, id, c, Merged(c, r, Near(r, m, id, order)), k)
  {
    hide InRange, Updated, Restricted, Near;
    InRangeScanned(r, m, id, order, k);
    RestrictedUpdates(r.addresses, c.addresses, Near(r, m, id, order), k);
    RestrictedUpdates(r.types, c.types, Near(r, m, id, order), k);
  }

  lemma ZeroAside(r: Registry, m: Metric, id: u32, c: Contacts, d: Contacts, k: u32)
    requires Taught(r, m, id, c, d, k) && k != 0
    ensures Taught(r, m, id, c, Contacts(d.addresses[0 := ZeroText()], d.types[0 := 0]), k)
  {
    hide InRange, ZeroText;
  }

  /** The satellite and the bootstrap agree after a reply, for every id, except that the zeros
      sent when some peer is out of range are taken for a peer with id 0. */
  lemma ReplyTeaches(r: Registry, m: Metric, id: u32, order: seq<u32>, c: Contacts)
    requires Consistent(r) && Enumerates(order, r.positions.Keys)
    requires ReplyPayload(r, m, id, order).Some?
    ensures var d := Learn(c, ReplyPayload(r, m, id, order).value);
      (forall k: u32 :: k != 0 || !Padded(r, m, id) ==> Taught(r, m, id, c, d, k))
      && (Padded(r, m, id) ==>
            0 in d.addresses && 0 in d.types && d.addresses[0] == ZeroText() && d.types[0] == 0)
  {
    hide Consistent, InRange, Rows, Learn, Near, Zeros, ZeroText, Padded, Merged, Taught;
    var near := Near(r, m, id, order);
    var missing := |r.positions| - 1 - |near|;
    RowsLength(r, near);
    NearCount(r, m, id, order);
    LearnConcat(c, Rows(r, near), Zeros(ROW * missing));
    LearnRows(c, r, near);
    LearnPadding(Merged(c, r, near), missing);
    forall k: u32
      ensures Taught(r, m, id, c, Merged(c, r, near), k)
      ensures k != 0 || missing == 0 ==>
        Taught(r, m, id, c, Learn(c, ReplyPayload(r, m, id, order).value), k)
    {
      RowsTeach(r, m, id, order, c, k);
      if k != 0 { ZeroAside(r, m, id, c, Merged(c, r, near), k); }
    }
  }

  lemma InRangeScanned(r: Registry, m: Metric, id: u32, order: seq<u32>, k: u32)
    requires Enumerates(order, r.positions.Keys)
    ensures k in Near(r, m, id, order) <==> InRange(r, m, id, k)
  {
  }

  /** A reply is sent exactly when the requester has a position and every other peer in range
      is registered, however the tables are scanned. */
  lemma ReplyExistsIff(r: Registry, m: Metric, id: u32, order: seq<u32>)
    requires Consistent(r) && Enumerates(order, r.positions.Keys)
    ensures ReplyPayload(r, m, id, order).Some? <==>
      id in r.positions && forall k :: InRange(r, m, id, k) ==> k in r.addresses
    ensures ReplyPayload(r, m, id, order).Some? ==>
      |ReplyPayload(r, m, id, order).value| == ROW * (|r.positions| - 1)
  {
    hide InRange, Rows;
    var near := Near(r, m, id, order);
    forall k: u32 ensures k in near <==> InRange(r, m, id, k) { InRangeScanned(r, m, id, order, k); }
    if id in r.positions && Listed(r, near) {
      RowsLength(r, near);
      NearCount(r, m, id, order);
    }
  }

  // ----- The reply byte by byte -----

  /** Peers in range are the others at most a million metres away. */
  lemma InRangeIff(r: Registry, m: Metric, id: u32, peer: u32)
    requires id in r.positions && peer in r.positions
    ensures InRange(r, m, id, peer) <==> peer != id && m.distance(r.positions[id], r.positions[peer]) <= 1000000.0
  {
  }

  /** The eleven bytes for a registered peer. */
  lemma RowIs(r: Registry, peer: u32, ip: seq<byte>, port: u16)
    requires peer in r.addresses && peer in r.types && |ip| == 4 && r.addresses[peer] == AddressText(ip, port)
    ensures RowOf(r, peer) == Le(peer, 4) + [r.types[peer], ip[0], ip[1], ip[2], ip[3], port / 256, port % 256]
  {
    hide AddressText, IpOf, Stoi, PortText, Le;
    AddressRoundTrip(ip, port);
    assert ip == [ip[0], ip[1], ip[2], ip[3]];
  }

  lemma {:induction false} NearPlace(r: Registry, m: Metric, id: u32, order: seq<u32>, k: nat)
    requires k < |order| && InRange(r, m, id, order[k])
    ensures var j := |Near(r, m, id, order[..k])|;
      j < |Near(r, m, id, order)| && Near(r, m, id, order)[j] == order[k]
    decreases |order|
  {
    var n := |order| - 1;
    LastOfNear(r, m, id, order);
    hide InRange, Near;
    if k < n {
      NearPlace(r, m, id, order[..n], k);
      assert order[..n][..k] == order[..k];
    }
  }

  lemma LastOfNear(r: Registry, m: Metric, id: u32, order: seq<u32>)
    requires order != []
    ensures var n := |order| - 1;
      Near(r, m, id, order) == Near(r, m, id, order[..n]) + if InRange(r, m, id, order[n]) then [order[n]] else []
  {
    hide InRange;
  }

  lemma {:induction false} RowPlace(r: Registry, peers: seq<u32>, j: nat)
    requires Consistent(r) && Listed(r, peers) && j < |peers|
    ensures |Rows(r, peers)| == ROW * |peers| && Rows(r, peers)[ROW * j..ROW * j + ROW] == RowOf(r, peers[j])
    decreases |peers|
  {
    hide RowOf, Consistent;
    var n := |peers| - 1;
    RowsLength(r, peers);
    RowsLength(r, peers[..n]);
    if j < n {
      RowPlace(r, peers[..n], j);
      assert Rows(r, peers)[ROW * j..ROW * j + ROW] == Rows(r, peers[..n])[ROW * j..ROW * j + ROW];
    } else {
      RowLength(r, peers[n]);
    }
  }

  /** The reply lists the peers in range in the order in which the table is iterated: the row of
      a peer comes after those of the peers in range before it, and zeros come after all. */
  lemma ReplyLayout(r: Registry, m: Metric, id: u32, order: seq<u32>)
    requires Consistent(r) && Enumerates(order, r.positions.Keys) && ReplyPayload(r, m, id, order).Some?
    ensures var b, n := ReplyPayload(r, m, id, order).value, |Near(r, m, id, order)|;
      && |b| == 11 * (|r.positions| - 1) && 11 * n <= |b| && b[11 * n..] == Zeros(|b| - 11 * n)
      && forall k :: 0 <= k < |order| && InRange(r, m, id, order[k]) ==>
           order[k] in r.addresses && order[k] in r.types
           && |Near(r, m, id, order[..k])| < n
           && var at := 11 * |Near(r, m, id, order[..k])|; b[at..at + 11] == RowOf(r, order[k])
  {
    hide Consistent, InRange, Rows, Near, Zeros, RowOf, Enumerates;
    var near := Near(r, m, id, order);
    var b := ReplyPayload(r, m, id, order).value;
    ReplyExistsIff(r, m, id, order);
    RowsLength(r, near);
    NearCount(r, m, id, order);
    assert b[..ROW * |near|] == Rows(r, near);
    forall k | 0 <= k < |order| && InRange(r, m, id, order[k])
      ensures order[k] in r.addresses && order[k] in r.types && |Near(r, m, id, order[..k])| < |near|
      ensures var at := 11 * |Near(r, m, id, order[..k])|; b[at..at + 11] == RowOf(r, order[k])
    {
      var j := |Near(r, m, id, order[..k])|;
      NearPlace(r, m, id, order, k);
      RowPlace(r, near, j);
      assert b[ROW * j..ROW * j + ROW] == Rows(r, near)[ROW * j..ROW * j + ROW];
    }
  }
}
