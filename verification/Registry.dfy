/** The tables of the bootstrap node and what its packets do to them. */
module Registry {
  import opened Bytes
  import opened Addresses
  import opened Packets
  import opened IpTable
  import opened Routing

  datatype Registry = Registry(addresses: map<u32, Text>, types: map<u32, byte>, positions: Positions)

  const EMPTY := Registry(map[], map[], map[])

  /** A printed "a.b.c.d:port". */
  ghost predicate IsAddress(t: Text) {
    exists ip: seq<byte>, port: u16 :: |ip| == 4 && t == AddressText(ip, port)
  }

  ghost predicate Consistent(r: Registry) {
    && r.addresses.Keys == r.types.Keys
    && r.addresses.Keys <= r.positions.Keys
    && forall id :: id in r.addresses ==> IsAddress(r.addresses[id])
  }

  function ReadPosition(payload: seq<byte>, offset: nat): Position
    requires offset + 24 <= |payload|
  {
    Position(payload[offset..offset + 8], payload[offset + 8..offset + 16], payload[offset + 16..offset + 24])
  }

  /** The payload is as long as the bootstrap takes it to be. */
  predicate WellSized(p: Packet) {
    (p.kind == HANDSHAKE ==> |p.payload| >= 31) && (p.kind == KEEP_ALIVE ==> |p.payload| >= 24)
  }

  function After(r: Registry, p: Packet): Registry
    requires WellSized(p)
  {
    if p.kind == HANDSHAKE then
      Registry(
        r.addresses[p.source := AddressText(p.payload[0..4], ReadBe16(p.payload[4..6]))],
        r.types[p.source := p.payload[6]],
        r.positions[p.source := ReadPosition(p.payload, 7)])
    else if p.kind == KEEP_ALIVE then r.(positions := r.positions[p.source := ReadPosition(p.payload, 0)])
    else r
  }

  /** A frame that is read, or thrown away. */
  function AfterFrame(r: Registry, frame: seq<byte>, ks: Keystream): Registry
    requires Receivable(frame, ks)
  {
    if Parse(frame, ks).Ok? then After(r, Parse(frame, ks).value) else r
  }

  predicate Receivable(frame: seq<byte>, ks: Keystream) {
    |frame| >= HEADER_SIZE + 2 && (Parse(frame, ks).Ok? ==> WellSized(Parse(frame, ks).value))
  }

  function AfterRun(r: Registry, frames: seq<seq<byte>>, ks: Keystream): Registry
    requires forall i :: 0 <= i < |frames| ==> Receivable(frames[i], ks)
    decreases |frames|
  {
    if frames == [] then r
    else AfterFrame(AfterRun(r, frames[..|frames| - 1], ks), frames[|frames| - 1], ks)
  }

  lemma PacketKeepsConsistent(r: Registry, p: Packet)
    requires Consistent(r) && WellSized(p)
    ensures Consistent(After(r, p))
  {
    hide AddressText;
    if p.kind == HANDSHAKE {
      assert IsAddress(AddressText(p.payload[0..4], ReadBe16(p.payload[4..6])));
    }
  }

  lemma FrameKeepsConsistent(r: Registry, frame: seq<byte>, ks: Keystream)
    requires Consistent(r) && Receivable(frame, ks)
    ensures Consistent(AfterFrame(r, frame, ks))
  {
    hide Parse, After, Consistent, WellSized;
    if Parse(frame, ks).Ok? { PacketKeepsConsistent(r, Parse(frame, ks).value); }
  }

  /** Whatever frames arrive, in whatever order, damaged or not, the tables agree on who is
      registered and every stored address is printed text. */
  lemma {:induction false} RunStaysConsistent(frames: seq<seq<byte>>, ks: Keystream)
    requires forall i :: 0 <= i < |frames| ==> Receivable(frames[i], ks)
    ensures Consistent(AfterRun(EMPTY, frames, ks))
    decreases |frames|
  {
    hide Receivable, AfterFrame, Consistent;
    if frames == [] {
      NothingRegistered();
    } else {
      var n := |frames| - 1;
      RunStaysConsistent(frames[..n], ks);
      FrameKeepsConsistent(AfterRun(EMPTY, frames[..n], ks), frames[n], ks);
    }
  }

  lemma NothingRegistered()
    ensures Consistent(EMPTY)
  {
  }

  /** A stored address reads back as four bytes and a port. */
  lemma StoredAddress(r: Registry, id: u32) returns (ip: seq<byte>, port: u16)
    requires Consistent(r) && id in r.addresses
    ensures |ip| == 4 && r.addresses[id] == AddressText(ip, port)
    ensures IpOf(r.addresses[id]) == Some(ip) && Stoi(PortText(r.addresses[id])) == Some(port)
  {
    hide AddressText, IpOf, Stoi, PortText;
    assert IsAddress(r.addresses[id]);
    ip, port :| |ip| == 4 && r.addresses[id] == AddressText(ip, port);
    AddressRoundTrip(ip, port);
  }

  // ----- Where a packet is sent -----

  /** A packet as the nodes make them: only these fields are ever set. */
  function Message(source: u32, destination: u32, kind: byte, sequence: u32, payload: seq<byte>,
                   payloadType: u16, now: u64): Packet {
    Packet(source, destination, kind, 1, sequence, now, payload, 0, payloadType, 0, 0)
  }

  datatype Endpoint = Endpoint(ip: Text, port: u16)

  datatype Datagram = Datagram(to: Endpoint, frame: seq<byte>)

  /** The endpoint named by a stored address; None where the sender logs an error instead. */
  function Resolve(t: Text): Option<Endpoint> {
    var k := IndexOf(t, COLON);
    if k + 1 >= |t| || !IsQuad(t[..k]) || Stoi(PortText(t)).None? then None
    else Some(Endpoint(t[..k], Stoi(PortText(t)).value % 0x1_0000))
  }

  /** Sending to a peer: nothing happens unless its address is known. */
  function Posted(addresses: map<u32, Text>, p: Packet, ks: Keystream, nonce: Nonce): seq<Datagram> {
    if p.destination !in addresses || Resolve(addresses[p.destination]).None? then []
    else [Datagram(Resolve(addresses[p.destination]).value, Frame(p, ks, nonce))]
  }

  /** How both kinds of node send. */
  method SendData(ipTable: DeviceIPTable, packet: Packet, ks: Keystream, nonce: Nonce) returns (out: seq<Datagram>)
    ensures out == Posted(ipTable.table, packet, ks, nonce)
  {
    var data := Serialize(packet, ks, nonce);
    var text := ipTable.GetIp(packet.destination);
    if text.None? {
      return [];
    }
    var to := Resolve(text.value);
    out := if to.None? then [] else [Datagram(to.value, data)];
  }

  lemma ResolveAddress(ip: seq<byte>, port: u16)
    requires |ip| == 4
    ensures Resolve(AddressText(ip, port)) == Some(Endpoint(Dotted(ip), port))
  {
    hide Dotted, Decimal, IpOf, Stoi, PortText, Octets;
    var t := AddressText(ip, port);
    AddressRoundTrip(ip, port);
    OctetsOfDotted(ip);
    assert t[..|Dotted(ip)|] == Dotted(ip);
    assert |t| == |Dotted(ip)| + 1 + |Decimal(port)|;
  }

  /** A stored text names an endpoint exactly when it is a printed IPv4 address, a colon, and
      something that reads as a number, of which the low 16 bits are the port. */
  lemma ResolveIff(t: Text, e: Endpoint)
    ensures Resolve(t) == Some(e) <==>
      exists ip: seq<byte>, rest: Text :: NamesEndpoint(t, ip, rest, e)
  {
    hide Dotted, Octets, Stoi, PortText;
    if ip: seq<byte>, rest: Text :| NamesEndpoint(t, ip, rest, e) {
      DottedHasNoColon(ip);
      ColonOfAddress(Dotted(ip), rest);
      OctetsOfDotted(ip);
      assert t[..|Dotted(ip)|] == Dotted(ip);
      PortOfNothing(rest);
    }
    if Resolve(t) == Some(e) {
      var k := IndexOf(t, COLON);
      var ip, rest := Octets(t[..k]).value, t[k + 1..];
      assert t == t[..k] + [COLON] + rest;
      ColonOfAddress(t[..k], rest);
      assert NamesEndpoint(t, ip, rest, e);
    }
  }

  predicate NamesEndpoint(t: Text, ip: seq<byte>, rest: Text, e: Endpoint) {
    |ip| == 4 && t == Dotted(ip) + [58] + rest && e.ip == Dotted(ip)
    && var port := Stoi(rest[..IndexOf(rest, NEWLINE)]); port.Some? && e.port == port.value % 65536
  }

  lemma PortOfNothing(rest: Text)
    ensures Stoi(rest[..IndexOf(rest, NEWLINE)]).Some? ==> rest != []
  {
    StoiReads([], [], [], []);
  }

  /** A frame goes out to where the destination's text points, if there is such a text and place,
      and otherwise none does. */
  lemma PostedIff(addresses: map<u32, Text>, p: Packet, ks: Keystream, nonce: Nonce, d: Datagram)
    ensures |Posted(addresses, p, ks, nonce)| <= 1
    ensures d in Posted(addresses, p, ks, nonce) <==>
      p.destination in addresses && Resolve(addresses[p.destination]) == Some(d.to) && d.frame == Frame(p, ks, nonce)
  {
    hide Frame, Resolve;
  }

  /** What every node puts into its own packets: priority 1 and no fragment numbers. */
  lemma MessageOnWire(source: u32, destination: u32, kind: byte, sequence: u32, payload: seq<byte>, payloadType: u16,
                      now: u64, ks: Keystream, nonce: Nonce)
    ensures var f := Frame(Message(source, destination, kind, sequence, payload, payloadType, now), ks, nonce);
      && |f| == 30 + |payload| && f[0..4] == Le(source, 4) && f[4..8] == Le(destination, 4) && f[8] == kind && f[9] == 1
      && f[10..14] == Le(sequence, 4) && f[14..16] == Le(payloadType, 2) && f[16..20] == [0, 0, 0, 0]
      && f[20..28] == Le(now, 8) && f[28..|f| - 2] == payload
  {
    var p := Message(source, destination, kind, sequence, payload, payloadType, now);
    assert p == Packet(source, destination, kind, 1, sequence, now, payload, 0, payloadType, 0, 0);
    hide *;
    var f := Frame(p, ks, nonce);
    FrameLayout(p, ks, nonce);
    NoFragmentNumbers(f);
  }

  lemma NoFragmentNumbers(f: seq<byte>)
    requires |f| >= 20 && f[16..18] == Le(0, 2) && f[18..20] == Le(0, 2)
    ensures f[16..20] == [0, 0, 0, 0]
  {
    assert Le(0, 2) == [0, 0];
    assert f[16] == f[16..18][0] && f[17] == f[16..18][1] && f[18] == f[18..20][0] && f[19] == f[18..20][1];
  }

  /** Packets other than HANDSHAKE and KEEP_ALIVE change no table. */
  lemma OthersChangeNothing(r: Registry, p: Packet)
    requires p.kind != 0 && p.kind != 3
    ensures WellSized(p) && After(r, p) == r
  {
  }

  /** The datagram carries a packet of a node's own making with these fields. */
  predicate CarriesMessage(d: Datagram, ks: Keystream, source: u32, destination: u32, kind: byte, sequence: u32,
                    payload: seq<byte>, payloadType: u16, now: u64) {
    |d.frame| >= 30 && Parse(d.frame, ks).Ok?
    && var p := Parse(d.frame, ks).value;
       p.source == source && p.destination == destination && p.kind == kind && p.priority == 1 && p.sequence == sequence
       && p.payload == payload && p.payloadType == payloadType && p.timestamp == now
       && p.fragmentIndex == 0 && p.totalFragments == 0
  }

  lemma PostedCarries(addresses: map<u32, Text>, source: u32, destination: u32, kind: byte, sequence: u32,
                      payload: seq<byte>, payloadType: u16, now: u64, ks: Keystream, nonce: Nonce)
    ensures var p := Message(source, destination, kind, sequence, payload, payloadType, now);
      var out := Posted(addresses, p, ks, nonce);
      && (|out| == 1 <==> destination in addresses && Resolve(addresses[destination]).Some?)
      && (|out| != 1 ==> out == [])
      && forall d :: d in out ==>
           (Resolve(addresses[destination]) == Some(d.to)
            && CarriesMessage(d, ks, source, destination, kind, sequence, payload, payloadType, now))
  {
    hide Frame, Parse, Resolve;
    FrameRoundTrip(Message(source, destination, kind, sequence, payload, payloadType, now), ks, nonce);
  }
}
