/** The handshake of src/peer.cpp, and what it leads to at the bootstrap and at the satellites
    that ask for their peers afterwards. */
module Handshake {
  import opened Bytes
  import opened Iteration
  import opened Addresses
  import opened Packets
  import opened Routing
  import opened Registry
  import opened Discovery
  import Bits

  const BOOTSTRAP_ID: u32 := 12345

  /** Address, port, type and position, 31 bytes. */
  function Payload(ip: seq<byte>, port: u16, peerType: byte, position: Position): (s: seq<byte>)
    requires |ip| == 4
    ensures |s| == 31
  {
    ip + Be16(port) + [peerType] + position.x + position.y + position.z
  }

  function FirstFour(ip: seq<byte>, beyond: seq<byte>): (s: seq<byte>)
    requires |beyond| >= 4
    ensures |s| == 4 && (|ip| == 4 ==> s == ip)
    ensures forall i :: 0 <= i < 4 ==> s[i] == if i < |ip| then ip[i] else beyond[i - |ip|]
  {
    (ip + beyond)[..4]
  }

  /** Four bytes are copied from where the numbers of the host address are; should it have fewer,
      what comes `beyond` them in memory is copied too. None where the address does not convert. */
  method MakePayload(hostIp: Text, hostPort: u16, peerType: byte, position: Position, beyond: seq<byte>)
    returns (r: Option<seq<byte>>)
    requires |beyond| >= 4
    ensures r == if Octets(hostIp).None? then None
      else Some(Payload(FirstFour(Octets(hostIp).value, beyond), hostPort, peerType, position))
    ensures IsQuad(hostIp) ==> r == Some(Payload(Octets(hostIp).value, hostPort, peerType, position))
  {
    hide Octets, Be16, Dotted, FirstFour;
    var ipVector := ConvertIpToVector(hostIp);
    var payload := new byte[31](_ => 0);
    if ipVector.None? {
      return None;
    }
    var ip := FirstFour(ipVector.value, beyond);
    CopyInto(payload, 0, ip);
    assert payload[..4] == ip;
    CopyInto(payload, 4, Be16(hostPort));
    assert payload[..6] == ip + Be16(hostPort);
    CopyInto(payload, 6, [peerType]);
    assert payload[..7] == ip + Be16(hostPort) + [peerType];
    CopyInto(payload, 7, position.x);
    assert payload[..15] == ip + Be16(hostPort) + [peerType] + position.x;
    CopyInto(payload, 15, position.y);
    assert payload[..23] == ip + Be16(hostPort) + [peerType] + position.x + position.y;
    CopyInto(payload, 23, position.z);
    assert payload[..] == payload[..31];
    r := Some(payload[..]);
  }

  function HandshakePacket(id: u32, ip: seq<byte>, port: u16, peerType: byte, position: Position, now: u64): Packet
    requires |ip| == 4
  {
    Packet(id, BOOTSTRAP_ID, HANDSHAKE, ENCRYPTED, 0, now, Payload(ip, port, peerType, position), 0, 0, 0, 0)
  }

  lemma PayloadPieces(ip: seq<byte>, port: u16, peerType: byte, position: Position)
    requires |ip| == 4
    ensures var s := Payload(ip, port, peerType, position);
      && s[0..4] == ip && s[4..6] == Be16(port) && s[6] == peerType && ReadPosition(s, 7) == position
      && s[7..15] == position.x && s[15..23] == position.y && s[23..31] == position.z
  {
    hide Be16;
  }

  /** A handshake on the wire: type 0, priority 255, to the bootstrap node's id 12345; after the
      nonce the address, the port in network order, the type and the position, all encrypted. */
  lemma HandshakeOnWire(id: u32, ip: seq<byte>, port: u16, peerType: byte, position: Position, now: u64, ks: Keystream,
                        nonce: Nonce)
    requires |ip| == 4
    ensures var f := Frame(HandshakePacket(id, ip, port, peerType, position, now), ks, nonce);
      var plain := ip + [port / 256, port % 256] + [peerType] + position.x + position.y + position.z;
      && |f| == 73 && f[0..4] == Le(id, 4) && f[4..8] == Le(12345, 4) && f[8] == 0 && f[9] == 255
      && f[10..20] == Zeros(10) && f[20..28] == Le(now, 8) && f[28..40] == nonce
      && forall i, j :: 0 <= i < 31 && 0 <= j < 8 ==>
           Bits.BitsOfByte(f[40 + i])[j] == (Bits.BitsOfByte(plain[i])[j] != Bits.BitsOfByte(ks(nonce, i))[j])
  {
    hide Frame, Le, Bits.BitsOfByte;
    var p := HandshakePacket(id, ip, port, peerType, position, now);
    FrameLayout(p, ks, nonce);
    CiphertextOnWire(p, ks, nonce);
    TenZeros(Frame(p, ks, nonce));
  }

  lemma TenZeros(f: seq<byte>)
    requires |f| >= 20 && f[10..14] == Le(0, 4) && f[14..16] == Le(0, 2)
    requires f[16..18] == Le(0, 2) && f[18..20] == Le(0, 2)
    ensures f[10..20] == Zeros(10)
  {
    assert Le(0, 1) == [0] && Le(0, 2) == [0, 0] && Le(0, 3) == [0, 0, 0] && Le(0, 4) == [0, 0, 0, 0];
    var z := f[10..20];
    assert z == f[10..14] + f[14..16] + f[16..18] + f[18..20];
  }

  /** The frame of a handshake, encrypted as it is, enters exactly the sender's text address,
      type and position. */
  lemma HandshakeRegisters(r: Registry, id: u32, ip: seq<byte>, port: u16, peerType: byte, position: Position,
                           ks: Keystream, nonce: Nonce, now: u64)
    requires |ip| == 4
    ensures var frame := Frame(HandshakePacket(id, ip, port, peerType, position, now), ks, nonce);
      Receivable(frame, ks)
      && AfterFrame(r, frame, ks) == Registry(r.addresses[id := AddressText(ip, port)], r.types[id := peerType],
                                              r.positions[id := position])
  {
    hide Frame, Parse, Payload, AddressText, ReadPosition, Be16, ReadBe16;
    var p := HandshakePacket(id, ip, port, peerType, position, now);
    FrameRoundTrip(p, ks, nonce);
    PayloadPieces(ip, port, peerType, position);
    Be16RoundTrip(port, Be16(port));
  }

  /** A peer says where it listens; any other peer in range that asks next learns a text from
      which it sends to exactly that address and port. */
  lemma HandshakeReachesPeers(r: Registry, id: u32, ip: seq<byte>, port: u16, peerType: byte, position: Position,
                              ks: Keystream, nonce: Nonce, now: u64, m: Metric, requester: u32, order: seq<u32>,
                              c: Contacts)
    requires Consistent(r) && |ip| == 4
    requires Receivable(Frame(HandshakePacket(id, ip, port, peerType, position, now), ks, nonce), ks)
    requires var after := AfterFrame(r, Frame(HandshakePacket(id, ip, port, peerType, position, now), ks, nonce), ks);
      InRange(after, m, requester, id) && (id != 0 || !Padded(after, m, requester))
      && Enumerates(order, after.positions.Keys) && ReplyPayload(after, m, requester, order).Some?
    ensures var after := AfterFrame(r, Frame(HandshakePacket(id, ip, port, peerType, position, now), ks, nonce), ks);
      var d := Learn(c, ReplyPayload(after, m, requester, order).value);
      id in d.addresses && d.addresses[id] == AddressText(ip, port)
      && Resolve(d.addresses[id]) == Some(Endpoint(Dotted(ip), port))
      && id in d.types && d.types[id] == peerType
  {
    hide Frame, Parse, Consistent, AddressText, InRange, ReplyPayload, Learn, Enumerates, Resolve, Payload,
      Padded;
    var frame := Frame(HandshakePacket(id, ip, port, peerType, position, now), ks, nonce);
    HandshakeRegisters(r, id, ip, port, peerType, position, ks, nonce, now);
    var after := AfterFrame(r, frame, ks);
    FrameKeepsConsistent(r, frame, ks);
    ReplyTeaches(after, m, requester, order, c);
    assert Taught(after, m, requester, c, Learn(c, ReplyPayload(after, m, requester, order).value), id);
    ResolveAddress(ip, port);
  }

  // ----- Moving -----

  /** The frame of a KEEP_ALIVE packet enters the new position of its sender and nothing else. */
  lemma KeepAliveMoves(r: Registry, p: Packet, position: Position, ks: Keystream, nonce: Nonce)
    requires p.kind == 3 && position.x + position.y + position.z <= p.payload
    ensures var frame := Frame(p, ks, nonce);
      Receivable(frame, ks)
      && AfterFrame(r, frame, ks) == Registry(r.addresses, r.types, r.positions[p.source := position])
  {
    hide Frame, Parse, ReadPosition;
    FrameRoundTrip(p, ks, nonce);
    PositionReadBack(p.payload, position);
  }

  lemma PositionReadBack(payload: seq<byte>, position: Position)
    requires position.x + position.y + position.z <= payload
    ensures |payload| >= 24 && ReadPosition(payload, 0) == position
  {
    var s := position.x + position.y + position.z;
    assert payload[..24] == s;
    assert payload[0..8] == s[0..8] && payload[8..16] == s[8..16] && payload[16..24] == s[16..24];
  }

  /** From then on the new distance decides who is in range of whom. */
  lemma MovedPeerInRange(r: Registry, m: Metric, id: u32, position: Position, k: u32)
    requires k in r.positions && k != id
    ensures var after := r.(positions := r.positions[id := position]);
      && (InRange(after, m, id, k) <==> m.distance(position, r.positions[k]) <= 1000000.0)
      && (InRange(after, m, k, id) <==> m.distance(r.positions[k], position) <= 1000000.0)
      && forall j :: j != id ==> (InRange(after, m, j, k) <==> InRange(r, m, j, k))
  {
  }

  /** After a registered peer has moved, a requester that gets a reply learns its address and type
      if the new distance is in range, and keeps what it knew of it otherwise. */
  lemma MovedPeerIsLearned(r: Registry, m: Metric, p: Packet, position: Position, ks: Keystream, nonce: Nonce,
                           requester: u32, order: seq<u32>, c: Contacts)
    requires Consistent(r) && p.kind == 3 && position.x + position.y + position.z <= p.payload
    requires p.source in r.addresses && p.source != 0 && requester in r.positions && requester != p.source
    requires Receivable(Frame(p, ks, nonce), ks)
    requires var after := AfterFrame(r, Frame(p, ks, nonce), ks);
      Enumerates(order, after.positions.Keys) && ReplyPayload(after, m, requester, order).Some?
    ensures var after := AfterFrame(r, Frame(p, ks, nonce), ks);
      var d := Learn(c, ReplyPayload(after, m, requester, order).value);
      if m.distance(r.positions[requester], position) <= 1000000.0 then
        p.source in d.addresses && d.addresses[p.source] == r.addresses[p.source]
        && p.source in d.types && d.types[p.source] == r.types[p.source]
      else
        (p.source in d.addresses <==> p.source in c.addresses)
        && (p.source in c.addresses ==> d.addresses[p.source] == c.addresses[p.source])
  {
    hide Frame, Parse, Consistent, InRange, ReplyPayload, Learn, Enumerates, Padded;
    var after := AfterFrame(r, Frame(p, ks, nonce), ks);
    KeepAliveMoves(r, p, position, ks, nonce);
    FrameKeepsConsistent(r, Frame(p, ks, nonce), ks);
    MovedPeerInRange(r, m, p.source, position, requester);
    ReplyTeaches(after, m, requester, order, c);
    assert Taught(after, m, requester, c, Learn(c, ReplyPayload(after, m, requester, order).value), p.source);
    SameTypes(r, after);
  }

  lemma SameTypes(r: Registry, after: Registry)
    requires Consistent(r) && after.addresses == r.addresses && after.types == r.types
    ensures r.addresses.Keys == r.types.Keys
  {
  }
}
