/** Packets and their frames: a 28-byte header, the payload (encrypted at priority 255) and a
    two-byte checksum. */
module Packets {
  import opened Bytes
  import opened Bits
  import opened Checksum

  const HANDSHAKE: byte := 0
  const DATA: byte := 1
  const DISCOVERY: byte := 2
  const KEEP_ALIVE: byte := 3
  const ROUTE: byte := 4
  const PULL: byte := 6

  const ENCRYPTED: byte := 255
  const NONCE_SIZE := 12
  const HEADER_SIZE := 28

  type Nonce = n: seq<byte> | |n| == NONCE_SIZE witness [0, 0, 0, 0, 0, 0, 0, 0, 0, 0, 0, 0]

  datatype Packet = Packet(
    source: u32, destination: u32, kind: byte, priority: byte, sequence: u32, timestamp: u64,
    payload: seq<byte>, crc: bv16, payloadType: u16, fragmentIndex: u16, totalFragments: u16)

  datatype Error = InvalidCiphertext | CrcMismatch | NoFragments

  datatype Result<+T> = Ok(value: T) | Err(error: Error)

  // ----- The stream cipher: a key stream that depends on the nonce and the position -----

  type Keystream = (Nonce, nat) -> byte

  function XorByte(a: byte, b: byte): byte {
    Narrow(Xor(Widen(a), Widen(b)))
  }

  function Mask(ks: Keystream, nonce: Nonce, data: seq<byte>): (s: seq<byte>)
    ensures |s| == |data|
  {
    seq<byte>(|data|, i requires 0 <= i < |data| => XorByte(data[i], ks(nonce, i)))
  }

  function Encrypt(ks: Keystream, nonce: Nonce, plain: seq<byte>): seq<byte> {
    nonce + Mask(ks, nonce, plain)
  }

  function Decrypt(ks: Keystream, data: seq<byte>): Result<seq<byte>> {
    if |data| < NONCE_SIZE then Err(InvalidCiphertext)
    else Ok(Mask(ks, data[..NONCE_SIZE], data[NONCE_SIZE..]))
  }

  lemma XorTwice(x: bv16, k: bv16)
    requires x & 0xFF00 == 0
    ensures Xor(Xor(x, k) & 0xFF, k) & 0xFF == x
  {
  }

  lemma XorByteTwice(a: byte, k: byte)
    ensures XorByte(XorByte(a, k), k) == a
  {
    hide Widen, Narrow, Xor;
    var x, w := Widen(a), Widen(k);
    NarrowOfWiden(a);
    WidenOfNarrow(Xor(x, w));
    XorTwice(x, w);
    LowByteOnly(Xor(Xor(x, w) & 0xFF, w), x);
  }

  /** The cipher flips exactly the bits where those of the key stream are set. */
  lemma XorByteBits(a: byte, k: byte, j: nat)
    requires j < 8
    ensures BitsOfByte(XorByte(a, k))[j] == (BitsOfByte(a)[j] != BitsOfByte(k)[j])
  {
    hide Widen, Narrow, Xor, BitsOfByte, HasBit;
    var x := Xor(Widen(a), Widen(k));
    BitOfWiden(a, j);
    BitOfWiden(k, j);
    BitOfWiden(XorByte(a, k), j);
    WidenOfNarrow(x);
    BitOfXor(Widen(a), Widen(k), j);
  }

  lemma MaskTwice(ks: Keystream, nonce: Nonce, data: seq<byte>)
    ensures Mask(ks, nonce, Mask(ks, nonce, data)) == data
  {
    hide XorByte;
    forall i | 0 <= i < |data| ensures XorByte(XorByte(data[i], ks(nonce, i)), ks(nonce, i)) == data[i] {
      XorByteTwice(data[i], ks(nonce, i));
    }
  }

  /** Decryption undoes encryption, and encrypting again under the nonce found in a
      ciphertext gives that ciphertext back. */
  lemma CipherRoundTrip(ks: Keystream, nonce: Nonce, plain: seq<byte>, data: seq<byte>)
    ensures Decrypt(ks, Encrypt(ks, nonce, plain)) == Ok(plain)
    ensures |data| >= NONCE_SIZE ==>
      Decrypt(ks, data).Ok? && Encrypt(ks, data[..NONCE_SIZE], Decrypt(ks, data).value) == data
    ensures |data| < NONCE_SIZE ==> Decrypt(ks, data) == Err(InvalidCiphertext)
  {
    hide Mask;
    MaskTwice(ks, nonce, plain);
    var c := Encrypt(ks, nonce, plain);
    assert c[..NONCE_SIZE] == nonce && c[NONCE_SIZE..] == Mask(ks, nonce, plain);
    if |data| >= NONCE_SIZE {
      MaskTwice(ks, data[..NONCE_SIZE], data[NONCE_SIZE..]);
      assert data == data[..NONCE_SIZE] + data[NONCE_SIZE..];
    }
  }

  // ----- The frame -----

  function Header(p: Packet): (h: seq<byte>)
    ensures |h| == HEADER_SIZE
  {
    Le(p.source, 4) + Le(p.destination, 4) + [p.kind] + [p.priority] + Le(p.sequence, 4)
    + Le(p.payloadType, 2) + Le(p.fragmentIndex, 2) + Le(p.totalFragments, 2) + Le(p.timestamp, 8)
  }

  function Body(p: Packet, ks: Keystream, nonce: Nonce): seq<byte> {
    Header(p) + if p.priority == ENCRYPTED then Encrypt(ks, nonce, p.payload) else p.payload
  }

  function Frame(p: Packet, ks: Keystream, nonce: Nonce): seq<byte> {
    Body(p, ks, nonce) + Trailer(Crc(Body(p, ks, nonce)))
  }

  method Serialize(p: Packet, ks: Keystream, nonce: Nonce) returns (buffer: seq<byte>)
    ensures buffer == Frame(p, ks, nonce)
  {
    hide Le, Crc, Trailer, Encrypt;
    buffer := [];
    buffer := buffer + Le(p.source, 4);
    buffer := buffer + Le(p.destination, 4);
    buffer := buffer + [p.kind];
    buffer := buffer + [p.priority];
    buffer := buffer + Le(p.sequence, 4);
    buffer := buffer + Le(p.payloadType, 2);
    buffer := buffer + Le(p.fragmentIndex, 2);
    buffer := buffer + Le(p.totalFragments, 2);
    buffer := buffer + Le(p.timestamp, 8);
    assert buffer == Header(p);
    var payload := if p.priority == ENCRYPTED then Encrypt(ks, nonce, p.payload) else p.payload;
    buffer := buffer + payload;
    assert buffer == Body(p, ks, nonce);
    var crc := Crc16(buffer);
    buffer := buffer + Trailer(crc);
  }

  /** The packet whose fields stand at the fixed offsets of `b`. */
  function Fields(b: seq<byte>, payload: seq<byte>, crc: bv16): Packet
    requires |b| >= HEADER_SIZE
  {
    Packet(ReadU32(b[0..4]), ReadU32(b[4..8]), b[8], b[9], ReadU32(b[10..14]), ReadU64(b[20..28]),
           payload, crc, ReadU16(b[14..16]), ReadU16(b[16..18]), ReadU16(b[18..20]))
  }

  /** What the receiver makes of a buffer that holds at least a header and a trailer. */
  function Parse(b: seq<byte>, ks: Keystream): Result<Packet>
    requires |b| >= HEADER_SIZE + 2
  {
    var n := |b| - 2;
    var sealed := b[HEADER_SIZE..n];
    var payload := if b[9] == ENCRYPTED then Decrypt(ks, sealed) else Ok(sealed);
    if payload.Err? then Err(payload.error)
    else if Received(b[n], b[n + 1]) != Crc(b[..n]) then Err(CrcMismatch)
    else Ok(Fields(b, payload.value, Received(b[n], b[n + 1])))
  }

  method Deserialize(buffer: seq<byte>, ks: Keystream) returns (r: Result<Packet>)
    requires |buffer| >= HEADER_SIZE + 2
    ensures r == Parse(buffer, ks)
  {
    hide UnLe, Crc, Received, Decrypt;
    var offset := 0;
    var source := ReadU32(buffer[offset..offset + 4]);
    offset := offset + 4;
    var destination := ReadU32(buffer[offset..offset + 4]);
    offset := offset + 4;
    var kind := buffer[offset];
    offset := offset + 1;
    var priority := buffer[offset];
    offset := offset + 1;
    var sequence := ReadU32(buffer[offset..offset + 4]);
    offset := offset + 4;
    var payloadType := ReadU16(buffer[offset..offset + 2]);
    offset := offset + 2;
    var fragmentIndex := ReadU16(buffer[offset..offset + 2]);
    offset := offset + 2;
    var totalFragments := ReadU16(buffer[offset..offset + 2]);
    offset := offset + 2;
    var timestamp := ReadU64(buffer[offset..offset + 8]);
    offset := offset + 8;
    var length := |buffer| - offset - 2;
    var payload := buffer[offset..offset + length];
    if priority == ENCRYPTED {
      var plain := Decrypt(ks, payload);
      if plain.Err? {
        return Err(plain.error);
      }
      payload := plain.value;
    }
    var received := Received(buffer[|buffer| - 2], buffer[|buffer| - 1]);
    var calculated := Crc16(buffer[..|buffer| - 2]);
    if received != calculated {
      return Err(CrcMismatch);
    }
    r := Ok(Packet(source, destination, kind, priority, sequence, timestamp, payload, received,
                   payloadType, fragmentIndex, totalFragments));
  }

  // ----- Round trips -----

  lemma HeaderPieces(p: Packet, b: seq<byte>)
    requires |b| >= HEADER_SIZE && b[..HEADER_SIZE] == Header(p)
    ensures b[0..4] == Le(p.source, 4) && b[4..8] == Le(p.destination, 4)
    ensures b[8] == p.kind && b[9] == p.priority && b[10..14] == Le(p.sequence, 4)
    ensures b[14..16] == Le(p.payloadType, 2) && b[16..18] == Le(p.fragmentIndex, 2)
    ensures b[18..20] == Le(p.totalFragments, 2) && b[20..28] == Le(p.timestamp, 8)
  {
    hide Le;
    var h := b[..HEADER_SIZE];
    assert b[0..4] == h[0..4] && b[4..8] == h[4..8] && b[8] == h[8] && b[9] == h[9];
    assert b[10..14] == h[10..14] && b[14..16] == h[14..16] && b[16..18] == h[16..18];
    assert b[18..20] == h[18..20] && b[20..28] == h[20..28];
  }

  lemma FieldsOfHeader(p: Packet, b: seq<byte>, crc: bv16)
    requires |b| >= HEADER_SIZE && b[..HEADER_SIZE] == Header(p)
    ensures Fields(b, p.payload, crc) == p.(crc := crc)
  {
    hide Le, ReadU16, ReadU32, ReadU64, Header;
    HeaderPieces(p, b);
    ReadBack32(p.source);
    ReadBack32(p.destination);
    ReadBack32(p.sequence);
    ReadBack16(p.payloadType);
    ReadBack16(p.fragmentIndex);
    ReadBack16(p.totalFragments);
    ReadBack64(p.timestamp);
  }

  /** Reading back a written frame returns every field and the payload; the crc field becomes
      the checksum that was sent. */
  lemma FrameRoundTrip(p: Packet, ks: Keystream, nonce: Nonce)
    ensures |Frame(p, ks, nonce)| >= HEADER_SIZE + 2
    ensures Parse(Frame(p, ks, nonce), ks) == Ok(p.(crc := Crc(Body(p, ks, nonce))))
  {
    hide Le, Header, Crc, Trailer, Received, Encrypt, Decrypt, Fields;
    var b, body := Frame(p, ks, nonce), Body(p, ks, nonce);
    var n := |body|;
    assert b[..n] == body && b[..HEADER_SIZE] == Header(p) && b[n..] == Trailer(Crc(body));
    assert b[HEADER_SIZE..n] == body[HEADER_SIZE..];
    HeaderPieces(p, b);
    ReceivedTrailer(Crc(body), 0, 0);
    CipherRoundTrip(ks, nonce, p.payload, []);
    FieldsOfHeader(p, b, Crc(body));
  }

  lemma HeaderOfFields(b: seq<byte>, payload: seq<byte>, crc: bv16)
    requires |b| >= HEADER_SIZE
    ensures Header(Fields(b, payload, crc)) == b[..HEADER_SIZE]
  {
    hide Le, UnLe;
    LeOfUnLe(b[0..4]);
    LeOfUnLe(b[4..8]);
    LeOfUnLe(b[10..14]);
    LeOfUnLe(b[14..16]);
    LeOfUnLe(b[16..18]);
    LeOfUnLe(b[18..20]);
    LeOfUnLe(b[20..28]);
    assert b[..HEADER_SIZE] == b[0..4] + b[4..8] + [b[8]] + [b[9]] + b[10..14]
                               + b[14..16] + b[16..18] + b[18..20] + b[20..28];
  }

  /** Writing out an accepted buffer gives the same bytes, provided an encrypted payload is
      encrypted again under the nonce it came with. */
  lemma ParseRoundTrip(b: seq<byte>, ks: Keystream, nonce: Nonce)
    requires |b| >= HEADER_SIZE + 2 && Parse(b, ks).Ok?
    requires b[9] == ENCRYPTED ==> nonce <= b[HEADER_SIZE..|b| - 2]
    ensures Frame(Parse(b, ks).value, ks, nonce) == b
  {
    hide Le, Header, Crc, Trailer, Received, Encrypt, Decrypt;
    var n, p := |b| - 2, Parse(b, ks).value;
    var sealed := b[HEADER_SIZE..n];
    HeaderOfFields(b, p.payload, p.crc);
    CipherRoundTrip(ks, nonce, p.payload, sealed);
    if b[9] == ENCRYPTED { assert sealed[..NONCE_SIZE] == nonce; }
    assert b[..n] == b[..HEADER_SIZE] + sealed;
    ReceivedTrailer(0, b[n], b[n + 1]);
    assert b == b[..n] + [b[n], b[n + 1]];
  }

  /** A frame is accepted and read as `p`, but for the checksum field. */
  predicate ReadsAs(frame: seq<byte>, p: Packet, ks: Keystream) {
    |frame| >= HEADER_SIZE + 2 && Parse(frame, ks).Ok?
    && Parse(frame, ks).value == p.(crc := Parse(frame, ks).value.crc)
  }

  lemma PriorityOfParsed(frame: seq<byte>, ks: Keystream)
    requires |frame| >= HEADER_SIZE + 2 && Parse(frame, ks).Ok?
    ensures Parse(frame, ks).value.priority == frame[9]
  {
    hide Received, Crc, Decrypt, ReadU32, ReadU16, ReadU64;
  }

  lemma NonceInFrame(p: Packet, ks: Keystream, nonce: Nonce)
    requires p.priority == ENCRYPTED
    ensures |Frame(p, ks, nonce)| >= HEADER_SIZE + 2
    ensures nonce <= Frame(p, ks, nonce)[HEADER_SIZE..|Frame(p, ks, nonce)| - 2]
  {
    hide Header, Crc, Trailer, Mask;
    var f := Frame(p, ks, nonce);
    assert f[HEADER_SIZE..|f| - 2] == nonce + Mask(ks, nonce, p.payload);
  }

  // ----- What is on the wire -----

  /** Where in a frame everything stands: the fields, the payload in clear unless the priority is
      255, and the checksum of all before it. */
  lemma FrameLayout(p: Packet, ks: Keystream, nonce: Nonce)
    ensures var f := Frame(p, ks, nonce);
      && |f| >= 30 && f[0..4] == Le(p.source, 4) && f[4..8] == Le(p.destination, 4) && f[8] == p.kind
      && f[9] == p.priority && f[10..14] == Le(p.sequence, 4) && f[14..16] == Le(p.payloadType, 2)
      && f[16..18] == Le(p.fragmentIndex, 2) && f[18..20] == Le(p.totalFragments, 2) && f[20..28] == Le(p.timestamp, 8)
      && (p.priority != 255 ==> |f| == 30 + |p.payload| && f[28..|f| - 2] == p.payload)
      && f[|f| - 2..] == Trailer(Crc(f[..|f| - 2]))
  {
    hide Le, Header, Crc, Trailer, Encrypt;
    var f, body := Frame(p, ks, nonce), Body(p, ks, nonce);
    var n := |body|;
    assert f[..n] == body && f[..HEADER_SIZE] == Header(p) && f[n..] == Trailer(Crc(body));
    assert f[HEADER_SIZE..n] == body[HEADER_SIZE..];
    HeaderPieces(p, f);
  }

  /** At priority 255 the nonce comes first, and then the payload with those bits flipped where
      the bits of the key stream are set. */
  lemma CiphertextOnWire(p: Packet, ks: Keystream, nonce: Nonce)
    requires p.priority == 255
    ensures var f, n := Frame(p, ks, nonce), |p.payload|;
      && |f| == 42 + n && f[28..40] == nonce
      && forall i, j :: 0 <= i < n && 0 <= j < 8 ==>
           BitsOfByte(f[40 + i])[j] == (BitsOfByte(p.payload[i])[j] != BitsOfByte(ks(nonce, i))[j])
  {
    hide Header, Crc, Trailer, XorByte, BitsOfByte;
    var f, n := Frame(p, ks, nonce), |p.payload|;
    assert f == Header(p) + nonce + Mask(ks, nonce, p.payload) + Trailer(Crc(Body(p, ks, nonce)));
    assert f[28..40] == nonce;
    forall i, j | 0 <= i < n && 0 <= j < 8
      ensures BitsOfByte(f[40 + i])[j] == (BitsOfByte(p.payload[i])[j] != BitsOfByte(ks(nonce, i))[j])
    {
      assert f[40 + i] == XorByte(p.payload[i], ks(nonce, i));
      XorByteBits(p.payload[i], ks(nonce, i), j);
    }
  }
}
