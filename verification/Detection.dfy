/** What damage to a frame the receiver notices. */
module Detection {
  import opened Bytes
  import opened Bits
  import opened Checksum
  import opened Order
  import opened ErrorPatterns
  import opened Packets

  /** The checksum of a whole buffer, trailer included. */
  function Residue(b: seq<byte>): bv16 {
    CrcFrom(INITIAL, b)
  }

  /** The bits, in transmission order, at which two buffers of the same length differ. */
  function Flipped(f: seq<byte>, r: seq<byte>): (e: seq<bool>)
    requires |f| == |r|
    ensures |e| == 8 * |f|
  {
    Diff(BitsOf(f), BitsOf(r))
  }

  /** A buffer too short to carry the nonce its priority calls for. */
  predicate LacksNonce(b: seq<byte>)
    requires |b| >= HEADER_SIZE + 2
  {
    b[9] == ENCRYPTED && |b| < HEADER_SIZE + NONCE_SIZE + 2
  }

  // ----- The zero residue -----

  lemma AbsorbTwo(s: bv16, high: byte, low: byte)
    ensures Absorb(Absorb(s, high), low) == 0 <==> Received(high, low) == s
  {
    hide StepN, Xor, Absorb, Received, Align, Serial, BitsOfByte;
    var w := BitsOfByte(high) + BitsOfByte(low);
    AbsorbIsSerial(s, high);
    AbsorbIsSerial(Absorb(s, high), low);
    SerialOfConcat(s, BitsOfByte(high), BitsOfByte(low));
    SerialOfFew(s, w);
    AlignOfTrailer(high, low);
    StepNZeroOnly(Xor(s, Align(w)), 16);
    XorIsZero(s, Align(w));
  }

  lemma ResidueOfTrailer(m: seq<byte>, high: byte, low: byte)
    ensures Residue(m + [high, low]) == 0 <==> Received(high, low) == Crc(m)
  {
    hide Absorb, Received;
    var b := m + [high, low];
    assert b[..|b| - 1] == m + [high] && (m + [high])[..|m|] == m;
    assert CrcFrom(INITIAL, m + [high]) == Absorb(Crc(m), high);
    assert Residue(b) == Absorb(Absorb(Crc(m), high), low);
    AbsorbTwo(Crc(m), high, low);
  }

  /** A buffer is accepted exactly when its checksum, trailer included, is 0 and it has room
      for the nonce if it needs one. */
  lemma AcceptedIffZeroResidue(b: seq<byte>, ks: Keystream)
    requires |b| >= HEADER_SIZE + 2
    ensures Parse(b, ks).Ok? <==> Residue(b) == 0 && !LacksNonce(b)
  {
    hide CrcFrom, Crc, Received, Decrypt, Fields;
    var n := |b| - 2;
    assert b == b[..n] + [b[n], b[n + 1]];
    ResidueOfTrailer(b[..n], b[n], b[n + 1]);
    CipherRoundTrip(ks, Zeros(NONCE_SIZE), [], b[HEADER_SIZE..n]);
  }

  /** A buffer is refused for want of a nonce, or else for its checksum. */
  lemma RefusedFor(b: seq<byte>, ks: Keystream)
    requires |b| >= HEADER_SIZE + 2
    ensures Parse(b, ks) == Err(InvalidCiphertext) <==> b[9] == 255 && |b| < 42
    ensures Parse(b, ks) == Err(CrcMismatch) <==> Residue(b) != 0 && !(b[9] == 255 && |b| < 42)
  {
    hide CrcFrom, Crc, Received, Fields, Mask;
    var n := |b| - 2;
    assert b == b[..n] + [b[n], b[n + 1]];
    ResidueOfTrailer(b[..n], b[n], b[n + 1]);
  }

  // ----- Damage -----

  lemma ResidueOfDamaged(f: seq<byte>, r: seq<byte>)
    requires |f| == |r| && Residue(f) == 0
    ensures Residue(r) == 0 <==> Missed(Flipped(f, r))
  {
    hide CrcFrom, Serial, BitsOf;
    CrcIsSerial(INITIAL, f);
    CrcIsSerial(INITIAL, r);
    SerialOfDiff(INITIAL, INITIAL, BitsOf(f), BitsOf(r));
    XorZero(Residue(r));
    XorIsZero(INITIAL, INITIAL);
  }

  /** A damaged frame passes exactly when the flipped bits form a multiple of the generator. */
  lemma DamagePassesIffMultiple(f: seq<byte>, r: seq<byte>, ks: Keystream)
    requires |f| == |r| >= HEADER_SIZE + 2 && Parse(f, ks).Ok?
    ensures Parse(r, ks).Ok? <==>
      !LacksNonce(r) && exists q: seq<bool> :: |q| + 16 == 8 * |f| && Flipped(f, r) == Multiple(q)
  {
    hide Residue, Missed, Multiple, Parse, Flipped;
    AcceptedIffZeroResidue(f, ks);
    AcceptedIffZeroResidue(r, ks);
    ResidueOfDamaged(f, r);
    MissedIffMultiple(Flipped(f, r));
  }

  lemma CaughtMeansRejected(f: seq<byte>, r: seq<byte>, ks: Keystream)
    requires |f| == |r| >= HEADER_SIZE + 2 && Parse(f, ks).Ok? && !Missed(Flipped(f, r))
    ensures Parse(r, ks).Err?
  {
    hide Residue, Missed, Parse, Flipped;
    AcceptedIffZeroResidue(f, ks);
    AcceptedIffZeroResidue(r, ks);
    ResidueOfDamaged(f, r);
  }

  /** Damage confined to 16 consecutive bits, anywhere in a frame of any length. */
  lemma BurstIsRejected(f: seq<byte>, r: seq<byte>, ks: Keystream, start: nat)
    requires |f| == |r| >= HEADER_SIZE + 2 && Parse(f, ks).Ok?
    requires !Silent(Flipped(f, r))
    requires forall i :: 0 <= i < 8 * |f| && Flipped(f, r)[i] ==> start <= i < start + 16
    ensures Parse(r, ks).Err?
  {
    hide Parse, Flipped, Missed;
    BurstIsCaught(Flipped(f, r), start);
    CaughtMeansRejected(f, r, ks);
  }

  /** An odd number of flipped bits, in a frame of any length. */
  lemma OddDamageIsRejected(f: seq<byte>, r: seq<byte>, ks: Keystream)
    requires |f| == |r| >= HEADER_SIZE + 2 && Parse(f, ks).Ok?
    requires Weight(Flipped(f, r)) % 2 == 1
    ensures Parse(r, ks).Err?
  {
    hide Parse, Flipped, Missed, Weight;
    OddIsCaught(Flipped(f, r));
    CaughtMeansRejected(f, r, ks);
  }

  /** Two flipped bits pass exactly when a multiple of 32767 positions lies between them. */
  lemma TwoBitDamage(f: seq<byte>, r: seq<byte>, ks: Keystream, i: nat, j: nat)
    requires |f| == |r| >= HEADER_SIZE + 2 && Parse(f, ks).Ok?
    requires ExactlyAt(Flipped(f, r), i, j)
    ensures Parse(r, ks).Ok? <==> (j - i) % PERIOD == 0 && !LacksNonce(r)
  {
    hide Parse, Flipped, Missed, Residue;
    TwoBitsMissed(Flipped(f, r), i, j);
    AcceptedIffZeroResidue(f, ks);
    AcceptedIffZeroResidue(r, ks);
    ResidueOfDamaged(f, r);
  }

  /** One to three flipped bits in a frame of at most 4095 bytes; the receive buffer holds 1024. */
  lemma ThreeBitDamageIsRejected(f: seq<byte>, r: seq<byte>, ks: Keystream)
    requires HEADER_SIZE + 2 <= |f| <= 4095 && |r| == |f| && Parse(f, ks).Ok?
    requires 1 <= Weight(Flipped(f, r)) <= 3
    ensures Parse(r, ks).Err?
  {
    hide Parse, Flipped, Missed, Weight;
    ThreeBitsAreCaught(Flipped(f, r));
    CaughtMeansRejected(f, r, ks);
  }

  /** The same for what a sender writes. */
  lemma DamagedFrameIsRejected(p: Packet, ks: Keystream, nonce: Nonce, r: seq<byte>)
    requires |r| == |Frame(p, ks, nonce)| <= 1024
    requires 1 <= Weight(Flipped(Frame(p, ks, nonce), r)) <= 3
    ensures |r| >= HEADER_SIZE + 2 && Parse(r, ks).Err?
  {
    hide Parse, Frame, Flipped, Weight;
    FrameRoundTrip(p, ks, nonce);
    ThreeBitDamageIsRejected(Frame(p, ks, nonce), r, ks);
  }

  // ----- The limits are sharp -----

  function ByteOfBits(w: seq<bool>): byte
    requires |w| == 8
  {
    ByteOfHalves(HalfOfBits(w[0], w[1], w[2], w[3]), HalfOfBits(w[4], w[5], w[6], w[7]))
  }

  lemma BitsOfTheirByte(w: seq<bool>)
    requires |w| == 8
    ensures BitsOfByte(ByteOfBits(w)) == w
  {
    hide BitsOfHalf, HalfOfBits;
    BitsOfTheirHalf(w[..4]);
    BitsOfTheirHalf(w[4..]);
    assert w == w[..4] + w[4..];
  }

  lemma {:induction false} BytesOfBits(w: seq<bool>, n: nat) returns (b: seq<byte>)
    requires |w| == 8 * n
    ensures |b| == n && BitsOf(b) == w
  {
    hide BitsOfByte, ByteOfBits;
    if n == 0 {
      b := [];
    } else {
      var m := 8 * (n - 1);
      var front := BytesOfBits(w[..m], n - 1);
      var last := ByteOfBits(w[m..]);
      BitsOfTheirByte(w[m..]);
      b := front + [last];
      assert b[..n - 1] == front && w == w[..m] + w[m..];
    }
  }

  /** Every error pattern can strike every frame. */
  lemma Damage(f: seq<byte>, e: seq<bool>) returns (r: seq<byte>)
    requires |e| == 8 * |f|
    ensures |r| == |f| && Flipped(f, r) == e
  {
    hide BitsOf;
    r := BytesOfBits(Diff(BitsOf(f), e), |f|);
  }

  /** Four flipped bits within 17 positions can pass: the generator itself, at any position
      of any accepted frame. */
  lemma FourBitDamageCanPass(f: seq<byte>, ks: Keystream, start: nat) returns (r: seq<byte>)
    requires |f| >= HEADER_SIZE + 2 && Parse(f, ks).Ok? && start + 17 <= 8 * |f|
    ensures |r| == |f| && Weight(Flipped(f, r)) == 4
    ensures forall i :: 0 <= i < 8 * |f| && Flipped(f, r)[i] ==> start <= i < start + 17
    ensures Parse(r, ks).Ok? <==> !LacksNonce(r)
  {
    hide Residue, Parse, Flipped, Missed, Weight, Generator;
    var rest := 8 * |f| - start - 17;
    var e := Quiet(start) + Generator() + Quiet(rest);
    r := Damage(f, e);
    WeightOfConcat(Quiet(start) + Generator(), Quiet(rest));
    WeightOfConcat(Quiet(start), Generator());
    WeightOfSilent(Quiet(start));
    WeightOfSilent(Quiet(rest));
    WeightOfGenerator();
    GeneratorIsMissed();
    MissedInside(Quiet(start), Generator(), Quiet(rest));
    AcceptedIffZeroResidue(f, ks);
    AcceptedIffZeroResidue(r, ks);
    ResidueOfDamaged(f, r);
  }

  // ----- Parity of a frame -----

  function Ones(n: nat): (e: seq<bool>)
    ensures |e| == n && forall i :: 0 <= i < n ==> e[i]
  {
    seq(n, _ => true)
  }

  lemma {:induction false} WeightOfOnes(n: nat)
    ensures Weight(Ones(n)) == n
  {
    if n != 0 {
      WeightOfOnes(n - 1);
      assert Ones(n)[1..] == Ones(n - 1);
    }
  }

  lemma AlignOfOnes()
    ensures Align(Ones(16)) == INITIAL
  {
    hide OnTop, Align, Ones;
    var w := Ones(16);
    AlignOfFour(w);
    AlignOfFour(w[4..]);
    AlignOfFour(w[4..][4..]);
    AlignOfFour(w[4..][4..][4..]);
    assert w[4..][4..][4..][4..] == [];
    OnesOnTop();
  }

  lemma OnesOnTop()
    ensures Align([]) == 0
    ensures OnTop(true, true, true, true, OnTop(true, true, true, true,
              OnTop(true, true, true, true, OnTop(true, true, true, true, 0)))) == 0xFFFF
  {
  }

  /** Starting from 0xFFFF is starting from 0 with the first 16 bits inverted. */
  lemma InitialInverts(u: seq<bool>)
    requires |u| == 16
    ensures Serial(INITIAL, u) == Serial(0, Diff(Ones(16), u))
  {
    hide Serial, StepN, Align, Xor, Ones;
    var ones, zeros, d := Ones(16), Quiet(16), Diff(Ones(16), u);
    SerialOfFew(0, ones);
    AlignOfOnes();
    XorZero(INITIAL);
    SerialOfSilent(INITIAL, zeros);
    SerialOfDiff(INITIAL, 0, zeros, u);
    SerialOfDiff(0, 0, ones, u);
    assert Diff(zeros, u) == u;
    XorZero(0);
  }

  lemma {:induction false} BitsOfConcat(a: seq<byte>, b: seq<byte>)
    ensures BitsOf(a + b) == BitsOf(a) + BitsOf(b)
    decreases |b|
  {
    hide BitsOfByte;
    if b == [] {
      assert a + b == a;
    } else {
      var n := |b| - 1;
      assert (a + b)[..|a| + n] == a + b[..n];
      BitsOfConcat(a, b[..n]);
    }
  }

  lemma ZeroResidueIsEven(b: seq<byte>)
    requires |b| >= 2 && Residue(b) == 0
    ensures Weight(BitsOf(b)) % 2 == 0
  {
    hide CrcFrom, Serial, Weight, BitsOf, Multiple, Ones;
    var w := BitsOf(b);
    var u, v := w[..16], w[16..];
    var e := Diff(Ones(16), u) + v;
    CrcIsSerial(INITIAL, b);
    assert w == u + v;
    SerialOfConcat(INITIAL, u, v);
    SerialOfConcat(0, Diff(Ones(16), u), v);
    InitialInverts(u);
    var q := QuotientOfMissed(e);
    var half := MultipleIsEven(q);
    var both := WeightOfDiff(Ones(16), u);
    WeightOfOnes(16);
    WeightOfConcat(u, v);
    WeightOfConcat(Diff(Ones(16), u), v);
    assert Weight(w) == 2 * (half + both - 8);
  }

  /** The checksum has the parity of the buffer it protects, so that both together have an even
      number of ones. */
  lemma ParityOfChecksum(m: seq<byte>)
    ensures Weight(BitsOf(Trailer(Crc(m)))) % 2 == Weight(BitsOf(m)) % 2
    ensures Weight(BitsOf(m + Trailer(Crc(m)))) % 2 == 0
  {
    hide Crc, Residue, Received, Trailer, Weight, BitsOf;
    var t := Trailer(Crc(m));
    assert t == [t[0], t[1]];
    ReceivedTrailer(Crc(m), 0, 0);
    ResidueOfTrailer(m, t[0], t[1]);
    ZeroResidueIsEven(m + t);
    BitsOfConcat(m, t);
    WeightOfConcat(BitsOf(m), BitsOf(t));
  }

  /** Whatever is accepted has an even number of ones. */
  lemma AcceptedIsEven(b: seq<byte>, ks: Keystream)
    requires |b| >= HEADER_SIZE + 2 && Parse(b, ks).Ok?
    ensures Weight(BitsOf(b)) % 2 == 0
  {
    hide Parse, Residue, Weight, BitsOf;
    AcceptedIffZeroResidue(b, ks);
    ZeroResidueIsEven(b);
  }
}
