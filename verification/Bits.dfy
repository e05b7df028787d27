/** Bit-level view of bytes and 16-bit words, most significant bit first. A byte is taken
    apart in two halves of four bits. */
module Bits {
  import opened Bytes

  type half = n: nat | n < 16

  function Value(bit: bool, weight: nat): nat {
    if bit then weight else 0
  }

  function Pick(bit: bool, word: bv16): bv16 {
    if bit then word else 0
  }

  /** Exclusive or, named so that a proof can treat it as the operation of a group. */
  function Xor(a: bv16, b: bv16): bv16 {
    a ^ b
  }

  lemma XorAssociates(a: bv16, b: bv16, c: bv16)
    ensures Xor(Xor(a, b), c) == Xor(a, Xor(b, c))
  {
  }

  lemma XorCommutes(a: bv16, b: bv16)
    ensures Xor(a, b) == Xor(b, a)
  {
  }

  lemma XorZero(a: bv16)
    ensures Xor(a, 0) == a && Xor(0, a) == a
  {
  }

  lemma XorIsZero(a: bv16, b: bv16)
    ensures Xor(a, b) == 0 <==> a == b
  {
    XorSelf(a);
    hide Xor;
    XorSelf(b);
    XorAssociates(a, b, b);
    XorZero(a);
    XorZero(b);
  }

  lemma XorSelf(a: bv16)
    ensures Xor(a, a) == 0
  {
  }

  lemma XorSwapsMiddle(a: bv16, b: bv16, c: bv16, d: bv16)
    ensures Xor(Xor(a, b), Xor(c, d)) == Xor(Xor(a, c), Xor(b, d))
  {
    hide Xor;
    XorAssociates(a, b, Xor(c, d));
    XorAssociates(b, c, d);
    XorCommutes(b, c);
    XorAssociates(c, b, d);
    XorAssociates(a, c, Xor(b, d));
  }

  function HalfOfBits(a: bool, b: bool, c: bool, d: bool): half {
    Value(a, 8) + Value(b, 4) + Value(c, 2) + Value(d, 1)
  }

  function BitsOfHalf(h: half): (w: seq<bool>)
    ensures |w| == 4
  {
    [h / 8 == 1, h / 4 % 2 == 1, h / 2 % 2 == 1, h % 2 == 1]
  }

  lemma HalfOfItsBits(h: half)
    ensures var w := BitsOfHalf(h); HalfOfBits(w[0], w[1], w[2], w[3]) == h
  {
  }

  lemma BitsOfTheirHalf(w: seq<bool>)
    requires |w| == 4
    ensures BitsOfHalf(HalfOfBits(w[0], w[1], w[2], w[3])) == w
  {
  }

  /** The eight bits of a byte. */
  function BitsOfByte(b: byte): (w: seq<bool>)
    ensures |w| == 8
  {
    BitsOfHalf(b / 16) + BitsOfHalf(b % 16)
  }

  function ByteOfHalves(high: half, low: half): (b: byte)
    ensures b / 16 == high && b % 16 == low
  {
    16 * high + low
  }

  function WidenHalf(h: half): (x: bv16)
  {
    var w := BitsOfHalf(h);
    Pick(w[0], 8) ^ Pick(w[1], 4) ^ Pick(w[2], 2) ^ Pick(w[3], 1)
  }

  /** The low four bits of a word. */
  function NarrowHalf(x: bv16): half {
    HalfOfBits(x & 8 != 0, x & 4 != 0, x & 2 != 0, x & 1 != 0)
  }

  /** A byte widened to 16 bits. */
  function Widen(b: byte): (x: bv16) {
    (WidenHalf(b / 16) << 4) ^ WidenHalf(b % 16)
  }

  /** The low byte of a 16-bit word. */
  function Narrow(x: bv16): byte {
    ByteOfHalves(NarrowHalf(x >> 4), NarrowHalf(x))
  }

  lemma BitsOfWidened(a: bool, b: bool, c: bool, d: bool)
    ensures var x := Pick(a, 8) ^ Pick(b, 4) ^ Pick(c, 2) ^ Pick(d, 1);
      (x & 8 != 0 <==> a) && (x & 4 != 0 <==> b) && (x & 2 != 0 <==> c) && (x & 1 != 0 <==> d)
  {
  }

  lemma NarrowOfWidenHalf(h: half)
    ensures NarrowHalf(WidenHalf(h)) == h
    ensures WidenHalf(h) & 0xFFF0 == 0
  {
    var w := BitsOfHalf(h);
    HalfOfItsBits(h);
    BitsOfWidened(w[0], w[1], w[2], w[3]);
  }

  lemma WidenOfNarrowHalf(x: bv16)
    ensures WidenHalf(NarrowHalf(x)) == x & 0xF
  {
    BitsOfTheirHalf([x & 8 != 0, x & 4 != 0, x & 2 != 0, x & 1 != 0]);
  }

  lemma JoinedHalves(high: bv16, low: bv16)
    requires high & 0xFFF0 == 0 && low & 0xFFF0 == 0
    ensures Narrow((high << 4) ^ low) == ByteOfHalves(NarrowHalf(high), NarrowHalf(low))
    ensures ((high << 4) ^ low) & 0xFF00 == 0
  {
    var x := (high << 4) ^ low;
    assert x & 0xF == low && (x >> 4) & 0xF == high;
    LowHalfOnly(x, low);
    LowHalfOnly(x >> 4, high);
  }

  lemma LowHalfOnly(x: bv16, y: bv16)
    requires x & 0xF == y
    ensures NarrowHalf(x) == NarrowHalf(y)
  {
  }

  lemma NarrowOfWiden(b: byte)
    ensures Narrow(Widen(b)) == b
    ensures Widen(b) & 0xFF00 == 0
  {
    hide WidenHalf, NarrowHalf, Narrow;
    NarrowOfWidenHalf(b / 16);
    NarrowOfWidenHalf(b % 16);
    JoinedHalves(WidenHalf(b / 16), WidenHalf(b % 16));
  }

  lemma WidenOfNarrow(x: bv16)
    ensures Widen(Narrow(x)) == x & 0xFF
  {
    WidenOfNarrowHalf(x >> 4);
    WidenOfNarrowHalf(x);
    assert (((x >> 4) & 0xF) << 4) ^ (x & 0xF) == x & 0xFF;
  }

  /** The conversions preserve the number a word stands for. */
  lemma NarrowValue(x: bv16)
    ensures Narrow(x) == (x & 0xFF) as nat
  {
  }

  lemma WidenValue(b: byte)
    ensures Widen(b) as nat == b
  {
    NarrowOfWiden(b);
    NarrowValue(Widen(b));
    assert Widen(b) & 0xFF == Widen(b);
  }

  /** The bits of a byte are those of its widened word. */
  lemma BitsOfWidenHalf(h: half)
    ensures var w, x := BitsOfHalf(h), WidenHalf(h);
      (w[0] <==> x & 8 != 0) && (w[1] <==> x & 4 != 0) && (w[2] <==> x & 2 != 0) && (w[3] <==> x & 1 != 0)
  {
    hide BitsOfHalf;
    var w := BitsOfHalf(h);
    BitsOfWidened(w[0], w[1], w[2], w[3]);
  }

  /** Bit `j` of a byte as a mask, most significant first. */
  function BitMask(j: nat): bv16
    requires j < 8
  {
    [0x80, 0x40, 0x20, 0x10, 8, 4, 2, 1][j]
  }

  predicate HasBit(x: bv16, j: nat)
    requires j < 8
  {
    x & BitMask(j) != 0
  }

  lemma BitOfJoined(high: bv16, low: bv16, j: nat)
    requires high & 0xFFF0 == 0 && low & 0xFFF0 == 0 && j < 8
    ensures HasBit((high << 4) ^ low, j) <==> if j < 4 then HasBit(high, j + 4) else HasBit(low, j)
  {
    MasksOfJoined(high, low);
  }

  lemma MasksOfJoined(high: bv16, low: bv16)
    requires high & 0xFFF0 == 0 && low & 0xFFF0 == 0
    ensures var x := (high << 4) ^ low;
      && (x & 0x80 != 0 <==> high & 8 != 0) && (x & 0x40 != 0 <==> high & 4 != 0)
      && (x & 0x20 != 0 <==> high & 2 != 0) && (x & 0x10 != 0 <==> high & 1 != 0)
      && x & 8 == low & 8 && x & 4 == low & 4 && x & 2 == low & 2 && x & 1 == low & 1
  {
  }

  lemma BitOfWiden(b: byte, j: nat)
    requires j < 8
    ensures BitsOfByte(b)[j] <==> HasBit(Widen(b), j)
  {
    hide BitsOfHalf, WidenHalf, HasBit;
    var high, low := b / 16, b % 16;
    NarrowOfWidenHalf(high);
    NarrowOfWidenHalf(low);
    BitOfJoined(WidenHalf(high), WidenHalf(low), j);
    if j < 4 { BitOfHalf(high, j); } else { BitOfHalf(low, j - 4); }
  }

  lemma BitOfHalf(h: half, i: nat)
    requires i < 4
    ensures BitsOfHalf(h)[i] <==> HasBit(WidenHalf(h), i + 4)
  {
    hide BitsOfHalf, WidenHalf;
    BitsOfWidenHalf(h);
  }

  lemma BitOfXor(x: bv16, y: bv16, j: nat)
    requires j < 8
    ensures HasBit(Xor(x, y) & 0xFF, j) <==> HasBit(x, j) != HasBit(y, j)
  {
    MasksOfXor(x, y);
  }

  lemma MasksOfXor(x: bv16, y: bv16)
    ensures var z := (x ^ y) & 0xFF;
      && z & 0x80 == (x & 0x80) ^ (y & 0x80) && z & 0x40 == (x & 0x40) ^ (y & 0x40)
      && z & 0x20 == (x & 0x20) ^ (y & 0x20) && z & 0x10 == (x & 0x10) ^ (y & 0x10)
      && z & 8 == (x & 8) ^ (y & 8) && z & 4 == (x & 4) ^ (y & 4)
      && z & 2 == (x & 2) ^ (y & 2) && z & 1 == (x & 1) ^ (y & 1)
  {
  }
}
