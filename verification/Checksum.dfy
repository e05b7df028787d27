/** The checksum of src/packet.cpp: polynomial 0x8005, initial value 0xFFFF, most significant
    bit first, no final xor. The byte-wise loop is related to the bit-serial register that
    defines the code. */
module Checksum {
  import opened Bytes
  import opened Bits

  const INITIAL: bv16 := 0xFFFF

  /** One turn of the inner loop: multiplication by x modulo x^16 + x^15 + x^2 + 1. */
  function Step(s: bv16): bv16 {
    if s & 0x8000 != 0 then (s << 1) ^ 0x8005 else s << 1
  }

  function StepN(s: bv16, n: nat): bv16
    decreases n
  {
    if n == 0 then s else Step(StepN(s, n - 1))
  }

  /** The register after one more byte, as the byte-wise loop computes it. */
  function Absorb(s: bv16, b: byte): bv16 {
    StepN(Xor(s, Widen(b) << 8), 8)
  }

  function CrcFrom(s: bv16, buffer: seq<byte>): bv16
    decreases |buffer|
  {
    if buffer == [] then s
    else Absorb(CrcFrom(s, buffer[..|buffer| - 1]), buffer[|buffer| - 1])
  }

  function Crc(buffer: seq<byte>): bv16 {
    CrcFrom(INITIAL, buffer)
  }

  method Crc16(buffer: seq<byte>) returns (crc: bv16)
    ensures crc == Crc(buffer)
  {
    crc := INITIAL;
    for k := 0 to |buffer|
      invariant crc == CrcFrom(INITIAL, buffer[..k])
    {
      crc := AbsorbByte(crc, buffer[k]);
      assert buffer[..k + 1][..k] == buffer[..k];
    }
    assert buffer[..|buffer|] == buffer;
  }

  method AbsorbByte(s: bv16, b: byte) returns (crc: bv16)
    ensures crc == Absorb(s, b)
  {
    hide Widen, Step;
    crc := s ^ (Widen(b) << 8);
    ghost var entry := crc;
    for i := 0 to 8
      invariant crc == StepN(entry, i)
    {
      crc := Turn(crc);
    }
  }

  method Turn(s: bv16) returns (crc: bv16)
    ensures crc == Step(s)
  {
    crc := s;
    if crc & 0x8000 != 0 {
      crc := (crc << 1) ^ 0x8005;
    } else {
      crc := crc << 1;
    }
  }

  // ----- The two trailer bytes -----

  function Trailer(crc: bv16): (s: seq<byte>)
    ensures |s| == 2
  {
    [Narrow(crc >> 8), Narrow(crc)]
  }

  /** The receiver's reading of the trailer. */
  function Received(high: byte, low: byte): bv16 {
    (Widen(high) << 8) | Widen(low)
  }

  lemma ReceivedTrailer(crc: bv16, high: byte, low: byte)
    ensures Received(Trailer(crc)[0], Trailer(crc)[1]) == crc
    ensures Trailer(Received(high, low)) == [high, low]
  {
    hide Widen, Narrow;
    WidenOfNarrow(crc >> 8);
    WidenOfNarrow(crc);
    NarrowOfWiden(high);
    NarrowOfWiden(low);
    LowByteOnly(Received(high, low), Widen(low));
    JoinedBytes(Widen(high), Widen(low));
  }

  lemma JoinedBytes(high: bv16, low: bv16)
    requires high & 0xFF00 == 0 && low & 0xFF00 == 0
    ensures ((high << 8) | low) >> 8 == high
    ensures ((high << 8) | low) & 0xFF == low & 0xFF
    ensures (high << 8) | low == (high << 8) ^ low
  {
  }

  lemma LowByteOnly(x: bv16, y: bv16)
    requires x & 0xFF == y & 0xFF
    ensures Narrow(x) == Narrow(y)
  {
    NarrowValue(x);
    NarrowValue(y);
  }

  // ----- The step is an invertible linear map -----

  lemma ShiftOfXor(a: bv16, b: bv16)
    ensures (a ^ b) << 1 == (a << 1) ^ (b << 1)
    ensures (a ^ b) & 0x8000 == (a & 0x8000) ^ (b & 0x8000)
  {
  }

  lemma TopBit(a: bv16)
    ensures a & 0x8000 == 0 || a & 0x8000 == 0x8000
  {
  }

  lemma StepOfXor(a: bv16, b: bv16)
    ensures Step(Xor(a, b)) == Xor(Step(a), Step(b))
  {
    ShiftOfXor(a, b);
    TopBit(a);
    TopBit(b);
  }

  lemma StepZeroOnly(s: bv16)
    ensures Step(s) == 0 <==> s == 0
  {
  }

  lemma {:induction false} StepNOfXor(a: bv16, b: bv16, n: nat)
    ensures StepN(Xor(a, b), n) == Xor(StepN(a, n), StepN(b, n))
  {
    hide Step, Xor;
    if n != 0 {
      StepNOfXor(a, b, n - 1);
      StepOfXor(StepN(a, n - 1), StepN(b, n - 1));
    }
  }

  lemma {:induction false} StepNZeroOnly(s: bv16, n: nat)
    ensures StepN(s, n) == 0 <==> s == 0
  {
    hide Step;
    if n != 0 {
      StepNZeroOnly(s, n - 1);
      StepZeroOnly(StepN(s, n - 1));
    }
  }

  lemma {:induction false} StepNSum(s: bv16, m: nat, n: nat)
    ensures StepN(StepN(s, m), n) == StepN(s, m + n)
  {
    hide Step;
    if n != 0 {
      StepNSum(s, m, n - 1);
    }
  }

  lemma StepNInjective(a: bv16, b: bv16, n: nat)
    requires StepN(a, n) == StepN(b, n)
    ensures a == b
  {
    hide StepN, Xor;
    StepNOfXor(a, b, n);
    XorIsZero(StepN(a, n), StepN(b, n));
    StepNZeroOnly(Xor(a, b), n);
    XorIsZero(a, b);
  }

  // ----- The bit-serial register -----

  /** The register fed one bit at a time. */
  function Serial(s: bv16, w: seq<bool>): bv16
    decreases |w|
  {
    if w == [] then s else Serial(Step(Xor(s, Pick(w[0], 0x8000))), w[1..])
  }

  /** The bits of a buffer in transmission order. */
  function BitsOf(buffer: seq<byte>): (w: seq<bool>)
    ensures |w| == 8 * |buffer|
    decreases |buffer|
  {
    if buffer == [] then [] else BitsOf(buffer[..|buffer| - 1]) + BitsOfByte(buffer[|buffer| - 1])
  }

  function Halve(x: bv16): bv16 {
    x >> 1
  }

  /** At most 16 bits as the top bits of a word. */
  function Align(w: seq<bool>): bv16
    decreases |w|
  {
    if w == [] then 0 else Xor(Pick(w[0], 0x8000), Halve(Align(w[1..])))
  }

  function LowMask(n: nat): bv16
    decreases n
  {
    if n == 0 then 0 else (LowMask(n - 1) << 1) | 1
  }

  lemma MaskHalves(x: bv16, m: bv16)
    ensures x & ((m << 1) | 1) == 0 ==> x & 1 == 0 && (x >> 1) & m == 0
  {
  }

  lemma MaskedPick(c: bool, x: bv16, m: bv16)
    requires x & ((m << 1) | 1) == 0 && m & 0x8000 == 0
    ensures Xor(Pick(c, 0x8000), Halve(x)) & m == 0
  {
  }

  lemma LowMaskTable()
    ensures LowMask(16) & 0x8000 != 0
    ensures forall n :: 0 <= n < 16 ==> LowMask(n) & 0x8000 == 0
  {
    assert LowMask(1) == 1 && LowMask(2) == 3 && LowMask(3) == 7 && LowMask(4) == 0xF;
    assert LowMask(5) == 0x1F && LowMask(6) == 0x3F && LowMask(7) == 0x7F && LowMask(8) == 0xFF;
    assert LowMask(9) == 0x1FF && LowMask(10) == 0x3FF && LowMask(11) == 0x7FF && LowMask(12) == 0xFFF;
    assert LowMask(13) == 0x1FFF && LowMask(14) == 0x3FFF && LowMask(15) == 0x7FFF && LowMask(16) == 0xFFFF;
  }

  lemma {:induction false} AlignFillsTheTop(w: seq<bool>)
    requires |w| <= 16
    ensures Align(w) & LowMask(16 - |w|) == 0
  {
    if w == [] {
    } else {
      hide Xor, Pick, Halve;
      AlignFillsTheTop(w[1..]);
      LowMaskTable();
      MaskedPick(w[0], Align(w[1..]), LowMask(16 - |w|));
    }
  }

  lemma AlignIsEven(w: seq<bool>)
    requires |w| < 16
    ensures Align(w) & 1 == 0
  {
    AlignFillsTheTop(w);
    MaskHalves(Align(w), LowMask(15 - |w|));
  }

  /** A step undoes a right shift that loses nothing. */
  lemma StepOfHalf(w: seq<bool>)
    requires |w| < 16
    ensures Step(Halve(Align(w))) == Align(w)
  {
    hide Align;
    AlignIsEven(w);
  }

  /** Feeding at most 16 bits one by one is one exclusive or followed by that many steps. */
  lemma {:induction false} SerialOfFew(s: bv16, w: seq<bool>)
    requires |w| <= 16
    ensures Serial(s, w) == StepN(Xor(s, Align(w)), |w|)
    decreases |w|
  {
    hide Xor, Step, Pick, Halve;
    if w == [] {
      XorZero(s);
    } else {
      var top, rest := Pick(w[0], 0x8000), Halve(Align(w[1..]));
      SerialOfFew(Step(Xor(s, top)), w[1..]);
      StepOfHalf(w[1..]);
      StepOfXor(Xor(s, top), rest);
      XorAssociates(s, top, rest);
      StepNFirst(Xor(s, Align(w)), |w|);
    }
  }

  lemma StepNFirst(s: bv16, n: nat)
    requires n > 0
    ensures StepN(s, n) == StepN(Step(s), n - 1)
  {
    StepNSum(s, 1, n - 1);
    assert StepN(s, 0) == s;
  }

  /** Four leading bits put on top of what follows them. */
  function OnTop(a: bool, b: bool, c: bool, d: bool, r: bv16): bv16 {
    ((Pick(a, 8) ^ Pick(b, 4) ^ Pick(c, 2) ^ Pick(d, 1)) << 12) ^ (r >> 4)
  }

  lemma FourShifts(a: bool, b: bool, c: bool, d: bool, r: bv16)
    ensures Xor(Pick(a, 0x8000), Halve(Xor(Pick(b, 0x8000), Halve(Xor(Pick(c, 0x8000),
              Halve(Xor(Pick(d, 0x8000), Halve(r)))))))) == OnTop(a, b, c, d, r)
  {
    assert Pick(a, 0x8000) ^ ((Pick(b, 0x8000) ^ ((Pick(c, 0x8000) ^ ((Pick(d, 0x8000) ^ (r >> 1)) >> 1)) >> 1)) >> 1)
        == OnTop(a, b, c, d, r);
  }

  lemma AlignOfFour(w: seq<bool>)
    requires |w| >= 4
    ensures Align(w) == OnTop(w[0], w[1], w[2], w[3], Align(w[4..]))
  {
    hide Xor, Pick, OnTop, Halve;
    assert w[1..][1..] == w[2..] && w[2..][1..] == w[3..] && w[3..][1..] == w[4..];
    FourShifts(w[0], w[1], w[2], w[3], Align(w[4..]));
    assert Align(w[3..]) == Xor(Pick(w[3], 0x8000), Halve(Align(w[4..])));
    assert Align(w[2..]) == Xor(Pick(w[2], 0x8000), Halve(Align(w[3..])));
  }

  lemma TwoHalves(high: half, low: half, r: bv16)
    ensures var h, l := BitsOfHalf(high), BitsOfHalf(low);
      OnTop(h[0], h[1], h[2], h[3], OnTop(l[0], l[1], l[2], l[3], r))
      == (((WidenHalf(high) << 4) ^ WidenHalf(low)) << 8) ^ (r >> 8)
  {
    hide BitsOfHalf;
  }

  lemma AlignOfByteAndMore(b: byte, w: seq<bool>)
    ensures Align(BitsOfByte(b) + w) == (Widen(b) << 8) ^ (Align(w) >> 8)
  {
    hide BitsOfHalf, WidenHalf, OnTop, Align;
    var v := BitsOfByte(b) + w;
    AlignOfFour(v);
    AlignOfFour(v[4..]);
    assert v[4..][4..] == w;
    TwoHalves(b / 16, b % 16, Align(w));
  }

  lemma AlignOfByte(b: byte)
    ensures Align(BitsOfByte(b)) == Widen(b) << 8
  {
    hide BitsOfByte, Widen;
    AlignOfByteAndMore(b, []);
    assert BitsOfByte(b) + [] == BitsOfByte(b);
  }

  /** The sixteen bits of a trailer, read as a word. */
  lemma AlignOfTrailer(high: byte, low: byte)
    ensures Align(BitsOfByte(high) + BitsOfByte(low)) == Received(high, low)
  {
    hide BitsOfByte, Widen, Align, Narrow, Received;
    AlignOfByteAndMore(high, BitsOfByte(low));
    AlignOfByte(low);
    ReceivedIsJoin(high, low, Align(BitsOfByte(low)));
  }

  lemma ReceivedIsJoin(high: byte, low: byte, x: bv16)
    requires x == Widen(low) << 8
    ensures (Widen(high) << 8) ^ (x >> 8) == Received(high, low)
  {
    hide Widen, Narrow;
    NarrowOfWiden(high);
    NarrowOfWiden(low);
    ShiftedBack(Widen(high), Widen(low));
  }

  lemma ShiftedBack(high: bv16, low: bv16)
    requires high & 0xFF00 == 0 && low & 0xFF00 == 0
    ensures (high << 8) ^ ((low << 8) >> 8) == (high << 8) | low
  {
  }

  // ----- The byte-wise loop is the bit-serial register -----

  lemma {:induction false} SerialOfConcat(s: bv16, u: seq<bool>, v: seq<bool>)
    ensures Serial(s, u + v) == Serial(Serial(s, u), v)
    decreases |u|
  {
    hide Xor, Step, Pick;
    if u == [] {
      assert u + v == v;
    } else {
      assert (u + v)[1..] == u[1..] + v;
      SerialOfConcat(Step(Xor(s, Pick(u[0], 0x8000))), u[1..], v);
    }
  }

  lemma AbsorbIsSerial(s: bv16, b: byte)
    ensures Absorb(s, b) == Serial(s, BitsOfByte(b))
  {
    hide Xor, Widen, StepN, Serial, Align, BitsOfByte;
    SerialOfFew(s, BitsOfByte(b));
    AlignOfByte(b);
  }

  lemma {:induction false} CrcIsSerial(s: bv16, buffer: seq<byte>)
    ensures CrcFrom(s, buffer) == Serial(s, BitsOf(buffer))
    decreases |buffer|
  {
    hide Absorb, BitsOfByte;
    if buffer != [] {
      var n := |buffer| - 1;
      CrcIsSerial(s, buffer[..n]);
      AbsorbIsSerial(CrcFrom(s, buffer[..n]), buffer[n]);
      SerialOfConcat(s, BitsOf(buffer[..n]), BitsOfByte(buffer[n]));
    }
  }

  // ----- The check value -----

  /** Two turns at a time keep the arithmetic small. */
  function Turns2(s: bv16): bv16 {
    Step(Step(s))
  }

  lemma AbsorbInTurns(s: bv16, b: byte)
    ensures Absorb(s, b) == Turns2(Turns2(Turns2(Turns2(Xor(s, Widen(b) << 8)))))
  {
    hide Step, Xor, Widen;
    var x := Xor(s, Widen(b) << 8);
    assert StepN(x, 2) == Turns2(x);
    StepNSum(x, 2, 2);
    assert StepN(StepN(x, 2), 2) == Turns2(StepN(x, 2));
    StepNSum(x, 4, 2);
    assert StepN(StepN(x, 4), 2) == Turns2(StepN(x, 4));
    StepNSum(x, 6, 2);
    assert StepN(StepN(x, 6), 2) == Turns2(StepN(x, 6));
  }

  lemma CheckByte1()
    ensures Absorb(0xFFFF, 49) == 0x7DA7
  {
    assert Xor(0xFFFF, Widen(49) << 8) == 0xCEFF by { assert Widen(49) == 0x31; }
    assert Turns2(0xCEFF) == 0x3BF6 && Turns2(0x3BF6) == 0xEFD8;
    assert Turns2(0xEFD8) == 0xBF6A && Turns2(0xBF6A) == 0x7DA7;
    hide *;
    AbsorbInTurns(0xFFFF, 49);
  }

  lemma CheckByte2()
    ensures Absorb(0x7DA7, 50) == 0x26A1
  {
    assert Xor(0x7DA7, Widen(50) << 8) == 0x4FA7 by { assert Widen(50) == 0x32; }
    assert Turns2(0x4FA7) == 0xBE99 && Turns2(0xBE99) == 0x7A6B;
    assert Turns2(0x7A6B) == 0x69A9 && Turns2(0x69A9) == 0x26A1;
    hide *;
    AbsorbInTurns(0x7DA7, 50);
  }

  lemma CheckByte3()
    ensures Absorb(0x26A1, 51) == 0x217D
  {
    assert Xor(0x26A1, Widen(51) << 8) == 0x15A1 by { assert Widen(51) == 0x33; }
    assert Turns2(0x15A1) == 0x5684 && Turns2(0x5684) == 0xDA15;
    assert Turns2(0xDA15) == 0x685E && Turns2(0x685E) == 0x217D;
    hide *;
    AbsorbInTurns(0x26A1, 51);
  }

  lemma CheckByte4()
    ensures Absorb(0x217D, 52) == 0xFD7D
  {
    assert Xor(0x217D, Widen(52) << 8) == 0x157D by { assert Widen(52) == 0x34; }
    assert Turns2(0x157D) == 0x55F4 && Turns2(0x55F4) == 0xD7D5;
    assert Turns2(0xD7D5) == 0x5F5E && Turns2(0x5F5E) == 0xFD7D;
    hide *;
    AbsorbInTurns(0x217D, 52);
  }

  lemma CheckByte5()
    ensures Absorb(0xFD7D, 53) == 0xFFB3
  {
    assert Xor(0xFD7D, Widen(53) << 8) == 0xC87D by { assert Widen(53) == 0x35; }
    assert Turns2(0xC87D) == 0x21FE && Turns2(0x21FE) == 0x87F8;
    assert Turns2(0x87F8) == 0x9FEF && Turns2(0x9FEF) == 0xFFB3;
    hide *;
    AbsorbInTurns(0xFD7D, 53);
  }

  lemma CheckByte6()
    ensures Absorb(0xFFB3, 54) == 0xB1B6
  {
    assert Xor(0xFFB3, Widen(54) << 8) == 0xC9B3 by { assert Widen(54) == 0x36; }
    assert Turns2(0xC9B3) == 0x26C6 && Turns2(0x26C6) == 0x9B18;
    assert Turns2(0x9B18) == 0xEC6F && Turns2(0xEC6F) == 0xB1B6;
    hide *;
    AbsorbInTurns(0xFFB3, 54);
  }

  lemma CheckByte7()
    ensures Absorb(0xB1B6, 55) == 0x3517
  {
    assert Xor(0xB1B6, Widen(55) << 8) == 0x86B6 by { assert Widen(55) == 0x37; }
    assert Turns2(0x86B6) == 0x9AD7 && Turns2(0x9AD7) == 0xEB53;
    assert Turns2(0xEB53) == 0xAD46 && Turns2(0xAD46) == 0x3517;
    hide *;
    AbsorbInTurns(0xB1B6, 55);
  }

  lemma CheckByte8()
    ensures Absorb(0x3517, 56) == 0x972D
  {
    assert Xor(0x3517, Widen(56) << 8) == 0xD17 by { assert Widen(56) == 0x38; }
    assert Turns2(0xD17) == 0x345C && Turns2(0x345C) == 0xD170;
    assert Turns2(0xD170) == 0x45CA && Turns2(0x45CA) == 0x972D;
    hide *;
    AbsorbInTurns(0x3517, 56);
  }

  lemma CheckByte9()
    ensures Absorb(0x972D, 57) == 0xAEE7
  {
    assert Xor(0x972D, Widen(57) << 8) == 0xAE2D by { assert Widen(57) == 0x39; }
    assert Turns2(0xAE2D) == 0x38BB && Turns2(0x38BB) == 0xE2EC;
    assert Turns2(0xE2EC) == 0x8BBA && Turns2(0x8BBA) == 0xAEE7;
    hide *;
    AbsorbInTurns(0x972D, 57);
  }

  lemma CrcOfNext(buffer: seq<byte>, k: nat)
    requires k < |buffer|
    ensures Crc(buffer[..k + 1]) == Absorb(Crc(buffer[..k]), buffer[k])
  {
    hide Absorb;
    assert buffer[..k + 1][..k] == buffer[..k];
  }

  /** The check value under which this checksum is catalogued: that of the text "123456789". */
  lemma CheckValue()
    ensures Crc([49, 50, 51, 52, 53, 54, 55, 56, 57]) == 0xAEE7
  {
    hide Crc, Absorb;
    var text: seq<byte> := [49, 50, 51, 52, 53, 54, 55, 56, 57];
    CrcOfNothing();
    CheckByte1();
    CrcOfNext(text, 0);
    CheckByte2();
    CrcOfNext(text, 1);
    CheckByte3();
    CrcOfNext(text, 2);
    CheckByte4();
    CrcOfNext(text, 3);
    CheckByte5();
    CrcOfNext(text, 4);
    CheckByte6();
    CrcOfNext(text, 5);
    CheckByte7();
    CrcOfNext(text, 6);
    CheckByte8();
    CrcOfNext(text, 7);
    CheckByte9();
    CrcOfNext(text, 8);
    assert text[..0] == [] && text[..9] == text;
  }

  lemma CrcOfNothing()
    ensures Crc([]) == 0xFFFF
  {
  }
}
