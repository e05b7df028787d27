/** Bytes and the memory layout of the integer fields. */
module Bytes {

  type byte = n: nat | n < 0x100
  type u16 = n: nat | n < 0x1_0000
  type u32 = n: nat | n < 0x1_0000_0000
  type u64 = n: nat | n < 0x1_0000_0000_0000_0000

  datatype Option<+T> = None | Some(value: T)

  /** How many values fit in `width` bytes. */
  function Pow256(width: nat): (r: nat)
    ensures r > 0
    decreases width
  {
    if width == 0 then 1 else 256 * Pow256(width - 1)
  }

  /** The memory image of an unsigned integer: `width` bytes, least significant first. */
  function Le(n: nat, width: nat): (s: seq<byte>)
    ensures |s| == width
  {
    if width == 0 then [] else [n % 256] + Le(n / 256, width - 1)
  }

  /** The unsigned integer whose memory image is `s`. */
  function UnLe(s: seq<byte>): nat
  {
    if s == [] then 0 else s[0] + 256 * UnLe(s[1..])
  }

  lemma {:induction false} UnLeBound(s: seq<byte>)
    ensures UnLe(s) < Pow256(|s|)
  {
    if s != [] {
      UnLeBound(s[1..]);
    }
  }

  lemma {:induction false} UnLeOfLe(n: nat, width: nat)
    requires n < Pow256(width)
    ensures UnLe(Le(n, width)) == n
  {
    if width != 0 {
      UnLeOfLe(n / 256, width - 1);
      assert Le(n, width)[1..] == Le(n / 256, width - 1);
    }
  }

  lemma {:induction false} LeOfUnLe(s: seq<byte>)
    ensures Le(UnLe(s), |s|) == s
  {
    if s != [] {
      LeOfUnLe(s[1..]);
      assert UnLe(s) % 256 == s[0] && UnLe(s) / 256 == UnLe(s[1..]);
    }
  }

  /** Reading a 2-, 4- or 8-byte field. */
  function ReadU16(s: seq<byte>): u16
    requires |s| == 2
  {
    UnLeBound(s);
    UnLe(s)
  }

  function ReadU32(s: seq<byte>): u32
    requires |s| == 4
  {
    UnLeBound(s);
    UnLe(s)
  }

  function ReadU64(s: seq<byte>): u64
    requires |s| == 8
  {
    UnLeBound(s);
    UnLe(s)
  }

  lemma ReadBack16(n: u16)
    ensures ReadU16(Le(n, 2)) == n
  {
    UnLeOfLe(n, 2);
  }

  lemma ReadBack32(n: u32)
    ensures ReadU32(Le(n, 4)) == n
  {
    UnLeOfLe(n, 4);
  }

  lemma ReadBack64(n: u64)
    ensures ReadU64(Le(n, 8)) == n
  {
    UnLeOfLe(n, 8);
  }

  /** Network order: a 16-bit port, most significant byte first. */
  function Be16(n: u16): (s: seq<byte>)
    ensures |s| == 2
  {
    [n / 256, n % 256]
  }

  function ReadBe16(s: seq<byte>): u16
    requires |s| == 2
  {
    var high: nat := s[0];
    256 * high + s[1]
  }

  lemma Be16RoundTrip(n: u16, s: seq<byte>)
    requires |s| == 2
    ensures ReadBe16(Be16(n)) == n
    ensures Be16(ReadBe16(s)) == s
  {
    var m := ReadBe16(s);
    assert m / 256 == s[0] && m % 256 == s[1];
  }

  lemma DivideTwice(n: nat, m: nat)
    requires m > 0
    ensures n / 256 / m == n / (256 * m)
  {
    var q, r := n / 256 / m, n / 256 % m;
    assert n / 256 == m * q + r;
    assert n == 256 * (m * q + r) + n % 256;
    var s := 256 * r + n % 256;
    assert n == (256 * m) * q + s;
    assert s < 256 * m by { assert r <= m - 1; }
    QuotientIs(n, 256 * m, q, s);
  }

  lemma QuotientIs(n: nat, d: nat, q: nat, r: nat)
    requires d > 0 && n == d * q + r && r < d
    ensures n / d == q
  {
    var k := n / d;
    assert n == d * k + n % d;
    if k < q {
      ProductGrows(d, k + 1, q);
    } else if k > q {
      ProductGrows(d, q + 1, k);
    }
  }

  lemma ProductGrows(d: nat, a: nat, b: nat)
    requires a <= b
    ensures d * a <= d * b
  {
  }

  /** Byte `i` of an image has weight 256^i: the least significant byte comes first. */
  lemma {:induction false} LeByte(n: nat, width: nat, i: nat)
    requires i < width
    ensures Le(n, width)[i] == n / Pow256(i) % 256
  {
    if i == 0 {
      assert Pow256(0) == 1;
    } else {
      LeByte(n / 256, width - 1, i - 1);
      DivideTwice(n, Pow256(i - 1));
    }
  }

  /** The byte orders by example: little-endian fields, ports in network order. */
  lemma ByteOrders()
    ensures Le(0x0201, 2) == [0x01, 0x02] && Le(0x0403_0201, 4) == [0x01, 0x02, 0x03, 0x04]
    ensures UnLe([0x01, 0x02]) == 0x0201 && UnLe([0x01, 0x02, 0x03, 0x04]) == 0x0403_0201
    ensures Be16(0x0102) == [0x01, 0x02] && ReadBe16([0x01, 0x02]) == 0x0102
  {
    assert UnLe([0x04]) == 0x04;
    assert UnLe([0x03, 0x04]) == 0x0403;
    assert UnLe([0x02, 0x03, 0x04]) == 0x04_0302;
    assert [0x01, 0x02, 0x03, 0x04][1..] == [0x02, 0x03, 0x04];
    assert [0x02, 0x03, 0x04][1..] == [0x03, 0x04] && [0x03, 0x04][1..] == [0x04];
    assert UnLe([0x02]) == 0x02 && [0x01, 0x02][1..] == [0x02];
  }

  function Zeros(n: nat): (s: seq<byte>)
    ensures |s| == n && forall i :: 0 <= i < n ==> s[i] == 0
  {
    if n == 0 then [] else [0] + Zeros(n - 1)
  }

  /** Overwrites part of a buffer. */
  method CopyInto(a: array<byte>, offset: nat, bytes: seq<byte>)
    requires offset + |bytes| <= a.Length
    modifies a
    ensures a[..] == old(a[..offset]) + bytes + old(a[offset + |bytes|..])
    ensures a[..offset + |bytes|] == old(a[..offset]) + bytes
  {
    forall i | 0 <= i < |bytes| {
      a[offset + i] := bytes[i];
    }
  }
}
