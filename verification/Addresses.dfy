/** The address text of src/peer.cpp: "a.b.c.d:port" printed from bytes, and read back by
    splitting at ':' and '.' and converting decimals. Text is a string of bytes. */
module Addresses {
  import opened Bytes

  type Text = seq<byte>

  const NEWLINE: byte := 10
  const PLUS: byte := 43
  const MINUS: byte := 45
  const DOT: byte := 46
  const COLON: byte := 58

  // ----- Decimal numbers -----

  predicate IsDigit(c: byte) {
    48 <= c <= 57
  }

  predicate IsSpace(c: byte) {
    c == 32 || 9 <= c <= 13
  }

  predicate AllDigits(s: Text) {
    forall i :: 0 <= i < |s| ==> IsDigit(s[i])
  }

  /** `std::to_string` of a natural number. */
  function Decimal(n: nat): (s: Text)
    ensures s != [] && AllDigits(s)
  {
    if n < 10 then [48 + n] else Decimal(n / 10) + [48 + n % 10]
  }

  function DigitsValue(s: Text): nat
    requires AllDigits(s)
    decreases |s|
  {
    if s == [] then 0
    else
      assert IsDigit(s[|s| - 1]);
      var digit: nat := s[|s| - 1] - 48;
      10 * DigitsValue(s[..|s| - 1]) + digit
  }

  function SkipSpaces(s: Text): Text {
    if s != [] && IsSpace(s[0]) then SkipSpaces(s[1..]) else s
  }

  function LeadingDigits(s: Text): (n: nat)
    ensures n <= |s| && AllDigits(s[..n])
    ensures n < |s| ==> !IsDigit(s[n])
  {
    if s != [] && IsDigit(s[0]) then 1 + LeadingDigits(s[1..]) else 0
  }

  /** `std::stoi`: leading white space, an optional sign, then as many digits as there are; it
      throws when there are none or the number does not fit in 32 bits. */
  function Stoi(s: Text): Option<int> {
    var t := SkipSpaces(s);
    var signed := t != [] && (t[0] == PLUS || t[0] == MINUS);
    var negative := t != [] && t[0] == MINUS;
    var u := if signed then t[1..] else t;
    var n := LeadingDigits(u);
    if n == 0 then None
    else
      var v: int := DigitsValue(u[..n]);
      if negative then (if v > 0x8000_0000 then None else Some(-v))
      else (if v > 0x7FFF_FFFF then None else Some(v))
  }

  lemma {:induction false} DigitsOfDecimal(n: nat)
    ensures DigitsValue(Decimal(n)) == n
  {
    if n < 10 {
      assert Decimal(n)[..0] == [];
    } else {
      DigitsOfDecimal(n / 10);
      assert Decimal(n)[..|Decimal(n)| - 1] == Decimal(n / 10);
    }
  }

  lemma StoiOfDecimal(n: nat)
    requires n <= 0x7FFF_FFFF
    ensures Stoi(Decimal(n)) == Some(n)
  {
    var s := Decimal(n);
    DigitsOfDecimal(n);
    assert IsDigit(s[0]);
    assert LeadingDigits(s) == |s|;
    assert s[..|s|] == s;
  }

  // ----- Splitting -----

  /** The position of the first `c`, or the length if there is none. */
  function IndexOf(s: Text, c: byte): (k: nat)
    ensures k <= |s|
    ensures k < |s| ==> s[k] == c
    ensures forall i :: 0 <= i < k ==> s[i] != c
  {
    if s == [] || s[0] == c then 0 else 1 + IndexOf(s[1..], c)
  }

  lemma IndexOfFirst(s: Text, c: byte, k: nat)
    requires k <= |s| && (k < |s| ==> s[k] == c) && forall i :: 0 <= i < k ==> s[i] != c
    ensures IndexOf(s, c) == k
  {
  }

  // ----- Printing an address -----

  /** Every byte in decimal, each followed by a dot. */
  function Dots(v: seq<byte>): Text
    decreases |v|
  {
    if v == [] then [] else Dots(v[..|v| - 1]) + Decimal(v[|v| - 1]) + [DOT]
  }

  /** The bytes in decimal, with dots between them. */
  function Dotted(v: seq<byte>): Text {
    if v == [] then [] else Dots(v[..|v| - 1]) + Decimal(v[|v| - 1])
  }

  method BuildIp(ipVector: seq<byte>) returns (ip: Text)
    ensures ip == Dotted(ipVector)
  {
    hide Decimal;
    ip := [];
    for i := 0 to |ipVector|
      invariant ip == if i < |ipVector| || i == 0 then Dots(ipVector[..i]) else Dotted(ipVector)
    {
      ip := ip + Decimal(ipVector[i]);
      assert ipVector[..i + 1][..i] == ipVector[..i];
      if i < |ipVector| - 1 {
        ip := ip + [DOT];
      }
    }
  }

  function AddressText(ip: seq<byte>, port: u16): Text {
    Dotted(ip) + [COLON] + Decimal(port)
  }

  /** What the bootstrap stores: the port arrives in network order. */
  method ConvertIpPortVectorToIpPortString(ipVector: seq<byte>, portVector: seq<byte>) returns (s: Text)
    requires |portVector| >= 2
    ensures s == AddressText(ipVector, ReadBe16(portVector[..2]))
  {
    var ip := BuildIp(ipVector);
    s := ip + [COLON] + Decimal(ReadBe16(portVector[..2]));
  }

  // ----- Reading an address -----

  function PartBefore(s: Text, c: byte): (part: Text)
    ensures |part| <= |s|
  {
    s[..IndexOf(s, c)]
  }

  function RestAfter(s: Text, c: byte): (rest: Text)
    ensures s != [] ==> |rest| < |s|
  {
    var k := IndexOf(s, c);
    if k < |s| then s[k + 1..] else []
  }

  function Prepend(v: seq<byte>, tail: Option<seq<byte>>): Option<seq<byte>> {
    if tail.None? then None else Some(v + tail.value)
  }

  /** The numbers between the dots, each cut down to a byte; None where `std::stoi` throws. */
  function Octets(s: Text): Option<seq<byte>>
    decreases |s|
  {
    if s == [] then Some([])
    else
      var value := Stoi(PartBefore(s, DOT));
      if value.None? then None else Prepend([value.value % 256], Octets(RestAfter(s, DOT)))
  }

  method ConvertIpToVector(ip: Text) returns (r: Option<seq<byte>>)
    ensures r == Octets(ip)
  {
    hide Stoi, PartBefore, RestAfter;
    var ipVector: seq<byte> := [];
    var rest := ip;
    PrependNothing(Octets(ip));
    while rest != []
      invariant Octets(ip) == Prepend(ipVector, Octets(rest))
      decreases |rest|
    {
      var value := Stoi(PartBefore(rest, DOT));
      if value.None? {
        return None;
      }
      PrependTwice(ipVector, [value.value % 256], Octets(RestAfter(rest, DOT)));
      ipVector := ipVector + [value.value % 256];
      rest := RestAfter(rest, DOT);
    }
    r := Some(ipVector);
    assert ipVector + [] == ipVector;
  }

  lemma PrependNothing(tail: Option<seq<byte>>)
    ensures Prepend([], tail) == tail
  {
    if tail.Some? { assert [] + tail.value == tail.value; }
  }

  lemma PrependTwice(u: seq<byte>, v: seq<byte>, tail: Option<seq<byte>>)
    ensures Prepend(u, Prepend(v, tail)) == Prepend(u + v, tail)
  {
    if tail.Some? { assert u + (v + tail.value) == u + v + tail.value; }
  }

  function IpOf(s: Text): Option<seq<byte>> {
    Octets(PartBefore(s, COLON))
  }

  /** The text after the first colon, up to a line end; the whole text if there is no colon. */
  function PortText(s: Text): Text {
    var k := IndexOf(s, COLON);
    if k == |s| then s else s[k + 1..][..IndexOf(s[k + 1..], NEWLINE)]
  }

  method ConvertIpPortToIpVector(ipPort: Text) returns (r: Option<seq<byte>>)
    ensures r == IpOf(ipPort)
  {
    r := ConvertIpToVector(PartBefore(ipPort, COLON));
  }

  // ----- Round trip -----

  lemma DigitsHaveNo(s: Text, c: byte)
    requires AllDigits(s) && !IsDigit(c)
    ensures forall i :: 0 <= i < |s| ==> s[i] != c
  {
  }

  lemma PartOfDecimal(n: nat, rest: Text)
    ensures PartBefore(Decimal(n), DOT) == Decimal(n) && RestAfter(Decimal(n), DOT) == []
    ensures PartBefore(Decimal(n) + [DOT] + rest, DOT) == Decimal(n)
    ensures RestAfter(Decimal(n) + [DOT] + rest, DOT) == rest
  {
    hide Decimal, IndexOf;
    var d := Decimal(n);
    var s := d + [DOT] + rest;
    DigitsHaveNo(d, DOT);
    IndexOfFirst(d, DOT, |d|);
    assert forall i :: 0 <= i < |d| ==> s[i] == d[i];
    IndexOfFirst(s, DOT, |d|);
  }

  lemma OctetsStep(s: Text, b: byte)
    requires s != [] && Stoi(PartBefore(s, DOT)) == Some(b)
    ensures Octets(s) == Prepend([b], Octets(RestAfter(s, DOT)))
  {
    hide Stoi, PartBefore, RestAfter, Prepend;
    assert b % 256 == b;
  }

  lemma OctetsOfLast(b: byte)
    ensures Octets(Decimal(b)) == Some([b])
  {
    hide Decimal, Stoi, PartBefore, RestAfter, Octets;
    PartOfDecimal(b, []);
    StoiOfDecimal(b);
    OctetsStep(Decimal(b), b);
    NoOctets();
    assert [b] + [] == [b];
  }

  lemma OctetsOfNext(b: byte, rest: Text)
    ensures Octets(Decimal(b) + [DOT] + rest) == Prepend([b], Octets(rest))
  {
    hide Decimal, Stoi, PartBefore, RestAfter, Octets, Prepend;
    PartOfDecimal(b, rest);
    StoiOfDecimal(b);
    OctetsStep(Decimal(b) + [DOT] + rest, b);
  }

  lemma {:induction false} OctetsOfDots(v: seq<byte>, rest: Text)
    ensures Octets(Dots(v) + rest) == Prepend(v, Octets(rest))
    decreases |v|
  {
    hide Decimal, Octets, Prepend;
    if v == [] {
      assert Dots(v) + rest == rest;
      PrependNothing(Octets(rest));
    } else {
      var n := |v| - 1;
      var next := Decimal(v[n]) + [DOT] + rest;
      OctetsOfNext(v[n], rest);
      OctetsOfDots(v[..n], next);
      assert Dots(v) + rest == Dots(v[..n]) + next;
      PrependTwice(v[..n], [v[n]], Octets(rest));
      assert v == v[..n] + [v[n]];
    }
  }

  lemma OctetsOfDotted(v: seq<byte>)
    ensures Octets(Dotted(v)) == Some(v)
  {
    hide Decimal, Octets;
    if v == [] {
      NoOctets();
    } else {
      OctetsOfLast(v[|v| - 1]);
      OctetsOfDots(v[..|v| - 1], Decimal(v[|v| - 1]));
      assert v == v[..|v| - 1] + [v[|v| - 1]];
    }
  }

  /** What `asio::ip::make_address` accepts of a text without a colon: four numbers with dots
      between them, each as it would be printed. */
  predicate IsQuad(s: Text) {
    Octets(s).Some? && |Octets(s).value| == 4 && Dotted(Octets(s).value) == s
  }

  lemma QuadsArePrinted(s: Text)
    ensures IsQuad(s) <==> exists ip: seq<byte> :: |ip| == 4 && s == Dotted(ip)
  {
    hide Octets, Dotted;
    forall ip: seq<byte> | |ip| == 4 && s == Dotted(ip) ensures IsQuad(s) {
      OctetsOfDotted(ip);
    }
  }

  lemma NoOctets()
    ensures Octets([]) == Some([])
  {
  }

  lemma {:induction false} DotsHaveNo(v: seq<byte>, c: byte)
    requires !IsDigit(c) && c != DOT
    ensures forall i :: 0 <= i < |Dots(v)| ==> Dots(v)[i] != c
    decreases |v|
  {
    hide Decimal;
    if v != [] {
      DotsHaveNo(v[..|v| - 1], c);
      DigitsHaveNo(Decimal(v[|v| - 1]), c);
    }
  }

  lemma {:induction false} DottedHasNoColon(v: seq<byte>)
    ensures forall i :: 0 <= i < |Dotted(v)| ==> Dotted(v)[i] != COLON
  {
    hide Decimal;
    if v != [] {
      DotsHaveNo(v[..|v| - 1], COLON);
      DigitsHaveNo(Decimal(v[|v| - 1]), COLON);
    }
  }

  lemma ColonOfAddress(front: Text, rest: Text)
    requires forall i :: 0 <= i < |front| ==> front[i] != COLON
    ensures IndexOf(front + [COLON] + rest, COLON) == |front|
    ensures PartBefore(front + [COLON] + rest, COLON) == front
    ensures PortText(front + [COLON] + rest) == rest[..IndexOf(rest, NEWLINE)]
  {
    hide IndexOf;
    var s := front + [COLON] + rest;
    assert forall i :: 0 <= i < |front| ==> s[i] == front[i];
    IndexOfFirst(s, COLON, |front|);
    assert s[|front| + 1..] == rest;
  }

  /** Reading a printed address gives back its bytes and its port, whatever they are. */
  lemma AddressRoundTrip(ip: seq<byte>, port: u16)
    ensures IpOf(AddressText(ip, port)) == Some(ip)
    ensures Stoi(PortText(AddressText(ip, port))) == Some(port)
    ensures IndexOf(AddressText(ip, port), COLON) == |Dotted(ip)| < |AddressText(ip, port)|
  {
    hide Decimal, Dotted, Octets, Stoi, PartBefore, PortText;
    var digits := Decimal(port);
    DottedHasNoColon(ip);
    ColonOfAddress(Dotted(ip), digits);
    OctetsOfDotted(ip);
    DigitsHaveNo(digits, NEWLINE);
    IndexOfFirst(digits, NEWLINE, |digits|);
    assert digits[..|digits|] == digits;
    StoiOfDecimal(port);
  }

  /** No two addresses are printed alike. */
  lemma AddressTextInjective(a: seq<byte>, p: u16, b: seq<byte>, q: u16)
    requires AddressText(a, p) == AddressText(b, q)
    ensures a == b && p == q
  {
    hide AddressText, IpOf, Stoi, PortText;
    AddressRoundTrip(a, p);
    AddressRoundTrip(b, q);
  }

  /** The satellite prints an address by writing its four numbers out itself. */
  function SatelliteText(a: byte, b: byte, c: byte, d: byte, port: u16): Text {
    Decimal(a) + [DOT] + Decimal(b) + [DOT] + Decimal(c) + [DOT] + Decimal(d) + [COLON] + Decimal(port)
  }

  lemma SatellitePrintsAlike(a: byte, b: byte, c: byte, d: byte, port: u16)
    ensures SatelliteText(a, b, c, d, port) == AddressText([a, b, c, d], port)
  {
    hide Decimal;
    assert [a, b, c, d][..3] == [a, b, c] && [a, b, c][..2] == [a, b] && [a, b][..1] == [a] && [a][..0] == [];
    assert Dots([a]) == Decimal(a) + [DOT];
    assert Dots([a, b]) == Decimal(a) + [DOT] + Decimal(b) + [DOT];
    assert Dots([a, b, c]) == Decimal(a) + [DOT] + Decimal(b) + [DOT] + Decimal(c) + [DOT];
  }

  // ----- What printed and read numbers look like -----

  function Pow10(n: nat): (r: nat)
    ensures r > 0
  {
    if n == 0 then 1 else 10 * Pow10(n - 1)
  }

  /** Digits have decimal weights, the last one least. */
  lemma {:induction false} DigitsOfConcat(s: Text, t: Text)
    requires AllDigits(s) && AllDigits(t)
    ensures AllDigits(s + t) && DigitsValue(s + t) == DigitsValue(s) * Pow10(|t|) + DigitsValue(t)
    decreases |t|
  {
    AllDigitsOfConcat(s, t);
    if t == [] {
      assert s + t == s;
    } else {
      hide DigitsValue, AllDigits;
      var n := |t| - 1;
      AllDigitsOfFront(t);
      DigitsOfConcat(s, t[..n]);
      assert (s + t)[..|s| + n] == s + t[..n];
      LastDigit(t);
      LastDigit(s + t);
      TenTimes(DigitsValue(s), Pow10(n), DigitsValue(t[..n]), t[n] - 48);
    }
  }

  lemma AllDigitsOfFront(t: Text)
    requires AllDigits(t) && t != []
    ensures AllDigits(t[..|t| - 1])
  {
  }

  lemma LastDigit(t: Text)
    requires AllDigits(t) && t != []
    ensures AllDigits(t[..|t| - 1]) && t[|t| - 1] >= 48
    ensures DigitsValue(t) == 10 * DigitsValue(t[..|t| - 1]) + (t[|t| - 1] - 48)
  {
    assert IsDigit(t[|t| - 1]);
  }

  lemma AllDigitsOfConcat(s: Text, t: Text)
    requires AllDigits(s) && AllDigits(t)
    ensures AllDigits(s + t)
  {
  }

  lemma TenTimes(a: nat, b: nat, c: nat, d: int)
    ensures 10 * (a * b + c) + d == a * (10 * b) + (10 * c + d)
  {
  }

  lemma DigitsByExample()
    ensures DigitsValue([49, 50, 51]) == 123 && Decimal(123) == [49, 50, 51]
  {
    var s: Text := [49, 50, 51];
    assert s[..2] == [49, 50] && s[..2][..1] == [49] && s[..1][..0] == [];
    assert DigitsValue(s[..0]) == 0 && DigitsValue(s[..1]) == 1 && DigitsValue(s[..2]) == 12;
    assert Decimal(1) == [49] && Decimal(12) == [49, 50];
  }

  /** Numbers are printed without leading zeros. */
  lemma {:induction false} NoLeadingZero(n: nat)
    ensures Decimal(n)[0] == 48 <==> n == 0
    ensures n < 10 <==> |Decimal(n)| == 1
  {
    if n >= 10 { NoLeadingZero(n / 10); }
  }

  /** A number written without leading zeros is printed as it was written. */
  lemma {:induction false} DecimalOfDigits(s: Text)
    requires AllDigits(s) && s != [] && (|s| == 1 || s[0] != 48)
    ensures Decimal(DigitsValue(s)) == s
    ensures s[0] != 48 ==> DigitsValue(s) > 0
    decreases |s|
  {
    var n := |s| - 1;
    assert IsDigit(s[n]);
    if n == 0 {
      assert s[..0] == [] && DigitsValue(s) == s[0] - 48;
    } else {
      DecimalOfDigits(s[..n]);
      assert s == s[..n] + [s[n]];
    }
  }

  /** An address as it is printed: "127.0.0.1:8080". */
  lemma PrintedAddress()
    ensures AddressText([127, 0, 0, 1], 8080) == [49, 50, 55, 46, 48, 46, 48, 46, 49, 58, 56, 48, 56, 48]
  {
    SatellitePrintsAlike(127, 0, 0, 1, 8080);
    PrintedNumbers();
    hide AddressText, Decimal;
  }

  lemma PrintedNumbers()
    ensures Decimal(0) == [48] && Decimal(1) == [49]
    ensures Decimal(127) == [49, 50, 55] && Decimal(8080) == [56, 48, 56, 48]
  {
    assert Decimal(12) == [49, 50] && Decimal(80) == [56, 48] && Decimal(808) == [56, 48, 56];
  }

  lemma {:induction false} SpacesAreSkipped(spaces: Text, t: Text)
    requires (forall i :: 0 <= i < |spaces| ==> IsSpace(spaces[i])) && (t == [] || !IsSpace(t[0]))
    ensures SkipSpaces(spaces + t) == t
    decreases |spaces|
  {
    if spaces == [] {
      assert spaces + t == t;
    } else {
      assert (spaces + t)[1..] == spaces[1..] + t;
      SpacesAreSkipped(spaces[1..], t);
    }
  }

  lemma {:induction false} DigitsEnd(digits: Text, rest: Text)
    requires AllDigits(digits) && (rest == [] || !IsDigit(rest[0]))
    ensures LeadingDigits(digits + rest) == |digits|
    decreases |digits|
  {
    if digits == [] {
      assert digits + rest == rest;
    } else {
      assert IsDigit(digits[0]) && (digits + rest)[1..] == digits[1..] + rest;
      DigitsEnd(digits[1..], rest);
    }
  }

  /** `std::stoi` on any text, taken apart: white space, a sign or none, digits, and the rest,
      which does not matter. It throws without digits or beyond 32 bits. */
  lemma StoiReads(spaces: Text, sign: Text, digits: Text, rest: Text)
    requires forall i :: 0 <= i < |spaces| ==> IsSpace(spaces[i])
    requires (sign == [] || sign == [43] || sign == [45]) && AllDigits(digits)
    requires rest != [] ==> !IsDigit(rest[0])
    requires sign == [] && digits == [] && rest != [] ==> !IsSpace(rest[0]) && rest[0] != 43 && rest[0] != 45
    ensures var v: int := DigitsValue(digits);
      Stoi(spaces + sign + digits + rest) ==
        if digits == [] then None
        else if sign == [45] then (if v <= 2147483648 then Some(-v) else None)
        else if v <= 2147483647 then Some(v) else None
  {
    hide SkipSpaces, LeadingDigits, DigitsValue, Stoi, IsSpace, AllDigits;
    var s, t := spaces + sign + digits + rest, sign + digits + rest;
    assert s == spaces + t;
    FirstIsNoSpace(sign, digits, rest);
    SpacesAreSkipped(spaces, t);
    DigitsEnd(digits, rest);
    if sign == [] {
      assert t == digits + rest;
      FirstIsNoSign(digits, rest);
      StoiUnsigned(s, digits, rest);
    } else {
      assert t == sign + (digits + rest);
      StoiSigned(s, sign[0], digits, rest);
    }
  }

  lemma FirstIsNoSign(digits: Text, rest: Text)
    requires AllDigits(digits) && (digits == [] && rest != [] ==> rest[0] != 43 && rest[0] != 45)
    ensures var t := digits + rest; t != [] ==> t[0] != 43 && t[0] != 45
  {
    if digits != [] { assert IsDigit(digits[0]); }
  }

  lemma StoiUnsigned(s: Text, digits: Text, rest: Text)
    requires SkipSpaces(s) == digits + rest && LeadingDigits(digits + rest) == |digits| && AllDigits(digits)
    requires var t := digits + rest; t != [] ==> t[0] != 43 && t[0] != 45
    ensures var v: int := DigitsValue(digits);
      Stoi(s) == if digits == [] || v > 2147483647 then None else Some(v)
  {
    hide SkipSpaces, LeadingDigits, DigitsValue;
    assert (digits + rest)[..|digits|] == digits;
  }

  lemma StoiSigned(s: Text, sign: byte, digits: Text, rest: Text)
    requires (sign == 43 || sign == 45) && AllDigits(digits)
    requires SkipSpaces(s) == [sign] + (digits + rest) && LeadingDigits(digits + rest) == |digits|
    ensures var v: int := DigitsValue(digits);
      Stoi(s) ==
        if digits == [] then None
        else if sign == 45 then (if v > 2147483648 then None else Some(-v))
        else (if v > 2147483647 then None else Some(v))
  {
    hide SkipSpaces, LeadingDigits, DigitsValue;
    var t := [sign] + (digits + rest);
    assert t[1..] == digits + rest && (digits + rest)[..|digits|] == digits;
  }

  /** All six white-space characters are skipped, and nothing else is. */
  lemma SpacesByExample()
    ensures Stoi([9, 10, 11, 12, 13, 32, 55]) == Some(7)
    ensures Stoi([8, 55]) == None && Stoi([14, 55]) == None && Stoi([31, 55]) == None && Stoi([33, 55]) == None
  {
    hide Stoi, SkipSpaces, LeadingDigits;
    var spaces: Text := [9, 10, 11, 12, 13, 32];
    StoiReads(spaces, [], [55], []);
    assert spaces + [] + [55] + [] == [9, 10, 11, 12, 13, 32, 55];
    assert DigitsValue([55]) == 7 by { assert [55][..0] == []; }
    StoiReads([], [], [], [8, 55]);
    StoiReads([], [], [], [14, 55]);
    StoiReads([], [], [], [31, 55]);
    StoiReads([], [], [], [33, 55]);
    assert [] + [] + [] + [8, 55] == [8, 55] && [] + [] + [] + [14, 55] == [14, 55];
    assert [] + [] + [] + [31, 55] == [31, 55] && [] + [] + [] + [33, 55] == [33, 55];
  }

  lemma FirstIsNoSpace(sign: Text, digits: Text, rest: Text)
    requires (sign == [] || sign == [43] || sign == [45]) && AllDigits(digits)
    requires sign == [] && digits == [] && rest != [] ==> !IsSpace(rest[0])
    ensures var t := sign + digits + rest; t == [] || !IsSpace(t[0])
  {
    if sign == [] && digits != [] { assert IsDigit(digits[0]); }
  }

  /** A number of any size is cut down to a byte, and text that is no number fails. */
  lemma OctetCutsDown(n: nat, rest: Text)
    requires n <= 2147483647
    ensures Octets(Decimal(n) + [46] + rest) == Prepend([n % 256], Octets(rest))
    ensures Octets(Decimal(n)) == Some([n % 256])
    ensures Octets([46] + rest) == None
  {
    hide Decimal, Octets, Prepend, Stoi, PartBefore, RestAfter;
    PartOfDecimal(n, rest);
    StoiOfDecimal(n);
    OctetsNext(Decimal(n) + [46] + rest);
    OctetsNext(Decimal(n));
    NoOctets();
    PrependLast([n % 256]);
    EmptyPart(rest);
    OctetsNext([46] + rest);
  }

  lemma OctetsNext(s: Text)
    requires s != []
    ensures Octets(s) == match Stoi(PartBefore(s, DOT))
      case None => None
      case Some(v) => Prepend([v % 256], Octets(RestAfter(s, DOT)))
  {
    hide Stoi, PartBefore, RestAfter, Prepend;
  }

  lemma PrependLast(v: seq<byte>)
    ensures Prepend(v, Some([])) == Some(v)
  {
    assert v + [] == v;
  }

  lemma EmptyPart(rest: Text)
    ensures Stoi(PartBefore([46] + rest, DOT)) == None
  {
    assert PartBefore([46] + rest, DOT) == [];
    StoiReads([], [], [], []);
  }

  /** Text without a colon is taken for the port as a whole; a line end cuts the port off. */
  lemma PortOfText(front: Text, port: Text, more: Text)
    requires (forall i :: 0 <= i < |front| ==> front[i] != 58) && forall i :: 0 <= i < |port| ==> port[i] != 10
    ensures PortText(front) == front
    ensures PortText(front + [58] + port) == port && PortText(front + [58] + (port + [10] + more)) == port
  {
    hide IndexOf;
    IndexOfFirst(front, COLON, |front|);
    ColonOfAddress(front, port);
    IndexOfFirst(port, NEWLINE, |port|);
    assert port[..|port|] == port;
    var rest := port + [10] + more;
    assert forall i :: 0 <= i < |port| ==> rest[i] == port[i];
    ColonOfAddress(front, rest);
    IndexOfFirst(rest, NEWLINE, |port|);
    assert rest[..|port|] == port;
  }
}
