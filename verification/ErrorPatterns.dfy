/** Which error patterns the checksum misses. An error pattern lists, in transmission order,
    the bits that differ; it is missed exactly when the register fed with it from 0 ends at 0. */
module ErrorPatterns {
  import opened Bits
  import opened Checksum
  import opened Order

  predicate Missed(e: seq<bool>) {
    Serial(0, e) == 0
  }

  predicate Silent(e: seq<bool>) {
    forall i :: 0 <= i < |e| ==> !e[i]
  }

  /** The positions at which two bit strings differ. */
  function Diff(u: seq<bool>, v: seq<bool>): (e: seq<bool>)
    requires |u| == |v|
    ensures |e| == |u| && forall i :: 0 <= i < |e| ==> e[i] == (u[i] != v[i])
  {
    seq(|u|, i requires 0 <= i < |u| => u[i] != v[i])
  }

  function Weight(e: seq<bool>): nat
    decreases |e|
  {
    if e == [] then 0 else Value(e[0], 1) + Weight(e[1..])
  }

  // ----- The register is linear in what it is fed -----

  lemma StepOfPick(a: bool, b: bool)
    ensures Pick(a != b, 0x8000) == Xor(Pick(a, 0x8000), Pick(b, 0x8000))
  {
  }

  lemma {:induction false} SerialOfDiff(s: bv16, t: bv16, u: seq<bool>, v: seq<bool>)
    requires |u| == |v|
    ensures Xor(Serial(s, u), Serial(t, v)) == Serial(Xor(s, t), Diff(u, v))
    decreases |u|
  {
    hide Xor, Step, Pick;
    if u == [] {
    } else {
      var a, b := Pick(u[0], 0x8000), Pick(v[0], 0x8000);
      SerialOfDiff(Step(Xor(s, a)), Step(Xor(t, b)), u[1..], v[1..]);
      assert Diff(u, v)[1..] == Diff(u[1..], v[1..]);
      StepOfPick(u[0], v[0]);
      StepOfXor(Xor(s, a), Xor(t, b));
      XorSwapsMiddle(s, a, t, b);
    }
  }

  lemma {:induction false} SerialOfSilent(s: bv16, e: seq<bool>)
    requires Silent(e)
    ensures Serial(s, e) == StepN(s, |e|)
    decreases |e|
  {
    hide Xor, Step;
    if e != [] {
      XorZero(s);
      SerialOfSilent(Step(s), e[1..]);
      StepNFirst(s, |e|);
    }
  }

  lemma SilentIsMissed(e: seq<bool>)
    requires Silent(e)
    ensures Missed(e)
  {
    hide Serial, StepN;
    SerialOfSilent(0, e);
    StepNZeroOnly(0, |e|);
  }

  /** Leading and trailing zeros do not matter. */
  lemma MissedInside(before: seq<bool>, e: seq<bool>, after: seq<bool>)
    requires Silent(before) && Silent(after)
    ensures Missed(before + e + after) <==> Missed(e)
  {
    hide Serial, StepN;
    SerialOfConcat(0, before + e, after);
    SerialOfConcat(0, before, e);
    SilentIsMissed(before);
    SerialOfSilent(Serial(0, e), after);
    StepNZeroOnly(Serial(0, e), |after|);
  }

  // ----- Bursts -----

  lemma NothingOnTop(c: bool, x: bv16)
    requires x & 1 == 0 && Xor(Pick(c, 0x8000), Halve(x)) == 0
    ensures !c && x == 0
  {
  }

  lemma {:induction false} AlignZeroOnly(w: seq<bool>)
    requires |w| <= 16 && Align(w) == 0
    ensures Silent(w)
    decreases |w|
  {
    hide Xor, Pick, Halve;
    if w != [] {
      AlignIsEven(w[1..]);
      NothingOnTop(w[0], Align(w[1..]));
      AlignZeroOnly(w[1..]);
      assert w == [w[0]] + w[1..];
    }
  }

  lemma ShortIsMissedOnlyIfSilent(w: seq<bool>)
    requires |w| <= 16 && Missed(w)
    ensures Silent(w)
  {
    hide Serial, StepN, Xor, Align;
    SerialOfFew(0, w);
    XorZero(Align(w));
    StepNZeroOnly(Align(w), |w|);
    AlignZeroOnly(w);
  }

  /** No non-zero error within 16 consecutive bits is missed, whatever the length. */
  lemma BurstIsCaught(e: seq<bool>, start: nat)
    requires forall i :: 0 <= i < |e| && e[i] ==> start <= i < start + 16
    requires !Silent(e)
    ensures !Missed(e)
  {
    hide Missed;
    var end := if start + 16 <= |e| then start + 16 else |e|;
    var window := e[start..end];
    assert e == e[..start] + window + e[end..];
    assert !Silent(window) by {
      var i :| 0 <= i < |e| && e[i];
      assert window[i - start];
    }
    MissedInside(e[..start], window, e[end..]);
    if Missed(window) { ShortIsMissedOnlyIfSilent(window); }
  }

  // ----- The missed patterns are the multiples of the generator -----

  function Quiet(n: nat): (e: seq<bool>)
    ensures |e| == n && Silent(e)
  {
    seq(n, _ => false)
  }

  /** x^16 + x^15 + x^2 + 1, highest power first. */
  function Generator(): (g: seq<bool>)
    ensures |g| == 17
  {
    [true, true, false, false, false, false, false, false, false,
     false, false, false, false, false, true, false, true]
  }

  /** One coefficient of a quotient times the generator, followed by `n` zeros. */
  function Term(c: bool, n: nat): (e: seq<bool>)
    ensures |e| == 17 + n
  {
    (if c then Generator() else Quiet(17)) + Quiet(n)
  }

  /** The product of the polynomial `q` with the generator, over the two-element field. */
  function Multiple(q: seq<bool>): (e: seq<bool>)
    ensures |e| == |q| + 16
    decreases |q|
  {
    if q == [] then Quiet(16)
    else Diff(Term(q[0], |q| - 1), [false] + Multiple(q[1..]))
  }

  lemma AlignOfTail()
    ensures Align(Generator()[1..]) == 0x8005
  {
    hide Align, OnTop;
    var w := Generator()[1..];
    AlignOfFour(w);
    AlignOfFour(w[4..]);
    AlignOfFour(w[4..][4..]);
    AlignOfFour(w[4..][4..][4..]);
    assert w[4..][4..][4..][4..] == [];
    TailOnTop();
  }

  lemma TailOnTop()
    ensures Align([]) == 0
    ensures OnTop(true, false, false, false, OnTop(false, false, false, false,
              OnTop(false, false, false, false, OnTop(false, true, false, true, 0)))) == 0x8005
  {
  }

  lemma FirstTurn()
    ensures Serial(0, [true]) == 0x8005
  {
  }

  lemma GeneratorIsMissed()
    ensures Missed(Generator())
  {
    hide StepN, Align, Serial, Xor;
    var w := Generator()[1..];
    assert Generator() == [true] + w;
    SerialOfConcat(0, [true], w);
    FirstTurn();
    SerialOfFew(0x8005, w);
    AlignOfTail();
    XorIsZero(0x8005, 0x8005);
    StepNZeroOnly(0, 16);
  }

  lemma TermIsMissed(c: bool, n: nat)
    ensures Missed(Term(c, n))
  {
    hide Missed;
    var e := if c then Generator() else Quiet(17);
    GeneratorIsMissed();
    SilentIsMissed(Quiet(17));
    MissedInside([], e, Quiet(n));
    assert [] + e + Quiet(n) == Term(c, n);
  }

  lemma MissedAfterZero(e: seq<bool>)
    ensures Missed([false] + e) <==> Missed(e)
  {
    hide Missed;
    MissedInside([false], e, []);
    assert [false] + e + [] == [false] + e;
  }

  lemma MissedDiff(d: seq<bool>, e: seq<bool>)
    requires |d| == |e| && Missed(d)
    ensures Missed(Diff(d, e)) <==> Missed(e)
  {
    SerialOfDiff(0, 0, d, e);
    hide Serial;
    XorZero(Serial(0, e));
    XorZero(0);
  }

  lemma {:induction false} MultipleIsMissed(q: seq<bool>)
    ensures Missed(Multiple(q))
    decreases |q|
  {
    hide Missed, Term;
    if q == [] {
      SilentIsMissed(Quiet(16));
    } else {
      MultipleIsMissed(q[1..]);
      MissedAfterZero(Multiple(q[1..]));
      TermIsMissed(q[0], |q| - 1);
      MissedDiff(Term(q[0], |q| - 1), [false] + Multiple(q[1..]));
    }
  }

  /** Long division of a missed pattern by the generator leaves no remainder. */
  lemma {:induction false} QuotientOfMissed(e: seq<bool>) returns (q: seq<bool>)
    requires |e| >= 16 && Missed(e)
    ensures |q| + 16 == |e| && e == Multiple(q)
    decreases |e|
  {
    hide Missed;
    if |e| == 16 {
      q := [];
      ShortIsMissedOnlyIfSilent(e);
    } else {
      var t := Term(e[0], |e| - 17);
      var rest := Diff(t, e);
      assert !rest[0];
      TermIsMissed(e[0], |e| - 17);
      MissedDiff(t, e);
      assert rest == [false] + rest[1..];
      MissedAfterZero(rest[1..]);
      var p := QuotientOfMissed(rest[1..]);
      q := [e[0]] + p;
      assert q[1..] == p;
      assert e == Diff(t, rest);
    }
  }

  /** An error pattern is missed exactly when it is a multiple of the generator polynomial. */
  lemma MissedIffMultiple(e: seq<bool>)
    requires |e| >= 16
    ensures Missed(e) <==> exists q: seq<bool> :: |q| + 16 == |e| && e == Multiple(q)
  {
    hide Missed, Multiple;
    if Missed(e) {
      var q := QuotientOfMissed(e);
      assert e == Multiple(q);
    }
    forall q: seq<bool> | e == Multiple(q) ensures Missed(e) { MultipleIsMissed(q); }
  }

  // ----- Parity -----

  lemma {:induction false} WeightOfConcat(u: seq<bool>, v: seq<bool>)
    ensures Weight(u + v) == Weight(u) + Weight(v)
    decreases |u|
  {
    if u == [] {
      assert u + v == v;
    } else {
      assert (u + v)[1..] == u[1..] + v;
      WeightOfConcat(u[1..], v);
    }
  }

  lemma {:induction false} WeightOfSilent(e: seq<bool>)
    requires Silent(e)
    ensures Weight(e) == 0
    decreases |e|
  {
    if e != [] {
      WeightOfSilent(e[1..]);
    }
  }

  /** Positions set in both strings are counted twice and cancel. */
  lemma {:induction false} WeightOfDiff(u: seq<bool>, v: seq<bool>) returns (both: nat)
    requires |u| == |v|
    ensures Weight(u) + Weight(v) == Weight(Diff(u, v)) + 2 * both
    decreases |u|
  {
    if u == [] {
      both := 0;
    } else {
      both := WeightOfDiff(u[1..], v[1..]);
      assert Diff(u, v)[1..] == Diff(u[1..], v[1..]);
      both := both + Value(u[0] && v[0], 1);
    }
  }

  lemma WeightOfOne(b: bool)
    ensures Weight([b]) == Value(b, 1)
  {
  }

  lemma WeightOfGenerator()
    ensures Weight(Generator()) == 4
  {
    hide Weight;
    assert Generator() == [true] + [true] + Quiet(12) + [true] + [false] + [true];
    WeightOfConcat([true], [true]);
    WeightOfConcat([true] + [true], Quiet(12));
    WeightOfConcat([true] + [true] + Quiet(12), [true]);
    WeightOfConcat([true] + [true] + Quiet(12) + [true], [false]);
    WeightOfConcat([true] + [true] + Quiet(12) + [true] + [false], [true]);
    WeightOfSilent(Quiet(12));
    WeightOfOne(true);
    WeightOfOne(false);
  }

  lemma WeightOfTerm(c: bool, n: nat)
    ensures Weight(Term(c, n)) == Value(c, 4)
  {
    hide Weight, Generator;
    WeightOfGenerator();
    WeightOfSilent(Quiet(17));
    WeightOfSilent(Quiet(n));
    WeightOfConcat(if c then Generator() else Quiet(17), Quiet(n));
  }

  lemma {:induction false} MultipleIsEven(q: seq<bool>) returns (half: nat)
    ensures Weight(Multiple(q)) == 2 * half
    decreases |q|
  {
    hide Term, Weight;
    if q == [] {
      WeightOfSilent(Quiet(16));
      half := 0;
    } else {
      half := MultipleIsEven(q[1..]);
      WeightOfTerm(q[0], |q| - 1);
      WeightOfOne(false);
      WeightOfConcat([false], Multiple(q[1..]));
      var both := WeightOfDiff(Term(q[0], |q| - 1), [false] + Multiple(q[1..]));
      half := Value(q[0], 2) + half - both;
    }
  }

  /** An odd number of flipped bits is never missed. */
  lemma OddIsCaught(e: seq<bool>)
    requires |e| >= 16 && Weight(e) % 2 == 1
    ensures !Missed(e)
  {
    hide Missed, Multiple;
    if Missed(e) {
      var q := QuotientOfMissed(e);
      var half := MultipleIsEven(q);
    }
  }

  // ----- Two flipped bits -----

  predicate ExactlyAt(e: seq<bool>, i: nat, j: nat) {
    i < j < |e| && forall k :: 0 <= k < |e| ==> (e[k] <==> k == i || k == j)
  }

  lemma SerialOfOne(s: bv16)
    ensures Serial(s, [true]) == Step(Xor(s, 0x8000))
  {
  }

  lemma StepIsZeroWhen(s: bv16)
    ensures Step(Xor(s, 0x8000)) == 0 <==> s == 0x8000
  {
    hide Step;
    StepZeroOnly(Xor(s, 0x8000));
  }

  lemma TopIsAPower()
    ensures Power(15) == 0x8000
  {
    assert Power(4) == 0x10 && Power(8) == 0x100 && Power(12) == 0x1000;
  }

  /** Two flipped bits are missed exactly when they are a multiple of 32767 apart. */
  lemma TwoBitsMissed(e: seq<bool>, i: nat, j: nat)
    requires ExactlyAt(e, i, j)
    ensures Missed(e) <==> (j - i) % PERIOD == 0
  {
    hide Step, Serial, StepN, Xor;
    var inside := [true] + e[i + 1..j] + [true];
    assert e == e[..i] + inside + e[j + 1..];
    MissedInside(e[..i], inside, e[j + 1..]);
    SerialOfConcat(0, [true] + e[i + 1..j], [true]);
    SerialOfConcat(0, [true], e[i + 1..j]);
    SerialOfOne(0);
    XorZero(0x8000);
    SerialOfSilent(Step(0x8000), e[i + 1..j]);
    StepNFirst(0x8000, j - i);
    SerialOfOne(StepN(0x8000, j - i));
    StepIsZeroWhen(StepN(0x8000, j - i));
    TopIsAPower();
    ReturnTime(15, j - i);
  }

  // ----- Up to three flipped bits -----

  lemma {:induction false} FirstOne(e: seq<bool>) returns (i: nat)
    requires Weight(e) > 0
    ensures i < |e| && e[i] && Silent(e[..i]) && Weight(e[i + 1..]) == Weight(e) - 1
    decreases |e|
  {
    if e[0] {
      i := 0;
    } else {
      i := FirstOne(e[1..]);
      i := i + 1;
      assert e[i + 1..] == e[1..][i..];
      assert e[..i] == [false] + e[1..][..i - 1];
    }
  }

  lemma {:induction false} WeightZero(e: seq<bool>)
    requires Weight(e) == 0
    ensures Silent(e)
    decreases |e|
  {
    if e != [] {
      WeightZero(e[1..]);
      assert e == [e[0]] + e[1..];
    }
  }

  lemma TwoOnes(e: seq<bool>) returns (i: nat, j: nat)
    requires Weight(e) == 2
    ensures ExactlyAt(e, i, j)
  {
    hide Weight;
    i := FirstOne(e);
    var rest := e[i + 1..];
    var k := FirstOne(rest);
    WeightZero(rest[k + 1..]);
    j := i + 1 + k;
    forall n | 0 <= n < |e| ensures e[n] <==> n == i || n == j {
      if n < i { assert !e[..i][n]; }
      if i < n < j { assert !rest[..k][n - i - 1]; }
      if j < n { assert !rest[k + 1..][n - j - 1]; }
    }
  }

  /** In a pattern of at most 32767 bits, one, two or three flipped bits are never missed. */
  lemma ThreeBitsAreCaught(e: seq<bool>)
    requires 16 <= |e| <= PERIOD && 1 <= Weight(e) <= 3
    ensures !Missed(e)
  {
    hide Missed, Weight;
    if Weight(e) == 2 {
      var i, j := TwoOnes(e);
      TwoBitsMissed(e, i, j);
    } else {
      OddIsCaught(e);
    }
  }
}
