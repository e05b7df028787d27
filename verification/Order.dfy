/** The order of the checksum register: stepping it returns every word x^k to itself after
    exactly 32767 = 7 * 31 * 151 steps, and no earlier. */
module Order {
  import opened Bits
  import opened Checksum

  const PERIOD := 32767

  // ----- Multiplication of register words -----

  function Step4(a: bv16): bv16 {
    Step(Step(Step(Step(a))))
  }

  function Product4(a: bv16, b: bv16): bv16 {
    Xor(Xor(Pick(b & 1 != 0, a), Pick(b & 2 != 0, Step(a))),
        Xor(Pick(b & 4 != 0, Step(Step(a))), Pick(b & 8 != 0, Step(Step(Step(a))))))
  }

  /** `a` times `b` as polynomials modulo x^16 + x^15 + x^2 + 1. */
  function Product(a: bv16, b: bv16): bv16 {
    Xor(Xor(Product4(a, b), Product4(Step4(a), b >> 4)),
        Xor(Product4(Step4(Step4(a)), b >> 8), Product4(Step4(Step4(Step4(a))), b >> 12)))
  }

  lemma StepCommutes(a: bv16, n: nat)
    ensures StepN(Step(a), n) == Step(StepN(a, n))
  {
    StepNFirst(a, n + 1);
  }

  lemma StepNOfPick(c: bool, v: bv16, n: nat)
    ensures StepN(Pick(c, v), n) == Pick(c, StepN(v, n))
  {
    hide StepN;
    StepNZeroOnly(0, n);
  }

  lemma StepNOfProduct4(a: bv16, b: bv16, n: nat)
    ensures StepN(Product4(a, b), n) == Product4(StepN(a, n), b)
  {
    hide StepN, Step, Xor, Pick;
    var a1, a2, a3 := Step(a), Step(Step(a)), Step(Step(Step(a)));
    StepCommutes(a, n);
    StepCommutes(a1, n);
    StepCommutes(a2, n);
    StepNOfPick(b & 1 != 0, a, n);
    StepNOfPick(b & 2 != 0, a1, n);
    StepNOfPick(b & 4 != 0, a2, n);
    StepNOfPick(b & 8 != 0, a3, n);
    StepNOfXor(Pick(b & 1 != 0, a), Pick(b & 2 != 0, a1), n);
    StepNOfXor(Pick(b & 4 != 0, a2), Pick(b & 8 != 0, a3), n);
    StepNOfXor(Xor(Pick(b & 1 != 0, a), Pick(b & 2 != 0, a1)), Xor(Pick(b & 4 != 0, a2), Pick(b & 8 != 0, a3)), n);
  }

  lemma Step4Commutes(a: bv16, n: nat)
    ensures StepN(Step4(a), n) == Step4(StepN(a, n))
  {
    hide StepN, Step;
    StepCommutes(a, n);
    StepCommutes(Step(a), n);
    StepCommutes(Step(Step(a)), n);
    StepCommutes(Step(Step(Step(a))), n);
  }

  lemma StepNOfProduct(a: bv16, b: bv16, n: nat)
    ensures StepN(Product(a, b), n) == Product(StepN(a, n), b)
  {
    hide StepN, Step4, Xor, Product4;
    var a4, a8, a12 := Step4(a), Step4(Step4(a)), Step4(Step4(Step4(a)));
    var p, q, r, s := Product4(a, b), Product4(a4, b >> 4), Product4(a8, b >> 8), Product4(a12, b >> 12);
    Step4Commutes(a, n);
    Step4Commutes(a4, n);
    Step4Commutes(a8, n);
    StepNOfProduct4(a, b, n);
    StepNOfProduct4(a4, b >> 4, n);
    StepNOfProduct4(a8, b >> 8, n);
    StepNOfProduct4(a12, b >> 12, n);
    StepNOfXor(p, q, n);
    StepNOfXor(r, s, n);
    StepNOfXor(Xor(p, q), Xor(r, s), n);
  }

  lemma Product4OfOne(b: bv16)
    ensures Product4(1, b) == b & 0xF && Product4(0x10, b) == (b & 0xF) << 4
    ensures Product4(0x100, b) == (b & 0xF) << 8 && Product4(0x1000, b) == (b & 0xF) << 12
  {
  }

  lemma ProductOfOne(b: bv16)
    ensures Product(1, b) == b
  {
    assert Step4(1) == 0x10 && Step4(0x10) == 0x100 && Step4(0x100) == 0x1000;
    hide Product4, Step4;
    Product4OfOne(b);
    Product4OfOne(b >> 4);
    Product4OfOne(b >> 8);
    Product4OfOne(b >> 12);
  }

  // ----- Powers of x -----

  function Power(n: nat): bv16 {
    StepN(1, n)
  }

  lemma PowerOfSum(m: nat, n: nat)
    ensures Power(m + n) == Product(Power(n), Power(m))
  {
    hide Product, StepN;
    StepNSum(1, m, n);
    ProductOfOne(Power(m));
    StepNOfProduct(1, Power(m), n);
  }

  lemma PowerStep(m: nat, n: nat, a: bv16, b: bv16, c: bv16)
    requires Power(m) == a && Power(n) == b && Product(b, a) == c
    ensures Power(m + n) == c
  {
    PowerOfSum(m, n);
  }

  lemma PowerOne()
    ensures Power(1) == 2
  {
  }

  lemma Square1()
    ensures Product(0x2, 0x2) == 0x4
  {
    assert Step4(0x2) == 0x20 && Step4(0x20) == 0x200 && Step4(0x200) == 0x2000;
  }

  lemma Square2()
    ensures Product(0x4, 0x4) == 0x10
  {
    assert Step4(0x4) == 0x40 && Step4(0x40) == 0x400 && Step4(0x400) == 0x4000;
  }

  lemma Square4()
    ensures Product(0x10, 0x10) == 0x100
  {
    assert Step4(0x10) == 0x100 && Step4(0x100) == 0x1000 && Step4(0x1000) == 0x8005;
  }

  lemma Square8()
    ensures Product(0x100, 0x100) == 0x8005
  {
    assert Step4(0x100) == 0x1000 && Step4(0x1000) == 0x8005 && Step4(0x8005) == 0x8063;
  }

  lemma Square16()
    ensures Product(0x8005, 0x8005) == 0x8017
  {
    assert Step4(0x8005) == 0x8063 && Step4(0x8063) == 0x8603 && Step4(0x8603) == 0xe003;
  }

  lemma Square32()
    ensures Product(0x8017, 0x8017) == 0x8113
  {
    assert Step4(0x8017) == 0x8143 && Step4(0x8143) == 0x9403 && Step4(0x9403) == 0x4006;
  }

  lemma Square64()
    ensures Product(0x8113, 0x8113) == 0x106
  {
    assert Step4(0x8113) == 0x9103 && Step4(0x9103) == 0x1006 && Step4(0x1006) == 0x8065;
  }

  lemma Square128()
    ensures Product(0x106, 0x106) == 0x8011
  {
    assert Step4(0x106) == 0x1060 && Step4(0x1060) == 0x8605 && Step4(0x8605) == 0xe063;
  }

  lemma Square256()
    ensures Product(0x8011, 0x8011) == 0x8107
  {
    assert Step4(0x8011) == 0x8123 && Step4(0x8123) == 0x9203 && Step4(0x9203) == 0x2006;
  }

  lemma Square512()
    ensures Product(0x8107, 0x8107) == 0x16
  {
    assert Step4(0x8107) == 0x9043 && Step4(0x9043) == 0x406 && Step4(0x406) == 0x4060;
  }

  lemma Square1024()
    ensures Product(0x16, 0x16) == 0x114
  {
    assert Step4(0x16) == 0x160 && Step4(0x160) == 0x1600 && Step4(0x1600) == 0xe005;
  }

  lemma Square2048()
    ensures Product(0x114, 0x114) == 0x8115
  {
    assert Step4(0x114) == 0x1140 && Step4(0x1140) == 0x9405 && Step4(0x9405) == 0x4066;
  }

  lemma Square4096()
    ensures Product(0x8115, 0x8115) == 0x112
  {
    assert Step4(0x8115) == 0x9163 && Step4(0x9163) == 0x1606 && Step4(0x1606) == 0xe065;
  }

  lemma Square8192()
    ensures Product(0x112, 0x112) == 0x8101
  {
    assert Step4(0x112) == 0x1120 && Step4(0x1120) == 0x9205 && Step4(0x9205) == 0x2066;
  }

  lemma Square16384()
    ensures Product(0x8101, 0x8101) == 0x2
  {
    assert Step4(0x8101) == 0x9023 && Step4(0x9023) == 0x206 && Step4(0x206) == 0x2060;
  }

  /** Repeated squaring up to x^32768. */
  lemma PowersOfTwo()
    ensures Power(1) == 0x2
    ensures Power(8) == 0x100
    ensures Power(16) == 0x8005
    ensures Power(32) == 0x8017
    ensures Power(64) == 0x8113
    ensures Power(128) == 0x106
    ensures Power(512) == 0x8107
    ensures Power(1024) == 0x16
    ensures Power(4096) == 0x8115
    ensures Power(32768) == 0x2
  {
    PowerOne();
    hide Power, Product;
    Square1(); Square2(); Square4(); Square8(); Square16();
    Square32(); Square64(); Square128(); Square256(); Square512();
    Square1024(); Square2048(); Square4096(); Square8192(); Square16384();
    PowerStep(1, 1, 0x2, 0x2, 0x4);
    PowerStep(2, 2, 0x4, 0x4, 0x10);
    PowerStep(4, 4, 0x10, 0x10, 0x100);
    PowerStep(8, 8, 0x100, 0x100, 0x8005);
    PowerStep(16, 16, 0x8005, 0x8005, 0x8017);
    PowerStep(32, 32, 0x8017, 0x8017, 0x8113);
    PowerStep(64, 64, 0x8113, 0x8113, 0x106);
    PowerStep(128, 128, 0x106, 0x106, 0x8011);
    PowerStep(256, 256, 0x8011, 0x8011, 0x8107);
    PowerStep(512, 512, 0x8107, 0x8107, 0x16);
    PowerStep(1024, 1024, 0x16, 0x16, 0x114);
    PowerStep(2048, 2048, 0x114, 0x114, 0x8115);
    PowerStep(4096, 4096, 0x8115, 0x8115, 0x112);
    PowerStep(8192, 8192, 0x112, 0x112, 0x8101);
    PowerStep(16384, 16384, 0x8101, 0x8101, 0x2);
  }

  lemma OnlyOneStepsToTwo(a: bv16)
    requires Step(a) == 2
    ensures a == 1
  {
  }

  /** x^32767 is 1. */
  lemma FullPeriod()
    ensures Power(PERIOD) == 1
  {
    hide Step;
    PowersOfTwo();
    OnlyOneStepsToTwo(Power(PERIOD));
  }

  lemma Product217A()
    ensures Product(0x8113, 0x106) == 0x1666
  {
    assert Step4(0x8113) == 0x9103 && Step4(0x9103) == 0x1006 && Step4(0x1006) == 0x8065;
  }

  lemma Product217B()
    ensures Product(0x8005, 0x1666) == 0xf557
  {
    assert Step4(0x8005) == 0x8063 && Step4(0x8063) == 0x8603 && Step4(0x8603) == 0xe003;
  }

  lemma Product217C()
    ensures Product(0x100, 0xf557) == 0x553e
  {
    assert Step4(0x100) == 0x1000 && Step4(0x1000) == 0x8005 && Step4(0x8005) == 0x8063;
  }

  lemma Product217D()
    ensures Product(0x2, 0x553e) == 0xaa7c
  {
    assert Step4(0x2) == 0x20 && Step4(0x20) == 0x200 && Step4(0x200) == 0x2000;
  }

  lemma Power217()
    ensures Power(217) == 0xaa7c
  {
    PowersOfTwo();
    hide Power, Product;
    Product217A(); Product217B(); Product217C(); Product217D();
    PowerStep(128, 64, 0x106, 0x8113, 0x1666);
    PowerStep(192, 16, 0x1666, 0x8005, 0xf557);
    PowerStep(208, 8, 0xf557, 0x100, 0x553e);
    PowerStep(216, 1, 0x553e, 0x2, 0xaa7c);
  }

  lemma Product1057A()
    ensures Product(0x8017, 0x16) == 0x813b
  {
    assert Step4(0x8017) == 0x8143 && Step4(0x8143) == 0x9403 && Step4(0x9403) == 0x4006;
  }

  lemma Product1057B()
    ensures Product(0x2, 0x813b) == 0x8273
  {
    assert Step4(0x2) == 0x20 && Step4(0x20) == 0x200 && Step4(0x200) == 0x2000;
  }

  lemma Power1057()
    ensures Power(1057) == 0x8273
  {
    PowersOfTwo();
    hide Power, Product;
    Product1057A(); Product1057B();
    PowerStep(1024, 32, 0x16, 0x8017, 0x813b);
    PowerStep(1056, 1, 0x813b, 0x2, 0x8273);
  }

  lemma Product4681A()
    ensures Product(0x8107, 0x8115) == 0x125e
  {
    assert Step4(0x8107) == 0x9043 && Step4(0x9043) == 0x406 && Step4(0x406) == 0x4060;
  }

  lemma Product4681B()
    ensures Product(0x8113, 0x125e) == 0x7b8a
  {
    assert Step4(0x8113) == 0x9103 && Step4(0x9103) == 0x1006 && Step4(0x1006) == 0x8065;
  }

  lemma Product4681C()
    ensures Product(0x100, 0x7b8a) == 0x8b1a
  {
    assert Step4(0x100) == 0x1000 && Step4(0x1000) == 0x8005 && Step4(0x8005) == 0x8063;
  }

  lemma Product4681D()
    ensures Product(0x2, 0x8b1a) == 0x9631
  {
    assert Step4(0x2) == 0x20 && Step4(0x20) == 0x200 && Step4(0x200) == 0x2000;
  }

  lemma Power4681()
    ensures Power(4681) == 0x9631
  {
    PowersOfTwo();
    hide Power, Product;
    Product4681A(); Product4681B(); Product4681C(); Product4681D();
    PowerStep(4096, 512, 0x8115, 0x8107, 0x125e);
    PowerStep(4608, 64, 0x125e, 0x8113, 0x7b8a);
    PowerStep(4672, 8, 0x7b8a, 0x100, 0x8b1a);
    PowerStep(4680, 1, 0x8b1a, 0x2, 0x9631);
  }

  // ----- x^d is 1 only at multiples of the period -----

  lemma DifferenceOfPeriods(m: nat, n: nat)
    requires Power(m) == 1 && Power(m + n) == 1
    ensures Power(n) == 1
  {
    hide Product, StepN;
    PowerOfSum(m, n);
    StepNSum(1, m, n);
  }

  lemma {:induction false} MultipleOfPeriod(m: nat, k: nat)
    requires Power(m) == 1
    ensures Power(k * m) == 1
  {
    hide Power;
    if k == 0 {
      PowerZero();
    } else {
      MultipleOfPeriod(m, k - 1);
      assert k * m == (k - 1) * m + m;
      SumOfPeriods((k - 1) * m, m);
    }
  }

  lemma PowerZero()
    ensures Power(0) == 1
  {
  }

  lemma SumOfPeriods(m: nat, n: nat)
    requires Power(m) == 1 && Power(n) == 1
    ensures Power(m + n) == 1
  {
    hide StepN;
    StepNSum(1, m, n);
  }

  /** Euclid's algorithm on the exponents j with x^(k*j) = 1. */
  lemma {:induction false} CommonPeriod(k: nat, m: nat, n: nat) returns (g: nat, p: nat, q: nat)
    requires m > 0 && n > 0 && Power(k * m) == 1 && Power(k * n) == 1
    ensures Power(k * g) == 1 && m == g * p && n == g * q
    decreases m + n
  {
    hide Power;
    if m == n {
      g, p, q := m, 1, 1;
    } else if m < n {
      assert k * n == k * m + k * (n - m);
      DifferenceOfPeriods(k * m, k * (n - m));
      g, p, q := CommonPeriod(k, m, n - m);
      q := q + p;
    } else {
      assert k * m == k * n + k * (m - n);
      DifferenceOfPeriods(k * n, k * (m - n));
      g, p, q := CommonPeriod(k, m - n, n);
      p := p + q;
    }
  }

  lemma ThreePrimes(g: nat, q: nat)
    requires g * q == 7 || g * q == 31 || g * q == 151
    ensures g == 1 || q == 1
  {
    if g <= 12 {
      NoSmallFactor(g, q);
    } else if q <= 12 {
      NoSmallFactor(q, g);
    } else {
      BigProduct(g, q);
    }
  }

  lemma BigProduct(g: nat, q: nat)
    requires g > 12 && q > 12
    ensures g * q >= 169
  {
    assert (g - 13) * q >= 0;
    assert g * q == 13 * q + (g - 13) * q;
  }

  lemma NoSmallFactor(g: nat, q: nat)
    requires g <= 12 && (g * q == 7 || g * q == 31 || g * q == 151)
    ensures g == 1 || q == 1
  {
  }

  lemma PrimeDividesPeriod(prime: nat, k: nat, d: nat) returns (p: nat)
    requires prime in {7, 31, 151} && k * prime == PERIOD
    requires Power(k) != 1 && Power(d) == 1 && d > 0
    ensures d == prime * p
  {
    hide Power;
    FullPeriod();
    MultipleOfPeriod(d, k);
    var g, q;
    g, p, q := CommonPeriod(k, d, prime);
    ThreePrimes(g, q);
    assert g == 1 ==> k * g == k;
  }

  lemma Coprime151And31(a: int, b: int)
    requires 151 * a == 31 * b
    ensures a == 31 * (39 * a - 8 * b)
  {
  }

  lemma Coprime4681And7(e: int, c: int)
    requires 4681 * e == 7 * c
    ensures e == 7 * (3 * c - 2006 * e)
  {
  }

  lemma CommonMultiple(d: int, a: int, b: int, c: int)
    requires d == 151 * a && d == 31 * b && d == 7 * c
    ensures d == PERIOD * (3 * c - 2006 * (39 * a - 8 * b))
  {
    Coprime151And31(a, b);
    Coprime4681And7(39 * a - 8 * b, c);
  }

  lemma MultipleOfPeriodIsZero(d: nat, f: int)
    requires d == PERIOD * f
    ensures d % PERIOD == 0
  {
  }

  /** The order of x is exactly 32767. */
  lemma OrderOfX(d: nat)
    ensures Power(d) == 1 <==> d % PERIOD == 0
  {
    hide Power;
    if d > 0 && Power(d) == 1 {
      Power217();
      Power1057();
      Power4681();
      var a := PrimeDividesPeriod(151, 217, d);
      var b := PrimeDividesPeriod(31, 1057, d);
      var c := PrimeDividesPeriod(7, 4681, d);
      CommonMultiple(d, a, b, c);
      MultipleOfPeriodIsZero(d, 3 * c - 2006 * (39 * a - 8 * b));
    }
    if d % PERIOD == 0 {
      FullPeriod();
      MultipleOfPeriod(PERIOD, d / PERIOD);
    }
  }

  /** A word x^k comes back after d steps exactly when 32767 divides d. */
  lemma ReturnTime(k: nat, d: nat)
    ensures StepN(Power(k), d) == Power(k) <==> d % PERIOD == 0
  {
    hide StepN;
    StepNSum(1, k, d);
    StepNSum(1, d, k);
    OrderOfX(d);
    if StepN(Power(k), d) == Power(k) {
      StepNInjective(Power(d), 1, k);
    }
  }
}
