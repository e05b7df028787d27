/** The orbit of src/device_meta/eci_position_calculator.cpp over the real numbers. The
    functions of the mathematical library are parameters; what is used of them is stated where
    it is needed. */
module Kepler {

  datatype Library = Library(sin: real -> real, cos: real -> real, atan2: (real, real) -> real, sqrt: real -> real)

  datatype Orbit = Orbit(semiMajorAxis: real, eccentricity: real, inclination: real, argOfPerigee: real,
                         raan: real, meanAnomaly: real)

  datatype Vector = Vector(x: real, y: real, z: real)

  const MU := 398600441800000.0
  const ROUNDS := 10

  function Abs(x: real): real {
    if x < 0.0 then -x else x
  }

  /** Products and squares, named so that a proof can keep them closed. */
  function Times(a: real, b: real): real {
    a * b
  }

  function Square(x: real): real {
    x * x
  }

  function Cube(x: real): real {
    x * x * x
  }

  function Power(e: real, n: nat): real {
    if n == 0 then 1.0 else Times(e, Power(e, n - 1))
  }

  lemma {:induction false} PowerOfSum(e: real, m: nat, n: nat)
    ensures Power(e, 1) == e && Power(e, m + n) == Times(Power(e, m), Power(e, n))
  {
    assert Power(e, 0) == 1.0;
    if m != 0 {
      PowerOfSum(e, m - 1, n);
      hide Times;
      ThreeFactors(e, Power(e, m - 1), Power(e, n));
    }
  }

  function Norm2(v: Vector): real {
    Square(v.x) + Square(v.y) + Square(v.z)
  }

  /** The sine changes no faster than its argument and stays between -1 and 1. */
  ghost predicate SineIsTame(lib: Library) {
    (forall x: real, y: real :: Abs(lib.sin(x) - lib.sin(y)) <= Abs(x - y)) && forall x: real :: Abs(lib.sin(x)) <= 1.0
  }

  ghost predicate OnUnitCircle(lib: Library) {
    forall x: real :: Square(lib.sin(x)) + Square(lib.cos(x)) == 1.0
  }

  // ----- The fixed-point iteration -----

  /** One round of the iteration for Kepler's equation. */
  function Round(lib: Library, m: real, e: real, x: real): real {
    m + Times(e, lib.sin(x))
  }

  function Iterate(lib: Library, m: real, e: real, n: nat): real {
    if n == 0 then m else Round(lib, m, e, Iterate(lib, m, e, n - 1))
  }

  /** A solution of Kepler's equation. */
  predicate IsRoot(lib: Library, m: real, e: real, root: real) {
    root == m + e * lib.sin(root)
  }

  lemma ScaledBound(e: real, x: real, bound: real)
    requires e >= 0.0 && Abs(x) <= bound
    ensures Abs(Times(e, x)) <= Times(e, bound)
  {
    assert e * (bound - x) >= 0.0 && e * (bound + x) >= 0.0;
  }

  lemma ScaledDifference(e: real, a: real, b: real, bound: real)
    requires e >= 0.0 && Abs(a - b) <= bound
    ensures Abs(Times(e, a) - Times(e, b)) <= Times(e, bound)
  {
    ScaledBound(e, a - b, bound);
    assert e * a - e * b == e * (a - b);
  }

  lemma SineBounds(lib: Library, x: real, y: real)
    requires SineIsTame(lib)
    ensures Abs(lib.sin(x) - lib.sin(y)) <= Abs(x - y) && Abs(lib.sin(x)) <= 1.0
  {
  }

  /** One round multiplies the distance to a solution by at most e. */
  lemma RoundContracts(lib: Library, m: real, e: real, x: real, root: real, bound: real)
    requires SineIsTame(lib) && 0.0 <= e && root == Round(lib, m, e, root) && Abs(x - root) <= bound
    ensures Abs(Round(lib, m, e, x) - root) <= Times(e, bound)
  {
    hide SineIsTame, Times;
    SineBounds(lib, x, root);
    ScaledDifference(e, lib.sin(x), lib.sin(root), bound);
  }

  lemma RootIsFixed(lib: Library, m: real, e: real, root: real)
    ensures IsRoot(lib, m, e, root) <==> root == Round(lib, m, e, root)
  {
  }

  lemma {:induction false} FixedPointIsClose(lib: Library, m: real, e: real, root: real, n: nat)
    requires SineIsTame(lib) && 0.0 <= e && root == Round(lib, m, e, root)
    ensures Abs(Iterate(lib, m, e, n) - root) <= Power(e, n + 1)
  {
    hide SineIsTame, Times, Round;
    if n == 0 {
      StartIsClose(lib, m, e, root);
    } else {
      FixedPointIsClose(lib, m, e, root, n - 1);
      RoundContracts(lib, m, e, Iterate(lib, m, e, n - 1), root, Power(e, n));
    }
  }

  lemma StartIsClose(lib: Library, m: real, e: real, root: real)
    requires SineIsTame(lib) && 0.0 <= e && root == Round(lib, m, e, root)
    ensures Abs(m - root) <= Power(e, 1)
  {
    hide SineIsTame, Times;
    SineBounds(lib, root, root);
    ScaledBound(e, lib.sin(root), 1.0);
    assert Power(e, 0) == 1.0;
  }

  /** After n rounds the iterate is within e^(n+1) of any solution. */
  lemma IterateIsClose(lib: Library, m: real, e: real, root: real, n: nat)
    requires SineIsTame(lib) && 0.0 <= e < 1.0 && IsRoot(lib, m, e, root)
    ensures Abs(Iterate(lib, m, e, n) - root) <= Power(e, n + 1)
  {
    hide SineIsTame, Iterate, Power, Round;
    RootIsFixed(lib, m, e, root);
    FixedPointIsClose(lib, m, e, root, n);
  }

  /** Whether there is a solution or not: after n rounds another round moves the iterate by at
      most e^(n+1), so that it satisfies the equation up to that much. */
  lemma {:induction false} ResidualIsSmall(lib: Library, m: real, e: real, n: nat)
    requires SineIsTame(lib) && 0.0 <= e
    ensures Abs(Iterate(lib, m, e, n) - Round(lib, m, e, Iterate(lib, m, e, n))) <= Power(e, n + 1)
  {
    hide SineIsTame, Times, Abs;
    if n == 0 {
      FirstRound(lib, m, e);
    } else {
      var x := Iterate(lib, m, e, n - 1);
      ResidualIsSmall(lib, m, e, n - 1);
      SineBounds(lib, x, Iterate(lib, m, e, n));
      ScaledDifference(e, lib.sin(x), lib.sin(Iterate(lib, m, e, n)), Power(e, n));
      SameDifference(m, Times(e, lib.sin(x)), Times(e, lib.sin(Iterate(lib, m, e, n))));
    }
  }

  lemma FirstRound(lib: Library, m: real, e: real)
    requires SineIsTame(lib) && 0.0 <= e
    ensures Abs(m - Round(lib, m, e, m)) <= Power(e, 1)
  {
    hide SineIsTame, Times;
    SineBounds(lib, m, m);
    ScaledBound(e, lib.sin(m), 1.0);
    assert Power(e, 0) == 1.0;
  }

  lemma SameDifference(m: real, a: real, b: real)
    ensures (m + a) - (m + b) == a - b
  {
  }

  lemma OnlyZeroContracts(e: real, x: real)
    requires e < 1.0 && 0.0 <= x <= Times(e, x)
    ensures x == 0.0
  {
    assert x == 0.0 || (1.0 - e) * x > 0.0;
  }

  /** There is at most one solution. */
  lemma RootIsUnique(lib: Library, m: real, e: real, a: real, b: real)
    requires SineIsTame(lib) && 0.0 <= e < 1.0 && IsRoot(lib, m, e, a) && IsRoot(lib, m, e, b)
    ensures a == b
  {
    hide SineIsTame, Times, Round, IsRoot;
    RootIsFixed(lib, m, e, a);
    RootIsFixed(lib, m, e, b);
    RoundContracts(lib, m, e, a, b, Abs(a - b));
    OnlyZeroContracts(e, Abs(a - b));
  }

  // ----- The rotation -----

  /** From the orbital plane to the inertial frame. */
  function Rotate(lib: Library, o: Orbit, rx: real, ry: real): Vector {
    var cO, sO, cw, sw := lib.cos(o.raan), lib.sin(o.raan), lib.cos(o.argOfPerigee), lib.sin(o.argOfPerigee);
    var ci, si := lib.cos(o.inclination), lib.sin(o.inclination);
    Vector((cO * cw - sO * sw * ci) * rx + (-cO * sw - sO * cw * ci) * ry,
           (sO * cw + cO * sw * ci) * rx + (-sO * sw + cO * cw * ci) * ry,
           (sw * si) * rx + (cw * si) * ry)
  }

  /** The coordinates of (a, b) turned by the angle with the given cosine and sine. */
  function TurnedX(c: real, s: real, a: real, b: real): real {
    c * a - s * b
  }

  function TurnedY(c: real, s: real, a: real, b: real): real {
    s * a + c * b
  }

  lemma TurnKeepsLength(c: real, s: real, a: real, b: real)
    requires Square(s) + Square(c) == 1.0
    ensures Square(TurnedX(c, s, a, b)) + Square(TurnedY(c, s, a, b)) == Square(a) + Square(b)
  {
    assert (c * a - s * b) * (c * a - s * b) == (c * c) * (a * a) - 2.0 * (c * a * (s * b)) + (s * s) * (b * b);
    assert (s * a + c * b) * (s * a + c * b) == (s * s) * (a * a) + 2.0 * (c * a * (s * b)) + (c * c) * (b * b);
    assert (s * s + c * c) * (a * a) == a * a && (s * s + c * c) * (b * b) == b * b;
  }

  lemma ScaledSquares(c: real, s: real, a: real)
    requires Square(s) + Square(c) == 1.0
    ensures Square(Times(c, a)) + Square(Times(s, a)) == Square(a)
  {
    assert (c * a) * (c * a) + (s * a) * (s * a) == (s * s + c * c) * (a * a);
  }

  /** The rotation is made of three turns: by the argument of perigee in the orbital plane, by
      the inclination, and by the ascending node. */
  lemma RotateInTurns(lib: Library, o: Orbit, rx: real, ry: real)
    ensures var cO, sO, cw, sw := lib.cos(o.raan), lib.sin(o.raan), lib.cos(o.argOfPerigee), lib.sin(o.argOfPerigee);
      var along, across := TurnedX(cw, sw, rx, ry), TurnedY(cw, sw, rx, ry);
      var flat := Times(lib.cos(o.inclination), across);
      Rotate(lib, o, rx, ry) == Vector(TurnedX(cO, sO, along, flat), TurnedY(cO, sO, along, flat),
                                       Times(lib.sin(o.inclination), across))
  {
  }

  /** The rotation does not change the distance from the centre. */
  lemma RotateKeepsLength(lib: Library, o: Orbit, rx: real, ry: real)
    requires OnUnitCircle(lib)
    ensures Norm2(Rotate(lib, o, rx, ry)) == Square(rx) + Square(ry)
  {
    hide Rotate, Square, TurnedX, TurnedY, Times;
    var cw, sw := lib.cos(o.argOfPerigee), lib.sin(o.argOfPerigee);
    var along, across := TurnedX(cw, sw, rx, ry), TurnedY(cw, sw, rx, ry);
    RotateInTurns(lib, o, rx, ry);
    TurnKeepsLength(lib.cos(o.raan), lib.sin(o.raan), along, Times(lib.cos(o.inclination), across));
    ScaledSquares(lib.cos(o.inclination), lib.sin(o.inclination), across);
    TurnKeepsLength(cw, sw, rx, ry);
  }

  // ----- The position -----

  /** The distance from the centre as the source computes it from the eccentric anomaly. */
  function Radius(lib: Library, o: Orbit, anomaly: real): real {
    Times(o.semiMajorAxis, 1.0 - Times(o.eccentricity, lib.cos(anomaly)))
  }

  function TrueAnomaly(lib: Library, o: Orbit, anomaly: real): real {
    2.0 * lib.atan2(Times(lib.sqrt(1.0 + o.eccentricity), lib.sin(anomaly / 2.0)),
                    Times(lib.sqrt(1.0 - o.eccentricity), lib.cos(anomaly / 2.0)))
  }

  lemma CubeIsNotZero(a: real)
    requires a != 0.0
    ensures Cube(a) != 0.0
  {
    assert a * a > 0.0;
  }

  function MeanAnomaly(lib: Library, o: Orbit, time: real): real
    requires o.semiMajorAxis != 0.0
  {
    CubeIsNotZero(o.semiMajorAxis);
    o.meanAnomaly + Times(lib.sqrt(MU / Cube(o.semiMajorAxis)), time)
  }

  /** The position for an eccentric anomaly. */
  function PositionAt(lib: Library, o: Orbit, anomaly: real): Vector {
    var nu, r := TrueAnomaly(lib, o, anomaly), Radius(lib, o, anomaly);
    Rotate(lib, o, Times(lib.cos(nu), r), Times(lib.sin(nu), r))
  }

  method CalculatePosition(lib: Library, o: Orbit, time: real) returns (eci: Vector)
    requires o.semiMajorAxis != 0.0
    ensures eci == PositionAt(lib, o, Iterate(lib, MeanAnomaly(lib, o, time), o.eccentricity, 10))
  {
    hide PositionAt, MeanAnomaly, Round;
    var m := MeanAnomaly(lib, o, time);
    var anomaly := m;
    for i := 0 to ROUNDS
      invariant anomaly == Iterate(lib, m, o.eccentricity, i)
    {
      anomaly := Round(lib, m, o.eccentricity, anomaly);
    }
    eci := PositionAt(lib, o, anomaly);
  }

  lemma BelowOne(c: real, s: real)
    requires Square(s) + Square(c) == 1.0
    ensures -1.0 <= c <= 1.0
  {
    assert s * s >= 0.0;
    assert c <= 1.0 || c * c > 1.0;
    assert c >= -1.0 || c * c > 1.0;
  }

  lemma ScaledBetween(a: real, e: real, c: real)
    requires a > 0.0 && 0.0 <= e < 1.0 && -1.0 <= c <= 1.0
    ensures 0.0 < Times(a, 1.0 - e) <= Times(a, 1.0 - Times(e, c)) <= Times(a, 1.0 + e)
  {
    hide Times;
    ScaledBound(e, c, 1.0);
    TimesOne(e);
    ScaledOrder(a, 1.0 - e, 1.0 - Times(e, c));
    ScaledOrder(a, 1.0 - Times(e, c), 1.0 + e);
    ScaledPositive(a, 1.0 - e);
  }

  lemma TimesOne(e: real)
    ensures Times(e, 1.0) == e
  {
  }

  lemma ScaledOrder(a: real, x: real, y: real)
    requires a >= 0.0 && x <= y
    ensures Times(a, x) <= Times(a, y)
  {
    assert a * (y - x) >= 0.0;
  }

  lemma ScaledPositive(a: real, x: real)
    requires a > 0.0 && x > 0.0
    ensures Times(a, x) > 0.0
  {
  }

  function Perigee(o: Orbit): real {
    Times(o.semiMajorAxis, 1.0 - o.eccentricity)
  }

  function Apogee(o: Orbit): real {
    Times(o.semiMajorAxis, 1.0 + o.eccentricity)
  }

  predicate IsEllipse(o: Orbit) {
    o.semiMajorAxis > 0.0 && 0.0 <= o.eccentricity < 1.0
  }

  lemma RadiusBetween(lib: Library, o: Orbit, anomaly: real)
    requires IsEllipse(o) && -1.0 <= lib.cos(anomaly) <= 1.0
    ensures 0.0 < Perigee(o) <= Radius(lib, o, anomaly) <= Apogee(o)
  {
    hide Times;
    ScaledBetween(o.semiMajorAxis, o.eccentricity, lib.cos(anomaly));
  }

  /** For every eccentric anomaly, hence at every time, the position lies at the computed radius
      from the centre, and that radius is between perigee and apogee. */
  lemma OrbitStaysBounded(lib: Library, o: Orbit, anomaly: real)
    requires OnUnitCircle(lib) && IsEllipse(o)
    ensures Norm2(PositionAt(lib, o, anomaly)) == Square(Radius(lib, o, anomaly))
    ensures 0.0 < Perigee(o) <= Radius(lib, o, anomaly) <= Apogee(o)
  {
    hide OnUnitCircle, Rotate, Times, Square, Norm2, TrueAnomaly, Radius, Perigee, Apogee, IsEllipse;
    UnitCircleAt(lib, anomaly);
    RadiusBetween(lib, o, anomaly);
    PlaneKeepsLength(lib, o, TrueAnomaly(lib, o, anomaly), Radius(lib, o, anomaly));
  }

  lemma UnitCircleAt(lib: Library, x: real)
    requires OnUnitCircle(lib)
    ensures -1.0 <= lib.cos(x) <= 1.0
  {
    hide Square;
    BelowOne(lib.cos(x), lib.sin(x));
  }

  lemma PlaneKeepsLength(lib: Library, o: Orbit, nu: real, r: real)
    requires OnUnitCircle(lib)
    ensures Norm2(Rotate(lib, o, Times(lib.cos(nu), r), Times(lib.sin(nu), r))) == Square(r)
  {
    hide Rotate, Times, Square, Norm2;
    RotateKeepsLength(lib, o, Times(lib.cos(nu), r), Times(lib.sin(nu), r));
    ScaledSquares(lib.cos(nu), lib.sin(nu), r);
  }

  // ----- The radius of the calculated position -----

  ghost predicate CosineIsTame(lib: Library) {
    forall x: real, y: real :: Abs(lib.cos(x) - lib.cos(y)) <= Abs(x - y)
  }

  /** After n rounds the radius is within a e^(n+2) of the radius at any solution. */
  lemma RadiusIsClose(lib: Library, o: Orbit, m: real, root: real, n: nat)
    requires SineIsTame(lib) && CosineIsTame(lib) && IsEllipse(o) && IsRoot(lib, m, o.eccentricity, root)
    ensures Abs(Radius(lib, o, Iterate(lib, m, o.eccentricity, n)) - Radius(lib, o, root))
         <= Times(o.semiMajorAxis, Power(o.eccentricity, n + 2))
  {
    hide SineIsTame, IsRoot, Times, Iterate;
    var a, e, x := o.semiMajorAxis, o.eccentricity, Iterate(lib, m, o.eccentricity, n);
    IterateIsClose(lib, m, e, root, n);
    ScaledDifference(e, lib.cos(x), lib.cos(root), Power(e, n + 1));
    ScaledDifference(a, 1.0 - Times(e, lib.cos(x)), 1.0 - Times(e, lib.cos(root)), Times(e, Power(e, n + 1)));
  }

  /** The position the calculation returns lies at a distance from the centre that is within
      a e^12 of the exact one. */
  lemma CalculatedRadiusIsClose(lib: Library, o: Orbit, time: real, root: real)
    requires SineIsTame(lib) && CosineIsTame(lib) && OnUnitCircle(lib) && IsEllipse(o)
    requires IsRoot(lib, MeanAnomaly(lib, o, time), o.eccentricity, root)
    ensures var x := Iterate(lib, MeanAnomaly(lib, o, time), o.eccentricity, 10);
      Norm2(PositionAt(lib, o, x)) == Square(Radius(lib, o, x))
      && Abs(Radius(lib, o, x) - Radius(lib, o, root)) <= Times(o.semiMajorAxis, Power(o.eccentricity, 12))
  {
    hide SineIsTame, CosineIsTame, OnUnitCircle, IsRoot, Times, Square, Norm2, Iterate, PositionAt, Radius, Power;
    var m := MeanAnomaly(lib, o, time);
    RadiusIsClose(lib, o, m, root, ROUNDS);
    OrbitStaysBounded(lib, o, Iterate(lib, m, o.eccentricity, ROUNDS));
  }

  // ----- Where the position is -----

  /** What the mathematical library promises, argument by argument. */
  predicate HalvesAt(lib: Library, x: real) {
    lib.cos(x) == Square(lib.cos(x / 2.0)) - Square(lib.sin(x / 2.0))
    && lib.sin(x) == 2.0 * Times(lib.sin(x / 2.0), lib.cos(x / 2.0))
  }

  predicate RootAt(lib: Library, x: real) {
    x >= 0.0 ==> lib.sqrt(x) >= 0.0 && Square(lib.sqrt(x)) == x
  }

  /** The angle of a point that is not the centre. */
  predicate AngleAt(lib: Library, y: real, x: real) {
    var t, s := lib.atan2(y, x), lib.sqrt(Square(x) + Square(y));
    Square(x) + Square(y) > 0.0 ==> Times(s, lib.cos(t)) == x && Times(s, lib.sin(t)) == y
  }

  ghost predicate IsTrigonometric(lib: Library) {
    (forall x :: HalvesAt(lib, x)) && (forall x :: RootAt(lib, x)) && forall y, x :: AngleAt(lib, y, x)
  }

  lemma Promised(lib: Library, x: real, y: real)
    requires IsTrigonometric(lib)
    ensures HalvesAt(lib, x) && RootAt(lib, x) && AngleAt(lib, y, x)
  {
    hide HalvesAt, RootAt, AngleAt;
  }

  /** Cosine and sine of twice an angle, scaled by a square. */
  lemma TwiceTheAngle(s: real, c: real, d: real, x: real, y: real)
    requires Times(s, c) == x && Times(s, d) == y
    ensures Times(Square(s), Square(c) - Square(d)) == Square(x) - Square(y)
    ensures Times(Square(s), 2.0 * Times(d, c)) == 2.0 * Times(x, y)
  {
    assert (s * s) * (c * c) == (s * c) * (s * c) && (s * s) * (d * d) == (s * d) * (s * d);
    assert (s * s) * (d * c) == (s * c) * (s * d);
  }

  lemma SquareOfTimes(a: real, b: real)
    ensures Square(Times(a, b)) == Times(Square(a), Square(b))
  {
    assert (a * b) * (a * b) == (a * a) * (b * b);
  }

  lemma SumTimes(x: real, y: real, a: real)
    ensures Times(x + y, a) == Times(x, a) + Times(y, a)
  {
  }

  lemma TimesSum(a: real, x: real, y: real)
    ensures Times(a, x + y) == Times(a, x) + Times(a, y)
  {
  }

  lemma OneTimes(a: real)
    ensures Times(1.0, a) == a
  {
  }

  lemma Distributes(e: real, a: real, b: real)
    ensures Times(1.0 + e, a) == a + Times(e, a) && Times(1.0 - e, a) == a - Times(e, a)
    ensures Times(e, a + b) == Times(e, a) + Times(e, b) && Times(e, a - b) == Times(e, a) - Times(e, b)
  {
    hide Times;
    OneTimes(a);
    SumTimes(1.0, e, a);
    SumTimes(1.0 - e, e, a);
    assert 1.0 - e + e == 1.0;
    TimesSum(e, a, b);
    TimesSum(e, a - b, b);
    assert a - b + b == a;
  }

  /** The squares of the two legs the true anomaly is computed from. */
  lemma LegSquares(e: real, p: real, q: real, c: real, s: real)
    requires Square(p) == 1.0 + e && Square(q) == 1.0 - e && Square(s) + Square(c) == 1.0
    ensures Square(Times(q, c)) + Square(Times(p, s)) == 1.0 - Times(e, Square(c) - Square(s))
    ensures Square(Times(q, c)) - Square(Times(p, s)) == Square(c) - Square(s) - e
  {
    hide Times, Square;
    SquareOfTimes(q, c);
    SquareOfTimes(p, s);
    Distributes(e, Square(c), Square(s));
    Distributes(e, Square(s), Square(c));
    TimesOne(e);
  }

  lemma SameRoot(a: real, b: real)
    requires a >= 0.0 && b >= 0.0 && Square(a) == Square(b)
    ensures a == b
  {
    hide Square;
    if a < b {
      SquareGrows(a, b);
    } else if b < a {
      SquareGrows(b, a);
    }
  }

  lemma SquareGrows(a: real, b: real)
    requires 0.0 <= a < b
    ensures Square(a) < Square(b)
  {
    hide Times, Square;
    ScaledPositive(b - a, b + a);
    DifferenceAsProduct(a, b);
  }

  lemma DifferenceAsProduct(a: real, b: real)
    ensures Times(b - a, b + a) == Square(b) - Square(a)
  {
  }

  lemma ProductOfRoots(lib: Library, e: real)
    requires IsTrigonometric(lib) && 0.0 <= e < 1.0
    ensures Times(lib.sqrt(1.0 + e), lib.sqrt(1.0 - e)) == lib.sqrt(1.0 - Square(e))
    ensures Square(lib.sqrt(1.0 + e)) == 1.0 + e && Square(lib.sqrt(1.0 - e)) == 1.0 - e
  {
    hide IsTrigonometric, Square, Times;
    var p, q, w := lib.sqrt(1.0 + e), lib.sqrt(1.0 - e), lib.sqrt(1.0 - Square(e));
    Promised(lib, 1.0 + e, 0.0);
    Promised(lib, 1.0 - e, 0.0);
    Promised(lib, 1.0 - Square(e), 0.0);
    SquareOfTimes(p, q);
    DifferenceOfSquares(e);
    NotNegative(p, q);
    SameRoot(Times(p, q), w);
  }

  lemma DifferenceOfSquares(e: real)
    requires 0.0 <= e < 1.0
    ensures Times(1.0 + e, 1.0 - e) == 1.0 - Square(e) && 1.0 - Square(e) >= 0.0
  {
    assert (1.0 + e) * (1.0 - e) == 1.0 - e * e;
    NotNegative(1.0 + e, 1.0 - e);
  }

  lemma NotNegative(a: real, b: real)
    requires a >= 0.0 && b >= 0.0
    ensures Times(a, b) >= 0.0
  {
  }

  lemma PairOfProducts(p: real, q: real, s: real, c: real)
    ensures Times(Times(q, c), Times(p, s)) == Times(Times(p, q), Times(s, c))
  {
    assert (q * c) * (p * s) == (p * q) * (s * c);
  }

  lemma ThreeFactors(a: real, b: real, c: real)
    ensures Times(c, Times(a, b)) == Times(a, Times(b, c)) && Times(Times(a, b), c) == Times(a, Times(b, c))
  {
  }

  lemma Doubled(a: real, b: real)
    ensures 2.0 * Times(a, b) == Times(a, 2.0 * b)
  {
  }

  /** In the plane of the orbit: the true anomaly and the radius computed for an eccentric anomaly
      are those of the point of the ellipse with the centre at a focus. */
  lemma PlanePosition(lib: Library, o: Orbit, x: real)
    requires IsTrigonometric(lib) && OnUnitCircle(lib) && IsEllipse(o)
    ensures var a, e, nu, r := o.semiMajorAxis, o.eccentricity, TrueAnomaly(lib, o, x), Radius(lib, o, x);
      && Times(lib.cos(nu), r) == Times(a, lib.cos(x) - e)
      && Times(lib.sin(nu), r) == Times(a, Times(lib.sqrt(1.0 - Square(e)), lib.sin(x)))
  {
    hide IsTrigonometric, OnUnitCircle, Square, Times, TrueAnomaly, IsEllipse;
    var a, e, half := o.semiMajorAxis, o.eccentricity, x / 2.0;
    var c, s := lib.cos(half), lib.sin(half);
    EllipseFacts(o);
    ProductOfRoots(lib, e);
    var p, q := lib.sqrt(1.0 + e), lib.sqrt(1.0 - e);
    var legX, legY := Times(q, c), Times(p, s);
    UnitAt(lib, half);
    UnitCircleAt(lib, x);
    Promised(lib, x, 0.0);
    LegSquares(e, p, q, c, s);
    var square := 1.0 - Times(e, lib.cos(x));
    assert Square(legX) + Square(legY) == square;
    ScaledBetween(a, e, lib.cos(x));
    PositiveSquare(e, lib.cos(x));
    var t, nu := lib.atan2(legY, legX), TrueAnomaly(lib, o, x);
    NuIsTwice(lib, o, x);
    Promised(lib, legX, legY);
    Promised(lib, square, 0.0);
    Promised(lib, nu, 0.0);
    hide HalvesAt;
    AnomalyOfLegs(lib, nu, t, legX, legY, square);
    HalfSine(lib, x);
    PairOfProducts(p, q, s, c);
    Doubled(Times(p, q), Times(s, c));
    assert Times(square, lib.sin(nu)) == Times(lib.sqrt(1.0 - Square(e)), lib.sin(x));
    ThreeFactors(a, square, lib.cos(nu));
    ThreeFactors(a, square, lib.sin(nu));
  }

  lemma HalfSine(lib: Library, x: real)
    requires HalvesAt(lib, x)
    ensures lib.sin(x) == 2.0 * Times(lib.sin(x / 2.0), lib.cos(x / 2.0))
  {
  }

  lemma AnomalyOfLegs(lib: Library, nu: real, t: real, legX: real, legY: real, square: real)
    requires HalvesAt(lib, nu) && nu / 2.0 == t && RootAt(lib, square) && square > 0.0
    requires AngleAt(lib, legY, legX) && t == lib.atan2(legY, legX) && Square(legX) + Square(legY) == square
    ensures Times(square, lib.cos(nu)) == Square(legX) - Square(legY)
    ensures Times(square, lib.sin(nu)) == 2.0 * Times(legX, legY)
  {
    hide Times, Square;
    TwiceTheAngle(lib.sqrt(square), lib.cos(t), lib.sin(t), legX, legY);
  }

  lemma EllipseFacts(o: Orbit)
    requires IsEllipse(o)
    ensures o.semiMajorAxis > 0.0 && 0.0 <= o.eccentricity < 1.0
  {
  }

  lemma UnitAt(lib: Library, x: real)
    requires OnUnitCircle(lib)
    ensures Square(lib.sin(x)) + Square(lib.cos(x)) == 1.0
  {
    hide Square;
  }

  lemma PositiveSquare(e: real, c: real)
    requires 0.0 <= e < 1.0 && -1.0 <= c <= 1.0
    ensures 1.0 - Times(e, c) > 0.0
  {
    assert e * (1.0 - c) >= 0.0;
  }

  lemma NuIsTwice(lib: Library, o: Orbit, x: real)
    ensures var p, q := lib.sqrt(1.0 + o.eccentricity), lib.sqrt(1.0 - o.eccentricity);
      TrueAnomaly(lib, o, x) / 2.0 == lib.atan2(Times(p, lib.sin(x / 2.0)), Times(q, lib.cos(x / 2.0)))
  {
    hide Times;
  }

  /** For an ellipse and any eccentric anomaly E the position is the point with coordinates
      a (cos E - e) and a sqrt(1 - e^2) sin E in the plane of the orbit, turned into space. */
  lemma PositionOnEllipse(lib: Library, o: Orbit, x: real)
    requires IsTrigonometric(lib) && OnUnitCircle(lib) && IsEllipse(o)
    ensures var a, e := o.semiMajorAxis, o.eccentricity;
      PositionAt(lib, o, x)
      == Rotate(lib, o, Times(a, lib.cos(x) - e), Times(a, Times(lib.sqrt(1.0 - Square(e)), lib.sin(x))))
  {
    hide Rotate, IsTrigonometric, OnUnitCircle, IsEllipse, Times, Square, TrueAnomaly, Radius;
    PlanePosition(lib, o, x);
  }

  /** The mean anomaly grows by n per unit of time, where n^2 a^3 is the gravitational parameter. */
  lemma MeanMotion(lib: Library, o: Orbit, time: real) returns (n: real)
    requires IsTrigonometric(lib) && o.semiMajorAxis > 0.0
    ensures var a := o.semiMajorAxis; n >= 0.0 && Times(Square(n), Cube(a)) == 398600441800000.0
    ensures MeanAnomaly(lib, o, time) == o.meanAnomaly + Times(n, time)
  {
    hide IsTrigonometric, Square, Times, Cube;
    var cube := Cube(o.semiMajorAxis);
    PositiveCube(o.semiMajorAxis);
    n := lib.sqrt(MU / cube);
    PositiveQuotient(MU, cube);
    Promised(lib, MU / cube, 0.0);
  }

  lemma PositiveCube(a: real)
    requires a > 0.0
    ensures Cube(a) > 0.0
  {
    assert a * a > 0.0;
  }

  lemma PositiveQuotient(x: real, y: real)
    requires x > 0.0 && y > 0.0
    ensures x / y >= 0.0 && Times(x / y, y) == x
  {
  }

  /** Which way the three angles turn, by quarter turns: the argument of perigee and the node turn
      x towards y, the inclination turns y towards z. */
  lemma QuarterTurns(lib: Library, o: Orbit, rx: real, ry: real)
    requires lib.cos(0.0) == 1.0 && lib.sin(0.0) == 0.0
    ensures o.raan == 0.0 && o.argOfPerigee == 0.0 && o.inclination == 0.0 ==>
      Rotate(lib, o, rx, ry) == Vector(rx, ry, 0.0)
    ensures forall quarter :: lib.cos(quarter) == 0.0 && lib.sin(quarter) == 1.0 ==>
      (o.raan == 0.0 && o.argOfPerigee == quarter && o.inclination == 0.0 ==>
         Rotate(lib, o, rx, ry) == Vector(-ry, rx, 0.0))
      && (o.raan == quarter && o.argOfPerigee == 0.0 && o.inclination == 0.0 ==>
            Rotate(lib, o, rx, ry) == Vector(-ry, rx, 0.0))
      && (o.raan == 0.0 && o.argOfPerigee == 0.0 && o.inclination == quarter ==>
            Rotate(lib, o, rx, ry) == Vector(rx, 0.0, ry))
  {
  }
}
