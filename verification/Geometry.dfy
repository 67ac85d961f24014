/** The projections of netlab/safety_shield.py, in exact arithmetic. The square root is a parameter. */
module Geometry {

  datatype Vec = Vec(x: real, y: real, z: real)

  const TINY := 0.000000000001

  /** math.sqrt, on the inputs it is applied to. */
  ghost predicate IsSqrt(sqrt: real -> real) {
    forall q :: q >= 0.0 ==> sqrt(q) >= 0.0 && sqrt(q) * sqrt(q) == q
  }

  function Square(a: real): real {
    a * a
  }

  lemma SquareNonNegative(a: real)
    ensures Square(a) >= 0.0
  {
  }

  function NormSquare(v: Vec): (q: real)
    ensures q >= 0.0
  {
    SquareNonNegative(v.x);
    SquareNonNegative(v.y);
    SquareNonNegative(v.z);
    Square(v.x) + Square(v.y) + Square(v.z)
  }

  function Minus(a: Vec, b: Vec): Vec {
    Vec(a.x - b.x, a.y - b.y, a.z - b.z)
  }

  function Along(a: Vec, d: Vec, scale: real): Vec {
    Vec(a.x + d.x * scale, a.y + d.y * scale, a.z + d.z * scale)
  }

  /** math.dist */
  function Dist(sqrt: real -> real, a: Vec, b: Vec): real {
    sqrt(NormSquare(Minus(a, b)))
  }

  function Max(a: real, b: real): real {
    if a < b then b else a
  }

  function Min(a: real, b: real): real {
    if b < a then b else a
  }

  function Abs(a: real): real {
    if a < 0.0 then -a else a
  }

  /** `_clamp` */
  function Clamp(value: real, lower: real, upper: real): real {
    Max(lower, Min(upper, value))
  }

  /** `_project_step` */
  function ProjectStep(sqrt: real -> real, current: Vec, target: Vec, maxDistance: real): Vec {
    var delta := Minus(target, current);
    var distance := sqrt(NormSquare(delta));
    if distance <= maxDistance || distance <= TINY then target
    else Along(current, delta, maxDistance / distance)
  }

  /** The correction of the third coordinate; math.copysign(step, delta) has the sign of delta. */
  function LimitVertical(current: Vec, stepped: Vec, maxStep: real): Vec {
    var delta := stepped.z - current.z;
    if Abs(delta) > maxStep then stepped.(z := current.z + (if delta < 0.0 then -maxStep else maxStep)) else stepped
  }

  predicate Between(a: real, b: real, c: real) {
    a <= b <= c || c <= b <= a
  }

  /** b lies in the box spanned by a and c. */
  predicate InBox(a: Vec, b: Vec, c: Vec) {
    Between(a.x, b.x, c.x) && Between(a.y, b.y, c.y) && Between(a.z, b.z, c.z)
  }

  // ---------------------------------------------------------------- clamping

  /** Clamping lands in the interval, and moves nothing that was there. */
  lemma ClampInside(value: real, lower: real, upper: real)
    requires lower <= upper
    ensures lower <= Clamp(value, lower, upper) <= upper
    ensures Clamp(value, lower, upper) == value <==> lower <= value <= upper
  {
  }

  // ---------------------------------------------------------------- steps

  lemma Shrunk(d: real, scale: real)
    requires 0.0 <= scale <= 1.0
    ensures Between(0.0, d * scale, d)
  {
  }

  lemma ScaleRange(maxDistance: real, distance: real)
    requires 0.0 <= maxDistance < distance
    ensures 0.0 <= maxDistance / distance <= 1.0 && maxDistance / distance * distance == maxDistance
  {
  }

  /** A step never leaves the box between where it starts and where it was going. */
  lemma StepBetween(sqrt: real -> real, current: Vec, target: Vec, maxDistance: real)
    requires maxDistance >= 0.0
    ensures InBox(current, ProjectStep(sqrt, current, target, maxDistance), target)
  {
    var delta := Minus(target, current);
    var distance := sqrt(NormSquare(delta));
    if distance > maxDistance && distance > TINY {
      var scale := maxDistance / distance;
      ScaleRange(maxDistance, distance);
      Shrunk(delta.x, scale);
      Shrunk(delta.y, scale);
      Shrunk(delta.z, scale);
    }
  }

  lemma SquareOfProduct(a: real, b: real)
    ensures Square(a * b) == Square(a) * Square(b)
  {
  }

  lemma Distribute(s: real, a: real, b: real, c: real)
    ensures a * s + b * s + c * s == (a + b + c) * s
  {
  }

  lemma AlongNorm(a: Vec, d: Vec, scale: real)
    ensures NormSquare(Minus(Along(a, d, scale), a)) == NormSquare(d) * Square(scale)
  {
    SquareOfProduct(d.x, scale);
    SquareOfProduct(d.y, scale);
    SquareOfProduct(d.z, scale);
    Distribute(Square(scale), Square(d.x), Square(d.y), Square(d.z));
  }

  lemma SquareOrder(a: real, b: real)
    requires 0.0 <= a <= b
    ensures Square(a) <= Square(b)
  {
  }

  lemma SquareStrict(a: real, b: real)
    requires 0.0 <= a < b
    ensures Square(a) < Square(b)
  {
    assert b * b - a * a == (b - a) * (b + a);
    Positive(b - a, b + a);
  }

  lemma Positive(a: real, b: real)
    requires a > 0.0 && b > 0.0
    ensures a * b > 0.0
  {
  }

  /** A square root is at most m when the square is at most m squared. */
  lemma SqrtBound(sqrt: real -> real, q: real, m: real)
    requires IsSqrt(sqrt) && 0.0 <= q <= Square(m) && m >= 0.0
    ensures sqrt(q) <= m
  {
    if sqrt(q) > m {
      SquareStrict(m, sqrt(q));
    }
  }

  lemma SqrtOrder(sqrt: real -> real, q: real, r: real)
    requires IsSqrt(sqrt) && 0.0 <= q <= r
    ensures sqrt(q) <= sqrt(r)
  {
    SqrtBound(sqrt, q, sqrt(r));
  }

  // ---------------------------------------------------------------- distances in coordinates

  /** The two positions are at least d apart. */
  predicate Apart(a: Vec, b: Vec, d: real) {
    d <= 0.0 || (a.x - b.x) * (a.x - b.x) + (a.y - b.y) * (a.y - b.y) + (a.z - b.z) * (a.z - b.z) >= d * d
  }

  /** The two positions are at most d apart. */
  predicate Near(a: Vec, b: Vec, d: real) {
    d >= 0.0 && (a.x - b.x) * (a.x - b.x) + (a.y - b.y) * (a.y - b.y) + (a.z - b.z) * (a.z - b.z) <= d * d
  }

  /** `math.dist` decides both. */
  lemma DistDecides(sqrt: real -> real, a: Vec, b: Vec, d: real)
    requires IsSqrt(sqrt)
    ensures Dist(sqrt, a, b) >= d <==> Apart(a, b, d)
    ensures Dist(sqrt, a, b) <= d <==> Near(a, b, d)
  {
    var q := NormSquare(Minus(a, b));
    var distance := Dist(sqrt, a, b);
    assert q == (a.x - b.x) * (a.x - b.x) + (a.y - b.y) * (a.y - b.y) + (a.z - b.z) * (a.z - b.z);
    assert distance >= 0.0 && Square(distance) == q;
    RootOrder(distance, d);
  }

  lemma RootOrder(a: real, d: real)
    requires a >= 0.0
    ensures a >= d <==> d <= 0.0 || Square(a) >= Square(d)
    ensures a <= d <==> d >= 0.0 && Square(a) <= Square(d)
  {
    if 0.0 <= d < a {
      SquareStrict(d, a);
    } else if a < d {
      SquareStrict(a, d);
    }
  }

  lemma ScaledSquare(q: real, distance: real, maxDistance: real)
    requires 0.0 <= maxDistance < distance && q == Square(distance)
    ensures q * Square(maxDistance / distance) == Square(maxDistance)
  {
    ScaleRange(maxDistance, distance);
    SquareOfProduct(maxDistance / distance, distance);
  }

  lemma ScaledLength(sqrt: real -> real, current: Vec, delta: Vec, scale: real, maxDistance: real)
    requires IsSqrt(sqrt) && maxDistance >= 0.0 && NormSquare(delta) * Square(scale) == Square(maxDistance)
    ensures Dist(sqrt, Along(current, delta, scale), current) <= maxDistance
  {
    AlongNorm(current, delta, scale);
    SqrtBound(sqrt, NormSquare(Minus(Along(current, delta, scale), current)), maxDistance);
  }

  /** A step is no longer than the limit, up to the tolerance below which it is not shortened. */
  lemma StepLength(sqrt: real -> real, current: Vec, target: Vec, maxDistance: real)
    requires IsSqrt(sqrt) && maxDistance >= 0.0
    ensures Dist(sqrt, ProjectStep(sqrt, current, target, maxDistance), current) <= Max(maxDistance, TINY)
  {
    var delta := Minus(target, current);
    var distance := sqrt(NormSquare(delta));
    if distance > maxDistance && distance > TINY {
      ScaledSquare(NormSquare(delta), distance, maxDistance);
      ScaledLength(sqrt, current, delta, maxDistance / distance, maxDistance);
    }
  }

  /** b lies on the line from a to c, the given part of the way. */
  predicate PartWay(a: Vec, b: Vec, c: Vec, part: real) {
    && 0.0 <= part <= 1.0
    && b.x - a.x == (c.x - a.x) * part && b.y - a.y == (c.y - a.y) * part && b.z - a.z == (c.z - a.z) * part
  }

  lemma LengthIs(a: Vec, b: Vec, d: real)
    requires d >= 0.0 && NormSquare(Minus(a, b)) == Square(d)
    ensures Near(a, b, d) && Apart(a, b, d)
  {
  }

  lemma AlongIsPartWay(current: Vec, target: Vec, part: real)
    requires 0.0 <= part <= 1.0
    ensures PartWay(current, Along(current, Minus(target, current), part), target, part)
  {
  }

  /** A target that is too far away is approached on a straight line by exactly the limit. */
  lemma StepApproaches(sqrt: real -> real, current: Vec, target: Vec, maxDistance: real) returns (part: real)
    requires IsSqrt(sqrt) && maxDistance >= 0.0 && !Near(target, current, maxDistance) && !Near(target, current, 0.000000000001)
    ensures var r := ProjectStep(sqrt, current, target, maxDistance);
            Near(r, current, maxDistance) && Apart(r, current, maxDistance) && PartWay(current, r, target, part)
  {
    hide Near, Apart, PartWay, Along, Minus, NormSquare, Square;
    var delta := Minus(target, current);
    var distance := sqrt(NormSquare(delta));
    DistDecides(sqrt, target, current, maxDistance);
    DistDecides(sqrt, target, current, 0.000000000001);
    part := maxDistance / distance;
    ScaleRange(maxDistance, distance);
    assert NormSquare(delta) == Square(distance) by { SqrtSquare(sqrt, NormSquare(delta)); }
    ScaledSquare(NormSquare(delta), distance, maxDistance);
    AlongNorm(current, delta, part);
    LengthIs(Along(current, delta, part), current, maxDistance);
    AlongIsPartWay(current, target, part);
  }

  lemma SqrtSquare(sqrt: real -> real, q: real)
    requires IsSqrt(sqrt) && q >= 0.0
    ensures Square(sqrt(q)) == q
  {
  }

  /** The vertical correction stays between, limits the climb, and shortens the step. */
  lemma VerticalLimit(sqrt: real -> real, current: Vec, stepped: Vec, maxStep: real)
    requires IsSqrt(sqrt) && maxStep >= 0.0
    ensures var r := LimitVertical(current, stepped, maxStep);
            && Abs(r.z - current.z) == Min(maxStep, Abs(stepped.z - current.z)) && r.x == stepped.x && r.y == stepped.y
            && Abs(r.z - current.z) <= maxStep && InBox(current, r, stepped)
            && Dist(sqrt, r, current) <= Dist(sqrt, stepped, current)
  {
    var r := LimitVertical(current, stepped, maxStep);
    var before, after := stepped.z - current.z, r.z - current.z;
    SquareOrder(Abs(after), Abs(before));
    SquareAbs(after);
    SquareAbs(before);
    SqrtOrder(sqrt, NormSquare(Minus(r, current)), NormSquare(Minus(stepped, current)));
  }

  lemma SquareAbs(a: real)
    ensures Square(Abs(a)) == Square(a)
  {
  }

  lemma BoxTrans(a: Vec, b: Vec, c: Vec, d: Vec)
    requires InBox(a, b, d) && InBox(a, c, b)
    ensures InBox(a, c, d)
  {
  }

  /** The bound is the configured distance exactly when that is at least the tolerance: a shorter limit is
      exceeded by a target within the tolerance. */
  lemma ToleranceExceedsLimit(sqrt: real -> real, current: Vec, maxDistance: real)
    requires IsSqrt(sqrt) && 0.0 <= maxDistance < TINY
    ensures var target := current.(x := current.x + TINY);
            Dist(sqrt, ProjectStep(sqrt, current, target, maxDistance), current) > maxDistance
  {
    var target := current.(x := current.x + TINY);
    var delta := Minus(target, current);
    assert NormSquare(delta) == Square(TINY);
    SqrtBound(sqrt, Square(TINY), TINY);
    if sqrt(Square(TINY)) <= maxDistance {
      SquareOrder(sqrt(Square(TINY)), maxDistance);
      SquareStrict(maxDistance, TINY);
    }
  }
}
