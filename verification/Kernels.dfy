/** The scalar and 16-lane reductions of the distance kernels, over exact arithmetic. */
module Kernels {

  type Point = seq<real>

  function Square(x: real): real { x * x }

  /** The sum of squared component differences, accumulated left to right. */
  function SquaredL2(a: Point, b: Point): (r: real)
    requires |a| == |b|
    ensures r >= 0.0
  {
    var n := |a|;
    if n == 0 then 0.0 else SquaredL2(a[..n - 1], b[..n - 1]) + Square(a[n - 1] - b[n - 1])
  }

  /** The dot product, accumulated left to right. */
  function Dot(a: Point, b: Point): real
    requires |a| == |b|
  {
    var n := |a|;
    if n == 0 then 0.0 else Dot(a[..n - 1], b[..n - 1]) + a[n - 1] * b[n - 1]
  }

  // ---------------------------------------------------------------- lanes

  /** Eight double lanes. */
  type Lanes = s: seq<real> | |s| == 8 witness [0.0, 0.0, 0.0, 0.0, 0.0, 0.0, 0.0, 0.0]

  const ZERO: Lanes := [0.0, 0.0, 0.0, 0.0, 0.0, 0.0, 0.0, 0.0]

  /** Lane-wise a * b + c. */
  function FusedMultiplyAdd(a: Lanes, b: Lanes, c: Lanes): Lanes {
    [a[0] * b[0] + c[0], a[1] * b[1] + c[1], a[2] * b[2] + c[2], a[3] * b[3] + c[3],
     a[4] * b[4] + c[4], a[5] * b[5] + c[5], a[6] * b[6] + c[6], a[7] * b[7] + c[7]]
  }

  /** Lane-wise a - b. */
  function Subtract(a: Lanes, b: Lanes): Lanes {
    [a[0] - b[0], a[1] - b[1], a[2] - b[2], a[3] - b[3], a[4] - b[4], a[5] - b[5], a[6] - b[6], a[7] - b[7]]
  }

  /** The horizontal add: a tree of halves. */
  function ReduceAdd(v: Lanes): real {
    ((v[0] + v[4]) + (v[2] + v[6])) + ((v[1] + v[5]) + (v[3] + v[7]))
  }

  /** Eight consecutive components starting at `i`. */
  function Load(a: Point, i: nat): Lanes
    requires i + 8 <= |a|
  {
    a[i..i + 8]
  }

  lemma DotStep(a: Point, b: Point, i: nat)
    requires i < |a| && i < |b|
    ensures Dot(a[..i + 1], b[..i + 1]) == Dot(a[..i], b[..i]) + a[i] * b[i]
  {
    assert a[..i + 1][..i] == a[..i] && b[..i + 1][..i] == b[..i];
  }

  lemma SquaredL2Step(a: Point, b: Point, i: nat)
    requires i < |a| && i < |b|
    ensures SquaredL2(a[..i + 1], b[..i + 1]) == SquaredL2(a[..i], b[..i]) + Square(a[i] - b[i])
  {
    assert a[..i + 1][..i] == a[..i] && b[..i + 1][..i] == b[..i];
  }

  /** Eight components add the eight lane products. */
  lemma DotEight(a: Point, b: Point, i: nat)
    requires i + 8 <= |a| && i + 8 <= |b|
    ensures Dot(a[..i + 8], b[..i + 8])
            == Dot(a[..i], b[..i]) + ReduceAdd(FusedMultiplyAdd(Load(a, i), Load(b, i), ZERO))
  {
    DotStep(a, b, i); DotStep(a, b, i + 1); DotStep(a, b, i + 2); DotStep(a, b, i + 3);
    DotStep(a, b, i + 4); DotStep(a, b, i + 5); DotStep(a, b, i + 6); DotStep(a, b, i + 7);
    hide Dot;
  }

  lemma SquaredL2Eight(a: Point, b: Point, i: nat)
    requires i + 8 <= |a| && i + 8 <= |b|
    ensures var d := Subtract(Load(a, i), Load(b, i));
      SquaredL2(a[..i + 8], b[..i + 8]) == SquaredL2(a[..i], b[..i]) + ReduceAdd(FusedMultiplyAdd(d, d, ZERO))
  {
    SquaredL2Step(a, b, i); SquaredL2Step(a, b, i + 1); SquaredL2Step(a, b, i + 2); SquaredL2Step(a, b, i + 3);
    SquaredL2Step(a, b, i + 4); SquaredL2Step(a, b, i + 5); SquaredL2Step(a, b, i + 6); SquaredL2Step(a, b, i + 7);
    LaneSquares(Subtract(Load(a, i), Load(b, i)));
    hide SquaredL2, Square, ReduceAdd, FusedMultiplyAdd;
  }

  /** The horizontal add of a lane-wise square. */
  lemma LaneSquares(d: Lanes)
    ensures ReduceAdd(FusedMultiplyAdd(d, d, ZERO))
            == Square(d[0]) + Square(d[1]) + Square(d[2]) + Square(d[3])
               + Square(d[4]) + Square(d[5]) + Square(d[6]) + Square(d[7])
  {
  }

  /** Accumulating in lanes adds the lane products to the horizontal sum. */
  lemma ReduceAccumulates(a: Lanes, b: Lanes, acc: Lanes)
    ensures ReduceAdd(FusedMultiplyAdd(a, b, acc)) == ReduceAdd(acc) + ReduceAdd(FusedMultiplyAdd(a, b, ZERO))
  {
  }

  // ---------------------------------------------------------------- the kernels

  method ScalarL2Squared(a: Point, b: Point) returns (sum: real)
    requires |a| == |b|
    ensures sum == SquaredL2(a, b)
  {
    sum := 0.0;
    for i := 0 to |a|
      invariant sum == SquaredL2(a[..i], b[..i])
    {
      SquaredL2Step(a, b, i);
      var diff := a[i] - b[i];
      sum := sum + Square(diff);
    }
    assert a[..|a|] == a && b[..|b|] == b;
  }

  method ScalarDot(a: Point, b: Point) returns (sum: real)
    requires |a| == |b|
    ensures sum == Dot(a, b)
  {
    sum := 0.0;
    for i := 0 to |a|
      invariant sum == Dot(a[..i], b[..i])
    {
      DotStep(a, b, i);
      sum := sum + a[i] * b[i];
    }
    assert a[..|a|] == a && b[..|b|] == b;
  }

  /** The 16-lane kernel computes the scalar sum for every length. */
  method WideL2Squared(a: Point, b: Point) returns (sum: real)
    requires |a| == |b|
    ensures sum == SquaredL2(a, b)
  {
    hide SquaredL2, ReduceAdd, FusedMultiplyAdd, Subtract;
    var low, high := ZERO, ZERO;
    var i := 0;
    EmptyReductions(a, b);
    while i + 16 <= |a|
      invariant 0 <= i <= |a|
      invariant ReduceAdd(low) + ReduceAdd(high) == SquaredL2(a[..i], b[..i])
    {
      var diffLow := Subtract(Load(a, i), Load(b, i));
      var diffHigh := Subtract(Load(a, i + 8), Load(b, i + 8));
      SquaredL2Eight(a, b, i);
      SquaredL2Eight(a, b, i + 8);
      ReduceAccumulates(diffLow, diffLow, low);
      ReduceAccumulates(diffHigh, diffHigh, high);
      low := FusedMultiplyAdd(diffLow, diffLow, low);
      high := FusedMultiplyAdd(diffHigh, diffHigh, high);
      i := i + 16;
    }
    sum := ReduceAdd(low) + ReduceAdd(high);
    while i < |a|
      invariant 0 <= i <= |a|
      invariant sum == SquaredL2(a[..i], b[..i])
    {
      SquaredL2Step(a, b, i);
      var diff := a[i] - b[i];
      sum := sum + Square(diff);
      i := i + 1;
    }
    assert a[..i] == a && b[..i] == b;
  }

  method WideDot(a: Point, b: Point) returns (sum: real)
    requires |a| == |b|
    ensures sum == Dot(a, b)
  {
    hide Dot, ReduceAdd, FusedMultiplyAdd;
    var low, high := ZERO, ZERO;
    var i := 0;
    EmptyReductions(a, b);
    while i + 16 <= |a|
      invariant 0 <= i <= |a|
      invariant ReduceAdd(low) + ReduceAdd(high) == Dot(a[..i], b[..i])
    {
      DotEight(a, b, i);
      DotEight(a, b, i + 8);
      ReduceAccumulates(Load(a, i), Load(b, i), low);
      ReduceAccumulates(Load(a, i + 8), Load(b, i + 8), high);
      low := FusedMultiplyAdd(Load(a, i), Load(b, i), low);
      high := FusedMultiplyAdd(Load(a, i + 8), Load(b, i + 8), high);
      i := i + 16;
    }
    sum := ReduceAdd(low) + ReduceAdd(high);
    while i < |a|
      invariant 0 <= i <= |a|
      invariant sum == Dot(a[..i], b[..i])
    {
      DotStep(a, b, i);
      sum := sum + a[i] * b[i];
      i := i + 1;
    }
    assert a[..i] == a && b[..i] == b;
  }

  lemma EmptyReductions(a: Point, b: Point)
    ensures ReduceAdd(ZERO) == 0.0 && SquaredL2(a[..0], b[..0]) == 0.0 && Dot(a[..0], b[..0]) == 0.0
  {
  }

  // ---------------------------------------------------------------- what the reductions satisfy

  /** The squared distance expanded into the three dot products the cosine branch uses. */
  lemma {:induction false} L2FromDots(a: Point, b: Point)
    requires |a| == |b|
    ensures SquaredL2(a, b) == Dot(a, a) - 2.0 * Dot(a, b) + Dot(b, b)
    decreases |a|
  {
    if |a| > 0 {
      var n := |a| - 1;
      L2FromDots(a[..n], b[..n]);
      assert Square(a[n] - b[n]) == a[n] * a[n] - 2.0 * (a[n] * b[n]) + b[n] * b[n];
    }
  }

  lemma StrictSquares(x: real, y: real)
    requires 0.0 <= x < y
    ensures x * x < y * y
  {
    var d := y - x;
    assert d * d > 0.0;
    assert x * d >= 0.0;
    assert y * y == (x + d) * (x + d) == x * x + 2.0 * (x * d) + d * d;
  }

  lemma SquaresOrder(x: real, y: real)
    requires x >= 0.0 && y * y <= x * x
    ensures y <= x
  {
    if x < y { StrictSquares(x, y); }
  }

  lemma Scale(x: real, y: real, w: real)
    requires x <= y && w >= 0.0
    ensures x * w <= y * w
  {
  }

  /** 2 s (x y) <= a y^2 + b x^2 whenever s^2 <= a b. */
  lemma CrossTerm(s: real, a: real, b: real, x: real, y: real)
    requires a >= 0.0 && b >= 0.0 && s * s <= a * b
    ensures 2.0 * (s * (x * y)) <= a * (y * y) + b * (x * x)
  {
    var u, v, c := a * (y * y), b * (x * x), s * (x * y);
    assert y * y >= 0.0 && x * x >= 0.0;
    Scale(0.0, a, y * y);
    Scale(0.0, b, x * x);
    CrossSquares(s, a, b, x, y);
    TwiceMean(u, v, c);
  }

  lemma CrossSquares(s: real, a: real, b: real, x: real, y: real)
    requires s * s <= a * b
    ensures (s * (x * y)) * (s * (x * y)) <= (a * (y * y)) * (b * (x * x))
  {
    var w := (x * y) * (x * y);
    assert w >= 0.0;
    Scale(s * s, a * b, w);
    FourFactors(s, s, x * y, x * y);
    Interchange(a, b, x, y);
  }

  lemma FourFactors(a: real, b: real, x: real, y: real)
    ensures (a * x) * (b * y) == (a * b) * (x * y)
  {
    assert (a * x) * (b * y) == a * (x * (b * y));
    assert x * (b * y) == b * (x * y);
  }

  lemma Interchange(a: real, b: real, x: real, y: real)
    ensures (a * (y * y)) * (b * (x * x)) == (a * b) * ((x * y) * (x * y))
  {
    FourFactors(a, b, y * y, x * x);
    FourFactors(x, x, y, y);
  }

  /** What is below the geometric mean is below the arithmetic one. */
  lemma TwiceMean(u: real, v: real, c: real)
    requires u >= 0.0 && v >= 0.0 && c * c <= u * v
    ensures 2.0 * c <= u + v
  {
    assert (u + v) * (u + v) == (u - v) * (u - v) + 4.0 * (u * v);
    assert (u - v) * (u - v) >= 0.0;
    assert (2.0 * c) * (2.0 * c) == 4.0 * (c * c);
    SquaresOrder(u + v, 2.0 * c);
  }

  /** The cosine similarity lies in [-1, 1]: the clamp only absorbs rounding. */
  lemma {:induction false} CauchySchwarz(a: Point, b: Point)
    requires |a| == |b|
    ensures Dot(a, a) >= 0.0 && Dot(b, b) >= 0.0
    ensures Square(Dot(a, b)) <= Dot(a, a) * Dot(b, b)
    decreases |a|
  {
    if |a| > 0 {
      var n := |a| - 1;
      CauchySchwarz(a[..n], b[..n]);
      var s, p, q, x, y := Dot(a[..n], b[..n]), Dot(a[..n], a[..n]), Dot(b[..n], b[..n]), a[n], b[n];
      hide Dot;
      CrossTerm(s, p, q, x, y);
      GrownProduct(s, p, q, x, y);
    }
  }

  lemma GrownProduct(s: real, p: real, q: real, x: real, y: real)
    requires s * s <= p * q && 2.0 * (s * (x * y)) <= p * (y * y) + q * (x * x)
    ensures Square(s + x * y) <= (p + x * x) * (q + y * y)
    ensures x * x >= 0.0 && y * y >= 0.0
  {
    var xy := x * y;
    assert Square(s + xy) == s * s + 2.0 * (s * xy) + xy * xy;
    assert (p + x * x) * (q + y * y) == p * q + p * (y * y) + (x * x) * q + (x * x) * (y * y);
    assert xy * xy == (x * x) * (y * y);
  }
}
