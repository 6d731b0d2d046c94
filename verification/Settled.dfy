/** K-means over points that are their own centroids: nothing moves. */
module Settled {
  import opened Kernels
  import opened Lloyd

  lemma {:induction false} Apart(a: Point, b: Point)
    requires |a| == |b| && a != b
    ensures SquaredL2(a, b) > 0.0
    decreases |a|
  {
    var n := |a| - 1;
    if a[n] == b[n] {
      assert a == a[..n] + [a[n]] && b == b[..n] + [b[n]];
      Apart(a[..n], b[..n]);
    } else {
      SquarePositive(a[n] - b[n]);
    }
  }

  lemma ProductPositive(x: real, z: real, y: real)
    requires ((x > 0.0 && z > 0.0) || (x < 0.0 && z < 0.0)) && y == x * z
    ensures y > 0.0
    decreases x < 0.0
  {
    if x < 0.0 {
      assert (-x) * (-z) == y;
      ProductPositive(-x, -z, y);
    }
  }

  lemma SquarePositive(x: real)
    requires x != 0.0
    ensures Square(x) > 0.0
  {
    ProductPositive(x, x, Square(x));
  }

  lemma {:induction false} SelfDistance(a: Point)
    ensures SquaredL2(a, a) == 0.0
    decreases |a|
  {
    if a != [] { SelfDistance(a[..|a| - 1]); }
  }

  /** A point that is a centroid goes to a cell centred on it. */
  lemma NearestOwn(z: Point, centroids: seq<Point>)
    requires Shaped(centroids, |z|) && z in centroids
    ensures centroids[Nearest(z, centroids)] == z
  {
    var j :| 0 <= j < |centroids| && centroids[j] == z;
    SelfDistance(z);
    var c := centroids[Nearest(z, centroids)];
    assert SquaredL2(z, c) <= SquaredL2(z, centroids[j]);
    if c != z { Apart(z, c); }
  }

  /** The sum of equal points. */
  lemma {:induction false} EqualSum(points: seq<Point>, z: Point, dim: nat, d: nat)
    requires Shaped(points, dim) && |z| == dim && d < dim && forall i | 0 <= i < |points| :: points[i] == z
    ensures SumOf(points, dim)[d] == |points| as real * z[d]
    decreases |points|
  {
    var n := |points| - 1;
    if n >= 0 {
      EqualSum(points[..n], z, dim, d);
      SumSnoc(points, dim, d);
      hide SumOf, Plus;
      OneMoreTime(n, z[d]);
    }
  }

  lemma SumSnoc(points: seq<Point>, dim: nat, d: nat)
    requires Shaped(points, dim) && points != [] && d < dim
    ensures var n := |points| - 1; SumOf(points, dim)[d] == SumOf(points[..n], dim)[d] + points[n][d]
  {
  }

  lemma OneMoreTime(n: nat, x: real)
    ensures n as real * x + x == (n + 1) as real * x
  {
  }

  lemma TimesBack(n: nat, x: real, y: real)
    requires n > 0 && y == n as real * x
    ensures y / n as real == x
  {
  }

  /** The mean of equal points is the point. */
  lemma EqualMean(points: seq<Point>, z: Point, dim: nat)
    requires Shaped(points, dim) && |z| == dim && points != [] && forall i | 0 <= i < |points| :: points[i] == z
    ensures Divided(SumOf(points, dim), |points|) == z
  {
    hide SumOf;
    forall d | 0 <= d < dim ensures Divided(SumOf(points, dim), |points|)[d] == z[d] {
      EqualSum(points, z, dim, d);
      TimesBack(|points|, z[d], SumOf(points, dim)[d]);
    }
  }

  lemma {:induction false} MembersAre(points: seq<Point>, assignment: seq<nat>, c: nat, z: Point)
    requires |assignment| == |points| && forall i | 0 <= i < |points| && assignment[i] == c :: points[i] == z
    ensures forall i | 0 <= i < |MembersOf(points, assignment, c)| :: MembersOf(points, assignment, c)[i] == z
    decreases |points|
  {
    var n := |points| - 1;
    if n >= 0 { MembersAre(points[..n], assignment[..n], c, z); }
  }

  /** Points clustered around themselves leave every centroid in place: the members of a cell all equal its centroid,
      and of equal centroids all but the first stay empty. */
  lemma CentroidsStay(points: seq<Point>, centroids: seq<Point>, dim: nat)
    requires Shaped(points, dim) && Shaped(centroids, dim) && centroids != []
    requires forall i | 0 <= i < |points| :: points[i] in centroids
    ensures Recompute(Accumulate(points, Assign(points, centroids, dim), |centroids|, dim), centroids, dim) == centroids
  {
    var a := Assign(points, centroids, dim);
    forall i | 0 <= i < |points| ensures centroids[a[i]] == points[i] {
      NearestOwn(points[i], centroids);
    }
    hide Nearest, Assign, Zero, Plus, Divided, SumOf;
    var cells := Accumulate(points, a, |centroids|, dim);
    forall c | 0 <= c < |centroids| ensures Recompute(cells, centroids, dim)[c] == centroids[c] {
      AccumulateMembers(points, a, |centroids|, dim, c);
      MembersAre(points, a, c, centroids[c]);
      if MembersOf(points, a, c) != [] { EqualMean(MembersOf(points, a, c), centroids[c], dim); }
    }
  }

  lemma {:induction false} RunStays(points: seq<Point>, centroids: seq<Point>, dim: nat, n: nat)
    requires Shaped(points, dim) && Shaped(centroids, dim) && centroids != []
    requires forall i | 0 <= i < |points| :: points[i] in centroids
    ensures Run(points, centroids, dim, n).centroids == centroids
    decreases n
  {
    hide Assign, Recompute, Accumulate;
    if n > 0 {
      RunStays(points, centroids, dim, n - 1);
      CentroidsStay(points, centroids, dim);
    }
  }
}
