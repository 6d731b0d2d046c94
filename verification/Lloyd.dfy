/** Lloyd's k-means over exact arithmetic: the iteration, its descent, and its fixed points. */
module Lloyd {
  import opened Kernels

  const MAX_ITERATIONS: nat := 12

  /** Every point has `dim` components. */
  predicate Shaped(points: seq<Point>, dim: nat) { forall i | 0 <= i < |points| :: |points[i]| == dim }

  predicate Within(assignment: seq<nat>, k: nat) { forall i | 0 <= i < |assignment| :: assignment[i] < k }

  // ---------------------------------------------------------------- assignment

  /** The nearest centroid, the lowest index among equals. */
  function Nearest(p: Point, centroids: seq<Point>): (c: nat)
    requires centroids != [] && Shaped(centroids, |p|)
    ensures c < |centroids|
    ensures forall j | 0 <= j < |centroids| :: SquaredL2(p, centroids[c]) <= SquaredL2(p, centroids[j])
    ensures forall j | 0 <= j < c :: SquaredL2(p, centroids[c]) < SquaredL2(p, centroids[j])
  {
    var n := |centroids| - 1;
    if n == 0 then 0
    else
      var c := Nearest(p, centroids[..n]);
      assert forall j | 0 <= j < n :: centroids[..n][j] == centroids[j];
      if SquaredL2(p, centroids[n]) < SquaredL2(p, centroids[c]) then n else c
  }

  function Assign(points: seq<Point>, centroids: seq<Point>, dim: nat): (a: seq<nat>)
    requires Shaped(points, dim) && Shaped(centroids, dim) && centroids != []
    ensures |a| == |points| && Within(a, |centroids|)
  {
    seq<nat>(|points|, i requires 0 <= i < |points| => Nearest(points[i], centroids))
  }

  /** The total squared distance of the points to their assigned centroids. */
  function Cost(points: seq<Point>, assignment: seq<nat>, centroids: seq<Point>, dim: nat): real
    requires Shaped(points, dim) && Shaped(centroids, dim)
    requires |assignment| == |points| && Within(assignment, |centroids|)
  {
    var n := |points| - 1;
    if n < 0 then 0.0
    else Cost(points[..n], assignment[..n], centroids, dim) + SquaredL2(points[n], centroids[assignment[n]])
  }

  /** Moving every point to its nearest centroid does not raise the cost. */
  lemma {:induction false} ReassignDescends(points: seq<Point>, assignment: seq<nat>, centroids: seq<Point>, dim: nat)
    requires Shaped(points, dim) && Shaped(centroids, dim) && centroids != []
    requires |assignment| == |points| && Within(assignment, |centroids|)
    ensures Cost(points, Assign(points, centroids, dim), centroids, dim) <= Cost(points, assignment, centroids, dim)
    decreases |points|
  {
    var n := |points| - 1;
    if n >= 0 {
      ReassignDescends(points[..n], assignment[..n], centroids, dim);
      assert Assign(points, centroids, dim)[..n] == Assign(points[..n], centroids, dim);
      hide SquaredL2;
    }
  }

  // ---------------------------------------------------------------- centroids

  /** The running sum and count of one cell. */
  datatype Cell = Cell(sum: Point, count: nat)

  function Zero(dim: nat): Point { seq(dim, _ => 0.0) }

  function Plus(a: Point, b: Point): Point
    requires |a| == |b|
  {
    seq(|a|, d requires 0 <= d < |a| => a[d] + b[d])
  }

  function Divided(a: Point, n: nat): Point
    requires n > 0
  {
    seq(|a|, d requires 0 <= d < |a| => a[d] / n as real)
  }

  predicate CellsShaped(cells: seq<Cell>, dim: nat) { forall c | 0 <= c < |cells| :: |cells[c].sum| == dim }

  /** The sums and counts of the cells after one pass over the points. */
  function Accumulate(points: seq<Point>, assignment: seq<nat>, k: nat, dim: nat): (cells: seq<Cell>)
    requires Shaped(points, dim) && |assignment| == |points| && Within(assignment, k)
    ensures |cells| == k && CellsShaped(cells, dim)
  {
    var n := |points| - 1;
    if n < 0 then seq(k, _ => Cell(Zero(dim), 0))
    else
      var cells := Accumulate(points[..n], assignment[..n], k, dim);
      cells[assignment[n] := Grown(cells[assignment[n]], points[n])]
  }

  function Grown(cell: Cell, p: Point): Cell
    requires |cell.sum| == |p|
  {
    Cell(Plus(cell.sum, p), cell.count + 1)
  }

  /** The new centroids: the mean of a cell's members; an empty cell keeps its centroid. */
  function Recompute(cells: seq<Cell>, centroids: seq<Point>, dim: nat): (r: seq<Point>)
    requires |cells| == |centroids| && CellsShaped(cells, dim) && Shaped(centroids, dim)
    ensures |r| == |centroids| && Shaped(r, dim)
  {
    seq(|cells|, c requires 0 <= c < |cells| =>
      if cells[c].count == 0 then centroids[c] else Divided(cells[c].sum, cells[c].count))
  }

  /** The members of one cell, in point order. */
  function MembersOf(points: seq<Point>, assignment: seq<nat>, c: nat): (r: seq<Point>)
    requires |assignment| == |points|
    ensures forall p | p in r :: p in points
  {
    var n := |points| - 1;
    if n < 0 then []
    else MembersOf(points[..n], assignment[..n], c) + if assignment[n] == c then [points[n]] else []
  }

  function SumOf(points: seq<Point>, dim: nat): (r: Point)
    requires Shaped(points, dim)
    ensures |r| == dim
  {
    var n := |points| - 1;
    if n < 0 then Zero(dim) else Plus(SumOf(points[..n], dim), points[n])
  }

  /** The component-wise mean of a non-empty list of points. */
  function Mean(points: seq<Point>, dim: nat): Point
    requires Shaped(points, dim) && points != []
  {
    Divided(SumOf(points, dim), |points|)
  }

  lemma MembersShaped(points: seq<Point>, assignment: seq<nat>, c: nat, dim: nat)
    requires Shaped(points, dim) && |assignment| == |points|
    ensures Shaped(MembersOf(points, assignment, c), dim)
  {
    var m := MembersOf(points, assignment, c);
    forall i | 0 <= i < |m| ensures |m[i]| == dim { assert m[i] in points; }
  }

  lemma SumOfSnoc(points: seq<Point>, p: Point, dim: nat)
    requires Shaped(points, dim) && |p| == dim
    ensures Shaped(points + [p], dim) && SumOf(points + [p], dim) == Plus(SumOf(points, dim), p)
  {
    assert (points + [p])[..|points|] == points;
  }

  /** The running sums and counts are those of each cell's members. */
  lemma {:induction false} AccumulateMembers(points: seq<Point>, assignment: seq<nat>, k: nat, dim: nat, c: nat)
    requires Shaped(points, dim) && |assignment| == |points| && Within(assignment, k) && c < k
    ensures Shaped(MembersOf(points, assignment, c), dim)
    ensures var m := MembersOf(points, assignment, c);
      Accumulate(points, assignment, k, dim)[c] == Cell(SumOf(m, dim), |m|)
    decreases |points|
  {
    MembersShaped(points, assignment, c, dim);
    var n := |points| - 1;
    if n >= 0 {
      AccumulateMembers(points[..n], assignment[..n], k, dim, c);
      var m := MembersOf(points[..n], assignment[..n], c);
      SumOfSnoc(m, points[n], dim);
      assert m + [] == m;
    }
  }

  // ---------------------------------------------------------------- the mean minimises

  lemma {:induction false} DotPlus(a: Point, b: Point, z: Point)
    requires |a| == |b| == |z|
    ensures Dot(Plus(a, b), z) == Dot(a, z) + Dot(b, z)
    decreases |z|
  {
    if |z| > 0 {
      var n := |z| - 1;
      DotPlus(a[..n], b[..n], z[..n]);
      assert Plus(a, b)[..n] == Plus(a[..n], b[..n]);
      assert (a[n] + b[n]) * z[n] == a[n] * z[n] + b[n] * z[n];
    }
  }

  lemma {:induction false} DotDivided(a: Point, z: Point, k: nat)
    requires |a| == |z| && k > 0
    ensures k as real * Dot(Divided(a, k), z) == Dot(a, z)
    decreases |z|
  {
    if |z| > 0 {
      var n := |z| - 1;
      DotDivided(a[..n], z[..n], k);
      DividedLast(a, k);
      DotLast(a, z);
      DotLast(Divided(a, k), z);
      hide Dot, Divided;
      TermDivided(a[n], z[n], k as real, Dot(Divided(a[..n], k), z[..n]));
    }
  }

  lemma DotLast(a: Point, z: Point)
    requires |a| == |z| > 0
    ensures Dot(a, z) == Dot(a[..|a| - 1], z[..|a| - 1]) + a[|a| - 1] * z[|a| - 1]
  {
  }

  lemma DividedLast(a: Point, k: nat)
    requires |a| > 0 && k > 0
    ensures var n := |a| - 1; Divided(a, k)[..n] == Divided(a[..n], k) && Divided(a, k)[n] == a[n] / k as real
  {
  }

  lemma TermDivided(x: real, z: real, k: real, rest: real)
    requires k > 0.0
    ensures k * (rest + x / k * z) == k * rest + x * z
  {
    assert k * (x / k) == x;
    assert k * (x / k * z) == (k * (x / k)) * z;
  }

  lemma {:induction false} DotZero(z: Point)
    ensures Dot(Zero(|z|), z) == 0.0
    decreases |z|
  {
    if |z| > 0 {
      var n := |z| - 1;
      DotZero(z[..n]);
      assert Zero(|z|)[..n] == Zero(n);
    }
  }

  /** The part of a cell's cost that depends on its centroid `z`. */
  function CellEnergy(cell: Cell, z: Point): real
    requires |cell.sum| == |z|
  {
    cell.count as real * Dot(z, z) - 2.0 * Dot(cell.sum, z)
  }

  function Energy(cells: seq<Cell>, centroids: seq<Point>, dim: nat): real
    requires |cells| == |centroids| && CellsShaped(cells, dim) && Shaped(centroids, dim)
  {
    var n := |cells| - 1;
    if n < 0 then 0.0 else Energy(cells[..n], centroids[..n], dim) + CellEnergy(cells[n], centroids[n])
  }

  function Norms(points: seq<Point>): real {
    var n := |points| - 1;
    if n < 0 then 0.0 else Norms(points[..n]) + Dot(points[n], points[n])
  }

  /** The mean of a cell has the least energy. */
  lemma MeanMinimises(cell: Cell, z: Point)
    requires |cell.sum| == |z| && cell.count > 0
    ensures CellEnergy(cell, Divided(cell.sum, cell.count)) <= CellEnergy(cell, z)
  {
    var mean, n := Divided(cell.sum, cell.count), cell.count as real;
    DotDivided(cell.sum, z, cell.count);
    DotDivided(cell.sum, mean, cell.count);
    L2FromDots(mean, z);
    hide Dot, Divided;
    MeanArithmetic(n, Dot(mean, mean), Dot(mean, z), Dot(z, z));
  }

  /** n (mm - 2 mz + zz) >= 0 rearranged. */
  lemma MeanArithmetic(n: real, mm: real, mz: real, zz: real)
    requires n >= 0.0 && mm - 2.0 * mz + zz >= 0.0
    ensures n * mm - 2.0 * (n * mm) <= n * zz - 2.0 * (n * mz)
  {
    assert n * (mm - 2.0 * mz + zz) >= 0.0;
    assert n * (mm - 2.0 * mz + zz) == n * mm - 2.0 * (n * mz) + n * zz;
  }

  lemma GrownArithmetic(n: nat, zz: real, sz: real, pz: real, pp: real)
    ensures (n + 1) as real * zz - 2.0 * (sz + pz) == n as real * zz - 2.0 * sz + (pp - 2.0 * pz + zz) - pp
  {
    assert (n + 1) as real == n as real + 1.0;
  }

  lemma GrownEnergy(cell: Cell, p: Point, z: Point)
    requires |cell.sum| == |p| == |z|
    ensures CellEnergy(Grown(cell, p), z) == CellEnergy(cell, z) + SquaredL2(p, z) - Dot(p, p)
  {
    hide Dot, SquaredL2, Plus;
    DotPlus(cell.sum, p, z);
    L2FromDots(p, z);
    GrownArithmetic(cell.count, Dot(z, z), Dot(cell.sum, z), Dot(p, z), Dot(p, p));
  }

  lemma {:induction false} EnergyUpdate(cells: seq<Cell>, centroids: seq<Point>, dim: nat, c: nat, x: Cell)
    requires |cells| == |centroids| && CellsShaped(cells, dim) && Shaped(centroids, dim) && c < |cells|
    requires |x.sum| == dim
    ensures Energy(cells[c := x], centroids, dim)
            == Energy(cells, centroids, dim) - CellEnergy(cells[c], centroids[c]) + CellEnergy(x, centroids[c])
    decreases |cells|
  {
    var n := |cells| - 1;
    if c < n {
      EnergyUpdate(cells[..n], centroids[..n], dim, c, x);
      assert cells[c := x][..n] == cells[..n][c := x];
    } else {
      assert cells[c := x][..n] == cells[..n];
    }
  }

  lemma {:induction false} EmptyEnergy(centroids: seq<Point>, dim: nat)
    requires Shaped(centroids, dim)
    ensures Energy(seq(|centroids|, _ => Cell(Zero(dim), 0)), centroids, dim) == 0.0
    decreases |centroids|
  {
    var n := |centroids| - 1;
    if n >= 0 {
      EmptyEnergy(centroids[..n], dim);
      var all := seq(|centroids|, _ => Cell(Zero(dim), 0));
      assert all[..n] == seq(n, _ => Cell(Zero(dim), 0));
      DotZero(centroids[n]);
      hide Dot;
    }
  }

  /** The cost is a constant of the points plus the energy of the accumulated cells. */
  lemma {:induction false} CostIsEnergy(points: seq<Point>, assignment: seq<nat>, centroids: seq<Point>, dim: nat)
    requires Shaped(points, dim) && Shaped(centroids, dim)
    requires |assignment| == |points| && Within(assignment, |centroids|)
    ensures Cost(points, assignment, centroids, dim)
            == Norms(points) + Energy(Accumulate(points, assignment, |centroids|, dim), centroids, dim)
    decreases |points|
  {
    hide CellEnergy, Energy, SquaredL2, Dot, Grown;
    var n := |points| - 1;
    if n < 0 {
      EmptyEnergy(centroids, dim);
    } else {
      CostIsEnergy(points[..n], assignment[..n], centroids, dim);
      var cells, c := Accumulate(points[..n], assignment[..n], |centroids|, dim), assignment[n];
      GrownShape(cells[c], points[n]);
      EnergyUpdate(cells, centroids, dim, c, Grown(cells[c], points[n]));
      GrownEnergy(cells[c], points[n], centroids[c]);
    }
  }

  lemma GrownShape(cell: Cell, p: Point)
    requires |cell.sum| == |p|
    ensures |Grown(cell, p).sum| == |p|
  {
  }

  lemma {:induction false} RecomputeEnergy(cells: seq<Cell>, centroids: seq<Point>, dim: nat)
    requires |cells| == |centroids| && CellsShaped(cells, dim) && Shaped(centroids, dim)
    ensures Energy(cells, Recompute(cells, centroids, dim), dim) <= Energy(cells, centroids, dim)
    decreases |cells|
  {
    hide CellEnergy, Divided;
    var n := |cells| - 1;
    if n >= 0 {
      RecomputeEnergy(cells[..n], centroids[..n], dim);
      assert Recompute(cells, centroids, dim)[..n] == Recompute(cells[..n], centroids[..n], dim);
      if cells[n].count > 0 { MeanMinimises(cells[n], centroids[n]); }
    }
  }

  /** Replacing the centroids by the means does not raise the cost. */
  lemma RecomputeDescends(points: seq<Point>, assignment: seq<nat>, centroids: seq<Point>, dim: nat)
    requires Shaped(points, dim) && Shaped(centroids, dim)
    requires |assignment| == |points| && Within(assignment, |centroids|)
    ensures var next := Recompute(Accumulate(points, assignment, |centroids|, dim), centroids, dim);
      Cost(points, assignment, next, dim) <= Cost(points, assignment, centroids, dim)
  {
    hide Cost, Energy, Norms, Recompute, Accumulate;
    var cells := Accumulate(points, assignment, |centroids|, dim);
    CostIsEnergy(points, assignment, centroids, dim);
    CostIsEnergy(points, assignment, Recompute(cells, centroids, dim), dim);
    RecomputeEnergy(cells, centroids, dim);
  }

  // ---------------------------------------------------------------- the iteration

  datatype State = State(centroids: seq<Point>, assignment: seq<nat>)

  ghost predicate Consistent(s: State, points: seq<Point>, k: nat, dim: nat) {
    && Shaped(s.centroids, dim) && |s.centroids| == k
    && |s.assignment| == |points| && Within(s.assignment, k)
  }

  /** One Lloyd iteration. */
  function Round(points: seq<Point>, s: State, dim: nat): (r: State)
    requires Shaped(points, dim) && Shaped(s.centroids, dim) && s.centroids != []
    ensures Consistent(r, points, |s.centroids|, dim)
  {
    var a := Assign(points, s.centroids, dim);
    State(Recompute(Accumulate(points, a, |s.centroids|, dim), s.centroids, dim), a)
  }

  /** The state after `n` iterations; every point starts in cell 0. */
  function Run(points: seq<Point>, initial: seq<Point>, dim: nat, n: nat): (r: State)
    requires Shaped(points, dim) && Shaped(initial, dim) && initial != []
    ensures Consistent(r, points, |initial|, dim)
  {
    if n == 0 then State(initial, seq<nat>(|points|, _ => 0))
    else Round(points, Run(points, initial, dim, n - 1), dim)
  }

  /** Iteration `n` left every assignment as it was, and is not the first. */
  predicate Converged(points: seq<Point>, initial: seq<Point>, dim: nat, n: nat)
    requires Shaped(points, dim) && Shaped(initial, dim) && initial != []
  {
    n >= 2 && Run(points, initial, dim, n).assignment == Run(points, initial, dim, n - 1).assignment
  }

  /** The number of iterations made: the first that converges from `n` on, or the cap. */
  function Rounds(points: seq<Point>, initial: seq<Point>, dim: nat, n: nat): (r: nat)
    requires Shaped(points, dim) && Shaped(initial, dim) && initial != [] && 1 <= n <= MAX_ITERATIONS
    ensures n <= r <= MAX_ITERATIONS
    ensures r < MAX_ITERATIONS ==> Converged(points, initial, dim, r)
    decreases MAX_ITERATIONS - n
  {
    if n == MAX_ITERATIONS || Converged(points, initial, dim, n) then n else Rounds(points, initial, dim, n + 1)
  }

  /** No iteration before the one that k-means stops at left every assignment as it was. */
  lemma {:induction false} StopsAtFirst(points: seq<Point>, initial: seq<Point>, dim: nat, n: nat, m: nat)
    requires Shaped(points, dim) && Shaped(initial, dim) && initial != [] && 1 <= n <= m <= MAX_ITERATIONS
    ensures m < Rounds(points, initial, dim, n) ==> !Converged(points, initial, dim, m)
    decreases MAX_ITERATIONS - n
  {
    hide Converged;
    if n < m { StopsAtFirst(points, initial, dim, n + 1, m); }
  }

  /** The final state of k-means. */
  function Clustered(points: seq<Point>, initial: seq<Point>, dim: nat): (r: State)
    requires Shaped(points, dim) && Shaped(initial, dim) && initial != []
    ensures Consistent(r, points, |initial|, dim)
  {
    Run(points, initial, dim, Rounds(points, initial, dim, 1))
  }

  function StateCost(points: seq<Point>, s: State, dim: nat): real
    requires Shaped(points, dim) && Consistent(s, points, |s.centroids|, dim)
  {
    Cost(points, s.assignment, s.centroids, dim)
  }

  lemma RoundDescends(points: seq<Point>, s: State, dim: nat)
    requires Shaped(points, dim) && Consistent(s, points, |s.centroids|, dim) && s.centroids != []
    ensures StateCost(points, Round(points, s, dim), dim) <= StateCost(points, s, dim)
  {
    hide Cost, Recompute, Accumulate, Assign;
    ReassignDescends(points, s.assignment, s.centroids, dim);
    RecomputeDescends(points, Assign(points, s.centroids, dim), s.centroids, dim);
  }

  lemma RunStep(points: seq<Point>, initial: seq<Point>, dim: nat, n: nat)
    requires Shaped(points, dim) && Shaped(initial, dim) && initial != []
    ensures Run(points, initial, dim, n + 1) == Round(points, Run(points, initial, dim, n), dim)
  {
    hide Round;
  }

  /** The cost never rises over a run. */
  lemma {:induction false} CostDescends(points: seq<Point>, initial: seq<Point>, dim: nat, m: nat, n: nat)
    requires Shaped(points, dim) && Shaped(initial, dim) && initial != [] && m <= n
    ensures StateCost(points, Run(points, initial, dim, n), dim) <= StateCost(points, Run(points, initial, dim, m), dim)
    decreases n
  {
    hide StateCost, Round, Run;
    if m < n {
      CostDescends(points, initial, dim, m, n - 1);
      RunStep(points, initial, dim, n - 1);
      RoundDescends(points, Run(points, initial, dim, n - 1), dim);
    }
  }

  /** Means recomputed from unchanged cells change nothing. */
  lemma RecomputeIdempotent(cells: seq<Cell>, centroids: seq<Point>, dim: nat)
    requires |cells| == |centroids| && CellsShaped(cells, dim) && Shaped(centroids, dim)
    ensures var once := Recompute(cells, centroids, dim); Recompute(cells, once, dim) == once
  {
    hide Divided;
  }

  /** The state a convergence stop leaves: the last recomputation changed nothing. */
  lemma ConvergedIsFixed(points: seq<Point>, initial: seq<Point>, dim: nat, n: nat)
    requires Shaped(points, dim) && Shaped(initial, dim) && initial != [] && Converged(points, initial, dim, n)
    ensures Run(points, initial, dim, n) == Run(points, initial, dim, n - 1)
    ensures var s := Run(points, initial, dim, n); Round(points, s, dim) == s
  {
    hide Recompute, Accumulate, Assign;
    var k := |initial|;
    var s0, s1, s2 := Run(points, initial, dim, n - 2), Run(points, initial, dim, n - 1), Run(points, initial, dim, n);
    var a := s2.assignment;
    assert s1 == Round(points, s0, dim) && s2 == Round(points, s1, dim);
    RecomputeIdempotent(Accumulate(points, a, k, dim), s0.centroids, dim);
  }

  /** No stop but convergence ends the run early, and a converged run stays where it is. */
  lemma {:induction false} ConvergedStays(points: seq<Point>, initial: seq<Point>, dim: nat, n: nat, m: nat)
    requires Shaped(points, dim) && Shaped(initial, dim) && initial != [] && Converged(points, initial, dim, n)
    requires n <= m
    ensures Run(points, initial, dim, m) == Run(points, initial, dim, n)
    decreases m
  {
    hide Round, Converged, Run;
    if n < m {
      RunStep(points, initial, dim, m - 1);
      ConvergedIsFixed(points, initial, dim, n);
      ConvergedStays(points, initial, dim, n, m - 1);
    }
  }

  /** However early the run stops, it ends as twelve iterations would. */
  lemma TwelveRounds(points: seq<Point>, initial: seq<Point>, dim: nat)
    requires Shaped(points, dim) && Shaped(initial, dim) && initial != []
    ensures Clustered(points, initial, dim) == Run(points, initial, dim, 12)
  {
    var n := Rounds(points, initial, dim, 1);
    hide Run, Converged, Rounds;
    if n < 12 { ConvergedStays(points, initial, dim, n, 12); }
  }

  /** Nearest final centroid with the lowest index on ties, and the mean of every non-empty cell. */
  ghost predicate FixedPoint(points: seq<Point>, s: State, dim: nat)
    requires Shaped(points, dim) && Consistent(s, points, |s.centroids|, dim)
  {
    && (forall i, c | 0 <= i < |points| && 0 <= c < |s.centroids| ::
          SquaredL2(points[i], s.centroids[s.assignment[i]]) <= SquaredL2(points[i], s.centroids[c])
          && (c < s.assignment[i] ==>
                SquaredL2(points[i], s.centroids[s.assignment[i]]) < SquaredL2(points[i], s.centroids[c])))
    && (forall c | 0 <= c < |s.centroids| ::
          var m := MembersOf(points, s.assignment, c);
          Shaped(m, dim) && (m != [] ==> s.centroids[c] == Mean(m, dim)))
  }

  /** Stopping by convergence rather than at the cap leaves a fixed point. */
  lemma ConvergedIsFixedPoint(points: seq<Point>, initial: seq<Point>, dim: nat, n: nat)
    requires Shaped(points, dim) && Shaped(initial, dim) && initial != [] && Converged(points, initial, dim, n)
    ensures FixedPoint(points, Run(points, initial, dim, n), dim)
  {
    ConvergedIsFixed(points, initial, dim, n);
    hide Converged, Run;
    RoundFixed(points, Run(points, initial, dim, n), dim);
  }

  lemma RoundFixed(points: seq<Point>, s: State, dim: nat)
    requires Shaped(points, dim) && Consistent(s, points, |s.centroids|, dim) && s.centroids != []
    requires Round(points, s, dim) == s
    ensures FixedPoint(points, s, dim)
  {
    hide SquaredL2, Accumulate, MembersOf, SumOf, Nearest;
    var cells := Accumulate(points, s.assignment, |s.centroids|, dim);
    forall i | 0 <= i < |points| ensures s.assignment[i] == Nearest(points[i], s.centroids) {
      assert s.assignment[i] == Assign(points, s.centroids, dim)[i];
    }
    forall c | 0 <= c < |s.centroids|
      ensures var m := MembersOf(points, s.assignment, c);
        Shaped(m, dim) && (m != [] ==> s.centroids[c] == Mean(m, dim))
    {
      AccumulateMembers(points, s.assignment, |s.centroids|, dim, c);
      assert s.centroids[c] == Recompute(cells, s.centroids, dim)[c];
    }
  }

  // ---------------------------------------------------------------- the code

  /** The scan of all centroids for one point; `best` starts above every distance. */
  method FindNearest(p: Point, centroids: seq<Point>) returns (bestCell: nat)
    requires centroids != [] && Shaped(centroids, |p|)
    ensures bestCell == Nearest(p, centroids)
  {
    hide SquaredL2;
    var best: real := 0.0;
    bestCell := 0;
    for c := 0 to |centroids|
      invariant c > 0 ==> bestCell == Nearest(p, centroids[..c]) && best == SquaredL2(p, centroids[bestCell])
    {
      var d := ScalarL2Squared(p, centroids[c]);
      assert centroids[..c + 1][..c] == centroids[..c];
      if c == 0 || d < best {
        best, bestCell := d, c;
      }
    }
    assert centroids[..|centroids|] == centroids;
  }

  /** The assignment pass, and whether it moved any point. */
  method AssignAll(points: seq<Point>, centroids: seq<Point>, dim: nat, assignment: seq<nat>)
      returns (a: seq<nat>, changed: bool)
    requires Shaped(points, dim) && Shaped(centroids, dim) && centroids != [] && |assignment| == |points|
    ensures a == Assign(points, centroids, dim) && changed == (a != assignment)
  {
    hide Nearest;
    a, changed := assignment, false;
    for i := 0 to |points|
      invariant |a| == |points| && a[i..] == assignment[i..]
      invariant forall j | 0 <= j < i :: a[j] == Nearest(points[j], centroids)
      invariant changed == (a[..i] != assignment[..i])
    {
      var best := FindNearest(points[i], centroids);
      assert a[i] == a[i..][0] == assignment[i..][0] == assignment[i];
      ghost var before := a;
      if a[i] != best {
        a, changed := a[i := best], true;
      }
      assert a[..i + 1] == before[..i] + [best] && assignment[..i + 1] == assignment[..i] + [assignment[i]];
    }
    assert a[..|points|] == a && assignment[..|points|] == assignment;
  }

  /** The pass that adds every point to its cell. */
  method AccumulateAll(points: seq<Point>, assignment: seq<nat>, k: nat, dim: nat) returns (cells: seq<Cell>)
    requires Shaped(points, dim) && |assignment| == |points| && Within(assignment, k)
    ensures cells == Accumulate(points, assignment, k, dim)
  {
    cells := seq(k, _ => Cell(Zero(dim), 0));
    for i := 0 to |points|
      invariant cells == Accumulate(points[..i], assignment[..i], k, dim)
    {
      var p, c := points[i], assignment[i];
      var sum := cells[c].sum;
      for d := 0 to dim
        invariant |sum| == dim
        invariant forall e | 0 <= e < dim :: sum[e] == if e < d then cells[c].sum[e] + p[e] else cells[c].sum[e]
      {
        sum := sum[d := sum[d] + p[d]];
      }
      assert sum == Plus(cells[c].sum, p);
      assert points[..i + 1][..i] == points[..i] && assignment[..i + 1][..i] == assignment[..i];
      cells := cells[c := Cell(sum, cells[c].count + 1)];
    }
    assert points[..|points|] == points && assignment[..|points|] == assignment;
  }

  /** Every non-empty cell's centroid becomes its mean. */
  method RecomputeAll(cells: seq<Cell>, centroids: seq<Point>, dim: nat) returns (next: seq<Point>)
    requires |cells| == |centroids| && CellsShaped(cells, dim) && Shaped(centroids, dim)
    ensures next == Recompute(cells, centroids, dim)
  {
    next := centroids;
    for c := 0 to |cells|
      invariant |next| == |centroids| && Shaped(next, dim)
      invariant forall j | 0 <= j < |centroids| ::
        next[j] == if j < c then Recompute(cells, centroids, dim)[j] else centroids[j]
    {
      if cells[c].count == 0 {
        continue;
      }
      next := next[c := Divided(cells[c].sum, cells[c].count)];
    }
  }

  /** Iterates until the assignments are stable or the cap is reached. */
  method Cluster(points: seq<Point>, initial: seq<Point>, dim: nat) returns (s: State)
    requires Shaped(points, dim) && Shaped(initial, dim) && initial != []
    ensures s == Clustered(points, initial, dim) == Run(points, initial, dim, 12)
  {
    hide Assign, Accumulate, Recompute;
    TwelveRounds(points, initial, dim);
    var centroids, assignment := initial, seq<nat>(|points|, _ => 0);
    var iter := 0;
    while iter < MAX_ITERATIONS
      invariant iter <= MAX_ITERATIONS
      invariant State(centroids, assignment) == Run(points, initial, dim, iter)
      invariant iter < MAX_ITERATIONS ==> Rounds(points, initial, dim, iter + 1) == Rounds(points, initial, dim, 1)
      invariant iter == MAX_ITERATIONS ==> Rounds(points, initial, dim, 1) == iter
    {
      var a, changed := AssignAll(points, centroids, dim, assignment);
      var cells := AccumulateAll(points, a, |centroids|, dim);
      centroids := RecomputeAll(cells, centroids, dim);
      assignment := a;
      iter := iter + 1;
      if !changed && iter > 1 {
        assert Converged(points, initial, dim, iter);
        break;
      }
    }
    s := State(centroids, assignment);
  }
}
