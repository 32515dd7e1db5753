/** The 3 × 3 Gauss-Seidel iteration of gauss-seidel.ts and gauss_seidel.js:
    from (0, 0, 0), each sweep solves equation 1 for x with the old y and z,
    equation 2 for y with the new x and the old z, and equation 3 for z with
    the new x and y; the error of a sweep is the largest change of the three.
    The loop runs at least once and stops at the first sweep whose error is
    at most the tolerance, or at the iteration cap; it never fails for lack
    of convergence. */
module GaussSeidel {
  import opened Outcomes
  import opened Utils

  /** The unknowns x, y, z. */
  datatype Point = Point(x: real, y: real, z: real)

  const Origin: Point := Point(0.0, 0.0, 0.0)

  /** One recorded sweep: its number, the new x, y, z and the error. */
  datatype SeidelPass = SeidelPass(iteration: int, x: real, y: real, z: real, error: real)

  function Position(p: SeidelPass): Point
  {
    Point(p.x, p.y, p.z)
  }

  // ---------------------------------------------------------------------
  // Input checks

  /** The check as both versions write it: three rows, a first row of three
      entries and three constants. Rows 2 and 3 are not looked at. */
  predicate GuardAsWritten(A: seq<seq<real>>, b: seq<real>)
  {
    |A| == 3 && |A[0]| == 3 && |b| == 3
  }

  /** The check the error message asks for: a 3 × 3 matrix and three
      constants. */
  predicate Is3x3(A: seq<seq<real>>, b: seq<real>)
  {
    |A| == 3 && |b| == 3 && |A[0]| == 3 && |A[1]| == 3 && |A[2]| == 3
  }

  /** None of the diagonal entries is zero. */
  predicate ZeroFreeDiagonal(A: seq<seq<real>>)
    requires |A| == 3 && |A[0]| == 3 && |A[1]| == 3 && |A[2]| == 3
  {
    A[0][0] != 0.0 && A[1][1] != 0.0 && A[2][2] != 0.0
  }

  /** `row.reduce` over the first j entries: the sum of |row[k]| for k < j,
      k != i. */
  function OffDiagonalSum(row: seq<real>, i: nat, j: nat): real
    requires j <= |row|
  {
    if j == 0 then 0.0 else OffDiagonalSum(row, i, j - 1) + (if j - 1 != i then Abs(row[j - 1]) else 0.0)
  }

  /** `A.every(...)`: each |diagonal entry| exceeds the sum of the other
      magnitudes of its row. A row too short to have its diagonal entry
      fails (the comparison with an absent entry is false). */
  predicate DiagonallyDominant(A: seq<seq<real>>)
  {
    forall i :: 0 <= i < |A| ==> i < |A[i]| && Abs(A[i][i]) > OffDiagonalSum(A[i], i, |A[i]|)
  }

  /** In a row of three, the sum leaves out exactly the diagonal entry. */
  lemma OffDiagonalOfThree(row: seq<real>, i: nat)
    requires |row| == 3 && i < 3
    ensures OffDiagonalSum(row, i, 3) == Abs(row[0]) + Abs(row[1]) + Abs(row[2]) - Abs(row[i])
  {
    assert OffDiagonalSum(row, i, 0) == 0.0;
    assert OffDiagonalSum(row, i, 1) == if i == 0 then 0.0 else Abs(row[0]);
  }

  // ---------------------------------------------------------------------
  // One sweep

  /** The in-place update: x from the old y, z; y from the new x and old z;
      z from the new x, y. Each new value solves its equation given the
      values it was computed from. */
  function Sweep(A: seq<seq<real>>, b: seq<real>, v: Point): (w: Point)
    requires Is3x3(A, b) && ZeroFreeDiagonal(A)
    ensures A[0][0] * w.x + A[0][1] * v.y + A[0][2] * v.z == b[0]
    ensures A[1][0] * w.x + A[1][1] * w.y + A[1][2] * v.z == b[1]
    ensures A[2][0] * w.x + A[2][1] * w.y + A[2][2] * w.z == b[2]
  {
    var x := (b[0] - A[0][1] * v.y - A[0][2] * v.z) / A[0][0];
    var y := (b[1] - A[1][0] * x - A[1][2] * v.z) / A[1][1];
    var z := (b[2] - A[2][0] * x - A[2][1] * y) / A[2][2];
    Point(x, y, z)
  }

  /** `Math.max` of the three changes. */
  function Change(v: Point, w: Point): (e: real)
    ensures e >= Abs(w.x - v.x) && e >= Abs(w.y - v.y) && e >= Abs(w.z - v.z)
    ensures e == Abs(w.x - v.x) || e == Abs(w.y - v.y) || e == Abs(w.z - v.z)
  {
    Max(Abs(w.x - v.x), Max(Abs(w.y - v.y), Abs(w.z - v.z)))
  }

  /** How far equation i misses at v. */
  function Residual(A: seq<seq<real>>, b: seq<real>, v: Point, i: nat): real
    requires Is3x3(A, b) && i < 3
  {
    A[i][0] * v.x + A[i][1] * v.y + A[i][2] * v.z - b[i]
  }

  predicate SolvedBy(A: seq<seq<real>>, b: seq<real>, v: Point)
    requires Is3x3(A, b)
  {
    Residual(A, b, v, 0) == 0.0 && Residual(A, b, v, 1) == 0.0 && Residual(A, b, v, 2) == 0.0
  }

  /** a * u == a * u' with a != 0 gives u == u'. */
  lemma Cancel(a: real, u: real, u': real)
    requires a != 0.0 && a * u == a * u'
    ensures u == u'
  {
    assert a * (u - u') == 0.0;
  }

  /** The sweep leaves v where it is exactly when v solves the system. */
  lemma FixedPointsAreSolutions(A: seq<seq<real>>, b: seq<real>, v: Point)
    requires Is3x3(A, b) && ZeroFreeDiagonal(A)
    ensures Sweep(A, b, v) == v <==> SolvedBy(A, b, v)
    ensures Change(v, Sweep(A, b, v)) == 0.0 <==> SolvedBy(A, b, v)
  {
    var w := Sweep(A, b, v);
    if SolvedBy(A, b, v) {
      Cancel(A[0][0], w.x, v.x);
      Cancel(A[1][1], w.y, v.y);
      Cancel(A[2][2], w.z, v.z);
    }
    if Change(v, w) == 0.0 {
      assert w.x == v.x && w.y == v.y && w.z == v.z;
    }
  }

  lemma AbsProduct(a: real, u: real)
    ensures Abs(a * u) == Abs(a) * Abs(u)
  {
  }

  /** |a * u| <= |a| * e when |u| <= e. */
  lemma ScaledBound(a: real, u: real, e: real)
    requires Abs(u) <= e
    ensures Abs(a * u) <= Abs(a) * e
  {
    AbsProduct(a, u);
    assert Abs(a) * Abs(u) <= Abs(a) * e;
  }

  /** After a sweep from v to w in which y and z moved by at most e,
      equation 3 holds, equation 2 misses by at most |A[1][2]| * e and
      equation 1 by at most (|A[0][1]| + |A[0][2]|) * e: a small change means
      a small residual. The premises are what Sweep ensures. */
  lemma SweepResidual(A: seq<seq<real>>, b: seq<real>, v: Point, w: Point, e: real)
    requires Is3x3(A, b)
    requires A[0][0] * w.x + A[0][1] * v.y + A[0][2] * v.z == b[0]
    requires A[1][0] * w.x + A[1][1] * w.y + A[1][2] * v.z == b[1]
    requires A[2][0] * w.x + A[2][1] * w.y + A[2][2] * w.z == b[2]
    requires Abs(w.y - v.y) <= e && Abs(w.z - v.z) <= e
    ensures Abs(Residual(A, b, w, 0)) <= (Abs(A[0][1]) + Abs(A[0][2])) * e
    ensures Abs(Residual(A, b, w, 1)) <= Abs(A[1][2]) * e
    ensures Residual(A, b, w, 2) == 0.0
  {
    EquationMiss(A[0][0], A[0][1], A[0][2], b[0], w.x, v.y, w.y, v.z, w.z, e, Residual(A, b, w, 0));
    LastTermMiss(A[1][0], A[1][1], A[1][2], b[1], w.x, w.y, v.z, w.z, e, Residual(A, b, w, 1));
  }

  /** An equation a0 x + a1 y + a2 z == c that held at (x, y, z) misses at
      (x, y', z') by at most (|a1| + |a2|) * e when y and z moved by at most
      e. */
  lemma EquationMiss(a0: real, a1: real, a2: real, c: real, x: real, y: real, y': real, z: real, z': real, e: real, r: real)
    requires a0 * x + a1 * y + a2 * z == c
    requires Abs(y' - y) <= e && Abs(z' - z) <= e
    requires r == a0 * x + a1 * y' + a2 * z' - c
    ensures Abs(r) <= (Abs(a1) + Abs(a2)) * e
  {
    var dy, dz := y' - y, z' - z;
    assert a1 * y' == a1 * y + a1 * dy;
    assert a2 * z' == a2 * z + a2 * dz;
    assert r == a1 * dy + a2 * dz;
    ScaledBound(a1, dy, e);
    ScaledBound(a2, dz, e);
  }

  /** The same when only z moved. */
  lemma LastTermMiss(a0: real, a1: real, a2: real, c: real, x: real, y: real, z: real, z': real, e: real, r: real)
    requires a0 * x + a1 * y + a2 * z == c
    requires Abs(z' - z) <= e
    requires r == a0 * x + a1 * y + a2 * z' - c
    ensures Abs(r) <= Abs(a2) * e
  {
    var dz := z' - z;
    assert a2 * z' == a2 * z + a2 * dz;
    assert r == a2 * dz;
    ScaledBound(a2, dz, e);
  }

  // ---------------------------------------------------------------------
  // What the loop records

  /** The pass is the sweep from `from`, with its error. */
  predicate Evaluated(A: seq<seq<real>>, b: seq<real>, from: Point, p: SeidelPass)
    requires Is3x3(A, b) && ZeroFreeDiagonal(A)
  {
    Position(p) == Sweep(A, b, from) && p.error == Change(from, Position(p))
  }

  /** The loop stops after this pass. */
  predicate Stops(tol: real, p: SeidelPass)
  {
    p.error <= tol
  }

  /** Pass k (k >= 1) follows pass k - 1: that one did not stop, the count k
      was below the cap, and the sweep went on from its values. */
  predicate Linked(A: seq<seq<real>>, b: seq<real>, tol: real, maxIterations: int, passes: seq<SeidelPass>, k: int)
    requires Is3x3(A, b) && ZeroFreeDiagonal(A) && 0 < k < |passes|
  {
    !Stops(tol, passes[k - 1]) && k < maxIterations && Evaluated(A, b, Position(passes[k - 1]), passes[k])
  }

  /** `passes` is what the loop records: numbered from 1, the first sweep
      from the origin, each later one linked to the one before. */
  predicate SeidelTrace(A: seq<seq<real>>, b: seq<real>, tol: real, maxIterations: int, passes: seq<SeidelPass>)
    requires Is3x3(A, b) && ZeroFreeDiagonal(A)
  {
    (|passes| > 0 ==> Evaluated(A, b, Origin, passes[0])) &&
    (forall k :: 0 <= k < |passes| ==> passes[k].iteration == k + 1) &&
    (forall k :: 0 < k < |passes| ==> Linked(A, b, tol, maxIterations, passes, k))
  }

  /** The do-while has ended: at least one pass, and the last one stopped it
      or reached the cap. */
  predicate SeidelHalted(tol: real, maxIterations: int, passes: seq<SeidelPass>)
  {
    passes != [] && (Stops(tol, passes[|passes| - 1]) || |passes| >= maxIterations)
  }

  /** The point the next sweep starts from. */
  function Current(passes: seq<SeidelPass>): Point
  {
    if passes == [] then Origin else Position(passes[|passes| - 1])
  }

  lemma TraceExtended(A: seq<seq<real>>, b: seq<real>, tol: real, maxIterations: int, passes: seq<SeidelPass>, p: SeidelPass)
    requires Is3x3(A, b) && ZeroFreeDiagonal(A)
    requires SeidelTrace(A, b, tol, maxIterations, passes)
    requires passes != [] ==> !Stops(tol, passes[|passes| - 1]) && |passes| < maxIterations
    requires p.iteration == |passes| + 1 && Evaluated(A, b, Current(passes), p)
    ensures SeidelTrace(A, b, tol, maxIterations, passes + [p])
  {
    var q := passes + [p];
    forall k | 0 < k < |q|
      ensures Linked(A, b, tol, maxIterations, q, k)
    {
      if k < |passes| {
        assert Linked(A, b, tol, maxIterations, passes, k);
      }
    }
  }

  // ---------------------------------------------------------------------
  // Properties of a halted trace

  lemma PrefixNotHalted(A: seq<seq<real>>, b: seq<real>, tol: real, maxIterations: int, p: seq<SeidelPass>, q: seq<SeidelPass>)
    requires Is3x3(A, b) && ZeroFreeDiagonal(A)
    requires SeidelTrace(A, b, tol, maxIterations, q)
    requires |p| < |q| && p == q[..|p|]
    ensures !SeidelHalted(tol, maxIterations, p)
  {
    var n := |p|;
    if n > 0 {
      assert p[n - 1] == q[n - 1];
      assert Linked(A, b, tol, maxIterations, q, n);
    }
  }

  lemma {:induction false} SamePrefix(A: seq<seq<real>>, b: seq<real>, tol: real, maxIterations: int, p: seq<SeidelPass>, q: seq<SeidelPass>, n: nat)
    requires Is3x3(A, b) && ZeroFreeDiagonal(A)
    requires SeidelTrace(A, b, tol, maxIterations, p) && SeidelTrace(A, b, tol, maxIterations, q)
    requires n <= |p| && n <= |q|
    ensures p[..n] == q[..n]
  {
    if n > 0 {
      SamePrefix(A, b, tol, maxIterations, p, q, n - 1);
      if n > 1 {
        assert p[n - 2] == q[n - 2] by { assert p[..n - 1][n - 2] == q[..n - 1][n - 2]; }
        assert Linked(A, b, tol, maxIterations, p, n - 1) && Linked(A, b, tol, maxIterations, q, n - 1);
      }
      assert Position(p[n - 1]) == Position(q[n - 1]);
      assert p[n - 1] == q[n - 1];
      assert p[..n] == p[..n - 1] + [p[n - 1]];
      assert q[..n] == q[..n - 1] + [q[n - 1]];
    }
  }

  /** The loop is deterministic: two halted traces of the same system are
      the same trace. */
  lemma SeidelTraceUnique(A: seq<seq<real>>, b: seq<real>, tol: real, maxIterations: int, p: seq<SeidelPass>, q: seq<SeidelPass>)
    requires Is3x3(A, b) && ZeroFreeDiagonal(A)
    requires SeidelTrace(A, b, tol, maxIterations, p) && SeidelHalted(tol, maxIterations, p)
    requires SeidelTrace(A, b, tol, maxIterations, q) && SeidelHalted(tol, maxIterations, q)
    ensures p == q
  {
    if |p| < |q| {
      SamePrefix(A, b, tol, maxIterations, p, q, |p|);
      assert p == p[..|p|];
      PrefixNotHalted(A, b, tol, maxIterations, p, q);
    } else if |q| < |p| {
      SamePrefix(A, b, tol, maxIterations, p, q, |q|);
      assert q == q[..|q|];
      PrefixNotHalted(A, b, tol, maxIterations, q, p);
    } else {
      SamePrefix(A, b, tol, maxIterations, p, q, |p|);
      assert p == p[..|p|] && q == q[..|q|];
    }
  }

  /** A halted trace has between 1 and max(1, maxIterations) passes, every
      error is non-negative, and no pass before the last one stopped. */
  lemma HaltedShape(A: seq<seq<real>>, b: seq<real>, tol: real, maxIterations: int, passes: seq<SeidelPass>)
    requires Is3x3(A, b) && ZeroFreeDiagonal(A)
    requires SeidelTrace(A, b, tol, maxIterations, passes) && SeidelHalted(tol, maxIterations, passes)
    ensures 1 <= |passes| <= (if maxIterations < 1 then 1 else maxIterations)
    ensures forall k :: 0 <= k < |passes| ==> passes[k].error >= 0.0
    ensures forall k :: 0 <= k < |passes| - 1 ==> !Stops(tol, passes[k])
  {
    if |passes| > 1 {
      assert Linked(A, b, tol, maxIterations, passes, |passes| - 1);
    }
    forall k | 0 <= k < |passes|
      ensures passes[k].error >= 0.0
    {
      if k > 0 {
        assert Linked(A, b, tol, maxIterations, passes, k);
      }
    }
    forall k | 0 <= k < |passes| - 1
      ensures !Stops(tol, passes[k])
    {
      assert Linked(A, b, tol, maxIterations, passes, k + 1);
    }
  }

  /** When the loop stops on the tolerance, the values it returns satisfy
      equation 3 exactly and equations 1 and 2 up to the tolerance times
      the off-diagonal entries the sweep had not yet updated. */
  lemma StoppedResidual(A: seq<seq<real>>, b: seq<real>, tol: real, maxIterations: int, passes: seq<SeidelPass>)
    requires Is3x3(A, b) && ZeroFreeDiagonal(A)
    requires SeidelTrace(A, b, tol, maxIterations, passes) && passes != [] && Stops(tol, passes[|passes| - 1])
    ensures var v := Position(passes[|passes| - 1]);
      Abs(Residual(A, b, v, 0)) <= (Abs(A[0][1]) + Abs(A[0][2])) * tol &&
      Abs(Residual(A, b, v, 1)) <= Abs(A[1][2]) * tol &&
      Residual(A, b, v, 2) == 0.0
  {
    var n := |passes|;
    if n == 1 {
      StopResidualFrom(A, b, tol, Origin, passes[0]);
    } else {
      assert Linked(A, b, tol, maxIterations, passes, n - 1);
      StopResidualFrom(A, b, tol, Position(passes[n - 2]), passes[n - 1]);
    }
  }

  /** One stopping pass from a given point: the residual bounds of
      SweepResidual for the point it records. */
  lemma StopResidualFrom(A: seq<seq<real>>, b: seq<real>, tol: real, from: Point, p: SeidelPass)
    requires Is3x3(A, b) && ZeroFreeDiagonal(A)
    requires Evaluated(A, b, from, p) && Stops(tol, p)
    ensures var v := Position(p);
      Abs(Residual(A, b, v, 0)) <= (Abs(A[0][1]) + Abs(A[0][2])) * tol &&
      Abs(Residual(A, b, v, 1)) <= Abs(A[1][2]) * tol &&
      Residual(A, b, v, 2) == 0.0
  {
    SweepResidual(A, b, from, Position(p), tol);
  }

  // ---------------------------------------------------------------------
  // gauss-seidel.ts

  /** The error before the first pass is Infinity; after it, the pass's
      error. */
  datatype Bound = Infinite | Finite(v: real)

  /** `error > tolerance`. */
  predicate Exceeds(e: Bound, tol: real)
  {
    e.Infinite? || e.v > tol
  }

  const Header: seq<Cell> := [Label("Iteration"), Label("x"), Label("y"), Label("z"), Label("Error")]

  function PassRow(p: SeidelPass): seq<Cell>
  {
    [Count(p.iteration), Fixed(p.x), Fixed(p.y), Fixed(p.z), Fixed(p.error)]
  }

  function PassRows(passes: seq<SeidelPass>): (rows: seq<seq<Cell>>)
    ensures |rows| == |passes| && forall k :: 0 <= k < |passes| ==> rows[k] == PassRow(passes[k])
  {
    seq(|passes|, k requires 0 <= k < |passes| => PassRow(passes[k]))
  }

  /** The do-while of gauss-seidel.ts, pushing a pass and a table row per
      sweep. */
  method SeidelLoopTs(A: seq<seq<real>>, b: seq<real>, tol: real, maxIterations: int)
    returns (passes: seq<SeidelPass>, table: seq<seq<Cell>>)
    requires Is3x3(A, b) && ZeroFreeDiagonal(A)
    ensures SeidelTrace(A, b, tol, maxIterations, passes) && SeidelHalted(tol, maxIterations, passes)
    ensures table == [Header] + PassRows(passes)
  {
    var x, y, z := 0.0, 0.0, 0.0;
    passes, table := [], [Header];
    var iteration := 0;
    var error := Infinite;
    while true
      invariant iteration == |passes| && SeidelTrace(A, b, tol, maxIterations, passes)
      invariant Point(x, y, z) == Current(passes) && table == [Header] + PassRows(passes)
      invariant passes != [] ==> iteration < maxIterations && error == Finite(passes[|passes| - 1].error)
      invariant passes == [] ==> error == Infinite
      invariant passes != [] ==> !Stops(tol, passes[|passes| - 1])
      decreases (if maxIterations < 0 then 0 else maxIterations) - iteration
    {
      iteration := iteration + 1;
      var old' := Point(x, y, z);
      var next := Sweep(A, b, old');
      x, y, z := next.x, next.y, next.z;
      var e := Change(old', Point(x, y, z));
      error := Finite(e);
      var p := SeidelPass(iteration, x, y, z, e);
      TraceExtended(A, b, tol, maxIterations, passes, p);
      passes := passes + [p];
      table := table + [PassRow(p)];
      if e <= tol {
        break;
      }
      if !(Exceeds(error, tol) && iteration < maxIterations) {
        break;
      }
    }
  }

  /** What gaussSeidel returns. */
  datatype SeidelSolution = SeidelSolution(
    title: string, steps: seq<Step>, iterationTable: seq<seq<Cell>>, finalAnswer: Text,
    solution: seq<real>, iterations: int, iterationSteps: seq<SeidelPass>)

  const Title: string := "Gauss-Seidel Method Solution"
  const DominanceFormula: string := @"\text{Diagonal Dominance Check:}"
  const DominantDescription: string := "Diagonal Dominance"
  const DominantText: string := "System is diagonally dominant. Convergence is guaranteed."
  const WarningDescription: string := "Warning"
  const WarningText: string := "System is not diagonally dominant. Convergence is not guaranteed."
  const SystemDescription: string := "System of Equations"
  const SystemFormula: string := @"\text{Given System:}"
  /** The three equations, four numbers each: the coefficients then the constant. */
  const SystemCalculation: string := @"\begin{aligned} {}x_{1} + {}x_{2} + {}x_{3} = {} \\ {}x_{1} + {}x_{2} + {}x_{3} = {} \\ {}x_{1} + {}x_{2} + {}x_{3} = {} \end{aligned}"
  const ConvergedDescription: string := "Converged after {} iterations"
  const FinalFormula: string := @"\text{Final Values:}"
  const FinalCalculation: string := @"\begin{aligned} x &= {} \\ y &= {} \\ z &= {} \\ \text{Error} &= {} \end{aligned}"
  const AnswerTemplate: string := "Solution: x = {}, y = {}, z = {} ({} iterations)"

  /** Step 1: the wording depends on dominance only. */
  function DominanceStep(dominant: bool): Step
  {
    if dominant then CreateStep(1, Lit(DominantDescription), Lit(DominanceFormula), Lit(DominantText), Some(Lit("")))
    else CreateStep(1, Lit(WarningDescription), Lit(DominanceFormula), Lit(WarningText), Some(Lit("")))
  }

  /** Step 2: the system. */
  function SystemStep(A: seq<seq<real>>, b: seq<real>): Step
    requires Is3x3(A, b)
  {
    CreateStep(2, Lit(SystemDescription), Lit(SystemFormula),
               Fill(SystemCalculation, A[0] + [b[0]] + A[1] + [b[1]] + A[2] + [b[2]]), Some(Lit("")))
  }

  /** Step 3: the last values and error, said to have converged whether or
      not the error reached the tolerance. */
  function ConvergedStep(passes: seq<SeidelPass>): Step
    requires passes != []
  {
    var last := passes[|passes| - 1];
    CreateStep(3, Fill(ConvergedDescription, [|passes| as real]), Lit(FinalFormula),
               Fill(FinalCalculation, [last.x, last.y, last.z, last.error]), Some(Lit("")))
  }

  function SeidelOutcome(A: seq<seq<real>>, b: seq<real>, passes: seq<SeidelPass>): SeidelSolution
    requires Is3x3(A, b) && passes != []
  {
    var last := passes[|passes| - 1];
    SeidelSolution(Title, [DominanceStep(DiagonallyDominant(A)), SystemStep(A, b), ConvergedStep(passes)],
                   [Header] + PassRows(passes),
                   Fill(AnswerTemplate, [last.x, last.y, last.z, |passes| as real]),
                   [last.x, last.y, last.z], |passes|, passes)
  }

  /** gaussSeidel: the checks, then the loop with tolerance
      0.5 * 10^-decimalPlaces. The source's defaults are 3 decimal places
      and 100 iterations. */
  method GaussSeidelTs(A: seq<seq<real>>, b: seq<real>, decimalPlaces: nat, maxIterations: int)
    returns (r: Result<SeidelSolution>)
    ensures !Is3x3(A, b) <==> r == Err(InvalidDimensions)
    ensures Is3x3(A, b) ==> (!ZeroFreeDiagonal(A) <==> r == Err(ZeroDiagonal))
    ensures Is3x3(A, b) && ZeroFreeDiagonal(A) ==>
      r.Ok? && SeidelTrace(A, b, Tolerance(decimalPlaces), maxIterations, r.value.iterationSteps) &&
      SeidelHalted(Tolerance(decimalPlaces), maxIterations, r.value.iterationSteps) &&
      r.value == SeidelOutcome(A, b, r.value.iterationSteps)
  {
    if !Is3x3(A, b) {
      return Err(InvalidDimensions);
    }
    if !ZeroFreeDiagonal(A) {
      return Err(ZeroDiagonal);
    }
    var dominant := DiagonallyDominant(A);
    var steps := [DominanceStep(dominant), SystemStep(A, b)];
    var passes, table := SeidelLoopTs(A, b, Tolerance(decimalPlaces), maxIterations);
    steps := steps + [ConvergedStep(passes)];
    var last := passes[|passes| - 1];
    r := Ok(SeidelSolution(Title, steps, table, Fill(AnswerTemplate, [last.x, last.y, last.z, |passes| as real]),
                           [last.x, last.y, last.z], |passes|, passes));
  }

  /** The shape of a returned solution: three steps numbered 1 to 3, the
      first worded by dominance; between 1 and max(1, maxIterations)
      iterations, numbered 1, 2, ... with a table row each below the header;
      the solution is the last pass. */
  lemma SolutionShape(A: seq<seq<real>>, b: seq<real>, tol: real, maxIterations: int, passes: seq<SeidelPass>)
    requires Is3x3(A, b) && ZeroFreeDiagonal(A)
    requires SeidelTrace(A, b, tol, maxIterations, passes) && SeidelHalted(tol, maxIterations, passes)
    ensures var s := SeidelOutcome(A, b, passes);
      |s.steps| == 3 && NumberedFromOne(s.steps) &&
      (s.steps[0].description == Lit(DominantDescription) <==> DiagonallyDominant(A)) &&
      s.iterations == |s.iterationSteps| && 1 <= s.iterations <= (if maxIterations < 1 then 1 else maxIterations) &&
      |s.iterationTable| == s.iterations + 1 &&
      (forall k :: 0 <= k < s.iterations ==> s.iterationSteps[k].iteration == k + 1) &&
      s.solution == [passes[|passes| - 1].x, passes[|passes| - 1].y, passes[|passes| - 1].z]
  {
    HaltedShape(A, b, tol, maxIterations, passes);
  }

  // ---------------------------------------------------------------------
  // gauss_seidel.js

  /** The do-while of gauss_seidel.js. The error computed in the body is a
      new constant that shadows the outer `error`, so the outer one stays
      Infinity and the loop condition only tests the cap; the break on the
      inner error is what stops on the tolerance. */
  method SeidelLoopJs(A: seq<seq<real>>, b: seq<real>, tol: real, maxIterations: int)
    returns (passes: seq<SeidelPass>)
    requires Is3x3(A, b) && ZeroFreeDiagonal(A)
    ensures SeidelTrace(A, b, tol, maxIterations, passes) && SeidelHalted(tol, maxIterations, passes)
  {
    var x, y, z := 0.0, 0.0, 0.0;
    passes := [];
    var iteration := 0;
    var error := Infinite;
    while true
      invariant iteration == |passes| && SeidelTrace(A, b, tol, maxIterations, passes)
      invariant Point(x, y, z) == Current(passes) && error == Infinite
      invariant passes != [] ==> iteration < maxIterations && !Stops(tol, passes[|passes| - 1])
      decreases (if maxIterations < 0 then 0 else maxIterations) - iteration
    {
      iteration := iteration + 1;
      var old' := Point(x, y, z);
      var next := Sweep(A, b, old');
      x, y, z := next.x, next.y, next.z;
      var innerError := Change(old', Point(x, y, z));
      var p := SeidelPass(iteration, x, y, z, innerError);
      TraceExtended(A, b, tol, maxIterations, passes, p);
      passes := passes + [p];
      if innerError <= tol {
        break;
      }
      if !(Exceeds(error, tol) && iteration < maxIterations) {
        break;
      }
    }
  }

  /** gauss_seidel: the same checks (the dominance check only prints a
      warning), then the loop; it returns the passes. */
  method GaussSeidelJs(A: seq<seq<real>>, b: seq<real>, decimalPlaces: nat, maxIterations: int)
    returns (r: Result<seq<SeidelPass>>)
    ensures !Is3x3(A, b) <==> r == Err(InvalidDimensions)
    ensures Is3x3(A, b) ==> (!ZeroFreeDiagonal(A) <==> r == Err(ZeroDiagonal))
    ensures Is3x3(A, b) && ZeroFreeDiagonal(A) ==>
      r.Ok? && SeidelTrace(A, b, Tolerance(decimalPlaces), maxIterations, r.value) &&
      SeidelHalted(Tolerance(decimalPlaces), maxIterations, r.value)
  {
    if !Is3x3(A, b) {
      return Err(InvalidDimensions);
    }
    if !ZeroFreeDiagonal(A) {
      return Err(ZeroDiagonal);
    }
    var passes := SeidelLoopJs(A, b, Tolerance(decimalPlaces), maxIterations);
    r := Ok(passes);
  }

  /** The shadowed error changes nothing: on the same input both versions
      record the same passes (both are halted traces of the one loop). */
  lemma ShadowingHarmless(A: seq<seq<real>>, b: seq<real>, tol: real, maxIterations: int, ts: seq<SeidelPass>, js: seq<SeidelPass>)
    requires Is3x3(A, b) && ZeroFreeDiagonal(A)
    requires SeidelTrace(A, b, tol, maxIterations, ts) && SeidelHalted(tol, maxIterations, ts)
    requires SeidelTrace(A, b, tol, maxIterations, js) && SeidelHalted(tol, maxIterations, js)
    ensures ts == js
  {
    SeidelTraceUnique(A, b, tol, maxIterations, ts, js);
  }

  /** The system the script runs, with 2 decimal places. */
  const ExampleA: seq<seq<real>> := [[4.0, 1.0, 1.0], [1.0, 5.0, 1.0], [1.0, 1.0, 6.0]]
  const ExampleB: seq<real> := [8.0, 10.0, 12.0]
  const ExampleDecimalPlaces: nat := 2

  /** The example passes both checks and is strictly diagonally dominant, so
      no warning is printed. */
  lemma ExampleIsDominant()
    ensures Is3x3(ExampleA, ExampleB) && ZeroFreeDiagonal(ExampleA)
    ensures DiagonallyDominant(ExampleA)
    ensures Tolerance(ExampleDecimalPlaces) == 0.005
  {
    forall i | 0 <= i < 3
      ensures Abs(ExampleA[i][i]) > OffDiagonalSum(ExampleA[i], i, 3)
    {
      OffDiagonalOfThree(ExampleA[i], i);
    }
    assert Pow10(2) == 100.0;
  }

  // ---------------------------------------------------------------------
  // The input check as written

  /** A matrix with a short second row passes the check as written, though
      the sweep reads A[1][2], which does not exist (the source then computes
      with `undefined`). */
  lemma GuardLetsShortRowThrough()
    ensures GuardAsWritten([[4.0, 1.0, 1.0], [1.0, 5.0], [1.0, 1.0, 6.0]], [8.0, 10.0, 12.0])
    ensures !Is3x3([[4.0, 1.0, 1.0], [1.0, 5.0], [1.0, 1.0, 6.0]], [8.0, 10.0, 12.0])
    ensures |[[4.0, 1.0, 1.0], [1.0, 5.0], [1.0, 1.0, 6.0]][1]| <= 2
  {
  }

  /** The corrected check is the written one plus the two rows it misses. */
  lemma GuardCorrected(A: seq<seq<real>>, b: seq<real>)
    ensures Is3x3(A, b) <==> GuardAsWritten(A, b) && |A[1]| == 3 && |A[2]| == 3
  {
  }
}
