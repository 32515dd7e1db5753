/** The Newton-Raphson solver of newton-raphson.ts and newton_raphson.js:
    each pass moves from x to x - f(x) / f'(x) and the loop stops once the
    step is at most tol. The TypeScript version takes f' as the central
    difference of f; the JavaScript version is given the derivative. */
module NewtonRaphson {
  import opened Outcomes
  import opened Utils

  /** One recorded pass: the point, f and f' there, the next point and f
      there. */
  datatype NewtonPass = NewtonPass(count: int, x: real, fx: real, fpx: real, next: real, fNext: real)

  /** The zero of the tangent at (x, fx) with slope fpx. */
  function NewtonPoint(x: real, fx: real, fpx: real): real
    requires fpx != 0.0
  {
    x - fx / fpx
  }

  /** The next point is where the tangent meets zero:
      fx + fpx * (next - x) == 0. A point is its own successor exactly when
      f is zero there. */
  lemma NewtonPointOnTangent(x: real, fx: real, fpx: real)
    requires fpx != 0.0
    ensures fx + fpx * (NewtonPoint(x, fx, fpx) - x) == 0.0
    ensures NewtonPoint(x, fx, fpx) == x <==> fx == 0.0
  {
    var q := fx / fpx;
    assert q * fpx == fx;
    assert NewtonPoint(x, fx, fpx) - x == -q;
  }

  /** The derivative newton-raphson.ts uses: the central difference with
      the default step. */
  function CentralSlope(f: real -> real): real -> real
  {
    x => NumericalDerivative(f, x, DefaultStep)
  }

  /** On a line the central difference is the slope, at every point. */
  lemma CentralSlopeOnLine(f: real -> real, m: real, s: real)
    requires forall t :: f(t) == m * t + s
    ensures forall t :: CentralSlope(f)(t) == m
  {
    forall t
      ensures CentralSlope(f)(t) == m
    {
      CentralDifferenceExactOnQuadratics(f, 0.0, m, s, t, DefaultStep);
    }
  }

  /** The pass is evaluated as the loop does, with d as the derivative. */
  predicate Evaluated(f: real -> real, d: real -> real, p: NewtonPass)
  {
    p.fx == f(p.x) && p.fpx == d(p.x) && p.fpx != 0.0 &&
    p.next == NewtonPoint(p.x, p.fx, p.fpx) && p.fNext == f(p.next)
  }

  /** The loop stops after this pass: the step was at most tol. */
  predicate Stops(tol: real, p: NewtonPass)
  {
    Abs(p.next - p.x) <= tol
  }

  /** Pass k (k >= 1) follows pass k - 1: the loop went on after it and
      starts where it ended. */
  predicate Linked(tol: real, passes: seq<NewtonPass>, k: int)
    requires 0 < k < |passes|
  {
    !Stops(tol, passes[k - 1]) && passes[k].x == passes[k - 1].next
  }

  /** `passes` is what the loop records when started at x0: numbered from
      1, within the cap, each evaluated, the first at x0 and each later one
      linked to the one before. */
  predicate NewtonTrace(f: real -> real, d: real -> real, x0: real, tol: real, maxIterations: int, passes: seq<NewtonPass>)
  {
    (|passes| > 0 ==> passes[0].x == x0) &&
    (forall k :: 0 <= k < |passes| ==>
       passes[k].count == k + 1 && k < maxIterations && Evaluated(f, d, passes[k])) &&
    (forall k :: 0 < k < |passes| ==> Linked(tol, passes, k))
  }

  /** The point the next pass would start from. */
  function Ahead(x0: real, passes: seq<NewtonPass>): real
  {
    if passes == [] then x0 else passes[|passes| - 1].next
  }

  predicate Stopped(tol: real, passes: seq<NewtonPass>)
  {
    passes != [] && Stops(tol, passes[|passes| - 1])
  }

  /** The loop has ended: its last pass stopped it, the next pass would
      exceed the cap, or the derivative at the next point is zero. */
  predicate NewtonHalted(d: real -> real, x0: real, tol: real, maxIterations: int, passes: seq<NewtonPass>)
  {
    Stopped(tol, passes) || |passes| >= maxIterations || d(Ahead(x0, passes)) == 0.0
  }

  /** What the loop reports once halted; the cap is checked before the
      derivative. */
  function Verdict(tol: real, maxIterations: int, passes: seq<NewtonPass>): Result<seq<NewtonPass>>
  {
    if Stopped(tol, passes) then Ok(passes)
    else if |passes| >= maxIterations then Err(MaxIterationsReached)
    else Err(ZeroDerivative)
  }

  // ---------------------------------------------------------------------
  // Properties of the loop

  lemma TraceExtended(f: real -> real, d: real -> real, x0: real, tol: real, maxIterations: int, passes: seq<NewtonPass>, p: NewtonPass)
    requires NewtonTrace(f, d, x0, tol, maxIterations, passes) && !Stopped(tol, passes)
    requires p.x == Ahead(x0, passes)
    requires p.count == |passes| + 1 && |passes| < maxIterations && Evaluated(f, d, p)
    ensures NewtonTrace(f, d, x0, tol, maxIterations, passes + [p])
  {
    var q := passes + [p];
    forall k | 0 < k < |q|
      ensures Linked(tol, q, k)
    {
      if k < |passes| {
        assert Linked(tol, passes, k);
      }
    }
  }

  /** A proper prefix of a trace has not halted. */
  lemma PrefixNotHalted(f: real -> real, d: real -> real, x0: real, tol: real, maxIterations: int, p: seq<NewtonPass>, q: seq<NewtonPass>)
    requires NewtonTrace(f, d, x0, tol, maxIterations, q)
    requires |p| < |q| && p == q[..|p|]
    ensures !NewtonHalted(d, x0, tol, maxIterations, p)
  {
    var n := |p|;
    assert q[n].count == n + 1 && n < maxIterations && Evaluated(f, d, q[n]);
    if n > 0 {
      assert p[n - 1] == q[n - 1];
      assert Linked(tol, q, n);
    }
  }

  lemma {:induction false} SamePrefix(f: real -> real, d: real -> real, x0: real, tol: real, maxIterations: int, p: seq<NewtonPass>, q: seq<NewtonPass>, n: nat)
    requires NewtonTrace(f, d, x0, tol, maxIterations, p) && NewtonTrace(f, d, x0, tol, maxIterations, q)
    requires n <= |p| && n <= |q|
    ensures p[..n] == q[..n]
  {
    if n > 0 {
      SamePrefix(f, d, x0, tol, maxIterations, p, q, n - 1);
      if n > 1 {
        assert p[n - 2] == q[n - 2] by { assert p[..n - 1][n - 2] == q[..n - 1][n - 2]; }
        assert Linked(tol, p, n - 1) && Linked(tol, q, n - 1);
      }
      assert p[n - 1] == q[n - 1];
      assert p[..n] == p[..n - 1] + [p[n - 1]];
      assert q[..n] == q[..n - 1] + [q[n - 1]];
    }
  }

  /** The loop is deterministic: two halted traces from the same start are
      the same trace. */
  lemma NewtonTraceUnique(f: real -> real, d: real -> real, x0: real, tol: real, maxIterations: int, p: seq<NewtonPass>, q: seq<NewtonPass>)
    requires NewtonTrace(f, d, x0, tol, maxIterations, p) && NewtonHalted(d, x0, tol, maxIterations, p)
    requires NewtonTrace(f, d, x0, tol, maxIterations, q) && NewtonHalted(d, x0, tol, maxIterations, q)
    ensures p == q
  {
    if |p| < |q| {
      SamePrefix(f, d, x0, tol, maxIterations, p, q, |p|);
      assert p == p[..|p|];
      PrefixNotHalted(f, d, x0, tol, maxIterations, p, q);
    } else if |q| < |p| {
      SamePrefix(f, d, x0, tol, maxIterations, p, q, |q|);
      assert q == q[..|q|];
      PrefixNotHalted(f, d, x0, tol, maxIterations, q, p);
    } else {
      SamePrefix(f, d, x0, tol, maxIterations, p, q, |p|);
      assert p == p[..|p|] && q == q[..|q|];
    }
  }

  /** A returned trace stopped on its last pass and on no earlier one, and
      used at most maxIterations passes. */
  lemma OkMeansStopped(f: real -> real, d: real -> real, x0: real, tol: real, maxIterations: int, passes: seq<NewtonPass>)
    requires NewtonTrace(f, d, x0, tol, maxIterations, passes)
    requires Verdict(tol, maxIterations, passes).Ok?
    ensures passes != [] && |passes| <= maxIterations
    ensures Abs(passes[|passes| - 1].next - passes[|passes| - 1].x) <= tol
    ensures forall k :: 0 <= k < |passes| - 1 ==> Abs(passes[k].next - passes[k].x) > tol
  {
    assert |passes| - 1 < maxIterations;
    forall k | 0 <= k < |passes| - 1
      ensures Abs(passes[k].next - passes[k].x) > tol
    {
      assert Linked(tol, passes, k + 1);
    }
  }

  /** On a line with non-zero slope m, given m as the derivative and a cap of
      at least two, the loop always returns an exact root: the first pass
      lands on it, and a second pass, if the first step was above tol, stays
      there. */
  lemma {:induction false} ExactOnLines(f: real -> real, d: real -> real, m: real, s: real, x0: real, tol: real, maxIterations: int, passes: seq<NewtonPass>)
    requires forall t :: f(t) == m * t + s
    requires forall t :: d(t) == m
    requires m != 0.0 && tol >= 0.0 && maxIterations >= 2
    requires NewtonTrace(f, d, x0, tol, maxIterations, passes) && NewtonHalted(d, x0, tol, maxIterations, passes)
    ensures Verdict(tol, maxIterations, passes).Ok?
    ensures 1 <= |passes| <= 2 && f(passes[|passes| - 1].next) == 0.0
  {
    var r := NewtonPoint(x0, f(x0), m);
    NewtonPointOnTangent(x0, f(x0), m);
    assert f(r) == 0.0 by {
      assert f(x0) + m * (r - x0) == 0.0;
      assert f(r) == f(x0) + m * (r - x0);
    }
    var p1 := NewtonPass(1, x0, f(x0), m, r, 0.0);
    assert Evaluated(f, d, p1);
    if Abs(r - x0) <= tol {
      assert NewtonTrace(f, d, x0, tol, maxIterations, [p1]);
      NewtonTraceUnique(f, d, x0, tol, maxIterations, passes, [p1]);
    } else {
      NewtonPointOnTangent(r, 0.0, m);
      var p2 := NewtonPass(2, r, 0.0, m, r, 0.0);
      assert Evaluated(f, d, p2);
      assert Linked(tol, [p1, p2], 1);
      assert NewtonTrace(f, d, x0, tol, maxIterations, [p1, p2]);
      NewtonTraceUnique(f, d, x0, tol, maxIterations, passes, [p1, p2]);
    }
  }

  // ---------------------------------------------------------------------
  // The loop

  /** The do-while loop shared by both versions: count the pass, fail once
      the count exceeds maxIterations, evaluate f and the derivative, fail
      on a zero derivative, record the pass and stop on a step of at most
      tol. */
  method NewtonLoop(f: real -> real, d: real -> real, x0: real, tol: real, maxIterations: int)
    returns (r: Result<seq<NewtonPass>>, ghost passes: seq<NewtonPass>)
    ensures NewtonTrace(f, d, x0, tol, maxIterations, passes)
    ensures NewtonHalted(d, x0, tol, maxIterations, passes)
    ensures r == Verdict(tol, maxIterations, passes)
  {
    var currentX := x0;
    var steps: seq<NewtonPass> := [];
    var count := 0;
    while true
      invariant count == |steps| && count <= (if maxIterations < 0 then 0 else maxIterations)
      invariant NewtonTrace(f, d, x0, tol, maxIterations, steps) && !Stopped(tol, steps)
      invariant currentX == Ahead(x0, steps)
      decreases (if maxIterations < 0 then 0 else maxIterations) - count
    {
      count := count + 1;
      if count > maxIterations {
        passes := steps;
        r := Err(MaxIterationsReached);
        return;
      }
      var fx := f(currentX);
      var fpx := d(currentX);
      if fpx == 0.0 {
        passes := steps;
        r := Err(ZeroDerivative);
        return;
      }
      var nextX := NewtonPoint(currentX, fx, fpx);
      var fNext := f(nextX);
      var p := NewtonPass(count, currentX, fx, fpx, nextX, fNext);
      TraceExtended(f, d, x0, tol, maxIterations, steps, p);
      steps := steps + [p];
      if Abs(nextX - currentX) <= tol {
        passes := steps;
        r := Ok(steps);
        return;
      }
      currentX := nextX;
    }
  }

  // ---------------------------------------------------------------------
  // newton-raphson.ts

  const Title: string := "Newton-Raphson Method Solution"

  const Header: seq<Cell> := [Label("$Iteration$"), Label("$x_n$"), Label("$f(x_n)$"), Label("$f'(x_n)$"), Label("$x_{next}$"), Label("$f(x_{next})$")]

  // The texts of the steps, as templates whose {} holes the numbers fill.
  const IterationDescription: string := "Iteration {}"
  const NewtonFormula: string := @"$x_{next} = x_{n} - \frac{f(x_{n})}{f'(x_{n})}$"
  const NewtonCalculation: string := @"$x_{next} = {} - \frac{{}}{{}} = {}$"
  const ValueResult: string := "$f(x_{next}) = {}$"
  const AnswerTemplate: string := "x = {} (after {} iterations)"

  function PassStep(p: NewtonPass): Step
  {
    CreateStep(p.count, Fill(IterationDescription, [p.count as real]), Lit(NewtonFormula),
               Fill(NewtonCalculation, [p.x, p.fx, p.fpx, p.next]),
               Some(Fill(ValueResult, [p.fNext])))
  }

  /** One table row; every number in fixed notation. */
  function PassRow(p: NewtonPass): seq<Cell>
  {
    [Count(p.count), Fixed(p.x), Fixed(p.fx), Fixed(p.fpx), Fixed(p.next), Fixed(p.fNext)]
  }

  function PassSteps(passes: seq<NewtonPass>): (s: seq<Step>)
    ensures |s| == |passes| && forall k :: 0 <= k < |s| ==> s[k] == PassStep(passes[k])
  {
    seq(|passes|, k requires 0 <= k < |passes| => PassStep(passes[k]))
  }

  function PassRows(passes: seq<NewtonPass>): (s: seq<seq<Cell>>)
    ensures |s| == |passes| && forall k :: 0 <= k < |s| ==> s[k] == PassRow(passes[k])
  {
    seq(|passes|, k requires 0 <= k < |passes| => PassRow(passes[k]))
  }

  /** The solution built from the recorded passes; the answer is the last
      next point and the number of passes. */
  function NewtonSolution(passes: seq<NewtonPass>): Solution
    requires passes != []
  {
    Solution(Title, PassSteps(passes), [Header] + PassRows(passes),
             Fill(AnswerTemplate, [passes[|passes| - 1].next, |passes| as real]))
  }

  /** The outcome newton-raphson.ts reports for a halted trace. */
  function TsOutcome(tol: real, maxIterations: int, passes: seq<NewtonPass>): Result<Solution>
  {
    if Stopped(tol, passes) then Ok(NewtonSolution(passes))
    else if |passes| >= maxIterations then Err(MaxIterationsReached)
    else Err(ZeroDerivative)
  }

  /** newtonRaphson: the loop with the central difference as derivative. */
  method NewtonRaphsonTs(f: real -> real, x0: real, decimalPlaces: nat, maxIterations: int)
    returns (r: Result<Solution>, ghost passes: seq<NewtonPass>)
    ensures NewtonTrace(f, CentralSlope(f), x0, Tolerance(decimalPlaces), maxIterations, passes)
    ensures NewtonHalted(CentralSlope(f), x0, Tolerance(decimalPlaces), maxIterations, passes)
    ensures r == TsOutcome(Tolerance(decimalPlaces), maxIterations, passes)
  {
    var v;
    v, passes := NewtonLoop(f, CentralSlope(f), x0, Tolerance(decimalPlaces), maxIterations);
    if v.Ok? {
      r := Ok(NewtonSolution(v.value));
    } else {
      r := Err(v.error);
    }
  }

  /** The solution's steps are numbered 1..n, one per pass, the table has the
      header and then one row per step, and the answer is the last point. */
  lemma SolutionShape(f: real -> real, d: real -> real, x0: real, tol: real, maxIterations: int, passes: seq<NewtonPass>)
    requires NewtonTrace(f, d, x0, tol, maxIterations, passes) && passes != []
    ensures var s := NewtonSolution(passes);
      NumberedFromOne(s.steps) && |s.steps| == |passes| &&
      |s.iterationTable| == |s.steps| + 1 && s.iterationTable[0] == Header &&
      s.iterationTable[1..] == PassRows(passes) &&
      s.finalAnswer == Fill(AnswerTemplate, [passes[|passes| - 1].next, |passes| as real])
  {
    var s := NewtonSolution(passes);
    assert s.iterationTable[1..] == PassRows(passes);
  }

  /** On a line with non-zero slope newtonRaphson returns a solution whose
      answer is the exact root, after one or two passes, whenever the cap is
      at least two. */
  lemma TsExactOnLines(f: real -> real, m: real, s: real, x0: real, decimalPlaces: nat, maxIterations: int, passes: seq<NewtonPass>)
    requires forall t :: f(t) == m * t + s
    requires m != 0.0 && maxIterations >= 2
    requires NewtonTrace(f, CentralSlope(f), x0, Tolerance(decimalPlaces), maxIterations, passes)
    requires NewtonHalted(CentralSlope(f), x0, Tolerance(decimalPlaces), maxIterations, passes)
    ensures TsOutcome(Tolerance(decimalPlaces), maxIterations, passes).Ok?
    ensures 1 <= |passes| <= 2 && f(passes[|passes| - 1].next) == 0.0
  {
    CentralSlopeOnLine(f, m, s);
    ExactOnLines(f, CentralSlope(f), m, s, x0, Tolerance(decimalPlaces), maxIterations, passes);
  }

  // ---------------------------------------------------------------------
  // newton_raphson.js

  const JsMaxIterations: int := 100

  /** newton_raphson(): the loop with the given derivative fPrime and a cap of
      100 passes. */
  method NewtonRaphsonJs(f: real -> real, fPrime: real -> real, x0: real, decimalPlaces: nat)
    returns (r: Result<seq<NewtonPass>>, ghost passes: seq<NewtonPass>)
    ensures NewtonTrace(f, fPrime, x0, Tolerance(decimalPlaces), JsMaxIterations, passes)
    ensures NewtonHalted(fPrime, x0, Tolerance(decimalPlaces), JsMaxIterations, passes)
    ensures r == Verdict(Tolerance(decimalPlaces), JsMaxIterations, passes)
  {
    r, passes := NewtonLoop(f, fPrime, x0, Tolerance(decimalPlaces), JsMaxIterations);
  }
}
