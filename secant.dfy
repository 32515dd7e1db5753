/** The secant solver of secant.ts and of secant.js: from two guesses, each
    pass takes the zero of the line through the last two points, and the
    loop stops on an exact zero or on a step of at most tol. secant.ts checks
    the denominator f(x1) - f(x0) once, before the loop; secant.js checks it
    on every pass. */
module Secant {
  import opened Outcomes
  import opened Utils

  /** One recorded pass: the two previous points, the new point x2 and f at
      the three of them. */
  datatype SecantPass = SecantPass(count: int, x0: real, x1: real, x2: real, fx0: real, fx1: real, fx2: real)

  /** The zero of the line through (x0, f0) and (x1, f1). */
  function SecantPoint(x0: real, x1: real, f0: real, f1: real): real
    requires f1 - f0 != 0.0
  {
    x1 - (f1 * (x1 - x0)) / (f1 - f0)
  }

  /** The secant point is where the line through the two points meets zero:
      it solves (x2 - x1) * (f1 - f0) == -f1 * (x1 - x0). */
  lemma SecantPointOnLine(x0: real, x1: real, f0: real, f1: real)
    requires f1 - f0 != 0.0
    ensures (SecantPoint(x0, x1, f0, f1) - x1) * (f1 - f0) == -f1 * (x1 - x0)
  {
    var q := (f1 * (x1 - x0)) / (f1 - f0);
    assert q * (f1 - f0) == f1 * (x1 - x0);
  }

  /** On a line with non-zero slope the secant point of two distinct guesses
      is the exact root. */
  lemma SecantExactOnLines(f: real -> real, m: real, s: real, x0: real, x1: real)
    requires forall t :: f(t) == m * t + s
    requires m != 0.0 && x0 != x1
    ensures f(x1) - f(x0) != 0.0
    ensures f(SecantPoint(x0, x1, f(x0), f(x1))) == 0.0
  {
    assert f(x1) - f(x0) == m * (x1 - x0);
    var x2 := SecantPoint(x0, x1, f(x0), f(x1));
    SecantPointOnLine(x0, x1, f(x0), f(x1));
    assert (x2 - x1) * (m * (x1 - x0)) == -(m * x1 + s) * (x1 - x0);
    assert ((x2 - x1) * m + (m * x1 + s)) * (x1 - x0) == 0.0;
    assert m * x2 + s == (x2 - x1) * m + (m * x1 + s);
  }

  /** The pass is evaluated as the loop does: f at x0 and x1 (carried over
      from the pass before), a non-zero denominator, the secant point and f
      there. */
  predicate Evaluated(f: real -> real, p: SecantPass)
  {
    p.fx0 == f(p.x0) && p.fx1 == f(p.x1) && p.fx1 - p.fx0 != 0.0 &&
    p.x2 == SecantPoint(p.x0, p.x1, p.fx0, p.fx1) && p.fx2 == f(p.x2)
  }

  /** The loop stops after this pass: f(x2) is exactly zero, or x2 moved by
      at most tol. */
  predicate Stops(tol: real, p: SecantPass)
  {
    p.fx2 == 0.0 || Abs(p.x2 - p.x1) <= tol
  }

  /** Pass k (k >= 1) follows pass k - 1: the loop went on after it, and the
      two points shifted by one. */
  predicate Linked(tol: real, passes: seq<SecantPass>, k: int)
    requires 0 < k < |passes|
  {
    !Stops(tol, passes[k - 1]) &&
    passes[k].x0 == passes[k - 1].x1 && passes[k].x1 == passes[k - 1].x2
  }

  /** `passes` is what the loop records when started on x0, x1: numbered
      from 1, within the cap, each evaluated, the first on the guesses and
      each later one linked to the one before. */
  predicate SecantTrace(f: real -> real, x0: real, x1: real, tol: real, maxIterations: int, passes: seq<SecantPass>)
  {
    (|passes| > 0 ==> passes[0].x0 == x0 && passes[0].x1 == x1) &&
    (forall k :: 0 <= k < |passes| ==>
       passes[k].count == k + 1 && k < maxIterations && Evaluated(f, passes[k])) &&
    (forall k :: 0 < k < |passes| ==> Linked(tol, passes, k))
  }

  /** The two points the next pass would start from. */
  function Ahead(x0: real, x1: real, passes: seq<SecantPass>): (real, real)
  {
    if passes == [] then (x0, x1) else (passes[|passes| - 1].x1, passes[|passes| - 1].x2)
  }

  predicate Stopped(tol: real, passes: seq<SecantPass>)
  {
    passes != [] && Stops(tol, passes[|passes| - 1])
  }

  /** The loop has ended: its last pass stopped it, the next pass would
      exceed the cap, or the next denominator is zero. */
  predicate SecantHalted(f: real -> real, x0: real, x1: real, tol: real, maxIterations: int, passes: seq<SecantPass>)
  {
    Stopped(tol, passes) || |passes| >= maxIterations ||
    f(Ahead(x0, x1, passes).1) - f(Ahead(x0, x1, passes).0) == 0.0
  }

  /** What the loop reports once halted: the passes if the last one stopped
      it, else the error of the check that ended it; the cap is checked
      before the denominator. */
  function Verdict(tol: real, maxIterations: int, onZeroDenominator: Failure, passes: seq<SecantPass>): Result<seq<SecantPass>>
  {
    if Stopped(tol, passes) then Ok(passes)
    else if |passes| >= maxIterations then Err(MaxIterationsReached)
    else Err(onZeroDenominator)
  }

  // ---------------------------------------------------------------------
  // Properties of the loop

  lemma TraceExtended(f: real -> real, x0: real, x1: real, tol: real, maxIterations: int, passes: seq<SecantPass>, p: SecantPass)
    requires SecantTrace(f, x0, x1, tol, maxIterations, passes) && !Stopped(tol, passes)
    requires (p.x0, p.x1) == Ahead(x0, x1, passes)
    requires p.count == |passes| + 1 && |passes| < maxIterations && Evaluated(f, p)
    ensures SecantTrace(f, x0, x1, tol, maxIterations, passes + [p])
  {
    var q := passes + [p];
    forall k | 0 < k < |q|
      ensures Linked(tol, q, k)
    {
      if k < |passes| {
        assert Linked(tol, passes, k);
      }
    }
  }

  /** A proper prefix of a trace has not halted: the pass after it shows that
      it did not stop, was within the cap and had a non-zero denominator. */
  lemma PrefixNotHalted(f: real -> real, x0: real, x1: real, tol: real, maxIterations: int, p: seq<SecantPass>, q: seq<SecantPass>)
    requires SecantTrace(f, x0, x1, tol, maxIterations, q)
    requires |p| < |q| && p == q[..|p|]
    ensures !SecantHalted(f, x0, x1, tol, maxIterations, p)
  {
    var n := |p|;
    assert q[n].count == n + 1 && n < maxIterations && Evaluated(f, q[n]);
    if n > 0 {
      assert p[n - 1] == q[n - 1];
      assert Linked(tol, q, n);
    }
  }

  lemma {:induction false} SamePrefix(f: real -> real, x0: real, x1: real, tol: real, maxIterations: int, p: seq<SecantPass>, q: seq<SecantPass>, n: nat)
    requires SecantTrace(f, x0, x1, tol, maxIterations, p) && SecantTrace(f, x0, x1, tol, maxIterations, q)
    requires n <= |p| && n <= |q|
    ensures p[..n] == q[..n]
  {
    if n > 0 {
      SamePrefix(f, x0, x1, tol, maxIterations, p, q, n - 1);
      if n > 1 {
        assert p[n - 2] == q[n - 2] by { assert p[..n - 1][n - 2] == q[..n - 1][n - 2]; }
        assert Linked(tol, p, n - 1) && Linked(tol, q, n - 1);
      }
      assert p[n - 1] == q[n - 1];
      assert p[..n] == p[..n - 1] + [p[n - 1]];
      assert q[..n] == q[..n - 1] + [q[n - 1]];
    }
  }

  /** The loop is deterministic: two halted traces from the same start are
      the same trace. */
  lemma SecantTraceUnique(f: real -> real, x0: real, x1: real, tol: real, maxIterations: int, p: seq<SecantPass>, q: seq<SecantPass>)
    requires SecantTrace(f, x0, x1, tol, maxIterations, p) && SecantHalted(f, x0, x1, tol, maxIterations, p)
    requires SecantTrace(f, x0, x1, tol, maxIterations, q) && SecantHalted(f, x0, x1, tol, maxIterations, q)
    ensures p == q
  {
    if |p| < |q| {
      SamePrefix(f, x0, x1, tol, maxIterations, p, q, |p|);
      assert p == p[..|p|];
      PrefixNotHalted(f, x0, x1, tol, maxIterations, p, q);
    } else if |q| < |p| {
      SamePrefix(f, x0, x1, tol, maxIterations, p, q, |q|);
      assert q == q[..|q|];
      PrefixNotHalted(f, x0, x1, tol, maxIterations, q, p);
    } else {
      SamePrefix(f, x0, x1, tol, maxIterations, p, q, |p|);
      assert p == p[..|p|] && q == q[..|q|];
    }
  }

  /** A returned trace stopped on its last pass and on no earlier one, and
      used at most maxIterations passes. */
  lemma OkMeansStopped(f: real -> real, x0: real, x1: real, tol: real, maxIterations: int, onZeroDenominator: Failure, passes: seq<SecantPass>)
    requires SecantTrace(f, x0, x1, tol, maxIterations, passes)
    requires Verdict(tol, maxIterations, onZeroDenominator, passes).Ok?
    ensures passes != [] && |passes| <= maxIterations
    ensures var last := passes[|passes| - 1]; last.fx2 == 0.0 || Abs(last.x2 - last.x1) <= tol
    ensures forall k :: 0 <= k < |passes| - 1 ==> !Stops(tol, passes[k])
  {
    assert |passes| - 1 < maxIterations;
    forall k | 0 <= k < |passes| - 1
      ensures !Stops(tol, passes[k])
    {
      assert Linked(tol, passes, k + 1);
    }
  }

  // ---------------------------------------------------------------------
  // The loop

  /** The `while (true)` loop shared by both versions. It counts the pass,
      fails once the count exceeds maxIterations, and fails with
      onZeroDenominator when f(x1) - f(x0) is zero: secant.js throws
      DivisionByZero there, while secant.ts has no check and divides by zero
      (NonFiniteIterate). */
  method SecantLoop(f: real -> real, x0: real, x1: real, tol: real, maxIterations: int, onZeroDenominator: Failure)
    returns (r: Result<seq<SecantPass>>, ghost passes: seq<SecantPass>)
    ensures SecantTrace(f, x0, x1, tol, maxIterations, passes)
    ensures SecantHalted(f, x0, x1, tol, maxIterations, passes)
    ensures r == Verdict(tol, maxIterations, onZeroDenominator, passes)
  {
    var previousX, currentX := x0, x1;
    var fPrev, fCurrent := f(previousX), f(currentX);
    var steps: seq<SecantPass> := [];
    var count := 0;
    while true
      invariant count == |steps| && count <= (if maxIterations < 0 then 0 else maxIterations)
      invariant SecantTrace(f, x0, x1, tol, maxIterations, steps) && !Stopped(tol, steps)
      invariant (previousX, currentX) == Ahead(x0, x1, steps)
      invariant fPrev == f(previousX) && fCurrent == f(currentX)
      decreases (if maxIterations < 0 then 0 else maxIterations) - count
    {
      count := count + 1;
      if count > maxIterations {
        passes := steps;
        r := Err(MaxIterationsReached);
        return;
      }
      if fCurrent - fPrev == 0.0 {
        passes := steps;
        r := Err(onZeroDenominator);
        return;
      }
      var nextX := SecantPoint(previousX, currentX, fPrev, fCurrent);
      var fNext := f(nextX);
      var p := SecantPass(count, previousX, currentX, nextX, fPrev, fCurrent, fNext);
      TraceExtended(f, x0, x1, tol, maxIterations, steps, p);
      steps := steps + [p];
      if fNext == 0.0 || Abs(nextX - currentX) <= tol {
        passes := steps;
        r := Ok(steps);
        return;
      }
      previousX, currentX := currentX, nextX;
      fPrev, fCurrent := fCurrent, fNext;
    }
  }

  // ---------------------------------------------------------------------
  // secant.ts

  const Title: string := "Secant Method Solution"

  const Header: seq<Cell> := [Label("$Iteration$"), Label("$x_0$"), Label("$x_1$"), Label("$x_2$"), Label("$f(x_0)$"), Label("$f(x_1)$"), Label("$f(x_2)$")]

  // The texts of the steps, as templates whose {} holes the numbers fill.
  const IterationDescription: string := "Iteration {}"
  const SecantFormula: string := @"$x_2 = x_1 - \frac{f(x_1) (x_1 - x_0)}{f(x_1) - f(x_0)}$"
  const SecantCalculation: string := @"$x_2 = {} - \frac{{} ( {} - {} )}{{} - {}} = {}$"
  const ValueResult: string := "$f(x_2) = {}$"
  const AnswerTemplate: string := "x = {} (after {} iterations)"

  function PassStep(p: SecantPass): Step
  {
    CreateStep(p.count, Fill(IterationDescription, [p.count as real]), Lit(SecantFormula),
               Fill(SecantCalculation, [p.x1, p.fx1, p.x1, p.x0, p.fx1, p.fx0, p.x2]),
               Some(Fill(ValueResult, [p.fx2])))
  }

  /** One table row; every number in fixed notation. */
  function PassRow(p: SecantPass): seq<Cell>
  {
    [Count(p.count), Fixed(p.x0), Fixed(p.x1), Fixed(p.x2), Fixed(p.fx0), Fixed(p.fx1), Fixed(p.fx2)]
  }

  function PassSteps(passes: seq<SecantPass>): (s: seq<Step>)
    ensures |s| == |passes| && forall k :: 0 <= k < |s| ==> s[k] == PassStep(passes[k])
  {
    seq(|passes|, k requires 0 <= k < |passes| => PassStep(passes[k]))
  }

  function PassRows(passes: seq<SecantPass>): (s: seq<seq<Cell>>)
    ensures |s| == |passes| && forall k :: 0 <= k < |s| ==> s[k] == PassRow(passes[k])
  {
    seq(|passes|, k requires 0 <= k < |passes| => PassRow(passes[k]))
  }

  /** The solution built from the recorded passes; the answer is the x2 of
      the last pass and the number of passes. */
  function SecantSolution(passes: seq<SecantPass>): Solution
    requires passes != []
  {
    Solution(Title, PassSteps(passes), [Header] + PassRows(passes),
             Fill(AnswerTemplate, [passes[|passes| - 1].x2, |passes| as real]))
  }

  /** The outcome secant.ts reports for a halted trace, given what the loop
      does on a zero denominator. */
  function TsOutcome(tol: real, maxIterations: int, onZeroDenominator: Failure, passes: seq<SecantPass>): Result<Solution>
  {
    if Stopped(tol, passes) then Ok(SecantSolution(passes))
    else if |passes| >= maxIterations then Err(MaxIterationsReached)
    else Err(onZeroDenominator)
  }

  /** secantMethod as written: the denominator is checked before the loop
      only, so a zero denominator on a later pass is a division by zero. */
  method SecantTs(f: real -> real, x0: real, x1: real, decimalPlaces: nat, maxIterations: int)
    returns (r: Result<Solution>, ghost passes: seq<SecantPass>)
    ensures f(x1) - f(x0) == 0.0 ==> r == Err(DivisionByZero) && passes == []
    ensures f(x1) - f(x0) != 0.0 ==>
      SecantTrace(f, x0, x1, Tolerance(decimalPlaces), maxIterations, passes) &&
      SecantHalted(f, x0, x1, Tolerance(decimalPlaces), maxIterations, passes) &&
      r == TsOutcome(Tolerance(decimalPlaces), maxIterations, NonFiniteIterate, passes)
  {
    r, passes := SolveTs(f, x0, x1, decimalPlaces, maxIterations, NonFiniteIterate);
  }

  /** secantMethod with the denominator checked on every pass, as secant.js
      does: a zero denominator on any pass is reported as DivisionByZero. */
  method SecantTsGuarded(f: real -> real, x0: real, x1: real, decimalPlaces: nat, maxIterations: int)
    returns (r: Result<Solution>, ghost passes: seq<SecantPass>)
    ensures f(x1) - f(x0) == 0.0 ==> r == Err(DivisionByZero) && passes == []
    ensures f(x1) - f(x0) != 0.0 ==>
      SecantTrace(f, x0, x1, Tolerance(decimalPlaces), maxIterations, passes) &&
      SecantHalted(f, x0, x1, Tolerance(decimalPlaces), maxIterations, passes) &&
      r == TsOutcome(Tolerance(decimalPlaces), maxIterations, DivisionByZero, passes)
  {
    r, passes := SolveTs(f, x0, x1, decimalPlaces, maxIterations, DivisionByZero);
  }

  method SolveTs(f: real -> real, x0: real, x1: real, decimalPlaces: nat, maxIterations: int, onZeroDenominator: Failure)
    returns (r: Result<Solution>, ghost passes: seq<SecantPass>)
    ensures f(x1) - f(x0) == 0.0 ==> r == Err(DivisionByZero) && passes == []
    ensures f(x1) - f(x0) != 0.0 ==>
      SecantTrace(f, x0, x1, Tolerance(decimalPlaces), maxIterations, passes) &&
      SecantHalted(f, x0, x1, Tolerance(decimalPlaces), maxIterations, passes) &&
      r == TsOutcome(Tolerance(decimalPlaces), maxIterations, onZeroDenominator, passes)
  {
    var tol := Tolerance(decimalPlaces);
    var fPrev, fCurrent := f(x0), f(x1);
    if fCurrent - fPrev == 0.0 {
      r := Err(DivisionByZero);
      passes := [];
      return;
    }
    assert f(x1) - f(x0) != 0.0;
    var v;
    v, passes := SecantLoop(f, x0, x1, tol, maxIterations, onZeroDenominator);
    assert f(x1) - f(x0) != 0.0;
    if v.Ok? {
      r := Ok(SecantSolution(v.value));
    } else {
      r := Err(v.error);
    }
  }

  /** The solution's steps are numbered 1..n, one per pass, the table has the
      header and then one row per step, and the answer is the last x2. */
  lemma SolutionShape(f: real -> real, x0: real, x1: real, tol: real, maxIterations: int, passes: seq<SecantPass>)
    requires SecantTrace(f, x0, x1, tol, maxIterations, passes) && passes != []
    ensures var s := SecantSolution(passes);
      NumberedFromOne(s.steps) && |s.steps| == |passes| &&
      |s.iterationTable| == |s.steps| + 1 && s.iterationTable[0] == Header &&
      s.iterationTable[1..] == PassRows(passes) &&
      s.finalAnswer == Fill(AnswerTemplate, [passes[|passes| - 1].x2, |passes| as real])
  {
    var s := SecantSolution(passes);
    assert s.iterationTable[1..] == PassRows(passes);
  }

  // ---------------------------------------------------------------------
  // The denominator secant.ts does not re-check

  /** On f(x) = x * x from -1 and 2, the first pass goes to -2, where f has
      the value it had at 2: the second pass's denominator is zero, although
      the check before the loop passed. */
  lemma SquareTrace(f: real -> real, decimalPlaces: nat, maxIterations: int)
    requires forall t :: f(t) == t * t
    requires maxIterations >= 2
    ensures f(2.0) - f(-1.0) != 0.0
    ensures var p := SecantPass(1, -1.0, 2.0, -2.0, 1.0, 4.0, 4.0);
      SecantTrace(f, -1.0, 2.0, Tolerance(decimalPlaces), maxIterations, [p]) &&
      SecantHalted(f, -1.0, 2.0, Tolerance(decimalPlaces), maxIterations, [p]) &&
      !Stopped(Tolerance(decimalPlaces), [p]) &&
      f(Ahead(-1.0, 2.0, [p]).1) - f(Ahead(-1.0, 2.0, [p]).0) == 0.0
  {
    assert f(-1.0) == 1.0 && f(2.0) == 4.0 && f(-2.0) == 4.0;
    assert SecantPoint(-1.0, 2.0, 1.0, 4.0) == -2.0;
  }

  /** So secantMethod as written divides by zero on that input, where the
      guarded version reports DivisionByZero; every halted trace of the loop
      there is the one-pass trace above. */
  lemma SecantTsDividesByZero(f: real -> real, decimalPlaces: nat, maxIterations: int, passes: seq<SecantPass>)
    requires forall t :: f(t) == t * t
    requires maxIterations >= 2
    requires SecantTrace(f, -1.0, 2.0, Tolerance(decimalPlaces), maxIterations, passes)
    requires SecantHalted(f, -1.0, 2.0, Tolerance(decimalPlaces), maxIterations, passes)
    ensures passes == [SecantPass(1, -1.0, 2.0, -2.0, 1.0, 4.0, 4.0)]
    ensures TsOutcome(Tolerance(decimalPlaces), maxIterations, NonFiniteIterate, passes) == Err(NonFiniteIterate)
    ensures TsOutcome(Tolerance(decimalPlaces), maxIterations, DivisionByZero, passes) == Err(DivisionByZero)
  {
    var p := SecantPass(1, -1.0, 2.0, -2.0, 1.0, 4.0, 4.0);
    SquareTrace(f, decimalPlaces, maxIterations);
    SecantTraceUnique(f, -1.0, 2.0, Tolerance(decimalPlaces), maxIterations, passes, [p]);
  }

  // ---------------------------------------------------------------------
  // secant.js

  const JsMaxIterations: int := 100

  /** secant(): equal guesses are refused before anything is evaluated; the
      loop checks the denominator on every pass and stops after 100. */
  method SecantJs(f: real -> real, x0: real, x1: real, decimalPlaces: nat)
    returns (r: Result<seq<SecantPass>>, ghost passes: seq<SecantPass>)
    ensures x0 == x1 ==> r == Err(SameInitialGuesses) && passes == []
    ensures x0 != x1 ==>
      SecantTrace(f, x0, x1, Tolerance(decimalPlaces), JsMaxIterations, passes) &&
      SecantHalted(f, x0, x1, Tolerance(decimalPlaces), JsMaxIterations, passes) &&
      r == Verdict(Tolerance(decimalPlaces), JsMaxIterations, DivisionByZero, passes)
  {
    if x0 == x1 {
      r := Err(SameInitialGuesses);
      passes := [];
      return;
    }
    r, passes := SecantLoop(f, x0, x1, Tolerance(decimalPlaces), JsMaxIterations, DivisionByZero);
  }
}
