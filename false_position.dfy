/** The false-position (regula falsi) solver of false-position.ts: it throws
    on an interval without a sign change, replaces one endpoint per pass by
    the chord's zero, stops on |f(c)| < tol or on a small change of c, and
    throws when the loop used up its passes. */
module FalsePosition {
  import opened Outcomes
  import opened Utils

  /** Number.MAX_VALUE, the error the loop starts with. */
  const MaxValue: real := 179769313486231570814527423731704356798070567525844996598917476803157260780028538760589558632766878171540458953514382464234321326889464182768467546703537516986049910576551282076245490090389328944075868508455133942304583236903222948165808559332123348274797826204144723168738177180919299881250404026184124858368.0

  /** One recorded pass: the interval, the chord point c, f at the three
      points and the error of the pass. */
  datatype FPPass = FPPass(iteration: int, a: real, b: real, c: real, fa: real, fb: real, fc: real, error: real)

  /** The zero of the chord through (a, fa) and (b, fb). */
  function ChordPoint(a: real, b: real, fa: real, fb: real): real
    requires fb - fa != 0.0
  {
    (a * fb - b * fa) / (fb - fa)
  }

  /** On a sign change the chord point lies between the endpoints, and
      strictly inside when they differ. */
  lemma ChordPointBetween(a: real, b: real, fa: real, fb: real)
    requires fa * fb < 0.0
    ensures fb - fa != 0.0
    ensures a <= b ==> a <= ChordPoint(a, b, fa, fb) <= b
    ensures b <= a ==> b <= ChordPoint(a, b, fa, fb) <= a
    ensures a != b ==> ChordPoint(a, b, fa, fb) != a && ChordPoint(a, b, fa, fb) != b
  {
    var n, m := Abs(fa), Abs(fb);
    assert n > 0.0 && m > 0.0 && fb - fa != 0.0 by {
      if fa > 0.0 { assert fb < 0.0; } else { assert fa < 0.0 && fb > 0.0; }
    }
    var d := n + m;
    var t := n / d;
    FractionInside(n, d);
    var c := ChordPoint(a, b, fa, fb);
    assert c - a == t * (b - a) by {
      assert c * (fb - fa) == a * fb - b * fa;
      assert (c - a) * (fb - fa) == fa * (a - b);
      assert t * d == n;
      if fa > 0.0 {
        assert fb - fa == -d && fa == n;
        assert (c - a) * d == n * (b - a);
      } else {
        assert fb - fa == d && fa == -n;
        assert (c - a) * d == n * (b - a);
      }
      assert (c - a) * d == (t * (b - a)) * d;
    }
    ScaledInside(t, b - a);
  }

  lemma FractionInside(x: real, d: real)
    requires 0.0 < x < d
    ensures 0.0 < x / d < 1.0
  {
    var q := x / d;
    assert q * d == x;
    PositiveFactor(q, d);
    PositiveFactor(1.0 - q, d);
  }

  lemma PositiveFactor(q: real, d: real)
    requires d > 0.0
    ensures q * d > 0.0 ==> q > 0.0
  {
  }

  /** t * w lies between 0 and w, strictly when w != 0, for 0 < t < 1. */
  lemma ScaledInside(t: real, w: real)
    requires 0.0 < t < 1.0
    ensures w >= 0.0 ==> 0.0 <= t * w <= w
    ensures w <= 0.0 ==> w <= t * w <= 0.0
    ensures w != 0.0 ==> t * w != 0.0 && t * w != w
  {
    assert w - t * w == (1.0 - t) * w;
  }

  /** The pass is evaluated as the loop does: f at both endpoints, the chord
      point (its denominator non-zero) and f there. */
  predicate Evaluated(f: real -> real, p: FPPass)
  {
    p.fa == f(p.a) && p.fb == f(p.b) && p.fb - p.fa != 0.0 &&
    p.c == ChordPoint(p.a, p.b, p.fa, p.fb) && p.fc == f(p.c)
  }

  /** The endpoint whose f has the sign of f(c) is replaced by c. */
  function Narrowed(p: FPPass): (real, real)
  {
    if p.fa * p.fc < 0.0 then (p.a, p.c) else (p.c, p.b)
  }

  /** After this pass the loop goes on, unless the cap is reached: the error
      is still above tol and f(c) is not yet small. */
  predicate Continues(tol: real, p: FPPass)
  {
    p.error > tol && Abs(p.fc) >= tol
  }

  /** Pass k (k >= 1) follows pass k - 1: the loop went on after it, its
      interval is the narrowing of the previous one, and its error is the
      change of c. */
  predicate Linked(tol: real, passes: seq<FPPass>, k: int)
    requires 0 < k < |passes|
  {
    Continues(tol, passes[k - 1]) &&
    (passes[k].a, passes[k].b) == Narrowed(passes[k - 1]) &&
    passes[k].error == Abs(passes[k].c - passes[k - 1].c)
  }

  /** `passes` is what the false-position loop records when started on
      [a0, b0]: numbered from 1, below the cap, each evaluated, the first with
      the interval width as its error and each later one linked to the one
      before. */
  predicate FPTrace(f: real -> real, a0: real, b0: real, tol: real, maxIterations: int, passes: seq<FPPass>)
  {
    (|passes| > 0 ==>
       MaxValue > tol && passes[0].a == a0 && passes[0].b == b0 && passes[0].error == Abs(b0 - a0)) &&
    (forall k :: 0 <= k < |passes| ==>
       passes[k].iteration == k + 1 && k < maxIterations && Evaluated(f, passes[k])) &&
    (forall k :: 0 < k < |passes| ==> Linked(tol, passes, k))
  }

  /** The loop has stopped: it never started, or after its last pass the
      error is at most tol, f(c) is small, or the cap is reached. */
  predicate FPHalted(tol: real, maxIterations: int, passes: seq<FPPass>)
  {
    if passes == [] then !(MaxValue > tol && 0 < maxIterations)
    else !Continues(tol, passes[|passes| - 1]) || |passes| >= maxIterations
  }

  // ---------------------------------------------------------------------
  // Properties of the loop

  /** A pass on a sign change that did not stop on a small f(c) leaves a sign change behind. */
  lemma NarrowingKeepsBracket(f: real -> real, tol: real, p: FPPass)
    requires tol > 0.0 && Evaluated(f, p) && p.fa * p.fb < 0.0 && Abs(p.fc) >= tol
    ensures f(Narrowed(p).0) * f(Narrowed(p).1) < 0.0
  {
    assert p.fc != 0.0;
    if p.fa * p.fc >= 0.0 {
      if p.fa > 0.0 {
        assert p.fb < 0.0 && p.fc > 0.0;
      } else {
        assert p.fb > 0.0 && p.fc < 0.0;
      }
    }
  }

  /** With tol > 0 and a sign change on [a0, b0], every pass still brackets a
      sign change, so its chord point lies between its endpoints. */
  lemma {:induction false} BracketKept(f: real -> real, a0: real, b0: real, tol: real, maxIterations: int, passes: seq<FPPass>, k: nat)
    requires tol > 0.0 && Brackets(f, a0, b0)
    requires FPTrace(f, a0, b0, tol, maxIterations, passes)
    requires k < |passes|
    ensures passes[k].fa * passes[k].fb < 0.0
    ensures passes[k].a <= passes[k].b ==> passes[k].a <= passes[k].c <= passes[k].b
    ensures passes[k].b <= passes[k].a ==> passes[k].b <= passes[k].c <= passes[k].a
  {
    if k > 0 {
      BracketKept(f, a0, b0, tol, maxIterations, passes, k - 1);
      assert Linked(tol, passes, k);
      NarrowingKeepsBracket(f, tol, passes[k - 1]);
    }
    ChordPointBetween(passes[k].a, passes[k].b, passes[k].fa, passes[k].fb);
  }

  /** One more pass, entered with the guard true after a trace that did not
      stop, extends the trace. */
  lemma TraceExtended(f: real -> real, a0: real, b0: real, tol: real, maxIterations: int, passes: seq<FPPass>, p: FPPass)
    requires FPTrace(f, a0, b0, tol, maxIterations, passes)
    requires passes == [] ==> MaxValue > tol && p.a == a0 && p.b == b0 && p.error == Abs(b0 - a0)
    requires passes != [] ==>
      Continues(tol, passes[|passes| - 1]) &&
      (p.a, p.b) == Narrowed(passes[|passes| - 1]) && p.error == Abs(p.c - passes[|passes| - 1].c)
    requires p.iteration == |passes| + 1 && |passes| < maxIterations && Evaluated(f, p)
    ensures FPTrace(f, a0, b0, tol, maxIterations, passes + [p])
  {
    var q := passes + [p];
    forall k | 0 < k < |q|
      ensures Linked(tol, q, k)
    {
      if k < |passes| {
        assert Linked(tol, passes, k);
      }
    }
  }

  /** A proper prefix of a trace has not halted: the pass after it shows
      that the loop went on, within the cap. */
  lemma PrefixNotHalted(f: real -> real, a0: real, b0: real, tol: real, maxIterations: int, p: seq<FPPass>, q: seq<FPPass>)
    requires FPTrace(f, a0, b0, tol, maxIterations, q)
    requires |p| < |q| && p == q[..|p|]
    ensures !FPHalted(tol, maxIterations, p)
  {
    var n := |p|;
    assert q[n].iteration == n + 1 && n < maxIterations;
    if n > 0 {
      assert p[n - 1] == q[n - 1];
      assert Linked(tol, q, n);
    }
  }

  /** Two traces from the same interval agree on their common length. */
  lemma {:induction false} SamePrefix(f: real -> real, a0: real, b0: real, tol: real, maxIterations: int, p: seq<FPPass>, q: seq<FPPass>, n: nat)
    requires FPTrace(f, a0, b0, tol, maxIterations, p) && FPTrace(f, a0, b0, tol, maxIterations, q)
    requires n <= |p| && n <= |q|
    ensures p[..n] == q[..n]
  {
    if n > 0 {
      SamePrefix(f, a0, b0, tol, maxIterations, p, q, n - 1);
      if n > 1 {
        assert p[n - 2] == q[n - 2] by { assert p[..n - 1][n - 2] == q[..n - 1][n - 2]; }
        assert Linked(tol, p, n - 1) && Linked(tol, q, n - 1);
      }
      assert p[n - 1] == q[n - 1];
      assert p[..n] == p[..n - 1] + [p[n - 1]];
      assert q[..n] == q[..n - 1] + [q[n - 1]];
    }
  }

  /** The loop is deterministic: two halted traces from the same interval
      are the same trace. */
  lemma FPTraceUnique(f: real -> real, a0: real, b0: real, tol: real, maxIterations: int, p: seq<FPPass>, q: seq<FPPass>)
    requires FPTrace(f, a0, b0, tol, maxIterations, p) && FPHalted(tol, maxIterations, p)
    requires FPTrace(f, a0, b0, tol, maxIterations, q) && FPHalted(tol, maxIterations, q)
    ensures p == q
  {
    if |p| < |q| {
      SamePrefix(f, a0, b0, tol, maxIterations, p, q, |p|);
      assert p == p[..|p|];
      PrefixNotHalted(f, a0, b0, tol, maxIterations, p, q);
    } else if |q| < |p| {
      SamePrefix(f, a0, b0, tol, maxIterations, p, q, |q|);
      assert q == q[..|q|];
      PrefixNotHalted(f, a0, b0, tol, maxIterations, q, p);
    } else {
      SamePrefix(f, a0, b0, tol, maxIterations, p, q, |p|);
      assert p == p[..|p|] && q == q[..|q|];
    }
  }

  // ---------------------------------------------------------------------
  // The solver

  /** The while loop of false-position.ts. Both endpoints are re-evaluated
      each pass; prevC is None until the first pass has run. The loop keeps
      a sign change between a and b, which is what keeps fb - fa non-zero. */
  method RegulaFalsiLoop(f: real -> real, lowerBound: real, upperBound: real, tol: real, maxIterations: int)
    returns (steps: seq<FPPass>)
    requires tol > 0.0 && Brackets(f, lowerBound, upperBound)
    ensures FPTrace(f, lowerBound, upperBound, tol, maxIterations, steps)
    ensures FPHalted(tol, maxIterations, steps)
  {
    var a, b := lowerBound, upperBound;
    steps := [];
    var iter := 0;
    var c := a;
    var prevC: Option<real> := None;
    var error := MaxValue;
    while error > tol && iter < maxIterations
      invariant iter == |steps| && Brackets(f, a, b)
      invariant FPTrace(f, lowerBound, upperBound, tol, maxIterations, steps)
      invariant steps == [] ==> a == lowerBound && b == upperBound && error == MaxValue && prevC == None
      invariant steps != [] ==>
        var last := steps[|steps| - 1];
        Abs(last.fc) >= tol && (a, b) == Narrowed(last) && error == last.error && prevC == Some(last.c)
      decreases maxIterations - iter
    {
      iter := iter + 1;
      var fa := f(a);
      var fb := f(b);
      ChordPointBetween(a, b, fa, fb);
      c := ChordPoint(a, b, fa, fb);
      var fc := f(c);
      error := if prevC.None? then Abs(b - a) else Abs(c - prevC.value);
      var p := FPPass(iter, a, b, c, fa, fb, fc, error);
      TraceExtended(f, lowerBound, upperBound, tol, maxIterations, steps, p);
      steps := steps + [p];
      if Abs(fc) < tol {
        break;
      }
      NarrowingKeepsBracket(f, tol, p);
      if fa * fc < 0.0 {
        b := c;
      } else {
        a := c;
      }
      assert (a, b) == Narrowed(p) && Brackets(f, a, b);
      prevC := Some(c);
    }
  }

  const Title: string := "False Position Method Solution"

  const Header: seq<Cell> := [Label("$Iteration$"), Label("$a$"), Label("$b$"), Label("$c$"), Label("$f(a)$"), Label("$f(b)$"), Label("$f(c)$"), Label("$Error$")]

  // The texts of the steps, as templates whose {} holes the numbers fill.
  const IterationDescription: string := "Iteration {}"
  const ChordFormula: string := @"$\frac{a\,f(b)-b\,f(a)}{f(b)-f(a)}$"
  const ChordCalculation: string := @"$c = \frac{{}\,\cdot\,{} - {}\,\cdot\,{}}{{} - {}} = {}$"
  const ValuesResult: string := @"$f(c) = {}, \quad Error = {}$"
  const AnswerTemplate: string := "x = {} (after {} iterations)"

  function PassStep(p: FPPass): Step
  {
    CreateStep(p.iteration, Fill(IterationDescription, [p.iteration as real]), Lit(ChordFormula),
               Fill(ChordCalculation, [p.a, p.fb, p.b, p.fa, p.fb, p.fa, p.c]),
               Some(Fill(ValuesResult, [p.fc, p.error])))
  }

  /** One table row; every number in fixed notation. */
  function PassRow(p: FPPass): seq<Cell>
  {
    [Count(p.iteration), Fixed(p.a), Fixed(p.b), Fixed(p.c), Fixed(p.fa), Fixed(p.fb), Fixed(p.fc), Fixed(p.error)]
  }

  function PassSteps(passes: seq<FPPass>): (s: seq<Step>)
    ensures |s| == |passes| && forall k :: 0 <= k < |s| ==> s[k] == PassStep(passes[k])
  {
    seq(|passes|, k requires 0 <= k < |passes| => PassStep(passes[k]))
  }

  function PassRows(passes: seq<FPPass>): (s: seq<seq<Cell>>)
    ensures |s| == |passes| && forall k :: 0 <= k < |s| ==> s[k] == PassRow(passes[k])
  {
    seq(|passes|, k requires 0 <= k < |passes| => PassRow(passes[k]))
  }

  /** The solution built from the recorded passes by the two maps after the
      loop; the answer is the c of the last pass. */
  function FPSolution(passes: seq<FPPass>): Solution
    requires passes != []
  {
    Solution(Title, PassSteps(passes), [Header] + PassRows(passes),
             Fill(AnswerTemplate, [passes[|passes| - 1].c, |passes| as real]))
  }

  method FalsePositionTs(f: real -> real, lowerBound: real, upperBound: real, decimalPlaces: nat, maxIterations: int)
    returns (r: Result<Solution>, ghost passes: seq<FPPass>)
    ensures !Brackets(f, lowerBound, upperBound) ==> r == Err(NoRootInInterval) && passes == []
    ensures Brackets(f, lowerBound, upperBound) ==>
      FPTrace(f, lowerBound, upperBound, Tolerance(decimalPlaces), maxIterations, passes) &&
      FPHalted(Tolerance(decimalPlaces), maxIterations, passes) &&
      r == (if |passes| >= maxIterations then Err(MaxIterationsReached) else Ok(FPSolution(passes)))
  {
    var tol := Tolerance(decimalPlaces);
    var fa := f(lowerBound);
    var fb := f(upperBound);
    if fa * fb >= 0.0 {
      r := Err(NoRootInInterval);
      passes := [];
      return;
    }
    assert Brackets(f, lowerBound, upperBound);
    var steps := RegulaFalsiLoop(f, lowerBound, upperBound, tol, maxIterations);
    assert Brackets(f, lowerBound, upperBound);
    passes := steps;
    if |steps| >= maxIterations {
      r := Err(MaxIterationsReached);
      return;
    }
    r := Ok(FPSolution(steps));
  }

  // ---------------------------------------------------------------------
  // What a successful run promises

  /** A run that returns a solution stopped for a reason other than the cap:
      it ran at least one pass, fewer than maxIterations, and its last pass
      had |f(c)| < tol or an error of at most tol; no earlier pass did. */
  lemma SuccessMeansConverged(f: real -> real, a0: real, b0: real, decimalPlaces: nat, maxIterations: int, passes: seq<FPPass>)
    requires FPTrace(f, a0, b0, Tolerance(decimalPlaces), maxIterations, passes)
    requires FPHalted(Tolerance(decimalPlaces), maxIterations, passes)
    requires |passes| < maxIterations
    ensures passes != []
    ensures var last := passes[|passes| - 1];
      Abs(last.fc) < Tolerance(decimalPlaces) || last.error <= Tolerance(decimalPlaces)
    ensures forall k :: 0 <= k < |passes| - 1 ==> Continues(Tolerance(decimalPlaces), passes[k])
  {
    var tol := Tolerance(decimalPlaces);
    assert MaxValue > tol;
    forall k | 0 <= k < |passes| - 1
      ensures Continues(tol, passes[k])
    {
      assert Linked(tol, passes, k + 1);
    }
  }

  /** The solution's steps are numbered 1..n, one per pass, the table has the
      header and then one row per step, and the answer is the last c together
      with the number of passes. */
  lemma SolutionShape(f: real -> real, a0: real, b0: real, tol: real, maxIterations: int, passes: seq<FPPass>)
    requires FPTrace(f, a0, b0, tol, maxIterations, passes) && passes != []
    ensures var s := FPSolution(passes);
      NumberedFromOne(s.steps) && |s.steps| == |passes| &&
      |s.iterationTable| == |s.steps| + 1 && s.iterationTable[0] == Header &&
      s.iterationTable[1..] == PassRows(passes) &&
      s.finalAnswer == Fill(AnswerTemplate, [passes[|passes| - 1].c, |passes| as real])
  {
    var s := FPSolution(passes);
    assert s.iterationTable[1..] == PassRows(passes);
  }
}
