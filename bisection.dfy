/** Bisection, in its two variants: the form-facing one (bisection.ts), which
    answers an invalid bracket with a one-step diagnostic and always adds a
    "final" midpoint, and the plain one (bisection.js), which throws on an
    invalid bracket and on reaching its fixed cap of 100 passes. Both run the
    same halving loop, specified once by HalvingTrace. */
module Bisection {
  import opened Outcomes
  import opened Utils

  /** One pass of the halving loop: the interval [a, b] it starts from, the
      midpoint c and the values of f at the three points. */
  datatype Pass = Pass(iteration: int, a: real, b: real, c: real, fa: real, fb: real, fc: real)

  /** The interval after a pass: b moves to c when f(a) and f(c) differ in
      sign, otherwise a moves to c. */
  function Narrowed(p: Pass): (real, real)
  {
    if p.fa * p.fc < 0.0 then (p.a, p.c) else (p.c, p.b)
  }

  /** The interval the loop holds after the given passes. */
  function NextInterval(a0: real, b0: real, passes: seq<Pass>): (real, real)
  {
    if passes == [] then (a0, b0) else Narrowed(passes[|passes| - 1])
  }

  predicate Evaluated(f: real -> real, p: Pass)
  {
    p.c == (p.a + p.b) / 2.0 && p.fa == f(p.a) && p.fb == f(p.b) && p.fc == f(p.c)
  }

  /** The loop guard, checked before pass k + 1 on the interval [a, b]. */
  predicate Guard(tol: real, maxIterations: int, k: int, a: real, b: real)
  {
    b - a > 2.0 * tol && k < maxIterations
  }

  /** `passes` is what the halving loop records when started on [a0, b0]:
      numbered from 1, each pass entered with the guard true, each evaluated
      at the midpoint of its interval, and each interval the narrowing of the
      one before, which was not an exact root. */
  predicate HalvingTrace(f: real -> real, a0: real, b0: real, tol: real, maxIterations: int, passes: seq<Pass>)
  {
    (|passes| > 0 ==> passes[0].a == a0 && passes[0].b == b0) &&
    (forall k :: 0 <= k < |passes| ==>
       passes[k].iteration == k + 1 && Evaluated(f, passes[k]) &&
       Guard(tol, maxIterations, k, passes[k].a, passes[k].b)) &&
    (forall k :: 0 <= k < |passes| - 1 ==> Linked(passes, k))
  }

  /** Pass k was not an exact root and pass k + 1 starts from its narrowing. */
  predicate Linked(passes: seq<Pass>, k: int)
    requires 0 <= k < |passes| - 1
  {
    passes[k].fc != 0.0 && (passes[k + 1].a, passes[k + 1].b) == Narrowed(passes[k])
  }

  predicate ExactRoot(passes: seq<Pass>)
  {
    |passes| > 0 && passes[|passes| - 1].fc == 0.0
  }

  /** The loop has stopped: the last pass hit f(c) == 0, or the guard fails
      on the interval it left behind. */
  predicate Halted(a0: real, b0: real, tol: real, maxIterations: int, passes: seq<Pass>)
  {
    ExactRoot(passes) ||
    !Guard(tol, maxIterations, |passes|, NextInterval(a0, b0, passes).0, NextInterval(a0, b0, passes).1)
  }

  /** The midpoint pass after the loop, with f evaluated afresh. */
  function FinalPass(f: real -> real, iteration: int, a: real, b: real): (p: Pass)
    ensures Evaluated(f, p) && p.iteration == iteration && p.a == a && p.b == b
  {
    var c := (a + b) / 2.0;
    Pass(iteration, a, b, c, f(a), f(b), f(c))
  }

  function Pow2(k: nat): (r: real)
    ensures r >= 1.0
  {
    if k == 0 then 1.0 else 2.0 * Pow2(k - 1)
  }

  // ---------------------------------------------------------------------
  // Properties of the halving loop

  /** Narrowing keeps a sign change between the endpoints unless c is a root. */
  lemma NarrowingKeepsBracket(f: real -> real, p: Pass)
    requires Evaluated(f, p) && p.fa * p.fb < 0.0 && p.fc != 0.0
    ensures f(Narrowed(p).0) * f(Narrowed(p).1) < 0.0
  {
    if p.fa * p.fc >= 0.0 {
      assert p.fa != 0.0;
      if p.fa > 0.0 {
        assert p.fb < 0.0;
        assert p.fc > 0.0;
      } else {
        assert p.fb > 0.0;
        assert p.fc < 0.0;
      }
    }
  }

  /** With f(a0) * f(b0) < 0 every recorded pass still brackets a sign change,
      and so does the interval left after a pass that was not an exact root. */
  lemma {:induction false} BracketKept(f: real -> real, a0: real, b0: real, tol: real, maxIterations: int, passes: seq<Pass>, k: nat)
    requires Brackets(f, a0, b0)
    requires HalvingTrace(f, a0, b0, tol, maxIterations, passes)
    requires k < |passes|
    ensures passes[k].fa * passes[k].fb < 0.0
    ensures passes[k].fc != 0.0 ==> f(Narrowed(passes[k]).0) * f(Narrowed(passes[k]).1) < 0.0
  {
    if k > 0 {
      BracketKept(f, a0, b0, tol, maxIterations, passes, k - 1);
      assert Linked(passes, k - 1);
    }
    if passes[k].fc != 0.0 {
      NarrowingKeepsBracket(f, passes[k]);
    }
  }

  /** Pass k works on an interval of width (b0 - a0) / 2^k, and its midpoint
      lies strictly inside when a0 < b0. */
  lemma {:induction false} WidthHalves(f: real -> real, a0: real, b0: real, tol: real, maxIterations: int, passes: seq<Pass>, k: nat)
    requires HalvingTrace(f, a0, b0, tol, maxIterations, passes)
    requires k < |passes|
    ensures passes[k].b - passes[k].a == (b0 - a0) / Pow2(k)
    ensures a0 < b0 ==> passes[k].a < passes[k].c < passes[k].b
  {
    if k > 0 {
      WidthHalves(f, a0, b0, tol, maxIterations, passes, k - 1);
      assert Linked(passes, k - 1);
      NarrowedIsHalf(passes[k - 1]);
      HalvedPower(b0 - a0, k);
    }
    if a0 < b0 {
      PositiveOverPower(b0 - a0, k);
    }
  }

  /** Narrowing keeps one half of the interval. */
  lemma NarrowedIsHalf(p: Pass)
    requires p.c == (p.a + p.b) / 2.0
    ensures Narrowed(p).1 - Narrowed(p).0 == (p.b - p.a) / 2.0
  {
  }

  lemma HalvedPower(w: real, k: nat)
    requires k > 0
    ensures w / Pow2(k - 1) / 2.0 == w / Pow2(k)
  {
    var q := Pow2(k - 1);
    assert Pow2(k) == 2.0 * q;
    assert w / q / 2.0 == w / (2.0 * q);
  }

  lemma PositiveOverPower(w: real, k: nat)
    requires w > 0.0
    ensures w / Pow2(k) > 0.0
  {
  }

  /** The loop is deterministic: two halted traces from the same start are
      the same trace. So both variants, run with the same cap, record the
      same passes. */
  lemma {:induction false} HalvingTraceUnique(f: real -> real, a0: real, b0: real, tol: real, maxIterations: int, p: seq<Pass>, q: seq<Pass>)
    requires HalvingTrace(f, a0, b0, tol, maxIterations, p) && Halted(a0, b0, tol, maxIterations, p)
    requires HalvingTrace(f, a0, b0, tol, maxIterations, q) && Halted(a0, b0, tol, maxIterations, q)
    ensures p == q
  {
    var n := if |p| < |q| then |p| else |q|;
    SamePrefix(f, a0, b0, tol, maxIterations, p, q, n);
    if |p| < |q| {
      PrefixNotHalted(f, a0, b0, tol, maxIterations, p, q);
    } else if |q| < |p| {
      PrefixNotHalted(f, a0, b0, tol, maxIterations, q, p);
    } else {
      assert p[..n] == p && q[..n] == q;
    }
  }

  lemma {:induction false} SamePrefix(f: real -> real, a0: real, b0: real, tol: real, maxIterations: int, p: seq<Pass>, q: seq<Pass>, n: nat)
    requires HalvingTrace(f, a0, b0, tol, maxIterations, p) && HalvingTrace(f, a0, b0, tol, maxIterations, q)
    requires n <= |p| && n <= |q|
    ensures p[..n] == q[..n]
  {
    if n > 0 {
      SamePrefix(f, a0, b0, tol, maxIterations, p, q, n - 1);
      if n > 1 {
        assert p[n - 2] == q[n - 2] by { assert p[..n - 1][n - 2] == q[..n - 1][n - 2]; }
        assert Linked(p, n - 2) && Linked(q, n - 2);
      }
      assert p[n - 1] == q[n - 1];
      assert p[..n] == p[..n - 1] + [p[n - 1]];
      assert q[..n] == q[..n - 1] + [q[n - 1]];
    }
  }

  /** A proper prefix of a trace has not halted: the next pass of the longer
      trace shows that the guard still held and no exact root was hit. */
  lemma PrefixNotHalted(f: real -> real, a0: real, b0: real, tol: real, maxIterations: int, p: seq<Pass>, q: seq<Pass>)
    requires HalvingTrace(f, a0, b0, tol, maxIterations, q)
    requires |p| < |q| && p == q[..|p|]
    ensures !Halted(a0, b0, tol, maxIterations, p)
  {
    var n := |p|;
    assert q[n].iteration == n + 1 && Guard(tol, maxIterations, n, q[n].a, q[n].b);
    if n > 0 {
      assert p[n - 1] == q[n - 1];
      assert Linked(q, n - 1);
    }
  }

  /** One more pass, entered with the guard true on the interval the trace
      left behind, extends the trace. */
  lemma TraceExtended(f: real -> real, a0: real, b0: real, tol: real, maxIterations: int, passes: seq<Pass>, p: Pass)
    requires HalvingTrace(f, a0, b0, tol, maxIterations, passes) && !ExactRoot(passes)
    requires (p.a, p.b) == NextInterval(a0, b0, passes) && p.iteration == |passes| + 1
    requires Evaluated(f, p) && Guard(tol, maxIterations, |passes|, p.a, p.b)
    ensures HalvingTrace(f, a0, b0, tol, maxIterations, passes + [p])
    ensures NextInterval(a0, b0, passes + [p]) == Narrowed(p)
    ensures ExactRoot(passes + [p]) <==> p.fc == 0.0
  {
    var q := passes + [p];
    forall k | 0 <= k < |q| - 1
      ensures Linked(q, k)
    {
      if k < |passes| - 1 {
        assert Linked(passes, k);
      }
    }
  }

  // ---------------------------------------------------------------------
  // bisection.ts

  // The texts of the steps, as templates whose {} holes the numbers fill.
  const NoRootDescription: string := "No root guaranteed in the given interval"
  const SignChangeFormula: string := @"$f(a) \cdot f(b) < 0$"
  const EndpointValues: string := "$f({}) = {}, f({}) = {}"
  const InvalidIntervalNote: string := "Interval is invalid for the bisection method."
  const NoRootAnswer: string := "No root guaranteed in the interval [{}, {}]"
  const IterationDescription: string := "Iteration {}"
  const MidpointFormula: string := @"$$c = \frac{a + b}{2}$$"
  const MidpointCalculation: string := @"$$c = \frac{{} + {}}{2} = {}$$"
  const ValuesResult: string := "$$f(a) = {}$$\n$$f(b) = {}$$\n$$f(c) = {}$$"
  const FinalDescription: string := "Final Iteration {}"
  const AnswerTemplate: string := "x = {} (after {} iterations)"

  const Title: string := "Bisection Method Solution"

  const Header: seq<Cell> := [Label("Iteration"), Label("a"), Label("b"), Label("c"), Label("f(a)"), Label("f(b)"), Label("f(c)"), Label("Error")]

  /** The one-step diagnostic returned when f(a) * f(b) >= 0. */
  function NoRootSolution(a: real, b: real, fa: real, fb: real): (s: Solution)
    ensures |s.steps| == 1 && s.steps[0].stepNumber == 1 && s.iterationTable == []
  {
    Solution(Title,
      [CreateStep(1, Lit(NoRootDescription), Lit(SignChangeFormula),
                  Fill(EndpointValues, [a, fa, b, fb]), Some(Lit(InvalidIntervalNote)))],
      [],
      Fill(NoRootAnswer, [a, b]))
  }

  function IterationStep(p: Pass): Step
  {
    CreateStep(p.iteration, Fill(IterationDescription, [p.iteration as real]), Lit(MidpointFormula),
               Fill(MidpointCalculation, [p.a, p.b, p.c]),
               Some(Fill(ValuesResult, [p.fa, p.fb, p.fc])))
  }

  function FinalStep(p: Pass): Step
  {
    CreateStep(p.iteration, Fill(FinalDescription, [p.iteration as real]), Lit(MidpointFormula),
               Fill(MidpointCalculation, [p.a, p.b, p.c]),
               Some(Fill(ValuesResult, [p.fa, p.fb, p.fc])))
  }

  /** An in-loop table row; its error column is the width b - a. */
  function IterationRow(p: Pass): seq<Cell>
  {
    [Count(p.iteration), Fixed(p.a), Fixed(p.b), Fixed(p.c), Fixed(p.fa), Fixed(p.fb), Fixed(p.fc), Fixed(p.b - p.a)]
  }

  function FinalRow(p: Pass, error: Cell): seq<Cell>
  {
    [Count(p.iteration), Fixed(p.a), Fixed(p.b), Fixed(p.c), Fixed(p.fa), Fixed(p.fb), Fixed(p.fc), error]
  }

  function IterationSteps(passes: seq<Pass>): (s: seq<Step>)
    ensures |s| == |passes| && forall k :: 0 <= k < |s| ==> s[k] == IterationStep(passes[k])
  {
    seq(|passes|, k requires 0 <= k < |passes| => IterationStep(passes[k]))
  }

  function IterationRows(passes: seq<Pass>): (s: seq<seq<Cell>>)
    ensures |s| == |passes| && forall k :: 0 <= k < |s| ==> s[k] == IterationRow(passes[k])
  {
    seq(|passes|, k requires 0 <= k < |passes| => IterationRow(passes[k]))
  }

  lemma RecordsAppended(passes: seq<Pass>, p: Pass)
    ensures IterationSteps(passes + [p]) == IterationSteps(passes) + [IterationStep(p)]
    ensures IterationRows(passes + [p]) == IterationRows(passes) + [IterationRow(p)]
  {
    assert IterationSteps(passes + [p])[|passes|] == IterationStep(p);
    assert IterationRows(passes + [p])[|passes|] == IterationRow(p);
  }

  /** The error cell of the final row: |c - previous c|, read back from the
      c column of the last row, which is NaN when that row is the header. */
  function PreviousError(passes: seq<Pass>, c: real): Cell
  {
    if passes == [] then NotANumber else Fixed(Abs(c - passes[|passes| - 1].c))
  }

  function Answer(c: real, iterations: int): Text
  {
    Fill(AnswerTemplate, [c, iterations as real])
  }

  /** The solution bisection.ts assembles from the passes of its loop. */
  function TsSolution(f: real -> real, a0: real, b0: real, passes: seq<Pass>): Solution
  {
    var steps := IterationSteps(passes);
    var table := [Header] + IterationRows(passes);
    if ExactRoot(passes) then
      Solution(Title, steps, table, Answer(passes[|passes| - 1].c, |passes|))
    else
      var fin := FinalPass(f, |passes| + 1, NextInterval(a0, b0, passes).0, NextInterval(a0, b0, passes).1);
      Solution(Title, steps + [FinalStep(fin)], table + [FinalRow(fin, PreviousError(passes, fin.c))], Answer(fin.c, fin.iteration))
  }

  /** The "final" midpoint pass bisection.ts appends after a loop that did
      not hit an exact root; its error cell reads the previous c back from
      the c column of the table's last row, which is the header (so NaN) when
      the loop never ran. */
  method AppendFinalTs(f: real -> real, iteration: int, a: real, b: real, ghost passes: seq<Pass>, steps: seq<Step>, table: seq<seq<Cell>>)
    returns (steps': seq<Step>, table': seq<seq<Cell>>)
    requires table == [Header] + IterationRows(passes)
    ensures steps' == steps + [FinalStep(FinalPass(f, iteration, a, b))]
    ensures table' == table + [FinalRow(FinalPass(f, iteration, a, b), PreviousError(passes, (a + b) / 2.0))]
  {
    var c := (a + b) / 2.0;
    var faFinal := f(a);
    var fbFinal := f(b);
    var fcFinal := f(c);
    var fin := Pass(iteration, a, b, c, faFinal, fbFinal, fcFinal);
    steps' := steps + [FinalStep(fin)];
    var previousC := table[|table| - 1][3];
    var error := if previousC.Fixed? then Fixed(Abs(c - previousC.v)) else NotANumber;
    table' := table + [FinalRow(fin, error)];
  }

  /** The while loop of bisection.ts, recording one step and one table row
      per pass; f(a) and f(b) are carried along rather than re-evaluated. */
  method HalvingLoopTs(f: real -> real, lowerBound: real, upperBound: real, tolerance: real, maxIterations: int)
    returns (a: real, b: real, c: real, iteration: int, foundExactRoot: bool, steps: seq<Step>, table: seq<seq<Cell>>, ghost passes: seq<Pass>)
    ensures HalvingTrace(f, lowerBound, upperBound, tolerance, maxIterations, passes)
    ensures Halted(lowerBound, upperBound, tolerance, maxIterations, passes)
    ensures !foundExactRoot ==> (a, b) == NextInterval(lowerBound, upperBound, passes)
    ensures iteration == |passes|
    ensures foundExactRoot == ExactRoot(passes) && (foundExactRoot ==> c == passes[|passes| - 1].c)
    ensures steps == IterationSteps(passes) && table == [Header] + IterationRows(passes)
  {
    a, b := lowerBound, upperBound;
    iteration := 0;
    steps, table := [], [Header];
    var fa := f(a);
    var fb := f(b);
    passes := [];
    foundExactRoot := false;
    c := 0.0;
    while b - a > 2.0 * tolerance && iteration < maxIterations
      invariant iteration == |passes|
      invariant HalvingTrace(f, lowerBound, upperBound, tolerance, maxIterations, passes)
      invariant (a, b) == NextInterval(lowerBound, upperBound, passes)
      invariant fa == f(a) && fb == f(b)
      invariant !ExactRoot(passes) && !foundExactRoot
      invariant steps == IterationSteps(passes)
      invariant table == [Header] + IterationRows(passes)
      decreases maxIterations - iteration
    {
      iteration := iteration + 1;
      c := (a + b) / 2.0;
      var fc := f(c);
      var p := Pass(iteration, a, b, c, fa, fb, fc);
      TraceExtended(f, lowerBound, upperBound, tolerance, maxIterations, passes, p);
      RecordsAppended(passes, p);
      steps := steps + [IterationStep(p)];
      table := table + [IterationRow(p)];
      passes := passes + [p];
      if fc == 0.0 {
        foundExactRoot := true;
        break;
      }
      if fa * fc < 0.0 {
        b := c;
        fb := fc;
      } else {
        a := c;
        fa := fc;
      }
    }
  }

  /** bisection.ts after its bracket check: the loop, the final midpoint
      when no exact root was hit, and the answer. */
  method SolveBracketTs(f: real -> real, lowerBound: real, upperBound: real, tolerance: real, maxIterations: int)
    returns (sol: Solution, ghost passes: seq<Pass>)
    ensures HalvingTrace(f, lowerBound, upperBound, tolerance, maxIterations, passes)
    ensures Halted(lowerBound, upperBound, tolerance, maxIterations, passes)
    ensures sol == TsSolution(f, lowerBound, upperBound, passes)
  {
    var a, b, c, iteration, foundExactRoot, steps, table;
    a, b, c, iteration, foundExactRoot, steps, table, passes := HalvingLoopTs(f, lowerBound, upperBound, tolerance, maxIterations);
    if !foundExactRoot {
      iteration := iteration + 1;
      c := (a + b) / 2.0;
      steps, table := AppendFinalTs(f, iteration, a, b, passes, steps, table);
    }
    sol := Solution(Title, steps, table, Answer(c, iteration));
  }

  method BisectionTs(f: real -> real, lowerBound: real, upperBound: real, decimalPlaces: nat, maxIterations: int)
    returns (sol: Solution, ghost passes: seq<Pass>)
    ensures !Brackets(f, lowerBound, upperBound) ==>
      passes == [] && sol == NoRootSolution(lowerBound, upperBound, f(lowerBound), f(upperBound))
    ensures Brackets(f, lowerBound, upperBound) ==>
      HalvingTrace(f, lowerBound, upperBound, Tolerance(decimalPlaces), maxIterations, passes) &&
      Halted(lowerBound, upperBound, Tolerance(decimalPlaces), maxIterations, passes) &&
      sol == TsSolution(f, lowerBound, upperBound, passes)
  {
    var tolerance := Tolerance(decimalPlaces);
    var fa := f(lowerBound);
    var fb := f(upperBound);
    if fa * fb >= 0.0 {
      sol := NoRootSolution(lowerBound, upperBound, fa, fb);
      passes := [];
      return;
    }
    assert Brackets(f, lowerBound, upperBound);
    sol, passes := SolveBracketTs(f, lowerBound, upperBound, tolerance, maxIterations);
    assert Brackets(f, lowerBound, upperBound);
  }

  /** The x of the answer: the exact root, or the midpoint of the interval
      the loop left behind. */
  function LastMidpoint(a0: real, b0: real, passes: seq<Pass>): real
  {
    if ExactRoot(passes) then passes[|passes| - 1].c
    else (NextInterval(a0, b0, passes).0 + NextInterval(a0, b0, passes).1) / 2.0
  }

  /** A trace never has more passes than the cap allows. */
  lemma PassesBounded(f: real -> real, a0: real, b0: real, tol: real, maxIterations: int, passes: seq<Pass>)
    requires HalvingTrace(f, a0, b0, tol, maxIterations, passes)
    ensures |passes| <= (if maxIterations < 0 then 0 else maxIterations)
  {
    if passes != [] {
      assert Guard(tol, maxIterations, |passes| - 1, passes[|passes| - 1].a, passes[|passes| - 1].b);
    }
  }

  /** The steps of the assembled solution are numbered 1..n, one per pass
      plus the final one unless the loop hit an exact root, and the answer
      names the last midpoint and the number of steps. */
  lemma TsStepsShape(f: real -> real, a0: real, b0: real, tol: real, maxIterations: int, passes: seq<Pass>)
    requires HalvingTrace(f, a0, b0, tol, maxIterations, passes)
    ensures var s := TsSolution(f, a0, b0, passes);
      NumberedFromOne(s.steps) &&
      |s.steps| == (if ExactRoot(passes) then |passes| else |passes| + 1) &&
      s.finalAnswer == Answer(LastMidpoint(a0, b0, passes), |s.steps|)
  {
    var s := TsSolution(f, a0, b0, passes);
    if ExactRoot(passes) {
      assert s.steps == IterationSteps(passes);
    } else {
      var fin := FinalPass(f, |passes| + 1, NextInterval(a0, b0, passes).0, NextInterval(a0, b0, passes).1);
      assert s.steps == IterationSteps(passes) + [FinalStep(fin)];
      assert s.steps[|passes|].stepNumber == |passes| + 1;
    }
  }

  /** The table has the header, then the in-loop rows in order, then the
      final row when there is a final step: one row per step below the header. */
  lemma TsTableShape(f: real -> real, a0: real, b0: real, passes: seq<Pass>)
    ensures var s := TsSolution(f, a0, b0, passes);
      |s.iterationTable| == |s.steps| + 1 &&
      s.iterationTable[0] == Header &&
      s.iterationTable[1..|passes| + 1] == IterationRows(passes)
  {
    var s := TsSolution(f, a0, b0, passes);
    var rows := IterationRows(passes);
    if ExactRoot(passes) {
      assert s.iterationTable == [Header] + rows + [];
      BetweenHeadAndTail(Header, rows, []);
    } else {
      var fin := FinalPass(f, |passes| + 1, NextInterval(a0, b0, passes).0, NextInterval(a0, b0, passes).1);
      assert s.iterationTable == [Header] + rows + [FinalRow(fin, PreviousError(passes, fin.c))];
      BetweenHeadAndTail(Header, rows, [FinalRow(fin, PreviousError(passes, fin.c))]);
    }
  }

  lemma BetweenHeadAndTail<T>(head: T, middle: seq<T>, tail: seq<T>)
    ensures ([head] + middle + tail)[1..|middle| + 1] == middle
  {
  }

  /** Started on a bracket a0 < b0 with f(a0) * f(b0) < 0, a run that neither
      hit an exact root nor ran out of passes ends on an interval that still
      brackets a sign change, is at most 2 * tol wide, and has the answer at
      its midpoint: the answer is within tol of both ends. */
  lemma AnswerWithinTolerance(f: real -> real, a0: real, b0: real, tol: real, maxIterations: int, passes: seq<Pass>)
    requires a0 < b0 && Brackets(f, a0, b0)
    requires HalvingTrace(f, a0, b0, tol, maxIterations, passes) && Halted(a0, b0, tol, maxIterations, passes)
    requires !ExactRoot(passes) && |passes| < maxIterations
    ensures var (a, b) := NextInterval(a0, b0, passes);
      Brackets(f, a, b) && a < b && b - a <= 2.0 * tol &&
      LastMidpoint(a0, b0, passes) - a == b - LastMidpoint(a0, b0, passes) <= tol
  {
    if passes != [] {
      var k := |passes| - 1;
      BracketKept(f, a0, b0, tol, maxIterations, passes, k);
      WidthHalves(f, a0, b0, tol, maxIterations, passes, k);
      var p := passes[k];
      assert p.a < p.c < p.b;
    }
  }

  // ---------------------------------------------------------------------
  // bisection.js

  const JsMaxIterations: int := 100

  /** The passes bisection.js returns: the loop's passes, plus one final
      midpoint pass unless the loop stopped on an exact root. */
  function JsSteps(f: real -> real, a0: real, b0: real, passes: seq<Pass>): seq<Pass>
  {
    if ExactRoot(passes) then passes
    else passes + [FinalPass(f, |passes| + 1, NextInterval(a0, b0, passes).0, NextInterval(a0, b0, passes).1)]
  }

  method BisectionJs(f: real -> real, a: real, b: real, decimalPlaces: nat)
    returns (r: Result<seq<Pass>>, ghost passes: seq<Pass>)
    ensures !Brackets(f, a, b) ==> r == Err(NoRootInInterval) && passes == []
    ensures Brackets(f, a, b) ==>
      HalvingTrace(f, a, b, Tolerance(decimalPlaces), JsMaxIterations, passes) &&
      Halted(a, b, Tolerance(decimalPlaces), JsMaxIterations, passes) &&
      r == (if |passes| >= JsMaxIterations then Err(MaxIterationsReached) else Ok(JsSteps(f, a, b, passes)))
  {
    var tolerance := Tolerance(decimalPlaces);
    var faInitial := f(a);
    var fbInitial := f(b);
    passes := [];
    if faInitial * fbInitial >= 0.0 {
      r := Err(NoRootInInterval);
      return;
    }
    var currentA, currentB := a, b;
    var steps: seq<Pass> := [];
    var count := 0;
    var foundExactRoot := false;
    while currentB - currentA > 2.0 * tolerance && count < JsMaxIterations
      invariant count == |steps|
      invariant HalvingTrace(f, a, b, tolerance, JsMaxIterations, steps)
      invariant (currentA, currentB) == NextInterval(a, b, steps)
      invariant !ExactRoot(steps) && !foundExactRoot
      decreases JsMaxIterations - count
    {
      count := count + 1;
      var c := (currentA + currentB) / 2.0;
      var fa := f(currentA);
      var fb := f(currentB);
      var fc := f(c);
      var p := Pass(count, currentA, currentB, c, fa, fb, fc);
      TraceExtended(f, a, b, tolerance, JsMaxIterations, steps, p);
      steps := steps + [p];
      if fc == 0.0 {
        foundExactRoot := true;
        break;
      }
      if fa * fc < 0.0 {
        currentB := c;
      } else {
        currentA := c;
      }
    }
    passes := steps;
    assert foundExactRoot == ExactRoot(steps);
    if count >= JsMaxIterations {
      r := Err(MaxIterationsReached);
      return;
    }
    if !foundExactRoot {
      count := count + 1;
      var finalC := (currentA + currentB) / 2.0;
      var fa := f(currentA);
      var fb := f(currentB);
      var fc := f(finalC);
      steps := steps + [Pass(count, currentA, currentB, finalC, fa, fb, fc)];
    }
    r := Ok(steps);
  }

  /** The returned passes are numbered 1..n with no gaps, the last one is the
      midpoint of the final interval (or the exact root), and there are at
      most 100 of them. */
  lemma JsStepsShape(f: real -> real, a0: real, b0: real, tol: real, passes: seq<Pass>)
    requires HalvingTrace(f, a0, b0, tol, JsMaxIterations, passes)
    requires |passes| < JsMaxIterations
    ensures var s := JsSteps(f, a0, b0, passes);
      |s| >= 1 && |s| <= JsMaxIterations &&
      (forall k :: 0 <= k < |s| ==> s[k].iteration == k + 1 && Evaluated(f, s[k])) &&
      s[..|passes|] == passes
  {
    var s := JsSteps(f, a0, b0, passes);
    if ExactRoot(passes) {
      assert s == passes;
    } else {
      assert s[..|passes|] == passes;
    }
  }
}
