# NM-Solver's step-recording solvers, modelled in Dafny

NM-Solver is a web application that solves numerical-methods exercises and shows each solution step by step. This project models the engine behind it: the solvers that run a bounded loop, change a few numbers or an augmented matrix in place, and record a numbered trace of what they did. Each solver exists in a TypeScript version, which builds the steps, the iteration table and the final answer for display, and in most cases also in a plain JavaScript version, which returns only the raw trace and has its own error policy.

- Root finders: bisection, false position (regula falsi), secant and Newton-Raphson (`bisection.dfy`, `false_position.dfy`, `secant.dfy`, `newton_raphson.dfy`).
- Linear systems: Gaussian elimination and Gauss-Jordan elimination with partial pivoting (`gauss_elimination.dfy`, `gauss_jordan.dfy`), on the shared row algebra of `linear_algebra.dfy`; and 3 × 3 Gauss-Seidel iteration (`gauss_seidel.dfy`).
- Shared pieces: the step record, the tolerance derived from a number of decimal places, the central-difference derivative and the choice of number format (`utils.dfy`); the errors the solvers throw, as a `Result` (`outcomes.dfy`).

Numbers are Dafny `real`s, and the user's expression is a function `f: real -> real` passed as a parameter (the JavaScript Newton solver is also given `f'`). Every solver loop is a `method` with a `while` loop. It is proved to record a trace satisfying a predicate that states, pass by pass, what the source computes:

- which values are evaluated;
- how consecutive passes chain;
- which guard let each pass run;
- why the loop stopped.

Lemmas then show that such a trace is unique and prove the properties the solvers promise: brackets kept, widths halved, chord and secant points and their stop conditions, step and table counts. The elimination solvers work in place on an `array<seq<real>>` of rows. Their log is a sequence of records, each an operation with the matrix after it. A predicate fixes which record must come after each one: the swap with the first row of largest magnitude when that is not the pivot row, then the reductions (or, for Gauss-Jordan, the division of the pivot row and the clearing of every other row) in loop order. Lemmas show that a finished log of a given matrix is unique. Each solver is proved to record that log and to report "singular" exactly when the log ends on a pivot below 1e-10. It is also proved to keep the solutions of [A ‖ b] and to reach the upper-triangular or identity shape. A singular stop happens only when the whole column at or below the pivot is below 1e-10. Otherwise the solver returns the unique x with A·x = b. Step texts are kept as tokens: a template with the numbers that fill it, or the matrix shown.

## Model

| member | source | states |
|---|---|---|
| Utils.CreateStep | src/lib/numerical-methods/utils.ts:46-60 | the record's five fields are its arguments, unchanged; the result may be absent |
| Utils.Abs | src/lib/numerical-methods/utils.ts:87 | `Math.abs`: non-negative and ± its argument |
| Utils.Max | src/lib/numerical-methods/linear-systems/gauss-seidel.ts:94-98 | `Math.max` of two: at least both, and one of them |
| Utils.Pow10 | src/lib/numerical-methods/root-finding/bisection.ts:15 | 10^k is at least 1 |
| Utils.Tolerance | src/lib/numerical-methods/root-finding/bisection.ts:15 | 0.5·10^(−decimalPlaces): positive, at most 0.5, and exactly 0.5 when multiplied back by 10^decimalPlaces |
| Utils.CentralDifferenceExactOnQuadratics | src/lib/numerical-methods/utils.ts:37-41 | (f(x+h) − f(x−h))/(2h) is exactly the derivative 2px + q of any quadratic, for every h ≠ 0 |
| Utils.FormatNumber | src/lib/numerical-methods/utils.ts:85-98 | "0" exactly when ‖num‖ < 1e-10; exponential exactly when 1e-10 ≤ ‖num‖ and (‖num‖ < 0.001 or ‖num‖ > 10000); fixed otherwise; both keep the number and the precision |
| Bisection.FinalPass | src/lib/numerical-methods/root-finding/bisection.ts:80-85 | the extra pass re-evaluates f at both ends of the final interval and at its midpoint |
| Bisection.NarrowingKeepsBracket | src/lib/numerical-methods/root-finding/bisection.ts:71-77 | replacing the endpoint whose sign f(c) shares keeps f(a)·f(b) < 0 whenever f(c) ≠ 0 |
| Bisection.BracketKept | src/lib/numerical-methods/root-finding/bisection.ts:41-78 | on every recorded pass of a loop started on a sign change, f(a)·f(b) < 0, and the narrowed interval still brackets unless f(c) = 0 |
| Bisection.WidthHalves | src/lib/numerical-methods/root-finding/bisection.ts:43-77 | pass k works on an interval of width (b0 − a0)/2^k, and a < c < b whenever a0 < b0 |
| Bisection.NarrowedIsHalf | src/lib/numerical-methods/root-finding/bisection.ts:71-77 | either endpoint update leaves exactly half the width |
| Bisection.HalvingTraceUnique | src/lib/numerical-methods/root-finding/bisection.ts:41-78 | the halving loop is deterministic: two halted traces from the same start are equal |
| Bisection.SamePrefix | src/lib/numerical-methods/root-finding/bisection.ts:41-78 | two traces from the same start agree on their common length |
| Bisection.PrefixNotHalted | src/lib/numerical-methods/root-finding/bisection.ts:41-69 | a proper prefix of a trace is not a point where the loop stops |
| Bisection.TraceExtended | src/lib/numerical-methods/root-finding/bisection.ts:41-77 | a pass entered with the guard true, evaluated at the midpoint of the current interval, extends the trace, and it is an exact-root stop exactly when f(c) = 0 |
| Bisection.NoRootSolution | src/lib/numerical-methods/root-finding/bisection.ts:23-36 | the diagnostic has one step, numbered 1, and an empty iteration table |
| Bisection.RecordsAppended | src/lib/numerical-methods/root-finding/bisection.ts:47-64 | a new pass appends exactly one step and one row |
| Bisection.AppendFinalTs | src/lib/numerical-methods/root-finding/bisection.ts:80-109 | appends the final step and the final row, whose error is the distance from the previous row's midpoint, or NaN when the only row before it is the header |
| Bisection.HalvingLoopTs | src/lib/numerical-methods/root-finding/bisection.ts:38-78 | the loop's records are the halting halving trace from [lowerBound, upperBound]; the cached f(a), f(b) agree with f; the count and the exact-root flag match the trace |
| Bisection.SolveBracketTs | src/lib/numerical-methods/root-finding/bisection.ts:38-116 | with a valid bracket the solution is the one built from the halted trace |
| Bisection.BisectionTs | src/lib/numerical-methods/root-finding/bisection.ts:3-116 | f(a)·f(b) ≥ 0 gives the diagnostic without any pass; otherwise the solution of the halted trace at tolerance 0.5·10^(−decimalPlaces) |
| Bisection.PassesBounded | src/lib/numerical-methods/root-finding/bisection.ts:41 | the loop runs at most maxIterations passes |
| Bisection.TsStepsShape | src/lib/numerical-methods/root-finding/bisection.ts:47-115 | steps are numbered 1..n; n is the pass count, plus one unless an exact root stopped the loop; the answer reports the last midpoint and n |
| Bisection.TsTableShape | src/lib/numerical-methods/root-finding/bisection.ts:18-108 | the table is the header, then one row per pass, then the final row: one more row than there are steps |
| Bisection.AnswerWithinTolerance | src/lib/numerical-methods/root-finding/bisection.ts:41-82 | when the loop ends on width before the cap, the final interval still brackets a sign change, has width ≤ 2·tol, and its midpoint is within tol of both ends |
| Bisection.BisectionJs | bisection.js:1-85 | throws on f(a)·f(b) ≥ 0; runs the same halving trace with cap 100; throws whenever 100 passes were used, even if the width had converged; otherwise returns the passes plus one final midpoint unless f(c) = 0 |
| Bisection.JsStepsShape | bisection.js:30-84 | the returned steps are numbered 1..n with 1 ≤ n ≤ 100, each evaluated at its interval's midpoint, the loop's passes first |
| FalsePosition.ChordPointBetween | src/lib/numerical-methods/root-finding/false-position.ts:46 | under a sign change fb − fa ≠ 0, and the chord point lies between a and b, strictly inside when a ≠ b |
| FalsePosition.FractionInside | src/lib/numerical-methods/root-finding/false-position.ts:46 | a ratio 0 < x/d < 1 for 0 < x < d (step of the chord-point bound) |
| FalsePosition.ScaledInside | src/lib/numerical-methods/root-finding/false-position.ts:46 | scaling a width by a fraction in (0, 1) stays strictly inside it (step of the chord-point bound) |
| FalsePosition.NarrowingKeepsBracket | src/lib/numerical-methods/root-finding/false-position.ts:65-74 | when the loop goes on (|f(c)| ≥ tol), replacing the endpoint whose sign f(c) shares keeps f(a)·f(b) < 0 |
| FalsePosition.BracketKept | src/lib/numerical-methods/root-finding/false-position.ts:38-78 | on every recorded pass f(a)·f(b) < 0 and c lies between a and b |
| FalsePosition.TraceExtended | src/lib/numerical-methods/root-finding/false-position.ts:38-77 | a pass whose error is ‖b − a‖ on iteration 1 and ‖c − prevC‖ afterwards, entered while the loop goes on, extends the trace |
| FalsePosition.PrefixNotHalted | src/lib/numerical-methods/root-finding/false-position.ts:38-78 | a proper prefix of a trace is not a point where the loop stops |
| FalsePosition.SamePrefix | src/lib/numerical-methods/root-finding/false-position.ts:38-78 | two traces from the same interval agree on their common length |
| FalsePosition.FPTraceUnique | src/lib/numerical-methods/root-finding/false-position.ts:38-78 | the loop is deterministic: two halted traces from the same interval are equal |
| FalsePosition.RegulaFalsiLoop | src/lib/numerical-methods/root-finding/false-position.ts:31-78 | the recorded passes form the regula-falsi trace from [a0, b0], and the loop has halted: on ‖f(c)‖ < tol, on error ≤ tol, or at the cap |
| FalsePosition.FalsePositionTs | src/lib/numerical-methods/root-finding/false-position.ts:8-127 | throws before any pass when f(a)·f(b) ≥ 0; otherwise runs the halted trace and throws whenever the pass count reached maxIterations, even after converging on the last pass; else returns that trace's solution |
| FalsePosition.SuccessMeansConverged | src/lib/numerical-methods/root-finding/false-position.ts:38-82 | a successful return has at least one pass, its last pass has ‖f(c)‖ < tol or error ≤ tol, and no earlier pass met a stop condition |
| FalsePosition.SolutionShape | src/lib/numerical-methods/root-finding/false-position.ts:84-125 | steps are numbered 1..iter, the table is the header plus one row per pass, and the answer reports the last c and the pass count |
| Secant.SecantPointOnLine | src/lib/numerical-methods/root-finding/secant.ts:38 | the secant point is where the line through (x0, f(x0)) and (x1, f(x1)) meets zero |
| Secant.SecantExactOnLines | src/lib/numerical-methods/root-finding/secant.ts:38 | for a non-constant line f and distinct guesses the denominator is non-zero and one secant step lands on the exact root |
| Secant.TraceExtended | src/lib/numerical-methods/root-finding/secant.ts:30-66 | a pass started from the two points the previous pass shifted to, within the cap and with a non-zero denominator, extends the trace |
| Secant.PrefixNotHalted | src/lib/numerical-methods/root-finding/secant.ts:30-66 | a proper prefix of a trace is not a point where the loop ends |
| Secant.SamePrefix | src/lib/numerical-methods/root-finding/secant.ts:30-66 | two traces from the same guesses agree on their common length |
| Secant.SecantTraceUnique | src/lib/numerical-methods/root-finding/secant.ts:30-66 | the loop is deterministic: two halted traces from the same guesses are equal |
| Secant.OkMeansStopped | src/lib/numerical-methods/root-finding/secant.ts:30-60 | a successful run has between 1 and maxIterations steps; the last has f(x2) = 0 or ‖x2 − x1‖ ≤ tol, and no earlier one does |
| Secant.SecantLoop | src/lib/numerical-methods/root-finding/secant.ts:26-67 | the recorded passes form the halted secant trace from x0, x1, and the result is its verdict: the passes on a stop, the cap error past maxIterations, otherwise the zero-denominator outcome |
| Secant.SecantTs | src/lib/numerical-methods/root-finding/secant.ts:3-110 | throws before the loop when f(x1) − f(x0) = 0; otherwise the halted trace's outcome, where a zero denominator on a later pass ends in a non-finite iterate |
| Secant.SecantTsGuarded | src/lib/numerical-methods/root-finding/secant.ts:3-110 | the same solver with the denominator re-checked on every pass, so any zero denominator is reported as division by zero |
| Secant.SolveTs | src/lib/numerical-methods/root-finding/secant.ts:12-110 | the shared body of both: up-front check, halted trace, outcome |
| Secant.SolutionShape | src/lib/numerical-methods/root-finding/secant.ts:69-108 | steps are numbered 1..n, the table is the header plus one row per pass, and the answer reports the last x2 and steps.length |
| Secant.SquareTrace | src/lib/numerical-methods/root-finding/secant.ts:22-66 | for f(x) = x² from −1 and 2 the first pass passes the up-front check, lands on −2 without stopping, and leaves a zero denominator for pass 2 |
| Secant.SecantTsDividesByZero | src/lib/numerical-methods/root-finding/secant.ts:22-38 | on that input secant.ts divides by zero on pass 2, while the guarded version reports division by zero |
| Secant.SecantJs | secant.js:1-71 | equal guesses throw before f is evaluated; otherwise the halted trace with cap 100, the cap checked before the per-pass denominator |
| NewtonRaphson.NewtonPointOnTangent | src/lib/numerical-methods/root-finding/newton-raphson.ts:36 | the next point is the zero of the tangent at x, and it equals x exactly when f(x) = 0 |
| NewtonRaphson.CentralSlopeOnLine | src/lib/numerical-methods/root-finding/newton-raphson.ts:29 | on a line the central-difference derivative equals the slope everywhere |
| NewtonRaphson.TraceExtended | src/lib/numerical-methods/root-finding/newton-raphson.ts:19-56 | a pass started at the previous pass's next point, within the cap and with a non-zero derivative, extends the trace |
| NewtonRaphson.PrefixNotHalted | src/lib/numerical-methods/root-finding/newton-raphson.ts:19-56 | a proper prefix of a trace is not a point where the loop ends |
| NewtonRaphson.SamePrefix | src/lib/numerical-methods/root-finding/newton-raphson.ts:19-56 | two traces from the same start agree on their common length |
| NewtonRaphson.NewtonTraceUnique | src/lib/numerical-methods/root-finding/newton-raphson.ts:19-56 | the loop is deterministic: two halted traces from the same start are equal |
| NewtonRaphson.OkMeansStopped | src/lib/numerical-methods/root-finding/newton-raphson.ts:19-52 | a successful run has between 1 and maxIterations steps; the last has ‖x_next − x_n‖ ≤ tol, and every earlier one does not |
| NewtonRaphson.ExactOnLines | src/lib/numerical-methods/root-finding/newton-raphson.ts:19-56 | with the exact slope as derivative, a non-constant line is solved exactly in one or two passes and never fails when the cap is at least 2 |
| NewtonRaphson.NewtonLoop | src/lib/numerical-methods/root-finding/newton-raphson.ts:14-56 | the recorded passes form the halted Newton trace from x0, and the result is the passes on a stop, the cap error at pass maxIterations + 1, otherwise the zero-derivative error, with no step recorded for that pass |
| NewtonRaphson.NewtonRaphsonTs | src/lib/numerical-methods/root-finding/newton-raphson.ts:3-99 | runs the loop with the central difference (step 0.0001) as derivative and reports the halted trace's outcome |
| NewtonRaphson.SolutionShape | src/lib/numerical-methods/root-finding/newton-raphson.ts:58-97 | steps are numbered 1..n, the table is the header plus one row per pass, and the answer reports the last x_next and steps.length |
| NewtonRaphson.TsExactOnLines | src/lib/numerical-methods/root-finding/newton-raphson.ts:19-56 | newtonRaphson solves a non-constant line exactly, in one or two passes, when the cap is at least 2 |
| NewtonRaphson.NewtonRaphsonJs | newton_raphson.js:3-63 | the same loop with the given derivative fPrime and a fixed cap of 100 |
| LinearAlgebra.Augment | src/lib/numerical-methods/linear-systems/gauss-elimination.ts:12 | row i of [A ‖ b] is row i of A followed by b[i]; an accepted system gives an n × (n + 1) matrix |
| LinearAlgebra.MatVec | src/lib/numerical-methods/linear-systems/gauss-elimination.ts:70-77 | entry i of A·x is the dot product of row i with x (what A·x = b means) |
| LinearAlgebra.DotSplit | src/lib/numerical-methods/linear-systems/gauss-elimination.ts:73-75 | a dot product over a range is the sum over two adjacent sub-ranges |
| LinearAlgebra.DotOfZeros | src/lib/numerical-methods/linear-systems/gauss-elimination.ts:73-75 | a dot product over zero entries is zero |
| LinearAlgebra.DotFrame | src/lib/numerical-methods/linear-systems/gauss-elimination.ts:73-75 | a dot product depends only on the entries in its range |
| LinearAlgebra.DotSingle | src/lib/numerical-methods/linear-systems/gauss-elimination.ts:74 | a one-entry dot product is the entry times the unknown |
| LinearAlgebra.Swapped | src/lib/numerical-methods/linear-systems/gauss-elimination.ts:46 | the swap as a value: rows i and j exchanged, every other row unchanged |
| LinearAlgebra.Reduced | src/lib/numerical-methods/linear-systems/gauss-elimination.ts:59-61 | the row update `row[col] -= factor * pivotRow[col]` for col from the pivot on; earlier columns untouched |
| LinearAlgebra.Scaled | src/lib/numerical-methods/linear-systems/gauss-jordan.ts:58-60 | the normalisation `row[col] /= divisor` for col from the pivot on; earlier columns untouched |
| LinearAlgebra.RowReduced | src/lib/numerical-methods/linear-systems/gauss-elimination.ts:57-61 | the matrix after reducing one row by the pivot row; every other row unchanged |
| LinearAlgebra.RowScaled | src/lib/numerical-methods/linear-systems/gauss-jordan.ts:57-60 | the matrix after dividing the pivot row; every other row unchanged |
| LinearAlgebra.SwapPermutes | src/lib/numerical-methods/linear-systems/gauss-elimination.ts:45-48 | a swap only permutes the rows: the multiset of rows is unchanged |
| LinearAlgebra.SwapKeepsSolutions | src/lib/numerical-methods/linear-systems/gauss-elimination.ts:45-48 | a swap does not change the solutions of the system |
| LinearAlgebra.OneRowChanged | src/lib/numerical-methods/linear-systems/gauss-elimination.ts:57-61 | changing one equation in a way that is equivalent given the others keeps the solutions |
| LinearAlgebra.DotReduced | src/lib/numerical-methods/linear-systems/gauss-elimination.ts:59-61 | for a pivot row with zeros before the pivot, the reduced row's dot product is the old one minus factor times the pivot row's |
| LinearAlgebra.DotScaled | src/lib/numerical-methods/linear-systems/gauss-jordan.ts:58-60 | for a row with zeros before the pivot, the divided row's dot product is the old one divided |
| LinearAlgebra.DotQuotient | src/lib/numerical-methods/linear-systems/gauss-jordan.ts:58-60 | dividing every entry divides the dot product |
| LinearAlgebra.QuotientStep | src/lib/numerical-methods/linear-systems/gauss-jordan.ts:58-60 | one step of that sum: d/s + (u/s)·v = (d + u·v)/s |
| LinearAlgebra.ReduceKeepsSolutions | src/lib/numerical-methods/linear-systems/gauss-elimination.ts:57-61 | subtracting a multiple of another row whose entries before the start column are zero keeps the solutions |
| LinearAlgebra.ScaleKeepsSolutions | src/lib/numerical-methods/linear-systems/gauss-jordan.ts:57-61 | dividing a row by a non-zero number, from a column before which it is zero, keeps the solutions |
| LinearAlgebra.QuotientsEqual | src/lib/numerical-methods/linear-systems/gauss-jordan.ts:58-60 | division by a non-zero number is injective |
| LinearAlgebra.AugmentedSolutions | src/lib/numerical-methods/linear-systems/gauss-elimination.ts:12 | x solves [A ‖ b] exactly when A·x = b |
| LinearAlgebra.LastColumn | src/lib/numerical-methods/linear-systems/gauss-jordan.ts:79 | entry i is the last entry of row i |
| LinearAlgebra.IdentitySolved | src/lib/numerical-methods/linear-systems/gauss-jordan.ts:79 | when the first n columns are the identity, the last column solves the system |
| LinearAlgebra.PivotRowUnique | src/lib/numerical-methods/linear-systems/gauss-elimination.ts:37-42 | the partial-pivot choice (first row at or below the pivot with the largest magnitude) is unique |
| LinearAlgebra.FindPivot | src/lib/numerical-methods/linear-systems/gauss-elimination.ts:37-42 | returns the first row at or below the pivot whose entry in the pivot column has the largest magnitude |
| LinearAlgebra.SwapRows | src/lib/numerical-methods/linear-systems/gauss-elimination.ts:46 | exchanges two rows of the array in place |
| LinearAlgebra.ReduceRow | src/lib/numerical-methods/linear-systems/gauss-elimination.ts:58-61 | updates one row in place to its reduction by the pivot row |
| LinearAlgebra.ScaleRow | src/lib/numerical-methods/linear-systems/gauss-jordan.ts:57-60 | divides the pivot row in place |
| LinearAlgebra.NewAugmented | src/lib/numerical-methods/linear-systems/gauss-elimination.ts:12 | a fresh array holding [A ‖ b], so the inputs are never modified |
| LinearAlgebra.RecordedSteps | src/lib/numerical-methods/linear-systems/gauss-elimination.ts:17-29 | one step per record, numbered from 1, step k + 1 showing record k's matrix |
| LinearAlgebra.Snapshots | algorithms/gauss_elimination.js:13-18 | one snapshot per record, entry k a copy of record k's matrix |
| LinearAlgebra.SwapCount | src/lib/numerical-methods/linear-systems/gauss-elimination.ts:45-48 | the number of swaps recorded, at most the log's length |
| LinearAlgebra.SwapCountAppend | src/lib/numerical-methods/linear-systems/gauss-elimination.ts:45-48 | recording a step adds one to the swap count exactly when it is a swap |
| GaussElimination.LoggedExtended | src/lib/numerical-methods/linear-systems/gauss-elimination.ts:17-66 | appending a record that the pivot schedule allows after the last one keeps the log correct |
| GaussElimination.FollowsUnique | src/lib/numerical-methods/linear-systems/gauss-elimination.ts:35-66 | the schedule is deterministic: after any record at most one record may follow, namely the swap with the first row of largest magnitude when that is not the pivot row, otherwise the reduction of the next row by the factor M[r][p]/M[p][p] |
| GaussElimination.NothingFollowsFinished | src/lib/numerical-methods/linear-systems/gauss-elimination.ts:35-67 | once every pivot column is done, or a pivot below 1e-10 has reached its check, no record may follow |
| GaussElimination.BlockedNotDone | src/lib/numerical-methods/linear-systems/gauss-elimination.ts:50-54 | a pivot below 1e-10 at its check finishes the log, and such a log is not a completed one |
| GaussElimination.LogsAgree | src/lib/numerical-methods/linear-systems/gauss-elimination.ts:31-67 | two correct logs of the same matrix agree on their common length |
| GaussElimination.FinishedIsMaximal | src/lib/numerical-methods/linear-systems/gauss-elimination.ts:31-67 | no correct log of a matrix is longer than a finished one |
| GaussElimination.LogUnique | src/lib/numerical-methods/linear-systems/gauss-elimination.ts:31-67 | two finished correct logs of the same matrix are equal, so the swaps, the reductions with their factors and the singular stop are all fixed by [A ‖ b] |
| GaussElimination.ReductionsClosedForm | src/lib/numerical-methods/linear-systems/gauss-elimination.ts:57-66 | the reductions of the first p columns number p(2n − p − 1)/2, so n(n − 1)/2 in all |
| GaussElimination.Cancels | src/lib/numerical-methods/linear-systems/gauss-elimination.ts:58-60 | the factor M[r][p]/M[p][p] clears the entry below the pivot |
| GaussElimination.PivotStep | src/lib/numerical-methods/linear-systems/gauss-elimination.ts:37-48 | swapping in the pivot row records the swap the schedule asks for, keeps the reduced columns and the solutions, puts the largest entry of the column on the diagonal, and counts one swap |
| GaussElimination.PivotInPlace | src/lib/numerical-methods/linear-systems/gauss-elimination.ts:37-45 | when the first row of largest magnitude is the pivot row, nothing is recorded and the pivot is ready for its check |
| GaussElimination.PivotOnDiagonal | src/lib/numerical-methods/linear-systems/gauss-elimination.ts:45-52 | after the swap the diagonal entry has the largest magnitude in its column at or below it |
| GaussElimination.ReductionStep | src/lib/numerical-methods/linear-systems/gauss-elimination.ts:57-66 | reducing the next row below the pivot records the reduction the schedule asks for, clears that row's entry, keeps the solutions and adds no swap |
| GaussElimination.ReducedShape | src/lib/numerical-methods/linear-systems/gauss-elimination.ts:57-61 | a reduction keeps the earlier columns zero below the diagonal, the earlier pivots, and the rows already cleared |
| GaussElimination.StartColumn | src/lib/numerical-methods/linear-systems/gauss-elimination.ts:51-57 | a ready pivot at or above the 1e-10 threshold starts the column's reductions |
| GaussElimination.FinishColumn | src/lib/numerical-methods/linear-systems/gauss-elimination.ts:57-67 | once every row below the pivot is reduced, column p is finished and the search of column p + 1 is next |
| GaussElimination.StuckColumn | src/lib/numerical-methods/linear-systems/gauss-elimination.ts:51-54 | a ready pivot below 1e-10 leaves the log blocked on column p, and every entry at or below it in its column is below 1e-10 |
| GaussElimination.EliminateBelow | src/lib/numerical-methods/linear-systems/gauss-elimination.ts:57-66 | clears column p below the diagonal in place, recording the scheduled reduction of each row, with the solutions unchanged |
| GaussElimination.EliminateColumn | src/lib/numerical-methods/linear-systems/gauss-elimination.ts:35-66 | processes one pivot column in place. It records a swap exactly when the first row of largest magnitude is not the pivot row. On a pivot below 1e-10 it stops with the log blocked on column p; otherwise it clears the column and leaves the log at the search of column p + 1, with n − 1 − p more records that are not swaps |
| GaussElimination.SolvedConcluded | src/lib/numerical-methods/linear-systems/gauss-elimination.ts:31-67 | after the last column the log is finished and completed, and the matrix is upper triangular |
| GaussElimination.SingularConcluded | src/lib/numerical-methods/linear-systems/gauss-elimination.ts:50-54 | a stop at column p leaves a finished log that is blocked there and not completed, with column p stuck |
| GaussElimination.ForwardElimination | src/lib/numerical-methods/linear-systems/gauss-elimination.ts:31-67 | returns the finished correct log of [A ‖ b] and the matrix it ends with, which has the same solutions. It reports a singular column exactly when that log is not completed, and the log is then blocked on that column. Otherwise the matrix is upper triangular with every pivot ≥ 1e-10, and the log has 1 + #swaps + n(n − 1)/2 records |
| GaussElimination.SettledFrame | src/lib/numerical-methods/linear-systems/gauss-elimination.ts:71-77 | whether row k is satisfied depends only on the unknowns from k on |
| GaussElimination.DivisionSettles | src/lib/numerical-methods/linear-systems/gauss-elimination.ts:72-76 | x[k] = (M[k][n] − Σ M[k][j]x[j]) / M[k][k] satisfies row k |
| GaussElimination.SettledSolves | src/lib/numerical-methods/linear-systems/gauss-elimination.ts:70-77 | on an upper-triangular matrix, every row settled means the system is solved |
| GaussElimination.BackSubstitution | src/lib/numerical-methods/linear-systems/gauss-elimination.ts:69-77 | for an upper-triangular matrix with non-zero pivots, returns n values that solve it |
| GaussElimination.SettledForced | src/lib/numerical-methods/linear-systems/gauss-elimination.ts:71-77 | with a non-zero pivot, a settled row fixes x[k] once the later unknowns are fixed |
| GaussElimination.TriangularUnique | src/lib/numerical-methods/linear-systems/gauss-elimination.ts:70-77 | an upper-triangular system with non-zero pivots has at most one solution |
| GaussElimination.RowSettled | src/lib/numerical-methods/linear-systems/gauss-elimination.ts:70-77 | a solution of an upper-triangular system settles each of its rows |
| GaussElimination.Solve | src/lib/numerical-methods/linear-systems/gauss-elimination.ts:6-77 | rejects exactly the systems that are not n × n with n constants. Otherwise the log is the finished correct log of [A ‖ b]. A solution is returned exactly when that log is completed; otherwise the error is "singular" and the reduced matrix has a column with no usable pivot. The solution is the unique x with A·x = b |
| GaussElimination.SmallPivotIsSwapped | src/lib/numerical-methods/linear-systems/gauss-elimination.ts:35-66 | for A = [[1e-11, 1], [1, 1]] and b = [1, 2], the finished log is the initial matrix, the swap of rows 1 and 2, and one reduction, and it is completed |
| GaussElimination.GaussEliminationTs | src/lib/numerical-methods/linear-systems/gauss-elimination.ts:3-108 | throws "Invalid matrix inputs" exactly on a malformed system. Otherwise the ghost log is the finished log of [A ‖ b], and the solver throws "singular" exactly when that log ends blocked, with a stuck column in its last matrix. On success the steps are built from that log, and `solution` is the unique x such that A·x = b |
| GaussElimination.TsShape | src/lib/numerical-methods/linear-systems/gauss-elimination.ts:31-99 | steps are numbered 1..N with N = 1 + #swaps + n(n − 1)/2 + 1; the first shows [A ‖ b]; the table has n + 1 rows |
| GaussElimination.GaussEliminationJs | algorithms/gauss_elimination.js:1-66 | the same outcomes, decided by the same finished log; the trace is one matrix copy per record of that log, the first being exactly [A ‖ b] |
| GaussJordan.LoggedExtended | src/lib/numerical-methods/linear-systems/gauss-jordan.ts:17-76 | appending a record that the pivot schedule allows after the last one keeps the log correct |
| GaussJordan.PreviousOtherInjective | src/lib/numerical-methods/linear-systems/gauss-jordan.ts:64-75 | the row cleared just before row r in column p, skipping the pivot row, determines r |
| GaussJordan.ClearedBeforeUnique | src/lib/numerical-methods/linear-systems/gauss-jordan.ts:56-75 | a record can come just before the clearing of at most one column and row |
| GaussJordan.FollowsUnique | src/lib/numerical-methods/linear-systems/gauss-jordan.ts:35-76 | the schedule is deterministic: after any record at most one record may follow. That record is the swap with the first row of largest magnitude, the division of the ready pivot row, or the subtraction of M[r][p] times the pivot row from the next row other than the pivot |
| GaussJordan.NothingFollowsFinished | src/lib/numerical-methods/linear-systems/gauss-jordan.ts:35-77 | once every column is cleared, or a pivot below 1e-10 has reached its check, no record may follow |
| GaussJordan.BlockedNotDone | src/lib/numerical-methods/linear-systems/gauss-jordan.ts:50-54 | a pivot below 1e-10 at its check finishes the log, and such a log is not a completed one |
| GaussJordan.LogsAgree | src/lib/numerical-methods/linear-systems/gauss-jordan.ts:31-77 | two correct logs of the same matrix agree on their common length |
| GaussJordan.FinishedIsMaximal | src/lib/numerical-methods/linear-systems/gauss-jordan.ts:31-77 | no correct log of a matrix is longer than a finished one |
| GaussJordan.LogUnique | src/lib/numerical-methods/linear-systems/gauss-jordan.ts:31-77 | two finished correct logs of the same matrix are equal, so the swaps, divisions, subtractions and the singular stop are all fixed by [A ‖ b] |
| GaussJordan.PivotStep | src/lib/numerical-methods/linear-systems/gauss-jordan.ts:37-48 | swapping in the pivot row records the swap the schedule asks for, keeps the finished identity columns and the solutions, puts the largest entry of the column on the diagonal, and counts one swap |
| GaussJordan.PivotInPlace | src/lib/numerical-methods/linear-systems/gauss-jordan.ts:37-45 | when the first row of largest magnitude is the pivot row, nothing is recorded and the pivot is ready for its check |
| GaussJordan.PivotOnDiagonal | src/lib/numerical-methods/linear-systems/gauss-jordan.ts:45-54 | after the swap the diagonal entry has the largest magnitude in its column at or below it |
| GaussJordan.StuckColumn | src/lib/numerical-methods/linear-systems/gauss-jordan.ts:51-54 | a ready pivot below 1e-10 leaves the log blocked on column p, and every entry at or below it in its column is below 1e-10 |
| GaussJordan.NormalizationStep | src/lib/numerical-methods/linear-systems/gauss-jordan.ts:56-61 | dividing the ready pivot row by its pivot records the division the schedule asks for, makes aug[p][p] = 1, keeps the solutions and adds no swap |
| GaussJordan.ClearanceStep | src/lib/numerical-methods/linear-systems/gauss-jordan.ts:64-75 | clearing the next row other than the pivot records the subtraction the schedule asks for, zeroes that row's entry in column p, keeps the solutions and adds no swap |
| GaussJordan.ClearedShape | src/lib/numerical-methods/linear-systems/gauss-jordan.ts:64-75 | clearing leaves the pivot row and the finished identity columns as they were and the rows already cleared zero |
| GaussJordan.FinishColumn | src/lib/numerical-methods/linear-systems/gauss-jordan.ts:64-76 | once every other row is cleared, column p is a column of the identity and the search of column p + 1 is next |
| GaussJordan.ClearColumn | src/lib/numerical-methods/linear-systems/gauss-jordan.ts:64-75 | zeroes column p in every row but p in place, recording the n − 1 scheduled subtractions, with the solutions unchanged |
| GaussJordan.EliminateColumn | src/lib/numerical-methods/linear-systems/gauss-jordan.ts:35-76 | processes one pivot column in place. It records a swap exactly when the first row of largest magnitude is not the pivot row. On a pivot below 1e-10 it stops with the log blocked on column p; otherwise it divides the pivot row and clears the column, with n more records that are not swaps |
| GaussJordan.SolvedConcluded | src/lib/numerical-methods/linear-systems/gauss-jordan.ts:31-77 | after the last column the log is finished and completed, and the first n columns are the identity |
| GaussJordan.SingularConcluded | src/lib/numerical-methods/linear-systems/gauss-jordan.ts:50-54 | a stop at column p leaves a finished log that is blocked there and not completed, with column p stuck |
| GaussJordan.Reduce | src/lib/numerical-methods/linear-systems/gauss-jordan.ts:31-77 | returns the finished correct log of [A ‖ b] and the matrix it ends with, which has the same solutions. It reports a singular column exactly when that log is not completed, and the log is then blocked on that column. Otherwise the first n columns are the identity and the log has 1 + #swaps + n·n records |
| GaussJordan.IdentityForces | src/lib/numerical-methods/linear-systems/gauss-jordan.ts:79 | when the first n columns are the identity, the last column is the only solution |
| GaussJordan.Solve | src/lib/numerical-methods/linear-systems/gauss-jordan.ts:6-79 | rejects exactly the systems that are not n × n with n constants. Otherwise the log is the finished correct log of [A ‖ b]. A solution is returned exactly when that log is completed; otherwise the error is "singular" and the reduced matrix has a column with no usable pivot. The solution is the last column of the reduced matrix, the unique x with A·x = b |
| GaussJordan.SmallPivotIsSwapped | src/lib/numerical-methods/linear-systems/gauss-jordan.ts:35-48 | for A = [[1e-11, 1], [1, 1]] and b = [1, 2], every finished log begins by swapping rows 1 and 2 |
| GaussJordan.GaussJordanTs | src/lib/numerical-methods/linear-systems/gauss-jordan.ts:3-110 | throws "Invalid matrix inputs" exactly on a malformed system. Otherwise the ghost log is the finished log of [A ‖ b], and the solver throws "singular" exactly when that log ends blocked, with a stuck column in its last matrix. On success the steps are built from that log, and `solution` is the unique x such that A·x = b |
| GaussJordan.TsShape | src/lib/numerical-methods/linear-systems/gauss-jordan.ts:31-101 | steps are numbered 1..N with N = 1 + #swaps + n + n(n − 1) + 1; the first shows [A ‖ b]; the table has n + 1 rows |
| GaussJordan.GaussJordanJs | algorithms/gauss_jordan.js:1-68 | the same outcomes, decided by the same finished log; the trace is one matrix copy per record of that log (1 + #swaps + n + n(n − 1) of them), the first being exactly [A ‖ b] |
| GaussSeidel.OffDiagonalOfThree | src/lib/numerical-methods/linear-systems/gauss-seidel.ts:24 | on a row of three the reduce sums exactly the two off-diagonal magnitudes |
| GaussSeidel.Sweep | src/lib/numerical-methods/linear-systems/gauss-seidel.ts:89-91 | the new x solves equation 1 with the old y, z; the new y solves equation 2 with the new x and old z; the new z solves equation 3 with the new x, y |
| GaussSeidel.Change | src/lib/numerical-methods/linear-systems/gauss-seidel.ts:94-98 | the error is the largest of ‖Δx‖, ‖Δy‖, ‖Δz‖ (so it is ≥ 0 and equals one of them) |
| GaussSeidel.Cancel | src/lib/numerical-methods/linear-systems/gauss-seidel.ts:89-91 | a non-zero coefficient can be cancelled |
| GaussSeidel.FixedPointsAreSolutions | src/lib/numerical-methods/linear-systems/gauss-seidel.ts:89-98 | a sweep leaves v unchanged, equivalently has error 0, exactly when v solves the system |
| GaussSeidel.AbsProduct | src/lib/numerical-methods/linear-systems/gauss-seidel.ts:94-98 | ‖a·u‖ = ‖a‖·‖u‖ |
| GaussSeidel.ScaledBound | src/lib/numerical-methods/linear-systems/gauss-seidel.ts:94-98 | a change of at most e moves a·u by at most ‖a‖·e |
| GaussSeidel.SweepResidual | src/lib/numerical-methods/linear-systems/gauss-seidel.ts:89-98 | after a sweep whose y and z changes are at most e, equation 3 holds exactly, equation 2 misses by at most ‖A12‖·e and equation 1 by at most (‖A01‖ + ‖A02‖)·e |
| GaussSeidel.EquationMiss | src/lib/numerical-methods/linear-systems/gauss-seidel.ts:89 | replacing y and z by values within e of them moves an equation by at most (‖a1‖ + ‖a2‖)·e |
| GaussSeidel.LastTermMiss | src/lib/numerical-methods/linear-systems/gauss-seidel.ts:90 | replacing z by a value within e moves an equation by at most ‖a2‖·e |
| GaussSeidel.TraceExtended | src/lib/numerical-methods/linear-systems/gauss-seidel.ts:80-122 | a sweep from the current values, taken while the loop goes on, extends the trace |
| GaussSeidel.PrefixNotHalted | src/lib/numerical-methods/linear-systems/gauss-seidel.ts:118-122 | a proper prefix of a trace is not a point where the loop stops |
| GaussSeidel.SamePrefix | src/lib/numerical-methods/linear-systems/gauss-seidel.ts:80-122 | two traces of the same system agree on their common length |
| GaussSeidel.SeidelTraceUnique | src/lib/numerical-methods/linear-systems/gauss-seidel.ts:80-122 | the iteration is deterministic: two halted traces of the same system are equal |
| GaussSeidel.HaltedShape | src/lib/numerical-methods/linear-systems/gauss-seidel.ts:80-122 | a halted run has between 1 and max(1, maxIterations) passes, every error ≥ 0, and no pass before the last met the tolerance |
| GaussSeidel.StoppedResidual | src/lib/numerical-methods/linear-systems/gauss-seidel.ts:118-141 | when the loop stops on the tolerance, the returned values satisfy equation 3 exactly and equations 1 and 2 up to the tolerance times their not-yet-updated coefficients |
| GaussSeidel.StopResidualFrom | src/lib/numerical-methods/linear-systems/gauss-seidel.ts:89-120 | the same bound for one stopping sweep from any starting point |
| GaussSeidel.SeidelLoopTs | src/lib/numerical-methods/linear-systems/gauss-seidel.ts:64-122 | the recorded passes are the halted Gauss-Seidel trace from (0, 0, 0), and the table is the header plus one row per pass |
| GaussSeidel.GaussSeidelTs | src/lib/numerical-methods/linear-systems/gauss-seidel.ts:3-141 | rejects exactly the inputs that are not a 3 × 3 system, then exactly those with a zero diagonal entry; otherwise never fails, and returns the solution built from the halted trace |
| GaussSeidel.SolutionShape | src/lib/numerical-methods/linear-systems/gauss-seidel.ts:28-141 | three steps numbered 1..3, the first worded "dominant" exactly when A is strictly diagonally dominant; 1 ≤ iterations ≤ max(1, maxIterations), numbered 1..iterations; the table has iterations + 1 rows; the solution is the last pass |
| GaussSeidel.SeidelLoopJs | gauss_seidel.js:22-69 | with the outer error shadowed (it stays Infinity) the loop still records the halted Gauss-Seidel trace: it stops only on the inner error's break or on the cap |
| GaussSeidel.GaussSeidelJs | gauss_seidel.js:1-72 | the same two rejections; dominance only selects a warning; otherwise returns the halted trace |
| GaussSeidel.ShadowingHarmless | gauss_seidel.js:32-69 | the JavaScript and TypeScript loops record the same passes on the same input |
| GaussSeidel.ExampleIsDominant | gauss_seidel.js:74-81 | the example system passes both checks and is strictly diagonally dominant, and 2 decimal places give tolerance 0.005 |
| GaussSeidel.GuardLetsShortRowThrough | src/lib/numerical-methods/linear-systems/gauss-seidel.ts:12-14 | a matrix whose second row has two entries passes the check as written |
| GaussSeidel.GuardCorrected | src/lib/numerical-methods/linear-systems/gauss-seidel.ts:12-14 | the 3 × 3 check is the written check plus the lengths of rows 2 and 3 |

## Left out

- Floating point: the model computes over exact reals. Rounding, Infinity and NaN are not modelled. In particular, a NaN error ends the TypeScript Gauss-Seidel loop through its `while` condition, while the JavaScript loop, whose outer error stays Infinity, goes on to the cap. With reals, the two loops record the same passes (`GaussSeidel.ShadowingHarmless`).
- Expression evaluation: `evaluateExpression` (utils.ts), the `new Function` of bisection.js and secant.js, and the mathjs parse, derivative and compile of newton_raphson.js are foreign or dynamic code. The user's expression is the parameter `f`, and the JavaScript Newton solver also takes `fPrime`. The "Invalid equation format" errors therefore cannot occur.
- Number formatting: `toFixed`, `toExponential`, `customFormatNumber` and every LaTeX string are kept as tokens. Table cells are `Fixed(value)` or `Count(k)`, and step texts are `Lit`, `Fill(template, numbers)` or `Matrix(rows)`. `Utils.FormatNumber` models only which of the three outputs is chosen.
- Decimal places are a `nat`. Negative or fractional values are not modelled.
- The default arguments (tolerance 2 or 3 decimal places, 100 or 10 iterations) are supplied by the caller.
- Bisection.AppendFinalTs: bisection.ts computes the final row's error from the previous midpoint re-parsed from its six-decimal rendering. The model uses the exact midpoint, without that rounding. The header case, whose re-parse gives NaN, is kept as the `NotANumber` cell. The `c.toString().slice(...)` of the final answer is a token of c.
- Secant.SecantTs: in IEEE arithmetic, the unguarded division by zero on a later pass produces infinite or NaN iterates, and what follows depends on f. The model stops there with `NonFiniteIterate`.
- Console output of gauss_seidel.js (the dominance warning and the example's `console.log`) is not modelled. `GaussSeidel.ExampleIsDominant` shows that the example prints no warning.
- Convergence: no convergence rate or accuracy is claimed for the iterative methods, which promise none. `Bisection.AnswerWithinTolerance`, `GaussSeidel.StoppedResidual` and the exact-on-lines lemmas are what they do guarantee.
- GaussSeidel.GaussSeidelTs: step 3 always says "Converged after n iterations", even when the loop stopped at the cap. The model reproduces this wording and does not claim convergence.
- GaussSeidel.GaussSeidelTs and GaussSeidel.GaussSeidelJs check all three row lengths (the corrected check under Findings). The short-row input that passes the check as written is shown by `GaussSeidel.GuardLetsShortRowThrough`. The `undefined` arithmetic that follows it is not modelled.
- The user interface (React components, routing, toasts) and the dispatcher in solve-numerical-methods.ts are glue, so they are not part of this model. Jacobi has no implementation in the repository.

## Findings

| source | as written | input that shows it | evidently intended | confidence | as-written member | corrected member |
|---|---|---|---|---|---|---|
| src/lib/numerical-methods/root-finding/secant.ts:22-38 | the denominator f(x1) − f(x0) is checked once, before the loop, and pass 2 onwards divides without a check | f(x) = x², x0 = −1, x1 = 2: pass 1 gives x2 = −2 with f(x2) = 4 = f(x1), so pass 2 divides by zero | re-check the denominator on every pass, as secant.js:37-39 does, and throw "f(x1) - f(x0) is zero." | not executed | Secant.SecantTsDividesByZero | Secant.SecantTsGuarded |
| src/lib/numerical-methods/linear-systems/gauss-seidel.ts:12-14 | the 3 × 3 check looks at the length of row 1 only, and gauss_seidel.js:3-5 does the same | A = [[4, 1, 1], [1, 5], [1, 1, 6]], b = [8, 10, 12] passes the check, and the sweep then reads the missing A[1][2] | reject any row that does not have three entries, as the error message says | not executed | GaussSeidel.GuardLetsShortRowThrough | GaussSeidel.GuardCorrected |
