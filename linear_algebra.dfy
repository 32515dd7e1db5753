/** The linear algebra the two elimination solvers rest on: augmented
    matrices as sequences of rows, the three row operations they perform
    (swap two rows, subtract a multiple of the pivot row, divide the pivot
    row), what each does to the solutions of the system, the partial-pivot
    choice, and the in-place versions of the operations on the array of rows
    the solvers mutate. */
module LinearAlgebra {
  import opened Utils

  /** An n × (n + 1) augmented matrix [A | b]. */
  predicate IsAugmented(M: seq<seq<real>>, n: nat)
  {
    |M| == n && forall i :: 0 <= i < n ==> |M[i]| == n + 1
  }

  /** What both elimination solvers accept: A is n × n and b has n entries. */
  predicate ValidSystem(A: seq<seq<real>>, b: seq<real>)
  {
    |A| == |b| && forall i :: 0 <= i < |A| ==> |A[i]| == |A|
  }

  /** [A | b]: each row of A with the matching entry of b appended. */
  function Augment(A: seq<seq<real>>, b: seq<real>): (M: seq<seq<real>>)
    requires |A| == |b|
    ensures |M| == |A| && forall i :: 0 <= i < |A| ==> M[i] == A[i] + [b[i]]
    ensures ValidSystem(A, b) ==> IsAugmented(M, |A|)
  {
    seq(|A|, i requires 0 <= i < |A| => A[i] + [b[i]])
  }

  /** The sum of row[j] * x[j] over lo <= j < hi. */
  function Dot(row: seq<real>, x: seq<real>, lo: nat, hi: nat): real
    requires lo <= hi <= |row| && hi <= |x|
    decreases hi - lo
  {
    if lo == hi then 0.0 else Dot(row, x, lo, hi - 1) + row[hi - 1] * x[hi - 1]
  }

  /** x satisfies every equation of M: the first |x| entries of a row, dotted
      with x, give the row's last entry. */
  predicate Solves(M: seq<seq<real>>, x: seq<real>)
  {
    forall i :: 0 <= i < |M| ==> RowHolds(M[i], x)
  }

  /** The equation a row stands for holds at x. */
  predicate RowHolds(row: seq<real>, x: seq<real>)
  {
    |row| == |x| + 1 && Dot(row, x, 0, |x|) == row[|x|]
  }

  /** M and N have the same solutions in n unknowns. */
  ghost predicate SameSolutions(M: seq<seq<real>>, N: seq<seq<real>>, n: nat)
  {
    forall x: seq<real> :: |x| == n ==> (Solves(M, x) <==> Solves(N, x))
  }

  /** A times x, for a square A. */
  function MatVec(A: seq<seq<real>>, x: seq<real>): (y: seq<real>)
    requires forall i :: 0 <= i < |A| ==> |A[i]| == |x|
    ensures |y| == |A| && forall i :: 0 <= i < |A| ==> y[i] == Dot(A[i], x, 0, |x|)
  {
    seq(|A|, i requires 0 <= i < |A| => Dot(A[i], x, 0, |x|))
  }

  // ---------------------------------------------------------------------
  // Sums

  lemma {:induction false} DotSplit(row: seq<real>, x: seq<real>, lo: nat, mid: nat, hi: nat)
    requires lo <= mid <= hi <= |row| && hi <= |x|
    ensures Dot(row, x, lo, hi) == Dot(row, x, lo, mid) + Dot(row, x, mid, hi)
    decreases hi - mid
  {
    if mid < hi {
      DotSplit(row, x, lo, mid, hi - 1);
    }
  }

  lemma {:induction false} DotOfZeros(row: seq<real>, x: seq<real>, lo: nat, hi: nat)
    requires lo <= hi <= |row| && hi <= |x|
    requires forall j :: lo <= j < hi ==> row[j] == 0.0
    ensures Dot(row, x, lo, hi) == 0.0
    decreases hi - lo
  {
    if lo < hi {
      DotOfZeros(row, x, lo, hi - 1);
    }
  }

  /** The sum only looks at the entries in [lo, hi). */
  lemma {:induction false} DotFrame(row: seq<real>, row': seq<real>, x: seq<real>, x': seq<real>, lo: nat, hi: nat)
    requires lo <= hi <= |row| && hi <= |row'| && hi <= |x| && hi <= |x'|
    requires forall j :: lo <= j < hi ==> row[j] == row'[j] && x[j] == x'[j]
    ensures Dot(row, x, lo, hi) == Dot(row', x', lo, hi)
    decreases hi - lo
  {
    if lo < hi {
      DotFrame(row, row', x, x', lo, hi - 1);
    }
  }

  /** The sum of one entry. */
  lemma DotSingle(row: seq<real>, x: seq<real>, k: nat)
    requires k < |row| && k < |x|
    ensures Dot(row, x, k, k + 1) == row[k] * x[k]
  {
    assert Dot(row, x, k, k) == 0.0;
  }

  // ---------------------------------------------------------------------
  // Row operations

  /** Rows i and j exchanged. */
  function Swapped(M: seq<seq<real>>, i: nat, j: nat): (N: seq<seq<real>>)
    requires i < |M| && j < |M|
    ensures |N| == |M| && N[i] == M[j] && N[j] == M[i]
    ensures forall k :: 0 <= k < |M| && k != i && k != j ==> N[k] == M[k]
  {
    M[i := M[j]][j := M[i]]
  }

  /** Row a minus factor times row b, in the columns from `from` on; the
      columns before are left as they are. */
  function Reduced(a: seq<real>, b: seq<real>, factor: real, from: nat): (r: seq<real>)
    requires |a| == |b|
    ensures |r| == |a|
    ensures forall c :: 0 <= c < |a| ==> r[c] == if c >= from then a[c] - factor * b[c] else a[c]
  {
    seq(|a|, c requires 0 <= c < |a| => if c >= from then a[c] - factor * b[c] else a[c])
  }

  /** Row a divided by s in the columns from `from` on. */
  function Scaled(a: seq<real>, s: real, from: nat): (r: seq<real>)
    requires s != 0.0
    ensures |r| == |a|
    ensures forall c :: 0 <= c < |a| ==> r[c] == if c >= from then a[c] / s else a[c]
  {
    seq(|a|, c requires 0 <= c < |a| => if c >= from then a[c] / s else a[c])
  }

  /** Row r reduced by factor times row p from column `from`. */
  function RowReduced(M: seq<seq<real>>, r: nat, p: nat, factor: real, from: nat): (N: seq<seq<real>>)
    requires r < |M| && p < |M| && |M[r]| == |M[p]|
    ensures |N| == |M| && N[r] == Reduced(M[r], M[p], factor, from)
    ensures forall k :: 0 <= k < |M| && k != r ==> N[k] == M[k]
  {
    M[r := Reduced(M[r], M[p], factor, from)]
  }

  /** Row p divided by s from column `from`. */
  function RowScaled(M: seq<seq<real>>, p: nat, s: real, from: nat): (N: seq<seq<real>>)
    requires p < |M| && s != 0.0
    ensures |N| == |M| && N[p] == Scaled(M[p], s, from)
    ensures forall k :: 0 <= k < |M| && k != p ==> N[k] == M[k]
  {
    M[p := Scaled(M[p], s, from)]
  }

  /** A swap only permutes the rows. */
  lemma SwapPermutes(M: seq<seq<real>>, i: nat, j: nat)
    requires i < |M| && j < |M|
    ensures multiset(Swapped(M, i, j)) == multiset(M)
  {
    var N1 := M[i := M[j]];
    assert multiset(N1) == multiset(M) - multiset{M[i]} + multiset{M[j]};
    assert multiset(N1[j := M[i]]) == multiset(N1) - multiset{N1[j]} + multiset{M[i]};
  }

  lemma SwapKeepsSolutions(M: seq<seq<real>>, i: nat, j: nat, n: nat)
    requires i < |M| && j < |M|
    ensures SameSolutions(Swapped(M, i, j), M, n)
  {
    var N := Swapped(M, i, j);
    forall x: seq<real> | |x| == n
      ensures Solves(N, x) <==> Solves(M, x)
    {
      if Solves(M, x) {
        forall k | 0 <= k < |N|
          ensures RowHolds(N[k], x)
        {
          assert N[k] == M[if k == i then j else if k == j then i else k];
        }
      }
      if Solves(N, x) {
        forall k | 0 <= k < |M|
          ensures RowHolds(M[k], x)
        {
          assert M[k] == N[if k == i then j else if k == j then i else k];
        }
      }
    }
  }

  /** Two matrices that differ in row r only, where that row holds in one
      exactly when it holds in the other, given that row q (another row, or
      r itself) holds. */
  lemma OneRowChanged(M: seq<seq<real>>, N: seq<seq<real>>, r: nat, q: nat, x: seq<real>)
    requires |N| == |M| && r < |M| && q < |M|
    requires forall k :: 0 <= k < |M| && k != r ==> N[k] == M[k]
    requires q != r ==> RowHolds(M[q], x) ==> (RowHolds(N[r], x) <==> RowHolds(M[r], x))
    requires q == r ==> (RowHolds(N[r], x) <==> RowHolds(M[r], x))
    ensures Solves(N, x) <==> Solves(M, x)
  {
    if Solves(M, x) {
      assert RowHolds(M[q], x);
      forall k | 0 <= k < |N|
        ensures RowHolds(N[k], x)
      {
        if k != r {
          assert N[k] == M[k];
        }
      }
    }
    if Solves(N, x) {
      assert RowHolds(N[q], x);
      if q != r {
        assert N[q] == M[q];
      }
      forall k | 0 <= k < |M|
        ensures RowHolds(M[k], x)
      {
        if k != r {
          assert N[k] == M[k];
        }
      }
    }
  }

  /** Reducing by a row that is zero before column `from` subtracts factor
      times that row's sum. */
  lemma {:induction false} DotReduced(a: seq<real>, b: seq<real>, factor: real, from: nat, x: seq<real>, hi: nat)
    requires |a| == |b| && hi <= |a| && hi <= |x|
    requires forall c :: 0 <= c < from && c < |b| ==> b[c] == 0.0
    ensures Dot(Reduced(a, b, factor, from), x, 0, hi) == Dot(a, x, 0, hi) - factor * Dot(b, x, 0, hi)
  {
    if hi > 0 {
      DotReduced(a, b, factor, from, x, hi - 1);
      var r := Reduced(a, b, factor, from);
      assert r[hi - 1] == a[hi - 1] - factor * b[hi - 1];
      assert r[hi - 1] * x[hi - 1] == a[hi - 1] * x[hi - 1] - factor * (b[hi - 1] * x[hi - 1]);
    }
  }

  /** Scaling a row that is zero before column `from` divides its sum. */
  lemma DotScaled(a: seq<real>, s: real, from: nat, x: seq<real>, hi: nat)
    requires s != 0.0 && hi <= |a| && hi <= |x|
    requires forall c :: 0 <= c < from && c < |a| ==> a[c] == 0.0
    ensures Dot(Scaled(a, s, from), x, 0, hi) == Dot(a, x, 0, hi) / s
  {
    var r := Scaled(a, s, from);
    forall c | 0 <= c < hi
      ensures r[c] == a[c] / s
    {
      if c < from {
        assert a[c] == 0.0;
      }
    }
    DotQuotient(r, a, s, x, hi);
  }

  /** Entry-wise division by s divides the sum by s. */
  lemma {:induction false} DotQuotient(r: seq<real>, a: seq<real>, s: real, x: seq<real>, hi: nat)
    requires s != 0.0 && hi <= |r| && hi <= |a| && hi <= |x|
    requires forall c :: 0 <= c < hi ==> r[c] == a[c] / s
    ensures Dot(r, x, 0, hi) == Dot(a, x, 0, hi) / s
  {
    if hi > 0 {
      DotQuotient(r, a, s, x, hi - 1);
      QuotientStep(Dot(r, x, 0, hi - 1), Dot(a, x, 0, hi - 1), r[hi - 1], a[hi - 1], x[hi - 1], s);
    }
  }

  /** One step of the sum above: (d / s) + (u / s) * v == (d + u * v) / s. */
  lemma QuotientStep(rd: real, d: real, ru: real, u: real, v: real, s: real)
    requires s != 0.0 && rd == d / s && ru == u / s
    ensures rd + ru * v == (d + u * v) / s
  {
    assert rd * s == d;
    assert ru * s == u;
    assert (rd + ru * v) * s == rd * s + (ru * s) * v;
  }

  /** Subtracting a multiple of another row, which is zero before `from`,
      keeps the solutions (both ways: the step can be undone). */
  lemma ReduceKeepsSolutions(M: seq<seq<real>>, r: nat, p: nat, factor: real, from: nat, n: nat)
    requires IsAugmented(M, n) && r < n && p < n && r != p
    requires forall c :: 0 <= c < from && c <= n ==> M[p][c] == 0.0
    ensures SameSolutions(RowReduced(M, r, p, factor, from), M, n)
  {
    var N := RowReduced(M, r, p, factor, from);
    forall x: seq<real> | |x| == n
      ensures Solves(N, x) <==> Solves(M, x)
    {
      DotReduced(M[r], M[p], factor, from, x, n);
      assert N[r][n] == M[r][n] - factor * M[p][n];
      OneRowChanged(M, N, r, p, x);
    }
  }

  /** Dividing a row that is zero before `from` by a non-zero number keeps
      the solutions. */
  lemma ScaleKeepsSolutions(M: seq<seq<real>>, p: nat, s: real, from: nat, n: nat)
    requires IsAugmented(M, n) && p < n && s != 0.0
    requires forall c :: 0 <= c < from && c <= n ==> M[p][c] == 0.0
    ensures SameSolutions(RowScaled(M, p, s, from), M, n)
  {
    var N := RowScaled(M, p, s, from);
    forall x: seq<real> | |x| == n
      ensures Solves(N, x) <==> Solves(M, x)
    {
      DotScaled(M[p], s, from, x, n);
      assert N[p][n] == M[p][n] / s;
      QuotientsEqual(Dot(M[p], x, 0, n), M[p][n], s);
      OneRowChanged(M, N, p, p, x);
    }
  }

  lemma QuotientsEqual(q: real, t: real, s: real)
    requires s != 0.0
    ensures q / s == t / s <==> q == t
  {
    if q / s == t / s {
      assert q == (q / s) * s && t == (t / s) * s;
    }
  }

  /** A solution of [A | b] is exactly an x with A x == b. */
  lemma AugmentedSolutions(A: seq<seq<real>>, b: seq<real>, x: seq<real>)
    requires ValidSystem(A, b) && |x| == |A|
    ensures Solves(Augment(A, b), x) <==> MatVec(A, x) == b
  {
    var M := Augment(A, b);
    var n := |A|;
    forall i | 0 <= i < n
      ensures Dot(M[i], x, 0, n) == Dot(A[i], x, 0, n) && M[i][n] == b[i]
    {
      DotFrame(M[i], A[i], x, x, 0, n);
    }
    if Solves(M, x) {
      assert MatVec(A, x) == b;
    }
  }

  // ---------------------------------------------------------------------
  // The shapes elimination produces

  /** In the first `cols` columns every entry below the diagonal is zero. */
  predicate ZeroBelow(M: seq<seq<real>>, n: nat, cols: nat)
    requires IsAugmented(M, n)
  {
    forall i, c :: 0 <= c < cols && c < i < n ==> M[i][c] == 0.0
  }

  /** The first `cols` columns are columns of the identity. */
  predicate UnitColumns(M: seq<seq<real>>, n: nat, cols: nat)
    requires IsAugmented(M, n) && cols <= n
  {
    forall i, c :: 0 <= i < n && 0 <= c < cols ==> M[i][c] == if i == c then 1.0 else 0.0
  }

  /** The first `rows` diagonal entries are at least the singular threshold in
      magnitude. */
  predicate PivotsAbove(M: seq<seq<real>>, n: nat, rows: nat)
    requires IsAugmented(M, n) && rows <= n
  {
    forall i :: 0 <= i < rows ==> Abs(M[i][i]) >= NearZero
  }

  /** The last column of M. */
  function LastColumn(M: seq<seq<real>>, n: nat): (x: seq<real>)
    requires IsAugmented(M, n)
    ensures |x| == n && forall i :: 0 <= i < n ==> x[i] == M[i][n]
  {
    seq(n, i requires 0 <= i < n => M[i][n])
  }

  /** When the first n columns are the identity, the last column solves M. */
  lemma IdentitySolved(M: seq<seq<real>>, n: nat)
    requires IsAugmented(M, n) && UnitColumns(M, n, n)
    ensures Solves(M, LastColumn(M, n))
  {
    var x := LastColumn(M, n);
    forall i | 0 <= i < n
      ensures Dot(M[i], x, 0, n) == M[i][n]
    {
      DotSplit(M[i], x, 0, i, n);
      DotSplit(M[i], x, i, i + 1, n);
      DotOfZeros(M[i], x, 0, i);
      DotOfZeros(M[i], x, i + 1, n);
      DotSingle(M[i], x, i);
    }
  }

  // ---------------------------------------------------------------------
  // Partial pivoting

  /** q is the row the pivot search picks for column p: the first row at or
      below p whose entry in column p has the largest magnitude. */
  predicate IsPivotRow(M: seq<seq<real>>, n: nat, p: nat, q: nat)
    requires IsAugmented(M, n) && p < n
  {
    p <= q < n &&
    (forall i :: p <= i < n ==> Abs(M[i][p]) <= Abs(M[q][p])) &&
    (forall i :: p <= i < q ==> Abs(M[i][p]) < Abs(M[q][p]))
  }

  /** The pivot choice is determined by the matrix. */
  lemma PivotRowUnique(M: seq<seq<real>>, n: nat, p: nat, q: nat, q': nat)
    requires IsAugmented(M, n) && p < n
    requires IsPivotRow(M, n, p, q) && IsPivotRow(M, n, p, q')
    ensures q == q'
  {
    assert Abs(M[q][p]) == Abs(M[q'][p]);
  }

  /** The pivot search of both solvers: scan the rows below p, keeping the
      first strictly larger magnitude. */
  method FindPivot(aug: array<seq<real>>, n: nat, p: nat) returns (maxRow: nat)
    requires aug.Length == n && IsAugmented(aug[..], n) && p < n
    ensures IsPivotRow(aug[..], n, p, maxRow)
  {
    maxRow := p;
    var row := p + 1;
    while row < n
      invariant p <= maxRow < row <= n
      invariant forall i :: p <= i < row ==> Abs(aug[i][p]) <= Abs(aug[maxRow][p])
      invariant forall i :: p <= i < maxRow ==> Abs(aug[i][p]) < Abs(aug[maxRow][p])
    {
      if Abs(aug[row][p]) > Abs(aug[maxRow][p]) {
        maxRow := row;
      }
      row := row + 1;
    }
  }

  // ---------------------------------------------------------------------
  // The row operations in place

  /** The destructuring swap of two row references. */
  method SwapRows(aug: array<seq<real>>, i: nat, j: nat)
    requires i < aug.Length && j < aug.Length
    modifies aug
    ensures aug[..] == Swapped(old(aug[..]), i, j)
  {
    aug[i], aug[j] := aug[j], aug[i];
  }

  /** `aug[row][col] -= factor * aug[pivot][col]` for col from `from` to the
      end of the row. */
  method ReduceRow(aug: array<seq<real>>, row: nat, pivot: nat, factor: real, from: nat)
    requires row < aug.Length && pivot < aug.Length && row != pivot
    requires |aug[row]| == |aug[pivot]| && from <= |aug[row]|
    modifies aug
    ensures aug[..] == RowReduced(old(aug[..]), row, pivot, factor, from)
  {
    ghost var M := aug[..];
    var col := from;
    while col < |aug[row]|
      invariant from <= col <= |aug[row]| == |M[row]|
      invariant forall k :: 0 <= k < aug.Length && k != row ==> aug[k] == M[k]
      invariant forall c :: 0 <= c < |M[row]| ==>
        aug[row][c] == if from <= c < col then M[row][c] - factor * M[pivot][c] else M[row][c]
    {
      aug[row] := aug[row][col := aug[row][col] - factor * aug[pivot][col]];
      col := col + 1;
    }
    forall c | 0 <= c < |M[row]|
      ensures aug[row][c] == Reduced(M[row], M[pivot], factor, from)[c]
    {
    }
    assert aug[row] == Reduced(M[row], M[pivot], factor, from);
    assert aug[..] == RowReduced(M, row, pivot, factor, from);
  }

  /** `aug[pivot][col] /= s` for col from `from` to the end of the row. */
  method ScaleRow(aug: array<seq<real>>, pivot: nat, s: real, from: nat)
    requires pivot < aug.Length && s != 0.0 && from <= |aug[pivot]|
    modifies aug
    ensures aug[..] == RowScaled(old(aug[..]), pivot, s, from)
  {
    ghost var M := aug[..];
    var col := from;
    while col < |aug[pivot]|
      invariant from <= col <= |aug[pivot]| == |M[pivot]|
      invariant forall k :: 0 <= k < aug.Length && k != pivot ==> aug[k] == M[k]
      invariant forall c :: 0 <= c < |M[pivot]| ==>
        aug[pivot][c] == if from <= c < col then M[pivot][c] / s else M[pivot][c]
    {
      aug[pivot] := aug[pivot][col := aug[pivot][col] / s];
      col := col + 1;
    }
    forall c | 0 <= c < |M[pivot]|
      ensures aug[pivot][c] == Scaled(M[pivot], s, from)[c]
    {
    }
    assert aug[pivot] == Scaled(M[pivot], s, from);
    assert aug[..] == RowScaled(M, pivot, s, from);
  }

  /** `A.map((row, i) => [...row, b[i]])`: a fresh array of rows. */
  method NewAugmented(A: seq<seq<real>>, b: seq<real>) returns (aug: array<seq<real>>)
    requires |A| == |b|
    ensures fresh(aug) && aug[..] == Augment(A, b)
  {
    aug := new seq<real>[|A|](i requires 0 <= i < |A| => A[i] + [b[i]]);
    assert aug[..] == Augment(A, b);
  }

  // ---------------------------------------------------------------------
  // The record both solvers keep

  /** The operations the solvers record, each with the numbers its
      description shows. Rows and pivots are 0-based here; the descriptions
      print them 1-based. */
  datatype Event =
    | Initial
    | Swap(pivot: nat, maxRow: nat)
    | Normalize(pivot: nat)
    | Eliminate(pivot: nat, row: nat, factor: real)

  /** One recorded step: the operation and a copy of the matrix after it. */
  datatype Record = Record(event: Event, matrix: seq<seq<real>>)

  /** A recorded step as gauss_elimination.js and gauss_jordan.js keep it: a
      copy of the matrix and the description. */
  datatype Snapshot = Snapshot(matrix: seq<seq<real>>, description: Text)

  /** What the JavaScript elimination solvers return. */
  datatype JsResult = JsResult(solution: seq<real>, steps: seq<Snapshot>)

  /** What the TypeScript elimination solvers return. */
  datatype LinearSolution = LinearSolution(title: string, steps: seq<Step>, iterationTable: seq<seq<Cell>>, finalAnswer: Text, solution: seq<real>)

  // ---------------------------------------------------------------------
  // The texts both TypeScript solvers share

  const InitialDescription: string := "Initial augmented matrix"
  const SwapDescription: string := "Swapped row {} with row {}"
  const NormalizeDescription: string := "Normalized row {}"
  const AugmentedFormula: string := @"\text{Augmented Matrix:}"
  const SolutionFormula: string := @"\text{Solution:}"
  /** The aligned list `x_{1} = ..., x_{2} = ...`, one hole per unknown. */
  const SolutionCalculation: string := @"\begin{aligned} x_{i} = {} \end{aligned}"
  /** `Solution: x1 = ..., x2 = ...`, one hole per unknown. */
  const AnswerTemplate: string := "Solution: xi = {}"
  const TableHeader: seq<Cell> := [Label("Variable"), Label("Value")]

  /** recordStep: a step showing the augmented matrix. */
  function MatrixStep(number: int, description: Text, matrix: seq<seq<real>>): (s: Step)
    ensures s.stepNumber == number && s.calculation == Matrix(matrix)
  {
    CreateStep(number, description, Lit(AugmentedFormula), Matrix(matrix), Some(Lit("")))
  }

  /** recordStep in the TypeScript solvers: record k becomes step k + 1,
      showing its matrix under the description `describe` gives its event. */
  function RecordedSteps(log: seq<Record>, describe: Event -> Text): (steps: seq<Step>)
    ensures |steps| == |log| && NumberedFromOne(steps)
    ensures forall k :: 0 <= k < |log| ==> steps[k].calculation == Matrix(log[k].matrix)
  {
    var steps := seq(|log|, k requires 0 <= k < |log| => MatrixStep(k + 1, describe(log[k].event), log[k].matrix));
    assert forall k :: 0 <= k < |log| ==> steps[k] == MatrixStep(k + 1, describe(log[k].event), log[k].matrix);
    steps
  }

  /** recordStep in the JavaScript solvers: a copy of each record's matrix
      with the description of its event. */
  function Snapshots(log: seq<Record>, describe: Event -> Text): (s: seq<Snapshot>)
    ensures |s| == |log| && forall k :: 0 <= k < |log| ==> s[k].matrix == log[k].matrix
  {
    seq(|log|, k requires 0 <= k < |log| => Snapshot(log[k].matrix, describe(log[k].event)))
  }

  /** The last step, listing the solution. */
  function FinalStep(number: int, description: string, solution: seq<real>): Step
  {
    CreateStep(number, Lit(description), Lit(SolutionFormula), Fill(SolutionCalculation, solution), Some(Lit("")))
  }

  /** One table row `[x<i+1>, value]` per unknown. */
  function SolutionRows(solution: seq<real>): (rows: seq<seq<Cell>>)
    ensures |rows| == |solution| && forall i :: 0 <= i < |solution| ==> rows[i] == [Variable(i + 1), Fixed(solution[i])]
  {
    seq(|solution|, i requires 0 <= i < |solution| => [Variable(i + 1), Fixed(solution[i])])
  }

  /** The number of swaps in a log. */
  function SwapCount(log: seq<Record>): (k: nat)
    ensures k <= |log|
  {
    if log == [] then 0 else SwapCount(log[..|log| - 1]) + (if log[|log| - 1].event.Swap? then 1 else 0)
  }

  lemma SwapCountAppend(log: seq<Record>, r: Record)
    ensures SwapCount(log + [r]) == SwapCount(log) + (if r.event.Swap? then 1 else 0)
  {
    assert (log + [r])[..|log|] == log;
  }
}
