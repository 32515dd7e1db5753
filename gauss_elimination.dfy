/** Gaussian elimination with partial pivoting, as gauss-elimination.ts and
    algorithms/gauss_elimination.js perform it: forward elimination on the
    augmented matrix, recording a copy of the matrix after every swap and
    every row reduction, a singular-pivot stop, then back substitution. */
module GaussElimination {
  import opened Outcomes
  import opened Utils
  import opened LinearAlgebra

  // ---------------------------------------------------------------------
  // What a correct log is

  /** The pivot search of column p comes right after prev: p is 0 and prev
      is the initial record, or prev is the reduction of the last row by
      the pivot of column p - 1. */
  predicate Opens(n: nat, prev: Record, p: nat)
  {
    p < n &&
    if p == 0 then prev.event.Initial?
    else prev.event.Eliminate? && prev.event.pivot == p - 1 && prev.event.row == n - 1
  }

  /** After prev, the pivot of column p is in place: the search of column p
      found row p itself, or prev is the swap it asked for. */
  predicate PivotReady(n: nat, prev: Record, p: nat)
    requires IsAugmented(prev.matrix, n)
  {
    p < n &&
    ((Opens(n, prev, p) && IsPivotRow(prev.matrix, n, p, p)) || (prev.event.Swap? && prev.event.pivot == p))
  }

  /** rec is the record forward elimination makes right after prev, in the
      program's order: the swap a column's pivot search asks for, when that
      search finds a row other than p; then, once the pivot is in place and
      reaches the threshold, the reductions of rows p + 1, p + 2, ..., n - 1
      by the factor M[r][p] / M[p][p], from column p on. */
  predicate Follows(n: nat, prev: Record, rec: Record)
    requires IsAugmented(prev.matrix, n)
  {
    var M := prev.matrix;
    match rec.event
    case Swap(p, q) => Opens(n, prev, p) && p != q && IsPivotRow(M, n, p, q) && rec.matrix == Swapped(M, p, q)
    case Eliminate(p, r, factor) =>
      p < r < n && M[p][p] != 0.0 &&
      (if r == p + 1 then PivotReady(n, prev, p) && Abs(M[p][p]) >= NearZero
       else prev.event.Eliminate? && prev.event.pivot == p && prev.event.row == r - 1) &&
      factor == M[r][p] / M[p][p] && rec.matrix == RowReduced(M, r, p, factor, p)
    case _ => false
  }

  predicate Linked(n: nat, log: seq<Record>, k: int)
    requires 0 < k < |log| && IsAugmented(log[k - 1].matrix, n)
  {
    Follows(n, log[k - 1], log[k])
  }

  /** The log starts with the initial matrix M0 and each later record
      follows the one before. */
  predicate Logged(n: nat, M0: seq<seq<real>>, log: seq<Record>)
  {
    |log| > 0 && log[0] == Record(Initial, M0) &&
    (forall k :: 0 <= k < |log| ==> IsAugmented(log[k].matrix, n)) &&
    (forall k :: 0 < k < |log| ==> Linked(n, log, k))
  }

  /** After last, elimination stops on column p: its pivot is in place and
      below the threshold. */
  predicate Blocked(n: nat, last: Record, p: nat)
    requires IsAugmented(last.matrix, n)
  {
    PivotReady(n, last, p) && Abs(last.matrix[p][p]) < NearZero
  }

  /** After last, forward elimination is over: the pivot of the last column
      (which has no row below it) is in place and reaches the threshold. */
  predicate Done(n: nat, last: Record)
    requires IsAugmented(last.matrix, n)
  {
    if n == 0 then last.event.Initial?
    else PivotReady(n, last, n - 1) && Abs(last.matrix[n - 1][n - 1]) >= NearZero
  }

  /** No record follows last: elimination ended, solved or singular. */
  ghost predicate Finished(n: nat, last: Record)
    requires IsAugmented(last.matrix, n)
  {
    Done(n, last) || exists p: nat :: p < n && Blocked(n, last, p)
  }

  lemma LoggedExtended(n: nat, M0: seq<seq<real>>, log: seq<Record>, rec: Record)
    requires Logged(n, M0, log) && IsAugmented(rec.matrix, n)
    requires Follows(n, log[|log| - 1], rec)
    ensures Logged(n, M0, log + [rec])
  {
    var log' := log + [rec];
    forall k | 0 < k < |log'|
      ensures Linked(n, log', k)
    {
      if k < |log| {
        assert Linked(n, log, k);
      }
    }
  }

  // ---------------------------------------------------------------------
  // The log is determined by the matrix it starts from

  /** Which column's pivot is in place is read off the record. */
  lemma PivotReadyColumn(n: nat, prev: Record, p: nat, p': nat)
    requires IsAugmented(prev.matrix, n) && PivotReady(n, prev, p) && PivotReady(n, prev, p')
    ensures p == p'
  {
  }

  /** At most one record follows any record. */
  lemma FollowsUnique(n: nat, prev: Record, rec: Record, rec': Record)
    requires IsAugmented(prev.matrix, n) && Follows(n, prev, rec) && Follows(n, prev, rec')
    ensures rec == rec'
  {
    var M := prev.matrix;
    match rec.event
    case Swap(p, q) =>
      if rec'.event.Swap? {
        PivotRowUnique(M, n, p, q, rec'.event.maxRow);
      } else if rec'.event.row == rec'.event.pivot + 1 {
        PivotRowUnique(M, n, p, q, p);
      }
    case Eliminate(p, r, _) =>
      if rec'.event.Swap? {
        if r == p + 1 {
          PivotRowUnique(M, n, p, rec'.event.maxRow, p);
        }
      } else if r == p + 1 && rec'.event.row == rec'.event.pivot + 1 {
        PivotReadyColumn(n, prev, p, rec'.event.pivot);
      }
  }

  /** Nothing follows a record after which elimination is over. */
  lemma NothingFollowsFinished(n: nat, last: Record, rec: Record)
    requires IsAugmented(last.matrix, n) && Finished(n, last)
    ensures !Follows(n, last, rec)
  {
    var M := last.matrix;
    if !Done(n, last) {
      var p: nat :| p < n && Blocked(n, last, p);
      forall p' | PivotReady(n, last, p')
        ensures p' == p
      {
        PivotReadyColumn(n, last, p, p');
      }
      forall q | Opens(n, last, p) && IsPivotRow(M, n, p, q)
        ensures q == p
      {
        PivotRowUnique(M, n, p, q, p);
      }
    } else if n > 0 {
      forall p | PivotReady(n, last, p)
        ensures p == n - 1
      {
        PivotReadyColumn(n, last, n - 1, p);
      }
    }
  }

  /** A finished elimination is either solved or singular, not both. */
  lemma BlockedNotDone(n: nat, last: Record, p: nat)
    requires IsAugmented(last.matrix, n) && p < n && Blocked(n, last, p)
    ensures Finished(n, last) && !Done(n, last)
  {
    if n > 0 && PivotReady(n, last, n - 1) {
      PivotReadyColumn(n, last, n - 1, p);
    }
  }

  lemma {:induction false} LogsAgree(n: nat, M0: seq<seq<real>>, log: seq<Record>, log': seq<Record>, k: nat)
    requires Logged(n, M0, log) && Logged(n, M0, log') && k <= |log| && k <= |log'|
    ensures log[..k] == log'[..k]
  {
    if k > 1 {
      LogsAgree(n, M0, log, log', k - 1);
      assert log[k - 2] == log'[k - 2] by { assert log[..k - 1][k - 2] == log'[..k - 1][k - 2]; }
      assert Linked(n, log, k - 1) && Linked(n, log', k - 1);
      FollowsUnique(n, log[k - 2], log[k - 1], log'[k - 1]);
      assert log[..k] == log[..k - 1] + [log[k - 1]];
      assert log'[..k] == log'[..k - 1] + [log'[k - 1]];
    } else if k == 1 {
      assert log[..1] == [log[0]] && log'[..1] == [log'[0]];
    }
  }

  /** A log that has finished is no proper prefix of another log. */
  lemma FinishedIsMaximal(n: nat, M0: seq<seq<real>>, log: seq<Record>, log': seq<Record>)
    requires Logged(n, M0, log) && Finished(n, log[|log| - 1]) && Logged(n, M0, log')
    ensures |log'| <= |log|
  {
    if |log| < |log'| {
      LogsAgree(n, M0, log, log', |log|);
      var k := |log|;
      assert log[k - 1] == log'[k - 1] by { assert log[..k][k - 1] == log'[..k][k - 1]; }
      assert Linked(n, log', k);
      NothingFollowsFinished(n, log[k - 1], log'[k]);
    }
  }

  /** Forward elimination is deterministic: two finished logs from the same
      matrix are the same log, so the swaps recorded, the reductions and
      whether the matrix is reported singular are all fixed by M0. */
  lemma LogUnique(n: nat, M0: seq<seq<real>>, log: seq<Record>, log': seq<Record>)
    requires Logged(n, M0, log) && Finished(n, log[|log| - 1])
    requires Logged(n, M0, log') && Finished(n, log'[|log'| - 1])
    ensures log == log'
  {
    FinishedIsMaximal(n, M0, log, log');
    FinishedIsMaximal(n, M0, log', log);
    LogsAgree(n, M0, log, log', |log|);
    assert log == log[..|log|] && log' == log'[..|log'|];
  }

  // ---------------------------------------------------------------------
  // What the matrix looks like at a stop

  /** Elimination stopped at column p: the columns before p are reduced, and
      no entry of column p at or below the diagonal reaches the threshold. */
  predicate Stuck(M: seq<seq<real>>, n: nat, p: nat)
    requires IsAugmented(M, n)
  {
    p < n && ZeroBelow(M, n, p) && PivotsAbove(M, n, p) &&
    forall i :: p <= i < n ==> Abs(M[i][p]) < NearZero
  }

  ghost predicate Stalled(M: seq<seq<real>>, n: nat)
    requires IsAugmented(M, n)
  {
    exists p :: Stuck(M, n, p)
  }

  /** The number of reductions in the columns before p: (n - 1) + ... + (n - p). */
  function Reductions(n: nat, p: nat): nat
    requires p <= n
  {
    if p == 0 then 0 else Reductions(n, p - 1) + (n - p)
  }

  /** The closed form: twice the count is p * (2n - p - 1); for p == n that
      is n * (n - 1). */
  lemma {:induction false} ReductionsClosedForm(n: nat, p: nat)
    requires p <= n
    ensures 2 * Reductions(n, p) == p * (2 * n - p - 1)
  {
    if p > 0 {
      ReductionsClosedForm(n, p - 1);
    }
  }

  // ---------------------------------------------------------------------
  // Facts about one elimination step

  /** The state after the columns before p are done: M is reduced there, has
      the solutions of M0, is the last matrix of a correct log, and the
      search of column p comes next (or, for p == n, elimination is over). */
  ghost predicate Eliminated(n: nat, M0: seq<seq<real>>, log: seq<Record>, M: seq<seq<real>>, p: nat)
  {
    IsAugmented(M, n) && p <= n && ZeroBelow(M, n, p) && PivotsAbove(M, n, p) &&
    SameSolutions(M, M0, n) && Logged(n, M0, log) && log[|log| - 1].matrix == M &&
    (p < n ==> Opens(n, log[|log| - 1], p)) && (p == n ==> Done(n, log[|log| - 1]))
  }

  /** The state in column p once its pivot is in place: the largest entry of
      the column at or below the diagonal is on it. */
  ghost predicate Pivoted(n: nat, M0: seq<seq<real>>, log: seq<Record>, M: seq<seq<real>>, p: nat)
  {
    IsAugmented(M, n) && p < n && ZeroBelow(M, n, p) && PivotsAbove(M, n, p) &&
    (forall i :: p <= i < n ==> Abs(M[i][p]) <= Abs(M[p][p])) &&
    SameSolutions(M, M0, n) && Logged(n, M0, log) && log[|log| - 1].matrix == M &&
    PivotReady(n, log[|log| - 1], p)
  }

  /** The state inside column p once the rows p + 1 .. r - 1 are reduced. */
  ghost predicate Below(n: nat, M0: seq<seq<real>>, log: seq<Record>, M: seq<seq<real>>, p: nat, r: nat)
  {
    IsAugmented(M, n) && p < r <= n && ZeroBelow(M, n, p) && PivotsAbove(M, n, p + 1) &&
    (forall i :: p < i < r ==> M[i][p] == 0.0) &&
    SameSolutions(M, M0, n) && Logged(n, M0, log) && log[|log| - 1].matrix == M &&
    var last := log[|log| - 1];
    if r == p + 1 then PivotReady(n, last, p)
    else last.event.Eliminate? && last.event.pivot == p && last.event.row == r - 1
  }

  /** The state at a singular stop in column p. */
  ghost predicate StoppedAt(n: nat, M0: seq<seq<real>>, log: seq<Record>, M: seq<seq<real>>, p: nat)
  {
    IsAugmented(M, n) && Stuck(M, n, p) && SameSolutions(M, M0, n) &&
    Logged(n, M0, log) && log[|log| - 1].matrix == M && Blocked(n, log[|log| - 1], p)
  }

  /** a - (a / d) * d == 0: the reduction clears the entry below the pivot. */
  lemma Cancels(a: real, d: real)
    requires d != 0.0
    ensures a - (a / d) * d == 0.0
  {
  }

  /** The swap the pivot search asks for: it is the record that follows, it
      keeps the reduced columns, and it leaves the largest entry of column p
      on the diagonal. */
  lemma PivotStep(n: nat, M0: seq<seq<real>>, log: seq<Record>, M: seq<seq<real>>, p: nat, q: nat)
    requires Eliminated(n, M0, log, M, p) && p < n && IsPivotRow(M, n, p, q) && p != q
    ensures Pivoted(n, M0, log + [Record(Swap(p, q), Swapped(M, p, q))], Swapped(M, p, q), p)
    ensures SwapCount(log + [Record(Swap(p, q), Swapped(M, p, q))]) == SwapCount(log) + 1
  {
    var N := Swapped(M, p, q);
    forall i, c | 0 <= c < p && c < i < n
      ensures N[i][c] == 0.0
    {
      assert N[i] == M[if i == p then q else if i == q then p else i];
    }
    PivotOnDiagonal(M, n, p, q);
    SwapKeepsSolutions(M, p, q, n);
    LoggedExtended(n, M0, log, Record(Swap(p, q), N));
    SwapCountAppend(log, Record(Swap(p, q), N));
  }

  /** When the search finds row p itself, nothing is recorded and the pivot
      is already in place. */
  lemma PivotInPlace(n: nat, M0: seq<seq<real>>, log: seq<Record>, M: seq<seq<real>>, p: nat)
    requires Eliminated(n, M0, log, M, p) && p < n && IsPivotRow(M, n, p, p)
    ensures Pivoted(n, M0, log, M, p)
  {
  }

  /** After the pivot search and swap, the diagonal entry is the largest of
      its column at or below the diagonal. */
  lemma PivotOnDiagonal(M: seq<seq<real>>, n: nat, p: nat, q: nat)
    requires IsAugmented(M, n) && p < n && IsPivotRow(M, n, p, q)
    ensures forall i :: p <= i < n ==> Abs(Swapped(M, p, q)[i][p]) <= Abs(Swapped(M, p, q)[p][p])
  {
    var N := Swapped(M, p, q);
    forall i | p <= i < n
      ensures Abs(N[i][p]) <= Abs(N[p][p])
    {
      assert N[i] == M[if i == p then q else if i == q then p else i];
    }
  }

  /** The record of reducing row r by the pivot row p. */
  function Reduction(M: seq<seq<real>>, n: nat, p: nat, r: nat): Record
    requires IsAugmented(M, n) && p < r < n && M[p][p] != 0.0
  {
    Record(Eliminate(p, r, M[r][p] / M[p][p]), RowReduced(M, r, p, M[r][p] / M[p][p], p))
  }

  /** Reducing the next row below the pivot is the record that follows, and
      keeps the state one row on. */
  lemma ReductionStep(n: nat, M0: seq<seq<real>>, log: seq<Record>, M: seq<seq<real>>, p: nat, r: nat)
    requires Below(n, M0, log, M, p, r) && r < n
    ensures M[p][p] != 0.0
    ensures Below(n, M0, log + [Reduction(M, n, p, r)], Reduction(M, n, p, r).matrix, p, r + 1)
    ensures SwapCount(log + [Reduction(M, n, p, r)]) == SwapCount(log)
  {
    assert Abs(M[p][p]) >= NearZero;
    var factor := M[r][p] / M[p][p];
    var rec := Reduction(M, n, p, r);
    ReducedShape(M, n, p, r);
    ReduceKeepsSolutions(M, r, p, factor, p, n);
    assert Follows(n, log[|log| - 1], rec);
    LoggedExtended(n, M0, log, rec);
    SwapCountAppend(log, rec);
  }

  /** The shape part of the step above. */
  lemma ReducedShape(M: seq<seq<real>>, n: nat, p: nat, r: nat)
    requires IsAugmented(M, n) && p < r < n && M[p][p] != 0.0
    requires ZeroBelow(M, n, p) && PivotsAbove(M, n, p + 1)
    requires forall i :: p < i < r ==> M[i][p] == 0.0
    ensures IsAugmented(Reduction(M, n, p, r).matrix, n)
    ensures ZeroBelow(Reduction(M, n, p, r).matrix, n, p)
    ensures PivotsAbove(Reduction(M, n, p, r).matrix, n, p + 1)
    ensures forall i :: p < i < r + 1 ==> Reduction(M, n, p, r).matrix[i][p] == 0.0
  {
    var N := Reduction(M, n, p, r).matrix;
    assert N[r] == Reduced(M[r], M[p], M[r][p] / M[p][p], p);
    Cancels(M[r][p], M[p][p]);
    assert N[r][p] == 0.0;
    forall i, c | 0 <= c < p && c < i < n
      ensures N[i][c] == 0.0
    {
      if i != r {
        assert N[i] == M[i];
      }
    }
    forall i | 0 <= i < p + 1
      ensures Abs(N[i][i]) >= NearZero
    {
      assert N[i] == M[i];
    }
  }

  /** Starting on column p once its pivot is in place and usable. */
  lemma StartColumn(n: nat, M0: seq<seq<real>>, log: seq<Record>, M: seq<seq<real>>, p: nat)
    requires Pivoted(n, M0, log, M, p) && Abs(M[p][p]) >= NearZero
    ensures Below(n, M0, log, M, p, p + 1)
  {
  }

  /** Every row below the pivot reduced: column p is done, and the search of
      column p + 1 comes next, or elimination is over. */
  lemma FinishColumn(n: nat, M0: seq<seq<real>>, log: seq<Record>, M: seq<seq<real>>, p: nat)
    requires Below(n, M0, log, M, p, n)
    ensures Eliminated(n, M0, log, M, p + 1)
  {
  }

  /** A pivot in place below the threshold: the whole column is below it and
      elimination stops there. */
  lemma StuckColumn(n: nat, M0: seq<seq<real>>, log: seq<Record>, M: seq<seq<real>>, p: nat)
    requires Pivoted(n, M0, log, M, p) && Abs(M[p][p]) < NearZero
    ensures StoppedAt(n, M0, log, M, p)
  {
  }

  // ---------------------------------------------------------------------
  // The engine

  /** The inner loop `for row in pivot+1 .. n-1`: reduce each row below the
      pivot, recording each reduction. */
  method EliminateBelow(aug: array<seq<real>>, n: nat, p: nat, ghost M0: seq<seq<real>>, log0: seq<Record>)
    returns (log: seq<Record>)
    requires aug.Length == n && p < n && Below(n, M0, log0, aug[..], p, p + 1)
    modifies aug
    ensures Eliminated(n, M0, log, aug[..], p + 1)
    ensures |log| == |log0| + (n - 1 - p) && SwapCount(log) == SwapCount(log0)
  {
    log := log0;
    var row := p + 1;
    while row < n
      invariant p + 1 <= row <= n && Below(n, M0, log, aug[..], p, row)
      invariant |log| == |log0| + (row - 1 - p) && SwapCount(log) == SwapCount(log0)
    {
      ghost var M := aug[..];
      ReductionStep(n, M0, log, M, p, row);
      var factor := aug[row][p] / aug[p][p];
      ReduceRow(aug, row, p, factor, p);
      var rec := Record(Eliminate(p, row, factor), aug[..]);
      assert rec == Reduction(M, n, p, row);
      log := log + [rec];
      row := row + 1;
    }
    FinishColumn(n, M0, log, aug[..], p);
  }

  /** One pass of the outer loop: pick the pivot row, swap it up and record
      the swap when it is another row, stop if the pivot is below the
      threshold, otherwise reduce the rows below. */
  method EliminateColumn(aug: array<seq<real>>, n: nat, p: nat, ghost M0: seq<seq<real>>, log0: seq<Record>)
    returns (singular: bool, log: seq<Record>)
    requires aug.Length == n && p < n && Eliminated(n, M0, log0, aug[..], p)
    modifies aug
    ensures singular ==> StoppedAt(n, M0, log, aug[..], p)
    ensures !singular ==> Eliminated(n, M0, log, aug[..], p + 1)
    ensures |log| - SwapCount(log) == |log0| - SwapCount(log0) + (if singular then 0 else n - 1 - p)
  {
    log := log0;
    var maxRow := FindPivot(aug, n, p);
    ghost var M := aug[..];
    if maxRow != p {
      PivotStep(n, M0, log, M, p, maxRow);
      SwapRows(aug, p, maxRow);
      var rec := Record(Swap(p, maxRow), aug[..]);
      log := log + [rec];
    } else {
      PivotInPlace(n, M0, log, M, p);
    }
    if Abs(aug[p][p]) < NearZero {
      StuckColumn(n, M0, log, aug[..], p);
      return true, log;
    }
    StartColumn(n, M0, log, aug[..], p);
    log := EliminateBelow(aug, n, p, M0, log);
    singular := false;
  }

  /** What forward elimination ends with: M0's finished log, reaching a
      matrix M with the solutions of M0; upper triangular with usable pivots
      when no column is reported, stuck on the reported column otherwise. */
  ghost predicate Concluded(n: nat, M0: seq<seq<real>>, log: seq<Record>, M: seq<seq<real>>, singularAt: Option<nat>)
  {
    IsAugmented(M, n) && SameSolutions(M, M0, n) &&
    Logged(n, M0, log) && log[|log| - 1].matrix == M && Finished(n, log[|log| - 1]) &&
    (singularAt.None? <==> Done(n, log[|log| - 1])) &&
    (singularAt.None? ==> ZeroBelow(M, n, n) && PivotsAbove(M, n, n) && |log| == 1 + SwapCount(log) + Reductions(n, n)) &&
    (singularAt.Some? ==> singularAt.value < n && Blocked(n, log[|log| - 1], singularAt.value) && Stuck(M, n, singularAt.value))
  }

  lemma SolvedConcluded(n: nat, M0: seq<seq<real>>, log: seq<Record>, M: seq<seq<real>>)
    requires Eliminated(n, M0, log, M, n) && |log| == 1 + SwapCount(log) + Reductions(n, n)
    ensures Concluded(n, M0, log, M, None)
  {
  }

  lemma SingularConcluded(n: nat, M0: seq<seq<real>>, log: seq<Record>, M: seq<seq<real>>, p: nat)
    requires p < n && StoppedAt(n, M0, log, M, p)
    ensures Concluded(n, M0, log, M, Some(p))
  {
    BlockedNotDone(n, log[|log| - 1], p);
  }

  /** The outer loop `for pivot in 0 .. n-1`. The log it returns is the
      finished log of M0, and it reports a singular column exactly when that
      log ends blocked there. On success the matrix is upper triangular with
      usable pivots; either way it has the solutions of M0. */
  method ForwardElimination(aug: array<seq<real>>, n: nat) returns (singularAt: Option<nat>, log: seq<Record>)
    requires aug.Length == n && IsAugmented(aug[..], n)
    modifies aug
    ensures Concluded(n, old(aug[..]), log, aug[..], singularAt)
  {
    ghost var M0 := aug[..];
    log := [Record(Initial, aug[..])];
    var pivot := 0;
    while pivot < n
      invariant Eliminated(n, M0, log, aug[..], pivot)
      invariant |log| == 1 + SwapCount(log) + Reductions(n, pivot)
    {
      var singular;
      singular, log := EliminateColumn(aug, n, pivot, M0, log);
      if singular {
        SingularConcluded(n, M0, log, aug[..], pivot);
        return Some(pivot), log;
      }
      pivot := pivot + 1;
    }
    singularAt := None;
    SolvedConcluded(n, M0, log, aug[..]);
  }

  // ---------------------------------------------------------------------
  // Back substitution

  /** Row k of an upper-triangular system holds at x once x[k..] is known:
      row[k] * x[k] + sum of row[j] * x[j] for j > k equals the last entry. */
  predicate Settled(row: seq<real>, x: seq<real>, k: nat, n: nat)
    requires |row| == n + 1 && |x| == n && k < n
  {
    row[k] * x[k] + Dot(row, x, k + 1, n) == row[n]
  }

  lemma SettledFrame(row: seq<real>, x: seq<real>, y: seq<real>, k: nat, n: nat)
    requires |row| == n + 1 && |x| == n && |y| == n && k < n
    requires forall j :: k <= j < n ==> x[j] == y[j]
    ensures Settled(row, x, k, n) <==> Settled(row, y, k, n)
  {
    DotFrame(row, row, x, y, k + 1, n);
    assert x[k] == y[k];
    assert Dot(row, x, k + 1, n) == Dot(row, y, k + 1, n);
    assert row[k] * x[k] == row[k] * y[k];
  }

  /** x[k] = (row[n] - sum) / row[k] settles row k. */
  lemma DivisionSettles(row: seq<real>, x: seq<real>, k: nat, n: nat, rest: real)
    requires |row| == n + 1 && |x| == n && k < n && row[k] != 0.0
    requires rest == Dot(row, x, k + 1, n) && x[k] == (row[n] - rest) / row[k]
    ensures Settled(row, x, k, n)
  {
  }

  /** Every row settled in a matrix with zeros below the diagonal: x solves it. */
  lemma SettledSolves(M: seq<seq<real>>, n: nat, x: seq<real>)
    requires IsAugmented(M, n) && ZeroBelow(M, n, n) && |x| == n
    requires forall k :: 0 <= k < n ==> Settled(M[k], x, k, n)
    ensures Solves(M, x)
  {
    forall k | 0 <= k < n
      ensures RowHolds(M[k], x)
    {
      assert Settled(M[k], x, k, n);
      DotSplit(M[k], x, 0, k, n);
      DotSplit(M[k], x, k, k + 1, n);
      DotOfZeros(M[k], x, 0, k);
      DotSingle(M[k], x, k);
    }
  }

  /** `for i from n-1 down to 0`: solution[i] starts as the last entry of row
      i, loses aug[i][j] * solution[j] for every j > i, then is divided by
      the pivot. The result solves the upper-triangular system. */
  method BackSubstitution(aug: array<seq<real>>, n: nat) returns (solution: seq<real>)
    requires aug.Length == n && IsAugmented(aug[..], n)
    requires ZeroBelow(aug[..], n, n) && PivotsAbove(aug[..], n, n)
    ensures |solution| == n && Solves(aug[..], solution)
  {
    var x := new real[n];
    var i := n;
    while i > 0
      invariant 0 <= i <= n
      invariant forall k :: i <= k < n ==> Settled(aug[k], x[..], k, n)
    {
      i := i - 1;
      ghost var xs := x[..];
      x[i] := aug[i][n];
      var j := i + 1;
      while j < n
        invariant i + 1 <= j <= n
        invariant x[i] == aug[i][n] - Dot(aug[i], xs, i + 1, j)
        invariant forall k :: 0 <= k < n && k != i ==> x[k] == xs[k]
      {
        x[i] := x[i] - aug[i][j] * x[j];
        j := j + 1;
      }
      ghost var rest := Dot(aug[i], xs, i + 1, n);
      assert Abs(aug[i][i]) >= NearZero;
      x[i] := x[i] / aug[i][i];
      DotFrame(aug[i], aug[i], xs, x[..], i + 1, n);
      DivisionSettles(aug[i], x[..], i, n, rest);
      forall k | i < k < n
        ensures Settled(aug[k], x[..], k, n)
      {
        SettledFrame(aug[k], xs, x[..], k, n);
      }
    }
    solution := x[..];
    SettledSolves(aug[..], n, solution);
  }

  /** Row k settled under the same values from k + 1 on: x[k] is forced. */
  lemma SettledForced(row: seq<real>, x: seq<real>, y: seq<real>, k: nat, n: nat)
    requires |row| == n + 1 && |x| == n && |y| == n && k < n && row[k] != 0.0
    requires forall j :: k < j < n ==> x[j] == y[j]
    requires Settled(row, x, k, n) && Settled(row, y, k, n)
    ensures x[k] == y[k]
  {
    DotFrame(row, row, x, y, k + 1, n);
    var rest := Dot(row, x, k + 1, n);
    assert rest == Dot(row, y, k + 1, n);
    assert row[k] * x[k] == row[n] - rest;
    assert row[k] * y[k] == row[n] - rest;
  }

  /** An upper-triangular system with non-zero pivots has one solution. */
  lemma {:induction false} TriangularUnique(M: seq<seq<real>>, n: nat, x: seq<real>, y: seq<real>, k: nat)
    requires IsAugmented(M, n) && ZeroBelow(M, n, n) && PivotsAbove(M, n, n)
    requires |x| == n && |y| == n && Solves(M, x) && Solves(M, y) && k <= n
    ensures forall j :: k <= j < n ==> x[j] == y[j]
    decreases n - k
  {
    if k < n {
      TriangularUnique(M, n, x, y, k + 1);
      RowSettled(M, n, x, k);
      RowSettled(M, n, y, k);
      assert Abs(M[k][k]) >= NearZero;
      SettledForced(M[k], x, y, k, n);
    }
  }

  /** A row of a solved upper-triangular system is settled. */
  lemma RowSettled(M: seq<seq<real>>, n: nat, x: seq<real>, k: nat)
    requires IsAugmented(M, n) && ZeroBelow(M, n, n) && |x| == n && Solves(M, x) && k < n
    ensures Settled(M[k], x, k, n)
  {
    assert RowHolds(M[k], x);
    DotSplit(M[k], x, 0, k, n);
    DotSplit(M[k], x, k, k + 1, n);
    DotOfZeros(M[k], x, 0, k);
    DotSingle(M[k], x, k);
  }

  /** The whole computation both versions share: validate, augment,
      eliminate, substitute. `log` is the finished log of [A | b] and
      `reduced` the matrix it ends with; a solution is returned exactly when
      that log ends with every pivot usable. */
  method Solve(A: seq<seq<real>>, b: seq<real>)
    returns (r: Result<seq<real>>, log: seq<Record>, ghost reduced: seq<seq<real>>)
    ensures !ValidSystem(A, b) <==> r == Err(InvalidMatrix)
    ensures ValidSystem(A, b) ==>
      IsAugmented(reduced, |A|) && Logged(|A|, Augment(A, b), log) && log[|log| - 1].matrix == reduced &&
      Finished(|A|, log[|log| - 1]) && (r.Ok? <==> Done(|A|, log[|log| - 1])) &&
      SameSolutions(reduced, Augment(A, b), |A|)
    ensures ValidSystem(A, b) && r.Ok? ==>
      ZeroBelow(reduced, |A|, |A|) && PivotsAbove(reduced, |A|, |A|) &&
      |log| == 1 + SwapCount(log) + Reductions(|A|, |A|) &&
      |r.value| == |A| && Solves(reduced, r.value) && MatVec(A, r.value) == b &&
      forall y :: |y| == |A| && MatVec(A, y) == b ==> y == r.value
    ensures ValidSystem(A, b) && r.Err? ==> r.error == SingularMatrix && Stalled(reduced, |A|)
  {
    if !ValidSystem(A, b) {
      return Err(InvalidMatrix), [], [];
    }
    var n := |A|;
    var aug := NewAugmented(A, b);
    var singularAt;
    singularAt, log := ForwardElimination(aug, n);
    reduced := aug[..];
    if singularAt.Some? {
      assert Stuck(reduced, n, singularAt.value);
      return Err(SingularMatrix), log, reduced;
    }
    var x := BackSubstitution(aug, n);
    assert Solves(Augment(A, b), x);
    AugmentedSolutions(A, b, x);
    forall y | |y| == n && MatVec(A, y) == b
      ensures y == x
    {
      AugmentedSolutions(A, b, y);
      TriangularUnique(reduced, n, x, y, 0);
    }
    r := Ok(x);
  }

  /** For A = [[1e-11, 1], [1, 1]] and b = [1, 2] the pivot of column 0 is
      tiny but not the largest: the finished log swaps the rows first, and
      elimination ends with both pivots usable. */
  lemma SmallPivotIsSwapped(log: seq<Record>)
    requires Logged(2, Augment([[1.0e-11, 1.0], [1.0, 1.0]], [1.0, 2.0]), log) && Finished(2, log[|log| - 1])
    ensures |log| == 3 && log[1].event == Swap(0, 1) && Done(2, log[2])
  {
    var M0 := Augment([[1.0e-11, 1.0], [1.0, 1.0]], [1.0, 2.0]);
    assert M0[0] == [1.0e-11, 1.0, 1.0] && M0[1] == [1.0, 1.0, 2.0];
    var M1 := Swapped(M0, 0, 1);
    var factor := M1[1][0] / M1[0][0];
    var M2 := RowReduced(M1, 1, 0, factor, 0);
    assert M2[1][1] == 1.0 - 1.0e-11;
    var expected := [Record(Initial, M0), Record(Swap(0, 1), M1), Record(Eliminate(0, 1, factor), M2)];
    assert IsPivotRow(M0, 2, 0, 1);
    assert Linked(2, expected, 1);
    assert Linked(2, expected, 2);
    assert Done(2, expected[2]);
    LogUnique(2, M0, log, expected);
  }

  // ---------------------------------------------------------------------
  // gauss-elimination.ts: the recorded steps and the table

  const Title: string := "Gauss Elimination Method Solution"
  const EliminateDescription: string := "Eliminated x{} from equation {} using factor {}"
  const FinalDescription: string := "Final Solution (after back substitution)"

  /** The description recordStep is given for each operation, its numbers
      shown 1-based; a Normalize entry does not occur in this solver. */
  function Description(e: Event): Text
  {
    match e
    case Initial => Lit(InitialDescription)
    case Swap(p, q) => Fill(SwapDescription, [(p + 1) as real, (q + 1) as real])
    case Eliminate(p, row, factor) => Fill(EliminateDescription, [(p + 1) as real, (row + 1) as real, factor])
    case Normalize(p) => Fill(NormalizeDescription, [(p + 1) as real])
  }

  function TsSolution(log: seq<Record>, solution: seq<real>): LinearSolution
  {
    LinearSolution(Title, RecordedSteps(log, Description) + [FinalStep(|log| + 1, FinalDescription, solution)],
                   [TableHeader] + SolutionRows(solution), Fill(AnswerTemplate, solution), solution)
  }

  /** gaussElimination: the solution with its steps, or the error it throws.
      The ghost `log` is the finished log of [A | b], which LogUnique makes
      the only one; the solver throws "singular" exactly when it ends
      blocked. */
  method GaussEliminationTs(A: seq<seq<real>>, b: seq<real>)
    returns (r: Result<LinearSolution>, ghost log: seq<Record>, ghost reduced: seq<seq<real>>)
    ensures !ValidSystem(A, b) <==> r == Err(InvalidMatrix)
    ensures ValidSystem(A, b) ==>
      Logged(|A|, Augment(A, b), log) && Finished(|A|, log[|log| - 1]) && (r.Ok? <==> Done(|A|, log[|log| - 1]))
    ensures ValidSystem(A, b) && r.Err? ==>
      r.error == SingularMatrix && reduced == log[|log| - 1].matrix && IsAugmented(reduced, |A|) && Stalled(reduced, |A|)
    ensures ValidSystem(A, b) && r.Ok? ==>
      |log| == 1 + SwapCount(log) + Reductions(|A|, |A|) &&
      r.value == TsSolution(log, r.value.solution) &&
      |r.value.solution| == |A| && MatVec(A, r.value.solution) == b &&
      forall y :: |y| == |A| && MatVec(A, y) == b ==> y == r.value.solution
  {
    var x, steps, red := Solve(A, b);
    log, reduced := steps, red;
    if x.Err? {
      return Err(x.error), log, reduced;
    }
    r := Ok(TsSolution(steps, x.value));
  }

  /** The shape of a returned solution: steps numbered 1, 2, ... with the
      initial matrix first and the final answer last, one step per swap and
      per reduction in between, and a table with one row per unknown. */
  lemma TsShape(n: nat, M0: seq<seq<real>>, log: seq<Record>, x: seq<real>)
    requires Logged(n, M0, log) && |log| == 1 + SwapCount(log) + Reductions(n, n) && |x| == n
    ensures NumberedFromOne(TsSolution(log, x).steps)
    ensures 2 * |TsSolution(log, x).steps| == 4 + 2 * SwapCount(log) + n * (n - 1)
    ensures TsSolution(log, x).steps[0].calculation == Matrix(M0)
    ensures TsSolution(log, x).steps[0].description == Lit(InitialDescription)
    ensures |TsSolution(log, x).iterationTable| == n + 1
  {
    ReductionsClosedForm(n, n);
    var s := TsSolution(log, x).steps;
    var recorded := RecordedSteps(log, Description);
    forall k | 0 <= k < |s|
      ensures s[k].stepNumber == k + 1
    {
      if k < |log| {
        assert s[k] == recorded[k];
      }
    }
  }

  // ---------------------------------------------------------------------
  // algorithms/gauss_elimination.js: snapshots of the matrix

  const JsInitialDescription: string := "Initial augmented matrix:"

  /** The JavaScript texts: the same as the TypeScript ones but for the
      initial record; the factor, which is shown with toFixed(3) there, is
      kept as a number here. */
  function JsDescription(e: Event): Text
  {
    if e.Initial? then Lit(JsInitialDescription) else Description(e)
  }

  /** gaussElimination (JavaScript): the solution and a snapshot per record,
      or the error it throws, as decided by the finished log. */
  method GaussEliminationJs(A: seq<seq<real>>, b: seq<real>)
    returns (r: Result<JsResult>, ghost log: seq<Record>, ghost reduced: seq<seq<real>>)
    ensures !ValidSystem(A, b) <==> r == Err(InvalidMatrix)
    ensures ValidSystem(A, b) ==>
      Logged(|A|, Augment(A, b), log) && Finished(|A|, log[|log| - 1]) && (r.Ok? <==> Done(|A|, log[|log| - 1]))
    ensures ValidSystem(A, b) && r.Err? ==>
      r.error == SingularMatrix && reduced == log[|log| - 1].matrix && IsAugmented(reduced, |A|) && Stalled(reduced, |A|)
    ensures ValidSystem(A, b) && r.Ok? ==>
      |log| == 1 + SwapCount(log) + Reductions(|A|, |A|) &&
      r.value.steps == Snapshots(log, JsDescription) && r.value.steps[0].matrix == Augment(A, b) &&
      |r.value.solution| == |A| && MatVec(A, r.value.solution) == b &&
      forall y :: |y| == |A| && MatVec(A, y) == b ==> y == r.value.solution
  {
    var x, steps, red := Solve(A, b);
    log, reduced := steps, red;
    if x.Err? {
      return Err(x.error), log, reduced;
    }
    r := Ok(JsResult(x.value, Snapshots(steps, JsDescription)));
  }
}
