/** Gauss-Jordan elimination with partial pivoting, as gauss-jordan.ts and
    algorithms/gauss_jordan.js perform it: for each column, swap up the
    pivot row, stop on a pivot below the threshold, divide the pivot row by
    its pivot, and clear the column in every other row; the last column is
    then the solution. */
module GaussJordan {
  import opened Outcomes
  import opened Utils
  import opened LinearAlgebra

  // ---------------------------------------------------------------------
  // What a correct log is

  /** The row cleared last before row r in column p: the largest row below r
      other than p, or -1 when there is none. */
  function PreviousOther(p: nat, r: nat): (q: int)
    ensures -1 <= q < r && q != p && (q < r - 1 ==> r - 1 == p)
  {
    if r - 1 == p then r - 2 else r - 1
  }

  /** prev is the record after which row r of column p is cleared (or, for
      r == n, after which column p is complete): the division of row p when
      no other row comes before r, the clearing of the row before otherwise. */
  predicate ClearedBefore(prev: Record, p: nat, r: nat)
  {
    if PreviousOther(p, r) < 0 then prev.event == Normalize(p)
    else prev.event.Eliminate? && prev.event.pivot == p && prev.event.row == PreviousOther(p, r)
  }

  /** The pivot search of column p comes right after prev: p is 0 and prev
      is the initial record, or column p - 1 is complete. */
  predicate Opens(n: nat, prev: Record, p: nat)
  {
    p < n && if p == 0 then prev.event.Initial? else ClearedBefore(prev, p - 1, n)
  }

  /** After prev, the pivot of column p is in place: the search of column p
      found row p itself, or prev is the swap it asked for. */
  predicate PivotReady(n: nat, prev: Record, p: nat)
    requires IsAugmented(prev.matrix, n)
  {
    p < n &&
    ((Opens(n, prev, p) && IsPivotRow(prev.matrix, n, p, p)) || (prev.event.Swap? && prev.event.pivot == p))
  }

  /** rec is the record Gauss-Jordan elimination makes right after prev, in
      the program's order: the swap a column's pivot search asks for, when it
      finds a row other than p; once the pivot is in place and reaches the
      threshold, the division of row p by it; then the subtraction of M[r][p]
      times row p from every other row r = 0, 1, ..., n - 1 in turn, all
      from column p on. */
  predicate Follows(n: nat, prev: Record, rec: Record)
    requires IsAugmented(prev.matrix, n)
  {
    var M := prev.matrix;
    match rec.event
    case Swap(p, q) => Opens(n, prev, p) && p != q && IsPivotRow(M, n, p, q) && rec.matrix == Swapped(M, p, q)
    case Normalize(p) =>
      PivotReady(n, prev, p) && Abs(M[p][p]) >= NearZero && rec.matrix == RowScaled(M, p, M[p][p], p)
    case Eliminate(p, r, factor) =>
      p < n && r < n && r != p && ClearedBefore(prev, p, r) &&
      factor == M[r][p] && rec.matrix == RowReduced(M, r, p, factor, p)
    case _ => false
  }

  predicate Linked(n: nat, log: seq<Record>, k: int)
    requires 0 < k < |log| && IsAugmented(log[k - 1].matrix, n)
  {
    Follows(n, log[k - 1], log[k])
  }

  /** The log starts with the initial matrix M0 and each later record
      follows the one before. */
  predicate Logged(n: nat, M0: seq<seq<real>>, log: seq<Record>)
  {
    |log| > 0 && log[0] == Record(Initial, M0) &&
    (forall k :: 0 <= k < |log| ==> IsAugmented(log[k].matrix, n)) &&
    (forall k :: 0 < k < |log| ==> Linked(n, log, k))
  }

  /** After last, elimination stops on column p: its pivot is in place and
      below the threshold. */
  predicate Blocked(n: nat, last: Record, p: nat)
    requires IsAugmented(last.matrix, n)
  {
    PivotReady(n, last, p) && Abs(last.matrix[p][p]) < NearZero
  }

  /** After last, elimination is over: the last column is complete. */
  predicate Done(n: nat, last: Record)
  {
    if n == 0 then last.event.Initial? else ClearedBefore(last, n - 1, n)
  }

  /** No record follows last: elimination ended, solved or singular. */
  ghost predicate Finished(n: nat, last: Record)
    requires IsAugmented(last.matrix, n)
  {
    Done(n, last) || exists p: nat :: p < n && Blocked(n, last, p)
  }

  lemma LoggedExtended(n: nat, M0: seq<seq<real>>, log: seq<Record>, rec: Record)
    requires Logged(n, M0, log) && IsAugmented(rec.matrix, n)
    requires Follows(n, log[|log| - 1], rec)
    ensures Logged(n, M0, log + [rec])
  {
    var log' := log + [rec];
    forall k | 0 < k < |log'|
      ensures Linked(n, log', k)
    {
      if k < |log| {
        assert Linked(n, log, k);
      }
    }
  }

  // ---------------------------------------------------------------------
  // The log is determined by the matrix it starts from

  /** Distinct rows other than p have distinct predecessors. */
  lemma PreviousOtherInjective(p: nat, r: nat, r': nat)
    requires r != p && r' != p && PreviousOther(p, r) == PreviousOther(p, r')
    ensures r == r'
  {
  }

  /** Which row (and column) comes next is read off the record. */
  lemma ClearedBeforeUnique(prev: Record, p: nat, r: nat, p': nat, r': nat)
    requires r != p && r' != p' && ClearedBefore(prev, p, r) && ClearedBefore(prev, p', r')
    ensures p == p' && r == r'
  {
    assert p == p';
    PreviousOtherInjective(p, r, r');
  }

  /** Which column's pivot is in place is read off the record. */
  lemma PivotReadyColumn(n: nat, prev: Record, p: nat, p': nat)
    requires IsAugmented(prev.matrix, n) && PivotReady(n, prev, p) && PivotReady(n, prev, p')
    ensures p == p'
  {
  }

  /** At most one record follows any record. */
  lemma FollowsUnique(n: nat, prev: Record, rec: Record, rec': Record)
    requires IsAugmented(prev.matrix, n) && Follows(n, prev, rec) && Follows(n, prev, rec')
    ensures rec == rec'
  {
    var M := prev.matrix;
    forall p, q | Opens(n, prev, p) && IsPivotRow(M, n, p, q) && PivotReady(n, prev, p)
      ensures q == p
    {
      PivotRowUnique(M, n, p, q, p);
    }
    forall p, r, p', r' | r != p && r' != p' && ClearedBefore(prev, p, r) && ClearedBefore(prev, p', r')
      ensures p == p' && r == r'
    {
      ClearedBeforeUnique(prev, p, r, p', r');
    }
  }

  /** Nothing follows a record after which elimination is over. */
  lemma NothingFollowsFinished(n: nat, last: Record, rec: Record)
    requires IsAugmented(last.matrix, n) && Finished(n, last)
    ensures !Follows(n, last, rec)
  {
    var M := last.matrix;
    forall p, r, p', r' | r != p && r' != p' && ClearedBefore(last, p, r) && ClearedBefore(last, p', r')
      ensures p == p' && r == r'
    {
      ClearedBeforeUnique(last, p, r, p', r');
    }
    if !Done(n, last) {
      var p: nat :| p < n && Blocked(n, last, p);
      forall q | Opens(n, last, p) && IsPivotRow(M, n, p, q)
        ensures q == p
      {
        PivotRowUnique(M, n, p, q, p);
      }
    }
  }

  /** A finished elimination is either solved or singular, not both. */
  lemma BlockedNotDone(n: nat, last: Record, p: nat)
    requires IsAugmented(last.matrix, n) && p < n && Blocked(n, last, p)
    ensures Finished(n, last) && !Done(n, last)
  {
    forall p, r, p', r' | r != p && r' != p' && ClearedBefore(last, p, r) && ClearedBefore(last, p', r')
      ensures p == p' && r == r'
    {
      ClearedBeforeUnique(last, p, r, p', r');
    }
  }

  lemma {:induction false} LogsAgree(n: nat, M0: seq<seq<real>>, log: seq<Record>, log': seq<Record>, k: nat)
    requires Logged(n, M0, log) && Logged(n, M0, log') && k <= |log| && k <= |log'|
    ensures log[..k] == log'[..k]
  {
    if k > 1 {
      LogsAgree(n, M0, log, log', k - 1);
      assert log[k - 2] == log'[k - 2] by { assert log[..k - 1][k - 2] == log'[..k - 1][k - 2]; }
      assert Linked(n, log, k - 1) && Linked(n, log', k - 1);
      FollowsUnique(n, log[k - 2], log[k - 1], log'[k - 1]);
      assert log[..k] == log[..k - 1] + [log[k - 1]];
      assert log'[..k] == log'[..k - 1] + [log'[k - 1]];
    } else if k == 1 {
      assert log[..1] == [log[0]] && log'[..1] == [log'[0]];
    }
  }

  /** A log that has finished is no proper prefix of another log. */
  lemma FinishedIsMaximal(n: nat, M0: seq<seq<real>>, log: seq<Record>, log': seq<Record>)
    requires Logged(n, M0, log) && Finished(n, log[|log| - 1]) && Logged(n, M0, log')
    ensures |log'| <= |log|
  {
    if |log| < |log'| {
      LogsAgree(n, M0, log, log', |log|);
      var k := |log|;
      assert log[k - 1] == log'[k - 1] by { assert log[..k][k - 1] == log'[..k][k - 1]; }
      assert Linked(n, log', k);
      NothingFollowsFinished(n, log[k - 1], log'[k]);
    }
  }

  /** Gauss-Jordan elimination is deterministic: two finished logs from the
      same matrix are the same log, so the swaps, divisions and subtractions
      recorded and whether the matrix is reported singular are fixed by M0. */
  lemma LogUnique(n: nat, M0: seq<seq<real>>, log: seq<Record>, log': seq<Record>)
    requires Logged(n, M0, log) && Finished(n, log[|log| - 1])
    requires Logged(n, M0, log') && Finished(n, log'[|log'| - 1])
    ensures log == log'
  {
    FinishedIsMaximal(n, M0, log, log');
    FinishedIsMaximal(n, M0, log', log);
    LogsAgree(n, M0, log, log', |log|);
    assert log == log[..|log|] && log' == log'[..|log'|];
  }

  // ---------------------------------------------------------------------
  // What the matrix looks like at a stop

  /** Elimination stopped at column p: the columns before p are columns of
      the identity, and no entry of column p at or below the diagonal
      reaches the threshold. */
  predicate Stuck(M: seq<seq<real>>, n: nat, p: nat)
    requires IsAugmented(M, n)
  {
    p < n && UnitColumns(M, n, p) && forall i :: p <= i < n ==> Abs(M[i][p]) < NearZero
  }

  ghost predicate Stalled(M: seq<seq<real>>, n: nat)
    requires IsAugmented(M, n)
  {
    exists p :: Stuck(M, n, p)
  }

  /** The state after the columns before p are done: they are columns of the
      identity, M has the solutions of M0, is the last matrix of a correct
      log, and the search of column p comes next (or, for p == n,
      elimination is over). */
  ghost predicate Eliminated(n: nat, M0: seq<seq<real>>, log: seq<Record>, M: seq<seq<real>>, p: nat)
  {
    IsAugmented(M, n) && p <= n && UnitColumns(M, n, p) &&
    SameSolutions(M, M0, n) && Logged(n, M0, log) && log[|log| - 1].matrix == M &&
    (p < n ==> Opens(n, log[|log| - 1], p)) && (p == n ==> Done(n, log[|log| - 1]))
  }

  /** The state in column p once its pivot is in place: the largest entry of
      the column at or below the diagonal is on it. */
  ghost predicate Pivoted(n: nat, M0: seq<seq<real>>, log: seq<Record>, M: seq<seq<real>>, p: nat)
  {
    IsAugmented(M, n) && p < n && UnitColumns(M, n, p) &&
    (forall i :: p <= i < n ==> Abs(M[i][p]) <= Abs(M[p][p])) &&
    SameSolutions(M, M0, n) && Logged(n, M0, log) && log[|log| - 1].matrix == M &&
    PivotReady(n, log[|log| - 1], p)
  }

  /** The state inside column p once the pivot row is normalised and the rows
      before r (other than p) are cleared in column p. */
  ghost predicate Clearing(n: nat, M0: seq<seq<real>>, log: seq<Record>, M: seq<seq<real>>, p: nat, r: nat)
  {
    IsAugmented(M, n) && p < n && r <= n && UnitColumns(M, n, p) && M[p][p] == 1.0 &&
    (forall i :: 0 <= i < r && i != p ==> M[i][p] == 0.0) &&
    SameSolutions(M, M0, n) && Logged(n, M0, log) && log[|log| - 1].matrix == M &&
    ClearedBefore(log[|log| - 1], p, r)
  }

  /** The state at a singular stop in column p. */
  ghost predicate StoppedAt(n: nat, M0: seq<seq<real>>, log: seq<Record>, M: seq<seq<real>>, p: nat)
  {
    IsAugmented(M, n) && Stuck(M, n, p) && SameSolutions(M, M0, n) &&
    Logged(n, M0, log) && log[|log| - 1].matrix == M && Blocked(n, log[|log| - 1], p)
  }

  // ---------------------------------------------------------------------
  // Facts about one step

  /** The swap the pivot search asks for is the record that follows; it
      keeps the identity columns (the rows swapped are both zero there) and
      leaves the largest entry of column p on the diagonal. */
  lemma PivotStep(n: nat, M0: seq<seq<real>>, log: seq<Record>, M: seq<seq<real>>, p: nat, q: nat)
    requires Eliminated(n, M0, log, M, p) && p < n && IsPivotRow(M, n, p, q) && p != q
    ensures Pivoted(n, M0, log + [Record(Swap(p, q), Swapped(M, p, q))], Swapped(M, p, q), p)
    ensures SwapCount(log + [Record(Swap(p, q), Swapped(M, p, q))]) == SwapCount(log) + 1
  {
    var N := Swapped(M, p, q);
    forall i, c | 0 <= i < n && 0 <= c < p
      ensures N[i][c] == if i == c then 1.0 else 0.0
    {
      assert N[i] == M[if i == p then q else if i == q then p else i];
    }
    PivotOnDiagonal(M, n, p, q);
    SwapKeepsSolutions(M, p, q, n);
    LoggedExtended(n, M0, log, Record(Swap(p, q), N));
    SwapCountAppend(log, Record(Swap(p, q), N));
  }

  /** When the search finds row p itself, nothing is recorded and the pivot
      is already in place. */
  lemma PivotInPlace(n: nat, M0: seq<seq<real>>, log: seq<Record>, M: seq<seq<real>>, p: nat)
    requires Eliminated(n, M0, log, M, p) && p < n && IsPivotRow(M, n, p, p)
    ensures Pivoted(n, M0, log, M, p)
  {
  }

  /** After the pivot search and swap, the diagonal entry is the largest of
      its column at or below the diagonal. */
  lemma PivotOnDiagonal(M: seq<seq<real>>, n: nat, p: nat, q: nat)
    requires IsAugmented(M, n) && p < n && IsPivotRow(M, n, p, q)
    ensures forall i :: p <= i < n ==> Abs(Swapped(M, p, q)[i][p]) <= Abs(Swapped(M, p, q)[p][p])
  {
    var N := Swapped(M, p, q);
    forall i | p <= i < n
      ensures Abs(N[i][p]) <= Abs(N[p][p])
    {
      assert N[i] == M[if i == p then q else if i == q then p else i];
    }
  }

  /** A pivot in place below the threshold: the whole column is below it and
      elimination stops there. */
  lemma StuckColumn(n: nat, M0: seq<seq<real>>, log: seq<Record>, M: seq<seq<real>>, p: nat)
    requires Pivoted(n, M0, log, M, p) && Abs(M[p][p]) < NearZero
    ensures StoppedAt(n, M0, log, M, p)
  {
  }

  /** The record of dividing row p by its pivot. */
  function Normalization(M: seq<seq<real>>, n: nat, p: nat): Record
    requires IsAugmented(M, n) && p < n && M[p][p] != 0.0
  {
    Record(Normalize(p), RowScaled(M, p, M[p][p], p))
  }

  /** Dividing the pivot row by a usable pivot is the record that follows
      and starts the clearing of column p: the pivot becomes 1. */
  lemma NormalizationStep(n: nat, M0: seq<seq<real>>, log: seq<Record>, M: seq<seq<real>>, p: nat)
    requires Pivoted(n, M0, log, M, p) && Abs(M[p][p]) >= NearZero
    ensures M[p][p] != 0.0
    ensures Clearing(n, M0, log + [Normalization(M, n, p)], Normalization(M, n, p).matrix, p, 0)
    ensures SwapCount(log + [Normalization(M, n, p)]) == SwapCount(log)
  {
    var rec := Normalization(M, n, p);
    var N := rec.matrix;
    assert N[p][p] == M[p][p] / M[p][p] == 1.0;
    forall i, c | 0 <= i < n && 0 <= c < p
      ensures N[i][c] == if i == c then 1.0 else 0.0
    {
      assert N[i][c] == M[i][c];
    }
    ScaleKeepsSolutions(M, p, M[p][p], p, n);
    LoggedExtended(n, M0, log, rec);
    SwapCountAppend(log, rec);
  }

  /** The record of clearing column p of row r. */
  function Clearance(M: seq<seq<real>>, n: nat, p: nat, r: nat): Record
    requires IsAugmented(M, n) && p < n && r < n && r != p
  {
    Record(Eliminate(p, r, M[r][p]), RowReduced(M, r, p, M[r][p], p))
  }

  /** Clearing column p of the next row is the record that follows, and
      keeps the state one row on. */
  lemma ClearanceStep(n: nat, M0: seq<seq<real>>, log: seq<Record>, M: seq<seq<real>>, p: nat, r: nat)
    requires Clearing(n, M0, log, M, p, r) && r < n && r != p
    ensures Clearing(n, M0, log + [Clearance(M, n, p, r)], Clearance(M, n, p, r).matrix, p, r + 1)
    ensures SwapCount(log + [Clearance(M, n, p, r)]) == SwapCount(log)
  {
    var rec := Clearance(M, n, p, r);
    ClearedShape(M, n, p, r);
    ReduceKeepsSolutions(M, r, p, M[r][p], p, n);
    LoggedExtended(n, M0, log, rec);
    SwapCountAppend(log, rec);
  }

  /** The shape part of the step above. */
  lemma ClearedShape(M: seq<seq<real>>, n: nat, p: nat, r: nat)
    requires IsAugmented(M, n) && p < n && r < n && r != p
    requires UnitColumns(M, n, p) && M[p][p] == 1.0
    requires forall i :: 0 <= i < r && i != p ==> M[i][p] == 0.0
    ensures IsAugmented(Clearance(M, n, p, r).matrix, n)
    ensures UnitColumns(Clearance(M, n, p, r).matrix, n, p)
    ensures Clearance(M, n, p, r).matrix[p] == M[p]
    ensures forall i :: 0 <= i < r + 1 && i != p ==> Clearance(M, n, p, r).matrix[i][p] == 0.0
    ensures forall c :: 0 <= c < p ==> M[p][c] == 0.0
  {
    var N := Clearance(M, n, p, r).matrix;
    assert N[r] == Reduced(M[r], M[p], M[r][p], p);
    assert N[r][p] == M[r][p] - M[r][p] * 1.0;
    forall i, c | 0 <= i < n && 0 <= c < p
      ensures N[i][c] == if i == c then 1.0 else 0.0
    {
      assert N[i][c] == M[i][c];
    }
  }

  /** Column p cleared in every row other than p: it is a unit column, and
      the search of column p + 1 comes next, or elimination is over. */
  lemma FinishColumn(n: nat, M0: seq<seq<real>>, log: seq<Record>, M: seq<seq<real>>, p: nat)
    requires Clearing(n, M0, log, M, p, n)
    ensures Eliminated(n, M0, log, M, p + 1)
  {
  }

  // ---------------------------------------------------------------------
  // The engine

  /** `for row in 0 .. n-1, row != pivot`: clear column p of every other
      row, recording each subtraction. */
  method ClearColumn(aug: array<seq<real>>, n: nat, p: nat, ghost M0: seq<seq<real>>, log0: seq<Record>)
    returns (log: seq<Record>)
    requires aug.Length == n && Clearing(n, M0, log0, aug[..], p, 0)
    modifies aug
    ensures Eliminated(n, M0, log, aug[..], p + 1)
    ensures |log| == |log0| + (n - 1) && SwapCount(log) == SwapCount(log0)
  {
    log := log0;
    var row := 0;
    while row < n
      invariant row <= n && Clearing(n, M0, log, aug[..], p, row)
      invariant |log| == |log0| + (if row <= p then row else row - 1) && SwapCount(log) == SwapCount(log0)
    {
      if row != p {
        ghost var M := aug[..];
        ClearanceStep(n, M0, log, M, p, row);
        var factor := aug[row][p];
        ReduceRow(aug, row, p, factor, p);
        var rec := Record(Eliminate(p, row, factor), aug[..]);
        assert rec == Clearance(M, n, p, row);
        log := log + [rec];
      }
      row := row + 1;
    }
    FinishColumn(n, M0, log, aug[..], p);
  }

  /** One pass of the outer loop: pick the pivot row, swap it up and record
      the swap when it is another row, stop if the pivot is below the
      threshold, otherwise normalise the pivot row and clear the column. */
  method EliminateColumn(aug: array<seq<real>>, n: nat, p: nat, ghost M0: seq<seq<real>>, log0: seq<Record>)
    returns (singular: bool, log: seq<Record>)
    requires aug.Length == n && p < n && Eliminated(n, M0, log0, aug[..], p)
    modifies aug
    ensures singular ==> StoppedAt(n, M0, log, aug[..], p)
    ensures !singular ==> Eliminated(n, M0, log, aug[..], p + 1)
    ensures |log| - SwapCount(log) == |log0| - SwapCount(log0) + (if singular then 0 else n)
  {
    log := log0;
    var maxRow := FindPivot(aug, n, p);
    ghost var M := aug[..];
    if maxRow != p {
      PivotStep(n, M0, log, M, p, maxRow);
      SwapRows(aug, p, maxRow);
      var rec := Record(Swap(p, maxRow), aug[..]);
      log := log + [rec];
    } else {
      PivotInPlace(n, M0, log, M, p);
    }
    if Abs(aug[p][p]) < NearZero {
      StuckColumn(n, M0, log, aug[..], p);
      return true, log;
    }
    ghost var S := aug[..];
    NormalizationStep(n, M0, log, S, p);
    var pivotElement := aug[p][p];
    ScaleRow(aug, p, pivotElement, p);
    var rec := Record(Normalize(p), aug[..]);
    assert rec == Normalization(S, n, p);
    log := log + [rec];
    log := ClearColumn(aug, n, p, M0, log);
    singular := false;
  }

  /** What the elimination ends with: M0's finished log, reaching a matrix M
      with the solutions of M0; the identity in the first n columns when no
      column is reported, stuck on the reported column otherwise. */
  ghost predicate Concluded(n: nat, M0: seq<seq<real>>, log: seq<Record>, M: seq<seq<real>>, singularAt: Option<nat>)
  {
    IsAugmented(M, n) && SameSolutions(M, M0, n) &&
    Logged(n, M0, log) && log[|log| - 1].matrix == M && Finished(n, log[|log| - 1]) &&
    (singularAt.None? <==> Done(n, log[|log| - 1])) &&
    (singularAt.None? ==> UnitColumns(M, n, n) && |log| == 1 + SwapCount(log) + n * n) &&
    (singularAt.Some? ==> singularAt.value < n && Blocked(n, log[|log| - 1], singularAt.value) && Stuck(M, n, singularAt.value))
  }

  lemma SolvedConcluded(n: nat, M0: seq<seq<real>>, log: seq<Record>, M: seq<seq<real>>)
    requires Eliminated(n, M0, log, M, n) && |log| == 1 + SwapCount(log) + n * n
    ensures Concluded(n, M0, log, M, None)
  {
  }

  lemma SingularConcluded(n: nat, M0: seq<seq<real>>, log: seq<Record>, M: seq<seq<real>>, p: nat)
    requires p < n && StoppedAt(n, M0, log, M, p)
    ensures Concluded(n, M0, log, M, Some(p))
  {
    BlockedNotDone(n, log[|log| - 1], p);
  }

  /** The outer loop `for pivot in 0 .. n-1`. The log it returns is the
      finished log of M0, and it reports a singular column exactly when that
      log ends blocked there. On success the first n columns are the
      identity; either way the matrix has the solutions of M0. */
  method Reduce(aug: array<seq<real>>, n: nat) returns (singularAt: Option<nat>, log: seq<Record>)
    requires aug.Length == n && IsAugmented(aug[..], n)
    modifies aug
    ensures Concluded(n, old(aug[..]), log, aug[..], singularAt)
  {
    ghost var M0 := aug[..];
    log := [Record(Initial, aug[..])];
    var pivot := 0;
    while pivot < n
      invariant Eliminated(n, M0, log, aug[..], pivot)
      invariant |log| == 1 + SwapCount(log) + pivot * n
    {
      var singular;
      singular, log := EliminateColumn(aug, n, pivot, M0, log);
      if singular {
        SingularConcluded(n, M0, log, aug[..], pivot);
        return Some(pivot), log;
      }
      assert (pivot + 1) * n == pivot * n + n;
      pivot := pivot + 1;
    }
    singularAt := None;
    SolvedConcluded(n, M0, log, aug[..]);
  }

  /** In a system whose first n columns are the identity, every solution is
      the last column. */
  lemma IdentityForces(M: seq<seq<real>>, n: nat, y: seq<real>)
    requires IsAugmented(M, n) && UnitColumns(M, n, n) && |y| == n && Solves(M, y)
    ensures y == LastColumn(M, n)
  {
    forall i | 0 <= i < n
      ensures y[i] == M[i][n]
    {
      assert RowHolds(M[i], y);
      DotSplit(M[i], y, 0, i, n);
      DotSplit(M[i], y, i, i + 1, n);
      DotOfZeros(M[i], y, 0, i);
      DotOfZeros(M[i], y, i + 1, n);
      DotSingle(M[i], y, i);
    }
  }

  /** The whole computation both versions share: validate, augment, reduce,
      read off the last column. `log` is the finished log of [A | b] and
      `reduced` the matrix it ends with; a solution is returned exactly when
      that log completes every column. */
  method Solve(A: seq<seq<real>>, b: seq<real>)
    returns (r: Result<seq<real>>, log: seq<Record>, ghost reduced: seq<seq<real>>)
    ensures !ValidSystem(A, b) <==> r == Err(InvalidMatrix)
    ensures ValidSystem(A, b) ==>
      IsAugmented(reduced, |A|) && Logged(|A|, Augment(A, b), log) && log[|log| - 1].matrix == reduced &&
      Finished(|A|, log[|log| - 1]) && (r.Ok? <==> Done(|A|, log[|log| - 1])) &&
      SameSolutions(reduced, Augment(A, b), |A|)
    ensures ValidSystem(A, b) && r.Ok? ==>
      UnitColumns(reduced, |A|, |A|) && |log| == 1 + SwapCount(log) + |A| * |A| &&
      r.value == LastColumn(reduced, |A|) && MatVec(A, r.value) == b &&
      forall y :: |y| == |A| && MatVec(A, y) == b ==> y == r.value
    ensures ValidSystem(A, b) && r.Err? ==> r.error == SingularMatrix && Stalled(reduced, |A|)
  {
    if !ValidSystem(A, b) {
      return Err(InvalidMatrix), [], [];
    }
    var n := |A|;
    var aug := NewAugmented(A, b);
    var singularAt;
    singularAt, log := Reduce(aug, n);
    reduced := aug[..];
    if singularAt.Some? {
      assert Stuck(reduced, n, singularAt.value);
      return Err(SingularMatrix), log, reduced;
    }
    var x := LastColumn(aug[..], n);
    IdentitySolved(reduced, n);
    assert Solves(Augment(A, b), x);
    AugmentedSolutions(A, b, x);
    forall y | |y| == n && MatVec(A, y) == b
      ensures y == x
    {
      AugmentedSolutions(A, b, y);
      IdentityForces(reduced, n, y);
    }
    r := Ok(x);
  }

  /** For A = [[1e-11, 1], [1, 1]] and b = [1, 2] the pivot of column 0 is
      tiny but not the largest: the finished log begins by swapping the rows,
      not by dividing row 1 by 1e-11. */
  lemma SmallPivotIsSwapped(log: seq<Record>)
    requires Logged(2, Augment([[1.0e-11, 1.0], [1.0, 1.0]], [1.0, 2.0]), log) && Finished(2, log[|log| - 1])
    ensures |log| > 1 && log[1].event == Swap(0, 1)
  {
    var M0 := Augment([[1.0e-11, 1.0], [1.0, 1.0]], [1.0, 2.0]);
    assert M0[0] == [1.0e-11, 1.0, 1.0] && M0[1] == [1.0, 1.0, 2.0];
    assert !IsPivotRow(M0, 2, 0, 0) && IsPivotRow(M0, 2, 0, 1);
    forall p: nat | p < 2
      ensures !Blocked(2, Record(Initial, M0), p)
    {
    }
    assert !Done(2, Record(Initial, M0));
    assert Linked(2, log, 1);
  }

  // ---------------------------------------------------------------------
  // gauss-jordan.ts: the recorded steps and the table

  const Title: string := "Gauss-Jordan Method Solution"
  const EliminateDescription: string := "Eliminated x{} from equation {}"
  const FinalDescription: string := "Final Solution (reduced row echelon form)"

  /** The description recordStep is given for each operation, its numbers
      shown 1-based; both versions use the same texts. */
  function Description(e: Event): Text
  {
    match e
    case Initial => Lit(InitialDescription)
    case Swap(p, q) => Fill(SwapDescription, [(p + 1) as real, (q + 1) as real])
    case Normalize(p) => Fill(NormalizeDescription, [(p + 1) as real])
    case Eliminate(p, row, _) => Fill(EliminateDescription, [(p + 1) as real, (row + 1) as real])
  }

  function TsSolution(log: seq<Record>, solution: seq<real>): LinearSolution
  {
    LinearSolution(Title, RecordedSteps(log, Description) + [FinalStep(|log| + 1, FinalDescription, solution)],
                   [TableHeader] + SolutionRows(solution), Fill(AnswerTemplate, solution), solution)
  }

  /** gaussJordan: the solution with its steps, or the error it throws. The
      ghost `log` is the finished log of [A | b], which LogUnique makes the
      only one; the solver throws "singular" exactly when it ends blocked. */
  method GaussJordanTs(A: seq<seq<real>>, b: seq<real>)
    returns (r: Result<LinearSolution>, ghost log: seq<Record>, ghost reduced: seq<seq<real>>)
    ensures !ValidSystem(A, b) <==> r == Err(InvalidMatrix)
    ensures ValidSystem(A, b) ==>
      Logged(|A|, Augment(A, b), log) && Finished(|A|, log[|log| - 1]) && (r.Ok? <==> Done(|A|, log[|log| - 1]))
    ensures ValidSystem(A, b) && r.Err? ==>
      r.error == SingularMatrix && reduced == log[|log| - 1].matrix && IsAugmented(reduced, |A|) && Stalled(reduced, |A|)
    ensures ValidSystem(A, b) && r.Ok? ==>
      |log| == 1 + SwapCount(log) + |A| * |A| &&
      r.value == TsSolution(log, r.value.solution) &&
      |r.value.solution| == |A| && MatVec(A, r.value.solution) == b &&
      forall y :: |y| == |A| && MatVec(A, y) == b ==> y == r.value.solution
  {
    var x, steps, red := Solve(A, b);
    log, reduced := steps, red;
    if x.Err? {
      return Err(x.error), log, reduced;
    }
    r := Ok(TsSolution(steps, x.value));
  }

  /** The shape of a returned solution: steps numbered 1, 2, ... with the
      initial matrix first and the final answer last, one step per swap, per
      normalisation and per subtraction in between, and a table with one row
      per unknown. */
  lemma TsShape(n: nat, M0: seq<seq<real>>, log: seq<Record>, x: seq<real>)
    requires Logged(n, M0, log) && |log| == 1 + SwapCount(log) + n * n && |x| == n
    ensures NumberedFromOne(TsSolution(log, x).steps)
    ensures |TsSolution(log, x).steps| == 2 + SwapCount(log) + n * n
    ensures TsSolution(log, x).steps[0].calculation == Matrix(M0)
    ensures TsSolution(log, x).steps[0].description == Lit(InitialDescription)
    ensures |TsSolution(log, x).iterationTable| == n + 1
  {
    var s := TsSolution(log, x).steps;
    var recorded := RecordedSteps(log, Description);
    forall k | 0 <= k < |s|
      ensures s[k].stepNumber == k + 1
    {
      if k < |log| {
        assert s[k] == recorded[k];
      }
    }
  }

  // ---------------------------------------------------------------------
  // algorithms/gauss_jordan.js: snapshots of the matrix

  /** gaussJordan (JavaScript): the solution and a snapshot per record, or
      the error it throws, as decided by the finished log. */
  method GaussJordanJs(A: seq<seq<real>>, b: seq<real>)
    returns (r: Result<JsResult>, ghost log: seq<Record>, ghost reduced: seq<seq<real>>)
    ensures !ValidSystem(A, b) <==> r == Err(InvalidMatrix)
    ensures ValidSystem(A, b) ==>
      Logged(|A|, Augment(A, b), log) && Finished(|A|, log[|log| - 1]) && (r.Ok? <==> Done(|A|, log[|log| - 1]))
    ensures ValidSystem(A, b) && r.Err? ==>
      r.error == SingularMatrix && reduced == log[|log| - 1].matrix && IsAugmented(reduced, |A|) && Stalled(reduced, |A|)
    ensures ValidSystem(A, b) && r.Ok? ==>
      |log| == 1 + SwapCount(log) + |A| * |A| &&
      r.value.steps == Snapshots(log, Description) && r.value.steps[0].matrix == Augment(A, b) &&
      |r.value.solution| == |A| && MatVec(A, r.value.solution) == b &&
      forall y :: |y| == |A| && MatVec(A, y) == b ==> y == r.value.solution
  {
    var x, steps, red := Solve(A, b);
    log, reduced := steps, red;
    if x.Err? {
      return Err(x.error), log, reduced;
    }
    r := Ok(JsResult(x.value, Snapshots(steps, Description)));
  }
}
