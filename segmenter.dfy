/** Run segmentation: the trial stream is cut into runs wherever the presentation clock
    restarts, i.e. wherever an onset is strictly earlier than the onset of the row before it.
    Also the per-run views of the table: the run ids in encounter order (`unique()`) and the
    rows of one run (`data[data['Run'] == run]`). */
module Segmenter {
  import opened Wrappers
  import opened Timestamps

  /** The reset test of the loop at row i: the onset is strictly less than the previous
      row's. As with NaN, a comparison involving a missing onset is false. */
  predicate ClockReset(s: seq<Cell>, i: nat)
    requires 0 < i < |s|
  {
    s[i].Some? && s[i - 1].Some? && s[i].value < s[i - 1].value
  }

  /** The value of the run counter once the loop has handled row i. */
  function RunAt(s: seq<Cell>, i: nat): nat
    requires i < |s|
  {
    if i == 0 then 1
    else if ClockReset(s, i) then RunAt(s, i - 1) + 1
    else RunAt(s, i - 1)
  }

  /** The Run column: one id per row, row 0 in run 1, and each later row in the run of the
      row before it, or in the next run when the clock reset there. */
  function RunIds(s: seq<Cell>): (r: seq<nat>)
    ensures |r| == |s|
    ensures |s| > 0 ==> r[0] == 1
    ensures forall i :: 0 < i < |s| ==> r[i] == if ClockReset(s, i) then r[i - 1] + 1 else r[i - 1]
  {
    seq(|s|, i requires 0 <= i < |s| => RunAt(s, i))
  }

  /** The rows 1..i at which the clock resets. */
  ghost function Resets(s: seq<Cell>, i: nat): set<nat>
    requires i < |s|
  {
    set k: nat | 0 < k <= i && ClockReset(s, k)
  }

  /** The run id of row i is one more than the number of resets up to row i; for the last
      row this is the number of runs, which is not fixed in advance. */
  lemma {:induction false} RunCountsResets(s: seq<Cell>, i: nat)
    requires i < |s|
    ensures RunIds(s)[i] == 1 + |Resets(s, i)|
  {
    if i == 0 {
      assert Resets(s, 0) == {};
    } else {
      RunCountsResets(s, i - 1);
      if ClockReset(s, i) {
        assert Resets(s, i) == Resets(s, i - 1) + {i};
      } else {
        assert Resets(s, i) == Resets(s, i - 1);
      }
    }
  }

  /** Run ids never decrease, and rise by at most one per row. */
  lemma {:induction false} RunIdsMonotone(s: seq<Cell>, i: nat, j: nat)
    requires i <= j < |s|
    ensures RunIds(s)[i] <= RunIds(s)[j] <= RunIds(s)[i] + (j - i)
  {
    if i < j {
      RunIdsMonotone(s, i, j - 1);
    }
  }

  /** Two rows share a run exactly when the clock does not reset anywhere between them;
      in particular equal onsets never start a new run. */
  lemma {:induction false} SameRunIffNoReset(s: seq<Cell>, i: nat, j: nat)
    requires i <= j < |s|
    ensures RunIds(s)[i] == RunIds(s)[j] <==> forall k :: i < k <= j ==> !ClockReset(s, k)
  {
    if i < j {
      SameRunIffNoReset(s, i, j - 1);
      RunIdsMonotone(s, i, j - 1);
    }
  }

  /** On a forward-filled column, the present onsets of one run form one ascending clock. */
  lemma {:induction false} RunClockAscends(s: seq<Cell>, i: nat, j: nat)
    requires GapsOnlyLeading(s)
    requires i <= j < |s|
    requires RunIds(s)[i] == RunIds(s)[j]
    requires s[i].Some?
    ensures s[j].Some? && s[i].value <= s[j].value
  {
    if i < j {
      RunIdsMonotone(s, i, j - 1);
      RunIdsMonotone(s, j - 1, j);
      RunClockAscends(s, i, j - 1);
    }
  }

  /** The segmentation of the four-onset session [1.0, 2.0, 0.5, 1.5]. */
  lemma ExampleTwoRuns()
    ensures RunIds([Some(1.0), Some(2.0), Some(0.5), Some(1.5)]) == [1, 1, 2, 2]
  {
    var s := [Some(1.0), Some(2.0), Some(0.5), Some(1.5)];
    assert !ClockReset(s, 1) && ClockReset(s, 2) && !ClockReset(s, 3);
  }

  /** Consecutive decreases each open a run of their own, and a missing onset never does. */
  lemma ExampleConsecutiveResets()
    ensures RunIds([Some(3.0), Some(2.0), Some(1.0), None, Some(0.5)]) == [1, 2, 3, 3, 3]
  {
    var s := [Some(3.0), Some(2.0), Some(1.0), None, Some(0.5)];
    assert ClockReset(s, 1) && ClockReset(s, 2) && !ClockReset(s, 3) && !ClockReset(s, 4);
  }

  /** The loop of the segmenter: a fresh Run column set to 1, then rows 1.. in order. */
  method AssignRuns(start: array<Cell>) returns (run: array<int>)
    ensures fresh(run)
    ensures run[..] == RunIds(start[..])
  {
    ghost var s := start[..];
    var n := start.Length;
    run := new int[n](_ => 1);
    var currentRun := 1;
    var row := 1;
    while row < n
      invariant 1 <= row && (n > 0 ==> row <= n)
      invariant start[..] == s
      invariant forall k {:trigger run[k]} :: 0 <= k < row && k < n ==> run[k] == RunAt(s, k)
      invariant n > 0 ==> currentRun == RunAt(s, row - 1)
    {
      if start[row].Some? && start[row - 1].Some? && start[row].value < start[row - 1].value {
        currentRun := currentRun + 1;
      }
      run[row] := currentRun;
      row := row + 1;
    }
    assert forall k :: 0 <= k < run.Length ==> run[..][k] == RunIds(s)[k];
  }

  /** The distinct values of a column in the order they are first met (`unique()`). */
  function Unique(r: seq<int>): (u: seq<int>)
    ensures forall x :: x in u <==> x in r
    ensures forall a, b :: 0 <= a < b < |u| ==> u[a] != u[b]
  {
    if |r| == 0 then []
    else
      var u := Unique(r[..|r| - 1]);
      assert r == r[..|r| - 1] + [r[|r| - 1]];
      if r[|r| - 1] in u then u else u + [r[|r| - 1]]
  }

  /** The ids 1, 2, ..., k in order. */
  function Span(k: nat): (r: seq<int>)
    ensures |r| == k
    ensures forall i :: 0 <= i < k ==> r[i] == i + 1
  {
    seq(k, i => i + 1)
  }

  /** A column of run ids that starts at 1 and at each row stays or goes up by one. */
  ghost predicate Enumerated(r: seq<nat>)
  {
    && |r| > 0
    && r[0] == 1
    && forall i :: 0 < i < |r| ==> r[i] == r[i - 1] || r[i] == r[i - 1] + 1
  }

  /** Every id of an enumerated column lies between 1 and its last id. */
  lemma {:induction false} EnumeratedBounds(r: seq<nat>)
    requires Enumerated(r)
    ensures forall i :: 0 <= i < |r| ==> 1 <= r[i] <= r[|r| - 1]
  {
    if |r| > 1 {
      var p := r[..|r| - 1];
      assert Enumerated(p);
      EnumeratedBounds(p);
    }
  }

  /** `unique()` of a column is `unique()` of all but its last row, extended by the last
      value when that value is new. */
  lemma UniqueSnoc(r: seq<int>)
    requires |r| > 0
    ensures var u := Unique(r[..|r| - 1]);
      Unique(r) == if r[|r| - 1] in u then u else u + [r[|r| - 1]]
  {
  }

  /** The ids 1..m followed by m + 1 are the ids 1..m + 1. */
  lemma SpanSnoc(m: nat)
    ensures m + 1 !in Span(m)
    ensures Span(m) + [m + 1] == Span(m + 1)
  {
  }

  /** The distinct ids of an enumerated column, in encounter order, are 1..K without gaps. */
  lemma {:induction false} UniqueOfEnumerated(r: seq<nat>)
    requires Enumerated(r)
    ensures Unique(r) == Span(r[|r| - 1])
  {
    var n := |r|;
    if n == 1 {
      assert r[..0] == [];
    } else {
      var p := r[..n - 1];
      assert Enumerated(p);
      UniqueOfEnumerated(p);
      UniqueSnoc(r);
      var m := p[n - 2];
      assert p[0] == 1 && 1 in Unique(p);
      if r[n - 1] == m {
        assert Span(m)[m - 1] == m;
      } else {
        SpanSnoc(m);
      }
    }
  }

  /** A segmentation is enumerated, so its runs are exactly 1..K, met in that order, with
      K the run id of the last row. */
  lemma RunIdsAreOneToK(s: seq<Cell>)
    requires |s| > 0
    ensures Enumerated(RunIds(s))
    ensures Unique(RunIds(s)) == Span(RunIds(s)[|s| - 1])
    ensures forall v :: 1 <= v <= RunIds(s)[|s| - 1] <==> v in RunIds(s)
  {
    var r := RunIds(s);
    assert Enumerated(r);
    UniqueOfEnumerated(r);
    EnumeratedBounds(r);
    forall v | 1 <= v <= r[|s| - 1]
      ensures v in r
    {
      assert Span(r[|s| - 1])[v - 1] == v;
    }
  }

  /** The rows whose run id is k, in their original order (`data[data['Run'] == run]`). */
  function RowsOfRun<T>(rows: seq<T>, runs: seq<int>, k: int): (f: seq<T>)
    requires |rows| == |runs|
    ensures |f| <= |rows|
    ensures (forall i :: 0 <= i < |runs| ==> runs[i] != k) ==> f == []
    decreases |rows|
  {
    if |rows| == 0 then []
    else
      var n := |rows|;
      RowsOfRun(rows[..n - 1], runs[..n - 1], k) + (if runs[n - 1] == k then [rows[n - 1]] else [])
  }

  /** `f` is the subsequence of `rows` at the strictly increasing positions `idx`, which are
      exactly the positions whose run id is k. */
  ghost predicate SelectedBy<T>(f: seq<T>, rows: seq<T>, runs: seq<int>, k: int, idx: seq<nat>)
    requires |rows| == |runs|
  {
    && |idx| == |f|
    && (forall m :: 0 <= m < |idx| ==> idx[m] < |rows| && f[m] == rows[idx[m]] && runs[idx[m]] == k)
    && (forall m, m' :: 0 <= m < m' < |idx| ==> idx[m] < idx[m'])
    && (forall i :: 0 <= i < |rows| && runs[i] == k ==> i in idx)
  }

  /** The filter for run k is a selection of exactly the rows whose run id is k. */
  ghost predicate FilterSelects<T>(rows: seq<T>, runs: seq<int>, k: int)
    requires |rows| == |runs|
  {
    exists idx: seq<nat> :: SelectedBy(RowsOfRun(rows, runs, k), rows, runs, k, idx)
  }

  /** A selection from the table without its last row extends to the whole table. */
  lemma SelectedByStep<T>(rows: seq<T>, runs: seq<int>, k: int, f: seq<T>, idx: seq<nat>)
    requires |rows| == |runs| > 0
    requires SelectedBy(f, rows[..|rows| - 1], runs[..|runs| - 1], k, idx)
    ensures runs[|runs| - 1] == k ==> SelectedBy(f + [rows[|rows| - 1]], rows, runs, k, idx + [|rows| - 1])
    ensures runs[|runs| - 1] != k ==> SelectedBy(f, rows, runs, k, idx)
  {
    var n := |rows|;
    var rows', runs' := rows[..n - 1], runs[..n - 1];
    assert forall m :: 0 <= m < |idx| ==> idx[m] < n - 1 && rows[idx[m]] == rows'[idx[m]] && runs[idx[m]] == runs'[idx[m]];
    forall i | 0 <= i < n - 1 && runs[i] == k
      ensures i in idx
    {
      assert runs'[i] == runs[i];
    }
    if runs[n - 1] == k {
      var f2, idx2 := f + [rows[n - 1]], idx + [n - 1];
      assert forall m :: 0 <= m < |idx| ==> idx2[m] == idx[m] && f2[m] == f[m];
      assert forall i :: 0 <= i < n && runs[i] == k ==> i in idx2;
    }
  }

  /** The selection property of the filter, carried from the table without its last row. */
  lemma SelectsStep<T>(rows: seq<T>, runs: seq<int>, k: int)
    requires |rows| == |runs| > 0
    requires FilterSelects(rows[..|rows| - 1], runs[..|runs| - 1], k)
    ensures FilterSelects(rows, runs, k)
  {
    var n := |rows|;
    var f := RowsOfRun(rows[..n - 1], runs[..n - 1], k);
    assert FilterSelects(rows[..n - 1], runs[..n - 1], k);
    var idx: seq<nat> :| SelectedBy(f, rows[..n - 1], runs[..n - 1], k, idx);
    SelectedByStep(rows, runs, k, f, idx);
    if runs[n - 1] == k {
      assert RowsOfRun(rows, runs, k) == f + [rows[n - 1]];
      assert SelectedBy(RowsOfRun(rows, runs, k), rows, runs, k, idx + [n - 1]);
    } else {
      assert RowsOfRun(rows, runs, k) == f;
      assert SelectedBy(RowsOfRun(rows, runs, k), rows, runs, k, idx);
    }
  }

  /** The filter keeps exactly the rows whose run id is k, and keeps them in table order. */
  lemma {:induction false} RowsOfRunSelects<T>(rows: seq<T>, runs: seq<int>, k: int)
    requires |rows| == |runs|
    ensures exists idx: seq<nat> :: SelectedBy(RowsOfRun(rows, runs, k), rows, runs, k, idx)
  {
    if |rows| == 0 {
      assert SelectedBy(RowsOfRun(rows, runs, k), rows, runs, k, []);
    } else {
      RowsOfRunSelects(rows[..|rows| - 1], runs[..|runs| - 1], k);
      SelectsStep(rows, runs, k);
    }
  }

  /** A run id that occurs in the column keeps at least one row. */
  lemma RowsOfRunNonempty<T>(rows: seq<T>, runs: seq<int>, k: int)
    requires |rows| == |runs|
    requires k in runs
    ensures |RowsOfRun(rows, runs, k)| > 0
  {
    RowsOfRunSelects(rows, runs, k);
    var idx: seq<nat> :| SelectedBy(RowsOfRun(rows, runs, k), rows, runs, k, idx);
    var i :| 0 <= i < |runs| && runs[i] == k;
    assert i in idx;
  }

  /** The rows of each of the given runs, one block per run. */
  function RunBlocks<T>(rows: seq<T>, runs: seq<int>, ids: seq<int>): seq<seq<T>>
    requires |rows| == |runs|
  {
    seq(|ids|, j requires 0 <= j < |ids| => RowsOfRun(rows, runs, ids[j]))
  }

  /** The blocks joined end to end. */
  function Flatten<T>(blocks: seq<seq<T>>): seq<T>
  {
    if |blocks| == 0 then [] else Flatten(blocks[..|blocks| - 1]) + blocks[|blocks| - 1]
  }

  /** Joining one more block at the end appends its rows. */
  lemma FlattenSnoc<T>(blocks: seq<seq<T>>, last: seq<T>)
    ensures Flatten(blocks + [last]) == Flatten(blocks) + last
  {
  }

  /** When the new last row stays in the current last run k, only block k grows. */
  lemma BlocksGrowLast<T>(rows: seq<T>, runs: seq<nat>, k: nat)
    requires |rows| == |runs| > 1
    requires 0 < k == runs[|runs| - 1]
    ensures var n := |rows|;
      RunBlocks(rows, runs, Span(k))
      == RunBlocks(rows[..n - 1], runs[..n - 1], Span(k))[..k - 1]
         + [RunBlocks(rows[..n - 1], runs[..n - 1], Span(k))[k - 1] + [rows[n - 1]]]
  {
    var n := |rows|;
    var b, b' := RunBlocks(rows, runs, Span(k)), RunBlocks(rows[..n - 1], runs[..n - 1], Span(k));
    var c := b'[..k - 1] + [b'[k - 1] + [rows[n - 1]]];
    forall j | 0 <= j < k
      ensures b[j] == c[j]
    {
      assert b[j] == RowsOfRun(rows, runs, j + 1);
      assert b'[j] == RowsOfRun(rows[..n - 1], runs[..n - 1], j + 1);
    }
    assert b == c;
  }

  /** When the new last row opens run k, the blocks of runs 1..k-1 stay as they were. */
  lemma BlocksGrowNew<T>(rows: seq<T>, runs: seq<nat>, k: nat)
    requires |rows| == |runs| > 1
    requires 0 < k == runs[|runs| - 1]
    requires forall i :: 0 <= i < |runs| - 1 ==> runs[i] < k
    ensures var n := |rows|;
      RunBlocks(rows, runs, Span(k))
      == RunBlocks(rows[..n - 1], runs[..n - 1], Span(k - 1)) + [[rows[n - 1]]]
  {
    var n := |rows|;
    var b, b' := RunBlocks(rows, runs, Span(k)), RunBlocks(rows[..n - 1], runs[..n - 1], Span(k - 1));
    var c := b' + [[rows[n - 1]]];
    forall j | 0 <= j < k
      ensures b[j] == c[j]
    {
      assert b[j] == RowsOfRun(rows, runs, j + 1);
      if j < k - 1 {
        assert b'[j] == RowsOfRun(rows[..n - 1], runs[..n - 1], j + 1);
      } else {
        assert RowsOfRun(rows[..n - 1], runs[..n - 1], k) == [];
      }
    }
    assert b == c;
  }

  /** Dropping the last row of an enumerated column leaves an enumerated column. */
  lemma EnumeratedPrefix(r: seq<nat>)
    requires Enumerated(r) && |r| > 1
    ensures Enumerated(r[..|r| - 1])
  {
  }

  /** The step of the partition proof when the last row stays in run k. */
  lemma PartitionStepSameRun<T>(rows: seq<T>, runs: seq<nat>, k: nat)
    requires |rows| == |runs| > 1
    requires 0 < k == runs[|runs| - 1] == runs[|runs| - 2]
    requires Flatten(RunBlocks(rows[..|rows| - 1], runs[..|runs| - 1], Span(k))) == rows[..|rows| - 1]
    ensures Flatten(RunBlocks(rows, runs, Span(k))) == rows
  {
    var n := |rows|;
    var blocks' := RunBlocks(rows[..n - 1], runs[..n - 1], Span(k));
    BlocksGrowLast(rows, runs, k);
    FlattenSnoc(blocks'[..k - 1], blocks'[k - 1] + [rows[n - 1]]);
    assert blocks' == blocks'[..k - 1] + [blocks'[k - 1]];
    FlattenSnoc(blocks'[..k - 1], blocks'[k - 1]);
    assert rows == rows[..n - 1] + [rows[n - 1]];
  }

  /** The step of the partition proof when the last row opens run k. */
  lemma PartitionStepNewRun<T>(rows: seq<T>, runs: seq<nat>, k: nat)
    requires |rows| == |runs| > 1
    requires 0 < k == runs[|runs| - 1]
    requires forall i :: 0 <= i < |runs| - 1 ==> runs[i] < k
    requires Flatten(RunBlocks(rows[..|rows| - 1], runs[..|runs| - 1], Span(k - 1))) == rows[..|rows| - 1]
    ensures Flatten(RunBlocks(rows, runs, Span(k))) == rows
  {
    var n := |rows|;
    BlocksGrowNew(rows, runs, k);
    FlattenSnoc(RunBlocks(rows[..n - 1], runs[..n - 1], Span(k - 1)), [rows[n - 1]]);
    assert rows == rows[..n - 1] + [rows[n - 1]];
  }

  /** Split by an enumerated run column, the blocks of runs 1..K put back together give the
      table again: every row is in exactly one run, and the runs keep the row order. */
  lemma {:induction false} BlocksPartition<T>(rows: seq<T>, runs: seq<nat>)
    requires |rows| == |runs|
    requires Enumerated(runs)
    ensures Flatten(RunBlocks(rows, runs, Span(runs[|runs| - 1]))) == rows
  {
    var n := |rows|;
    var k := runs[n - 1];
    if n == 1 {
      assert rows[..0] == [] && runs[..0] == [];
      assert RowsOfRun(rows, runs, 1) == [rows[0]] == rows;
      assert RunBlocks(rows, runs, Span(k)) == [] + [rows];
      FlattenSnoc([], rows);
    } else {
      var runs' := runs[..n - 1];
      EnumeratedPrefix(runs);
      BlocksPartition(rows[..n - 1], runs');
      EnumeratedBounds(runs');
      assert runs'[n - 2] == runs[n - 2];
      if k == runs[n - 2] {
        PartitionStepSameRun(rows, runs, k);
      } else {
        PartitionStepNewRun(rows, runs, k);
      }
    }
  }
}
