/** The whole script on one session: forward-fill the onsets, segment into runs, then for
    each run (in `unique()` order) classify every row and keep the output columns. */
module Pipeline {
  import opened Wrappers
  import opened Timestamps
  import opened Segmenter
  import opened Classifier

  /** One row of the recognition log, restricted to the columns the script reads. */
  datatype Trial = Trial(
    condsFile: Option<string>,
    conType: Option<int>,
    condition: Option<string>,
    corr: Option<int>,
    corrAns: Option<string>,
    start: Cell,
    end: Cell)

  /** One row of a per-run output table, with the columns of `output_columns` in order. */
  datatype OutputRow = OutputRow(
    materialType: Option<MaterialType>,
    responseTime: Cell,
    conType: Option<int>,
    condition: Option<string>,
    corr: Option<int>,
    signalDetection: Option<Outcome>,
    onset: Cell,
    materialAttribute: Option<Attribute>)

  /** The derived columns of one row, and its projection onto the output columns: the
      material type, outcome, attribute and response time are those the classifiers give
      for the row, so the outcome agrees with the condition and flag copied beside it, the
      attribute with the material type, and the response time with the onset. */
  function ProcessRow(t: Trial): (o: OutputRow)
    ensures o.onset == t.start && o.conType == t.conType && o.condition == t.condition && o.corr == t.corr
    ensures o.materialType == ExtractMaterialType(t.condsFile)
    ensures o.signalDetection == SignalDetection(t.condition, t.corr)
    ensures o.materialAttribute == MaterialAttribute(t.corrAns, o.materialType)
    ensures o.responseTime == ResponseTime(t.start, t.end)
    ensures o.signalDetection.Some? ==> (IsTarget(o.signalDetection.value) <==> o.condition == Some("Old"))
    ensures o.signalDetection.Some? ==> (IsCorrect(o.signalDetection.value) <==> o.corr == Some(1))
    ensures o.materialAttribute.Some? ==> o.materialType == Some(MaterialOf(o.materialAttribute.value))
    ensures o.responseTime.Some? <==> o.onset.Some? && t.end.Some?
    ensures o.responseTime.Some? ==> o.onset.value + o.responseTime.value == t.end.value
  {
    var materialType := ExtractMaterialType(t.condsFile);
    OutputRow(
      materialType,
      ResponseTime(t.start, t.end),
      t.conType,
      t.condition,
      t.corr,
      SignalDetection(t.condition, t.corr),
      t.start,
      MaterialAttribute(t.corrAns, materialType))
  }

  /** The rows of one run, processed in order. */
  function ProcessRun(rows: seq<Trial>): seq<OutputRow>
  {
    seq(|rows|, i requires 0 <= i < |rows| => ProcessRow(rows[i]))
  }

  /** Each block of rows, processed. */
  function ProcessBlocks(blocks: seq<seq<Trial>>): seq<seq<OutputRow>>
  {
    seq(|blocks|, j requires 0 <= j < |blocks| => ProcessRun(blocks[j]))
  }

  /** The stimulus_start_time column. */
  function Starts(rows: seq<Trial>): seq<Cell>
  {
    seq(|rows|, i requires 0 <= i < |rows| => rows[i].start)
  }

  /** The table with its stimulus_start_time column replaced. */
  function WithStarts(rows: seq<Trial>, column: seq<Cell>): seq<Trial>
    requires |column| == |rows|
  {
    seq(|rows|, i requires 0 <= i < |rows| => rows[i].(start := column[i]))
  }

  /** The per-run output tables of a session, one per run id in encounter order: the rows of
      that run, with filled onsets, processed. There are as many tables as runs, that is one
      more than the number of clock resets, and none for an empty log. */
  function Session(rows: seq<Trial>): (tables: seq<seq<OutputRow>>)
    ensures |rows| == 0 ==> tables == []
    ensures |rows| > 0 ==> |tables| == 1 + |Resets(FFill(Starts(rows)), |rows| - 1)|
  {
    var column := FFill(Starts(rows));
    var filled := WithStarts(rows, column);
    var runs := RunIds(column);
    var ids := Unique(runs);
    var tables := ProcessBlocks(RunBlocks(filled, runs, ids));
    if |rows| > 0 then
      RunIdsAreOneToK(column);
      RunCountsResets(column, |rows| - 1);
      tables
    else
      tables
  }

  /** Processing two tables one after the other is processing them joined. */
  lemma ProcessRunAppend(a: seq<Trial>, b: seq<Trial>)
    ensures ProcessRun(a + b) == ProcessRun(a) + ProcessRun(b)
  {
  }

  /** Processing distributes over joining blocks of rows. */
  lemma {:induction false} ProcessFlatten(blocks: seq<seq<Trial>>)
    ensures Flatten(ProcessBlocks(blocks)) == ProcessRun(Flatten(blocks))
  {
    var n := |blocks|;
    if n > 0 {
      var front := blocks[..n - 1];
      ProcessFlatten(front);
      assert ProcessBlocks(blocks) == ProcessBlocks(front) + [ProcessRun(blocks[n - 1])];
      FlattenSnoc(ProcessBlocks(front), ProcessRun(blocks[n - 1]));
      ProcessRunAppend(Flatten(front), blocks[n - 1]);
    }
  }

  /** Processing the blocks of an enumerated run column and joining them gives all rows processed. */
  lemma ProcessedBlocksPartition(filled: seq<Trial>, runs: seq<nat>)
    requires |filled| == |runs|
    requires Enumerated(runs)
    requires Unique(runs) == Span(runs[|runs| - 1])
    ensures Flatten(ProcessBlocks(RunBlocks(filled, runs, Unique(runs)))) == ProcessRun(filled)
  {
    BlocksPartition(filled, runs);
    ProcessFlatten(RunBlocks(filled, runs, Unique(runs)));
  }

  /** The output tables of a session, joined in run order, are the whole log processed row
      by row with filled onsets: every row lands in exactly one table, in its original order. */
  lemma SessionCoversEveryRow(rows: seq<Trial>)
    ensures Flatten(Session(rows)) == ProcessRun(WithStarts(rows, FFill(Starts(rows))))
  {
    var column := FFill(Starts(rows));
    var filled := WithStarts(rows, column);
    var runs := RunIds(column);
    if |rows| > 0 {
      RunIdsAreOneToK(column);
      ProcessedBlocksPartition(filled, runs);
    } else {
      assert Session(rows) == [];
    }
  }

  /** Table j of a session is the processed rows of the j-th run id met. */
  lemma SessionTableOf(rows: seq<Trial>, j: nat)
    requires j < |Session(rows)|
    ensures var column := FFill(Starts(rows));
      && |rows| > 0
      && j < |Unique(RunIds(column))|
      && Session(rows)[j] == ProcessRun(RowsOfRun(WithStarts(rows, column), RunIds(column), Unique(RunIds(column))[j]))
  {
  }

  /** Table j of a session holds the processed rows of run j + 1, which are exactly the rows
      whose run id is j + 1, in table order; no table is empty. */
  lemma SessionTableIsRun(rows: seq<Trial>, j: nat)
    requires j < |Session(rows)|
    ensures var column := FFill(Starts(rows));
      && Session(rows)[j] == ProcessRun(RowsOfRun(WithStarts(rows, column), RunIds(column), j + 1))
      && FilterSelects(WithStarts(rows, column), RunIds(column), j + 1)
      && |Session(rows)[j]| > 0
  {
    var column := FFill(Starts(rows));
    var filled := WithStarts(rows, column);
    var runs := RunIds(column);
    SessionTableOf(rows, j);
    RunIdsAreOneToK(column);
    assert Unique(runs)[j] == j + 1;
    RowsOfRunSelects(filled, runs, j + 1);
    RowsOfRunNonempty(filled, runs, j + 1);
  }

  /** The script on one session, with the write and re-read of each raw run file taken as
      the identity. */
  method ProcessSession(rows: seq<Trial>) returns (tables: seq<seq<OutputRow>>)
    ensures tables == Session(rows)
    ensures Flatten(tables) == ProcessRun(WithStarts(rows, FFill(Starts(rows))))
  {
    var n := |rows|;
    var start := new Cell[n](i requires 0 <= i < n => rows[i].start);
    assert start[..] == Starts(rows);
    ForwardFill(start);
    var run := AssignRuns(start);
    var column := start[..];
    var filled := seq(n, i requires 0 <= i < n => rows[i].(start := column[i]));
    var runs := run[..];
    var ids := Unique(runs);
    tables := [];
    for j := 0 to |ids|
      invariant tables == seq(j, k requires 0 <= k < j => ProcessRun(RowsOfRun(filled, runs, ids[k])))
    {
      var runData := RowsOfRun(filled, runs, ids[j]);
      tables := tables + [ProcessRun(runData)];
    }
    SessionCoversEveryRow(rows);
  }
}
