/** The repair of missing onsets: the stimulus_start_time column is forward-filled, so that
    every missing cell receives the last earlier onset that was present. */
module Timestamps {
  import opened Wrappers

  /** One cell of an onset column; None stands for a missing (NaN) value. */
  type Cell = Option<real>

  /** The value the forward fill leaves at row i: the cell itself when it is present,
      otherwise what the fill left at the row before; a missing first row stays missing. */
  function Filled(s: seq<Cell>, i: nat): Cell
    requires i < |s|
  {
    if s[i].Some? || i == 0 then s[i] else Filled(s, i - 1)
  }

  /** The column after `fillna(method='ffill')`. */
  function FFill(s: seq<Cell>): (r: seq<Cell>)
    ensures |r| == |s|
    ensures forall i :: 0 <= i < |s| && s[i].Some? ==> r[i] == s[i]
  {
    seq(|s|, i requires 0 <= i < |s| => Filled(s, i))
  }

  /** A column in which a missing cell is preceded only by missing cells. */
  ghost predicate GapsOnlyLeading(s: seq<Cell>)
  {
    forall i :: 0 < i < |s| && s[i - 1].Some? ==> s[i].Some?
  }

  /** A gap takes the value of the nearest earlier present onset. */
  lemma {:induction false} FillFromNearest(s: seq<Cell>, j: nat, i: nat)
    requires j <= i < |s|
    requires s[j].Some?
    requires forall k :: j < k <= i ==> s[k].None?
    ensures FFill(s)[i] == s[j]
  {
    if i > j {
      FillFromNearest(s, j, i - 1);
      assert FFill(s)[i] == Filled(s, i) == Filled(s, i - 1);
    }
  }

  /** Every filled value was present at that row or at an earlier one with only gaps after it. */
  lemma {:induction false} FillComesFromEarlier(s: seq<Cell>, i: nat)
    requires i < |s|
    requires FFill(s)[i].Some?
    ensures exists j :: 0 <= j <= i && s[j] == FFill(s)[i] && forall k :: j < k <= i ==> s[k].None?
  {
    if s[i].None? {
      assert FFill(s)[i] == Filled(s, i) == Filled(s, i - 1) == FFill(s)[i - 1];
      FillComesFromEarlier(s, i - 1);
      var j :| 0 <= j <= i - 1 && s[j] == FFill(s)[i - 1] && forall k :: j < k <= i - 1 ==> s[k].None?;
      assert forall k :: j < k <= i ==> s[k].None?;
    }
  }

  /** A cell is still missing after the fill exactly when it and every cell before it were missing. */
  lemma {:induction false} FillMissingIffLeading(s: seq<Cell>, i: nat)
    requires i < |s|
    ensures FFill(s)[i].None? <==> forall j :: 0 <= j <= i ==> s[j].None?
  {
    if i > 0 && s[i].None? {
      FillMissingIffLeading(s, i - 1);
      assert FFill(s)[i] == Filled(s, i) == Filled(s, i - 1) == FFill(s)[i - 1];
    }
  }

  /** After the fill, gaps can only remain at the front of the column. */
  lemma FillLeavesLeadingGaps(s: seq<Cell>)
    ensures GapsOnlyLeading(FFill(s))
  {
  }

  /** Filling a column that has gaps only at the front changes nothing. */
  lemma {:induction false} FilledOfLeadingGaps(r: seq<Cell>, i: nat)
    requires GapsOnlyLeading(r)
    requires i < |r|
    ensures Filled(r, i) == r[i]
  {
    if r[i].None? && i > 0 {
      FilledOfLeadingGaps(r, i - 1);
    }
  }

  /** Forward-filling twice is the same as forward-filling once. */
  lemma FFillIdempotent(s: seq<Cell>)
    ensures FFill(FFill(s)) == FFill(s)
  {
    var r := FFill(s);
    FillLeavesLeadingGaps(s);
    forall i | 0 <= i < |r|
      ensures FFill(r)[i] == r[i]
    {
      FilledOfLeadingGaps(r, i);
    }
  }

  /** The in-place fill of the column, row by row from the top. */
  method ForwardFill(a: array<Cell>)
    modifies a
    ensures a[..] == FFill(old(a[..]))
  {
    ghost var s := a[..];
    for i := 0 to a.Length
      invariant forall k :: 0 <= k < i ==> a[k] == Filled(s, k)
      invariant forall k :: i <= k < a.Length ==> a[k] == s[k]
    {
      if a[i].None? && i > 0 {
        a[i] := a[i - 1];
      }
    }
    assert forall k :: 0 <= k < a.Length ==> a[..][k] == FFill(s)[k];
  }
}
