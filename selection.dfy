/**
 * `onRowSelect`: the table reports a selection change with a row index, or
 * with -1 for the header checkbox that selects or clears all rows. Both
 * branches produce a new list; the previous list is left as it was.
 */
module RowSelection {
  import opened WorkspaceRows

  /** The index the table passes for the header checkbox. */
  const ALL_ROWS: int := -1

  /** `rows.map((r) => ({ ...r, selected: isSelected }))` */
  function SelectAll(rows: seq<Row>, isSelected: bool): (r: seq<Row>)
    ensures |r| == |rows|
    ensures forall k :: 0 <= k < |r| ==> r[k].cells == rows[k].cells && r[k].selected == isSelected
  {
    seq(|rows|, k requires 0 <= k < |rows| => rows[k].(selected := isSelected))
  }

  /**
   * The row list `onRowSelect` passes to `setRows`: all rows for -1, else a
   * copy in which only row `rowId` has its flag replaced. An index outside the
   * list is excluded (the source would grow the array there).
   */
  function SetSelected(rows: seq<Row>, isSelected: bool, rowId: int): (r: seq<Row>)
    requires rowId == ALL_ROWS || 0 <= rowId < |rows|
    ensures |r| == |rows|
    ensures forall k :: 0 <= k < |r| ==> r[k].cells == rows[k].cells
    ensures rowId == ALL_ROWS ==> forall k :: 0 <= k < |r| ==> r[k].selected == isSelected
    ensures rowId != ALL_ROWS ==> r[rowId].selected == isSelected
    ensures rowId != ALL_ROWS ==> forall k :: 0 <= k < |r| && k != rowId ==> r[k] == rows[k]
  {
    if rowId == ALL_ROWS then SelectAll(rows, isSelected)
    else rows[rowId := rows[rowId].(selected := isSelected)]
  }

  /** A selection change keeps every row, its id and its position. */
  lemma SelectionKeepsRowIds(rows: seq<Row>, isSelected: bool, rowId: int)
    requires WellFormed(rows)
    requires rowId == ALL_ROWS || 0 <= rowId < |rows|
    ensures WellFormed(SetSelected(rows, isSelected, rowId))
    ensures RowIds(SetSelected(rows, isSelected, rowId)) == RowIds(rows)
  {
    var r := SetSelected(rows, isSelected, rowId);
    assert forall k :: 0 <= k < |r| ==> RowId(r[k]) == RowId(rows[k]);
  }

  /** Selecting a row that is already in the requested state changes nothing. */
  lemma SelectingAgainChangesNothing(rows: seq<Row>, isSelected: bool, rowId: int)
    requires 0 <= rowId < |rows| && rows[rowId].selected == isSelected
    ensures SetSelected(rows, isSelected, rowId) == rows
  {
  }

  /** The header checkbox is idempotent and the last gesture wins. */
  lemma SelectAllLastWins(rows: seq<Row>, first: bool, second: bool)
    ensures SelectAll(SelectAll(rows, first), second) == SelectAll(rows, second)
  {
  }
}
