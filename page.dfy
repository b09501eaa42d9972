/**
 * The `Workspaces` page component: the `rows` state it replaces through
 * `setRows`, the handlers that replace it, and the bulk delete over it.
 */
module WorkspacesPage {
  import opened Wrappers
  import opened WorkspaceRows
  import opened RowSelection
  import opened RowActions

  class Page {
    var rows: seq<Row>

    /** Every row the page holds starts with its id cell. */
    predicate Valid()
      reads this
    {
      WellFormed(rows)
    }

    /** `useState<Array<WorkspacesRowT>>([])` */
    constructor ()
      ensures Valid() && rows == []
    {
      rows := [];
    }

    /** The effect on `ctx.workspaces`: rebuild the rows from the record
        values, carrying the current rows' selection over. */
    method OnWorkspacesChanged(
      workspaces: seq<Workspace>,
      sortByTimeStamp: seq<Workspace> -> seq<Workspace>,
      status: Workspace -> string
    )
      requires Valid()
      modifies this
      ensures Valid()
      ensures rows == GetRowsFromWorkspaces(workspaces, Some(old(rows)), sortByTimeStamp, status)
    {
      rows := GetRowsFromWorkspaces(workspaces, Some(rows), sortByTimeStamp, status);
    }

    /** `onRowSelect`: -1 maps over all rows; an index copies the rows with
        `slice()` and replaces the one element of the copy. */
    method OnRowSelect(isSelected: bool, rowId: int)
      requires Valid()
      requires rowId == ALL_ROWS || 0 <= rowId < |rows|
      modifies this
      ensures Valid()
      ensures rows == SetSelected(old(rows), isSelected, rowId)
    {
      SelectionKeepsRowIds(rows, isSelected, rowId);
      if rowId == ALL_ROWS {
        rows := SelectAll(rows, isSelected);
        return;
      }
      var current := rows;
      var newRows := new Row[|current|];
      for k := 0 to |current|
        invariant newRows[..k] == current[..k]
      {
        newRows[k] := current[k];
      }
      assert newRows[..] == current;
      newRows[rowId] := current[rowId].(selected := isSelected);
      rows := newRows[..];
    }

    /** `deleteSelectedRows`: the ids passed to `ctx.deleteWorkspace`, in the
        order of the calls: one per selected row, in row order. */
    method DeleteSelectedRows() returns (deleted: seq<string>)
      requires Valid()
      ensures |deleted| == |SelectedIndices(rows)|
      ensures forall a :: 0 <= a < |deleted| ==> deleted[a] == RowId(rows[SelectedIndices(rows)[a]])
    {
      var selected := SelectedRows(rows);
      deleted := [];
      for i := 0 to |selected|
        invariant |deleted| == i
        invariant forall a :: 0 <= a < i ==> deleted[a] == RowId(selected[a])
      {
        deleted := deleted + [RowId(selected[i])];
      }
    }
  }

  /** A bulk delete never names a workspace that has no row. */
  lemma BulkDeleteOnlyNamesRows(rows: seq<Row>, id: string)
    requires WellFormed(rows)
    requires forall k :: 0 <= k < |rows| ==> RowId(rows[k]) != id
    ensures forall a :: 0 <= a < |SelectedIndices(rows)| ==> RowId(rows[SelectedIndices(rows)[a]]) != id
  {
  }

  /**
   * Select all, then refresh with the same records: every row is still
   * selected, so the delete button stays and a bulk delete covers every row.
   */
  lemma SelectAllSurvivesRefresh(
    workspaces: seq<Workspace>,
    oldRows: Option<seq<Row>>,
    sortByTimeStamp: seq<Workspace> -> seq<Workspace>,
    status: Workspace -> string
  )
    requires oldRows.Some? ==> AllHaveCells(oldRows.value)
    ensures var all := SelectAll(GetRowsFromWorkspaces(workspaces, oldRows, sortByTimeStamp, status), true);
      var refreshed := GetRowsFromWorkspaces(workspaces, Some(all), sortByTimeStamp, status);
      forall k :: 0 <= k < |refreshed| ==> refreshed[k].selected
  {
    var rows := GetRowsFromWorkspaces(workspaces, oldRows, sortByTimeStamp, status);
    var all := SelectAll(rows, true);
    var refreshed := GetRowsFromWorkspaces(workspaces, Some(all), sortByTimeStamp, status);
    forall k | 0 <= k < |refreshed|
      ensures refreshed[k].selected
    {
      var id := sortByTimeStamp(workspaces)[k].id;
      assert Matches(all[k], id);
      var found := Find(all, id);
      assert found.Some?;
    }
  }

  /**
   * Select a workspace, then refresh with records that no longer contain it:
   * the rows no longer contain it and a bulk delete does not name it.
   */
  lemma DeletedWorkspaceLeavesSelection(
    previous: seq<Row>,
    workspaces: seq<Workspace>,
    sortByTimeStamp: seq<Workspace> -> seq<Workspace>,
    status: Workspace -> string,
    id: string
  )
    requires WellFormed(previous)
    requires IsPermutationOf(sortByTimeStamp(workspaces), workspaces)
    requires forall k :: 0 <= k < |workspaces| ==> workspaces[k].id != id
    ensures var rows := GetRowsFromWorkspaces(workspaces, Some(previous), sortByTimeStamp, status);
      && (forall k :: 0 <= k < |rows| ==> RowId(rows[k]) != id)
      && (forall a :: 0 <= a < |SelectedIndices(rows)| ==> RowId(rows[SelectedIndices(rows)[a]]) != id)
  {
    NoRowForAbsentId(workspaces, Some(previous), sortByTimeStamp, status, id);
    BulkDeleteOnlyNamesRows(GetRowsFromWorkspaces(workspaces, Some(previous), sortByTimeStamp, status), id);
  }

  /** The Details and Delete actions of a row act on the workspace the row's
      link points to. */
  lemma ActionsFollowTheLink(
    workspaces: seq<Workspace>,
    oldRows: Option<seq<Row>>,
    sortByTimeStamp: seq<Workspace> -> seq<Workspace>,
    status: Workspace -> string,
    k: int
  )
    requires oldRows.Some? ==> AllHaveCells(oldRows.value)
    requires 0 <= k < |GetRowsFromWorkspaces(workspaces, oldRows, sortByTimeStamp, status)|
    ensures var row := GetRowsFromWorkspaces(workspaces, oldRows, sortByTimeStamp, status)[k];
      && OnDetails(Some(row)) == GoToRoute(row.cells[0].title.to)
      && OnDelete(Some(row)) == DeleteWorkspace(sortByTimeStamp(workspaces)[k].id)
  {
  }
}
