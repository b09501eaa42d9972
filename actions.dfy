/**
 * What the page derives from its rows: the rows a bulk delete acts on, whether
 * the delete button and the empty state are shown, and the effect of the
 * per-row Details and Delete actions.
 */
module RowActions {
  import opened Wrappers
  import opened Routes
  import opened WorkspaceRows

  /**
   * The indices of the selected rows, in row order, each once: the reference
   * against which the bulk delete is stated.
   */
  function SelectedIndices(rows: seq<Row>): (ix: seq<nat>)
    ensures forall a :: 0 <= a < |ix| ==> ix[a] < |rows| && rows[ix[a]].selected
    ensures forall a, b :: 0 <= a < b < |ix| ==> ix[a] < ix[b]
    ensures forall k :: 0 <= k < |rows| && rows[k].selected ==> k in ix
  {
    if rows == [] then []
    else
      var last := |rows| - 1;
      SelectedIndices(rows[..last]) + (if rows[last].selected then [last] else [])
  }

  /** `rows.filter((r) => r.selected)`: exactly the rows at the selected
      indices, in row order. */
  function SelectedRows(rows: seq<Row>): (selected: seq<Row>)
    ensures |selected| == |SelectedIndices(rows)|
    ensures forall a :: 0 <= a < |selected| ==> selected[a] == rows[SelectedIndices(rows)[a]]
  {
    if rows == [] then []
    else
      var last := |rows| - 1;
      SelectedRows(rows[..last]) + (if rows[last].selected then [rows[last]] else [])
  }

  /** `rows.some((r) => r.selected)`: the Delete Selected button is shown. */
  function ShowDeleteButton(rows: seq<Row>): (shown: bool)
    ensures shown <==> exists k :: 0 <= k < |rows| && rows[k].selected
  {
    if rows == [] then false
    else rows[0].selected || ShowDeleteButton(rows[1..])
  }

  /** The button is shown exactly when a bulk delete would delete something. */
  lemma DeleteButtonIffSomethingToDelete(rows: seq<Row>)
    ensures ShowDeleteButton(rows) <==> SelectedIndices(rows) != []
  {
    if ShowDeleteButton(rows) {
      var k :| 0 <= k < |rows| && rows[k].selected;
      assert k in SelectedIndices(rows);
    }
  }

  /** `rows.length === 0`: the "Did not find any workspaces" message. */
  predicate ShowEmptyState(rows: seq<Row>) {
    |rows| == 0
  }

  /** `rows.length > 0`: the table. */
  predicate ShowTable(rows: seq<Row>) {
    |rows| > 0
  }

  /** Exactly one of the empty state and the table is shown. */
  lemma EmptyStateXorTable(rows: seq<Row>)
    ensures ShowEmptyState(rows) != ShowTable(rows)
    ensures ShowEmptyState(rows) <==> rows == []
  {
  }

  /** What a per-row action asks of the application context. */
  datatype Effect = NoEffect | GoToRoute(path: string) | DeleteWorkspace(id: string)

  /** `!rowData || !rowData.cells || rowData.cells.length === 0`; an absent
      `cells` list is the empty one. */
  predicate ActionSkipped(rowData: Option<Row>) {
    rowData.None? || |rowData.value.cells| == 0
  }

  /** The cast `rowData as WorkspacesRowT`: a row that passes the guard starts
      with its id cell. */
  predicate IsWorkspaceRow(rowData: Option<Row>) {
    !ActionSkipped(rowData) ==> rowData.value.cells[0].NameCell?
  }

  /** The Details action: navigate to the row's detail route. */
  function OnDetails(rowData: Option<Row>): (e: Effect)
    requires IsWorkspaceRow(rowData)
    ensures e == NoEffect <==> ActionSkipped(rowData)
    ensures !ActionSkipped(rowData) ==> e == GoToRoute(DetailRoute(rowData.value.cells[0].id))
  {
    if ActionSkipped(rowData) then NoEffect
    else GoToRoute(DetailRoute(rowData.value.cells[0].id))
  }

  /** The Delete action: delete the row's workspace. */
  function OnDelete(rowData: Option<Row>): (e: Effect)
    requires IsWorkspaceRow(rowData)
    ensures e == NoEffect <==> ActionSkipped(rowData)
    ensures !ActionSkipped(rowData) ==> e == DeleteWorkspace(rowData.value.cells[0].id)
  {
    if ActionSkipped(rowData) then NoEffect
    else DeleteWorkspace(rowData.value.cells[0].id)
  }
}
