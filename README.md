# Workspaces page row model

This project models the row model behind the workspaces page of the
move2kube UI (`src/app/workspaces/Workspaces.tsx`). The page lists
workspaces in a selectable table. The model proves these properties:

- how the list of workspace records becomes an ordered list of rows
  (`getRowsFromWorkspaces`), and how each new row gets its `selected` flag
  from the first previous row with the same workspace id;
- how the table's selection callback (`onRowSelect`) replaces the row list,
  both for the header checkbox (index -1) and for a single row;
- which workspaces a bulk delete (`deleteSelectedRows`) sends to
  `deleteWorkspace`, and in what order;
- when the delete button, the empty-state message and the table are shown;
- what the per-row Details and Delete actions do, and the route strings for
  the detail view and for the projects redirect.

Modules:

- `Wrappers` is the `Option` type.
  It stands for JavaScript's `undefined`: `oldRows?`, the result of `find`.
- `Routes` holds `'/workspaces/' + id` and `/workspaces/<id>/projects`, and
  the redirect decision.
- `WorkspaceRows` holds the records, rows and cells, `find`,
  `getRowsFromWorkspaces`, and the reconciliation properties.
- `RowSelection` holds the two branches of `onRowSelect` as values.
- `RowActions` holds the `filter`/`some` over the rows, the empty-state and
  table conditions, and the action guards.
- `WorkspacesPage` holds the component's `rows` state as a class.
  - `OnWorkspacesChanged` is the effect that rebuilds the rows.
  - `OnRowSelect` copies the rows into a fresh array and updates one element.
  - `DeleteSelectedRows` is the `forEach` that issues the deletes.
  - The module ends with scenario lemmas that combine the modules.

`sortByTimeStamp` and `getWorkspaceStatus` are defined in other files of the
application. Here they are function parameters. Nothing about their results
is assumed, except that some lemmas suppose the sort returns a permutation of
its input (same multiset). The sort direction is never assumed.
`new Date(work.timestamp).toString()` is kept as an opaque `DateCell(timestamp)`.

Three points of the code's behaviour to note:

- The row count is the length of the sorted array. It is not the number of
  distinct ids; the two agree when the record ids are distinct
  (`UniqueRecordsGiveUniqueRows`).
- The selection comes from the FIRST previous row whose first cell carries
  the id.
- An out-of-range row index is not a no-op in the code. An index at or past
  the end grows the JavaScript array; a negative index other than -1 adds a
  property to the copy and leaves its length as it was. The model excludes
  both by a precondition.

## Model

| member | source | states |
|---|---|---|
| `Routes.RedirectRoute` | src/app/workspaces/Workspaces.tsx:124-125 | a redirect happens exactly when the route's workspace id is non-empty, and it goes to the detail route followed by `/projects` |
| `Routes.DetailRouteInjective` | src/app/workspaces/Workspaces.tsx:90 | distinct workspace ids give distinct `'/workspaces/' + id` routes |
| `Routes.ProjectsRouteInjective` | src/app/workspaces/Workspaces.tsx:125 | distinct workspace ids give distinct `/workspaces/<id>/projects` redirect targets |
| `WorkspaceRows.Find` | src/app/workspaces/Workspaces.tsx:98 | `find` returns nothing exactly when no row's first cell carries the id; otherwise it returns the first such row |
| `WorkspaceRows.OldSelection` | src/app/workspaces/Workspaces.tsx:98 | `oldRows?.find(...)?.selected`, defaulting to false, is true exactly when previous rows exist and the first one carrying the id is selected |
| `WorkspaceRows.Label` | src/app/workspaces/Workspaces.tsx:91 | the link text is never blank: the name when it is non-empty, otherwise a text from which the id reads back between `id: <` and `>` |
| `WorkspaceRows.GetRowsFromWorkspaces` | src/app/workspaces/Workspaces.tsx:84-100 | one row per sorted record, in sorted order. Its cells are: the id cell with a link to `'/workspaces/' + id` labelled by the name, or `id: <id>` when the name is empty; the date; the status. It is selected exactly when the first old row with that id exists and is selected |
| `WorkspaceRows.IdsOfPermutation` | src/app/workspaces/Workspaces.tsx:85 | reordering the records reorders their ids the same way (equal multisets of ids) |
| `WorkspaceRows.UniqueIdsAtOneIndex` | src/app/workspaces/Workspaces.tsx:98 | in a row list with one row per id, the row carrying an id is unique, so "the first match" is "the match" |
| `WorkspaceRows.RowsMatchRecords` | src/app/workspaces/Workspaces.tsx:85-99 | if the sort is a permutation: there are as many rows as records, the row ids are exactly the record ids, and row k carries the id of the k-th sorted record |
| `WorkspaceRows.RowOrderIgnoresOldRows` | src/app/workspaces/Workspaces.tsx:85-97 | the order and all cells of the rows are the same whatever the previous rows; only the flags can differ |
| `WorkspaceRows.NoRowForAbsentId` | src/app/workspaces/Workspaces.tsx:85-99 | if the sort is a permutation, no row exists for an id that no record has |
| `WorkspaceRows.UniqueRecordsGiveUniqueRows` | src/app/workspaces/Workspaces.tsx:85-99 | distinct record ids (and a permutation sort) give one row per id |
| `WorkspaceRows.SelectionSurvivesRefresh` | src/app/workspaces/Workspaces.tsx:98 | rebuilding over previous rows with one row per id: the new row for id x is selected exactly when the previous row for x was |
| `WorkspaceRows.NewRowStartsUnselected` | src/app/workspaces/Workspaces.tsx:98 | a row whose id matches no previous row, or that is built without previous rows, is unselected |
| `WorkspaceRows.NoRecordsNoRows` | src/app/workspaces/Workspaces.tsx:85 | no records give no rows, whatever the previous rows |
| `WorkspaceRows.UndefinedOldRowsIsEmpty` | src/app/workspaces/Workspaces.tsx:98 | undefined `oldRows` gives the same rows as an empty `oldRows` |
| `WorkspaceRows.SingleWorkspaceFirstLoad` | src/app/workspaces/Workspaces.tsx:84-121 | one named workspace on the first load, with the page's initial `[]` (or undefined) as previous rows, gives exactly one unselected row, with its id, linked to its detail route and labelled by its name |
| `RowSelection.SelectAll` | src/app/workspaces/Workspaces.tsx:148-151 | header checkbox: same length, every row's cells unchanged, every flag equal to `isSelected` |
| `RowSelection.SetSelected` | src/app/workspaces/Workspaces.tsx:146-157 | same length and cells. For -1, every flag is `isSelected`. For an in-range index, that row's flag is `isSelected` and every other row is identical |
| `RowSelection.SelectionKeepsRowIds` | src/app/workspaces/Workspaces.tsx:149-154 | a selection change keeps each row well formed, with its id at its position |
| `RowSelection.SelectingAgainChangesNothing` | src/app/workspaces/Workspaces.tsx:153-154 | setting a row to the state it already has returns the same rows |
| `RowSelection.SelectAllLastWins` | src/app/workspaces/Workspaces.tsx:148-149 | two header-checkbox gestures in a row equal the second one alone |
| `RowActions.SelectedIndices` | src/app/workspaces/Workspaces.tsx:159 | the selected row positions, strictly increasing, each one in range and selected, and every selected row is among them |
| `RowActions.SelectedRows` | src/app/workspaces/Workspaces.tsx:159 | `filter((r) => r.selected)` keeps exactly the rows at the selected positions, in row order |
| `RowActions.ShowDeleteButton` | src/app/workspaces/Workspaces.tsx:166 | the delete button is shown exactly when some row is selected |
| `RowActions.DeleteButtonIffSomethingToDelete` | src/app/workspaces/Workspaces.tsx:158-166 | the delete button is shown exactly when a bulk delete would delete at least one workspace |
| `RowActions.EmptyStateXorTable` | src/app/workspaces/Workspaces.tsx:169-181 | exactly one of the empty state and the table is shown, and the empty state exactly when there are no rows |
| `RowActions.OnDetails` | src/app/workspaces/Workspaces.tsx:132-135 | no effect exactly when the row is missing or has no cells; otherwise navigation to `'/workspaces/' + cells[0].id` |
| `RowActions.OnDelete` | src/app/workspaces/Workspaces.tsx:140-143 | no effect exactly when the row is missing or has no cells; otherwise one delete of `cells[0].id` |
| `WorkspacesPage.Page.constructor` | src/app/workspaces/Workspaces.tsx:105 | the page starts with no rows |
| `WorkspacesPage.Page.OnWorkspacesChanged` | src/app/workspaces/Workspaces.tsx:119-122 | the new rows are those rebuilt from the records over the current rows, and every row stays well formed |
| `WorkspacesPage.Page.OnRowSelect` | src/app/workspaces/Workspaces.tsx:146-157 | the new rows are the selection change of the old rows (by value copy to a fresh array for an index), and every row stays well formed |
| `WorkspacesPage.Page.DeleteSelectedRows` | src/app/workspaces/Workspaces.tsx:158-160 | one `deleteWorkspace` per selected row, in row order, on that row's id, none for unselected rows |
| `WorkspacesPage.BulkDeleteOnlyNamesRows` | src/app/workspaces/Workspaces.tsx:159 | a bulk delete never names an id that no row carries |
| `WorkspacesPage.SelectAllSurvivesRefresh` | src/app/workspaces/Workspaces.tsx:98-151 | select all, then rebuild from the same records: every row is still selected |
| `WorkspacesPage.DeletedWorkspaceLeavesSelection` | src/app/workspaces/Workspaces.tsx:98-159 | after a refresh whose records lack a workspace, no row has its id and no bulk delete names it, selected or not before |
| `WorkspacesPage.ActionsFollowTheLink` | src/app/workspaces/Workspaces.tsx:90-142 | on a built row, Details goes where the row's link points and Delete deletes the row's workspace |

## Left out

- The rendering is not modelled. This covers the JSX (`WorkspacesToolbar`, `Modal`, `NewWorkspaceForm`, `Table`, `Bullseye`, `Link`, `Redirect`) and `console.log`, which are presentation only.
- `ctx.listWorkspaces` is not modelled. It is an asynchronous network call defined elsewhere. With it go the `workErr` state, the `ErrHTTP401` redirect to `/login`, and the refresh `toggle` that re-runs it.
- `ctx.deleteWorkspace` and `ctx.goToRoute` are asynchronous or navigational and defined elsewhere. Each is modelled only as the id or route it receives.
- `sortByTimeStamp` and `getWorkspaceStatus` are defined in other files. They are parameters, and their behaviour, including the sort direction, is not modelled.
- `new Date(work.timestamp).toString()` is locale- and time-zone-dependent. It is kept as the opaque `DateCell(timestamp)`.
- The workspace record keeps only `id`, `name` and `timestamp`. The status classifier is a parameter that sees only these three fields, so two records that agree on them get the same status label in the model; the other record fields the real classifier reads are not modelled.
- An absent `name` and an absent route `workspaceId` are folded into the empty string, since both are falsy in the source.
- `src/features/common/constants.ts` is not modelled. It holds four configuration constants with no logic.
- Concurrency is not modelled: overlapping fetches, out-of-order completion, effects running after unmount. The event loop serialises every handler modelled here.
- WorkspaceRows.GetRowsFromWorkspaces: it requires every previous row to have a non-empty `cells` list. In the source, `r.cells[0].id` throws when `find` reaches such a row before any matching row; rows after the first match are never read, so the precondition is stronger than the source needs there. The page's own rows always meet this.
- WorkspaceRows.Find: it has the same all-rows-have-cells precondition as GetRowsFromWorkspaces, which is stronger than the source because `find` never reads rows after the first match.
- WorkspaceRows.OldSelection: it has the same all-rows-have-cells precondition, stronger than the source for the same reason.
- RowSelection.SetSelected: it requires `rowId` to be -1 or an index inside the list. An index at or past the end would grow the JavaScript array, and a negative index other than -1 would add a property without changing the length; neither is modelled.
- RowActions.OnDetails: it requires a row that passes the guard to start with its id cell. This is what the cast `as WorkspacesRowT` takes for granted.
- RowActions.OnDelete: it requires a row that passes the guard to start with its id cell, like OnDetails.
- WorkspacesPage.Page.OnRowSelect: the rows are held as a value sequence. The fresh array built for the index branch is not kept, so the referential replacement React relies on is not modelled.
- WorkspaceRows.RowsMatchRecords: the row count and ids match the records only if `sortByTimeStamp` returns a permutation of its input, which is taken as a hypothesis.
- WorkspaceRows.NoRowForAbsentId: it holds under the same permutation hypothesis on `sortByTimeStamp`.
- WorkspaceRows.UniqueRecordsGiveUniqueRows: it holds under the same permutation hypothesis on `sortByTimeStamp`.
