/**
 * The row model behind the workspaces table: how a list of workspace
 * records becomes an ordered list of selectable rows, and how the selection
 * of the previous rows is carried over by workspace id.
 *
 * `sortByTimeStamp` and `getWorkspaceStatus` belong to other modules of the
 * application and are parameters here; nothing is assumed about them except
 * where a lemma says so (the sort being a permutation of its input).
 */
module WorkspaceRows {
  import opened Wrappers
  import opened Routes

  /** A workspace record, reduced to the fields the row model reads; an
      absent `name` is the empty string. The record's other fields are not
      modelled (the status classifier sees only these three). */
  datatype Workspace = Workspace(id: string, name: string, timestamp: int)

  /** The `<Link>` in the first cell: its target route and its text. */
  datatype Link = Link(to: string, text: string)

  /** A table cell: the first cell carries the workspace id and its link,
      `DateCell` stands for the locale-dependent `new Date(timestamp).toString()`,
      `StatusCell` holds the classifier's label. */
  datatype Cell =
    | NameCell(id: string, title: Link)
    | DateCell(timestamp: int)
    | StatusCell(status: string)

  datatype Row = Row(cells: seq<Cell>, selected: bool)

  /** `r.cells[0]` exists; looking up `r.cells[0].id` throws otherwise. */
  predicate HasCells(r: Row) {
    |r.cells| > 0
  }

  predicate AllHaveCells(rows: seq<Row>) {
    forall k :: 0 <= k < |rows| ==> HasCells(rows[k])
  }

  /** The first cell is the id cell, as in every row this page builds. */
  predicate HasIdCell(r: Row) {
    |r.cells| > 0 && r.cells[0].NameCell?
  }

  predicate WellFormed(rows: seq<Row>) {
    forall k :: 0 <= k < |rows| ==> HasIdCell(rows[k])
  }

  function RowId(r: Row): string
    requires HasIdCell(r)
  {
    r.cells[0].id
  }

  function RowIds(rows: seq<Row>): (ids: seq<string>)
    requires WellFormed(rows)
  {
    seq(|rows|, k requires 0 <= k < |rows| => RowId(rows[k]))
  }

  function Ids(workspaces: seq<Workspace>): (ids: seq<string>) {
    seq(|workspaces|, k requires 0 <= k < |workspaces| => workspaces[k].id)
  }

  /** `r.cells[0].id === id`; a first cell without an id never matches. */
  predicate Matches(r: Row, id: string) {
    |r.cells| > 0 && r.cells[0].NameCell? && r.cells[0].id == id
  }

  /** Row `j` is the first row of `rows` that matches `id`. */
  predicate FirstMatch(rows: seq<Row>, id: string, j: int) {
    0 <= j < |rows| && Matches(rows[j], id) && forall i :: 0 <= i < j ==> !Matches(rows[i], id)
  }

  /** `rows.find((r) => r.cells[0].id === id)` */
  function Find(rows: seq<Row>, id: string): (found: Option<Row>)
    requires AllHaveCells(rows)
    ensures found.None? <==> forall j :: 0 <= j < |rows| ==> !Matches(rows[j], id)
    ensures found.Some? ==> exists j :: FirstMatch(rows, id, j) && found.value == rows[j]
  {
    if rows == [] then None
    else if Matches(rows[0], id) then
      assert FirstMatch(rows, id, 0);
      Some(rows[0])
    else
      FindInTail(rows, id);
      Find(rows[1..], id)
  }

  /** When the head does not match, the first match of the tail is the first
      match of the whole list, one position further on. */
  lemma FindInTail(rows: seq<Row>, id: string)
    requires rows != [] && !Matches(rows[0], id)
    ensures forall j :: FirstMatch(rows[1..], id, j) ==> FirstMatch(rows, id, j + 1)
  {
    forall j | FirstMatch(rows[1..], id, j)
      ensures FirstMatch(rows, id, j + 1)
    {
      forall i | 0 <= i < j + 1
        ensures !Matches(rows[i], id)
      {
        if i > 0 {
          assert rows[i] == rows[1..][i - 1];
        }
      }
    }
  }

  /** The selection a new row inherits: that of the first old row with its id. */
  ghost predicate Inherits(oldRows: Option<seq<Row>>, id: string) {
    oldRows.Some? && exists j :: FirstMatch(oldRows.value, id, j) && oldRows.value[j].selected
  }

  /** `oldRows?.find(...)?.selected || false` */
  function OldSelection(oldRows: Option<seq<Row>>, id: string): (selected: bool)
    requires oldRows.Some? ==> AllHaveCells(oldRows.value)
    ensures selected <==> Inherits(oldRows, id)
  {
    match oldRows
    case None => false
    case Some(rs) =>
      match Find(rs, id)
      case None => false
      case Some(r) => r.selected
  }

  /** `work.name || `id: <${work.id}>``: never blank, and when the name is
      empty the id can be read back from between `id: <` and `>`. */
  function Label(work: Workspace): (text: string)
    ensures text != ""
    ensures work.name != "" ==> text == work.name
    ensures work.name == "" ==> |text| == |work.id| + 6 && text[5..|text| - 1] == work.id
    ensures work.name == "" ==> text[..5] == "id: <" && text[|text| - 1] == '>'
  {
    if work.name != "" then work.name else "id: <" + work.id + ">"
  }

  /**
   * `getRowsFromWorkspaces`: one row per element of the sorted records, in
   * sorted order, whose cells are the id cell with its link, the date and
   * the status, and whose flag is inherited through the first old row with
   * the same id.
   */
  function GetRowsFromWorkspaces(
    workspaces: seq<Workspace>,
    oldRows: Option<seq<Row>>,
    sortByTimeStamp: seq<Workspace> -> seq<Workspace>,
    status: Workspace -> string
  ): (rows: seq<Row>)
    requires oldRows.Some? ==> AllHaveCells(oldRows.value)
    ensures |rows| == |sortByTimeStamp(workspaces)|
    ensures WellFormed(rows)
    ensures forall k :: 0 <= k < |rows| ==>
      var work := sortByTimeStamp(workspaces)[k];
      rows[k].cells == [
        NameCell(work.id, Link(DetailRoute(work.id), if work.name != "" then work.name else "id: <" + work.id + ">")),
        DateCell(work.timestamp),
        StatusCell(status(work))
      ]
    ensures forall k :: 0 <= k < |rows| ==>
      (rows[k].selected <==> Inherits(oldRows, sortByTimeStamp(workspaces)[k].id))
  {
    var sorted := sortByTimeStamp(workspaces);
    seq(|sorted|, k requires 0 <= k < |sorted| =>
      var work := sorted[k];
      Row([NameCell(work.id, Link(DetailRoute(work.id), Label(work))), DateCell(work.timestamp), StatusCell(status(work))],
          OldSelection(oldRows, work.id)))
  }

  /** At most one element per id. */
  ghost predicate UniqueIds(ids: seq<string>) {
    forall x :: multiset(ids)[x] <= 1
  }

  predicate IsPermutationOf<T(==)>(a: seq<T>, b: seq<T>) {
    multiset(a) == multiset(b)
  }

  lemma IdsConcat(a: seq<Workspace>, b: seq<Workspace>)
    ensures Ids(a + b) == Ids(a) + Ids(b)
  {
    assert forall k :: 0 <= k < |a| + |b| ==> Ids(a + b)[k] == (Ids(a) + Ids(b))[k];
  }

  /** Reordering the records reorders their ids in the same way. */
  lemma {:induction false} IdsOfPermutation(a: seq<Workspace>, b: seq<Workspace>)
    requires IsPermutationOf(a, b)
    ensures multiset(Ids(a)) == multiset(Ids(b))
    decreases |a|
  {
    if a == [] {
      assert |b| == |multiset(b)| == 0;
    } else {
      assert a[0] in multiset(b);
      var j :| 0 <= j < |b| && b[j] == a[0];
      RemoveAt(b, j);
      Uncons(a);
      IdsOfPermutation(a[1..], b[..j] + b[j + 1..]);
      IdsRemoveAt(b, j);
    }
  }

  /** Taking the first record off removes it, and its id, once. */
  lemma Uncons(a: seq<Workspace>)
    requires a != []
    ensures multiset(a[1..]) == multiset(a) - multiset{a[0]}
    ensures multiset(Ids(a)) == multiset(Ids(a[1..])) + multiset{a[0].id}
  {
    assert a == [a[0]] + a[1..];
    IdsConcat([a[0]], a[1..]);
    assert Ids([a[0]]) == [a[0].id];
  }

  lemma RemoveAt(s: seq<Workspace>, j: int)
    requires 0 <= j < |s|
    ensures multiset(s[..j] + s[j + 1..]) == multiset(s) - multiset{s[j]}
  {
    assert s == s[..j] + [s[j]] + s[j + 1..];
  }

  lemma IdsRemoveAt(s: seq<Workspace>, j: int)
    requires 0 <= j < |s|
    ensures multiset(Ids(s)) == multiset(Ids(s[..j] + s[j + 1..])) + multiset{s[j].id}
  {
    assert s == s[..j] + [s[j]] + s[j + 1..];
    IdsConcat(s[..j], [s[j]] + s[j + 1..]);
    IdsConcat([s[j]], s[j + 1..]);
    IdsConcat(s[..j], s[j + 1..]);
    assert Ids([s[j]]) == [s[j].id];
    assert Ids(s) == Ids(s[..j]) + [s[j].id] + Ids(s[j + 1..]);
  }

  /** In a list without duplicate ids, an id sits at one index only. */
  lemma UniqueIdsAtOneIndex(ids: seq<string>, i: int, j: int)
    requires UniqueIds(ids)
    requires 0 <= i < |ids| && 0 <= j < |ids| && ids[i] == ids[j]
    ensures i == j
  {
    if i < j {
      TwoIndicesCountTwice(ids, i, j);
    } else if j < i {
      TwoIndicesCountTwice(ids, j, i);
    }
  }

  lemma TwoIndicesCountTwice(ids: seq<string>, lo: int, hi: int)
    requires 0 <= lo < hi < |ids| && ids[lo] == ids[hi]
    ensures multiset(ids)[ids[lo]] >= 2
  {
    assert ids == ids[..lo] + [ids[lo]] + ids[lo + 1..hi] + [ids[hi]] + ids[hi + 1..];
  }

  /**
   * When `sortByTimeStamp` returns a permutation of its input, there are as
   * many rows as records, their ids are the records' ids, and the i-th row
   * carries the id of the i-th sorted record.
   */
  lemma RowsMatchRecords(
    workspaces: seq<Workspace>,
    oldRows: Option<seq<Row>>,
    sortByTimeStamp: seq<Workspace> -> seq<Workspace>,
    status: Workspace -> string
  )
    requires oldRows.Some? ==> AllHaveCells(oldRows.value)
    requires IsPermutationOf(sortByTimeStamp(workspaces), workspaces)
    ensures var rows := GetRowsFromWorkspaces(workspaces, oldRows, sortByTimeStamp, status);
      && |rows| == |workspaces|
      && multiset(RowIds(rows)) == multiset(Ids(workspaces))
      && RowIds(rows) == Ids(sortByTimeStamp(workspaces))
  {
    var sorted := sortByTimeStamp(workspaces);
    var rows := GetRowsFromWorkspaces(workspaces, oldRows, sortByTimeStamp, status);
    assert |sorted| == |multiset(sorted)| == |multiset(workspaces)| == |workspaces|;
    assert RowIds(rows) == Ids(sorted);
    IdsOfPermutation(sorted, workspaces);
  }

  /** The order and cells of the rows do not depend on the previous rows. */
  lemma RowOrderIgnoresOldRows(
    workspaces: seq<Workspace>,
    oldRows1: Option<seq<Row>>,
    oldRows2: Option<seq<Row>>,
    sortByTimeStamp: seq<Workspace> -> seq<Workspace>,
    status: Workspace -> string
  )
    requires oldRows1.Some? ==> AllHaveCells(oldRows1.value)
    requires oldRows2.Some? ==> AllHaveCells(oldRows2.value)
    ensures var rows1 := GetRowsFromWorkspaces(workspaces, oldRows1, sortByTimeStamp, status);
      var rows2 := GetRowsFromWorkspaces(workspaces, oldRows2, sortByTimeStamp, status);
      |rows1| == |rows2| && forall k :: 0 <= k < |rows1| ==> rows1[k].cells == rows2[k].cells
  {
  }

  /** When the sort is a permutation, no row exists for an id that no record has. */
  lemma NoRowForAbsentId(
    workspaces: seq<Workspace>,
    oldRows: Option<seq<Row>>,
    sortByTimeStamp: seq<Workspace> -> seq<Workspace>,
    status: Workspace -> string,
    id: string
  )
    requires oldRows.Some? ==> AllHaveCells(oldRows.value)
    requires IsPermutationOf(sortByTimeStamp(workspaces), workspaces)
    requires forall k :: 0 <= k < |workspaces| ==> workspaces[k].id != id
    ensures var rows := GetRowsFromWorkspaces(workspaces, oldRows, sortByTimeStamp, status);
      forall k :: 0 <= k < |rows| ==> RowId(rows[k]) != id
  {
    var sorted := sortByTimeStamp(workspaces);
    forall k | 0 <= k < |sorted|
      ensures sorted[k].id != id
    {
      assert sorted[k] in multiset(workspaces);
      var i :| 0 <= i < |workspaces| && workspaces[i] == sorted[k];
    }
  }

  /** Distinct record ids give distinct row ids (the table has one row per workspace). */
  lemma UniqueRecordsGiveUniqueRows(
    workspaces: seq<Workspace>,
    oldRows: Option<seq<Row>>,
    sortByTimeStamp: seq<Workspace> -> seq<Workspace>,
    status: Workspace -> string
  )
    requires oldRows.Some? ==> AllHaveCells(oldRows.value)
    requires IsPermutationOf(sortByTimeStamp(workspaces), workspaces)
    requires UniqueIds(Ids(workspaces))
    ensures UniqueIds(RowIds(GetRowsFromWorkspaces(workspaces, oldRows, sortByTimeStamp, status)))
  {
    RowsMatchRecords(workspaces, oldRows, sortByTimeStamp, status);
  }

  /**
   * A refresh over previous rows with one row per id keeps each surviving
   * workspace's flag: the new row for id x is selected exactly when the old
   * row for x was.
   */
  lemma SelectionSurvivesRefresh(
    previous: seq<Row>,
    workspaces: seq<Workspace>,
    sortByTimeStamp: seq<Workspace> -> seq<Workspace>,
    status: Workspace -> string,
    j: int
  )
    requires WellFormed(previous) && UniqueIds(RowIds(previous))
    requires 0 <= j < |previous|
    ensures var rows := GetRowsFromWorkspaces(workspaces, Some(previous), sortByTimeStamp, status);
      forall k :: 0 <= k < |rows| && RowId(rows[k]) == RowId(previous[j]) ==>
        rows[k].selected == previous[j].selected
  {
    var x := RowId(previous[j]);
    forall i | 0 <= i < j
      ensures !Matches(previous[i], x)
    {
      if Matches(previous[i], x) {
        UniqueIdsAtOneIndex(RowIds(previous), i, j);
      }
    }
    assert FirstMatch(previous, x, j);
    forall j' | FirstMatch(previous, x, j')
      ensures j' == j
    {
      UniqueIdsAtOneIndex(RowIds(previous), j', j);
    }
  }

  /** A row whose id had no previous row starts unselected, as on the first load. */
  lemma NewRowStartsUnselected(
    oldRows: Option<seq<Row>>,
    workspaces: seq<Workspace>,
    sortByTimeStamp: seq<Workspace> -> seq<Workspace>,
    status: Workspace -> string,
    k: int
  )
    requires oldRows.Some? ==> AllHaveCells(oldRows.value)
    requires 0 <= k < |GetRowsFromWorkspaces(workspaces, oldRows, sortByTimeStamp, status)|
    requires oldRows.Some? ==> forall j :: 0 <= j < |oldRows.value| ==>
      !Matches(oldRows.value[j], sortByTimeStamp(workspaces)[k].id)
    ensures !GetRowsFromWorkspaces(workspaces, oldRows, sortByTimeStamp, status)[k].selected
  {
  }

  /** No records (under a permutation sort) give no rows, whatever the previous rows. */
  lemma NoRecordsNoRows(
    oldRows: Option<seq<Row>>,
    sortByTimeStamp: seq<Workspace> -> seq<Workspace>,
    status: Workspace -> string
  )
    requires oldRows.Some? ==> AllHaveCells(oldRows.value)
    requires IsPermutationOf(sortByTimeStamp([]), [])
    ensures GetRowsFromWorkspaces([], oldRows, sortByTimeStamp, status) == []
  {
    assert |sortByTimeStamp([])| == |multiset(sortByTimeStamp([]))| == 0;
  }

  /** Undefined previous rows behave exactly like an empty list of previous rows. */
  lemma UndefinedOldRowsIsEmpty(
    workspaces: seq<Workspace>,
    sortByTimeStamp: seq<Workspace> -> seq<Workspace>,
    status: Workspace -> string
  )
    ensures GetRowsFromWorkspaces(workspaces, None, sortByTimeStamp, status)
         == GetRowsFromWorkspaces(workspaces, Some([]), sortByTimeStamp, status)
  {
  }

  /**
   * A single workspace appearing on the first load, where the page passes its
   * initial empty rows (or no rows at all), gives one unselected row labelled
   * by its name.
   */
  lemma SingleWorkspaceFirstLoad(
    work: Workspace,
    oldRows: Option<seq<Row>>,
    sortByTimeStamp: seq<Workspace> -> seq<Workspace>,
    status: Workspace -> string
  )
    requires oldRows == None || oldRows == Some([])
    requires IsPermutationOf(sortByTimeStamp([work]), [work])
    requires work.name != ""
    ensures var rows := GetRowsFromWorkspaces([work], oldRows, sortByTimeStamp, status);
      |rows| == 1 && !rows[0].selected && RowId(rows[0]) == work.id
      && rows[0].cells[0].title == Link(DetailRoute(work.id), work.name)
  {
    var sorted := sortByTimeStamp([work]);
    assert |sorted| == |multiset(sorted)| == 1;
    assert sorted[0] in multiset([work]);
  }
}
