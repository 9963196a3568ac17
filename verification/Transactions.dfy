/**
 Optimistic transactions. Staging records one filter per captured row version; commit
 checks that each filter still finds exactly one row and replays the operation on the
 disjunction. Main results: the replay selects exactly the captured versions, it
 conflicts exactly when one of them is gone, and without captured rows it selects nothing.
 A captured version has no foreign-key columns, so a change of those alone is not noticed.
 */
module Transactions {
  import opened Wrappers
  import opened Values
  import opened Sequences
  import opened Filters
  import opened TableIndexes
  import opened Overlays

  // ----- Staging

  function FoldCells(primaryKey: string, filter: Filter, cells: NamedRow): Filter
    decreases |cells|
  {
    if cells == [] then filter
    else
      var (column, value) := cells[0];
      FoldCells(primaryKey, if column != primaryKey then And(filter, Eq(column, value)) else filter, cells[1..])
  }

  /** The filter for one captured row version: its key and every other cell. */
  function CapturedFilter(primaryKey: string, key: Value, row: NamedRow): Filter {
    FoldCells(primaryKey, Eq(primaryKey, key), row)
  }

  /** A captured row with its primary-key value. */
  datatype Captured = Captured(key: Value, row: NamedRow)

  function CapturedFilters(primaryKey: string, captured: seq<Captured>): (filters: seq<Filter>)
    ensures |filters| == |captured|
    ensures forall k :: 0 <= k < |captured| ==>
              filters[k] == CapturedFilter(primaryKey, captured[k].key, captured[k].row)
  {
    seq(|captured|, k requires 0 <= k < |captured| => CapturedFilter(primaryKey, captured[k].key, captured[k].row))
  }

  /** What a delete does about rows that reference a deleted one. */
  datatype DeleteBehavior = Restrict | Cascade

  datatype TransactionOp =
    | InsertOp(table: string, values: NamedRow)
    | DeleteOp(table: string, behavior: DeleteBehavior, filters: seq<Filter>)
    | UpdateOp(table: string, patch: NamedRow, filters: seq<Filter>)

  // ----- The overlay entries of a staged operation

  type Overlay = map<string, seq<OverlayOp>>

  function OverlayOf(overlay: Overlay, table: string): seq<OverlayOp> {
    if table in overlay then overlay[table] else []
  }

  function UpdatesOf(captured: seq<Captured>, patch: NamedRow): (ops: seq<OverlayOp>)
    ensures |ops| == |captured|
  {
    seq(|captured|, k requires 0 <= k < |captured| => UpdateRow(captured[k].key, patch))
  }

  function DeletesOf(captured: seq<Captured>): (ops: seq<OverlayOp>)
    ensures |ops| == |captured|
  {
    seq(|captured|, k requires 0 <= k < |captured| => DeleteRow(captured[k].key))
  }

  /** Whether `after` is `before` with `ops` added to the table. */
  ghost predicate Extended(before: Overlay, after: Overlay, table: string, ops: seq<OverlayOp>) {
    forall t :: OverlayOf(after, t) == if t == table then OverlayOf(before, t) + ops else OverlayOf(before, t)
  }

  lemma ExtendedNothing(overlay: Overlay, table: string)
    ensures Extended(overlay, overlay, table, [])
  {
  }

  lemma ExtendedStep(before: Overlay, middle: Overlay, table: string, ops: seq<OverlayOp>, op: OverlayOp)
    requires Extended(before, middle, table, ops)
    ensures Extended(before, middle[table := OverlayOf(middle, table) + [op]], table, ops + [op])
  {
  }

  datatype StagingError = MissingPrimaryKey

  class Transaction {
    var operations: seq<TransactionOp>
    var overlay: Overlay

    constructor ()
      ensures operations == [] && overlay == map[]
    {
      operations := [];
      overlay := map[];
    }

    /** Stages an insert; a row without its primary key is refused. */
    method Insert(table: string, primaryKey: string, values: NamedRow) returns (r: Result<(), StagingError>)
      modifies this
      ensures r.Ok? <==> Lookup(values, primaryKey).Some?
      ensures r.Err? ==> operations == old(operations) && overlay == old(overlay)
      ensures r.Ok? ==>
                && operations == old(operations) + [InsertOp(table, values)]
                && Extended(old(overlay), overlay, table, [InsertRow(Lookup(values, primaryKey).value, values)])
    {
      var key := Lookup(values, primaryKey);
      if key == None {
        return Err(MissingPrimaryKey);
      }
      overlay := overlay[table := OverlayOf(overlay, table) + [InsertRow(key.value, values)]];
      operations := operations + [InsertOp(table, values)];
      return Ok(());
    }

    method Update(table: string, primaryKey: string, patch: NamedRow, captured: seq<Captured>)
      modifies this
      ensures operations == old(operations) + [UpdateOp(table, patch, CapturedFilters(primaryKey, captured))]
      ensures Extended(old(overlay), overlay, table, UpdatesOf(captured, patch))
    {
      hide Extended, CapturedFilter;
      var filters: seq<Filter> := [];
      ghost var added: seq<OverlayOp> := [];
      ExtendedNothing(overlay, table);
      for k := 0 to |captured|
        invariant filters == CapturedFilters(primaryKey, captured)[..k]
        invariant operations == old(operations)
        invariant added == UpdatesOf(captured, patch)[..k] && Extended(old(overlay), overlay, table, added)
      {
        ExtendedStep(old(overlay), overlay, table, added, UpdateRow(captured[k].key, patch));
        added := added + [UpdateRow(captured[k].key, patch)];
        overlay := overlay[table := OverlayOf(overlay, table) + [UpdateRow(captured[k].key, patch)]];
        filters := filters + [CapturedFilter(primaryKey, captured[k].key, captured[k].row)];
      }
      assert filters == CapturedFilters(primaryKey, captured);
      assert UpdatesOf(captured, patch)[..|captured|] == UpdatesOf(captured, patch);
      operations := operations + [UpdateOp(table, patch, filters)];
    }

    method Delete(table: string, primaryKey: string, behavior: DeleteBehavior, captured: seq<Captured>)
      modifies this
      ensures operations == old(operations) + [DeleteOp(table, behavior, CapturedFilters(primaryKey, captured))]
      ensures Extended(old(overlay), overlay, table, DeletesOf(captured))
    {
      hide Extended, CapturedFilter;
      var filters: seq<Filter> := [];
      ghost var added: seq<OverlayOp> := [];
      ExtendedNothing(overlay, table);
      for k := 0 to |captured|
        invariant filters == CapturedFilters(primaryKey, captured)[..k]
        invariant operations == old(operations)
        invariant added == DeletesOf(captured)[..k] && Extended(old(overlay), overlay, table, added)
      {
        ExtendedStep(old(overlay), overlay, table, added, DeleteRow(captured[k].key));
        added := added + [DeleteRow(captured[k].key)];
        overlay := overlay[table := OverlayOf(overlay, table) + [DeleteRow(captured[k].key)]];
        filters := filters + [CapturedFilter(primaryKey, captured[k].key, captured[k].row)];
      }
      assert filters == CapturedFilters(primaryKey, captured);
      assert DeletesOf(captured)[..|captured|] == DeletesOf(captured);
      operations := operations + [DeleteOp(table, behavior, filters)];
    }
  }

  // ----- Validation at commit

  /** The addresses of the rows that `filter` admits. */
  function Selected(less: Less, rows: Rows, filter: Filter): set<Address> {
    set address | address in rows && Matches(less, filter, rows[address])
  }

  function OrAll(filter: Filter, rest: seq<Filter>): Filter
    decreases |rest|
  {
    if rest == [] then filter else OrAll(Or(filter, rest[0]), rest[1..])
  }

  /** The disjunction of `filters` in order; none for no filters. */
  function Disjunction(filters: seq<Filter>): Option<Filter> {
    if filters == [] then None else Some(OrAll(filters[0], filters[1..]))
  }

  datatype Conflict = Conflict

  predicate EachSelectsOne(less: Less, rows: Rows, filters: seq<Filter>) {
    forall k | 0 <= k < |filters| :: |Selected(less, rows, filters[k])| == 1
  }

  /** Checks each captured version and combines them into one filter, unless there are none. */
  method ValidatedFilter(less: Less, rows: Rows, filters: seq<Filter>) returns (r: Result<Option<Filter>, Conflict>)
    ensures r == if EachSelectsOne(less, rows, filters) then Ok(Disjunction(filters)) else Err(Conflict)
  {
    for k := 0 to |filters|
      invariant forall j :: 0 <= j < k ==> |Selected(less, rows, filters[j])| == 1
    {
      if |Selected(less, rows, filters[k])| != 1 {
        return Err(Conflict);
      }
    }
    if filters == [] {
      return Ok(None);
    }
    var filter := filters[0];
    for k := 1 to |filters|
      invariant OrAll(filter, filters[k..]) == OrAll(filters[0], filters[1..])
    {
      filter := Or(filter, filters[k]);
    }
    return Ok(Some(filter));
  }

  // ----- What the filters select

  lemma {:induction false} FoldMatches(less: Less, primaryKey: string, filter: Filter, cells: NamedRow, row: NamedRow)
    ensures Matches(less, FoldCells(primaryKey, filter, cells), row)
       <==> && Matches(less, filter, row)
            && forall cell :: cell in cells && cell.0 != primaryKey ==> cell in row
    decreases |cells|
  {
    hide Matches;
    if cells != [] {
      var (column, value) := cells[0];
      var next := if column != primaryKey then And(filter, Eq(column, value)) else filter;
      FoldMatches(less, primaryKey, next, cells[1..], row);
      EqSeesCell(less, column, value, row);
      AndMatches(less, filter, Eq(column, value), row);
      assert forall cell :: cell in cells <==> cell == cells[0] || cell in cells[1..];
    }
  }

  lemma AndMatches(less: Less, left: Filter, right: Filter, row: NamedRow)
    ensures Matches(less, And(left, right), row) == (Matches(less, left, row) && Matches(less, right, row))
  {
  }

  lemma EqSeesCell(less: Less, column: string, value: Value, row: NamedRow)
    ensures Matches(less, Eq(column, value), row) <==> (column, value) in row
  {
    LeafSeesCells(less, Eq(column, value), row);
  }

  /**
   The columns of a captured row: it is read as a typed record, which leaves out the columns
   with a foreign key, in table order. The primary key is among them.
   */
  ghost predicate ValidShown(columns: seq<string>, shown: seq<string>, primaryKey: string) {
    && (forall i, j :: 0 <= i < j < |columns| ==> columns[i] != columns[j])
    && (forall i, j :: 0 <= i < j < |shown| ==> shown[i] != shown[j])
    && (forall column :: column in shown ==> column in columns)
    && primaryKey in shown
  }

  /** Whether `captured` has exactly the shown columns and is paired with its own key. */
  ghost predicate ValidCapture(shown: seq<string>, primaryKey: string, captured: Captured) {
    FitsColumns(shown, captured.row) && (primaryKey, captured.key) in captured.row
  }

  // The cell of a stored row in one of its columns.
  lemma CellOfRow(columns: seq<string>, row: NamedRow, column: string, value: Value)
    requires forall i, j :: 0 <= i < j < |columns| ==> columns[i] != columns[j]
    requires FitsColumns(columns, row) && column in columns
    ensures (column, value) in row <==> CellOrNull(row, column) == value
  {
    var k :| 0 <= k < |columns| && columns[k] == column;
    LookupAt(columns, row, k);
    assert row[k] == (column, CellOrNull(row, column));
    if (column, value) in row {
      var j :| 0 <= j < |row| && row[j] == (column, value);
      assert columns[j] == columns[k];
    }
  }

  /** A captured filter admits exactly the stored rows that agree with the capture on every shown column. */
  lemma CapturedExactly(less: Less, columns: seq<string>, shown: seq<string>, primaryKey: string, captured: Captured, row: NamedRow)
    requires ValidShown(columns, shown, primaryKey)
    requires ValidCapture(shown, primaryKey, captured) && FitsColumns(columns, row)
    ensures Matches(less, CapturedFilter(primaryKey, captured.key, captured.row), row) <==> Complete(shown, row) == captured.row
  {
    hide Matches, CapturedFilter;
    CapturedCells(less, primaryKey, captured, row);
    forall k | 0 <= k < |shown|
      ensures captured.row[k] in row <==> Complete(shown, row)[k] == captured.row[k]
      ensures shown[k] == primaryKey ==> captured.row[k] == (primaryKey, captured.key)
    {
      CellOfRow(columns, row, shown[k], captured.row[k].1);
      KeyCell(shown, captured.row, k, primaryKey, captured.key);
    }
    if Matches(less, CapturedFilter(primaryKey, captured.key, captured.row), row) {
      forall k | 0 <= k < |shown|
        ensures captured.row[k] in row
      {
        assert captured.row[k] in captured.row;
      }
      assert Complete(shown, row) == captured.row;
    }
  }

  lemma CapturedCells(less: Less, primaryKey: string, captured: Captured, row: NamedRow)
    ensures Matches(less, CapturedFilter(primaryKey, captured.key, captured.row), row)
       <==> && (primaryKey, captured.key) in row
            && forall cell :: cell in captured.row && cell.0 != primaryKey ==> cell in row
  {
    FoldMatches(less, primaryKey, Eq(primaryKey, captured.key), captured.row, row);
    EqSeesCell(less, primaryKey, captured.key, row);
  }

  // The cell of the primary key is the captured key itself.
  lemma KeyCell(columns: seq<string>, row: NamedRow, k: nat, primaryKey: string, key: Value)
    requires forall i, j :: 0 <= i < j < |columns| ==> columns[i] != columns[j]
    requires FitsColumns(columns, row) && (primaryKey, key) in row && k < |columns|
    ensures row[k].0 == primaryKey ==> row[k] == (primaryKey, key)
  {
    var i :| 0 <= i < |row| && row[i] == (primaryKey, key);
    assert columns[i] == primaryKey;
  }

  lemma {:induction false} OrAllMatches(less: Less, filter: Filter, rest: seq<Filter>, row: NamedRow)
    ensures Matches(less, OrAll(filter, rest), row)
       <==> Matches(less, filter, row) || exists k :: 0 <= k < |rest| && Matches(less, rest[k], row)
    decreases |rest|
  {
    if rest != [] {
      OrAllMatches(less, Or(filter, rest[0]), rest[1..], row);
      if k :| 0 <= k < |rest| && Matches(less, rest[k], row) {
        assert k == 0 || rest[k] == rest[1..][k - 1];
      }
      if k :| 0 <= k < |rest[1..]| && Matches(less, rest[1..][k], row) {
        assert rest[k + 1] == rest[1..][k];
      }
    }
  }

  lemma DisjunctionMatches(less: Less, filters: seq<Filter>, row: NamedRow)
    requires filters != []
    ensures Matches(less, Disjunction(filters).value, row)
       <==> exists k :: 0 <= k < |filters| && Matches(less, filters[k], row)
  {
    OrAllMatches(less, filters[0], filters[1..], row);
    if k :| 0 <= k < |filters| && Matches(less, filters[k], row) {
      assert k == 0 || filters[k] == filters[1..][k - 1];
    }
    if k :| 0 <= k < |filters[1..]| && Matches(less, filters[1..][k], row) {
      assert filters[k + 1] == filters[1..][k];
    }
  }

  /** The addresses whose rows agree with one of the captured versions. */
  function Holders(shown: seq<string>, rows: Rows, captured: seq<Captured>): set<Address> {
    set address | address in rows && exists k | 0 <= k < |captured| :: Complete(shown, rows[address]) == captured[k].row
  }

  function HoldersOf(shown: seq<string>, rows: Rows, version: NamedRow): set<Address> {
    set address | address in rows && Complete(shown, rows[address]) == version
  }

  /** The address set a replayed operation works on: none without captured rows. */
  function Replayed(less: Less, rows: Rows, filters: seq<Filter>): set<Address> {
    match Disjunction(filters)
    case None => {}
    case Some(filter) => Selected(less, rows, filter)
  }

  ghost predicate ValidCaptures(columns: seq<string>, shown: seq<string>, primaryKey: string, rows: Rows, captured: seq<Captured>) {
    && ValidShown(columns, shown, primaryKey)
    && RowsFit(columns, rows)
    && forall k :: 0 <= k < |captured| ==> ValidCapture(shown, primaryKey, captured[k])
  }

  lemma OneVersionSelected(less: Less, columns: seq<string>, shown: seq<string>, primaryKey: string, rows: Rows,
                           captured: seq<Captured>, k: nat)
    requires ValidCaptures(columns, shown, primaryKey, rows, captured) && k < |captured|
    ensures Selected(less, rows, CapturedFilters(primaryKey, captured)[k]) == HoldersOf(shown, rows, captured[k].row)
  {
    forall address | address in rows
      ensures Matches(less, CapturedFilters(primaryKey, captured)[k], rows[address])
         <==> Complete(shown, rows[address]) == captured[k].row
    {
      CapturedExactly(less, columns, shown, primaryKey, captured[k], rows[address]);
    }
  }

  /**
   No lost updates, first half: whatever other writers did since staging, the replay selects
   the rows that still agree with a captured version, and nothing else.
   */
  lemma ReplaySelectsCaptured(less: Less, columns: seq<string>, shown: seq<string>, primaryKey: string, rows: Rows,
                              captured: seq<Captured>)
    requires ValidCaptures(columns, shown, primaryKey, rows, captured)
    ensures Replayed(less, rows, CapturedFilters(primaryKey, captured)) == Holders(shown, rows, captured)
  {
    var filters := CapturedFilters(primaryKey, captured);
    if captured != [] {
      forall address | address in rows
        ensures Matches(less, Disjunction(filters).value, rows[address]) <==> address in Holders(shown, rows, captured)
      {
        DisjunctionMatches(less, filters, rows[address]);
        forall k | 0 <= k < |captured|
          ensures Matches(less, filters[k], rows[address]) <==> Complete(shown, rows[address]) == captured[k].row
        {
          CapturedExactly(less, columns, shown, primaryKey, captured[k], rows[address]);
        }
      }
    }
  }

  /** Rows with equal keys are the same row, as the primary-key constraint demands. */
  ghost predicate KeysUnique(primaryKey: string, rows: Rows) {
    forall a, b :: a in rows && b in rows && Lookup(rows[a], primaryKey) == Lookup(rows[b], primaryKey) ==> a == b
  }

  /** Whether some stored row agrees with a captured version. */
  ghost predicate IsHeld(shown: seq<string>, rows: Rows, version: NamedRow) {
    exists address :: address in rows && Complete(shown, rows[address]) == version
  }

  /**
   No lost updates, second half: validation conflicts exactly when some captured version
   is no longer held by a stored row.
   */
  lemma ConflictIffVersionGone(less: Less, columns: seq<string>, shown: seq<string>, primaryKey: string, rows: Rows,
                               captured: seq<Captured>)
    requires ValidCaptures(columns, shown, primaryKey, rows, captured) && KeysUnique(primaryKey, rows)
    ensures EachSelectsOne(less, rows, CapturedFilters(primaryKey, captured))
       <==> forall k :: 0 <= k < |captured| ==> IsHeld(shown, rows, captured[k].row)
  {
    var filters := CapturedFilters(primaryKey, captured);
    forall k | 0 <= k < |captured|
      ensures |Selected(less, rows, filters[k])| == 1 <==> IsHeld(shown, rows, captured[k].row)
    {
      OneVersionSelected(less, columns, shown, primaryKey, rows, captured, k);
      OneHolder(columns, shown, primaryKey, rows, captured[k].row);
    }
  }

  // The key of a row is the key of its captured version.
  lemma KeyIsShown(columns: seq<string>, shown: seq<string>, primaryKey: string, row: NamedRow)
    requires ValidShown(columns, shown, primaryKey)
    ensures Lookup(Complete(shown, row), primaryKey) == Some(CellOrNull(row, primaryKey))
  {
    LookupCompleted(shown, row, primaryKey);
  }

  lemma OneHolder(columns: seq<string>, shown: seq<string>, primaryKey: string, rows: Rows, version: NamedRow)
    requires ValidShown(columns, shown, primaryKey) && RowsFit(columns, rows) && KeysUnique(primaryKey, rows)
    ensures |HoldersOf(shown, rows, version)| == 1 <==> IsHeld(shown, rows, version)
  {
    var holders := HoldersOf(shown, rows, version);
    if IsHeld(shown, rows, version) {
      var address :| address in rows && Complete(shown, rows[address]) == version;
      forall other | other in holders
        ensures other == address
      {
        SameVersionSameRow(columns, shown, primaryKey, rows, address, other);
      }
      assert holders == {address};
    } else {
      assert holders == {};
    }
  }

  // Two stored rows with the same shown columns have the same key.
  lemma SameVersionSameRow(columns: seq<string>, shown: seq<string>, primaryKey: string, rows: Rows, a: Address, b: Address)
    requires ValidShown(columns, shown, primaryKey) && RowsFit(columns, rows) && KeysUnique(primaryKey, rows)
    requires a in rows && b in rows && Complete(shown, rows[a]) == Complete(shown, rows[b])
    ensures a == b
  {
    KeyIsShown(columns, shown, primaryKey, rows[a]);
    KeyIsShown(columns, shown, primaryKey, rows[b]);
    KeyIsStored(columns, rows[a], primaryKey);
    KeyIsStored(columns, rows[b], primaryKey);
  }

  lemma KeyIsStored(columns: seq<string>, row: NamedRow, primaryKey: string)
    requires FitsColumns(columns, row) && primaryKey in columns
    ensures Lookup(row, primaryKey).Some? && (primaryKey, Lookup(row, primaryKey).value) in row
  {
    var k :| 0 <= k < |columns| && columns[k] == primaryKey;
    var j := FirstIndex(columns, k);
    LookupAt(columns, row, j);
  }

  /** A successful validation finds each captured version at exactly one address. */
  lemma ValidatedVersionsAreStored(less: Less, columns: seq<string>, shown: seq<string>, primaryKey: string, rows: Rows,
                                   captured: seq<Captured>)
    requires ValidCaptures(columns, shown, primaryKey, rows, captured)
    requires EachSelectsOne(less, rows, CapturedFilters(primaryKey, captured))
    ensures forall k :: 0 <= k < |captured| ==> |HoldersOf(shown, rows, captured[k].row)| == 1
  {
    forall k | 0 <= k < |captured|
      ensures |HoldersOf(shown, rows, captured[k].row)| == 1
    {
      OneVersionSelected(less, columns, shown, primaryKey, rows, captured, k);
    }
  }

  // ----- Changes that go unnoticed

  /** The capture of a row: its shown columns under its key. */
  function CaptureOf(shown: seq<string>, primaryKey: string, row: NamedRow): Captured {
    Captured(CellOrNull(row, primaryKey), Complete(shown, row))
  }

  lemma CaptureIsValid(columns: seq<string>, shown: seq<string>, primaryKey: string, row: NamedRow)
    requires ValidShown(columns, shown, primaryKey)
    ensures ValidCapture(shown, primaryKey, CaptureOf(shown, primaryKey, row))
  {
    KeyIsShown(columns, shown, primaryKey, row);
  }

  ghost predicate SeesEveryChange(less: Less, columns: seq<string>, shown: seq<string>, primaryKey: string) {
    forall before, after :: FitsColumns(columns, before) && FitsColumns(columns, after)
      && Matches(less, CapturedFilter(primaryKey, CaptureOf(shown, primaryKey, before).key, CaptureOf(shown, primaryKey, before).row), after)
      ==> after == before
  }

  lemma CaptureAdmits(less: Less, columns: seq<string>, shown: seq<string>, primaryKey: string, before: NamedRow, after: NamedRow)
    requires ValidShown(columns, shown, primaryKey) && FitsColumns(columns, after)
    ensures Matches(less, CapturedFilter(primaryKey, CaptureOf(shown, primaryKey, before).key, CaptureOf(shown, primaryKey, before).row), after)
       <==> Complete(shown, after) == Complete(shown, before)
  {
    CaptureIsValid(columns, shown, primaryKey, before);
    CapturedExactly(less, columns, shown, primaryKey, CaptureOf(shown, primaryKey, before), after);
  }

  lemma SameCellsSameRow(columns: seq<string>, shown: seq<string>, a: NamedRow, b: NamedRow)
    requires forall i, j :: 0 <= i < j < |columns| ==> columns[i] != columns[j]
    requires FitsColumns(columns, a) && FitsColumns(columns, b) && Complete(shown, a) == Complete(shown, b)
    requires forall column :: column in columns ==> column in shown
    ensures a == b
  {
    forall k | 0 <= k < |columns|
      ensures a[k] == b[k]
    {
      assert columns[k] in shown;
      var i :| 0 <= i < |shown| && shown[i] == columns[k];
      assert Complete(shown, a)[i] == Complete(shown, b)[i];
      LookupAt(columns, a, k);
      LookupAt(columns, b, k);
    }
  }

  // Two rows that differ in one column only.
  lemma HiddenChange(less: Less, columns: seq<string>, shown: seq<string>, primaryKey: string, column: string)
    returns (before: NamedRow, after: NamedRow)
    requires ValidShown(columns, shown, primaryKey) && column in columns && column !in shown
    ensures FitsColumns(columns, before) && FitsColumns(columns, after) && before != after
    ensures Matches(less, CapturedFilter(primaryKey, CaptureOf(shown, primaryKey, before).key, CaptureOf(shown, primaryKey, before).row), after)
  {
    before, after := Complete(columns, []), Complete(columns, [(column, Data(0, []))]);
    LookupCompleted(columns, [], column);
    LookupCompleted(columns, [(column, Data(0, []))], column);
    forall k | 0 <= k < |shown|
      ensures Complete(shown, before)[k] == Complete(shown, after)[k]
    {
      LookupCompleted(columns, [], shown[k]);
      LookupCompleted(columns, [(column, Data(0, []))], shown[k]);
    }
    assert Complete(shown, before) == Complete(shown, after);
    CaptureAdmits(less, columns, shown, primaryKey, before, after);
  }

  /** A commit finds out every change of a captured row if and only if all columns of the table are captured. */
  lemma ChangesAreSeenIff(less: Less, columns: seq<string>, shown: seq<string>, primaryKey: string)
    requires ValidShown(columns, shown, primaryKey)
    ensures SeesEveryChange(less, columns, shown, primaryKey) <==> forall column :: column in columns ==> column in shown
  {
    hide Matches, CapturedFilter, CaptureOf;
    if column :| column in columns && column !in shown {
      var before, after := HiddenChange(less, columns, shown, primaryKey, column);
    } else {
      forall before, after | FitsColumns(columns, before) && FitsColumns(columns, after)
        && Matches(less, CapturedFilter(primaryKey, CaptureOf(shown, primaryKey, before).key, CaptureOf(shown, primaryKey, before).row), after)
        ensures after == before
      {
        CaptureAdmits(less, columns, shown, primaryKey, before, after);
        SameCellsSameRow(columns, shown, after, before);
      }
    }
  }
}
