/**
 Operations staged in a transaction, as the transaction sees them: each captures visible
 rows as typed records and adds entries to the overlay of its table. The overlay after any
 operations shows exactly what the operations say.
 */
module Stagings {
  import opened Wrappers
  import opened Values
  import opened Filters
  import opened TableIndexes
  import opened Statements
  import opened Overlays
  import opened Transactions

  /** The table looked at: all its columns, and those of a captured row. */
  datatype Schema = Schema(name: string, columns: seq<string>, shown: seq<string>, primaryKey: string)

  ghost predicate ValidSchemaOf(schema: Schema) {
    ValidShown(schema.columns, schema.shown, schema.primaryKey)
  }

  datatype Staged =
    | StagedInsert(table: string, key: Value, values: NamedRow)
    | StagedUpdate(table: string, patch: NamedRow, captured: seq<Captured>)
    | StagedDelete(table: string, behavior: DeleteBehavior, captured: seq<Captured>)

  /** The overlay entries of an operation for the table `name`. */
  function Entries(name: string, s: Staged): seq<OverlayOp> {
    if s.table != name then []
    else match s
      case StagedInsert(_, key, values) => [InsertRow(key, values)]
      case StagedUpdate(_, patch, captured) => UpdatesOf(captured, patch)
      case StagedDelete(_, _, captured) => DeletesOf(captured)
  }

  /** The overlay entries of all staged operations. */
  function AllEntries(name: string, staged: seq<Staged>): seq<OverlayOp> {
    if staged == [] then []
    else AllEntries(name, staged[..|staged| - 1]) + Entries(name, staged[|staged| - 1])
  }

  /** The rows seen after the staged operations. */
  ghost function ViewOf(schema: Schema, rows: set<NamedRow>, staged: seq<Staged>): set<NamedRow> {
    OverlayView(schema.primaryKey, rows, AllEntries(schema.name, staged))
  }

  // ----- What an operation makes of the rows seen before it

  predicate CapturesKey(primaryKey: string, captured: seq<Captured>, row: NamedRow) {
    exists k | 0 <= k < |captured| :: Lookup(row, primaryKey) == Some(captured[k].key)
  }

  /** What becomes of one visible row. */
  function RowAfter(primaryKey: string, s: Staged, row: NamedRow): Option<NamedRow>
    requires !s.StagedInsert?
  {
    if !CapturesKey(primaryKey, s.captured, row) then Some(row)
    else if s.StagedUpdate? then Some(Patched(row, s.patch)) else None
  }

  function NextView(schema: Schema, view: set<NamedRow>, s: Staged): set<NamedRow> {
    if s.table != schema.name then view
    else match s
      case StagedInsert(_, _, values) => view + {values}
      case _ =>
        set row | row in view && RowAfter(schema.primaryKey, s, row).Some? :: RowAfter(schema.primaryKey, s, row).value
  }

  ghost predicate Covers(columns: seq<string>, row: NamedRow) {
    forall column :: column in columns ==> Lookup(row, column).Some?
  }

  /** What is captured from the visible rows. */
  function CapturesOf(schema: Schema, view: set<NamedRow>): set<Captured> {
    set row | row in view :: CaptureOf(schema.shown, schema.primaryKey, row)
  }

  ghost predicate CapturesView(schema: Schema, view: set<NamedRow>, captured: seq<Captured>) {
    forall k :: 0 <= k < |captured| ==> captured[k] in CapturesOf(schema, view)
  }

  /**
   What staging checks: an inserted row has all columns and a key that no visible row has,
   captured rows are visible, a patch gives the key one value.
   */
  ghost predicate ValidStaged(schema: Schema, view: set<NamedRow>, s: Staged) {
    s.table == schema.name ==>
      match s
      case StagedInsert(_, key, values) =>
        && Covers(schema.columns, values)
        && Lookup(values, schema.primaryKey) == Some(key)
        && forall row :: row in view ==> Lookup(row, schema.primaryKey) != Some(key)
      case StagedUpdate(_, patch, captured) =>
        && CapturesView(schema, view, captured)
        && Lookup(patch, schema.primaryKey) == LastValue(patch, schema.primaryKey)
      case StagedDelete(_, _, captured) => CapturesView(schema, view, captured)
  }

  // ----- Capturing visible rows

  predicate Admitted(less: Less, filter: Option<Filter>, row: NamedRow) {
    filter.Some? ==> Matches(less, filter.value, row)
  }

  /** Inside a transaction, an update or delete captures exactly the visible rows that its filter admits. */
  method CaptureVisible(less: Less, schema: Schema, view: set<NamedRow>, filter: Option<Filter>) returns (captured: seq<Captured>)
    ensures CapturesView(schema, view, captured)
    ensures (set one | one in captured) == CapturesOf(schema, set row | row in view && Admitted(less, filter, row))
    ensures |captured| == |(set row | row in view && Admitted(less, filter, row))|
  {
    hide CaptureOf, Admitted, CapturesView;
    captured := [];
    var todo := view;
    ghost var done: set<NamedRow> := {};
    while todo != {}
      invariant todo <= view && done == set row | row in view - todo && Admitted(less, filter, row)
      invariant (set one | one in captured) == CapturesOf(schema, done) && |captured| == |done|
      decreases |todo|
    {
      var row :| row in todo;
      todo := todo - {row};
      if Admitted(less, filter, row) {
        assert CapturesOf(schema, done + {row}) == CapturesOf(schema, done) + {CaptureOf(schema.shown, schema.primaryKey, row)};
        captured := captured + [CaptureOf(schema.shown, schema.primaryKey, row)];
        done := done + {row};
      }
    }
    assert view - {} == view;
    CapturesOfPart(schema, done, view, captured);
  }

  lemma CapturesOfPart(schema: Schema, part: set<NamedRow>, view: set<NamedRow>, captured: seq<Captured>)
    requires part <= view && (set one | one in captured) == CapturesOf(schema, part)
    ensures CapturesView(schema, view, captured)
  {
    hide CaptureOf;
    forall k | 0 <= k < |captured|
      ensures captured[k] in CapturesOf(schema, view)
    {
      assert captured[k] in (set one | one in captured);
      assert captured[k] in CapturesOf(schema, part);
      var row :| row in part && captured[k] == CaptureOf(schema.shown, schema.primaryKey, row);
      assert row in view;
    }
  }

  // ----- The overlay shows what the operations say

  // A row that is patched stays as it is, whatever key it is followed by.
  lemma {:induction false} ReplayPatched(primaryKey: string, row: NamedRow, key: Value, captured: seq<Captured>, patch: NamedRow)
    requires Patched(row, patch) == row
    ensures ReplayFrom(primaryKey, row, key, UpdatesOf(captured, patch)) == Some(row)
    decreases |captured|
  {
    var ops := UpdatesOf(captured, patch);
    if captured != [] {
      assert ops[1..] == UpdatesOf(captured[1..], patch);
      ReplayPatched(primaryKey, row, key, captured[1..], patch);
      ReplayPatched(primaryKey, row, Rekeyed(primaryKey, row, key, patch), captured[1..], patch);
    }
  }

  lemma {:induction false} ReplayUpdates(primaryKey: string, row: NamedRow, key: Value, captured: seq<Captured>, patch: NamedRow)
    ensures ReplayFrom(primaryKey, row, key, UpdatesOf(captured, patch))
         == Some(if exists k :: 0 <= k < |captured| && captured[k].key == key then Patched(row, patch) else row)
    decreases |captured|
  {
    var ops := UpdatesOf(captured, patch);
    if captured != [] {
      assert ops[1..] == UpdatesOf(captured[1..], patch);
      if captured[0].key == key {
        PatchedTwice(row, patch);
        ReplayPatched(primaryKey, Patched(row, patch), Rekeyed(primaryKey, row, key, patch), captured[1..], patch);
      } else {
        ReplayUpdates(primaryKey, row, key, captured[1..], patch);
        assert forall k :: 0 < k < |captured| ==> captured[k] == captured[1..][k - 1];
      }
    }
  }

  lemma {:induction false} ReplayDeletes(primaryKey: string, row: NamedRow, key: Value, captured: seq<Captured>)
    ensures ReplayFrom(primaryKey, row, key, DeletesOf(captured))
         == if exists k :: 0 <= k < |captured| && captured[k].key == key then None else Some(row)
    decreases |captured|
  {
    var ops := DeletesOf(captured);
    if captured != [] {
      assert ops[1..] == DeletesOf(captured[1..]);
      if captured[0].key != key {
        ReplayDeletes(primaryKey, row, key, captured[1..]);
        assert forall k :: 0 < k < |captured| ==> captured[k] == captured[1..][k - 1];
      }
    }
  }

  lemma RowAfterStaged(name: string, primaryKey: string, s: Staged, row: NamedRow)
    requires s.table == name && !s.StagedInsert? && Lookup(row, primaryKey).Some?
    ensures Replay(primaryKey, row, Entries(name, s)) == RowAfter(primaryKey, s, row)
  {
    hide ReplayFrom, Patched;
    var key := Lookup(row, primaryKey).value;
    match s
    case StagedUpdate(_, patch, captured) => ReplayUpdates(primaryKey, row, key, captured, patch);
    case StagedDelete(_, _, captured) => ReplayDeletes(primaryKey, row, key, captured);
  }

  lemma ViewAfterStaged(schema: Schema, view: set<NamedRow>, s: Staged)
    requires AllKeyed(schema.primaryKey, view) && s.table == schema.name && !s.StagedInsert?
    ensures StoredView(schema.primaryKey, view, Entries(schema.name, s)) == NextView(schema, view, s)
  {
    hide Replay, RowAfter, Entries;
    forall row | row in view
      ensures Replay(schema.primaryKey, row, Entries(schema.name, s)) == RowAfter(schema.primaryKey, s, row)
    {
      RowAfterStaged(schema.name, schema.primaryKey, s, row);
    }
  }

  lemma EntriesAreKeyed(schema: Schema, view: set<NamedRow>, s: Staged)
    requires ValidStaged(schema, view, s)
    ensures KeyedOnce(schema.primaryKey, Entries(schema.name, s)) && InsertsKeyed(schema.primaryKey, Entries(schema.name, s))
    ensures s.table == schema.name && !s.StagedInsert? ==> NoInserts(Entries(schema.name, s))
  {
  }

  /** One more staged operation does to the rows seen what it says; operations on other tables do nothing. */
  lemma OverlayShowsNext(schema: Schema, rows: set<NamedRow>, ops: seq<OverlayOp>, s: Staged)
    requires AllKeyed(schema.primaryKey, rows) && KeyedOnce(schema.primaryKey, ops) && InsertsKeyed(schema.primaryKey, ops)
    requires ValidStaged(schema, OverlayView(schema.primaryKey, rows, ops), s)
    ensures OverlayView(schema.primaryKey, rows, ops + Entries(schema.name, s))
         == NextView(schema, OverlayView(schema.primaryKey, rows, ops), s)
    ensures KeyedOnce(schema.primaryKey, ops + Entries(schema.name, s)) && InsertsKeyed(schema.primaryKey, ops + Entries(schema.name, s))
  {
    hide OverlayView, StoredView;
    EntriesAreKeyed(schema, OverlayView(schema.primaryKey, rows, ops), s);
    if s.table != schema.name {
      assert ops + Entries(schema.name, s) == ops;
    } else if s.StagedInsert? {
      ViewAfterInsert(schema.primaryKey, rows, ops, s.key, s.values);
    } else {
      ViewAfterChanges(schema.primaryKey, rows, ops, Entries(schema.name, s));
      ViewAfterStaged(schema, OverlayView(schema.primaryKey, rows, ops), s);
    }
  }

  /** Every operation was staged on the rows seen at its time. */
  ghost predicate StagedOnView(schema: Schema, rows: set<NamedRow>, staged: seq<Staged>) {
    forall k :: 0 <= k < |staged| ==> ValidStaged(schema, ViewOf(schema, rows, staged[..k]), staged[k])
  }

  /** The overlay of a whole transaction, one operation after the other. */
  lemma ViewStep(schema: Schema, rows: set<NamedRow>, staged: seq<Staged>, k: nat)
    requires AllKeyed(schema.primaryKey, rows) && StagedOnView(schema, rows, staged) && k < |staged|
    ensures ViewOf(schema, rows, staged[..k + 1]) == NextView(schema, ViewOf(schema, rows, staged[..k]), staged[k])
  {
    hide ValidStaged, NextView, OverlayView, KeyedOnce, InsertsKeyed;
    AllEntriesKeyed(schema, rows, staged, k);
    assert staged[..k + 1][..k] == staged[..k];
    OverlayShowsNext(schema, rows, AllEntries(schema.name, staged[..k]), staged[k]);
  }

  lemma {:induction false} AllEntriesKeyed(schema: Schema, rows: set<NamedRow>, staged: seq<Staged>, k: nat)
    requires AllKeyed(schema.primaryKey, rows) && StagedOnView(schema, rows, staged) && k <= |staged|
    ensures KeyedOnce(schema.primaryKey, AllEntries(schema.name, staged[..k]))
    ensures InsertsKeyed(schema.primaryKey, AllEntries(schema.name, staged[..k]))
    decreases k
  {
    hide ValidStaged, NextView, OverlayView;
    if k > 0 {
      AllEntriesKeyed(schema, rows, staged, k - 1);
      assert staged[..k][..k - 1] == staged[..k - 1];
      OverlayShowsNext(schema, rows, AllEntries(schema.name, staged[..k - 1]), staged[k - 1]);
    }
  }

  lemma NothingStaged(schema: Schema, rows: set<NamedRow>)
    requires AllKeyed(schema.primaryKey, rows)
    ensures ViewOf(schema, rows, []) == rows
  {
    forall row | row in rows
      ensures row in StoredView(schema.primaryKey, rows, [])
    {
      assert Replay(schema.primaryKey, row, []) == Some(row);
    }
  }
}
