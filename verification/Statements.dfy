/** What an update and a delete do to the rows of their table. */
module Statements {
  import opened Wrappers
  import opened Values
  import opened Filters
  import opened TableIndexes

  // ----- Patching a row

  /** `row` with the first cell named `column` set to `value`; unchanged without such a cell. */
  function SetCell(row: NamedRow, column: string, value: Value): (result: NamedRow)
    ensures |result| == |row|
    ensures forall k :: 0 <= k < |row| ==> result[k].0 == row[k].0
  {
    if row == [] then []
    else if row[0].0 == column then [(column, value)] + row[1..]
    else [row[0]] + SetCell(row[1..], column, value)
  }

  /** `row` after setting the cells of `patch` in order; later cells win. */
  function Patched(row: NamedRow, patch: NamedRow): (result: NamedRow)
    ensures |result| == |row|
    ensures forall k :: 0 <= k < |row| ==> result[k].0 == row[k].0
  {
    if patch == [] then row
    else SetCell(Patched(row, patch[..|patch| - 1]), patch[|patch| - 1].0, patch[|patch| - 1].1)
  }

  lemma {:induction false} SetCellLookup(row: NamedRow, column: string, value: Value, other: string)
    ensures Lookup(SetCell(row, column, value), other)
         == if other == column && Lookup(row, other).Some? then Some(value) else Lookup(row, other)
  {
    if row != [] {
      SetCellLookup(row[1..], column, value, other);
      var result := SetCell(row, column, value);
      assert result[1..] == if row[0].0 == column then row[1..] else SetCell(row[1..], column, value);
    }
  }

  /** The last value that `patch` gives to `column`. */
  function LastValue(patch: NamedRow, column: string): Option<Value> {
    if patch == [] then None
    else if patch[|patch| - 1].0 == column then Some(patch[|patch| - 1].1)
    else LastValue(patch[..|patch| - 1], column)
  }

  /** Patching sets exactly the patched columns that the row has, each to its last value. */
  lemma {:induction false} PatchedLookup(row: NamedRow, patch: NamedRow, column: string)
    ensures Lookup(Patched(row, patch), column)
         == if Lookup(row, column).Some? && LastValue(patch, column).Some? then LastValue(patch, column)
            else Lookup(row, column)
    decreases |patch|
  {
    if patch != [] {
      var init, last := patch[..|patch| - 1], patch[|patch| - 1];
      PatchedLookup(row, init, column);
      SetCellLookup(Patched(row, init), last.0, last.1, column);
    }
  }

  /** The first cell of each name is the one that setting a cell changes. */
  predicate IsFirst(row: NamedRow, k: nat)
    requires k < |row|
  {
    forall j | 0 <= j < k :: row[j].0 != row[k].0
  }

  lemma {:induction false} SetCellAt(row: NamedRow, column: string, value: Value, k: nat)
    requires k < |row|
    ensures SetCell(row, column, value)[k] == if row[k].0 == column && IsFirst(row, k) then (column, value) else row[k]
  {
    if k > 0 && row[0].0 != column {
      SetCellAt(row[1..], column, value, k - 1);
      assert IsFirst(row[1..], k - 1) ==> row[k].0 == column ==> IsFirst(row, k);
      assert IsFirst(row, k) ==> forall j :: 0 <= j < k - 1 ==> row[1..][j] == row[j + 1];
    }
  }

  lemma {:induction false} PatchedAt(row: NamedRow, patch: NamedRow, k: nat)
    requires k < |row|
    ensures Patched(row, patch)[k]
         == if LastValue(patch, row[k].0).Some? && IsFirst(row, k) then (row[k].0, LastValue(patch, row[k].0).value) else row[k]
    decreases |patch|
  {
    if patch != [] {
      var init, last := patch[..|patch| - 1], patch[|patch| - 1];
      PatchedAt(row, init, k);
      SetCellAt(Patched(row, init), last.0, last.1, k);
      assert IsFirst(Patched(row, init), k) <==> IsFirst(row, k);
    }
  }

  /** Patching a row twice is patching it once. */
  lemma PatchedTwice(row: NamedRow, patch: NamedRow)
    ensures Patched(Patched(row, patch), patch) == Patched(row, patch)
  {
    var once := Patched(row, patch);
    forall k | 0 <= k < |row|
      ensures Patched(once, patch)[k] == once[k]
    {
      PatchedAt(row, patch, k);
      PatchedAt(once, patch, k);
    }
  }

  /** Checks and normalizes the values of a row about to be stored in the named table. */
  type Sanitizer = (string, NamedRow) -> Option<NamedRow>

  // ----- What an update or delete does to its table

  /** A stored row that a statement works on. */
  datatype Record = Record(address: Address, row: NamedRow)

  /** Whether `records` are the rows at `addresses`, each once. */
  ghost predicate Collected(rows: Rows, addresses: set<Address>, records: seq<Record>) {
    && (forall i, j :: 0 <= i < j < |records| ==> records[i].address != records[j].address)
    && (forall address :: address in addresses <==> exists k :: 0 <= k < |records| && records[k].address == address)
    && (forall k :: 0 <= k < |records| ==> records[k].address in rows && rows[records[k].address] == records[k].row)
  }

  ghost predicate UpdateStep(record: Record, name: string, patch: NamedRow, sanitize: Sanitizer, change: Change) {
    && change.Rewrite? && change.address == record.address
    && sanitize(name, Patched(record.row, patch)) == Some(change.values)
  }

  /** The changes of an update: every collected row is rewritten with its patched values. */
  ghost predicate UpdateChanges(records: seq<Record>, name: string, patch: NamedRow, sanitize: Sanitizer, changes: seq<Change>) {
    && |changes| == |records|
    && forall k :: 0 <= k < |records| ==> UpdateStep(records[k], name, patch, sanitize, changes[k])
  }

  ghost predicate DeleteChanges(records: seq<Record>, changes: seq<Change>) {
    && |changes| == |records|
    && forall k :: 0 <= k < |records| ==> changes[k] == Change.Delete(records[k].address)
  }

  /** Whether `after` is `before` with exactly the rows at `addresses` patched and rewritten. */
  ghost predicate IsUpdate(before: Table, after: Table, addresses: set<Address>, name: string, patch: NamedRow, sanitize: Sanitizer) {
    exists records, changes ::
      && Collected(before.rows, addresses, records)
      && UpdateChanges(records, name, patch, sanitize, changes)
      && EnabledAll(before.columns, before.rows, changes)
      && after == ApplyAll(before, changes)
  }

  /** Whether `after` is `before` without the rows at `addresses`. */
  ghost predicate IsDelete(before: Table, after: Table, addresses: set<Address>) {
    exists records, changes ::
      && Collected(before.rows, addresses, records)
      && DeleteChanges(records, changes)
      && EnabledAll(before.columns, before.rows, changes)
      && after == ApplyAll(before, changes)
  }

  /** An update leaves every other row where and as it was. */
  lemma UpdateFrame(before: Table, after: Table, addresses: set<Address>, name: string, patch: NamedRow, sanitize: Sanitizer, address: Address)
    requires IsUpdate(before, after, addresses, name, patch, sanitize) && address in before.rows && address !in addresses
    ensures address in after.rows && after.rows[address] == before.rows[address]
  {
    var records: seq<Record>, changes: seq<Change> :|
      && Collected(before.rows, addresses, records)
      && UpdateChanges(records, name, patch, sanitize, changes)
      && EnabledAll(before.columns, before.rows, changes)
      && after == ApplyAll(before, changes);
    forall k | 0 <= k < |changes|
      ensures changes[k].address != address
    {
      assert UpdateStep(records[k], name, patch, sanitize, changes[k]);
      assert records[k].address in addresses;
    }
    UntouchedRows(before, changes, address);
  }

  lemma {:induction false} RewrittenRows(table: Table, changes: seq<Change>)
    requires EnabledAll(table.columns, table.rows, changes)
    requires forall k :: 0 <= k < |changes| ==> changes[k].Rewrite? && changes[k].address in table.rows
    requires forall i, j :: 0 <= i < j < |changes| ==> changes[i].address != changes[j].address
    ensures |ApplyAll(table, changes).rows| == |table.rows|
    ensures forall k :: 0 <= k < |changes| ==>
              && changes[k].target in ApplyAll(table, changes).rows
              && ApplyAll(table, changes).rows[changes[k].target] == Complete(table.columns, changes[k].values)
    decreases |changes|
  {
    if changes != [] {
      var next, first, tail := Apply(table, changes[0]), changes[0], changes[1..];
      assert forall k :: 0 <= k < |tail| ==> tail[k] == changes[k + 1];
      RewrittenRows(next, tail);
      UntouchedRows(next, tail, first.target);
      var others := table.rows.Keys - {first.address};
      assert table.rows.Keys == others + {first.address} && next.rows.Keys == others + {first.target};
    }
  }

  /** An update stores the patched version of every selected row, and neither adds nor loses rows. */
  lemma UpdateStores(before: Table, after: Table, addresses: set<Address>, name: string, patch: NamedRow, sanitize: Sanitizer,
                     address: Address)
    requires IsUpdate(before, after, addresses, name, patch, sanitize) && address in addresses
    ensures |after.rows| == |before.rows| && address in before.rows
    ensures sanitize(name, Patched(before.rows[address], patch)).Some?
    ensures Complete(before.columns, sanitize(name, Patched(before.rows[address], patch)).value) in after.rows.Values
  {
    var records: seq<Record>, changes: seq<Change> :|
      && Collected(before.rows, addresses, records)
      && UpdateChanges(records, name, patch, sanitize, changes)
      && EnabledAll(before.columns, before.rows, changes)
      && after == ApplyAll(before, changes);
    forall k | 0 <= k < |changes|
      ensures changes[k].Rewrite? && changes[k].address == records[k].address
    {
      assert UpdateStep(records[k], name, patch, sanitize, changes[k]);
    }
    RewrittenRows(before, changes);
    var k :| 0 <= k < |records| && records[k].address == address;
    assert UpdateStep(records[k], name, patch, sanitize, changes[k]);
    assert changes[k].target in after.rows;
  }

  lemma {:induction false} DeletedRows(table: Table, changes: seq<Change>)
    requires EnabledAll(table.columns, table.rows, changes)
    requires forall k :: 0 <= k < |changes| ==> changes[k].Delete?
    ensures ApplyAll(table, changes).rows == table.rows - (set k | 0 <= k < |changes| :: changes[k].address)
    decreases |changes|
  {
    var gone := set k | 0 <= k < |changes| :: changes[k].address;
    if changes != [] {
      assert changes[0].Delete?;
      var tail := changes[1..];
      DeletedRows(Apply(table, changes[0]), tail);
      var rest := set k | 0 <= k < |tail| :: tail[k].address;
      forall address
        ensures address in gone <==> address == changes[0].address || address in rest
      {
        if k :| 0 <= k < |changes| && changes[k].address == address {
          assert k == 0 || changes[k] == tail[k - 1];
        }
        if k :| 0 <= k < |tail| && tail[k].address == address {
          assert changes[k + 1] == tail[k];
        }
      }
      assert table.rows - gone == (table.rows - {changes[0].address}) - rest;
    }
  }

  /** A delete removes exactly the given rows. */
  lemma DeleteRemoves(before: Table, after: Table, addresses: set<Address>)
    requires IsDelete(before, after, addresses)
    ensures after.rows == before.rows - addresses
  {
    var records: seq<Record>, changes: seq<Change> :|
      && Collected(before.rows, addresses, records)
      && DeleteChanges(records, changes)
      && EnabledAll(before.columns, before.rows, changes)
      && after == ApplyAll(before, changes);
    DeletedRows(before, changes);
    var gone := set k | 0 <= k < |changes| :: changes[k].address;
    forall address
      ensures address in addresses <==> address in gone
    {
      if address in addresses {
        var k :| 0 <= k < |records| && records[k].address == address;
        assert changes[k].address == address;
      }
      if k :| 0 <= k < |changes| && changes[k].address == address {
        assert records[k].address == address;
      }
    }
  }
}
