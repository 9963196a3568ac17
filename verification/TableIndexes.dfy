/**
 A table's rows and its secondary indexes. Rows live at record addresses; every index
 is a multiset of (key, address) entries. The main result: over every run of inserts,
 deletes and rewrites, each index holds exactly one entry per stored row.
 */
module TableIndexes {
  import opened Wrappers
  import opened Values
  import opened Sequences
  import opened Filters

  datatype Address = Address(page: nat, offset: nat)

  datatype Entry = Entry(key: seq<Value>, address: Address)

  type Rows = map<Address, NamedRow>

  /** The entries of every index, by the columns of the index. */
  type Ledger = map<seq<string>, multiset<Entry>>

  datatype Table = Table(columns: seq<string>, indexes: seq<seq<string>>, rows: Rows, ledger: Ledger)

  /** The index key of a row; columns it lacks count as NULL. */
  function IndexKey(columns: seq<string>, values: NamedRow): (key: seq<Value>)
    ensures |key| == |columns|
    ensures forall k :: 0 <= k < |columns| ==> key[k] == CellOrNull(values, columns[k])
  {
    seq(|columns|, k requires 0 <= k < |columns| => CellOrNull(values, columns[k]))
  }

  function EntryFor(columns: seq<string>, address: Address, values: NamedRow): Entry {
    Entry(IndexKey(columns, values), address)
  }

  // ----- Agreement of indexes and rows

  /** One entry per stored row: its key and its address. */
  function EntriesOf(columns: seq<string>, rows: Rows): multiset<Entry> {
    multiset(set address | address in rows :: EntryFor(columns, address, rows[address]))
  }

  predicate ValidSchema(columns: seq<string>, indexes: seq<seq<string>>) {
    && (forall i, j | 0 <= i < j < |indexes| :: indexes[i] != indexes[j])
    && (forall i, j | 0 <= i < j < |columns| :: columns[i] != columns[j])
    && (forall i | 0 <= i < |indexes| :: forall column | column in indexes[i] :: column in columns)
  }

  predicate RowsFit(columns: seq<string>, rows: Rows) {
    forall address | address in rows ::
      |rows[address]| == |columns| && forall k | 0 <= k < |columns| :: rows[address][k].0 == columns[k]
  }

  predicate IndexesAgree(indexes: seq<seq<string>>, rows: Rows, ledger: Ledger) {
    forall columns | columns in indexes :: columns in ledger && ledger[columns] == EntriesOf(columns, rows)
  }

  predicate ValidTable(table: Table) {
    && ValidSchema(table.columns, table.indexes)
    && RowsFit(table.columns, table.rows)
    && IndexesAgree(table.indexes, table.rows, table.ledger)
  }

  /** What agreement means: an index has as many entries as there are rows, and exactly one for each. */
  lemma OneEntryPerRow(table: Table, columns: seq<string>)
    requires ValidTable(table) && columns in table.indexes
    ensures |table.ledger[columns]| == |table.rows|
    ensures forall address :: address in table.rows ==>
              table.ledger[columns][EntryFor(columns, address, table.rows[address])] == 1
    ensures forall entry :: entry in table.ledger[columns] ==>
              && entry.address in table.rows
              && entry == EntryFor(columns, entry.address, table.rows[entry.address])
    ensures forall a, b :: a in table.ledger[columns] && b in table.ledger[columns] && a.address == b.address ==> a == b
  {
    EntriesCount(columns, table.rows);
    forall entry | entry in table.ledger[columns]
      ensures && entry.address in table.rows
              && entry == EntryFor(columns, entry.address, table.rows[entry.address])
    {
      EntryOfRow(columns, table.rows, entry);
    }
  }

  lemma EntryOfRow(columns: seq<string>, rows: Rows, entry: Entry)
    ensures EntriesOf(columns, rows)[entry] <= 1
    ensures entry in EntriesOf(columns, rows)
       <==> entry.address in rows && entry == EntryFor(columns, entry.address, rows[entry.address])
  {
    var entries := set address | address in rows :: EntryFor(columns, address, rows[address]);
    assert entry in EntriesOf(columns, rows) <==> entry in entries;
    if entry.address in rows && entry == EntryFor(columns, entry.address, rows[entry.address]) {
      assert entry in entries;
    }
  }

  lemma {:induction false} EntriesCount(columns: seq<string>, rows: Rows)
    ensures |EntriesOf(columns, rows)| == |rows|
    decreases |rows|
  {
    if rows != map[] {
      var address :| address in rows;
      var rest := rows - {address};
      assert |rest| == |rows| - 1 by {
        assert rest.Keys == rows.Keys - {address};
      }
      EntriesCount(columns, rest);
      EntriesWith(columns, rest, address, rows[address]);
      assert rest[address := rows[address]] == rows;
    } else {
      assert EntriesOf(columns, rows) == multiset{};
    }
  }

  // ----- Changing rows and entries together

  /** Storing a row at a free address adds its entry. */
  lemma EntriesWith(columns: seq<string>, rows: Rows, address: Address, row: NamedRow)
    requires address !in rows
    ensures EntriesOf(columns, rows[address := row])
         == EntriesOf(columns, rows) + multiset{EntryFor(columns, address, row)}
  {
    var new_ := EntryFor(columns, address, row);
    forall entry
      ensures EntriesOf(columns, rows[address := row])[entry]
           == (EntriesOf(columns, rows) + multiset{new_})[entry]
    {
      EntryOfRow(columns, rows, entry);
      EntryOfRow(columns, rows[address := row], entry);
    }
  }

  /** Dropping a row drops its entry, which was there. */
  lemma EntriesWithout(columns: seq<string>, rows: Rows, address: Address)
    requires address in rows
    ensures EntryFor(columns, address, rows[address]) in EntriesOf(columns, rows)
    ensures EntriesOf(columns, rows - {address})
         == EntriesOf(columns, rows) - multiset{EntryFor(columns, address, rows[address])}
  {
    var rest := rows - {address};
    assert rest[address := rows[address]] == rows;
    EntriesWith(columns, rest, address, rows[address]);
    EntryOfRow(columns, rows, EntryFor(columns, address, rows[address]));
  }

  // A row that is written to, or removed from, an index.
  datatype Cell = Cell(address: Address, values: NamedRow)

  function CellEntries(columns: seq<string>, cell: Option<Cell>): multiset<Entry> {
    match cell
    case None => multiset{}
    case Some(c) => multiset{EntryFor(columns, c.address, c.values)}
  }

  function PostedEntries(entries: multiset<Entry>, columns: seq<string>, removed: Option<Cell>, added: Option<Cell>): multiset<Entry> {
    entries - CellEntries(columns, removed) + CellEntries(columns, added)
  }

  /** The ledger after taking the entries of `removed` out of `indexes` and putting those of `added` in. */
  function Posted(ledger: Ledger, indexes: seq<seq<string>>, removed: Option<Cell>, added: Option<Cell>): Ledger {
    map columns | columns in ledger ::
      if columns in indexes
      then PostedEntries(ledger[columns], columns, removed, added)
      else ledger[columns]
  }

  datatype Change =
    | Insert(address: Address, values: NamedRow)
    | Delete(address: Address)
    | Rewrite(address: Address, target: Address, values: NamedRow)

  /** What the record store guarantees: rows are put at free addresses and taken from occupied ones. */
  predicate Enabled(rows: Rows, change: Change) {
    match change
    case Insert(address, _) => address !in rows
    case Delete(address) => address in rows
    case Rewrite(address, target, _) => address in rows && (target == address || target !in rows)
  }

  function ApplyToRows(columns: seq<string>, rows: Rows, change: Change): Rows {
    match change
    case Insert(address, values) => rows[address := Complete(columns, values)]
    case Delete(address) => rows - {address}
    case Rewrite(address, target, values) => (rows - {address})[target := Complete(columns, values)]
  }

  function Removed(rows: Rows, change: Change): Option<Cell>
    requires Enabled(rows, change)
  {
    if change.Insert? then None else Some(Cell(change.address, rows[change.address]))
  }

  function Added(change: Change): Option<Cell> {
    match change
    case Insert(address, values) => Some(Cell(address, values))
    case Delete(_) => None
    case Rewrite(_, target, values) => Some(Cell(target, values))
  }

  function Apply(table: Table, change: Change): Table
    requires Enabled(table.rows, change)
  {
    table.(rows := ApplyToRows(table.columns, table.rows, change),
           ledger := Posted(table.ledger, table.indexes, Removed(table.rows, change), Added(change)))
  }

  // The stored record has the same key as the values it was made from.
  lemma CompleteKeepsKey(columns: seq<string>, index: seq<string>, values: NamedRow)
    requires forall column :: column in index ==> column in columns
    ensures IndexKey(index, Complete(columns, values)) == IndexKey(index, values)
  {
    forall k | 0 <= k < |index|
      ensures CellOrNull(Complete(columns, values), index[k]) == CellOrNull(values, index[k])
    {
      assert index[k] in index;
      var j :| 0 <= j < |columns| && columns[j] == index[k];
      CompleteKeepsCells(columns, values, j);
    }
  }

  // The effect of a change on one index, when the stored record has the key of its values.
  lemma ChangeKeepsEntries(columns: seq<string>, rows: Rows, change: Change, index: seq<string>)
    requires Enabled(rows, change)
    requires !change.Delete? ==> IndexKey(index, Complete(columns, change.values)) == IndexKey(index, change.values)
    ensures CellEntries(index, Removed(rows, change)) <= EntriesOf(index, rows)
    ensures PostedEntries(EntriesOf(index, rows), index, Removed(rows, change), Added(change))
         == EntriesOf(index, ApplyToRows(columns, rows, change))
  {
    hide Complete, IndexKey, EntriesOf;
    match change
    case Insert(address, values) =>
      EntriesWith(index, rows, address, Complete(columns, values));
    case Delete(address) =>
      EntriesWithout(index, rows, address);
    case Rewrite(address, target, values) =>
      EntriesWithout(index, rows, address);
      EntriesWith(index, rows - {address}, target, Complete(columns, values));
  }

  lemma ChangeKeepsIndex(table: Table, change: Change, columns: seq<string>)
    requires ValidTable(table) && Enabled(table.rows, change) && columns in table.indexes
    ensures CellEntries(columns, Removed(table.rows, change)) <= table.ledger[columns]
    ensures Apply(table, change).ledger[columns] == EntriesOf(columns, Apply(table, change).rows)
  {
    hide Complete, IndexKey, EntriesOf, RowsFit, CellEntries, PostedEntries;
    if !change.Delete? {
      assert forall column :: column in columns ==> column in table.columns;
      CompleteKeepsKey(table.columns, columns, change.values);
    }
    ChangeKeepsEntries(table.columns, table.rows, change, columns);
  }

  /** Every change keeps the table valid, and finds the entries it has to remove. */
  lemma ChangeKeepsAgreement(table: Table, change: Change)
    requires ValidTable(table) && Enabled(table.rows, change)
    ensures ValidTable(Apply(table, change))
    ensures forall columns :: columns in table.indexes ==>
              CellEntries(columns, Removed(table.rows, change)) <= table.ledger[columns]
  {
    forall columns | columns in table.indexes
      ensures columns in Apply(table, change).ledger
      ensures CellEntries(columns, Removed(table.rows, change)) <= table.ledger[columns]
      ensures Apply(table, change).ledger[columns] == EntriesOf(columns, Apply(table, change).rows)
    {
      ChangeKeepsIndex(table, change, columns);
    }
    ChangeKeepsFit(table.columns, table.rows, change);
  }

  lemma ChangeKeepsFit(columns: seq<string>, rows: Rows, change: Change)
    requires RowsFit(columns, rows) && Enabled(rows, change)
    ensures RowsFit(columns, ApplyToRows(columns, rows, change))
  {
  }

  // ----- Runs

  predicate EnabledAll(columns: seq<string>, rows: Rows, changes: seq<Change>)
    decreases |changes|
  {
    changes == [] ||
    (Enabled(rows, changes[0]) && EnabledAll(columns, ApplyToRows(columns, rows, changes[0]), changes[1..]))
  }

  function ApplyAll(table: Table, changes: seq<Change>): (result: Table)
    requires EnabledAll(table.columns, table.rows, changes)
    ensures result.columns == table.columns && result.indexes == table.indexes
    decreases |changes|
  {
    if changes == [] then table else ApplyAll(Apply(table, changes[0]), changes[1..])
  }

  /** Index agreement over whole runs. */
  lemma {:induction false} RunKeepsAgreement(table: Table, changes: seq<Change>)
    requires ValidTable(table) && EnabledAll(table.columns, table.rows, changes)
    ensures ValidTable(ApplyAll(table, changes))
    decreases |changes|
  {
    if changes != [] {
      ChangeKeepsAgreement(table, changes[0]);
      RunKeepsAgreement(Apply(table, changes[0]), changes[1..]);
    }
  }

  lemma {:induction false} RunExtends(table: Table, changes: seq<Change>, change: Change)
    requires EnabledAll(table.columns, table.rows, changes)
    requires Enabled(ApplyAll(table, changes).rows, change)
    ensures EnabledAll(table.columns, table.rows, changes + [change])
    ensures ApplyAll(table, changes + [change]) == Apply(ApplyAll(table, changes), change)
    decreases |changes|
  {
    if changes != [] {
      RunExtends(Apply(table, changes[0]), changes[1..], change);
      assert (changes + [change])[1..] == changes[1..] + [change];
    } else {
      assert (changes + [change])[1..] == [];
    }
  }

  /** A run leaves every row alone that none of its changes starts from. */
  lemma {:induction false} UntouchedRows(table: Table, changes: seq<Change>, address: Address)
    requires EnabledAll(table.columns, table.rows, changes) && address in table.rows
    requires forall k :: 0 <= k < |changes| ==> changes[k].address != address
    ensures address in ApplyAll(table, changes).rows
    ensures ApplyAll(table, changes).rows[address] == table.rows[address]
    decreases |changes|
  {
    if changes != [] {
      assert changes[0].address != address;
      UntouchedRows(Apply(table, changes[0]), changes[1..], address);
    }
  }
}
