/**
 Reads answered from index keys alone. When the indexes agree with the rows and the
 planned range misses no matching row, a covering read returns the same rows as a
 filtered full scan of the table, and stopping it early cuts the same page.
 */
module CoveringReads {
  import opened Wrappers
  import opened Values
  import opened Sequences
  import opened Filters
  import opened TableIndexes
  import opened Pagination

  // ----- Rows rebuilt from keys

  /** The cells that a key of the index `index` holds, in table column order. */
  function CoveredRow(columns: seq<string>, index: seq<string>, key: seq<Value>): NamedRow
    requires |key| == |index|
  {
    if columns == [] then []
    else
      match Position(index, columns[0])
      case None => CoveredRow(columns[1..], index, key)
      case Some(position) => [(columns[0], key[position])] + CoveredRow(columns[1..], index, key)
  }

  /** The cells of `row` in the given columns. */
  function Retain(row: NamedRow, columns: seq<string>): NamedRow {
    if row == [] then []
    else (if row[0].0 in columns then [row[0]] else []) + Retain(row[1..], columns)
  }

  lemma {:induction false} CoveredRowRetains(all: NamedRow, columns: seq<string>, row: NamedRow, index: seq<string>)
    requires FitsColumns(columns, row)
    requires forall k :: 0 <= k < |row| ==> CellOrNull(all, row[k].0) == row[k].1
    ensures CoveredRow(columns, index, IndexKey(index, all)) == Retain(row, index)
    decreases |columns|
  {
    if columns != [] {
      assert row[0].0 == columns[0];
      assert FitsColumns(columns[1..], row[1..]);
      CoveredRowRetains(all, columns[1..], row[1..], index);
    }
  }

  lemma CellsAreFound(columns: seq<string>, row: NamedRow)
    requires FitsColumns(columns, row)
    requires forall i, j :: 0 <= i < j < |columns| ==> columns[i] != columns[j]
    ensures forall k :: 0 <= k < |row| ==> CellOrNull(row, row[k].0) == row[k].1
  {
    forall k | 0 <= k < |row|
      ensures CellOrNull(row, row[k].0) == row[k].1
    {
      LookupAt(columns, row, k);
    }
  }

  lemma {:induction false} RetainedCells(row: NamedRow, columns: seq<string>, cell: (string, Value))
    ensures cell in Retain(row, columns) <==> cell in row && cell.0 in columns
  {
    if row != [] {
      RetainedCells(row[1..], columns, cell);
      assert cell in row <==> cell == row[0] || cell in row[1..];
    }
  }

  lemma {:induction false} RetainFewer(row: NamedRow, wide: seq<string>, narrow: seq<string>)
    requires forall column :: column in narrow ==> column in wide
    ensures Retain(Retain(row, wide), narrow) == Retain(row, narrow)
  {
    if row != [] {
      RetainFewer(row[1..], wide, narrow);
      var rest := Retain(row[1..], wide);
      if row[0].0 in wide {
        assert ([row[0]] + rest)[1..] == rest;
      } else {
        assert [] + rest == rest;
      }
    }
  }

  // ----- The query

  /** A read of `selected` columns of the rows that `filter` admits; all rows without a filter. */
  datatype Read = Read(selected: seq<string>, filter: Option<Filter>)

  predicate Keeps(less: Less, filter: Option<Filter>, row: NamedRow) {
    filter.Some? ==> Matches(less, filter.value, row)
  }

  /** Whether the index columns include every column the read needs. */
  predicate Covers(index: seq<string>, read: Read) {
    && (forall column | column in read.selected :: column in index)
    && (read.filter.Some? ==> forall column | column in FilterColumns(read.filter.value) :: column in index)
  }

  // A covered row passes the filter exactly when the stored row does, and shows the same selection.
  lemma CoveredAgrees(less: Less, table: Table, index: seq<string>, read: Read, address: Address)
    requires ValidTable(table) && address in table.rows && Covers(index, read)
    ensures var row := table.rows[address];
            var covered := CoveredRow(table.columns, index, IndexKey(index, row));
            && Keeps(less, read.filter, covered) == Keeps(less, read.filter, row)
            && Retain(covered, read.selected) == Retain(row, read.selected)
  {
    var row := table.rows[address];
    var covered := CoveredRow(table.columns, index, IndexKey(index, row));
    CellsAreFound(table.columns, row);
    CoveredRowRetains(row, table.columns, row, index);
    RetainFewer(row, index, read.selected);
    if read.filter.Some? {
      forall cell: (string, Value) | cell.0 in FilterColumns(read.filter.value)
        ensures cell in covered <==> cell in row
      {
        RetainedCells(row, index, cell);
      }
      MatchesSeesItsColumns(less, read.filter.value, covered, row);
    }
  }

  // ----- The two ways to answer it

  /** What a scan returns for the row at `address`: its selected cells, or nothing. */
  function Shown(less: Less, rows: Rows, read: Read, address: Address): seq<NamedRow>
    requires address in rows
  {
    if Keeps(less, read.filter, rows[address]) then [Retain(rows[address], read.selected)] else []
  }

  /** What a full scan in the order of `addresses` returns. */
  function ScanAll(less: Less, rows: Rows, read: Read, addresses: seq<Address>): seq<NamedRow>
    requires forall address :: address in addresses ==> address in rows
  {
    if addresses == [] then []
    else
      var init, last := addresses[..|addresses| - 1], addresses[|addresses| - 1];
      ScanAll(less, rows, read, init) + Shown(less, rows, read, last)
  }

  /** The covered rows of `entries` that pass the filter, in entry order. */
  function CoverAll(less: Less, columns: seq<string>, index: seq<string>, filter: Option<Filter>, entries: seq<Entry>): seq<NamedRow>
    requires forall entry :: entry in entries ==> |entry.key| == |index|
  {
    if entries == [] then []
    else
      var init, last := entries[..|entries| - 1], entries[|entries| - 1];
      var row := CoveredRow(columns, index, last.key);
      CoverAll(less, columns, index, filter, init) + if Keeps(less, filter, row) then [row] else []
  }

  function RetainAll(rows: seq<NamedRow>, columns: seq<string>): (result: seq<NamedRow>)
    ensures |result| == |rows|
  {
    seq(|rows|, k requires 0 <= k < |rows| => Retain(rows[k], columns))
  }

  function AddressesOf(entries: seq<Entry>): (addresses: seq<Address>)
    ensures |addresses| == |entries|
  {
    seq(|entries|, k requires 0 <= k < |entries| => entries[k].address)
  }

  /** Whether `entries` are entries of the index, each for its row. */
  ghost predicate EntriesOfTable(table: Table, index: seq<string>, entries: seq<Entry>) {
    forall k :: 0 <= k < |entries| ==>
      entries[k].address in table.rows && entries[k] == EntryFor(index, entries[k].address, table.rows[entries[k].address])
  }

  // Reading from entries is scanning the rows they point at.
  lemma {:induction false} CoverIsScan(less: Less, table: Table, index: seq<string>, read: Read, entries: seq<Entry>)
    requires ValidTable(table) && Covers(index, read) && EntriesOfTable(table, index, entries)
    ensures forall entry :: entry in entries ==> |entry.key| == |index|
    ensures forall address :: address in AddressesOf(entries) ==> address in table.rows
    ensures RetainAll(CoverAll(less, table.columns, index, read.filter, entries), read.selected)
         == ScanAll(less, table.rows, read, AddressesOf(entries))
    decreases |entries|
  {
    hide Keeps, Retain, CoveredRow, ValidTable, Covers;
    if entries != [] {
      var init, last := entries[..|entries| - 1], entries[|entries| - 1];
      CoverIsScan(less, table, index, read, init);
      CoveredAgrees(less, table, index, read, last.address);
      assert AddressesOf(entries)[..|entries| - 1] == AddressesOf(init);
      var before := CoverAll(less, table.columns, index, read.filter, init);
      var row := CoveredRow(table.columns, index, last.key);
      if Keeps(less, read.filter, row) {
        assert RetainAll(before + [row], read.selected) == RetainAll(before, read.selected) + [Retain(row, read.selected)];
      } else {
        assert before + [] == before;
        assert RetainAll(before, read.selected) + [] == RetainAll(before, read.selected);
      }
    }
  }

  // ----- The order and the rows outside the range do not matter

  function Without<T>(s: seq<T>, k: nat): (rest: seq<T>)
    requires k < |s|
    ensures |rest| == |s| - 1 && forall x :: x in rest ==> x in s
  {
    s[..k] + s[k + 1..]
  }

  lemma WithoutInner<T>(s: seq<T>, k: nat)
    requires k < |s| - 1
    ensures Without(s, k) == Without(s[..|s| - 1], k) + [s[|s| - 1]]
  {
  }

  lemma WithoutLast<T>(s: seq<T>)
    requires s != []
    ensures Without(s, |s| - 1) == s[..|s| - 1]
  {
  }

  lemma {:induction false} ScanWithout(less: Less, rows: Rows, read: Read, addresses: seq<Address>, k: nat)
    requires forall address :: address in addresses ==> address in rows
    requires k < |addresses|
    ensures multiset(ScanAll(less, rows, read, addresses))
         == multiset(ScanAll(less, rows, read, Without(addresses, k)))
            + multiset(Shown(less, rows, read, addresses[k]))
    decreases |addresses|
  {
    hide Shown, Without;
    var init, last := addresses[..|addresses| - 1], addresses[|addresses| - 1];
    if k == |addresses| - 1 {
      WithoutLast(addresses);
    } else {
      ScanWithout(less, rows, read, init, k);
      WithoutInner(addresses, k);
      assert Without(addresses, k)[..|addresses| - 2] == Without(init, k);
    }
  }

  /** Whether a scan of `all` reads the rows at `some`, and beyond them only rows it does not show. */
  ghost predicate OnlyAddsSilent(less: Less, rows: Rows, read: Read, some: seq<Address>, all: seq<Address>) {
    && Distinct(some) && Distinct(all)
    && (forall address :: address in all ==> address in rows)
    && (forall address :: address in some ==> address in all)
    && (forall address :: address in all && address !in some ==> Shown(less, rows, read, address) == [])
  }

  lemma LastSilent(less: Less, rows: Rows, read: Read, some: seq<Address>, all: seq<Address>)
    requires OnlyAddsSilent(less, rows, read, some, all) && all != [] && all[|all| - 1] !in some
    ensures OnlyAddsSilent(less, rows, read, some, all[..|all| - 1])
  {
    hide Shown;
    var init, last := all[..|all| - 1], all[|all| - 1];
    forall address | address in some
      ensures address in init
    {
      assert address in all && address != last;
    }
  }

  lemma LastShared(less: Less, rows: Rows, read: Read, some: seq<Address>, all: seq<Address>, k: nat)
    requires OnlyAddsSilent(less, rows, read, some, all)
    requires k < |some| && all != [] && some[k] == all[|all| - 1]
    ensures OnlyAddsSilent(less, rows, read, Without(some, k), all[..|all| - 1])
  {
    hide Shown;
    SomeWithout(some, all, k);
  }

  lemma NothingInNothing(some: seq<Address>, all: seq<Address>)
    requires forall address :: address in some ==> address in all
    ensures all == [] ==> some == []
  {
    if some != [] {
      assert some[0] in some;
    }
  }

  /**
   Two scans over different addresses return the same rows, whatever the order, when
   the second only adds addresses without matching rows.
   */
  lemma {:induction false} ScansAgree(less: Less, rows: Rows, read: Read, some: seq<Address>, all: seq<Address>)
    requires OnlyAddsSilent(less, rows, read, some, all)
    ensures forall address :: address in some ==> address in rows
    ensures multiset(ScanAll(less, rows, read, some)) == multiset(ScanAll(less, rows, read, all))
    decreases |all|
  {
    hide Shown, Distinct;
    if all == [] {
      NothingInNothing(some, all);
    } else {
      var init, last := all[..|all| - 1], all[|all| - 1];
      if last in some {
        var k :| 0 <= k < |some| && some[k] == last;
        ScanWithout(less, rows, read, some, k);
        LastShared(less, rows, read, some, all, k);
        ScansAgree(less, rows, read, Without(some, k), init);
      } else {
        LastSilent(less, rows, read, some, all);
        ScansAgree(less, rows, read, some, init);
      }
    }
  }

  // Taking the last of `all` out of both lists keeps their relation.
  lemma SomeWithout(some: seq<Address>, all: seq<Address>, k: nat)
    requires Distinct(some) && Distinct(all) && k < |some| && all != [] && some[k] == all[|all| - 1]
    requires forall address :: address in some ==> address in all
    ensures var rest, init := Without(some, k), all[..|all| - 1];
            && Distinct(rest) && Distinct(init)
            && (forall address :: address in rest ==> address in init)
            && (forall address :: address in init ==> address in all && (address in some <==> address in rest))
  {
    var rest, init := Without(some, k), all[..|all| - 1];
    forall address | address in rest
      ensures address in init && address in some
    {
      var j :| 0 <= j < |rest| && rest[j] == address;
      assert address == some[if j < k then j else j + 1] && address != some[k];
      assert address in all;
    }
    forall address | address in init && address in some
      ensures address in rest
    {
      var j :| 0 <= j < |some| && some[j] == address;
      var i :| 0 <= i < |init| && init[i] == address;
      assert all[i] == address && j != k;
      assert rest[if j < k then j else j - 1] == address;
    }
  }

  // ----- The main results

  /** A listing of the entries in the planned range: each index entry in range, as often as it is stored. */
  ghost predicate ListsRange(table: Table, index: seq<string>, inRange: seq<Value> -> bool, entries: seq<Entry>)
    requires index in table.ledger
  {
    forall entry :: multiset(entries)[entry] == if inRange(entry.key) then table.ledger[index][entry] else 0
  }

  /** A range that misses no row the filter admits, as the access planner promises. */
  ghost predicate RangeSuffices(less: Less, table: Table, index: seq<string>, read: Read, inRange: seq<Value> -> bool) {
    forall address :: address in table.rows && Keeps(less, read.filter, table.rows[address]) ==>
      inRange(IndexKey(index, table.rows[address]))
  }

  /** A listing of the stored rows, in any order. */
  ghost predicate ListsRows(rows: Rows, addresses: seq<Address>) {
    Distinct(addresses) && forall address :: address in addresses <==> address in rows
  }

  lemma RangeEntries(table: Table, index: seq<string>, inRange: seq<Value> -> bool, entries: seq<Entry>)
    requires ValidTable(table) && index in table.indexes && ListsRange(table, index, inRange, entries)
    ensures EntriesOfTable(table, index, entries)
    ensures Distinct(AddressesOf(entries))
    ensures forall address :: address in AddressesOf(entries)
                          <==> address in table.rows && inRange(IndexKey(index, table.rows[address]))
  {
    forall k | 0 <= k < |entries|
      ensures && entries[k].address in table.rows && inRange(entries[k].key)
              && entries[k] == EntryFor(index, entries[k].address, table.rows[entries[k].address])
    {
      assert entries[k] in multiset(entries);
      EntryOfRow(index, table.rows, entries[k]);
    }
    forall i, j | 0 <= i < j < |entries|
      ensures entries[i].address != entries[j].address
    {
      if entries[i].address == entries[j].address {
        TwiceInMultiset(entries, i, j);
        EntryOfRow(index, table.rows, entries[i]);
        assert false;
      }
    }
    forall address | address in table.rows && inRange(IndexKey(index, table.rows[address]))
      ensures address in AddressesOf(entries)
    {
      var entry := EntryFor(index, address, table.rows[address]);
      EntryOfRow(index, table.rows, entry);
      assert entry in multiset(entries);
      var k :| 0 <= k < |entries| && entries[k] == entry;
      assert AddressesOf(entries)[k] == address;
    }
  }

  /** A covering read returns the same rows, with multiplicity, as a filtered full scan. */
  lemma CoveringEqualsScan(less: Less, table: Table, index: seq<string>, read: Read, inRange: seq<Value> -> bool,
                           entries: seq<Entry>, addresses: seq<Address>)
    requires ValidTable(table) && index in table.indexes && Covers(index, read)
    requires RangeSuffices(less, table, index, read, inRange)
    requires ListsRange(table, index, inRange, entries) && ListsRows(table.rows, addresses)
    ensures forall entry :: entry in entries ==> |entry.key| == |index|
    ensures multiset(RetainAll(CoverAll(less, table.columns, index, read.filter, entries), read.selected))
         == multiset(ScanAll(less, table.rows, read, addresses))
  {
    RangeEntries(table, index, inRange, entries);
    CoverIsScan(less, table, index, read, entries);
    ScansAgree(less, table.rows, read, AddressesOf(entries), addresses);
  }

  // ----- The full scan is the filter loop over the stored rows

  function RowsAt(rows: Rows, addresses: seq<Address>): (listed: seq<NamedRow>)
    requires forall address :: address in addresses ==> address in rows
    ensures |listed| == |addresses|
  {
    seq(|addresses|, k requires 0 <= k < |addresses| => assert addresses[k] in addresses; rows[addresses[k]])
  }

  function Keeper(less: Less, filter: Option<Filter>): NamedRow -> Result<bool, ()> {
    row => Ok(Keeps(less, filter, row))
  }

  /** A full scan filters the stored rows in scan order, as the select loop does, and projects what is left. */
  lemma {:induction false} ScanIsFilter(less: Less, rows: Rows, read: Read, addresses: seq<Address>)
    requires forall address :: address in addresses ==> address in rows
    ensures FilterRows(RowsAt(rows, addresses), Keeper(less, read.filter)).Ok?
    ensures ScanAll(less, rows, read, addresses)
         == RetainAll(FilterRows(RowsAt(rows, addresses), Keeper(less, read.filter)).value, read.selected)
    decreases |addresses|
  {
    hide FilterRows, Keeps, Retain;
    var keep := Keeper(less, read.filter);
    if addresses == [] {
      FilterNothing(keep);
    } else {
      var n := |addresses| - 1;
      var init, last := addresses[..n], addresses[n];
      ScanIsFilter(less, rows, read, init);
      var listed := RowsAt(rows, addresses);
      assert listed[..n] == RowsAt(rows, init) && listed[..n + 1] == listed;
      FilterStep(listed, keep, n);
      var kept := FilterRows(RowsAt(rows, init), keep).value;
      assert RetainAll(kept + [rows[last]], read.selected) == RetainAll(kept, read.selected) + [Retain(rows[last], read.selected)];
    }
  }

  lemma FilterNothing(keep: NamedRow -> Result<bool, ()>)
    ensures FilterRows([], keep) == Ok([])
  {
  }

  // ----- Stopping early

  lemma {:induction false} CoverPrefix(less: Less, columns: seq<string>, index: seq<string>, filter: Option<Filter>, entries: seq<Entry>, i: nat)
    requires forall entry :: entry in entries ==> |entry.key| == |index|
    requires i <= |entries|
    ensures CoverAll(less, columns, index, filter, entries[..i]) <= CoverAll(less, columns, index, filter, entries)
    ensures |CoverAll(less, columns, index, filter, entries)| <= |entries|
    decreases |entries|
  {
    if i < |entries| {
      var init := entries[..|entries| - 1];
      assert init[..i] == entries[..i];
      CoverPrefix(less, columns, index, filter, init, i);
    } else {
      assert entries[..i] == entries;
      if i > 0 {
        CoverPrefix(less, columns, index, filter, entries[..i - 1], 0);
      }
    }
  }

  /** The bound of the scan: offset plus limit, as far as the word size allows; none when rows are reordered. */
  function StopAfter(offset: Option<nat>, limit: Option<nat>, deferred: bool, usizeMax: nat): Option<nat> {
    if deferred || limit.None? then None
    else
      var sum := (if offset.Some? then offset.value else 0) + limit.value;
      Some(if sum > usizeMax then usizeMax else sum)
  }

  lemma CoverStep(less: Less, columns: seq<string>, index: seq<string>, filter: Option<Filter>, entries: seq<Entry>, i: nat)
    requires i < |entries| && forall entry :: entry in entries ==> |entry.key| == |index|
    ensures var row := CoveredRow(columns, index, entries[i].key);
            CoverAll(less, columns, index, filter, entries[..i + 1])
              == CoverAll(less, columns, index, filter, entries[..i])
                 + if filter.Some? && !Matches(less, filter.value, row) then [] else [row]
  {
    assert entries[..i + 1][..i] == entries[..i];
  }

  lemma CoverNothing(less: Less, columns: seq<string>, index: seq<string>, filter: Option<Filter>)
    ensures CoverAll(less, columns, index, filter, []) == []
  {
  }

  /**
   The covering scan: index entries in range are rebuilt into rows and filtered. Rows that
   are going to be reordered are all read; others until offset plus limit of them are found,
   or as many as the host can count. With limit zero nothing is read.
   */
  method CoveringScan(less: Less, columns: seq<string>, index: seq<string>, filter: Option<Filter>, entries: seq<Entry>,
                      offset: Option<nat>, limit: Option<nat>, deferred: bool, usizeMax: nat)
    returns (rows: seq<NamedRow>)
    requires forall entry :: entry in entries ==> |entry.key| == |index|
    ensures limit == Some(0) ==> rows == []
    ensures limit.None? || (deferred && limit != Some(0)) ==> rows == CoverAll(less, columns, index, filter, entries)
    ensures limit != Some(0) ==> rows <= CoverAll(less, columns, index, filter, entries)
    ensures limit.Some? && limit != Some(0) && !deferred ==>
              var bound := (if offset.Some? then offset.value else 0) + limit.value;
              && (rows == CoverAll(less, columns, index, filter, entries) || |rows| >= bound || |rows| >= usizeMax)
              && (|rows| <= bound && (|rows| <= usizeMax || |rows| == 1))
  {
    if limit == Some(0) {
      return [];
    }
    var stopAfter := StopAfter(offset, limit, deferred, usizeMax);
    rows := [];
    assert entries[..0] == [];
    CoverNothing(less, columns, index, filter);
    hide CoverAll, CoveredRow, Matches;
    for i := 0 to |entries|
      invariant rows == CoverAll(less, columns, index, filter, entries[..i])
      invariant stopAfter.Some? && |rows| > 0 ==> |rows| < stopAfter.value
    {
      var row := CoveredRow(columns, index, entries[i].key);
      CoverStep(less, columns, index, filter, entries, i);
      if filter.Some? && !Matches(less, filter.value, row) {
        continue;
      }
      rows := rows + [row];
      if stopAfter.Some? && |rows| >= stopAfter.value {
        CoverPrefix(less, columns, index, filter, entries, i + 1);
        return;
      }
    }
    assert entries[..|entries|] == entries;
  }

  function AnyRow(row: NamedRow): Result<bool, ()> {
    Ok(true)
  }

  lemma {:induction false} AllKept(rows: seq<NamedRow>, i: nat)
    requires i <= |rows|
    ensures FilterRows(rows[..i], AnyRow) == Ok(rows[..i])
    decreases i
  {
    hide FilterRows;
    if i > 0 {
      AllKept(rows, i - 1);
      FilterStep(rows, AnyRow, i - 1);
      assert rows[..i] == rows[..i - 1] + [rows[i - 1]];
    } else {
      FilterNothing(AnyRow);
    }
  }

  // Without a filter the scan loop only cuts the page.
  lemma AnyRowIsCut(rows: seq<NamedRow>, offset: nat, limit: Option<nat>)
    ensures Streamed(rows, AnyRow, offset, limit) == Ok(PageOf(rows, offset, limit))
  {
    hide FilterRows, PageOf;
    AllKept(rows, |rows|);
    assert Evaluable(rows, AnyRow) == |rows| && rows[..|rows|] == rows;
  }

  // What a scan that stopped early leaves out is not on the page.
  lemma BoundedScanPage(all: seq<NamedRow>, rows: seq<NamedRow>, offset: Option<nat>, limit: Option<nat>, usizeMax: nat)
    requires |all| <= usizeMax
    requires limit == Some(0) ==> rows == []
    requires limit != Some(0) ==> rows <= all
    requires limit.None? ==> rows == all
    requires limit.Some? && limit != Some(0) ==>
               rows == all || |rows| >= (if offset.Some? then offset.value else 0) + limit.value || |rows| >= usizeMax
    ensures PageOf(rows, if offset.Some? then offset.value else 0, limit)
         == PageOf(all, if offset.Some? then offset.value else 0, limit)
  {
    if limit.Some? && limit.value > 0 {
      PageOfFirst(all, rows, if offset.Some? then offset.value else 0, limit.value);
    }
  }

  /**
   The page of an unordered covering read: stopping after offset plus limit matches and then
   cutting the page gives the page of the full covering read, limit zero included.
   */
  method CoveringPage(less: Less, columns: seq<string>, index: seq<string>, filter: Option<Filter>, entries: seq<Entry>,
                      offset: Option<nat>, limit: Option<nat>, usizeMax: nat)
    returns (page: seq<NamedRow>)
    requires forall entry :: entry in entries ==> |entry.key| == |index|
    requires |entries| <= usizeMax
    ensures page == PageOf(CoverAll(less, columns, index, filter, entries), if offset.Some? then offset.value else 0, limit)
  {
    hide Streamed, PageOf, CoverAll, StopAfter;
    var rows := CoveringScan(less, columns, index, filter, entries, offset, limit, false, usizeMax);
    var outcome := StreamPage(rows, AnyRow, offset, limit);
    AnyRowIsCut(rows, if offset.Some? then offset.value else 0, limit);
    page := outcome.value;
    CoverPrefix(less, columns, index, filter, entries, 0);
    BoundedScanPage(CoverAll(less, columns, index, filter, entries), rows, offset, limit, usizeMax);
  }
}
