/**
 One loaded table: its records and its index ledger, changed in place. Any write of the
 record store or of the B-trees behind the ledger may be refused by the host; a failed
 operation leaves them in any state, and the caller's journal brings them back.
 */
module TableRegistries {
  import opened Wrappers
  import opened Values
  import opened Filters
  import opened TableIndexes

  datatype DbError =
    | TableNotFound
    | Rejected
    | EntryNotFound
    | WriteFailed
    | ReferenceFailed
    | TransactionConflict

  // One more index posted.
  lemma PostedStep(ledger: Ledger, indexes: seq<seq<string>>, i: nat, removed: Option<Cell>, added: Option<Cell>)
    requires i < |indexes| && indexes[i] in ledger
    requires forall j, k :: 0 <= j < k < |indexes| ==> indexes[j] != indexes[k]
    ensures var before := Posted(ledger, indexes[..i], removed, added);
            && indexes[i] in before && before[indexes[i]] == ledger[indexes[i]]
            && Posted(ledger, indexes[..i + 1], removed, added)
               == before[indexes[i] := PostedEntries(ledger[indexes[i]], indexes[i], removed, added)]
  {
    hide PostedEntries;
    var index := indexes[i];
    assert index !in indexes[..i];
    forall other
      ensures other in indexes[..i + 1] <==> other in indexes[..i] || other == index
    {
      assert indexes[..i + 1] == indexes[..i] + [index];
    }
  }

  lemma PostedOne(entries: multiset<Entry>, index: seq<string>, cell: Cell)
    ensures PostedEntries(entries, index, None, Some(cell))
         == entries + multiset{EntryFor(index, cell.address, cell.values)}
    ensures PostedEntries(entries, index, Some(cell), None)
         == entries - multiset{EntryFor(index, cell.address, cell.values)}
  {
  }

  lemma PostedAll(ledger: Ledger, indexes: seq<seq<string>>, removed: Option<Cell>, added: Option<Cell>)
    ensures Posted(ledger, indexes[..0], removed, added) == ledger
    ensures Posted(ledger, indexes[..|indexes|], removed, added) == Posted(ledger, indexes, removed, added)
  {
    assert indexes[..|indexes|] == indexes;
  }

  lemma PutTwice<K, V>(m: map<K, V>, key: K, first: V, second: V)
    ensures m[key := first][key := second] == m[key := second]
  {
  }

  lemma FreeAddressExists(rows: Rows)
    ensures exists address :: address !in rows
  {
    var bound := PageBound(rows.Keys);
    assert Address(bound, 0) !in rows;
  }

  lemma {:induction false} PageBound(addresses: set<Address>) returns (bound: nat)
    ensures forall address :: address in addresses ==> address.page < bound
    decreases |addresses|
  {
    if addresses == {} {
      bound := 0;
    } else {
      var address :| address in addresses;
      bound := PageBound(addresses - {address});
      if address.page >= bound {
        bound := address.page + 1;
      }
    }
  }

  /** The host behind all writes: which of them it lets succeed, and how many were tried. */
  class Host {
    const works: nat -> bool
    var tried: nat

    constructor (works: nat -> bool)
      ensures this.works == works && tried == 0
    {
      this.works := works;
      tried := 0;
    }

    /** Whether every write from number `start` on has worked. */
    predicate WorkedSince(start: nat)
      reads this
    {
      forall n :: start <= n < tried ==> works(n)
    }

    method Try() returns (worked: bool)
      modifies this
      ensures tried == old(tried) + 1 && worked == works(old(tried))
    {
      worked := works(tried);
      tried := tried + 1;
    }
  }

  class TableRegistry {
    const host: Host
    const columns: seq<string>
    const indexes: seq<seq<string>>
    var rows: Rows
    var ledger: Ledger

    function Contents(): Table
      reads this
    {
      Table(columns, indexes, rows, ledger)
    }

    constructor Load(table: Table, host: Host)
      ensures Contents() == table && this.host == host
    {
      this.host := host;
      columns := table.columns;
      indexes := table.indexes;
      rows := table.rows;
      ledger := table.ledger;
    }

    // ----- The index ledger

    method LedgerInsert(index: seq<string>, key: seq<Value>, address: Address) returns (failure: Option<DbError>)
      requires index in ledger
      modifies this`ledger, host
      ensures failure.None? ==> ledger == old(ledger)[index := old(ledger)[index] + multiset{Entry(key, address)}]
      ensures failure.Some? ==> failure.value == WriteFailed
      ensures host.tried >= old(host.tried) && (failure.None? <==> host.WorkedSince(old(host.tried)))
    {
      var worked := host.Try();
      if !worked {
        ledger := *;
        return Some(WriteFailed);
      }
      ledger := ledger[index := ledger[index] + multiset{Entry(key, address)}];
      return None;
    }

    method LedgerDelete(index: seq<string>, key: seq<Value>, address: Address) returns (failure: Option<DbError>)
      requires index in ledger
      modifies this`ledger, host
      ensures failure.None? ==> Entry(key, address) in old(ledger)[index]
      ensures failure.None? ==> ledger == old(ledger)[index := old(ledger)[index] - multiset{Entry(key, address)}]
      ensures failure == Some(EntryNotFound) <==> Entry(key, address) !in old(ledger)[index]
      ensures failure.Some? ==> failure.value == WriteFailed || failure.value == EntryNotFound
      ensures host.tried >= old(host.tried) && (failure == Some(WriteFailed) <==> !host.WorkedSince(old(host.tried)))
    {
      if Entry(key, address) !in ledger[index] {
        return Some(EntryNotFound);
      }
      var worked := host.Try();
      if !worked {
        ledger := *;
        return Some(WriteFailed);
      }
      ledger := ledger[index := ledger[index] - multiset{Entry(key, address)}];
      return None;
    }

    method LedgerUpdate(index: seq<string>, key: seq<Value>, address: Address, target: Address)
      returns (failure: Option<DbError>)
      requires index in ledger
      modifies this`ledger, host
      ensures failure.None? ==>
                ledger == old(ledger)[index := old(ledger)[index] - multiset{Entry(key, address)} + multiset{Entry(key, target)}]
      ensures failure == Some(EntryNotFound) <==> Entry(key, address) !in old(ledger)[index]
      ensures failure.Some? ==> failure.value == WriteFailed || failure.value == EntryNotFound
      ensures host.tried >= old(host.tried) && (failure == Some(WriteFailed) <==> !host.WorkedSince(old(host.tried)))
    {
      failure := LedgerDelete(index, key, address);
      if failure.None? {
        PutTwice(old(ledger), index, ledger[index], ledger[index] + multiset{Entry(key, target)});
        failure := LedgerInsert(index, key, target);
      }
    }

    // ----- All indexes of the table

    ghost predicate Indexed()
      reads this
    {
      && (forall i, j :: 0 <= i < j < |indexes| ==> indexes[i] != indexes[j])
      && (forall index :: index in indexes ==> index in ledger)
    }

    method InsertIndex(address: Address, values: NamedRow) returns (failure: Option<DbError>)
      requires Indexed()
      modifies this`ledger, host
      ensures failure.None? ==> ledger == Posted(old(ledger), indexes, None, Some(Cell(address, values)))
      ensures failure.Some? ==> failure.value == WriteFailed
      ensures host.tried >= old(host.tried) && (failure.None? <==> host.WorkedSince(old(host.tried)))
    {
      hide Posted, PostedEntries;
      PostedAll(ledger, indexes, None, Some(Cell(address, values)));
      for i := 0 to |indexes|
        invariant ledger == Posted(old(ledger), indexes[..i], None, Some(Cell(address, values)))
        invariant host.tried >= old(host.tried) && host.WorkedSince(old(host.tried))
      {
        PostedStep(old(ledger), indexes, i, None, Some(Cell(address, values)));
        PostedOne(ledger[indexes[i]], indexes[i], Cell(address, values));
        failure := LedgerInsert(indexes[i], IndexKey(indexes[i], values), address);
        if failure.Some? {
          return;
        }
      }
      return None;
    }

    /** Whether every index holds the entry of `values` at `address`. */
    ghost predicate HoldsEntries(address: Address, values: NamedRow)
      requires Indexed()
      reads this
    {
      forall i :: 0 <= i < |indexes| ==> EntryFor(indexes[i], address, values) in ledger[indexes[i]]
    }

    method DeleteIndex(address: Address, values: NamedRow) returns (failure: Option<DbError>)
      requires Indexed() && HoldsEntries(address, values)
      modifies this`ledger, host
      ensures failure.None? ==> ledger == Posted(old(ledger), indexes, Some(Cell(address, values)), None)
      ensures failure.Some? ==> failure.value == WriteFailed
      ensures host.tried >= old(host.tried) && (failure.None? <==> host.WorkedSince(old(host.tried)))
    {
      hide Posted, PostedEntries;
      PostedAll(ledger, indexes, Some(Cell(address, values)), None);
      for i := 0 to |indexes|
        invariant ledger == Posted(old(ledger), indexes[..i], Some(Cell(address, values)), None)
        invariant host.tried >= old(host.tried) && host.WorkedSince(old(host.tried))
      {
        PostedStep(old(ledger), indexes, i, Some(Cell(address, values)), None);
        PostedOne(ledger[indexes[i]], indexes[i], Cell(address, values));
        failure := LedgerDelete(indexes[i], IndexKey(indexes[i], values), address);
        if failure.Some? {
          return;
        }
      }
      return None;
    }

    /** A key that stays only gets its pointer updated; a changed key is deleted and inserted. */
    method UpdateIndex(address: Address, target: Address, before: NamedRow, after: NamedRow)
      returns (failure: Option<DbError>)
      requires Indexed() && HoldsEntries(address, before)
      modifies this`ledger, host
      ensures failure.None? ==>
                ledger == Posted(old(ledger), indexes, Some(Cell(address, before)), Some(Cell(target, after)))
      ensures failure.Some? ==> failure.value == WriteFailed
      ensures host.tried >= old(host.tried) && (failure.None? <==> host.WorkedSince(old(host.tried)))
    {
      hide Posted;
      PostedAll(ledger, indexes, Some(Cell(address, before)), Some(Cell(target, after)));
      for i := 0 to |indexes|
        invariant ledger == Posted(old(ledger), indexes[..i], Some(Cell(address, before)), Some(Cell(target, after)))
        invariant host.tried >= old(host.tried) && host.WorkedSince(old(host.tried))
      {
        PostedStep(old(ledger), indexes, i, Some(Cell(address, before)), Some(Cell(target, after)));
        failure := UpdateOneIndex(indexes[i], address, target, before, after);
        if failure.Some? {
          return;
        }
      }
      return None;
    }

    method UpdateOneIndex(index: seq<string>, address: Address, target: Address, before: NamedRow, after: NamedRow)
      returns (failure: Option<DbError>)
      requires index in ledger && EntryFor(index, address, before) in ledger[index]
      modifies this`ledger, host
      ensures failure.None? ==>
                ledger == old(ledger)[index := old(ledger)[index] - multiset{EntryFor(index, address, before)}
                                                                  + multiset{EntryFor(index, target, after)}]
      ensures failure.Some? ==> failure.value == WriteFailed
      ensures host.tried >= old(host.tried) && (failure.None? <==> host.WorkedSince(old(host.tried)))
    {
      var oldKey, newKey := IndexKey(index, before), IndexKey(index, after);
      if oldKey == newKey {
        failure := LedgerUpdate(index, newKey, address, target);
      } else {
        failure := LedgerDelete(index, oldKey, address);
        if failure.None? {
          failure := LedgerInsert(index, newKey, target);
        }
      }
    }

    // ----- Records

    /** Writes a record at a free address; existing records keep theirs. */
    method InsertRecord(values: NamedRow) returns (address: Option<Address>)
      modifies this`rows, host
      ensures host.tried >= old(host.tried) && (address.Some? <==> host.WorkedSince(old(host.tried)))
      ensures address.Some? ==>
                address.value !in old(rows) && rows == old(rows)[address.value := Complete(columns, values)]
    {
      var worked := host.Try();
      if !worked {
        rows := *;
        return None;
      }
      FreeAddressExists(rows);
      var free :| free !in rows;
      rows := rows[free := Complete(columns, values)];
      return Some(free);
    }

    method DeleteRecord(address: Address) returns (done: bool)
      modifies this`rows, host
      ensures host.tried >= old(host.tried) && (done <==> host.WorkedSince(old(host.tried)))
      ensures done ==> rows == old(rows) - {address}
    {
      var worked := host.Try();
      if !worked {
        rows := *;
        return false;
      }
      rows := rows - {address};
      return true;
    }

    /** Rewrites a record in place, or deletes it and inserts the new one where there is room. */
    method UpdateRecord(address: Address, values: NamedRow) returns (target: Option<Address>)
      requires address in rows
      modifies this`rows, host
      ensures host.tried >= old(host.tried) && (target.Some? <==> host.WorkedSince(old(host.tried)))
      ensures target.Some? ==>
                && (target.value == address || target.value !in old(rows))
                && rows == (old(rows) - {address})[target.value := Complete(columns, values)]
    {
      var fits := *;
      if fits {
        var worked := host.Try();
        if !worked {
          rows := *;
          return None;
        }
        rows := (rows - {address})[address := Complete(columns, values)];
        return Some(address);
      }
      var done := DeleteRecord(address);
      if !done {
        return None;
      }
      target := InsertRecord(values);
    }

    // ----- One row with its index entries

    lemma EntriesAreHeld(change: Change)
      requires ValidTable(Contents()) && Enabled(rows, change)
      ensures ValidTable(Apply(Contents(), change)) && Indexed()
      ensures !change.Insert? ==> HoldsEntries(change.address, rows[change.address])
    {
      ChangeKeepsAgreement(Contents(), change);
      if !change.Insert? {
        forall i | 0 <= i < |indexes|
          ensures EntryFor(indexes[i], change.address, rows[change.address]) in ledger[indexes[i]]
        {
          assert CellEntries(indexes[i], Removed(rows, change)) <= ledger[indexes[i]];
        }
      }
    }

    method InsertRow(values: NamedRow) returns (r: Result<Address, DbError>)
      requires ValidTable(Contents())
      modifies this, host
      ensures r.Ok? ==>
                var change := Change.Insert(r.value, values);
                && Enabled(old(rows), change)
                && Contents() == Apply(old(Contents()), change) && ValidTable(Contents())
      ensures r.Err? ==> r.error == WriteFailed
      ensures host.tried >= old(host.tried) && (r.Ok? <==> host.WorkedSince(old(host.tried)))
    {
      var address := InsertRecord(values);
      if address == None {
        return Err(WriteFailed);
      }
      ghost var change := Change.Insert(address.value, values);
      assert Enabled(old(rows), change);
      EntriesStay(old(Contents()), change);
      var failure := InsertIndex(address.value, values);
      if failure.Some? {
        return Err(failure.value);
      }
      return Ok(address.value);
    }

    method DeleteRow(address: Address, values: NamedRow) returns (r: Result<(), DbError>)
      requires ValidTable(Contents()) && address in rows && rows[address] == values
      modifies this, host
      ensures r.Ok? ==>
                Contents() == Apply(old(Contents()), Change.Delete(address)) && ValidTable(Contents())
      ensures r.Err? ==> r.error == WriteFailed
      ensures host.tried >= old(host.tried) && (r.Ok? <==> host.WorkedSince(old(host.tried)))
    {
      EntriesAreHeld(Change.Delete(address));
      var done := DeleteRecord(address);
      if !done {
        return Err(WriteFailed);
      }
      var failure := DeleteIndex(address, values);
      if failure.Some? {
        return Err(failure.value);
      }
      return Ok(());
    }

    method UpdateRow(address: Address, before: NamedRow, after: NamedRow) returns (r: Result<Address, DbError>)
      requires ValidTable(Contents()) && address in rows && rows[address] == before
      modifies this, host
      ensures r.Ok? ==>
                var change := Change.Rewrite(address, r.value, after);
                && Enabled(old(rows), change)
                && Contents() == Apply(old(Contents()), change) && ValidTable(Contents())
      ensures r.Err? ==> r.error == WriteFailed
      ensures host.tried >= old(host.tried) && (r.Ok? <==> host.WorkedSince(old(host.tried)))
    {
      EntriesAreHeld(Change.Delete(address));
      var target := UpdateRecord(address, after);
      if target == None {
        return Err(WriteFailed);
      }
      EntriesStay(old(Contents()), Change.Rewrite(address, target.value, after));
      var failure := UpdateIndex(address, target.value, before, after);
      if failure.Some? {
        return Err(failure.value);
      }
      return Ok(target.value);
    }
  }

  lemma EntriesStay(table: Table, change: Change)
    requires ValidTable(table) && Enabled(table.rows, change)
    ensures ValidTable(Apply(table, change))
  {
    ChangeKeepsAgreement(table, change);
  }
}
