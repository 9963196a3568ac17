/**
 The write operations of the database. Insert, update and delete run inside a journal
 and keep every table's indexes in agreement with its rows; commit replays a staged
 transaction, all of it or nothing.
 */
module Databases {
  import opened Wrappers
  import opened Filters
  import opened TableIndexes
  import opened TableRegistries
  import opened Statements
  import opened Transactions

  type Tables = map<string, Table>

  predicate AllValid(tables: Tables) {
    forall name | name in tables :: ValidTable(tables[name])
  }

  /** The addresses that a statement with an optional filter works on. */
  function Chosen(less: Less, rows: Rows, filter: Option<Filter>): set<Address> {
    match filter
    case None => rows.Keys
    case Some(f) => Selected(less, rows, f)
  }

  // ----- Statements as relations between tables

  ghost predicate IsInsert(before: Table, after: Table, name: string, values: NamedRow, sanitize: Sanitizer) {
    exists address, clean ::
      && sanitize(name, values) == Some(clean) && address !in before.rows
      && after == Apply(before, Change.Insert(address, clean))
  }

  /** Whether `before` and `after` have the same table `name`, or differ elsewhere only. */
  predicate SameTable(before: Tables, after: Tables, name: string) {
    (name in before <==> name in after) && (name in before ==> before[name] == after[name])
  }

  /** Whether nothing outside `names` changed, and no table came or went. */
  predicate ChangedWithin(before: Tables, after: Tables, names: set<string>) {
    before.Keys == after.Keys && forall name | name in before && name !in names :: after[name] == before[name]
  }

  /** For each table, the tables that reference it, directly or through others. */
  type References = string -> set<string>

  /** The tables that deleting rows of `name` may change. */
  function Reach(referencing: References, name: string, behavior: DeleteBehavior): set<string> {
    {name} + if behavior.Cascade? then referencing(name) else {}
  }

  // ----- Checks and work outside the table at hand

  /** The checks of a row before it is stored; for an update, with the row it replaces. They only read. */
  type Integrity = (Tables, string, NamedRow, Option<NamedRow>) -> bool

  /**
   The work on tables that reference a row: what updating it rewrites there, what a cascading
   delete of it removes, or none when that work fails; and whether any row references it.
   */
  datatype ReferenceWork = ReferenceWork(
    referencing: References,
    rewrite: (Tables, string, NamedRow, NamedRow) -> Option<Tables>,
    cascade: (Tables, string, NamedRow) -> Option<Tables>,
    referenced: (Tables, string, NamedRow) -> bool)

  predicate OnlyReferencing(work: ReferenceWork, before: Tables, after: Option<Tables>, name: string) {
    after.Some? ==>
      AllValid(after.value) && SameTable(before, after.value, name) && ChangedWithin(before, after.value, work.referencing(name))
  }

  /** The work changes only tables that reference the named one, which no chain of references leads back from. */
  ghost predicate StaysInReach(work: ReferenceWork) {
    && (forall tables, name, before, after :: AllValid(tables) ==>
          OnlyReferencing(work, tables, work.rewrite(tables, name, before, after), name))
    && (forall tables, name, row :: AllValid(tables) ==> OnlyReferencing(work, tables, work.cascade(tables, name, row), name))
  }

  // ----- The loops of update and delete

  // The table after the first `i` records, with the records that are still to come in place.
  ghost predicate Progress(before: Table, current: Table, records: seq<Record>, i: nat, changes: seq<Change>)
    requires i <= |records|
  {
    && EnabledAll(before.columns, before.rows, changes) && current == ApplyAll(before, changes)
    && ValidTable(current)
    && (forall k, j :: 0 <= k < j < |records| ==> records[k].address != records[j].address)
    && (forall k :: i <= k < |records| ==>
          records[k].address in current.rows && current.rows[records[k].address] == records[k].row)
  }

  lemma ProgressStart(table: Table, addresses: set<Address>, records: seq<Record>)
    requires ValidTable(table) && Collected(table.rows, addresses, records)
    ensures Progress(table, table, records, 0, [])
  {
  }

  lemma ProgressStep(before: Table, current: Table, records: seq<Record>, i: nat, changes: seq<Change>, change: Change)
    requires i < |records| && Progress(before, current, records, i, changes)
    requires !change.Insert? && change.address == records[i].address && Enabled(current.rows, change)
    ensures Progress(before, Apply(current, change), records, i + 1, changes + [change])
  {
    ChangeKeepsAgreement(current, change);
    RunExtends(before, changes, change);
    PendingStay(current, records, i, change);
  }

  lemma UpdateDone(before: Table, current: Table, addresses: set<Address>, records: seq<Record>, changes: seq<Change>,
                   name: string, patch: NamedRow, sanitize: Sanitizer)
    requires Progress(before, current, records, |records|, changes)
    requires Collected(before.rows, addresses, records) && UpdateChanges(records, name, patch, sanitize, changes)
    ensures IsUpdate(before, current, addresses, name, patch, sanitize) && |records| == |addresses|
  {
    CollectedCount(before.rows, addresses, records);
  }

  lemma DeleteDone(before: Table, current: Table, addresses: set<Address>, records: seq<Record>, changes: seq<Change>)
    requires Progress(before, current, records, |records|, changes)
    requires Collected(before.rows, addresses, records) && DeleteChanges(records, changes)
    ensures IsDelete(before, current, addresses) && |records| == |addresses|
  {
    CollectedCount(before.rows, addresses, records);
  }

  // The next record to work on is still in place.
  lemma NextRecord(before: Table, current: Table, records: seq<Record>, i: nat, changes: seq<Change>)
    requires i < |records| && Progress(before, current, records, i, changes)
    ensures records[i].address in current.rows && current.rows[records[i].address] == records[i].row
  {
  }

  lemma PendingStay(current: Table, records: seq<Record>, i: nat, change: Change)
    requires i < |records| && !change.Insert? && change.address == records[i].address && Enabled(current.rows, change)
    requires forall k, j :: 0 <= k < j < |records| ==> records[k].address != records[j].address
    requires forall k :: i <= k < |records| ==>
               records[k].address in current.rows && current.rows[records[k].address] == records[k].row
    ensures forall k :: i < k < |records| ==>
              && records[k].address in Apply(current, change).rows
              && Apply(current, change).rows[records[k].address] == records[k].row
  {
    forall k | i < k < |records|
      ensures && records[k].address in Apply(current, change).rows
              && Apply(current, change).rows[records[k].address] == records[k].row
    {
      assert records[k].address != records[i].address;
    }
  }

  /** Applies `patch` to a row, cell by cell. */
  method PatchRow(row: NamedRow, patch: NamedRow) returns (patched: NamedRow)
    ensures patched == Patched(row, patch)
  {
    patched := row;
    assert patch[..0] == [];
    for i := 0 to |patch|
      invariant patched == Patched(row, patch[..i])
    {
      assert patch[..i + 1][..i] == patch[..i];
      patched := SetCell(patched, patch[i].0, patch[i].1);
    }
    assert patch[..|patch|] == patch;
  }

  /** Candidate addresses from the indexes, and what is left of the filter to check on their rows. */
  datatype Plan = Plan(candidates: seq<Address>, verify: Option<Filter>)

  predicate Passes(less: Less, verify: Option<Filter>, row: NamedRow) {
    verify.Some? ==> Matches(less, verify.value, row)
  }

  /** What the access planner promises: stored candidates, each once, that the rest of the filter cuts down to the matches. */
  predicate Serves(less: Less, rows: Rows, filter: Filter, plan: Plan) {
    && (forall i, j | 0 <= i < j < |plan.candidates| :: plan.candidates[i] != plan.candidates[j])
    && (forall k | 0 <= k < |plan.candidates| :: plan.candidates[k] in rows)
    && (forall address | address in rows ::
          Matches(less, filter, rows[address]) <==> address in plan.candidates && Passes(less, plan.verify, rows[address]))
  }

  // The planner may find an access path or none.
  method PlanAccess(less: Less, rows: Rows, filter: Filter) returns (plan: Option<Plan>)
    ensures plan.Some? ==> Serves(less, rows, filter, plan.value)
  {
    assert Option<Plan>.None.None?;
    plan :| plan.None? || Serves(less, rows, filter, plan.value);
  }

  /** The rows at the candidates that pass the rest of the filter. */
  method CollectCandidates(less: Less, rows: Rows, filter: Filter, plan: Plan) returns (records: seq<Record>)
    requires Serves(less, rows, filter, plan)
    ensures Collected(rows, Selected(less, rows, filter), records)
  {
    records := [];
    ghost var seen: set<Address> := {};
    for i := 0 to |plan.candidates|
      invariant seen == (set k | 0 <= k < i && Passes(less, plan.verify, rows[plan.candidates[k]]) :: plan.candidates[k])
      invariant Collected(rows, seen, records)
    {
      var address := plan.candidates[i];
      if !Passes(less, plan.verify, rows[address]) {
        continue;
      }
      CollectOne(rows, seen, records, address);
      records := records + [Record(address, rows[address])];
      seen := seen + {address};
    }
    assert seen == Selected(less, rows, filter);
  }

  /** Reads the chosen rows before any of them is changed, by an index path or by a scan. */
  method CollectRecords(less: Less, rows: Rows, filter: Option<Filter>) returns (records: seq<Record>)
    ensures Collected(rows, Chosen(less, rows, filter), records)
  {
    if filter.Some? {
      var plan := PlanAccess(less, rows, filter.value);
      if plan.Some? {
        records := CollectCandidates(less, rows, filter.value, plan.value);
        return;
      }
    }
    records := ScanRecords(less, rows, filter);
  }

  method ScanRecords(less: Less, rows: Rows, filter: Option<Filter>) returns (records: seq<Record>)
    ensures Collected(rows, Chosen(less, rows, filter), records)
  {
    records := [];
    var todo := rows.Keys;
    while todo != {}
      invariant todo <= rows.Keys
      invariant Collected(rows, Chosen(less, rows, filter) - todo, records)
      decreases |todo|
    {
      var address :| address in todo;
      ghost var before := Chosen(less, rows, filter) - todo;
      todo := todo - {address};
      if filter.Some? && !Matches(less, filter.value, rows[address]) {
        assert Chosen(less, rows, filter) - todo == before;
        continue;
      }
      CollectOne(rows, before, records, address);
      assert Chosen(less, rows, filter) - todo == before + {address};
      records := records + [Record(address, rows[address])];
    }
    assert Chosen(less, rows, filter) - todo == Chosen(less, rows, filter);
  }

  lemma CollectOne(rows: Rows, addresses: set<Address>, records: seq<Record>, address: Address)
    requires Collected(rows, addresses, records) && address in rows && address !in addresses
    ensures Collected(rows, addresses + {address}, records + [Record(address, rows[address])])
  {
    var longer := records + [Record(address, rows[address])];
    forall other
      ensures other in addresses + {address} <==> exists k :: 0 <= k < |longer| && longer[k].address == other
    {
      if other == address {
        assert longer[|records|].address == other;
      } else if other in addresses {
        var k :| 0 <= k < |records| && records[k].address == other;
        assert longer[k].address == other;
      }
    }
  }

  // ----- Staging

  /** Reads each row that a staged update or delete selects as a typed record and pairs it with its primary-key value. */
  method CaptureRows(less: Less, table: Table, shown: seq<string>, primaryKey: string, filter: Option<Filter>)
    returns (captured: seq<Captured>)
    requires ValidTable(table) && ValidShown(table.columns, shown, primaryKey)
    ensures |captured| == |Chosen(less, table.rows, filter)|
    ensures ValidCaptures(table.columns, shown, primaryKey, table.rows, captured)
    ensures forall address :: address in Chosen(less, table.rows, filter) ==> address in Holders(shown, table.rows, captured)
    ensures KeysUnique(primaryKey, table.rows) ==> Holders(shown, table.rows, captured) == Chosen(less, table.rows, filter)
  {
    hide ValidCapture, Collected, Chosen, Holders, KeysUnique, ValidTable, ValidShown;
    var records := CollectRecords(less, table.rows, filter);
    CollectedCount(table.rows, Chosen(less, table.rows, filter), records);
    RecordsFit(table, Chosen(less, table.rows, filter), records);
    captured := [];
    for i := 0 to |records|
      invariant |captured| == i
      invariant forall k :: 0 <= k < i ==> CapturesRecord(shown, primaryKey, records[k], captured[k])
    {
      var one := CaptureRow(table.columns, shown, primaryKey, records[i]);
      captured := captured + [one];
    }
    TableFits(table);
    CapturedHolders(table.rows, Chosen(less, table.rows, filter), table.columns, shown, primaryKey, records, captured);
  }

  method CaptureRow(columns: seq<string>, shown: seq<string>, primaryKey: string, record: Record) returns (captured: Captured)
    requires FitsColumns(columns, record.row) && ValidShown(columns, shown, primaryKey)
    ensures CapturesRecord(shown, primaryKey, record, captured)
  {
    var values := Complete(shown, record.row);
    KeyIsShown(columns, shown, primaryKey, record.row);
    return Captured(Lookup(values, primaryKey).value, values);
  }

  lemma RecordsFit(table: Table, addresses: set<Address>, records: seq<Record>)
    requires ValidTable(table) && Collected(table.rows, addresses, records)
    ensures forall k :: 0 <= k < |records| ==> FitsColumns(table.columns, records[k].row)
  {
  }

  lemma TableFits(table: Table)
    requires ValidTable(table)
    ensures RowsFit(table.columns, table.rows)
    ensures forall i, j :: 0 <= i < j < |table.columns| ==> table.columns[i] != table.columns[j]
  {
  }

  ghost predicate CapturesRecord(shown: seq<string>, primaryKey: string, record: Record, captured: Captured) {
    captured.row == Complete(shown, record.row) && ValidCapture(shown, primaryKey, captured)
  }

  lemma CapturedHolders(rows: Rows, addresses: set<Address>, columns: seq<string>, shown: seq<string>, primaryKey: string,
                        records: seq<Record>, captured: seq<Captured>)
    requires Collected(rows, addresses, records) && |captured| == |records|
    requires ValidShown(columns, shown, primaryKey) && RowsFit(columns, rows)
    requires forall k :: 0 <= k < |records| ==> CapturesRecord(shown, primaryKey, records[k], captured[k])
    ensures forall k :: 0 <= k < |captured| ==> ValidCapture(shown, primaryKey, captured[k])
    ensures addresses <= Holders(shown, rows, captured)
    ensures KeysUnique(primaryKey, rows) ==> Holders(shown, rows, captured) == addresses
  {
    hide ValidShown, ValidCapture, KeysUnique;
    forall k | 0 <= k < |captured|
      ensures ValidCapture(shown, primaryKey, captured[k]) && captured[k].row == Complete(shown, records[k].row)
    {
      assert CapturesRecord(shown, primaryKey, records[k], captured[k]);
    }
    forall address | address in addresses
      ensures address in Holders(shown, rows, captured)
    {
      var k :| 0 <= k < |records| && records[k].address == address;
      assert Complete(shown, rows[address]) == captured[k].row;
    }
    if KeysUnique(primaryKey, rows) {
      forall address | address in Holders(shown, rows, captured)
        ensures address in addresses
      {
        var k :| 0 <= k < |captured| && Complete(shown, rows[address]) == captured[k].row;
        SameVersionSameRow(columns, shown, primaryKey, rows, address, records[k].address);
      }
    }
  }

  // ----- Replaying one operation

  /** What replaying one operation of a transaction does to the database. */
  ghost predicate ReplayStep(less: Less, sanitize: Sanitizer, referencing: References, before: Tables, op: TransactionOp,
                             after: Tables) {
    match op
    case InsertOp(name, values) =>
      && name in before && name in after
      && IsInsert(before[name], after[name], name, values, sanitize)
      && after == before[name := after[name]]
    case UpdateOp(name, patch, filters) =>
      if filters == [] then after == before
      else
        && name in before && name in after
        && EachSelectsOne(less, before[name].rows, filters)
        && IsUpdate(before[name], after[name], Replayed(less, before[name].rows, filters), name, patch, sanitize)
        && ChangedWithin(before, after, {name} + referencing(name))
    case DeleteOp(name, behavior, filters) =>
      if filters == [] then after == before
      else
        && name in before && name in after
        && EachSelectsOne(less, before[name].rows, filters)
        && IsDelete(before[name], after[name], Replayed(less, before[name].rows, filters))
        && ChangedWithin(before, after, Reach(referencing, name, behavior))
  }

  /** The states between the operations of a replayed transaction. */
  ghost predicate IsReplay(less: Less, sanitize: Sanitizer, referencing: References, operations: seq<TransactionOp>,
                           states: seq<Tables>) {
    && |states| == |operations| + 1
    && forall k :: 0 <= k < |operations| ==> ReplayStep(less, sanitize, referencing, states[k], operations[k], states[k + 1])
  }

  lemma NothingReplayed(less: Less, sanitize: Sanitizer, referencing: References, tables: Tables)
    ensures IsReplay(less, sanitize, referencing, [], [tables])
  {
  }

  lemma ReplayedOne(less: Less, sanitize: Sanitizer, referencing: References, operations: seq<TransactionOp>, states: seq<Tables>,
                    op: TransactionOp, after: Tables)
    requires IsReplay(less, sanitize, referencing, operations, states)
    requires states != [] && ReplayStep(less, sanitize, referencing, states[|states| - 1], op, after)
    ensures IsReplay(less, sanitize, referencing, operations + [op], states + [after])
  {
    hide ReplayStep;
    forall k | 0 <= k < |operations + [op]|
      ensures ReplayStep(less, sanitize, referencing, (states + [after])[k], (operations + [op])[k], (states + [after])[k + 1])
    {
      if k < |operations| {
        assert ReplayStep(less, sanitize, referencing, states[k], operations[k], states[k + 1]);
      }
    }
  }

  /** What is fixed for a database: the order of values, the sanitizers, the checks and the references between tables. */
  datatype Rules = Rules(less: Less, sanitize: Sanitizer, admits: Integrity, work: ReferenceWork)

  // ----- Why an operation fails

  /** Whether a row to be stored is refused: sanitizing fails, or the sanitized row does not pass the checks. */
  predicate Refused(rules: Rules, tables: Tables, name: string, values: NamedRow, replaced: Option<NamedRow>) {
    match rules.sanitize(name, values)
    case None => true
    case Some(clean) => !rules.admits(tables, name, clean, replaced)
  }

  /** One record rewritten: it is not refused, and the references to it are followed. */
  ghost predicate RecordUpdated(rules: Rules, name: string, patch: NamedRow, record: Record, change: Change, before: Tables, after: Tables) {
    && name in before && !Refused(rules, before, name, Patched(record.row, patch), Some(record.row))
    && UpdateStep(record, name, patch, rules.sanitize, change) && Enabled(before[name].rows, change)
    && rules.work.rewrite(before[name := Apply(before[name], change)], name, record.row, change.values) == Some(after)
  }

  /** The states of the database before and after each of the first records was rewritten. */
  ghost predicate UpdatedUpTo(rules: Rules, name: string, patch: NamedRow, records: seq<Record>, changes: seq<Change>, states: seq<Tables>) {
    && |changes| <= |records| && |states| == |changes| + 1
    && forall k :: 0 <= k < |changes| ==> RecordUpdated(rules, name, patch, records[k], changes[k], states[k], states[k + 1])
  }

  /** Whether `after` is `before` with the rows at `addresses` rewritten, one after the other. */
  ghost predicate IsUpdateRun(rules: Rules, before: Tables, name: string, patch: NamedRow, addresses: set<Address>, after: Tables) {
    exists records, changes, states ::
      && name in before && Collected(before[name].rows, addresses, records) && |changes| == |records|
      && UpdatedUpTo(rules, name, patch, records, changes, states) && states[0] == before && states[|changes|] == after
  }

  /** Why rewriting one record in the state `tables` fails; `worked` tells whether the host let every write succeed. */
  ghost predicate RecordUpdateFails(rules: Rules, tables: Tables, name: string, record: Record, patch: NamedRow, worked: bool, error: DbError) {
    if Refused(rules, tables, name, Patched(record.row, patch), Some(record.row)) then error == Rejected
    else if !worked then error == WriteFailed
    else
      && error == ReferenceFailed && name in tables
      && exists change :: && UpdateStep(record, name, patch, rules.sanitize, change) && Enabled(tables[name].rows, change)
                          && rules.work.rewrite(tables[name := Apply(tables[name], change)], name, record.row, change.values) == None
  }

  /** Why updating the rows at `addresses` fails: the first record that cannot be rewritten in the state it meets. */
  ghost predicate UpdateFails(rules: Rules, before: Tables, name: string, patch: NamedRow, addresses: set<Address>, worked: bool, error: DbError) {
    exists records, changes, states ::
      && name in before && Collected(before[name].rows, addresses, records) && |changes| < |records|
      && UpdatedUpTo(rules, name, patch, records, changes, states) && states[0] == before
      && RecordUpdateFails(rules, states[|changes|], name, records[|changes|], patch, worked, error)
  }

  /** One record deleted: rows that reference it are gone first, or there are none. */
  ghost predicate RecordDeleted(rules: Rules, name: string, behavior: DeleteBehavior, record: Record, before: Tables, after: Tables) {
    match behavior
    case Cascade =>
      var cascaded := rules.work.cascade(before, name, record.row);
      && cascaded.Some? && name in cascaded.value && record.address in cascaded.value[name].rows
      && after == cascaded.value[name := Apply(cascaded.value[name], Change.Delete(record.address))]
    case Restrict =>
      && !rules.work.referenced(before, name, record.row) && name in before && record.address in before[name].rows
      && after == before[name := Apply(before[name], Change.Delete(record.address))]
  }

  ghost predicate DeletedUpTo(rules: Rules, name: string, behavior: DeleteBehavior, records: seq<Record>, count: nat, states: seq<Tables>) {
    && count <= |records| && |states| == count + 1
    && forall k :: 0 <= k < count ==> RecordDeleted(rules, name, behavior, records[k], states[k], states[k + 1])
  }

  ghost predicate IsDeleteRun(rules: Rules, before: Tables, name: string, behavior: DeleteBehavior, addresses: set<Address>, after: Tables) {
    exists records, states ::
      && name in before && Collected(before[name].rows, addresses, records)
      && DeletedUpTo(rules, name, behavior, records, |records|, states) && states[0] == before && states[|records|] == after
  }

  ghost predicate RecordDeleteFails(rules: Rules, tables: Tables, name: string, behavior: DeleteBehavior, record: Record, worked: bool,
                                    error: DbError) {
    if (if behavior.Cascade? then rules.work.cascade(tables, name, record.row) == None
        else rules.work.referenced(tables, name, record.row))
    then error == ReferenceFailed
    else error == WriteFailed && !worked
  }

  /** Why deleting the rows at `addresses` fails: the first record that cannot be deleted in the state it meets. */
  ghost predicate DeleteFails(rules: Rules, before: Tables, name: string, behavior: DeleteBehavior, addresses: set<Address>, worked: bool,
                              error: DbError) {
    exists records, count, states ::
      && name in before && Collected(before[name].rows, addresses, records) && 0 <= count < |records|
      && DeletedUpTo(rules, name, behavior, records, count, states) && states[0] == before
      && RecordDeleteFails(rules, states[count], name, behavior, records[count], worked, error)
  }

  /**
   Why replaying an operation on `before` can fail: the table is unknown, some captured version
   is not found exactly once, or the statement itself fails.
   */
  ghost predicate ReplayFails(rules: Rules, before: Tables, op: TransactionOp, worked: bool, error: DbError) {
    match op
    case InsertOp(name, values) =>
      if name !in before then error == TableNotFound
      else if !rules.admits(before, name, values, None) || Refused(rules, before, name, values, None) then error == Rejected
      else error == WriteFailed && !worked
    case UpdateOp(name, patch, filters) =>
      && filters != []
      && if name !in before then error == TableNotFound
         else if !EachSelectsOne(rules.less, before[name].rows, filters) then error == TransactionConflict
         else UpdateFails(rules, before, name, patch, Replayed(rules.less, before[name].rows, filters), worked, error)
    case DeleteOp(name, behavior, filters) =>
      && filters != []
      && if name !in before then error == TableNotFound
         else if !EachSelectsOne(rules.less, before[name].rows, filters) then error == TransactionConflict
         else DeleteFails(rules, before, name, behavior, Replayed(rules.less, before[name].rows, filters), worked, error)
  }

  /** What a replayed operation has met: the checks of an insert, or the record-by-record run of an update or delete. */
  ghost predicate ReplayPasses(rules: Rules, before: Tables, op: TransactionOp, after: Tables) {
    match op
    case InsertOp(name, values) => rules.admits(before, name, values, None) && !Refused(rules, before, name, values, None)
    case UpdateOp(name, patch, filters) =>
      filters != [] ==> && name in before
                        && IsUpdateRun(rules, before, name, patch, Replayed(rules.less, before[name].rows, filters), after)
    case DeleteOp(name, behavior, filters) =>
      filters != [] ==> && name in before
                        && IsDeleteRun(rules, before, name, behavior, Replayed(rules.less, before[name].rows, filters), after)
  }

  class Database {
    const rules: Rules
    const host: Host
    var tables: Tables
    var journal: Option<Tables>

    constructor (rules: Rules, host: Host, tables: Tables)
      ensures this.rules == rules && this.host == host && this.tables == tables && journal == None
    {
      this.rules := rules;
      this.host := host;
      this.tables := tables;
      journal := None;
    }

    // ----- Journal

    method Begin() returns (nested: bool)
      modifies this`journal
      ensures nested == old(journal).Some?
      ensures journal == if nested then old(journal) else Some(tables)
    {
      nested := journal.Some?;
      if !nested {
        journal := Some(tables);
      }
    }

    /** Ends an atomic section: a failure at the outermost level restores the journaled tables. */
    method End(nested: bool, failed: bool)
      requires journal.Some?
      modifies this
      ensures journal == if nested then old(journal) else None
      ensures tables == if failed && !nested then old(journal).value else old(tables)
    {
      if !nested {
        if failed {
          tables := journal.value;
        }
        journal := None;
      }
    }

    // A failed write may have reached memory in part.
    method Damage()
      modifies this`tables
    {
      tables := *;
    }

    // ----- Insert

    method Insert(name: string, values: NamedRow) returns (r: Result<Address, DbError>)
      requires AllValid(tables)
      modifies this, host
      ensures journal == old(journal) && host.tried >= old(host.tried)
      ensures r.Ok? ==>
                && AllValid(tables) && name in old(tables) && name in tables
                && IsInsert(old(tables)[name], tables[name], name, values, rules.sanitize)
                && tables == old(tables)[name := tables[name]]
      ensures r.Err? ==>
                r.error == if name !in old(tables) then TableNotFound
                           else if Refused(rules, old(tables), name, values, None) then Rejected else WriteFailed
      ensures r.Ok? <==>
                name in old(tables) && !Refused(rules, old(tables), name, values, None) && host.WorkedSince(old(host.tried))
      ensures r.Err? && old(journal).None? ==> tables == old(tables)
    {
      if name !in tables {
        return Err(TableNotFound);
      }
      var clean := rules.sanitize(name, values);
      if clean == None || !rules.admits(tables, name, clean.value, None) {
        return Err(Rejected);
      }
      var nested := Begin();
      var registry := new TableRegistry.Load(tables[name], host);
      r := registry.InsertRow(clean.value);
      if r.Ok? {
        tables := tables[name := registry.Contents()];
      } else {
        Damage();
      }
      End(nested, r.Err?);
    }

    // ----- Update

    /** Rewrites one collected row, its index entries, and the references to it. */
    method UpdateRecord(name: string, registry: TableRegistry, record: Record, patch: NamedRow)
      returns (r: Result<Address, DbError>, ghost values: NamedRow)
      requires AllValid(tables) && name in tables && registry.Contents() == tables[name] && registry.host == host
      requires record.address in registry.rows && registry.rows[record.address] == record.row
      requires StaysInReach(rules.work)
      modifies this`tables, registry, host
      ensures host.tried >= old(host.tried)
      ensures r.Ok? ==>
                var change := Change.Rewrite(record.address, r.value, values);
                && UpdateStep(record, name, patch, rules.sanitize, change)
                && Enabled(old(registry.rows), change)
                && registry.Contents() == Apply(old(registry.Contents()), change)
                && AllValid(tables) && name in tables && tables[name] == registry.Contents()
                && ChangedWithin(old(tables), tables, {name} + rules.work.referencing(name))
                && RecordUpdated(rules, name, patch, record, change, old(tables), tables)
      ensures r.Ok? ==> host.WorkedSince(old(host.tried))
      ensures r.Err? ==> RecordUpdateFails(rules, old(tables), name, record, patch, host.WorkedSince(old(host.tried)), r.error)
    {
      values := [];
      var patched := PatchRow(record.row, patch);
      var clean := rules.sanitize(name, patched);
      if clean == None || !rules.admits(tables, name, clean.value, Some(record.row)) {
        return Err(Rejected), values;
      }
      values := clean.value;
      r := registry.UpdateRow(record.address, record.row, clean.value);
      if r.Err? {
        Damage();
        return;
      }
      tables := tables[name := registry.Contents()];
      assert OnlyReferencing(rules.work, tables, rules.work.rewrite(tables, name, record.row, clean.value), name);
      var followed := rules.work.rewrite(tables, name, record.row, clean.value);
      if followed == None {
        ghost var change := Change.Rewrite(record.address, r.value, values);
        assert UpdateStep(record, name, patch, rules.sanitize, change) && Enabled(old(tables)[name].rows, change);
        Damage();
        r := Err(ReferenceFailed);
      } else {
        tables := followed.value;
      }
    }

    /** Updates the chosen rows inside an open journal. */
    method UpdateAll(name: string, patch: NamedRow, filter: Option<Filter>) returns (r: Result<nat, DbError>)
      requires AllValid(tables) && name in tables && StaysInReach(rules.work)
      modifies this`tables, host
      ensures host.tried >= old(host.tried) && (r.Ok? ==> host.WorkedSince(old(host.tried)))
      ensures r.Ok? ==>
                && AllValid(tables) && name in tables
                && IsUpdate(old(tables)[name], tables[name], Chosen(rules.less, old(tables)[name].rows, filter), name, patch, rules.sanitize)
                && ChangedWithin(old(tables), tables, {name} + rules.work.referencing(name))
                && IsUpdateRun(rules, old(tables), name, patch, Chosen(rules.less, old(tables)[name].rows, filter), tables)
                && r.value == |Chosen(rules.less, old(tables)[name].rows, filter)|
      ensures r.Err? ==>
                UpdateFails(rules, old(tables), name, patch, Chosen(rules.less, old(tables)[name].rows, filter),
                            host.WorkedSince(old(host.tried)), r.error)
    {
      hide Progress, Apply, Collected, IsUpdate, ValidTable, RecordUpdated, RecordUpdateFails, StaysInReach, Chosen;
      ghost var states := [tables];
      var registry := new TableRegistry.Load(tables[name], host);
      ghost var before := tables[name];
      ghost var addresses := Chosen(rules.less, before.rows, filter);
      ghost var changes: seq<Change> := [];
      var records := CollectRecords(rules.less, registry.rows, filter);
      ProgressStart(before, addresses, records);
      for i := 0 to |records|
        invariant AllValid(tables) && name in tables && tables[name] == registry.Contents()
        invariant Progress(before, registry.Contents(), records, i, changes)
        invariant ChangedWithin(old(tables), tables, {name} + rules.work.referencing(name))
        invariant |changes| == i && forall k :: 0 <= k < i ==> UpdateStep(records[k], name, patch, rules.sanitize, changes[k])
        invariant UpdatedUpTo(rules, name, patch, records, changes, states) && states[0] == old(tables) && states[i] == tables
        invariant host.tried >= old(host.tried) && host.WorkedSince(old(host.tried))
      {
        ghost var current := registry.Contents();
        NextRecord(before, current, records, i, changes);
        ghost var tried := host.tried;
        var target;
        ghost var values;
        target, values := UpdateRecord(name, registry, records[i], patch);
        if target.Err? {
          assert host.WorkedSince(old(host.tried)) == host.WorkedSince(tried);
          return Err(target.error);
        }
        ghost var change := Change.Rewrite(records[i].address, target.value, values);
        ProgressStep(before, current, records, i, changes, change);
        changes, states := changes + [change], states + [tables];
      }
      UpdateDone(before, registry.Contents(), addresses, records, changes, name, patch, rules.sanitize);
      return Ok(|records|);
    }

    /** Updates the chosen rows; the count does not include rows updated in referencing tables. */
    method Update(name: string, patch: NamedRow, filter: Option<Filter>) returns (r: Result<nat, DbError>)
      requires AllValid(tables) && StaysInReach(rules.work)
      modifies this, host
      ensures journal == old(journal) && host.tried >= old(host.tried)
      ensures r.Ok? ==>
                && AllValid(tables) && name in old(tables) && name in tables
                && IsUpdate(old(tables)[name], tables[name], Chosen(rules.less, old(tables)[name].rows, filter), name, patch, rules.sanitize)
                && ChangedWithin(old(tables), tables, {name} + rules.work.referencing(name))
                && IsUpdateRun(rules, old(tables), name, patch, Chosen(rules.less, old(tables)[name].rows, filter), tables)
                && r.value == |Chosen(rules.less, old(tables)[name].rows, filter)|
                && host.WorkedSince(old(host.tried))
      ensures r.Err? ==>
                if name !in old(tables) then r.error == TableNotFound
                else UpdateFails(rules, old(tables), name, patch, Chosen(rules.less, old(tables)[name].rows, filter),
                                 host.WorkedSince(old(host.tried)), r.error)
      ensures r.Err? && old(journal).None? ==> tables == old(tables)
    {
      if name !in tables {
        return Err(TableNotFound);
      }
      var nested := Begin();
      r := UpdateAll(name, patch, filter);
      End(nested, r.Err?);
    }

    // ----- Delete

    method DeleteRecord(name: string, behavior: DeleteBehavior, registry: TableRegistry, record: Record)
      returns (r: Result<(), DbError>)
      requires AllValid(tables) && name in tables && registry.Contents() == tables[name] && registry.host == host
      requires record.address in registry.rows && registry.rows[record.address] == record.row
      requires StaysInReach(rules.work)
      modifies this`tables, registry, host
      ensures host.tried >= old(host.tried)
      ensures r.Ok? ==>
                && registry.Contents() == Apply(old(registry.Contents()), Change.Delete(record.address))
                && AllValid(tables) && name in tables && tables[name] == registry.Contents()
                && ChangedWithin(old(tables), tables, Reach(rules.work.referencing, name, behavior))
      ensures r.Ok? ==> host.WorkedSince(old(host.tried)) && RecordDeleted(rules, name, behavior, record, old(tables), tables)
      ensures r.Err? ==> RecordDeleteFails(rules, old(tables), name, behavior, record, host.WorkedSince(old(host.tried)), r.error)
    {
      match behavior {
        case Cascade =>
          assert OnlyReferencing(rules.work, tables, rules.work.cascade(tables, name, record.row), name);
          var followed := rules.work.cascade(tables, name, record.row);
          if followed == None {
            Damage();
            return Err(ReferenceFailed);
          }
          tables := followed.value;
        case Restrict =>
          if rules.work.referenced(tables, name, record.row) {
            return Err(ReferenceFailed);
          }
      }
      r := registry.DeleteRow(record.address, record.row);
      if r.Err? {
        Damage();
        return;
      }
      tables := tables[name := registry.Contents()];
    }

    method DeleteAll(name: string, behavior: DeleteBehavior, filter: Option<Filter>) returns (r: Result<nat, DbError>)
      requires AllValid(tables) && name in tables && StaysInReach(rules.work)
      modifies this`tables, host
      ensures host.tried >= old(host.tried) && (r.Ok? ==> host.WorkedSince(old(host.tried)))
      ensures r.Ok? ==>
                && AllValid(tables) && name in tables
                && IsDelete(old(tables)[name], tables[name], Chosen(rules.less, old(tables)[name].rows, filter))
                && ChangedWithin(old(tables), tables, Reach(rules.work.referencing, name, behavior))
                && IsDeleteRun(rules, old(tables), name, behavior, Chosen(rules.less, old(tables)[name].rows, filter), tables)
                && r.value == |Chosen(rules.less, old(tables)[name].rows, filter)|
      ensures r.Err? ==>
                DeleteFails(rules, old(tables), name, behavior, Chosen(rules.less, old(tables)[name].rows, filter),
                            host.WorkedSince(old(host.tried)), r.error)
    {
      hide Progress, Apply, Collected, IsDelete, ValidTable, RecordDeleted, RecordDeleteFails, StaysInReach, Chosen, Enabled;
      ghost var states := [tables];
      var registry := new TableRegistry.Load(tables[name], host);
      ghost var before := tables[name];
      ghost var addresses := Chosen(rules.less, before.rows, filter);
      ghost var changes: seq<Change> := [];
      var records := CollectRecords(rules.less, registry.rows, filter);
      ProgressStart(before, addresses, records);
      for i := 0 to |records|
        invariant AllValid(tables) && name in tables && tables[name] == registry.Contents()
        invariant Progress(before, registry.Contents(), records, i, changes)
        invariant ChangedWithin(old(tables), tables, Reach(rules.work.referencing, name, behavior))
        invariant |changes| == i && forall k :: 0 <= k < i ==> changes[k] == Change.Delete(records[k].address)
        invariant DeletedUpTo(rules, name, behavior, records, i, states) && states[0] == old(tables) && states[i] == tables
        invariant host.tried >= old(host.tried) && host.WorkedSince(old(host.tried))
      {
        ghost var current := registry.Contents();
        NextRecord(before, current, records, i, changes);
        ghost var tried := host.tried;
        var done := DeleteRecord(name, behavior, registry, records[i]);
        if done.Err? {
          assert host.WorkedSince(old(host.tried)) == host.WorkedSince(tried);
          return Err(done.error);
        }
        ghost var change := Change.Delete(records[i].address);
        ProgressStep(before, current, records, i, changes, change);
        changes, states := changes + [change], states + [tables];
      }
      DeleteDone(before, registry.Contents(), addresses, records, changes);
      return Ok(|records|);
    }

    /** Deletes the chosen rows; the count does not include rows deleted in referencing tables. */
    method Delete(name: string, behavior: DeleteBehavior, filter: Option<Filter>) returns (r: Result<nat, DbError>)
      requires AllValid(tables) && StaysInReach(rules.work)
      modifies this, host
      ensures journal == old(journal) && host.tried >= old(host.tried)
      ensures r.Ok? ==>
                && AllValid(tables) && name in old(tables) && name in tables
                && IsDelete(old(tables)[name], tables[name], Chosen(rules.less, old(tables)[name].rows, filter))
                && ChangedWithin(old(tables), tables, Reach(rules.work.referencing, name, behavior))
                && IsDeleteRun(rules, old(tables), name, behavior, Chosen(rules.less, old(tables)[name].rows, filter), tables)
                && r.value == |Chosen(rules.less, old(tables)[name].rows, filter)|
                && host.WorkedSince(old(host.tried))
      ensures r.Err? ==>
                if name !in old(tables) then r.error == TableNotFound
                else DeleteFails(rules, old(tables), name, behavior, Chosen(rules.less, old(tables)[name].rows, filter),
                                 host.WorkedSince(old(host.tried)), r.error)
      ensures r.Err? && old(journal).None? ==> tables == old(tables)
    {
      if name !in tables {
        return Err(TableNotFound);
      }
      var nested := Begin();
      r := DeleteAll(name, behavior, filter);
      End(nested, r.Err?);
    }

    // ----- Commit

    /** Checks the captured versions of one operation; nothing is read when there are none. */
    method ValidatedTransactionFilter(name: string, filters: seq<Filter>) returns (r: Result<Option<Filter>, DbError>)
      ensures filters == [] ==> r == Ok(None)
      ensures filters != [] && name !in tables ==> r == Err(TableNotFound)
      ensures filters != [] && name in tables ==>
                r == if EachSelectsOne(rules.less, tables[name].rows, filters) then Ok(Disjunction(filters))
                     else Err(TransactionConflict)
    {
      if filters == [] {
        return Ok(None);
      }
      if name !in tables {
        return Err(TableNotFound);
      }
      var valid := ValidatedFilter(rules.less, tables[name].rows, filters);
      match valid
      case Err(_) => return Err(TransactionConflict);
      case Ok(filter) => return Ok(filter);
    }

    /** Replays one operation; it fails only for a reason. */
    method Replay(op: TransactionOp) returns (r: Result<(), DbError>)
      requires AllValid(tables) && journal.Some? && StaysInReach(rules.work)
      modifies this, host
      ensures journal == old(journal) && host.tried >= old(host.tried)
      ensures r.Ok? ==> AllValid(tables) && ReplayStep(rules.less, rules.sanitize, rules.work.referencing, old(tables), op, tables)
      ensures r.Ok? ==> host.WorkedSince(old(host.tried)) && ReplayPasses(rules, old(tables), op, tables)
      ensures r.Err? ==> ReplayFails(rules, old(tables), op, host.WorkedSince(old(host.tried)), r.error)
    {
      hide UpdateFails, DeleteFails, IsUpdate, IsDelete, IsInsert, IsUpdateRun, IsDeleteRun, ChangedWithin;
      match op
      case InsertOp(name, values) =>
        if name !in tables {
          return Err(TableNotFound);
        }
        if !rules.admits(tables, name, values, None) {
          return Err(Rejected);
        }
        var inserted := Insert(name, values);
        return if inserted.Ok? then Ok(()) else Err(inserted.error);
      case UpdateOp(name, patch, filters) =>
        var valid := ValidatedTransactionFilter(name, filters);
        if valid.Err? {
          return Err(valid.error);
        }
        if valid.value == None {
          return Ok(());
        }
        var updated := Update(name, patch, valid.value);
        return if updated.Ok? then Ok(()) else Err(updated.error);
      case DeleteOp(name, behavior, filters) =>
        var valid := ValidatedTransactionFilter(name, filters);
        if valid.Err? {
          return Err(valid.error);
        }
        if valid.value == None {
          return Ok(());
        }
        var deleted := Delete(name, behavior, valid.value);
        return if deleted.Ok? then Ok(()) else Err(deleted.error);
    }

    /**
     Replays a transaction: every operation takes effect, in order; or the first one that
     cannot be replayed in the state it meets gives the error, and nothing changes.
     */
    method Commit(operations: seq<TransactionOp>) returns (r: Result<(), DbError>, ghost states: seq<Tables>)
      requires AllValid(tables) && journal.None? && StaysInReach(rules.work)
      modifies this, host
      ensures journal.None? && AllValid(tables) && states != [] && states[0] == old(tables)
      ensures r.Ok? ==>
                && IsReplay(rules.less, rules.sanitize, rules.work.referencing, operations, states)
                && |states| == |operations| + 1 && states[|operations|] == tables
                && (forall k :: 0 <= k < |operations| ==> ReplayPasses(rules, states[k], operations[k], states[k + 1]))
                && host.WorkedSince(old(host.tried))
      ensures r.Err? ==>
                && tables == old(tables)
                && var k := |states| - 1;
                   && k < |operations|
                   && IsReplay(rules.less, rules.sanitize, rules.work.referencing, operations[..k], states)
                   && ReplayFails(rules, states[k], operations[k], host.WorkedSince(old(host.tried)), r.error)
    {
      hide ReplayStep, IsReplay, ReplayFails, ReplayPasses, StaysInReach;
      journal := Some(tables);
      states := [tables];
      NothingReplayed(rules.less, rules.sanitize, rules.work.referencing, tables);
      assert operations[..0] == [];
      for i := 0 to |operations|
        invariant AllValid(tables) && journal == Some(old(tables))
        invariant host.tried >= old(host.tried) && host.WorkedSince(old(host.tried))
        invariant |states| == i + 1 && IsReplay(rules.less, rules.sanitize, rules.work.referencing, operations[..i], states)
        invariant states[0] == old(tables) && states[i] == tables
        invariant forall k :: 0 <= k < i ==> ReplayPasses(rules, states[k], operations[k], states[k + 1])
      {
        ghost var tried := host.tried;
        var done := Replay(operations[i]);
        if done.Err? {
          tables := journal.value;
          journal := None;
          assert host.WorkedSince(old(host.tried)) == host.WorkedSince(tried);
          return Err(done.error), states;
        }
        ReplayedOne(rules.less, rules.sanitize, rules.work.referencing, operations[..i], states, operations[i], tables);
        assert operations[..i + 1] == operations[..i] + [operations[i]];
        states := states + [tables];
      }
      assert operations[..|operations|] == operations;
      journal := None;
      return Ok(()), states;
    }
  }

  lemma {:induction false} CollectedCount(rows: Rows, addresses: set<Address>, records: seq<Record>)
    requires Collected(rows, addresses, records)
    ensures |records| == |addresses|
    decreases |records|
  {
    if records != [] {
      var init, last := records[..|records| - 1], records[|records| - 1];
      forall address
        ensures address in addresses - {last.address} <==> exists k :: 0 <= k < |init| && init[k].address == address
      {
        if address in addresses - {last.address} {
          var k :| 0 <= k < |records| && records[k].address == address;
          assert init[k].address == address;
        }
      }
      assert records[|records| - 1].address in addresses;
      CollectedCount(rows, addresses - {last.address}, init);
    } else {
      assert addresses == {};
    }
  }

  // ----- What a commit guarantees

  /**
   No lost updates: an update that captured rows changes exactly the addresses that still
   hold a captured version, each of which is held exactly once; an update that captured
   none changes nothing at all.
   */
  lemma ReplayedUpdateIsExact(less: Less, sanitize: Sanitizer, referencing: References, before: Tables, after: Tables, name: string,
                              shown: seq<string>, primaryKey: string, patch: NamedRow, captured: seq<Captured>)
    requires ReplayStep(less, sanitize, referencing, before, UpdateOp(name, patch, CapturedFilters(primaryKey, captured)), after)
    requires name in before ==> ValidCaptures(before[name].columns, shown, primaryKey, before[name].rows, captured)
    ensures captured == [] ==> after == before
    ensures captured != [] ==>
              && name in before && name in after
              && (forall k :: 0 <= k < |captured| ==> |HoldersOf(shown, before[name].rows, captured[k].row)| == 1)
              && IsUpdate(before[name], after[name], Holders(shown, before[name].rows, captured), name, patch, sanitize)
              && ChangedWithin(before, after, {name} + referencing(name))
  {
    if captured != [] {
      ReplaySelectsCaptured(less, before[name].columns, shown, primaryKey, before[name].rows, captured);
      ValidatedVersionsAreStored(less, before[name].columns, shown, primaryKey, before[name].rows, captured);
    }
  }

  /** The same for a delete: exactly the rows that still are captured versions go. */
  lemma ReplayedDeleteIsExact(less: Less, sanitize: Sanitizer, referencing: References, before: Tables, after: Tables, name: string,
                              shown: seq<string>, primaryKey: string, behavior: DeleteBehavior, captured: seq<Captured>)
    requires ReplayStep(less, sanitize, referencing, before, DeleteOp(name, behavior, CapturedFilters(primaryKey, captured)), after)
    requires name in before ==> ValidCaptures(before[name].columns, shown, primaryKey, before[name].rows, captured)
    ensures captured == [] ==> after == before
    ensures captured != [] ==>
              && name in before && name in after
              && (forall k :: 0 <= k < |captured| ==> |HoldersOf(shown, before[name].rows, captured[k].row)| == 1)
              && after[name].rows == before[name].rows - Holders(shown, before[name].rows, captured)
              && ChangedWithin(before, after, Reach(referencing, name, behavior))
  {
    if captured != [] {
      ReplaySelectsCaptured(less, before[name].columns, shown, primaryKey, before[name].rows, captured);
      ValidatedVersionsAreStored(less, before[name].columns, shown, primaryKey, before[name].rows, captured);
      DeleteRemoves(before[name], after[name], Holders(shown, before[name].rows, captured));
    }
  }
}
