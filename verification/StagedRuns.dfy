/**
 A transaction without other writers. Every row it sees is paired with the stored row that
 its replay gives: reads patch the row as given, the commit stores what sanitizing makes of
 it. Main result: an operation conflicts with the earlier ones of its own transaction if and
 only if it captures a row that sanitizing altered when it was last staged.
 */
module StagedRuns {
  import opened Wrappers
  import opened Values
  import opened Sequences
  import opened Filters
  import opened TableIndexes
  import opened Statements
  import opened Overlays
  import opened Transactions
  import opened Databases
  import opened Stagings

  /** The primary-key column of every table. */
  type PrimaryKeys = string -> string

  function OpOf(keys: PrimaryKeys, s: Staged): TransactionOp {
    match s
    case StagedInsert(table, _, values) => InsertOp(table, values)
    case StagedUpdate(table, patch, captured) => UpdateOp(table, patch, CapturedFilters(keys(table), captured))
    case StagedDelete(table, behavior, captured) => DeleteOp(table, behavior, CapturedFilters(keys(table), captured))
  }

  function OpsOf(keys: PrimaryKeys, staged: seq<Staged>): (operations: seq<TransactionOp>)
    ensures |operations| == |staged|
  {
    seq(|staged|, k requires 0 <= k < |staged| => OpOf(keys, staged[k]))
  }

  /** Whether an operation is on the table `name`, or on one whose replay leaves that table alone. */
  predicate Independent(referencing: References, name: string, s: Staged) {
    s.table == name ||
    match s
    case StagedInsert(_, _, _) => true
    case StagedUpdate(table, _, _) => name !in {table} + referencing(table)
    case StagedDelete(table, behavior, _) => name !in Reach(referencing, table, behavior)
  }

  // ----- What is seen and what is stored

  /** A row as the transaction sees it, and as its replay stores it. */
  datatype Version = Version(seen: NamedRow, stored: NamedRow)

  /** The record that is stored for `values`; rejected values end the commit. */
  function StoredRow(sanitize: Sanitizer, schema: Schema, values: NamedRow): NamedRow {
    match sanitize(schema.name, values)
    case None => values
    case Some(clean) => Complete(schema.columns, clean)
  }

  function PatchedVersion(sanitize: Sanitizer, schema: Schema, patch: NamedRow, v: Version): Version {
    Version(Patched(v.seen, patch), StoredRow(sanitize, schema, Patched(v.stored, patch)))
  }

  function NextVersion(sanitize: Sanitizer, schema: Schema, s: Staged, v: Version): Version {
    if s.StagedUpdate? && CapturesKey(schema.primaryKey, s.captured, v.seen)
    then PatchedVersion(sanitize, schema, s.patch, v) else v
  }

  function NextVersions(sanitize: Sanitizer, schema: Schema, versions: set<Version>, s: Staged): set<Version> {
    if s.table != schema.name then versions
    else match s
      case StagedInsert(_, _, values) => versions + {Version(values, StoredRow(sanitize, schema, values))}
      case StagedUpdate(_, _, _) => set v | v in versions :: NextVersion(sanitize, schema, s, v)
      case StagedDelete(_, _, captured) => set v | v in versions && !CapturesKey(schema.primaryKey, captured, v.seen)
  }

  function VersionsOf(sanitize: Sanitizer, schema: Schema, rows: set<NamedRow>, staged: seq<Staged>): set<Version> {
    if staged == [] then set row | row in rows :: Version(row, row)
    else
      NextVersions(sanitize, schema, VersionsOf(sanitize, schema, rows, staged[..|staged| - 1]), staged[|staged| - 1])
  }

  function Seen(versions: set<Version>): set<NamedRow> {
    set v | v in versions :: v.seen
  }

  function Stored(versions: set<Version>): set<NamedRow> {
    set v | v in versions :: v.stored
  }

  /** Whether the stored row differs from the one seen in a column that captures show. */
  predicate Altered(schema: Schema, v: Version) {
    Complete(schema.shown, v.stored) != Complete(schema.shown, v.seen)
  }

  lemma SeenNext(sanitize: Sanitizer, schema: Schema, versions: set<Version>, s: Staged)
    ensures Seen(NextVersions(sanitize, schema, versions, s)) == NextView(schema, Seen(versions), s)
  {
    var next := NextVersions(sanitize, schema, versions, s);
    if s.table == schema.name && !s.StagedInsert? {
      forall row | row in NextView(schema, Seen(versions), s)
        ensures row in Seen(next)
      {
        var v :| v in versions && RowAfter(schema.primaryKey, s, v.seen) == Some(row);
        assert NextVersion(sanitize, schema, s, v) in next;
      }
      forall row | row in Seen(next)
        ensures row in NextView(schema, Seen(versions), s)
      {
        var w :| w in next && w.seen == row;
        var v :| v in versions && NextVersion(sanitize, schema, s, v) == w
                 && RowAfter(schema.primaryKey, s, v.seen) == Some(row);
        assert v.seen in Seen(versions);
      }
    }
  }

  // ----- Keys

  /**
   How sanitizing treats the key column: by a function of the key alone that leaves sanitized
   keys as they are.
   */
  ghost predicate SanitizesKeys(sanitize: Sanitizer, schema: Schema, clean: Value -> Value) {
    && (forall key :: clean(clean(key)) == clean(key))
    && (forall values :: sanitize(schema.name, values).Some? && Lookup(values, schema.primaryKey).Some? ==>
          Lookup(sanitize(schema.name, values).value, schema.primaryKey) == Some(clean(Lookup(values, schema.primaryKey).value)))
  }

  /** A version has all columns on both sides, and its stored key is its visible key, sanitized. */
  ghost predicate Settled(schema: Schema, clean: Value -> Value, v: Version) {
    && Covers(schema.columns, v.seen)
    && FitsColumns(schema.columns, v.stored)
    && Lookup(v.stored, schema.primaryKey) == Some(clean(CellOrNull(v.seen, schema.primaryKey)))
    && clean(CellOrNull(v.stored, schema.primaryKey)) == CellOrNull(v.stored, schema.primaryKey)
  }

  ghost predicate AllSettled(schema: Schema, clean: Value -> Value, versions: set<Version>) {
    forall v :: v in versions ==> Settled(schema, clean, v)
  }

  /** Different versions are stored as different rows. */
  ghost predicate Separate(versions: set<Version>) {
    forall v, w :: v in versions && w in versions && v.stored == w.stored ==> v == w
  }

  lemma StoredKey(sanitize: Sanitizer, schema: Schema, clean: Value -> Value, values: NamedRow)
    requires SanitizesKeys(sanitize, schema, clean) && schema.primaryKey in schema.columns
    requires sanitize(schema.name, values).Some? && Lookup(values, schema.primaryKey).Some?
    ensures FitsColumns(schema.columns, StoredRow(sanitize, schema, values))
    ensures Lookup(StoredRow(sanitize, schema, values), schema.primaryKey) == Some(clean(Lookup(values, schema.primaryKey).value))
  {
    LookupCompleted(schema.columns, sanitize(schema.name, values).value, schema.primaryKey);
  }

  lemma PatchedCovers(columns: seq<string>, row: NamedRow, patch: NamedRow)
    requires Covers(columns, row)
    ensures Covers(columns, Patched(row, patch))
  {
    forall column | column in columns
      ensures Lookup(Patched(row, patch), column).Some?
    {
      PatchedLookup(row, patch, column);
    }
  }

  lemma StoredCovers(columns: seq<string>, row: NamedRow)
    requires FitsColumns(columns, row)
    ensures Covers(columns, row)
  {
    forall column | column in columns
      ensures Lookup(row, column).Some?
    {
      KeyIsStored(columns, row, column);
    }
  }

  lemma PatchedSettled(sanitize: Sanitizer, schema: Schema, clean: Value -> Value, patch: NamedRow, v: Version)
    requires SanitizesKeys(sanitize, schema, clean) && schema.primaryKey in schema.columns && Settled(schema, clean, v)
    requires sanitize(schema.name, Patched(v.stored, patch)).Some?
    ensures Settled(schema, clean, PatchedVersion(sanitize, schema, patch, v))
  {
    hide FitsColumns;
    var key := schema.primaryKey;
    PatchedCovers(schema.columns, v.seen, patch);
    StoredCovers(schema.columns, v.stored);
    PatchedCovers(schema.columns, v.stored, patch);
    PatchedLookup(v.seen, patch, key);
    PatchedLookup(v.stored, patch, key);
    StoredKey(sanitize, schema, clean, Patched(v.stored, patch));
  }

  lemma InsertedSettled(sanitize: Sanitizer, schema: Schema, clean: Value -> Value, values: NamedRow)
    requires SanitizesKeys(sanitize, schema, clean) && schema.primaryKey in schema.columns
    requires Covers(schema.columns, values) && sanitize(schema.name, values).Some?
    ensures Settled(schema, clean, Version(values, StoredRow(sanitize, schema, values)))
  {
    StoredKey(sanitize, schema, clean, values);
  }

  // ----- The stored rows and their versions

  lemma ValuesCount(primaryKey: string, rows: Rows)
    requires KeysUnique(primaryKey, rows)
    ensures |rows.Values| == |rows|
  {
    var row := (address: Address) => if address in rows then rows[address] else [];
    ImageSize(rows.Keys, row);
    assert rows.Values == Image(rows.Keys, row);
  }

  lemma SeparateCount(versions: set<Version>)
    ensures |Stored(versions)| <= |versions|
    ensures |Stored(versions)| == |versions| <==> Separate(versions)
  {
    var stored := (v: Version) => v.stored;
    ImageSize(versions, stored);
    assert Stored(versions) == Image(versions, stored);
  }

  lemma UpdatedCount(sanitize: Sanitizer, schema: Schema, versions: set<Version>, s: Staged)
    requires s.table == schema.name && s.StagedUpdate?
    ensures |NextVersions(sanitize, schema, versions, s)| <= |versions|
  {
    var next := (v: Version) => NextVersion(sanitize, schema, s, v);
    ImageSize(versions, next);
    assert NextVersions(sanitize, schema, versions, s) == Image(versions, next);
  }

  /** A stored key is the visible key of its own version at most. */
  lemma KeyFindsVersion(schema: Schema, clean: Value -> Value, versions: set<Version>, rows: Rows, v: Version, w: Version)
    requires AllSettled(schema, clean, versions) && Separate(versions) && Stored(versions) == rows.Values
    requires KeysUnique(schema.primaryKey, rows) && v in versions && w in versions
    requires CellOrNull(w.stored, schema.primaryKey) == CellOrNull(v.seen, schema.primaryKey)
    ensures v == w
  {
    assert Settled(schema, clean, v) && Settled(schema, clean, w);
    assert Lookup(v.stored, schema.primaryKey) == Lookup(w.stored, schema.primaryKey);
    assert v.stored in Stored(versions) && w.stored in Stored(versions);
    var a :| a in rows && rows[a] == v.stored;
    var b :| b in rows && rows[b] == w.stored;
    assert a == b;
  }

  /** Whether a stored row agrees with one of the captured versions. */
  predicate HeldBy(schema: Schema, captured: seq<Captured>, row: NamedRow) {
    exists k | 0 <= k < |captured| :: Complete(schema.shown, row) == captured[k].row
  }

  ghost predicate AllHeld(schema: Schema, rows: Rows, captured: seq<Captured>) {
    forall k :: 0 <= k < |captured| ==> IsHeld(schema.shown, rows, captured[k].row)
  }

  lemma CaptureComesFrom(schema: Schema, versions: set<Version>, captured: seq<Captured>, k: nat) returns (v: Version)
    requires CapturesView(schema, Seen(versions), captured) && k < |captured|
    ensures v in versions && captured[k] == CaptureOf(schema.shown, schema.primaryKey, v.seen)
  {
    assert captured[k] in CapturesOf(schema, Seen(versions));
    var row :| row in Seen(versions) && captured[k] == CaptureOf(schema.shown, schema.primaryKey, row);
    v :| v in versions && v.seen == row;
  }

  // The key of a captured version, read off its shown columns.
  lemma ShownKey(schema: Schema, row: NamedRow, other: NamedRow)
    requires ValidSchemaOf(schema) && Complete(schema.shown, row) == Complete(schema.shown, other)
    ensures CellOrNull(row, schema.primaryKey) == CellOrNull(other, schema.primaryKey)
  {
    KeyIsShown(schema.columns, schema.shown, schema.primaryKey, row);
    KeyIsShown(schema.columns, schema.shown, schema.primaryKey, other);
  }

  /** Between versions and stored rows: what holds after every replayed prefix of a transaction. */
  ghost predicate Tracks(schema: Schema, clean: Value -> Value, rows: Rows, versions: set<Version>) {
    && ValidSchemaOf(schema) && RowsFit(schema.columns, rows) && KeysUnique(schema.primaryKey, rows)
    && Stored(versions) == rows.Values && Separate(versions) && AllSettled(schema, clean, versions)
  }

  lemma HeldIsOwn(schema: Schema, clean: Value -> Value, rows: Rows, versions: set<Version>, captured: seq<Captured>, k: nat, w: Version)
    returns (v: Version)
    requires Tracks(schema, clean, rows, versions) && CapturesView(schema, Seen(versions), captured)
    requires k < |captured| && w in versions && Complete(schema.shown, w.stored) == captured[k].row
    ensures v == w && captured[k] == CaptureOf(schema.shown, schema.primaryKey, v.seen)
  {
    v := CaptureComesFrom(schema, versions, captured, k);
    ShownKey(schema, w.stored, v.seen);
    KeyFindsVersion(schema, clean, versions, rows, v, w);
  }

  /** When every captured version is held, the held rows are those of the captured keys. */
  lemma HeldIffCaptured(schema: Schema, clean: Value -> Value, rows: Rows, versions: set<Version>, captured: seq<Captured>, v: Version)
    requires Tracks(schema, clean, rows, versions) && CapturesView(schema, Seen(versions), captured)
    requires AllHeld(schema, rows, captured) && v in versions
    ensures HeldBy(schema, captured, v.stored) <==> CapturesKey(schema.primaryKey, captured, v.seen)
  {
    hide Tracks, CapturesView, RowsFit;
    TracksSettled(schema, clean, rows, versions, v);
    if HeldBy(schema, captured, v.stored) {
      var k :| 0 <= k < |captured| && Complete(schema.shown, v.stored) == captured[k].row;
      var u := HeldIsOwn(schema, clean, rows, versions, captured, k, v);
      assert Lookup(v.seen, schema.primaryKey) == Some(captured[k].key);
    }
    if CapturesKey(schema.primaryKey, captured, v.seen) {
      var k :| 0 <= k < |captured| && Lookup(v.seen, schema.primaryKey) == Some(captured[k].key);
      var w := HolderOf(schema, clean, rows, versions, captured, k);
      var u := HeldIsOwn(schema, clean, rows, versions, captured, k, w);
      SameKeySameVersion(schema, clean, rows, versions, v, w);
    }
  }

  lemma TracksSettled(schema: Schema, clean: Value -> Value, rows: Rows, versions: set<Version>, v: Version)
    requires Tracks(schema, clean, rows, versions) && v in versions
    ensures Settled(schema, clean, v) && Lookup(v.seen, schema.primaryKey).Some? && v.stored in rows.Values
  {
    assert Settled(schema, clean, v);
    assert v.stored in Stored(versions);
  }

  // A held version is stored for some version.
  lemma HolderOf(schema: Schema, clean: Value -> Value, rows: Rows, versions: set<Version>, captured: seq<Captured>, k: nat)
    returns (w: Version)
    requires Tracks(schema, clean, rows, versions) && AllHeld(schema, rows, captured) && k < |captured|
    ensures w in versions && Complete(schema.shown, w.stored) == captured[k].row
  {
    assert IsHeld(schema.shown, rows, captured[k].row);
    var address :| address in rows && Complete(schema.shown, rows[address]) == captured[k].row;
    assert rows[address] in Stored(versions);
    w :| w in versions && w.stored == rows[address];
  }

  // A version that is stored as its capture says has a visible key of its own.
  lemma SameKeySameVersion(schema: Schema, clean: Value -> Value, rows: Rows, versions: set<Version>, v: Version, w: Version)
    requires Tracks(schema, clean, rows, versions) && v in versions && w in versions
    requires CellOrNull(v.seen, schema.primaryKey) == CellOrNull(w.seen, schema.primaryKey)
    requires Complete(schema.shown, w.stored) == Complete(schema.shown, w.seen)
    ensures v == w
  {
    ShownKey(schema, w.stored, w.seen);
    KeyFindsVersion(schema, clean, versions, rows, v, w);
  }

  // ----- What the replay of one operation does to the stored rows

  // Where a row of a rewritten table comes from.
  lemma {:induction false} RewrittenFrom(table: Table, changes: seq<Change>, address: Address) returns (k: nat)
    requires EnabledAll(table.columns, table.rows, changes)
    requires forall j :: 0 <= j < |changes| ==> changes[j].Rewrite?
    requires address in ApplyAll(table, changes).rows
    ensures k <= |changes|
    ensures k < |changes| ==> ApplyAll(table, changes).rows[address] == Complete(table.columns, changes[k].values)
    ensures k == |changes| ==>
              && address in table.rows && ApplyAll(table, changes).rows[address] == table.rows[address]
              && forall j :: 0 <= j < |changes| ==> changes[j].address != address
    decreases |changes|
  {
    if changes == [] {
      k := 0;
    } else {
      var first, tail := changes[0], changes[1..];
      var j := RewrittenFrom(Apply(table, first), tail, address);
      k := if j < |tail| then j + 1 else if first.target == address then 0 else |changes|;
      if k == |changes| {
        forall i | 0 <= i < |changes|
          ensures changes[i].address != address
        {
          if i > 0 {
            assert tail[i - 1] == changes[i];
          }
        }
      }
    }
  }

  /** The row that an update of the captured versions leaves in place of a stored one. */
  function UpdatedRow(sanitize: Sanitizer, schema: Schema, patch: NamedRow, captured: seq<Captured>, row: NamedRow): NamedRow {
    if HeldBy(schema, captured, row) then StoredRow(sanitize, schema, Patched(row, patch)) else row
  }

  /** The rows stored after an update of the captured versions: the others, and the new versions as stored. */
  lemma UpdateRows(before: Table, after: Table, schema: Schema, patch: NamedRow, sanitize: Sanitizer, captured: seq<Captured>)
    requires before.columns == schema.columns
    requires IsUpdate(before, after, Holders(schema.shown, before.rows, captured), schema.name, patch, sanitize)
    ensures forall row :: row in before.rows.Values && HeldBy(schema, captured, row) ==> sanitize(schema.name, Patched(row, patch)).Some?
    ensures after.rows.Values == set row | row in before.rows.Values :: UpdatedRow(sanitize, schema, patch, captured, row)
  {
    hide IsUpdate, HeldBy, Holders, StoredRow;
    var updated := set row | row in before.rows.Values :: UpdatedRow(sanitize, schema, patch, captured, row);
    forall row | row in before.rows.Values {
      UpdatedTo(before, after, schema, patch, sanitize, captured, row);
    }
    forall row | row in after.rows.Values
      ensures row in updated
    {
      var previous := UpdatedFrom(before, after, schema, patch, sanitize, captured, row);
    }
    assert after.rows.Values == updated;
  }

  lemma UpdatedTo(before: Table, after: Table, schema: Schema, patch: NamedRow, sanitize: Sanitizer, captured: seq<Captured>, row: NamedRow)
    requires before.columns == schema.columns && row in before.rows.Values
    requires IsUpdate(before, after, Holders(schema.shown, before.rows, captured), schema.name, patch, sanitize)
    ensures HeldBy(schema, captured, row) ==> sanitize(schema.name, Patched(row, patch)).Some?
    ensures UpdatedRow(sanitize, schema, patch, captured, row) in after.rows.Values
  {
    hide IsUpdate;
    var addresses := Holders(schema.shown, before.rows, captured);
    var address :| address in before.rows && before.rows[address] == row;
    if HeldBy(schema, captured, row) {
      assert address in addresses;
      UpdateStores(before, after, addresses, schema.name, patch, sanitize, address);
    } else {
      UpdateFrame(before, after, addresses, schema.name, patch, sanitize, address);
      assert after.rows[address] == row;
    }
  }

  // Every selected address is where some change starts.
  lemma StartsAreAddresses(rows: Rows, addresses: set<Address>, records: seq<Record>, name: string, patch: NamedRow,
                           sanitize: Sanitizer, changes: seq<Change>)
    requires Collected(rows, addresses, records) && UpdateChanges(records, name, patch, sanitize, changes)
    ensures forall address :: address in addresses ==> exists j :: 0 <= j < |changes| && changes[j].address == address
  {
    forall address | address in addresses
      ensures exists j :: 0 <= j < |changes| && changes[j].address == address
    {
      var j :| 0 <= j < |records| && records[j].address == address;
      assert UpdateStep(records[j], name, patch, sanitize, changes[j]);
      assert changes[j].address == address;
    }
  }

  lemma UpdatedFrom(before: Table, after: Table, schema: Schema, patch: NamedRow, sanitize: Sanitizer, captured: seq<Captured>, row: NamedRow)
    returns (previous: NamedRow)
    requires before.columns == schema.columns
    requires IsUpdate(before, after, Holders(schema.shown, before.rows, captured), schema.name, patch, sanitize)
    requires row in after.rows.Values
    ensures previous in before.rows.Values && UpdatedRow(sanitize, schema, patch, captured, previous) == row
  {
    var addresses := Holders(schema.shown, before.rows, captured);
    var records: seq<Record>, changes: seq<Change> :|
      && Collected(before.rows, addresses, records)
      && UpdateChanges(records, schema.name, patch, sanitize, changes)
      && EnabledAll(before.columns, before.rows, changes)
      && after == ApplyAll(before, changes);
    var address :| address in after.rows && after.rows[address] == row;
    forall j | 0 <= j < |changes|
      ensures changes[j].Rewrite?
    {
      assert UpdateStep(records[j], schema.name, patch, sanitize, changes[j]);
    }
    var k := RewrittenFrom(before, changes, address);
    if k < |changes| {
      assert UpdateStep(records[k], schema.name, patch, sanitize, changes[k]);
      assert records[k].address in addresses;
      previous := before.rows[records[k].address];
      assert HeldBy(schema, captured, previous);
    } else {
      StartsAreAddresses(before.rows, addresses, records, schema.name, patch, sanitize, changes);
      previous := before.rows[address];
      assert address !in addresses;
    }
  }

  // An update neither adds nor loses rows.
  lemma UpdateCount(before: Table, after: Table, addresses: set<Address>, name: string, patch: NamedRow, sanitize: Sanitizer)
    requires IsUpdate(before, after, addresses, name, patch, sanitize)
    ensures |after.rows| == |before.rows|
  {
    if address :| address in addresses {
      UpdateStores(before, after, addresses, name, patch, sanitize, address);
    } else {
      var records: seq<Record>, changes: seq<Change> :|
        && Collected(before.rows, addresses, records)
        && UpdateChanges(records, name, patch, sanitize, changes)
        && EnabledAll(before.columns, before.rows, changes)
        && after == ApplyAll(before, changes);
      assert forall k :: 0 <= k < |records| ==> records[k].address in addresses;
    }
  }

  lemma DeletedValues(before: Table, after: Table, schema: Schema, captured: seq<Captured>)
    requires after.rows == before.rows - Holders(schema.shown, before.rows, captured)
    ensures after.rows.Values == set row | row in before.rows.Values && !HeldBy(schema, captured, row)
  {
    forall row
      ensures row in after.rows.Values <==> row in before.rows.Values && !HeldBy(schema, captured, row)
    {
      if row in before.rows.Values && !HeldBy(schema, captured, row) {
        var address :| address in before.rows && before.rows[address] == row;
        assert address !in Holders(schema.shown, before.rows, captured);
        assert after.rows[address] == row;
      }
    }
  }

  lemma InsertedRow(before: Table, after: Table, schema: Schema, values: NamedRow, sanitize: Sanitizer) returns (address: Address)
    requires IsInsert(before, after, schema.name, values, sanitize) && before.columns == schema.columns
    ensures sanitize(schema.name, values).Some? && address !in before.rows
    ensures after.rows == before.rows[address := StoredRow(sanitize, schema, values)]
    ensures after.rows.Values == before.rows.Values + {StoredRow(sanitize, schema, values)}
  {
    var a, clean :| sanitize(schema.name, values) == Some(clean) && a !in before.rows
                    && after == Apply(before, Change.Insert(a, clean));
    address := a;
    assert after.rows[address] == StoredRow(sanitize, schema, values);
    forall row | row in before.rows.Values
      ensures row in after.rows.Values
    {
      var a :| a in before.rows && before.rows[a] == row;
      assert after.rows[a] == row;
    }
  }

  lemma UpdateKeepsValid(before: Table, after: Table, addresses: set<Address>, name: string, patch: NamedRow, sanitize: Sanitizer)
    requires ValidTable(before) && IsUpdate(before, after, addresses, name, patch, sanitize)
    ensures ValidTable(after) && after.columns == before.columns
  {
    var records: seq<Record>, changes: seq<Change> :|
      && Collected(before.rows, addresses, records)
      && UpdateChanges(records, name, patch, sanitize, changes)
      && EnabledAll(before.columns, before.rows, changes)
      && after == ApplyAll(before, changes);
    RunKeepsAgreement(before, changes);
  }

  lemma DeleteKeepsValid(before: Table, after: Table, addresses: set<Address>)
    requires ValidTable(before) && IsDelete(before, after, addresses)
    ensures ValidTable(after) && after.columns == before.columns
  {
    var records: seq<Record>, changes: seq<Change> :|
      && Collected(before.rows, addresses, records)
      && DeleteChanges(records, changes)
      && EnabledAll(before.columns, before.rows, changes)
      && after == ApplyAll(before, changes);
    RunKeepsAgreement(before, changes);
  }

  lemma InsertKeepsValid(before: Table, after: Table, name: string, values: NamedRow, sanitize: Sanitizer)
    requires ValidTable(before) && IsInsert(before, after, name, values, sanitize)
    ensures ValidTable(after) && after.columns == before.columns
  {
    var address, clean :| sanitize(name, values) == Some(clean) && address !in before.rows
                          && after == Apply(before, Change.Insert(address, clean));
    ChangeKeepsAgreement(before, Change.Insert(address, clean));
  }

  // ----- One replayed operation

  lemma UpdateTracks(before: Table, after: Table, schema: Schema, sanitize: Sanitizer, clean: Value -> Value, versions: set<Version>,
                     patch: NamedRow, captured: seq<Captured>)
    requires SanitizesKeys(sanitize, schema, clean) && before.columns == schema.columns
    requires Tracks(schema, clean, before.rows, versions) && CapturesView(schema, Seen(versions), captured)
    requires AllHeld(schema, before.rows, captured)
    requires IsUpdate(before, after, Holders(schema.shown, before.rows, captured), schema.name, patch, sanitize)
    requires RowsFit(schema.columns, after.rows) && KeysUnique(schema.primaryKey, after.rows)
    ensures Tracks(schema, clean, after.rows, NextVersions(sanitize, schema, versions, StagedUpdate(schema.name, patch, captured)))
  {
    hide Complete, IsUpdate, CapturesView, AllHeld, RowsFit, KeysUnique, HeldBy, CapturesKey, StoredRow, Patched, Settled;
    var s := StagedUpdate(schema.name, patch, captured);
    var next := NextVersions(sanitize, schema, versions, s);
    UpdateRows(before, after, schema, patch, sanitize, captured);
    forall v | v in versions
      ensures NextVersion(sanitize, schema, s, v).stored == UpdatedRow(sanitize, schema, patch, captured, v.stored)
      ensures Settled(schema, clean, NextVersion(sanitize, schema, s, v))
    {
      HeldIffCaptured(schema, clean, before.rows, versions, captured, v);
      TracksSettled(schema, clean, before.rows, versions, v);
      if CapturesKey(schema.primaryKey, captured, v.seen) {
        KeyIsColumn(schema);
        PatchedSettled(sanitize, schema, clean, patch, v);
      }
    }
    UpdatedStored(sanitize, schema, versions, s, before.rows.Values);
    UpdateSeparate(before, after, schema, sanitize, versions, s);
  }

  lemma KeyIsColumn(schema: Schema)
    requires ValidSchemaOf(schema)
    ensures schema.primaryKey in schema.columns
  {
  }

  lemma UpdatedStored(sanitize: Sanitizer, schema: Schema, versions: set<Version>, s: Staged, rows: set<NamedRow>)
    requires s.StagedUpdate? && s.table == schema.name && Stored(versions) == rows
    requires forall v :: v in versions ==>
               NextVersion(sanitize, schema, s, v).stored == UpdatedRow(sanitize, schema, s.patch, s.captured, v.stored)
    ensures Stored(NextVersions(sanitize, schema, versions, s))
         == set row | row in rows :: UpdatedRow(sanitize, schema, s.patch, s.captured, row)
  {
    hide NextVersion, UpdatedRow;
    var next := NextVersions(sanitize, schema, versions, s);
    forall row | row in rows
      ensures UpdatedRow(sanitize, schema, s.patch, s.captured, row) in Stored(next)
    {
      assert row in Stored(versions);
      var v :| v in versions && v.stored == row;
      assert NextVersion(sanitize, schema, s, v) in next;
    }
    forall row | row in Stored(next)
      ensures exists previous :: previous in rows && UpdatedRow(sanitize, schema, s.patch, s.captured, previous) == row
    {
      var w :| w in next && w.stored == row;
      var v :| v in versions && NextVersion(sanitize, schema, s, v) == w;
      assert v.stored in Stored(versions);
    }
  }

  // Counting: as many rows as before, hence as many versions.
  lemma UpdateSeparate(before: Table, after: Table, schema: Schema, sanitize: Sanitizer, versions: set<Version>, s: Staged)
    requires s.StagedUpdate? && s.table == schema.name
    requires KeysUnique(schema.primaryKey, before.rows) && KeysUnique(schema.primaryKey, after.rows)
    requires Stored(versions) == before.rows.Values && Separate(versions)
    requires Stored(NextVersions(sanitize, schema, versions, s)) == after.rows.Values
    requires IsUpdate(before, after, Holders(schema.shown, before.rows, s.captured), schema.name, s.patch, sanitize)
    ensures Separate(NextVersions(sanitize, schema, versions, s))
  {
    hide IsUpdate, KeysUnique, NextVersions, Separate, Stored;
    ValuesCount(schema.primaryKey, before.rows);
    ValuesCount(schema.primaryKey, after.rows);
    UpdateCount(before, after, Holders(schema.shown, before.rows, s.captured), schema.name, s.patch, sanitize);
    SeparateCount(versions);
    UpdatedCount(sanitize, schema, versions, s);
    SeparateCount(NextVersions(sanitize, schema, versions, s));
  }

  lemma DeleteTracks(before: Table, after: Table, schema: Schema, sanitize: Sanitizer, clean: Value -> Value, versions: set<Version>,
                     behavior: DeleteBehavior, captured: seq<Captured>)
    requires Tracks(schema, clean, before.rows, versions) && CapturesView(schema, Seen(versions), captured)
    requires AllHeld(schema, before.rows, captured)
    requires after.rows == before.rows - Holders(schema.shown, before.rows, captured)
    requires RowsFit(schema.columns, after.rows) && KeysUnique(schema.primaryKey, after.rows)
    ensures Tracks(schema, clean, after.rows, NextVersions(sanitize, schema, versions, StagedDelete(schema.name, behavior, captured)))
  {
    hide Complete, CapturesView, AllHeld, RowsFit, KeysUnique, HeldBy, CapturesKey, Settled;
    var next := NextVersions(sanitize, schema, versions, StagedDelete(schema.name, behavior, captured));
    DeletedValues(before, after, schema, captured);
    forall v | v in versions
      ensures v.stored in before.rows.Values && (v in next <==> !HeldBy(schema, captured, v.stored))
    {
      HeldIffCaptured(schema, clean, before.rows, versions, captured, v);
      TracksSettled(schema, clean, before.rows, versions, v);
    }
    forall row | row in after.rows.Values
      ensures row in Stored(next)
    {
      assert row in Stored(versions);
      var v :| v in versions && v.stored == row;
      assert v in next;
    }
    assert Stored(next) == after.rows.Values;
  }

  lemma InsertTracks(before: Table, after: Table, schema: Schema, sanitize: Sanitizer, clean: Value -> Value, versions: set<Version>,
                     key: Value, values: NamedRow)
    requires SanitizesKeys(sanitize, schema, clean) && before.columns == schema.columns
    requires Tracks(schema, clean, before.rows, versions) && Covers(schema.columns, values)
    requires IsInsert(before, after, schema.name, values, sanitize)
    requires RowsFit(schema.columns, after.rows) && KeysUnique(schema.primaryKey, after.rows)
    ensures Tracks(schema, clean, after.rows, NextVersions(sanitize, schema, versions, StagedInsert(schema.name, key, values)))
  {
    hide Complete, RowsFit, Settled, IsInsert, StoredRow;
    var new_ := Version(values, StoredRow(sanitize, schema, values));
    var next := NextVersions(sanitize, schema, versions, StagedInsert(schema.name, key, values));
    var address := InsertedRow(before, after, schema, values, sanitize);
    KeyIsColumn(schema);
    InsertedSettled(sanitize, schema, clean, values);
    forall v | v in versions
      ensures v.stored != new_.stored
    {
      assert v.stored in Stored(versions);
      var other :| other in before.rows && before.rows[other] == v.stored;
      assert after.rows[other] == v.stored && after.rows[address] == new_.stored;
    }
    assert Stored(next) == Stored(versions) + {new_.stored};
  }

  /** One replayed operation keeps versions and stored rows in step. */
  lemma StepTracks(less: Less, sanitize: Sanitizer, referencing: References, keys: PrimaryKeys, schema: Schema, clean: Value -> Value,
                   before: Tables, after: Tables, versions: set<Version>, s: Staged)
    requires SanitizesKeys(sanitize, schema, clean) && keys(schema.name) == schema.primaryKey
    requires schema.name in before && ValidTable(before[schema.name]) && before[schema.name].columns == schema.columns
    requires Tracks(schema, clean, before[schema.name].rows, versions)
    requires ValidStaged(schema, Seen(versions), s) && Independent(referencing, schema.name, s)
    requires ReplayStep(less, sanitize, referencing, before, OpOf(keys, s), after)
    requires schema.name in after ==> KeysUnique(schema.primaryKey, after[schema.name].rows)
    ensures schema.name in after && ValidTable(after[schema.name]) && after[schema.name].columns == schema.columns
    ensures Tracks(schema, clean, after[schema.name].rows, NextVersions(sanitize, schema, versions, s))
  {
    if s.table != schema.name {
      OtherTable(less, sanitize, referencing, keys, schema, before, after, s);
    } else {
      hide Tracks, ValidTable, IsUpdate, IsDelete, IsInsert, NextVersions, SanitizesKeys, CapturesView;
      OwnTable(less, sanitize, referencing, keys, schema, clean, before, after, versions, s);
      match s
      case StagedInsert(_, key, values) =>
        InsertTracks(before[s.table], after[s.table], schema, sanitize, clean, versions, key, values);
      case StagedUpdate(_, patch, captured) =>
        if captured == [] {
          NothingCaptured(sanitize, schema, versions, s);
        } else {
          UpdateTracks(before[s.table], after[s.table], schema, sanitize, clean, versions, patch, captured);
        }
      case StagedDelete(_, behavior, captured) =>
        if captured == [] {
          NothingCaptured(sanitize, schema, versions, s);
        } else {
          DeleteTracks(before[s.table], after[s.table], schema, sanitize, clean, versions, behavior, captured);
        }
    }
  }

  lemma NothingCaptured(sanitize: Sanitizer, schema: Schema, versions: set<Version>, s: Staged)
    requires !s.StagedInsert? && s.captured == []
    ensures NextVersions(sanitize, schema, versions, s) == versions
  {
    assert forall v :: v in versions ==> NextVersion(sanitize, schema, s, v) == v;
  }

  // Operations on other tables that leave this one alone.
  lemma OtherTable(less: Less, sanitize: Sanitizer, referencing: References, keys: PrimaryKeys, schema: Schema,
                   before: Tables, after: Tables, s: Staged)
    requires s.table != schema.name && Independent(referencing, schema.name, s) && schema.name in before
    requires ReplayStep(less, sanitize, referencing, before, OpOf(keys, s), after)
    ensures schema.name in after && after[schema.name] == before[schema.name]
  {
    hide IsUpdate, IsDelete, IsInsert, EachSelectsOne;
  }

  // What the replay of an operation on this table means for its rows.
  lemma OwnTable(less: Less, sanitize: Sanitizer, referencing: References, keys: PrimaryKeys, schema: Schema, clean: Value -> Value,
                 before: Tables, after: Tables, versions: set<Version>, s: Staged)
    requires s.table == schema.name && keys(schema.name) == schema.primaryKey
    requires schema.name in before && ValidTable(before[schema.name]) && before[schema.name].columns == schema.columns
    requires Tracks(schema, clean, before[schema.name].rows, versions) && ValidStaged(schema, Seen(versions), s)
    requires ReplayStep(less, sanitize, referencing, before, OpOf(keys, s), after)
    ensures schema.name in after && ValidTable(after[schema.name]) && after[schema.name].columns == schema.columns
    ensures RowsFit(schema.columns, after[schema.name].rows)
    ensures !s.StagedInsert? && s.captured == [] ==> after == before
    ensures !s.StagedInsert? ==> AllHeld(schema, before[schema.name].rows, s.captured)
    ensures s.StagedInsert? ==> IsInsert(before[schema.name], after[schema.name], schema.name, s.values, sanitize)
    ensures s.StagedUpdate? && s.captured != [] ==>
              IsUpdate(before[schema.name], after[schema.name], Holders(schema.shown, before[schema.name].rows, s.captured),
                       schema.name, s.patch, sanitize)
    ensures s.StagedDelete? && s.captured != [] ==>
              after[schema.name].rows == before[schema.name].rows - Holders(schema.shown, before[schema.name].rows, s.captured)
  {
    hide ReplayStep, Tracks, ValidTable, IsUpdate, IsDelete, IsInsert, CapturesView, ValidCaptures, AllHeld;
    var name, own := schema.name, before[schema.name];
    if s.StagedInsert? {
      InsertReplayed(less, sanitize, referencing, before, after, name, s.values);
      InsertKeepsValid(own, after[name], name, s.values, sanitize);
    } else {
      CapturesAreValid(schema, clean, own.rows, versions, s.captured);
      if s.StagedUpdate? {
        ReplayedUpdateIsExact(less, sanitize, referencing, before, after, name, schema.shown, schema.primaryKey, s.patch, s.captured);
        if s.captured != [] {
          UpdateKeepsValid(own, after[name], Holders(schema.shown, own.rows, s.captured), name, s.patch, sanitize);
        }
      } else {
        ReplayedDeleteIsExact(less, sanitize, referencing, before, after, name, schema.shown, schema.primaryKey, s.behavior, s.captured);
        if s.captured != [] {
          DeleteReplayed(less, sanitize, referencing, before, after, name, s.behavior, CapturedFilters(schema.primaryKey, s.captured));
          DeleteKeepsValid(own, after[name], Replayed(less, own.rows, CapturedFilters(schema.primaryKey, s.captured)));
        }
      }
      EachIsHeld(schema, own.rows, s.captured);
    }
    ValidRowsFit(after[name]);
  }

  lemma ValidRowsFit(table: Table)
    requires ValidTable(table)
    ensures RowsFit(table.columns, table.rows)
  {
  }

  lemma InsertReplayed(less: Less, sanitize: Sanitizer, referencing: References, before: Tables, after: Tables, name: string, values: NamedRow)
    requires ReplayStep(less, sanitize, referencing, before, InsertOp(name, values), after)
    ensures name in before && name in after && IsInsert(before[name], after[name], name, values, sanitize)
  {
  }

  lemma DeleteReplayed(less: Less, sanitize: Sanitizer, referencing: References, before: Tables, after: Tables, name: string,
                       behavior: DeleteBehavior, filters: seq<Filter>)
    requires ReplayStep(less, sanitize, referencing, before, DeleteOp(name, behavior, filters), after) && filters != []
    ensures name in before && name in after && IsDelete(before[name], after[name], Replayed(less, before[name].rows, filters))
  {
  }

  lemma EachIsHeld(schema: Schema, rows: Rows, captured: seq<Captured>)
    requires forall k :: 0 <= k < |captured| ==> |HoldersOf(schema.shown, rows, captured[k].row)| == 1
    ensures AllHeld(schema, rows, captured)
  {
    forall k | 0 <= k < |captured|
      ensures IsHeld(schema.shown, rows, captured[k].row)
    {
      assert HoldersOf(schema.shown, rows, captured[k].row) != {};
      var address :| address in HoldersOf(schema.shown, rows, captured[k].row);
    }
  }

  lemma CapturesAreValid(schema: Schema, clean: Value -> Value, rows: Rows, versions: set<Version>, captured: seq<Captured>)
    requires Tracks(schema, clean, rows, versions) && CapturesView(schema, Seen(versions), captured)
    ensures ValidCaptures(schema.columns, schema.shown, schema.primaryKey, rows, captured)
  {
    hide AllSettled, Separate;
    forall k | 0 <= k < |captured|
      ensures ValidCapture(schema.shown, schema.primaryKey, captured[k])
    {
      var v := CaptureComesFrom(schema, versions, captured, k);
      CaptureIsValid(schema.columns, schema.shown, schema.primaryKey, v.seen);
    }
  }

  // ----- Whole transactions

  /** The primary-key constraint of the table in every state of a replay. */
  ghost predicate KeysStayUnique(states: seq<Tables>, schema: Schema) {
    forall k :: 0 <= k < |states| && schema.name in states[k] ==> KeysUnique(schema.primaryKey, states[k][schema.name].rows)
  }

  /** The replay of a staged transaction that no other writer interferes with, from a table whose keys were sanitized. */
  ghost predicate LoneReplay(less: Less, sanitize: Sanitizer, referencing: References, keys: PrimaryKeys, schema: Schema,
                             clean: Value -> Value, staged: seq<Staged>, states: seq<Tables>) {
    && ValidSchemaOf(schema) && keys(schema.name) == schema.primaryKey && SanitizesKeys(sanitize, schema, clean)
    && IsReplay(less, sanitize, referencing, OpsOf(keys, staged), states) && KeysStayUnique(states, schema)
    && schema.name in states[0] && ValidTable(states[0][schema.name]) && states[0][schema.name].columns == schema.columns
    && (forall row :: row in states[0][schema.name].rows.Values ==>
          clean(CellOrNull(row, schema.primaryKey)) == CellOrNull(row, schema.primaryKey))
    && StagedOnView(schema, states[0][schema.name].rows.Values, staged)
    && forall k :: 0 <= k < |staged| ==> Independent(referencing, schema.name, staged[k])
  }

  // What holds after the first `k` operations.
  ghost predicate Reached(sanitize: Sanitizer, schema: Schema, clean: Value -> Value, rows: set<NamedRow>, staged: seq<Staged>,
                          tables: Tables, k: nat)
    requires k <= |staged|
  {
    && schema.name in tables && ValidTable(tables[schema.name]) && tables[schema.name].columns == schema.columns
    && Tracks(schema, clean, tables[schema.name].rows, VersionsOf(sanitize, schema, rows, staged[..k]))
    && Seen(VersionsOf(sanitize, schema, rows, staged[..k])) == ViewOf(schema, rows, staged[..k])
  }

  lemma RowsAreKeyed(table: Table, schema: Schema)
    requires ValidTable(table) && table.columns == schema.columns && ValidSchemaOf(schema)
    ensures AllKeyed(schema.primaryKey, table.rows.Values)
  {
    forall row | row in table.rows.Values
      ensures Lookup(row, schema.primaryKey).Some?
    {
      KeyIsStored(table.columns, row, schema.primaryKey);
    }
  }

  lemma ReachedStart(sanitize: Sanitizer, schema: Schema, clean: Value -> Value, staged: seq<Staged>, tables: Tables)
    requires ValidSchemaOf(schema) && schema.name in tables && ValidTable(tables[schema.name])
    requires tables[schema.name].columns == schema.columns && KeysUnique(schema.primaryKey, tables[schema.name].rows)
    requires forall row :: row in tables[schema.name].rows.Values ==>
               clean(CellOrNull(row, schema.primaryKey)) == CellOrNull(row, schema.primaryKey)
    ensures Reached(sanitize, schema, clean, tables[schema.name].rows.Values, staged, tables, 0)
  {
    hide KeysUnique, OverlayView;
    var rows := tables[schema.name].rows;
    var versions := VersionsOf(sanitize, schema, rows.Values, []);
    assert staged[..0] == [];
    RowsAreKeyed(tables[schema.name], schema);
    NothingStaged(schema, rows.Values);
    forall row | row in rows.Values
      ensures Version(row, row) in versions && Settled(schema, clean, Version(row, row))
    {
      KeyIsStored(schema.columns, row, schema.primaryKey);
      StoredCovers(schema.columns, row);
    }
    assert Stored(versions) == rows.Values;
    assert Seen(versions) == rows.Values;
  }

  lemma ReachedNext(less: Less, sanitize: Sanitizer, referencing: References, keys: PrimaryKeys, schema: Schema,
                    clean: Value -> Value, staged: seq<Staged>, states: seq<Tables>, k: nat)
    requires LoneReplay(less, sanitize, referencing, keys, schema, clean, staged, states) && k < |staged|
    requires Reached(sanitize, schema, clean, states[0][schema.name].rows.Values, staged, states[k], k)
    ensures Reached(sanitize, schema, clean, states[0][schema.name].rows.Values, staged, states[k + 1], k + 1)
  {
    hide ReplayStep, ValidStaged, ValidTable, Tracks, NextVersions, NextView, OverlayView, SanitizesKeys, ValidSchemaOf, Independent, KeysUnique;
    var rows := states[0][schema.name].rows.Values;
    var versions := VersionsOf(sanitize, schema, rows, staged[..k]);
    RowsAreKeyed(states[0][schema.name], schema);
    assert OpsOf(keys, staged)[k] == OpOf(keys, staged[k]);
    assert ReplayStep(less, sanitize, referencing, states[k], OpsOf(keys, staged)[k], states[k + 1]);
    StepTracks(less, sanitize, referencing, keys, schema, clean, states[k], states[k + 1], versions, staged[k]);
    assert staged[..k + 1][..k] == staged[..k];
    SeenNext(sanitize, schema, versions, staged[k]);
    ViewStep(schema, rows, staged, k);
  }

  /**
   Without other writers, after every replayed operation the rows stored are exactly the
   stored sides, and the rows that the transaction saw after staging it the seen sides, of
   the same versions.
   */
  lemma {:induction false} CommitFollowsOverlay(less: Less, sanitize: Sanitizer, referencing: References, keys: PrimaryKeys,
                                                schema: Schema, clean: Value -> Value, staged: seq<Staged>, states: seq<Tables>, k: nat)
    requires LoneReplay(less, sanitize, referencing, keys, schema, clean, staged, states) && k <= |staged|
    ensures Reached(sanitize, schema, clean, states[0][schema.name].rows.Values, staged, states[k], k)
    decreases k
  {
    hide Reached, ReplayStep, StagedOnView, ValidTable, KeysUnique, SanitizesKeys, ValidSchemaOf;
    if k == 0 {
      ReachedStart(sanitize, schema, clean, staged, states[0]);
    } else {
      CommitFollowsOverlay(less, sanitize, referencing, keys, schema, clean, staged, states, k - 1);
      ReachedNext(less, sanitize, referencing, keys, schema, clean, staged, states, k - 1);
    }
  }

  /**
   The exact condition: after a replayed transaction, its next operation conflicts if and only
   if it captures the key of a version that sanitizing altered.
   */
  lemma ConflictIffAltered(less: Less, sanitize: Sanitizer, referencing: References, keys: PrimaryKeys, schema: Schema,
                           clean: Value -> Value, staged: seq<Staged>, states: seq<Tables>, captured: seq<Captured>)
    requires LoneReplay(less, sanitize, referencing, keys, schema, clean, staged, states)
    requires CapturesView(schema, ViewOf(schema, states[0][schema.name].rows.Values, staged), captured)
    ensures schema.name in states[|staged|]
    ensures !EachSelectsOne(less, states[|staged|][schema.name].rows, CapturedFilters(schema.primaryKey, captured))
       <==> exists v :: && v in VersionsOf(sanitize, schema, states[0][schema.name].rows.Values, staged)
                        && CapturesKey(schema.primaryKey, captured, v.seen) && Altered(schema, v)
  {
    hide LoneReplay, EachSelectsOne, CapturesView, ViewOf, VersionsOf, Tracks, CapturesKey, Altered;
    LoneStates(less, sanitize, referencing, keys, schema, clean, staged, states);
    CommitFollowsOverlay(less, sanitize, referencing, keys, schema, clean, staged, states, |staged|);
    assert staged[..|staged|] == staged;
    var versions := VersionsOf(sanitize, schema, states[0][schema.name].rows.Values, staged);
    var last := states[|staged|][schema.name].rows;
    CapturesAreValid(schema, clean, last, versions, captured);
    TracksUnique(schema, clean, last, versions);
    ConflictIffVersionGone(less, schema.columns, schema.shown, schema.primaryKey, last, captured);
    HeldIffUnaltered(schema, clean, last, versions, captured);
  }

  lemma LoneStates(less: Less, sanitize: Sanitizer, referencing: References, keys: PrimaryKeys, schema: Schema,
                   clean: Value -> Value, staged: seq<Staged>, states: seq<Tables>)
    requires LoneReplay(less, sanitize, referencing, keys, schema, clean, staged, states)
    ensures |states| == |staged| + 1 && schema.name in states[0] && ValidSchemaOf(schema)
  {
  }

  lemma TracksUnique(schema: Schema, clean: Value -> Value, rows: Rows, versions: set<Version>)
    requires Tracks(schema, clean, rows, versions)
    ensures KeysUnique(schema.primaryKey, rows)
  {
  }

  lemma HeldIffUnaltered(schema: Schema, clean: Value -> Value, rows: Rows, versions: set<Version>, captured: seq<Captured>)
    requires Tracks(schema, clean, rows, versions) && CapturesView(schema, Seen(versions), captured)
    ensures AllHeld(schema, rows, captured)
       <==> forall v :: v in versions && CapturesKey(schema.primaryKey, captured, v.seen) ==> !Altered(schema, v)
  {
    hide Tracks, CapturesView;
    if AllHeld(schema, rows, captured) {
      forall v | v in versions && CapturesKey(schema.primaryKey, captured, v.seen)
        ensures !Altered(schema, v)
      {
        HeldIsUnaltered(schema, clean, rows, versions, captured, v);
      }
    } else {
      var k :| 0 <= k < |captured| && !IsHeld(schema.shown, rows, captured[k].row);
      var v := CaptureComesFrom(schema, versions, captured, k);
      TracksSettled(schema, clean, rows, versions, v);
      var address :| address in rows && rows[address] == v.stored;
      assert Lookup(v.seen, schema.primaryKey) == Some(captured[k].key);
    }
  }

  lemma HeldIsUnaltered(schema: Schema, clean: Value -> Value, rows: Rows, versions: set<Version>, captured: seq<Captured>, v: Version)
    requires Tracks(schema, clean, rows, versions) && CapturesView(schema, Seen(versions), captured)
    requires AllHeld(schema, rows, captured) && v in versions && CapturesKey(schema.primaryKey, captured, v.seen)
    ensures !Altered(schema, v)
  {
    hide Tracks, CapturesView, AllHeld;
    HeldIffCaptured(schema, clean, rows, versions, captured, v);
    var k :| 0 <= k < |captured| && Complete(schema.shown, v.stored) == captured[k].row;
    var u := HeldIsOwn(schema, clean, rows, versions, captured, k, v);
  }

  // ----- Which versions sanitizing altered

  /** Whether sanitizing changes a shown column of the values to store. */
  predicate SanitizingAlters(sanitize: Sanitizer, schema: Schema, values: NamedRow) {
    Complete(schema.shown, StoredRow(sanitize, schema, values)) != Complete(schema.shown, values)
  }

  /** Only the cells count, in whatever order the values list them. */
  lemma AltersIff(sanitize: Sanitizer, schema: Schema, values: NamedRow)
    requires ValidSchemaOf(schema)
    ensures SanitizingAlters(sanitize, schema, values)
       <==> && sanitize(schema.name, values).Some?
            && exists column :: column in schema.shown
                                && CellOrNull(sanitize(schema.name, values).value, column) != CellOrNull(values, column)
  {
    if sanitize(schema.name, values).Some? {
      var clean := sanitize(schema.name, values).value;
      forall k | 0 <= k < |schema.shown|
        ensures CellOrNull(Complete(schema.columns, clean), schema.shown[k]) == CellOrNull(clean, schema.shown[k])
      {
        assert schema.shown[k] in schema.columns;
        LookupCompleted(schema.columns, clean, schema.shown[k]);
      }
    }
  }

  /** Whether the operation turns one of `versions` into `v`, or adds it, having `values` stored. */
  ghost predicate StagedBy(sanitize: Sanitizer, schema: Schema, versions: set<Version>, s: Staged, v: Version, values: NamedRow) {
    s.table == schema.name &&
    match s
    case StagedInsert(_, _, inserted) => values == inserted && v == Version(values, StoredRow(sanitize, schema, values))
    case StagedUpdate(_, patch, captured) =>
      exists u :: && u in versions && CapturesKey(schema.primaryKey, captured, u.seen)
                  && values == Patched(u.stored, patch) && v == PatchedVersion(sanitize, schema, patch, u)
    case StagedDelete(_, _, _) => false
  }

  // Rows that show the same show the same after one patch.
  lemma PatchedShows(columns: seq<string>, shown: seq<string>, a: NamedRow, b: NamedRow, patch: NamedRow)
    requires forall column :: column in shown ==> column in columns
    requires Covers(columns, a) && Covers(columns, b) && Complete(shown, a) == Complete(shown, b)
    ensures Complete(shown, Patched(a, patch)) == Complete(shown, Patched(b, patch))
  {
    forall k | 0 <= k < |shown|
      ensures CellOrNull(Patched(a, patch), shown[k]) == CellOrNull(Patched(b, patch), shown[k])
    {
      assert Complete(shown, a)[k] == Complete(shown, b)[k];
      PatchedLookup(a, patch, shown[k]);
      PatchedLookup(b, patch, shown[k]);
    }
  }

  // The versions that a replayed operation captures are unaltered.
  lemma CapturedIsUnaltered(less: Less, sanitize: Sanitizer, referencing: References, keys: PrimaryKeys, schema: Schema,
                            clean: Value -> Value, staged: seq<Staged>, states: seq<Tables>, j: nat, u: Version)
    requires LoneReplay(less, sanitize, referencing, keys, schema, clean, staged, states) && j < |staged|
    requires var s := staged[j];
             && s.table == schema.name && !s.StagedInsert? && CapturesKey(schema.primaryKey, s.captured, u.seen)
             && u in VersionsOf(sanitize, schema, states[0][schema.name].rows.Values, staged[..j])
    ensures !Altered(schema, u) && Settled(schema, clean, u)
  {
    hide ReplayStep, ValidTable, Tracks, OverlayView, SanitizesKeys, ValidSchemaOf, Independent, KeysUnique, VersionsOf, CapturesView;
    var rows := states[0][schema.name].rows.Values;
    var versions := VersionsOf(sanitize, schema, rows, staged[..j]);
    CommitFollowsOverlay(less, sanitize, referencing, keys, schema, clean, staged, states, j);
    assert OpsOf(keys, staged)[j] == OpOf(keys, staged[j]);
    assert ReplayStep(less, sanitize, referencing, states[j], OpsOf(keys, staged)[j], states[j + 1]);
    OwnTable(less, sanitize, referencing, keys, schema, clean, states[j], states[j + 1], versions, staged[j]);
    HeldIsUnaltered(schema, clean, states[j][schema.name].rows, versions, staged[j].captured, u);
    TracksSettled(schema, clean, states[j][schema.name].rows, versions, u);
  }

  /** A version is altered exactly if sanitizing altered the values that its operation had stored. */
  lemma StagedByAlters(less: Less, sanitize: Sanitizer, referencing: References, keys: PrimaryKeys, schema: Schema,
                       clean: Value -> Value, staged: seq<Staged>, states: seq<Tables>, j: nat, v: Version, values: NamedRow)
    requires LoneReplay(less, sanitize, referencing, keys, schema, clean, staged, states) && j < |staged|
    requires StagedBy(sanitize, schema, VersionsOf(sanitize, schema, states[0][schema.name].rows.Values, staged[..j]), staged[j], v, values)
    ensures Altered(schema, v) <==> SanitizingAlters(sanitize, schema, values)
  {
    hide LoneReplay, VersionsOf, StoredRow, Patched, CapturesKey;
    LoneStates(less, sanitize, referencing, keys, schema, clean, staged, states);
    if staged[j].StagedUpdate? {
      var patch, captured := staged[j].patch, staged[j].captured;
      var u :| && u in VersionsOf(sanitize, schema, states[0][schema.name].rows.Values, staged[..j])
               && CapturesKey(schema.primaryKey, captured, u.seen)
               && values == Patched(u.stored, patch) && v == PatchedVersion(sanitize, schema, patch, u);
      CapturedIsUnaltered(less, sanitize, referencing, keys, schema, clean, staged, states, j, u);
      StoredCovers(schema.columns, u.stored);
      PatchedShows(schema.columns, schema.shown, u.stored, u.seen, patch);
    }
  }

  // An altered version was staged by some operation.
  lemma {:induction false} AlteredWasStaged(sanitize: Sanitizer, schema: Schema, rows: set<NamedRow>, staged: seq<Staged>, k: nat, v: Version)
    returns (j: nat, values: NamedRow)
    requires k <= |staged| && v in VersionsOf(sanitize, schema, rows, staged[..k]) && Altered(schema, v)
    ensures j < k && StagedBy(sanitize, schema, VersionsOf(sanitize, schema, rows, staged[..j]), staged[j], v, values)
    decreases k
  {
    assert k > 0 && staged[..k][..k - 1] == staged[..k - 1];
    var before, s := VersionsOf(sanitize, schema, rows, staged[..k - 1]), staged[k - 1];
    if v in before {
      j, values := AlteredWasStaged(sanitize, schema, rows, staged, k - 1, v);
    } else {
      j := k - 1;
      match s
      case StagedInsert(_, _, inserted) =>
        values := inserted;
      case StagedUpdate(_, patch, captured) =>
        var u :| u in before && NextVersion(sanitize, schema, s, u) == v;
        values := Patched(u.stored, patch);
      case StagedDelete(_, _, _) =>
        assert false;
    }
  }

  /** Whether `captured` has the key of a version that sanitizing altered when an operation of the transaction staged it. */
  ghost predicate CapturesAltered(sanitize: Sanitizer, schema: Schema, rows: set<NamedRow>, staged: seq<Staged>, captured: seq<Captured>) {
    exists v, j, values ::
      && v in VersionsOf(sanitize, schema, rows, staged) && CapturesKey(schema.primaryKey, captured, v.seen)
      && 0 <= j < |staged|
      && StagedBy(sanitize, schema, VersionsOf(sanitize, schema, rows, staged[..j]), staged[j], v, values)
      && SanitizingAlters(sanitize, schema, values)
  }

  /**
   A transaction conflicts with itself if and only if an operation captures the key of a row
   whose present version an earlier operation staged with values that sanitizing alters.
   */
  lemma SelfConflictIff(less: Less, sanitize: Sanitizer, referencing: References, keys: PrimaryKeys, schema: Schema,
                        clean: Value -> Value, staged: seq<Staged>, states: seq<Tables>, captured: seq<Captured>)
    requires LoneReplay(less, sanitize, referencing, keys, schema, clean, staged, states)
    requires CapturesView(schema, ViewOf(schema, states[0][schema.name].rows.Values, staged), captured)
    ensures schema.name in states[|staged|]
    ensures !EachSelectsOne(less, states[|staged|][schema.name].rows, CapturedFilters(schema.primaryKey, captured))
       <==> CapturesAltered(sanitize, schema, states[0][schema.name].rows.Values, staged, captured)
  {
    hide LoneReplay, EachSelectsOne, CapturesView, ViewOf, VersionsOf, CapturesKey, Altered, SanitizingAlters, StagedBy;
    LoneStates(less, sanitize, referencing, keys, schema, clean, staged, states);
    ConflictIffAltered(less, sanitize, referencing, keys, schema, clean, staged, states, captured);
    var rows := states[0][schema.name].rows.Values;
    if v :| v in VersionsOf(sanitize, schema, rows, staged) && CapturesKey(schema.primaryKey, captured, v.seen) && Altered(schema, v) {
      assert staged[..|staged|] == staged;
      var j, values := AlteredWasStaged(sanitize, schema, rows, staged, |staged|, v);
      StagedByAlters(less, sanitize, referencing, keys, schema, clean, staged, states, j, v, values);
    }
    if CapturesAltered(sanitize, schema, rows, staged, captured) {
      var v, j, values :|
        && v in VersionsOf(sanitize, schema, rows, staged) && CapturesKey(schema.primaryKey, captured, v.seen)
        && 0 <= j < |staged|
        && StagedBy(sanitize, schema, VersionsOf(sanitize, schema, rows, staged[..j]), staged[j], v, values)
        && SanitizingAlters(sanitize, schema, values);
      StagedByAlters(less, sanitize, referencing, keys, schema, clean, staged, states, j, v, values);
    }
  }

  /** Without a sanitizer that changes values, a transaction alone never conflicts with itself. */
  lemma NoSelfConflict(less: Less, sanitize: Sanitizer, referencing: References, keys: PrimaryKeys, schema: Schema,
                       clean: Value -> Value, staged: seq<Staged>, states: seq<Tables>, captured: seq<Captured>)
    requires LoneReplay(less, sanitize, referencing, keys, schema, clean, staged, states)
    requires CapturesView(schema, ViewOf(schema, states[0][schema.name].rows.Values, staged), captured)
    requires forall values :: !SanitizingAlters(sanitize, schema, values)
    ensures schema.name in states[|staged|]
    ensures EachSelectsOne(less, states[|staged|][schema.name].rows, CapturedFilters(schema.primaryKey, captured))
  {
    hide LoneReplay, EachSelectsOne, CapturesView, SanitizingAlters;
    SelfConflictIff(less, sanitize, referencing, keys, schema, clean, staged, states, captured);
  }

  // ----- A transaction that conflicts with itself

  const NOTES := Schema("notes", ["id", "text"], ["id", "text"], "id")
  const EMPTY_TEXT := Data(1, [])
  const CLEARING: NamedRow := [("text", EMPTY_TEXT)]

  /** Stores an empty text as NULL. */
  function NullIfEmpty(name: string, row: NamedRow): Option<NamedRow> {
    Some(if Lookup(row, "text") == Some(EMPTY_TEXT) then SetCell(row, "text", Null) else row)
  }

  function Note(id: Value, text: Value): NamedRow {
    [("id", id), ("text", text)]
  }

  function NoteCapture(id: Value, text: Value): seq<Captured> {
    [CaptureOf(NOTES.shown, NOTES.primaryKey, Note(id, text))]
  }

  lemma TextSet(id: Value, text: Value, value: Value)
    ensures SetCell(Note(id, text), "text", value) == Note(id, value)
  {
    var row := Note(id, text);
    assert row[1..] == [("text", text)];
    assert SetCell(row[1..], "text", value) == [("text", value)];
  }

  lemma NoteCells(id: Value, text: Value)
    ensures Lookup(Note(id, text), "id") == Some(id) && Lookup(Note(id, text), "text") == Some(text)
    ensures Complete(NOTES.columns, Note(id, text)) == Note(id, text)
    ensures Patched(Note(id, text), CLEARING) == Note(id, EMPTY_TEXT)
    ensures FitsColumns(NOTES.columns, Note(id, text))
  {
    var row := Note(id, text);
    assert row[1..] == [("text", text)];
    TextSet(id, text, EMPTY_TEXT);
    assert CLEARING[..|CLEARING| - 1] == [];
    assert Patched(row, CLEARING) == SetCell(Patched(row, []), "text", EMPTY_TEXT);
  }

  // One note alone in its table: which captures find it.
  lemma OneNote(less: Less, address: Address, id: Value, text: Value, other: Value)
    ensures ValidCaptures(NOTES.columns, NOTES.shown, NOTES.primaryKey, map[address := Note(id, text)], NoteCapture(id, other))
    ensures EachSelectsOne(less, map[address := Note(id, text)], CapturedFilters("id", NoteCapture(id, other))) <==> text == other
  {
    hide EachSelectsOne, Complete;
    var rows: Rows := map[address := Note(id, text)];
    NoteCells(id, text);
    NoteCells(id, other);
    CaptureIsValid(NOTES.columns, NOTES.shown, NOTES.primaryKey, Note(id, other));
    ConflictIffVersionGone(less, NOTES.columns, NOTES.shown, NOTES.primaryKey, rows, NoteCapture(id, other));
    assert Note(id, text)[1] == ("text", text) && Note(id, other)[1] == ("text", other);
    assert NoteCapture(id, other)[0].row == Note(id, other);
    if text == other {
      assert address in rows && Complete(NOTES.shown, rows[address]) == Note(id, other);
    }
  }

  // An update of the only row of a table.
  lemma OneRowUpdated(table: Table, address: Address, row: NamedRow, values: NamedRow, name: string, patch: NamedRow, sanitize: Sanitizer)
    requires table.rows == map[address := row] && sanitize(name, Patched(row, patch)) == Some(values)
    ensures Apply(table, Change.Rewrite(address, address, values)).rows == map[address := Complete(table.columns, values)]
    ensures IsUpdate(table, Apply(table, Change.Rewrite(address, address, values)), {address}, name, patch, sanitize)
  {
    hide Complete, Patched, Posted;
    var change := Change.Rewrite(address, address, values);
    var records, changes := [Record(address, row)], [change];
    assert records[0].address == address;
    assert changes[1..] == [];
    assert UpdateStep(records[0], name, patch, sanitize, changes[0]);
    assert Collected(table.rows, {address}, records) && UpdateChanges(records, name, patch, sanitize, changes);
    assert EnabledAll(table.columns, table.rows, changes) && ApplyAll(table, changes) == Apply(table, change);
  }

  lemma NoteUpdated(table: Table, address: Address, id: Value, text: Value)
    requires table.rows == map[address := Note(id, text)] && table.columns == NOTES.columns
    ensures var updated := Apply(table, Change.Rewrite(address, address, Note(id, Null)));
            && updated.rows == map[address := Note(id, Null)]
            && IsUpdate(table, updated, {address}, NOTES.name, CLEARING, NullIfEmpty)
  {
    hide IsUpdate, Complete, Apply, SetCell, Patched, Note;
    NoteCells(id, text);
    NoteCells(id, EMPTY_TEXT);
    NoteCells(id, Null);
    TextSet(id, EMPTY_TEXT, Null);
    OneRowUpdated(table, address, Note(id, text), Note(id, Null), NOTES.name, CLEARING, NullIfEmpty);
  }

  /**
   Setting a text to the empty one and then updating the same note again: the transaction goes
   on to see the empty text, the replay of the first update stores NULL, and the second conflicts.
   */
  lemma SecondUpdateConflicts(less: Less, referencing: References, address: Address, id: Value, text: Value)
    returns (before: Tables, after: Tables)
    ensures NOTES.name in before && ValidTable(before[NOTES.name]) && before[NOTES.name].rows == map[address := Note(id, text)]
    ensures Overlays.Replay("id", Note(id, text), UpdatesOf(NoteCapture(id, text), CLEARING)) == Some(Note(id, EMPTY_TEXT))
    ensures ReplayStep(less, NullIfEmpty, referencing, before,
                       UpdateOp(NOTES.name, CLEARING, CapturedFilters("id", NoteCapture(id, text))), after)
    ensures NOTES.name in after
         && !EachSelectsOne(less, after[NOTES.name].rows, CapturedFilters("id", NoteCapture(id, EMPTY_TEXT)))
  {
    hide IsUpdate, EachSelectsOne, Apply, CapturedFilters, CapturedFilter, Complete, Patched, Note, Replayed, ValidTable;
    var table := NoteTable(address, id, text);
    before := map[NOTES.name := table];
    after := map[NOTES.name := Apply(table, Change.Rewrite(address, address, Note(id, Null)))];
    NoteCells(id, text);
    NoteSelected(less, address, id, text);
    NoteUpdated(table, address, id, text);
    ReplayUpdates("id", Note(id, text), id, NoteCapture(id, text), CLEARING);
    OneNote(less, address, id, text, text);
    OneNote(less, address, id, Null, EMPTY_TEXT);
  }

  function NoteTable(address: Address, id: Value, text: Value): (table: Table)
    ensures ValidTable(table)
  {
    Table(NOTES.columns, [], map[address := Note(id, text)], map[])
  }

  lemma NoteSelected(less: Less, address: Address, id: Value, text: Value)
    ensures Replayed(less, map[address := Note(id, text)], CapturedFilters("id", NoteCapture(id, text))) == {address}
  {
    var rows: Rows := map[address := Note(id, text)];
    NoteCells(id, text);
    OneNote(less, address, id, text, text);
    ReplaySelectsCaptured(less, NOTES.columns, NOTES.shown, NOTES.primaryKey, rows, NoteCapture(id, text));
    assert Complete(NOTES.shown, rows[address]) == NoteCapture(id, text)[0].row;
  }
}
