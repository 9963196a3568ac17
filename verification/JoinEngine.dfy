/**
 The join engine: loading only the right rows that can match, chaining joins
 over index tuples, then filter, order, offset, limit and projection. The whole
 query is proved equal to the nested-loop joins of the complete tables.
 */
module JoinEngine {
  import opened Wrappers
  import opened Sequences
  import opened Values
  import opened Sorting
  import opened HashJoins

  const MAX_ALTERNATIVES: nat := 64

  // ----- Tables and queries

  datatype Table = Table(columns: seq<string>, rows: seq<Row>, indexes: seq<seq<string>>)

  type Database = map<string, Table>

  ghost predicate ValidDatabase(db: Database) {
    forall name :: name in db ==> ValidSide(Side(name, db[name].columns, db[name].rows))
  }

  datatype JoinKind = Inner | Left | Right | Full

  datatype Join = Join(kind: JoinKind, table: string, leftColumn: string, rightColumn: string)

  /** The table name and the column names of one side. */
  datatype Scope = Scope(table: string, columns: seq<string>)

  datatype JoinError = TableNotFound(name: string) | InvalidFilter(reason: string)

  /** A filter on joined rows: a check against the schemas, and an evaluation that may fail. */
  datatype RowFilter = RowFilter(
    validate: seq<Scope> -> Option<JoinError>,
    matches: (seq<Scope>, JoinedRow) -> Result<bool, JoinError>)

  datatype Query = Query(
    joins: seq<Join>,
    filter: Option<RowFilter>,
    orderBy: Keys<string>,
    offset: Option<nat>,
    limit: Option<nat>,
    columns: Option<seq<string>>)

  /** The part before the first dot and the part after it, when there is a dot. */
  function SplitDot(field: string): Option<(string, string)> {
    if field == "" then None
    else if field[0] == '.' then Some(("", field[1..]))
    else match SplitDot(field[1..])
      case None => None
      case Some(parts) => Some(([field[0]] + parts.0, parts.1))
  }

  function ResolveColumn(field: string, defaultTable: string): (string, string) {
    match SplitDot(field)
    case Some(parts) => parts
    case None => (defaultTable, field)
  }

  function KeepsLeft(kind: JoinKind): bool {
    kind.Left? || kind.Full?
  }

  function KeepsRight(kind: JoinKind): bool {
    kind.Right? || kind.Full?
  }

  function TablesOf(scopes: seq<Scope>): (tables: seq<string>)
    ensures |tables| == |scopes|
  {
    seq(|scopes|, s requires 0 <= s < |scopes| => scopes[s].table)
  }

  /** The first side with the table's name, and the column within it. */
  function FindKey(scopes: seq<Scope>, table: string, column: string): (key: Option<KeyPosition>)
    ensures key.Some? ==> key.value.0 < |scopes| && key.value.1 < |scopes[key.value.0].columns|
  {
    match Position(TablesOf(scopes), table)
    case None => None
    case Some(side) =>
      match Position(scopes[side].columns, column)
      case None => None
      case Some(position) => Some((side, position))
  }

  // ----- The reference: nested-loop joins of complete tables

  function ScopeOf(db: Database, name: string): Scope
    requires name in db
  {
    Scope(name, db[name].columns)
  }

  predicate KnownTables(db: Database, from: string, joins: seq<Join>) {
    from in db && forall i :: 0 <= i < |joins| ==> joins[i].table in db
  }

  function Scopes(db: Database, from: string, joins: seq<Join>): (scopes: seq<Scope>)
    requires KnownTables(db, from, joins)
    ensures |scopes| == |joins| + 1
  {
    [ScopeOf(db, from)] + seq(|joins|, i requires 0 <= i < |joins| => ScopeOf(db, joins[i].table))
  }

  function Padding(scopes: seq<Scope>): JoinedRow {
    seq(|scopes|, s requires 0 <= s < |scopes| => NullRow(|scopes[s].columns|))
  }

  function LeftKeyOf(scopes: seq<Scope>, from: string, join: Join): (key: Option<KeyPosition>)
    ensures key.Some? ==> key.value.0 < |scopes| && key.value.1 < |scopes[key.value.0].columns|
  {
    var resolved := ResolveColumn(join.leftColumn, from);
    FindKey(scopes, resolved.0, resolved.1)
  }

  function RightColumnOf(table: Table, join: Join): (column: Option<nat>)
    ensures column.Some? ==> column.value < |table.columns|
  {
    Position(table.columns, ResolveColumn(join.rightColumn, join.table).1)
  }

  /** All joined rows of a chain of joins, each table taken in full and in table order. */
  function Joined(db: Database, from: string, joins: seq<Join>): seq<JoinedRow>
    requires KnownTables(db, from, joins)
  {
    if joins == [] then seq(|db[from].rows|, i requires 0 <= i < |db[from].rows| => [db[from].rows[i]])
    else
      var init, join := joins[..|joins| - 1], joins[|joins| - 1];
      var scopes, table := Scopes(db, from, init), db[join.table];
      NestedLoop(Joined(db, from, init), Padding(scopes), LeftKeyOf(scopes, from, join),
                 table.rows, |table.columns|, RightColumnOf(table, join), KeepsLeft(join.kind), KeepsRight(join.kind))
  }

  // ----- Index tuples stand for joined rows

  function RowOf(sides: seq<Side>, row: RowRef): (joined: JoinedRow)
    ensures |joined| == |sides|
  {
    seq(|sides|, s requires 0 <= s < |sides| =>
      if ValidRef(sides, row) then sides[s].RowAt(row[s]) else [])
  }

  function View(sides: seq<Side>): RowRef -> JoinedRow {
    row => RowOf(sides, row)
  }

  function RowsOf(sides: seq<Side>, rows: seq<RowRef>): seq<JoinedRow> {
    Map(View(sides), rows)
  }

  function ScopesOf(sides: seq<Side>): seq<Scope> {
    seq(|sides|, s requires 0 <= s < |sides| => Scope(sides[s].table, sides[s].columns))
  }

  lemma LeftKeyAgrees(sides: seq<Side>, row: RowRef, key: Option<KeyPosition>)
    requires ValidSides(sides) && ValidKey(sides, key) && ValidRef(sides, row)
    ensures LeftKey(sides, row, key) == KeyOfJoined(RowOf(sides, row), key)
  {
    if key.Some? {
      assert ValidSide(sides[key.value.0]);
    }
  }

  function RowsAt(side: Side, indexes: seq<nat>): (rows: seq<Row>)
    requires forall k :: 0 <= k < |indexes| ==> indexes[k] < |side.rows|
    ensures |rows| == |indexes|
  {
    seq(|indexes|, k requires 0 <= k < |indexes| => side.rows[indexes[k]])
  }

  lemma MatchingRowsStep(left: JoinedRow, key: Option<KeyPosition>, rows: seq<Row>, column: Option<nat>, j: nat)
    requires j < |rows|
    ensures MatchingRows(left, key, rows[..j + 1], column)
         == MatchingRows(left, key, rows[..j], column) + if Matches(left, key, rows[j], column) then [rows[j]] else []
  {
    assert rows[..j + 1][..j] == rows[..j];
  }

  lemma IndexesInBounds(side: Side, column: nat, value: Value, count: nat)
    requires ValidSide(side) && column < |side.columns| && count <= |side.rows|
    ensures var indexes := IndexesOf(side, column, value, count);
            forall k :: 0 <= k < |indexes| ==> indexes[k] in indexes && indexes[k] < |side.rows|
  {
    var indexes := IndexesOf(side, column, value, count);
    assert forall k :: 0 <= k < |indexes| ==> indexes[k] in indexes;
  }

  lemma RowsAtStep(side: Side, indexes: seq<nat>, j: nat)
    requires j < |side.rows| && forall k :: 0 <= k < |indexes| ==> indexes[k] < |side.rows|
    ensures RowsAt(side, indexes + [j]) == RowsAt(side, indexes) + [side.rows[j]]
  {
  }

  // The rows at the indexes found for a key are the matching rows.
  lemma {:induction false} IndexesAreMatches(left: JoinedRow, key: Option<KeyPosition>, right: Side, column: nat, count: nat)
    requires ValidSide(right) && column < |right.columns| && count <= |right.rows|
    requires KeyOfJoined(left, key).Some?
    ensures var indexes := IndexesOf(right, column, KeyOfJoined(left, key).value, count);
            && (forall k :: 0 <= k < |indexes| ==> indexes[k] in indexes && indexes[k] < |right.rows|)
            && RowsAt(right, indexes) == MatchingRows(left, key, right.rows[..count], Some(column))
  {
    var value := KeyOfJoined(left, key).value;
    IndexesInBounds(right, column, value, count);
    if count > 0 {
      var j := count - 1;
      IndexesAreMatches(left, key, right, column, j);
      MatchingRowsStep(left, key, right.rows, Some(column), j);
      assert |right.rows[j]| == |right.columns|;
      assert Matches(left, key, right.rows[j], Some(column)) == (right.rows[j][column] == value);
      IndexesInBounds(right, column, value, j);
      RowsAtStep(right, IndexesOf(right, column, value, j), j);
    }
  }

  lemma {:induction false} NoKeyNoMatches(left: JoinedRow, key: Option<KeyPosition>, right: seq<Row>, column: Option<nat>)
    requires KeyOfJoined(left, key).None? || column.None?
    ensures MatchingRows(left, key, right, column) == []
  {
    if right != [] {
      NoKeyNoMatches(left, key, right[..|right| - 1], column);
    }
  }

  lemma MatchesAgree(sides: seq<Side>, row: RowRef, key: Option<KeyPosition>, right: Side, column: Option<nat>)
    requires ValidSides(sides) && ValidSide(right) && ValidKey(sides, key) && ValidRef(sides, row) && ValidColumn(right, column)
    ensures RowsAt(right, MatchIndexes(sides, row, key, right, column)) == MatchingRows(RowOf(sides, row), key, right.rows, column)
  {
    LeftKeyAgrees(sides, row, key);
    var left := RowOf(sides, row);
    if KeyOfJoined(left, key).Some? && column.Some? {
      IndexesAreMatches(left, key, right, column.value, |right.rows|);
      assert right.rows[..|right.rows|] == right.rows;
    } else {
      NoKeyNoMatches(left, key, right.rows, column);
    }
  }

  lemma RowOfExtended(sides: seq<Side>, row: RowRef, right: Side, index: Option<nat>)
    requires ValidRef(sides, row) && (index.Some? ==> index.value < |right.rows|)
    ensures ValidRef(sides + [right], row + [index])
    ensures RowOf(sides + [right], row + [index]) == RowOf(sides, row) + [right.RowAt(index)]
  {
    var all, extended := sides + [right], row + [index];
    assert forall s :: 0 <= s < |sides| ==> all[s] == sides[s] && extended[s] == row[s];
    assert ValidRef(all, extended);
  }

  lemma RowsOfConcat(sides: seq<Side>, a: seq<RowRef>, b: seq<RowRef>)
    ensures RowsOf(sides, a + b) == RowsOf(sides, a) + RowsOf(sides, b)
  {
  }

  lemma JoinOneAgrees(sides: seq<Side>, row: RowRef, key: Option<KeyPosition>, right: Side, column: Option<nat>, keepLeft: bool)
    requires ValidSides(sides) && ValidSide(right) && ValidKey(sides, key) && ValidRef(sides, row) && ValidColumn(right, column)
    ensures ValidRefs(sides + [right], RefJoinOne(sides, row, key, right, column, keepLeft))
    ensures RowsOf(sides + [right], RefJoinOne(sides, row, key, right, column, keepLeft))
         == JoinOne(RowOf(sides, row), key, right.rows, |right.columns|, column, keepLeft)
  {
    MatchesAgree(sides, row, key, right, column);
    var indexes := MatchIndexes(sides, row, key, right, column);
    RowOfExtended(sides, row, right, None);
    forall k | 0 <= k < |indexes|
      ensures ValidRef(sides + [right], row + [Some(indexes[k])])
      ensures RowOf(sides + [right], row + [Some(indexes[k])]) == RowOf(sides, row) + [right.rows[indexes[k]]]
    {
      RowOfExtended(sides, row, right, Some(indexes[k]));
    }
    if indexes != [] {
      assert RowsOf(sides + [right], Extend(row, SomeIndexes(indexes))) == Extend(RowOf(sides, row), RowsAt(right, indexes));
    }
  }

  lemma ValidRefsConcat(sides: seq<Side>, a: seq<RowRef>, b: seq<RowRef>)
    requires ValidRefs(sides, a) && ValidRefs(sides, b)
    ensures ValidRefs(sides, a + b)
  {
  }

  lemma JoinAllOfRefs(sides: seq<Side>, rows: seq<RowRef>, key: Option<KeyPosition>, right: Side, column: Option<nat>, keepLeft: bool)
    requires rows != []
    ensures JoinAll(RowsOf(sides, rows), key, right.rows, |right.columns|, column, keepLeft)
         == JoinAll(RowsOf(sides, rows[..|rows| - 1]), key, right.rows, |right.columns|, column, keepLeft)
            + JoinOne(RowOf(sides, rows[|rows| - 1]), key, right.rows, |right.columns|, column, keepLeft)
  {
    assert RowsOf(sides, rows)[..|rows| - 1] == RowsOf(sides, rows[..|rows| - 1]);
  }

  lemma {:induction false} JoinAllAgrees(sides: seq<Side>, rows: seq<RowRef>, key: Option<KeyPosition>, right: Side,
                                         column: Option<nat>, keepLeft: bool)
    requires ValidSides(sides) && ValidSide(right) && ValidKey(sides, key) && ValidRefs(sides, rows) && ValidColumn(right, column)
    ensures ValidRefs(sides + [right], RefJoinAll(sides, rows, key, right, column, keepLeft))
    ensures RowsOf(sides + [right], RefJoinAll(sides, rows, key, right, column, keepLeft))
         == JoinAll(RowsOf(sides, rows), key, right.rows, |right.columns|, column, keepLeft)
  {
    if rows != [] {
      var init, last := rows[..|rows| - 1], rows[|rows| - 1];
      JoinAllAgrees(sides, init, key, right, column, keepLeft);
      JoinOneAgrees(sides, last, key, right, column, keepLeft);
      var a := RefJoinAll(sides, init, key, right, column, keepLeft);
      var b := RefJoinOne(sides, last, key, right, column, keepLeft);
      ValidRefsConcat(sides + [right], a, b);
      RowsOfConcat(sides + [right], a, b);
      JoinAllOfRefs(sides, rows, key, right, column, keepLeft);
    }
  }

  lemma MatchAgrees(sides: seq<Side>, row: RowRef, key: Option<KeyPosition>, right: Side, column: Option<nat>, j: nat)
    requires ValidSides(sides) && ValidSide(right) && ValidKey(sides, key) && ValidRef(sides, row) && ValidColumn(right, column)
    requires j < |right.rows|
    ensures j in MatchIndexes(sides, row, key, right, column) <==> Matches(RowOf(sides, row), key, right.rows[j], column)
  {
    LeftKeyAgrees(sides, row, key);
    var value := LeftKey(sides, row, key);
    assert |right.rows[j]| == |right.columns|;
    if value.Some? && column.Some? {
      var indexes := IndexesOf(right, column.value, value.value, |right.rows|);
      assert MatchIndexes(sides, row, key, right, column) == indexes;
      assert j in indexes <==> right.rows[j][column.value] == value.value;
    }
  }

  lemma MatchedAgrees(sides: seq<Side>, rows: seq<RowRef>, key: Option<KeyPosition>, right: Side, column: Option<nat>, j: nat)
    requires ValidSides(sides) && ValidSide(right) && ValidKey(sides, key) && ValidRefs(sides, rows) && ValidColumn(right, column)
    requires j < |right.rows|
    ensures RefMatched(sides, rows, key, right, column, j) == MatchesAny(RowsOf(sides, rows), key, right.rows[j], column)
  {
    forall i | 0 <= i < |rows|
      ensures j in MatchIndexes(sides, rows[i], key, right, column)
         <==> Matches(RowOf(sides, rows[i]), key, right.rows[j], column)
    {
      MatchAgrees(sides, rows[i], key, right, column, j);
    }
    var left := RowsOf(sides, rows);
    assert forall i :: 0 <= i < |rows| ==> left[i] == RowOf(sides, rows[i]);
    if RefMatched(sides, rows, key, right, column, j) {
      var i :| 0 <= i < |rows| && j in MatchIndexes(sides, rows[i], key, right, column);
      assert Matches(left[i], key, right.rows[j], column);
    }
    if MatchesAny(left, key, right.rows[j], column) {
      var i :| 0 <= i < |left| && Matches(left[i], key, right.rows[j], column);
      assert j in MatchIndexes(sides, rows[i], key, right, column);
    }
  }

  // A right row without a match stands for itself after the padding.
  lemma PaddedAgrees(sides: seq<Side>, right: Side, j: nat)
    requires j < |right.rows|
    ensures var padded: RowRef := EmptyRef(|sides|) + [Some(j)];
            && ValidRefs(sides + [right], [padded])
            && RowsOf(sides + [right], [padded]) == [Padding(ScopesOf(sides)) + [right.rows[j]]]
  {
    var empty: RowRef := EmptyRef(|sides|);
    RowOfExtended(sides, empty, right, Some(j));
    assert RowOf(sides, empty) == Padding(ScopesOf(sides));
  }

  lemma UnmatchedStep(left: seq<JoinedRow>, padding: JoinedRow, key: Option<KeyPosition>, rows: seq<Row>, column: Option<nat>, j: nat)
    requires j < |rows|
    ensures UnmatchedRight(left, padding, key, rows[..j + 1], column)
         == UnmatchedRight(left, padding, key, rows[..j], column)
            + if MatchesAny(left, key, rows[j], column) then [] else [padding + [rows[j]]]
  {
    assert rows[..j + 1][..j] == rows[..j];
  }

  lemma {:induction false} UnmatchedAgrees(sides: seq<Side>, rows: seq<RowRef>, key: Option<KeyPosition>, right: Side,
                                           column: Option<nat>, count: nat)
    requires ValidSides(sides) && ValidSide(right) && ValidKey(sides, key) && ValidRefs(sides, rows) && ValidColumn(right, column)
    requires count <= |right.rows|
    ensures ValidRefs(sides + [right], RefUnmatched(sides, rows, key, right, column, count))
    ensures RowsOf(sides + [right], RefUnmatched(sides, rows, key, right, column, count))
         == UnmatchedRight(RowsOf(sides, rows), Padding(ScopesOf(sides)), key, right.rows[..count], column)
  {
    if count > 0 {
      var j := count - 1;
      UnmatchedAgrees(sides, rows, key, right, column, j);
      MatchedAgrees(sides, rows, key, right, column, j);
      UnmatchedStep(RowsOf(sides, rows), Padding(ScopesOf(sides)), key, right.rows, column, j);
      PaddedAgrees(sides, right, j);
      var a := RefUnmatched(sides, rows, key, right, column, j);
      var padded: RowRef := EmptyRef(|sides|) + [Some(j)];
      if !RefMatched(sides, rows, key, right, column, j) {
        ValidRefsConcat(sides + [right], a, [padded]);
        RowsOfConcat(sides + [right], a, [padded]);
      }
    }
  }

  /** The join of references stands for the join of rows, and its references are valid. */
  lemma RefJoinAgrees(sides: seq<Side>, rows: seq<RowRef>, key: Option<KeyPosition>, right: Side, column: Option<nat>,
                      keepLeft: bool, keepRight: bool)
    requires ValidSides(sides) && ValidSide(right) && ValidKey(sides, key) && ValidRefs(sides, rows) && ValidColumn(right, column)
    ensures ValidRefs(sides + [right], RefJoin(sides, rows, key, right, column, keepLeft, keepRight))
    ensures RowsOf(sides + [right], RefJoin(sides, rows, key, right, column, keepLeft, keepRight))
         == NestedLoop(RowsOf(sides, rows), Padding(ScopesOf(sides)), key, right.rows, |right.columns|, column, keepLeft, keepRight)
  {
    JoinAllAgrees(sides, rows, key, right, column, keepLeft);
    UnmatchedAgrees(sides, rows, key, right, column, |right.rows|);
    assert right.rows[..|right.rows|] == right.rows;
    var a := RefJoinAll(sides, rows, key, right, column, keepLeft);
    var b := if keepRight then RefUnmatched(sides, rows, key, right, column, |right.rows|) else [];
    ValidRefsConcat(sides + [right], a, b);
    RowsOfConcat(sides + [right], a, b);
  }
}
