/**
 Whole join queries: the rows loaded for each join, the chain of joins, then
 filter, order, offset, limit and projection, proved equal to the same steps
 over the nested-loop joins of the complete tables.
 */
module JoinQueries {
  import opened Wrappers
  import opened Sequences
  import opened Values
  import opened Sorting
  import opened Pagination
  import opened HashJoins
  import opened JoinEngine

  // ----- Loading only the right rows that can match

  /** The rows that satisfy a condition, in table order: what a select with a filter returns. */
  function SelectRows(rows: seq<Row>, condition: Row -> bool): (selected: seq<Row>)
    ensures forall j :: 0 <= j < |selected| ==> selected[j] in rows
  {
    if rows == [] then []
    else
      var init, last := rows[..|rows| - 1], rows[|rows| - 1];
      SelectRows(init, condition) + if condition(last) then [last] else []
  }

  /** The condition `column IN keys`. */
  function InKeys(column: Option<nat>, keys: seq<Value>): Row -> bool {
    row => column.Some? && column.value < |row| && row[column.value] in keys
  }

  /** The condition `column <> NULL`. */
  function NotNull(column: Option<nat>): Row -> bool {
    row => column.Some? && column.value < |row| && row[column.value] != Null
  }

  // Rows that cannot match may be left out before matching.
  lemma {:induction false} SelectKeepsMatches(left: JoinedRow, key: Option<KeyPosition>, rows: seq<Row>, column: Option<nat>,
                                              condition: Row -> bool)
    requires forall j :: 0 <= j < |rows| && Matches(left, key, rows[j], column) ==> condition(rows[j])
    ensures MatchingRows(left, key, SelectRows(rows, condition), column) == MatchingRows(left, key, rows, column)
  {
    if rows != [] {
      var init, last := rows[..|rows| - 1], rows[|rows| - 1];
      SelectKeepsMatches(left, key, init, column, condition);
      var selected := SelectRows(init, condition);
      if condition(last) {
        assert (selected + [last])[..|selected|] == selected;
      } else {
        assert SelectRows(rows, condition) == selected;
      }
    }
  }

  /** Every left row finds the same matches in the loaded rows as in the whole table. */
  ghost predicate SameMatches(left: seq<JoinedRow>, key: Option<KeyPosition>, loaded: seq<Row>, table: seq<Row>, column: Option<nat>) {
    forall i :: 0 <= i < |left| ==> MatchingRows(left[i], key, loaded, column) == MatchingRows(left[i], key, table, column)
  }

  /** Without unmatched right rows, an inner or left join needs only the rows that can match. */
  lemma {:induction false} PrunedJoin(left: seq<JoinedRow>, key: Option<KeyPosition>, loaded: seq<Row>, table: seq<Row>,
                                      width: nat, column: Option<nat>, keepLeft: bool)
    requires SameMatches(left, key, loaded, table, column)
    ensures JoinAll(left, key, loaded, width, column, keepLeft) == JoinAll(left, key, table, width, column, keepLeft)
  {
    if left != [] {
      PrunedJoin(left[..|left| - 1], key, loaded, table, width, column, keepLeft);
      assert MatchingRows(left[|left| - 1], key, loaded, column) == MatchingRows(left[|left| - 1], key, table, column);
    }
  }

  /** The distinct non-null keys of the left rows, in order of first appearance. */
  method DistinctKeys(sides: seq<Side>, rows: seq<RowRef>, key: Option<KeyPosition>) returns (keys: seq<Value>)
    requires ValidSides(sides) && ValidKey(sides, key) && ValidRefs(sides, rows)
    ensures Distinct(keys) && Null !in keys
    ensures forall v: Value :: v in keys <==> exists i :: 0 <= i < |rows| && LeftKey(sides, rows[i], key) == Some(v)
  {
    keys := [];
    for i := 0 to |rows|
      invariant Distinct(keys) && Null !in keys
      invariant forall v: Value :: v in keys <==> exists k :: 0 <= k < i && LeftKey(sides, rows[k], key) == Some(v)
    {
      var value := LeftKey(sides, rows[i], key);
      if value.Some? && value.value !in keys {
        keys := keys + [value.value];
      }
    }
  }

  predicate LeadsIndex(table: Table, column: string) {
    exists i :: 0 <= i < |table.indexes| && table.indexes[i] != [] && table.indexes[i][0] == column
  }

  lemma KeyedSelection(sides: seq<Side>, rows: seq<RowRef>, key: Option<KeyPosition>, table: seq<Row>, column: Option<nat>,
                       condition: Row -> bool)
    requires ValidSides(sides) && ValidKey(sides, key) && ValidRefs(sides, rows)
    requires forall i, j | 0 <= i < |rows| && 0 <= j < |table| && LeftKey(sides, rows[i], key).Some?
               && KeyOfRow(table[j], column) == LeftKey(sides, rows[i], key) :: condition(table[j])
    ensures SameMatches(RowsOf(sides, rows), key, SelectRows(table, condition), table, column)
  {
    var left := RowsOf(sides, rows);
    forall i | 0 <= i < |left|
      ensures MatchingRows(left[i], key, SelectRows(table, condition), column) == MatchingRows(left[i], key, table, column)
    {
      assert left[i] == RowOf(sides, rows[i]);
      LeftKeyAgrees(sides, rows[i], key);
      SelectKeepsMatches(left[i], key, table, column, condition);
    }
  }

  lemma NoKeysNoMatches(sides: seq<Side>, rows: seq<RowRef>, key: Option<KeyPosition>, table: seq<Row>, column: Option<nat>)
    requires ValidSides(sides) && ValidKey(sides, key) && ValidRefs(sides, rows)
    requires forall i :: 0 <= i < |rows| ==> LeftKey(sides, rows[i], key).None?
    ensures SameMatches(RowsOf(sides, rows), key, [], table, column)
  {
    var left := RowsOf(sides, rows);
    forall i | 0 <= i < |left|
      ensures MatchingRows(left[i], key, [], column) == MatchingRows(left[i], key, table, column)
    {
      assert left[i] == RowOf(sides, rows[i]);
      LeftKeyAgrees(sides, rows[i], key);
      NoKeyNoMatches(left[i], key, table, column);
    }
  }

  /** The keys of the left rows. */
  ghost function LeftKeys(sides: seq<Side>, rows: seq<RowRef>, key: Option<KeyPosition>): set<Value>
    requires ValidSides(sides) && ValidKey(sides, key) && ValidRefs(sides, rows)
  {
    set i | 0 <= i < |rows| && LeftKey(sides, rows[i], key).Some? :: LeftKey(sides, rows[i], key).value
  }

  /** Whether the keys are pushed down: they are at most 64 and their column leads an index. */
  ghost predicate PushesDown(table: Table, rightColumn: string, keys: set<Value>) {
    |keys| <= 64 && exists i :: 0 <= i < |table.indexes| && table.indexes[i] != [] && table.indexes[i][0] == rightColumn
  }

  /** The rows of a pruned load: none without left keys, else those with a key, and only with a left key when those are pushed down. */
  ghost predicate LoadedFor(table: Table, rightColumn: string, keys: set<Value>, loaded: seq<Row>) {
    var column := Position(table.columns, rightColumn);
    && (keys == {} ==> loaded == [])
    && (keys != {} ==>
          forall row :: row in loaded <==>
            && row in table.rows && KeyOfRow(row, column).Some?
            && (PushesDown(table, rightColumn, keys) ==> KeyOfRow(row, column).value in keys))
  }

  lemma {:induction false} SelectMembers(rows: seq<Row>, condition: Row -> bool, row: Row)
    ensures row in SelectRows(rows, condition) <==> row in rows && condition(row)
  {
    if rows != [] {
      SelectMembers(rows[..|rows| - 1], condition, row);
      assert row in rows <==> row in rows[..|rows| - 1] || row == rows[|rows| - 1];
    }
  }

  lemma NoKeysLoaded(table: Table, rightColumn: string, sides: seq<Side>, rows: seq<RowRef>, key: Option<KeyPosition>)
    requires ValidSides(sides) && ValidKey(sides, key) && ValidRefs(sides, rows)
    requires forall i :: 0 <= i < |rows| ==> LeftKey(sides, rows[i], key).None?
    ensures LoadedFor(table, rightColumn, LeftKeys(sides, rows, key), [])
  {
    assert LeftKeys(sides, rows, key) == {};
  }

  // The keys found are the keys of the left rows, and as many.
  lemma FoundKeys(sides: seq<Side>, rows: seq<RowRef>, key: Option<KeyPosition>, keys: seq<Value>)
    requires ValidSides(sides) && ValidKey(sides, key) && ValidRefs(sides, rows)
    requires Distinct(keys)
    requires forall v: Value :: v in keys <==> exists i :: 0 <= i < |rows| && LeftKey(sides, rows[i], key) == Some(v)
    ensures LeftKeys(sides, rows, key) == (set v | v in keys) && |LeftKeys(sides, rows, key)| == |keys|
  {
    DistinctCardinality(keys);
  }

  lemma SelectedAreLoaded(table: Table, rightColumn: string, keys: seq<Value>, leftKeys: set<Value>)
    requires leftKeys == (set v | v in keys) && |leftKeys| == |keys| && keys != [] && Null !in keys
    ensures var column := Position(table.columns, rightColumn);
            LoadedFor(table, rightColumn, leftKeys,
                      if |keys| <= MAX_ALTERNATIVES && LeadsIndex(table, rightColumn) then SelectRows(table.rows, InKeys(column, keys))
                      else SelectRows(table.rows, NotNull(column)))
  {
    var column := Position(table.columns, rightColumn);
    assert keys[0] in leftKeys;
    forall row
      ensures row in SelectRows(table.rows, InKeys(column, keys)) <==> row in table.rows && InKeys(column, keys)(row)
      ensures row in SelectRows(table.rows, NotNull(column)) <==> row in table.rows && NotNull(column)(row)
    {
      SelectMembers(table.rows, InKeys(column, keys), row);
      SelectMembers(table.rows, NotNull(column), row);
    }
  }

  /**
   Loads the right rows of one join: all of them, those whose key is among the
   left keys, those with a key at all, or none. The matches never change.
   */
  method LoadRightRows(table: Table, sides: seq<Side>, rows: seq<RowRef>, key: Option<KeyPosition>, rightColumn: string,
                       keepRight: bool) returns (loaded: seq<Row>)
    requires ValidSides(sides) && ValidKey(sides, key) && ValidRefs(sides, rows)
    ensures keepRight ==> loaded == table.rows
    ensures forall j :: 0 <= j < |loaded| ==> loaded[j] in table.rows
    ensures SameMatches(RowsOf(sides, rows), key, loaded, table.rows, Position(table.columns, rightColumn))
    ensures !keepRight ==> LoadedFor(table, rightColumn, LeftKeys(sides, rows, key), loaded)
  {
    hide LoadedFor, LeftKeys;
    var column := Position(table.columns, rightColumn);
    if keepRight {
      return table.rows;
    }
    if key.None? {
      NoKeysLoaded(table, rightColumn, sides, rows, key);
      NoKeysNoMatches(sides, rows, key, table.rows, column);
      return [];
    }
    var keys := DistinctKeys(sides, rows, key);
    FoundKeys(sides, rows, key, keys);
    if keys == [] {
      assert forall i :: 0 <= i < |rows| && LeftKey(sides, rows[i], key).Some? ==> LeftKey(sides, rows[i], key).value in keys;
      NoKeysLoaded(table, rightColumn, sides, rows, key);
      NoKeysNoMatches(sides, rows, key, table.rows, column);
      return [];
    }
    SelectedAreLoaded(table, rightColumn, keys, LeftKeys(sides, rows, key));
    if !(|keys| <= MAX_ALTERNATIVES && LeadsIndex(table, rightColumn)) {
      KeyedSelection(sides, rows, key, table.rows, column, NotNull(column));
      return SelectRows(table.rows, NotNull(column));
    }
    forall i, j | 0 <= i < |rows| && 0 <= j < |table.rows| && LeftKey(sides, rows[i], key).Some?
                  && KeyOfRow(table.rows[j], column) == LeftKey(sides, rows[i], key)
      ensures InKeys(column, keys)(table.rows[j])
    {
      assert LeftKey(sides, rows[i], key).value in keys;
    }
    KeyedSelection(sides, rows, key, table.rows, column, InKeys(column, keys));
    return SelectRows(table.rows, InKeys(column, keys));
  }

  // ----- The chain of joins

  /** The engine's state after some joins stands for the nested-loop joins of the complete tables. */
  ghost predicate StandsFor(db: Database, from: string, joins: seq<Join>, sides: seq<Side>, rows: seq<RowRef>)
    requires KnownTables(db, from, joins)
  {
    && ValidSides(sides) && ValidRefs(sides, rows)
    && ScopesOf(sides) == Scopes(db, from, joins)
    && RowsOf(sides, rows) == Joined(db, from, joins)
  }

  lemma ScopesStep(db: Database, from: string, joins: seq<Join>, join: Join)
    requires KnownTables(db, from, joins) && join.table in db
    ensures KnownTables(db, from, joins + [join])
    ensures Scopes(db, from, joins + [join]) == Scopes(db, from, joins) + [ScopeOf(db, join.table)]
  {
    assert forall i :: 0 <= i < |joins| ==> (joins + [join])[i] == joins[i];
  }

  lemma JoinedStep(db: Database, from: string, joins: seq<Join>, join: Join)
    requires KnownTables(db, from, joins) && join.table in db
    ensures KnownTables(db, from, joins + [join])
    ensures var scopes, table := Scopes(db, from, joins), db[join.table];
            Joined(db, from, joins + [join])
              == NestedLoop(Joined(db, from, joins), Padding(scopes), LeftKeyOf(scopes, from, join), table.rows, |table.columns|,
                            RightColumnOf(table, join), KeepsLeft(join.kind), KeepsRight(join.kind))
  {
    ScopesStep(db, from, joins, join);
    assert (joins + [join])[..|joins|] == joins;
  }

  lemma StepStandsFor(db: Database, from: string, joins: seq<Join>, join: Join, sides: seq<Side>, rows: seq<RowRef>,
                      right: Side, key: Option<KeyPosition>, column: Option<nat>)
    requires KnownTables(db, from, joins) && join.table in db && StandsFor(db, from, joins, sides, rows)
    requires right.table == join.table && right.columns == db[join.table].columns && ValidSide(right)
    requires key == LeftKeyOf(Scopes(db, from, joins), from, join) && column == RightColumnOf(db[join.table], join)
    requires ValidKey(sides, key) && ValidColumn(right, column)
    requires KeepsRight(join.kind) ==> right.rows == db[join.table].rows
    requires SameMatches(RowsOf(sides, rows), key, right.rows, db[join.table].rows, column)
    ensures KnownTables(db, from, joins + [join])
    ensures StandsFor(db, from, joins + [join], sides + [right],
                      RefJoin(sides, rows, key, right, column, KeepsLeft(join.kind), KeepsRight(join.kind)))
  {
    var keepLeft, keepRight := KeepsLeft(join.kind), KeepsRight(join.kind);
    ScopesStep(db, from, joins, join);
    assert ScopesOf(sides + [right]) == ScopesOf(sides) + [Scope(right.table, right.columns)];
    RefJoinAgrees(sides, rows, key, right, column, keepLeft, keepRight);
    PrunedJoin(RowsOf(sides, rows), key, right.rows, db[join.table].rows, |right.columns|, column, keepLeft);
    JoinedStep(db, from, joins, join);
  }

  lemma StartStandsFor(db: Database, from: string)
    requires ValidDatabase(db) && from in db
    ensures var side := Side(from, db[from].columns, db[from].rows);
            StandsFor(db, from, [], [side], seq(|db[from].rows|, i => [Some(i)]))
  {
    var side := Side(from, db[from].columns, db[from].rows);
    var refs: seq<RowRef> := seq(|db[from].rows|, i => [Some(i)]);
    assert ScopesOf([side]) == Scopes(db, from, []);
    forall i | 0 <= i < |refs|
      ensures ValidRef([side], refs[i]) && RowOf([side], refs[i]) == [db[from].rows[i]]
    {
      assert ValidRef([side], refs[i]);
    }
    assert RowsOf([side], refs) == Joined(db, from, []);
  }

  /** All joins of a query, left to right. */
  method JoinTables(db: Database, from: string, joins: seq<Join>) returns (sides: seq<Side>, rows: seq<RowRef>)
    requires ValidDatabase(db) && KnownTables(db, from, joins)
    ensures StandsFor(db, from, joins, sides, rows)
  {
    hide LoadedFor, LeftKeys, SameMatches, RefJoin;
    sides := [Side(from, db[from].columns, db[from].rows)];
    rows := seq(|db[from].rows|, i => [Some(i)]);
    StartStandsFor(db, from);
    for i := 0 to |joins|
      invariant KnownTables(db, from, joins[..i])
      invariant StandsFor(db, from, joins[..i], sides, rows)
    {
      var join := joins[i];
      var table := db[join.table];
      var left := ResolveColumn(join.leftColumn, from);
      var key := FindKey(ScopesOf(sides), left.0, left.1);
      var rightColumn := ResolveColumn(join.rightColumn, join.table).1;
      var loaded := LoadRightRows(table, sides, rows, key, rightColumn, KeepsRight(join.kind));
      var right := Side(join.table, table.columns, loaded);
      LoadedIsValid(db, join.table, loaded);
      var column := Position(table.columns, rightColumn);
      var joined := HashJoin(sides, rows, key, right, column, KeepsLeft(join.kind), KeepsRight(join.kind));
      assert joins[..i + 1] == joins[..i] + [join];
      StepStandsFor(db, from, joins[..i], join, sides, rows, right, key, column);
      sides, rows := sides + [right], joined;
    }
    assert joins[..|joins|] == joins;
  }

  lemma LoadedIsValid(db: Database, name: string, loaded: seq<Row>)
    requires ValidDatabase(db) && name in db && forall j :: 0 <= j < |loaded| ==> loaded[j] in db[name].rows
    ensures ValidSide(Side(name, db[name].columns, loaded))
  {
    assert ValidSide(Side(name, db[name].columns, db[name].rows));
  }

  // ----- Order, projection and the whole query

  /** The value of a column in a joined row: of the first side from `side` on that has it. */
  function FindValue(scopes: seq<Scope>, row: JoinedRow, table: Option<string>, column: string, side: nat): Option<Value>
    decreases |scopes| - side
  {
    if side >= |scopes| || side >= |row| then None
    else
      var position := if table.Some? && scopes[side].table != table.value then None
                      else Position(scopes[side].columns, column);
      if position.Some? && position.value < |row[side]| then Some(row[side][position.value])
      else FindValue(scopes, row, table, column, side + 1)
  }

  function OrderValue(scopes: seq<Scope>): (JoinedRow, string) -> Option<Value> {
    (row, field) =>
      match SplitDot(field)
      case Some(parts) => FindValue(scopes, row, Some(parts.0), parts.1, 0)
      case None => FindValue(scopes, row, None, field, 0)
  }

  function RowOrder(scopes: seq<Scope>, compare: Compare<Value>): Order<JoinedRow, string, Value> {
    Order(OrderValue(scopes), compare)
  }

  function RefOrder(sides: seq<Side>, compare: Compare<Value>): Order<RowRef, string, Value> {
    Order((row, field) => OrderValue(ScopesOf(sides))(RowOf(sides, row), field), compare)
  }

  /** Whether the query selects column `p` of a side: by star, bare name or qualified name. */
  predicate Selects(columns: Option<seq<string>>, scope: Scope, p: nat)
    requires p < |scope.columns|
  {
    || columns.None?
    || scope.columns[p] in columns.value
    || scope.table + "." + scope.columns[p] in columns.value
  }

  function ProjectSide(columns: Option<seq<string>>, scope: Scope, row: Row, count: nat): seq<Value>
    requires count <= |scope.columns| && count <= |row|
  {
    if count == 0 then []
    else ProjectSide(columns, scope, row, count - 1) + if Selects(columns, scope, count - 1) then [row[count - 1]] else []
  }

  ghost predicate FitsScopes(scopes: seq<Scope>, row: JoinedRow) {
    && |row| == |scopes|
    && forall s :: 0 <= s < |scopes| ==> |row[s]| == |scopes[s].columns|
  }

  /** The selected values of the first `count` sides, in side and column order. */
  ghost function Project(columns: Option<seq<string>>, scopes: seq<Scope>, row: JoinedRow, count: nat): seq<Value>
    requires FitsScopes(scopes, row) && count <= |scopes|
  {
    if count == 0 then []
    else Project(columns, scopes, row, count - 1)
         + ProjectSide(columns, scopes[count - 1], row[count - 1], |scopes[count - 1].columns|)
  }

  function SideHeader(columns: Option<seq<string>>, scope: Scope, count: nat): seq<(string, string)>
    requires count <= |scope.columns|
  {
    if count == 0 then []
    else SideHeader(columns, scope, count - 1)
         + if Selects(columns, scope, count - 1) then [(scope.table, scope.columns[count - 1])] else []
  }

  /** The table and column of each selected value. */
  function Header(columns: Option<seq<string>>, scopes: seq<Scope>, count: nat): seq<(string, string)>
    requires count <= |scopes|
  {
    if count == 0 then []
    else Header(columns, scopes, count - 1) + SideHeader(columns, scopes[count - 1], |scopes[count - 1].columns|)
  }

  lemma {:induction false} SideWidth(columns: Option<seq<string>>, scope: Scope, row: Row, count: nat)
    requires count <= |scope.columns| && count <= |row|
    ensures |ProjectSide(columns, scope, row, count)| == |SideHeader(columns, scope, count)|
  {
    if count > 0 {
      SideWidth(columns, scope, row, count - 1);
    }
  }

  /** Every projected row has exactly one value per header column. */
  lemma {:induction false} ProjectionFitsHeader(columns: Option<seq<string>>, scopes: seq<Scope>, row: JoinedRow, count: nat)
    requires FitsScopes(scopes, row) && count <= |scopes|
    ensures |Project(columns, scopes, row, count)| == |Header(columns, scopes, count)|
  {
    if count > 0 {
      ProjectionFitsHeader(columns, scopes, row, count - 1);
      SideWidth(columns, scopes[count - 1], row[count - 1], |scopes[count - 1].columns|);
    }
  }

  lemma RowFitsScopes(sides: seq<Side>, row: RowRef)
    requires ValidSides(sides) && ValidRef(sides, row)
    ensures FitsScopes(ScopesOf(sides), RowOf(sides, row))
  {
    var joined := RowOf(sides, row);
    forall s | 0 <= s < |sides|
      ensures |joined[s]| == |sides[s].columns|
    {
      assert ValidSide(sides[s]);
    }
  }

  method MaterializeRow(sides: seq<Side>, columns: Option<seq<string>>, row: RowRef) returns (values: seq<Value>)
    requires ValidSides(sides) && ValidRef(sides, row)
    ensures FitsScopes(ScopesOf(sides), RowOf(sides, row))
    ensures values == Project(columns, ScopesOf(sides), RowOf(sides, row), |sides|)
  {
    RowFitsScopes(sides, row);
    ghost var scopes, joined := ScopesOf(sides), RowOf(sides, row);
    values := [];
    for s := 0 to |sides|
      invariant values == Project(columns, scopes, joined, s)
    {
      var side := Scope(sides[s].table, sides[s].columns);
      var sideRow := sides[s].RowAt(row[s]);
      assert side == scopes[s] && sideRow == joined[s];
      var part := MaterializeSide(columns, side, sideRow);
      values := values + part;
    }
  }

  method MaterializeSide(columns: Option<seq<string>>, side: Scope, row: Row) returns (values: seq<Value>)
    requires |row| == |side.columns|
    ensures values == ProjectSide(columns, side, row, |side.columns|)
  {
    values := [];
    for p := 0 to |side.columns|
      invariant values == ProjectSide(columns, side, row, p)
    {
      if Selects(columns, side, p) {
        values := values + [row[p]];
      }
    }
  }

  datatype ResultSet = ResultSet(header: seq<(string, string)>, rows: seq<seq<Value>>)

  /** The first table of the query that the schema does not know. */
  function UnknownTable(db: Database, from: string, joins: seq<Join>): (name: Option<string>)
    ensures name.None? <==> KnownTables(db, from, joins)
  {
    if from !in db then Some(from)
    else if joins == [] then None
    else match UnknownTable(db, from, joins[..|joins| - 1])
      case Some(name) => Some(name)
      case None => if joins[|joins| - 1].table !in db then Some(joins[|joins| - 1].table) else None
  }

  function MatchesIn(filter: RowFilter, scopes: seq<Scope>): JoinedRow -> Result<bool, JoinError> {
    row => filter.matches(scopes, row)
  }

  function Filtered(query: Query, scopes: seq<Scope>, rows: seq<JoinedRow>): Result<seq<JoinedRow>, JoinError> {
    if query.filter.None? then Ok(rows) else FilterRows(rows, MatchesIn(query.filter.value, scopes))
  }

  function OrZero(n: Option<nat>): nat {
    if n.Some? then n.value else 0
  }

  /** The joined rows that the query returns, before projection. */
  function ReferenceRows(db: Database, from: string, query: Query, compare: Compare<Value>): Result<seq<JoinedRow>, JoinError>
    requires KnownTables(db, from, query.joins)
  {
    var scopes := Scopes(db, from, query.joins);
    match Filtered(query, scopes, Joined(db, from, query.joins))
    case Err(error) => Err(error)
    case Ok(rows) => Ok(PageOf(StableSort(rows, ByKeys(RowOrder(scopes, compare), query.orderBy)), OrZero(query.offset), query.limit))
  }

  /** `set` is the projection of `rows`. */
  ghost predicate IsProjection(query: Query, scopes: seq<Scope>, rows: seq<JoinedRow>, set_: ResultSet) {
    && set_.header == Header(query.columns, scopes, |scopes|)
    && |set_.rows| == |rows|
    && forall i :: 0 <= i < |rows| ==>
         FitsScopes(scopes, rows[i]) && set_.rows[i] == Project(query.columns, scopes, rows[i], |scopes|)
  }

  // Sorting and cutting references is sorting and cutting the rows they stand for.
  lemma SortedPageAgrees(sides: seq<Side>, rows: seq<RowRef>, compare: Compare<Value>, keys: Keys<string>, offset: nat, limit: Option<nat>)
    ensures RowsOf(sides, PageOf(StableSort(rows, ByKeys(RefOrder(sides, compare), keys)), offset, limit))
         == PageOf(StableSort(RowsOf(sides, rows), ByKeys(RowOrder(ScopesOf(sides), compare), keys)), offset, limit)
  {
    var byRef, byRow := ByKeys(RefOrder(sides, compare), keys), ByKeys(RowOrder(ScopesOf(sides), compare), keys);
    forall a: RowRef, b: RowRef
      ensures byRef(a, b) == byRow(RowOf(sides, a), RowOf(sides, b))
    {
      OrdersAgree(sides, compare, keys, a, b);
    }
    assert CompareAlike(rows, byRef, RowsOf(sides, rows), byRow);
    SortCommutes(View(sides), rows, byRef, byRow);
  }

  lemma {:induction false} OrdersAgree(sides: seq<Side>, compare: Compare<Value>, keys: Keys<string>, a: RowRef, b: RowRef)
    ensures Lexicographic(RefOrder(sides, compare), keys, a, b)
         == Lexicographic(RowOrder(ScopesOf(sides), compare), keys, RowOf(sides, a), RowOf(sides, b))
  {
    if keys != [] {
      OrdersAgree(sides, compare, keys[1..], a, b);
    }
  }

  method FilterRefs(query: Query, sides: seq<Side>, rows: seq<RowRef>) returns (r: Result<seq<RowRef>, JoinError>)
    requires ValidSides(sides) && ValidRefs(sides, rows)
    ensures match r
            case Ok(kept) => ValidRefs(sides, kept) && Filtered(query, ScopesOf(sides), RowsOf(sides, rows)) == Ok(RowsOf(sides, kept))
            case Err(error) => Filtered(query, ScopesOf(sides), RowsOf(sides, rows)) == Err(error)
  {
    if query.filter.None? {
      return Ok(rows);
    }
    var matches := MatchesIn(query.filter.value, ScopesOf(sides));
    ghost var all := RowsOf(sides, rows);
    var kept: seq<RowRef> := [];
    assert all[..0] == [];
    for i := 0 to |rows|
      invariant ValidRefs(sides, kept)
      invariant FilterRows(all[..i], matches) == Ok(RowsOf(sides, kept))
    {
      FilterStep(all, matches, i);
      assert all[i] == RowOf(sides, rows[i]);
      var matched := matches(RowOf(sides, rows[i]));
      if matched.Err? {
        FilterPrefix(all, matches, i + 1);
        return Err(matched.error);
      }
      if matched.value {
        RowsOfConcat(sides, kept, [rows[i]]);
        assert RowsOf(sides, [rows[i]]) == [all[i]];
        ValidRefsConcat(sides, kept, [rows[i]]);
        kept := kept + [rows[i]];
      }
    }
    assert all[..|rows|] == all;
    return Ok(kept);
  }

  lemma {:induction false} StableSortElements<R>(rows: seq<R>, compare: Compare<R>)
    ensures forall i :: 0 <= i < |StableSort(rows, compare)| ==> StableSort(rows, compare)[i] in rows
  {
    var positions := SortedIndexes(rows, compare, |rows|);
    assert forall i :: 0 <= i < |positions| ==> positions[i] in positions;
  }

  lemma PageIsValid(sides: seq<Side>, rows: seq<RowRef>, compare: Compare<RowRef>, offset: nat, limit: Option<nat>)
    requires ValidRefs(sides, rows)
    ensures ValidRefs(sides, PageOf(StableSort(rows, compare), offset, limit))
  {
    StableSortElements(rows, compare);
    var sorted := StableSort(rows, compare);
    var page := PageOf(sorted, offset, limit);
    forall i | 0 <= i < |page|
      ensures ValidRef(sides, page[i])
    {
      assert page[i] == sorted[offset + i];
      assert sorted[offset + i] in rows;
    }
  }

  /** Materializes every row of the page. */
  method MaterializeRows(sides: seq<Side>, query: Query, page: seq<RowRef>) returns (set_: ResultSet)
    requires ValidSides(sides) && ValidRefs(sides, page)
    ensures IsProjection(query, ScopesOf(sides), RowsOf(sides, page), set_)
  {
    var scopes := ScopesOf(sides);
    var rows: seq<seq<Value>> := [];
    for i := 0 to |page|
      invariant |rows| == i
      invariant forall k :: 0 <= k < i ==>
                  FitsScopes(scopes, RowOf(sides, page[k])) && rows[k] == Project(query.columns, scopes, RowOf(sides, page[k]), |scopes|)
    {
      var values := MaterializeRow(sides, query.columns, page[i]);
      rows := rows + [values];
    }
    set_ := ResultSet(Header(query.columns, scopes, |scopes|), rows);
  }

  /**
   The join query. It fails on the first unknown table, then on a filter that
   the schemas reject, then on the first joined row the filter cannot evaluate;
   otherwise it returns the projection of the filtered, ordered and cut
   nested-loop joins of the complete tables.
   */
  method Execute(db: Database, from: string, query: Query, compare: Compare<Value>) returns (r: Result<ResultSet, JoinError>)
    requires ValidDatabase(db) && TotalPreorder(compare)
    ensures var unknown := UnknownTable(db, from, query.joins);
            if unknown.Some? then r == Err(TableNotFound(unknown.value))
            else
              var scopes := Scopes(db, from, query.joins);
              if query.filter.Some? && query.filter.value.validate(scopes).Some?
              then r == Err(query.filter.value.validate(scopes).value)
              else match ReferenceRows(db, from, query, compare)
                   case Err(error) => r == Err(error)
                   case Ok(rows) => r.Ok? && IsProjection(query, scopes, rows, r.value)
  {
    var unknown := UnknownTable(db, from, query.joins);
    if unknown.Some? {
      return Err(TableNotFound(unknown.value));
    }
    var scopes := Scopes(db, from, query.joins);
    if query.filter.Some? {
      var invalid := query.filter.value.validate(scopes);
      if invalid.Some? {
        return Err(invalid.value);
      }
    }
    var sides, rows := JoinTables(db, from, query.joins);
    var filtered := FilterRefs(query, sides, rows);
    if filtered.Err? {
      return Err(filtered.error);
    }
    var sorted := SortRows(filtered.value, RefOrder(sides, compare), query.orderBy);
    var page := CutPage(sorted, query.offset, query.limit);
    SortedPageAgrees(sides, filtered.value, compare, query.orderBy, OrZero(query.offset), query.limit);
    PageIsValid(sides, filtered.value, ByKeys(RefOrder(sides, compare), query.orderBy), OrZero(query.offset), query.limit);
    var set_ := MaterializeRows(sides, query, page);
    return Ok(set_);
  }
}
