/**
 The hash join of the join engine. Joined rows are tuples of row indexes, one
 per table; the method that builds and probes the hash table is proved equal,
 row for row, to the nested-loop join on these tuples, and the tuples are shown
 to stand for the nested-loop join of the rows themselves.
 */
module HashJoins {
  import opened Wrappers
  import opened Sequences
  import opened Values

  /** One side of a join: a table name, its columns, and the rows loaded for it. */
  datatype Side = Side(table: string, columns: seq<string>, rows: seq<Row>) {
    /** What a reference to this side stands for: one of its rows, or nulls where there is none. */
    function RowAt(index: Option<nat>): (row: Row)
      requires index.Some? ==> index.value < |rows|
    {
      if index.None? then NullRow(|columns|) else rows[index.value]
    }
  }

  /** One entry per side: the index of its row, or `None` for a padded side. */
  type RowRef = seq<Option<nat>>

  /** Side index and column index of a join key. */
  type KeyPosition = (nat, nat)

  /** Every row has one value per column. */
  predicate ValidSide(side: Side) {
    forall j :: 0 <= j < |side.rows| ==> |side.rows[j]| == |side.columns|
  }

  predicate ValidSides(sides: seq<Side>) {
    forall s :: 0 <= s < |sides| ==> ValidSide(sides[s])
  }

  /** Every reference has one entry per side and every index is in bounds. */
  predicate ValidRef(sides: seq<Side>, row: RowRef) {
    && |row| == |sides|
    && forall s :: 0 <= s < |sides| ==> row[s].Some? ==> row[s].value < |sides[s].rows|
  }

  predicate ValidRefs(sides: seq<Side>, rows: seq<RowRef>) {
    forall i :: 0 <= i < |rows| ==> ValidRef(sides, rows[i])
  }

  predicate ValidKey(sides: seq<Side>, key: Option<KeyPosition>) {
    key.Some? ==> key.value.0 < |sides| && key.value.1 < |sides[key.value.0].columns|
  }

  predicate ValidColumn(side: Side, column: Option<nat>) {
    column.Some? ==> column.value < |side.columns|
  }

  // ----- The nested-loop join of rows

  /** One row per side, nulls for a padded side. */
  type JoinedRow = seq<Row>

  /** The join key of a joined row, unless it is absent or null. */
  function KeyOfJoined(row: JoinedRow, key: Option<KeyPosition>): Option<Value> {
    if key.None? || key.value.0 >= |row| || key.value.1 >= |row[key.value.0]| then None
    else NonNull(row[key.value.0][key.value.1])
  }

  function KeyOfRow(row: Row, column: Option<nat>): Option<Value> {
    if column.None? || column.value >= |row| then None else NonNull(row[column.value])
  }

  /** Two rows match when both keys are present, not null and equal. */
  predicate Matches(left: JoinedRow, key: Option<KeyPosition>, right: Row, column: Option<nat>) {
    KeyOfJoined(left, key).Some? && KeyOfRow(right, column) == KeyOfJoined(left, key)
  }

  /** The rows of the right table that match, in table order. */
  function MatchingRows(left: JoinedRow, key: Option<KeyPosition>, right: seq<Row>, column: Option<nat>): seq<Row> {
    if right == [] then []
    else
      var init, last := right[..|right| - 1], right[|right| - 1];
      MatchingRows(left, key, init, column) + if Matches(left, key, last, column) then [last] else []
  }

  function Extend<T>(row: seq<T>, entries: seq<T>): (rows: seq<seq<T>>)
    ensures |rows| == |entries|
  {
    seq(|entries|, i requires 0 <= i < |entries| => row + [entries[i]])
  }

  /** What one left row contributes: its matches in right order, or itself padded when kept. */
  function JoinOne(left: JoinedRow, key: Option<KeyPosition>, right: seq<Row>, width: nat, column: Option<nat>,
                   keepLeft: bool): seq<JoinedRow> {
    var matching := MatchingRows(left, key, right, column);
    if matching == [] then if keepLeft then [left + [NullRow(width)]] else []
    else Extend(left, matching)
  }

  function JoinAll(left: seq<JoinedRow>, key: Option<KeyPosition>, right: seq<Row>, width: nat, column: Option<nat>,
                   keepLeft: bool): seq<JoinedRow> {
    if left == [] then []
    else JoinAll(left[..|left| - 1], key, right, width, column, keepLeft)
         + JoinOne(left[|left| - 1], key, right, width, column, keepLeft)
  }

  predicate MatchesAny(left: seq<JoinedRow>, key: Option<KeyPosition>, right: Row, column: Option<nat>) {
    exists i :: 0 <= i < |left| && Matches(left[i], key, right, column)
  }

  /** The right rows that no left row matches, in table order, after `padding`. */
  function UnmatchedRight(left: seq<JoinedRow>, padding: JoinedRow, key: Option<KeyPosition>, right: seq<Row>,
                          column: Option<nat>): seq<JoinedRow> {
    if right == [] then []
    else
      var init, last := right[..|right| - 1], right[|right| - 1];
      UnmatchedRight(left, padding, key, init, column)
      + if MatchesAny(left, key, last, column) then [] else [padding + [last]]
  }

  function NestedLoop(left: seq<JoinedRow>, padding: JoinedRow, key: Option<KeyPosition>, right: seq<Row>, width: nat,
                      column: Option<nat>, keepLeft: bool, keepRight: bool): seq<JoinedRow> {
    JoinAll(left, key, right, width, column, keepLeft)
    + if keepRight then UnmatchedRight(left, padding, key, right, column) else []
  }

  // ----- The nested-loop join of references

  function LeftKey(sides: seq<Side>, row: RowRef, key: Option<KeyPosition>): Option<Value>
    requires ValidKey(sides, key) && ValidRef(sides, row) && ValidSides(sides)
  {
    if key.None? then None
    else match row[key.value.0]
      case None => None
      case Some(index) =>
        assert ValidSide(sides[key.value.0]);
        NonNull(sides[key.value.0].rows[index][key.value.1])
  }

  /** The first `count` row indexes whose key is `value`, ascending. */
  function IndexesOf(side: Side, column: nat, value: Value, count: nat): (indexes: seq<nat>)
    requires ValidSide(side) && column < |side.columns| && count <= |side.rows|
    ensures forall j: nat :: j in indexes <==> j < count && side.rows[j][column] == value
  {
    if count == 0 then []
    else IndexesOf(side, column, value, count - 1)
         + if side.rows[count - 1][column] == value then [count - 1] else []
  }

  /** The indexes of the right rows that match a reference, ascending. */
  function MatchIndexes(sides: seq<Side>, row: RowRef, key: Option<KeyPosition>, right: Side, column: Option<nat>): (indexes: seq<nat>)
    requires ValidSides(sides) && ValidSide(right) && ValidKey(sides, key) && ValidRef(sides, row) && ValidColumn(right, column)
    ensures forall k :: 0 <= k < |indexes| ==> indexes[k] in indexes && indexes[k] < |right.rows|
  {
    var value := LeftKey(sides, row, key);
    if value.None? || column.None? then []
    else
      var indexes := IndexesOf(right, column.value, value.value, |right.rows|);
      assert forall k :: 0 <= k < |indexes| ==> indexes[k] in indexes;
      indexes
  }

  function SomeIndexes(indexes: seq<nat>): (entries: seq<Option<nat>>)
    ensures |entries| == |indexes|
  {
    seq(|indexes|, k requires 0 <= k < |indexes| => Some(indexes[k]))
  }

  function RefJoinOne(sides: seq<Side>, row: RowRef, key: Option<KeyPosition>, right: Side, column: Option<nat>,
                      keepLeft: bool): seq<RowRef>
    requires ValidSides(sides) && ValidSide(right) && ValidKey(sides, key) && ValidRef(sides, row) && ValidColumn(right, column)
  {
    var indexes := MatchIndexes(sides, row, key, right, column);
    if indexes == [] then if keepLeft then [row + [None]] else []
    else Extend(row, SomeIndexes(indexes))
  }

  function RefJoinAll(sides: seq<Side>, rows: seq<RowRef>, key: Option<KeyPosition>, right: Side, column: Option<nat>,
                      keepLeft: bool): seq<RowRef>
    requires ValidSides(sides) && ValidSide(right) && ValidKey(sides, key) && ValidRefs(sides, rows) && ValidColumn(right, column)
  {
    if rows == [] then []
    else RefJoinAll(sides, rows[..|rows| - 1], key, right, column, keepLeft)
         + RefJoinOne(sides, rows[|rows| - 1], key, right, column, keepLeft)
  }

  /** A reference whose sides are all padded. */
  function EmptyRef(width: nat): (row: RowRef)
    ensures |row| == width
  {
    seq(width, _ => None)
  }

  predicate RefMatched(sides: seq<Side>, rows: seq<RowRef>, key: Option<KeyPosition>, right: Side, column: Option<nat>, index: nat)
    requires ValidSides(sides) && ValidSide(right) && ValidKey(sides, key) && ValidRefs(sides, rows) && ValidColumn(right, column)
  {
    exists i :: 0 <= i < |rows| && index in MatchIndexes(sides, rows[i], key, right, column)
  }

  function RefUnmatched(sides: seq<Side>, rows: seq<RowRef>, key: Option<KeyPosition>, right: Side, column: Option<nat>,
                        count: nat): seq<RowRef>
    requires ValidSides(sides) && ValidSide(right) && ValidKey(sides, key) && ValidRefs(sides, rows) && ValidColumn(right, column)
    requires count <= |right.rows|
  {
    if count == 0 then []
    else RefUnmatched(sides, rows, key, right, column, count - 1)
         + if RefMatched(sides, rows, key, right, column, count - 1) then []
           else [EmptyRef(|sides|) + [Some(count - 1)]]
  }

  function RefJoin(sides: seq<Side>, rows: seq<RowRef>, key: Option<KeyPosition>, right: Side, column: Option<nat>,
                   keepLeft: bool, keepRight: bool): seq<RowRef>
    requires ValidSides(sides) && ValidSide(right) && ValidKey(sides, key) && ValidRefs(sides, rows) && ValidColumn(right, column)
  {
    RefJoinAll(sides, rows, key, right, column, keepLeft)
    + if keepRight then RefUnmatched(sides, rows, key, right, column, |right.rows|) else []
  }

  // ----- The hash join

  /** What the hash table holds for one key: the indexes of its rows so far, or nothing. */
  ghost predicate Bucket(build: map<Value, seq<nat>>, side: Side, column: nat, count: nat, value: Value)
    requires ValidSide(side) && column < |side.columns| && count <= |side.rows|
  {
    if value != Null && value in build
    then build[value] == IndexesOf(side, column, value, count) && build[value] != []
    else value !in build && (value != Null ==> IndexesOf(side, column, value, count) == [])
  }

  /** The hash table over the first `count` right rows: for each non-null key its row indexes in order. */
  ghost predicate BuiltFrom(build: map<Value, seq<nat>>, side: Side, column: nat, count: nat)
    requires ValidSide(side) && column < |side.columns| && count <= |side.rows|
  {
    forall value: Value :: Bucket(build, side, column, count, value)
  }

  /** The table after one more right row. */
  function Insert(build: map<Value, seq<nat>>, value: Value, j: nat): map<Value, seq<nat>> {
    if value.Null? then build
    else build[value := (if value in build then build[value] else []) + [j]]
  }

  lemma BuildStep(build: map<Value, seq<nat>>, side: Side, column: nat, j: nat)
    requires ValidSide(side) && column < |side.columns| && j < |side.rows| && BuiltFrom(build, side, column, j)
    ensures BuiltFrom(Insert(build, side.rows[j][column], j), side, column, j + 1)
  {
    var next, count := Insert(build, side.rows[j][column], j), j + 1;
    forall value: Value
      ensures Bucket(next, side, column, count, value)
    {
      assert Bucket(build, side, column, j, value);
    }
  }

  method BuildTable(side: Side, column: Option<nat>) returns (build: map<Value, seq<nat>>)
    requires ValidSide(side) && ValidColumn(side, column)
    ensures column.None? ==> build == map[]
    ensures column.Some? ==> BuiltFrom(build, side, column.value, |side.rows|)
  {
    build := map[];
    if column.Some? {
      BuiltFromNothing(side, column.value);
      for j := 0 to |side.rows|
        invariant BuiltFrom(build, side, column.value, j)
      {
        BuildStep(build, side, column.value, j);
        build := Insert(build, side.rows[j][column.value], j);
      }
    }
  }

  lemma BuiltFromNothing(side: Side, column: nat)
    requires ValidSide(side) && column < |side.columns|
    ensures BuiltFrom(map[], side, column, 0)
  {
    forall value: Value
      ensures Bucket(map[], side, column, 0, value)
    {
    }
  }

  // Probing the table finds exactly the matching indexes.
  lemma ProbeFinds(sides: seq<Side>, row: RowRef, key: Option<KeyPosition>, right: Side, column: Option<nat>,
                   build: map<Value, seq<nat>>)
    requires ValidSides(sides) && ValidSide(right) && ValidKey(sides, key) && ValidRef(sides, row) && ValidColumn(right, column)
    requires column.None? ==> build == map[]
    requires column.Some? ==> BuiltFrom(build, right, column.value, |right.rows|)
    ensures var value := LeftKey(sides, row, key);
            MatchIndexes(sides, row, key, right, column)
              == if value.Some? && value.value in build then build[value.value] else []
  {
    var value := LeftKey(sides, row, key);
    if value.Some? && column.Some? {
      assert Bucket(build, right, column.value, |right.rows|, value.value);
    }
  }

  /** Emits one row per found index and marks the right rows. */
  method EmitMatches(row: RowRef, found: seq<nat>, marks: seq<bool>) returns (results: seq<RowRef>, matched: seq<bool>)
    requires forall k :: 0 <= k < |found| ==> found[k] < |marks|
    ensures results == Extend(row, SomeIndexes(found))
    ensures |matched| == |marks|
    ensures forall j: nat :: j < |marks| ==> matched[j] == (marks[j] || j in found)
  {
    results, matched := [], marks;
    for k := 0 to |found|
      invariant |matched| == |marks|
      invariant results == Extend(row, SomeIndexes(found))[..k]
      invariant forall j: nat :: j < |matched| ==> matched[j] == (marks[j] || j in found[..k])
    {
      assert found[..k + 1] == found[..k] + [found[k]];
      results := results + [row + [Some(found[k])]];
      matched := matched[found[k] := true];
    }
    assert found[..|found|] == found;
  }

  /** Emits the right rows without a match, padded on the left. */
  method EmitUnmatched(sides: seq<Side>, rows: seq<RowRef>, key: Option<KeyPosition>, right: Side, column: Option<nat>,
                       matched: seq<bool>) returns (results: seq<RowRef>)
    requires ValidSides(sides) && ValidSide(right) && ValidKey(sides, key) && ValidRefs(sides, rows) && ValidColumn(right, column)
    requires |matched| == |right.rows|
    requires forall j: nat :: j < |matched| ==> matched[j] == RefMatched(sides, rows, key, right, column, j)
    ensures results == RefUnmatched(sides, rows, key, right, column, |right.rows|)
  {
    results := [];
    for j := 0 to |matched|
      invariant results == RefUnmatched(sides, rows, key, right, column, j)
    {
      if !matched[j] {
        results := results + [EmptyRef(|sides|) + [Some(j)]];
      }
    }
  }

  /** Probes the table with one left row. */
  method ProbeRow(sides: seq<Side>, row: RowRef, key: Option<KeyPosition>, right: Side, column: Option<nat>,
                  build: map<Value, seq<nat>>, keepLeft: bool, marks: seq<bool>)
    returns (results: seq<RowRef>, matched: seq<bool>)
    requires ValidSides(sides) && ValidSide(right) && ValidKey(sides, key) && ValidRef(sides, row) && ValidColumn(right, column)
    requires column.None? ==> build == map[]
    requires column.Some? ==> BuiltFrom(build, right, column.value, |right.rows|)
    requires |marks| == |right.rows|
    ensures results == RefJoinOne(sides, row, key, right, column, keepLeft)
    ensures |matched| == |marks|
    ensures forall j: nat :: j < |marks| ==> matched[j] == (marks[j] || j in MatchIndexes(sides, row, key, right, column))
  {
    ProbeFinds(sides, row, key, right, column, build);
    var value := LeftKey(sides, row, key);
    if value.Some? && value.value in build {
      assert Bucket(build, right, column.value, |right.rows|, value.value);
      results, matched := EmitMatches(row, build[value.value], marks);
    } else {
      results, matched := if keepLeft then [row + [None]] else [], marks;
    }
  }

  /** The state of the probe loop after the left rows `rows`. */
  ghost predicate Probed(sides: seq<Side>, rows: seq<RowRef>, key: Option<KeyPosition>, right: Side, column: Option<nat>,
                         keepLeft: bool, results: seq<RowRef>, matched: seq<bool>)
    requires ValidSides(sides) && ValidSide(right) && ValidKey(sides, key) && ValidColumn(right, column)
  {
    && ValidRefs(sides, rows)
    && results == RefJoinAll(sides, rows, key, right, column, keepLeft)
    && |matched| == |right.rows|
    && forall j: nat :: j < |matched| ==> matched[j] == RefMatched(sides, rows, key, right, column, j)
  }

  lemma ProbedStep(sides: seq<Side>, rows: seq<RowRef>, row: RowRef, key: Option<KeyPosition>, right: Side, column: Option<nat>,
                   keepLeft: bool, results: seq<RowRef>, matched: seq<bool>, emitted: seq<RowRef>, marked: seq<bool>)
    requires ValidSides(sides) && ValidSide(right) && ValidKey(sides, key) && ValidColumn(right, column)
    requires Probed(sides, rows, key, right, column, keepLeft, results, matched) && ValidRef(sides, row)
    requires emitted == RefJoinOne(sides, row, key, right, column, keepLeft) && |marked| == |matched|
    requires forall j: nat :: j < |marked| ==> marked[j] == (matched[j] || j in MatchIndexes(sides, row, key, right, column))
    ensures Probed(sides, rows + [row], key, right, column, keepLeft, results + emitted, marked)
  {
    assert ValidRefs(sides, rows + [row]);
    RefJoinStep(sides, rows, row, key, right, column, keepLeft);
    forall j: nat | j < |marked|
      ensures marked[j] == RefMatched(sides, rows + [row], key, right, column, j)
    {
      MatchedStep(sides, rows, row, key, right, column, j);
    }
  }

  /** The hash join returns, row for row, what the nested-loop join returns. */
  method HashJoin(sides: seq<Side>, rows: seq<RowRef>, key: Option<KeyPosition>, right: Side, column: Option<nat>,
                  keepLeft: bool, keepRight: bool) returns (results: seq<RowRef>)
    requires ValidSides(sides) && ValidSide(right) && ValidKey(sides, key) && ValidRefs(sides, rows) && ValidColumn(right, column)
    ensures results == RefJoin(sides, rows, key, right, column, keepLeft, keepRight)
  {
    var build := BuildTable(right, column);
    results := [];
    var matched: seq<bool> := seq(|right.rows|, _ => false);
    for i := 0 to |rows|
      invariant Probed(sides, rows[..i], key, right, column, keepLeft, results, matched)
    {
      var emitted, marked := ProbeRow(sides, rows[i], key, right, column, build, keepLeft, matched);
      ProbedStep(sides, rows[..i], rows[i], key, right, column, keepLeft, results, matched, emitted, marked);
      assert rows[..i + 1] == rows[..i] + [rows[i]];
      results, matched := results + emitted, marked;
    }
    assert rows[..|rows|] == rows;
    if keepRight {
      var unmatched := EmitUnmatched(sides, rows, key, right, column, matched);
      results := results + unmatched;
    }
  }

  lemma RefJoinStep(sides: seq<Side>, rows: seq<RowRef>, row: RowRef, key: Option<KeyPosition>, right: Side,
                    column: Option<nat>, keepLeft: bool)
    requires ValidSides(sides) && ValidSide(right) && ValidKey(sides, key) && ValidRefs(sides, rows + [row]) && ValidColumn(right, column)
    ensures ValidRefs(sides, rows) && ValidRef(sides, row)
    ensures RefJoinAll(sides, rows + [row], key, right, column, keepLeft)
         == RefJoinAll(sides, rows, key, right, column, keepLeft) + RefJoinOne(sides, row, key, right, column, keepLeft)
  {
    var all := rows + [row];
    assert all[|rows|] == row && all[..|rows|] == rows;
    assert forall i :: 0 <= i < |rows| ==> all[i] == rows[i];
  }

  lemma MatchedStep(sides: seq<Side>, rows: seq<RowRef>, row: RowRef, key: Option<KeyPosition>, right: Side,
                    column: Option<nat>, index: nat)
    requires ValidSides(sides) && ValidSide(right) && ValidKey(sides, key) && ValidRefs(sides, rows + [row]) && ValidColumn(right, column)
    ensures ValidRefs(sides, rows) && ValidRef(sides, row)
    ensures RefMatched(sides, rows + [row], key, right, column, index)
         == (RefMatched(sides, rows, key, right, column, index) || index in MatchIndexes(sides, row, key, right, column))
  {
    var all := rows + [row];
    assert all[|rows|] == row;
    assert forall i :: 0 <= i < |rows| ==> all[i] == rows[i];
  }
}
