/** Filters over one row, given as column names with their values. */
module Filters {
  import opened Wrappers
  import opened Values

  /** The columns of a row in order, with their values. */
  type NamedRow = seq<(string, Value)>

  /** The filters that cannot fail; pattern and JSON filters are not among them. */
  datatype Filter =
    | Eq(column: string, value: Value)
    | Ne(column: string, value: Value)
    | Gt(column: string, value: Value)
    | Lt(column: string, value: Value)
    | Ge(column: string, value: Value)
    | Le(column: string, value: Value)
    | In(column: string, list: seq<Value>)
    | IsNull(column: string)
    | NotNull(column: string)
    | And(left: Filter, right: Filter)
    | Or(left: Filter, right: Filter)
    | Not(inner: Filter)

  /** The order of column values: whether the first is less than the second. */
  type Less = (Value, Value) -> bool

  /** Whether `value` satisfies a filter on one column. */
  predicate Admits(less: Less, filter: Filter, value: Value) {
    match filter
    case Eq(_, expected) => value == expected
    case Ne(_, expected) => value != expected
    case Gt(_, expected) => less(expected, value)
    case Lt(_, expected) => less(value, expected)
    case Ge(_, expected) => !less(value, expected)
    case Le(_, expected) => !less(expected, value)
    case In(_, list) => value in list
    case IsNull(_) => value.Null?
    case NotNull(_) => !value.Null?
    case _ => false
  }

  function Matches(less: Less, filter: Filter, row: NamedRow): bool {
    match filter
    case And(left, right) => Matches(less, left, row) && Matches(less, right, row)
    case Or(left, right) => Matches(less, left, row) || Matches(less, right, row)
    case Not(inner) => !Matches(less, inner, row)
    case _ => exists k | 0 <= k < |row| :: row[k].0 == filter.column && Admits(less, filter, row[k].1)
  }

  /** Every column that `filter` mentions. */
  function FilterColumns(filter: Filter): set<string> {
    match filter
    case And(left, right) => FilterColumns(left) + FilterColumns(right)
    case Or(left, right) => FilterColumns(left) + FilterColumns(right)
    case Not(inner) => FilterColumns(inner)
    case _ => {filter.column}
  }

  /** Whether two rows have the same cells in `columns`. */
  ghost predicate SameCells(columns: set<string>, a: NamedRow, b: NamedRow) {
    forall cell: (string, Value) :: cell.0 in columns ==> (cell in a <==> cell in b)
  }

  lemma LeafSeesCells(less: Less, filter: Filter, row: NamedRow)
    requires !filter.And? && !filter.Or? && !filter.Not?
    ensures Matches(less, filter, row)
       <==> exists cell :: cell in row && cell.0 == filter.column && Admits(less, filter, cell.1)
  {
    if Matches(less, filter, row) {
      var k :| 0 <= k < |row| && row[k].0 == filter.column && Admits(less, filter, row[k].1);
      assert row[k] in row;
    }
    if cell :| cell in row && cell.0 == filter.column && Admits(less, filter, cell.1) {
      var k :| 0 <= k < |row| && row[k] == cell;
    }
  }

  /** A filter looks only at the columns it mentions. */
  lemma {:induction false} MatchesSeesItsColumns(less: Less, filter: Filter, a: NamedRow, b: NamedRow)
    requires SameCells(FilterColumns(filter), a, b)
    ensures Matches(less, filter, a) == Matches(less, filter, b)
  {
    match filter
    case And(left, right) =>
      MatchesSeesItsColumns(less, left, a, b);
      MatchesSeesItsColumns(less, right, a, b);
    case Or(left, right) =>
      MatchesSeesItsColumns(less, left, a, b);
      MatchesSeesItsColumns(less, right, a, b);
    case Not(inner) => MatchesSeesItsColumns(less, inner, a, b);
    case _ =>
      LeafSeesCells(less, filter, a);
      LeafSeesCells(less, filter, b);
  }

  // ----- What the filters say

  /** Values are ordered: exactly one of `a` before `b`, `a` equal to `b`, `b` before `a`. */
  ghost predicate StrictTotal(less: Less) {
    && (forall a :: !less(a, a))
    && (forall a, b :: a != b ==> (less(a, b) <==> !less(b, a)))
    && (forall a, b, c :: less(a, b) && less(b, c) ==> less(a, c))
  }

  /** Whether the row has the column once, with the value `x`. */
  ghost predicate HasCell(row: NamedRow, column: string, x: Value) {
    exists k :: 0 <= k < |row| && row[k] == (column, x) && forall j :: 0 <= j < |row| && j != k ==> row[j].0 != column
  }

  lemma LeafAdmits(less: Less, filter: Filter, row: NamedRow, x: Value)
    requires !filter.And? && !filter.Or? && !filter.Not? && HasCell(row, filter.column, x)
    ensures Matches(less, filter, row) <==> Admits(less, filter, x)
  {
    var k :| 0 <= k < |row| && row[k] == (filter.column, x) && forall j :: 0 <= j < |row| && j != k ==> row[j].0 != filter.column;
    assert row[k].0 == filter.column;
  }

  /** What each filter on one column says of a row whose cell there is `x`. */
  lemma LeafLaws(less: Less, row: NamedRow, column: string, x: Value, v: Value, list: seq<Value>)
    requires HasCell(row, column, x)
    ensures Matches(less, Eq(column, v), row) <==> x == v
    ensures Matches(less, Ne(column, v), row) <==> x != v
    ensures Matches(less, Lt(column, v), row) <==> less(x, v)
    ensures Matches(less, Gt(column, v), row) <==> less(v, x)
    ensures Matches(less, Le(column, v), row) <==> !less(v, x)
    ensures Matches(less, Ge(column, v), row) <==> !less(x, v)
    ensures Matches(less, In(column, list), row) <==> exists i :: 0 <= i < |list| && list[i] == x
    ensures Matches(less, IsNull(column), row) <==> x == Null
    ensures Matches(less, NotNull(column), row) <==> x != Null
  {
    hide Matches, HasCell;
    LeafAdmits(less, Eq(column, v), row, x);
    LeafAdmits(less, Ne(column, v), row, x);
    LeafAdmits(less, Lt(column, v), row, x);
    LeafAdmits(less, Gt(column, v), row, x);
    LeafAdmits(less, Le(column, v), row, x);
    LeafAdmits(less, Ge(column, v), row, x);
    LeafAdmits(less, In(column, list), row, x);
    LeafAdmits(less, IsNull(column), row, x);
    LeafAdmits(less, NotNull(column), row, x);
  }

  /** With ordered values exactly one of less, equal and greater holds, and the other filters are made of them. */
  lemma OrderLaws(less: Less, row: NamedRow, column: string, x: Value, v: Value, list: seq<Value>)
    requires StrictTotal(less) && HasCell(row, column, x)
    ensures var lt, eq, gt := Matches(less, Lt(column, v), row), Matches(less, Eq(column, v), row), Matches(less, Gt(column, v), row);
            && (lt || eq || gt) && !(lt && eq) && !(lt && gt) && !(eq && gt)
            && (Matches(less, Le(column, v), row) <==> lt || eq)
            && (Matches(less, Ge(column, v), row) <==> gt || eq)
            && (Matches(less, Ne(column, v), row) <==> !eq)
    ensures Matches(less, In(column, list), row) <==> exists i :: 0 <= i < |list| && Matches(less, Eq(column, list[i]), row)
    ensures Matches(less, IsNull(column), row) <==> Matches(less, Eq(column, Null), row)
    ensures Matches(less, NotNull(column), row) <==> !Matches(less, IsNull(column), row)
  {
    hide Matches, HasCell;
    LeafLaws(less, row, column, x, v, list);
    LeafLaws(less, row, column, x, Null, list);
    forall i | 0 <= i < |list|
      ensures Matches(less, Eq(column, list[i]), row) <==> list[i] == x
    {
      LeafLaws(less, row, column, x, list[i], list);
    }
  }

  /** No filter on a column matches a row without it, whatever it asks for. */
  lemma MissingColumn(less: Less, filter: Filter, row: NamedRow)
    requires !filter.And? && !filter.Or? && !filter.Not?
    requires forall k :: 0 <= k < |row| ==> row[k].0 != filter.column
    ensures !Matches(less, filter, row)
  {
  }

  /** Conjunction, disjunction and complement. */
  lemma ConnectiveLaws(less: Less, left: Filter, right: Filter, row: NamedRow)
    ensures Matches(less, And(left, right), row) <==> Matches(less, left, row) && Matches(less, right, row)
    ensures Matches(less, Or(left, right), row) <==> Matches(less, left, row) || Matches(less, right, row)
    ensures Matches(less, Not(left), row) <==> !Matches(less, left, row)
  {
  }

  // ----- Rows

  /** The value of the first cell named `column`. */
  function Lookup(row: NamedRow, column: string): (value: Option<Value>)
    ensures value.Some? ==> (column, value.value) in row
    ensures value.None? ==> forall v :: (column, v) !in row
  {
    if row == [] then None
    else if row[0].0 == column then Some(row[0].1)
    else Lookup(row[1..], column)
  }

  function CellOrNull(row: NamedRow, column: string): Value {
    match Lookup(row, column)
    case Some(value) => value
    case None => Null
  }

  /** The record that stores `values`: one cell per table column, NULL where `values` has none. */
  function Complete(columns: seq<string>, values: NamedRow): (row: NamedRow)
    ensures |row| == |columns|
    ensures forall k :: 0 <= k < |columns| ==> row[k] == (columns[k], CellOrNull(values, columns[k]))
  {
    seq(|columns|, k requires 0 <= k < |columns| => (columns[k], CellOrNull(values, columns[k])))
  }

  /** Whether `row` has exactly one cell per column, in column order. */
  ghost predicate FitsColumns(columns: seq<string>, row: NamedRow) {
    |row| == |columns| && forall k :: 0 <= k < |columns| ==> row[k].0 == columns[k]
  }

  lemma {:induction false} LookupAt(columns: seq<string>, row: NamedRow, k: nat)
    requires FitsColumns(columns, row) && k < |columns|
    requires forall j :: 0 <= j < k ==> columns[j] != columns[k]
    ensures Lookup(row, columns[k]) == Some(row[k].1)
    decreases k
  {
    if k > 0 {
      assert row[0].0 == columns[0];
      assert FitsColumns(columns[1..], row[1..]);
      LookupAt(columns[1..], row[1..], k - 1);
    }
  }

  /** Completing a row keeps the value of every table column. */
  lemma CompleteKeepsCells(columns: seq<string>, values: NamedRow, k: nat)
    requires k < |columns|
    ensures CellOrNull(Complete(columns, values), columns[k]) == CellOrNull(values, columns[k])
  {
    var j := FirstIndex(columns, k);
    LookupAt(columns, Complete(columns, values), j);
  }

  /** A completed row has exactly the given columns. */
  lemma LookupCompleted(columns: seq<string>, values: NamedRow, column: string)
    ensures Lookup(Complete(columns, values), column) == if column in columns then Some(CellOrNull(values, column)) else None
  {
    if k :| 0 <= k < |columns| && columns[k] == column {
      var j := FirstIndex(columns, k);
      LookupAt(columns, Complete(columns, values), j);
    }
    assert forall cell :: cell in Complete(columns, values) ==> cell.0 in columns;
  }

  lemma {:induction false} FirstIndex(columns: seq<string>, k: nat) returns (j: nat)
    requires k < |columns|
    ensures j <= k && columns[j] == columns[k] && forall i :: 0 <= i < j ==> columns[i] != columns[k]
    decreases k
  {
    if i :| 0 <= i < k && columns[i] == columns[k] {
      j := FirstIndex(columns, i);
    } else {
      j := k;
    }
  }
}
