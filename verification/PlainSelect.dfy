/**
 The order of a plain select. Columns are selected before the rows are sorted, so an
 order key on a column that is not selected finds no value and orders nothing: the rows
 returned are the stored rows sorted by the keys on selected columns.
 */
module PlainSelects {
  import opened Wrappers
  import opened Values
  import opened Sequences
  import opened Sorting
  import opened Filters
  import opened TableIndexes
  import opened Pagination
  import opened CoveringReads

  /** A column of a row by name, as the sort looks it up; missing after selection. */
  function CellOrder(compare: Compare<Value>): Order<NamedRow, string, Value> {
    Order((row: NamedRow, column: string) => Lookup(row, column), compare)
  }

  /** Keeps the selected columns of a row; all of them without a selection. */
  function Selection(selected: Option<seq<string>>): NamedRow -> NamedRow {
    row => match selected case None => row case Some(columns) => Retain(row, columns)
  }

  predicate IsSelected(selected: Option<seq<string>>, column: string) {
    selected.Some? ==> column in selected.value
  }

  /** The order keys whose columns are selected. */
  function EffectiveKeys(keys: Keys<string>, selected: Option<seq<string>>): Keys<string> {
    if keys == [] then []
    else (if IsSelected(selected, keys[0].0) then [keys[0]] else []) + EffectiveKeys(keys[1..], selected)
  }

  lemma {:induction false} LookupRetained(row: NamedRow, columns: seq<string>, column: string)
    ensures Lookup(Retain(row, columns), column) == if column in columns then Lookup(row, column) else None
  {
    if row != [] {
      LookupRetained(row[1..], columns, column);
      var rest := Retain(row[1..], columns);
      if row[0].0 in columns {
        assert ([row[0]] + rest)[1..] == rest;
      } else {
        assert [] + rest == rest;
      }
    }
  }

  lemma LookupSelected(row: NamedRow, selected: Option<seq<string>>, column: string)
    ensures Lookup(Selection(selected)(row), column) == if IsSelected(selected, column) then Lookup(row, column) else None
  {
    if selected.Some? {
      LookupRetained(row, selected.value, column);
    }
  }

  lemma KeyCompare(compare: Compare<Value>, key: (string, Direction), x: NamedRow, y: NamedRow)
    ensures ByKey(CellOrder(compare), key)(x, y) == SortValues(compare, Lookup(x, key.0), Lookup(y, key.0), key.1)
  {
    var order := CellOrder(compare);
    assert order.value(x, key.0) == Lookup(x, key.0) && order.value(y, key.0) == Lookup(y, key.0);
  }

  // Two rows after selection compare like the rows before it by the effective keys.
  lemma {:induction false} SelectedCompare(compare: Compare<Value>, keys: Keys<string>, selected: Option<seq<string>>, x: NamedRow, y: NamedRow)
    ensures Lexicographic(CellOrder(compare), keys, Selection(selected)(x), Selection(selected)(y))
         == Lexicographic(CellOrder(compare), EffectiveKeys(keys, selected), x, y)
    decreases |keys|
  {
    if keys != [] {
      LookupSelected(x, selected, keys[0].0);
      LookupSelected(y, selected, keys[0].0);
      KeyCompare(compare, keys[0], Selection(selected)(x), Selection(selected)(y));
      KeyCompare(compare, keys[0], x, y);
      SelectedCompare(compare, keys[1..], selected, x, y);
      var rest := EffectiveKeys(keys[1..], selected);
      if IsSelected(selected, keys[0].0) {
        assert ([keys[0]] + rest)[1..] == rest;
      } else {
        assert [] + rest == rest;
      }
    }
  }

  /** Sorting selected rows by all keys is selecting from the stored rows sorted by the effective keys. */
  lemma SelectThenSort(rows: seq<NamedRow>, selected: Option<seq<string>>, compare: Compare<Value>, keys: Keys<string>)
    ensures StableSort(Map(Selection(selected), rows), ByKeys(CellOrder(compare), keys))
         == Map(Selection(selected), StableSort(rows, ByKeys(CellOrder(compare), EffectiveKeys(keys, selected))))
  {
    var before, after := ByKeys(CellOrder(compare), EffectiveKeys(keys, selected)), ByKeys(CellOrder(compare), keys);
    var shown := Map(Selection(selected), rows);
    forall i, j | 0 <= i < |rows| && 0 <= j < |rows|
      ensures before(rows[i], rows[j]) == after(shown[i], shown[j])
    {
      SelectedCompare(compare, keys, selected, rows[i], rows[j]);
    }
    assert CompareAlike(rows, before, shown, after);
    SortCommutes(Selection(selected), rows, before, after);
  }

  function TwoRows(high: Value, low: Value, x: Value, y: Value): (rows: seq<NamedRow>)
    ensures |rows| == 2
  {
    [[("a", high), ("b", x)], [("a", low), ("b", y)]]
  }

  const BY_A: Keys<string> := [("a", Ascending)]
  const ONLY_B: Option<seq<string>> := Some(["b"])

  lemma SelectedTwoRows(high: Value, low: Value, x: Value, y: Value)
    ensures Map(Selection(ONLY_B), TwoRows(high, low, x, y)) == [[("b", x)], [("b", y)]]
    ensures Map(Selection(ONLY_B), [TwoRows(high, low, x, y)[1], TwoRows(high, low, x, y)[0]]) == [[("b", y)], [("b", x)]]
  {
    RetainSecond(high, x);
    RetainSecond(low, y);
  }

  lemma NoEffectiveKey(compare: Compare<Value>, high: Value, low: Value, x: Value, y: Value)
    ensures StableSort(TwoRows(high, low, x, y), ByKeys(CellOrder(compare), EffectiveKeys(BY_A, ONLY_B))) == TwoRows(high, low, x, y)
  {
    assert BY_A[1..] == [] && EffectiveKeys(BY_A, ONLY_B) == [];
    SortOfTwo(TwoRows(high, low, x, y), ByKeys(CellOrder(compare), []));
  }

  lemma KeySwaps(compare: Compare<Value>, high: Value, low: Value, x: Value, y: Value)
    requires compare(high, low) > 0
    ensures StableSort(TwoRows(high, low, x, y), ByKeys(CellOrder(compare), BY_A))
         == [TwoRows(high, low, x, y)[1], TwoRows(high, low, x, y)[0]]
  {
    var rows := TwoRows(high, low, x, y);
    assert Lookup(rows[0], "a") == Some(high) && Lookup(rows[1], "a") == Some(low);
    KeyCompare(compare, BY_A[0], rows[0], rows[1]);
    SortOfTwo(rows, ByKeys(CellOrder(compare), BY_A));
  }

  /** Two rows ordered by an unselected column keep their stored order, although sorting them first would swap them. */
  lemma UnselectedKeyIsIgnored(compare: Compare<Value>, high: Value, low: Value, x: Value, y: Value)
    requires compare(high, low) > 0
    ensures StableSort(Map(Selection(ONLY_B), TwoRows(high, low, x, y)), ByKeys(CellOrder(compare), BY_A)) == [[("b", x)], [("b", y)]]
    ensures Map(Selection(ONLY_B), StableSort(TwoRows(high, low, x, y), ByKeys(CellOrder(compare), BY_A))) == [[("b", y)], [("b", x)]]
  {
    hide StableSort, EffectiveKeys, TwoRows;
    SelectThenSort(TwoRows(high, low, x, y), ONLY_B, compare, BY_A);
    NoEffectiveKey(compare, high, low, x, y);
    KeySwaps(compare, high, low, x, y);
    SelectedTwoRows(high, low, x, y);
  }

  lemma RetainSecond(a: Value, b: Value)
    ensures Retain([("a", a), ("b", b)], ["b"]) == [("b", b)]
  {
    var row: NamedRow := [("a", a), ("b", b)];
    assert row[1..] == [("b", b)] && row[1..][1..] == [];
    assert Retain(row[1..], ["b"]) == [("b", b)];
  }

  lemma IndexesOfTwo<R>(rows: seq<R>, compare: Compare<R>)
    requires |rows| == 2
    ensures SortedIndexes(rows, compare, 2) == if compare(rows[0], rows[1]) > 0 then [1, 0] else [0, 1]
  {
    assert SortedIndexes(rows, compare, 0) == [];
    assert SortedIndexes(rows, compare, 1) == [0];
    assert [0][1..] == [];
  }

  lemma SortOfTwo<R>(rows: seq<R>, compare: Compare<R>)
    requires |rows| == 2
    ensures StableSort(rows, compare) == if compare(rows[0], rows[1]) > 0 then [rows[1], rows[0]] else rows
  {
    IndexesOfTwo(rows, compare);
  }

  // ----- Exactly when a select is ordered by all its keys

  /** Whether the selected rows come in the order of the stored rows by all keys. */
  ghost predicate InKeyOrder(selected: Option<seq<string>>, compare: Compare<Value>, keys: Keys<string>, rows: seq<NamedRow>) {
    SortedIndexes(Map(Selection(selected), rows), ByKeys(CellOrder(compare), keys), |rows|)
    == SortedIndexes(rows, ByKeys(CellOrder(compare), keys), |rows|)
  }

  ghost predicate FitTable(columns: seq<string>, rows: seq<NamedRow>) {
    forall i :: 0 <= i < |rows| ==> FitsColumns(columns, rows[i])
  }

  /** Whether the order columns that the table has are selected. */
  predicate KeysSelected(columns: seq<string>, selected: Option<seq<string>>, keys: Keys<string>) {
    forall k | 0 <= k < |keys| :: keys[k].0 in columns ==> IsSelected(selected, keys[k].0)
  }

  lemma OnlyTableColumns(columns: seq<string>, row: NamedRow, column: string)
    requires FitsColumns(columns, row) && column !in columns
    ensures Lookup(row, column) == None
  {
    assert forall cell :: cell in row ==> cell.0 in columns;
  }

  // With the table's order columns selected, two rows compare as before selection.
  lemma {:induction false} KeysSelectedCompare(columns: seq<string>, selected: Option<seq<string>>, compare: Compare<Value>,
                                               keys: Keys<string>, x: NamedRow, y: NamedRow)
    requires KeysSelected(columns, selected, keys) && FitsColumns(columns, x) && FitsColumns(columns, y)
    ensures Lexicographic(CellOrder(compare), keys, Selection(selected)(x), Selection(selected)(y))
         == Lexicographic(CellOrder(compare), keys, x, y)
    decreases |keys|
  {
    if keys != [] {
      var column := keys[0].0;
      LookupSelected(x, selected, column);
      LookupSelected(y, selected, column);
      if column !in columns {
        OnlyTableColumns(columns, x, column);
        OnlyTableColumns(columns, y, column);
      }
      KeyCompare(compare, keys[0], Selection(selected)(x), Selection(selected)(y));
      KeyCompare(compare, keys[0], x, y);
      assert forall k :: 0 <= k < |keys[1..]| ==> keys[1..][k] == keys[k + 1];
      KeysSelectedCompare(columns, selected, compare, keys[1..], x, y);
    }
  }

  lemma KeysSelectedAlike(columns: seq<string>, selected: Option<seq<string>>, compare: Compare<Value>, keys: Keys<string>,
                          rows: seq<NamedRow>)
    requires KeysSelected(columns, selected, keys) && FitTable(columns, rows)
    ensures var order := ByKeys(CellOrder(compare), keys); CompareAlike(rows, order, Map(Selection(selected), rows), order)
  {
    var order, shown := ByKeys(CellOrder(compare), keys), Map(Selection(selected), rows);
    forall i, j | 0 <= i < |rows| && 0 <= j < |rows|
      ensures order(rows[i], rows[j]) == order(shown[i], shown[j])
    {
      KeysSelectedCompare(columns, selected, compare, keys, rows[i], rows[j]);
    }
  }

  /** With the order columns of the table selected, the rows returned are the stored rows sorted by all keys. */
  lemma SelectedKeysSort(columns: seq<string>, rows: seq<NamedRow>, selected: Option<seq<string>>, compare: Compare<Value>,
                         keys: Keys<string>)
    requires KeysSelected(columns, selected, keys) && FitTable(columns, rows)
    ensures StableSort(Map(Selection(selected), rows), ByKeys(CellOrder(compare), keys))
         == Map(Selection(selected), StableSort(rows, ByKeys(CellOrder(compare), keys)))
  {
    var order := ByKeys(CellOrder(compare), keys);
    KeysSelectedAlike(columns, selected, compare, keys, rows);
    SortCommutes(Selection(selected), rows, order, order);
  }

  /** Two rows of a table that differ in one column only, the one that comes later by that key first. */
  function Swapped(columns: seq<string>, key: (string, Direction), high: Value, low: Value): (rows: seq<NamedRow>)
    ensures |rows| == 2 && FitsColumns(columns, rows[0]) && FitsColumns(columns, rows[1])
  {
    var (first, second) := if key.1.Ascending? then (high, low) else (low, high);
    [Complete(columns, [(key.0, first)]), Complete(columns, [(key.0, second)])]
  }

  lemma SwappedCells(columns: seq<string>, key: (string, Direction), high: Value, low: Value, column: string)
    requires key.0 in columns
    ensures var rows := Swapped(columns, key, high, low);
            if column == key.0
            then Lookup(rows[0], column) == Some(if key.1.Ascending? then high else low)
                 && Lookup(rows[1], column) == Some(if key.1.Ascending? then low else high)
            else Lookup(rows[0], column) == Lookup(rows[1], column)
  {
    var (first, second) := if key.1.Ascending? then (high, low) else (low, high);
    LookupCompleted(columns, [(key.0, first)], column);
    LookupCompleted(columns, [(key.0, second)], column);
  }

  lemma EqualCellsTie(compare: Compare<Value>, cell: Option<Value>, direction: Direction)
    requires TotalPreorder(compare)
    ensures SortValues(compare, cell, cell, direction) == 0
  {
    if cell.Some? {
      assert SameSign(compare(cell.value, cell.value), -compare(cell.value, cell.value));
    }
  }

  // By the keys up to the first on `key.0`, the first row comes after the second.
  lemma {:induction false} SwappedCompare(compare: Compare<Value>, columns: seq<string>, keys: Keys<string>, k: nat, high: Value, low: Value)
    requires TotalPreorder(compare) && compare(high, low) > 0 && k < |keys| && keys[k].0 in columns
    requires forall j :: 0 <= j < k ==> keys[j].0 != keys[k].0
    ensures var rows := Swapped(columns, keys[k], high, low); Lexicographic(CellOrder(compare), keys, rows[0], rows[1]) > 0
    decreases k
  {
    var rows := Swapped(columns, keys[k], high, low);
    SwappedCells(columns, keys[k], high, low, keys[0].0);
    KeyCompare(compare, keys[0], rows[0], rows[1]);
    if k > 0 {
      EqualCellsTie(compare, Lookup(rows[0], keys[0].0), keys[0].1);
      assert keys[1..][k - 1] == keys[k];
      SwappedCompare(compare, columns, keys[1..], k - 1, high, low);
    }
  }

  // After selection the two rows tie on every key.
  lemma {:induction false} SwappedTie(selected: Option<seq<string>>, compare: Compare<Value>, columns: seq<string>, keys: Keys<string>,
                                      key: (string, Direction), high: Value, low: Value)
    requires TotalPreorder(compare) && key.0 in columns && !IsSelected(selected, key.0)
    ensures var rows := Swapped(columns, key, high, low);
            Lexicographic(CellOrder(compare), keys, Selection(selected)(rows[0]), Selection(selected)(rows[1])) == 0
    decreases |keys|
  {
    if keys != [] {
      var rows := Swapped(columns, key, high, low);
      SwappedCells(columns, key, high, low, keys[0].0);
      LookupSelected(rows[0], selected, keys[0].0);
      LookupSelected(rows[1], selected, keys[0].0);
      KeyCompare(compare, keys[0], Selection(selected)(rows[0]), Selection(selected)(rows[1]));
      EqualCellsTie(compare, Lookup(Selection(selected)(rows[0]), keys[0].0), keys[0].1);
      SwappedTie(selected, compare, columns, keys[1..], key, high, low);
    }
  }

  lemma FirstKeyOn(keys: Keys<string>, k: nat) returns (first: nat)
    requires k < |keys|
    ensures first <= k && keys[first].0 == keys[k].0 && forall j :: 0 <= j < first ==> keys[j].0 != keys[k].0
  {
    first := 0;
    while keys[first].0 != keys[k].0
      invariant first <= k && forall j :: 0 <= j < first ==> keys[j].0 != keys[k].0
      decreases k - first
    {
      first := first + 1;
    }
  }

  lemma SelectedInOrder(columns: seq<string>, selected: Option<seq<string>>, compare: Compare<Value>, keys: Keys<string>,
                        rows: seq<NamedRow>)
    requires KeysSelected(columns, selected, keys) && FitTable(columns, rows)
    ensures InKeyOrder(selected, compare, keys, rows)
  {
    var order := ByKeys(CellOrder(compare), keys);
    KeysSelectedAlike(columns, selected, compare, keys, rows);
    SameIndexes(rows, order, Map(Selection(selected), rows), order, |rows|);
  }

  // Some two rows of the table lose their order if a table column to order by is not selected.
  lemma UnselectedKeyLosesOrder(columns: seq<string>, selected: Option<seq<string>>, compare: Compare<Value>, keys: Keys<string>,
                                k: nat, high: Value, low: Value)
    returns (rows: seq<NamedRow>)
    requires TotalPreorder(compare) && compare(high, low) > 0
    requires k < |keys| && keys[k].0 in columns && !IsSelected(selected, keys[k].0)
    ensures FitTable(columns, rows) && !InKeyOrder(selected, compare, keys, rows)
  {
    hide Swapped, Lexicographic;
    var first := FirstKeyOn(keys, k);
    rows := Swapped(columns, keys[first], high, low);
    SwappedCompare(compare, columns, keys, first, high, low);
    SwappedTie(selected, compare, columns, keys, keys[first], high, low);
    IndexesOfTwo(rows, ByKeys(CellOrder(compare), keys));
    IndexesOfTwo(Map(Selection(selected), rows), ByKeys(CellOrder(compare), keys));
  }

  /**
   The exact condition: a select returns the rows of every table content in the order of all its
   keys if and only if the table columns it orders by are selected.
   */
  lemma OrderedIffKeysSelected(columns: seq<string>, selected: Option<seq<string>>, compare: Compare<Value>, keys: Keys<string>,
                               high: Value, low: Value)
    requires TotalPreorder(compare) && compare(high, low) > 0
    ensures (forall rows :: FitTable(columns, rows) ==> InKeyOrder(selected, compare, keys, rows))
       <==> KeysSelected(columns, selected, keys)
  {
    hide InKeyOrder, FitTable;
    if KeysSelected(columns, selected, keys) {
      forall rows | FitTable(columns, rows)
        ensures InKeyOrder(selected, compare, keys, rows)
      {
        SelectedInOrder(columns, selected, compare, keys, rows);
      }
    } else {
      var k :| 0 <= k < |keys| && keys[k].0 in columns && !IsSelected(selected, keys[k].0);
      var rows := UnselectedKeyLosesOrder(columns, selected, compare, keys, k, high, low);
    }
  }

  /** Column selection and then the order-by loop, as the plain select runs them. */
  method SelectAndSort(rows: seq<NamedRow>, selected: Option<seq<string>>, compare: Compare<Value>, keys: Keys<string>)
    returns (sorted: seq<NamedRow>)
    requires TotalPreorder(compare)
    ensures sorted == Map(Selection(selected), StableSort(rows, ByKeys(CellOrder(compare), EffectiveKeys(keys, selected))))
  {
    var shown := rows;
    if selected.Some? {
      for i := 0 to |rows|
        invariant |shown| == |rows|
        invariant forall j :: 0 <= j < |rows| ==> shown[j] == if j < i then Selection(selected)(rows[j]) else rows[j]
      {
        shown := shown[i := Retain(rows[i], selected.value)];
      }
    }
    assert shown == Map(Selection(selected), rows);
    sorted := SortRows(shown, CellOrder(compare), keys);
    SelectThenSort(rows, selected, compare, keys);
  }

  /**
   The page of an ordered covering read: the scan reads every entry in range, so that
   sorting and then cutting gives the page of the sorted full read, limit zero included.
   */
  method OrderedCoveringPage(less: Less, columns: seq<string>, index: seq<string>, filter: Option<Filter>, entries: seq<Entry>,
                             selected: Option<seq<string>>, compare: Compare<Value>, keys: Keys<string>,
                             offset: Option<nat>, limit: Option<nat>, usizeMax: nat)
    returns (page: seq<NamedRow>)
    requires forall entry :: entry in entries ==> |entry.key| == |index|
    requires TotalPreorder(compare)
    ensures page == PageOf(StableSort(Map(Selection(selected), CoverAll(less, columns, index, filter, entries)),
                                      ByKeys(CellOrder(compare), keys)),
                           if offset.Some? then offset.value else 0, limit)
  {
    var rows := CoveringScan(less, columns, index, filter, entries, offset, limit, true, usizeMax);
    var sorted := SelectAndSort(rows, selected, compare, keys);
    SelectThenSort(rows, selected, compare, keys);
    page := CutPage(sorted, offset, limit);
    if limit == Some(0) {
      assert page == [];
    }
  }
}
