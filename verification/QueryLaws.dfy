/**
 What the steps of a join query after the joins mean: the filter, the order, the page and
 the projection, each stated by the indexes of what it keeps.
 */
module QueryLaws {
  import opened Wrappers
  import opened Sequences
  import opened Values
  import opened HashJoins
  import opened JoinEngine
  import opened JoinKinds
  import opened JoinQueries

  /** The first unknown table is reported: the first table of the query, or else that of the first such join. */
  lemma {:induction false} UnknownTableIff(db: Database, from: string, joins: seq<Join>, name: string)
    ensures UnknownTable(db, from, joins) == Some(name)
       <==> || (name == from && from !in db)
            || (from in db && name !in db
                && exists i :: 0 <= i < |joins| && joins[i].table == name && forall j :: 0 <= j < i ==> joins[j].table in db)
    decreases |joins|
  {
    if from in db && joins != [] {
      var init := joins[..|joins| - 1];
      UnknownTableIff(db, from, init, name);
      if i :| 0 <= i < |joins| && joins[i].table == name && forall j :: 0 <= j < i ==> joins[j].table in db {
        assert i < |init| ==> init[i].table == name;
        assert forall j :: 0 <= j < |init| ==> init[j] == joins[j];
      }
    }
  }

  // ----- Looking up a column of a joined row

  /** Whether the table `s` is one that a field may mean and has the column. */
  predicate Offers(scopes: seq<Scope>, s: nat, table: Option<string>, column: string) {
    s < |scopes| && (table.Some? ==> scopes[s].table == table.value) && column in scopes[s].columns
  }

  /** A field has the value of the first column of its name in the first table, from `side` on, that offers it. */
  lemma {:induction false} FindValueIs(scopes: seq<Scope>, row: JoinedRow, table: Option<string>, column: string, side: nat, s: nat, p: nat)
    requires FitsScopes(scopes, row) && side <= s && Offers(scopes, s, table, column)
    requires forall t :: side <= t < s ==> !Offers(scopes, t, table, column)
    requires p < |scopes[s].columns| && scopes[s].columns[p] == column && column !in scopes[s].columns[..p]
    ensures FindValue(scopes, row, table, column, side) == Some(row[s][p])
    decreases s - side
  {
    if side < s {
      assert !Offers(scopes, side, table, column);
      FindValueIs(scopes, row, table, column, side + 1, s, p);
    } else {
      PositionIff(scopes[s].columns, column, p);
    }
  }

  /** A field that no table offers has no value. */
  lemma {:induction false} FindValueNone(scopes: seq<Scope>, row: JoinedRow, table: Option<string>, column: string, side: nat)
    requires forall s :: side <= s < |scopes| ==> !Offers(scopes, s, table, column)
    ensures FindValue(scopes, row, table, column, side) == None
    decreases |scopes| - side
  {
    if side < |scopes| {
      assert !Offers(scopes, side, table, column);
      FindValueNone(scopes, row, table, column, side + 1);
    }
  }

  /** A qualified order field is looked up in tables of its name, a bare one in all tables. */
  lemma OrderValueIs(scopes: seq<Scope>, row: JoinedRow, table: string, column: string)
    requires '.' !in table
    ensures OrderValue(scopes)(row, table + "." + column) == FindValue(scopes, row, Some(table), column, 0)
    ensures '.' !in column ==> OrderValue(scopes)(row, column) == FindValue(scopes, row, None, column, 0)
  {
    DotSplits(table, column);
    SplitAtDot(column);
  }

  // ----- Projection

  type CellAt = (nat, nat)

  /** Whether the query returns column `p` of table `s`: every column, or one named with or without its table. */
  predicate Returned(columns: Option<seq<string>>, scopes: seq<Scope>, s: nat, p: nat) {
    && s < |scopes| && p < |scopes[s].columns|
    && (columns.Some? ==> || scopes[s].columns[p] in columns.value
                          || scopes[s].table + "." + scopes[s].columns[p] in columns.value)
  }

  ghost predicate CellsInOrder(cells: seq<CellAt>) {
    forall k, l :: 0 <= k < l < |cells| ==> cells[k].0 < cells[l].0 || (cells[k].0 == cells[l].0 && cells[k].1 < cells[l].1)
  }

  ghost predicate ShowsCells(scopes: seq<Scope>, row: JoinedRow, cells: seq<CellAt>, values: seq<Value>, header: seq<(string, string)>)
    requires FitsScopes(scopes, row)
  {
    && |values| == |cells| && |header| == |cells|
    && forall k :: 0 <= k < |cells| ==>
         && cells[k].0 < |scopes| && cells[k].1 < |scopes[cells[k].0].columns|
         && values[k] == row[cells[k].0][cells[k].1]
         && header[k] == (scopes[cells[k].0].table, scopes[cells[k].0].columns[cells[k].1])
  }

  lemma {:induction false} SideCells(columns: Option<seq<string>>, scopes: seq<Scope>, row: JoinedRow, s: nat, count: nat)
    returns (cells: seq<CellAt>)
    requires FitsScopes(scopes, row) && s < |scopes| && count <= |scopes[s].columns|
    ensures CellsInOrder(cells)
    ensures ShowsCells(scopes, row, cells, ProjectSide(columns, scopes[s], row[s], count), SideHeader(columns, scopes[s], count))
    ensures forall k :: 0 <= k < |cells| ==> cells[k].0 == s && cells[k].1 < count
    ensures forall p: nat :: (s, p) in cells <==> p < count && Returned(columns, scopes, s, p)
    decreases count
  {
    cells := [];
    if count > 0 {
      cells := SideCells(columns, scopes, row, s, count - 1);
      if Returned(columns, scopes, s, count - 1) {
        cells := cells + [(s, count - 1)];
      }
    }
  }

  lemma JoinCells(scopes: seq<Scope>, row: JoinedRow, a: seq<CellAt>, b: seq<CellAt>, n: nat, va: seq<Value>, vb: seq<Value>,
                  ha: seq<(string, string)>, hb: seq<(string, string)>)
    requires FitsScopes(scopes, row) && CellsInOrder(a) && CellsInOrder(b)
    requires ShowsCells(scopes, row, a, va, ha) && ShowsCells(scopes, row, b, vb, hb)
    requires (forall k :: 0 <= k < |a| ==> a[k].0 < n) && (forall k :: 0 <= k < |b| ==> b[k].0 == n)
    ensures CellsInOrder(a + b) && ShowsCells(scopes, row, a + b, va + vb, ha + hb)
  {
  }

  /** Projection returns exactly the selected cells, table by table in column order, and the header names them. */
  lemma {:induction false} ProjectedCells(columns: Option<seq<string>>, scopes: seq<Scope>, row: JoinedRow, count: nat)
    returns (cells: seq<CellAt>)
    requires FitsScopes(scopes, row) && count <= |scopes|
    ensures CellsInOrder(cells)
    ensures ShowsCells(scopes, row, cells, Project(columns, scopes, row, count), Header(columns, scopes, count))
    ensures forall k :: 0 <= k < |cells| ==> cells[k].0 < count
    ensures forall s: nat, p: nat :: (s, p) in cells <==> s < count && Returned(columns, scopes, s, p)
    decreases count
  {
    hide ProjectSide, SideHeader, Returned;
    cells := [];
    if count > 0 {
      var n := count - 1;
      var before := ProjectedCells(columns, scopes, row, n);
      var last := SideCells(columns, scopes, row, n, |scopes[n].columns|);
      JoinCells(scopes, row, before, last, n, Project(columns, scopes, row, n),
                ProjectSide(columns, scopes[n], row[n], |scopes[n].columns|),
                Header(columns, scopes, n), SideHeader(columns, scopes[n], |scopes[n].columns|));
      cells := before + last;
      forall s: nat, p: nat
        ensures (s, p) in cells <==> s < count && Returned(columns, scopes, s, p)
      {
        ReturnedInBounds(columns, scopes, s, p);
        assert (s, p) in cells <==> (s, p) in before || (s, p) in last;
      }
    }
  }

  lemma ReturnedInBounds(columns: Option<seq<string>>, scopes: seq<Scope>, s: nat, p: nat)
    ensures Returned(columns, scopes, s, p) ==> s < |scopes| && p < |scopes[s].columns|
  {
  }
}
