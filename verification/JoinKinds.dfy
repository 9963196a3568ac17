/**
 What the four kinds of join keep. Every row of a join comes from one left and one right
 row that match, or from one unmatched row on either side, padded with NULL. Which of
 these a kind of join has, and in what order, is stated by the indexes they come from.
 */
module JoinKinds {
  import opened Wrappers
  import opened Sequences
  import opened Values
  import opened HashJoins
  import opened JoinEngine

  /** The left and right row that a joined row comes from; none where it is padded. */
  type Origin = (Option<nat>, Option<nat>)

  /** Two rows match when both have their key column and it holds the same value, not NULL. */
  lemma MatchesIff(left: JoinedRow, key: Option<KeyPosition>, right: Row, column: Option<nat>)
    ensures Matches(left, key, right, column)
       <==> && key.Some? && column.Some?
            && key.value.0 < |left| && key.value.1 < |left[key.value.0]| && column.value < |right|
            && left[key.value.0][key.value.1] != Null
            && left[key.value.0][key.value.1] == right[column.value]
  {
  }

  /** By left row, the padded right rows last; within a left row by right row. */
  predicate Precedes(a: Origin, b: Origin) {
    match (a, b)
    case ((Some(i), Some(j)), (Some(i'), Some(j'))) => i < i' || (i == i' && j < j')
    case ((Some(i), _), (Some(i'), _)) => i < i'
    case ((Some(_), _), (None, _)) => true
    case ((None, Some(j)), (None, Some(j'))) => j < j'
    case _ => false
  }

  ghost predicate InOrder(origins: seq<Origin>) {
    forall k, l :: 0 <= k < l < |origins| ==> Precedes(origins[k], origins[l])
  }

  /** The row that comes from `origin`. */
  function RowFrom(left: seq<JoinedRow>, padding: JoinedRow, right: seq<Row>, width: nat, origin: Origin): JoinedRow
    requires origin.0.Some? ==> origin.0.value < |left|
    requires origin.1.Some? ==> origin.1.value < |right|
  {
    (if origin.0.Some? then left[origin.0.value] else padding)
    + [if origin.1.Some? then right[origin.1.value] else seq(width, _ => Null)]
  }

  ghost predicate InBounds(left: seq<JoinedRow>, right: seq<Row>, origins: seq<Origin>) {
    forall k :: 0 <= k < |origins| ==>
      && (origins[k].0.Some? || origins[k].1.Some?)
      && (origins[k].0.Some? ==> origins[k].0.value < |left|)
      && (origins[k].1.Some? ==> origins[k].1.value < |right|)
  }

  /** Whether `rows` are the rows from `origins`, one after the other. */
  ghost predicate ComeFrom(rows: seq<JoinedRow>, left: seq<JoinedRow>, padding: JoinedRow, right: seq<Row>, width: nat, origins: seq<Origin>)
    requires InBounds(left, right, origins)
  {
    && |rows| == |origins|
    && forall k :: 0 <= k < |rows| ==> rows[k] == RowFrom(left, padding, right, width, origins[k])
  }

  // ----- The rows of one left row

  lemma {:induction false} MatchingFrom(left: JoinedRow, key: Option<KeyPosition>, right: seq<Row>, column: Option<nat>)
    returns (indexes: seq<nat>)
    ensures Increasing(indexes) && |indexes| == |MatchingRows(left, key, right, column)|
    ensures forall j: nat :: j in indexes <==> j < |right| && Matches(left, key, right[j], column)
    ensures forall k :: 0 <= k < |indexes| ==>
              indexes[k] < |right| && MatchingRows(left, key, right, column)[k] == right[indexes[k]]
  {
    indexes := [];
    if right != [] {
      var init, last := right[..|right| - 1], right[|right| - 1];
      indexes := MatchingFrom(left, key, init, column);
      assert forall k :: 0 <= k < |indexes| ==> indexes[k] in indexes;
      if Matches(left, key, last, column) {
        indexes := indexes + [|right| - 1];
      }
    }
  }

  function OriginsOf(i: nat, indexes: seq<nat>, keepLeft: bool): seq<Origin> {
    if indexes == [] then if keepLeft then [(Some(i), None)] else []
    else seq(|indexes|, k requires 0 <= k < |indexes| => (Some(i), Some(indexes[k])))
  }

  lemma OriginsOfMembers(i: nat, indexes: seq<nat>, keepLeft: bool)
    ensures forall j: nat :: (Some(i), Some(j)) in OriginsOf(i, indexes, keepLeft) <==> j in indexes
    ensures (Some(i), None) in OriginsOf(i, indexes, keepLeft) <==> keepLeft && indexes == []
  {
    var origins := OriginsOf(i, indexes, keepLeft);
    forall j: nat | j in indexes
      ensures (Some(i), Some(j)) in origins
    {
      var k :| 0 <= k < |indexes| && indexes[k] == j;
      assert origins[k] == (Some(i), Some(j));
    }
  }

  lemma OriginsOfRows(left: seq<JoinedRow>, padding: JoinedRow, i: nat, key: Option<KeyPosition>, right: seq<Row>, width: nat,
                      column: Option<nat>, keepLeft: bool, indexes: seq<nat>)
    requires i < |left| && Increasing(indexes) && |indexes| == |MatchingRows(left[i], key, right, column)|
    requires forall k :: 0 <= k < |indexes| ==>
               indexes[k] < |right| && MatchingRows(left[i], key, right, column)[k] == right[indexes[k]]
    ensures var origins := OriginsOf(i, indexes, keepLeft);
            && InOrder(origins) && InBounds(left, right, origins)
            && ComeFrom(JoinOne(left[i], key, right, width, column, keepLeft), left, padding, right, width, origins)
            && forall k :: 0 <= k < |origins| ==> origins[k].0 == Some(i)
  {
    hide MatchingRows;
  }

  // The rows of the left row `i`.
  lemma OneFrom(left: seq<JoinedRow>, padding: JoinedRow, i: nat, key: Option<KeyPosition>, right: seq<Row>, width: nat,
                column: Option<nat>, keepLeft: bool)
    returns (origins: seq<Origin>)
    requires i < |left|
    ensures InOrder(origins) && InBounds(left, right, origins)
    ensures ComeFrom(JoinOne(left[i], key, right, width, column, keepLeft), left, padding, right, width, origins)
    ensures forall k :: 0 <= k < |origins| ==> origins[k].0 == Some(i)
    ensures forall j: nat :: (Some(i), Some(j)) in origins <==> j < |right| && Matches(left[i], key, right[j], column)
    ensures (Some(i), None) in origins <==> keepLeft && forall j :: 0 <= j < |right| ==> !Matches(left[i], key, right[j], column)
  {
    var indexes := MatchingFrom(left[i], key, right, column);
    hide Matches, MatchingRows, JoinOne, OriginsOf, InOrder, InBounds, ComeFrom;
    origins := OriginsOf(i, indexes, keepLeft);
    OriginsOfMembers(i, indexes, keepLeft);
    OriginsOfRows(left, padding, i, key, right, width, column, keepLeft, indexes);
    assert indexes != [] ==> indexes[0] in indexes;
  }

  // ----- The rows of all left rows, and the unmatched right rows

  /** Every match, and the unmatched left rows if they are kept. */
  ghost predicate LeftKeeps(left: seq<JoinedRow>, key: Option<KeyPosition>, right: seq<Row>, column: Option<nat>, keepLeft: bool,
                            origins: seq<Origin>) {
    && (forall k :: 0 <= k < |origins| ==> origins[k].0.Some?)
    && (forall i: nat, j: nat :: (Some(i), Some(j)) in origins
             <==> i < |left| && j < |right| && Matches(left[i], key, right[j], column))
    && (forall i: nat :: (Some(i), None) in origins
             <==> i < |left| && keepLeft && forall j :: 0 <= j < |right| ==> !Matches(left[i], key, right[j], column))
  }

  // The origins of the left rows before `n`, and those of `n` itself.
  lemma OrderOfBoth(before: seq<Origin>, last: seq<Origin>, n: nat)
    requires InOrder(before) && InOrder(last)
    requires forall k :: 0 <= k < |before| ==> before[k].0.Some? && before[k].0.value < n
    requires forall k :: 0 <= k < |last| ==> last[k].0 == Some(n)
    ensures InOrder(before + last)
  {
  }

  lemma RowsOfBoth(left: seq<JoinedRow>, padding: JoinedRow, right: seq<Row>, width: nat, a: seq<JoinedRow>, b: seq<JoinedRow>,
                   before: seq<Origin>, last: seq<Origin>)
    requires left != [] && InBounds(left[..|left| - 1], right, before) && InBounds(left, right, last)
    requires ComeFrom(a, left[..|left| - 1], padding, right, width, before) && ComeFrom(b, left, padding, right, width, last)
    ensures InBounds(left, right, before + last) && ComeFrom(a + b, left, padding, right, width, before + last)
  {
    var both := before + last;
    forall k | 0 <= k < |both|
      ensures both[k] == if k < |before| then before[k] else last[k - |before|]
    {
    }
  }

  lemma LeftKeepsBoth(left: seq<JoinedRow>, key: Option<KeyPosition>, right: seq<Row>, column: Option<nat>, keepLeft: bool,
                      before: seq<Origin>, last: seq<Origin>, origins: seq<Origin>)
    requires left != [] && LeftKeeps(left[..|left| - 1], key, right, column, keepLeft, before)
    requires var n := |left| - 1;
             && (forall j: nat :: (Some(n), Some(j)) in last <==> j < |right| && Matches(left[n], key, right[j], column))
             && ((Some(n), None) in last <==> keepLeft && forall j :: 0 <= j < |right| ==> !Matches(left[n], key, right[j], column))
    requires forall k :: 0 <= k < |origins| ==> origins[k].0.Some?
    requires forall i: nat, second: Option<nat> ::
               (Some(i), second) in origins <==> if i == |left| - 1 then (Some(i), second) in last else (Some(i), second) in before
    ensures LeftKeeps(left, key, right, column, keepLeft, origins)
  {
    hide Matches;
  }

  lemma MembersByRow(before: seq<Origin>, last: seq<Origin>, n: nat)
    requires forall k :: 0 <= k < |before| ==> before[k].0.Some? && before[k].0.value < n
    requires forall k :: 0 <= k < |last| ==> last[k].0 == Some(n)
    ensures forall k :: 0 <= k < |before + last| ==> (before + last)[k].0.Some?
    ensures forall i: nat, second: Option<nat> ::
              (Some(i), second) in before + last <==> if i == n then (Some(i), second) in last else (Some(i), second) in before
  {
  }

  lemma {:induction false} AllFrom(left: seq<JoinedRow>, padding: JoinedRow, key: Option<KeyPosition>, right: seq<Row>, width: nat,
                                   column: Option<nat>, keepLeft: bool)
    returns (origins: seq<Origin>)
    ensures InOrder(origins) && InBounds(left, right, origins) && LeftKeeps(left, key, right, column, keepLeft, origins)
    ensures forall k :: 0 <= k < |origins| ==> origins[k].0.Some?
    ensures ComeFrom(JoinAll(left, key, right, width, column, keepLeft), left, padding, right, width, origins)
  {
    hide InOrder, ComeFrom, JoinOne, Matches;
    origins := [];
    if left == [] {
      NoOrigins(padding, right, width);
    } else {
      var init, n := left[..|left| - 1], |left| - 1;
      var before := AllFrom(init, padding, key, right, width, column, keepLeft);
      var last := OneFrom(left, padding, n, key, right, width, column, keepLeft);
      origins := before + last;
      OrderOfBoth(before, last, n);
      RowsOfBoth(left, padding, right, width, JoinAll(init, key, right, width, column, keepLeft),
                 JoinOne(left[n], key, right, width, column, keepLeft), before, last);
      MembersByRow(before, last, n);
      LeftKeepsBoth(left, key, right, column, keepLeft, before, last, origins);
    }
  }

  lemma NoOrigins(padding: JoinedRow, right: seq<Row>, width: nat)
    ensures InOrder([]) && InBounds([], right, []) && ComeFrom([], [], padding, right, width, [])
  {
  }

  lemma {:induction false} UnmatchedFrom(left: seq<JoinedRow>, padding: JoinedRow, key: Option<KeyPosition>, right: seq<Row>,
                                         column: Option<nat>)
    returns (indexes: seq<nat>)
    ensures Increasing(indexes) && |indexes| == |UnmatchedRight(left, padding, key, right, column)|
    ensures forall j: nat :: j in indexes
                 <==> j < |right| && forall i :: 0 <= i < |left| ==> !Matches(left[i], key, right[j], column)
    ensures forall k :: 0 <= k < |indexes| ==>
              indexes[k] < |right| && UnmatchedRight(left, padding, key, right, column)[k] == padding + [right[indexes[k]]]
  {
    indexes := [];
    if right != [] {
      var init, last := right[..|right| - 1], right[|right| - 1];
      indexes := UnmatchedFrom(left, padding, key, init, column);
      assert forall k :: 0 <= k < |indexes| ==> indexes[k] in indexes;
      if !MatchesAny(left, key, last, column) {
        indexes := indexes + [|right| - 1];
      }
    }
  }

  // ----- The four kinds

  /** Which rows a join of this kind has: every match, and the unmatched rows of the sides it keeps. */
  ghost predicate KindKeeps(kind: JoinKind, left: seq<JoinedRow>, key: Option<KeyPosition>, right: seq<Row>, column: Option<nat>,
                            origins: seq<Origin>) {
    && (forall i: nat, j: nat :: (Some(i), Some(j)) in origins
             <==> i < |left| && j < |right| && Matches(left[i], key, right[j], column))
    && (forall i: nat :: (Some(i), None) in origins
             <==> && kind in {JoinKind.Left, JoinKind.Full} && i < |left|
                  && forall j :: 0 <= j < |right| ==> !Matches(left[i], key, right[j], column))
    && (forall j: nat :: (None, Some(j)) in origins
             <==> && kind in {JoinKind.Right, JoinKind.Full} && j < |right|
                  && forall i :: 0 <= i < |left| ==> !Matches(left[i], key, right[j], column))
  }

  function PaddedOrigins(indexes: seq<nat>): (origins: seq<Origin>)
    ensures |origins| == |indexes|
  {
    seq(|indexes|, k requires 0 <= k < |indexes| => (None, Some(indexes[k])))
  }

  /**
   One join of each kind: its rows are exactly the matches, the unmatched left rows of a left
   or full join and the unmatched right rows of a right or full join, each once and in order.
   */
  lemma JoinKeeps(kind: JoinKind, left: seq<JoinedRow>, padding: JoinedRow, key: Option<KeyPosition>, right: seq<Row>, width: nat,
                  column: Option<nat>)
    returns (origins: seq<Origin>)
    ensures InOrder(origins) && InBounds(left, right, origins) && KindKeeps(kind, left, key, right, column, origins)
    ensures ComeFrom(NestedLoop(left, padding, key, right, width, column, KeepsLeft(kind), KeepsRight(kind)),
                     left, padding, right, width, origins)
  {
    var matched := AllFrom(left, padding, key, right, width, column, KeepsLeft(kind));
    hide Matches, JoinAll, UnmatchedRight, InOrder, ComeFrom, KindKeeps, LeftKeeps;
    if KeepsRight(kind) {
      var indexes := UnmatchedFrom(left, padding, key, right, column);
      origins := matched + PaddedOrigins(indexes);
      MembersOfBoth(matched, indexes);
      KindKeepsBoth(kind, left, key, right, column, matched, indexes, origins);
      OrderWithPadded(matched, indexes);
      RowsWithPadded(left, padding, right, width, JoinAll(left, key, right, width, column, KeepsLeft(kind)),
                     UnmatchedRight(left, padding, key, right, column), matched, indexes);
    } else {
      origins := matched;
      KindKeepsLeft(kind, left, key, right, column, matched);
      NoPaddedRows(left, padding, right, width, JoinAll(left, key, right, width, column, KeepsLeft(kind)), matched);
    }
  }

  lemma NoPaddedRows(left: seq<JoinedRow>, padding: JoinedRow, right: seq<Row>, width: nat, rows: seq<JoinedRow>, origins: seq<Origin>)
    requires InBounds(left, right, origins) && ComeFrom(rows, left, padding, right, width, origins)
    ensures ComeFrom(rows + [], left, padding, right, width, origins)
  {
    assert rows + [] == rows;
  }

  lemma KindKeepsLeft(kind: JoinKind, left: seq<JoinedRow>, key: Option<KeyPosition>, right: seq<Row>, column: Option<nat>,
                      matched: seq<Origin>)
    requires LeftKeeps(left, key, right, column, KeepsLeft(kind), matched) && !KeepsRight(kind)
    ensures KindKeeps(kind, left, key, right, column, matched)
  {
    hide Matches;
  }

  lemma KindKeepsBoth(kind: JoinKind, left: seq<JoinedRow>, key: Option<KeyPosition>, right: seq<Row>, column: Option<nat>,
                      matched: seq<Origin>, indexes: seq<nat>, origins: seq<Origin>)
    requires LeftKeeps(left, key, right, column, KeepsLeft(kind), matched) && KeepsRight(kind)
    requires forall j: nat :: j in indexes
                  <==> j < |right| && forall i :: 0 <= i < |left| ==> !Matches(left[i], key, right[j], column)
    requires forall i: nat, second: Option<nat> :: (Some(i), second) in origins <==> (Some(i), second) in matched
    requires forall j: nat :: (None, Some(j)) in origins <==> j in indexes
    ensures KindKeeps(kind, left, key, right, column, origins)
  {
    hide Matches;
  }

  lemma MembersOfBoth(matched: seq<Origin>, indexes: seq<nat>)
    requires forall k :: 0 <= k < |matched| ==> matched[k].0.Some?
    ensures forall i: nat, second: Option<nat> ::
              (Some(i), second) in matched + PaddedOrigins(indexes) <==> (Some(i), second) in matched
    ensures forall j: nat :: (None, Some(j)) in matched + PaddedOrigins(indexes) <==> j in indexes
  {
    hide PaddedOrigins;
    PaddedMembers(indexes);
  }

  lemma PaddedMembers(indexes: seq<nat>)
    ensures forall j: nat :: (None, Some(j)) in PaddedOrigins(indexes) <==> j in indexes
    ensures forall origin :: origin in PaddedOrigins(indexes) ==> origin.0 == None && origin.1.Some?
  {
    forall j: nat | j in indexes
      ensures (None, Some(j)) in PaddedOrigins(indexes)
    {
      var k :| 0 <= k < |indexes| && indexes[k] == j;
      assert PaddedOrigins(indexes)[k] == (None, Some(j));
    }
  }

  lemma OrderWithPadded(matched: seq<Origin>, indexes: seq<nat>)
    requires InOrder(matched) && Increasing(indexes) && forall k :: 0 <= k < |matched| ==> matched[k].0.Some?
    ensures InOrder(matched + PaddedOrigins(indexes))
  {
  }

  lemma RowsWithPadded(left: seq<JoinedRow>, padding: JoinedRow, right: seq<Row>, width: nat, a: seq<JoinedRow>, b: seq<JoinedRow>,
                       matched: seq<Origin>, indexes: seq<nat>)
    requires InBounds(left, right, matched) && ComeFrom(a, left, padding, right, width, matched) && |b| == |indexes|
    requires forall k :: 0 <= k < |indexes| ==> indexes[k] < |right| && b[k] == padding + [right[indexes[k]]]
    ensures InBounds(left, right, matched + PaddedOrigins(indexes))
    ensures ComeFrom(a + b, left, padding, right, width, matched + PaddedOrigins(indexes))
  {
    var padded := PaddedOrigins(indexes);
    var both := matched + padded;
    forall k | 0 <= k < |both|
      ensures both[k] == if k < |matched| then matched[k] else padded[k - |matched|]
    {
    }
  }

  // ----- The joins of a query

  /** Where the left column of a join is looked up: `table.column`, or a bare column of the first table. */
  lemma ResolvedIff(field: string, fallback: string, table: string, column: string)
    ensures ResolveColumn(field, fallback) == (table, column)
       <==> || ('.' !in table && field == table + "." + column)
            || ('.' !in field && table == fallback && column == field)
  {
    SplitAtDot(field);
    if '.' !in table && field == table + "." + column {
      DotSplits(table, column);
    }
  }

  lemma {:induction false} SplitAtDot(field: string)
    ensures SplitDot(field).None? <==> '.' !in field
    ensures SplitDot(field).Some? ==>
              '.' !in SplitDot(field).value.0 && field == SplitDot(field).value.0 + "." + SplitDot(field).value.1
  {
    if field != "" && field[0] != '.' {
      SplitAtDot(field[1..]);
      assert field == [field[0]] + field[1..];
    }
  }

  lemma {:induction false} DotSplits(table: string, column: string)
    requires '.' !in table
    ensures SplitDot(table + "." + column) == Some((table, column))
  {
    var field := table + "." + column;
    if table != "" {
      assert field[0] == table[0] && field[0] in table;
      assert field[1..] == table[1..] + "." + column;
      assert forall c :: c in table[1..] ==> c in table;
      DotSplits(table[1..], column);
      assert [table[0]] + table[1..] == table;
    } else {
      assert field[1..] == column;
    }
  }

  lemma {:induction false} PositionIff<T>(s: seq<T>, x: T, index: nat)
    ensures Position(s, x) == Some(index) <==> index < |s| && s[index] == x && x !in s[..index]
  {
    if s != [] && index > 0 {
      PositionIff(s[1..], x, index - 1);
      assert index <= |s| ==> s[..index] == [s[0]] + s[1..][..index - 1];
    }
  }

  /** The left key of a join is found in the first table of its name, at the first column of its name. */
  lemma KeyIff(scopes: seq<Scope>, table: string, column: string, side: nat, position: nat)
    ensures FindKey(scopes, table, column) == Some((side, position))
       <==> && side < |scopes| && scopes[side].table == table
            && (forall s :: 0 <= s < side ==> scopes[s].table != table)
            && position < |scopes[side].columns| && scopes[side].columns[position] == column
            && column !in scopes[side].columns[..position]
  {
    PositionIff(TablesOf(scopes), table, side);
    if side < |scopes| {
      assert forall s :: 0 <= s < side ==> TablesOf(scopes)[..side][s] == scopes[s].table;
      PositionIff(scopes[side].columns, column, position);
    }
  }

  /** The rows that a query joins: how the last join extends the rows of the joins before it. */
  lemma LastJoinKeeps(db: Database, from: string, joins: seq<Join>) returns (origins: seq<Origin>)
    requires KnownTables(db, from, joins) && joins != []
    ensures var init, join := joins[..|joins| - 1], joins[|joins| - 1];
            var scopes, table := Scopes(db, from, init), db[join.table];
            var left := Joined(db, from, init);
            var padding := seq(|scopes|, s requires 0 <= s < |scopes| => seq(|scopes[s].columns|, _ => Null));
            && InOrder(origins) && InBounds(left, table.rows, origins)
            && KindKeeps(join.kind, left, LeftKeyOf(scopes, from, join), table.rows, RightColumnOf(table, join), origins)
            && ComeFrom(Joined(db, from, joins), left, padding, table.rows, |table.columns|, origins)
  {
    var init, join := joins[..|joins| - 1], joins[|joins| - 1];
    var scopes, table := Scopes(db, from, init), db[join.table];
    var left := Joined(db, from, init);
    assert Padding(scopes) == seq(|scopes|, s requires 0 <= s < |scopes| => seq(|scopes[s].columns|, _ => Null));
    origins := JoinKeeps(join.kind, left, Padding(scopes), LeftKeyOf(scopes, from, join), table.rows, |table.columns|,
                         RightColumnOf(table, join));
  }
}
