/**
 The uncommitted changes of a transaction on one table: a list of operations by primary
 key. Reads inside the transaction see every stored row with the operations replayed on
 it, and every inserted row with the operations that follow its insert.
 */
module Overlays {
  import opened Wrappers
  import opened Values
  import opened Filters
  import opened Statements

  datatype OverlayOp =
    | InsertRow(key: Value, row: NamedRow)
    | UpdateRow(key: Value, patch: NamedRow)
    | DeleteRow(key: Value)

  /** The key a row is followed by after an update: the patched one, if the patch names the key column. */
  function Rekeyed(primaryKey: string, row: NamedRow, key: Value, patch: NamedRow): Value {
    match Lookup(patch, primaryKey)
    case Some(value) => if Lookup(row, primaryKey).Some? then value else key
    case None => key
  }

  /** `row`, followed under `key`, after `ops`; none when it is deleted or superseded on the way. */
  function ReplayFrom(primaryKey: string, row: NamedRow, key: Value, ops: seq<OverlayOp>): Option<NamedRow>
    decreases |ops|
  {
    if ops == [] then Some(row)
    else if ops[0].key != key then ReplayFrom(primaryKey, row, key, ops[1..])
    else match ops[0]
      case UpdateRow(_, patch) =>
        ReplayFrom(primaryKey, Patched(row, patch), Rekeyed(primaryKey, row, key, patch), ops[1..])
      case _ => None
  }

  /** A stored row as the transaction sees it. */
  function Replay(primaryKey: string, row: NamedRow, ops: seq<OverlayOp>): Option<NamedRow> {
    match Lookup(row, primaryKey)
    case None => None
    case Some(key) => ReplayFrom(primaryKey, row, key, ops)
  }

  /** The replay loop, following the row's primary key across updates. */
  method ReplayRow(primaryKey: string, row: NamedRow, ops: seq<OverlayOp>) returns (seen: Option<NamedRow>)
    ensures seen == Replay(primaryKey, row, ops)
  {
    var found := Lookup(row, primaryKey);
    if found == None {
      return None;
    }
    var current, key := row, found.value;
    assert ops[0..] == ops;
    for i := 0 to |ops|
      invariant Replay(primaryKey, row, ops) == ReplayFrom(primaryKey, current, key, ops[i..])
    {
      assert ops[i..][0] == ops[i] && ops[i..][1..] == ops[i + 1..];
      if ops[i].key != key {
        continue;
      }
      match ops[i] {
        case UpdateRow(_, patch) =>
          key := Rekeyed(primaryKey, current, key, patch);
          current := Patched(current, patch);
        case _ => return None;
      }
    }
    return Some(current);
  }

  // ----- Replaying in two parts

  /** Every update gives the key column at most one value. */
  ghost predicate KeyedOnce(primaryKey: string, ops: seq<OverlayOp>) {
    forall k :: 0 <= k < |ops| && ops[k].UpdateRow? ==>
      Lookup(ops[k].patch, primaryKey) == LastValue(ops[k].patch, primaryKey)
  }

  // The key a row is followed by is the key the row has.
  lemma RekeyedIsKey(primaryKey: string, row: NamedRow, key: Value, patch: NamedRow)
    requires Lookup(row, primaryKey) == Some(key) && Lookup(patch, primaryKey) == LastValue(patch, primaryKey)
    ensures Lookup(Patched(row, patch), primaryKey) == Some(Rekeyed(primaryKey, row, key, patch))
  {
    PatchedLookup(row, patch, primaryKey);
  }

  /** Replaying two lists of operations is replaying one after the other. */
  lemma {:induction false} ReplayConcat(primaryKey: string, row: NamedRow, a: seq<OverlayOp>, b: seq<OverlayOp>)
    requires KeyedOnce(primaryKey, a) && Lookup(row, primaryKey).Some?
    ensures var middle := Replay(primaryKey, row, a);
            && (middle.None? ==> Replay(primaryKey, row, a + b) == None)
            && (middle.Some? ==> Lookup(middle.value, primaryKey).Some?
                                 && Replay(primaryKey, row, a + b) == Replay(primaryKey, middle.value, b))
    decreases |a|
  {
    var key := Lookup(row, primaryKey).value;
    if a == [] {
      assert a + b == b;
    } else {
      assert (a + b)[0] == a[0] && (a + b)[1..] == a[1..] + b;
      assert forall k :: 0 <= k < |a[1..]| ==> a[1..][k] == a[k + 1];
      if a[0].key != key {
        ReplayConcat(primaryKey, row, a[1..], b);
      } else if a[0].UpdateRow? {
        RekeyedIsKey(primaryKey, row, key, a[0].patch);
        ReplayConcat(primaryKey, Patched(row, a[0].patch), a[1..], b);
      }
    }
  }

  // ----- The rows a transaction sees

  /** The stored rows after `ops`. */
  ghost function StoredView(primaryKey: string, rows: set<NamedRow>, ops: seq<OverlayOp>): set<NamedRow> {
    set row | row in rows && Replay(primaryKey, row, ops).Some? :: Replay(primaryKey, row, ops).value
  }

  /** The inserted rows after the operations that follow their insert. */
  ghost function InsertedView(primaryKey: string, ops: seq<OverlayOp>): set<NamedRow> {
    set i | 0 <= i < |ops| && ops[i].InsertRow? && Replay(primaryKey, ops[i].row, ops[i + 1..]).Some?
      :: Replay(primaryKey, ops[i].row, ops[i + 1..]).value
  }

  ghost function OverlayView(primaryKey: string, rows: set<NamedRow>, ops: seq<OverlayOp>): set<NamedRow> {
    StoredView(primaryKey, rows, ops) + InsertedView(primaryKey, ops)
  }

  ghost predicate AllKeyed(primaryKey: string, rows: set<NamedRow>) {
    forall row :: row in rows ==> Lookup(row, primaryKey).Some?
  }

  ghost predicate InsertsKeyed(primaryKey: string, ops: seq<OverlayOp>) {
    forall k :: 0 <= k < |ops| && ops[k].InsertRow? ==> Lookup(ops[k].row, primaryKey) == Some(ops[k].key)
  }

  ghost predicate NoInserts(ops: seq<OverlayOp>) {
    forall k :: 0 <= k < |ops| ==> !ops[k].InsertRow?
  }

  lemma StoredViewConcat(primaryKey: string, rows: set<NamedRow>, a: seq<OverlayOp>, b: seq<OverlayOp>)
    requires AllKeyed(primaryKey, rows) && KeyedOnce(primaryKey, a)
    ensures StoredView(primaryKey, rows, a + b) == StoredView(primaryKey, StoredView(primaryKey, rows, a), b)
    ensures AllKeyed(primaryKey, StoredView(primaryKey, rows, a))
  {
    var middle := StoredView(primaryKey, rows, a);
    forall row | row in rows {
      ReplayConcat(primaryKey, row, a, b);
    }
    forall seen
      ensures seen in StoredView(primaryKey, rows, a + b) <==> seen in StoredView(primaryKey, middle, b)
    {
      if row :| row in rows && Replay(primaryKey, row, a + b) == Some(seen) {
        assert Replay(primaryKey, row, a).value in middle;
      }
      if between :| between in middle && Replay(primaryKey, between, b) == Some(seen) {
        var row :| row in rows && Replay(primaryKey, row, a) == Some(between);
        assert Replay(primaryKey, row, a + b) == Some(seen);
      }
    }
  }

  lemma KeyedOnceAfter(primaryKey: string, ops: seq<OverlayOp>, i: nat)
    requires i <= |ops| && KeyedOnce(primaryKey, ops)
    ensures KeyedOnce(primaryKey, ops[i..])
  {
    forall k | 0 <= k < |ops[i..]| && ops[i..][k].UpdateRow?
      ensures Lookup(ops[i..][k].patch, primaryKey) == LastValue(ops[i..][k].patch, primaryKey)
    {
      assert ops[i..][k] == ops[i + k];
    }
  }

  // The operations after an insert, when more operations follow.
  lemma LineageConcat(primaryKey: string, a: seq<OverlayOp>, b: seq<OverlayOp>, i: nat)
    requires i < |a| && KeyedOnce(primaryKey, a) && InsertsKeyed(primaryKey, a) && a[i].InsertRow?
    ensures var middle := Replay(primaryKey, a[i].row, a[i + 1..]);
            && (middle.None? ==> Replay(primaryKey, a[i].row, (a + b)[i + 1..]) == None)
            && (middle.Some? ==> Lookup(middle.value, primaryKey).Some?
                                 && Replay(primaryKey, a[i].row, (a + b)[i + 1..]) == Replay(primaryKey, middle.value, b))
  {
    assert (a + b)[i + 1..] == a[i + 1..] + b;
    KeyedOnceAfter(primaryKey, a, i + 1);
    ReplayConcat(primaryKey, a[i].row, a[i + 1..], b);
  }

  lemma InsertedViewConcat(primaryKey: string, a: seq<OverlayOp>, b: seq<OverlayOp>)
    requires KeyedOnce(primaryKey, a) && InsertsKeyed(primaryKey, a) && NoInserts(b)
    ensures InsertedView(primaryKey, a + b) == StoredView(primaryKey, InsertedView(primaryKey, a), b)
    ensures AllKeyed(primaryKey, InsertedView(primaryKey, a))
  {
    var middle := InsertedView(primaryKey, a);
    forall i | 0 <= i < |a| && a[i].InsertRow? {
      LineageConcat(primaryKey, a, b, i);
    }
    forall seen
      ensures seen in InsertedView(primaryKey, a + b) <==> seen in StoredView(primaryKey, middle, b)
    {
      if i :| 0 <= i < |a + b| && (a + b)[i].InsertRow? && Replay(primaryKey, (a + b)[i].row, (a + b)[i + 1..]) == Some(seen) {
        assert i < |a| && (a + b)[i] == a[i];
        assert Replay(primaryKey, a[i].row, a[i + 1..]).value in middle;
      }
      if between :| between in middle && Replay(primaryKey, between, b) == Some(seen) {
        var i :| 0 <= i < |a| && a[i].InsertRow? && Replay(primaryKey, a[i].row, a[i + 1..]) == Some(between);
        assert (a + b)[i] == a[i];
      }
    }
  }

  lemma StoredViewUnion(primaryKey: string, a: set<NamedRow>, b: set<NamedRow>, ops: seq<OverlayOp>)
    ensures StoredView(primaryKey, a + b, ops) == StoredView(primaryKey, a, ops) + StoredView(primaryKey, b, ops)
  {
  }

  /** More updates and deletes act on exactly the rows seen before them, stored or inserted. */
  lemma ViewAfterChanges(primaryKey: string, rows: set<NamedRow>, a: seq<OverlayOp>, b: seq<OverlayOp>)
    requires AllKeyed(primaryKey, rows) && KeyedOnce(primaryKey, a) && InsertsKeyed(primaryKey, a) && NoInserts(b)
    ensures OverlayView(primaryKey, rows, a + b) == StoredView(primaryKey, OverlayView(primaryKey, rows, a), b)
    ensures AllKeyed(primaryKey, OverlayView(primaryKey, rows, a))
  {
    hide StoredView, InsertedView;
    StoredViewConcat(primaryKey, rows, a, b);
    InsertedViewConcat(primaryKey, a, b);
    StoredViewUnion(primaryKey, StoredView(primaryKey, rows, a), InsertedView(primaryKey, a), b);
  }

  /** Inserting a row whose key no visible row has adds it to the rows seen. */
  lemma ViewAfterInsert(primaryKey: string, rows: set<NamedRow>, a: seq<OverlayOp>, key: Value, row: NamedRow)
    requires AllKeyed(primaryKey, rows) && KeyedOnce(primaryKey, a) && InsertsKeyed(primaryKey, a)
    requires Lookup(row, primaryKey) == Some(key)
    requires forall seen :: seen in OverlayView(primaryKey, rows, a) ==> Lookup(seen, primaryKey) != Some(key)
    ensures OverlayView(primaryKey, rows, a + [InsertRow(key, row)]) == OverlayView(primaryKey, rows, a) + {row}
  {
    var b := [InsertRow(key, row)];
    StoredViewConcat(primaryKey, rows, a, b);
    UntouchedView(primaryKey, StoredView(primaryKey, rows, a), key, row);
    InsertedAfterInsert(primaryKey, a, key, row);
    UntouchedView(primaryKey, InsertedView(primaryKey, a), key, row);
  }

  // An insert under another key passes a row by.
  lemma UntouchedView(primaryKey: string, rows: set<NamedRow>, key: Value, row: NamedRow)
    requires AllKeyed(primaryKey, rows)
    requires forall seen :: seen in rows ==> Lookup(seen, primaryKey) != Some(key)
    ensures StoredView(primaryKey, rows, [InsertRow(key, row)]) == rows
  {
    var b := [InsertRow(key, row)];
    forall seen | seen in rows
      ensures Replay(primaryKey, seen, b) == Some(seen)
    {
      var own := Lookup(seen, primaryKey).value;
      assert b[1..] == [] && b[0].key != own;
      assert ReplayFrom(primaryKey, seen, own, b[1..]) == Some(seen);
    }
    forall seen | seen in rows
      ensures seen in StoredView(primaryKey, rows, b)
    {
      assert Replay(primaryKey, seen, b).value == seen;
    }
  }

  lemma InsertedAfterInsert(primaryKey: string, a: seq<OverlayOp>, key: Value, row: NamedRow)
    requires KeyedOnce(primaryKey, a) && InsertsKeyed(primaryKey, a) && Lookup(row, primaryKey) == Some(key)
    ensures InsertedView(primaryKey, a + [InsertRow(key, row)])
         == StoredView(primaryKey, InsertedView(primaryKey, a), [InsertRow(key, row)]) + {row}
    ensures AllKeyed(primaryKey, InsertedView(primaryKey, a))
  {
    var b := [InsertRow(key, row)];
    var middle := InsertedView(primaryKey, a);
    forall i | 0 <= i < |a| && a[i].InsertRow? {
      LineageConcat(primaryKey, a, b, i);
    }
    assert (a + b)[|a|] == b[0] && (a + b)[|a| + 1..] == [];
    assert Replay(primaryKey, row, []) == Some(row);
    forall seen
      ensures seen in InsertedView(primaryKey, a + b) <==> seen in StoredView(primaryKey, middle, b) || seen == row
    {
      if i :| 0 <= i < |a + b| && (a + b)[i].InsertRow? && Replay(primaryKey, (a + b)[i].row, (a + b)[i + 1..]) == Some(seen) {
        if i < |a| {
          assert (a + b)[i] == a[i];
          assert Replay(primaryKey, a[i].row, a[i + 1..]).value in middle;
        }
      }
      if between :| between in middle && Replay(primaryKey, between, b) == Some(seen) {
        var i :| 0 <= i < |a| && a[i].InsertRow? && Replay(primaryKey, a[i].row, a[i + 1..]) == Some(between);
        assert (a + b)[i] == a[i];
      }
    }
  }
}
