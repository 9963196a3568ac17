/**
 Offset and limit: the streaming loop of the plain select, which stops reading
 as soon as the page is full, against filtering everything and cutting the page.
 */
module Pagination {
  import opened Wrappers
  import opened Sequences

  /** The page of `rows` that starts after `offset` rows and has at most `limit` rows. */
  function PageOf<T>(rows: seq<T>, offset: nat, limit: Option<nat>): (page: seq<T>)
    ensures limit.Some? ==> |page| <= limit.value
  {
    var rest := if offset >= |rows| then [] else rows[offset..];
    if limit.Some? && limit.value < |rest| then rest[..limit.value] else rest
  }

  /** The rows that pass a filter, in order, or the error of the first row that cannot be evaluated. */
  function FilterRows<T, E>(rows: seq<T>, matches: T -> Result<bool, E>): (r: Result<seq<T>, E>)
    ensures r.Ok? ==> |r.value| <= |rows|
  {
    if rows == [] then Ok([])
    else
      match FilterRows(rows[..|rows| - 1], matches)
      case Err(error) => Err(error)
      case Ok(kept) =>
        match matches(rows[|rows| - 1])
        case Err(error) => Err(error)
        case Ok(matched) => Ok(if matched then kept + [rows[|rows| - 1]] else kept)
  }

  /** The page: `offset` rows are skipped, and at most `limit` of the rest taken, in order. */
  lemma PageRows<T>(rows: seq<T>, offset: nat, limit: Option<nat>)
    ensures var page, left := PageOf(rows, offset, limit), if offset <= |rows| then |rows| - offset else 0;
            && |page| == (if limit.Some? && limit.value < left then limit.value else left)
            && forall k :: 0 <= k < |page| ==> offset + k < |rows| && page[k] == rows[offset + k]
  {
  }

  /** Filtering fails exactly if some row cannot be evaluated, with the first such row's error. */
  lemma {:induction false} FirstFailure<T, E>(rows: seq<T>, matches: T -> Result<bool, E>)
    ensures FilterRows(rows, matches).Ok? <==> forall i :: 0 <= i < |rows| ==> matches(rows[i]).Ok?
    ensures FilterRows(rows, matches).Err? ==>
              exists i :: 0 <= i < |rows| && matches(rows[i]) == Err(FilterRows(rows, matches).error)
                          && forall j :: 0 <= j < i ==> matches(rows[j]).Ok?
  {
    if rows != [] {
      var n := |rows| - 1;
      var init := rows[..n];
      FirstFailure(init, matches);
      assert forall i :: 0 <= i < n ==> init[i] == rows[i];
      if FilterRows(init, matches).Err? {
        var i :| 0 <= i < n && matches(init[i]) == Err(FilterRows(init, matches).error)
                 && forall j :: 0 <= j < i ==> matches(init[j]).Ok?;
        assert matches(rows[i]).Err?;
      } else if matches(rows[n]).Err? {
        assert FilterRows(rows, matches) == Err(matches(rows[n]).error);
      }
    }
  }

  /** Filtering keeps exactly the rows that match, in order. */
  lemma {:induction false} FilterKeeps<T, E>(rows: seq<T>, matches: T -> Result<bool, E>) returns (kept: seq<nat>)
    requires FilterRows(rows, matches).Ok?
    ensures Increasing(kept) && |kept| == |FilterRows(rows, matches).value|
    ensures forall i: nat :: i in kept <==> i < |rows| && matches(rows[i]) == Ok(true)
    ensures forall k :: 0 <= k < |kept| ==> kept[k] < |rows| && FilterRows(rows, matches).value[k] == rows[kept[k]]
  {
    kept := [];
    if rows != [] {
      var n := |rows| - 1;
      var init := rows[..n];
      kept := FilterKeeps(init, matches);
      assert forall i :: 0 <= i < n ==> init[i] == rows[i];
      assert forall k :: 0 <= k < |kept| ==> kept[k] in kept;
      if matches(rows[n]) == Ok(true) {
        kept := kept + [n];
      }
    }
  }

  lemma FilterStep<T, E>(rows: seq<T>, matches: T -> Result<bool, E>, i: nat)
    requires i < |rows|
    ensures FilterRows(rows[..i + 1], matches)
         == match FilterRows(rows[..i], matches)
            case Err(error) => Err(error)
            case Ok(kept) =>
              match matches(rows[i])
              case Err(error) => Err(error)
              case Ok(matched) => Ok(if matched then kept + [rows[i]] else kept)
  {
    assert rows[..i + 1][..i] == rows[..i];
  }

  // The outcome on a prefix is kept by the whole: its error, or its rows as a prefix.
  lemma {:induction false} FilterPrefix<T, E>(rows: seq<T>, matches: T -> Result<bool, E>, i: nat)
    requires i <= |rows|
    ensures FilterRows(rows[..i], matches).Err? ==> FilterRows(rows, matches) == FilterRows(rows[..i], matches)
    ensures FilterRows(rows, matches).Ok? ==>
              FilterRows(rows[..i], matches).Ok? && FilterRows(rows[..i], matches).value <= FilterRows(rows, matches).value
    decreases |rows| - i
  {
    if i < |rows| {
      FilterPrefix(rows, matches, i + 1);
      FilterStep(rows, matches, i);
    } else {
      assert rows[..i] == rows;
    }
  }

  lemma PageGrows<T>(rows: seq<T>, row: T, offset: nat)
    ensures PageOf(rows + [row], offset, None) == if |rows| < offset then [] else PageOf(rows, offset, None) + [row]
  {
  }

  // A full page does not change when more rows follow.
  lemma FullPage<T>(some: seq<T>, all: seq<T>, offset: nat, limit: nat)
    requires some <= all && |PageOf(some, offset, None)| >= limit
    ensures PageOf(all, offset, Some(limit)) == PageOf(some, offset, Some(limit))
  {
  }

  /** How many rows can be evaluated before the first that fails. */
  function Evaluable<T, E>(rows: seq<T>, matches: T -> Result<bool, E>): (count: nat)
    ensures count <= |rows|
    ensures forall k :: 0 <= k < count ==> matches(rows[k]).Ok?
    ensures count < |rows| ==> matches(rows[count]).Err?
  {
    if rows == [] then 0
    else if matches(rows[0]).Err? then 0
    else 1 + Evaluable(rows[1..], matches)
  }

  /** The rows that match before the first row that fails. */
  function Kept<T, E>(rows: seq<T>, matches: T -> Result<bool, E>): (kept: seq<T>)
    ensures |kept| <= |rows|
  {
    AllEvaluable(rows[..Evaluable(rows, matches)], matches);
    FilterRows(rows[..Evaluable(rows, matches)], matches).value
  }

  lemma {:induction false} AllEvaluable<T, E>(rows: seq<T>, matches: T -> Result<bool, E>)
    requires forall k :: 0 <= k < |rows| ==> matches(rows[k]).Ok?
    ensures FilterRows(rows, matches).Ok?
    decreases |rows|
  {
    if rows != [] {
      AllEvaluable(rows[..|rows| - 1], matches);
    }
  }

  /** How many matches the scan reads before it stops; with limit zero it still looks for one row of the page. */
  function Needed(offset: nat, limit: nat): nat {
    offset + if limit == 0 then 1 else limit
  }

  /** Whether the page is full before any row fails. */
  predicate Fills<T, E>(rows: seq<T>, matches: T -> Result<bool, E>, offset: nat, limit: Option<nat>) {
    limit.Some? && |Kept(rows, matches)| >= Needed(offset, limit.value)
  }

  /**
   What the scan with early exit returns: the page of the rows that match before the first
   failing row, if there is no such row or the page is full before it; else its error.
   */
  function Streamed<T, E>(rows: seq<T>, matches: T -> Result<bool, E>, offset: nat, limit: Option<nat>): Result<seq<T>, E> {
    var count := Evaluable(rows, matches);
    if count == |rows| || Fills(rows, matches, offset, limit) then Ok(PageOf(Kept(rows, matches), offset, limit))
    else Err(matches(rows[count]).error)
  }

  /** Filtering every row first and cutting the page afterwards. */
  function FilteredPage<T, E>(rows: seq<T>, matches: T -> Result<bool, E>, offset: nat, limit: Option<nat>): Result<seq<T>, E> {
    match FilterRows(rows, matches)
    case Err(error) => Err(error)
    case Ok(kept) => Ok(PageOf(kept, offset, limit))
  }

  // The full evaluation is decided by the first row that fails.
  lemma FilterOutcome<T, E>(rows: seq<T>, matches: T -> Result<bool, E>)
    ensures var count := Evaluable(rows, matches);
            FilterRows(rows, matches) == if count == |rows| then Ok(Kept(rows, matches)) else Err(matches(rows[count]).error)
  {
    var count := Evaluable(rows, matches);
    AllEvaluable(rows[..count], matches);
    if count == |rows| {
      assert rows[..count] == rows;
    } else {
      FilterFails(rows, matches, count);
    }
  }

  lemma FilterFails<T, E>(rows: seq<T>, matches: T -> Result<bool, E>, i: nat)
    requires i < |rows| && FilterRows(rows[..i], matches).Ok? && matches(rows[i]).Err?
    ensures FilterRows(rows, matches) == Err(matches(rows[i]).error)
  {
    hide FilterRows;
    FilterStep(rows, matches, i);
    FilterPrefix(rows, matches, i + 1);
  }

  /** Streaming equals filtering everything exactly when no row fails, or the page is not full before the first that does. */
  lemma StreamedIsFiltered<T, E>(rows: seq<T>, matches: T -> Result<bool, E>, offset: nat, limit: Option<nat>)
    ensures Streamed(rows, matches, offset, limit) == FilteredPage(rows, matches, offset, limit)
       <==> Evaluable(rows, matches) == |rows| || !Fills(rows, matches, offset, limit)
  {
    FilterOutcome(rows, matches);
  }

  function FailsOnOdd(n: int): Result<bool, ()> {
    if n % 2 == 0 then Ok(true) else Err(())
  }

  /** The second row fails, and a page of one row hides it. */
  lemma HiddenError()
    ensures Streamed([2, 3], FailsOnOdd, 0, Some(1)) == Ok([2])
    ensures FilteredPage([2, 3], FailsOnOdd, 0, Some(1)) == Err(())
  {
    var rows := [2, 3];
    assert rows[1..] == [3];
    assert Evaluable(rows, FailsOnOdd) == 1 && rows[..1] == [2] && rows[..1][..0] == [];
    FilterOutcome(rows, FailsOnOdd);
  }

  /** The scan loop after `i` rows, with the page not yet full. */
  ghost predicate Scanned<T(!new), E(!new)>(rows: seq<T>, matches: T -> Result<bool, E>, offset: nat, limit: Option<nat>,
                                            i: nat, count: nat, results: seq<T>)
    requires i <= |rows|
  {
    var kept := FilterRows(rows[..i], matches);
    && kept.Ok? && count == |kept.value| && results == PageOf(kept.value, offset, None)
    && (limit.Some? ==> count < Needed(offset, limit.value))
  }

  lemma {:induction false} OkIsEvaluable<T, E>(rows: seq<T>, matches: T -> Result<bool, E>, i: nat)
    requires i <= |rows| && FilterRows(rows[..i], matches).Ok?
    ensures forall k :: 0 <= k < i ==> matches(rows[k]).Ok?
    decreases i
  {
    if i > 0 {
      FilterStep(rows, matches, i - 1);
      OkIsEvaluable(rows, matches, i - 1);
    }
  }

  // Rows that were evaluated come before the first that fails.
  lemma {:induction false} EvaluatedPrefix<T, E>(rows: seq<T>, matches: T -> Result<bool, E>, i: nat)
    requires i <= |rows| && FilterRows(rows[..i], matches).Ok?
    ensures i <= Evaluable(rows, matches) && FilterRows(rows[..i], matches).value <= Kept(rows, matches)
    ensures i < |rows| && matches(rows[i]).Err? ==> Evaluable(rows, matches) == i
  {
    var count := Evaluable(rows, matches);
    OkIsEvaluable(rows, matches, i);
    AllEvaluable(rows[..count], matches);
    assert rows[..count][..i] == rows[..i];
    FilterPrefix(rows[..count], matches, i);
  }

  // The row at hand fails before the page is full.
  lemma ScanFails<T(!new), E(!new)>(rows: seq<T>, matches: T -> Result<bool, E>, offset: nat, limit: Option<nat>,
                                    i: nat, count: nat, results: seq<T>)
    requires i < |rows| && Scanned(rows, matches, offset, limit, i, count, results) && matches(rows[i]).Err?
    ensures Streamed(rows, matches, offset, limit) == Err(matches(rows[i]).error)
  {
    EvaluatedPrefix(rows, matches, i);
  }

  // The row at hand completes the page.
  lemma ScanFills<T(!new), E(!new)>(rows: seq<T>, matches: T -> Result<bool, E>, offset: nat, limit: nat, i: nat, results: seq<T>)
    requires i <= |rows| && FilterRows(rows[..i], matches).Ok?
    requires |FilterRows(rows[..i], matches).value| == Needed(offset, limit)
    requires results == PageOf(FilterRows(rows[..i], matches).value, offset, Some(limit))
    ensures Streamed(rows, matches, offset, Some(limit)) == Ok(results)
  {
    EvaluatedPrefix(rows, matches, i);
    FullPage(FilterRows(rows[..i], matches).value, Kept(rows, matches), offset, limit);
  }

  // One more matching row, counted and perhaps shown.
  lemma ScanMatches<T(!new), E(!new)>(rows: seq<T>, matches: T -> Result<bool, E>, offset: nat, limit: Option<nat>,
                                      i: nat, count: nat, results: seq<T>)
    requires i < |rows| && Scanned(rows, matches, offset, limit, i, count, results) && matches(rows[i]) == Ok(true)
    ensures var kept := FilterRows(rows[..i + 1], matches);
            && kept.Ok? && |kept.value| == count + 1
            && PageOf(kept.value, offset, None) == (if count < offset then [] else results + [rows[i]])
            && |results| == if count < offset then 0 else count - offset
  {
    FilterStep(rows, matches, i);
    PageGrows(FilterRows(rows[..i], matches).value, rows[i], offset);
  }

  lemma ScanSkips<T(!new), E(!new)>(rows: seq<T>, matches: T -> Result<bool, E>, offset: nat, limit: Option<nat>,
                                    i: nat, count: nat, results: seq<T>)
    requires i < |rows| && Scanned(rows, matches, offset, limit, i, count, results) && matches(rows[i]) == Ok(false)
    ensures Scanned(rows, matches, offset, limit, i + 1, count, results)
  {
    FilterStep(rows, matches, i);
  }

  /** One row of the scan loop: the next state, or the outcome when the loop ends here. */
  method ScanRow<T(!new), E(!new)>(rows: seq<T>, matches: T -> Result<bool, E>, offset: Option<nat>, limit: Option<nat>,
                                   ghost skip: nat, i: nat, count: nat, results: seq<T>)
    returns (outcome: Option<Result<seq<T>, E>>, count': nat, results': seq<T>)
    requires skip == (if offset.Some? then offset.value else 0)
    requires i < |rows| && Scanned(rows, matches, skip, limit, i, count, results)
    ensures outcome.Some? ==> outcome.value == Streamed(rows, matches, skip, limit)
    ensures outcome.None? ==> Scanned(rows, matches, skip, limit, i + 1, count', results')
  {
    hide Streamed;
    outcome, count', results' := None, count, results;
    var matched := matches(rows[i]);
    if matched.Err? {
      ScanFails(rows, matches, skip, limit, i, count, results);
      return Some(Err(matched.error)), count, results;
    }
    if !matched.value {
      ScanSkips(rows, matches, skip, limit, i, count, results);
      return;
    }
    ScanMatches(rows, matches, skip, limit, i, count, results);
    count' := count + 1;
    if offset.Some? && count' <= offset.value {
      return;
    }
    if limit.Some? && |results| >= limit.value {
      ScanFills(rows, matches, skip, limit.value, i + 1, results);
      return Some(Ok(results)), count', results;
    }
    results' := results + [rows[i]];
    if limit.Some? && |results'| >= limit.value {
      ScanFills(rows, matches, skip, limit.value, i + 1, results');
      return Some(Ok(results')), count', results';
    }
  }

  /** The scan loop without ordering: rows are filtered and counted until the page is full. */
  method StreamPage<T(!new), E(!new)>(rows: seq<T>, matches: T -> Result<bool, E>, offset: Option<nat>, limit: Option<nat>)
    returns (r: Result<seq<T>, E>)
    ensures r == Streamed(rows, matches, if offset.Some? then offset.value else 0, limit)
  {
    var results: seq<T>, count := [], 0;
    ghost var skip := if offset.Some? then offset.value else 0;
    assert rows[..0] == [];
    for i := 0 to |rows|
      invariant Scanned(rows, matches, skip, limit, i, count, results)
    {
      var outcome;
      outcome, count, results := ScanRow(rows, matches, offset, limit, skip, i, count, results);
      if outcome.Some? {
        return outcome.value;
      }
    }
    ScannedAll(rows, matches, skip, count, results, limit);
    return Ok(results);
  }

  lemma ScannedAll<T(!new), E(!new)>(rows: seq<T>, matches: T -> Result<bool, E>, offset: nat, count: nat, results: seq<T>, limit: Option<nat>)
    requires Scanned(rows, matches, offset, limit, |rows|, count, results)
    ensures Streamed(rows, matches, offset, limit) == Ok(results)
  {
    assert rows[..|rows|] == rows;
    EvaluatedPrefix(rows, matches, |rows|);
  }

  /** Cutting the page from the first `offset + limit` rows is cutting it from all rows. */
  lemma PageOfFirst<T>(rows: seq<T>, first: seq<T>, offset: nat, limit: nat)
    requires first <= rows && (|first| >= offset + limit || first == rows)
    ensures PageOf(first, offset, Some(limit)) == PageOf(rows, offset, Some(limit))
  {
  }

  /** Cutting in two steps, as after sorting: first drop the offset, then truncate. */
  method CutPage<T>(rows: seq<T>, offset: Option<nat>, limit: Option<nat>) returns (page: seq<T>)
    ensures page == PageOf(rows, if offset.Some? then offset.value else 0, limit)
  {
    page := rows;
    var skip := if offset.Some? then offset.value else 0;
    if skip > 0 {
      if skip >= |page| {
        page := [];
      } else {
        page := page[skip..];
      }
    }
    if limit.Some? && limit.value < |page| {
      page := page[..limit.value];
    }
  }
}
