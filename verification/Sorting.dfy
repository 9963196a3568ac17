/**
 Ordering of query results: one stable sort per order key, from the last key to
 the first, as in both the plain select and the join. The passes together are
 shown to be one stable sort by all keys in turn.
 */
module Sorting {
  import opened Wrappers
  import opened Sequences

  /** Negative, zero or positive, as the first argument comes before, with or after the second. */
  type Compare<!R> = (R, R) -> int

  datatype Direction = Ascending | Descending

  predicate SameSign(a: int, b: int) {
    (a < 0 <==> b < 0) && (a > 0 <==> b > 0)
  }

  /** A comparison by which a stable sort is meaningful. */
  ghost predicate TotalPreorder<R(!new)>(compare: Compare<R>) {
    && (forall x, y :: SameSign(compare(x, y), -compare(y, x)))
    && (forall x, y, z :: compare(x, y) <= 0 && compare(y, z) <= 0 ==> compare(x, z) <= 0)
  }

  lemma StrictTransitive<R(!new)>(compare: Compare<R>, x: R, y: R, z: R)
    requires TotalPreorder(compare)
    requires compare(x, y) <= 0 && compare(y, z) <= 0
    ensures compare(x, z) <= 0
    ensures compare(x, y) < 0 || compare(y, z) < 0 ==> compare(x, z) < 0
  {
    if compare(x, z) == 0 {
      assert SameSign(compare(x, z), -compare(z, x));
      assert SameSign(compare(x, y), -compare(y, x));
      assert SameSign(compare(y, z), -compare(z, y));
      assert compare(y, z) <= 0 && compare(z, x) <= 0 ==> compare(y, x) <= 0;
      assert compare(z, x) <= 0 && compare(x, y) <= 0 ==> compare(z, y) <= 0;
    }
  }

  // ----- Comparing rows

  /** Optional values: a missing value comes first in either direction. */
  function SortValues<V>(compare: Compare<V>, a: Option<V>, b: Option<V>, direction: Direction): int {
    match (a, b)
    case (Some(x), Some(y)) => if direction.Ascending? then compare(x, y) else compare(y, x)
    case (Some(_), None) => 1
    case (None, Some(_)) => -1
    case (None, None) => 0
  }

  /** How rows are ordered: the value of a column, a comparison of values, and the keys. */
  datatype Order<!R, !C, !V> = Order(value: (R, C) -> Option<V>, compare: Compare<V>)

  type Keys<C> = seq<(C, Direction)>

  function ByKey<R, C, V>(order: Order<R, C, V>, key: (C, Direction)): Compare<R> {
    (x, y) => SortValues(order.compare, order.value(x, key.0), order.value(y, key.0), key.1)
  }

  /** The first key on which the rows differ decides. */
  function Lexicographic<R, C, V>(order: Order<R, C, V>, keys: Keys<C>, x: R, y: R): int {
    if keys == [] then 0
    else
      var first := ByKey(order, keys[0])(x, y);
      if first != 0 then first else Lexicographic(order, keys[1..], x, y)
  }

  function ByKeys<R, C, V>(order: Order<R, C, V>, keys: Keys<C>): Compare<R> {
    (x, y) => Lexicographic(order, keys, x, y)
  }

  lemma ByKeyPreorder<R(!new), C, V(!new)>(order: Order<R, C, V>, key: (C, Direction))
    requires TotalPreorder(order.compare)
    ensures TotalPreorder(ByKey(order, key))
  {
    var cmp := ByKey(order, key);
    forall x, y
      ensures SameSign(cmp(x, y), -cmp(y, x))
    {
      var a, b := order.value(x, key.0), order.value(y, key.0);
      if a.Some? && b.Some? {
        assert SameSign(order.compare(a.value, b.value), -order.compare(b.value, a.value));
      }
    }
    forall x, y, z | cmp(x, y) <= 0 && cmp(y, z) <= 0
      ensures cmp(x, z) <= 0
    {
      var a, b, c := order.value(x, key.0), order.value(y, key.0), order.value(z, key.0);
      if a.Some? && b.Some? && c.Some? {
        assert order.compare(a.value, b.value) <= 0 && order.compare(b.value, c.value) <= 0
          ==> order.compare(a.value, c.value) <= 0;
        assert order.compare(c.value, b.value) <= 0 && order.compare(b.value, a.value) <= 0
          ==> order.compare(c.value, a.value) <= 0;
      }
    }
  }

  lemma {:induction false} ByKeysPreorder<R(!new), C, V(!new)>(order: Order<R, C, V>, keys: Keys<C>)
    requires TotalPreorder(order.compare)
    ensures TotalPreorder(ByKeys(order, keys))
  {
    if keys != [] {
      ByKeyPreorder(order, keys[0]);
      ByKeysPreorder(order, keys[1..]);
      var first, rest := ByKey(order, keys[0]), ByKeys(order, keys[1..]);
      var all := ByKeys(order, keys);
      forall x, y
        ensures SameSign(all(x, y), -all(y, x))
      {
        assert SameSign(first(x, y), -first(y, x));
        assert SameSign(rest(x, y), -rest(y, x));
      }
      forall x, y, z | all(x, y) <= 0 && all(y, z) <= 0
        ensures all(x, z) <= 0
      {
        StrictTransitive(first, x, y, z);
        if first(x, y) == 0 && first(y, z) == 0 {
          assert rest(x, y) <= 0 && rest(y, z) <= 0 ==> rest(x, z) <= 0;
        }
      }
    }
  }

  /** By one key, `x` comes sooner than `y`: a missing value first, then by value in the direction of the key. */
  ghost predicate Sooner<R(!new), C, V(!new)>(order: Order<R, C, V>, key: (C, Direction), x: R, y: R) {
    var a, b := order.value(x, key.0), order.value(y, key.0);
    || (a.None? && b.Some?)
    || (a.Some? && b.Some? && if key.1 == Ascending then order.compare(a.value, b.value) < 0 else order.compare(a.value, b.value) > 0)
  }

  ghost predicate Ties<R(!new), C, V(!new)>(order: Order<R, C, V>, key: (C, Direction), x: R, y: R) {
    var a, b := order.value(x, key.0), order.value(y, key.0);
    (a.None? && b.None?) || (a.Some? && b.Some? && order.compare(a.value, b.value) == 0)
  }

  lemma KeyLaw<R(!new), C, V(!new)>(order: Order<R, C, V>, key: (C, Direction), x: R, y: R)
    requires TotalPreorder(order.compare)
    ensures ByKey(order, key)(x, y) < 0 <==> Sooner(order, key, x, y)
    ensures ByKey(order, key)(x, y) == 0 <==> Ties(order, key, x, y)
  {
    var a, b := order.value(x, key.0), order.value(y, key.0);
    if a.Some? && b.Some? {
      assert SameSign(order.compare(a.value, b.value), -order.compare(b.value, a.value));
    }
  }

  ghost predicate SoonerByKeys<R(!new), C, V(!new)>(order: Order<R, C, V>, keys: Keys<C>, x: R, y: R) {
    exists k :: 0 <= k < |keys| && Sooner(order, keys[k], x, y) && forall l :: 0 <= l < k ==> Ties(order, keys[l], x, y)
  }

  ghost predicate TiesByKeys<R(!new), C, V(!new)>(order: Order<R, C, V>, keys: Keys<C>, x: R, y: R) {
    forall k :: 0 <= k < |keys| ==> Ties(order, keys[k], x, y)
  }

  /** The first key on which two rows differ decides. */
  lemma {:induction false} KeysLaw<R(!new), C, V(!new)>(order: Order<R, C, V>, keys: Keys<C>, x: R, y: R)
    requires TotalPreorder(order.compare)
    ensures ByKeys(order, keys)(x, y) < 0 <==> SoonerByKeys(order, keys, x, y)
    ensures ByKeys(order, keys)(x, y) == 0 <==> TiesByKeys(order, keys, x, y)
    decreases |keys|
  {
    hide Sooner, Ties;
    if keys != [] {
      var rest := keys[1..];
      KeyLaw(order, keys[0], x, y);
      KeysLaw(order, rest, x, y);
      assert forall k :: 0 <= k < |rest| ==> rest[k] == keys[k + 1];
      if Ties(order, keys[0], x, y) {
        if SoonerByKeys(order, rest, x, y) {
          var k :| 0 <= k < |rest| && Sooner(order, rest[k], x, y) && forall l :: 0 <= l < k ==> Ties(order, rest[l], x, y);
          assert Sooner(order, keys[k + 1], x, y);
        }
        if SoonerByKeys(order, keys, x, y) {
          var k :| 0 <= k < |keys| && Sooner(order, keys[k], x, y) && forall l :: 0 <= l < k ==> Ties(order, keys[l], x, y);
          SoonerIsNoTie(order, keys[0], x, y);
          assert k > 0 && Sooner(order, rest[k - 1], x, y);
        }
      } else if Sooner(order, keys[0], x, y) {
        assert SoonerByKeys(order, keys, x, y);
      }
    }
  }

  lemma SoonerIsNoTie<R(!new), C, V(!new)>(order: Order<R, C, V>, key: (C, Direction), x: R, y: R)
    ensures !(Sooner(order, key, x, y) && Ties(order, key, x, y))
  {
  }

  // ----- Stable sorting

  /** `positions` lists every index of a sequence of length `count` once. */
  ghost predicate Permutation(positions: seq<nat>, count: nat) {
    && |positions| == count
    && Distinct(positions)
    && forall i :: 0 <= i < count ==> positions[i] < count
  }

  function Rearranged<R>(rows: seq<R>, positions: seq<nat>): (result: seq<R>)
    requires forall i :: 0 <= i < |positions| ==> positions[i] < |rows|
    ensures |result| == |positions|
  {
    seq(|positions|, i requires 0 <= i < |positions| => rows[positions[i]])
  }

  /** Row `a` must come before row `b`: it is smaller, or equal and earlier in the input. */
  ghost predicate Before<R(!new)>(rows: seq<R>, compare: Compare<R>, a: nat, b: nat)
    requires a < |rows| && b < |rows|
  {
    compare(rows[a], rows[b]) < 0 || (compare(rows[a], rows[b]) == 0 && a < b)
  }

  /** `sorted` is `rows` in the order of `positions`, sorted, with ties in input order. */
  ghost predicate StablySorted<R(!new)>(rows: seq<R>, compare: Compare<R>, positions: seq<nat>, sorted: seq<R>) {
    && Permutation(positions, |rows|)
    && sorted == Rearranged(rows, positions)
    && forall i, j :: 0 <= i < j < |rows| ==> Before(rows, compare, positions[i], positions[j])
  }

  /** Two stable sorts, the later by the more significant comparison, are one by both. */
  lemma PassesCompose<R(!new)>(rows: seq<R>, minor: Compare<R>, p: seq<nat>, middle: seq<R>,
                               major: Compare<R>, q: seq<nat>, sorted: seq<R>, both: Compare<R>)
    requires StablySorted(rows, minor, p, middle) && StablySorted(middle, major, q, sorted)
    requires forall x, y :: both(x, y) == if major(x, y) != 0 then major(x, y) else minor(x, y)
    ensures StablySorted(rows, both, Rearranged(p, q), sorted)
  {
    var pq := Rearranged(p, q);
    forall i, j | 0 <= i < j < |rows|
      ensures pq[i] != pq[j] && Before(rows, both, pq[i], pq[j])
    {
      assert q[i] != q[j] && Before(middle, major, q[i], q[j]);
      if q[i] < q[j] {
        assert Before(rows, minor, p[q[i]], p[q[j]]);
      }
    }
  }

  lemma NoPassNeeded<R(!new), C, V>(rows: seq<R>, order: Order<R, C, V>) returns (positions: seq<nat>)
    ensures StablySorted(rows, ByKeys(order, []), positions, rows)
  {
    positions := seq(|rows|, i => i);
    assert Rearranged(rows, positions) == rows;
  }

  /** A stable sort is unique: sortedness, stability and the input determine the output. */
  lemma StableSortIsUnique<R(!new)>(rows: seq<R>, compare: Compare<R>, p: seq<nat>, a: seq<R>, q: seq<nat>, b: seq<R>)
    requires TotalPreorder(compare)
    requires StablySorted(rows, compare, p, a) && StablySorted(rows, compare, q, b)
    ensures a == b
  {
    DistinctCover(p, 0, |rows|);
    DistinctCover(q, 0, |rows|);
    for k := 0 to |rows|
      invariant p[..k] == q[..k]
    {
      if p[k] != q[k] {
        var i := OccursLater(p, q, k);
        var j := OccursLater(q, p, k);
        NotBothBefore(rows, compare, p, q, k, i, j);
        assert false;
      }
    }
  }

  // An element that differs at `k` occurs later in the other permutation.
  lemma OccursLater(p: seq<nat>, q: seq<nat>, k: nat) returns (i: nat)
    requires k < |p| == |q| && p[..k] == q[..k] && p[k] != q[k]
    requires Distinct(p) && p[k] in q
    ensures k < i < |q| && q[i] == p[k]
  {
    assert forall j :: 0 <= j < k ==> p[..k][j] == p[j] && q[..k][j] == q[j];
    i :| i < |q| && q[i] == p[k];
  }

  lemma NotBothBefore<R(!new)>(rows: seq<R>, compare: Compare<R>, p: seq<nat>, q: seq<nat>, k: nat, i: nat, j: nat)
    requires TotalPreorder(compare) && Permutation(p, |rows|) && Permutation(q, |rows|)
    requires k < i < |rows| && k < j < |rows| && q[i] == p[k] && p[j] == q[k]
    requires Before(rows, compare, p[k], p[j])
    ensures !Before(rows, compare, q[k], q[i])
  {
    assert SameSign(compare(rows[p[k]], rows[q[k]]), -compare(rows[q[k]], rows[p[k]]));
  }

  // ----- The library sort, as insertion of one row after the other

  /** Inserts index `k` after every index whose row does not come after row `k`. */
  function InsertIndex<R>(rows: seq<R>, compare: Compare<R>, sorted: seq<nat>, k: nat): (result: seq<nat>)
    requires k < |rows| && forall i :: 0 <= i < |sorted| ==> sorted[i] < |rows|
    ensures |result| == |sorted| + 1
    ensures forall x: nat :: x in result <==> x in sorted || x == k
    ensures forall i :: 0 <= i < |result| ==> result[i] == k || result[i] in sorted
  {
    if sorted == [] then [k]
    else if compare(rows[sorted[0]], rows[k]) > 0 then [k] + sorted
    else [sorted[0]] + InsertIndex(rows, compare, sorted[1..], k)
  }

  function SortedIndexes<R>(rows: seq<R>, compare: Compare<R>, count: nat): (result: seq<nat>)
    requires count <= |rows|
    ensures |result| == count
    ensures forall x: nat :: x in result <==> x < count
  {
    if count == 0 then []
    else
      var init := SortedIndexes(rows, compare, count - 1);
      assert forall i :: 0 <= i < |init| ==> init[i] in init;
      InsertIndex(rows, compare, init, count - 1)
  }

  function StableSort<R>(rows: seq<R>, compare: Compare<R>): seq<R> {
    var positions := SortedIndexes(rows, compare, |rows|);
    assert forall i :: 0 <= i < |positions| ==> positions[i] in positions;
    Rearranged(rows, positions)
  }

  ghost predicate InOrder<R(!new)>(rows: seq<R>, compare: Compare<R>, positions: seq<nat>)
    requires forall i :: 0 <= i < |positions| ==> positions[i] < |rows|
  {
    && Distinct(positions)
    && forall i, j :: 0 <= i < j < |positions| ==> Before(rows, compare, positions[i], positions[j])
  }

  lemma PrependInOrder<R(!new)>(rows: seq<R>, compare: Compare<R>, x: nat, tail: seq<nat>)
    requires x < |rows| && forall i :: 0 <= i < |tail| ==> tail[i] < |rows|
    requires InOrder(rows, compare, tail)
    requires forall j :: 0 <= j < |tail| ==> x != tail[j] && Before(rows, compare, x, tail[j])
    ensures InOrder(rows, compare, [x] + tail)
  {
  }

  lemma {:induction false} InsertKeepsOrder<R(!new)>(rows: seq<R>, compare: Compare<R>, sorted: seq<nat>, k: nat)
    requires TotalPreorder(compare) && k < |rows|
    requires forall i :: 0 <= i < |sorted| ==> sorted[i] < k
    requires InOrder(rows, compare, sorted)
    ensures InOrder(rows, compare, InsertIndex(rows, compare, sorted, k))
  {
    if sorted == [] {
    } else if compare(rows[sorted[0]], rows[k]) > 0 {
      forall j | 0 <= j < |sorted|
        ensures Before(rows, compare, k, sorted[j])
      {
        InsertedFirst(rows, compare, sorted, k, j);
      }
      PrependInOrder(rows, compare, k, sorted);
    } else {
      var tail := sorted[1..];
      assert forall i :: 0 <= i < |tail| ==> tail[i] == sorted[i + 1];
      InsertKeepsOrder(rows, compare, tail, k);
      var inserted := InsertIndex(rows, compare, tail, k);
      forall j | 0 <= j < |inserted|
        ensures sorted[0] != inserted[j] && Before(rows, compare, sorted[0], inserted[j])
      {
        if inserted[j] != k {
          var t :| 0 <= t < |tail| && tail[t] == inserted[j];
          assert Before(rows, compare, sorted[0], sorted[t + 1]);
        }
      }
      PrependInOrder(rows, compare, sorted[0], inserted);
    }
  }

  // A row inserted before a larger one comes before everything after it.
  lemma InsertedFirst<R(!new)>(rows: seq<R>, compare: Compare<R>, sorted: seq<nat>, k: nat, j: nat)
    requires TotalPreorder(compare) && k < |rows| && j < |sorted|
    requires forall i :: 0 <= i < |sorted| ==> sorted[i] < |rows|
    requires InOrder(rows, compare, sorted)
    requires compare(rows[sorted[0]], rows[k]) > 0
    ensures Before(rows, compare, k, sorted[j])
  {
    assert SameSign(compare(rows[k], rows[sorted[0]]), -compare(rows[sorted[0]], rows[k]));
    if j > 0 {
      assert Before(rows, compare, sorted[0], sorted[j]);
      StrictTransitive(compare, rows[k], rows[sorted[0]], rows[sorted[j]]);
    }
  }

  lemma {:induction false} SortedIndexesInOrder<R(!new)>(rows: seq<R>, compare: Compare<R>, count: nat)
    requires TotalPreorder(compare) && count <= |rows|
    ensures forall i :: 0 <= i < count ==> SortedIndexes(rows, compare, count)[i] in SortedIndexes(rows, compare, count)
    ensures InOrder(rows, compare, SortedIndexes(rows, compare, count))
  {
    if count > 0 {
      SortedIndexesInOrder(rows, compare, count - 1);
      InsertKeepsOrder(rows, compare, SortedIndexes(rows, compare, count - 1), count - 1);
    }
  }

  /** The library sort is a stable sort. */
  lemma StableSortSorts<R(!new)>(rows: seq<R>, compare: Compare<R>)
    requires TotalPreorder(compare)
    ensures StablySorted(rows, compare, SortedIndexes(rows, compare, |rows|), StableSort(rows, compare))
  {
    SortedIndexesInOrder(rows, compare, |rows|);
  }

  /** What a stable sort permutes is exactly its input. */
  lemma StableSortPermutes<R(!new)>(rows: seq<R>, compare: Compare<R>)
    requires TotalPreorder(compare)
    ensures multiset(StableSort(rows, compare)) == multiset(rows)
  {
    StableSortSorts(rows, compare);
    PermutationMultiset(rows, SortedIndexes(rows, compare, |rows|));
  }

  // Leaving out the last row and its position leaves a permutation of the rest.
  lemma WithoutLast(positions: seq<nat>, count: nat, k: nat)
    requires Permutation(positions, count) && k < count && positions[k] == count - 1
    ensures Permutation(positions[..k] + positions[k + 1..], count - 1)
  {
    var rest := positions[..k] + positions[k + 1..];
    assert forall i :: 0 <= i < |rest| ==> rest[i] == positions[if i < k then i else i + 1];
  }

  lemma RearrangedWithout<R>(rows: seq<R>, positions: seq<nat>, k: nat)
    requires Permutation(positions, |rows|) && k < |positions| && positions[k] == |rows| - 1
    ensures var rest := positions[..k] + positions[k + 1..];
            var all := Rearranged(rows, positions);
            && Permutation(rest, |rows| - 1)
            && Rearranged(rows[..|rows| - 1], rest) == all[..k] + all[k + 1..]
  {
    WithoutLast(positions, |rows|, k);
  }

  lemma {:induction false} PermutationMultiset<R(!new)>(rows: seq<R>, positions: seq<nat>)
    requires Permutation(positions, |rows|)
    ensures multiset(Rearranged(rows, positions)) == multiset(rows)
    decreases |rows|
  {
    if rows != [] {
      var last: nat := |rows| - 1;
      DistinctCover(positions, 0, |rows|);
      assert last in positions;
      var k: nat :| k < |positions| && positions[k] == last;
      var rest := positions[..k] + positions[k + 1..];
      WithoutLast(positions, |rows|, k);
      PermutationMultiset(rows[..last], rest);
      var all := Rearranged(rows, positions);
      RearrangedWithout(rows, positions, k);
      MultisetWithout(all, k);
      MultisetWithout(rows, last);
      assert rows[..last] + rows[last + 1..] == rows[..last];
    }
  }

  // ----- Sorting by all order keys

  // Sorting by key `i` after the keys behind it is sorting by all of them.
  lemma OnePass<R(!new), C, V(!new)>(rows: seq<R>, order: Order<R, C, V>, keys: Keys<C>, i: nat,
                                     positions: seq<nat>, sorted: seq<R>) returns (next: seq<nat>)
    requires TotalPreorder(order.compare) && i < |keys|
    requires StablySorted(rows, ByKeys(order, keys[i + 1..]), positions, sorted)
    ensures StablySorted(rows, ByKeys(order, keys[i..]), next, StableSort(sorted, ByKey(order, keys[i])))
  {
    var pass := ByKey(order, keys[i]);
    var indexes := SortedIndexes(sorted, pass, |sorted|);
    ByKeyPreorder(order, keys[i]);
    StableSortSorts(sorted, pass);
    assert keys[i..][0] == keys[i] && keys[i..][1..] == keys[i + 1..];
    PassesCompose(rows, ByKeys(order, keys[i + 1..]), positions, sorted, pass, indexes,
                  StableSort(sorted, pass), ByKeys(order, keys[i..]));
    next := Rearranged(positions, indexes);
  }

  // A stable sort by all keys is the library sort by all keys, and a permutation of its input.
  lemma AllPasses<R(!new), C, V(!new)>(rows: seq<R>, order: Order<R, C, V>, keys: Keys<C>, positions: seq<nat>, sorted: seq<R>)
    requires TotalPreorder(order.compare) && StablySorted(rows, ByKeys(order, keys), positions, sorted)
    ensures sorted == StableSort(rows, ByKeys(order, keys))
    ensures multiset(sorted) == multiset(rows)
  {
    var compare := ByKeys(order, keys);
    ByKeysPreorder(order, keys);
    StableSortSorts(rows, compare);
    StableSortIsUnique(rows, compare, positions, sorted, SortedIndexes(rows, compare, |rows|), StableSort(rows, compare));
    PermutationMultiset(rows, positions);
  }

  /**
   The order-by loop: one stable pass per key, last key first. The result is the
   one stable sort by all keys lexicographically, missing values first.
   */
  method SortRows<R(!new), C, V(!new)>(rows: seq<R>, order: Order<R, C, V>, keys: Keys<C>) returns (sorted: seq<R>)
    requires TotalPreorder(order.compare)
    ensures sorted == StableSort(rows, ByKeys(order, keys))
    ensures exists positions :: StablySorted(rows, ByKeys(order, keys), positions, sorted)
    ensures multiset(sorted) == multiset(rows)
  {
    sorted := rows;
    ghost var positions := NoPassNeeded(rows, order);
    assert keys[|keys|..] == [];
    for i := |keys| downto 0
      invariant StablySorted(rows, ByKeys(order, keys[i..]), positions, sorted)
    {
      positions := OnePass(rows, order, keys, i, positions, sorted);
      sorted := StableSort(sorted, ByKey(order, keys[i]));
    }
    assert keys[0..] == keys;
    AllPasses(rows, order, keys, positions, sorted);
  }

  // ----- Sorting commutes with reading rows through a function

  /** Two sequences whose elements compare alike at equal positions. */
  ghost predicate CompareAlike<A, B>(a: seq<A>, ca: Compare<A>, b: seq<B>, cb: Compare<B>) {
    && |a| == |b|
    && forall i, j :: 0 <= i < |a| && 0 <= j < |a| ==> ca(a[i], a[j]) == cb(b[i], b[j])
  }

  lemma {:induction false} SameInsertion<A, B>(a: seq<A>, ca: Compare<A>, b: seq<B>, cb: Compare<B>, sorted: seq<nat>, k: nat)
    requires CompareAlike(a, ca, b, cb)
    requires k < |a| && forall i :: 0 <= i < |sorted| ==> sorted[i] < |a|
    ensures InsertIndex(a, ca, sorted, k) == InsertIndex(b, cb, sorted, k)
  {
    if sorted != [] {
      SameInsertion(a, ca, b, cb, sorted[1..], k);
    }
  }

  lemma {:induction false} SameIndexes<A, B>(a: seq<A>, ca: Compare<A>, b: seq<B>, cb: Compare<B>, count: nat)
    requires CompareAlike(a, ca, b, cb) && count <= |a|
    ensures SortedIndexes(a, ca, count) == SortedIndexes(b, cb, count)
  {
    if count > 0 {
      SameIndexes(a, ca, b, cb, count - 1);
      var init := SortedIndexes(a, ca, count - 1);
      assert forall i :: 0 <= i < |init| ==> init[i] in init;
      SameInsertion(a, ca, b, cb, init, count - 1);
    }
  }

  /** Sorting references to rows gives references to the sorted rows. */
  lemma SortCommutes<A, B>(f: A -> B, rows: seq<A>, ca: Compare<A>, cb: Compare<B>)
    requires CompareAlike(rows, ca, Map(f, rows), cb)
    ensures Map(f, StableSort(rows, ca)) == StableSort(Map(f, rows), cb)
  {
    SameIndexes(rows, ca, Map(f, rows), cb, |rows|);
    var positions := SortedIndexes(rows, ca, |rows|);
    assert forall i :: 0 <= i < |positions| ==> positions[i] in positions;
    assert Map(f, Rearranged(rows, positions)) == Rearranged(Map(f, rows), positions);
  }

  /** Sorting by keys: of two rows in the result the first is sooner by the keys, or they tie and keep their input order. */
  lemma SortedByKeys<R(!new), C, V(!new)>(rows: seq<R>, order: Order<R, C, V>, keys: Keys<C>) returns (positions: seq<nat>)
    requires TotalPreorder(order.compare)
    ensures Permutation(positions, |rows|) && |StableSort(rows, ByKeys(order, keys))| == |rows|
    ensures forall i :: 0 <= i < |rows| ==> StableSort(rows, ByKeys(order, keys))[i] == rows[positions[i]]
    ensures forall i, j :: 0 <= i < j < |rows| ==>
              || SoonerByKeys(order, keys, rows[positions[i]], rows[positions[j]])
              || (TiesByKeys(order, keys, rows[positions[i]], rows[positions[j]]) && positions[i] < positions[j])
  {
    hide SoonerByKeys, TiesByKeys;
    var compare := ByKeys(order, keys);
    ByKeysPreorder(order, keys);
    positions := SortedIndexes(rows, compare, |rows|);
    StableSortSorts(rows, compare);
    forall i, j | 0 <= i < j < |rows|
      ensures || SoonerByKeys(order, keys, rows[positions[i]], rows[positions[j]])
              || (TiesByKeys(order, keys, rows[positions[i]], rows[positions[j]]) && positions[i] < positions[j])
    {
      assert Before(rows, compare, positions[i], positions[j]);
      KeysLaw(order, keys, rows[positions[i]], rows[positions[j]]);
    }
  }
}
