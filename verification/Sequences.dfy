/** Facts about finite sequences used by several modules. */
module Sequences {
  import opened Wrappers

  ghost predicate Distinct<T(!new)>(s: seq<T>) {
    forall i, j :: 0 <= i < j < |s| ==> s[i] != s[j]
  }

  ghost predicate Increasing(indexes: seq<nat>) {
    forall k, l :: 0 <= k < l < |indexes| ==> indexes[k] < indexes[l]
  }

  lemma SliceOfSlice<T>(s: seq<T>, start: nat, end: nat, from: nat, to: nat)
    requires start <= end <= |s| && from <= to <= end - start
    ensures s[start..end][from..to] == s[start + from..start + to]
  {
    forall i | 0 <= i < to - from
      ensures s[start..end][from..to][i] == s[start + from..start + to][i]
    {
    }
  }

  lemma SliceSplit<T>(s: seq<T>, start: nat, middle: nat, end: nat)
    requires start <= middle <= end <= |s|
    ensures s[start..end] == s[start..middle] + s[middle..end]
  {
  }

  lemma {:induction false} DistinctCardinality<T(!new)>(s: seq<T>)
    requires Distinct(s)
    ensures |(set x | x in s)| == |s|
  {
    if s != [] {
      var init, last := s[..|s| - 1], s[|s| - 1];
      DistinctCardinality(init);
      assert forall x :: x in s <==> x in init || x == last;
      assert (set x | x in s) == (set x | x in init) + {last};
    }
  }

  lemma SubsetOfSameSize<T>(a: set<T>, b: set<T>)
    requires a <= b && |a| == |b|
    ensures a == b
  {
    assert |b - a| == |b| - |a|;
  }

  function Image<A, B>(s: set<A>, f: A -> B): set<B> {
    set x | x in s :: f(x)
  }

  /** A function maps a set to at most as many values, and to as many exactly if it is injective on it. */
  lemma {:induction false} ImageSize<A(!new), B>(s: set<A>, f: A -> B)
    ensures |Image(s, f)| <= |s|
    ensures |Image(s, f)| == |s| <==> forall x, y :: x in s && y in s && f(x) == f(y) ==> x == y
    decreases |s|
  {
    if s == {} {
      assert Image(s, f) == {};
    } else {
      var x :| x in s;
      var rest := s - {x};
      ImageSize(rest, f);
      assert Image(s, f) == Image(rest, f) + {f(x)};
      if f(x) in Image(rest, f) {
        var y :| y in rest && f(y) == f(x);
      }
    }
  }

  lemma TwiceInMultiset<T>(s: seq<T>, i: nat, j: nat)
    requires i < j < |s| && s[i] == s[j]
    ensures multiset(s)[s[i]] >= 2
  {
    assert s == s[..j] + [s[j]] + s[j + 1..];
    assert s[i] in s[..j];
  }

  lemma ConcatParts<T>(a: seq<T>, b: seq<T>, c: seq<T>)
    ensures (a + b + c)[..|a|] == a
    ensures (a + b + c)[|a|..|a| + |b|] == b
    ensures (a + b + c)[|a| + |b|..] == c
  {
  }

  // Distinct numbers that fill a range of their own size cover it.
  lemma DistinctCover(seen: seq<nat>, start: nat, count: nat)
    requires |seen| == count && Distinct(seen)
    requires forall k :: 0 <= k < count ==> start <= seen[k] < start + count
    ensures forall page: nat :: start <= page < start + count ==> page in seen
  {
    var members := set x | x in seen;
    var range := RangeSet(start, count);
    DistinctCardinality(seen);
    assert members <= range;
    SubsetOfSameSize(members, range);
    forall page: nat | start <= page < start + count
      ensures page in seen
    {
      assert page in range;
    }
  }

  function RangeSet(start: nat, count: nat): (s: set<nat>)
    ensures |s| == count
    ensures forall x: nat :: x in s <==> start <= x < start + count
  {
    if count == 0 then {} else RangeSet(start, count - 1) + {start + count - 1}
  }

  lemma MultisetWithout<T>(s: seq<T>, k: nat)
    requires k < |s|
    ensures multiset(s) == multiset(s[..k] + s[k + 1..]) + multiset{s[k]}
  {
    assert s == s[..k] + [s[k]] + s[k + 1..];
  }

  /** The first index at which `x` occurs. */
  function Position<T(==)>(s: seq<T>, x: T): (index: Option<nat>)
    ensures index.None? <==> x !in s
    ensures index.Some? ==> index.value < |s| && s[index.value] == x
  {
    if s == [] then None
    else if s[0] == x then Some(0)
    else match Position(s[1..], x)
      case None => None
      case Some(i) => Some(i + 1)
  }

  lemma PositionOfDistinct<T(!new)>(s: seq<T>, i: nat)
    requires Distinct(s) && i < |s|
    ensures Position(s, s[i]) == Some(i)
  {
  }

  function Map<A, B>(f: A -> B, s: seq<A>): (mapped: seq<B>)
    ensures |mapped| == |s|
    ensures forall i :: 0 <= i < |s| ==> mapped[i] == f(s[i])
  {
    seq(|s|, i requires 0 <= i < |s| => f(s[i]))
  }

  lemma MapHead<A, B>(f: A -> B, s: seq<A>)
    requires s != []
    ensures Map(f, s) == [f(s[0])] + Map(f, s[1..])
  {
  }
}
