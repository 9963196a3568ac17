/**
 Loading the pages of a checkpoint from the key-value store. The store answers
 batched reads in any order and is not trusted: a load succeeds exactly when
 every requested key came back once with a full page that matches its hash.
 */
module PageLoading {
  import opened Wrappers
  import opened Bytes
  import opened Pages
  import opened Sequences
  import opened Keys
  import opened Manifests

  const MAX_BATCH_PAGES: nat := 16

  type Store = map<string, seq<byte>>
  type Hash = seq<byte> -> u64

  /** What the store returned for one batch of keys. */
  type Answer = seq<(string, Option<seq<byte>>)>
  datatype BatchAnswer = Unavailable | Values(values: Answer)

  datatype LoadError =
    | StoreFailed
    | OmittedKey
    | UnexpectedKey
    | DuplicateKey
    | MissingValue
    | InvalidLength
    | HashMismatch
    | ClosingOmission

  // ----- What a trustworthy store holds

  function KeyOf(name: seq<byte>, checkpoint: Checkpoint, page: nat): string
    requires page < checkpoint.Pages()
  {
    PageKeyText(NamespaceText(name), page, checkpoint.slots[page])
  }

  predicate GoodPage(hash: Hash, value: Option<seq<byte>>, expected: u64) {
    value.Some? && |value.value| == PAGE_SIZE && hash(value.value) == expected
  }

  function Lookup(store: Store, key: string): Option<seq<byte>> {
    if key in store then Some(store[key]) else None
  }

  predicate Loadable(name: seq<byte>, hash: Hash, store: Store, checkpoint: Checkpoint)
    requires |checkpoint.slots| == |checkpoint.hashes|
  {
    forall p: nat :: p < checkpoint.Pages() ==>
      GoodPage(hash, Lookup(store, KeyOf(name, checkpoint, p)), checkpoint.hashes[p])
  }

  /** The first `pages` stored pages of a checkpoint, one after the other. */
  function Concatenate(name: seq<byte>, hash: Hash, store: Store, checkpoint: Checkpoint, pages: nat): (memory: seq<byte>)
    requires |checkpoint.slots| == |checkpoint.hashes| && Loadable(name, hash, store, checkpoint)
    requires pages <= checkpoint.Pages()
    ensures |memory| == pages * PAGE_SIZE
    ensures forall p: nat :: p < pages ==> PageSlice(memory, p) == store[KeyOf(name, checkpoint, p)]
  {
    if pages == 0 then []
    else
      assert GoodPage(hash, Lookup(store, KeyOf(name, checkpoint, pages - 1)), checkpoint.hashes[pages - 1]);
      var init := Concatenate(name, hash, store, checkpoint, pages - 1);
      AppendedPage(init, pages - 1, store[KeyOf(name, checkpoint, pages - 1)]);
      init + store[KeyOf(name, checkpoint, pages - 1)]
  }

  /** The memory of a checkpoint, when every page it refers to is stored intact. */
  function Load(name: seq<byte>, hash: Hash, store: Store, checkpoint: Checkpoint): (memory: Option<seq<byte>>)
    requires |checkpoint.slots| == |checkpoint.hashes|
    ensures memory.Some? ==>
      && |memory.value| == checkpoint.Pages() * PAGE_SIZE
      && forall p: nat :: p < checkpoint.Pages() ==>
           && Lookup(store, KeyOf(name, checkpoint, p)) == Some(PageSlice(memory.value, p))
           && hash(PageSlice(memory.value, p)) == checkpoint.hashes[p]
  {
    if Loadable(name, hash, store, checkpoint)
    then Some(Concatenate(name, hash, store, checkpoint, checkpoint.Pages()))
    else None
  }

  // A memory whose pages are what the store holds is the one that loads.
  lemma LoadIs(name: seq<byte>, hash: Hash, store: Store, checkpoint: Checkpoint, memory: seq<byte>)
    requires |checkpoint.slots| == |checkpoint.hashes|
    requires |memory| == checkpoint.Pages() * PAGE_SIZE
    requires forall p: nat :: p < checkpoint.Pages() ==>
      && Lookup(store, KeyOf(name, checkpoint, p)) == Some(PageSlice(memory, p))
      && hash(PageSlice(memory, p)) == checkpoint.hashes[p]
    ensures Load(name, hash, store, checkpoint) == Some(memory)
  {
    assert Loadable(name, hash, store, checkpoint);
    SamePages(Load(name, hash, store, checkpoint).value, memory, checkpoint.Pages());
  }

  // ----- One batch

  /** The keys an answer mentions. */
  function AnsweredKeys(answer: Answer): (keys: seq<string>)
    ensures |keys| == |answer|
  {
    seq(|answer|, j requires 0 <= j < |answer| => answer[j].0)
  }

  /** Entry `j` of the answer is a full page with the hash recorded for its key. */
  ghost predicate GoodEntry(hash: Hash, keys: seq<string>, hashes: seq<u64>, entry: (string, Option<seq<byte>>))
    requires |keys| == |hashes|
  {
    entry.0 in keys && GoodPage(hash, entry.1, hashes[Position(keys, entry.0).value])
  }

  /** Each requested key came back exactly once, with a full page of the right hash. */
  ghost predicate Accepts(hash: Hash, keys: seq<string>, hashes: seq<u64>, answer: Answer)
    requires |keys| == |hashes|
  {
    && |answer| == |keys|
    && Distinct(AnsweredKeys(answer))
    && forall j :: 0 <= j < |answer| ==> GoodEntry(hash, keys, hashes, answer[j])
  }

  /** `memory` holds, at the pages of the batch, the values that the answer gives for their keys. */
  ghost predicate HoldsBatch(memory: seq<byte>, start: nat, keys: seq<string>, answer: Answer) {
    && (start + |keys|) * PAGE_SIZE <= |memory|
    && forall i: nat :: i < |keys| ==> (keys[i], Some(PageSlice(memory, start + i))) in answer
  }

  /** Writes one page into the memory being rebuilt. */
  function PutPage(memory: seq<byte>, page: nat, value: seq<byte>): (updated: seq<byte>)
    requires (page + 1) * PAGE_SIZE <= |memory| && |value| == PAGE_SIZE
    ensures |updated| == |memory|
    ensures PageSlice(updated, page) == value
    ensures forall p: nat :: p != page && (p + 1) * PAGE_SIZE <= |memory| ==>
              PageSlice(updated, p) == PageSlice(memory, p)
  {
    var start := page * PAGE_SIZE;
    var updated := memory[..start] + value + memory[start + PAGE_SIZE..];
    assert forall p: nat :: p < page ==> PageSlice(updated, p) == PageSlice(memory, p);
    assert forall p: nat :: p > page && (p + 1) * PAGE_SIZE <= |memory| ==> PageSlice(updated, p) == PageSlice(memory, p);
    updated
  }

  /** The page numbers that the first entries of an answer resolve to. */
  ghost predicate Resolved(seen: seq<nat>, start: nat, keys: seq<string>, answer: Answer) {
    && |seen| <= |answer|
    && forall k :: 0 <= k < |seen| ==>
         answer[k].0 in keys && seen[k] == start + Position(keys, answer[k].0).value
  }

  /** The progress of the batch loop after the entries listed in `seen`. */
  ghost predicate Progress(hash: Hash, keys: seq<string>, hashes: seq<u64>, start: nat, answer: Answer,
                           before: seq<byte>, memory: seq<byte>, seen: seq<nat>)
    requires |keys| == |hashes| && (start + |keys|) * PAGE_SIZE <= |before|
  {
    && |memory| == |before|
    && Distinct(seen) && Resolved(seen, start, keys, answer)
    && (forall k :: 0 <= k < |seen| ==> GoodEntry(hash, keys, hashes, answer[k]))
    && (forall k :: 0 <= k < |seen| ==> Some(PageSlice(memory, seen[k])) == answer[k].1)
    && Outside(start, |keys|, before, memory)
  }

  /** The memories agree on every page that is not among the `count` pages from `start`. */
  ghost predicate Outside(start: nat, count: nat, before: seq<byte>, memory: seq<byte>)
    requires |memory| == |before|
  {
    forall p: nat :: (p + 1) * PAGE_SIZE <= |before| && !(start <= p < start + count) ==>
      PageSlice(memory, p) == PageSlice(before, p)
  }

  // Resolving one more entry to a page that was not seen.
  lemma ResolvedStep(seen: seq<nat>, start: nat, keys: seq<string>, answer: Answer, page: nat)
    requires Distinct(seen) && Resolved(seen, start, keys, answer) && |seen| < |answer|
    requires answer[|seen|].0 in keys && page == start + Position(keys, answer[|seen|].0).value && page !in seen
    ensures Distinct(seen + [page]) && Resolved(seen + [page], start, keys, answer)
  {
  }

  // Writing a page that was not seen keeps the pages that were.
  lemma ValuesStep(memory: seq<byte>, seen: seq<nat>, answer: Answer, page: nat, value: seq<byte>)
    requires |seen| < |answer| && (page + 1) * PAGE_SIZE <= |memory| && |value| == PAGE_SIZE
    requires forall k :: 0 <= k < |seen| ==> (seen[k] + 1) * PAGE_SIZE <= |memory|
    requires forall k :: 0 <= k < |seen| ==> Some(PageSlice(memory, seen[k])) == answer[k].1
    requires page !in seen && answer[|seen|].1 == Some(value)
    ensures forall k :: 0 <= k < |seen| + 1 ==>
              Some(PageSlice(PutPage(memory, page, value), (seen + [page])[k])) == answer[k].1
  {
    forall k | 0 <= k < |seen| + 1
      ensures Some(PageSlice(PutPage(memory, page, value), (seen + [page])[k])) == answer[k].1
    {
      if k < |seen| {
        assert seen[k] != page;
      }
    }
  }

  lemma ProgressStep(hash: Hash, keys: seq<string>, hashes: seq<u64>, start: nat, answer: Answer,
                     before: seq<byte>, memory: seq<byte>, seen: seq<nat>, page: nat)
    requires |keys| == |hashes| && (start + |keys|) * PAGE_SIZE <= |before|
    requires Progress(hash, keys, hashes, start, answer, before, memory, seen)
    requires |seen| < |answer| && GoodEntry(hash, keys, hashes, answer[|seen|])
    requires page == start + Position(keys, answer[|seen|].0).value && page !in seen
    ensures Progress(hash, keys, hashes, start, answer, before, PutPage(memory, page, answer[|seen|].1.value), seen + [page])
  {
    ResolvedStep(seen, start, keys, answer, page);
    ValuesStep(memory, seen, answer, page, answer[|seen|].1.value);
    assert Outside(start, |keys|, before, PutPage(memory, page, answer[|seen|].1.value));
  }

  method LoadBatch(hash: Hash, keys: seq<string>, hashes: seq<u64>, start: nat, answer: Answer, before: seq<byte>)
    returns (r: Result<seq<byte>, LoadError>)
    requires |keys| == |hashes| && Distinct(keys)
    requires (start + |keys|) * PAGE_SIZE <= |before|
    ensures r.Ok? <==> Accepts(hash, keys, hashes, answer)
    ensures r != Err(ClosingOmission)
    ensures r.Ok? ==>
      && |r.value| == |before|
      && HoldsBatch(r.value, start, keys, answer)
      && Outside(start, |keys|, before, r.value)
  {
    if |answer| != |keys| {
      return Err(OmittedKey);
    }
    var memory := before;
    var seen: seq<nat> := [];
    for j := 0 to |answer|
      invariant |seen| == j && Progress(hash, keys, hashes, start, answer, before, memory, seen)
    {
      var (key, value) := answer[j];
      var position := Position(keys, key);
      if position.None? {
        assert !GoodEntry(hash, keys, hashes, answer[j]);
        return Err(UnexpectedKey);
      }
      var page := start + position.value;
      if page in seen {
        SeenTwice(keys, start, answer, seen, page);
        return Err(DuplicateKey);
      }
      if value.None? {
        assert !GoodEntry(hash, keys, hashes, answer[j]);
        return Err(MissingValue);
      }
      if |value.value| != PAGE_SIZE {
        assert !GoodEntry(hash, keys, hashes, answer[j]);
        return Err(InvalidLength);
      }
      if hash(value.value) != hashes[page - start] {
        assert !GoodEntry(hash, keys, hashes, answer[j]);
        return Err(HashMismatch);
      }
      ProgressStep(hash, keys, hashes, start, answer, before, memory, seen, page);
      seen := seen + [page];
      memory := PutPage(memory, page, value.value);
    }
    DistinctCover(seen, start, |keys|);
    if |seen| != |keys| || exists page: nat :: start <= page < start + |keys| && page !in seen {
      return Err(ClosingOmission);
    }
    BatchComplete(hash, keys, hashes, start, answer, seen, memory);
    return Ok(memory);
  }

  // A page resolved twice means that its key was answered twice.
  lemma SeenTwice(keys: seq<string>, start: nat, answer: Answer, seen: seq<nat>, page: nat)
    requires Resolved(seen, start, keys, answer) && |seen| < |answer|
    requires answer[|seen|].0 in keys && page == start + Position(keys, answer[|seen|].0).value
    requires page in seen
    ensures !Distinct(AnsweredKeys(answer))
  {
    var k :| 0 <= k < |seen| && seen[k] == page;
    var answered := AnsweredKeys(answer);
    assert answered[k] == answered[|seen|];
  }

  // Entries that resolve to different pages have different keys.
  lemma DistinctPagesDistinctKeys(keys: seq<string>, start: nat, answer: Answer, seen: seq<nat>)
    requires |answer| == |seen| && Distinct(seen) && Resolved(seen, start, keys, answer)
    ensures Distinct(AnsweredKeys(answer))
  {
    var answered := AnsweredKeys(answer);
    forall i, j | 0 <= i < j < |answer|
      ensures answered[i] != answered[j]
    {
      assert seen[i] != seen[j];
    }
  }

  // All pages resolved, all distinct: the whole answer is accepted and every page holds its value.
  lemma BatchComplete(hash: Hash, keys: seq<string>, hashes: seq<u64>, start: nat, answer: Answer,
                      seen: seq<nat>, memory: seq<byte>)
    requires |keys| == |hashes| == |answer| == |seen| && Distinct(keys)
    requires Distinct(seen) && Resolved(seen, start, keys, answer)
    requires forall k :: 0 <= k < |answer| ==> GoodEntry(hash, keys, hashes, answer[k])
    requires (start + |keys|) * PAGE_SIZE <= |memory|
    requires forall k :: 0 <= k < |seen| ==> Some(PageSlice(memory, seen[k])) == answer[k].1
    ensures Accepts(hash, keys, hashes, answer) && HoldsBatch(memory, start, keys, answer)
  {
    DistinctPagesDistinctKeys(keys, start, answer, seen);
    DistinctCover(seen, start, |keys|);
    forall i: nat | i < |keys|
      ensures (keys[i], Some(PageSlice(memory, start + i))) in answer
    {
      assert start + i in seen;
      var k :| 0 <= k < |seen| && seen[k] == start + i;
      assert answer[k].0 == keys[i];
      assert answer[k] == (keys[i], Some(PageSlice(memory, start + i)));
    }
  }

  // ----- Order of the answers

  // In an accepted answer the value given for a key is unique.
  lemma AnswerIsFunctional(answer: Answer, key: string, v: Option<seq<byte>>, w: Option<seq<byte>>)
    requires Distinct(AnsweredKeys(answer)) && (key, v) in answer && (key, w) in answer
    ensures v == w
  {
    var i :| 0 <= i < |answer| && answer[i] == (key, v);
    var j :| 0 <= j < |answer| && answer[j] == (key, w);
    var answered := AnsweredKeys(answer);
    assert answered[i] == answered[j];
  }

  lemma PermutedAccepts(hash: Hash, keys: seq<string>, hashes: seq<u64>, a: Answer, b: Answer)
    requires |keys| == |hashes| && multiset(a) == multiset(b)
    requires Accepts(hash, keys, hashes, a)
    ensures Accepts(hash, keys, hashes, b)
  {
    assert |multiset(a)| == |a| && |multiset(b)| == |b|;
    forall j | 0 <= j < |b|
      ensures GoodEntry(hash, keys, hashes, b[j])
    {
      assert b[j] in multiset(a);
      var i :| 0 <= i < |a| && a[i] == b[j];
    }
    var answered := AnsweredKeys(b);
    forall i, j | 0 <= i < j < |b|
      ensures answered[i] != answered[j]
    {
      if answered[i] == answered[j] {
        assert b[i] in multiset(a) && b[j] in multiset(a);
        AnswerIsFunctional(a, b[i].0, b[i].1, b[j].1);
        assert b[i] == b[j];
        TwiceInMultiset(b, i, j);
        OnceInDistinct(a, b[i]);
        assert false;
      }
    }
  }

  lemma {:induction false} OnceInDistinct(answer: Answer, entry: (string, Option<seq<byte>>))
    requires Distinct(AnsweredKeys(answer))
    ensures multiset(answer)[entry] <= 1
  {
    if answer != [] {
      var init, last := answer[..|answer| - 1], answer[|answer| - 1];
      assert answer == init + [last];
      assert AnsweredKeys(init) == AnsweredKeys(answer)[..|init|];
      OnceInDistinct(init, entry);
      forall k | 0 <= k < |init|
        ensures init[k] != last
      {
        assert AnsweredKeys(answer)[k] != AnsweredKeys(answer)[|init|];
      }
    }
  }

  /** The order of an answer decides neither whether a batch loads nor what it loads. */
  lemma OrderIrrelevant(hash: Hash, keys: seq<string>, hashes: seq<u64>, a: Answer, b: Answer)
    requires |keys| == |hashes| && multiset(a) == multiset(b)
    ensures Accepts(hash, keys, hashes, a) <==> Accepts(hash, keys, hashes, b)
    ensures forall start: nat, m: seq<byte>, m': seq<byte>, p: nat
              | Accepts(hash, keys, hashes, a) && HoldsBatch(m, start, keys, a) && HoldsBatch(m', start, keys, b)
                && start <= p < start + |keys|
              :: PageSlice(m, p) == PageSlice(m', p)
  {
    if Accepts(hash, keys, hashes, a) {
      PermutedAccepts(hash, keys, hashes, a, b);
    }
    if Accepts(hash, keys, hashes, b) {
      PermutedAccepts(hash, keys, hashes, b, a);
    }
    forall start: nat, m: seq<byte>, m': seq<byte>, p: nat |
        Accepts(hash, keys, hashes, a) && HoldsBatch(m, start, keys, a) && HoldsBatch(m', start, keys, b)
        && start <= p < start + |keys|
      ensures PageSlice(m, p) == PageSlice(m', p)
    {
      var key := keys[p - start];
      assert (key, Some(PageSlice(m, start + (p - start)))) in a;
      assert (key, Some(PageSlice(m', start + (p - start)))) in b;
      assert (key, Some(PageSlice(m', p))) in multiset(b);
      AnswerIsFunctional(a, key, Some(PageSlice(m, p)), Some(PageSlice(m', p)));
    }
  }

  // ----- All batches

  function AllKeys(name: seq<byte>, checkpoint: Checkpoint): (keys: seq<string>)
    ensures |keys| == checkpoint.Pages()
  {
    seq(checkpoint.Pages(), p requires 0 <= p < checkpoint.Pages() => KeyOf(name, checkpoint, p))
  }

  lemma AllKeysDistinct(name: seq<byte>, checkpoint: Checkpoint)
    ensures Distinct(AllKeys(name, checkpoint))
  {
    var keys := AllKeys(name, checkpoint);
    forall i, j | 0 <= i < j < |keys|
      ensures keys[i] != keys[j]
    {
      if keys[i] == keys[j] {
        PageKeysInjective(name, i, checkpoint.slots[i], name, j, checkpoint.slots[j]);
        assert false;
      }
    }
  }

  function BatchCount(pages: nat): nat {
    (pages + MAX_BATCH_PAGES - 1) / MAX_BATCH_PAGES
  }

  function BatchEnd(batch: nat, pages: nat): nat {
    if (batch + 1) * MAX_BATCH_PAGES <= pages then (batch + 1) * MAX_BATCH_PAGES else pages
  }

  /** The part of `s` that belongs to one batch. */
  function Chunk<T>(s: seq<T>, batch: nat): (chunk: seq<T>)
    requires batch < BatchCount(|s|)
    ensures |chunk| == BatchEnd(batch, |s|) - batch * MAX_BATCH_PAGES
    ensures forall i: nat :: i < |chunk| ==> chunk[i] == s[batch * MAX_BATCH_PAGES + i]
  {
    s[batch * MAX_BATCH_PAGES..BatchEnd(batch, |s|)]
  }

  ghost predicate AcceptsBatch(hash: Hash, name: seq<byte>, checkpoint: Checkpoint, answers: seq<BatchAnswer>, batch: nat)
    requires |checkpoint.slots| == |checkpoint.hashes|
    requires batch < |answers| == BatchCount(checkpoint.Pages())
  {
    && answers[batch].Values?
    && Accepts(hash, Chunk(AllKeys(name, checkpoint), batch), Chunk(checkpoint.hashes, batch), answers[batch].values)
  }

  ghost predicate AcceptsAll(hash: Hash, name: seq<byte>, checkpoint: Checkpoint, answers: seq<BatchAnswer>)
    requires |checkpoint.slots| == |checkpoint.hashes|
    requires |answers| == BatchCount(checkpoint.Pages())
  {
    forall b: nat :: b < |answers| ==> AcceptsBatch(hash, name, checkpoint, answers, b)
  }

  /** Every page up to `upTo` holds what some answer gave for its key in its own batch. */
  ghost predicate HoldsAnswers(name: seq<byte>, checkpoint: Checkpoint, answers: seq<BatchAnswer>,
                               memory: seq<byte>, upTo: nat)
    requires upTo <= checkpoint.Pages() && |answers| == BatchCount(checkpoint.Pages())
  {
    && |memory| == checkpoint.Pages() * PAGE_SIZE
    && forall p: nat :: p < upTo ==>
         && answers[p / MAX_BATCH_PAGES].Values?
         && (KeyOf(name, checkpoint, p), Some(PageSlice(memory, p))) in answers[p / MAX_BATCH_PAGES].values
  }

  method LoadMemory(hash: Hash, name: seq<byte>, checkpoint: Checkpoint, answers: seq<BatchAnswer>)
    returns (r: Result<seq<byte>, LoadError>)
    requires |checkpoint.slots| == |checkpoint.hashes|
    requires |answers| == BatchCount(checkpoint.Pages())
    ensures r.Ok? <==> AcceptsAll(hash, name, checkpoint, answers)
    ensures r.Ok? ==> HoldsAnswers(name, checkpoint, answers, r.value, checkpoint.Pages())
    ensures r != Err(ClosingOmission)
  {
    var pages := checkpoint.Pages();
    var memory: seq<byte> := seq(pages * PAGE_SIZE, _ => 0);
    var keys: seq<string> := [];
    for page := 0 to pages
      invariant keys == AllKeys(name, checkpoint)[..page]
    {
      keys := keys + [PageKeyText(NamespaceText(name), page, checkpoint.slots[page])];
    }
    assert keys == AllKeys(name, checkpoint);
    AllKeysDistinct(name, checkpoint);
    for b := 0 to |answers|
      invariant forall k: nat :: k < b ==> AcceptsBatch(hash, name, checkpoint, answers, k)
      invariant |memory| == pages * PAGE_SIZE
      invariant HoldsAnswers(name, checkpoint, answers, memory, if b * MAX_BATCH_PAGES <= pages then b * MAX_BATCH_PAGES else pages)
    {
      if answers[b].Unavailable? {
        assert !AcceptsBatch(hash, name, checkpoint, answers, b);
        return Err(StoreFailed);
      }
      var loaded := LoadBatch(hash, Chunk(keys, b), Chunk(checkpoint.hashes, b), b * MAX_BATCH_PAGES, answers[b].values, memory);
      if loaded.Err? {
        assert !AcceptsBatch(hash, name, checkpoint, answers, b);
        return Err(loaded.error);
      }
      HoldsStep(name, checkpoint, answers, memory, loaded.value, b);
      memory := loaded.value;
    }
    return Ok(memory);
  }

  lemma HoldsStep(name: seq<byte>, checkpoint: Checkpoint, answers: seq<BatchAnswer>,
                  before: seq<byte>, after: seq<byte>, batch: nat)
    requires batch < |answers| == BatchCount(checkpoint.Pages()) && answers[batch].Values?
    requires HoldsAnswers(name, checkpoint, answers, before, batch * MAX_BATCH_PAGES)
    requires |after| == |before|
    requires HoldsBatch(after, batch * MAX_BATCH_PAGES, Chunk(AllKeys(name, checkpoint), batch), answers[batch].values)
    requires Outside(batch * MAX_BATCH_PAGES, |Chunk(AllKeys(name, checkpoint), batch)|, before, after)
    ensures HoldsAnswers(name, checkpoint, answers, after, BatchEnd(batch, checkpoint.Pages()))
  {
    var keys := Chunk(AllKeys(name, checkpoint), batch);
    forall p: nat | p < BatchEnd(batch, checkpoint.Pages())
      ensures answers[p / MAX_BATCH_PAGES].Values?
      ensures (KeyOf(name, checkpoint, p), Some(PageSlice(after, p))) in answers[p / MAX_BATCH_PAGES].values
    {
      if p < batch * MAX_BATCH_PAGES {
        assert PageSlice(after, p) == PageSlice(before, p);
      } else {
        var i: nat := p - batch * MAX_BATCH_PAGES;
        assert p / MAX_BATCH_PAGES == batch;
        assert keys[i] == KeyOf(name, checkpoint, p);
        assert (keys[i], Some(PageSlice(after, batch * MAX_BATCH_PAGES + i))) in answers[batch].values;
      }
    }
  }

  // ----- A store that answers truthfully, in any order

  function Truth(store: Store, keys: seq<string>): (answer: Answer)
    ensures |answer| == |keys|
  {
    seq(|keys|, i requires 0 <= i < |keys| => (keys[i], Lookup(store, keys[i])))
  }

  ghost predicate Honest(store: Store, keys: seq<string>, answer: Answer) {
    multiset(answer) == multiset(Truth(store, keys))
  }

  ghost predicate HonestAll(name: seq<byte>, store: Store, checkpoint: Checkpoint, answers: seq<BatchAnswer>) {
    && |answers| == BatchCount(checkpoint.Pages())
    && forall b: nat :: b < |answers| ==>
         answers[b].Values? && Honest(store, Chunk(AllKeys(name, checkpoint), b), answers[b].values)
  }

  lemma TruthAccepted(hash: Hash, store: Store, keys: seq<string>, hashes: seq<u64>)
    requires |keys| == |hashes| && Distinct(keys)
    ensures Accepts(hash, keys, hashes, Truth(store, keys))
       <==> AllGood(hash, store, keys, hashes)
  {
    var answer := Truth(store, keys);
    assert AnsweredKeys(answer) == keys;
    forall i: nat | i < |keys|
      ensures GoodEntry(hash, keys, hashes, answer[i]) <==> GoodPage(hash, Lookup(store, keys[i]), hashes[i])
    {
      PositionOfDistinct(keys, i);
    }
  }

  lemma HonestBatch(hash: Hash, store: Store, keys: seq<string>, hashes: seq<u64>, answer: Answer)
    requires |keys| == |hashes| && Distinct(keys) && Honest(store, keys, answer)
    ensures Accepts(hash, keys, hashes, answer)
       <==> AllGood(hash, store, keys, hashes)
    ensures forall entry :: entry in answer ==> entry.1 == Lookup(store, entry.0)
  {
    TruthAccepted(hash, store, keys, hashes);
    OrderIrrelevant(hash, keys, hashes, answer, Truth(store, keys));
    forall entry | entry in answer
      ensures entry.1 == Lookup(store, entry.0)
    {
      assert entry in multiset(answer);
      assert entry in Truth(store, keys);
    }
  }

  /**
   Against a truthful store the load succeeds exactly when the checkpoint is
   intact, and it then returns the stored pages, whatever the order of the answers.
   */
  lemma HonestLoad(name: seq<byte>, hash: Hash, store: Store, checkpoint: Checkpoint, answers: seq<BatchAnswer>)
    requires |checkpoint.slots| == |checkpoint.hashes|
    requires HonestAll(name, store, checkpoint, answers)
    ensures AcceptsAll(hash, name, checkpoint, answers) <==> Load(name, hash, store, checkpoint).Some?
    ensures forall memory :: AcceptsAll(hash, name, checkpoint, answers)
              && HoldsAnswers(name, checkpoint, answers, memory, checkpoint.Pages())
              ==> Load(name, hash, store, checkpoint) == Some(memory)
  {
    forall b: nat | b < |answers|
      ensures AcceptsBatch(hash, name, checkpoint, answers, b) <==> BatchIntact(name, hash, store, checkpoint, b)
    {
      HonestChunk(name, hash, store, checkpoint, answers, b);
    }
    IntactByBatches(name, hash, store, checkpoint);
    forall memory | AcceptsAll(hash, name, checkpoint, answers)
                    && HoldsAnswers(name, checkpoint, answers, memory, checkpoint.Pages())
      ensures Load(name, hash, store, checkpoint) == Some(memory)
    {
      forall p: nat | p < checkpoint.Pages()
        ensures Lookup(store, KeyOf(name, checkpoint, p)) == Some(PageSlice(memory, p))
      {
        HonestChunk(name, hash, store, checkpoint, answers, p / MAX_BATCH_PAGES);
      }
      SamePages(Load(name, hash, store, checkpoint).value, memory, checkpoint.Pages());
    }
  }

  /** Every batch answer is truthful or did not come. */
  ghost predicate Truthful(name: seq<byte>, store: Store, checkpoint: Checkpoint, answers: seq<BatchAnswer>) {
    && |answers| == BatchCount(checkpoint.Pages())
    && forall b: nat :: b < |answers| && answers[b].Values? ==>
         Honest(store, Chunk(AllKeys(name, checkpoint), b), answers[b].values)
  }

  predicate AllAnswered(answers: seq<BatchAnswer>) {
    forall b | 0 <= b < |answers| :: answers[b].Values?
  }

  /** With truthful answers, loading succeeds exactly when all of them came and the checkpoint is intact. */
  lemma TruthfulLoad(name: seq<byte>, hash: Hash, store: Store, checkpoint: Checkpoint, answers: seq<BatchAnswer>)
    requires |checkpoint.slots| == |checkpoint.hashes|
    requires Truthful(name, store, checkpoint, answers)
    ensures AcceptsAll(hash, name, checkpoint, answers)
       <==> AllAnswered(answers) && Load(name, hash, store, checkpoint).Some?
    ensures forall memory :: AcceptsAll(hash, name, checkpoint, answers)
              && HoldsAnswers(name, checkpoint, answers, memory, checkpoint.Pages())
              ==> Load(name, hash, store, checkpoint) == Some(memory)
  {
    if AllAnswered(answers) {
      HonestLoad(name, hash, store, checkpoint, answers);
    } else {
      var b :| 0 <= b < |answers| && !answers[b].Values?;
      assert !AcceptsBatch(hash, name, checkpoint, answers, b);
    }
  }

  ghost predicate BatchIntact(name: seq<byte>, hash: Hash, store: Store, checkpoint: Checkpoint, batch: nat)
    requires |checkpoint.slots| == |checkpoint.hashes| && batch < BatchCount(checkpoint.Pages())
  {
    forall p: nat :: batch * MAX_BATCH_PAGES <= p < BatchEnd(batch, checkpoint.Pages()) ==>
      GoodPage(hash, Lookup(store, KeyOf(name, checkpoint, p)), checkpoint.hashes[p])
  }

  lemma IntactByBatches(name: seq<byte>, hash: Hash, store: Store, checkpoint: Checkpoint)
    requires |checkpoint.slots| == |checkpoint.hashes|
    ensures Loadable(name, hash, store, checkpoint)
       <==> forall b: nat :: b < BatchCount(checkpoint.Pages()) ==> BatchIntact(name, hash, store, checkpoint, b)
  {
    if forall b: nat :: b < BatchCount(checkpoint.Pages()) ==> BatchIntact(name, hash, store, checkpoint, b) {
      forall p: nat | p < checkpoint.Pages()
        ensures GoodPage(hash, Lookup(store, KeyOf(name, checkpoint, p)), checkpoint.hashes[p])
      {
        assert BatchIntact(name, hash, store, checkpoint, p / MAX_BATCH_PAGES);
      }
    }
  }

  /** Every key of the batch is stored with a full page of the right hash. */
  ghost predicate AllGood(hash: Hash, store: Store, keys: seq<string>, hashes: seq<u64>)
    requires |keys| == |hashes|
  {
    forall i: nat :: i < |keys| ==> GoodPage(hash, Lookup(store, keys[i]), hashes[i])
  }

  lemma ChunkIntact(name: seq<byte>, hash: Hash, store: Store, checkpoint: Checkpoint, batch: nat)
    requires |checkpoint.slots| == |checkpoint.hashes| && batch < BatchCount(checkpoint.Pages())
    ensures BatchIntact(name, hash, store, checkpoint, batch)
       <==> AllGood(hash, store, Chunk(AllKeys(name, checkpoint), batch), Chunk(checkpoint.hashes, batch))
  {
    var keys := Chunk(AllKeys(name, checkpoint), batch);
    var hashes := Chunk(checkpoint.hashes, batch);
    var start := batch * MAX_BATCH_PAGES;
    forall i: nat | i < |keys|
      ensures keys[i] == KeyOf(name, checkpoint, start + i) && hashes[i] == checkpoint.hashes[start + i]
    {
    }
    if AllGood(hash, store, keys, hashes) {
      forall p: nat | start <= p < BatchEnd(batch, checkpoint.Pages())
        ensures GoodPage(hash, Lookup(store, KeyOf(name, checkpoint, p)), checkpoint.hashes[p])
      {
        var i: nat := p - start;
        assert GoodPage(hash, Lookup(store, keys[i]), hashes[i]);
      }
    }
  }

  lemma HonestChunk(name: seq<byte>, hash: Hash, store: Store, checkpoint: Checkpoint, answers: seq<BatchAnswer>, batch: nat)
    requires |checkpoint.slots| == |checkpoint.hashes|
    requires HonestAll(name, store, checkpoint, answers) && batch < |answers|
    ensures AcceptsBatch(hash, name, checkpoint, answers, batch) <==> BatchIntact(name, hash, store, checkpoint, batch)
    ensures forall entry :: entry in answers[batch].values ==> entry.1 == Lookup(store, entry.0)
  {
    AllKeysDistinct(name, checkpoint);
    ChunkIntact(name, hash, store, checkpoint, batch);
    HonestBatch(hash, store, Chunk(AllKeys(name, checkpoint), batch), Chunk(checkpoint.hashes, batch), answers[batch].values);
  }
}
