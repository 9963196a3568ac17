/**
 The cached key-value memory provider in its own form: an object whose methods
 update the cache, the dirty flags and the store in place, with the loops over
 pages and batches. Every method is proved against the checkpoint protocol.
 */
module KeyValueProvider {
  import opened Wrappers
  import opened Bytes
  import opened Pages
  import opened Keys
  import opened Manifests
  import opened PageLoading
  import opened CheckpointProtocol

  type Entries = seq<(string, seq<byte>)>

  /** How the host answers during one flush; batches are numbered from zero. */
  datatype HostFault =
    | Healthy
    | BatchFails(batch: nat, effective: seq<nat>) // only the listed positions of that batch take effect
    | HeadFails(applied: bool)

  function ApplyEntries(store: Store, entries: Entries): Store {
    if entries == [] then store
    else
      var last := entries[|entries| - 1];
      ApplyEntries(store, entries[..|entries| - 1])[last.0 := last.1]
  }

  /** The elements of `s` at the listed positions; positions outside `s` are skipped. */
  function Select<T>(s: seq<T>, positions: seq<nat>): seq<T> {
    if positions == [] then []
    else
      var last := positions[|positions| - 1];
      Select(s, positions[..|positions| - 1]) + if last < |s| then [s[last]] else []
  }

  /** A flat key-value store whose writes may fail, per key atomically. */
  class KeyValueStore {
    var data: Store

    constructor (initial: Store)
      ensures data == initial
    {
      data := initial;
    }

    method Get(key: string) returns (value: Option<seq<byte>>)
      ensures value == Lookup(data, key)
    {
      value := if key in data then Some(data[key]) else None;
    }

    method Set(key: string, value: seq<byte>, ok: bool, applied: bool)
      modifies this
      ensures data == if ok || applied then old(data)[key := value] else old(data)
    {
      if ok || applied {
        data := data[key := value];
      }
    }

    /** Writes all entries, or after a failure only those at the positions that took effect. */
    method SetMany(entries: Entries, failure: Option<seq<nat>>) returns (ok: bool)
      modifies this
      ensures ok == failure.None?
      ensures data == ApplyEntries(old(data), if failure.None? then entries else Select(entries, failure.value))
    {
      ok := failure.None?;
      var effective := if failure.None? then entries else Select(entries, failure.value);
      for i := 0 to |effective|
        invariant data == ApplyEntries(old(data), effective[..i])
      {
        assert effective[..i + 1][..i] == effective[..i];
        data := data[effective[i].0 := effective[i].1];
      }
      assert effective[..|effective|] == effective;
    }
  }

  // ----- Page writes as entries

  function EntriesFor(config: Config, provider: Provider, pages: seq<nat>): (entries: Entries)
    requires WellFormed(provider) && forall p :: p in pages ==> p < provider.pages
    ensures |entries| == |pages|
  {
    seq(|pages|, i requires 0 <= i < |pages| =>
      assert pages[i] in pages;
      (TargetKey(config, provider, pages[i]), PageSlice(provider.memory, pages[i])))
  }

  ghost predicate AllDirty(provider: Provider, pages: seq<nat>)
    requires WellFormed(provider)
  {
    forall p :: p in pages ==> p < provider.pages && provider.dirty[p]
  }

  lemma AllDirtyPrefix(provider: Provider, pages: seq<nat>, count: nat)
    requires WellFormed(provider) && AllDirty(provider, pages) && count <= |pages|
    ensures AllDirty(provider, pages[..count])
  {
    forall p | p in pages[..count]
      ensures p in pages
    {
    }
  }

  lemma {:induction false} ApplyIsWritePages(config: Config, provider: Provider, store: Store, pages: seq<nat>)
    requires WellFormed(provider) && AllDirty(provider, pages)
    ensures ApplyEntries(store, EntriesFor(config, provider, pages)) == WritePages(config, provider, store, pages)
  {
    if pages != [] {
      var init := pages[..|pages| - 1];
      AllDirtyPrefix(provider, pages, |pages| - 1);
      ApplyIsWritePages(config, provider, store, init);
      var entries := EntriesFor(config, provider, pages);
      assert entries[..|entries| - 1] == EntriesFor(config, provider, init);
      assert pages[|pages| - 1] in pages;
    }
  }

  lemma {:induction false} WritePagesConcat(config: Config, provider: Provider, store: Store, a: seq<nat>, b: seq<nat>)
    requires WellFormed(provider)
    ensures WritePages(config, provider, store, a + b)
         == WritePages(config, provider, WritePages(config, provider, store, a), b)
  {
    if b == [] {
      assert a + b == a;
    } else {
      var init := b[..|b| - 1];
      WritePagesConcat(config, provider, store, a, init);
      assert (a + b)[..|a + b| - 1] == a + init;
    }
  }

  lemma {:induction false} SelectSubset<T>(s: seq<T>, positions: seq<nat>)
    ensures forall x :: x in Select(s, positions) ==> x in s
  {
    if positions != [] {
      SelectSubset(s, positions[..|positions| - 1]);
    }
  }

  lemma {:induction false} SelectEntries(config: Config, provider: Provider, pages: seq<nat>, positions: seq<nat>)
    requires WellFormed(provider) && AllDirty(provider, pages)
    ensures AllDirty(provider, Select(pages, positions))
    ensures Select(EntriesFor(config, provider, pages), positions) == EntriesFor(config, provider, Select(pages, positions))
  {
    SelectSubset(pages, positions);
    if positions != [] {
      var init, last := positions[..|positions| - 1], positions[|positions| - 1];
      SelectEntries(config, provider, pages, init);
      if last < |pages| {
        assert Select(pages, positions) == Select(pages, init) + [pages[last]];
        assert pages[last] in pages;
      }
    }
  }

  lemma NoDirtyPages(provider: Provider)
    requires WellFormed(provider)
    ensures DirtyPages(provider.dirty, provider.pages) == [] <==> !AnyDirty(provider)
  {
    var dirty := DirtyPages(provider.dirty, provider.pages);
    if dirty != [] {
      assert dirty[0] in dirty;
    } else {
      assert forall p: nat :: p < provider.pages && provider.dirty[p] ==> p in dirty;
    }
  }

  /** What the protocol sees of a host fault, given the dirty pages in batch order. */
  function SeenFault(dirty: seq<nat>, fault: HostFault): Fault {
    match fault
    case Healthy => NoFault
    case HeadFails(applied) => HeadWriteFails(applied)
    case BatchFails(batch, effective) =>
      if batch < BatchCount(|dirty|)
      then PageWritesFail(dirty[..batch * MAX_BATCH_PAGES] + Select(Chunk(dirty, batch), effective))
      else NoFault
  }

  // ----- Opening with whatever the store answers

  /** One answer per page batch of the checkpoints that the head names. */
  predicate AnswersFit(config: Config, store: Store, current: seq<BatchAnswer>, previous: seq<BatchAnswer>) {
    match ReadHead(config, store)
    case Err(_) => true
    case Ok(manifest) =>
      && |current| == BatchCount(manifest.current.Pages())
      && (manifest.previous.Some? ==> |previous| == BatchCount(manifest.previous.value.Pages()))
  }

  /** A handle on `checkpoint` whose memory holds what the accepted answers gave. */
  ghost predicate Loaded(config: Config, checkpoint: Checkpoint, answers: seq<BatchAnswer>, fallback: bool, r: Result<Provider, Error>)
    requires |answers| == BatchCount(checkpoint.Pages())
  {
    && r.Ok? && r.value == Fresh(r.value.memory, checkpoint, fallback)
    && HoldsAnswers(config.name, checkpoint, answers, r.value.memory, checkpoint.Pages())
  }

  /** The outcome of opening, for any answers: the current checkpoint if they are accepted, else a non-empty previous one. */
  ghost predicate OpenedFrom(config: Config, store: Store, headServed: bool, current: seq<BatchAnswer>, previous: seq<BatchAnswer>,
                             r: Result<Provider, Error>)
    requires AnswersFit(config, store, current, previous)
  {
    if config.name == [] then r == Err(EmptyDatabaseName)
    else if !headServed then r == Err(StoreError)
    else
      ReadHeadValid(config, store);
      match ReadHead(config, store)
      case Err(reason) => r == Err(InvalidManifest(reason))
      case Ok(manifest) =>
        if AcceptsAll(config.hash, config.name, manifest.current, current) then
          Loaded(config, manifest.current, current, false, r)
        else if manifest.previous.Some? && manifest.previous.value.Pages() > 0
                && AcceptsAll(config.hash, config.name, manifest.previous.value, previous) then
          Loaded(config, manifest.previous.value, previous, true, r)
        else r == Err(InvalidPages)
  }

  /**
   When each batch answer is truthful or does not come, opening returns the current checkpoint,
   writable, if and only if all its batches came and it is intact; else a non-empty previous one,
   read-only, under the same condition; else an error.
   */
  lemma TruthfulOpening(config: Config, store: Store, headServed: bool, current: seq<BatchAnswer>, previous: seq<BatchAnswer>,
                        r: Result<Provider, Error>)
    requires AnswersFit(config, store, current, previous) && OpenedFrom(config, store, headServed, current, previous, r)
    requires ReadHead(config, store).Ok? ==>
               var manifest := ReadHead(config, store).value;
               && Truthful(config.name, store, manifest.current, current)
               && (manifest.previous.Some? ==> Truthful(config.name, store, manifest.previous.value, previous))
    ensures r == OpenReading(config, store, Reads(headServed, AllAnswered(current), AllAnswered(previous)))
  {
    hide AcceptsAll, HoldsAnswers, Load, Truthful;
    if ReadHead(config, store).Ok? {
      var manifest := ReadHead(config, store).value;
      ReadHeadValid(config, store);
      TruthfulLoad(config.name, config.hash, store, manifest.current, current);
      if manifest.previous.Some? {
        TruthfulLoad(config.name, config.hash, store, manifest.previous.value, previous);
      }
    }
  }

  // ----- The provider

  class MemoryProvider {
    const config: Config
    const store: KeyValueStore
    var memory: seq<byte>
    var pages: nat
    var published: Checkpoint
    var dirtyPages: seq<bool>
    var fallbackCheckpoint: bool
    var poisoned: bool

    function View(): Provider
      reads this
    {
      Provider(memory, pages, published, dirtyPages, fallbackCheckpoint, poisoned)
    }

    ghost predicate Valid()
      reads this
    {
      WellFormed(View())
    }

    constructor (config: Config, store: KeyValueStore, memory: seq<byte>, published: Checkpoint, fallback: bool)
      requires |memory| == published.Pages() * PAGE_SIZE && |published.slots| == |published.hashes|
      ensures Valid() && View() == Fresh(memory, published, fallback)
      ensures this.config == config && this.store == store
    {
      this.config := config;
      this.store := store;
      this.memory := memory;
      this.pages := published.Pages();
      this.published := published;
      this.dirtyPages := seq(published.Pages(), _ => false);
      this.fallbackCheckpoint := fallback;
      this.poisoned := false;
    }

    /**
     Opens a provider over `store`. The head may stay unanswered; the two answer lists are what
     the store returns, in any order and true or not, for the page batches of both checkpoints.
     */
    static method WithStore(store: KeyValueStore, config: Config, headServed: bool,
                            current: seq<BatchAnswer>, previous: seq<BatchAnswer>)
      returns (r: Result<MemoryProvider, Error>)
      requires AnswersFit(config, store.data, current, previous)
      ensures r.Ok? ==> fresh(r.value) && r.value.Valid() && r.value.config == config && r.value.store == store
      ensures OpenedFrom(config, store.data, headServed, current, previous,
                         if r.Ok? then Ok(r.value.View()) else Err(r.error))
    {
      if config.name == [] {
        return Err(EmptyDatabaseName);
      }
      if !headServed {
        return Err(StoreError);
      }
      var head := store.Get(HeadKey(NamespaceText(config.name)));
      var manifest := EMPTY_MANIFEST;
      if head.Some? {
        var decoded := DecodeManifest(head.value, config.isizeMax);
        if decoded.Err? {
          return Err(InvalidManifest(decoded.error));
        }
        manifest := decoded.value;
      }
      ReadHeadValid(config, store.data);
      var loaded := LoadMemory(config.hash, config.name, manifest.current, current);
      if loaded.Ok? {
        var provider := new MemoryProvider(config, store, loaded.value, manifest.current, false);
        return Ok(provider);
      }
      if manifest.previous.None? || manifest.previous.value.Pages() == 0 {
        return Err(InvalidPages);
      }
      loaded := LoadMemory(config.hash, config.name, manifest.previous.value, previous);
      if loaded.Err? {
        return Err(InvalidPages);
      }
      var provider := new MemoryProvider(config, store, loaded.value, manifest.previous.value, true);
      return Ok(provider);
    }

    method ExportSnapshot(granted: bool) returns (r: Result<seq<byte>, Error>)
      ensures r == Export(View(), granted)
    {
      if poisoned {
        return Err(Poisoned);
      }
      if !granted {
        return Err(FailedToAllocatePage);
      }
      return Ok(memory);
    }

    method ReadBytes(offset: nat, buf: array<byte>) returns (r: Result<(), Error>)
      requires Valid()
      modifies buf
      ensures match Read(View(), offset, buf.Length)
              case Ok(bytes) => r == Ok(()) && buf[..] == bytes
              case Err(error) => r == Err(error) && buf[..] == old(buf[..])
    {
      if poisoned {
        return Err(Poisoned);
      }
      if offset + buf.Length > pages * PAGE_SIZE {
        return Err(OutOfBounds);
      }
      forall i | 0 <= i < buf.Length {
        buf[i] := memory[offset + i];
      }
      return Ok(());
    }

    method ImportSnapshot(bytes: seq<byte>, granted: bool) returns (r: Result<(), Error>)
      requires Valid()
      modifies this
      ensures Valid() && (View(), r) == Import(config, old(View()), bytes, granted)
    {
      var refused := CheckWritable(View());
      if refused.Some? {
        return Err(refused.value);
      }
      if pages != 0 || memory != [] {
        return Err(NotEmpty);
      }
      var imported := ImportedPages(bytes, config.isizeMax);
      if imported.Err? {
        return Err(imported.error);
      }
      if !granted {
        return Err(FailedToAllocatePage);
      }
      memory := bytes;
      pages := imported.value;
      published := EMPTY_CHECKPOINT;
      dirtyPages := seq(imported.value, _ => true);
      return Ok(());
    }

    method GrowMemory(newPages: nat, granted: bool) returns (r: Result<nat, Error>)
      requires Valid()
      modifies this
      ensures Valid() && (View(), r) == Grow(config, old(View()), newPages, granted)
    {
      var refused := CheckWritable(View());
      if refused.Some? {
        return Err(refused.value);
      }
      var previousSize := pages * PAGE_SIZE;
      var grown := GrownPages(pages, newPages, config.isizeMax);
      if grown.Err? {
        return Err(grown.error);
      }
      if !granted {
        return Err(FailedToAllocatePage);
      }
      memory := memory + Zeros(newPages * PAGE_SIZE);
      // Resize the flags, then mark the new pages.
      dirtyPages := dirtyPages + seq(newPages, _ => false);
      for page := pages to |dirtyPages|
        invariant |dirtyPages| == |old(dirtyPages)| + newPages
        invariant forall p :: 0 <= p < |dirtyPages| ==>
                    dirtyPages[p] == if p < pages then old(dirtyPages)[p] else p < page
        modifies this`dirtyPages
      {
        dirtyPages := dirtyPages[page := true];
      }
      assert dirtyPages == old(dirtyPages) + seq(newPages, _ => true);
      pages := grown.value;
      return Ok(previousSize);
    }

    method MarkDirtyPages(first: nat, end: nat)
      requires first <= end <= |dirtyPages|
      modifies this`dirtyPages
      ensures dirtyPages == if first == end then old(dirtyPages) else MarkDirty(old(dirtyPages), first, end - 1)
    {
      for page := first to end
        invariant |dirtyPages| == |old(dirtyPages)|
        invariant forall p :: 0 <= p < |dirtyPages| ==> dirtyPages[p] == (old(dirtyPages)[p] || first <= p < page)
      {
        dirtyPages := dirtyPages[page := true];
      }
    }

    method WriteBytes(offset: nat, bytes: seq<byte>) returns (r: Result<(), Error>)
      requires Valid()
      modifies this
      ensures Valid() && (View(), r) == Write(old(View()), offset, bytes)
    {
      var refused := CheckWritable(View());
      if refused.Some? {
        return Err(refused.value);
      }
      if offset + |bytes| > pages * PAGE_SIZE {
        return Err(OutOfBounds);
      }
      var end := offset + |bytes|;
      var firstPage := offset / PAGE_SIZE;
      var lastPage := (if end == 0 then 0 else end - 1) / PAGE_SIZE;
      memory := Overwrite(memory, offset, bytes);
      if bytes != [] {
        MarkDirtyPages(firstPage, lastPage + 1);
      }
      return Ok(());
    }

    method DirtyPageNumbers() returns (numbers: seq<nat>)
      ensures numbers == DirtyPages(dirtyPages, |dirtyPages|)
    {
      numbers := [];
      for page := 0 to |dirtyPages|
        invariant numbers == DirtyPages(dirtyPages, page)
      {
        if dirtyPages[page] {
          numbers := numbers + [page];
        }
      }
    }

    /** Moves every dirty page of the published checkpoint to its other slot, with a new hash. */
    method BuildCandidate(dirty: seq<nat>) returns (candidate: Checkpoint)
      requires Valid() && dirty == DirtyPages(dirtyPages, pages)
      ensures candidate == Candidate(config, View())
    {
      var missing := pages - |published.slots|;
      var slots: seq<byte> := published.slots + seq(missing, _ => 0);
      var hashes: seq<u64> := published.hashes + seq(missing, _ => 0);
      for i := 0 to |dirty|
        invariant |slots| == |hashes| == pages
        invariant forall p: nat :: p < pages ==>
                    slots[p] == if p in dirty[..i] then CandidateSlot(View(), p)
                                else if p < |published.slots| then published.slots[p] else 0
        invariant forall p: nat :: p < pages ==>
                    hashes[p] == if p in dirty[..i] then CandidateHash(config, View(), p)
                                 else if p < |published.hashes| then published.hashes[p] else 0
      {
        var page := dirty[i];
        assert page in dirty;
        assert dirty[..i + 1] == dirty[..i] + [page];
        slots := slots[page := NextSlot(published, page)];
        hashes := hashes[page := config.hash(PageSlice(memory, page))];
      }
      assert dirty[..|dirty|] == dirty;
      candidate := Checkpoint(slots, hashes);
      assert slots == Candidate(config, View()).slots;
      assert hashes == Candidate(config, View()).hashes;
    }

    /** Writes one batch of dirty pages. */
    method WriteBatch(current: Checkpoint, batch: seq<nat>, failure: Option<seq<nat>>) returns (ok: bool)
      requires Valid() && AllDirty(View(), batch) && current == Candidate(config, View())
      modifies store
      ensures ok == failure.None?
      ensures store.data == WritePages(config, View(), old(store.data),
                                       if failure.None? then batch else Select(batch, failure.value))
    {
      var entries: Entries := [];
      for i := 0 to |batch|
        invariant store.data == old(store.data)
        invariant AllDirty(View(), batch[..i])
        invariant entries == EntriesFor(config, View(), batch[..i])
      {
        var page := batch[i];
        assert page in batch;
        AllDirtyPrefix(View(), batch, i + 1);
        assert batch[..i + 1] == batch[..i] + [page];
        entries := entries + [(PageKeyText(NamespaceText(config.name), page, current.slots[page]), PageSlice(memory, page))];
      }
      assert batch[..|batch|] == batch;
      assert entries == EntriesFor(config, View(), batch);
      if failure.None? {
        ApplyIsWritePages(config, View(), store.data, batch);
      } else {
        SelectEntries(config, View(), batch, failure.value);
        ApplyIsWritePages(config, View(), store.data, Select(batch, failure.value));
      }
      ok := store.SetMany(entries, failure);
    }

    /** Writes the dirty pages batch by batch, up to the batch that fails. */
    method WriteBatches(current: Checkpoint, dirty: seq<nat>, fault: HostFault) returns (ok: bool)
      requires Valid() && dirty == DirtyPages(dirtyPages, pages) && current == Candidate(config, View())
      modifies store
      ensures ok <==> !SeenFault(dirty, fault).PageWritesFail?
      ensures store.data == WritePages(config, View(), old(store.data),
                                       if ok then dirty else SeenFault(dirty, fault).written)
    {
      for b := 0 to BatchCount(|dirty|)
        invariant fault.BatchFails? ==> b <= fault.batch
        invariant store.data == WritePages(config, View(), old(store.data),
                                           dirty[..if b * MAX_BATCH_PAGES <= |dirty| then b * MAX_BATCH_PAGES else |dirty|])
      {
        var batch := Chunk(dirty, b);
        assert AllDirty(View(), batch) by {
          forall p | p in batch
            ensures p in dirty
          {
          }
        }
        var failure := if fault.BatchFails? && fault.batch == b then Some(fault.effective) else None;
        var before := dirty[..b * MAX_BATCH_PAGES];
        assert dirty[..BatchEnd(b, |dirty|)] == before + batch;
        WritePagesConcat(config, View(), old(store.data), before, if failure.None? then batch else Select(batch, failure.value));
        var written := WriteBatch(current, batch, failure);
        if !written {
          return false;
        }
      }
      assert dirty[..|dirty|] == dirty;
      return true;
    }

    method FlushInner(fault: HostFault) returns (r: Result<(), Error>)
      requires Valid()
      modifies this, store
      ensures Valid()
      ensures (View(), store.data, r)
           == Flush(config, old(View()), old(store.data), SeenFault(DirtyPages(old(dirtyPages), |old(dirtyPages)|), fault))
    {
      if poisoned {
        return Err(Poisoned);
      }
      var dirty := DirtyPageNumbers();
      NoDirtyPages(View());
      if dirty == [] {
        return Ok(());
      }
      var refused := CheckWritable(View());
      if refused.Some? {
        return Err(refused.value);
      }
      var candidate := BuildCandidate(dirty);
      var invalid := ValidatePageCount(candidate.Pages(), config.isizeMax);
      if invalid.Some? {
        return Err(InvalidManifest(invalid.value));
      }
      var encoded := EncodeManifest(Manifest(candidate, Some(published)));
      var ok := WriteBatches(candidate, dirty, fault);
      if !ok {
        return Err(StoreError);
      }
      store.Set(HeadKey(NamespaceText(config.name)), encoded, !fault.HeadFails?, fault.HeadFails? && fault.applied);
      if fault.HeadFails? {
        poisoned := true;
        return Err(StoreError);
      }
      published := candidate;
      dirtyPages := seq(|dirtyPages|, _ => false);
      fallbackCheckpoint := false;
      return Ok(());
    }
  }
}
