/**
 Proofs about the checkpoint protocol: slot isolation, cache coherence, the
 refinement of the ideal machine over every run, crash safety and the fallback
 to the previous checkpoint.
 */
module CheckpointRefinement {
  import opened Wrappers
  import opened Bytes
  import opened Pages
  import opened Keys
  import opened Manifests
  import opened PageLoading
  import opened CheckpointProtocol

  // ----- What writing pages does to the store

  /** `key` is a target of one of the dirty pages of the provider. */
  ghost predicate IsTarget(config: Config, provider: Provider, key: string)
    requires WellFormed(provider)
  {
    exists p: nat :: p < provider.pages && provider.dirty[p] && key == TargetKey(config, provider, p)
  }

  // Keys that are no targets keep their value.
  lemma {:induction false} WritePagesFrame(config: Config, provider: Provider, store: Store, pages: seq<nat>, key: string)
    requires WellFormed(provider) && !IsTarget(config, provider, key)
    ensures Lookup(WritePages(config, provider, store, pages), key) == Lookup(store, key)
  {
    if pages != [] {
      WritePagesFrame(config, provider, store, pages[..|pages| - 1], key);
    }
  }

  // A dirty page that is listed is stored at its target.
  lemma {:induction false} WritePagesStores(config: Config, provider: Provider, store: Store, pages: seq<nat>, page: nat)
    requires WellFormed(provider) && page in pages && page < provider.pages && provider.dirty[page]
    ensures Lookup(WritePages(config, provider, store, pages), TargetKey(config, provider, page))
         == Some(PageSlice(provider.memory, page))
  {
    var init, last := pages[..|pages| - 1], pages[|pages| - 1];
    if last != page {
      WritePagesStores(config, provider, store, init, page);
      if TargetKey(config, provider, page) == TargetKey(config, provider, last) {
        PageKeysInjective(config.name, page, NextSlot(provider.published, page),
                          config.name, last, NextSlot(provider.published, last));
        assert false;
      }
    }
  }

  lemma HeadIsNoTarget(config: Config, provider: Provider)
    requires WellFormed(provider)
    ensures !IsTarget(config, provider, HeadKey(NamespaceText(config.name)))
  {
    forall p: nat
      ensures HeadKey(NamespaceText(config.name)) != TargetKey(config, provider, p)
    {
      HeadIsNotPage(config.name, config.name, p, NextSlot(provider.published, p));
    }
  }

  /** Slot isolation: page writes touch neither the head key nor a page key that the published checkpoint refers to. */
  lemma SlotIsolation(config: Config, provider: Provider, page: nat)
    requires WellFormed(provider) && page < provider.published.Pages()
    requires forall p: nat :: p < provider.published.Pages() ==> provider.published.slots[p] <= 1
    ensures !IsTarget(config, provider, KeyOf(config.name, provider.published, page))
    ensures !IsTarget(config, provider, HeadKey(NamespaceText(config.name)))
  {
    HeadIsNoTarget(config, provider);
    var key := KeyOf(config.name, provider.published, page);
    forall p: nat
      ensures key != TargetKey(config, provider, p)
    {
      if key == TargetKey(config, provider, p) {
        PageKeysInjective(config.name, page, provider.published.slots[page], config.name, p, NextSlot(provider.published, p));
        assert false;
      }
    }
  }

  // A checkpoint whose keys keep their values keeps its memory.
  lemma SameKeysSameLoad(config: Config, store: Store, store': Store, checkpoint: Checkpoint)
    requires |checkpoint.slots| == |checkpoint.hashes|
    requires forall p: nat :: p < checkpoint.Pages() ==>
      Lookup(store', KeyOf(config.name, checkpoint, p)) == Lookup(store, KeyOf(config.name, checkpoint, p))
    ensures Load(config.name, config.hash, store', checkpoint) == Load(config.name, config.hash, store, checkpoint)
  {
    if Loadable(config.name, config.hash, store, checkpoint) {
      LoadIs(config.name, config.hash, store', checkpoint, Load(config.name, config.hash, store, checkpoint).value);
    } else if Loadable(config.name, config.hash, store', checkpoint) {
      LoadIs(config.name, config.hash, store, checkpoint, Load(config.name, config.hash, store', checkpoint).value);
    }
  }

  // Writing the head changes no page.
  lemma HeadWriteKeepsPages(config: Config, store: Store, value: seq<byte>, checkpoint: Checkpoint)
    requires |checkpoint.slots| == |checkpoint.hashes|
    ensures Load(config.name, config.hash, store[HeadKey(NamespaceText(config.name)) := value], checkpoint)
         == Load(config.name, config.hash, store, checkpoint)
  {
    var store' := store[HeadKey(NamespaceText(config.name)) := value];
    forall p: nat | p < checkpoint.Pages()
      ensures Lookup(store', KeyOf(config.name, checkpoint, p)) == Lookup(store, KeyOf(config.name, checkpoint, p))
    {
      HeadIsNotPage(config.name, config.name, p, checkpoint.slots[p]);
    }
    SameKeysSameLoad(config, store, store', checkpoint);
  }

  /** However many pages were written, the published checkpoint still loads as before. */
  lemma PageWritesKeepPublished(config: Config, provider: Provider, store: Store, pages: seq<nat>)
    requires WellFormed(provider) && ValidCheckpoint(provider.published, config.isizeMax)
    ensures ReadHead(config, WritePages(config, provider, store, pages)) == ReadHead(config, store)
    ensures Load(config.name, config.hash, WritePages(config, provider, store, pages), provider.published)
         == Load(config.name, config.hash, store, provider.published)
  {
    var store' := WritePages(config, provider, store, pages);
    HeadIsNoTarget(config, provider);
    WritePagesFrame(config, provider, store, pages, HeadKey(NamespaceText(config.name)));
    forall p: nat | p < provider.published.Pages()
      ensures Lookup(store', KeyOf(config.name, provider.published, p)) == Lookup(store, KeyOf(config.name, provider.published, p))
    {
      SlotIsolation(config, provider, p);
      WritePagesFrame(config, provider, store, pages, KeyOf(config.name, provider.published, p));
    }
    SameKeysSameLoad(config, store, store', provider.published);
  }

  lemma CandidateValid(config: Config, provider: Provider)
    requires WellFormed(provider) && ValidCheckpoint(provider.published, config.isizeMax)
    requires PageCountOk(provider.pages, config.isizeMax)
    ensures ValidCheckpoint(Candidate(config, provider), config.isizeMax)
  {
  }

  /** Writing only the dirty pages makes the whole logical memory loadable under the new checkpoint. */
  lemma CandidateLoads(config: Config, provider: Provider, store: Store, durable: seq<byte>)
    requires Coherent(config, store, provider, durable) && DurableIs(config, store, durable)
    ensures Load(config.name, config.hash,
                 WritePages(config, provider, store, DirtyPages(provider.dirty, provider.pages)),
                 Candidate(config, provider)) == Some(provider.memory)
  {
    var dirty := DirtyPages(provider.dirty, provider.pages);
    var store' := WritePages(config, provider, store, dirty);
    var candidate := Candidate(config, provider);
    forall p: nat | p < provider.pages
      ensures Lookup(store', KeyOf(config.name, candidate, p)) == Some(PageSlice(provider.memory, p))
      ensures config.hash(PageSlice(provider.memory, p)) == candidate.hashes[p]
    {
      if provider.dirty[p] {
        assert candidate.slots[p] == NextSlot(provider.published, p);
        WritePagesStores(config, provider, store, dirty, p);
      } else {
        assert PageSlice(provider.memory, p) == PageSlice(durable, p);
        assert candidate.slots[p] == provider.published.slots[p] && candidate.hashes[p] == provider.published.hashes[p];
        SlotIsolation(config, provider, p);
        WritePagesFrame(config, provider, store, dirty, KeyOf(config.name, provider.published, p));
      }
    }
    LoadIs(config.name, config.hash, store', candidate, provider.memory);
  }

  /** After the head write both checkpoints in the head load: the new memory and the old durable bytes. */
  lemma PublishedHead(config: Config, provider: Provider, store: Store, durable: seq<byte>)
    requires Coherent(config, store, provider, durable) && DurableIs(config, store, durable)
    ensures var written := WritePages(config, provider, store, DirtyPages(provider.dirty, provider.pages));
            var published := PublishHead(config, provider, written);
            && ReadHead(config, published) == Ok(Manifest(Candidate(config, provider), Some(provider.published)))
            && ValidCheckpoint(Candidate(config, provider), config.isizeMax)
            && Load(config.name, config.hash, published, Candidate(config, provider)) == Some(provider.memory)
            && Load(config.name, config.hash, published, provider.published) == Some(durable)
  {
    var candidate := Candidate(config, provider);
    var manifest := Manifest(candidate, Some(provider.published));
    var dirty := DirtyPages(provider.dirty, provider.pages);
    var written := WritePages(config, provider, store, dirty);
    CandidateValid(config, provider);
    DecodeOfEncode(manifest, config.isizeMax);
    CandidateLoads(config, provider, store, durable);
    PageWritesKeepPublished(config, provider, store, dirty);
    HeadWriteKeepsPages(config, written, Encode(manifest), candidate);
    HeadWriteKeepsPages(config, written, Encode(manifest), provider.published);
  }

  // ----- One step of the two machines

  lemma OpenRelated(config: Config, store: Store, durable: seq<byte>)
    requires DurableIs(config, store, durable) && config.name != []
    ensures Open(config, store) == Ok(Fresh(durable, ReadHead(config, store).value.current, false))
    ensures SessionRelated(config, store, Open(config, store).value, durable, Session(durable, false, false, false))
  {
    var provider := Fresh(durable, ReadHead(config, store).value.current, false);
    assert !AnyDirty(provider);
  }

  // An opening that falls back serves the previous checkpoint.
  lemma FallbackRelated(config: Config, store: Store, durable: seq<byte>)
    requires DurableIs(config, store, durable) && config.name != []
    ensures var handle := OpenReading(config, store, Reads(true, false, true));
            match Leftover(config, store)
            case None => handle == Err(InvalidPages)
            case Some(bytes) => handle.Ok? && SessionRelated(config, store, handle.value, durable, Session(bytes, true, false, false))
  {
    var handle := OpenReading(config, store, Reads(true, false, true));
    if handle.Ok? {
      assert !AnyDirty(handle.value);
    }
  }

  lemma GrownCoherent(config: Config, store: Store, provider: Provider, durable: seq<byte>, newPages: nat)
    requires Coherent(config, store, provider, durable) && PageCountOk(provider.pages + newPages, config.isizeMax)
    ensures Coherent(config, store, Grown(provider, newPages), durable)
    ensures AnyDirty(Grown(provider, newPages)) == (AnyDirty(provider) || newPages > 0)
  {
    var next := Grown(provider, newPages);
    assert forall p: nat :: p < provider.pages ==> next.dirty[p] == provider.dirty[p];
    assert forall p: nat :: p < provider.pages ==> PageSlice(next.memory, p) == PageSlice(provider.memory, p);
    if newPages > 0 {
      assert next.dirty[provider.pages];
    }
  }

  lemma GrowRelated(config: Config, store: Store, provider: Provider, durable: seq<byte>, session: Session, newPages: nat, granted: bool)
    requires SessionRelated(config, store, provider, durable, session) && CheckWritable(provider) == None
    ensures var (next, r) := Grow(config, provider, newPages, granted);
            var (session', answer) := OnMemory(config, session, GrowBy(newPages, granted));
            && answer == AsSize(r) && SessionRelated(config, store, next, durable, session')
  {
    if Grow(config, provider, newPages, granted).1.Ok? {
      GrownCoherent(config, store, provider, durable, newPages);
    }
  }

  // Pages outside the marked range are untouched by a write.
  lemma WriteKeepsOtherPages(memory: seq<byte>, pages: nat, offset: nat, bytes: seq<byte>, page: nat)
    requires |memory| == pages * PAGE_SIZE && page < pages
    requires bytes != [] && offset + |bytes| <= |memory|
    requires !(offset / PAGE_SIZE <= page <= (offset + |bytes| - 1) / PAGE_SIZE)
    ensures PageSlice(Overwrite(memory, offset, bytes), page) == PageSlice(memory, page)
  {
    OverwriteElsewhere(memory, offset, bytes, page);
  }

  lemma WrittenCoherent(config: Config, store: Store, provider: Provider, durable: seq<byte>, offset: nat, bytes: seq<byte>)
    requires Coherent(config, store, provider, durable) && offset + |bytes| <= |provider.memory|
    ensures Coherent(config, store, Written(provider, offset, bytes), durable)
    ensures AnyDirty(Written(provider, offset, bytes)) == (AnyDirty(provider) || bytes != [])
  {
    var next := Written(provider, offset, bytes);
    if bytes == [] {
      assert next.memory == provider.memory;
    } else {
      forall p: nat | p < provider.pages && !next.dirty[p]
        ensures p < provider.published.Pages() && PageSlice(next.memory, p) == PageSlice(durable, p)
      {
        WriteKeepsOtherPages(provider.memory, provider.pages, offset, bytes, p);
      }
      assert next.dirty[offset / PAGE_SIZE];
    }
  }

  lemma WriteRelated(config: Config, store: Store, provider: Provider, durable: seq<byte>, session: Session, offset: nat, bytes: seq<byte>)
    requires SessionRelated(config, store, provider, durable, session) && CheckWritable(provider) == None
    ensures var (next, r) := Write(provider, offset, bytes);
            var (session', answer) := OnMemory(config, session, WriteAt(offset, bytes));
            && answer == AsAnswer(r) && SessionRelated(config, store, next, durable, session')
  {
    if Write(provider, offset, bytes).1.Ok? {
      WrittenCoherent(config, store, provider, durable, offset, bytes);
    }
  }

  lemma ImportRelated(config: Config, store: Store, provider: Provider, durable: seq<byte>, session: Session, bytes: seq<byte>, granted: bool)
    requires SessionRelated(config, store, provider, durable, session) && CheckWritable(provider) == None
    ensures var (next, r) := Import(config, provider, bytes, granted);
            var (session', answer) := OnMemory(config, session, ImportBytes(bytes, granted));
            && answer == AsAnswer(r) && SessionRelated(config, store, next, durable, session')
  {
    var (next, r) := Import(config, provider, bytes, granted);
    if r.Ok? {
      assert provider.published == EMPTY_CHECKPOINT;
      if next.pages > 0 {
        assert next.dirty[0];
      }
    }
  }

  // With no dirty page the cache is exactly the durable bytes.
  lemma CleanMeansDurable(config: Config, store: Store, provider: Provider, durable: seq<byte>)
    requires Coherent(config, store, provider, durable) && !AnyDirty(provider)
    ensures provider.memory == durable
  {
    if provider.pages > 0 {
      assert !provider.dirty[provider.pages - 1];
    }
    SamePages(provider.memory, durable, provider.pages);
  }

  /** The store a successful flush leaves. */
  function FlushedStore(config: Config, provider: Provider, store: Store): Store
    requires WellFormed(provider)
  {
    PublishHead(config, provider, WritePages(config, provider, store, DirtyPages(provider.dirty, provider.pages)))
  }

  // After a successful flush the cache is clean and coherent with the new checkpoint.
  lemma FlushedCoherent(config: Config, provider: Provider, store': Store)
    requires WellFormed(provider) && PageCountOk(provider.pages, config.isizeMax) && !provider.poisoned
    requires ReadHead(config, store').Ok? && ReadHead(config, store').value.current == Candidate(config, provider)
    ensures Coherent(config, store', Flushed(config, provider), provider.memory)
    ensures !AnyDirty(Flushed(config, provider))
  {
  }

  lemma FlushSucceeds(config: Config, store: Store, provider: Provider, durable: seq<byte>, session: Session)
    requires DurableIs(config, store, durable) && SessionRelated(config, store, provider, durable, session)
    requires !provider.poisoned && AnyDirty(provider)
    ensures DurableIs(config, FlushedStore(config, provider, store), provider.memory)
    ensures OlderIs(config, FlushedStore(config, provider, store), Some(durable))
    ensures SessionRelated(config, FlushedStore(config, provider, store), Flushed(config, provider),
                           provider.memory, session.(touched := false))
  {
    PublishedHead(config, provider, store, durable);
    FlushedCoherent(config, provider, FlushedStore(config, provider, store));
  }

  lemma PageWritesFailed(config: Config, store: Store, provider: Provider, durable: seq<byte>, session: Session, some: seq<nat>)
    requires DurableIs(config, store, durable) && SessionRelated(config, store, provider, durable, session)
    requires !provider.poisoned && !provider.fallback
    ensures DurableIs(config, WritePages(config, provider, store, some), durable)
    ensures SessionRelated(config, WritePages(config, provider, store, some), provider, durable, session)
  {
    PageWritesKeepPublished(config, provider, store, some);
  }

  lemma HeadWriteFailed(config: Config, store: Store, provider: Provider, durable: seq<byte>, session: Session)
    requires DurableIs(config, store, durable) && SessionRelated(config, store, provider, durable, session)
    requires !provider.poisoned && AnyDirty(provider)
    ensures DurableIs(config, FlushedStore(config, provider, store), provider.memory)
    ensures OlderIs(config, FlushedStore(config, provider, store), Some(durable))
    ensures DurableIs(config, WritePages(config, provider, store, DirtyPages(provider.dirty, provider.pages)), durable)
  {
    FlushSucceeds(config, store, provider, durable, session);
    PageWritesFailed(config, store, provider, durable, session, DirtyPages(provider.dirty, provider.pages));
  }

  // What a flush that has something to write does to the two machines.
  lemma FlushOutcome(config: Config, world: World, ideal: Ideal, fault: Fault, leftover: Option<seq<byte>>)
    requires Related(config, world, ideal) && world.provider.Some?
    requires !world.provider.value.poisoned && AnyDirty(world.provider.value)
    ensures var (store, provider, session) := (world.store, world.provider.value, ideal.session.value);
            var (world', answer) := Step(config, world, FlushWith(fault));
            var (ideal', expected) := IdealStep(config, ideal, FlushWith(fault), leftover);
            var written := WritePages(config, provider, store, DirtyPages(provider.dirty, provider.pages));
            && answer == expected
            && match fault
               case PageWritesFail(some) =>
                 world' == World(WritePages(config, provider, store, some), Some(provider)) && ideal' == ideal.(older := None)
               case HeadWriteFails(applied) =>
                 && world' == World(if applied then FlushedStore(config, provider, store) else written, Some(provider.(poisoned := true)))
                 && ideal' == (if applied then Ideal(provider.memory, Some(ideal.durable), Some(session.(poisoned := true)))
                               else Ideal(ideal.durable, None, Some(session.(poisoned := true))))
               case NoFault =>
                 && world' == World(FlushedStore(config, provider, store), Some(Flushed(config, provider)))
                 && ideal' == Ideal(provider.memory, Some(ideal.durable), Some(session.(touched := false)))
  {
    hide WritePages, Candidate, OlderIs, DurableIs;
  }

  lemma FlushRelated(config: Config, world: World, ideal: Ideal, fault: Fault, leftover: Option<seq<byte>>)
    requires Related(config, world, ideal) && world.provider.Some?
    ensures Step(config, world, FlushWith(fault)).1 == IdealStep(config, ideal, FlushWith(fault), leftover).1
    ensures Related(config, Step(config, world, FlushWith(fault)).0, IdealStep(config, ideal, FlushWith(fault), leftover).0)
  {
    var store, provider, durable, session := world.store, world.provider.value, ideal.durable, ideal.session.value;
    if !provider.poisoned && AnyDirty(provider) {
      hide Step, IdealStep, Leftover, DurableIs, FlushedStore, WritePages, Coherent;
      FlushOutcome(config, world, ideal, fault, leftover);
      match fault
      case PageWritesFail(some) =>
        PageWritesFailed(config, store, provider, durable, session, some);
      case HeadWriteFails(applied) =>
        HeadWriteFailed(config, store, provider, durable, session);
      case NoFault =>
        FlushSucceeds(config, store, provider, durable, session);
    } else {
      NothingFlushed(config, world, ideal, fault, leftover);
    }
  }

  // A flush without dirty pages, or after a doubtful head write, does nothing.
  lemma NothingFlushed(config: Config, world: World, ideal: Ideal, fault: Fault, leftover: Option<seq<byte>>)
    requires Related(config, world, ideal) && world.provider.Some?
    requires world.provider.value.poisoned || !AnyDirty(world.provider.value)
    ensures Step(config, world, FlushWith(fault)).0 == world && IdealStep(config, ideal, FlushWith(fault), leftover).0 == ideal
    ensures Step(config, world, FlushWith(fault)).1 == IdealStep(config, ideal, FlushWith(fault), leftover).1
  {
    hide DurableIs, OlderIs, WritePages, FlushedStore;
  }

  // A write under another name touches no key of this database.
  lemma OtherKeysKeep(config: Config, store: Store, other: seq<byte>, key: string, value: seq<byte>)
    requires other != config.name && OwnedBy(other, key)
    ensures forall own :: OwnedBy(config.name, own) ==> Lookup(store[key := value], own) == Lookup(store, own)
    ensures ReadHead(config, store[key := value]) == ReadHead(config, store)
  {
    forall own | OwnedBy(config.name, own)
      ensures own != key
    {
      if own == key {
        KeySpacesDisjoint(config.name, other, key);
        assert false;
      }
    }
    assert OwnedBy(config.name, HeadKey(NamespaceText(config.name)));
  }

  /** A write under another name changes neither the head, nor the durable bytes, nor what is left of the older ones. */
  lemma OtherDatabaseKeeps(config: Config, store: Store, other: seq<byte>, key: string, value: seq<byte>, durable: seq<byte>)
    requires other != config.name && OwnedBy(other, key) && DurableIs(config, store, durable)
    ensures ReadHead(config, store[key := value]) == ReadHead(config, store)
    ensures DurableIs(config, store[key := value], durable)
    ensures Leftover(config, store[key := value]) == Leftover(config, store)
  {
    hide OwnedBy;
    var manifest := ReadHead(config, store).value;
    OtherKeysKeep(config, store, other, key, value);
    OwnKeysSameLoad(config, store, store[key := value], manifest.current);
    if manifest.previous.Some? {
      OwnKeysSameLoad(config, store, store[key := value], manifest.previous.value);
    }
  }

  lemma OpenStepRelated(config: Config, world: World, ideal: Ideal, served: Reads)
    requires Related(config, world, ideal)
    ensures var leftover := Leftover(config, world.store);
            && Step(config, world, OpenProvider(served)).1 == IdealStep(config, ideal, OpenProvider(served), leftover).1
            && Related(config, Step(config, world, OpenProvider(served)).0, IdealStep(config, ideal, OpenProvider(served), leftover).0)
  {
    hide Leftover;
    if config.name != [] && served.head {
      if served.current {
        OpenRelated(config, world.store, ideal.durable);
      } else if served.previous {
        FallbackRelated(config, world.store, ideal.durable);
      }
    }
  }

  lemma OtherStepRelated(config: Config, world: World, ideal: Ideal, event: Event, leftover: Option<seq<byte>>)
    requires Related(config, world, ideal) && Admissible(config, event) && event.OtherDatabase?
    ensures Step(config, world, event).1 == IdealStep(config, ideal, event, leftover).1
    ensures Related(config, Step(config, world, event).0, IdealStep(config, ideal, event, leftover).0)
  {
    OtherDatabaseKeeps(config, world.store, event.other, event.key, event.value, ideal.durable);
  }

  // Calls that only look at the cache.
  lemma LookRelated(config: Config, world: World, ideal: Ideal, event: Event, leftover: Option<seq<byte>>)
    requires Related(config, world, ideal) && (event.ReadAt? || event.ExportBytes?)
    ensures Step(config, world, event).1 == IdealStep(config, ideal, event, leftover).1
    ensures Related(config, Step(config, world, event).0, IdealStep(config, ideal, event, leftover).0)
  {
  }

  // Calls that change the cache alone.
  lemma MemoryStepRelated(config: Config, world: World, ideal: Ideal, event: Event, leftover: Option<seq<byte>>)
    requires Related(config, world, ideal) && (event.GrowBy? || event.WriteAt? || event.ImportBytes?)
    ensures Step(config, world, event).1 == IdealStep(config, ideal, event, leftover).1
    ensures Related(config, Step(config, world, event).0, IdealStep(config, ideal, event, leftover).0)
  {
    hide Coherent, Leftover, Grown, Written;
    if world.provider.Some? && CheckWritable(world.provider.value) == None {
      match event
      case GrowBy(newPages, granted) =>
        GrowRelated(config, world.store, world.provider.value, ideal.durable, ideal.session.value, newPages, granted);
      case WriteAt(offset, bytes) =>
        WriteRelated(config, world.store, world.provider.value, ideal.durable, ideal.session.value, offset, bytes);
      case ImportBytes(bytes, granted) =>
        ImportRelated(config, world.store, world.provider.value, ideal.durable, ideal.session.value, bytes, granted);
    }
  }

  /** One event: both machines answer alike and stay related. */
  lemma StepRefines(config: Config, world: World, ideal: Ideal, event: Event)
    requires Related(config, world, ideal) && Admissible(config, event)
    ensures var leftover := Leftover(config, world.store);
            && Step(config, world, event).1 == IdealStep(config, ideal, event, leftover).1
            && Related(config, Step(config, world, event).0, IdealStep(config, ideal, event, leftover).0)
  {
    hide Coherent, ReadHead, Load, OnSession, OpenReading;
    var leftover := Leftover(config, world.store);
    match event
    case OpenProvider(served) =>
      OpenStepRelated(config, world, ideal, served);
    case Crash =>
    case OtherDatabase(_, _, _) =>
      OtherStepRelated(config, world, ideal, event, leftover);
    case FlushWith(fault) =>
      if world.provider.Some? {
        FlushRelated(config, world, ideal, fault, leftover);
      }
    case ReadAt(_, _) =>
      LookRelated(config, world, ideal, event, leftover);
    case ExportBytes(_) =>
      LookRelated(config, world, ideal, event, leftover);
    case _ =>
      MemoryStepRelated(config, world, ideal, event, leftover);
  }

  // ----- Whole runs

  ghost predicate WorldWellFormed(world: World) {
    world.provider.Some? ==> WellFormed(world.provider.value)
  }

  lemma StepWellFormed(config: Config, world: World, event: Event)
    requires WorldWellFormed(world)
    ensures WorldWellFormed(Step(config, world, event).0)
  {
    if event.OpenProvider? {
      ReadHeadValid(config, world.store);
    }
  }

  /** The world after a run, and the answers given on the way. */
  ghost function Run(config: Config, world: World, events: seq<Event>): (World, seq<Answered>)
    requires WorldWellFormed(world)
    decreases |events|
  {
    if events == [] then (world, [])
    else
      StepWellFormed(config, world, events[0]);
      var (next, answer) := Step(config, world, events[0]);
      var (last, answers) := Run(config, next, events[1..]);
      (last, [answer] + answers)
  }

  /** What an interrupted flush has left of the older bytes, before every event of a run. */
  ghost function Leftovers(config: Config, world: World, events: seq<Event>): (leftovers: seq<Option<seq<byte>>>)
    requires WorldWellFormed(world)
    ensures |leftovers| == |events|
    decreases |events|
  {
    if events == [] then []
    else
      StepWellFormed(config, world, events[0]);
      [Leftover(config, world.store)] + Leftovers(config, Step(config, world, events[0]).0, events[1..])
  }

  ghost function IdealRun(config: Config, ideal: Ideal, events: seq<Event>, leftovers: seq<Option<seq<byte>>>): (Ideal, seq<Answered>)
    requires |leftovers| == |events|
    decreases |events|
  {
    if events == [] then (ideal, [])
    else
      var (next, answer) := IdealStep(config, ideal, events[0], leftovers[0]);
      var (last, answers) := IdealRun(config, next, events[1..], leftovers[1..]);
      (last, [answer] + answers)
  }

  ghost predicate AllAdmissible(config: Config, events: seq<Event>) {
    forall i :: 0 <= i < |events| ==> Admissible(config, events[i])
  }

  /** Refinement over every run: equal answers and related final states. */
  lemma {:induction false} RunRefines(config: Config, world: World, ideal: Ideal, events: seq<Event>)
    requires Related(config, world, ideal) && AllAdmissible(config, events)
    ensures var (last, answers) := Run(config, world, events);
            var (ideal', expected) := IdealRun(config, ideal, events, Leftovers(config, world, events));
            answers == expected && Related(config, last, ideal')
    decreases |events|
  {
    hide Related, Step, IdealStep, Leftover;
    if events != [] {
      RelatedWellFormed(config, world, ideal);
      StepWellFormed(config, world, events[0]);
      StepRefines(config, world, ideal, events[0]);
      var leftovers := Leftovers(config, world, events);
      assert leftovers[0] == Leftover(config, world.store);
      assert leftovers[1..] == Leftovers(config, Step(config, world, events[0]).0, events[1..]);
      RunRefines(config, Step(config, world, events[0]).0, IdealStep(config, ideal, events[0], leftovers[0]).0, events[1..]);
    }
  }

  lemma RelatedWellFormed(config: Config, world: World, ideal: Ideal)
    requires Related(config, world, ideal)
    ensures WorldWellFormed(world)
  {
  }

  /** A store without a head for this database, whatever else it holds. */
  ghost predicate Unused(config: Config, store: Store) {
    HeadKey(NamespaceText(config.name)) !in store
  }

  const IDEAL_START := Ideal([], Some([]), None)

  lemma StartRelated(config: Config, store: Store)
    requires Unused(config, store)
    ensures Related(config, World(store, None), IDEAL_START)
  {
    LoadIs(config.name, config.hash, store, EMPTY_CHECKPOINT, []);
  }

  /** The ideal machine after a run from an unused store. */
  ghost function IdealAfter(config: Config, store: Store, events: seq<Event>): (Ideal, seq<Answered>) {
    IdealRun(config, IDEAL_START, events, Leftovers(config, World(store, None), events))
  }

  /**
   Crash safety: after any run, with any faults and openings that fall back, every answer was
   the one of the ideal machine and reopening succeeds, writable, with exactly its durable bytes.
   */
  lemma CrashSafety(config: Config, store: Store, events: seq<Event>)
    requires config.name != [] && Unused(config, store) && AllAdmissible(config, events)
    ensures var (world, answers) := Run(config, World(store, None), events);
            var (ideal, expected) := IdealAfter(config, store, events);
            && answers == expected
            && Open(config, world.store).Ok?
            && Open(config, world.store).value.memory == ideal.durable
            && !Open(config, world.store).value.fallback
  {
    StartRelated(config, store);
    RunRefines(config, World(store, None), IDEAL_START, events);
    OpenRelated(config, Run(config, World(store, None), events).0.store, IdealAfter(config, store, events).0.durable);
  }

  /**
   Cache coherence: in every reachable state with a usable handle, each page that
   is not dirty lies inside the published checkpoint and is stored, at its
   published slot, with the recorded hash.
   */
  lemma CacheCoherence(config: Config, store: Store, events: seq<Event>, page: nat)
    requires Unused(config, store) && AllAdmissible(config, events)
    requires var world := Run(config, World(store, None), events).0;
             && world.provider.Some? && CheckWritable(world.provider.value) == None
             && page < world.provider.value.pages && page < |world.provider.value.dirty| && !world.provider.value.dirty[page]
    ensures var world := Run(config, World(store, None), events).0;
            var provider := world.provider.value;
            && page < provider.published.Pages() == |provider.published.hashes|
            && (page + 1) * PAGE_SIZE <= |provider.memory|
            && Lookup(world.store, KeyOf(config.name, provider.published, page)) == Some(PageSlice(provider.memory, page))
            && provider.published.hashes[page] == config.hash(PageSlice(provider.memory, page))
  {
    StartRelated(config, store);
    RunRefines(config, World(store, None), IDEAL_START, events);
  }

  // ----- Falling back to the previous checkpoint

  /** Both checkpoints named by the head that a flush of `provider` published are stored intact. */
  ghost predicate BothIntact(config: Config, provider: Provider, durable: seq<byte>, store: Store)
    requires WellFormed(provider)
  {
    && ReadHead(config, store) == Ok(Manifest(Candidate(config, provider), Some(provider.published)))
    && Load(config.name, config.hash, store, Candidate(config, provider)) == Some(provider.memory)
    && Load(config.name, config.hash, store, provider.published) == Some(durable)
  }

  /** The two stores agree on every key of this database except, possibly, the targets of the flush. */
  ghost predicate DamagedAtTargets(config: Config, provider: Provider, store: Store, damaged: Store)
    requires WellFormed(provider)
  {
    forall key :: OwnedBy(config.name, key) && !IsTarget(config, provider, key) ==> Lookup(damaged, key) == Lookup(store, key)
  }

  /** No damaged page happens to be a full page with the hash of the page it replaced. */
  ghost predicate NoCollision(config: Config, provider: Provider, damaged: Store)
    requires WellFormed(provider)
  {
    forall p: nat :: p < provider.pages && provider.dirty[p] ==>
      var value := Lookup(damaged, TargetKey(config, provider, p));
      GoodPage(config.hash, value, config.hash(PageSlice(provider.memory, p))) ==> value.value == PageSlice(provider.memory, p)
  }

  ghost predicate Undamaged(config: Config, provider: Provider, damaged: Store)
    requires WellFormed(provider)
  {
    forall p: nat :: p < provider.pages && provider.dirty[p] ==>
      Lookup(damaged, TargetKey(config, provider, p)) == Some(PageSlice(provider.memory, p))
  }

  lemma KeyIsOwned(config: Config, checkpoint: Checkpoint, page: nat)
    requires page < checkpoint.Pages()
    ensures OwnedBy(config.name, KeyOf(config.name, checkpoint, page))
  {
  }

  // What the candidate says of a page that is not dirty.
  lemma CleanPageKept(config: Config, provider: Provider, store: Store, durable: seq<byte>, page: nat)
    requires Coherent(config, store, provider, durable) && DurableIs(config, store, durable)
    requires page < provider.pages && !provider.dirty[page]
    ensures page < provider.published.Pages()
    ensures KeyOf(config.name, Candidate(config, provider), page) == KeyOf(config.name, provider.published, page)
    ensures !IsTarget(config, provider, KeyOf(config.name, provider.published, page))
  {
    SlotIsolation(config, provider, page);
  }

  // Every page of the candidate is found in the undamaged store under its candidate key.
  lemma UndamagedPage(config: Config, provider: Provider, store: Store, durable: seq<byte>, damaged: Store, page: nat)
    requires Coherent(config, store, provider, durable) && DurableIs(config, store, durable)
    requires DamagedAtTargets(config, provider, FlushedStore(config, provider, store), damaged)
    requires Undamaged(config, provider, damaged) && page < provider.pages
    requires Lookup(FlushedStore(config, provider, store), KeyOf(config.name, Candidate(config, provider), page))
          == Some(PageSlice(provider.memory, page))
    ensures Lookup(damaged, KeyOf(config.name, Candidate(config, provider), page)) == Some(PageSlice(provider.memory, page))
  {
    if provider.dirty[page] {
      assert KeyOf(config.name, Candidate(config, provider), page) == TargetKey(config, provider, page);
    } else {
      CleanPageKept(config, provider, store, durable, page);
      KeyIsOwned(config, provider.published, page);
    }
  }

  lemma UndamagedLoads(config: Config, provider: Provider, store: Store, durable: seq<byte>, damaged: Store)
    requires Coherent(config, store, provider, durable) && DurableIs(config, store, durable)
    requires DamagedAtTargets(config, provider, FlushedStore(config, provider, store), damaged)
    requires Undamaged(config, provider, damaged)
    ensures Load(config.name, config.hash, damaged, Candidate(config, provider)) == Some(provider.memory)
  {
    PublishedHead(config, provider, store, durable);
    forall p: nat | p < provider.pages
      ensures Lookup(damaged, KeyOf(config.name, Candidate(config, provider), p)) == Some(PageSlice(provider.memory, p))
    {
      UndamagedPage(config, provider, store, durable, damaged, p);
    }
    LoadIs(config.name, config.hash, damaged, Candidate(config, provider), provider.memory);
  }

  lemma DamagedDoesNotLoad(config: Config, provider: Provider, damaged: Store)
    requires WellFormed(provider) && NoCollision(config, provider, damaged) && !Undamaged(config, provider, damaged)
    ensures Load(config.name, config.hash, damaged, Candidate(config, provider)) == None
  {
    var candidate := Candidate(config, provider);
    var p: nat :| p < provider.pages && provider.dirty[p]
                  && Lookup(damaged, TargetKey(config, provider, p)) != Some(PageSlice(provider.memory, p));
    assert KeyOf(config.name, candidate, p) == TargetKey(config, provider, p);
    assert !GoodPage(config.hash, Lookup(damaged, KeyOf(config.name, candidate, p)), candidate.hashes[p]);
  }

  lemma DamagedPrevious(config: Config, provider: Provider, store: Store, durable: seq<byte>, damaged: Store)
    requires Coherent(config, store, provider, durable) && DurableIs(config, store, durable)
    requires DamagedAtTargets(config, provider, FlushedStore(config, provider, store), damaged)
    ensures Load(config.name, config.hash, damaged, provider.published) == Some(durable)
    ensures ReadHead(config, damaged) == Ok(Manifest(Candidate(config, provider), Some(provider.published)))
  {
    var store' := FlushedStore(config, provider, store);
    PublishedHead(config, provider, store, durable);
    HeadIsNoTarget(config, provider);
    assert Lookup(damaged, HeadKey(NamespaceText(config.name))) == Lookup(store', HeadKey(NamespaceText(config.name)));
    forall p: nat | p < provider.published.Pages()
      ensures Lookup(damaged, KeyOf(config.name, provider.published, p)) == Lookup(store', KeyOf(config.name, provider.published, p))
    {
      SlotIsolation(config, provider, p);
      KeyIsOwned(config, provider.published, p);
    }
    SameKeysSameLoad(config, store', damaged, provider.published);
  }

  lemma DamageFallsBack(config: Config, provider: Provider, store: Store, durable: seq<byte>, damaged: Store)
    requires config.name != []
    requires Coherent(config, store, provider, durable) && DurableIs(config, store, durable)
    requires DamagedAtTargets(config, provider, FlushedStore(config, provider, store), damaged)
    requires NoCollision(config, provider, damaged)
    ensures Open(config, damaged)
         == if Undamaged(config, provider, damaged) then Ok(Fresh(provider.memory, Candidate(config, provider), false))
            else if durable != [] then Ok(Fresh(durable, provider.published, true))
            else Err(InvalidPages)
  {
    DamagedPrevious(config, provider, store, durable, damaged);
    if Undamaged(config, provider, damaged) {
      UndamagedLoads(config, provider, store, durable, damaged);
    } else {
      DamagedDoesNotLoad(config, provider, damaged);
    }
  }

  ghost predicate OnHandle(event: Event) {
    !event.OpenProvider? && !event.Crash? && !event.OtherDatabase?
  }

  /** No sequence of calls on a fallback handle changes the store or the handle. */
  lemma {:induction false} FallbackIsReadOnly(config: Config, store: Store, memory: seq<byte>, published: Checkpoint, events: seq<Event>)
    requires |published.slots| == |published.hashes| && |memory| == published.Pages() * PAGE_SIZE
    requires forall i :: 0 <= i < |events| ==> OnHandle(events[i])
    ensures Run(config, World(store, Some(Fresh(memory, published, true))), events).0
         == World(store, Some(Fresh(memory, published, true)))
    decreases |events|
  {
    if events != [] {
      var world := World(store, Some(Fresh(memory, published, true)));
      assert !AnyDirty(world.provider.value);
      assert Step(config, world, events[0]).0 == world;
      FallbackIsReadOnly(config, store, memory, published, events[1..]);
    }
  }

  ghost predicate Quiet(config: Config, events: seq<Event>) {
    AllAdmissible(config, events) && forall i :: 0 <= i < |events| ==> !events[i].FlushWith?
  }

  // Without a flush no key of this database changes.
  lemma {:induction false} QuietKeepsOwnKeys(config: Config, world: World, events: seq<Event>, key: string)
    requires WorldWellFormed(world) && Quiet(config, events) && OwnedBy(config.name, key)
    ensures Lookup(Run(config, world, events).0.store, key) == Lookup(world.store, key)
    decreases |events|
  {
    if events != [] {
      StepWellFormed(config, world, events[0]);
      if events[0].OtherDatabase? && events[0].key == key {
        KeySpacesDisjoint(config.name, events[0].other, key);
        assert false;
      }
      QuietKeepsOwnKeys(config, Step(config, world, events[0]).0, events[1..], key);
    }
  }

  /** A reachable state that a flush can publish: a usable handle with dirty pages. */
  ghost predicate ReadyToFlush(config: Config, store: Store, events: seq<Event>) {
    && Unused(config, store) && AllAdmissible(config, events)
    && var world := Run(config, World(store, None), events).0;
       world.provider.Some? && !world.provider.value.poisoned && AnyDirty(world.provider.value)
  }

  lemma ReadyIsCoherent(config: Config, store: Store, events: seq<Event>)
    requires ReadyToFlush(config, store, events)
    ensures var world := Run(config, World(store, None), events).0;
            var durable := IdealAfter(config, store, events).0.durable;
            Coherent(config, world.store, world.provider.value, durable) && DurableIs(config, world.store, durable)
  {
    StartRelated(config, store);
    RunRefines(config, World(store, None), IDEAL_START, events);
  }

  /** The store after a successful flush and further events without a flush. */
  ghost function AfterFlush(config: Config, world: World, after: seq<Event>): Store
    requires world.provider.Some? && WellFormed(world.provider.value)
  {
    StepWellFormed(config, world, FlushWith(NoFault));
    Run(config, Step(config, world, FlushWith(NoFault)).0, after).0.store
  }

  lemma FlushStepStore(config: Config, world: World, durable: seq<byte>)
    requires world.provider.Some? && Coherent(config, world.store, world.provider.value, durable)
    requires AnyDirty(world.provider.value)
    ensures Step(config, world, FlushWith(NoFault)).0.store == FlushedStore(config, world.provider.value, world.store)
  {
  }

  lemma AfterFlushKeeps(config: Config, world: World, after: seq<Event>, durable: seq<byte>, key: string)
    requires world.provider.Some? && Coherent(config, world.store, world.provider.value, durable)
    requires AnyDirty(world.provider.value) && Quiet(config, after) && OwnedBy(config.name, key)
    ensures Lookup(AfterFlush(config, world, after), key) == Lookup(FlushedStore(config, world.provider.value, world.store), key)
  {
    FlushStepStore(config, world, durable);
    StepWellFormed(config, world, FlushWith(NoFault));
    QuietKeepsOwnKeys(config, Step(config, world, FlushWith(NoFault)).0, after, key);
  }

  /**
   After any run, a successful flush of a dirty cache and any further events up
   to the next flush, both the flushed memory and the bytes that were durable
   before it are stored intact under the head.
   */
  lemma BothCheckpointsSurvive(config: Config, store: Store, before: seq<Event>, after: seq<Event>)
    requires ReadyToFlush(config, store, before) && Quiet(config, after)
    ensures var world := Run(config, World(store, None), before).0;
            && WellFormed(world.provider.value)
            && BothIntact(config, world.provider.value, IdealAfter(config, store, before).0.durable,
                          AfterFlush(config, world, after))
  {
    var world := Run(config, World(store, None), before).0;
    var durable := IdealAfter(config, store, before).0.durable;
    ReadyIsCoherent(config, store, before);
    forall key | OwnedBy(config.name, key) {
      AfterFlushKeeps(config, world, after, durable, key);
    }
    IntactAfterFlush(config, world.provider.value, world.store, durable, AfterFlush(config, world, after));
  }

  lemma IntactAfterFlush(config: Config, provider: Provider, store: Store, durable: seq<byte>, later: Store)
    requires Coherent(config, store, provider, durable) && DurableIs(config, store, durable)
    requires forall key :: OwnedBy(config.name, key) ==> Lookup(later, key) == Lookup(FlushedStore(config, provider, store), key)
    ensures BothIntact(config, provider, durable, later)
  {
    var store' := FlushedStore(config, provider, store);
    PublishedHead(config, provider, store, durable);
    assert OwnedBy(config.name, HeadKey(NamespaceText(config.name)));
    OwnKeysSameLoad(config, store', later, Candidate(config, provider));
    OwnKeysSameLoad(config, store', later, provider.published);
  }

  lemma OwnKeysSameLoad(config: Config, store: Store, later: Store, checkpoint: Checkpoint)
    requires |checkpoint.slots| == |checkpoint.hashes|
    requires forall key :: OwnedBy(config.name, key) ==> Lookup(later, key) == Lookup(store, key)
    ensures Load(config.name, config.hash, later, checkpoint) == Load(config.name, config.hash, store, checkpoint)
  {
    forall p: nat | p < checkpoint.Pages()
      ensures Lookup(later, KeyOf(config.name, checkpoint, p)) == Lookup(store, KeyOf(config.name, checkpoint, p))
    {
      KeyIsOwned(config, checkpoint, p);
    }
    SameKeysSameLoad(config, store, later, checkpoint);
  }

  /**
   Damage, after any run, limited to the pages that the last flush wrote:
   reopening returns the flushed memory if and only if none of them changed, and
   otherwise exactly the bytes that were durable before that flush, in read-only
   mode, or an error when there were none.
   */
  lemma FallbackOverRuns(config: Config, store: Store, before: seq<Event>, after: seq<Event>, damaged: Store)
    requires config.name != [] && ReadyToFlush(config, store, before) && Quiet(config, after)
    requires var world := Run(config, World(store, None), before).0;
             && WellFormed(world.provider.value)
             && DamagedAtTargets(config, world.provider.value, AfterFlush(config, world, after), damaged)
             && NoCollision(config, world.provider.value, damaged)
    ensures var provider := Run(config, World(store, None), before).0.provider.value;
            var durable := IdealAfter(config, store, before).0.durable;
            Open(config, damaged)
              == if Undamaged(config, provider, damaged) then Ok(Fresh(provider.memory, Candidate(config, provider), false))
                 else if durable != [] then Ok(Fresh(durable, provider.published, true))
                 else Err(InvalidPages)
  {
    var world := Run(config, World(store, None), before).0;
    var durable := IdealAfter(config, store, before).0.durable;
    ReadyIsCoherent(config, store, before);
    forall key | OwnedBy(config.name, key) {
      AfterFlushKeeps(config, world, after, durable, key);
    }
    DamageFallsBack(config, world.provider.value, world.store, durable, damaged);
  }

  // ----- Openings whose reads fail in part

  /**
   After any run, an opening that the store answers in any part returns the durable bytes,
   writable, or a read-only handle, or an error; and whatever is then called on a read-only
   handle, the store stays as it was, so that reopening still yields the durable bytes.
   */
  lemma ReadOnlyEpisode(config: Config, store: Store, events: seq<Event>, served: Reads, calls: seq<Event>)
    requires config.name != [] && Unused(config, store) && AllAdmissible(config, events)
    requires forall i :: 0 <= i < |calls| ==> OnHandle(calls[i])
    ensures var reached := Run(config, World(store, None), events).0.store;
            var durable := IdealAfter(config, store, events).0.durable;
            match OpenReading(config, reached, served)
            case Err(_) => !served.head || !served.current
            case Ok(provider) =>
              && WellFormed(provider)
              && (!provider.fallback ==> served.current && provider.memory == durable)
              && (provider.fallback ==>
                    && !served.current
                    && Run(config, World(reached, Some(provider)), calls).0 == World(reached, Some(provider))
                    && Open(config, reached).Ok? && Open(config, reached).value.memory == durable
                    && !Open(config, reached).value.fallback)
  {
    var reached := Run(config, World(store, None), events).0.store;
    CrashSafety(config, store, events);
    ReadHeadValid(config, reached);
    var handle := OpenReading(config, reached, served);
    if handle.Ok? && handle.value.fallback {
      FallbackIsReadOnly(config, reached, handle.value.memory, handle.value.published, calls);
    }
  }

  /**
   Opening while the store answers only for the previous checkpoint: between a flush and the
   next, after any run, it returns exactly the bytes that were durable before that flush,
   read-only, or an error when there were none.
   */
  lemma UnansweredFallsBack(config: Config, store: Store, before: seq<Event>, after: seq<Event>)
    requires config.name != [] && ReadyToFlush(config, store, before) && Quiet(config, after)
    ensures var world := Run(config, World(store, None), before).0;
            var durable := IdealAfter(config, store, before).0.durable;
            && WellFormed(world.provider.value)
            && OpenReading(config, AfterFlush(config, world, after), Reads(true, false, true))
               == if durable != [] then Ok(Fresh(durable, world.provider.value.published, true)) else Err(InvalidPages)
  {
    hide Run, IdealAfter, AfterFlush;
    BothCheckpointsSurvive(config, store, before, after);
  }

  // ----- Keys that are built are valid keys

  /** Every key that a flush writes or a load asks for passes the checks of the key builder. */
  lemma KeysAreBuilt(config: Config, provider: Provider, checkpoint: Checkpoint, page: nat)
    requires config.name != [] && WellFormed(provider) && PageCountOk(provider.pages, config.isizeMax)
    requires ValidCheckpoint(checkpoint, config.isizeMax)
    ensures Namespace(config.name) == Ok(NamespaceText(config.name))
    ensures page < provider.pages ==>
              PageKey(NamespaceText(config.name), page, NextSlot(provider.published, page))
              == Ok(TargetKey(config, provider, page))
    ensures page < checkpoint.Pages() ==>
              PageKey(NamespaceText(config.name), page, checkpoint.slots[page])
              == Ok(KeyOf(config.name, checkpoint, page))
  {
  }
}
