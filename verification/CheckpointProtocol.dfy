/**
 The checkpoint protocol of the key-value memory provider as a state machine.

 The concrete machine keeps a page cache with dirty flags and publishes
 checkpoints by shadow paging into a flat key-value store; page batches and the
 head write may fail part-way and the process may stop at any point. The ideal
 machine has one durable byte string and one volatile copy of it. Over every
 run the two give the same answers, and the store always reopens to the durable
 bytes of the ideal machine.
 */
module CheckpointProtocol {
  import opened Wrappers
  import opened Bytes
  import opened Pages
  import opened Keys
  import opened Manifests
  import opened PageLoading

  /** What is fixed for one database: its name, the page hash and the host's largest allocation. */
  datatype Config = Config(name: seq<byte>, hash: Hash, isizeMax: nat)

  datatype Error =
    | Poisoned
    | ReadOnlyFallback
    | OutOfBounds
    | FailedToAllocatePage
    | PageLimit
    | NotEmpty
    | Misaligned
    | StoreError
    | EmptyDatabaseName
    | InvalidManifest(reason: ManifestError)
    | InvalidPages
    | NoProvider

  /** An open provider: the cached memory and what is known about the published checkpoint. */
  datatype Provider = Provider(
    memory: seq<byte>,
    pages: nat,
    published: Checkpoint,
    dirty: seq<bool>,
    fallback: bool,
    poisoned: bool)

  // ----- Opening

  function ReadHead(config: Config, store: Store): Result<Manifest, ManifestError> {
    var head := HeadKey(NamespaceText(config.name));
    if head in store then Decode(store[head], config.isizeMax) else Ok(EMPTY_MANIFEST)
  }

  function Fresh(memory: seq<byte>, published: Checkpoint, fallback: bool): Provider {
    Provider(memory, published.Pages(), published, seq(published.Pages(), _ => false), fallback, false)
  }

  // What decodes is well formed, so that its checkpoints can be loaded.
  lemma ReadHeadValid(config: Config, store: Store)
    ensures ReadHead(config, store).Ok? ==> ValidManifest(ReadHead(config, store).value, config.isizeMax)
  {
    var head := HeadKey(NamespaceText(config.name));
    if head in store && Decode(store[head], config.isizeMax).Ok? {
      EncodeOfDecode(store[head], config.isizeMax);
    }
  }

  /** Which reads of an opening the store answers: the head, and all page batches of either checkpoint. */
  datatype Reads = Reads(head: bool, current: bool, previous: bool)

  const ALL_READS := Reads(true, true, true)

  function LoadRead(config: Config, store: Store, checkpoint: Checkpoint, answered: bool): Option<seq<byte>>
    requires |checkpoint.slots| == |checkpoint.hashes|
  {
    if answered then Load(config.name, config.hash, store, checkpoint) else None
  }

  /** Opening: the current checkpoint, else a non-empty previous one read-only, else an error. */
  function OpenReading(config: Config, store: Store, served: Reads): Result<Provider, Error> {
    if config.name == [] then Err(EmptyDatabaseName)
    else if !served.head then Err(StoreError)
    else
      ReadHeadValid(config, store);
      match ReadHead(config, store)
      case Err(reason) => Err(InvalidManifest(reason))
      case Ok(manifest) =>
        match LoadRead(config, store, manifest.current, served.current)
        case Some(memory) => Ok(Fresh(memory, manifest.current, false))
        case None =>
          if manifest.previous.Some? && manifest.previous.value.Pages() > 0 then
            match LoadRead(config, store, manifest.previous.value, served.previous)
            case Some(memory) => Ok(Fresh(memory, manifest.previous.value, true))
            case None => Err(InvalidPages)
          else Err(InvalidPages)
  }

  /** Opening over a store that answers every read. */
  function Open(config: Config, store: Store): Result<Provider, Error> {
    OpenReading(config, store, ALL_READS)
  }

  // ----- Operations on the cache

  function CheckWritable(provider: Provider): Option<Error> {
    if provider.poisoned then Some(Poisoned)
    else if provider.fallback then Some(ReadOnlyFallback)
    else None
  }

  /** The page-count part of growing: the new number of pages or the error. */
  function GrownPages(pages: nat, newPages: nat, isizeMax: nat): (r: Result<nat, Error>)
    ensures r.Ok? ==> r.value == pages + newPages && PageCountOk(pages + newPages, isizeMax)
  {
    if pages + newPages > U64_MAX then Err(FailedToAllocatePage)
    else match ValidatePageCount(pages + newPages, isizeMax)
      case Some(TooManyPages) => Err(PageLimit)
      case Some(_) => Err(FailedToAllocatePage)
      case None => Ok(pages + newPages)
  }

  /** Growing: new pages are zero and dirty; returns the previous size in bytes. */
  function Grow(config: Config, provider: Provider, newPages: nat, granted: bool): (Provider, Result<nat, Error>) {
    var refused := CheckWritable(provider);
    if refused.Some? then (provider, Err(refused.value))
    else match GrownPages(provider.pages, newPages, config.isizeMax)
      case Err(error) => (provider, Err(error))
      case Ok(pages) =>
        if !granted then (provider, Err(FailedToAllocatePage))
        else (Grown(provider, newPages), Ok(provider.pages * PAGE_SIZE))
  }

  function Grown(provider: Provider, newPages: nat): Provider {
    provider.(memory := provider.memory + Zeros(newPages * PAGE_SIZE),
              dirty := provider.dirty + seq(newPages, _ => true),
              pages := provider.pages + newPages)
  }

  /**
   Exactly when growing succeeds, and what it does: a writable provider gets its zero pages,
   all dirty, if they are granted, their number fits 32 bits and their bytes one allocation.
   */
  lemma GrowIff(config: Config, provider: Provider, newPages: nat, granted: bool)
    ensures var (next, r) := Grow(config, provider, newPages, granted);
            var pages := provider.pages + newPages;
            && (r.Ok? <==> !provider.poisoned && !provider.fallback
                           && granted && pages <= 0xFFFF_FFFF && pages * 65536 <= config.isizeMax)
            && (r.Ok? ==>
                  && r.value == provider.pages * 65536
                  && next.memory == provider.memory + seq(newPages * 65536, _ => 0)
                  && next.dirty == provider.dirty + seq(newPages, _ => true)
                  && next == provider.(memory := next.memory, dirty := next.dirty, pages := pages))
            && (r.Err? ==>
                  && next == provider
                  && r.error == if provider.poisoned then Poisoned
                                else if provider.fallback then ReadOnlyFallback
                                else if 0xFFFF_FFFF < pages <= 0xFFFF_FFFF_FFFF_FFFF then PageLimit
                                else FailedToAllocatePage)
  {
    assert Zeros(newPages * PAGE_SIZE) == seq(newPages * 65536, _ => 0);
  }

  /** Marks the pages from `first` to `last` inclusive. */
  function MarkDirty(dirty: seq<bool>, first: nat, last: nat): (marked: seq<bool>)
    ensures |marked| == |dirty|
  {
    seq(|dirty|, p requires 0 <= p < |dirty| => dirty[p] || first <= p <= last)
  }

  /** The cache after an in-bounds write: the pages it touches become dirty. */
  function Written(provider: Provider, offset: nat, bytes: seq<byte>): Provider
    requires offset + |bytes| <= |provider.memory|
  {
    provider.(memory := Overwrite(provider.memory, offset, bytes),
              dirty := if bytes == [] then provider.dirty
                       else MarkDirty(provider.dirty, offset / PAGE_SIZE, (offset + |bytes| - 1) / PAGE_SIZE))
  }

  function Write(provider: Provider, offset: nat, bytes: seq<byte>): (Provider, Result<(), Error>)
    requires |provider.memory| == provider.pages * PAGE_SIZE
  {
    var refused := CheckWritable(provider);
    if refused.Some? then (provider, Err(refused.value))
    else if offset + |bytes| > provider.pages * PAGE_SIZE then (provider, Err(OutOfBounds))
    else (Written(provider, offset, bytes), Ok(()))
  }

  function Read(provider: Provider, offset: nat, count: nat): Result<seq<byte>, Error>
    requires |provider.memory| == provider.pages * PAGE_SIZE
  {
    if provider.poisoned then Err(Poisoned)
    else if offset + count > provider.pages * PAGE_SIZE then Err(OutOfBounds)
    else Ok(provider.memory[offset..offset + count])
  }

  function Export(provider: Provider, granted: bool): Result<seq<byte>, Error> {
    if provider.poisoned then Err(Poisoned)
    else if !granted then Err(FailedToAllocatePage)
    else Ok(provider.memory)
  }

  /** What importing `bytes` into an empty memory needs; the number of pages it yields. */
  function ImportedPages(bytes: seq<byte>, isizeMax: nat): (r: Result<nat, Error>)
    ensures r.Ok? ==> r.value * PAGE_SIZE == |bytes| && PageCountOk(r.value, isizeMax)
  {
    if |bytes| % PAGE_SIZE != 0 then Err(Misaligned)
    else match ValidatePageCount(|bytes| / PAGE_SIZE, isizeMax)
      case Some(TooManyPages) => Err(PageLimit)
      case Some(_) => Err(FailedToAllocatePage)
      case None => Ok(|bytes| / PAGE_SIZE)
  }

  function Import(config: Config, provider: Provider, bytes: seq<byte>, granted: bool): (Provider, Result<(), Error>) {
    var refused := CheckWritable(provider);
    if refused.Some? then (provider, Err(refused.value))
    else if provider.pages != 0 || provider.memory != [] then (provider, Err(NotEmpty))
    else match ImportedPages(bytes, config.isizeMax)
      case Err(error) => (provider, Err(error))
      case Ok(pages) =>
        if !granted then (provider, Err(FailedToAllocatePage))
        else (provider.(memory := bytes, pages := pages, published := EMPTY_CHECKPOINT, dirty := seq(pages, _ => true)), Ok(()))
  }

  /** Exactly when importing succeeds, and what it does: whole pages replace an empty memory, all of them dirty. */
  lemma ImportIff(config: Config, provider: Provider, bytes: seq<byte>, granted: bool)
    ensures var (next, r) := Import(config, provider, bytes, granted);
            && (r.Ok? <==> && !provider.poisoned && !provider.fallback && provider.pages == 0 && provider.memory == []
                           && |bytes| % 65536 == 0 && |bytes| <= 0xFFFF_FFFF * 65536 && |bytes| <= config.isizeMax && granted)
            && (r.Ok? ==>
                  && next.memory == bytes && next.pages * 65536 == |bytes|
                  && next.dirty == seq(next.pages, _ => true) && next.published == Checkpoint([], [])
                  && !next.poisoned && !next.fallback)
            && (r.Err? ==>
                  && next == provider
                  && r.error == if provider.poisoned then Poisoned
                                else if provider.fallback then ReadOnlyFallback
                                else if provider.pages != 0 || provider.memory != [] then NotEmpty
                                else if |bytes| % 65536 != 0 then Misaligned
                                else if |bytes| > 0xFFFF_FFFF * 65536 then PageLimit
                                else FailedToAllocatePage)
  {
  }

  /** Exactly when a write succeeds, byte by byte, and which pages it marks. */
  lemma WriteIff(config: Config, provider: Provider, offset: nat, bytes: seq<byte>)
    requires WellFormed(provider)
    ensures var (next, r) := Write(provider, offset, bytes);
            && (r.Ok? <==> !provider.poisoned && !provider.fallback && offset + |bytes| <= |provider.memory|)
            && (r.Ok? ==>
                  && |next.memory| == |provider.memory| && |next.dirty| == |provider.dirty|
                  && (forall i :: 0 <= i < |provider.memory| ==>
                        next.memory[i] == if offset <= i < offset + |bytes| then bytes[i - offset] else provider.memory[i])
                  && (forall p :: 0 <= p < |provider.dirty| ==>
                        next.dirty[p] == (provider.dirty[p]
                                          || (bytes != [] && p * 65536 < offset + |bytes| && offset < (p + 1) * 65536)))
                  && next == provider.(memory := next.memory, dirty := next.dirty))
            && (r.Err? ==> next == provider && r.error == if provider.poisoned then Poisoned
                                                          else if provider.fallback then ReadOnlyFallback else OutOfBounds)
  {
  }

  // ----- Publishing

  /** How the host behaves during one flush. */
  datatype Fault =
    | NoFault
    | PageWritesFail(written: seq<nat>) // the flush stops after writing these pages, in any number and order
    | HeadWriteFails(applied: bool)     // the head write reports an error, having taken effect or not

  predicate AnyDirty(provider: Provider) {
    exists p :: 0 <= p < |provider.dirty| && provider.dirty[p]
  }

  /** The slot a dirty page is written to: the other one of the two, or slot 0 for a new page. */
  function NextSlot(published: Checkpoint, page: nat): (slot: byte) {
    if page < |published.slots| && published.slots[page] <= 1 then 1 - published.slots[page] else 0
  }

  predicate WellFormed(provider: Provider) {
    && |provider.memory| == provider.pages * PAGE_SIZE
    && |provider.dirty| == provider.pages
    && |provider.published.slots| == |provider.published.hashes| <= provider.pages
  }

  function CandidateSlot(provider: Provider, page: nat): byte
    requires WellFormed(provider) && page < provider.pages
  {
    if provider.dirty[page] then NextSlot(provider.published, page)
    else if page < |provider.published.slots| then provider.published.slots[page] else 0
  }

  function CandidateHash(config: Config, provider: Provider, page: nat): u64
    requires WellFormed(provider) && page < provider.pages
  {
    if provider.dirty[page] then config.hash(PageSlice(provider.memory, page))
    else if page < |provider.published.hashes| then provider.published.hashes[page] else 0
  }

  /** The checkpoint a flush publishes: dirty pages move to their other slot with a new hash. */
  function Candidate(config: Config, provider: Provider): (candidate: Checkpoint)
    requires WellFormed(provider)
    ensures |candidate.slots| == |candidate.hashes| == provider.pages
  {
    Checkpoint(
      seq(provider.pages, p requires 0 <= p < provider.pages => CandidateSlot(provider, p)),
      seq(provider.pages, p requires 0 <= p < provider.pages => CandidateHash(config, provider, p)))
  }

  /** The checkpoint of a flush, page by page: dirty pages swap slots and get the hash of their bytes, others keep both. */
  lemma CandidateIs(config: Config, provider: Provider, page: nat)
    requires WellFormed(provider) && page < provider.pages
    ensures var candidate, published := Candidate(config, provider), provider.published;
            var known := page < |published.slots|;
            && candidate.slots[page] == (if !provider.dirty[page] then if known then published.slots[page] else 0
                                         else if known && published.slots[page] == 0 then 1 else 0)
            && candidate.hashes[page] == (if provider.dirty[page] then config.hash(provider.memory[page * 65536..(page + 1) * 65536])
                                          else if known then published.hashes[page] else 0)
  {
  }

  /** The key that a flush writes a page to. */
  function TargetKey(config: Config, provider: Provider, page: nat): string {
    PageKeyText(NamespaceText(config.name), page, NextSlot(provider.published, page))
  }

  function WritePage(config: Config, provider: Provider, store: Store, page: nat): Store
    requires WellFormed(provider)
  {
    if page < provider.pages && provider.dirty[page]
    then store[TargetKey(config, provider, page) := PageSlice(provider.memory, page)]
    else store
  }

  /** The store after writing the dirty pages among `pages`. */
  function WritePages(config: Config, provider: Provider, store: Store, pages: seq<nat>): Store
    requires WellFormed(provider)
  {
    if pages == [] then store
    else WritePage(config, provider, WritePages(config, provider, store, pages[..|pages| - 1]), pages[|pages| - 1])
  }

  /** The dirty pages below `count`, in ascending order. */
  function DirtyPages(dirty: seq<bool>, count: nat): (pages: seq<nat>)
    requires count <= |dirty|
    ensures forall p: nat :: p in pages <==> p < count && dirty[p]
  {
    if count == 0 then []
    else if dirty[count - 1] then DirtyPages(dirty, count - 1) + [count - 1]
    else DirtyPages(dirty, count - 1)
  }

  function PublishHead(config: Config, provider: Provider, store: Store): Store
    requires WellFormed(provider)
  {
    store[HeadKey(NamespaceText(config.name)) := Encode(Manifest(Candidate(config, provider), Some(provider.published)))]
  }

  function Flush(config: Config, provider: Provider, store: Store, fault: Fault): (Provider, Store, Result<(), Error>)
    requires WellFormed(provider)
  {
    if provider.poisoned then (provider, store, Err(Poisoned))
    else if !AnyDirty(provider) then (provider, store, Ok(()))
    else if provider.fallback then (provider, store, Err(ReadOnlyFallback))
    else if !PageCountOk(provider.pages, config.isizeMax) then
      (provider, store, Err(InvalidManifest(ValidatePageCount(provider.pages, config.isizeMax).value)))
    else
      var written := WritePages(config, provider, store, DirtyPages(provider.dirty, provider.pages));
      match fault
      case PageWritesFail(some) => (provider, WritePages(config, provider, store, some), Err(StoreError))
      case HeadWriteFails(applied) =>
        (provider.(poisoned := true),
         if applied then PublishHead(config, provider, written) else written,
         Err(StoreError))
      case NoFault =>
        (Flushed(config, provider), PublishHead(config, provider, written), Ok(()))
  }

  /** The cache a successful flush leaves: same memory, nothing dirty, the candidate published. */
  function Flushed(config: Config, provider: Provider): Provider
    requires WellFormed(provider)
  {
    provider.(published := Candidate(config, provider), dirty := seq(provider.pages, _ => false), fallback := false)
  }

  // ----- Runs

  datatype World = World(store: Store, provider: Option<Provider>)

  datatype Event =
    | OpenProvider(served: Reads)                // drop the handle, if any, and open a new one
    | Crash                                     // the process stops; the cache is lost
    | GrowBy(newPages: nat, granted: bool)
    | WriteAt(offset: nat, bytes: seq<byte>)
    | ReadAt(offset: nat, count: nat)
    | ImportBytes(bytes: seq<byte>, granted: bool)
    | ExportBytes(granted: bool)
    | FlushWith(fault: Fault)
    | OtherDatabase(other: seq<byte>, key: string, value: seq<byte>) // a write under another database name

  datatype Answered = Done | Bytes(bytes: seq<byte>) | Size(size: nat) | Failed(error: Error)

  function AsAnswer(r: Result<(), Error>): Answered {
    match r case Ok(_) => Done case Err(e) => Failed(e)
  }

  function AsBytes(r: Result<seq<byte>, Error>): Answered {
    match r case Ok(b) => Bytes(b) case Err(e) => Failed(e)
  }

  function AsSize(r: Result<nat, Error>): Answered {
    match r case Ok(n) => Size(n) case Err(e) => Failed(e)
  }

  /** Writes under other database names are to keys of those names; every other event may happen at any time. */
  ghost predicate Admissible(config: Config, event: Event) {
    event.OtherDatabase? ==> event.other != config.name && OwnedBy(event.other, event.key)
  }

  function Step(config: Config, world: World, event: Event): (World, Answered)
    requires world.provider.Some? ==> WellFormed(world.provider.value)
  {
    match event
    case OpenProvider(served) =>
      (match OpenReading(config, world.store, served)
       case Ok(provider) => (World(world.store, Some(provider)), Done)
       case Err(error) => (World(world.store, None), Failed(error)))
    case Crash => (World(world.store, None), Done)
    case OtherDatabase(_, key, value) => (World(world.store[key := value], world.provider), Done)
    case _ =>
      if world.provider.None? then (world, Failed(NoProvider))
      else OnProvider(config, world.store, world.provider.value, event)
  }

  function OnProvider(config: Config, store: Store, provider: Provider, event: Event): (World, Answered)
    requires WellFormed(provider)
    requires !event.OpenProvider? && !event.Crash? && !event.OtherDatabase?
  {
    match event
    case GrowBy(newPages, granted) =>
      var (next, r) := Grow(config, provider, newPages, granted);
      (World(store, Some(next)), AsSize(r))
    case WriteAt(offset, bytes) =>
      var (next, r) := Write(provider, offset, bytes);
      (World(store, Some(next)), AsAnswer(r))
    case ReadAt(offset, count) => (World(store, Some(provider)), AsBytes(Read(provider, offset, count)))
    case ImportBytes(bytes, granted) =>
      var (next, r) := Import(config, provider, bytes, granted);
      (World(store, Some(next)), AsAnswer(r))
    case ExportBytes(granted) => (World(store, Some(provider)), AsBytes(Export(provider, granted)))
    case FlushWith(fault) =>
      var (next, store', r) := Flush(config, provider, store, fault);
      (World(store', Some(next)), AsAnswer(r))
  }

  // ----- The ideal machine

  /** A volatile copy of the durable bytes, or of older ones that can only be read, whether it was touched, and whether it is still usable. */
  datatype Session = Session(memory: seq<byte>, fallback: bool, touched: bool, poisoned: bool)

  /** The durable bytes, and those durable before them while no flush has begun to overwrite them. */
  datatype Ideal = Ideal(durable: seq<byte>, older: Option<seq<byte>>, session: Option<Session>)

  /** The older bytes an opening may fall back to; `leftover` is what an interrupted flush has left of them. */
  function FallbackBytes(ideal: Ideal, leftover: Option<seq<byte>>): Option<seq<byte>> {
    if ideal.older.None? then leftover else if ideal.older == Some([]) then None else ideal.older
  }

  function IdealStep(config: Config, ideal: Ideal, event: Event, leftover: Option<seq<byte>>): (Ideal, Answered) {
    match event
    case OpenProvider(served) =>
      var closed := ideal.(session := None);
      if config.name == [] then (closed, Failed(EmptyDatabaseName))
      else if !served.head then (closed, Failed(StoreError))
      else if served.current then (ideal.(session := Some(Session(ideal.durable, false, false, false))), Done)
      else if served.previous && FallbackBytes(ideal, leftover).Some? then
        (ideal.(session := Some(Session(FallbackBytes(ideal, leftover).value, true, false, false))), Done)
      else (closed, Failed(InvalidPages))
    case Crash => (ideal.(session := None), Done)
    case OtherDatabase(_, _, _) => (ideal, Done)
    case _ =>
      if ideal.session.None? then (ideal, Failed(NoProvider))
      else if ideal.session.value.poisoned then (ideal, Failed(Poisoned))
      else OnSession(config, ideal, ideal.session.value, event)
  }

  function OnSession(config: Config, ideal: Ideal, session: Session, event: Event): (Ideal, Answered)
    requires ideal.session == Some(session)
    requires !event.OpenProvider? && !event.Crash? && !event.OtherDatabase?
  {
    if event.GrowBy? || event.WriteAt? || event.ImportBytes? then
      if session.fallback then (ideal, Failed(ReadOnlyFallback))
      else
        var (next, answer) := OnMemory(config, session, event);
        (ideal.(session := Some(next)), answer)
    else match event
      case ReadAt(offset, count) =>
        if offset + count > |session.memory| then (ideal, Failed(OutOfBounds))
        else (ideal, Bytes(session.memory[offset..offset + count]))
      case ExportBytes(granted) => (ideal, if granted then Bytes(session.memory) else Failed(FailedToAllocatePage))
      case FlushWith(fault) =>
        if !session.touched then (ideal, Done)
        else match fault
          case NoFault => (Ideal(session.memory, Some(ideal.durable), Some(session.(touched := false))), Done)
          case PageWritesFail(_) => (ideal.(older := None), Failed(StoreError))
          case HeadWriteFails(applied) =>
            (if applied then Ideal(session.memory, Some(ideal.durable), Some(session.(poisoned := true)))
             else Ideal(ideal.durable, None, Some(session.(poisoned := true))), Failed(StoreError))
  }

  /** Growing, writing and importing change the volatile copy alone. */
  function OnMemory(config: Config, session: Session, event: Event): (Session, Answered)
    requires event.GrowBy? || event.WriteAt? || event.ImportBytes?
  {
    match event
    case GrowBy(newPages, granted) =>
      var pages := |session.memory| / PAGE_SIZE + newPages;
      if U32_MAX < pages <= U64_MAX then (session, Failed(PageLimit))
      else if pages > U64_MAX || pages * PAGE_SIZE > config.isizeMax || !granted then (session, Failed(FailedToAllocatePage))
      else (session.(memory := session.memory + Zeros(newPages * PAGE_SIZE), touched := session.touched || newPages > 0),
            Size(|session.memory|))
    case WriteAt(offset, bytes) =>
      if offset + |bytes| > |session.memory| then (session, Failed(OutOfBounds))
      else (session.(memory := Overwrite(session.memory, offset, bytes), touched := session.touched || bytes != []), Done)
    case ImportBytes(bytes, granted) =>
      if session.memory != [] then (session, Failed(NotEmpty))
      else if |bytes| % PAGE_SIZE != 0 then (session, Failed(Misaligned))
      else if |bytes| / PAGE_SIZE > U32_MAX then (session, Failed(PageLimit))
      else if |bytes| > config.isizeMax || !granted then (session, Failed(FailedToAllocatePage))
      else (session.(memory := bytes, touched := bytes != []), Done)
  }

  // ----- The relation between the two machines

  /** The head names a checkpoint whose pages are stored intact and spell the durable bytes. */
  ghost predicate DurableIs(config: Config, store: Store, durable: seq<byte>) {
    && ReadHead(config, store).Ok?
    && ValidManifest(ReadHead(config, store).value, config.isizeMax)
    && Load(config.name, config.hash, store, ReadHead(config, store).value.current) == Some(durable)
  }

  /**
   Cache coherence: every page that is not dirty lies inside the published
   checkpoint and equals the durable page, which is the value stored at the
   published slot with the recorded hash.
   */
  ghost predicate Coherent(config: Config, store: Store, provider: Provider, durable: seq<byte>) {
    && WellFormed(provider)
    && PageCountOk(provider.pages, config.isizeMax)
    && !provider.fallback && !provider.poisoned
    && ReadHead(config, store).Ok?
    && provider.published == ReadHead(config, store).value.current
    && |durable| == provider.published.Pages() * PAGE_SIZE
    && (forall p: nat :: p < provider.pages && !provider.dirty[p] ==>
          p < provider.published.Pages() && PageSlice(provider.memory, p) == PageSlice(durable, p))
  }

  /** What the previous checkpoint of the head loads as, if there is a non-empty one. */
  function Leftover(config: Config, store: Store): Option<seq<byte>> {
    ReadHeadValid(config, store);
    match ReadHead(config, store)
    case Err(_) => None
    case Ok(manifest) =>
      if manifest.previous.Some? && manifest.previous.value.Pages() > 0
      then Load(config.name, config.hash, store, manifest.previous.value) else None
  }

  /** The previous checkpoint of the head spells the older bytes, when they are known. */
  ghost predicate OlderIs(config: Config, store: Store, older: Option<seq<byte>>) {
    older.Some? ==> Leftover(config, store) == if older == Some([]) then None else older
  }

  ghost predicate SessionRelated(config: Config, store: Store, provider: Provider, durable: seq<byte>, session: Session) {
    && WellFormed(provider)
    && session.memory == provider.memory
    && session.poisoned == provider.poisoned
    && session.fallback == provider.fallback
    && (provider.fallback ==> !provider.poisoned && !AnyDirty(provider) && !session.touched)
    && (!provider.poisoned && !provider.fallback ==>
          && Coherent(config, store, provider, durable)
          && session.touched == AnyDirty(provider))
  }

  ghost predicate Related(config: Config, world: World, ideal: Ideal) {
    && DurableIs(config, world.store, ideal.durable)
    && OlderIs(config, world.store, ideal.older)
    && (world.provider.Some? <==> ideal.session.Some?)
    && (world.provider.Some? ==>
          SessionRelated(config, world.store, world.provider.value, ideal.durable, ideal.session.value))
  }
}
