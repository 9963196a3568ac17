/**
 The page allocator: pages are claimed from the ledger of unclaimed pages or by
 growing the memory, and released by scrubbing them and pushing them on the
 ledger, which itself lives on a reserved page. Over every run the allocator
 behaves as a stack of free page numbers with a high-water mark, and reserved,
 held and free pages partition the memory.
 */
module Allocator {
  import opened Wrappers
  import opened Bytes
  import opened Pages
  import opened Sequences
  import opened UnclaimedPagesLedger
  import opened PagedMemories

  const SCHEMA_PAGE: nat := 0
  const UNCLAIMED_PAGES_PAGE: nat := 1
  const RESERVED_PAGES: nat := 2
  const PAGE_NUMBERS: nat := 0x1_0000_0000

  datatype AccessError =
    | SegmentationFault
    | LedgerFailed(ledger: LedgerError)
    | ProviderFailed(provider: MemoryError)

  // ----- The manager's operations on the bytes of the provider

  function PageCount(memory: seq<byte>): nat {
    |memory| / PAGE_SIZE
  }

  /** The last page number, computed in 32-bit wrapping arithmetic. */
  function LastPage(memory: seq<byte>): Option<u32> {
    if PageCount(memory) == 0 then None else Some((PageCount(memory) - 1) % PAGE_NUMBERS)
  }

  predicate Allocated(memory: seq<byte>, page: nat) {
    LastPage(memory).Some? && page <= LastPage(memory).value
  }

  function AsAccess<T>(r: Result<T, MemoryError>): Result<T, AccessError> {
    match r case Ok(value) => Ok(value) case Err(error) => Err(ProviderFailed(error))
  }

  function WriteAt(memory: seq<byte>, offset: nat, bytes: seq<byte>): (seq<byte>, Result<(), AccessError>) {
    var (next, r) := FlatWrite(memory, offset, bytes);
    (next, AsAccess(r))
  }

  function ReadLedger(memory: seq<byte>): Result<seq<u32>, AccessError> {
    if !Allocated(memory, UNCLAIMED_PAGES_PAGE) then Err(SegmentationFault)
    else match FlatRead(memory, UNCLAIMED_PAGES_PAGE * PAGE_SIZE, PAGE_SIZE)
      case Err(error) => Err(ProviderFailed(error))
      case Ok(data) =>
        match Decode(data)
        case Err(error) => Err(LedgerFailed(error))
        case Ok(pages) => Ok(pages)
  }

  /** Writes the encoded ledger and the zero padding up to its alignment. */
  function WriteLedger(memory: seq<byte>, ledger: seq<u32>): (seq<byte>, Result<(), AccessError>) {
    var encoded := Encode(ledger);
    var padded := AlignUp(|encoded|);
    if !Allocated(memory, UNCLAIMED_PAGES_PAGE) || padded > PAGE_SIZE then (memory, Err(SegmentationFault))
    else
      var (first, r) := WriteAt(memory, UNCLAIMED_PAGES_PAGE * PAGE_SIZE, encoded);
      if r.Err? || padded == |encoded| then (first, r)
      else WriteAt(first, UNCLAIMED_PAGES_PAGE * PAGE_SIZE + |encoded|, Zeros(padded - |encoded|))
  }

  function ZeroPage(memory: seq<byte>, page: nat): (seq<byte>, Result<(), AccessError>) {
    if !Allocated(memory, page) then (memory, Err(SegmentationFault))
    else WriteAt(memory, page * PAGE_SIZE, Zeros(PAGE_SIZE))
  }

  function WriteRaw(memory: seq<byte>, page: nat, offset: nat, bytes: seq<byte>): (seq<byte>, Result<(), AccessError>) {
    if !Allocated(memory, page) || offset + |bytes| > PAGE_SIZE then (memory, Err(SegmentationFault))
    else WriteAt(memory, page * PAGE_SIZE + offset, bytes)
  }

  /** Reads into a buffer of `length` zeros; what lies beyond the end of the page stays zero. */
  function ReadRaw(memory: seq<byte>, page: nat, offset: nat, length: nat): Result<seq<byte>, AccessError> {
    if !Allocated(memory, page) || offset > PAGE_SIZE then Err(SegmentationFault)
    else
      var available := if length <= PAGE_SIZE - offset then length else PAGE_SIZE - offset;
      match FlatRead(memory, page * PAGE_SIZE + offset, available)
      case Err(error) => Err(ProviderFailed(error))
      case Ok(bytes) => Ok(bytes + Zeros(length - available))
  }

  function GrowOnePage(memory: seq<byte>, granted: bool): (seq<byte>, Result<u32, AccessError>) {
    if !granted then (memory, Err(ProviderFailed(FailedToAllocatePage)))
    else
      var (grown, r) := FlatGrow(memory, 1);
      if r.Err? then (grown, Err(ProviderFailed(r.error)))
      else
        var last := LastPage(grown);
        var (zeroed, w) := WriteAt(grown, (if last.Some? then last.value else 0) * PAGE_SIZE, Zeros(PAGE_SIZE));
        if w.Err? then (zeroed, Err(w.error))
        else if last.None? then (zeroed, Err(ProviderFailed(FailedToAllocatePage)))
        else (zeroed, Ok(last.value))
  }

  function ClaimPage(memory: seq<byte>, granted: bool): (seq<byte>, Result<u32, AccessError>) {
    match ReadLedger(memory)
    case Err(error) => (memory, Err(error))
    case Ok(ledger) =>
      if ledger == [] then GrowOnePage(memory, granted)
      else
        var (next, r) := WriteLedger(memory, ledger[..|ledger| - 1]);
        (next, if r.Err? then Err(r.error) else Ok(ledger[|ledger| - 1]))
  }

  function UnclaimPage(memory: seq<byte>, page: u32): (seq<byte>, Result<(), AccessError>) {
    var (zeroed, z) := ZeroPage(memory, page);
    if z.Err? then (zeroed, z)
    else match ReadLedger(zeroed)
      case Err(error) => (zeroed, Err(error))
      case Ok(ledger) =>
        if |ledger| >= CAPACITY then (zeroed, Err(LedgerFailed(Full(CAPACITY))))
        else WriteLedger(zeroed, ledger + [page])
  }

  /** Opening a manager: the reserved pages are added when they are missing. */
  function InitPages(memory: seq<byte>): seq<byte> {
    if PageCount(memory) >= RESERVED_PAGES then memory
    else FlatGrow(memory, RESERVED_PAGES - PageCount(memory)).0
  }

  // ----- The manager as an object

  class MemoryManager {
    const provider: HeapMemory

    constructor (provider: HeapMemory)
      modifies provider
      ensures this.provider == provider
      ensures provider.memory == InitPages(old(provider.memory))
    {
      this.provider := provider;
      new;
      var current := PageCount(provider.memory);
      if current < RESERVED_PAGES {
        var r := provider.Grow(RESERVED_PAGES - current);
      }
    }

    method ReadLedgerPage() returns (r: Result<seq<u32>, AccessError>)
      ensures r == ReadLedger(provider.memory)
    {
      if !Allocated(provider.memory, UNCLAIMED_PAGES_PAGE) {
        return Err(SegmentationFault);
      }
      var buf := new byte[PAGE_SIZE](_ => 0);
      var read := provider.Read(UNCLAIMED_PAGES_PAGE * PAGE_SIZE, buf);
      if read.Err? {
        return Err(ProviderFailed(read.error));
      }
      var decoded := Decode(buf[..]);
      return match decoded case Err(error) => Err(LedgerFailed(error)) case Ok(pages) => Ok(pages);
    }

    method WriteLedgerPage(ledger: seq<u32>) returns (r: Result<(), AccessError>)
      modifies provider
      ensures (provider.memory, r) == WriteLedger(old(provider.memory), ledger)
    {
      if !Allocated(provider.memory, UNCLAIMED_PAGES_PAGE) {
        return Err(SegmentationFault);
      }
      var encoded := EncodeLedger(ledger);
      var padded := AlignUp(|encoded|);
      if padded > PAGE_SIZE {
        return Err(SegmentationFault);
      }
      var written := provider.Write(UNCLAIMED_PAGES_PAGE * PAGE_SIZE, encoded);
      if written.Err? {
        return Err(ProviderFailed(written.error));
      }
      var padding := padded - |encoded|;
      if padding > 0 {
        written := provider.Write(UNCLAIMED_PAGES_PAGE * PAGE_SIZE + |encoded|, Zeros(padding));
        return AsAccess(written);
      }
      return Ok(());
    }

    method ZeroOnePage(page: nat) returns (r: Result<(), AccessError>)
      modifies provider
      ensures (provider.memory, r) == ZeroPage(old(provider.memory), page)
    {
      if !Allocated(provider.memory, page) {
        return Err(SegmentationFault);
      }
      var written := provider.Write(page * PAGE_SIZE, Zeros(PAGE_SIZE));
      return AsAccess(written);
    }

    method ReadAtRaw(page: nat, offset: nat, length: nat) returns (r: Result<seq<byte>, AccessError>)
      ensures r == ReadRaw(provider.memory, page, offset, length)
    {
      if !Allocated(provider.memory, page) || offset > PAGE_SIZE {
        return Err(SegmentationFault);
      }
      var available := if length <= PAGE_SIZE - offset then length else PAGE_SIZE - offset;
      var buf := new byte[available](_ => 0);
      var read := provider.Read(page * PAGE_SIZE + offset, buf);
      if read.Err? {
        return Err(ProviderFailed(read.error));
      }
      return Ok(buf[..] + Zeros(length - available));
    }

    method WriteAtRaw(page: nat, offset: nat, bytes: seq<byte>) returns (r: Result<(), AccessError>)
      modifies provider
      ensures (provider.memory, r) == WriteRaw(old(provider.memory), page, offset, bytes)
    {
      if !Allocated(provider.memory, page) || offset + |bytes| > PAGE_SIZE {
        return Err(SegmentationFault);
      }
      var written := provider.Write(page * PAGE_SIZE + offset, bytes);
      return AsAccess(written);
    }

    method AddPage(granted: bool) returns (r: Result<u32, AccessError>)
      modifies provider
      ensures (provider.memory, r) == GrowOnePage(old(provider.memory), granted)
    {
      if !granted {
        return Err(ProviderFailed(FailedToAllocatePage));
      }
      var grown := provider.Grow(1);
      if grown.Err? {
        return Err(ProviderFailed(grown.error));
      }
      var last := LastPage(provider.memory);
      var written := provider.Write((if last.Some? then last.value else 0) * PAGE_SIZE, Zeros(PAGE_SIZE));
      if written.Err? {
        return Err(ProviderFailed(written.error));
      }
      return if last.Some? then Ok(last.value) else Err(ProviderFailed(FailedToAllocatePage));
    }

    method Claim(granted: bool) returns (r: Result<u32, AccessError>)
      modifies provider
      ensures (provider.memory, r) == ClaimPage(old(provider.memory), granted)
    {
      var read := ReadLedgerPage();
      if read.Err? {
        return Err(read.error);
      }
      var ledger := new Ledger(read.value);
      var page := ledger.Pop();
      if page.Some? {
        assert ledger.pages == read.value[..|read.value| - 1];
        var written := WriteLedgerPage(ledger.pages);
        if written.Err? {
          return Err(written.error);
        }
        return Ok(page.value);
      }
      r := AddPage(granted);
    }

    method Unclaim(page: u32) returns (r: Result<(), AccessError>)
      modifies provider
      ensures (provider.memory, r) == UnclaimPage(old(provider.memory), page)
    {
      r := ZeroOnePage(page);
      if r.Err? {
        return;
      }
      var read := ReadLedgerPage();
      if read.Err? {
        return Err(read.error);
      }
      var ledger := new Ledger(read.value);
      var pushed := ledger.Push(page);
      if pushed.Err? {
        return Err(LedgerFailed(pushed.error));
      }
      r := WriteLedgerPage(ledger.pages);
    }
  }

  // ----- What single operations do to pages

  /** All pages but one are the same. */
  ghost predicate OnlyPageChanged(before: seq<byte>, after: seq<byte>, page: nat) {
    && |after| == |before|
    && forall p: nat :: p != page && (p + 1) * PAGE_SIZE <= |before| ==> PageSlice(after, p) == PageSlice(before, p)
  }

  ghost predicate WholePages(memory: seq<byte>, pages: nat) {
    |memory| == pages * PAGE_SIZE && RESERVED_PAGES <= pages <= PAGE_NUMBERS
  }

  lemma WriteWithinPage(memory: seq<byte>, page: nat, offset: nat, bytes: seq<byte>)
    requires (page + 1) * PAGE_SIZE <= |memory| && offset + |bytes| <= PAGE_SIZE
    ensures WriteAt(memory, page * PAGE_SIZE + offset, bytes) == (Overwrite(memory, page * PAGE_SIZE + offset, bytes), Ok(()))
    ensures OnlyPageChanged(memory, Overwrite(memory, page * PAGE_SIZE + offset, bytes), page)
  {
    var start := page * PAGE_SIZE + offset;
    forall p: nat | p != page && (p + 1) * PAGE_SIZE <= |memory|
      ensures PageSlice(Overwrite(memory, start, bytes), p) == PageSlice(memory, p)
    {
      OverwriteElsewhere(memory, start, bytes, p);
    }
  }

  // The encoded ledger and its padding are one write at the start of the ledger page.
  lemma LedgerIsOneWrite(memory: seq<byte>, pages: nat, ledger: seq<u32>)
    requires WholePages(memory, pages) && |ledger| <= CAPACITY
    ensures var block := Encode(ledger) + Zeros(AlignUp(SizeOf(|ledger|)) - SizeOf(|ledger|));
            && |block| <= PAGE_SIZE
            && WriteLedger(memory, ledger) == (Overwrite(memory, UNCLAIMED_PAGES_PAGE * PAGE_SIZE, block), Ok(()))
  {
    var encoded := Encode(ledger);
    var padding := AlignUp(|encoded|) - |encoded|;
    CapacityIsExact(|ledger|);
    OverwriteTwice(memory, PAGE_SIZE, encoded, Zeros(padding));
    assert padding == 0 ==> encoded + Zeros(padding) == encoded;
  }

  /** A ledger that fits is read back, whatever the page held before; no other page changes. */
  lemma LedgerWritten(memory: seq<byte>, pages: nat, ledger: seq<u32>)
    requires WholePages(memory, pages) && |ledger| <= CAPACITY
    ensures WriteLedger(memory, ledger).1 == Ok(())
    ensures OnlyPageChanged(memory, WriteLedger(memory, ledger).0, UNCLAIMED_PAGES_PAGE)
    ensures ReadLedger(WriteLedger(memory, ledger).0) == Ok(ledger)
  {
    var block := Encode(ledger) + Zeros(AlignUp(SizeOf(|ledger|)) - SizeOf(|ledger|));
    LedgerIsOneWrite(memory, pages, ledger);
    WriteWithinPage(memory, UNCLAIMED_PAGES_PAGE, 0, block);
    OverwritePrefix(memory, UNCLAIMED_PAGES_PAGE, block);
    var page := PageSlice(WriteLedger(memory, ledger).0, UNCLAIMED_PAGES_PAGE);
    assert Encode(ledger) <= page by {
      assert page[..|block|] == block;
      SliceOfSlice(page, 0, |block|, 0, |Encode(ledger)|);
    }
    DecodeOfEncode(ledger, page);
  }

  lemma PageZeroed(memory: seq<byte>, pages: nat, page: nat)
    requires WholePages(memory, pages) && page < pages
    ensures ZeroPage(memory, page).1 == Ok(())
    ensures OnlyPageChanged(memory, ZeroPage(memory, page).0, page)
    ensures PageSlice(ZeroPage(memory, page).0, page) == Zeros(PAGE_SIZE)
  {
    WriteWithinPage(memory, page, 0, Zeros(PAGE_SIZE));
  }

  // The ledger is a function of its page.
  lemma SameLedgerPage(before: seq<byte>, after: seq<byte>, pages: nat, pages': nat)
    requires WholePages(before, pages) && WholePages(after, pages')
    requires PageSlice(after, UNCLAIMED_PAGES_PAGE) == PageSlice(before, UNCLAIMED_PAGES_PAGE)
    ensures ReadLedger(after) == ReadLedger(before)
  {
  }

  /** A grown page is new, the last one, and zero, as long as page numbers do not wrap. */
  lemma PageAdded(memory: seq<byte>, pages: nat)
    requires WholePages(memory, pages) && pages < PAGE_NUMBERS
    ensures var (next, r) := GrowOnePage(memory, true);
            && r == Ok(pages) && WholePages(next, pages + 1)
            && PageSlice(next, pages) == Zeros(PAGE_SIZE)
            && forall p: nat :: p < pages ==> PageSlice(next, p) == PageSlice(memory, p)
  {
    var grown := FlatGrow(memory, 1).0;
    assert LastPage(grown) == Some(pages);
    WriteWithinPage(grown, pages, 0, Zeros(PAGE_SIZE));
    assert forall p: nat :: p < pages ==> PageSlice(grown, p) == PageSlice(memory, p);
  }

  /** Growing hands out the page it added exactly when that page number fits 32 bits. */
  lemma GrownPageIsNew(memory: seq<byte>, pages: nat)
    requires |memory| == pages * PAGE_SIZE && (pages + 1) * PAGE_SIZE <= U64_MAX
    ensures GrowOnePage(memory, true).1.Ok?
    ensures GrowOnePage(memory, true).1.value == pages <==> pages < PAGE_NUMBERS
  {
    var grown := FlatGrow(memory, 1).0;
    assert PageCount(grown) == pages + 1;
  }

  /** With all 32-bit page numbers in use, growing hands out and scrubs the reserved schema page. */
  lemma WrappedGrowthHandsOutSchemaPage(memory: seq<byte>)
    requires |memory| == PAGE_NUMBERS * PAGE_SIZE
    ensures GrowOnePage(memory, true).1 == Ok(SCHEMA_PAGE)
    ensures PageSlice(GrowOnePage(memory, true).0, SCHEMA_PAGE) == Zeros(PAGE_SIZE)
  {
    var grown := FlatGrow(memory, 1).0;
    assert PageCount(grown) == PAGE_NUMBERS + 1;
    assert LastPage(grown) == Some(SCHEMA_PAGE);
    WriteWithinPage(grown, SCHEMA_PAGE, 0, Zeros(PAGE_SIZE));
  }

  // ----- The ideal allocator and runs

  /** A high-water mark, a stack of free pages and the pages the callers hold. */
  datatype Ideal = Ideal(pages: nat, free: seq<nat>, held: set<nat>)

  datatype Event =
    | ClaimOne(granted: bool)
    | Release(page: u32)
    | WriteTo(target: nat, offset: nat, bytes: seq<byte>)
    | Reopen

  datatype Answered = Claimed(page: nat) | Accepted | Refused(error: AccessError)

  function AsAnswer(r: Result<(), AccessError>): Answered {
    match r case Ok(_) => Accepted case Err(error) => Refused(error)
  }

  function Step(memory: seq<byte>, event: Event): (seq<byte>, Answered) {
    match event
    case ClaimOne(granted) =>
      var (next, r) := ClaimPage(memory, granted);
      (next, match r case Ok(page) => Claimed(page) case Err(error) => Refused(error))
    case Release(page) =>
      var (next, r) := UnclaimPage(memory, page);
      (next, AsAnswer(r))
    case WriteTo(page, offset, bytes) =>
      var (next, r) := WriteRaw(memory, page, offset, bytes);
      (next, AsAnswer(r))
    case Reopen => (InitPages(memory), Accepted)
  }

  function IdealStep(ideal: Ideal, event: Event): (Ideal, Answered) {
    match event
    case ClaimOne(granted) =>
      if ideal.free != [] then
        var page := ideal.free[|ideal.free| - 1];
        (ideal.(free := ideal.free[..|ideal.free| - 1], held := ideal.held + {page}), Claimed(page))
      else if granted then (ideal.(pages := ideal.pages + 1, held := ideal.held + {ideal.pages}), Claimed(ideal.pages))
      else (ideal, Refused(ProviderFailed(FailedToAllocatePage)))
    case Release(page) =>
      if |ideal.free| >= CAPACITY then (ideal, Refused(LedgerFailed(Full(CAPACITY))))
      else (ideal.(free := ideal.free + [page], held := ideal.held - {page}), Accepted)
    case WriteTo(page, offset, bytes) =>
      (ideal, if offset + |bytes| > PAGE_SIZE then Refused(SegmentationFault) else Accepted)
    case Reopen => (ideal, Accepted)
  }

  /** Callers release only pages they hold, and write only to those and to the schema page. */
  predicate Disciplined(ideal: Ideal, event: Event) {
    match event
    case Release(page) => page in ideal.held
    case WriteTo(page, _, _) => page in ideal.held || page == SCHEMA_PAGE
    case _ => true
  }

  /** Reserved, held and free pages are disjoint and together are all pages; no page is free twice. */
  ghost predicate Partition(ideal: Ideal) {
    && Distinct(ideal.free)
    && (forall p: nat :: p in ideal.free ==> RESERVED_PAGES <= p < ideal.pages && p !in ideal.held)
    && (forall p: nat :: p in ideal.held ==> RESERVED_PAGES <= p < ideal.pages)
    && (forall p: nat :: RESERVED_PAGES <= p < ideal.pages ==> p in ideal.free || p in ideal.held)
  }

  ghost predicate FreePagesZero(memory: seq<byte>, ideal: Ideal) {
    forall p: nat :: p in ideal.free && (p + 1) * PAGE_SIZE <= |memory| ==> PageSlice(memory, p) == Zeros(PAGE_SIZE)
  }

  /** The bytes realize the ideal allocator. */
  ghost predicate Realizes(memory: seq<byte>, ideal: Ideal) {
    && WholePages(memory, ideal.pages)
    && Partition(ideal)
    && |ideal.free| <= CAPACITY
    && ReadLedger(memory) == Ok(ideal.free)
    && FreePagesZero(memory, ideal)
  }

  lemma FreeTail(ideal: Ideal)
    requires Partition(ideal) && ideal.free != []
    ensures Partition(IdealStep(ideal, ClaimOne(true)).0)
    ensures var page := ideal.free[|ideal.free| - 1];
            RESERVED_PAGES <= page < ideal.pages && page !in ideal.held && page !in ideal.free[..|ideal.free| - 1]
  {
    var last := |ideal.free| - 1;
    assert ideal.free[last] in ideal.free;
    forall p: nat | p in ideal.free[..last]
      ensures p in ideal.free
    {
    }
    forall p: nat | p in ideal.free && p != ideal.free[last]
      ensures p in ideal.free[..last]
    {
      var k :| 0 <= k < |ideal.free| && ideal.free[k] == p;
      assert ideal.free[..last][k] == p;
    }
  }

  lemma ClaimReused(memory: seq<byte>, ideal: Ideal, granted: bool)
    requires Realizes(memory, ideal) && ideal.free != []
    ensures Realizes(ClaimPage(memory, granted).0, IdealStep(ideal, ClaimOne(granted)).0)
    ensures ClaimPage(memory, granted).1 == Ok(ideal.free[|ideal.free| - 1])
    ensures PageSlice(ClaimPage(memory, granted).0, ideal.free[|ideal.free| - 1]) == Zeros(PAGE_SIZE)
  {
    var page := ideal.free[|ideal.free| - 1];
    FreeTail(ideal);
    LedgerWritten(memory, ideal.pages, ideal.free[..|ideal.free| - 1]);
    assert page in ideal.free;
    var next := ClaimPage(memory, granted).0;
    forall p: nat | p in ideal.free[..|ideal.free| - 1]
      ensures p in ideal.free
    {
    }
  }

  lemma ClaimGrown(memory: seq<byte>, ideal: Ideal)
    requires Realizes(memory, ideal) && ideal.free == [] && ideal.pages < PAGE_NUMBERS
    ensures Realizes(ClaimPage(memory, true).0, IdealStep(ideal, ClaimOne(true)).0)
    ensures ClaimPage(memory, true).1 == Ok(ideal.pages)
    ensures PageSlice(ClaimPage(memory, true).0, ideal.pages) == Zeros(PAGE_SIZE)
  {
    PageAdded(memory, ideal.pages);
    SameLedgerPage(memory, ClaimPage(memory, true).0, ideal.pages, ideal.pages + 1);
  }

  lemma ReleaseStep(memory: seq<byte>, ideal: Ideal, page: u32)
    requires Realizes(memory, ideal) && page in ideal.held
    ensures Realizes(UnclaimPage(memory, page).0, IdealStep(ideal, Release(page)).0)
    ensures AsAnswer(UnclaimPage(memory, page).1) == IdealStep(ideal, Release(page)).1
  {
    PageZeroed(memory, ideal.pages, page);
    var zeroed := ZeroPage(memory, page).0;
    SameLedgerPage(memory, zeroed, ideal.pages, ideal.pages);
    if |ideal.free| < CAPACITY {
      LedgerWritten(zeroed, ideal.pages, ideal.free + [page]);
    }
  }

  lemma WriteStep(memory: seq<byte>, ideal: Ideal, page: nat, offset: nat, bytes: seq<byte>)
    requires Realizes(memory, ideal) && (page in ideal.held || page == SCHEMA_PAGE)
    ensures Realizes(WriteRaw(memory, page, offset, bytes).0, ideal)
    ensures AsAnswer(WriteRaw(memory, page, offset, bytes).1) == IdealStep(ideal, WriteTo(page, offset, bytes)).1
  {
    if offset + |bytes| <= PAGE_SIZE {
      WriteWithinPage(memory, page, offset, bytes);
      SameLedgerPage(memory, WriteRaw(memory, page, offset, bytes).0, ideal.pages, ideal.pages);
    }
  }

  /** One event: the bytes keep realizing the ideal allocator, which gives the same answer. */
  lemma StepRealizes(memory: seq<byte>, ideal: Ideal, event: Event)
    requires Realizes(memory, ideal) && Disciplined(ideal, event)
    requires IdealStep(ideal, event).0.pages <= PAGE_NUMBERS
    ensures Realizes(Step(memory, event).0, IdealStep(ideal, event).0)
    ensures Step(memory, event).1 == IdealStep(ideal, event).1
  {
    match event
    case ClaimOne(granted) =>
      if ideal.free != [] {
        ClaimReused(memory, ideal, granted);
      } else if granted {
        ClaimGrown(memory, ideal);
      }
    case Release(page) => ReleaseStep(memory, ideal, page);
    case WriteTo(page, offset, bytes) => WriteStep(memory, ideal, page, offset, bytes);
    case Reopen =>
  }

  /** A claimed page is no reserved page, was not held, and is all zero. */
  lemma ClaimHandsOut(memory: seq<byte>, ideal: Ideal, granted: bool)
    requires Realizes(memory, ideal) && IdealStep(ideal, ClaimOne(granted)).0.pages <= PAGE_NUMBERS
    requires ClaimPage(memory, granted).1.Ok?
    ensures var (next, r) := ClaimPage(memory, granted);
            && RESERVED_PAGES <= r.value && r.value !in ideal.held
            && (r.value + 1) * PAGE_SIZE <= |next| && PageSlice(next, r.value) == Zeros(PAGE_SIZE)
  {
    if ideal.free != [] {
      FreeTail(ideal);
      ClaimReused(memory, ideal, granted);
    } else {
      ClaimGrown(memory, ideal);
    }
  }

  function Run(memory: seq<byte>, events: seq<Event>): (seq<byte>, seq<Answered>)
    decreases |events|
  {
    if events == [] then (memory, [])
    else
      var (next, answer) := Step(memory, events[0]);
      var (last, answers) := Run(next, events[1..]);
      (last, [answer] + answers)
  }

  function IdealRun(ideal: Ideal, events: seq<Event>): (Ideal, seq<Answered>)
    decreases |events|
  {
    if events == [] then (ideal, [])
    else
      var (next, answer) := IdealStep(ideal, events[0]);
      var (last, answers) := IdealRun(next, events[1..]);
      (last, [answer] + answers)
  }

  ghost predicate AllDisciplined(ideal: Ideal, events: seq<Event>)
    decreases |events|
  {
    events != [] ==> Disciplined(ideal, events[0]) && AllDisciplined(IdealStep(ideal, events[0]).0, events[1..])
  }

  lemma {:induction false} PagesOnlyGrow(ideal: Ideal, events: seq<Event>)
    ensures IdealRun(ideal, events).0.pages >= ideal.pages
    decreases |events|
  {
    if events != [] {
      PagesOnlyGrow(IdealStep(ideal, events[0]).0, events[1..]);
    }
  }

  /** Conservation over whole runs of disciplined callers, as long as all page numbers fit 32 bits. */
  lemma {:induction false} RunRealizes(memory: seq<byte>, ideal: Ideal, events: seq<Event>)
    requires Realizes(memory, ideal) && AllDisciplined(ideal, events)
    requires IdealRun(ideal, events).0.pages <= PAGE_NUMBERS
    ensures Run(memory, events).1 == IdealRun(ideal, events).1
    ensures Realizes(Run(memory, events).0, IdealRun(ideal, events).0)
    decreases |events|
  {
    if events != [] {
      PagesOnlyGrow(IdealStep(ideal, events[0]).0, events[1..]);
      StepRealizes(memory, ideal, events[0]);
      RunRealizes(Step(memory, events[0]).0, IdealStep(ideal, events[0]).0, events[1..]);
    }
  }

  const IDEAL_START := Ideal(RESERVED_PAGES, [], {})

  /** A manager opened over an empty provider holds the two reserved pages and nothing else. */
  lemma FreshRealizes()
    ensures Realizes(InitPages([]), IDEAL_START)
  {
    var memory := InitPages([]);
    assert memory == Zeros(RESERVED_PAGES * PAGE_SIZE);
    assert PageSlice(memory, UNCLAIMED_PAGES_PAGE) == Zeros(PAGE_SIZE);
    DecodeOfZeros(PAGE_SIZE);
  }

  /** From an empty provider: after any disciplined run the pages are partitioned and the ledger holds the free ones. */
  lemma AllocatorConservation(events: seq<Event>)
    requires AllDisciplined(IDEAL_START, events)
    requires IdealRun(IDEAL_START, events).0.pages <= PAGE_NUMBERS
    ensures var (memory, answers) := Run(InitPages([]), events);
            var (ideal, expected) := IdealRun(IDEAL_START, events);
            && answers == expected
            && Partition(ideal)
            && PageCount(memory) == ideal.pages
            && ReadLedger(memory) == Ok(ideal.free)
            && FreePagesZero(memory, ideal)
  {
    FreshRealizes();
    RunRealizes(InitPages([]), IDEAL_START, events);
  }
}
