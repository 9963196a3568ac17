/**
 The journal behind every write statement: before a region of a page is written, its
 bytes are recorded; rolling back writes the records in reverse order. Over every run
 of journaled writes and page growth, rollback restores all bytes that were there and
 leaves grown pages zero if and only if every recorded region lies within its page;
 that is, if no write goes over the end of an allocated page.
 */
module Journals {
  import opened Wrappers
  import opened Bytes
  import opened Pages
  import opened PagedMemories
  import opened Allocator

  /** The bytes of a region before it was written. */
  datatype Record = Record(page: nat, offset: nat, original: seq<byte>)

  /** A journaled call: a write, perhaps refused for its alignment, or the growth of one page, which is not recorded. */
  datatype Call =
    | WriteRegion(page: nat, offset: nat, bytes: seq<byte>, aligned: bool)
    | GrowPage(granted: bool)

  predicate Fits(record: Record) {
    record.offset + |record.original| <= PAGE_SIZE
  }

  // ----- Specification

  /** Records a region and then writes it; a refused write stays recorded. */
  function Journaled(memory: seq<byte>, records: seq<Record>, call: Call): (seq<byte>, seq<Record>, Result<(), AccessError>) {
    match call
    case WriteRegion(page, offset, bytes, aligned) =>
      (match ReadRaw(memory, page, offset, |bytes|)
       case Err(error) => (memory, records, Err(error))
       case Ok(original) =>
         var longer := records + [Record(page, offset, original)];
         if !aligned then (memory, longer, Err(SegmentationFault))
         else
           var (next, r) := WriteRaw(memory, page, offset, bytes);
           (next, longer, r))
    case GrowPage(granted) =>
      var (next, r) := GrowOnePage(memory, granted);
      (next, records, if r.Ok? then Ok(()) else Err(r.error))
  }

  function Run(memory: seq<byte>, records: seq<Record>, calls: seq<Call>): (seq<byte>, seq<Record>)
    decreases |calls|
  {
    if calls == [] then (memory, records)
    else
      var (next, longer, _) := Journaled(memory, records, calls[0]);
      Run(next, longer, calls[1..])
  }

  /** Writes the records back, last first, up to the first that is refused. */
  function RolledBack(memory: seq<byte>, records: seq<Record>): (seq<byte>, Result<(), AccessError>)
    decreases |records|
  {
    if records == [] then (memory, Ok(()))
    else
      var last := records[|records| - 1];
      var (next, r) := WriteRaw(memory, last.page, last.offset, last.original);
      if r.Err? then (next, r) else RolledBack(next, records[..|records| - 1])
  }

  // ----- The journaled writer as an object

  class JournaledWriter {
    const manager: MemoryManager
    var records: seq<Record>

    constructor (manager: MemoryManager)
      ensures this.manager == manager && records == []
    {
      this.manager := manager;
      records := [];
    }

    method WriteAt(page: nat, offset: nat, bytes: seq<byte>, aligned: bool) returns (r: Result<(), AccessError>)
      modifies this, manager.provider
      ensures (manager.provider.memory, records, r)
           == Journaled(old(manager.provider.memory), old(records), WriteRegion(page, offset, bytes, aligned))
    {
      var original := manager.ReadAtRaw(page, offset, |bytes|);
      if original.Err? {
        return Err(original.error);
      }
      records := records + [Record(page, offset, original.value)];
      if !aligned {
        return Err(SegmentationFault);
      }
      r := manager.WriteAtRaw(page, offset, bytes);
    }

    method Rollback() returns (r: Result<(), AccessError>)
      modifies this, manager.provider
      ensures (manager.provider.memory, r) == RolledBack(old(manager.provider.memory), old(records))
    {
      var left := |records|;
      assert records[..left] == records;
      while left > 0
        invariant left <= |records| && records == old(records)
        invariant RolledBack(manager.provider.memory, records[..left]) == RolledBack(old(manager.provider.memory), old(records))
      {
        var last := records[left - 1];
        assert records[..left][..left - 1] == records[..left - 1];
        r := manager.WriteAtRaw(last.page, last.offset, last.original);
        if r.Err? {
          return;
        }
        left := left - 1;
      }
      return Ok(());
    }
  }

  // ----- What rollback restores

  ghost predicate AllFit(records: seq<Record>) {
    forall k :: 0 <= k < |records| ==> Fits(records[k])
  }

  /** Rolling back `memory` gives `start`, followed by zeros where the memory has grown. */
  ghost predicate Undoes(start: seq<byte>, memory: seq<byte>, records: seq<Record>) {
    && |start| <= |memory|
    && RolledBack(memory, records) == (start + Zeros(|memory| - |start|), Ok(()))
  }

  // Writing the original bytes back takes the write back.
  lemma WriteIsUndone(memory: seq<byte>, pages: nat, page: nat, offset: nat, bytes: seq<byte>)
    requires WholePages(memory, pages) && page < pages && offset + |bytes| <= PAGE_SIZE
    ensures ReadRaw(memory, page, offset, |bytes|) == Ok(memory[page * PAGE_SIZE + offset..page * PAGE_SIZE + offset + |bytes|])
    ensures var (next, r) := WriteRaw(memory, page, offset, bytes);
            && r == Ok(()) && WholePages(next, pages)
            && WriteRaw(next, page, offset, memory[page * PAGE_SIZE + offset..page * PAGE_SIZE + offset + |bytes|]) == (memory, Ok(()))
  {
    var start := page * PAGE_SIZE + offset;
    var original := memory[start..start + |bytes|];
    assert original + Zeros(0) == original;
    WriteWithinPage(memory, page, offset, bytes);
    var next := Overwrite(memory, start, bytes);
    assert Overwrite(next, start, original) == memory;
    WriteWithinPage(next, page, offset, original);
  }

  // Writing back what is there changes nothing.
  lemma RefusedIsUndone(memory: seq<byte>, pages: nat, page: nat, offset: nat, length: nat)
    requires WholePages(memory, pages) && page < pages && offset + length <= PAGE_SIZE
    ensures ReadRaw(memory, page, offset, length) == Ok(memory[page * PAGE_SIZE + offset..page * PAGE_SIZE + offset + length])
    ensures WriteRaw(memory, page, offset, memory[page * PAGE_SIZE + offset..page * PAGE_SIZE + offset + length]) == (memory, Ok(()))
  {
    var start := page * PAGE_SIZE + offset;
    var original := memory[start..start + length];
    assert original + Zeros(0) == original;
    assert Overwrite(memory, start, original) == memory;
    WriteWithinPage(memory, page, offset, original);
  }

  // Pages behind the recorded ones are left alone.
  lemma {:induction false} RollbackFrame(memory: seq<byte>, pages: nat, records: seq<Record>, extra: nat)
    requires WholePages(memory, pages) && RolledBack(memory, records).1.Ok? && pages + extra <= PAGE_NUMBERS
    ensures RolledBack(memory + Zeros(extra * PAGE_SIZE), records)
         == (RolledBack(memory, records).0 + Zeros(extra * PAGE_SIZE), Ok(()))
    decreases |records|
  {
    hide WriteRaw, WholePages;
    if records != [] {
      var last := records[|records| - 1];
      FrameOne(memory, pages, last, extra);
      RollbackFrame(WriteRaw(memory, last.page, last.offset, last.original).0, pages, records[..|records| - 1], extra);
    }
  }

  lemma FrameOne(memory: seq<byte>, pages: nat, record: Record, extra: nat)
    requires WholePages(memory, pages) && pages + extra <= PAGE_NUMBERS
    requires WriteRaw(memory, record.page, record.offset, record.original).1.Ok?
    ensures var next := WriteRaw(memory, record.page, record.offset, record.original).0;
            && WholePages(next, pages)
            && WriteRaw(memory + Zeros(extra * PAGE_SIZE), record.page, record.offset, record.original)
               == (next + Zeros(extra * PAGE_SIZE), Ok(()))
  {
    var tail, start := Zeros(extra * PAGE_SIZE), record.page * PAGE_SIZE + record.offset;
    WriteWithinPage(memory, record.page, record.offset, record.original);
    WriteWithinPage(memory + tail, record.page, record.offset, record.original);
    assert Overwrite(memory + tail, start, record.original) == Overwrite(memory, start, record.original) + tail;
  }

  lemma WriteStepUndoes(start: seq<byte>, memory: seq<byte>, pages: nat, records: seq<Record>, call: Call)
    requires WholePages(memory, pages) && Undoes(start, memory, records) && call.WriteRegion?
    requires call.page < pages && call.offset + |call.bytes| <= PAGE_SIZE
    ensures var (next, longer, _) := Journaled(memory, records, call);
            WholePages(next, pages) && Undoes(start, next, longer)
  {
    hide WriteRaw, ReadRaw, RolledBack, WholePages;
    if call.aligned {
      WriteIsUndone(memory, pages, call.page, call.offset, call.bytes);
    } else {
      RefusedIsUndone(memory, pages, call.page, call.offset, |call.bytes|);
    }
    var (next, longer, _) := Journaled(memory, records, call);
    LastIsRolledBack(next, records, longer[|records|]);
    SameSize(memory, next, pages);
  }

  lemma LastIsRolledBack(memory: seq<byte>, records: seq<Record>, last: Record)
    ensures var (next, r) := WriteRaw(memory, last.page, last.offset, last.original);
            RolledBack(memory, records + [last]) == if r.Err? then (next, r) else RolledBack(next, records)
  {
    hide WriteRaw;
    assert (records + [last])[..|records|] == records;
  }

  lemma SameSize(a: seq<byte>, b: seq<byte>, pages: nat)
    requires WholePages(a, pages) && WholePages(b, pages)
    ensures |a| == |b|
  {
  }

  lemma GrowStepUndoes(start: seq<byte>, memory: seq<byte>, pages: nat, records: seq<Record>)
    requires WholePages(memory, pages) && Undoes(start, memory, records) && pages < PAGE_NUMBERS
    ensures var (next, longer, _) := Journaled(memory, records, GrowPage(true));
            WholePages(next, pages + 1) && Undoes(start, next, longer)
  {
    GrownIsZeroPage(memory, pages);
    RollbackFrame(memory, pages, records, 1);
    assert Zeros(|memory| - |start|) + Zeros(PAGE_SIZE) == Zeros(|memory| + PAGE_SIZE - |start|);
    assert start + Zeros(|memory| - |start|) + Zeros(PAGE_SIZE) == start + Zeros(|memory| + PAGE_SIZE - |start|);
  }

  lemma GrownIsZeroPage(memory: seq<byte>, pages: nat)
    requires WholePages(memory, pages) && pages < PAGE_NUMBERS
    ensures GrowOnePage(memory, true) == (memory + Zeros(PAGE_SIZE), Ok(pages))
  {
    PageAdded(memory, pages);
    var next := GrowOnePage(memory, true).0;
    forall p: nat | p < pages + 1
      ensures PageSlice(next, p) == PageSlice(memory + Zeros(PAGE_SIZE), p)
    {
      if p == pages {
        assert PageSlice(memory + Zeros(PAGE_SIZE), p) == Zeros(PAGE_SIZE);
      } else {
        assert PageSlice(memory + Zeros(PAGE_SIZE), p) == PageSlice(memory, p);
      }
    }
    SamePages(next, memory + Zeros(PAGE_SIZE), pages + 1);
  }

  lemma StepUndoes(start: seq<byte>, memory: seq<byte>, pages: nat, records: seq<Record>, call: Call) returns (pages': nat)
    requires WholePages(memory, pages) && Undoes(start, memory, records)
    requires AllFit(Journaled(memory, records, call).1)
    requires |Journaled(memory, records, call).0| <= PAGE_NUMBERS * PAGE_SIZE
    ensures var (next, longer, _) := Journaled(memory, records, call);
            WholePages(next, pages') && Undoes(start, next, longer)
  {
    hide Undoes;
    pages' := pages;
    match call
    case WriteRegion(page, offset, bytes, aligned) =>
      if page < pages && offset <= PAGE_SIZE {
        RecordOfWrite(memory, pages, records, call);
        WriteStepUndoes(start, memory, pages, records, call);
      }
    case GrowPage(granted) =>
      if granted {
        GrowthAddsPage(memory, pages);
        GrowStepUndoes(start, memory, pages, records);
        pages' := pages + 1;
      }
  }

  lemma GrowthAddsPage(memory: seq<byte>, pages: nat)
    requires WholePages(memory, pages)
    ensures |GrowOnePage(memory, true).0| == (pages + 1) * PAGE_SIZE
  {
  }

  lemma {:induction false} RunOnlyGrows(memory: seq<byte>, pages: nat, records: seq<Record>, calls: seq<Call>)
    requires |memory| == pages * PAGE_SIZE
    ensures |Run(memory, records, calls).0| >= |memory|
    ensures |Run(memory, records, calls).1| >= |records| && Run(memory, records, calls).1[..|records|] == records
    decreases |calls|
  {
    if calls != [] {
      var (next, longer, _) := Journaled(memory, records, calls[0]);
      assert |next| == |memory| || |next| == (pages + 1) * PAGE_SIZE;
      assert longer[..|records|] == records;
      RunOnlyGrows(next, if |next| == |memory| then pages else pages + 1, longer, calls[1..]);
      assert Run(memory, records, calls).1[..|longer|][..|records|] == records;
    }
  }

  // The first records of a run fit if all do.
  lemma PrefixFits(records: seq<Record>, longer: seq<Record>)
    requires |records| <= |longer| && longer[..|records|] == records && AllFit(longer)
    ensures AllFit(records)
  {
    forall k | 0 <= k < |records|
      ensures Fits(records[k])
    {
      assert records[k] == longer[k];
    }
  }

  lemma {:induction false} RunUndoes(start: seq<byte>, memory: seq<byte>, pages: nat, records: seq<Record>, calls: seq<Call>)
    requires WholePages(memory, pages) && Undoes(start, memory, records)
    requires AllFit(Run(memory, records, calls).1)
    requires |Run(memory, records, calls).0| <= PAGE_NUMBERS * PAGE_SIZE
    ensures Undoes(start, Run(memory, records, calls).0, Run(memory, records, calls).1)
    decreases |calls|
  {
    hide Fits, AllFit, Undoes, Journaled;
    if calls != [] {
      var (next, longer, _) := Journaled(memory, records, calls[0]);
      var grown := StepOnlyGrows(memory, pages, records, calls[0]);
      RunOnlyGrows(next, grown, longer, calls[1..]);
      PrefixFits(longer, Run(memory, records, calls).1);
      var pages' := StepUndoes(start, memory, pages, records, calls[0]);
      RunUndoes(start, next, pages', longer, calls[1..]);
    }
  }

  lemma StepOnlyGrows(memory: seq<byte>, pages: nat, records: seq<Record>, call: Call) returns (grown: nat)
    requires |memory| == pages * PAGE_SIZE
    ensures |Journaled(memory, records, call).0| == grown * PAGE_SIZE && grown >= pages
  {
    grown := if |Journaled(memory, records, call).0| == |memory| then pages else pages + 1;
  }

  /** Rollback succeeds only if every record lies within its page. */
  lemma {:induction false} RollbackNeedsFit(memory: seq<byte>, records: seq<Record>)
    ensures RolledBack(memory, records).1.Ok? ==> AllFit(records)
    decreases |records|
  {
    if records != [] && RolledBack(memory, records).1.Ok? {
      var init, last := records[..|records| - 1], records[|records| - 1];
      RollbackNeedsFit(WriteRaw(memory, last.page, last.offset, last.original).0, init);
      forall k | 0 <= k < |records|
        ensures Fits(records[k])
      {
        if k < |init| {
          assert records[k] == init[k];
        }
      }
    }
  }

  // ----- Which runs can be rolled back

  /** Whether a write goes over the end of an allocated page; it is refused, but only after it was recorded. */
  predicate Crosses(memory: seq<byte>, call: Call) {
    call.WriteRegion? && Allocated(memory, call.page) && call.offset <= PAGE_SIZE < call.offset + |call.bytes|
  }

  predicate NeverCrosses(memory: seq<byte>, calls: seq<Call>)
    decreases |calls|
  {
    calls == [] || (!Crosses(memory, calls[0]) && NeverCrosses(Journaled(memory, [], calls[0]).0, calls[1..]))
  }

  // The record of a call that is recorded fits exactly if the call does not cross.
  lemma RecordOfWrite(memory: seq<byte>, pages: nat, records: seq<Record>, call: Call)
    requires WholePages(memory, pages) && call.WriteRegion? && call.page < pages && call.offset <= PAGE_SIZE
    ensures var longer := Journaled(memory, records, call).1;
            && |longer| == |records| + 1 && longer[..|records|] == records
            && (Fits(longer[|records|]) <==> call.offset + |call.bytes| <= PAGE_SIZE)
  {
  }

  lemma RecordOfStep(memory: seq<byte>, pages: nat, records: seq<Record>, call: Call)
    requires WholePages(memory, pages)
    ensures Journaled(memory, records, call).0 == Journaled(memory, [], call).0
    ensures AllFit(Journaled(memory, records, call).1) <==> AllFit(records) && !Crosses(memory, call)
  {
    var longer := Journaled(memory, records, call).1;
    if call.WriteRegion? && call.page < pages && call.offset <= PAGE_SIZE {
      RecordOfWrite(memory, pages, records, call);
      assert forall k :: 0 <= k < |records| ==> longer[k] == records[k];
    } else {
      assert longer == records;
    }
  }

  /** All records of a run fit exactly if no call crosses the end of a page. */
  lemma {:induction false} FitsIffNeverCrosses(memory: seq<byte>, pages: nat, records: seq<Record>, calls: seq<Call>)
    requires WholePages(memory, pages) && AllFit(records)
    requires |Run(memory, records, calls).0| <= PAGE_NUMBERS * PAGE_SIZE
    ensures AllFit(Run(memory, records, calls).1) <==> NeverCrosses(memory, calls)
    decreases |calls|
  {
    hide Fits, AllFit, Journaled, Crosses;
    if calls == [] {
      assert AllFit(Run(memory, records, calls).1);
    } else {
      var (next, longer, _) := Journaled(memory, records, calls[0]);
      var grown := StepOnlyGrows(memory, pages, records, calls[0]);
      RecordOfStep(memory, pages, records, calls[0]);
      RunOnlyGrows(next, grown, longer, calls[1..]);
      if AllFit(longer) {
        FitsIffNeverCrosses(next, grown, longer, calls[1..]);
      } else if AllFit(Run(memory, records, calls).1) {
        PrefixFits(longer, Run(memory, records, calls).1);
      }
    }
  }

  /**
   After any run, rollback restores every byte and leaves the grown pages zero, if and only
   if every recorded region lies within its page; that is, if no write went over the end of
   an allocated page. Otherwise rollback fails.
   */
  lemma RollbackIff(memory: seq<byte>, pages: nat, calls: seq<Call>)
    requires WholePages(memory, pages)
    requires |Run(memory, [], calls).0| <= PAGE_NUMBERS * PAGE_SIZE
    ensures var (written, records) := Run(memory, [], calls);
            && |written| >= |memory|
            && (RolledBack(written, records) == (memory + Zeros(|written| - |memory|), Ok(())) <==> AllFit(records))
            && (AllFit(records) <==> RolledBack(written, records).1.Ok?)
            && (AllFit(records) <==> NeverCrosses(memory, calls))
  {
    var (written, records) := Run(memory, [], calls);
    assert memory + Zeros(0) == memory;
    RunOnlyGrows(memory, pages, [], calls);
    RollbackNeedsFit(written, records);
    FitsIffNeverCrosses(memory, pages, [], calls);
    if AllFit(records) {
      RunUndoes(memory, memory, pages, [], calls);
    }
  }

  /** A write across the end of its page is refused, but recorded, and rollback then fails. */
  lemma CrossingWriteBlocksRollback(memory: seq<byte>, pages: nat, page: nat, offset: nat, bytes: seq<byte>, calls: seq<Call>)
    requires WholePages(memory, pages) && page < pages && offset <= PAGE_SIZE < offset + |bytes|
    ensures var call := WriteRegion(page, offset, bytes, true);
            && Journaled(memory, [], call).2 == Err(SegmentationFault)
            && RolledBack(Run(memory, [], [call] + calls).0, Run(memory, [], [call] + calls).1).1.Err?
  {
    var call := WriteRegion(page, offset, bytes, true);
    var (next, longer, _) := Journaled(memory, [], call);
    assert |longer| == 1 && !Fits(longer[0]);
    assert ([call] + calls)[1..] == calls;
    var (written, records) := Run(next, longer, calls);
    RunOnlyGrows(next, pages, longer, calls);
    assert records[0] == records[..1][0] == longer[0];
    RollbackNeedsFit(written, records);
  }
}
