/**
 Two memory providers: a flat one and a page-keyed one whose reads and writes
 walk over page boundaries chunk by chunk. Over every sequence of operations
 that fits 64 bits they give the same answers and hold the same bytes.
 */
module PagedMemories {
  import opened Wrappers
  import opened Bytes
  import opened Pages
  import opened Sequences

  datatype MemoryError = OutOfBounds | FailedToAllocatePage

  // ----- The flat memory as a value

  function FlatGrow(memory: seq<byte>, newPages: nat): (seq<byte>, Result<nat, MemoryError>) {
    if |memory| + newPages * PAGE_SIZE > U64_MAX then (memory, Err(FailedToAllocatePage))
    else (memory + Zeros(newPages * PAGE_SIZE), Ok(|memory|))
  }

  function FlatRead(memory: seq<byte>, offset: nat, count: nat): Result<seq<byte>, MemoryError> {
    if offset + count > |memory| then Err(OutOfBounds) else Ok(memory[offset..offset + count])
  }

  function FlatWrite(memory: seq<byte>, offset: nat, bytes: seq<byte>): (seq<byte>, Result<(), MemoryError>) {
    if offset + |bytes| > |memory| then (memory, Err(OutOfBounds))
    else (Overwrite(memory, offset, bytes), Ok(()))
  }

  /** The flat provider: one byte vector. */
  class HeapMemory {
    var memory: seq<byte>

    constructor ()
      ensures memory == []
    {
      memory := [];
    }

    method Grow(newPages: nat) returns (r: Result<nat, MemoryError>)
      modifies this
      ensures (memory, r) == FlatGrow(old(memory), newPages)
    {
      var previousSize := |memory|;
      if newPages * PAGE_SIZE > U64_MAX || previousSize + newPages * PAGE_SIZE > U64_MAX {
        return Err(FailedToAllocatePage);
      }
      memory := memory + Zeros(newPages * PAGE_SIZE);
      return Ok(previousSize);
    }

    method Read(offset: nat, buf: array<byte>) returns (r: Result<(), MemoryError>)
      modifies buf
      ensures match FlatRead(memory, offset, buf.Length)
              case Ok(bytes) => r == Ok(()) && buf[..] == bytes
              case Err(error) => r == Err(error) && buf[..] == old(buf[..])
    {
      if offset + buf.Length > |memory| {
        return Err(OutOfBounds);
      }
      forall i | 0 <= i < buf.Length {
        buf[i] := memory[offset + i];
      }
      return Ok(());
    }

    method Write(offset: nat, bytes: seq<byte>) returns (r: Result<(), MemoryError>)
      modifies this
      ensures (memory, r) == FlatWrite(old(memory), offset, bytes)
    {
      if offset + |bytes| > |memory| {
        return Err(OutOfBounds);
      }
      memory := Overwrite(memory, offset, bytes);
      return Ok(());
    }
  }

  // ----- The page-keyed memory

  type PageMap = map<nat, seq<byte>>

  /** The pages are exactly those below the count, each of full size. */
  ghost predicate PagesBelow(pages: PageMap, count: nat) {
    && (forall p: nat :: p in pages <==> p < count)
    && (forall p: nat :: p in pages ==> |pages[p]| == PAGE_SIZE)
  }

  ghost function ByteAt(pages: PageMap, count: nat, i: nat): byte
    requires PagesBelow(pages, count) && i < count * PAGE_SIZE
  {
    pages[i / PAGE_SIZE][i % PAGE_SIZE]
  }

  /** The bytes of all pages, one page after the other. */
  ghost function FlatOf(pages: PageMap, count: nat): (memory: seq<byte>)
    requires PagesBelow(pages, count)
    ensures |memory| == count * PAGE_SIZE
  {
    seq(count * PAGE_SIZE, i requires 0 <= i < count * PAGE_SIZE => ByteAt(pages, count, i))
  }

  function Minimum(a: nat, b: nat): nat {
    if a <= b then a else b
  }

  // Patching one page changes exactly the bytes of the chunk.
  lemma PatchBytes(pages: PageMap, count: nat, offset: nat, chunk: seq<byte>, i: nat)
    requires PagesBelow(pages, count) && offset < count * PAGE_SIZE
    requires offset % PAGE_SIZE + |chunk| <= PAGE_SIZE && i < count * PAGE_SIZE
    ensures var p := offset / PAGE_SIZE;
            var patched := pages[p := Overwrite(pages[p], offset % PAGE_SIZE, chunk)];
            && PagesBelow(patched, count)
            && ByteAt(patched, count, i) == if offset <= i < offset + |chunk| then chunk[i - offset] else ByteAt(pages, count, i)
  {
  }

  lemma PatchValid(pages: PageMap, count: nat, offset: nat, chunk: seq<byte>)
    requires PagesBelow(pages, count) && offset < count * PAGE_SIZE
    requires offset % PAGE_SIZE + |chunk| <= PAGE_SIZE
    ensures var p := offset / PAGE_SIZE;
            PagesBelow(pages[p := Overwrite(pages[p], offset % PAGE_SIZE, chunk)], count)
  {
  }

  lemma SamePageByte(pages: PageMap, count: nat, offset: nat, k: nat)
    requires PagesBelow(pages, count) && offset + k < count * PAGE_SIZE && offset % PAGE_SIZE + k < PAGE_SIZE
    ensures pages[offset / PAGE_SIZE][offset % PAGE_SIZE + k] == FlatOf(pages, count)[offset + k]
  {
  }

  // A stretch of bytes within one page is the same stretch of the flat memory.
  lemma ChunkOfPage(pages: PageMap, count: nat, offset: nat, length: nat)
    requires PagesBelow(pages, count) && offset + length <= count * PAGE_SIZE && length > 0
    requires offset % PAGE_SIZE + length <= PAGE_SIZE
    ensures offset / PAGE_SIZE in pages
    ensures pages[offset / PAGE_SIZE][offset % PAGE_SIZE..offset % PAGE_SIZE + length]
         == FlatOf(pages, count)[offset..offset + length]
  {
    var stretch := pages[offset / PAGE_SIZE][offset % PAGE_SIZE..offset % PAGE_SIZE + length];
    var flat := FlatOf(pages, count)[offset..offset + length];
    forall k: nat | k < length
      ensures stretch[k] == flat[k]
    {
      SamePageByte(pages, count, offset, k);
    }
  }

  method CopyIn(buf: array<byte>, start: nat, chunk: seq<byte>)
    requires start + |chunk| <= buf.Length
    modifies buf
    ensures buf[..start + |chunk|] == old(buf[..start]) + chunk
  {
    forall k | 0 <= k < |chunk| {
      buf[start + k] := chunk[k];
    }
  }

  class PagedMemory {
    var pages: PageMap
    var numPages: nat

    ghost predicate Valid()
      reads this
    {
      PagesBelow(pages, numPages) && numPages * PAGE_SIZE <= U64_MAX
    }

    ghost function Flat(): (memory: seq<byte>)
      requires Valid()
      reads this
      ensures |memory| == numPages * PAGE_SIZE
    {
      FlatOf(pages, numPages)
    }

    constructor ()
      ensures Valid() && Flat() == []
    {
      pages := map[];
      numPages := 0;
    }

    method Grow(newPages: nat) returns (r: Result<nat, MemoryError>)
      requires Valid() && (numPages + newPages) * PAGE_SIZE <= U64_MAX
      modifies this
      ensures Valid() && (Flat(), r) == FlatGrow(old(Flat()), newPages)
    {
      var previousSize := numPages * PAGE_SIZE;
      for i := 0 to newPages
        invariant numPages == old(numPages)
        invariant forall p: nat :: p in pages <==> p < numPages + i
        invariant forall p: nat :: p in pages ==> |pages[p]| == PAGE_SIZE
        invariant forall p: nat :: p in pages ==> pages[p] == if p < numPages then old(pages)[p] else Zeros(PAGE_SIZE)
      {
        var pageNum := numPages + i;
        pages := pages[pageNum := Zeros(PAGE_SIZE)];
      }
      numPages := numPages + newPages;
      assert Flat() == FlatGrow(old(Flat()), newPages).0;
      return Ok(previousSize);
    }

    /** Copies a stretch that lies within one page. */
    method ReadChunk(memOffset: nat, length: nat, buf: array<byte>, bufOffset: nat)
      requires Valid() && length > 0 && memOffset + length <= numPages * PAGE_SIZE
      requires memOffset % PAGE_SIZE + length <= PAGE_SIZE && bufOffset + length <= buf.Length
      modifies buf
      ensures buf[..bufOffset + length] == old(buf[..bufOffset]) + Flat()[memOffset..memOffset + length]
    {
      ChunkOfPage(pages, numPages, memOffset, length);
      var pageNum := memOffset / PAGE_SIZE;
      var pageOffset := memOffset % PAGE_SIZE;
      CopyIn(buf, bufOffset, pages[pageNum][pageOffset..pageOffset + length]);
    }

    method Read(offset: nat, buf: array<byte>) returns (r: Result<(), MemoryError>)
      requires Valid() && offset + buf.Length <= U64_MAX
      modifies buf
      ensures match FlatRead(Flat(), offset, buf.Length)
              case Ok(bytes) => r == Ok(()) && buf[..] == bytes
              case Err(error) => r == Err(error) && buf[..] == old(buf[..])
    {
      if offset + buf.Length > numPages * PAGE_SIZE {
        return Err(OutOfBounds);
      }
      ghost var flat := Flat();
      var remaining: nat := buf.Length;
      var bufOffset: nat := 0;
      var memOffset: nat := offset;
      while remaining > 0
        invariant bufOffset + remaining == buf.Length && memOffset == offset + bufOffset
        invariant buf[..bufOffset] == flat[offset..memOffset]
        decreases remaining
      {
        var pageOffset := memOffset % PAGE_SIZE;
        var bytesInPage := Minimum(PAGE_SIZE - pageOffset, remaining);
        ReadChunk(memOffset, bytesInPage, buf, bufOffset);
        SliceSplit(flat, offset, memOffset, memOffset + bytesInPage);
        bufOffset := bufOffset + bytesInPage;
        memOffset := memOffset + bytesInPage;
        remaining := remaining - bytesInPage;
      }
      assert buf[..] == buf[..bufOffset];
      return Ok(());
    }

    method Write(offset: nat, bytes: seq<byte>) returns (r: Result<(), MemoryError>)
      requires Valid() && offset + |bytes| <= U64_MAX
      modifies this
      ensures Valid() && (Flat(), r) == FlatWrite(old(Flat()), offset, bytes)
    {
      if offset + |bytes| > numPages * PAGE_SIZE {
        return Err(OutOfBounds);
      }
      var remaining: nat := |bytes|;
      var bufOffset: nat := 0;
      var memOffset: nat := offset;
      while remaining > 0
        invariant numPages == old(numPages) && Valid()
        invariant bufOffset + remaining == |bytes| && memOffset == offset + bufOffset
        invariant forall i: nat :: i < numPages * PAGE_SIZE ==>
                    ByteAt(pages, numPages, i)
                      == if offset <= i < memOffset then bytes[i - offset] else ByteAt(old(pages), numPages, i)
        decreases remaining
      {
        var pageNum := memOffset / PAGE_SIZE;
        var pageOffset := memOffset % PAGE_SIZE;
        var bytesInPage := Minimum(PAGE_SIZE - pageOffset, remaining);
        var chunk := bytes[bufOffset..bufOffset + bytesInPage];
        ghost var before := pages;
        pages := pages[pageNum := Overwrite(pages[pageNum], pageOffset, chunk)];
        PatchValid(before, numPages, memOffset, chunk);
        forall i: nat | i < numPages * PAGE_SIZE
          ensures ByteAt(pages, numPages, i)
               == if offset <= i < memOffset + bytesInPage then bytes[i - offset] else ByteAt(old(pages), numPages, i)
        {
          PatchBytes(before, numPages, memOffset, chunk, i);
        }
        bufOffset := bufOffset + bytesInPage;
        memOffset := memOffset + bytesInPage;
        remaining := remaining - bytesInPage;
      }
      ghost var expected := FlatWrite(old(Flat()), offset, bytes).0;
      forall i | 0 <= i < |expected|
        ensures Flat()[i] == expected[i]
      {
        assert Flat()[i] == ByteAt(pages, numPages, i);
      }
      assert Flat() == expected;
      return Ok(());
    }
  }

  // ----- Whole sequences of operations

  datatype Operation = Grow(newPages: nat) | Read(offset: nat, count: nat) | Write(at: nat, bytes: seq<byte>)

  datatype Answer = Size(size: nat) | Bytes(read: seq<byte>) | Done | Failed(error: MemoryError)

  function FlatStep(memory: seq<byte>, operation: Operation): (seq<byte>, Answer) {
    match operation
    case Grow(newPages) =>
      var (next, r) := FlatGrow(memory, newPages);
      (next, match r case Ok(size) => Size(size) case Err(error) => Failed(error))
    case Read(offset, count) =>
      (memory, match FlatRead(memory, offset, count) case Ok(bytes) => Bytes(bytes) case Err(error) => Failed(error))
    case Write(at, bytes) =>
      var (next, r) := FlatWrite(memory, at, bytes);
      (next, match r case Ok(_) => Done case Err(error) => Failed(error))
  }

  function FlatRun(memory: seq<byte>, operations: seq<Operation>): (seq<byte>, seq<Answer>) {
    if operations == [] then (memory, [])
    else
      var (before, answers) := FlatRun(memory, operations[..|operations| - 1]);
      var (after, answer) := FlatStep(before, operations[|operations| - 1]);
      (after, answers + [answer])
  }

  /** Every offset, and every size the memory reaches, fits 64 bits. */
  ghost predicate Fits(memory: seq<byte>, operations: seq<Operation>) {
    forall i :: 0 <= i < |operations| ==> FitsOne(FlatRun(memory, operations[..i]).0, operations[i])
  }

  predicate FitsOne(memory: seq<byte>, operation: Operation) {
    match operation
    case Grow(newPages) => |memory| + newPages * PAGE_SIZE <= U64_MAX
    case Read(offset, count) => offset + count <= U64_MAX
    case Write(at, bytes) => at + |bytes| <= U64_MAX
  }

  lemma FlatRunStep(memory: seq<byte>, operations: seq<Operation>, i: nat)
    requires i < |operations|
    ensures FlatRun(memory, operations[..i + 1])
         == var (before, answers) := FlatRun(memory, operations[..i]);
            var (after, answer) := FlatStep(before, operations[i]);
            (after, answers + [answer])
  {
    assert operations[..i + 1][..i] == operations[..i];
  }

  method PagedStep(memory: PagedMemory, operation: Operation) returns (answer: Answer)
    requires memory.Valid() && FitsOne(memory.Flat(), operation)
    modifies memory
    ensures memory.Valid() && (memory.Flat(), answer) == FlatStep(old(memory.Flat()), operation)
  {
    match operation
    case Grow(newPages) =>
      var r := memory.Grow(newPages);
      return if r.Ok? then Size(r.value) else Failed(r.error);
    case Read(offset, count) =>
      var buf := new byte[count](_ => 0);
      var r := memory.Read(offset, buf);
      return if r.Ok? then Bytes(buf[..]) else Failed(r.error);
    case Write(at, bytes) =>
      var r := memory.Write(at, bytes);
      return if r.Ok? then Done else Failed(r.error);
  }

  /** Any run on the page-keyed memory answers as the flat memory does and ends with the same bytes. */
  method PagedRun(memory: PagedMemory, operations: seq<Operation>) returns (answers: seq<Answer>)
    requires memory.Valid() && Fits(memory.Flat(), operations)
    modifies memory
    ensures memory.Valid() && (memory.Flat(), answers) == FlatRun(old(memory.Flat()), operations)
  {
    answers := [];
    for i := 0 to |operations|
      invariant memory.Valid() && (memory.Flat(), answers) == FlatRun(old(memory.Flat()), operations[..i])
    {
      FlatRunStep(old(memory.Flat()), operations, i);
      var answer := PagedStep(memory, operations[i]);
      answers := answers + [answer];
    }
    assert operations[..|operations|] == operations;
  }

  method HeapStep(memory: HeapMemory, operation: Operation) returns (answer: Answer)
    modifies memory
    ensures (memory.memory, answer) == FlatStep(old(memory.memory), operation)
  {
    match operation
    case Grow(newPages) =>
      var r := memory.Grow(newPages);
      return if r.Ok? then Size(r.value) else Failed(r.error);
    case Read(offset, count) =>
      var buf := new byte[count](_ => 0);
      var r := memory.Read(offset, buf);
      return if r.Ok? then Bytes(buf[..]) else Failed(r.error);
    case Write(at, bytes) =>
      var r := memory.Write(at, bytes);
      return if r.Ok? then Done else Failed(r.error);
  }

  /** The two providers, started with the same bytes, answer alike and stay equal. */
  method RunBoth(heap: HeapMemory, paged: PagedMemory, operations: seq<Operation>)
    returns (flatAnswers: seq<Answer>, pagedAnswers: seq<Answer>)
    requires paged.Valid() && heap.memory == paged.Flat() && Fits(paged.Flat(), operations)
    modifies heap, paged
    ensures paged.Valid() && flatAnswers == pagedAnswers && heap.memory == paged.Flat()
  {
    flatAnswers := [];
    for i := 0 to |operations|
      invariant paged.Valid() && paged.Flat() == old(paged.Flat())
      invariant (heap.memory, flatAnswers) == FlatRun(old(paged.Flat()), operations[..i])
    {
      FlatRunStep(old(paged.Flat()), operations, i);
      var answer := HeapStep(heap, operations[i]);
      flatAnswers := flatAnswers + [answer];
    }
    assert operations[..|operations|] == operations;
    pagedAnswers := PagedRun(paged, operations);
  }
}
