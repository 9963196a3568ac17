/**
 The ledger of unclaimed pages: a LIFO stack of page numbers and its encoding
 on a reserved page. Whatever bytes follow an encoded ledger, decoding gives it
 back, and a full ledger padded to its alignment still fits its page.
 */
module UnclaimedPagesLedger {
  import opened Wrappers
  import opened Bytes
  import opened Pages

  type u32 = n: int | 0 <= n <= 0xFFFF_FFFF

  const HEADER_SIZE: nat := 4
  const ENTRY_SIZE: nat := 4
  const ALIGNMENT: nat := 32
  const MSIZE_MAX: nat := 65_535
  const CAPACITY: nat := (MSIZE_MAX - HEADER_SIZE) / ENTRY_SIZE

  datatype LedgerError = Full(capacity: nat) | TooShort

  function SizeOf(count: nat): nat {
    HEADER_SIZE + count * ENTRY_SIZE
  }

  function AlignUp(length: nat): nat {
    (length + ALIGNMENT - 1) / ALIGNMENT * ALIGNMENT
  }

  /** The capacity is exactly what a 16-bit size can express, and such a ledger fits its page with padding. */
  lemma CapacityIsExact(count: nat)
    ensures CAPACITY == 16_382
    ensures count <= CAPACITY <==> SizeOf(count) <= MSIZE_MAX
    ensures count <= CAPACITY ==> AlignUp(SizeOf(count)) <= PAGE_SIZE
    ensures count == CAPACITY ==> AlignUp(SizeOf(count)) == PAGE_SIZE
  {
  }

  /** Padding goes up to the next multiple of 32. */
  lemma AlignUpIs(length: nat)
    ensures AlignUp(length) % 32 == 0 && length <= AlignUp(length) < length + 32
  {
  }

  /** The encoding of the first `count` pages. */
  function EncodeEntries(pages: seq<u32>, count: nat): (bytes: seq<byte>)
    requires count <= |pages|
    ensures |bytes| == count * ENTRY_SIZE
  {
    if count == 0 then [] else EncodeEntries(pages, count - 1) + ToLe(pages[count - 1], 4)
  }

  function Encode(pages: seq<u32>): (bytes: seq<byte>)
    ensures |bytes| == SizeOf(|pages|)
  {
    ToLe(|pages|, 4) + EncodeEntries(pages, |pages|)
  }

  function DecodeEntry(data: seq<byte>, at: nat): u32
    requires at + 4 <= |data|
  {
    Pow256Widths();
    FromLe(data[at..at + 4])
  }

  function Decode(data: seq<byte>): Result<seq<u32>, LedgerError> {
    if |data| < HEADER_SIZE then Err(TooShort)
    else
      var count := DecodeEntry(data, 0);
      if count > CAPACITY then Err(Full(CAPACITY))
      else if |data| < SizeOf(count) then Err(TooShort)
      else Ok(seq(count, i requires 0 <= i < count => DecodeEntry(data, SizeOf(i))))
  }

  method EncodeLedger(pages: seq<u32>) returns (buf: seq<byte>)
    ensures buf == Encode(pages)
  {
    buf := ToLe(|pages|, 4);
    for i := 0 to |pages|
      invariant buf == ToLe(|pages|, 4) + EncodeEntries(pages, i)
    {
      buf := buf + ToLe(pages[i], 4);
    }
  }

  /** The bytes of a ledger: the count and the pages, four bytes each, least significant first. */
  lemma LedgerFormat(a: u32, b: u32)
    ensures Encode([a, b]) == [2, 0, 0, 0] + [a % 256, a / 256 % 256, a / 65536 % 256, a / 16777216 % 256]
                              + [b % 256, b / 256 % 256, b / 65536 % 256, b / 16777216 % 256]
  {
    hide ToLe;
    LittleEndian(2);
    LittleEndian(a);
    LittleEndian(b);
    assert EncodeEntries([a, b], 1) == EncodeEntries([a, b], 0) + ToLe(a, 4);
  }

  lemma U32RoundTrip(value: u32)
    ensures FromLe(ToLe(value, 4)) == value
  {
    Pow256Widths();
    FromToLe(value, 4);
  }

  lemma SliceOfPrefix<T>(a: seq<T>, b: seq<T>, start: nat, end: nat)
    requires start <= end <= |a|
    ensures (a + b)[start..end] == a[start..end]
  {
  }

  lemma SliceOfSuffix<T>(a: seq<T>, b: seq<T>, start: nat, end: nat)
    requires start <= end <= |b|
    ensures (a + b)[|a| + start..|a| + end] == b[start..end]
  {
  }

  lemma {:induction false} EntryAt(pages: seq<u32>, count: nat, i: nat)
    requires i < count <= |pages|
    ensures EncodeEntries(pages, count)[i * ENTRY_SIZE..i * ENTRY_SIZE + 4] == ToLe(pages[i], 4)
  {
    var init := EncodeEntries(pages, count - 1);
    var bytes := init + ToLe(pages[count - 1], 4);
    var start := i * ENTRY_SIZE;
    assert |init| == (count - 1) * ENTRY_SIZE;
    if i < count - 1 {
      EntryAt(pages, count - 1, i);
      SliceOfPrefix(init, ToLe(pages[count - 1], 4), start, start + 4);
    } else {
      assert bytes[start..] == ToLe(pages[i], 4) && |bytes| == start + 4;
    }
  }

  lemma DecodedEntry(pages: seq<u32>, data: seq<byte>, i: nat)
    requires i < |pages| && Encode(pages) <= data
    ensures DecodeEntry(data, SizeOf(i)) == pages[i]
  {
    var encoded, entries, start := Encode(pages), EncodeEntries(pages, |pages|), i * ENTRY_SIZE;
    assert data == encoded + data[|encoded|..];
    SliceOfPrefix(encoded, data[|encoded|..], SizeOf(i), SizeOf(i) + 4);
    SliceOfSuffix(ToLe(|pages|, 4), entries, start, start + 4);
    EntryAt(pages, |pages|, i);
    U32RoundTrip(pages[i]);
  }

  /** Decoding ignores whatever follows an encoded ledger. */
  lemma DecodeOfEncode(pages: seq<u32>, data: seq<byte>)
    requires |pages| <= CAPACITY && Encode(pages) <= data
    ensures Decode(data) == Ok(pages)
  {
    var encoded := Encode(pages);
    assert data[0..4] == encoded[0..4] == ToLe(|pages|, 4);
    U32RoundTrip(|pages|);
    forall i: nat | i < |pages|
      ensures DecodeEntry(data, SizeOf(i)) == pages[i]
    {
      DecodedEntry(pages, data, i);
    }
    assert DecodeEntry(data, 0) == |pages|;
    assert seq(|pages|, i requires 0 <= i < |pages| => DecodeEntry(data, SizeOf(i))) == pages;
    assert Decode(data).value == pages;
  }

  /** A page of zeros is the empty ledger. */
  lemma DecodeOfZeros(count: nat)
    requires count >= HEADER_SIZE
    ensures Decode(Zeros(count)) == Ok([])
  {
    var data := Zeros(count);
    assert data[0..4] == ToLe(0, 4);
    U32RoundTrip(0);
    assert Encode([]) <= data;
    DecodeOfEncode([], data);
  }

  /** The ledger object: push appends, pop removes the last page. */
  class Ledger {
    var pages: seq<u32>

    constructor (pages: seq<u32>)
      ensures this.pages == pages
    {
      this.pages := pages;
    }

    method Pop() returns (page: Option<u32>)
      modifies this
      ensures old(pages) == [] ==> page == None && pages == []
      ensures old(pages) != [] ==> page.Some? && old(pages) == pages + [page.value]
    {
      if pages == [] {
        return None;
      }
      page := Some(pages[|pages| - 1]);
      pages := pages[..|pages| - 1];
    }

    method Push(page: u32) returns (r: Result<(), LedgerError>)
      modifies this
      ensures |old(pages)| >= CAPACITY ==> r == Err(Full(CAPACITY)) && pages == old(pages)
      ensures |old(pages)| < CAPACITY ==> r == Ok(()) && pages == old(pages) + [page]
    {
      if |pages| >= CAPACITY {
        return Err(Full(CAPACITY));
      }
      pages := pages + [page];
      return Ok(());
    }
  }
}
