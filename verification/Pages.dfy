/** Pages of a flat memory. */
module Pages {
  import opened Bytes

  /** Bytes per page (64 KiB). */
  const PAGE_SIZE: nat := 65_536

  function PageSlice(memory: seq<byte>, page: nat): (slice: seq<byte>)
    requires (page + 1) * PAGE_SIZE <= |memory|
    ensures |slice| == PAGE_SIZE
  {
    memory[page * PAGE_SIZE..page * PAGE_SIZE + PAGE_SIZE]
  }

  /** A page-aligned memory is determined by its pages. */
  lemma SamePages(a: seq<byte>, b: seq<byte>, pages: nat)
    requires |a| == |b| == pages * PAGE_SIZE
    requires forall p: nat :: p < pages ==> PageSlice(a, p) == PageSlice(b, p)
    ensures a == b
  {
    forall i | 0 <= i < |a|
      ensures a[i] == b[i]
    {
      var p := i / PAGE_SIZE;
      assert PageSlice(a, p)[i - p * PAGE_SIZE] == PageSlice(b, p)[i - p * PAGE_SIZE];
    }
  }

  lemma AppendedPage(memory: seq<byte>, pages: nat, value: seq<byte>)
    requires |memory| == pages * PAGE_SIZE && |value| == PAGE_SIZE
    ensures PageSlice(memory + value, pages) == value
    ensures forall p: nat :: p < pages ==> PageSlice(memory + value, p) == PageSlice(memory, p)
  {
  }

  function Zeros(count: nat): (bytes: seq<byte>)
    ensures |bytes| == count
  {
    seq(count, _ => 0)
  }

  /** The memory with `bytes` written at `offset`. */
  function Overwrite(memory: seq<byte>, offset: nat, bytes: seq<byte>): (updated: seq<byte>)
    requires offset + |bytes| <= |memory|
    ensures |updated| == |memory|
  {
    memory[..offset] + bytes + memory[offset + |bytes|..]
  }

  // A write does not change a page it does not touch.
  lemma OverwriteElsewhere(memory: seq<byte>, offset: nat, bytes: seq<byte>, page: nat)
    requires offset + |bytes| <= |memory| && (page + 1) * PAGE_SIZE <= |memory|
    requires (page + 1) * PAGE_SIZE <= offset || offset + |bytes| <= page * PAGE_SIZE
    ensures PageSlice(Overwrite(memory, offset, bytes), page) == PageSlice(memory, page)
  {
  }

  // Two writes one after the other are one write.
  lemma OverwriteTwice(memory: seq<byte>, offset: nat, a: seq<byte>, b: seq<byte>)
    requires offset + |a| + |b| <= |memory|
    ensures Overwrite(Overwrite(memory, offset, a), offset + |a|, b) == Overwrite(memory, offset, a + b)
  {
    var first := Overwrite(memory, offset, a);
    assert first[..offset + |a|] == memory[..offset] + a;
    assert first[offset + |a| + |b|..] == memory[offset + |a| + |b|..];
  }

  // Bytes written at the start of a page are its prefix.
  lemma OverwritePrefix(memory: seq<byte>, page: nat, bytes: seq<byte>)
    requires (page + 1) * PAGE_SIZE <= |memory| && |bytes| <= PAGE_SIZE
    ensures bytes <= PageSlice(Overwrite(memory, page * PAGE_SIZE, bytes), page)
  {
    var updated := Overwrite(memory, page * PAGE_SIZE, bytes);
    assert updated[page * PAGE_SIZE..page * PAGE_SIZE + |bytes|] == bytes;
  }
}
