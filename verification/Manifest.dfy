/**
 The head manifest of the key-value provider and its binary codec. A manifest
 names the slot and the hash of every page of the current checkpoint and, when
 there is one, of the previous checkpoint. The codec is shown to be a bijection
 between valid manifests and the byte strings that decode.
 */
module Manifests {
  import opened Wrappers
  import opened Bytes
  import opened Pages
  import opened Sequences

  const COUNT_SIZE: nat := 8
  const ENTRY_SIZE: nat := 9
  const HEADER_SIZE: nat := 24
  const NO_PREVIOUS_CHECKPOINT: nat := U64_MAX
  const MAGIC: seq<byte> := [0x57, 0x44, 0x42, 0x4D, 0x53, 0x4B, 0x56, 0x32] // "WDBMSKV2"

  /** One slot number and one page hash per page. */
  datatype Checkpoint = Checkpoint(slots: seq<byte>, hashes: seq<u64>) {
    function Pages(): nat {
      |slots|
    }
  }

  const EMPTY_CHECKPOINT := Checkpoint([], [])

  datatype Manifest = Manifest(current: Checkpoint, previous: Option<Checkpoint>)

  const EMPTY_MANIFEST := Manifest(EMPTY_CHECKPOINT, None)

  datatype ManifestError =
    | InvalidHeader
    | TooManyPages
    | AllocationFailure
    | LengthMismatch
    | CountMismatch
    | InvalidSlot

  /** The page-count check: the engine limit, then the largest allocation of the host. */
  function ValidatePageCount(pages: nat, isizeMax: nat): (r: Option<ManifestError>) {
    if pages > U32_MAX then Some(TooManyPages)
    else if pages * PAGE_SIZE > isizeMax then Some(AllocationFailure)
    else None
  }

  predicate PageCountOk(pages: nat, isizeMax: nat) {
    ValidatePageCount(pages, isizeMax) == None
  }

  function NewCheckpoint(slots: seq<byte>, hashes: seq<u64>, isizeMax: nat): Result<Checkpoint, ManifestError> {
    if |slots| != |hashes| then Err(CountMismatch)
    else match ValidatePageCount(|slots|, isizeMax)
      case Some(error) => Err(error)
      case None =>
        if exists i :: 0 <= i < |slots| && slots[i] > 1 then Err(InvalidSlot)
        else Ok(Checkpoint(slots, hashes))
  }

  predicate ValidCheckpoint(checkpoint: Checkpoint, isizeMax: nat) {
    && |checkpoint.slots| == |checkpoint.hashes|
    && PageCountOk(checkpoint.Pages(), isizeMax)
    && forall i :: 0 <= i < |checkpoint.slots| ==> checkpoint.slots[i] <= 1
  }

  predicate ValidManifest(manifest: Manifest, isizeMax: nat) {
    && ValidCheckpoint(manifest.current, isizeMax)
    && (manifest.previous.Some? ==> ValidCheckpoint(manifest.previous.value, isizeMax))
  }

  // ----- Encoding

  /** The first `count` entries: a slot byte followed by the page hash. */
  function EncodeEntries(checkpoint: Checkpoint, count: nat): (bytes: seq<byte>)
    requires count <= |checkpoint.slots| && count <= |checkpoint.hashes|
    ensures |bytes| == ENTRY_SIZE * count
  {
    if count == 0 then []
    else EncodeEntries(checkpoint, count - 1)
         + [checkpoint.slots[count - 1]] + ToLe(checkpoint.hashes[count - 1], 8)
  }

  /** How many entries the zip of slots and hashes yields. */
  function EntryCount(checkpoint: Checkpoint): nat {
    if |checkpoint.slots| <= |checkpoint.hashes| then |checkpoint.slots| else |checkpoint.hashes|
  }

  function PreviousCount(manifest: Manifest): nat {
    if manifest.previous.None? then NO_PREVIOUS_CHECKPOINT else manifest.previous.value.Pages()
  }

  function EncodeHeader(manifest: Manifest): (header: seq<byte>)
    ensures |header| == HEADER_SIZE
  {
    MAGIC + ToLe(manifest.current.Pages(), 8) + ToLe(PreviousCount(manifest), 8)
  }

  function EncodePrevious(manifest: Manifest): seq<byte> {
    if manifest.previous.None? then []
    else EncodeEntries(manifest.previous.value, EntryCount(manifest.previous.value))
  }

  function Encode(manifest: Manifest): seq<byte> {
    EncodeHeader(manifest) + EncodeEntries(manifest.current, EntryCount(manifest.current)) + EncodePrevious(manifest)
  }

  lemma CountBytes()
    ensures ToLe(0, 8) == [0, 0, 0, 0, 0, 0, 0, 0]
    ensures ToLe(1, 8) == [1, 0, 0, 0, 0, 0, 0, 0]
    ensures ToLe(0xFFFF_FFFF_FFFF_FFFF, 8) == [0xFF, 0xFF, 0xFF, 0xFF, 0xFF, 0xFF, 0xFF, 0xFF]
  {
    hide ToLe;
    LittleEndian(0);
    LittleEndian(1);
    LittleEndian(0xFFFF_FFFF);
    LittleEndian(0xFFFF_FFFF_FFFF_FFFF);
    assert 0xFFFF_FFFF_FFFF_FFFF / 4294967296 == 0xFFFF_FFFF;
  }

  /** The bytes of a manifest: "WDBMSKV2", both page counts, then a slot and a hash per page. */
  lemma ManifestFormat(slot: byte, hash: u64)
    ensures Encode(Manifest(Checkpoint([slot], [hash]), None))
         == [0x57, 0x44, 0x42, 0x4D, 0x53, 0x4B, 0x56, 0x32] + [1, 0, 0, 0, 0, 0, 0, 0]
            + [0xFF, 0xFF, 0xFF, 0xFF, 0xFF, 0xFF, 0xFF, 0xFF] + ([slot] + ToLe(hash, 8))
    ensures Encode(Manifest(Checkpoint([slot], [hash]), Some(Checkpoint([], []))))
         == [0x57, 0x44, 0x42, 0x4D, 0x53, 0x4B, 0x56, 0x32] + [1, 0, 0, 0, 0, 0, 0, 0] + [0, 0, 0, 0, 0, 0, 0, 0]
            + ([slot] + ToLe(hash, 8))
  {
    CountBytes();
    hide ToLe;
    var one, none := Checkpoint([slot], [hash]), Checkpoint([], []);
    assert EncodeEntries(one, 1) == [slot] + ToLe(hash, 8);
    assert EncodePrevious(Manifest(one, Some(none))) == [] && EncodePrevious(Manifest(one, None)) == [];
  }

  method EncodeCheckpoint(encoded: seq<byte>, checkpoint: Checkpoint) returns (extended: seq<byte>)
    ensures extended == encoded + EncodeEntries(checkpoint, EntryCount(checkpoint))
  {
    extended := encoded;
    var count := EntryCount(checkpoint);
    for i := 0 to count
      invariant extended == encoded + EncodeEntries(checkpoint, i)
    {
      extended := extended + [checkpoint.slots[i]];
      extended := extended + ToLe(checkpoint.hashes[i], 8);
    }
  }

  method EncodeManifest(manifest: Manifest) returns (encoded: seq<byte>)
    ensures encoded == Encode(manifest)
  {
    encoded := MAGIC;
    encoded := encoded + ToLe(manifest.current.Pages(), 8);
    encoded := encoded + ToLe(PreviousCount(manifest), 8);
    encoded := EncodeCheckpoint(encoded, manifest.current);
    if manifest.previous.Some? {
      encoded := EncodeCheckpoint(encoded, manifest.previous.value);
    }
  }

  // ----- Decoding

  function DecodeCount(bytes: seq<byte>, offset: nat): (count: nat)
    requires offset + COUNT_SIZE <= |bytes|
    ensures count <= U64_MAX
  {
    Pow256Widths();
    FromLe(bytes[offset..offset + COUNT_SIZE])
  }

  function DecodeSlots(bytes: seq<byte>, offset: nat, pages: nat): (slots: seq<byte>)
    requires offset + ENTRY_SIZE * pages <= |bytes|
    ensures |slots| == pages
  {
    seq(pages, i requires 0 <= i < pages => bytes[offset + ENTRY_SIZE * i])
  }

  function DecodeHashes(bytes: seq<byte>, offset: nat, pages: nat): (hashes: seq<u64>)
    requires offset + ENTRY_SIZE * pages <= |bytes|
    ensures |hashes| == pages
  {
    seq(pages, i requires 0 <= i < pages => DecodeCount(bytes, offset + ENTRY_SIZE * i + 1))
  }

  function DecodeEntries(bytes: seq<byte>, offset: nat, pages: nat, isizeMax: nat): Result<Checkpoint, ManifestError>
    requires offset + ENTRY_SIZE * pages <= |bytes|
  {
    NewCheckpoint(DecodeSlots(bytes, offset, pages), DecodeHashes(bytes, offset, pages), isizeMax)
  }

  function Decode(bytes: seq<byte>, isizeMax: nat): Result<Manifest, ManifestError> {
    if |bytes| < HEADER_SIZE || bytes[..8] != MAGIC then Err(InvalidHeader)
    else
      var currentCount := DecodeCount(bytes, 8);
      var previousCount := DecodeCount(bytes, 16);
      if !PageCountOk(currentCount, isizeMax) then Err(ValidatePageCount(currentCount, isizeMax).value)
      else if previousCount != NO_PREVIOUS_CHECKPOINT && !PageCountOk(previousCount, isizeMax) then
        Err(ValidatePageCount(previousCount, isizeMax).value)
      else DecodeBody(bytes, currentCount, previousCount, isizeMax)
  }

  function DecodeBody(bytes: seq<byte>, currentCount: nat, previousCount: nat, isizeMax: nat): Result<Manifest, ManifestError> {
    var previousEntries := if previousCount == NO_PREVIOUS_CHECKPOINT then 0 else previousCount;
    if |bytes| != HEADER_SIZE + (currentCount + previousEntries) * ENTRY_SIZE then Err(LengthMismatch)
    else
      match DecodeEntries(bytes, HEADER_SIZE, currentCount, isizeMax)
      case Err(error) => Err(error)
      case Ok(current) =>
        if previousCount == NO_PREVIOUS_CHECKPOINT then Ok(Manifest(current, None))
        else
          match DecodeEntries(bytes, HEADER_SIZE + ENTRY_SIZE * currentCount, previousCount, isizeMax)
          case Err(error) => Err(error)
          case Ok(previous) => Ok(Manifest(current, Some(previous)))
  }

  /** Whether one of the slot bytes of the first `entries` entries is neither 0 nor 1. */
  predicate SomeSlotBroken(bytes: seq<byte>, entries: nat)
    requires 24 + 9 * entries <= |bytes|
  {
    exists i :: 0 <= i < entries && bytes[24 + 9 * i] > 1
  }

  /** Which bytes decode, and what is wrong with the others: by their length, counts and slots. */
  lemma DecodeOutcome(bytes: seq<byte>, isizeMax: nat)
    ensures Decode(bytes, isizeMax).Err? <==> DecodeError(bytes, isizeMax).Some?
    ensures Decode(bytes, isizeMax).Err? ==> DecodeError(bytes, isizeMax) == Some(Decode(bytes, isizeMax).error)
  {
    if |bytes| >= 24 && bytes[..8] == [0x57, 0x44, 0x42, 0x4D, 0x53, 0x4B, 0x56, 0x32] {
      Pow256Widths();
      var current, second := FromLe(bytes[8..16]), FromLe(bytes[16..24]);
      var previous := if second == 0xFFFF_FFFF_FFFF_FFFF then 0 else second;
      if |bytes| == 24 + 9 * (current + previous) {
        SlotsBroken(bytes, current, DecodeSlots(bytes, 24, current), DecodeSlots(bytes, 24 + 9 * current, previous));
      }
    }
  }

  lemma SlotsBroken(bytes: seq<byte>, current: nat, first: seq<byte>, second: seq<byte>)
    requires |bytes| == 24 + 9 * (|first| + |second|) && |first| == current
    requires first == DecodeSlots(bytes, 24, |first|) && second == DecodeSlots(bytes, 24 + 9 * current, |second|)
    ensures SomeSlotBroken(bytes, |first| + |second|)
       <==> (exists i :: 0 <= i < |first| && first[i] > 1) || (exists i :: 0 <= i < |second| && second[i] > 1)
  {
    if i :| 0 <= i < |first| && first[i] > 1 {
      assert bytes[24 + 9 * i] > 1;
    }
    if i :| 0 <= i < |second| && second[i] > 1 {
      assert bytes[24 + 9 * (current + i)] > 1;
    }
    if i :| 0 <= i < |first| + |second| && bytes[24 + 9 * i] > 1 {
      if i < current {
        assert first[i] > 1;
      } else {
        assert second[i - current] > 1;
      }
    }
  }

  function DecodeError(bytes: seq<byte>, isizeMax: nat): Option<ManifestError> {
    if |bytes| < 24 || bytes[..8] != [0x57, 0x44, 0x42, 0x4D, 0x53, 0x4B, 0x56, 0x32] then Some(InvalidHeader)
    else
      var current, second := FromLe(bytes[8..16]), FromLe(bytes[16..24]);
      var previous := if second == 0xFFFF_FFFF_FFFF_FFFF then 0 else second;
      if current > 0xFFFF_FFFF then Some(TooManyPages)
      else if current * 65536 > isizeMax then Some(AllocationFailure)
      else if previous > 0xFFFF_FFFF then Some(TooManyPages)
      else if previous * 65536 > isizeMax then Some(AllocationFailure)
      else if |bytes| != 24 + 9 * (current + previous) then Some(LengthMismatch)
      else if SomeSlotBroken(bytes, current + previous) then Some(InvalidSlot)
      else None
  }

  method DecodeCheckpoint(bytes: seq<byte>, offset: nat, pages: nat, isizeMax: nat)
    returns (r: Result<Checkpoint, ManifestError>, cursor: nat)
    requires offset + ENTRY_SIZE * pages <= |bytes|
    ensures r == DecodeEntries(bytes, offset, pages, isizeMax)
    ensures cursor == offset + ENTRY_SIZE * pages
  {
    var slots: seq<byte>, hashes: seq<u64> := [], [];
    cursor := offset;
    for i := 0 to pages
      invariant cursor == offset + ENTRY_SIZE * i
      invariant slots == DecodeSlots(bytes, offset, i)
      invariant hashes == DecodeHashes(bytes, offset, i)
    {
      slots := slots + [bytes[cursor]];
      hashes := hashes + [DecodeCount(bytes, cursor + 1)];
      cursor := cursor + 1 + 8;
    }
    r := NewCheckpoint(slots, hashes, isizeMax);
  }

  method DecodeManifest(bytes: seq<byte>, isizeMax: nat) returns (r: Result<Manifest, ManifestError>)
    ensures r == Decode(bytes, isizeMax)
  {
    if |bytes| < HEADER_SIZE || bytes[..|MAGIC|] != MAGIC {
      return Err(InvalidHeader);
    }
    var currentCount := DecodeCount(bytes, |MAGIC|);
    var previousCount := DecodeCount(bytes, |MAGIC| + COUNT_SIZE);
    var invalid := ValidatePageCount(currentCount, isizeMax);
    if invalid.Some? {
      return Err(invalid.value);
    }
    if previousCount != NO_PREVIOUS_CHECKPOINT {
      invalid := ValidatePageCount(previousCount, isizeMax);
      if invalid.Some? {
        return Err(invalid.value);
      }
    }
    var previousEntries := if previousCount == NO_PREVIOUS_CHECKPOINT then 0 else previousCount;
    if |bytes| != HEADER_SIZE + (currentCount + previousEntries) * ENTRY_SIZE {
      return Err(LengthMismatch);
    }
    var current, offset := DecodeCheckpoint(bytes, HEADER_SIZE, currentCount, isizeMax);
    if current.Err? {
      return Err(current.error);
    }
    if previousCount == NO_PREVIOUS_CHECKPOINT {
      return Ok(Manifest(current.value, None));
    }
    var previous, _ := DecodeCheckpoint(bytes, offset, previousCount, isizeMax);
    if previous.Err? {
      return Err(previous.error);
    }
    return Ok(Manifest(current.value, Some(previous.value)));
  }

  // ----- The codec is a bijection

  // Entry `i` of an encoding sits at byte nine times `i`.
  lemma {:induction false} EntryAt(checkpoint: Checkpoint, count: nat, i: nat)
    requires count <= |checkpoint.slots| && count <= |checkpoint.hashes| && i < count
    ensures EncodeEntries(checkpoint, count)[ENTRY_SIZE * i] == checkpoint.slots[i]
    ensures EncodeEntries(checkpoint, count)[ENTRY_SIZE * i + 1..ENTRY_SIZE * i + 9] == ToLe(checkpoint.hashes[i], 8)
  {
    var bytes := EncodeEntries(checkpoint, count);
    var init := EncodeEntries(checkpoint, count - 1);
    assert bytes[..|init|] == init;
    if i < count - 1 {
      EntryAt(checkpoint, count - 1, i);
      assert bytes[ENTRY_SIZE * i] == init[ENTRY_SIZE * i];
      assert bytes[ENTRY_SIZE * i + 1..ENTRY_SIZE * i + 9] == init[ENTRY_SIZE * i + 1..ENTRY_SIZE * i + 9];
    }
  }

  lemma DecodeOfEntry(bytes: seq<byte>, offset: nat, checkpoint: Checkpoint, i: nat)
    requires |checkpoint.slots| == |checkpoint.hashes| && i < checkpoint.Pages()
    requires offset + ENTRY_SIZE * checkpoint.Pages() <= |bytes|
    requires bytes[offset..offset + ENTRY_SIZE * checkpoint.Pages()] == EncodeEntries(checkpoint, checkpoint.Pages())
    ensures bytes[offset + ENTRY_SIZE * i] == checkpoint.slots[i]
    ensures DecodeCount(bytes, offset + ENTRY_SIZE * i + 1) == checkpoint.hashes[i]
  {
    var n := checkpoint.Pages();
    var part := bytes[offset..offset + ENTRY_SIZE * n];
    var at := offset + ENTRY_SIZE * i;
    EntryAt(checkpoint, n, i);
    assert bytes[at] == part[ENTRY_SIZE * i];
    assert bytes[at + 1..at + 9] == ToLe(checkpoint.hashes[i], 8) by {
      SliceOfSlice(bytes, offset, offset + ENTRY_SIZE * n, ENTRY_SIZE * i + 1, ENTRY_SIZE * i + 9);
    }
    U64RoundTrip(checkpoint.hashes[i]);
  }

  lemma DecodedSlotsAndHashes(bytes: seq<byte>, offset: nat, checkpoint: Checkpoint)
    requires |checkpoint.slots| == |checkpoint.hashes|
    requires offset + ENTRY_SIZE * checkpoint.Pages() <= |bytes|
    requires bytes[offset..offset + ENTRY_SIZE * checkpoint.Pages()] == EncodeEntries(checkpoint, checkpoint.Pages())
    ensures DecodeSlots(bytes, offset, checkpoint.Pages()) == checkpoint.slots
    ensures DecodeHashes(bytes, offset, checkpoint.Pages()) == checkpoint.hashes
  {
    var n := checkpoint.Pages();
    forall i | 0 <= i < n
      ensures DecodeSlots(bytes, offset, n)[i] == checkpoint.slots[i]
      ensures DecodeHashes(bytes, offset, n)[i] == checkpoint.hashes[i]
    {
      DecodeOfEntry(bytes, offset, checkpoint, i);
    }
  }

  // Decoding where a valid checkpoint was encoded gives it back.
  lemma DecodeOfEntries(bytes: seq<byte>, offset: nat, checkpoint: Checkpoint, isizeMax: nat)
    requires ValidCheckpoint(checkpoint, isizeMax)
    requires offset + ENTRY_SIZE * checkpoint.Pages() <= |bytes|
    requires bytes[offset..offset + ENTRY_SIZE * checkpoint.Pages()] == EncodeEntries(checkpoint, checkpoint.Pages())
    ensures DecodeEntries(bytes, offset, checkpoint.Pages(), isizeMax) == Ok(checkpoint)
  {
    DecodedSlotsAndHashes(bytes, offset, checkpoint);
  }

  // The nine bytes of an entry are its slot and the encoding of its decoded hash.
  lemma EncodeOfEntry(bytes: seq<byte>, offset: nat, pages: nat, i: nat)
    requires offset + ENTRY_SIZE * pages <= |bytes| && i < pages
    ensures [DecodeSlots(bytes, offset, pages)[i]] + ToLe(DecodeHashes(bytes, offset, pages)[i], 8)
         == bytes[offset + ENTRY_SIZE * i..offset + ENTRY_SIZE * (i + 1)]
  {
    var at := offset + ENTRY_SIZE * i;
    assert DecodeHashes(bytes, offset, pages)[i] == DecodeCount(bytes, at + 1);
    ToFromLe(bytes[at + 1..at + 9]);
    SliceSplit(bytes, at, at + 1, at + 9);
  }

  /** The nine bytes of entry `i` of a checkpoint. */
  function EntryBytes(checkpoint: Checkpoint, i: nat): seq<byte>
    requires i < |checkpoint.slots| && i < |checkpoint.hashes|
  {
    [checkpoint.slots[i]] + ToLe(checkpoint.hashes[i], 8)
  }

  // Encoding a checkpoint whose entries are stored in a stretch of bytes gives those bytes.
  lemma {:induction false} EncodeOfEntries(bytes: seq<byte>, offset: nat, checkpoint: Checkpoint, count: nat)
    requires count <= |checkpoint.slots| && count <= |checkpoint.hashes|
    requires offset + ENTRY_SIZE * count <= |bytes|
    requires forall i: nat :: i < count ==>
      EntryBytes(checkpoint, i) == bytes[offset + ENTRY_SIZE * i..offset + ENTRY_SIZE * (i + 1)]
    ensures EncodeEntries(checkpoint, count) == bytes[offset..offset + ENTRY_SIZE * count]
  {
    if count > 0 {
      EncodeOfEntries(bytes, offset, checkpoint, count - 1);
      assert EntryBytes(checkpoint, count - 1) == bytes[offset + ENTRY_SIZE * (count - 1)..offset + ENTRY_SIZE * count];
      SliceSplit(bytes, offset, offset + ENTRY_SIZE * (count - 1), offset + ENTRY_SIZE * count);
      assert EncodeEntries(checkpoint, count) == EncodeEntries(checkpoint, count - 1) + EntryBytes(checkpoint, count - 1);
    }
  }

  lemma EncodeOfDecodedEntries(bytes: seq<byte>, offset: nat, checkpoint: Checkpoint)
    requires offset + ENTRY_SIZE * checkpoint.Pages() <= |bytes|
    requires checkpoint.slots == DecodeSlots(bytes, offset, checkpoint.Pages())
    requires checkpoint.hashes == DecodeHashes(bytes, offset, checkpoint.Pages())
    ensures EncodeEntries(checkpoint, checkpoint.Pages()) == bytes[offset..offset + ENTRY_SIZE * checkpoint.Pages()]
  {
    forall i: nat | i < checkpoint.Pages()
      ensures EntryBytes(checkpoint, i) == bytes[offset + ENTRY_SIZE * i..offset + ENTRY_SIZE * (i + 1)]
    {
      EncodeOfEntry(bytes, offset, checkpoint.Pages(), i);
    }
    EncodeOfEntries(bytes, offset, checkpoint, checkpoint.Pages());
  }

  /** The byte layout of the format, part by part. */
  ghost predicate Layout(bytes: seq<byte>, manifest: Manifest)
    requires |manifest.current.slots| == |manifest.current.hashes|
    requires manifest.previous.Some? ==> |manifest.previous.value.slots| == |manifest.previous.value.hashes|
  {
    var n := manifest.current.Pages();
    var split := HEADER_SIZE + ENTRY_SIZE * n;
    && |bytes| >= split
    && bytes[..8] == MAGIC
    && bytes[8..16] == ToLe(n, 8)
    && bytes[16..24] == ToLe(PreviousCount(manifest), 8)
    && bytes[HEADER_SIZE..split] == EncodeEntries(manifest.current, n)
    && bytes[split..] == if manifest.previous.None? then []
                         else EncodeEntries(manifest.previous.value, manifest.previous.value.Pages())
  }

  lemma EncodeHasLayout(manifest: Manifest, isizeMax: nat)
    requires ValidManifest(manifest, isizeMax)
    ensures Layout(Encode(manifest), manifest)
  {
    var bytes := Encode(manifest);
    var header, n := EncodeHeader(manifest), manifest.current.Pages();
    ConcatParts(header, EncodeEntries(manifest.current, n), EncodePrevious(manifest));
    ConcatParts(MAGIC, ToLe(n, 8), ToLe(PreviousCount(manifest), 8));
    SliceOfSlice(bytes, 0, HEADER_SIZE, 0, 8);
    SliceOfSlice(bytes, 0, HEADER_SIZE, 8, 16);
    SliceOfSlice(bytes, 0, HEADER_SIZE, 16, 24);
    assert header[16..24] == header[16..];
  }

  lemma LayoutIsUnique(a: seq<byte>, b: seq<byte>, manifest: Manifest, isizeMax: nat)
    requires ValidManifest(manifest, isizeMax) && Layout(a, manifest) && Layout(b, manifest)
    ensures a == b
  {
    var split := HEADER_SIZE + ENTRY_SIZE * manifest.current.Pages();
    Reassemble(a, split);
    Reassemble(b, split);
  }

  // A byte string is its header followed by its two stretches of entries.
  lemma Reassemble(bytes: seq<byte>, split: nat)
    requires HEADER_SIZE <= split <= |bytes|
    ensures bytes == bytes[..8] + bytes[8..16] + bytes[16..24] + bytes[24..split] + bytes[split..]
  {
  }

  lemma HeaderOfLayout(bytes: seq<byte>, manifest: Manifest, isizeMax: nat)
    requires ValidManifest(manifest, isizeMax) && Layout(bytes, manifest)
    ensures DecodeCount(bytes, 8) == manifest.current.Pages()
    ensures DecodeCount(bytes, 16) == PreviousCount(manifest)
  {
    U64RoundTrip(manifest.current.Pages());
    U64RoundTrip(PreviousCount(manifest));
  }

  lemma PreviousOfLayout(bytes: seq<byte>, manifest: Manifest, isizeMax: nat)
    requires ValidManifest(manifest, isizeMax) && Layout(bytes, manifest) && manifest.previous.Some?
    ensures var split := HEADER_SIZE + ENTRY_SIZE * manifest.current.Pages();
            var pages := manifest.previous.value.Pages();
            && |bytes| == split + ENTRY_SIZE * pages
            && DecodeEntries(bytes, split, pages, isizeMax) == Ok(manifest.previous.value)
  {
    var split := HEADER_SIZE + ENTRY_SIZE * manifest.current.Pages();
    assert bytes[split..split + ENTRY_SIZE * manifest.previous.value.Pages()] == bytes[split..];
    DecodeOfEntries(bytes, split, manifest.previous.value, isizeMax);
  }

  lemma BodyOfLayout(bytes: seq<byte>, manifest: Manifest, isizeMax: nat)
    requires ValidManifest(manifest, isizeMax) && Layout(bytes, manifest)
    ensures DecodeBody(bytes, manifest.current.Pages(), PreviousCount(manifest), isizeMax) == Ok(manifest)
  {
    DecodeOfEntries(bytes, HEADER_SIZE, manifest.current, isizeMax);
    if manifest.previous.Some? {
      PreviousOfLayout(bytes, manifest, isizeMax);
    }
  }

  lemma DecodeOfLayout(bytes: seq<byte>, manifest: Manifest, isizeMax: nat)
    requires ValidManifest(manifest, isizeMax) && Layout(bytes, manifest)
    ensures Decode(bytes, isizeMax) == Ok(manifest)
  {
    HeaderOfLayout(bytes, manifest, isizeMax);
    BodyOfLayout(bytes, manifest, isizeMax);
  }

  // What a successful decoding read from the bytes.
  lemma DecodedParts(bytes: seq<byte>, isizeMax: nat)
    requires Decode(bytes, isizeMax).Ok?
    ensures var manifest := Decode(bytes, isizeMax).value;
            var n := manifest.current.Pages();
            var split := HEADER_SIZE + ENTRY_SIZE * n;
            && ValidManifest(manifest, isizeMax)
            && |bytes| == split + (if manifest.previous.None? then 0 else ENTRY_SIZE * manifest.previous.value.Pages())
            && bytes[..8] == MAGIC
            && n == DecodeCount(bytes, 8)
            && PreviousCount(manifest) == DecodeCount(bytes, 16)
            && manifest.current == Checkpoint(DecodeSlots(bytes, HEADER_SIZE, n), DecodeHashes(bytes, HEADER_SIZE, n))
            && (manifest.previous.Some? ==>
                  var m := manifest.previous.value.Pages();
                  manifest.previous.value == Checkpoint(DecodeSlots(bytes, split, m), DecodeHashes(bytes, split, m)))
  {
  }

  lemma LayoutOfDecoded(bytes: seq<byte>, isizeMax: nat)
    requires Decode(bytes, isizeMax).Ok?
    ensures ValidManifest(Decode(bytes, isizeMax).value, isizeMax)
    ensures Layout(bytes, Decode(bytes, isizeMax).value)
  {
    var manifest := Decode(bytes, isizeMax).value;
    var n := manifest.current.Pages();
    var split := HEADER_SIZE + ENTRY_SIZE * n;
    DecodedParts(bytes, isizeMax);
    ToFromLe(bytes[8..16]);
    ToFromLe(bytes[16..24]);
    EncodeOfDecodedEntries(bytes, HEADER_SIZE, manifest.current);
    if manifest.previous.Some? {
      var m := manifest.previous.value.Pages();
      EncodeOfDecodedEntries(bytes, split, manifest.previous.value);
      assert bytes[split..split + ENTRY_SIZE * m] == bytes[split..];
    }
  }

  /** Decoding the encoding of a valid manifest returns it. */
  lemma DecodeOfEncode(manifest: Manifest, isizeMax: nat)
    requires ValidManifest(manifest, isizeMax)
    ensures Decode(Encode(manifest), isizeMax) == Ok(manifest)
  {
    EncodeHasLayout(manifest, isizeMax);
    DecodeOfLayout(Encode(manifest), manifest, isizeMax);
  }

  /** Any byte string that decodes is the encoding of a valid manifest, namely the decoded one. */
  lemma EncodeOfDecode(bytes: seq<byte>, isizeMax: nat)
    requires Decode(bytes, isizeMax).Ok?
    ensures ValidManifest(Decode(bytes, isizeMax).value, isizeMax)
    ensures Encode(Decode(bytes, isizeMax).value) == bytes
  {
    var manifest := Decode(bytes, isizeMax).value;
    LayoutOfDecoded(bytes, isizeMax);
    EncodeHasLayout(manifest, isizeMax);
    LayoutIsUnique(bytes, Encode(manifest), manifest, isizeMax);
  }

  /** The no-previous marker is never a page count that passes validation. */
  lemma MarkerIsNoPageCount(manifest: Manifest, isizeMax: nat)
    requires ValidManifest(manifest, isizeMax)
    ensures PreviousCount(manifest) == NO_PREVIOUS_CHECKPOINT <==> manifest.previous.None?
  {
  }

  /** For validated counts the length computations of the codec stay within `usize`. */
  lemma LengthNeverOverflows(current: nat, previous: nat, isizeMax: nat)
    requires PageCountOk(current, isizeMax) && PageCountOk(previous, isizeMax)
    requires isizeMax >= HEADER_SIZE
    ensures HEADER_SIZE + (current + previous) * ENTRY_SIZE <= 2 * isizeMax + 1
  {
  }
}
