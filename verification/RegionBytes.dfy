/** Region bytes: the header codec, the initial bytes of a region, and what a
    quiescent mapping holds. */
module RegionBytes {
  import opened Machine
  import opened Wire
  import opened Layout

  const REGION_MAGIC: Bytes8 := [0x4E, 0x49, 0x50, 0x43, 0x52, 0x45, 0x47, 0x00] // NIPCREG and a zero
  const VERSION_MAJOR: u16 := 1
  const VERSION_MINOR: u16 := 0

  // ----- header codec -----

  function PutIdentity(b: seq<byte>, h: RegionHeader): (r: seq<byte>)
    requires |b| >= 128
    ensures |r| == |b|
  {
    var b := Put(b, 0, REGION_MAGIC);
    var b := Put(b, 8, U16Bytes(VERSION_MAJOR));
    var b := Put(b, 10, U16Bytes(VERSION_MINOR));
    var b := Put(b, 12, U32Bytes(REGION_HEADER_SIZE));
    var b := Put(b, 16, U64Bytes(h.totalSize));
    var b := Put(b, 24, h.schemaId);
    var b := Put(b, 56, U64Bytes(h.generation));
    Put(b, 64, U32Bytes(h.role))
  }

  function PutSizes(b: seq<byte>, h: RegionHeader): (r: seq<byte>)
    requires |b| >= 128
    ensures |r| == |b|
  {
    var b := Put(b, 68, U32Bytes(h.writer));
    var b := Put(b, 72, U64Bytes(h.ackOffset));
    var b := Put(b, 80, U32Bytes(h.ackCount));
    var b := Put(b, 84, U32Bytes(h.ackStride));
    var b := Put(b, 88, U64Bytes(h.slotsOffset));
    var b := Put(b, 96, U32Bytes(h.slotCount));
    var b := Put(b, 100, U32Bytes(h.slotStride));
    Put(b, 104, U32Bytes(h.payloadCapacity))
  }

  function PutReserved(b: seq<byte>): (r: seq<byte>)
    requires |b| >= 128
    ensures |r| == |b|
  {
    Put(Put(b, 108, U32Bytes(0)), 112, Zeros(16))
  }

  function PutHeader(b: seq<byte>, h: RegionHeader): (r: seq<byte>)
    requires |b| >= 128
    ensures |r| == |b|
  {
    PutReserved(PutSizes(PutIdentity(b, h), h))
  }

  ghost predicate IdentityAt(b: seq<byte>, h: RegionHeader) {
    && At(b, 0, REGION_MAGIC) && At(b, 8, U16Bytes(VERSION_MAJOR)) && At(b, 10, U16Bytes(VERSION_MINOR))
    && At(b, 12, U32Bytes(REGION_HEADER_SIZE)) && At(b, 16, U64Bytes(h.totalSize)) && At(b, 24, h.schemaId)
    && At(b, 56, U64Bytes(h.generation)) && At(b, 64, U32Bytes(h.role))
  }

  ghost predicate SizesAt(b: seq<byte>, h: RegionHeader) {
    && At(b, 68, U32Bytes(h.writer)) && At(b, 72, U64Bytes(h.ackOffset)) && At(b, 80, U32Bytes(h.ackCount))
    && At(b, 84, U32Bytes(h.ackStride)) && At(b, 88, U64Bytes(h.slotsOffset)) && At(b, 96, U32Bytes(h.slotCount))
    && At(b, 100, U32Bytes(h.slotStride)) && At(b, 104, U32Bytes(h.payloadCapacity))
  }

  /** The 128 header bytes, field by field; the reserved tail is zero. */
  ghost predicate HeaderAt(b: seq<byte>, h: RegionHeader) {
    IdentityAt(b, h) && SizesAt(b, h) && ZeroRange(b, 108, 128)
  }

  lemma PutIdentityAt(b: seq<byte>, h: RegionHeader)
    requires |b| >= 128
    ensures IdentityAt(PutIdentity(b, h), h)
  {
  }

  lemma PutSizesAt(b: seq<byte>, h: RegionHeader)
    requires |b| >= 128 && IdentityAt(b, h)
    ensures IdentityAt(PutSizes(b, h), h) && SizesAt(PutSizes(b, h), h)
  {
  }

  lemma PutReservedAt(b: seq<byte>, h: RegionHeader)
    requires |b| >= 128 && IdentityAt(b, h) && SizesAt(b, h)
    ensures HeaderAt(PutReserved(b), h)
  {
    var r := PutReserved(b);
    ZeroWord();
    AtZeros(r, 108, 4);
    AtZeros(r, 112, 16);
  }

  /** The header encoder writes every field, whatever the buffer held. */
  lemma PutHeaderAt(b: seq<byte>, h: RegionHeader)
    requires |b| >= 128
    ensures HeaderAt(PutHeader(b, h), h)
  {
    PutIdentityAt(b, h);
    PutSizesAt(PutIdentity(b, h), h);
    PutReservedAt(PutSizes(PutIdentity(b, h), h), h);
  }

  function DecodeHeader(b: seq<byte>): RegionHeader
    requires |b| >= 128
  {
    RegionHeader(GetU64(b, 16), b[24..56], GetU64(b, 56), GetU32(b, 64), GetU32(b, 68), GetU64(b, 72), GetU32(b, 80),
                 GetU32(b, 84), GetU64(b, 88), GetU32(b, 96), GetU32(b, 100), GetU32(b, 104))
  }

  function EncodingFault(b: seq<byte>): Option<LayoutError>
    requires |b| >= 128
  {
    if b[0..8] != REGION_MAGIC then Some(BadMagic)
    else if GetU16(b, 8) != VERSION_MAJOR || GetU16(b, 10) != VERSION_MINOR
    then Some(BadVersion(GetU16(b, 8), GetU16(b, 10)))
    else if GetU32(b, 12) != REGION_HEADER_SIZE then Some(BadHeaderSize(GetU32(b, 12)))
    else if GetU32(b, 108) != 0 || !ZeroRange(b, 112, 128) then Some(ReservedFieldSet)
    else None
  }

  /** A header block is refused for the field the reason names. */
  lemma EncodingErrorIsTrue(b: seq<byte>)
    requires |b| >= 128 && EncodingFault(b).Some?
    ensures match EncodingFault(b).value
            case BadMagic => b[0..8] != REGION_MAGIC
            case BadVersion(major, minor) =>
              major == GetU16(b, 8) && minor == GetU16(b, 10) && (major != VERSION_MAJOR || minor != VERSION_MINOR)
            case BadHeaderSize(size) => size == GetU32(b, 12) && size != 128
            case ReservedFieldSet => GetU32(b, 108) != 0 || !ZeroRange(b, 112, 128)
            case _ => false
  {
  }

  lemma HeaderReads(b: seq<byte>, h: RegionHeader)
    requires |b| >= 128 && HeaderAt(b, h)
    ensures DecodeHeader(b) == h && EncodingFault(b) == None
  {
    assert b[108..112] == U32Bytes(0) by {
      ZeroWord();
    }
  }

  lemma ReadsHeader(b: seq<byte>)
    requires |b| >= 128 && EncodingFault(b) == None
    ensures HeaderAt(b, DecodeHeader(b))
  {
    ZeroWord();
    AtZeros(b, 108, 4);
  }

  /** Canonical bytes and the decoded header determine each other. */
  lemma DecodesExactly(b: seq<byte>, h: RegionHeader)
    requires |b| >= 128
    ensures HeaderAt(b, h) <==> EncodingFault(b) == None && DecodeHeader(b) == h
  {
    if HeaderAt(b, h) {
      HeaderReads(b, h);
    }
    if EncodingFault(b) == None {
      ReadsHeader(b);
    }
  }

  lemma SameIdentity(a: seq<byte>, b: seq<byte>, h: RegionHeader)
    requires IdentityAt(a, h) && IdentityAt(b, h)
    ensures |a| >= 68 && |b| >= 68 && forall i :: 0 <= i < 68 ==> a[i] == b[i]
  {
    SameAt(a, b, 0, REGION_MAGIC);
    SameAt(a, b, 8, U16Bytes(VERSION_MAJOR));
    SameAt(a, b, 10, U16Bytes(VERSION_MINOR));
    SameAt(a, b, 12, U32Bytes(REGION_HEADER_SIZE));
    SameAt(a, b, 16, U64Bytes(h.totalSize));
    SameAt(a, b, 24, h.schemaId);
    SameAt(a, b, 56, U64Bytes(h.generation));
    SameAt(a, b, 64, U32Bytes(h.role));
  }

  lemma SameSizes(a: seq<byte>, b: seq<byte>, h: RegionHeader)
    requires SizesAt(a, h) && SizesAt(b, h)
    ensures |a| >= 108 && |b| >= 108 && forall i :: 68 <= i < 108 ==> a[i] == b[i]
  {
    SameAt(a, b, 68, U32Bytes(h.writer));
    SameAt(a, b, 72, U64Bytes(h.ackOffset));
    SameAt(a, b, 80, U32Bytes(h.ackCount));
    SameAt(a, b, 84, U32Bytes(h.ackStride));
    SameAt(a, b, 88, U64Bytes(h.slotsOffset));
    SameAt(a, b, 96, U32Bytes(h.slotCount));
    SameAt(a, b, 100, U32Bytes(h.slotStride));
    SameAt(a, b, 104, U32Bytes(h.payloadCapacity));
  }

  lemma SameHeader(a: seq<byte>, b: seq<byte>, h: RegionHeader)
    requires HeaderAt(a, h)
    ensures HeaderAt(b, h) <==> |b| >= 128 && forall i :: 0 <= i < 128 ==> a[i] == b[i]
  {
    if HeaderAt(b, h) {
      SameIdentity(a, b, h);
      SameSizes(a, b, h);
    }
    if |b| >= 128 && forall i :: 0 <= i < 128 ==> a[i] == b[i] {
      HeaderCopies(a, b, h);
    }
  }

  lemma CopiedAt(a: seq<byte>, b: seq<byte>, offset: nat, s: seq<byte>)
    requires At(a, offset, s) && offset + |s| <= |b| && forall i :: offset <= i < offset + |s| ==> a[i] == b[i]
    ensures At(b, offset, s)
  {
    assert b[offset..offset + |s|] == a[offset..offset + |s|];
  }

  lemma HeaderCopies(a: seq<byte>, b: seq<byte>, h: RegionHeader)
    requires HeaderAt(a, h) && |b| >= 128 && forall i :: 0 <= i < 128 ==> a[i] == b[i]
    ensures HeaderAt(b, h)
  {
    assert a[..128] == b[..128];
    HeaderReads(a, h);
    SameReads(a, b);
    DecodesExactly(b, h);
  }

  lemma SameReads(a: seq<byte>, b: seq<byte>)
    requires |a| >= 128 && |b| >= 128 && a[..128] == b[..128]
    ensures DecodeHeader(a) == DecodeHeader(b) && EncodingFault(a) == EncodingFault(b)
  {
    forall i | 0 <= i < 128 ensures a[i] == b[i] {
      assert a[i] == a[..128][i] && b[i] == b[..128][i];
    }
    forall lo: nat, hi: nat | lo <= hi <= 128 ensures a[lo..hi] == b[lo..hi] {
      SameSlice(a, b, lo, hi);
    }
  }

  lemma SameSlice(a: seq<byte>, b: seq<byte>, lo: nat, hi: nat)
    requires lo <= hi <= |a| && hi <= |b| && forall i :: lo <= i < hi ==> a[i] == b[i]
    ensures a[lo..hi] == b[lo..hi]
  {
  }

  /** The header as one block of bytes. */
  function HeaderBytes(h: RegionHeader): (r: seq<byte>)
    ensures |r| == 128
  {
    PutHeader(Zeros(128), h)
  }

  lemma BlockIsHeader(b: seq<byte>, hb: seq<byte>, h: RegionHeader)
    requires |hb| == 128 && HeaderAt(hb, h)
    ensures At(b, 0, hb) <==> HeaderAt(b, h)
  {
    SameHeader(hb, b, h);
    if At(b, 0, hb) {
      forall i | 0 <= i < 128 ensures hb[i] == b[i] {
        assert b[i] == b[0..128][i];
      }
    }
    if HeaderAt(b, h) {
      CopiedAt(hb, b, 0, hb);
    }
  }

  /** The block stands at the front exactly when it decodes to this header. */
  lemma HeaderIsCanonical(b: seq<byte>, h: RegionHeader)
    ensures At(b, 0, HeaderBytes(h)) <==> |b| >= 128 && EncodingFault(b) == None && DecodeHeader(b) == h
  {
    PutHeaderAt(Zeros(128), h);
    BlockIsHeader(b, HeaderBytes(h), h);
    if |b| >= 128 {
      DecodesExactly(b, h);
    }
  }

  // ----- a quiescent region -----

  /** Slot metadata before publication: the generation, then zeros. */
  ghost predicate SlotReady(b: seq<byte>, start: nat, generation: seq<byte>) {
    At(b, start, generation) && ZeroRange(b, start + 8, start + 64)
  }

  /** Header block `hb`, zero cells, and the first `n` slots' metadata. */
  ghost predicate ReadyPart(h: RegionHeader, b: seq<byte>, hb: seq<byte>, generation: seq<byte>, n: nat) {
    && h.totalSize <= |b| && At(b, 0, hb) && ZeroRange(b, 128, h.slotsOffset)
    && forall slot: u32 :: slot < n ==> SlotReady(b, SlotStart(h, slot), generation)
  }

  /** Header, zero cells, fresh slot metadata, and zeros past the region. */
  ghost predicate Quiescent(h: RegionHeader, b: seq<byte>) {
    ReadyPart(h, b, HeaderBytes(h), U64Bytes(h.generation), h.slotCount) && ZeroRange(b, h.totalSize, |b|)
  }

  function PutSlots(h: RegionHeader, b: seq<byte>, generation: seq<byte>, n: nat): (r: seq<byte>)
    requires Sized(h) && h.totalSize <= |b| && n <= h.slotCount && |generation| == 8
    ensures |r| == |b|
  {
    if n == 0 then b
    else
      SlotStartBounds(h, n - 1);
      Put(PutSlots(h, b, generation, n - 1), SlotStart(h, n - 1), generation)
  }

  lemma HeaderFits(h: RegionHeader)
    requires Sized(h)
    ensures 128 <= h.slotsOffset && h.slotsOffset + 64 <= h.totalSize
  {
    SlotStartBounds(h, 0);
  }

  /** What `encode_into` leaves in the first `total_size` bytes. */
  function Initial(h: RegionHeader): (r: seq<byte>)
    requires Sized(h)
    ensures |r| == h.totalSize
  {
    HeaderFits(h);
    PutSlots(h, Put(Zeros(h.totalSize), 0, HeaderBytes(h)), U64Bytes(h.generation), h.slotCount)
  }

  /** The bytes from slot `n` on, up to the end of the region. */
  function From(h: RegionHeader, n: nat): nat
    requires n <= h.slotCount
  {
    if n < h.slotCount then SlotStart(h, n) else h.totalSize
  }

  lemma SlotAfter(h: RegionHeader, slot: nat)
    requires Sized(h) && slot < h.slotCount
    ensures From(h, slot + 1) == SlotStart(h, slot) + h.slotStride
  {
    assert (slot + 1) * h.slotStride == slot * h.slotStride + h.slotStride;
  }

  lemma SlotBefore(h: RegionHeader, k: nat, slot: nat)
    requires Sized(h) && k < slot < h.slotCount
    ensures SlotStart(h, k) + h.slotStride <= SlotStart(h, slot)
  {
    TimesLess(k, slot, h.slotStride);
  }

  lemma PutKeepsReady(b: seq<byte>, start: nat, generation: seq<byte>, at: nat)
    requires |generation| == 8 && at + 8 <= |b| && start + 64 <= at && SlotReady(b, start, generation)
    ensures SlotReady(Put(b, at, generation), start, generation)
  {
  }

  lemma OneMoreSlot(h: RegionHeader, r: seq<byte>, hb: seq<byte>, generation: seq<byte>, n: u32)
    requires Sized(h) && n < h.slotCount && |hb| == 128 && |generation| == 8
    requires ReadyPart(h, r, hb, generation, n) && ZeroRange(r, From(h, n), h.totalSize)
    ensures SlotStart(h, n) + 64 <= |r|
    ensures var t := Put(r, SlotStart(h, n), generation);
            ReadyPart(h, t, hb, generation, n + 1) && ZeroRange(t, From(h, n + 1), h.totalSize)
  {
    SlotStartBounds(h, n);
    SlotAfter(h, n);
    var start := SlotStart(h, n);
    var t := Put(r, start, generation);
    assert ZeroRange(r, start + 8, start + 64) && ZeroRange(r, From(h, n + 1), h.totalSize);
    forall slot: u32 | slot < n + 1 ensures SlotReady(t, SlotStart(h, slot), generation) {
      if slot < n {
        SlotBefore(h, slot, n);
        PutKeepsReady(r, SlotStart(h, slot), generation, start);
      }
    }
  }

  lemma {:induction false} PutSlotsReady(h: RegionHeader, b: seq<byte>, hb: seq<byte>, generation: seq<byte>, n: nat)
    requires Sized(h) && n <= h.slotCount && |hb| == 128 && |generation| == 8
    requires ReadyPart(h, b, hb, generation, 0) && ZeroRange(b, From(h, 0), h.totalSize)
    ensures ReadyPart(h, PutSlots(h, b, generation, n), hb, generation, n)
    ensures ZeroRange(PutSlots(h, b, generation, n), From(h, n), h.totalSize)
  {
    if n > 0 {
      PutSlotsReady(h, b, hb, generation, n - 1);
      OneMoreSlot(h, PutSlots(h, b, generation, n - 1), hb, generation, n - 1);
    }
  }

  lemma InitialIsReady(h: RegionHeader)
    requires Sized(h)
    ensures ReadyPart(h, Initial(h), HeaderBytes(h), U64Bytes(h.generation), h.slotCount)
  {
    HeaderFits(h);
    FrontIsReady(h, HeaderBytes(h), U64Bytes(h.generation));
    PutSlotsReady(h, Put(Zeros(h.totalSize), 0, HeaderBytes(h)), HeaderBytes(h), U64Bytes(h.generation), h.slotCount);
  }

  lemma FrontIsReady(h: RegionHeader, hb: seq<byte>, generation: seq<byte>)
    requires Sized(h) && |hb| == 128 && 128 <= h.totalSize
    ensures var b := Put(Zeros(h.totalSize), 0, hb);
            ReadyPart(h, b, hb, generation, 0) && ZeroRange(b, From(h, 0), h.totalSize)
  {
    HeaderFits(h);
    var z := Zeros(h.totalSize);
    assert SlotStart(h, 0) == h.slotsOffset;
    assert ZeroRange(z, 128, h.slotsOffset) && ZeroRange(z, From(h, 0), h.totalSize);
  }

  // ----- which bytes are compared -----

  /** Past a slot's 64 metadata bytes: its payload and stride padding. */
  ghost predicate InPayload(h: RegionHeader, i: nat) {
    exists slot: u32 :: slot < h.slotCount && SlotStart(h, slot) + 64 <= i < SlotStart(h, slot) + h.slotStride
  }

  ghost predicate AgreesOutsidePayload(h: RegionHeader, a: seq<byte>, b: seq<byte>) {
    && h.totalSize <= |a| && h.totalSize <= |b|
    && forall i :: 0 <= i < h.totalSize && !InPayload(h, i) ==> a[i] == b[i]
  }

  lemma ReadyAgrees(h: RegionHeader, a: seq<byte>, b: seq<byte>, hb: seq<byte>, generation: seq<byte>, i: nat)
    requires Sized(h) && |hb| == 128 && |generation| == 8 && i < h.totalSize && !InPayload(h, i)
    requires ReadyPart(h, a, hb, generation, h.slotCount) && ReadyPart(h, b, hb, generation, h.slotCount)
    ensures a[i] == b[i]
  {
    if i < 128 {
      SameAt(a, b, 0, hb);
    } else if i >= h.slotsOffset {
      QuotientSlot(h, i);
      var slot: u32 := (i - h.slotsOffset) / h.slotStride;
      assert SlotReady(a, SlotStart(h, slot), generation) && SlotReady(b, SlotStart(h, slot), generation);
      SlotAgrees(a, b, SlotStart(h, slot), generation);
    }
  }

  lemma SlotAgrees(a: seq<byte>, b: seq<byte>, start: nat, generation: seq<byte>)
    requires |generation| == 8 && SlotReady(a, start, generation) && SlotReady(b, start, generation)
    ensures forall i :: start <= i < start + 64 ==> a[i] == b[i]
  {
    SameAt(a, b, start, generation);
  }

  lemma MetadataIsNotPayload(h: RegionHeader, slot: u32, i: nat)
    requires Sized(h) && slot < h.slotCount && SlotStart(h, slot) <= i < SlotStart(h, slot) + 64
    ensures !InPayload(h, i)
  {
    if InPayload(h, i) {
      var other: u32 :| other < h.slotCount && SlotStart(h, other) + 64 <= i < SlotStart(h, other) + h.slotStride;
      SlotsAreDisjoint(h, slot, other, i);
    }
  }

  lemma AgreeingSlot(h: RegionHeader, a: seq<byte>, b: seq<byte>, generation: seq<byte>, slot: u32)
    requires Sized(h) && slot < h.slotCount && |generation| == 8
    requires SlotReady(a, SlotStart(h, slot), generation) && AgreesOutsidePayload(h, a, b)
    ensures SlotReady(b, SlotStart(h, slot), generation)
  {
    SlotStartBounds(h, slot);
    forall i | SlotStart(h, slot) <= i < SlotStart(h, slot) + 64 ensures a[i] == b[i] {
      MetadataIsNotPayload(h, slot, i);
    }
    CopiedAt(a, b, SlotStart(h, slot), generation);
  }

  lemma AgreeingIsReady(h: RegionHeader, a: seq<byte>, b: seq<byte>, hb: seq<byte>, generation: seq<byte>)
    requires Sized(h) && |hb| == 128 && |generation| == 8
    requires ReadyPart(h, a, hb, generation, h.slotCount) && AgreesOutsidePayload(h, a, b)
    ensures ReadyPart(h, b, hb, generation, h.slotCount)
  {
    HeaderFits(h);
    forall i | 0 <= i < h.slotsOffset ensures a[i] == b[i] {
      assert !InPayload(h, i);
    }
    CopiedAt(a, b, 0, hb);
    forall slot: u32 | slot < h.slotCount ensures SlotReady(b, SlotStart(h, slot), generation) {
      AgreeingSlot(h, a, b, generation, slot);
    }
  }

  /** A mapping is quiescent exactly when it equals the encoder's output on
      every byte outside the payload areas and is zero past the region. */
  lemma QuiescentExactly(h: RegionHeader, b: seq<byte>)
    requires Sized(h)
    ensures Quiescent(h, b) <==> AgreesOutsidePayload(h, Initial(h), b) && ZeroRange(b, h.totalSize, |b|)
  {
    InitialIsReady(h);
    var hb, generation := HeaderBytes(h), U64Bytes(h.generation);
    if ReadyPart(h, b, hb, generation, h.slotCount) {
      forall i | 0 <= i < h.totalSize && !InPayload(h, i) ensures Initial(h)[i] == b[i] {
        ReadyAgrees(h, Initial(h), b, hb, generation, i);
      }
    }
    if AgreesOutsidePayload(h, Initial(h), b) {
      AgreeingIsReady(h, Initial(h), b, hb, generation);
    }
  }
}
