/** Initialising a mapping in place and validating a quiescent one. */
module RegionValidation {
  import opened Machine
  import opened Wire
  import opened Layout
  import opened Routes
  import opened RegionBytes

  datatype Expectations = Expectations(
    schemaId: Bytes32, generation: u64, role: RoleId, writer: Endpoint, maxMapping: u64)

  function HeaderFault(h: RegionHeader, mappedLen: nat, e: Expectations): Option<LayoutError> {
    if h.schemaId != e.schemaId then Some(SchemaMismatch)
    else if h.generation != e.generation then Some(StaleGeneration(e.generation, h.generation))
    else if h.role != e.role then Some(UnexpectedRole(e.role, h.role))
    else if h.writer != WriterWord(e.writer) then Some(UnexpectedWriter)
    else if mappedLen > e.maxMapping || h.totalSize > mappedLen || h.totalSize > e.maxMapping then Some(BadTotalSize)
    else if h.ackOffset != REGION_HEADER_SIZE || h.ackStride != ACKNOWLEDGEMENT_CELL_SIZE
    then Some(BadAcknowledgementLayout)
    else match AlignUp(REGION_HEADER_SIZE + h.ackCount * ACKNOWLEDGEMENT_CELL_SIZE)
      case Err(error) => Some(error)
      case Ok(expectedOffset) =>
        if h.slotsOffset != expectedOffset || h.slotsOffset % CACHE_LINE != 0 then Some(BadSlotLayout)
        else if h.slotCount == 0 || h.payloadCapacity == 0 then Some(EmptySlots)
        else None
  }

  predicate Matches(h: RegionHeader, mappedLen: nat, e: Expectations) {
    && h.schemaId == e.schemaId && h.generation == e.generation && h.role == e.role
    && h.writer == WriterWord(e.writer) && h.totalSize <= mappedLen <= e.maxMapping
  }

  /** On a calculated header only the identity and size checks can fail. */
  lemma CalculatedHeaderPasses(h: RegionHeader, mappedLen: nat, e: Expectations)
    requires Sized(h)
    ensures HeaderFault(h, mappedLen, e) == None <==> Matches(h, mappedLen, e)
  {
    OffsetIsAligned(h.ackCount);
  }

  /** What each refusal of a header says of it. */
  predicate HeaderErrorHolds(error: LayoutError, h: RegionHeader, mappedLen: nat, e: Expectations) {
    match error
    case SchemaMismatch => h.schemaId != e.schemaId
    case StaleGeneration(expected, actual) => expected == e.generation && actual == h.generation && expected != actual
    case UnexpectedRole(expected, actual) => expected == e.role && actual == h.role && expected != actual
    case UnexpectedWriter => h.writer != if e.writer == Initiator then 1 else 2
    case BadTotalSize => mappedLen > e.maxMapping || h.totalSize > mappedLen || h.totalSize > e.maxMapping
    case BadAcknowledgementLayout => h.ackOffset != 128 || h.ackStride != 64
    case BadSlotLayout => h.slotsOffset != 128 + 64 * h.ackCount
    case EmptySlots => h.slotCount == 0 || h.payloadCapacity == 0
    case _ => false
  }

  /** A header is refused exactly when one of its fields is wrong, and the reason names such a field. */
  lemma HeaderRefusedExactly(h: RegionHeader, mappedLen: nat, e: Expectations)
    ensures HeaderFault(h, mappedLen, e) == None <==>
            && h.schemaId == e.schemaId && h.generation == e.generation && h.role == e.role
            && h.writer == (if e.writer == Initiator then 1 else 2)
            && mappedLen <= e.maxMapping && h.totalSize <= mappedLen
            && h.ackOffset == 128 && h.ackStride == 64 && h.slotsOffset == 128 + 64 * h.ackCount
            && h.slotCount != 0 && h.payloadCapacity != 0
    ensures HeaderFault(h, mappedLen, e).Some? ==>
              HeaderErrorHolds(HeaderFault(h, mappedLen, e).value, h, mappedLen, e)
  {
    OffsetIsAligned(h.ackCount);
  }

  /** What a mapping must be to belong to the region set under these expectations. */
  ghost predicate Acceptable(bytes: seq<byte>, e: Expectations, regions: seq<RegionHeader>) {
    && e.generation != 0
    && match Find(regions, e.role)
       case None => false
       case Some(h) =>
         && h.schemaId == e.schemaId && h.generation == e.generation
         && h.writer == (if e.writer == Initiator then 1 else 2) && h.totalSize <= |bytes| <= e.maxMapping
         && Quiescent(h, bytes)
  }

  method AllZero(bytes: seq<byte>, lo: nat, hi: nat) returns (zero: bool)
    requires lo <= hi <= |bytes|
    ensures zero <==> ZeroRange(bytes, lo, hi)
  {
    for i := lo to hi
      invariant ZeroRange(bytes, lo, i)
    {
      if bytes[i] != 0 {
        return false;
      }
    }
    return true;
  }

  lemma GenerationReads(b: seq<byte>, start: nat, generation: u64)
    requires start + 8 <= |b|
    ensures GetU64(b, start) == generation <==> At(b, start, U64Bytes(generation))
  {
  }

  method SlotsReady(h: RegionHeader, bytes: seq<byte>) returns (ready: bool)
    requires Sized(h) && h.totalSize <= |bytes|
    ensures ready <==>
              forall slot: u32 :: slot < h.slotCount ==> SlotReady(bytes, SlotStart(h, slot), U64Bytes(h.generation))
  {
    var slot: u32 := 0;
    while slot < h.slotCount
      invariant slot <= h.slotCount
      invariant forall k: u32 :: k < slot ==> SlotReady(bytes, SlotStart(h, k), U64Bytes(h.generation))
    {
      var start := SlotStart(h, slot);
      SlotStartBounds(h, slot);
      GenerationReads(bytes, start, h.generation);
      var cleared := AllZero(bytes, start + 8, start + 64);
      if GetU64(bytes, start) != h.generation || !cleared {
        return false;
      }
      slot := slot + 1;
    }
    return true;
  }

  lemma QuiescentParts(h: RegionHeader, bytes: seq<byte>)
    requires Sized(h)
    ensures Quiescent(h, bytes) <==>
              && 128 <= h.totalSize <= |bytes| && EncodingFault(bytes) == None && DecodeHeader(bytes) == h
              && ZeroRange(bytes, 128, h.slotsOffset) && ZeroRange(bytes, h.totalSize, |bytes|)
              && (forall slot: u32 ::
                    slot < h.slotCount ==> SlotReady(bytes, SlotStart(h, slot), U64Bytes(h.generation)))
  {
    HeaderIsCanonical(bytes, h);
    HeaderFits(h);
  }

  /** What is wrong behind a matching header: cells are looked at first, then what follows the region, then slots. */
  function BodyFault(h: RegionHeader, bytes: seq<byte>): LayoutError
    requires h.ackOffset <= h.slotsOffset <= |bytes| && h.totalSize <= |bytes|
  {
    if !ZeroRange(bytes, h.ackOffset, h.slotsOffset) then AcknowledgementNotZero
    else if !ZeroRange(bytes, h.totalSize, |bytes|) then CapabilityPaddingNotZero
    else SlotMetadataNotInitialized
  }

  /** Why a mapping is refused, in the order the code looks. */
  ghost predicate ValidationFault(bytes: seq<byte>, e: Expectations, regions: seq<RegionHeader>, error: LayoutError) {
    if e.generation == 0 then error == ZeroGeneration
    else if |bytes| < 128 then error == MappingTooSmall(REGION_HEADER_SIZE, |bytes|)
    else if EncodingFault(bytes).Some? then EncodingFault(bytes) == Some(error)
    else
      var h := DecodeHeader(bytes);
      if HeaderFault(h, |bytes|, e).Some? then HeaderFault(h, |bytes|, e) == Some(error)
      else if Find(regions, e.role) != Some(h) then error == TopologyMismatch
      else h.ackOffset <= h.slotsOffset <= |bytes| && h.totalSize <= |bytes| && error == BodyFault(h, bytes)
  }

  /** The tail of `validate`, once the header is known to be the topology's own. */
  method ValidateBody(h: RegionHeader, bytes: seq<byte>) returns (fault: Option<LayoutError>)
    requires Sized(h) && h.totalSize <= |bytes| && EncodingFault(bytes) == None && DecodeHeader(bytes) == h
    requires |bytes| >= 128
    ensures fault.None? <==> Quiescent(h, bytes)
    ensures fault.Some? ==> fault.value == BodyFault(h, bytes)
    ensures fault == Some(AcknowledgementNotZero) <==> !ZeroRange(bytes, 128, h.slotsOffset)
    ensures fault == Some(CapabilityPaddingNotZero) <==>
              ZeroRange(bytes, 128, h.slotsOffset) && !ZeroRange(bytes, h.totalSize, |bytes|)
    ensures fault.Some? && fault.value != AcknowledgementNotZero && fault.value != CapabilityPaddingNotZero ==>
              fault.value == SlotMetadataNotInitialized
  {
    HeaderFits(h);
    QuiescentParts(h, bytes);
    var cells := AllZero(bytes, h.ackOffset, h.slotsOffset);
    if !cells {
      return Some(AcknowledgementNotZero);
    }
    var padding := AllZero(bytes, h.totalSize, |bytes|);
    if !padding {
      return Some(CapabilityPaddingNotZero);
    }
    var slots := SlotsReady(h, bytes);
    if !slots {
      return Some(SlotMetadataNotInitialized);
    }
    return None;
  }

  /** The stride and total-size comparisons repeated by `validate` hold of
      every calculated header. */
  lemma RepeatedChecksHold(h: RegionHeader)
    requires Sized(h)
    ensures AlignUp(SLOT_HEADER_SIZE + h.payloadCapacity) == Ok(h.slotStride)
    ensures h.slotsOffset + SlotsLen(h.slotCount, h.slotStride) == h.totalSize
    ensures h.ackOffset + h.ackCount * h.ackStride == h.slotsOffset <= h.totalSize
  {
    HeaderFits(h);
    StrideIsAligned(h.payloadCapacity);
    AlignedIsUnique(h.slotStride, Stride(h.payloadCapacity), 64 + h.payloadCapacity);
  }

  lemma AlignedIsUnique(a: nat, b: nat, low: nat)
    requires a % 64 == 0 && b % 64 == 0 && low <= a < low + 64 && low <= b < low + 64
    ensures a == b
  {
  }

  /** The bytes carry the header of the region the expectations name. */
  ghost predicate HeaderMatches(bytes: seq<byte>, e: Expectations, regions: seq<RegionHeader>, h: RegionHeader) {
    && e.generation != 0 && |bytes| >= 128 && EncodingFault(bytes) == None && DecodeHeader(bytes) == h
    && HeaderFault(h, |bytes|, e) == None && Find(regions, e.role) == Some(h)
  }

  /** A mapping is acceptable exactly when its header matches and the rest of it is quiescent. */
  lemma AcceptableParts(bytes: seq<byte>, e: Expectations, regions: seq<RegionHeader>)
    requires forall i :: 0 <= i < |regions| ==> Sized(regions[i])
    ensures Acceptable(bytes, e, regions)
       <==> exists h :: HeaderMatches(bytes, e, regions, h) && Quiescent(h, bytes)
  {
    match Find(regions, e.role)
    case None =>
    case Some(h) =>
      CalculatedHeaderPasses(h, |bytes|, e);
      QuiescentParts(h, bytes);
      if Acceptable(bytes, e, regions) {
        assert HeaderMatches(bytes, e, regions, h);
      }
  }

  /** The head of `validate`, up to the comparison with the topology. */
  method MatchHeader(bytes: seq<byte>, e: Expectations, regions: seq<RegionHeader>)
    returns (r: Result<RegionHeader, LayoutError>)
    ensures r.Ok? ==> HeaderMatches(bytes, e, regions, r.value)
    ensures r.Err? ==> ValidationFault(bytes, e, regions, r.error) && forall h :: !HeaderMatches(bytes, e, regions, h)
  {
    if e.generation == 0 {
      return Err(ZeroGeneration);
    }
    if |bytes| < 128 {
      return Err(MappingTooSmall(REGION_HEADER_SIZE, |bytes|));
    }
    var encoding := EncodingFault(bytes);
    if encoding.Some? {
      return Err(encoding.value);
    }
    var h := DecodeHeader(bytes);
    var fault := HeaderFault(h, |bytes|, e);
    if fault.Some? {
      return Err(fault.value);
    }
    if Find(regions, e.role) != Some(h) {
      return Err(TopologyMismatch);
    }
    return Ok(h);
  }

  /** `validate` accepts exactly the mappings of the named region, and otherwise
      reports the first thing wrong. */
  method ValidateRegion(bytes: seq<byte>, e: Expectations, regions: seq<RegionHeader>)
    returns (r: Result<RegionHeader, LayoutError>)
    requires forall i :: 0 <= i < |regions| ==> Sized(regions[i])
    ensures r.Ok? <==> Acceptable(bytes, e, regions)
    ensures r.Ok? ==> Find(regions, e.role) == Some(r.value)
    ensures r.Err? ==> ValidationFault(bytes, e, regions, r.error)
  {
    AcceptableParts(bytes, e, regions);
    var matched := MatchHeader(bytes, e, regions);
    if matched.Err? {
      return Err(matched.error);
    }
    var h := matched.value;
    MatchedIsSized(bytes, e, regions, h);
    RepeatedChecksHold(h);
    var body := ValidateBody(h, bytes);
    if body.Some? {
      return Err(body.value);
    }
    return Ok(h);
  }

  lemma MatchedIsSized(bytes: seq<byte>, e: Expectations, regions: seq<RegionHeader>, h: RegionHeader)
    requires forall i :: 0 <= i < |regions| ==> Sized(regions[i])
    requires HeaderMatches(bytes, e, regions, h)
    ensures Sized(h) && h.totalSize <= |bytes|
  {
  }

  /** Under a region's own identity, a mapping within the limit is accepted
      exactly when it equals the encoder's output outside the payload areas and
      is zero past the region. */
  lemma AcceptsEncoderOutput(regions: seq<RegionHeader>, i: nat, e: Expectations, bytes: seq<byte>)
    requires DistinctRoles(regions) && i < |regions| && Sized(regions[i]) && regions[i].generation != 0
    requires var h := regions[i];
             && e.schemaId == h.schemaId && e.generation == h.generation && e.role == h.role
             && WriterWord(e.writer) == h.writer && h.totalSize <= |bytes| <= e.maxMapping
    ensures Acceptable(bytes, e, regions)
       <==> AgreesOutsidePayload(regions[i], Initial(regions[i]), bytes)
            && ZeroRange(bytes, regions[i].totalSize, |bytes|)
  {
    FindUnique(regions, i);
    QuiescentExactly(regions[i], bytes);
  }

  // ----- encode_into -----

  method FillZero(destination: array<byte>, n: nat)
    requires n <= destination.Length
    modifies destination
    ensures destination[..] == Zeros(n) + old(destination[n..])
  {
    for i := 0 to n
      invariant destination[..] == Zeros(i) + old(destination[i..])
    {
      destination[i] := 0;
    }
  }

  method WriteHeader(destination: array<byte>, h: RegionHeader)
    requires destination.Length >= 128
    modifies destination
    ensures destination[..] == PutHeader(old(destination[..]), h)
  {
    WriteIdentity(destination, h);
    WriteSizes(destination, h);
    PutBytes(destination, 108, U32Bytes(0));
    PutBytes(destination, 112, Zeros(16));
  }

  method WriteIdentity(destination: array<byte>, h: RegionHeader)
    requires destination.Length >= 128
    modifies destination
    ensures destination[..] == PutIdentity(old(destination[..]), h)
  {
    PutBytes(destination, 0, REGION_MAGIC);
    PutBytes(destination, 8, U16Bytes(VERSION_MAJOR));
    PutBytes(destination, 10, U16Bytes(VERSION_MINOR));
    PutBytes(destination, 12, U32Bytes(REGION_HEADER_SIZE));
    PutBytes(destination, 16, U64Bytes(h.totalSize));
    PutBytes(destination, 24, h.schemaId);
    PutBytes(destination, 56, U64Bytes(h.generation));
    PutBytes(destination, 64, U32Bytes(h.role));
  }

  method WriteSizes(destination: array<byte>, h: RegionHeader)
    requires destination.Length >= 128
    modifies destination
    ensures destination[..] == PutSizes(old(destination[..]), h)
  {
    PutBytes(destination, 68, U32Bytes(h.writer));
    PutBytes(destination, 72, U64Bytes(h.ackOffset));
    PutBytes(destination, 80, U32Bytes(h.ackCount));
    PutBytes(destination, 84, U32Bytes(h.ackStride));
    PutBytes(destination, 88, U64Bytes(h.slotsOffset));
    PutBytes(destination, 96, U32Bytes(h.slotCount));
    PutBytes(destination, 100, U32Bytes(h.slotStride));
    PutBytes(destination, 104, U32Bytes(h.payloadCapacity));
  }

  /** Writing the header field by field puts the header block at the front. */
  lemma HeaderIsBlock(b: seq<byte>, h: RegionHeader)
    requires |b| >= 128
    ensures PutHeader(b, h) == Put(b, 0, HeaderBytes(h))
  {
    PutHeaderAt(b, h);
    PutHeaderAt(Zeros(128), h);
    SameHeader(HeaderBytes(h), PutHeader(b, h), h);
    PutHeaderTail(b, h);
    FrontAndRest(b, PutHeader(b, h), HeaderBytes(h));
  }

  lemma FrontAndRest(b: seq<byte>, r: seq<byte>, front: seq<byte>)
    requires |front| <= |r| == |b| && r[|front|..] == b[|front|..]
    requires forall i :: 0 <= i < |front| ==> front[i] == r[i]
    ensures r == Put(b, 0, front)
  {
    assert r == r[..|front|] + r[|front|..];
    assert r[..|front|] == front;
  }

  lemma IdentityTail(b: seq<byte>, h: RegionHeader, t: seq<byte>)
    requires |b| >= 128 && At(b, 128, t)
    ensures At(PutIdentity(b, h), 128, t)
  {
  }

  lemma SizesTail(b: seq<byte>, h: RegionHeader, t: seq<byte>)
    requires |b| >= 128 && At(b, 128, t)
    ensures At(PutSizes(b, h), 128, t)
  {
  }

  lemma PutHeaderTail(b: seq<byte>, h: RegionHeader)
    requires |b| >= 128
    ensures PutHeader(b, h)[128..] == b[128..]
  {
    var t := b[128..];
    assert At(b, 128, t);
    IdentityTail(b, h, t);
    SizesTail(PutIdentity(b, h), h, t);
    ReservedTail(PutSizes(PutIdentity(b, h), h), t);
  }

  lemma ReservedTail(b: seq<byte>, t: seq<byte>)
    requires |b| >= 128 && At(b, 128, t) && |b| == 128 + |t|
    ensures PutReserved(b)[128..] == t
  {
  }

  method WriteSlots(destination: array<byte>, h: RegionHeader)
    requires Sized(h) && h.totalSize <= destination.Length
    modifies destination
    ensures destination[..] == PutSlots(h, old(destination[..]), U64Bytes(h.generation), h.slotCount)
  {
    var slot: u32 := 0;
    while slot < h.slotCount
      invariant slot <= h.slotCount
      invariant destination[..] == PutSlots(h, old(destination[..]), U64Bytes(h.generation), slot)
    {
      SlotStartBounds(h, slot);
      PutBytes(destination, SlotStart(h, slot), U64Bytes(h.generation));
      slot := slot + 1;
    }
  }

  /** `encode_into`: the region's bytes in front, everything past them untouched. */
  method EncodeInto(h: RegionHeader, destination: array<byte>) returns (r: Result<(), LayoutError>)
    requires Sized(h)
    modifies destination
    ensures r.Ok? <==> h.totalSize <= destination.Length
    ensures r.Ok? ==> destination[..] == Initial(h) + old(destination[h.totalSize..])
    ensures r.Err? ==> destination[..] == old(destination[..])
                       && r.error == MappingTooSmall(h.totalSize, destination.Length)
  {
    if destination.Length < h.totalSize {
      return Err(MappingTooSmall(h.totalSize, destination.Length));
    }
    HeaderFits(h);
    FillZero(destination, h.totalSize);
    ghost var front, rest := Zeros(h.totalSize), destination[h.totalSize..];
    HeaderIsBlock(destination[..], h);
    WriteHeader(destination, h);
    PutFront(front, rest, 0, HeaderBytes(h));
    WriteSlots(destination, h);
    PutSlotsFront(h, Put(front, 0, HeaderBytes(h)), rest, U64Bytes(h.generation), h.slotCount);
    return Ok(());
  }

  lemma PutFront(a: seq<byte>, b: seq<byte>, offset: nat, s: seq<byte>)
    requires offset + |s| <= |a|
    ensures Put(a + b, offset, s) == Put(a, offset, s) + b
  {
  }

  lemma {:induction false} PutSlotsFront(h: RegionHeader, a: seq<byte>, b: seq<byte>, generation: seq<byte>, n: nat)
    requires Sized(h) && h.totalSize <= |a| && n <= h.slotCount && |generation| == 8
    ensures PutSlots(h, a + b, generation, n) == PutSlots(h, a, generation, n) + b
  {
    if n > 0 {
      PutSlotsFront(h, a, b, generation, n - 1);
      SlotStartBounds(h, n - 1);
      PutFront(PutSlots(h, a, generation, n - 1), b, SlotStart(h, n - 1), generation);
    }
  }
}
