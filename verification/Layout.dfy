/** Checked sizes of one region and the ranges derived from them. */
module Layout {
  import opened Machine
  import opened Wire
  import opened Bits

  const CACHE_LINE: u64 := 64
  const REGION_HEADER_SIZE: u64 := 128
  const ACKNOWLEDGEMENT_CELL_SIZE: u64 := 64
  const SLOT_HEADER_SIZE: u64 := 64

  type RoleId = x: u32 | x != 0 witness 1

  datatype Endpoint = Initiator | Responder

  datatype RegionSpec = RegionSpec(role: RoleId, writer: Endpoint, slotCount: u32, payloadBytes: u32, ackCount: u32)

  datatype LayoutLimits = LayoutLimits(maxMapping: u64, maxSlots: u32, maxAcks: u32, maxPayload: u32)

  datatype RegionHeader = RegionHeader(
    totalSize: u64, schemaId: Bytes32, generation: u64, role: u32, writer: u32,
    ackOffset: u64, ackCount: u32, ackStride: u32,
    slotsOffset: u64, slotCount: u32, slotStride: u32, payloadCapacity: u32)

  datatype LayoutError =
    | Overflow
    | ZeroGeneration
    | EmptyRegionSet
    | DuplicateRole(role: RoleId)
    | LimitExceeded
    | EmptySlots
    | MappingTooSmall(required: nat, actual: nat)
    | BadMagic
    | BadVersion(major: u16, minor: u16)
    | BadHeaderSize(size: u32)
    | SchemaMismatch
    | StaleGeneration(expectedGeneration: u64, actualGeneration: u64)
    | UnexpectedRole(expectedRole: u32, actualRole: u32)
    | UnexpectedWriter
    | ReservedFieldSet
    | BadTotalSize
    | BadAcknowledgementLayout
    | AcknowledgementNotZero
    | BadSlotLayout
    | SlotMetadataNotInitialized
    | BadSlotStride
    | RangeOutOfBounds
    | SlotOutOfBounds(slot: u32, count: u32)
    | AcknowledgementOutOfBounds(index: u32, cells: u32)
    | PayloadOutOfBounds(length: u32, capacity: u32)
    | CapabilityPaddingNotZero
    | InvalidAcknowledgementRoute
    | DuplicateAcknowledgementRoute
    | IncompleteAcknowledgementRoutes
    | TopologyMismatch

  function WriterWord(e: Endpoint): u32 {
    if e.Initiator? then 1 else 2
  }

  // ----- alignment -----

  lemma MaskedBit(y: nat, bit: nat, mask: nat)
    requires bit < 2
    ensures AndNot(2 * y + bit, 2 * mask + 1) == 2 * AndNot(y, mask)
  {
    assert (2 * y + bit) / 2 == y && (2 * mask + 1) / 2 == mask;
  }

  lemma {:induction false} NotZeroKeeps(x: nat)
    ensures AndNot(x, 0) == x
  {
    if x > 0 {
      NotZeroKeeps(x / 2);
    }
  }

  lemma SixBits(sum: nat)
    ensures AndNot(sum, 63) == 64 * (sum / 64)
  {
    var a := sum / 2;
    var b := a / 2;
    var c := b / 2;
    var d := c / 2;
    var e := d / 2;
    MaskedBit(a, sum % 2, 31);
    MaskedBit(b, a % 2, 15);
    MaskedBit(c, b % 2, 7);
    MaskedBit(d, c % 2, 3);
    MaskedBit(e, d % 2, 1);
    MaskedBit(e / 2, e % 2, 0);
    NotZeroKeeps(e / 2);
    Halves(sum);
  }

  lemma Halves(sum: nat)
    ensures sum / 2 / 2 / 2 / 2 / 2 / 2 == sum / 64
  {
    assert sum / 2 / 2 == sum / 4;
    assert sum / 4 / 2 == sum / 8;
    assert sum / 8 / 2 == sum / 16;
    assert sum / 16 / 2 == sum / 32;
  }

  /** Clearing the six low bits rounds down to a multiple of 64. */
  function MaskLine(sum: nat): (r: nat)
    ensures r == sum - sum % 64
  {
    SixBits(sum);
    AndNot(sum, CACHE_LINE - 1)
  }

  /** The masked sum is the least multiple of 64 that is not below the value. */
  function AlignUp(value: u64): (r: Result<u64, LayoutError>)
    ensures r.Ok? <==> value + 63 <= U64_MAX
    ensures r.Ok? ==> r.value % 64 == 0 && value <= r.value < value + 64
    ensures r.Err? ==> r.error == Overflow
  {
    if value + (CACHE_LINE - 1) > U64_MAX then Err(Overflow) else Ok(MaskLine(value + (CACHE_LINE - 1)))
  }

  // ----- sizes -----

  function CountFault(spec: RegionSpec, limits: LayoutLimits): Option<LayoutError> {
    if spec.slotCount == 0 || spec.payloadBytes == 0 then Some(EmptySlots)
    else if spec.slotCount > limits.maxSlots || spec.payloadBytes > limits.maxPayload || spec.ackCount > limits.maxAcks
    then Some(LimitExceeded)
    else None
  }

  function SlotsLen(count: nat, stride: nat): nat {
    count * stride
  }

  /** `RegionLayout::calculate` once the aligned slot stride is known. */
  function SizedHeader(schemaId: Bytes32, generation: u64, spec: RegionSpec, limits: LayoutLimits, slotsOffset: u64,
                       slotStride: u64): Result<RegionHeader, LayoutError>
  {
    var slotsLen := SlotsLen(spec.slotCount, slotStride);
    if slotsLen > U64_MAX || slotsOffset + slotsLen > U64_MAX then Err(Overflow)
    else if slotStride > U32_MAX || slotsOffset + slotsLen > limits.maxMapping then Err(LimitExceeded)
    else Ok(RegionHeader(slotsOffset + slotsLen, schemaId, generation, spec.role, WriterWord(spec.writer),
                         REGION_HEADER_SIZE, spec.ackCount, ACKNOWLEDGEMENT_CELL_SIZE, slotsOffset, spec.slotCount,
                         slotStride, spec.payloadBytes))
  }

  function CalculateRegion(schemaId: Bytes32, generation: u64, spec: RegionSpec, limits: LayoutLimits)
    : Result<RegionHeader, LayoutError>
  {
    match CountFault(spec, limits)
    case Some(e) => Err(e)
    case None =>
      match AlignUp(REGION_HEADER_SIZE + spec.ackCount * ACKNOWLEDGEMENT_CELL_SIZE)
      case Err(e) => Err(e)
      case Ok(slotsOffset) =>
        match AlignUp(SLOT_HEADER_SIZE + spec.payloadBytes)
        case Err(e) => Err(e)
        case Ok(slotStride) => SizedHeader(schemaId, generation, spec, limits, slotsOffset, slotStride)
  }

  /** What every calculated header satisfies. */
  predicate Sized(h: RegionHeader) {
    && h.ackOffset == 128 && h.ackStride == 64
    && h.slotsOffset == 128 + 64 * h.ackCount
    && h.slotCount > 0 && h.payloadCapacity > 0
    && h.slotStride % 64 == 0 && 64 + h.payloadCapacity <= h.slotStride < 64 + h.payloadCapacity + 64
    && h.totalSize == h.slotsOffset + SlotsLen(h.slotCount, h.slotStride)
    && h.role != 0 && (h.writer == 1 || h.writer == 2)
  }

  function Stride(payloadBytes: u32): nat {
    (64 + payloadBytes + 63) / 64 * 64
  }

  lemma StrideIsAligned(payloadBytes: u32)
    ensures AlignUp(SLOT_HEADER_SIZE + payloadBytes) == Ok(Stride(payloadBytes))
  {
  }

  lemma OffsetIsAligned(ackCount: u32)
    ensures AlignUp(REGION_HEADER_SIZE + ackCount * ACKNOWLEDGEMENT_CELL_SIZE) == Ok(128 + 64 * ackCount)
  {
    LineEnd(2 + ackCount);
    assert MaskLine(128 + 64 * ackCount + 63) == 128 + 64 * ackCount;
  }

  lemma LineEnd(lines: nat)
    ensures (64 * lines + 63) % 64 == 63
  {
  }

  /** The calculation succeeds exactly when the counts are admissible, the
      stride fits 32 bits and the whole region fits the mapping limit; what it
      returns is sized and repeats the specification, and a refusal says whether
      the total was not representable or only too large. */
  lemma CalculatesExactly(schemaId: Bytes32, generation: u64, spec: RegionSpec, limits: LayoutLimits)
    ensures var r := CalculateRegion(schemaId, generation, spec, limits);
            var total := 128 + 64 * spec.ackCount + SlotsLen(spec.slotCount, Stride(spec.payloadBytes));
            && (r.Ok? <==>
                  && 1 <= spec.slotCount <= limits.maxSlots && 1 <= spec.payloadBytes <= limits.maxPayload
                  && spec.ackCount <= limits.maxAcks
                  && Stride(spec.payloadBytes) <= U32_MAX && total <= limits.maxMapping)
            && (r.Ok? ==>
                  && Sized(r.value) && r.value.totalSize <= limits.maxMapping
                  && r.value.schemaId == schemaId && r.value.generation == generation
                  && r.value.role == spec.role && r.value.writer == (if spec.writer == Initiator then 1 else 2)
                  && r.value.slotCount == spec.slotCount && r.value.ackCount == spec.ackCount
                  && r.value.payloadCapacity == spec.payloadBytes)
            && (r.Err? ==>
                  r.error == if spec.slotCount == 0 || spec.payloadBytes == 0 then EmptySlots
                             else if spec.slotCount <= limits.maxSlots && spec.payloadBytes <= limits.maxPayload
                                     && spec.ackCount <= limits.maxAcks && total > U64_MAX
                             then Overflow else LimitExceeded)
  {
    StrideIsAligned(spec.payloadBytes);
    OffsetIsAligned(spec.ackCount);
    if CountFault(spec, limits).None? {
      SizedHeaderIsSized(schemaId, generation, spec, limits, 128 + 64 * spec.ackCount, Stride(spec.payloadBytes));
    }
  }

  lemma SizedHeaderIsSized(schemaId: Bytes32, generation: u64, spec: RegionSpec, limits: LayoutLimits,
                           slotsOffset: u64, slotStride: u64)
    requires slotsOffset == 128 + 64 * spec.ackCount && spec.slotCount > 0 && spec.payloadBytes > 0
    requires slotStride % 64 == 0 && 64 + spec.payloadBytes <= slotStride < 64 + spec.payloadBytes + 64
    ensures var r := SizedHeader(schemaId, generation, spec, limits, slotsOffset, slotStride);
            && (r.Ok? <==> slotStride <= U32_MAX
                           && slotsOffset + SlotsLen(spec.slotCount, slotStride) <= limits.maxMapping)
            && (r.Ok? ==> Sized(r.value))
            && (r.Err? ==> r.error == if slotsOffset + SlotsLen(spec.slotCount, slotStride) > U64_MAX
                                      then Overflow else LimitExceeded)
  {
  }

  // ----- ranges -----

  datatype Range = Range(start: nat, end: nat)

  function SlotStart(h: RegionHeader, slot: u32): (start: nat)
    ensures start >= h.slotsOffset
  {
    TimesMono(0, slot, h.slotStride);
    h.slotsOffset + slot * h.slotStride
  }

  function SlotRange(h: RegionHeader, slot: u32): Result<Range, LayoutError> {
    if slot >= h.slotCount then Err(SlotOutOfBounds(slot, h.slotCount))
    else
      var start := SlotStart(h, slot);
      if start > U64_MAX || start + h.slotStride > U64_MAX then Err(Overflow)
      else Ok(Range(start, start + h.slotStride))
  }

  function AcknowledgementRange(h: RegionHeader, index: u32): Result<Range, LayoutError> {
    if index >= h.ackCount then Err(AcknowledgementOutOfBounds(index, h.ackCount))
    else
      var start := h.ackOffset + index * h.ackStride;
      if start > U64_MAX || start + h.ackStride > U64_MAX then Err(Overflow)
      else Ok(Range(start, start + h.ackStride))
  }

  function PayloadRange(h: RegionHeader, slot: u32, length: u32): Result<Range, LayoutError> {
    if length > h.payloadCapacity then Err(PayloadOutOfBounds(length, h.payloadCapacity))
    else match SlotRange(h, slot)
      case Err(e) => Err(e)
      case Ok(range) =>
        var start := range.start + SLOT_HEADER_SIZE;
        if start > U64_MAX || start + length > U64_MAX then Err(Overflow)
        else if start + length > range.end then Err(RangeOutOfBounds)
        else Ok(Range(start, start + length))
  }

  lemma TimesAligned(a: nat, n: nat)
    requires n % 64 == 0
    ensures a * n % 64 == 0
  {
    assert n == 64 * (n / 64);
    assert a * n == 64 * (a * (n / 64));
  }

  /** Multiplication is monotone in either factor. */
  lemma TimesMono(a: nat, b: nat, n: nat)
    requires a <= b
    ensures a * n <= b * n && n * a <= n * b
  {
  }

  /** The unchecked products `slot as usize * stride as usize` cannot wrap. */
  lemma ProductsFit(a: u32, b: u32)
    ensures a * b <= U64_MAX
  {
    TimesMono(a, U32_MAX, b);
    TimesMono(b, U32_MAX, U32_MAX);
  }

  lemma SlotStartBounds(h: RegionHeader, slot: u32)
    requires Sized(h) && slot < h.slotCount
    ensures SlotStart(h, slot) % 64 == 0 && SlotStart(h, slot) + h.slotStride <= h.totalSize
  {
    TimesLess(slot, h.slotCount, h.slotStride);
    TimesAligned(slot, h.slotStride);
    LineAligned(2 + h.ackCount, slot * h.slotStride);
  }

  lemma LineAligned(lines: nat, rest: nat)
    requires rest % 64 == 0
    ensures (64 * lines + rest) % 64 == 0
  {
  }

  /** In a sized region the slot lookup fails only on an index out of range. */
  lemma SlotRangeIsExact(h: RegionHeader, slot: u32)
    requires Sized(h)
    ensures SlotRange(h, slot) == if slot < h.slotCount
                                  then Ok(Range(SlotStart(h, slot), SlotStart(h, slot) + h.slotStride))
                                  else Err(SlotOutOfBounds(slot, h.slotCount))
  {
    if slot < h.slotCount {
      SlotStartBounds(h, slot);
    }
  }

  lemma AcknowledgementRangeIsExact(h: RegionHeader, index: u32)
    requires Sized(h)
    ensures AcknowledgementRange(h, index) == if index < h.ackCount
                                              then Ok(Range(128 + 64 * index, 128 + 64 * index + 64))
                                              else Err(AcknowledgementOutOfBounds(index, h.ackCount))
    ensures index < h.ackCount ==> 128 + 64 * index + 64 <= h.slotsOffset
  {
  }

  /** Payload ranges stay inside their slot, past its metadata. */
  lemma PayloadStaysInSlot(h: RegionHeader, slot: u32, length: u32)
    requires Sized(h)
    ensures var r := PayloadRange(h, slot, length);
            && (r.Ok? <==> length <= h.payloadCapacity && slot < h.slotCount)
            && (r.Ok? ==>
                  var s := SlotRange(h, slot);
                  s.Ok? && s.value.start + 64 == r.value.start && r.value.end == r.value.start + length <= s.value.end)
  {
    SlotRangeIsExact(h, slot);
  }

  // ----- tiling -----

  datatype Tile = HeaderTile | Cell(index: u32) | Slot(slot: u32)

  predicate IsTile(h: RegionHeader, t: Tile) {
    match t
    case HeaderTile => true
    case Cell(index) => index < h.ackCount
    case Slot(slot) => slot < h.slotCount
  }

  function CellTile(h: RegionHeader, index: u32): (r: Range)
    requires Sized(h) && index < h.ackCount
    ensures r == Range(128 + 64 * index, 192 + 64 * index) && r.end <= h.slotsOffset
  {
    AcknowledgementRangeIsExact(h, index);
    AcknowledgementRange(h, index).value
  }

  function SlotTile(h: RegionHeader, slot: u32): (r: Range)
    requires Sized(h) && slot < h.slotCount
    ensures r == Range(SlotStart(h, slot), SlotStart(h, slot) + h.slotStride)
    ensures r.start % 64 == 0 && r.end <= h.totalSize
  {
    SlotRangeIsExact(h, slot);
    SlotStartBounds(h, slot);
    SlotRange(h, slot).value
  }

  /** The bytes of a tile, as the range functions give them. */
  function TileRange(h: RegionHeader, t: Tile): Range
    requires Sized(h) && IsTile(h, t)
  {
    match t
    case HeaderTile => Range(0, REGION_HEADER_SIZE)
    case Cell(index) => CellTile(h, index)
    case Slot(slot) => SlotTile(h, slot)
  }

  ghost predicate Covers(h: RegionHeader, t: Tile, at: nat)
    requires Sized(h)
  {
    IsTile(h, t) && TileRange(h, t).start <= at < TileRange(h, t).end
  }

  lemma Quotient(d: nat, n: nat)
    requires n > 0
    ensures 0 <= d / n && d / n * n <= d < d / n * n + n
  {
  }

  lemma QuotientSlot(h: RegionHeader, at: nat)
    requires Sized(h) && h.slotsOffset <= at < h.totalSize
    ensures var slot := (at - h.slotsOffset) / h.slotStride;
            0 <= slot < h.slotCount && slot * h.slotStride <= at - h.slotsOffset < slot * h.slotStride + h.slotStride
  {
    var d := at - h.slotsOffset;
    var q := d / h.slotStride;
    Quotient(d, h.slotStride);
    assert q < h.slotCount || h.slotCount * h.slotStride <= q * h.slotStride by {
      if q >= h.slotCount {
        TimesMono(h.slotCount, q, h.slotStride);
      }
    }
  }

  /** Every byte below the total size belongs to a tile. */
  lemma TilesCover(h: RegionHeader, at: nat) returns (t: Tile)
    requires Sized(h) && at < h.totalSize
    ensures Covers(h, t, at)
  {
    if at < 128 {
      t := HeaderTile;
    } else if at < h.slotsOffset {
      t := Cell((at - 128) / 64);
    } else {
      QuotientSlot(h, at);
      t := Slot((at - h.slotsOffset) / h.slotStride);
    }
  }

  /** No byte belongs to two tiles. */
  lemma TilesAreDisjoint(h: RegionHeader, s: Tile, t: Tile, at: nat)
    requires Sized(h) && Covers(h, s, at) && Covers(h, t, at)
    ensures s == t
  {
    if s.Slot? && t.Slot? {
      SlotsAreDisjoint(h, s.slot, t.slot, at);
    }
  }

  lemma SlotsAreDisjoint(h: RegionHeader, s: u32, t: u32, at: nat)
    requires Sized(h) && s < h.slotCount && t < h.slotCount
    requires SlotTile(h, s).start <= at < SlotTile(h, s).end && SlotTile(h, t).start <= at < SlotTile(h, t).end
    ensures s == t
  {
    if s < t {
      TimesLess(s, t, h.slotStride);
    } else if t < s {
      TimesLess(t, s, h.slotStride);
    }
  }

  /** Tiles start on cache lines, are not empty and end inside the region. */
  lemma TilesAreAligned(h: RegionHeader, t: Tile)
    requires Sized(h) && IsTile(h, t)
    ensures TileRange(h, t).start % 64 == 0 && TileRange(h, t).start < TileRange(h, t).end <= h.totalSize
  {
    var first := SlotTile(h, 0);
    if t.Cell? {
      assert TileRange(h, t).end <= h.slotsOffset;
    }
  }
}
