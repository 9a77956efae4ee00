/** Slot metadata, acknowledgement cells, and the checked operations on them. */
module Slots {
  import opened Machine

  /** Facts fixed when a slot of a validated mapping is bound. */
  datatype SlotBinding = SlotBinding(
    role: u32, generation: u64, capacity: u32, slotIndex: u32, slotCount: u32)

  /** A slot binding together with its validated acknowledgement route. */
  datatype WriterBinding = WriterBinding(slot: SlotBinding, ackOwner: u32, ackCell: u32)

  datatype AckBinding = AckBinding(
    owner: u32, target: u32, slotIndex: u32, cellIndex: u32, generation: u64)

  datatype SlotObservation = SlotObservation(
    role: u32, slotIndex: u32, generation: u64, sequence: u64, payloadLen: u32)

  datatype AckObservation = AckObservation(
    owner: u32, target: u32, generation: u64, slotIndex: u32, cellIndex: u32, sequence: u64)

  datatype SlotError =
    | ZeroGeneration
    | UnpublishedSequence
    | StaleGeneration(expectedGeneration: u64, actualGeneration: u64)
    | SequenceWrap
    | WrongSlot(expectedSlot: u32, actualSlot: u32)
    | UnexpectedFirstSequence(expected: u64, actual: u64)
    | UnexpectedNextSequence(expected: u64, actual: u64)
    | MissingAcknowledgement(sequence: u64)
    | WrongAcknowledgementTarget
    | WrongAcknowledgementOwner
    | WrongAcknowledgementSlot
    | WrongAcknowledgementCell
    | StaleAcknowledgementGeneration
    | LaggingAcknowledgement(expected: u64, actual: u64)
    | FutureAcknowledgement(expected: u64, actual: u64)
    | StaleSequence(expected: u64, actual: u64)
    | PayloadTooLarge(length: u32, capacity: u32)
    | ChangedPayloadLength(expectedLen: u32, actualLen: u32)
    | WrongObservationRole

  datatype AckError =
    | WrongTarget
    | StaleAckGeneration
    | WrongAckSlot
    | UnpublishedAck
    | NonMonotonic(current: u64, next: u64)

  /** What layout validation guarantees of every binding it mints. */
  predicate ValidBinding(b: SlotBinding) {
    b.slotIndex < b.slotCount
  }

  function GenerationFault(stored: u64, expected: u64): Option<SlotError> {
    if expected == 0 then Some(ZeroGeneration)
    else if stored == expected then None
    else Some(StaleGeneration(expected, stored))
  }

  function SequenceSlotFault(b: SlotBinding, sequence: u64): Option<SlotError>
    requires ValidBinding(b)
  {
    if sequence == 0 then Some(UnpublishedSequence)
    else
      var expected := (sequence - 1) % b.slotCount;
      if b.slotIndex == expected then None else Some(WrongSlot(expected, b.slotIndex))
  }

  /** The first check of a reuse acknowledgement that fails, if any. */
  function AckFault(b: WriterBinding, current: u64, ack: Option<AckObservation>): Option<SlotError> {
    if ack.None? then Some(MissingAcknowledgement(current))
    else
      var a := ack.value;
      if a.target != b.slot.role then Some(WrongAcknowledgementTarget)
      else if a.owner != b.ackOwner then Some(WrongAcknowledgementOwner)
      else if a.slotIndex != b.slot.slotIndex then Some(WrongAcknowledgementSlot)
      else if a.cellIndex != b.ackCell then Some(WrongAcknowledgementCell)
      else if a.generation != b.slot.generation then Some(StaleAcknowledgementGeneration)
      else if a.sequence < current then Some(LaggingAcknowledgement(current, a.sequence))
      else if a.sequence > current then Some(FutureAcknowledgement(current, a.sequence))
      else None
  }

  /** The first check of a publication request that fails, if any. */
  function PublishFault(b: WriterBinding, generation: u64, current: u64, sequence: u64,
                        ack: Option<AckObservation>): Option<SlotError>
    requires ValidBinding(b.slot)
  {
    if GenerationFault(generation, b.slot.generation).Some? then
      GenerationFault(generation, b.slot.generation)
    else if SequenceSlotFault(b.slot, sequence).Some? then
      SequenceSlotFault(b.slot, sequence)
    else if current == 0 then
      if sequence != b.slot.slotIndex + 1
      then Some(UnexpectedFirstSequence(b.slot.slotIndex + 1, sequence)) else None
    else if current + b.slot.slotCount > U64_MAX then Some(SequenceWrap)
    else if sequence != current + b.slot.slotCount then
      Some(UnexpectedNextSequence(current + b.slot.slotCount, sequence))
    else AckFault(b, current, ack)
  }

  /** The only acknowledgement that ever authorizes reuse after `current`. */
  function ExactAck(b: WriterBinding, current: u64): AckObservation {
    AckObservation(b.ackOwner, b.slot.role, b.slot.generation, b.slot.slotIndex, b.ackCell, current)
  }

  /** The one sequence a slot may publish next; it may exceed 64 bits. */
  function NextSequence(b: SlotBinding, current: u64): nat {
    if current == 0 then b.slotIndex + 1 else current + b.slotCount
  }

  /** `prepare_publish` succeeds exactly on the slot's next sequence, and after
      the first use exactly with the acknowledgement of the current one. The
      residue a correctly sequenced slot carries makes the ring-position check
      redundant. */
  lemma PublishAllowedExactly(b: WriterBinding, generation: u64, current: u64, sequence: u64,
                              ack: Option<AckObservation>)
    requires ValidBinding(b.slot)
    requires current != 0 ==> (current - 1) % b.slot.slotCount == b.slot.slotIndex
    ensures PublishFault(b, generation, current, sequence, ack).None? <==>
            && b.slot.generation != 0
            && generation == b.slot.generation
            && sequence == NextSequence(b.slot, current)
            && (current != 0 ==> ack == Some(ExactAck(b, current)))
    ensures NextSequence(b.slot, current) == if current == 0 then b.slot.slotIndex + 1 else current + b.slot.slotCount
    ensures var a := ExactAck(b, current);
            && a.owner == b.ackOwner && a.target == b.slot.role && a.generation == b.slot.generation
            && a.slotIndex == b.slot.slotIndex && a.cellIndex == b.ackCell && a.sequence == current
  {
    if sequence == NextSequence(b.slot, current) {
      if current == 0 {
        SmallMod(b.slot.slotIndex, b.slot.slotCount);
      } else {
        ModStep(current - 1, b.slot.slotCount);
      }
    }
  }

  lemma SmallMod(x: nat, n: nat)
    requires x < n
    ensures x % n == x
  {
  }

  lemma ModStep(x: nat, n: nat)
    requires 0 < n
    ensures (x + n) % n == x % n
  {
    var k := (x + n) / n - x / n - 1;
    assert k * n == x % n - (x + n) % n;
    MultipleIsLarge(k, n);
  }

  lemma MultipleIsLarge(k: int, n: nat)
    ensures k == 0 || k * n >= n || k * n <= 0 - n
  {
    if k >= 1 {
      assert k * n == (k - 1) * n + n;
    } else if k <= -1 {
      assert k * n == (k + 1) * n - n;
    }
  }

  function ObserveFault(b: SlotBinding, sequence: u64, generation: u64, expected: u64): Option<SlotError>
    requires ValidBinding(b)
  {
    if SequenceSlotFault(b, expected).Some? then SequenceSlotFault(b, expected)
    else if sequence != expected then Some(StaleSequence(expected, sequence))
    else GenerationFault(generation, b.generation)
  }

  function RecheckFault(b: SlotBinding, o: SlotObservation, sequence: u64, generation: u64): Option<SlotError> {
    if o.role != b.role then Some(WrongObservationRole)
    else if o.generation != b.generation then Some(StaleGeneration(b.generation, o.generation))
    else if sequence != o.sequence then Some(StaleSequence(o.sequence, sequence))
    else GenerationFault(generation, o.generation)
  }

  function AcknowledgeFault(b: AckBinding, cell: u64, o: SlotObservation): Option<AckError> {
    if o.role != b.target then Some(WrongTarget)
    else if o.generation != b.generation then Some(StaleAckGeneration)
    else if o.slotIndex != b.slotIndex then Some(WrongAckSlot)
    else if o.sequence == 0 then Some(UnpublishedAck)
    else if o.sequence < cell then Some(NonMonotonic(cell, o.sequence))
    else None
  }

  // ----- what an error says -----

  /** The condition each refusal of a publication names, with the values it carries. */
  predicate PublishErrorHolds(e: SlotError, b: WriterBinding, generation: u64, current: u64, sequence: u64,
                              ack: Option<AckObservation>)
    requires ValidBinding(b.slot)
  {
    match e
    case ZeroGeneration => b.slot.generation == 0
    case StaleGeneration(expected, actual) =>
      expected == b.slot.generation && actual == generation && expected != actual
    case UnpublishedSequence => sequence == 0
    case WrongSlot(expected, actual) =>
      sequence != 0 && expected == (sequence - 1) % b.slot.slotCount && actual == b.slot.slotIndex && expected != actual
    case UnexpectedFirstSequence(expected, actual) =>
      current == 0 && expected == b.slot.slotIndex + 1 && actual == sequence && expected != actual
    case SequenceWrap => current != 0 && current + b.slot.slotCount > U64_MAX
    case UnexpectedNextSequence(expected, actual) =>
      current != 0 && expected == current + b.slot.slotCount && actual == sequence && expected != actual
    case MissingAcknowledgement(q) => current != 0 && q == current && ack.None?
    case WrongAcknowledgementTarget => current != 0 && ack.Some? && ack.value.target != b.slot.role
    case WrongAcknowledgementOwner => current != 0 && ack.Some? && ack.value.owner != b.ackOwner
    case WrongAcknowledgementSlot => current != 0 && ack.Some? && ack.value.slotIndex != b.slot.slotIndex
    case WrongAcknowledgementCell => current != 0 && ack.Some? && ack.value.cellIndex != b.ackCell
    case StaleAcknowledgementGeneration => current != 0 && ack.Some? && ack.value.generation != b.slot.generation
    case LaggingAcknowledgement(expected, actual) =>
      current != 0 && ack.Some? && expected == current && actual == ack.value.sequence && actual < expected
    case FutureAcknowledgement(expected, actual) =>
      current != 0 && ack.Some? && expected == current && actual == ack.value.sequence && expected < actual
    case _ => false
  }

  /** A refused publication is refused for the reason it names. */
  lemma PublishErrorIsTrue(b: WriterBinding, generation: u64, current: u64, sequence: u64, ack: Option<AckObservation>)
    requires ValidBinding(b.slot) && PublishFault(b, generation, current, sequence, ack).Some?
    ensures PublishErrorHolds(PublishFault(b, generation, current, sequence, ack).value, b, generation, current,
                              sequence, ack)
  {
  }
}
