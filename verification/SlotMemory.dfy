/** The same operations as they run in place on one slot of a mapping. */
module SlotMemory {
  import opened Machine
  import opened Slots
  import Ring

  datatype BindingError =
    | PayloadOutOfBounds(length: u32, limit: u32)
    | PayloadLengthOverflow
    | DestinationTooSmall(required: nat, provided: nat)
    | Slot(error: SlotError)

  /** Copies `length` bytes one at a time. */
  method VolatileCopy(source: array<byte>, destination: array<byte>, length: nat)
    requires length <= source.Length && length <= destination.Length
    requires source != destination
    modifies destination
    ensures destination[..length] == source[..length]
    ensures destination[length..] == old(destination[length..])
  {
    for index := 0 to length
      invariant destination[..index] == source[..index]
      invariant destination[index..] == old(destination[index..])
    {
      destination[index] := source[index];
    }
  }

  /** The writer's slot is the one acknowledged through this cell. */
  predicate OnRoute(a: AckBinding, w: WriterBinding) {
    && a.owner == w.ackOwner && a.target == w.slot.role && a.slotIndex == w.slot.slotIndex
    && a.cellIndex == w.ackCell && a.generation == w.slot.generation
  }

  class AcknowledgementCell {
    var sequence: u64

    constructor ()
      ensures sequence == 0
    {
      sequence := 0;
    }

    method Acknowledge(binding: AckBinding, observation: SlotObservation) returns (r: Result<(), AckError>)
      modifies this
      ensures r.Err? ==> AcknowledgeFault(binding, old(sequence), observation) == Some(r.error)
      ensures r.Err? ==> sequence == old(sequence)
      ensures r.Ok? ==> AcknowledgeFault(binding, old(sequence), observation).None?
      ensures r.Ok? ==> sequence == observation.sequence >= old(sequence)
      ensures r.Ok? <==>
              && observation.role == binding.target && observation.generation == binding.generation
              && observation.slotIndex == binding.slotIndex && observation.sequence != 0
              && observation.sequence >= old(sequence)
      ensures r.Err? ==>
                match r.error
                case WrongTarget => observation.role != binding.target
                case StaleAckGeneration => observation.generation != binding.generation
                case WrongAckSlot => observation.slotIndex != binding.slotIndex
                case UnpublishedAck => observation.sequence == 0
                case NonMonotonic(current, next) =>
                  current == old(sequence) && next == observation.sequence && next < current
    {
      if observation.role != binding.target {
        return Err(WrongTarget);
      }
      if observation.generation != binding.generation {
        return Err(StaleAckGeneration);
      }
      if observation.slotIndex != binding.slotIndex {
        return Err(WrongAckSlot);
      }
      if observation.sequence == 0 {
        return Err(UnpublishedAck);
      }
      var current := sequence;
      if observation.sequence < current {
        return Err(NonMonotonic(current, observation.sequence));
      }
      if observation.sequence == current {
        return Ok(());
      }
      sequence := observation.sequence;
      return Ok(());
    }

    /** Presented by the writer of the same route, the observation allows reuse
        after exactly the sequence the cell holds. */
    method Observe(binding: AckBinding) returns (o: AckObservation)
      ensures forall w: WriterBinding, current: u64 :: OnRoute(binding, w) ==>
                AckFault(w, current, Some(o)) ==
                if sequence < current then Some(LaggingAcknowledgement(current, sequence))
                else if sequence > current then Some(FutureAcknowledgement(current, sequence))
                else None
    {
      o := AckObservation(binding.owner, binding.target, binding.generation,
                          binding.slotIndex, binding.cellIndex, sequence);
    }
  }

  class SlotRecord {
    var generation: u64
    var payloadLen: u32
    var publishedSequence: u64
    const payload: array<byte>
    ghost var history: seq<Ring.Publication>

    ghost function View(ack: u64): Ring.Slot
      reads this, payload
    {
      Ring.Slot(payloadLen, publishedSequence, payload[..], ack, history)
    }

    constructor (generation: u64, capacity: u32)
      ensures this.generation == generation && fresh(payload)
      ensures View(0) == Ring.Slot(0, 0, seq(capacity, j => 0), 0, [])
    {
      this.generation, payloadLen, publishedSequence := generation, 0, 0;
      payload := new byte[capacity](j => 0);
      history := [];
      new;
      assert payload[..] == seq(capacity, j => 0);
    }

    method PreparePublish(binding: WriterBinding, sequence: u64, ack: Option<AckObservation>)
      returns (r: Result<(), SlotError>)
      requires ValidBinding(binding.slot)
      ensures r == (var fault := PublishFault(binding, generation, publishedSequence, sequence, ack);
                    if fault.Some? then Err(fault.value) else Ok(()))
      ensures r.Ok? <==>
              && generation == binding.slot.generation != 0
              && sequence != 0 && (sequence - 1) % binding.slot.slotCount == binding.slot.slotIndex
              && (if publishedSequence == 0 then sequence == binding.slot.slotIndex + 1
                  else
                    && sequence == publishedSequence + binding.slot.slotCount
                    && ack == Some(AckObservation(binding.ackOwner, binding.slot.role, binding.slot.generation,
                                                  binding.slot.slotIndex, binding.ackCell, publishedSequence)))
      ensures r.Err? ==> PublishErrorHolds(r.error, binding, generation, publishedSequence, sequence, ack)
    {
      var stale := GenerationFault(generation, binding.slot.generation);
      if stale.Some? {
        return Err(stale.value);
      }
      var misplaced := SequenceSlotFault(binding.slot, sequence);
      if misplaced.Some? {
        return Err(misplaced.value);
      }
      var current := publishedSequence;
      if current == 0 {
        if sequence != binding.slot.slotIndex + 1 {
          return Err(UnexpectedFirstSequence(binding.slot.slotIndex + 1, sequence));
        }
      } else {
        if current + binding.slot.slotCount > U64_MAX {
          return Err(SequenceWrap);
        }
        if sequence != current + binding.slot.slotCount {
          return Err(UnexpectedNextSequence(current + binding.slot.slotCount, sequence));
        }
        var unacknowledged := AckFault(binding, current, ack);
        if unacknowledged.Some? {
          return Err(unacknowledged.value);
        }
      }
      return Ok(());
    }

    /** `WriterRegion::publish`: a refused call stores nothing. */
    method Publish(binding: WriterBinding, sequence: u64, ack: Option<AckObservation>, data: array<byte>)
      returns (r: Result<(), BindingError>)
      requires ValidBinding(binding.slot) && payload.Length == binding.slot.capacity
      requires data != payload
      modifies this, payload
      ensures r.Err? ==> unchanged(this) && unchanged(payload)
      ensures r.Ok? <==>
              && data.Length <= binding.slot.capacity
              && PublishFault(binding, old(generation), old(publishedSequence), sequence, ack).None?
      ensures r.Err? ==>
                r.error == if data.Length > U32_MAX then PayloadLengthOverflow
                           else if data.Length > binding.slot.capacity
                           then PayloadOutOfBounds(data.Length, binding.slot.capacity)
                           else Slot(PublishFault(binding, generation, publishedSequence, sequence, ack).value)
      ensures r.Ok? ==>
                && generation == old(generation)
                && publishedSequence == sequence && payloadLen == data.Length
                && payload[..] == data[..] + old(payload[data.Length..])
                && history == old(history) + [Ring.Publication(sequence, data[..])]
    {
      if data.Length > U32_MAX {
        return Err(PayloadLengthOverflow);
      }
      if data.Length > binding.slot.capacity {
        return Err(PayloadOutOfBounds(data.Length, binding.slot.capacity));
      }
      var prepared := PreparePublish(binding, sequence, ack);
      if prepared.Err? {
        return Err(Slot(prepared.error));
      }
      VolatileCopy(data, payload, data.Length);
      assert payload[..] == payload[..data.Length] + payload[data.Length..];
      payloadLen := data.Length;
      publishedSequence := sequence;
      history := history + [Ring.Publication(sequence, data[..])];
      return Ok(());
    }

    method Observe(binding: SlotBinding, expected: u64) returns (r: Result<SlotObservation, SlotError>)
      requires ValidBinding(binding)
      ensures r.Ok? <==> ObserveFault(binding, publishedSequence, generation, expected).None?
                         && payloadLen <= binding.capacity
      ensures r.Ok? ==> r.value == SlotObservation(binding.role, binding.slotIndex, binding.generation,
                                                   expected, payloadLen)
      ensures r.Err? ==>
                var fault := ObserveFault(binding, publishedSequence, generation, expected);
                r.error == if fault.Some? then fault.value else PayloadTooLarge(payloadLen, binding.capacity)
      ensures r.Ok? <==>
              && expected != 0 && (expected - 1) % binding.slotCount == binding.slotIndex
              && publishedSequence == expected && generation == binding.generation != 0
              && payloadLen <= binding.capacity
      ensures r.Err? ==>
                match r.error
                case UnpublishedSequence => expected == 0
                case WrongSlot(wanted, actual) =>
                  expected != 0 && wanted == (expected - 1) % binding.slotCount != actual == binding.slotIndex
                case StaleSequence(wanted, actual) => wanted == expected != actual == publishedSequence
                case ZeroGeneration => binding.generation == 0
                case StaleGeneration(wanted, actual) => wanted == binding.generation != actual == generation
                case PayloadTooLarge(length, capacity) => length == payloadLen > capacity == binding.capacity
                case _ => false
    {
      var misplaced := SequenceSlotFault(binding, expected);
      if misplaced.Some? {
        return Err(misplaced.value);
      }
      var sequence := publishedSequence;
      if sequence != expected {
        return Err(StaleSequence(expected, sequence));
      }
      var stale := GenerationFault(generation, binding.generation);
      if stale.Some? {
        return Err(stale.value);
      }
      if payloadLen > binding.capacity {
        return Err(PayloadTooLarge(payloadLen, binding.capacity));
      }
      return Ok(SlotObservation(binding.role, binding.slotIndex, binding.generation, sequence, payloadLen));
    }

    method Recheck(binding: SlotBinding, o: SlotObservation) returns (r: Result<(), SlotError>)
      ensures r.Ok? <==> RecheckFault(binding, o, publishedSequence, generation).None?
                         && payloadLen == o.payloadLen
      ensures r.Err? ==>
                var fault := RecheckFault(binding, o, publishedSequence, generation);
                r.error == if fault.Some? then fault.value else ChangedPayloadLength(o.payloadLen, payloadLen)
      ensures r.Ok? <==>
              && o.role == binding.role && o.generation == binding.generation && publishedSequence == o.sequence
              && generation == o.generation != 0 && payloadLen == o.payloadLen
      ensures r.Err? ==>
                match r.error
                case WrongObservationRole => o.role != binding.role
                case ZeroGeneration => o.generation == 0
                case StaleGeneration(wanted, actual) =>
                  || wanted == binding.generation != actual == o.generation
                  || wanted == o.generation != actual == generation
                case StaleSequence(wanted, actual) => wanted == o.sequence != actual == publishedSequence
                case ChangedPayloadLength(wanted, actual) => wanted == o.payloadLen != actual == payloadLen
                case _ => false
    {
      if o.role != binding.role {
        return Err(WrongObservationRole);
      }
      if o.generation != binding.generation {
        return Err(StaleGeneration(binding.generation, o.generation));
      }
      if publishedSequence != o.sequence {
        return Err(StaleSequence(o.sequence, publishedSequence));
      }
      var stale := GenerationFault(generation, o.generation);
      if stale.Some? {
        return Err(stale.value);
      }
      if payloadLen != o.payloadLen {
        return Err(ChangedPayloadLength(o.payloadLen, payloadLen));
      }
      return Ok(());
    }

    /** `ReaderRegion::copy_payload_into`: bytes past the returned length are untouched. */
    method CopyPayloadInto(binding: SlotBinding, expected: u64, destination: array<byte>)
      returns (r: Result<nat, BindingError>)
      requires ValidBinding(binding) && payload.Length == binding.capacity
      requires destination != payload
      modifies destination
      ensures r.Ok? <==>
              && expected != 0 && (expected - 1) % binding.slotCount == binding.slotIndex
              && publishedSequence == expected && generation == binding.generation != 0
              && payloadLen <= binding.capacity && payloadLen <= destination.Length
      ensures r.Ok? ==>
                && r.value == payloadLen
                && destination[..r.value] == payload[..r.value]
                && destination[r.value..] == old(destination[payloadLen..])
      ensures r.Err? ==> unchanged(destination)
      ensures r.Err? ==>
                var fault := ObserveFault(binding, publishedSequence, generation, expected);
                r.error == if fault.Some? then Slot(fault.value)
                           else if payloadLen > binding.capacity
                           then Slot(PayloadTooLarge(payloadLen, binding.capacity))
                           else DestinationTooSmall(payloadLen, destination.Length)
    {
      var observed := Observe(binding, expected);
      if observed.Err? {
        return Err(Slot(observed.error));
      }
      var length := observed.value.payloadLen;
      if destination.Length < length {
        return Err(DestinationTooSmall(length, destination.Length));
      }
      VolatileCopy(payload, destination, length);
      var rechecked := Recheck(binding, observed.value);
      if rechecked.Err? {
        return Err(Slot(rechecked.error));
      }
      return Ok(length);
    }
  }

  // ----- the in-place calls are uninterrupted runs of the ring's steps -----

  /** The ring after `count` consecutive byte writes. */
  function WriteBytes(s: Ring.State, count: nat): Ring.State {
    if count == 0 then s else Ring.ApplyWriteByte(WriteBytes(s, count - 1))
  }

  /** Slot `w` with the first `count` bytes of the writer's data in place. */
  function Painted(s: Ring.State, count: nat): Ring.State
    requires s.writer.Filling? && s.writer.slot < |s.slots|
    requires count <= |s.writer.data| <= |s.slots[s.writer.slot].payload|
  {
    var w, before := s.writer.slot, s.slots[s.writer.slot];
    Ring.SetSlot(s, w, before.(payload := s.writer.data[..count] + before.payload[count..]))
    .(writer := s.writer.(written := count))
  }

  lemma OneMoreByte(data: seq<byte>, payload: seq<byte>, k: nat)
    requires k < |data| <= |payload|
    ensures (data[..k] + payload[k..])[k := data[k]] == data[..k + 1] + payload[k + 1..]
  {
  }

  lemma PaintOne(s: Ring.State, k: nat)
    requires s.writer.Filling? && s.writer.slot < |s.slots|
    requires k < |s.writer.data| <= |s.slots[s.writer.slot].payload|
    ensures Ring.ApplyWriteByte(Painted(s, k)) == Painted(s, k + 1)
  {
    var w, before := s.writer.slot, s.slots[s.writer.slot];
    OneMoreByte(s.writer.data, before.payload, k);
    assert s.slots[w := Painted(s, k).slots[w]][w := Painted(s, k + 1).slots[w]]
        == s.slots[w := Painted(s, k + 1).slots[w]];
  }

  lemma {:induction false} WriteBytesFillsPrefix(s: Ring.State, count: nat)
    requires s.writer.Filling? && s.writer.written == 0 && s.writer.slot < |s.slots|
    requires count <= |s.writer.data| <= |s.slots[s.writer.slot].payload|
    ensures WriteBytes(s, count) == Painted(s, count)
  {
    if count == 0 {
      var before := s.slots[s.writer.slot];
      assert s.writer.data[..0] + before.payload[0..] == before.payload;
      assert s.slots[s.writer.slot := before] == s.slots;
    } else {
      WriteBytesFillsPrefix(s, count - 1);
      PaintOne(s, count - 1);
    }
  }

  /** Publishing with nothing in between does to slot `w` exactly what `SlotRecord.Publish` does. */
  lemma UninterruptedPublish(s: Ring.State)
    requires s.writer.Filling? && s.writer.written == 0 && s.writer.slot < |s.slots|
    requires |s.writer.data| <= |s.slots[s.writer.slot].payload| && |s.writer.data| <= U32_MAX
    ensures var w, q, data, before := s.writer.slot, s.writer.sequence, s.writer.data, s.slots[s.writer.slot];
            Ring.ApplyStoreSequence(Ring.ApplyStoreLength(WriteBytes(s, |data|))) ==
            Ring.SetSlot(s, w, Ring.Slot(|data|, q, data + before.payload[|data|..], before.ack,
                                         before.history + [Ring.Publication(q, data)]))
            .(writer := Ring.Idle)
  {
    var w, data, before := s.writer.slot, s.writer.data, s.slots[s.writer.slot];
    WriteBytesFillsPrefix(s, |data|);
    assert data[..|data|] == data;
    var after := Ring.ApplyStoreSequence(Ring.ApplyStoreLength(WriteBytes(s, |data|)));
    assert after.slots == s.slots[w := after.slots[w]];
  }
}
