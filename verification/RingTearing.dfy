/** When a copy that passes its recheck can still return bytes that were never
    published under its sequence. */
module RingTearing {
  import opened Machine
  import opened Slots
  import opened Ring
  import opened RingMoves
  import Layout
  import Wire

  /** A delivery whose bytes are those of a publication of its slot. */
  ghost predicate Honest(slots: seq<Slot>, d: Delivery) {
    d.slot < |slots| && Publication(d.sequence, d.bytes) in slots[d.slot].history
  }

  /** Reader `r` passed both rechecks with bytes that were never published under its sequence. */
  ghost predicate Torn(s: State, r: nat) {
    exists d :: 0 <= d < |s.delivered| && s.delivered[d].reader == r && !Honest(s.slots, s.delivered[d])
  }

  // ----- copies that can no longer go wrong -----

  ghost predicate Passed(s: State, i: nat, pub: Publication) {
    i < |s.slots| && s.slots[i].sequence > pub.sequence
  }

  /** The slot is undisturbed and no later sequence fits 64 bits, so it stays so. */
  ghost predicate Exhausted(s: State, i: nat, pub: Publication) {
    && Undisturbed(s.slots, s.writer, i, pub.sequence) && pub.sequence + |s.config.routes| > U64_MAX
    && s.slots[i].history != [] && s.slots[i].history[|s.slots[i].history| - 1] == pub
  }

  /** The slot's length differs and no later publication can change it. */
  ghost predicate LengthStuck(s: State, i: nat, length: nat) {
    && i < |s.slots| && s.slots[i].length != length
    && if OnSlot(s.writer, i) then s.writer.LengthStored? && s.writer.sequence + |s.config.routes| > U64_MAX
       else s.slots[i].sequence + |s.config.routes| > U64_MAX
  }

  /** Every byte the copy has read, or may still read while its slot is
      refilled, is the published one. */
  ghost predicate Agreeing(s: State, i: nat, pub: Publication, length: nat, copied: seq<byte>) {
    && OnSlot(s.writer, i) && i < |s.slots| && s.slots[i].sequence == pub.sequence
    && copied <= pub.bytes && length == |pub.bytes| <= |s.slots[i].payload|
    && (forall p :: |copied| <= p < |pub.bytes| ==> s.slots[i].payload[p] == pub.bytes[p])
    && (forall p :: |copied| <= p < |pub.bytes| && p < |s.writer.data| ==> s.writer.data[p] == pub.bytes[p])
  }

  ghost predicate SafeCopy(s: State, i: nat, pub: Publication, length: nat, copied: seq<byte>) {
    || Passed(s, i, pub) || Exhausted(s, i, pub) || (copied == pub.bytes && |copied| == length)
    || LengthStuck(s, i, length) || Agreeing(s, i, pub, length, copied)
  }

  ghost predicate SafeReader(s: State, i: nat, pub: Publication, reader: Reader) {
    match reader
    case Stopped => true
    case Loaded(_, _) => false
    case Rechecking(o, copied) =>
      && o.slotIndex == i && o.sequence == pub.sequence
      && (copied == pub.bytes || LengthStuck(s, i, o.payloadLen))
    case Copying(o, copied) =>
      o.slotIndex == i && o.sequence == pub.sequence && SafeCopy(s, i, pub, o.payloadLen, copied)
  }

  ghost predicate GoodDeliveries(s: State, r: nat, i: nat, pub: Publication) {
    forall d :: 0 <= d < |s.delivered| && s.delivered[d].reader == r ==>
      s.delivered[d].slot == i && s.delivered[d].sequence == pub.sequence && s.delivered[d].bytes == pub.bytes
  }

  ghost predicate Safe(s: State, r: nat, i: nat, pub: Publication) {
    && r < |s.readers| && i < |s.slots| && pub in s.slots[i].history
    && GoodDeliveries(s, r, i, pub) && SafeReader(s, i, pub, s.readers[r])
  }

  lemma SafeIsNotTorn(s: State, r: nat, i: nat, pub: Publication)
    requires Safe(s, r, i, pub)
    ensures !Torn(s, r)
  {
  }

  /** What a step that is not the reader's own must leave alone. */
  lemma OthersKeepSafe(s: State, t: State, r: nat, i: nat, pub: Publication)
    requires Safe(s, r, i, pub) && r < |t.readers| && t.readers[r] == s.readers[r]
    requires i < |t.slots| && s.slots[i].history <= t.slots[i].history
    requires GoodDeliveries(t, r, i, pub) && SafeReader(t, i, pub, s.readers[r])
    ensures Safe(t, r, i, pub)
  {
  }

  /** Steps that touch neither the slot's bytes nor the writer. */
  lemma SameSlotsKeepSafe(s: State, t: State, r: nat, i: nat, pub: Publication)
    requires Safe(s, r, i, pub) && r < |t.readers| && t.readers[r] == s.readers[r]
    requires i < |t.slots| && t.slots[i] == s.slots[i].(ack := t.slots[i].ack)
    requires t.writer == s.writer && t.config == s.config && GoodDeliveries(t, r, i, pub)
    ensures Safe(t, r, i, pub)
  {
    OthersKeepSafe(s, t, r, i, pub);
  }

  lemma BeginKeepsSafe(s: State, r: nat, i: nat, pub: Publication, j: nat, q: u64, ack: Option<AckObservation>,
                       data: seq<byte>)
    requires Inv(s) && Safe(s, r, i, pub)
    ensures Safe(ApplyBeginPublish(s, j, q, ack, data), r, i, pub)
  {
    var t := ApplyBeginPublish(s, j, q, ack, data);
    if t != s && j == i {
      BegunHasNext(s, i, pub, q, ack);
    }
    OthersKeepSafe(s, t, r, i, pub);
  }

  /** A slot that was published before is only refilled under a sequence that fits. */
  lemma BegunHasNext(s: State, i: nat, pub: Publication, q: u64, ack: Option<AckObservation>)
    requires Inv(s) && i < |s.slots| && pub in s.slots[i].history
    requires PublishFault(BindWriter(s.config, i), s.config.generation, s.slots[i].sequence, q, ack).None?
    ensures pub.sequence <= s.slots[i].sequence && s.slots[i].sequence + |s.config.routes| <= U64_MAX
  {
    var k :| 0 <= k < |s.slots[i].history| && s.slots[i].history[k] == pub;
    assert SlotOrder(s.config, i, s.slots[i]);
    PublishedAtMostLatest(s.config, i, s.slots[i], k);
  }

  lemma WriteKeepsSafe(s: State, r: nat, i: nat, pub: Publication)
    requires Inv(s) && Safe(s, r, i, pub)
    ensures Safe(ApplyWriteByte(s), r, i, pub)
  {
    OthersKeepSafe(s, ApplyWriteByte(s), r, i, pub);
  }

  lemma StoreLengthKeepsSafe(s: State, r: nat, i: nat, pub: Publication)
    requires Inv(s) && Safe(s, r, i, pub)
    ensures Safe(ApplyStoreLength(s), r, i, pub)
  {
    OthersKeepSafe(s, ApplyStoreLength(s), r, i, pub);
  }

  lemma StoreSequenceKeepsSafe(s: State, r: nat, i: nat, pub: Publication)
    requires Inv(s) && Safe(s, r, i, pub)
    ensures Safe(ApplyStoreSequence(s), r, i, pub)
  {
    var t := ApplyStoreSequence(s);
    if s.writer.LengthStored? && s.writer.slot == i {
      assert SlotOrder(s.config, i, s.slots[i]);
      SequenceAtGrows(|s.slots|, i, |s.slots[i].history| - 1, |s.slots[i].history|);
    }
    OthersKeepSafe(s, t, r, i, pub);
  }

  lemma LoadLengthKeepsSafe(s: State, r: nat, i: nat, pub: Publication, x: nat)
    requires Inv(s) && Safe(s, r, i, pub)
    ensures Safe(ApplyLoadLength(s, x), r, i, pub)
  {
    SameSlotsKeepSafe(s, ApplyLoadLength(s, x), r, i, pub);
  }

  lemma CopyKeepsSafe(s: State, r: nat, i: nat, pub: Publication, x: nat)
    requires Inv(s) && Safe(s, r, i, pub)
    ensures Safe(ApplyCopyByte(s, x), r, i, pub)
  {
    if x != r {
      SameSlotsKeepSafe(s, ApplyCopyByte(s, x), r, i, pub);
    }
  }

  /** With its last byte read, an undisturbed copy is the publication. */
  lemma FullCopyIsExact(s: State, r: nat)
    requires Inv(s) && r < |s.readers| && s.readers[r].Copying?
    requires var o := s.readers[r].observation;
             Undisturbed(s.slots, s.writer, o.slotIndex, o.sequence) && |s.readers[r].copied| == o.payloadLen
    ensures var o := s.readers[r].observation;
            var history := s.slots[o.slotIndex].history;
            history != [] && history[|history| - 1] == Publication(o.sequence, s.readers[r].copied)
  {
    assert ReaderInv(s.config, s.slots, s.writer, s.observations, s.readers[r]);
  }

  lemma RecheckKeepsSafe(s: State, r: nat, i: nat, pub: Publication, x: nat)
    requires Inv(s) && Safe(s, r, i, pub)
    ensures Safe(ApplyRecheckSequence(s, x), r, i, pub)
  {
    var t := ApplyRecheckSequence(s, x);
    if x != r {
      SameSlotsKeepSafe(s, t, r, i, pub);
    } else if t != s && Exhausted(s, i, pub) {
      FullCopyIsExact(s, r);
    }
  }

  lemma ReturnKeepsSafe(s: State, r: nat, i: nat, pub: Publication, x: nat)
    requires Inv(s) && Safe(s, r, i, pub)
    ensures Safe(ApplyRecheckLength(s, x), r, i, pub)
  {
    if x != r {
      SameSlotsKeepSafe(s, ApplyRecheckLength(s, x), r, i, pub);
    }
  }

  lemma StepKeepsSafe(s: State, r: nat, i: nat, pub: Publication, step: Step)
    requires Inv(s) && Safe(s, r, i, pub)
    ensures Safe(Apply(s, step), r, i, pub)
  {
    match step
    case ReadAck(j) => SameSlotsKeepSafe(s, ApplyReadAck(s, j), r, i, pub);
    case BeginPublish(j, q, ack, data) => BeginKeepsSafe(s, r, i, pub, j, q, ack, data);
    case WriteByte => WriteKeepsSafe(s, r, i, pub);
    case StoreLength => StoreLengthKeepsSafe(s, r, i, pub);
    case StoreSequence => StoreSequenceKeepsSafe(s, r, i, pub);
    case LoadSequence(j, q) => SameSlotsKeepSafe(s, ApplyLoadSequence(s, j, q), r, i, pub);
    case LoadLength(x) => LoadLengthKeepsSafe(s, r, i, pub, x);
    case CopyByte(x) => CopyKeepsSafe(s, r, i, pub, x);
    case RecheckSequence(x) => RecheckKeepsSafe(s, r, i, pub, x);
    case RecheckLength(x) => ReturnKeepsSafe(s, r, i, pub, x);
    case Acknowledge(o) => SameSlotsKeepSafe(s, ApplyAcknowledge(s, o), r, i, pub);
  }

  lemma {:induction false} SafeForever(s: State, r: nat, i: nat, pub: Publication, more: seq<Step>)
    requires Inv(s) && Safe(s, r, i, pub)
    ensures Safe(Continue(s, more), r, i, pub)
    decreases |more|
  {
    if more != [] {
      StepKeepsInv(s, more[0]);
      StepKeepsSafe(s, r, i, pub, more[0]);
      SafeForever(Apply(s, more[0]), r, i, pub, more[1..]);
    }
  }

  // ----- a reader returns once -----

  ghost predicate Returned(s: State) {
    forall d :: 0 <= d < |s.delivered| ==>
      s.delivered[d].reader < |s.readers| && s.readers[s.delivered[d].reader].Stopped?
  }

  lemma StepKeepsReturned(s: State, step: Step)
    requires WellSized(s) && Returned(s)
    ensures Returned(Apply(s, step))
  {
  }

  lemma {:induction false} EveryRunReturns(c: Config, steps: seq<Step>)
    requires ValidConfig(c)
    ensures Returned(Run(c, steps))
  {
    if steps != [] {
      EveryRunReturns(c, steps[..|steps| - 1]);
      StepKeepsReturned(Run(c, steps[..|steps| - 1]), steps[|steps| - 1]);
    }
  }

  // ----- a slot being refilled -----

  ghost function LastBytes(slot: Slot): seq<byte>
    requires slot.history != []
  {
    slot.history[|slot.history| - 1].bytes
  }

  /** Until the refill stores its length, the slot shows the old length and,
      beyond what is written, the old bytes. */
  ghost predicate OldBeyond(slot: Slot, written: nat) {
    slot.history != [] ==>
      && slot.length == |LastBytes(slot)| <= |slot.payload|
      && forall p :: written <= p < |LastBytes(slot)| ==> slot.payload[p] == LastBytes(slot)[p]
  }

  /** Copies of the latest publication began with its length. */
  ghost predicate OldLengths(slot: Slot, i: nat, reader: Reader) {
    reader.Copying? && reader.observation.slotIndex == i && reader.observation.sequence == slot.sequence
    ==> slot.history == [] || reader.observation.payloadLen == |LastBytes(slot)|
  }

  ghost predicate Refilling(s: State) {
    s.writer.Filling? ==>
      && s.writer.slot < |s.slots| && OldBeyond(s.slots[s.writer.slot], s.writer.written)
      && forall r :: 0 <= r < |s.readers| ==> OldLengths(s.slots[s.writer.slot], s.writer.slot, s.readers[r])
  }

  lemma BeginKeepsRefilling(s: State, j: nat, q: u64, ack: Option<AckObservation>, data: seq<byte>)
    requires Inv(s) && Refilling(s)
    ensures Refilling(ApplyBeginPublish(s, j, q, ack, data))
  {
    var t := ApplyBeginPublish(s, j, q, ack, data);
    if t != s {
      assert Intact(s.slots[j]);
      forall r | 0 <= r < |s.readers| ensures OldLengths(s.slots[j], j, s.readers[r]) {
        assert ReaderInv(s.config, s.slots, s.writer, s.observations, s.readers[r]);
      }
    }
  }

  lemma WriteKeepsRefilling(s: State)
    requires Inv(s) && Refilling(s)
    ensures Refilling(ApplyWriteByte(s))
  {
  }

  lemma StoresKeepRefilling(s: State)
    requires Refilling(s)
    ensures Refilling(ApplyStoreLength(s)) && Refilling(ApplyStoreSequence(s))
  {
  }

  lemma LoadKeepsRefilling(s: State, r: nat)
    requires WellSized(s) && Refilling(s)
    ensures Refilling(ApplyLoadLength(s, r))
  {
    OthersKeepRefilling(s, ApplyLoadLength(s, r));
  }

  lemma CopyKeepsRefilling(s: State, r: nat)
    requires WellSized(s) && Refilling(s)
    ensures Refilling(ApplyCopyByte(s, r))
  {
    OthersKeepRefilling(s, ApplyCopyByte(s, r));
  }

  lemma RechecksKeepRefilling(s: State, r: nat)
    requires WellSized(s) && Refilling(s)
    ensures Refilling(ApplyRecheckSequence(s, r)) && Refilling(ApplyRecheckLength(s, r))
  {
    OthersKeepRefilling(s, ApplyRecheckSequence(s, r));
    OthersKeepRefilling(s, ApplyRecheckLength(s, r));
  }

  /** Steps that leave the writer and its slot alone and only start copies with the slot's length. */
  lemma OthersKeepRefilling(s: State, t: State)
    requires Refilling(s) && t.writer == s.writer && |t.slots| == |s.slots|
    requires forall i :: 0 <= i < |s.slots| ==> t.slots[i] == s.slots[i].(ack := t.slots[i].ack)
    requires forall r :: 0 <= r < |t.readers| && t.readers[r].Copying? ==>
               || (r < |s.readers| && s.readers[r].Copying? && s.readers[r].observation == t.readers[r].observation)
               || (t.readers[r].observation.slotIndex < |s.slots|
                   && t.readers[r].observation.payloadLen == s.slots[t.readers[r].observation.slotIndex].length)
    ensures Refilling(t)
  {
    if s.writer.Filling? {
      var w := s.writer.slot;
      forall r | 0 <= r < |t.readers| ensures OldLengths(t.slots[w], w, t.readers[r]) {
        assert r < |s.readers| ==> OldLengths(s.slots[w], w, s.readers[r]);
      }
    }
  }

  lemma StepKeepsRefilling(s: State, step: Step)
    requires Inv(s) && Refilling(s)
    ensures Refilling(Apply(s, step))
  {
    match step
    case ReadAck(i) => OthersKeepRefilling(s, ApplyReadAck(s, i));
    case BeginPublish(j, q, ack, data) => BeginKeepsRefilling(s, j, q, ack, data);
    case WriteByte => WriteKeepsRefilling(s);
    case StoreLength => StoresKeepRefilling(s);
    case StoreSequence => StoresKeepRefilling(s);
    case LoadSequence(i, q) => OthersKeepRefilling(s, ApplyLoadSequence(s, i, q));
    case LoadLength(r) => LoadKeepsRefilling(s, r);
    case CopyByte(r) => CopyKeepsRefilling(s, r);
    case RecheckSequence(r) => RechecksKeepRefilling(s, r);
    case RecheckLength(r) => RechecksKeepRefilling(s, r);
    case Acknowledge(o) => OthersKeepRefilling(s, ApplyAcknowledge(s, o));
  }

  lemma {:induction false} EveryRunKeepsRefilling(c: Config, steps: seq<Step>)
    requires ValidConfig(c)
    ensures Refilling(Run(c, steps))
  {
    if steps != [] {
      EveryRunKeepsRefilling(c, steps[..|steps| - 1]);
      EveryRunKeepsInv(c, steps[..|steps| - 1]);
      StepKeepsRefilling(Run(c, steps[..|steps| - 1]), steps[|steps| - 1]);
    }
  }

  // ----- tearing a copy -----

  /** A copy under way that has bytes left to read from an undisturbed slot
      whose next sequence exists. */
  ghost predicate TearableNow(s: State, o: SlotObservation, copied: seq<byte>) {
    && Undisturbed(s.slots, s.writer, o.slotIndex, o.sequence)
    && |copied| < o.payloadLen && o.sequence + |s.config.routes| <= U64_MAX
  }

  /** A copy from a slot whose refill is storing bytes: it holds, or can still
      read, a byte that is not the published one. */
  ghost predicate TearableFilling(s: State, o: SlotObservation, copied: seq<byte>) {
    && s.writer.Filling? && s.writer.slot == o.slotIndex < |s.slots|
    && s.slots[o.slotIndex].sequence == o.sequence && s.slots[o.slotIndex].history != []
    && var last := LastBytes(s.slots[o.slotIndex]);
       || !(copied <= last)
       || exists p :: |copied| <= p < |last| && p < |s.writer.data| && s.writer.data[p] != last[p]
  }

  /** A copy from a slot whose refill has stored its length: what it will hold
      is not the publication, and the length it observed is the one stored or
      can be stored by one more publication. */
  ghost predicate TearableStored(s: State, o: SlotObservation, copied: seq<byte>) {
    && s.writer.LengthStored? && s.writer.slot == o.slotIndex < |s.slots|
    && s.slots[o.slotIndex].sequence == o.sequence && s.slots[o.slotIndex].history != []
    && |copied| <= o.payloadLen <= |s.slots[o.slotIndex].payload|
    && copied + s.slots[o.slotIndex].payload[|copied|..o.payloadLen] != LastBytes(s.slots[o.slotIndex])
    && (o.payloadLen == |s.writer.data| || o.sequence + 2 * |s.config.routes| <= U64_MAX)
  }

  ghost predicate Tearable(s: State, r: nat) {
    && r < |s.readers| && s.readers[r].Copying?
    && var o, copied := s.readers[r].observation, s.readers[r].copied;
       TearableNow(s, o, copied) || TearableFilling(s, o, copied) || TearableStored(s, o, copied)
  }

  /** A return under the slot's own sequence with bytes other than its latest is torn. */
  lemma NotPublished(s: State, t: State, d: nat)
    requires Inv(s) && |t.slots| == |s.slots| && d < |t.delivered| && t.delivered[d].slot < |s.slots|
    requires var i := t.delivered[d].slot;
             var slot := s.slots[i];
             && slot.history != [] && t.delivered[d].sequence == slot.sequence
             && t.delivered[d].bytes != LastBytes(slot)
             && forall p :: p in t.slots[i].history && p.sequence == slot.sequence ==> p in slot.history
    ensures Torn(t, t.delivered[d].reader)
  {
    var i, bytes := t.delivered[d].slot, t.delivered[d].bytes;
    if Honest(t.slots, t.delivered[d]) {
      assert Publication(t.delivered[d].sequence, bytes) in s.slots[i].history;
      HistoryNamesOnce(s, i, bytes);
    }
  }

  /** Only the latest publication carries the latest sequence. */
  lemma HistoryNamesOnce(s: State, i: nat, bytes: seq<byte>)
    requires Inv(s) && i < |s.slots| && s.slots[i].history != []
    requires Publication(s.slots[i].sequence, bytes) in s.slots[i].history
    ensures bytes == LastBytes(s.slots[i])
  {
    var history := s.slots[i].history;
    var k :| 0 <= k < |history| && history[k] == Publication(s.slots[i].sequence, bytes);
    assert SlotOrder(s.config, i, s.slots[i]);
    PublishedAtMostLatest(s.config, i, s.slots[i], k);
  }

  /** While sequence and length stand, the copy goes on and returns whatever it finds. */
  lemma CopyReturns(s: State, r: nat) returns (more: seq<Step>)
    requires Inv(s) && r < |s.readers| && s.readers[r].Copying?
    requires var o := s.readers[r].observation;
             o.slotIndex < |s.slots| && s.slots[o.slotIndex].sequence == o.sequence
             && s.slots[o.slotIndex].length == o.payloadLen
    ensures var t, o, copied := Continue(s, more), s.readers[r].observation, s.readers[r].copied;
            && t.slots == s.slots && |copied| <= o.payloadLen <= |s.slots[o.slotIndex].payload|
            && t.delivered == s.delivered
                              + [Delivery(r, o.slotIndex, o.sequence,
                                          copied + s.slots[o.slotIndex].payload[|copied|..o.payloadLen],
                                          s.slots[o.slotIndex].ack)]
  {
    var copy := CopyRest(s, r);
    var full := Continue(s, copy);
    ContinueKeepsInv(s, copy);
    ReturnCopy(full, r);
    more := copy + [RecheckSequence(r), RecheckLength(r)];
    ContinueThen(s, copy, [RecheckSequence(r), RecheckLength(r)]);
  }

  /** The refill stores its bytes, then the copy goes on. */
  lemma FillThenReturn(s: State, r: nat) returns (more: seq<Step>)
    requires Inv(s) && s.writer.Filling? && r < |s.readers| && s.readers[r].Copying?
    requires var o := s.readers[r].observation;
             && s.writer.slot == o.slotIndex < |s.slots|
             && s.slots[o.slotIndex].sequence == o.sequence && s.slots[o.slotIndex].length == o.payloadLen
    ensures var t, o, copied := Continue(s, more), s.readers[r].observation, s.readers[r].copied;
            && |t.slots| == |s.slots| && t.slots[o.slotIndex].history == s.slots[o.slotIndex].history
            && |t.delivered| == |s.delivered| + 1
            && var d := t.delivered[|s.delivered|];
               && d.reader == r && d.slot == o.slotIndex && d.sequence == o.sequence
               && |d.bytes| == o.payloadLen && copied <= d.bytes
               && forall p :: |copied| <= p < o.payloadLen && p < |s.writer.data| ==> d.bytes[p] == s.writer.data[p]
  {
    var fill := Fill(s);
    var filled := Continue(s, fill);
    var back := CopyReturns(filled, r);
    more := fill + back;
    ContinueThen(s, fill, back);
    var data, payload := s.writer.data, filled.slots[s.writer.slot].payload;
    forall p | 0 <= p < |data| ensures payload[p] == data[p] {
      assert payload[..|data|][p] == data[p];
    }
  }

  lemma FillingTears(s: State, r: nat) returns (more: seq<Step>)
    requires Inv(s) && Refilling(s) && r < |s.readers| && s.readers[r].Copying?
    requires TearableFilling(s, s.readers[r].observation, s.readers[r].copied)
    ensures Torn(Continue(s, more), r)
  {
    var i := s.readers[r].observation.slotIndex;
    assert OldLengths(s.slots[i], i, s.readers[r]);
    more := FillThenReturn(s, r);
    NotPublished(s, Continue(s, more), |s.delivered|);
  }

  // ----- from an undisturbed slot -----

  /** Payload bytes that agree up to `j` and differ there. */
  function Altered(bytes: seq<byte>, j: nat): (data: seq<byte>)
    requires j < |bytes|
    ensures |data| == j + 1 && data[j] != bytes[j]
  {
    bytes[..j] + [if bytes[j] == 0 then 1 else 0]
  }

  lemma CopyIsBehind(s: State, r: nat)
    requires Inv(s) && r < |s.readers| && s.readers[r].Copying?
    requires TearableNow(s, s.readers[r].observation, s.readers[r].copied)
    ensures var o := s.readers[r].observation;
            var slot := s.slots[o.slotIndex];
            && slot.history != [] && slot.length == o.payloadLen == |LastBytes(slot)|
            && |s.readers[r].copied| < |LastBytes(slot)| <= s.config.capacity
  {
    var o := s.readers[r].observation;
    assert ReaderInv(s.config, s.slots, s.writer, s.observations, s.readers[r]);
    UndisturbedIsIntact(s, o.slotIndex, o.sequence);
  }

  /** From an idle writer and an acknowledged sequence, a refill tears the copy. */
  lemma TearAcknowledged(s: State, r: nat) returns (more: seq<Step>)
    requires Inv(s) && r < |s.readers| && s.readers[r].Copying? && s.writer.Idle?
    requires TearableNow(s, s.readers[r].observation, s.readers[r].copied)
    requires var o := s.readers[r].observation; s.slots[o.slotIndex].ack == o.sequence
    ensures Torn(Continue(s, more), r)
  {
    CopyIsBehind(s, r);
    var i, j := s.readers[r].observation.slotIndex, |s.readers[r].copied|;
    var refill := RefillBegins(s, i, Altered(LastBytes(s.slots[i]), j));
    var begun := Continue(s, refill);
    var back := FillThenReturn(begun, r);
    more := refill + back;
    ContinueThen(s, refill, back);
    NotPublished(begun, Continue(begun, back), |s.delivered|);
  }

  /** The writer finishes elsewhere, the sequence is acknowledged, the slot is refilled. */
  lemma UndisturbedTears(s: State, r: nat) returns (more: seq<Step>)
    requires Inv(s) && r < |s.readers| && s.readers[r].Copying?
    requires TearableNow(s, s.readers[r].observation, s.readers[r].copied)
    ensures Torn(Continue(s, more), r)
  {
    var o := s.readers[r].observation;
    var drain := Drain(s, o.slotIndex);
    var idle := Continue(s, drain);
    AcknowledgeObserved(idle, r);
    var acknowledged := Continue(idle, [Acknowledge(o)]);
    var tear := TearAcknowledged(acknowledged, r);
    more := drain + ([Acknowledge(o)] + tear);
    ContinueThen(s, drain, [Acknowledge(o)] + tear);
    ContinueThen(idle, [Acknowledge(o)], tear);
  }

  // ----- from a slot whose refill has stored its length -----

  lemma StoredTearsNow(s: State, r: nat) returns (more: seq<Step>)
    requires Inv(s) && r < |s.readers| && s.readers[r].Copying?
    requires TearableStored(s, s.readers[r].observation, s.readers[r].copied)
    requires s.readers[r].observation.payloadLen == |s.writer.data|
    ensures Torn(Continue(s, more), r)
  {
    more := CopyReturns(s, r);
    NotPublished(s, Continue(s, more), |s.delivered|);
  }

  lemma StoredTears(s: State, r: nat) returns (more: seq<Step>)
    requires Inv(s) && r < |s.readers| && s.readers[r].Copying?
    requires TearableStored(s, s.readers[r].observation, s.readers[r].copied)
    ensures Torn(Continue(s, more), r)
  {
    if s.readers[r].observation.payloadLen == |s.writer.data| {
      more := StoredTearsNow(s, r);
    } else {
      more := StoredTearsLater(s, r);
    }
  }

  /** The copy passes the first recheck; the refill and one more publication go
      by, the second storing the length the copy observed; the copy passes the
      second recheck. */
  lemma StoredTearsLater(s: State, r: nat) returns (more: seq<Step>)
    requires Inv(s) && r < |s.readers| && s.readers[r].Copying?
    requires TearableStored(s, s.readers[r].observation, s.readers[r].copied)
    requires s.readers[r].observation.payloadLen != |s.writer.data|
    ensures Torn(Continue(s, more), r)
  {
    var o := s.readers[r].observation;
    var copy := CopyRest(s, r);
    var full := Continue(s, copy);
    ContinueKeepsInv(s, copy);
    var pass := PassesFirst(full, r);
    var passed := Continue(full, pass);
    var again := StoreAgain(passed, o.slotIndex, o.payloadLen);
    var stored := Continue(passed, again);
    var last := [RecheckLength(r)];
    ContinueOne(stored, RecheckLength(r));
    more := copy + (pass + (again + last));
    ContinueThen(s, copy, pass + (again + last));
    ContinueThen(full, pass, again + last);
    ContinueThen(passed, again, last);
    NotPublished(s, Continue(stored, last), |s.delivered|);
  }

  /** A full copy passes the first recheck just before the refill is published. */
  lemma PassesFirst(s: State, r: nat) returns (more: seq<Step>)
    requires Inv(s) && s.writer.LengthStored? && r < |s.readers| && s.readers[r].Copying?
    requires var o := s.readers[r].observation;
             && s.writer.slot == o.slotIndex < |s.slots| && s.slots[o.slotIndex].sequence == o.sequence
             && s.slots[o.slotIndex].history != [] && |s.readers[r].copied| == o.payloadLen
    ensures var t, o, i := Continue(s, more), s.readers[r].observation, s.readers[r].observation.slotIndex;
            && Inv(t) && t.writer.Idle? && |t.slots| == |s.slots| && t.delivered == s.delivered
            && t.slots[i].history == s.slots[i].history + [Publication(s.writer.sequence, s.writer.data)]
            && t.slots[i].sequence == s.writer.sequence == o.sequence + |s.slots|
            && r < |t.readers| && t.readers[r] == Rechecking(o, s.readers[r].copied)
  {
    assert ReaderInv(s.config, s.slots, s.writer, s.observations, s.readers[r]);
    assert SlotOrder(s.config, s.writer.slot, s.slots[s.writer.slot]);
    ApplyKeepsSizes(s, RecheckSequence(r));
    ContinueTwo(s, RecheckSequence(r), StoreSequence);
    more := [RecheckSequence(r), StoreSequence];
    ContinueKeepsInv(s, more);
  }

  // ----- the exact condition -----

  /** Every tearable copy has a continuation in which it is torn. */
  lemma TearableTears(s: State, r: nat) returns (more: seq<Step>)
    requires Inv(s) && Refilling(s) && Tearable(s, r)
    ensures Torn(Continue(s, more), r)
  {
    var o, copied := s.readers[r].observation, s.readers[r].copied;
    if TearableNow(s, o, copied) {
      more := UndisturbedTears(s, r);
    } else if TearableFilling(s, o, copied) {
      more := FillingTears(s, r);
    } else {
      more := StoredTears(s, r);
    }
  }

  lemma SafeUndisturbed(s: State, r: nat) returns (pub: Publication)
    requires Inv(s) && Returned(s) && r < |s.readers| && s.readers[r].Copying? && !Tearable(s, r)
    requires !OnSlot(s.writer, s.readers[r].observation.slotIndex)
    ensures Safe(s, r, s.readers[r].observation.slotIndex, pub)
  {
    var o := s.readers[r].observation;
    var i := o.slotIndex;
    assert ReaderInv(s.config, s.slots, s.writer, s.observations, s.readers[r]);
    var history := s.slots[i].history;
    var k :| 0 <= k < |history| && history[k].sequence == o.sequence;
    PublishedAtMostLatest(s.config, i, s.slots[i], k);
    if s.slots[i].sequence == o.sequence {
      UndisturbedIsIntact(s, i, o.sequence);
      pub := history[|history| - 1];
    } else {
      pub := history[k];
    }
  }

  /** Bytes past the writer's reach are the published ones, so an untearable copy agrees. */
  lemma SafeFilling(s: State, r: nat) returns (pub: Publication)
    requires Inv(s) && Returned(s) && Refilling(s) && r < |s.readers| && s.readers[r].Copying? && !Tearable(s, r)
    requires var o := s.readers[r].observation; s.writer.Filling? && s.writer.slot == o.slotIndex < |s.slots|
    requires var o := s.readers[r].observation; s.slots[o.slotIndex].sequence == o.sequence
    ensures Safe(s, r, s.readers[r].observation.slotIndex, pub)
  {
    var o, copied := s.readers[r].observation, s.readers[r].copied;
    var slot := s.slots[o.slotIndex];
    pub := LatestOf(s, r);
    assert OldLengths(slot, o.slotIndex, s.readers[r]);
    forall p | |copied| <= p < |pub.bytes| ensures slot.payload[p] == pub.bytes[p] {
      if p < s.writer.written {
        assert slot.payload[..s.writer.written][p] == s.writer.data[..s.writer.written][p];
      }
    }
  }

  /** A reader of the slot's own sequence reads its latest publication. */
  lemma LatestOf(s: State, r: nat) returns (pub: Publication)
    requires Inv(s) && r < |s.readers| && s.readers[r].Copying?
    requires var o := s.readers[r].observation;
             o.slotIndex < |s.slots| && s.slots[o.slotIndex].sequence == o.sequence
    ensures var slot := s.slots[s.readers[r].observation.slotIndex];
            && slot.history != [] && pub == slot.history[|slot.history| - 1]
            && pub.sequence == s.readers[r].observation.sequence && pub in slot.history
  {
    var o := s.readers[r].observation;
    assert ReaderInv(s.config, s.slots, s.writer, s.observations, s.readers[r]);
    assert SlotOrder(s.config, o.slotIndex, s.slots[o.slotIndex]);
    pub := s.slots[o.slotIndex].history[|s.slots[o.slotIndex].history| - 1];
  }

  lemma SafeStored(s: State, r: nat) returns (pub: Publication)
    requires Inv(s) && Returned(s) && r < |s.readers| && s.readers[r].Copying? && !Tearable(s, r)
    requires var o := s.readers[r].observation; s.writer.LengthStored? && s.writer.slot == o.slotIndex < |s.slots|
    requires var o := s.readers[r].observation; s.slots[o.slotIndex].sequence == o.sequence
    ensures Safe(s, r, s.readers[r].observation.slotIndex, pub)
  {
    var o, copied := s.readers[r].observation, s.readers[r].copied;
    var i := o.slotIndex;
    var payload := s.slots[i].payload;
    pub := LatestOf(s, r);
    assert ReaderInv(s.config, s.slots, s.writer, s.observations, s.readers[r]);
    assert SlotOrder(s.config, i, s.slots[i]);
    if copied + payload[|copied|..o.payloadLen] == pub.bytes {
      ReadsOn(copied, payload, o.payloadLen, pub.bytes);
      StoredAgrees(s, i, pub, o.payloadLen, copied);
    } else {
      assert LengthStuck(s, i, o.payloadLen);
    }
  }

  lemma ReadsOn(copied: seq<byte>, payload: seq<byte>, length: nat, bytes: seq<byte>)
    requires |copied| <= length <= |payload| && copied + payload[|copied|..length] == bytes
    ensures copied <= bytes && |bytes| == length && forall p :: |copied| <= p < length ==> payload[p] == bytes[p]
  {
    forall p | |copied| <= p < length ensures payload[p] == bytes[p] {
      assert bytes[p] == payload[|copied|..length][p - |copied|];
    }
  }

  lemma StoredAgrees(s: State, i: nat, pub: Publication, length: nat, copied: seq<byte>)
    requires Inv(s) && s.writer.LengthStored? && s.writer.slot == i < |s.slots| && s.slots[i].sequence == pub.sequence
    requires copied <= pub.bytes && length == |pub.bytes| <= |s.slots[i].payload|
    requires forall p :: |copied| <= p < |pub.bytes| ==> s.slots[i].payload[p] == pub.bytes[p]
    ensures Agreeing(s, i, pub, length, copied)
  {
    forall p | |copied| <= p < |pub.bytes| && p < |s.writer.data| ensures s.writer.data[p] == pub.bytes[p] {
      assert s.slots[i].payload[..|s.writer.data|][p] == s.writer.data[p];
    }
  }

  /** A copy of an earlier sequence fails its recheck. */
  lemma SafePassed(s: State, r: nat) returns (pub: Publication)
    requires Inv(s) && Returned(s) && r < |s.readers| && s.readers[r].Copying?
    requires var o := s.readers[r].observation; o.slotIndex < |s.slots| && s.slots[o.slotIndex].sequence != o.sequence
    ensures Safe(s, r, s.readers[r].observation.slotIndex, pub)
  {
    var o := s.readers[r].observation;
    var i := o.slotIndex;
    assert ReaderInv(s.config, s.slots, s.writer, s.observations, s.readers[r]);
    var k :| 0 <= k < |s.slots[i].history| && s.slots[i].history[k].sequence == o.sequence;
    PublishedAtMostLatest(s.config, i, s.slots[i], k);
    pub := s.slots[i].history[k];
  }

  lemma SafeStart(s: State, r: nat) returns (pub: Publication)
    requires Inv(s) && Returned(s) && Refilling(s) && r < |s.readers| && s.readers[r].Copying? && !Tearable(s, r)
    ensures Safe(s, r, s.readers[r].observation.slotIndex, pub)
  {
    var i := s.readers[r].observation.slotIndex;
    assert ReaderInv(s.config, s.slots, s.writer, s.observations, s.readers[r]);
    if s.slots[i].sequence != s.readers[r].observation.sequence {
      pub := SafePassed(s, r);
    } else if !OnSlot(s.writer, i) {
      pub := SafeUndisturbed(s, r);
    } else if s.writer.Filling? {
      pub := SafeFilling(s, r);
    } else {
      pub := SafeStored(s, r);
    }
  }

  /** A copy under way can still be torn, with every check of the code passing,
      exactly when its sequence is still the slot's and one of these holds: the
      slot is not being refilled, a byte is unread and a next sequence exists;
      its refill is storing bytes and the copy holds or can still read a byte
      that is not the published one; its refill has stored its length, the bytes
      read and still to read are not the publication, and the observed length is
      that one or can be stored by another publication. Acknowledging a sequence
      only after its last byte was read therefore suffices, and nothing earlier
      does. */
  lemma TearsExactly(c: Config, steps: seq<Step>, r: nat)
    requires ValidConfig(c) && r < |Run(c, steps).readers| && Run(c, steps).readers[r].Copying?
    ensures (exists more :: Torn(Run(c, steps + more), r)) <==> Tearable(Run(c, steps), r)
  {
    var s := Run(c, steps);
    EveryRunKeepsInv(c, steps);
    EveryRunReturns(c, steps);
    EveryRunKeepsRefilling(c, steps);
    if Tearable(s, r) {
      var more := TearableTears(s, r);
      RunContinues(c, steps, more);
    } else {
      var pub := SafeStart(s, r);
      forall more ensures !Torn(Run(c, steps + more), r) {
        RunContinues(c, steps, more);
        SafeForever(s, r, s.readers[r].observation.slotIndex, pub, more);
        SafeIsNotTorn(Continue(s, more), r, s.readers[r].observation.slotIndex, pub);
      }
    }
  }

  /** A copy whose last byte was read before its sequence was acknowledged is
      never torn, however long its rechecks take and whatever happens meanwhile. */
  lemma LastByteBeforeAcknowledgement(c: Config, steps: seq<Step>, r: nat, more: seq<Step>)
    requires ValidConfig(c) && r < |Run(c, steps).readers| && Run(c, steps).readers[r].Copying?
    requires var s := Run(c, steps);
             var o := s.readers[r].observation;
             && |s.readers[r].copied| == o.payloadLen
             && o.slotIndex < |s.slots| && s.slots[o.slotIndex].ack < o.sequence
    ensures !Torn(Run(c, steps + more), r)
  {
    var s := Run(c, steps);
    EveryRunKeepsInv(c, steps);
    assert ReaderInv(s.config, s.slots, s.writer, s.observations, s.readers[r]);
    UnacknowledgedIsLatestAndIntact(s, s.readers[r].observation.slotIndex, s.readers[r].observation.sequence);
    TearsExactly(c, steps, r);
  }

  // ----- which rings can tear at all -----

  /** No payload, publication or delivery is longer than the slots allow. */
  ghost predicate Bounded(s: State) {
    && (forall i, k :: 0 <= i < |s.slots| && 0 <= k < |s.slots[i].history| ==>
          |s.slots[i].history[k].bytes| <= s.config.capacity)
    && (forall d :: 0 <= d < |s.delivered| ==> |s.delivered[d].bytes| <= s.config.capacity)
  }

  lemma StoreKeepsBounded(s: State)
    requires Inv(s) && Bounded(s)
    ensures Bounded(ApplyStoreSequence(s))
  {
  }

  lemma ReturnKeepsBounded(s: State, r: nat)
    requires Inv(s) && Bounded(s)
    ensures Bounded(ApplyRecheckLength(s, r))
  {
    if r < |s.readers| {
      assert ReaderInv(s.config, s.slots, s.writer, s.observations, s.readers[r]);
    }
  }

  lemma OthersKeepBounded(s: State, t: State)
    requires Bounded(s) && t.config == s.config && t.delivered == s.delivered && |t.slots| == |s.slots|
    requires forall i :: 0 <= i < |s.slots| ==> t.slots[i].history == s.slots[i].history
    ensures Bounded(t)
  {
    forall i, k | 0 <= i < |t.slots| && 0 <= k < |t.slots[i].history|
      ensures |t.slots[i].history[k].bytes| <= t.config.capacity
    {
      assert |s.slots[i].history[k].bytes| <= s.config.capacity;
    }
  }

  lemma StepKeepsBounded(s: State, step: Step)
    requires Inv(s) && Bounded(s)
    ensures Bounded(Apply(s, step))
  {
    match step
    case StoreSequence => StoreKeepsBounded(s);
    case RecheckLength(r) => ReturnKeepsBounded(s, r);
    case _ => OthersKeepBounded(s, Apply(s, step));
  }

  lemma {:induction false} EveryRunIsBounded(c: Config, steps: seq<Step>)
    requires ValidConfig(c)
    ensures Bounded(Run(c, steps))
  {
    if steps != [] {
      EveryRunIsBounded(c, steps[..|steps| - 1]);
      EveryRunKeepsInv(c, steps[..|steps| - 1]);
      StepKeepsBounded(Run(c, steps[..|steps| - 1]), steps[|steps| - 1]);
    }
  }

  /** With no payload bytes there is nothing to tear. */
  lemma EmptyPayloadsNeverTear(c: Config, steps: seq<Step>, r: nat)
    requires ValidConfig(c) && c.capacity == 0
    ensures !Torn(Run(c, steps), r)
  {
    var s := Run(c, steps);
    EveryRunIsBounded(c, steps);
    EveryRunKeepsInv(c, steps);
    forall d | 0 <= d < |s.delivered| ensures Honest(s.slots, s.delivered[d]) {
      assert DeliveryInv(s.slots, s.delivered[d]);
      var delivery := s.delivered[d];
      var history := s.slots[delivery.slot].history;
      var k :| 0 <= k < |history| && history[k].sequence == delivery.sequence;
      assert history[k] == Publication(delivery.sequence, delivery.bytes);
    }
  }

  lemma FirstBegins(c: Config, data: seq<byte>) returns (more: seq<Step>)
    requires ValidConfig(c) && |data| <= c.capacity
    ensures var s := Run(c, []);
            && s.writer.Idle? && s.slots[0].history == [] && s.readers == []
            && Continue(s, more) == s.(writer := Filling(0, 1, data, 0))
  {
    var s := Run(c, []);
    PublishAllowedExactly(BindWriter(c, 0), c.generation, 0, 1, None);
    more := [BeginPublish(0, 1, None, data)];
    ContinueOne(s, more[0]);
  }

  /** The first byte of a ring is published. */
  lemma FirstPublished(c: Config) returns (more: seq<Step>)
    requires ValidConfig(c) && c.capacity > 0
    ensures var t := Continue(Run(c, []), more);
            && Inv(t) && t.writer.Idle? && t.readers == [] && |t.slots| == |c.routes|
            && t.slots[0].sequence == 1 && t.slots[0].length == 1
  {
    var s := Run(c, []);
    EveryRunKeepsInv(c, []);
    var begin := FirstBegins(c, [0]);
    var begun := Continue(s, begin);
    ContinueKeepsInv(s, begin);
    var fill := Fill(begun);
    var filled := Continue(begun, fill);
    var publish := StoreHere(filled);
    more := begin + (fill + publish);
    ContinueThen(s, begin, fill + publish);
    ContinueThen(begun, fill, publish);
  }

  /** Publishing one byte and starting to copy it. */
  lemma TearableState(c: Config) returns (steps: seq<Step>)
    requires ValidConfig(c) && c.capacity > 0
    ensures Inv(Run(c, steps)) && Tearable(Run(c, steps), 0)
  {
    var publish := FirstPublished(c);
    var published := Continue(Run(c, []), publish);
    assert SlotOrder(c, 0, published.slots[0]);
    var start := StartCopy(published, 0);
    steps := publish + start;
    ContinueThen(Run(c, []), publish, start);
    RunContinues(c, [], steps);
    assert [] + steps == steps;
    assert TearableNow(Run(c, steps), Sighting(published, 0), []);
  }

  /** Some run tears a copy in every ring whose slots carry bytes. */
  lemma RingTears(c: Config) returns (steps: seq<Step>)
    requires ValidConfig(c) && c.capacity > 0
    ensures Torn(Run(c, steps), 0)
  {
    var start := TearableState(c);
    EveryRunKeepsRefilling(c, start);
    var more := TearableTears(Run(c, start), 0);
    RunContinues(c, start, more);
    steps := start + more;
  }

  /** Some run tears some copy. */
  ghost predicate CanTear(c: Config)
    requires ValidConfig(c)
  {
    exists steps, r :: Torn(Run(c, steps), r)
  }

  /** The recheck alone keeps copies honest exactly in rings whose slots carry no bytes. */
  lemma RecheckSufficesExactly(c: Config)
    requires ValidConfig(c)
    ensures !CanTear(c) <==> c.capacity == 0
  {
    if c.capacity == 0 {
      forall steps, r ensures !Torn(Run(c, steps), r) {
        EmptyPayloadsNeverTear(c, steps, r);
      }
    } else {
      var steps := RingTears(c);
    }
  }

  /** No calculated layout yields such a ring, so every ring the code can lay
      out has a run in which the recheck alone lets torn bytes through. */
  lemma EveryLaidOutRingTears(schemaId: Wire.Bytes32, spec: Layout.RegionSpec, limits: Layout.LayoutLimits, c: Config)
    returns (steps: seq<Step>)
    requires ValidConfig(c)
    requires var r := Layout.CalculateRegion(schemaId, c.generation, spec, limits);
             r.Ok? && c.capacity == r.value.payloadCapacity && |c.routes| == r.value.slotCount
    ensures Torn(Run(c, steps), 0)
  {
    Layout.CalculatesExactly(schemaId, c.generation, spec, limits);
    steps := RingTears(c);
  }
}
