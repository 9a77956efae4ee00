/** One writer process and any number of concurrent reads in one reader process
    sharing an N-slot ring, as interleaved atomic steps.

    A run is any list of steps; a step whose checks fail leaves the state as it
    is, just as the operation returns its error without a store. `history` and
    `delivered` are logs: no operation reads them. */
module Ring {
  import opened Machine
  import opened Slots

  datatype Route = Route(owner: u32, cell: u32)

  /** The validated mapping: slot `i` is acknowledged through `routes[i]`. */
  datatype Config = Config(role: u32, generation: u64, capacity: u32, routes: seq<Route>)

  ghost predicate ValidConfig(c: Config) {
    c.generation != 0 && 1 <= |c.routes| <= U32_MAX
  }

  datatype Publication = Publication(sequence: u64, bytes: seq<byte>)

  datatype Slot = Slot(length: u32, sequence: u64, payload: seq<byte>, ack: u64,
                       history: seq<Publication>)

  datatype Writer =
    | Idle
    | Filling(slot: nat, sequence: u64, data: seq<byte>, written: nat)
    | LengthStored(slot: nat, sequence: u64, data: seq<byte>)

  datatype Reader =
    | Loaded(slot: nat, sequence: u64)
    | Copying(observation: SlotObservation, copied: seq<byte>)
    | Rechecking(observation: SlotObservation, copied: seq<byte>)
    | Stopped

  /** One successful `copy_payload`, with the acknowledgement cell as it stood on return. */
  datatype Delivery = Delivery(reader: nat, slot: nat, sequence: u64, bytes: seq<byte>, ackAtReturn: u64)

  datatype State = State(
    config: Config, slots: seq<Slot>, writer: Writer, acks: set<AckObservation>,
    observations: set<SlotObservation>, readers: seq<Reader>, delivered: seq<Delivery>)

  datatype Step =
    | ReadAck(slot: nat)
    | BeginPublish(slot: nat, sequence: u64, ack: Option<AckObservation>, data: seq<byte>)
    | WriteByte
    | StoreLength
    | StoreSequence
    | LoadSequence(slot: nat, expected: u64)
    | LoadLength(reader: nat)
    | CopyByte(reader: nat)
    | RecheckSequence(reader: nat)
    | RecheckLength(reader: nat)
    | Acknowledge(observation: SlotObservation)

  function Binding(c: Config, i: nat): SlotBinding
    requires i < |c.routes| <= U32_MAX
  {
    SlotBinding(c.role, c.generation, c.capacity, i, |c.routes|)
  }

  function BindWriter(c: Config, i: nat): WriterBinding
    requires i < |c.routes| <= U32_MAX
  {
    WriterBinding(Binding(c, i), c.routes[i].owner, c.routes[i].cell)
  }

  function BindAck(c: Config, i: nat): AckBinding
    requires i < |c.routes| <= U32_MAX
  {
    AckBinding(c.routes[i].owner, c.role, i, c.routes[i].cell, c.generation)
  }

  predicate WellSized(s: State) {
    && 1 <= |s.config.routes| <= U32_MAX
    && |s.slots| == |s.config.routes|
    && (forall i :: 0 <= i < |s.slots| ==> |s.slots[i].payload| == s.config.capacity)
  }

  function Init(c: Config): State {
    State(c, seq(|c.routes|, i => Slot(0, 0, seq(c.capacity, j => 0), 0, [])), Idle, {}, {}, [], [])
  }

  function SetSlot(s: State, i: nat, slot: Slot): State
    requires i < |s.slots|
  {
    s.(slots := s.slots[i := slot])
  }

  function SetReader(s: State, r: nat, reader: Reader): State
    requires r < |s.readers|
  {
    s.(readers := s.readers[r := reader])
  }

  function ApplyReadAck(s: State, i: nat): State
    requires WellSized(s)
  {
    if i < |s.slots| then
      s.(acks := s.acks + {ExactAck(BindWriter(s.config, i), s.slots[i].ack)})
    else s
  }

  function ApplyBeginPublish(s: State, i: nat, sequence: u64, ack: Option<AckObservation>,
                             data: seq<byte>): State
    requires WellSized(s)
  {
    if s.writer.Idle? && i < |s.slots| && |data| <= s.config.capacity
       && (ack.Some? ==> ack.value in s.acks)
       && PublishFault(BindWriter(s.config, i), s.config.generation, s.slots[i].sequence, sequence, ack).None?
    then s.(writer := Filling(i, sequence, data, 0))
    else s
  }

  function ApplyWriteByte(s: State): State {
    match s.writer
    case Filling(i, q, data, k) =>
      if i < |s.slots| && k < |data| && k < |s.slots[i].payload| then
        SetSlot(s, i, s.slots[i].(payload := s.slots[i].payload[k := data[k]]))
        .(writer := Filling(i, q, data, k + 1))
      else s
    case _ => s
  }

  function ApplyStoreLength(s: State): State {
    match s.writer
    case Filling(i, q, data, k) =>
      if i < |s.slots| && k == |data| <= U32_MAX then
        SetSlot(s, i, s.slots[i].(length := |data|)).(writer := LengthStored(i, q, data))
      else s
    case _ => s
  }

  function ApplyStoreSequence(s: State): State {
    match s.writer
    case LengthStored(i, q, data) =>
      if i < |s.slots| then
        var slot := s.slots[i];
        SetSlot(s, i, slot.(sequence := q, history := slot.history + [Publication(q, data)]))
        .(writer := Idle)
      else s
    case _ => s
  }

  function ApplyLoadSequence(s: State, i: nat, expected: u64): State
    requires WellSized(s)
  {
    if i < |s.slots|
       && ObserveFault(Binding(s.config, i), s.slots[i].sequence, s.config.generation, expected).None?
    then s.(readers := s.readers + [Loaded(i, expected)])
    else s
  }

  function ApplyLoadLength(s: State, r: nat): State
    requires WellSized(s)
  {
    if r < |s.readers| && s.readers[r].Loaded? && s.readers[r].slot < |s.slots| then
      var i := s.readers[r].slot;
      var length := s.slots[i].length;
      if length > s.config.capacity then SetReader(s, r, Stopped)
      else
        var o := SlotObservation(s.config.role, i, s.config.generation, s.readers[r].sequence, length);
        SetReader(s, r, Copying(o, [])).(observations := s.observations + {o})
    else s
  }

  function ApplyCopyByte(s: State, r: nat): State {
    if r < |s.readers| && s.readers[r].Copying? then
      var o, copied := s.readers[r].observation, s.readers[r].copied;
      if |copied| < o.payloadLen && o.slotIndex < |s.slots| && |copied| < |s.slots[o.slotIndex].payload| then
        SetReader(s, r, Copying(o, copied + [s.slots[o.slotIndex].payload[|copied|]]))
      else s
    else s
  }

  function ApplyRecheckSequence(s: State, r: nat): State
    requires WellSized(s)
  {
    if r < |s.readers| && s.readers[r].Copying? then
      var o, copied := s.readers[r].observation, s.readers[r].copied;
      if |copied| == o.payloadLen && o.slotIndex < |s.slots| then
        var i := o.slotIndex;
        if RecheckFault(Binding(s.config, i), o, s.slots[i].sequence, s.config.generation).None?
        then SetReader(s, r, Rechecking(o, copied)) else SetReader(s, r, Stopped)
      else s
    else s
  }

  function ApplyRecheckLength(s: State, r: nat): State {
    if r < |s.readers| && s.readers[r].Rechecking? then
      var o, copied := s.readers[r].observation, s.readers[r].copied;
      if o.slotIndex < |s.slots| && s.slots[o.slotIndex].length == o.payloadLen then
        SetReader(s, r, Stopped)
        .(delivered := s.delivered + [Delivery(r, o.slotIndex, o.sequence, copied, s.slots[o.slotIndex].ack)])
      else SetReader(s, r, Stopped)
    else s
  }

  function ApplyAcknowledge(s: State, o: SlotObservation): State
    requires WellSized(s)
  {
    if o in s.observations && o.slotIndex < |s.slots| then
      var i := o.slotIndex;
      if AcknowledgeFault(BindAck(s.config, i), s.slots[i].ack, o).None?
      then SetSlot(s, i, s.slots[i].(ack := o.sequence)) else s
    else s
  }

  function Apply(s: State, step: Step): State
    requires WellSized(s)
  {
    match step
    case ReadAck(i) => ApplyReadAck(s, i)
    case BeginPublish(i, q, ack, data) => ApplyBeginPublish(s, i, q, ack, data)
    case WriteByte => ApplyWriteByte(s)
    case StoreLength => ApplyStoreLength(s)
    case StoreSequence => ApplyStoreSequence(s)
    case LoadSequence(i, q) => ApplyLoadSequence(s, i, q)
    case LoadLength(r) => ApplyLoadLength(s, r)
    case CopyByte(r) => ApplyCopyByte(s, r)
    case RecheckSequence(r) => ApplyRecheckSequence(s, r)
    case RecheckLength(r) => ApplyRecheckLength(s, r)
    case Acknowledge(o) => ApplyAcknowledge(s, o)
  }

  lemma ApplyKeepsSizes(s: State, step: Step)
    requires WellSized(s)
    ensures WellSized(Apply(s, step)) && Apply(s, step).config == s.config
  {
  }

  /** Every state that some interleaving reaches. */
  function Run(c: Config, steps: seq<Step>): (s: State)
    requires ValidConfig(c)
    ensures WellSized(s) && s.config == c
  {
    if steps == [] then Init(c)
    else
      var before := Run(c, steps[..|steps| - 1]);
      ApplyKeepsSizes(before, steps[|steps| - 1]);
      Apply(before, steps[|steps| - 1])
  }

  // ----- the invariant -----

  /** The `k`-th sequence that slot `i` of an `n`-slot ring publishes. */
  ghost function SequenceAt(n: nat, i: nat, k: nat): nat {
    if k == 0 then i + 1 else SequenceAt(n, i, k - 1) + n
  }

  /** The sequence after `count` publications of the slot; zero before the first. */
  ghost function Latest(n: nat, i: nat, count: nat): nat {
    if count == 0 then 0 else SequenceAt(n, i, count - 1)
  }

  ghost predicate SlotOrder(c: Config, i: nat, slot: Slot) {
    var n, count := |c.routes|, |slot.history|;
    && (forall k :: 0 <= k < count ==> slot.history[k].sequence == SequenceAt(n, i, k))
    && slot.sequence == Latest(n, i, count)
    && (slot.ack == slot.sequence || (count > 0 && slot.ack == Latest(n, i, count - 1)))
  }

  /** The payload area holds exactly the latest publication. */
  ghost predicate Intact(slot: Slot) {
    slot.history != [] ==>
      var last := slot.history[|slot.history| - 1].bytes;
      slot.length == |last| <= |slot.payload| && slot.payload[..|last|] == last
  }

  ghost predicate WriterInv(c: Config, slots: seq<Slot>, writer: Writer) {
    var n := |slots|;
    match writer
    case Idle => forall i :: 0 <= i < n ==> Intact(slots[i])
    case Filling(w, q, data, k) =>
      && w < n && k <= |data| <= c.capacity == |slots[w].payload|
      && q == SequenceAt(n, w, |slots[w].history|)
      && slots[w].ack == slots[w].sequence
      && slots[w].payload[..k] == data[..k]
      && (forall i :: 0 <= i < n && i != w ==> Intact(slots[i]))
    case LengthStored(w, q, data) =>
      && w < n && |data| <= c.capacity == |slots[w].payload|
      && q == SequenceAt(n, w, |slots[w].history|)
      && slots[w].ack == slots[w].sequence
      && slots[w].length == |data| && slots[w].payload[..|data|] == data
      && (forall i :: 0 <= i < n && i != w ==> Intact(slots[i]))
  }

  /** `q` is a sequence that slot `i` has published. */
  ghost predicate WasPublished(slots: seq<Slot>, i: nat, q: nat) {
    i < |slots| && exists k :: 0 <= k < |slots[i].history| && slots[i].history[k].sequence == q
  }

  predicate OnSlot(writer: Writer, i: nat) {
    !writer.Idle? && writer.slot == i
  }

  /** The slot still publishes `q` and its refill has not begun. */
  predicate Undisturbed(slots: seq<Slot>, writer: Writer, i: nat, q: u64) {
    i < |slots| && slots[i].sequence == q && !OnSlot(writer, i)
  }

  /** The bytes read so far are the published ones, as long as the slot is undisturbed. */
  ghost predicate Faithful(c: Config, slots: seq<Slot>, writer: Writer, o: SlotObservation, copied: seq<byte>) {
    && WasPublished(slots, o.slotIndex, o.sequence)
    && o.role == c.role && o.generation == c.generation
    && |copied| <= o.payloadLen <= c.capacity
    && (Undisturbed(slots, writer, o.slotIndex, o.sequence) ==> IsPrefixOfLatest(slots[o.slotIndex], o, copied))
  }

  ghost predicate IsPrefixOfLatest(slot: Slot, o: SlotObservation, copied: seq<byte>) {
    && slot.history != []
    && var last := slot.history[|slot.history| - 1];
       last.sequence == o.sequence && o.payloadLen == |last.bytes| && copied <= last.bytes
  }

  ghost predicate ReaderInv(c: Config, slots: seq<Slot>, writer: Writer, observations: set<SlotObservation>,
                            r: Reader)
  {
    match r
    case Loaded(i, q) => WasPublished(slots, i, q)
    case Copying(o, copied) => Faithful(c, slots, writer, o, copied) && o in observations
    case Rechecking(o, copied) => Faithful(c, slots, writer, o, copied) && |copied| == o.payloadLen
    case Stopped => true
  }

  /** What a delivery promises: the published bytes, unless already acknowledged on return. */
  ghost predicate DeliveryInv(slots: seq<Slot>, d: Delivery) {
    && WasPublished(slots, d.slot, d.sequence)
    && (d.ackAtReturn < d.sequence ==> Publication(d.sequence, d.bytes) in slots[d.slot].history)
  }

  ghost predicate AckInv(c: Config, slots: seq<Slot>, a: AckObservation) {
    && a.slotIndex < |slots| == |c.routes| <= U32_MAX
    && a == ExactAck(BindWriter(c, a.slotIndex), a.sequence)
    && a.sequence <= slots[a.slotIndex].ack
  }

  /** The part of the invariant about what was observed, copied and delivered. */
  ghost predicate Seen(c: Config, slots: seq<Slot>, writer: Writer, acks: set<AckObservation>,
                       observations: set<SlotObservation>, readers: seq<Reader>, delivered: seq<Delivery>)
  {
    && (forall a :: a in acks ==> AckInv(c, slots, a))
    && (forall o :: o in observations ==> WasPublished(slots, o.slotIndex, o.sequence))
    && (forall r :: 0 <= r < |readers| ==> ReaderInv(c, slots, writer, observations, readers[r]))
    && (forall d :: 0 <= d < |delivered| ==> DeliveryInv(slots, delivered[d]))
  }

  ghost predicate Inv(s: State) {
    && ValidConfig(s.config) && WellSized(s)
    && (forall i :: 0 <= i < |s.slots| ==> SlotOrder(s.config, i, s.slots[i]))
    && WriterInv(s.config, s.slots, s.writer)
    && Seen(s.config, s.slots, s.writer, s.acks, s.observations, s.readers, s.delivered)
  }

  /** Payload and length bytes do not matter to what was seen, and a writer
      taking a slot or an acknowledgement only weaken it. */
  lemma SeenKept(s: State, t: State)
    requires Seen(s.config, s.slots, s.writer, s.acks, s.observations, s.readers, s.delivered)
    requires t == s.(slots := t.slots, writer := t.writer) && |s.slots| == |t.slots|
    requires forall i :: 0 <= i < |s.slots| ==>
               t.slots[i].history == s.slots[i].history && t.slots[i].sequence == s.slots[i].sequence
               && s.slots[i].ack <= t.slots[i].ack
    requires forall i: nat :: OnSlot(s.writer, i) ==> OnSlot(t.writer, i)
    ensures Seen(s.config, t.slots, t.writer, s.acks, s.observations, s.readers, s.delivered)
  {
    LogGrows(s.slots, t.slots);
    forall r | 0 <= r < |s.readers| ensures ReaderInv(s.config, t.slots, t.writer, s.observations, s.readers[r]) {
      assert ReaderInv(s.config, s.slots, s.writer, s.observations, s.readers[r]);
    }
    forall d | 0 <= d < |s.delivered| ensures DeliveryInv(t.slots, s.delivered[d]) {
      assert DeliveryInv(s.slots, s.delivered[d]);
    }
  }

  lemma {:induction false} SequenceAtGrows(n: nat, i: nat, j: nat, k: nat)
    requires 0 < n && j < k
    ensures SequenceAt(n, i, j) + n <= SequenceAt(n, i, k)
  {
    if j + 1 < k {
      SequenceAtGrows(n, i, j, k - 1);
    }
  }

  /** No published sequence exceeds the slot's current one, and only the current
      one exceeds the one before it. */
  lemma PublishedAtMostLatest(c: Config, i: nat, slot: Slot, k: nat)
    requires ValidConfig(c) && SlotOrder(c, i, slot) && k < |slot.history|
    ensures 0 < slot.history[k].sequence <= slot.sequence
    ensures k < |slot.history| - 1 ==> slot.history[k].sequence <= Latest(|c.routes|, i, |slot.history| - 1)
    ensures Latest(|c.routes|, i, |slot.history| - 1) < slot.sequence
  {
    var n, count := |c.routes|, |slot.history|;
    if k < count - 1 {
      SequenceAtGrows(n, i, k, count - 1);
      if k < count - 2 {
        SequenceAtGrows(n, i, k, count - 2);
      }
    }
    if count > 1 {
      SequenceAtGrows(n, i, count - 2, count - 1);
    }
  }

  lemma LogGrows(before: seq<Slot>, after: seq<Slot>)
    requires |before| == |after|
    requires forall i :: 0 <= i < |before| ==> before[i].history <= after[i].history
    ensures forall i: nat, q: nat :: WasPublished(before, i, q) ==> WasPublished(after, i, q)
  {
    forall i: nat, q: nat | WasPublished(before, i, q)
      ensures WasPublished(after, i, q)
    {
      var k :| 0 <= k < |before[i].history| && before[i].history[k].sequence == q;
      assert after[i].history[k].sequence == q;
    }
  }

  lemma ReadAckKeepsInv(s: State, i: nat)
    requires Inv(s)
    ensures Inv(ApplyReadAck(s, i))
  {
    LogGrows(s.slots, ApplyReadAck(s, i).slots);
  }

  lemma BeginPublishKeepsInv(s: State, i: nat, q: u64, ack: Option<AckObservation>, data: seq<byte>)
    requires Inv(s)
    ensures Inv(ApplyBeginPublish(s, i, q, ack, data))
  {
    var t := ApplyBeginPublish(s, i, q, ack, data);
    if t != s {
      var slot := s.slots[i];
      assert SlotOrder(s.config, i, slot);
      if slot.history != [] {
        PublishedAtMostLatest(s.config, i, slot, |slot.history| - 1);
        assert AckInv(s.config, s.slots, ack.value);
      }
      SeenKept(s, t);
    }
  }

  lemma WriteByteKeepsWriter(s: State)
    requires Inv(s)
    ensures WriterInv(s.config, ApplyWriteByte(s).slots, ApplyWriteByte(s).writer)
  {
    var t := ApplyWriteByte(s);
    if t != s {
      var w, data, k := s.writer.slot, s.writer.data, s.writer.written;
      assert t.slots[w].payload[..k + 1] == data[..k + 1];
    }
  }

  lemma WriteByteKeepsInv(s: State)
    requires Inv(s)
    ensures Inv(ApplyWriteByte(s))
  {
    var t := ApplyWriteByte(s);
    WriteByteKeepsWriter(s);
    SeenKept(s, t);
    forall i | 0 <= i < |t.slots| ensures SlotOrder(t.config, i, t.slots[i]) {
      assert SlotOrder(s.config, i, s.slots[i]);
    }
  }

  lemma StoreLengthKeepsWriter(s: State)
    requires Inv(s)
    ensures WriterInv(s.config, ApplyStoreLength(s).slots, ApplyStoreLength(s).writer)
  {
    var t := ApplyStoreLength(s);
    if t != s {
      assert s.writer.data[..|s.writer.data|] == s.writer.data;
    }
  }

  lemma StoreLengthKeepsInv(s: State)
    requires Inv(s)
    ensures Inv(ApplyStoreLength(s))
  {
    var t := ApplyStoreLength(s);
    StoreLengthKeepsWriter(s);
    SeenKept(s, t);
    forall i | 0 <= i < |t.slots| ensures SlotOrder(t.config, i, t.slots[i]) {
      assert SlotOrder(s.config, i, s.slots[i]);
    }
  }

  lemma StoreSequenceKeepsInv(s: State)
    requires Inv(s)
    ensures Inv(ApplyStoreSequence(s))
  {
    var t := ApplyStoreSequence(s);
    if s.writer.LengthStored? {
      var w := s.writer.slot;
      assert SlotOrder(s.config, w, s.slots[w]);
      assert SlotOrder(t.config, w, t.slots[w]);
      LogGrows(s.slots, t.slots);
      forall r | 0 <= r < |s.readers|
        ensures ReaderInv(t.config, t.slots, t.writer, t.observations, t.readers[r])
      {
        assert ReaderInv(s.config, s.slots, s.writer, s.observations, s.readers[r]);
        match s.readers[r] {
          case Copying(o, copied) => StoreSequenceKeepsFaithful(s, o, copied);
          case Rechecking(o, copied) => StoreSequenceKeepsFaithful(s, o, copied);
          case _ =>
        }
      }
    }
  }

  /** The sequence stored is newer than any that was observed. */
  lemma StoreSequenceKeepsFaithful(s: State, o: SlotObservation, copied: seq<byte>)
    requires Inv(s) && s.writer.LengthStored? && Faithful(s.config, s.slots, s.writer, o, copied)
    ensures Faithful(s.config, ApplyStoreSequence(s).slots, Idle, o, copied)
  {
    var t := ApplyStoreSequence(s);
    LogGrows(s.slots, t.slots);
    var i := o.slotIndex;
    if i == s.writer.slot {
      var k :| 0 <= k < |s.slots[i].history| && s.slots[i].history[k].sequence == o.sequence;
      PublishedAtMostLatest(s.config, i, s.slots[i], k);
      assert SlotOrder(s.config, i, s.slots[i]);
      if |s.slots[i].history| > 0 {
        SequenceAtGrows(|s.slots|, i, |s.slots[i].history| - 1, |s.slots[i].history|);
      }
    }
  }

  lemma LoadSequenceKeepsInv(s: State, i: nat, q: u64)
    requires Inv(s)
    ensures Inv(ApplyLoadSequence(s, i, q))
  {
    var t := ApplyLoadSequence(s, i, q);
    LogGrows(s.slots, t.slots);
    if t != s {
      var count := |s.slots[i].history|;
      assert SlotOrder(s.config, i, s.slots[i]);
      assert s.slots[i].history[count - 1].sequence == q;
      assert WasPublished(s.slots, i, q);
    }
  }

  /** An unacknowledged sequence is the slot's latest, and its slot is not being refilled. */
  lemma UnacknowledgedIsLatestAndIntact(s: State, i: nat, q: nat)
    requires Inv(s) && WasPublished(s.slots, i, q) && s.slots[i].ack < q
    ensures s.slots[i].history != []
    ensures s.slots[i].sequence == q == s.slots[i].history[|s.slots[i].history| - 1].sequence
    ensures Intact(s.slots[i]) && Undisturbed(s.slots, s.writer, i, q)
  {
    var k :| 0 <= k < |s.slots[i].history| && s.slots[i].history[k].sequence == q;
    assert SlotOrder(s.config, i, s.slots[i]);
    PublishedAtMostLatest(s.config, i, s.slots[i], k);
  }

  /** An undisturbed slot holds exactly its latest publication. */
  lemma UndisturbedIsIntact(s: State, i: nat, q: u64)
    requires Inv(s) && Undisturbed(s.slots, s.writer, i, q) && WasPublished(s.slots, i, q)
    ensures Intact(s.slots[i]) && s.slots[i].history != []
    ensures s.slots[i].history[|s.slots[i].history| - 1].sequence == q
  {
    assert SlotOrder(s.config, i, s.slots[i]);
  }

  lemma LoadLengthKeepsInv(s: State, r: nat)
    requires Inv(s)
    ensures Inv(ApplyLoadLength(s, r))
  {
    var t := ApplyLoadLength(s, r);
    LogGrows(s.slots, t.slots);
    if r < |s.readers| && s.readers[r].Loaded? {
      assert ReaderInv(s.config, s.slots, s.writer, s.observations, s.readers[r]);
      var i, q := s.readers[r].slot, s.readers[r].sequence;
      if Undisturbed(s.slots, s.writer, i, q) {
        UndisturbedIsIntact(s, i, q);
      }
    }
  }

  lemma CopyByteKeepsInv(s: State, r: nat)
    requires Inv(s)
    ensures Inv(ApplyCopyByte(s, r))
  {
    var t := ApplyCopyByte(s, r);
    LogGrows(s.slots, t.slots);
    if t != s {
      assert ReaderInv(s.config, s.slots, s.writer, s.observations, s.readers[r]);
      var o := s.readers[r].observation;
      if Undisturbed(s.slots, s.writer, o.slotIndex, o.sequence) {
        UndisturbedIsIntact(s, o.slotIndex, o.sequence);
      }
    }
  }

  lemma RecheckSequenceKeepsInv(s: State, r: nat)
    requires Inv(s)
    ensures Inv(ApplyRecheckSequence(s, r))
  {
    if r < |s.readers| {
      assert ReaderInv(s.config, s.slots, s.writer, s.observations, s.readers[r]);
    }
  }

  lemma RecheckLengthKeepsInv(s: State, r: nat)
    requires Inv(s)
    ensures Inv(ApplyRecheckLength(s, r))
  {
    if r < |s.readers| && s.readers[r].Rechecking? {
      assert ReaderInv(s.config, s.slots, s.writer, s.observations, s.readers[r]);
      var o, copied := s.readers[r].observation, s.readers[r].copied;
      var slot := s.slots[o.slotIndex];
      if slot.ack < o.sequence {
        UnacknowledgedIsLatestAndIntact(s, o.slotIndex, o.sequence);
        var last := slot.history[|slot.history| - 1];
        assert last == Publication(o.sequence, copied);
      }
    }
  }

  /** An acknowledgement only ever names the slot's current sequence or repeats the cell. */
  lemma AcknowledgedIsCurrent(s: State, o: SlotObservation)
    requires Inv(s) && o in s.observations
    requires o.slotIndex < |s.slots| && s.slots[o.slotIndex].ack < o.sequence
    ensures o.sequence == s.slots[o.slotIndex].sequence
  {
    UnacknowledgedIsLatestAndIntact(s, o.slotIndex, o.sequence);
  }

  lemma AckRises(s: State, i: nat)
    requires Inv(s) && i < |s.slots|
    ensures Inv(SetSlot(s, i, s.slots[i].(ack := s.slots[i].sequence)))
  {
    var t := SetSlot(s, i, s.slots[i].(ack := s.slots[i].sequence));
    assert SlotOrder(s.config, i, s.slots[i]);
    if s.slots[i].history != [] {
      PublishedAtMostLatest(s.config, i, s.slots[i], |s.slots[i].history| - 1);
    }
    SeenKept(s, t);
    AckRisesKeepsWriter(s, i);
  }

  lemma AckRisesKeepsWriter(s: State, i: nat)
    requires Inv(s) && i < |s.slots|
    ensures WriterInv(s.config, s.slots[i := s.slots[i].(ack := s.slots[i].sequence)], s.writer)
  {
  }

  lemma AcknowledgeKeepsInv(s: State, o: SlotObservation)
    requires Inv(s)
    ensures Inv(ApplyAcknowledge(s, o))
  {
    var t := ApplyAcknowledge(s, o);
    if t != s {
      if s.slots[o.slotIndex].ack < o.sequence {
        AcknowledgedIsCurrent(s, o);
        AckRises(s, o.slotIndex);
      }
    }
  }

  lemma StepKeepsInv(s: State, step: Step)
    requires Inv(s)
    ensures Inv(Apply(s, step))
  {
    match step
    case ReadAck(i) => ReadAckKeepsInv(s, i);
    case BeginPublish(i, q, ack, data) => BeginPublishKeepsInv(s, i, q, ack, data);
    case WriteByte => WriteByteKeepsInv(s);
    case StoreLength => StoreLengthKeepsInv(s);
    case StoreSequence => StoreSequenceKeepsInv(s);
    case LoadSequence(i, q) => LoadSequenceKeepsInv(s, i, q);
    case LoadLength(r) => LoadLengthKeepsInv(s, r);
    case CopyByte(r) => CopyByteKeepsInv(s, r);
    case RecheckSequence(r) => RecheckSequenceKeepsInv(s, r);
    case RecheckLength(r) => RecheckLengthKeepsInv(s, r);
    case Acknowledge(o) => AcknowledgeKeepsInv(s, o);
  }

  /** In every interleaving, the ring invariant holds. */
  lemma {:induction false} EveryRunKeepsInv(c: Config, steps: seq<Step>)
    requires ValidConfig(c)
    ensures Inv(Run(c, steps))
  {
    if steps != [] {
      EveryRunKeepsInv(c, steps[..|steps| - 1]);
      StepKeepsInv(Run(c, steps[..|steps| - 1]), steps[|steps| - 1]);
    }
  }

  // ----- what the invariant means for a run -----

  lemma {:induction false} SequenceAtClosed(n: nat, i: nat, k: nat)
    ensures SequenceAt(n, i, k) == i + 1 + k * n
  {
    if k > 0 {
      SequenceAtClosed(n, i, k - 1);
      assert k * n == (k - 1) * n + n;
    }
  }

  lemma {:induction false} SequenceAtResidue(n: nat, i: nat, k: nat)
    requires i < n
    ensures SequenceAt(n, i, k) > 0 && (SequenceAt(n, i, k) - 1) % n == i
  {
    if k == 0 {
      SmallMod(i, n);
    } else {
      SequenceAtResidue(n, i, k - 1);
      ModStep(SequenceAt(n, i, k - 1) - 1, n);
    }
  }

  /** Slot `i` published i+1, i+1+N, i+1+2N, ... with no gap, repeat or 64-bit
      wrap, and its cell holds the current sequence or the one before it. */
  ghost predicate Orderly(n: nat, i: nat, slot: Slot) {
    var count := |slot.history|;
    && (forall k :: 0 <= k < count ==> slot.history[k].sequence == i + 1 + k * n <= U64_MAX)
    && slot.sequence == (if count == 0 then 0 else i + 1 + (count - 1) * n)
    && (slot.ack == slot.sequence
        || (count == 1 && slot.ack == 0)
        || (count > 1 && slot.ack == i + 1 + (count - 2) * n))
  }

  /** In every run every slot publishes in order. */
  lemma SlotPublishesInOrder(c: Config, steps: seq<Step>, i: nat)
    requires ValidConfig(c) && i < |c.routes|
    ensures Orderly(|c.routes|, i, Run(c, steps).slots[i])
  {
    RunIsOrdered(c, steps, i);
    OrderIsClosed(c, i, Run(c, steps).slots[i]);
  }

  lemma RunIsOrdered(c: Config, steps: seq<Step>, i: nat)
    requires ValidConfig(c) && i < |c.routes|
    ensures SlotOrder(c, i, Run(c, steps).slots[i])
  {
    EveryRunKeepsInv(c, steps);
  }

  lemma OrderIsClosed(c: Config, i: nat, slot: Slot)
    requires SlotOrder(c, i, slot)
    ensures Orderly(|c.routes|, i, slot)
  {
    HistoryIsClosed(c, i, slot);
    LatestIsClosed(|c.routes|, i, |slot.history|);
    if |slot.history| > 0 {
      LatestIsClosed(|c.routes|, i, |slot.history| - 1);
    }
  }

  lemma HistoryIsClosed(c: Config, i: nat, slot: Slot)
    requires SlotOrder(c, i, slot)
    ensures forall k :: 0 <= k < |slot.history| ==> slot.history[k].sequence == i + 1 + k * |c.routes|
  {
    forall k | 0 <= k < |slot.history| ensures slot.history[k].sequence == i + 1 + k * |c.routes| {
      SequenceAtClosed(|c.routes|, i, k);
    }
  }

  lemma LatestIsClosed(n: nat, i: nat, count: nat)
    ensures Latest(n, i, count) == if count == 0 then 0 else i + 1 + (count - 1) * n
  {
    if count > 0 {
      SequenceAtClosed(n, i, count - 1);
    }
  }

  lemma SequencesAreDistinct(n: nat, i: nat, k: nat, j: nat, l: nat)
    requires i < n && j < n && SequenceAt(n, i, k) == SequenceAt(n, j, l)
    ensures i == j && k == l
  {
    SequenceAtResidue(n, i, k);
    SequenceAtResidue(n, j, l);
    if k < l {
      SequenceAtGrows(n, i, k, l);
    } else if l < k {
      SequenceAtGrows(n, i, l, k);
    }
  }

  /** A sequence names one publication of one slot in the whole ring. */
  lemma SequencePublishedOnce(c: Config, steps: seq<Step>, i: nat, k: nat, j: nat, l: nat)
    requires ValidConfig(c) && i < |c.routes| && j < |c.routes|
    requires k < |Run(c, steps).slots[i].history| && l < |Run(c, steps).slots[j].history|
    requires Run(c, steps).slots[i].history[k].sequence == Run(c, steps).slots[j].history[l].sequence
    ensures i == j && k == l
  {
    RunIsOrdered(c, steps, i);
    RunIsOrdered(c, steps, j);
    SequencesAreDistinct(|c.routes|, i, k, j, l);
  }

  /** A copy that returns before its sequence is acknowledged yields exactly the
      bytes published under that sequence, whatever the interleaving. */
  lemma CopyBeforeAcknowledgementIsExact(c: Config, steps: seq<Step>, d: nat, k: nat)
    requires ValidConfig(c) && d < |Run(c, steps).delivered|
    requires var s := Run(c, steps);
             var copy := s.delivered[d];
             && copy.ackAtReturn < copy.sequence
             && copy.slot < |s.slots| && k < |s.slots[copy.slot].history|
             && s.slots[copy.slot].history[k].sequence == copy.sequence
    ensures var s := Run(c, steps);
            s.delivered[d].bytes == s.slots[s.delivered[d].slot].history[k].bytes
  {
    EveryRunKeepsInv(c, steps);
    var s := Run(c, steps);
    var copy := s.delivered[d];
    assert DeliveryInv(s.slots, copy);
    var l :| 0 <= l < |s.slots[copy.slot].history|
             && s.slots[copy.slot].history[l] == Publication(copy.sequence, copy.bytes);
    SequencePublishedOnce(c, steps, copy.slot, k, copy.slot, l);
  }

  /** The recheck adds nothing to that guarantee: before the acknowledgement it never fails. */
  lemma RecheckPassesBeforeAcknowledgement(c: Config, steps: seq<Step>, r: nat)
    requires ValidConfig(c) && r < |Run(c, steps).readers|
    requires var s := Run(c, steps);
             var reader := s.readers[r];
             && (reader.Copying? || reader.Rechecking?)
             && reader.observation.slotIndex < |s.slots|
             && s.slots[reader.observation.slotIndex].ack < reader.observation.sequence
    ensures var s := Run(c, steps);
            var o := s.readers[r].observation;
            && RecheckFault(Binding(c, o.slotIndex), o, s.slots[o.slotIndex].sequence, c.generation).None?
            && s.slots[o.slotIndex].length == o.payloadLen
  {
    EveryRunKeepsInv(c, steps);
    var s := Run(c, steps);
    assert ReaderInv(s.config, s.slots, s.writer, s.observations, s.readers[r]);
    var o := s.readers[r].observation;
    UnacknowledgedIsLatestAndIntact(s, o.slotIndex, o.sequence);
  }

  /** A slot under refill has had everything it published acknowledged. */
  lemma NoReuseBeforeAcknowledgement(c: Config, steps: seq<Step>)
    requires ValidConfig(c) && !Run(c, steps).writer.Idle?
    ensures var s := Run(c, steps);
            s.writer.slot < |s.slots| && s.slots[s.writer.slot].ack == s.slots[s.writer.slot].sequence
  {
    EveryRunKeepsInv(c, steps);
  }

  /** The in-order writer is refused only while its last publication is
      unacknowledged, or once 64-bit sequences run out. */
  lemma AcknowledgedWriterIsAccepted(c: Config, steps: seq<Step>, i: nat, q: u64, data: seq<byte>)
    requires ValidConfig(c) && i < |c.routes| && |data| <= c.capacity
    requires Run(c, steps).writer.Idle?
    ensures var s := ApplyReadAck(Run(c, steps), i);
            var ack := Some(ExactAck(BindWriter(c, i), s.slots[i].ack));
            ApplyBeginPublish(s, i, q, ack, data).writer.Filling? <==>
              && q == i + 1 + |s.slots[i].history| * |c.routes|
              && s.slots[i].ack == s.slots[i].sequence
  {
    EveryRunKeepsInv(c, steps);
    var s := ApplyReadAck(Run(c, steps), i);
    var slot, n := s.slots[i], |c.routes|;
    assert SlotOrder(c, i, slot);
    var ack := Some(ExactAck(BindWriter(c, i), slot.ack));
    SequenceAtClosed(n, i, |slot.history|);
    if slot.history != [] {
      SequenceAtResidue(n, i, |slot.history| - 1);
    }
    PublishAllowedExactly(BindWriter(c, i), c.generation, slot.sequence, q, ack);
  }
}
