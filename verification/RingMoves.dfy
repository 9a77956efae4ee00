/** Continuing a run of the ring: a writer finishing what it began, a reader
    copying on, a slot acknowledged and refilled. */
module RingMoves {
  import opened Machine
  import opened Slots
  import opened Ring

  function Continue(s: State, more: seq<Step>): (t: State)
    requires WellSized(s)
    ensures WellSized(t) && t.config == s.config
    decreases |more|
  {
    if more == [] then s else ApplyKeepsSizes(s, more[0]); Continue(Apply(s, more[0]), more[1..])
  }

  lemma {:induction false} RunContinues(c: Config, steps: seq<Step>, more: seq<Step>)
    requires ValidConfig(c)
    ensures Run(c, steps + more) == Continue(Run(c, steps), more)
    decreases |more|
  {
    if more == [] {
      assert steps + more == steps;
    } else {
      var longer := steps + [more[0]];
      assert longer[..|longer| - 1] == steps;
      RunContinues(c, longer, more[1..]);
      assert longer + more[1..] == steps + more;
    }
  }

  function Fold<S, T>(f: (S, T) -> S, s: S, xs: seq<T>): S
    decreases |xs|
  {
    if xs == [] then s else Fold(f, f(s, xs[0]), xs[1..])
  }

  lemma {:induction false} FoldThen<S, T>(f: (S, T) -> S, s: S, xs: seq<T>, ys: seq<T>)
    ensures Fold(f, s, xs + ys) == Fold(f, Fold(f, s, xs), ys)
    decreases |xs|
  {
    if xs == [] {
      assert xs + ys == ys;
    } else {
      assert (xs + ys)[1..] == xs[1..] + ys;
      FoldThen(f, f(s, xs[0]), xs[1..], ys);
    }
  }

  function Next(s: State, step: Step): State {
    if WellSized(s) then Apply(s, step) else s
  }

  lemma {:induction false} ContinueIsFold(s: State, more: seq<Step>)
    requires WellSized(s)
    ensures Continue(s, more) == Fold(Next, s, more)
    decreases |more|
  {
    if more != [] {
      ApplyKeepsSizes(s, more[0]);
      ContinueIsFold(Apply(s, more[0]), more[1..]);
    }
  }

  lemma ContinueThen(s: State, first: seq<Step>, rest: seq<Step>)
    requires WellSized(s)
    ensures Continue(s, first + rest) == Continue(Continue(s, first), rest)
  {
    ContinueIsFold(s, first + rest);
    ContinueIsFold(s, first);
    ContinueIsFold(Continue(s, first), rest);
    FoldThen(Next, s, first, rest);
  }

  lemma ContinueOne(s: State, step: Step)
    requires WellSized(s)
    ensures Continue(s, [step]) == Apply(s, step)
  {
    ApplyKeepsSizes(s, step);
    assert Continue(Apply(s, step), []) == Apply(s, step);
  }

  lemma {:induction false} ContinueKeepsInv(s: State, more: seq<Step>)
    requires Inv(s)
    ensures Inv(Continue(s, more))
    decreases |more|
  {
    if more != [] {
      StepKeepsInv(s, more[0]);
      ContinueKeepsInv(Apply(s, more[0]), more[1..]);
    }
  }

  // ----- the writer and a copy in progress -----

  /** The writer's remaining byte stores. */
  lemma {:induction false} Fill(s: State) returns (more: seq<Step>)
    requires Inv(s) && s.writer.Filling?
    ensures var t, w := Continue(s, more), s.writer.slot;
            && w < |s.slots| == |t.slots| && t == SetSlot(s, w, s.slots[w].(payload := t.slots[w].payload))
                                                  .(writer := s.writer.(written := |s.writer.data|))
            && |s.writer.data| <= |t.slots[w].payload| && t.slots[w].payload[..|s.writer.data|] == s.writer.data
            && Inv(t)
    decreases |s.writer.data| - s.writer.written
  {
    if s.writer.written == |s.writer.data| {
      more := [];
      assert s.writer.data[..|s.writer.data|] == s.writer.data;
      assert SetSlot(s, s.writer.slot, s.slots[s.writer.slot]) == s;
    } else {
      var next := Apply(s, WriteByte);
      StepKeepsInv(s, WriteByte);
      var rest := Fill(next);
      more := [WriteByte] + rest;
      assert more[1..] == rest;
      FillsTwice(s, next, Continue(next, rest));
    }
  }

  lemma FillsTwice(s: State, next: State, t: State)
    requires s.writer.Filling? && s.writer.slot < |s.slots| == |next.slots| == |t.slots|
    requires var w := s.writer.slot;
             && next == SetSlot(s, w, s.slots[w].(payload := next.slots[w].payload))
                        .(writer := s.writer.(written := s.writer.written + 1))
             && t == SetSlot(next, w, next.slots[w].(payload := t.slots[w].payload))
                     .(writer := next.writer.(written := |s.writer.data|))
    ensures var w := s.writer.slot;
            t == SetSlot(s, w, s.slots[w].(payload := t.slots[w].payload))
                 .(writer := s.writer.(written := |s.writer.data|))
  {
    var w := s.writer.slot;
    assert s.slots[w := next.slots[w]][w := t.slots[w]] == s.slots[w := t.slots[w]];
  }

  /** What a copy of slot `i` can see of a continuation. */
  ghost predicate SameView(s: State, t: State, i: nat) {
    && i < |s.slots| == |t.slots| && t.slots[i] == s.slots[i] && t.config == s.config
    && t.readers == s.readers && t.delivered == s.delivered && t.observations == s.observations
  }

  lemma ContinueTwo(s: State, a: Step, b: Step)
    requires WellSized(s) && WellSized(Apply(s, a))
    ensures Continue(s, [a, b]) == Apply(Apply(s, a), b)
  {
    assert [a, b] == [a] + [b];
    ContinueThen(s, [a], [b]);
    ContinueOne(s, a);
    ContinueOne(Apply(s, a), b);
  }

  lemma FinishPublish(s: State, i: nat)
    requires Inv(s) && !s.writer.Idle? && (s.writer.Filling? ==> s.writer.written == |s.writer.data|)
    requires !OnSlot(s.writer, i) && i < |s.slots|
    ensures var t := Continue(s, [StoreLength, StoreSequence]); Inv(t) && t.writer.Idle? && SameView(s, t, i)
  {
    StepKeepsInv(s, StoreLength);
    StepKeepsInv(Apply(s, StoreLength), StoreSequence);
    ContinueTwo(s, StoreLength, StoreSequence);
  }

  /** A writer busy elsewhere finishes without touching slot `i`. */
  lemma Drain(s: State, i: nat) returns (more: seq<Step>)
    requires Inv(s) && !OnSlot(s.writer, i) && i < |s.slots|
    ensures var t := Continue(s, more); Inv(t) && t.writer.Idle? && SameView(s, t, i)
  {
    if s.writer.Idle? {
      more := [];
    } else {
      var fill := [];
      if s.writer.Filling? {
        fill := Fill(s);
      }
      FinishPublish(Continue(s, fill), i);
      more := fill + [StoreLength, StoreSequence];
      ContinueThen(s, fill, [StoreLength, StoreSequence]);
    }
  }

  lemma CopyOne(s: State, r: nat)
    requires Inv(s) && r < |s.readers| && s.readers[r].Copying?
    requires |s.readers[r].copied| < s.readers[r].observation.payloadLen
    ensures var o, copied := s.readers[r].observation, s.readers[r].copied;
            && o.slotIndex < |s.slots| && |copied| < |s.slots[o.slotIndex].payload|
            && Apply(s, CopyByte(r)) == SetReader(s, r, Copying(o, copied + [s.slots[o.slotIndex].payload[|copied|]]))
  {
    assert ReaderInv(s.config, s.slots, s.writer, s.observations, s.readers[r]);
  }

  lemma OneThenRest(copied: seq<byte>, payload: seq<byte>, length: nat)
    requires |copied| < length <= |payload|
    ensures copied + [payload[|copied|]] + payload[|copied| + 1..length] == copied + payload[|copied|..length]
  {
    assert payload[|copied|..length] == [payload[|copied|]] + payload[|copied| + 1..length];
  }

  lemma SetReaderTwice(s: State, r: nat, a: Reader, b: Reader)
    requires r < |s.readers|
    ensures SetReader(SetReader(s, r, a), r, b) == SetReader(s, r, b)
  {
    assert s.readers[r := a][r := b] == s.readers[r := b];
  }

  lemma ContinueWith(s: State, step: Step, rest: seq<Step>)
    requires WellSized(s) && WellSized(Apply(s, step))
    ensures Continue(s, [step] + rest) == Continue(Apply(s, step), rest)
  {
    ContinueThen(s, [step], rest);
    ContinueOne(s, step);
  }

  /** The other bytes of the copy, read in a row. */
  lemma {:induction false} CopyRest(s: State, r: nat) returns (more: seq<Step>)
    requires Inv(s) && r < |s.readers| && s.readers[r].Copying?
    ensures var o, copied := s.readers[r].observation, s.readers[r].copied;
            && o.slotIndex < |s.slots| && |copied| <= o.payloadLen <= |s.slots[o.slotIndex].payload|
            && Continue(s, more)
               == SetReader(s, r, Copying(o, copied + s.slots[o.slotIndex].payload[|copied|..o.payloadLen]))
    decreases s.readers[r].observation.payloadLen - |s.readers[r].copied|
  {
    assert ReaderInv(s.config, s.slots, s.writer, s.observations, s.readers[r]);
    var o, copied := s.readers[r].observation, s.readers[r].copied;
    var payload := s.slots[o.slotIndex].payload;
    if |copied| == o.payloadLen {
      more := [];
      assert copied + payload[|copied|..o.payloadLen] == copied;
      assert s.readers[r := s.readers[r]] == s.readers;
    } else {
      StepKeepsInv(s, CopyByte(r));
      CopyOne(s, r);
      var next := Apply(s, CopyByte(r));
      var rest := CopyRest(next, r);
      more := [CopyByte(r)] + rest;
      ContinueWith(s, CopyByte(r), rest);
      OneThenRest(copied, payload, o.payloadLen);
      SetReaderTwice(s, r, next.readers[r], Copying(o, copied + payload[|copied|..o.payloadLen]));
    }
  }

  /** Both rechecks of a full copy pass while the sequence and length stand. */
  lemma ReturnCopy(s: State, r: nat)
    requires Inv(s) && r < |s.readers| && s.readers[r].Copying?
    requires var o, copied := s.readers[r].observation, s.readers[r].copied;
             && |copied| == o.payloadLen && o.slotIndex < |s.slots|
             && s.slots[o.slotIndex].sequence == o.sequence && s.slots[o.slotIndex].length == o.payloadLen
    ensures var o, copied := s.readers[r].observation, s.readers[r].copied;
            var t := Continue(s, [RecheckSequence(r), RecheckLength(r)]);
            && t.slots == s.slots
            && t.delivered == s.delivered + [Delivery(r, o.slotIndex, o.sequence, copied, s.slots[o.slotIndex].ack)]
  {
    assert ReaderInv(s.config, s.slots, s.writer, s.observations, s.readers[r]);
    ApplyKeepsSizes(s, RecheckSequence(r));
    ContinueTwo(s, RecheckSequence(r), RecheckLength(r));
  }

  /** The slot's sequence is acknowledged, if it was not already. */
  lemma AcknowledgeObserved(s: State, r: nat)
    requires Inv(s) && r < |s.readers| && s.readers[r].Copying?
    requires var o := s.readers[r].observation; Undisturbed(s.slots, s.writer, o.slotIndex, o.sequence)
    ensures var o := s.readers[r].observation;
            var t := Continue(s, [Acknowledge(o)]);
            && Inv(t) && t == SetSlot(s, o.slotIndex, s.slots[o.slotIndex].(ack := o.sequence))
  {
    var o := s.readers[r].observation;
    assert ReaderInv(s.config, s.slots, s.writer, s.observations, s.readers[r]);
    var i := o.slotIndex;
    assert SlotOrder(s.config, i, s.slots[i]);
    PublishedAtMostLatest(s.config, i, s.slots[i], |s.slots[i].history| - 1);
    ContinueOne(s, Acknowledge(o));
    StepKeepsInv(s, Acknowledge(o));
  }

  lemma RefillIsAllowed(s: State, i: nat)
    requires Inv(s) && i < |s.slots| && s.slots[i].history != []
    requires s.slots[i].ack == s.slots[i].sequence && s.slots[i].sequence + |s.slots| <= U64_MAX
    ensures var b := BindWriter(s.config, i);
            PublishFault(b, s.config.generation, s.slots[i].sequence, s.slots[i].sequence + |s.slots|,
                         Some(ExactAck(b, s.slots[i].ack))).None?
  {
    var slot := s.slots[i];
    assert SlotOrder(s.config, i, slot);
    SequenceAtResidue(|s.slots|, i, |slot.history| - 1);
    NextIsAllowed(BindWriter(s.config, i), slot.sequence);
  }

  lemma NextIsAllowed(b: WriterBinding, current: u64)
    requires ValidBinding(b.slot) && b.slot.generation != 0 && current + b.slot.slotCount <= U64_MAX
    requires current != 0 && (current - 1) % b.slot.slotCount == b.slot.slotIndex
    ensures PublishFault(b, b.slot.generation, current, current + b.slot.slotCount, Some(ExactAck(b, current))).None?
  {
    PublishAllowedExactly(b, b.slot.generation, current, current + b.slot.slotCount, Some(ExactAck(b, current)));
  }

  lemma ReadThenBegin(s: State, i: nat, q: u64, data: seq<byte>) returns (more: seq<Step>)
    requires WellSized(s) && s.writer.Idle? && i < |s.slots| && |data| <= s.config.capacity
    requires PublishFault(BindWriter(s.config, i), s.config.generation, s.slots[i].sequence, q,
                          Some(ExactAck(BindWriter(s.config, i), s.slots[i].ack))).None?
    ensures var ack := ExactAck(BindWriter(s.config, i), s.slots[i].ack);
            Continue(s, more) == s.(acks := s.acks + {ack}, writer := Filling(i, q, data, 0))
  {
    var ack := ExactAck(BindWriter(s.config, i), s.slots[i].ack);
    BeginAllowed(ApplyReadAck(s, i), i, q, ack, data);
    ApplyKeepsSizes(s, ReadAck(i));
    ContinueTwo(s, ReadAck(i), BeginPublish(i, q, Some(ack), data));
    more := [ReadAck(i), BeginPublish(i, q, Some(ack), data)];
  }

  /** An idle writer may refill an acknowledged slot with anything that fits. */
  lemma RefillBegins(s: State, i: nat, data: seq<byte>) returns (more: seq<Step>)
    requires Inv(s) && s.writer.Idle? && i < |s.slots| && s.slots[i].history != []
    requires s.slots[i].ack == s.slots[i].sequence && s.slots[i].sequence + |s.slots| <= U64_MAX
    requires |data| <= s.config.capacity
    ensures var t := Continue(s, more);
            Inv(t) && t.writer == Filling(i, s.slots[i].sequence + |s.slots|, data, 0) && SameView(s, t, i)
  {
    RefillIsAllowed(s, i);
    more := ReadThenBegin(s, i, s.slots[i].sequence + |s.slots|, data);
    ContinueKeepsInv(s, more);
  }

  lemma BeginAllowed(s: State, i: nat, q: u64, ack: AckObservation, data: seq<byte>)
    requires WellSized(s) && s.writer.Idle? && i < |s.slots| && ack in s.acks && |data| <= s.config.capacity
    requires PublishFault(BindWriter(s.config, i), s.config.generation, s.slots[i].sequence, q, Some(ack)).None?
    ensures ApplyBeginPublish(s, i, q, Some(ack), data) == s.(writer := Filling(i, q, data, 0))
  {
  }

  // ----- observing, acknowledging and refilling a published slot -----

  lemma StoreHere(s: State) returns (more: seq<Step>)
    requires Inv(s) && s.writer.Filling? && s.writer.written == |s.writer.data|
    ensures var t, w := Continue(s, more), s.writer.slot;
            && Inv(t) && t.writer.Idle? && t.readers == s.readers && w < |t.slots| == |s.slots|
            && t.slots[w].sequence == s.writer.sequence && t.slots[w].length == |s.writer.data|
  {
    more := [StoreLength, StoreSequence];
    ContinueTwo(s, StoreLength, StoreSequence);
    StepKeepsInv(s, StoreLength);
    StepKeepsInv(Apply(s, StoreLength), StoreSequence);
  }

  lemma LoadLatest(s: State, i: nat)
    requires Inv(s) && i < |s.slots| && s.slots[i].history != []
    ensures ApplyLoadSequence(s, i, s.slots[i].sequence) == s.(readers := s.readers + [Loaded(i, s.slots[i].sequence)])
  {
    assert SlotOrder(s.config, i, s.slots[i]);
    SequenceAtResidue(|s.slots|, i, |s.slots[i].history| - 1);
  }

  /** What a reader observes of slot `i`. */
  function Sighting(s: State, i: nat): SlotObservation
    requires i < |s.slots| && i <= U32_MAX
  {
    SlotObservation(s.config.role, i, s.config.generation, s.slots[i].sequence, s.slots[i].length)
  }

  lemma LoadThenCopy(s: State, i: nat)
    requires WellSized(s) && i < |s.slots| && s.readers != [] && s.slots[i].length <= s.config.capacity
    requires s.readers[|s.readers| - 1] == Loaded(i, s.slots[i].sequence)
    ensures var o := Sighting(s, i);
            ApplyLoadLength(s, |s.readers| - 1)
            == SetReader(s, |s.readers| - 1, Copying(o, [])).(observations := s.observations + {o})
  {
  }

  /** A new reader observes what slot `i` publishes. */
  lemma StartCopy(s: State, i: nat) returns (more: seq<Step>)
    requires Inv(s) && i < |s.slots| && s.slots[i].history != [] && s.slots[i].length <= s.config.capacity
    ensures var o := Sighting(s, i);
            && Continue(s, more)
               == s.(readers := s.readers + [Copying(o, [])], observations := s.observations + {o})
            && Inv(Continue(s, more))
  {
    var q, r := s.slots[i].sequence, |s.readers|;
    LoadLatest(s, i);
    var loaded := ApplyLoadSequence(s, i, q);
    LoadThenCopy(loaded, i);
    assert loaded.readers[r := Copying(Sighting(s, i), [])] == s.readers + [Copying(Sighting(s, i), [])];
    ApplyKeepsSizes(s, LoadSequence(i, q));
    ContinueTwo(s, LoadSequence(i, q), LoadLength(r));
    more := [LoadSequence(i, q), LoadLength(r)];
    ContinueKeepsInv(s, more);
  }

  lemma StoreLengthOnly(s: State)
    requires Inv(s) && s.writer.Filling? && s.writer.written == |s.writer.data|
    ensures var t, w := Continue(s, [StoreLength]), s.writer.slot;
            && w < |t.slots| == |s.slots| && t.readers == s.readers && t.delivered == s.delivered
            && t.slots[w] == s.slots[w].(length := |s.writer.data|)
  {
    ContinueOne(s, StoreLength);
  }

  /** The latest sequence is observed and acknowledged. */
  lemma AcknowledgeLatest(s: State, i: nat) returns (more: seq<Step>)
    requires Inv(s) && s.writer.Idle? && i < |s.slots| && s.slots[i].history != []
    ensures var t := Continue(s, more);
            && Inv(t) && t.writer.Idle? && |t.slots| == |s.slots| && t.delivered == s.delivered
            && t.slots[i] == s.slots[i].(ack := s.slots[i].sequence) && s.readers <= t.readers
  {
    assert Intact(s.slots[i]);
    var start := StartCopy(s, i);
    var seen := Continue(s, start);
    AcknowledgeObserved(seen, |s.readers|);
    var ack := [Acknowledge(Sighting(s, i))];
    more := start + ack;
    ContinueThen(s, start, ack);
  }

  /** One more publication of slot `i`, up to the store of a length of choice. */
  lemma StoreAgain(s: State, i: nat, length: nat) returns (more: seq<Step>)
    requires Inv(s) && s.writer.Idle? && i < |s.slots| && s.slots[i].history != []
    requires s.slots[i].sequence + |s.slots| <= U64_MAX && length <= s.config.capacity
    ensures var t := Continue(s, more);
            && |t.slots| == |s.slots| && t.delivered == s.delivered && s.readers <= t.readers
            && t.slots[i].length == length && t.slots[i].history == s.slots[i].history
  {
    var acknowledge := AcknowledgeLatest(s, i);
    var acknowledged := Continue(s, acknowledge);
    var refill := RefillBegins(acknowledged, i, seq(length, p => 0));
    var begun := Continue(acknowledged, refill);
    var fill := Fill(begun);
    var filled := Continue(begun, fill);
    StoreLengthOnly(filled);
    more := acknowledge + (refill + (fill + [StoreLength]));
    ContinueThen(s, acknowledge, refill + (fill + [StoreLength]));
    ContinueThen(acknowledged, refill, fill + [StoreLength]);
    ContinueThen(begun, fill, [StoreLength]);
  }
}
