/** Control records over a channel that may lose, duplicate and reorder, and
    the control state as the endpoints update it in place. */
module ControlChannel {
  import opened Machine
  import opened Wire
  import opened Limits
  import opened Control

  // ----- one sender -----

  /** What the sending endpoint may do: send into a buffer of some size, decode
      whatever reached it, open and close transactions, or fail. */
  datatype Action =
    | SendFrame(frame: ControlFrame, room: nat)
    | DecodeBytes(bytes: seq<byte>)
    | OpenTransaction
    | CloseTransaction
    | Fail

  function Act(s: State, action: Action): State {
    match action
    case SendFrame(f, room) => AfterSend(s, f, room)
    case DecodeBytes(b) => Decode(s, b).0
    case OpenTransaction => Begin(s).0
    case CloseTransaction => End(s).0
    case Fail => Poison(s)
  }

  predicate Sends(s: State, action: Action) {
    action.SendFrame? && SendFault(s, action.frame, action.room).None?
  }

  /** The endpoint after its actions and the frames they put on the wire. */
  function Sent(s: State, actions: seq<Action>): (State, seq<ControlFrame>) {
    if actions == [] then (s, [])
    else
      var (before, frames) := Sent(s, actions[..|actions| - 1]);
      var action := actions[|actions| - 1];
      (Act(before, action), if Sends(before, action) then frames + [action.frame] else frames)
  }

  ghost predicate AllAdmitted(maximumPayload: u32, frames: seq<ControlFrame>) {
    |frames| < U64_MAX && forall i :: 0 <= i < |frames| ==> Admitted(maximumPayload, frames[i])
  }

  /** Only a send that succeeds takes a number. */
  lemma ActKeepsNumber(s: State, action: Action)
    ensures var t := Act(s, action);
            && t.nonce == s.nonce && t.maximumPayload == s.maximumPayload
            && if Sends(s, action) then t.nextSend == s.nextSend + 1 && Admitted(s.maximumPayload, action.frame)
               else t.nextSend == s.nextSend
  {
  }

  /** From a fresh state the frames sent are admitted and carry 1, 2, 3, ..., whatever happens between the sends. */
  lemma {:induction false} SentIsNumbered(s: State, actions: seq<Action>)
    requires s.nextSend == 1
    ensures var (t, frames) := Sent(s, actions);
            && t.nextSend == |frames| + 1 && t.maximumPayload == s.maximumPayload && t.nonce == s.nonce
            && AllAdmitted(s.maximumPayload, frames)
  {
    if actions != [] {
      SentIsNumbered(s, actions[..|actions| - 1]);
      ActKeepsNumber(Sent(s, actions[..|actions| - 1]).0, actions[|actions| - 1]);
    }
  }

  // ----- one receiver -----

  /** What may reach the receiver: any copy of any record, at any time. */
  datatype Event = Deliver(i: nat) | BeginTransaction | EndTransaction | PoisonNow

  datatype Receiver = Receiver(state: State, accepted: seq<ControlFrame>)

  function Numbered(nonce: Bytes32, frames: seq<ControlFrame>, i: nat): seq<byte>
    requires i < |frames| < U64_MAX && |frames[i].payload| <= HARD_MAX_CONTROL_PAYLOAD_BYTES
  {
    Record(nonce, i + 1, frames[i])
  }

  function Taken(r: Receiver, b: seq<byte>): Receiver {
    var (t, result) := Decode(r.state, b);
    Receiver(t, if result.Ok? then r.accepted + [result.value] else r.accepted)
  }

  ghost function Apply(frames: seq<ControlFrame>, r: Receiver, event: Event): Receiver
    requires AllAdmitted(r.state.maximumPayload, frames)
  {
    match event
    case Deliver(i) =>
      if i >= |frames| then r
      else Taken(r, Numbered(r.state.nonce, frames, i))
    case BeginTransaction => r.(state := Begin(r.state).0)
    case EndTransaction => r.(state := End(r.state).0)
    case PoisonNow => r.(state := Poison(r.state))
  }

  ghost predicate InPrefix(s: State, frames: seq<ControlFrame>, r: Receiver) {
    && r.state.nonce == s.nonce && r.state.maximumPayload == s.maximumPayload && !r.state.pending
    && 1 <= r.state.nextReceive <= |frames| + 1
    && r.accepted == frames[..r.state.nextReceive - 1]
  }

  /** A delivery is accepted exactly when it is the next record in order. */
  lemma DeliverInOrder(frames: seq<ControlFrame>, s: State, r: Receiver, i: nat)
    requires AllAdmitted(s.maximumPayload, frames) && InPrefix(s, frames, r) && i < |frames|
    ensures var (t, result) := Decode(r.state, Numbered(s.nonce, frames, i));
            && (result.Ok? <==> !r.state.poisoned && !r.state.open && i + 1 == r.state.nextReceive)
            && (result.Ok? ==> result.value == frames[i])
  {
    var b := Numbered(s.nonce, frames, i);
    var (t, result) := Decode(r.state, b);
    if result.Ok? {
      AcceptedIsRecord(r.state, b);
      SequenceIsBound(s.nonce, i + 1, frames[i], r.state.nextReceive, result.value);
    }
    if !r.state.poisoned && !r.state.open && i + 1 == r.state.nextReceive {
      RecordIsAccepted(r.state, frames[i]);
    }
  }

  predicate InTurn(s: State, i: nat) {
    !s.poisoned && !s.open && i + 1 == s.nextReceive
  }

  /** The same receiver described by sequence numbers alone. */
  function Step(frames: seq<ControlFrame>, r: Receiver, event: Event): Receiver {
    match event
    case Deliver(i) =>
      if i >= |frames| then r
      else if InTurn(r.state, i) && i + 2 <= U64_MAX
      then Receiver(r.state.(nextReceive := i + 2), r.accepted + [frames[i]])
      else Receiver(Poison(r.state), r.accepted)
    case BeginTransaction => r.(state := Begin(r.state).0)
    case EndTransaction => r.(state := End(r.state).0)
    case PoisonNow => r.(state := Poison(r.state))
  }

  lemma TakenMoves(r: Receiver, b: seq<byte>)
    requires !r.state.pending
    ensures var result := Decode(r.state, b).1;
            Taken(r, b) == if result.Ok? && r.state.nextReceive < U64_MAX
                           then Receiver(r.state.(nextReceive := r.state.nextReceive + 1), r.accepted + [result.value])
                           else Receiver(Poison(r.state), r.accepted)
  {
    DecodeMoves(r.state, b);
  }

  /** Decoding the bytes of any copy of any record takes exactly that step. */
  lemma DeliveryIsStep(frames: seq<ControlFrame>, s: State, r: Receiver, event: Event)
    requires AllAdmitted(s.maximumPayload, frames) && InPrefix(s, frames, r)
    ensures Apply(frames, r, event) == Step(frames, r, event)
  {
    if event.Deliver? && event.i < |frames| {
      DeliverInOrder(frames, s, r, event.i);
      TakenMoves(r, Numbered(s.nonce, frames, event.i));
    }
  }

  lemma StepKeepsPrefix(frames: seq<ControlFrame>, s: State, r: Receiver, event: Event)
    requires AllAdmitted(s.maximumPayload, frames) && InPrefix(s, frames, r)
    ensures InPrefix(s, frames, Step(frames, r, event))
  {
  }

  ghost function Reach(s: State, frames: seq<ControlFrame>, events: seq<Event>): Receiver {
    if events == [] then Receiver(s, [])
    else Step(frames, Reach(s, frames, events[..|events| - 1]), events[|events| - 1])
  }

  /** The byte-level run: each delivery is decoded. */
  ghost function Receive(s: State, frames: seq<ControlFrame>, events: seq<Event>): (r: Receiver)
    requires AllAdmitted(s.maximumPayload, frames) && s.nextReceive == 1 && !s.pending
    ensures InPrefix(s, frames, r) && r == Reach(s, frames, events)
    decreases |events|
  {
    if events == [] then Receiver(s, [])
    else
      var before := Receive(s, frames, events[..|events| - 1]);
      DeliveryIsStep(frames, s, before, events[|events| - 1]);
      StepKeepsPrefix(frames, s, before, events[|events| - 1]);
      Apply(frames, before, events[|events| - 1])
  }

  /** Whatever the channel loses, repeats or reorders, and whatever transactions
      and failures either endpoint goes through meanwhile, the frames accepted
      are a prefix of the frames sent. */
  lemma AcceptedIsPrefix(s: State, actions: seq<Action>, peer: State, events: seq<Event>)
    requires s.nextSend == 1 && peer.nextReceive == 1 && !peer.pending
    requires peer.maximumPayload == s.maximumPayload && peer.nonce == s.nonce
    ensures var frames := Sent(s, actions).1;
            AllAdmitted(s.maximumPayload, frames) && Receive(peer, frames, events).accepted <= frames
  {
    SentIsNumbered(s, actions);
    var frames := Sent(s, actions).1;
    var r := Receive(peer, frames, events);
    assert r.accepted == frames[..r.state.nextReceive - 1];
  }

  /** A delivery out of turn poisons the receiver and accepts nothing. */
  lemma DeviationPoisons(s: State, frames: seq<ControlFrame>, events: seq<Event>, i: nat)
    requires AllAdmitted(s.maximumPayload, frames) && s.nextReceive == 1 && !s.pending && i < |frames|
    requires !InTurn(Receive(s, frames, events).state, i)
    ensures var r := Receive(s, frames, events);
            Apply(frames, r, Deliver(i)) == Receiver(Poison(r.state), r.accepted)
  {
    DeliveryIsStep(frames, s, Receive(s, frames, events), Deliver(i));
  }

  lemma {:induction false} PoisonedReach(s: State, frames: seq<ControlFrame>, events: seq<Event>, more: seq<Event>)
    requires Reach(s, frames, events).state.poisoned
    ensures var r, t := Reach(s, frames, events), Reach(s, frames, events + more);
            t.state.poisoned && t.accepted == r.accepted
    decreases |more|
  {
    if more == [] {
      assert events + more == events;
    } else {
      var n := |more| - 1;
      PoisonedReach(s, frames, events, more[..n]);
      assert (events + more)[..|events + more| - 1] == events + more[..n];
    }
  }

  /** A poisoned receiver never accepts another frame. */
  lemma PoisonIsForever(s: State, frames: seq<ControlFrame>, events: seq<Event>, more: seq<Event>)
    requires AllAdmitted(s.maximumPayload, frames) && s.nextReceive == 1 && !s.pending
    requires Receive(s, frames, events).state.poisoned
    ensures var r, t := Receive(s, frames, events), Receive(s, frames, events + more);
            t.state.poisoned && t.accepted == r.accepted
  {
    PoisonedReach(s, frames, events, more);
  }

  function InOrder(n: nat): (e: seq<Event>)
    ensures |e| == n
  {
    if n == 0 then [] else InOrder(n - 1) + [Deliver(n - 1)]
  }

  lemma {:induction false} OrderedReach(s: State, frames: seq<ControlFrame>, n: nat)
    requires n <= |frames| < U64_MAX && s.nextReceive == 1 && !s.open && !s.poisoned
    ensures Reach(s, frames, InOrder(n)) == Receiver(s.(nextReceive := n + 1), frames[..n])
  {
    if n > 0 {
      OrderedReach(s, frames, n - 1);
      assert InOrder(n)[..n - 1] == InOrder(n - 1);
      assert frames[..n] == frames[..n - 1] + [frames[n - 1]];
    }
  }

  /** Delivered in order, everything sent is accepted, up to the last sequence. */
  lemma InOrderIsAccepted(s: State, frames: seq<ControlFrame>, n: nat)
    requires AllAdmitted(s.maximumPayload, frames) && s.nextReceive == 1 && !s.pending && !s.open && !s.poisoned
    requires n <= |frames|
    ensures var r := Receive(s, frames, InOrder(n));
            !r.state.poisoned && r.state.nextReceive == n + 1 && r.accepted == frames[..n]
  {
    OrderedReach(s, frames, n);
  }

  // ----- inside a transaction -----

  /** What poisons a receiver with an open transaction: everything but its end
      and the delivery of a record that was never sent. */
  predicate Disturbs(frames: seq<ControlFrame>, event: Event) {
    event.BeginTransaction? || event.PoisonNow? || (event.Deliver? && event.i < |frames|)
  }

  predicate AnyDisturbs(frames: seq<ControlFrame>, events: seq<Event>) {
    exists k :: 0 <= k < |events| && Disturbs(frames, events[k])
  }

  lemma OneMoreDisturbs(frames: seq<ControlFrame>, events: seq<Event>, n: nat)
    requires |events| == n + 1
    ensures AnyDisturbs(frames, events) <==> AnyDisturbs(frames, events[..n]) || Disturbs(frames, events[n])
  {
    if k :| 0 <= k < |events| && Disturbs(frames, events[k]) && k < n {
      assert events[..n][k] == events[k];
    }
  }

  lemma OpenSteps(frames: seq<ControlFrame>, r: Receiver, event: Event)
    requires r.state.open && !event.EndTransaction?
    ensures var t := Step(frames, r, event);
            t == r.(state := r.state.(poisoned := r.state.poisoned || Disturbs(frames, event)))
  {
  }

  lemma ReachOneMore(s: State, frames: seq<ControlFrame>, events: seq<Event>, event: Event)
    ensures Reach(s, frames, events + [event]) == Step(frames, Reach(s, frames, events), event)
  {
    assert (events + [event])[..|events|] == events;
  }

  /** From the moment a transaction is granted until its end no delivery is
      accepted, and the receiver is poisoned exactly when something disturbed it. */
  lemma {:induction false} ShutWhileOpen(s: State, frames: seq<ControlFrame>, events: seq<Event>, more: seq<Event>)
    requires var r := Reach(s, frames, events).state; !r.poisoned && !r.open && !r.pending
    requires EndTransaction !in more
    ensures var r, t := Reach(s, frames, events), Reach(s, frames, events + [BeginTransaction] + more);
            t.accepted == r.accepted && t.state == r.state.(open := true, poisoned := AnyDisturbs(frames, more))
    decreases |more|
  {
    var begun := events + [BeginTransaction];
    ReachOneMore(s, frames, events, BeginTransaction);
    if more == [] {
      assert begun + more == begun;
    } else {
      var n := |more| - 1;
      ShutWhileOpen(s, frames, events, more[..n]);
      assert begun + more == (begun + more[..n]) + [more[n]];
      ReachOneMore(s, frames, begun + more[..n], more[n]);
      OpenSteps(frames, Reach(s, frames, begun + more[..n]), more[n]);
      OneMoreDisturbs(frames, more, n);
    }
  }

  /** The same from the bytes: a delivery inside a transaction is refused. */
  lemma NothingAcceptedInside(s: State, frames: seq<ControlFrame>, events: seq<Event>, more: seq<Event>)
    requires AllAdmitted(s.maximumPayload, frames) && s.nextReceive == 1 && !s.pending
    requires var r := Receive(s, frames, events).state; !r.poisoned && !r.open
    requires EndTransaction !in more
    ensures var r, t := Receive(s, frames, events), Receive(s, frames, events + [BeginTransaction] + more);
            && t.accepted == r.accepted && t.state.open
            && (t.state.poisoned <==> AnyDisturbs(frames, more))
  {
    ShutWhileOpen(s, frames, events, more);
  }

  lemma SentOneMore(s: State, actions: seq<Action>, action: Action)
    ensures var (before, frames) := Sent(s, actions);
            Sent(s, actions + [action])
            == (Act(before, action), if Sends(before, action) then frames + [action.frame] else frames)
  {
    assert (actions + [action])[..|actions|] == actions;
  }

  lemma OpenActs(s: State, action: Action)
    requires s.open && !s.pending && !action.CloseTransaction?
    ensures !Sends(s, action) && Act(s, action) == s.(poisoned := true)
  {
  }

  /** An endpoint with an open transaction sends nothing, and whatever it does but end it poisons it. */
  lemma {:induction false} SilentWhileOpen(s: State, actions: seq<Action>, more: seq<Action>)
    requires var t := Sent(s, actions).0; !t.poisoned && !t.open && !t.pending
    requires CloseTransaction !in more
    ensures var (t, frames) := Sent(s, actions);
            Sent(s, actions + [OpenTransaction] + more) == (t.(open := true, poisoned := more != []), frames)
    decreases |more|
  {
    var begun := actions + [OpenTransaction];
    if more == [] {
      OpenOnly(s, actions);
      assert begun + more == begun;
    } else {
      var n := |more| - 1;
      SilentWhileOpen(s, actions, more[..n]);
      LastApart(begun, more, n);
      StaysSilent(s, begun + more[..n], more[n]);
    }
  }

  lemma LastApart(first: seq<Action>, more: seq<Action>, n: nat)
    requires |more| == n + 1
    ensures first + more == (first + more[..n]) + [more[n]]
  {
  }

  lemma OpenOnly(s: State, actions: seq<Action>)
    requires var t := Sent(s, actions).0; !t.poisoned && !t.open && !t.pending
    ensures var (t, frames) := Sent(s, actions); Sent(s, actions + [OpenTransaction]) == (t.(open := true), frames)
  {
    SentOneMore(s, actions, OpenTransaction);
  }

  lemma StaysSilent(s: State, actions: seq<Action>, action: Action)
    requires var t := Sent(s, actions).0; t.open && !t.pending
    requires !action.CloseTransaction?
    ensures var (t, frames) := Sent(s, actions); Sent(s, actions + [action]) == (t.(poisoned := true), frames)
  {
    SentOneMore(s, actions, action);
    OpenActs(Sent(s, actions).0, action);
  }

  // ----- the state in place -----

  class ControlStateOwner {
    const nonce: Bytes32
    const maximumPayload: u32
    var nextSend: u64
    var nextReceive: u64
    var transactionOpen: bool
    var poisoned: bool
    var pendingReceive: bool

    ghost function Value(): State
      reads this
    {
      State(nonce, maximumPayload, nextSend, nextReceive, transactionOpen, poisoned, pendingReceive)
    }

    constructor (nonce: Bytes32, maximumPayload: u32)
      ensures Value() == State(nonce, maximumPayload, 1, 1, false, false, false)
    {
      this.nonce, this.maximumPayload := nonce, maximumPayload;
      nextSend, nextReceive, transactionOpen, poisoned, pendingReceive := 1, 1, false, false, false;
    }

    method BeginNative() returns (fault: Option<ControlError>)
      modifies this
      ensures (Value(), fault) == Begin(old(Value()))
      ensures fault.None? <==> !old(poisoned) && !old(transactionOpen) && !old(pendingReceive)
      ensures fault.None? ==> transactionOpen && !poisoned
      ensures fault.Some? ==> poisoned && transactionOpen == old(transactionOpen)
      ensures nextSend == old(nextSend) && nextReceive == old(nextReceive) && pendingReceive == old(pendingReceive)
    {
      if poisoned {
        return Some(Poisoned);
      }
      if transactionOpen || pendingReceive {
        poisoned := true;
        return Some(TransactionConflict);
      }
      transactionOpen := true;
      return None;
    }

    method EndNative() returns (fault: Option<ControlError>)
      modifies this
      ensures (Value(), fault) == End(old(Value()))
      ensures fault.None? <==> !old(poisoned) && old(transactionOpen)
      ensures fault.None? ==> !transactionOpen && !poisoned
      ensures fault.Some? ==> poisoned && transactionOpen == old(transactionOpen)
      ensures nextSend == old(nextSend) && nextReceive == old(nextReceive) && pendingReceive == old(pendingReceive)
    {
      if poisoned {
        return Some(Poisoned);
      }
      if !transactionOpen {
        poisoned := true;
        return Some(TransactionConflict);
      }
      transactionOpen := false;
      return None;
    }

    /** The record is written over whatever the destination held, and nothing past it changes. */
    method EncodePartsInto(f: ControlFrame, destination: array<byte>) returns (r: Result<nat, ControlError>)
      modifies this, destination
      ensures Value() == AfterSend(old(Value()), f, destination.Length)
      ensures r.Ok? <==> SendFault(old(Value()), f, destination.Length).None?
      ensures r.Err? ==> Some(r.error) == SendFault(old(Value()), f, destination.Length)
                         && destination[..] == old(destination[..])
      ensures r.Ok? ==> r.value == 72 + |f.payload| <= destination.Length
                        && |f.payload| <= HARD_MAX_CONTROL_PAYLOAD_BYTES
      ensures r.Ok? ==> destination[..r.value] == Record(nonce, old(nextSend), f)
      ensures r.Ok? ==> destination[r.value..] == old(destination[72 + |f.payload|..])
    {
      if transactionOpen || pendingReceive {
        poisoned := true;
        return Err(TransactionConflict);
      }
      if nextSend == U64_MAX {
        poisoned := true;
        return Err(SequenceExhausted);
      }
      var required := EncodedLenParts(f);
      if required.Err? {
        return required;
      }
      if destination.Length < required.value {
        return Err(DestinationTooSmall);
      }
      ReplaceFront(destination, nonce, nextSend, f);
      nextSend := nextSend + 1;
      return required;
    }

    method EncodedLenParts(f: ControlFrame) returns (r: Result<nat, ControlError>)
      ensures r.Ok? <==> LocalFault(Value(), f).None?
      ensures r.Ok? ==> r.value == 72 + |f.payload| && |f.payload| <= HARD_MAX_CONTROL_PAYLOAD_BYTES
      ensures r.Err? ==> Some(r.error) == LocalFault(Value(), f)
      ensures r.Ok? <==>
              && !poisoned && !transactionOpen && nextSend != U64_MAX && f.kind >= 0x8000_0000
              && |f.payload| <= maximumPayload && |f.payload| <= 0x100_0000
      ensures r.Err? ==>
                match r.error
                case Poisoned => poisoned
                case TransactionConflict => transactionOpen
                case ReservedKind => f.kind < 0x8000_0000
                case LengthOverflow => |f.payload| > 0xFFFF_FFFF
                case PayloadTooLarge =>
                  |f.payload| <= 0xFFFF_FFFF && (|f.payload| > maximumPayload || |f.payload| > 0x100_0000)
                case SequenceExhausted => nextSend == U64_MAX
                case _ => false
    {
      if poisoned {
        return Err(Poisoned);
      }
      if transactionOpen {
        return Err(TransactionConflict);
      }
      if f.kind < APPLICATION_CONTROL_KIND_MIN {
        return Err(ReservedKind);
      }
      if |f.payload| > U32_MAX {
        return Err(LengthOverflow);
      }
      if |f.payload| > maximumPayload || |f.payload| > HARD_MAX_CONTROL_PAYLOAD_BYTES {
        return Err(PayloadTooLarge);
      }
      if nextSend == U64_MAX {
        return Err(SequenceExhausted);
      }
      return Ok(72 + |f.payload|);
    }

    /** Header check, pending receive, payload check: a receive that stops
        halfway leaves the state poisoned. */
    method DecodeOwned(source: seq<byte>) returns (r: Result<ControlFrame, ControlError>)
      modifies this
      ensures (Value(), r) == Decode(old(Value()), source)
    {
      if |source| < 72 {
        poisoned := true;
        return Err(Truncated);
      }
      var fault := HeaderFault(
        State(nonce, maximumPayload, nextSend, nextReceive, transactionOpen, poisoned, pendingReceive), source);
      if fault.Some? {
        poisoned := true;
        return Err(fault.value);
      }
      pendingReceive := true;
      if |source| != 72 + GetU32(source, 20) || nextReceive == U64_MAX {
        pendingReceive, poisoned := false, true;
        return Err(NonCanonical);
      }
      nextReceive := nextReceive + 1;
      pendingReceive := false;
      return Ok(ControlFrame(GetU32(source, 24), source[72..]));
    }
  }

  method ReplaceFront(destination: array<byte>, nonce: Bytes32, sequence: u64, f: ControlFrame)
    requires |f.payload| <= HARD_MAX_CONTROL_PAYLOAD_BYTES && destination.Length >= 72 + |f.payload|
    modifies destination
    ensures destination[..72 + |f.payload|] == Record(nonce, sequence, f)
    ensures destination[72 + |f.payload|..] == old(destination[72 + |f.payload|..])
  {
    EncoderIgnoresOldBytes(destination[..], nonce, sequence, f);
    ghost var before := destination[..];
    WriteRecord(destination, nonce, sequence, f);
    ghost var n := 72 + |f.payload|;
    assert destination[..n] == destination[..][..n] && destination[n..] == destination[..][n..];
    assert old(destination[n..]) == before[n..];
  }

  method WriteRecord(destination: array<byte>, nonce: Bytes32, sequence: u64, f: ControlFrame)
    requires |f.payload| <= HARD_MAX_CONTROL_PAYLOAD_BYTES && destination.Length >= 72 + |f.payload|
    modifies destination
    ensures destination[..] == EncodedOver(old(destination[..]), nonce, sequence, f)
  {
    PutBytes(destination, 28, Zeros(4));
    PutBytes(destination, 0, MAGIC);
    PutBytes(destination, 8, U16Bytes(VERSION_MAJOR));
    PutBytes(destination, 10, U16Bytes(VERSION_MINOR));
    PutBytes(destination, 12, U32Bytes(CONTROL_HEADER_LEN));
    PutBytes(destination, 16, U32Bytes(72 + |f.payload|));
    PutBytes(destination, 20, U32Bytes(|f.payload|));
    PutBytes(destination, 24, U32Bytes(f.kind));
    PutBytes(destination, 32, nonce);
    PutBytes(destination, 64, U64Bytes(sequence));
    PutBytes(destination, 72, f.payload);
  }
}
