/** The dispatcher and its two transaction owners as they run: methods that
    update the session in place, each proved to be a run of protocol steps. */
module Dispatcher {
  import opened Machine
  import opened Limits
  import opened Protocol
  import opened Transfer

  datatype ControlFailure = Poisoned | DeadlineExpired | SequenceExhausted | TransactionConflict

  /** What the transport does with a receive: a record, or an error. */
  function Arrived(ok: bool, taken: nat, peer: seq<Record>): bool {
    ok && taken < |peer|
  }

  function CoordinatorThen(session: Session, v: (Side, CoordinatorPhase), reserved: bool, step: CoordinatorStep,
                           peer: seq<Record>): (Side, CoordinatorPhase)
  {
    ApplyCoordinator(session, v.0, v.1, reserved, step, peer)
  }

  function ReceiverThen(session: Session, v: (Side, ReceiverPhase), reserved: bool, step: ReceiverStep,
                        peer: seq<Record>): (Side, ReceiverPhase)
  {
    ApplyReceiver(session, v.0, v.1, reserved, step, peer)
  }

  class AcceptedControlDispatcher {
    const session: Session
    var poisoned: bool
    var open: bool
    var next: nat
    var sent: seq<Record>
    var taken: nat
    var committed: seq<Manifest>

    ghost function Value(): Side
      reads this
    {
      Side(poisoned, open, next, sent, taken, committed)
    }

    constructor (session: Session)
      ensures this.session == session && Value() == FRESH
    {
      this.session := session;
      poisoned, open, next, sent, taken, committed := false, false, 1, [], 0, [];
    }

    method PoisonBoth()
      modifies this
      ensures Value() == Poison(old(Value()))
    {
      poisoned := true;
    }

    /** A poisoned transport fails every later call without doing anything. */
    method SendRecord(record: Record, out: SendOutcome) returns (ok: bool)
      modifies this
      ensures Value() == (if old(poisoned) then old(Value()) else Send(old(Value()), record, out)) && ok == !poisoned
      ensures ok <==> !old(poisoned) && out == Delivered
      ensures sent == if old(poisoned) || out == Lost then old(sent) else old(sent) + [record]
    {
      if poisoned {
        return false;
      }
      if !out.Lost? {
        sent := sent + [record];
      }
      ok := out.Delivered?;
      if !ok {
        PoisonBoth();
      }
    }

    method ReceiveRecord(ok: bool, peer: seq<Record>) returns (r: Option<Record>)
      modifies this
      ensures if !old(poisoned) && Arrived(ok, old(taken), peer)
              then r == Some(peer[old(taken)]) && Value() == Take(old(Value()))
              else r == None && Value() == Poison(old(Value()))
    {
      if !poisoned && ok && taken < |peer| {
        r := Some(peer[taken]);
        taken := taken + 1;
      } else {
        PoisonBoth();
        r := None;
      }
    }

    /** `enter_native_transaction`: a refused call changes nothing, an
        exhausted or conflicting one poisons, a granted one takes the next id. */
    method EnterNativeTransaction(expired: bool) returns (r: Result<u64, ControlFailure>)
      requires session.limits.maxTransactions <= HARD_MAX_TRANSACTIONS
      modifies this
      ensures old(poisoned) || expired ==> Value() == old(Value())
      ensures !old(poisoned) && !expired ==> Value() == Enter(old(Value()), session.limits)
      ensures r.Ok? <==> !old(poisoned) && !expired && !poisoned
      ensures r.Ok? ==> r.value == old(next) && open && next == old(next) + 1
      ensures r.Err? ==> r.error == if old(poisoned) then Poisoned
                                    else if expired then DeadlineExpired
                                    else if old(next) > session.limits.maxTransactions then SequenceExhausted
                                    else TransactionConflict
    {
      if poisoned {
        return Err(Poisoned);
      }
      if expired {
        return Err(DeadlineExpired);
      }
      if next > session.limits.maxTransactions {
        PoisonBoth();
        return Err(SequenceExhausted);
      }
      if open {
        PoisonBoth();
        return Err(TransactionConflict);
      }
      open := true;
      var id := next;
      next := next + 1;
      return Ok(id);
    }

    method EndTransaction() returns (ok: bool)
      modifies this
      ensures Value() == (if old(poisoned) then old(Value()) else End(old(Value()))) && ok == !poisoned
    {
      ok := open && !poisoned;
      if ok {
        open := false;
      } else {
        PoisonBoth();
      }
    }
  }

  /** The coordinator's transaction owner: `phase` is CIdle once it is gone. */
  class CoordinatorTransaction {
    const dispatcher: AcceptedControlDispatcher
    var phase: CoordinatorPhase

    constructor (dispatcher: AcceptedControlDispatcher, m: Manifest)
      ensures this.dispatcher == dispatcher && phase == COpened(m)
    {
      this.dispatcher := dispatcher;
      phase := COpened(m);
    }

    ghost function Value(): (Side, CoordinatorPhase)
      reads this, dispatcher
    {
      (dispatcher.Value(), phase)
    }

    method Fail()
      modifies this, dispatcher
      ensures Value() == (Poison(old(dispatcher.Value())), CIdle)
    {
      dispatcher.PoisonBoth();
      phase := CIdle;
    }

    method SendAndEnter(record: Record, out: SendOutcome, after: CoordinatorPhase) returns (ok: bool)
      modifies this, dispatcher
      ensures dispatcher.Value() == if old(dispatcher.poisoned) then old(dispatcher.Value())
                                    else Send(old(dispatcher.Value()), record, out)
      ensures ok == !dispatcher.poisoned && phase == if ok then after else CIdle
    {
      ok := dispatcher.SendRecord(record, out);
      phase := if ok then after else CIdle;
    }

    /** The capacity exchange: one offer, one answer. */
    method ExchangeCapacity(reserved: bool, prepared: bool, out: SendOutcome, ok: bool, peer: seq<Record>)
      returns (ready: Option<bool>)
      requires phase.COpened?
      modifies this, dispatcher
      ensures old(dispatcher.poisoned) ==> Value() == (old(dispatcher.Value()), CIdle)
      ensures !old(dispatcher.poisoned) ==>
              var offer := CSendOffer(prepared, out);
              var offered := CoordinatorThen(dispatcher.session, old(Value()), reserved, offer, peer);
              var arrived := CReceive(Arrived(ok, old(dispatcher.taken), peer));
              Value() == CoordinatorThen(dispatcher.session, offered, reserved, arrived, peer)
      ensures ready == Some(true) <==> phase.CPreflighted?
      ensures ready == None <==> dispatcher.poisoned
      ensures ready == Some(true) ==>
                && reserved && prepared && out == Delivered && ok && old(dispatcher.taken) < |peer|
                && peer[old(dispatcher.taken)] == Native(Reply, Ready, old(phase).m)
    {
      var m := phase.m;
      var status := LocalStatus(reserved, prepared);
      var delivered := SendAndEnter(Native(Offer, status, m), out, COfferSent(m, status));
      if !delivered {
        return None;
      }
      var response := dispatcher.ReceiveRecord(ok, peer);
      match response
      case None =>
        phase := CIdle;
        return None;
      case Some(record) =>
        if record == Native(Reply, Ready, m) && status.Ready? {
          phase := CPreflighted(m);
          return Some(true);
        } else if record == Native(Reply, ActiveLimit, m) {
          phase := CIdle;
          var ended := dispatcher.EndTransaction();
          return if ended then Some(false) else None;
        }
        Fail();
        return None;
    }

    /** `prepare`: CAPABILITY out, IMPORTED in, SEALED out, with the regions
        revalidated before each send. */
    method Prepare(valid: bool, out: SendOutcome, ok: bool, stillValid: bool, out2: SendOutcome, peer: seq<Record>)
      returns (done: bool)
      modifies this, dispatcher
      ensures old(dispatcher.poisoned) || !old(phase).CPreflighted? ==>
              Value() == (Poison(old(dispatcher.Value())), CIdle)
      ensures !old(dispatcher.poisoned) && old(phase).CPreflighted? ==>
                var offered := CoordinatorThen(dispatcher.session, old(Value()), false, CSendNext(valid, out), peer);
                var arrived := CReceive(Arrived(ok, old(dispatcher.taken), peer));
                var answered := CoordinatorThen(dispatcher.session, offered, false, arrived, peer);
                Value() == CoordinatorThen(dispatcher.session, answered, false, CSendNext(stillValid, out2), peer)
      ensures done == !dispatcher.poisoned && (done ==> phase.CSealedSent?)
      ensures done ==>
                && old(phase).CPreflighted? && valid && stillValid && out == out2 == Delivered
                && ok && old(dispatcher.taken) < |peer|
                && peer[old(dispatcher.taken)] == Native(Imported, Ready, old(phase).m)
                && dispatcher.sent == old(dispatcher.sent) + [Native(Capability, Ready, old(phase).m)]
                                      + [Native(Sealed, Ready, old(phase).m)]
    {
      if !phase.CPreflighted? {
        Fail();
        return false;
      }
      var m := phase.m;
      if !valid {
        Fail();
        return false;
      }
      var delivered := SendAndEnter(Frame(Capability, m), out, CCapabilitySent(m));
      if !delivered {
        return false;
      }
      var imported := dispatcher.ReceiveRecord(ok, peer);
      if imported != Some(Frame(Imported, m)) || !stillValid {
        Fail();
        return false;
      }
      done := SendAndEnter(Frame(Sealed, m), out2, CSealedSent(m));
    }

    /** `commit`: READY in, COMMIT out, transaction ended, batch committed. */
    method Commit(ok: bool, out: SendOutcome, peer: seq<Record>) returns (batch: Option<Manifest>)
      modifies this, dispatcher
      ensures old(dispatcher.poisoned) || !old(phase).CSealedSent? ==>
              Value() == (Poison(old(dispatcher.Value())), CIdle)
      ensures !old(dispatcher.poisoned) && old(phase).CSealedSent? ==>
                var arrived := CReceive(Arrived(ok, old(dispatcher.taken), peer));
                var answered := CoordinatorThen(dispatcher.session, old(Value()), false, arrived, peer);
                Value() == CoordinatorThen(dispatcher.session, answered, false, CSendNext(true, out), peer)
      ensures phase.CIdle? && (batch.Some? <==> !dispatcher.poisoned)
      ensures batch.Some? ==> dispatcher.committed == old(dispatcher.committed) + [batch.value]
      ensures batch.None? ==> dispatcher.committed == old(dispatcher.committed)
      ensures batch.Some? ==>
                && old(phase) == CSealedSent(batch.value) && out == Delivered && ok && old(dispatcher.taken) < |peer|
                && peer[old(dispatcher.taken)] == Native(ReadyFrame, Ready, batch.value)
                && dispatcher.sent == old(dispatcher.sent) + [Native(Tag.Commit, Ready, batch.value)]
    {
      if !phase.CSealedSent? {
        Fail();
        return None;
      }
      var m := phase.m;
      var ready := dispatcher.ReceiveRecord(ok, peer);
      if ready != Some(Frame(ReadyFrame, m)) {
        Fail();
        return None;
      }
      var delivered := SendAndEnter(Frame(Tag.Commit, m), out, CIdle);
      if !delivered {
        return None;
      }
      var ended := dispatcher.EndTransaction();
      if !ended {
        return None;
      }
      dispatcher.committed := dispatcher.committed + [m];
      return Some(m);
    }
  }

  /** The receiver's transaction owner, from the expectation to the COMMIT. */
  class ReceiverTransaction {
    const dispatcher: AcceptedControlDispatcher
    var phase: ReceiverPhase

    constructor (dispatcher: AcceptedControlDispatcher, id: nat)
      ensures this.dispatcher == dispatcher && phase == ROpened(id)
    {
      this.dispatcher := dispatcher;
      phase := ROpened(id);
    }

    ghost function Value(): (Side, ReceiverPhase)
      reads this, dispatcher
    {
      (dispatcher.Value(), phase)
    }

    method Fail()
      modifies this, dispatcher
      ensures Value() == (Poison(old(dispatcher.Value())), RIdle)
    {
      dispatcher.PoisonBoth();
      phase := RIdle;
    }

    method SendAndEnter(record: Record, out: SendOutcome, after: ReceiverPhase) returns (ok: bool)
      modifies this, dispatcher
      ensures dispatcher.Value() == if old(dispatcher.poisoned) then old(dispatcher.Value())
                                    else Send(old(dispatcher.Value()), record, out)
      ensures ok == !dispatcher.poisoned && phase == if ok then after else RIdle
    {
      ok := dispatcher.SendRecord(record, out);
      phase := if ok then after else RIdle;
    }

    /** The preflight: take the offer, reserve if the coordinator is ready, answer. */
    method AnswerOffer(ok: bool, accept: bool, reserved: bool, out: SendOutcome, peer: seq<Record>)
      returns (ready: bool)
      requires phase.ROpened?
      modifies this, dispatcher
      ensures old(dispatcher.poisoned) ==> Value() == (old(dispatcher.Value()), RIdle)
      ensures !old(dispatcher.poisoned) ==>
              var arrived := RReceive(Arrived(ok, old(dispatcher.taken), peer), accept);
              var offered := ReceiverThen(dispatcher.session, old(Value()), reserved, arrived, peer);
              Value() == ReceiverThen(dispatcher.session, offered, reserved, RSendReply(out), peer)
      ensures ready <==> phase.RReady?
      ensures ready ==>
                && accept && reserved && out == Delivered && ok && old(dispatcher.taken) < |peer|
                && var offer := peer[old(dispatcher.taken)];
                   && offer.Native? && offer.tag == Offer && offer.status == Ready
                   && offer.m.transferId == old(phase).id
                   && dispatcher.sent == old(dispatcher.sent) + [Native(Reply, Ready, offer.m)]
    {
      var id := phase.id;
      var offer := dispatcher.ReceiveRecord(ok, peer);
      match offer
      case Some(Native(Offer, status, m)) =>
        if m.transferId != id || !accept {
          Fail();
          return false;
        }
        phase := RDeciding(m, status);
        if status.Ready? && reserved {
          ready := SendAndEnter(Native(Reply, Ready, m), out, RReady(m.transferId));
        } else {
          var delivered := SendAndEnter(Native(Reply, ActiveLimit, m), out, RIdle);
          if delivered {
            var ended := dispatcher.EndTransaction();
          }
          return false;
        }
      case _ =>
        Fail();
        return false;
    }

    /** The part of `prepare` behind CAPABILITY: import, IMPORTED out, SEALED in, activation check. */
    method ImportAndSeal(m: Manifest, imported: bool, out: SendOutcome, ok2: bool, active: bool, peer: seq<Record>)
      returns (done: bool)
      requires !dispatcher.poisoned && phase == RGotCapability(m)
      modifies this, dispatcher
      ensures var answered := ReceiverThen(dispatcher.session, old(Value()), false, RSendNext(imported, out), peer);
              var sealed := RReceive(Arrived(ok2, answered.0.taken, peer), active);
              Value() == ReceiverThen(dispatcher.session, answered, false, sealed, peer)
      ensures done == !dispatcher.poisoned && (done ==> phase == RGotSealed(m))
      ensures done <==> && imported && active && out == Delivered && ok2 && old(dispatcher.taken) < |peer|
                        && peer[old(dispatcher.taken)] == Native(Sealed, Ready, m)
      ensures done ==> dispatcher.sent == old(dispatcher.sent) + [Native(Imported, Ready, m)]
      ensures done ==> dispatcher.taken == old(dispatcher.taken) + 1
    {
      if !imported {
        Fail();
        return false;
      }
      var delivered := SendAndEnter(Frame(Imported, m), out, RImportedSent(m));
      if !delivered {
        return false;
      }
      var sealed := dispatcher.ReceiveRecord(ok2, peer);
      if sealed != Some(Frame(Sealed, m)) || !active {
        Fail();
        return false;
      }
      phase := RGotSealed(m);
      return true;
    }

    /** `prepare`: CAPABILITY in, import, IMPORTED out, SEALED in, activation check. */
    method Prepare(ok: bool, accept: bool, imported: bool, out: SendOutcome, ok2: bool, active: bool, peer: seq<Record>)
      returns (done: bool)
      modifies this, dispatcher
      ensures old(dispatcher.poisoned) || !old(phase).RReady? ==> Value() == (Poison(old(dispatcher.Value())), RIdle)
      ensures !old(dispatcher.poisoned) && old(phase).RReady? ==>
                var arrived := RReceive(Arrived(ok, old(dispatcher.taken), peer), accept);
                var offered := ReceiverThen(dispatcher.session, old(Value()), false, arrived, peer);
                var answered := ReceiverThen(dispatcher.session, offered, false, RSendNext(imported, out), peer);
                var sealed := RReceive(Arrived(ok2, answered.0.taken, peer), active);
                Value() == ReceiverThen(dispatcher.session, answered, false, sealed, peer)
      ensures done == !dispatcher.poisoned && (done ==> phase.RGotSealed?)
      ensures done ==>
                && old(phase).RReady? && accept && imported && active && out == Delivered && ok && ok2
                && old(dispatcher.taken) + 1 < |peer| && phase.m.transferId == old(phase).id
                && peer[old(dispatcher.taken)] == Native(Capability, Ready, phase.m)
                && peer[old(dispatcher.taken) + 1] == Native(Sealed, Ready, phase.m)
                && dispatcher.sent == old(dispatcher.sent) + [Native(Imported, Ready, phase.m)]
    {
      if !phase.RReady? {
        Fail();
        return false;
      }
      var id := phase.id;
      var capability := dispatcher.ReceiveRecord(ok, peer);
      match capability
      case Some(Native(Capability, Ready, m)) =>
        if m.transferId != id || !accept {
          Fail();
          return false;
        }
        phase := RGotCapability(m);
        done := ImportAndSeal(m, imported, out, ok2, active, peer);
      case _ =>
        Fail();
        return false;
    }

    /** `commit`: READY out, the exact COMMIT in, transaction ended. */
    method Commit(out: SendOutcome, ok: bool, peer: seq<Record>) returns (batch: Option<Manifest>)
      modifies this, dispatcher
      ensures old(dispatcher.poisoned) || !old(phase).RGotSealed? ==>
              Value() == (Poison(old(dispatcher.Value())), RIdle)
      ensures !old(dispatcher.poisoned) && old(phase).RGotSealed? ==>
                var readied := ReceiverThen(dispatcher.session, old(Value()), false, RSendNext(true, out), peer);
                var arrived := RReceive(Arrived(ok, old(dispatcher.taken), peer), true);
                Value() == ReceiverThen(dispatcher.session, readied, false, arrived, peer)
      ensures phase.RIdle? && (batch.Some? <==> !dispatcher.poisoned)
      ensures batch.Some? ==> dispatcher.committed == old(dispatcher.committed) + [batch.value]
      ensures batch.None? ==> dispatcher.committed == old(dispatcher.committed)
      ensures batch.Some? ==>
                && old(phase) == RGotSealed(batch.value) && out == Delivered && ok && old(dispatcher.taken) < |peer|
                && peer[old(dispatcher.taken)] == Native(Tag.Commit, Ready, batch.value)
                && dispatcher.sent == old(dispatcher.sent) + [Native(ReadyFrame, Ready, batch.value)]
    {
      if !phase.RGotSealed? {
        Fail();
        return None;
      }
      var m := phase.m;
      var delivered := SendAndEnter(Frame(ReadyFrame, m), out, RReadySent(m));
      if !delivered {
        return None;
      }
      var commit := dispatcher.ReceiveRecord(ok, peer);
      if commit != Some(Frame(Tag.Commit, m)) {
        Fail();
        return None;
      }
      phase := RIdle;
      var ended := dispatcher.EndTransaction();
      if !ended {
        return None;
      }
      dispatcher.committed := dispatcher.committed + [m];
      return Some(m);
    }
  }
}
