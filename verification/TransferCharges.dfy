/** What the receiver holds is what the manifest it was sent costs: the offer it
    reserved for and the capability it imports carry the same manifest. */
module TransferCharges {
  import opened Machine
  import opened Ledger
  import opened Transfer
  import opened TransferSafety
  import opened TransferRuns

  predicate Offered(cp: CoordinatorPhase) {
    !cp.CIdle? && !cp.COpened?
  }

  /** Every CAPABILITY carries the manifest of an OFFER sent before it. */
  ghost predicate COffered(c: Side, cp: CoordinatorPhase, offers: seq<Manifest>, capabilities: seq<Manifest>) {
    && (forall m :: m in capabilities ==> m in offers)
    && (!c.poisoned && Offered(cp) ==> cp.m in offers)
  }

  /** The receiver's reservations are those of an offer it took, and of the manifest it goes on to hold. */
  ghost predicate RReserved(r: Side, rp: ReceiverPhase, l: Ledger, offers: seq<Manifest>) {
    !r.poisoned ==>
      && (rp.RDeciding? ==> rp.m in offers)
      && (rp.RReady? ==> exists m :: m in offers && m.transferId == rp.id && l.held == Lengths(m))
      && (Holding(rp) ==> l.held == Lengths(rp.m))
  }

  ghost predicate Matched(s: State) {
    && s.r.taken <= |s.c.sent|
    && COffered(s.c, s.cp, Of(Offer, s.c.sent), Of(Capability, s.c.sent))
    && RReserved(s.r, s.rp, s.rl, Of(Offer, s.c.sent[..s.r.taken]))
  }

  // ----- the coordinator -----

  /** What a coordinator's step adds to its log, as far as offers and capabilities go. */
  ghost predicate Adds(c: Side, cp: CoordinatorPhase, e: Side, ep: CoordinatorPhase) {
    || (e.sent == c.sent && (!e.poisoned && Offered(ep) ==> Offered(cp) && ep.m == cp.m))
    || (exists record :: e.sent == c.sent + [record] && AddsRecord(cp, record, e, ep))
  }

  ghost predicate AddsRecord(cp: CoordinatorPhase, record: Record, e: Side, ep: CoordinatorPhase) {
    && (record.Native? && record.tag.Capability? ==> cp.CPreflighted? && record.m == cp.m)
    && (!e.poisoned && Offered(ep) ==>
          || (Offered(cp) && ep.m == cp.m)
          || (record.Native? && record.tag.Offer? && record.m == ep.m))
  }

  lemma OfferAdds(c: Side, m: Manifest, reserved: bool, prepared: bool, out: SendOutcome)
    requires !c.poisoned
    ensures var (e, ep) := ApplyOffer(c, m, reserved, prepared, out); Adds(c, COpened(m), e, ep)
  {
    var record := Native(Offer, LocalStatus(reserved, prepared), m);
    var (e, ep) := ApplyOffer(c, m, reserved, prepared, out);
    assert !out.Lost? ==> e.sent == c.sent + [record] && AddsRecord(COpened(m), record, e, ep);
  }

  lemma NextAdds(c: Side, cp: CoordinatorPhase, valid: bool, out: SendOutcome)
    requires !c.poisoned && (cp.CPreflighted? || cp.CGotImported? || cp.CGotReady?)
    ensures var (e, ep) := ApplySendNext(c, cp, valid, out); Adds(c, cp, e, ep)
  {
    var tag := if cp.CPreflighted? then Capability else if cp.CGotImported? then Sealed else Commit;
    var record := Frame(tag, cp.m);
    var (e, ep) := ApplySendNext(c, cp, valid, out);
    assert e.sent == c.sent || (e.sent == c.sent + [record] && AddsRecord(cp, record, e, ep));
  }

  lemma PayloadAdds(c: Side, cp: CoordinatorPhase, payload: seq<byte>, out: SendOutcome)
    requires !c.poisoned
    ensures var e := SendPayload(c, payload, out); Adds(c, cp, e, if e.poisoned then CIdle else cp)
  {
    var e := SendPayload(c, payload, out);
    var ep := if e.poisoned then CIdle else cp;
    assert e.sent == c.sent
           || (e.sent == c.sent + [Application(payload)] && AddsRecord(cp, Application(payload), e, ep));
  }

  lemma TakeAdds(c: Side, cp: CoordinatorPhase, record: Record)
    requires !c.poisoned
    ensures var (e, ep) := CoordinatorTakes(Take(c), cp, record); Adds(c, cp, e, ep)
  {
  }

  lemma CoordinatorAdds(session: Session, c: Side, cp: CoordinatorPhase, reserved: bool, step: CoordinatorStep,
                        peer: seq<Record>)
    ensures var (e, ep) := ApplyCoordinator(session, c, cp, reserved, step, peer); Adds(c, cp, e, ep)
  {
    if !c.poisoned {
      match step
      case CBegin(m) =>
      case CAbandon =>
      case CReceive(ok) =>
        if ok && c.taken < |peer| {
          TakeAdds(c, cp, peer[c.taken]);
        }
      case CSendOffer(prepared, out) =>
        if cp.COpened? {
          OfferAdds(c, cp.m, reserved, prepared, out);
        }
      case CSendNext(valid, out) =>
        if cp.CPreflighted? || cp.CGotImported? || cp.CGotReady? {
          NextAdds(c, cp, valid, out);
        }
      case CSendApplication(payload, out) => PayloadAdds(c, cp, payload, out);
    }
  }

  function Plus(t: Tag, ms: seq<Manifest>, record: Record): seq<Manifest> {
    ms + if record.Native? && record.tag == t then [record.m] else []
  }

  lemma RecordKeepsOffered(c: Side, cp: CoordinatorPhase, e: Side, ep: CoordinatorPhase, record: Record,
                           offers: seq<Manifest>, capabilities: seq<Manifest>)
    requires !c.poisoned && COffered(c, cp, offers, capabilities) && AddsRecord(cp, record, e, ep)
    ensures COffered(e, ep, Plus(Offer, offers, record), Plus(Capability, capabilities, record))
  {
    forall m | m in Plus(Capability, capabilities, record) ensures m in Plus(Offer, offers, record) {
      if m !in capabilities {
        assert m == record.m == cp.m;
      }
    }
  }

  lemma AddingKeepsOffered(c: Side, cp: CoordinatorPhase, e: Side, ep: CoordinatorPhase)
    requires COffered(c, cp, Of(Offer, c.sent), Of(Capability, c.sent)) && Adds(c, cp, e, ep)
    requires c.poisoned ==> e == c
    ensures COffered(e, ep, Of(Offer, e.sent), Of(Capability, e.sent))
  {
    if !c.poisoned && e.sent != c.sent {
      var record :| e.sent == c.sent + [record] && AddsRecord(cp, record, e, ep);
      OfAppend(Offer, c.sent, record);
      OfAppend(Capability, c.sent, record);
      RecordKeepsOffered(c, cp, e, ep, record, Of(Offer, c.sent), Of(Capability, c.sent));
    }
  }

  // ----- the receiver -----

  lemma {:induction false} SentIsIn(t: Tag, log: seq<Record>, k: nat)
    requires k < |log| && log[k].Native? && log[k].tag == t
    ensures log[k].m in Of(t, log)
  {
    if k < |log| - 1 {
      SentIsIn(t, log[..|log| - 1], k);
    }
  }

  lemma SameId(offers: seq<Manifest>, a: Manifest, b: Manifest)
    requires Counted(offers) && a in offers && b in offers && a.transferId == b.transferId
    ensures a == b
  {
    var i :| 0 <= i < |offers| && offers[i] == a;
    var j :| 0 <= j < |offers| && offers[j] == b;
  }

  /** A capability with the id of an offer carries that offer's manifest. */
  lemma CapabilityIsOffered(sent: seq<Record>, taken: nat, m: Manifest)
    requires taken < |sent| && Counted(Of(Offer, sent))
    requires forall x :: x in Of(Capability, sent) ==> x in Of(Offer, sent)
    requires sent[taken].Native? && sent[taken].tag.Capability? && m in Of(Offer, sent[..taken])
    requires sent[taken].m.transferId == m.transferId
    ensures sent[taken].m == m
  {
    SentIsIn(Capability, sent, taken);
    OfPrefix(Offer, sent, taken);
    SameId(Of(Offer, sent), sent[taken].m, m);
  }

  /** Where the manifests in the receiver's phases come from. */
  ghost predicate Learns(r: Side, rp: ReceiverPhase, e: Side, ep: ReceiverPhase, peer: seq<Record>) {
    && r.taken <= e.taken <= |peer|
    && (rp.ROpened? && ep.RDeciding? ==>
          e.taken == r.taken + 1 && peer[r.taken].Native? && peer[r.taken].tag.Offer? && peer[r.taken].m == ep.m)
    && (rp.RReady? && ep.RGotCapability? ==>
          r.taken < |peer| && peer[r.taken] == Frame(Capability, ep.m) && ep.m.transferId == rp.id)
    && (rp.RDeciding? && ep.RReady? ==> ep.id == rp.m.transferId)
  }

  lemma ReceiverLearns(session: Session, r: Side, rp: ReceiverPhase, reserved: bool, step: ReceiverStep,
                       peer: seq<Record>)
    requires RFlags(session.limits, r, rp) && !r.poisoned && r.taken <= |peer|
    ensures var (e, ep) := ApplyReceiver(session, r, rp, reserved, step, peer);
            !e.poisoned ==> Learns(r, rp, e, ep, peer)
  {
  }

  lemma OffersGrow(sent: seq<Record>, a: nat, b: nat)
    requires a <= b <= |sent|
    ensures forall m :: m in Of(Offer, sent[..a]) ==> m in Of(Offer, sent[..b])
  {
    OfPrefix(Offer, sent[..b], a);
    assert sent[..b][..a] == sent[..a];
  }

  lemma TookOffer(sent: seq<Record>, taken: nat)
    requires taken < |sent| && sent[taken].Native? && sent[taken].tag.Offer?
    ensures sent[taken].m in Of(Offer, sent[..taken + 1])
  {
    OneMore(sent, taken);
    OfAppend(Offer, sent[..taken], sent[taken]);
  }

  lemma GrantedHolds(session: Session, l: Ledger, m: Manifest)
    requires Balanced(l, session.limits) && l.held == [] && Grant(session, l, m).Some?
    ensures GrantOrKeep(session, l, m).held == Lengths(m)
  {
    ReserveAllKeepsBalance(l, session.limits, Lengths(m));
  }

  lemma MovingKeepsReserved(session: Session, r: Side, rp: ReceiverPhase, l: Ledger, reserved: bool, e: Side,
                            ep: ReceiverPhase, sent: seq<Record>)
    requires !r.poisoned && !e.poisoned && RCharges(session, r, rp, l) && RMoves(rp, ep, reserved)
    requires Learns(r, rp, e, ep, sent) && Counted(Of(Offer, sent))
    requires forall x :: x in Of(Capability, sent) ==> x in Of(Offer, sent)
    requires rp.RDeciding? && reserved ==> Grant(session, l, rp.m).Some?
    requires RReserved(r, rp, l, Of(Offer, sent[..r.taken]))
    ensures RReserved(e, ep, ReceiverLedger(session, l, rp, e, ep), Of(Offer, sent[..e.taken]))
  {
    OffersGrow(sent, r.taken, e.taken);
    if rp.ROpened? && ep.RDeciding? {
      TookOffer(sent, r.taken);
    } else if rp.RDeciding? && ep.RReady? {
      GrantedHolds(session, l, rp.m);
    } else if rp.RReady? && ep.RGotCapability? {
      var m :| m in Of(Offer, sent[..r.taken]) && m.transferId == rp.id && l.held == Lengths(m);
      CapabilityIsOffered(sent, r.taken, m);
    }
  }

  // ----- every run -----

  lemma CoordinatorKeepsMatched(session: Session, s: State, step: CoordinatorStep)
    requires Inv(session, s) && Matched(s)
    ensures Matched(Apply(session, s, Coordinator(step)))
  {
    if !Refused(session, s.c, step) {
      var reserved := s.cp.COpened? && Grant(session, s.cl, s.cp.m).Some?;
      var (c, cp) := ApplyCoordinator(session, s.c, s.cp, reserved, step, s.r.sent);
      CoordinatorAdds(session, s.c, s.cp, reserved, step, s.r.sent);
      CoordinatorAppends(session, s.c, s.cp, reserved, step, s.r.sent);
      AddingKeepsOffered(s.c, s.cp, c, cp);
      assert c.sent[..s.r.taken] == s.c.sent[..s.r.taken];
    }
  }

  lemma ReceiverKeepsMatched(session: Session, s: State, step: ReceiverStep)
    requires Inv(session, s) && Matched(s)
    ensures Matched(Apply(session, s, Receiver(step)))
  {
    var reserved := s.rp.RDeciding? && Grant(session, s.rl, s.rp.m).Some?;
    var judged := Judged(session, step, s.r, s.c.sent);
    var (r, rp) := ApplyReceiver(session, s.r, s.rp, reserved, judged, s.c.sent);
    ReceiverKeepsLogs(session, s.r, s.rp, s.checked, reserved, judged, s.c.sent);
    ReceiverAppends(session, s.r, s.rp, reserved, judged, s.c.sent);
    if !r.poisoned {
      ReceiverMoves(session, s.r, s.rp, reserved, judged, s.c.sent);
      ReceiverLearns(session, s.r, s.rp, reserved, judged, s.c.sent);
      MovingKeepsReserved(session, s.r, s.rp, s.rl, reserved, r, rp, s.c.sent);
    }
  }

  lemma {:induction false} EveryRunIsMatched(session: Session, steps: seq<Step>)
    ensures Matched(Run(session, steps))
  {
    if steps == [] {
      assert FRESH.sent[..0] == [];
    } else {
      var before := steps[..|steps| - 1];
      EveryRunIsMatched(session, before);
      EveryRunKeepsInv(session, before);
      match steps[|steps| - 1]
      case Coordinator(cs) => CoordinatorKeepsMatched(session, Run(session, before), cs);
      case Receiver(rs) => ReceiverKeepsMatched(session, Run(session, before), rs);
      case DropCoordinator(i) =>
      case DropReceiver(i) =>
    }
  }

  /** However a receiver leaves a transaction, it is poisoned with nothing
      committed, or declined with its ledger as it was, or it commits that batch
      and keeps exactly that batch's charges. */
  lemma ReceiverLeaves(session: Session, steps: seq<Step>, step: ReceiverStep)
    requires !Run(session, steps).rp.RIdle?
    ensures var s := Run(session, steps);
            var t := Apply(session, s, Receiver(step));
            t.rp.RIdle? ==>
              || (t.r.poisoned && t.r.committed == s.r.committed && t.rl.held == [] && t.rl.active == s.rl.active)
              || (!t.r.poisoned && s.rp.RDeciding? && t.r.committed == s.r.committed && t.rl == s.rl)
              || (!t.r.poisoned && s.rp.RReadySent? && t.r.committed == s.r.committed + [s.rp.m]
                  && t.rl.active == s.rl.active + Lengths(s.rp.m))
  {
    EveryRunKeepsInv(session, steps);
    EveryRunIsMatched(session, steps);
    var s := Run(session, steps);
    var reserved := s.rp.RDeciding? && Grant(session, s.rl, s.rp.m).Some?;
    var judged := Judged(session, step, s.r, s.c.sent);
    ReceiverMoves(session, s.r, s.rp, reserved, judged, s.c.sent);
    ReceiverAppends(session, s.r, s.rp, reserved, judged, s.c.sent);
    if s.rp.RDeciding? {
      DeclineLeavesLedger(session, steps, step);
    }
  }

  /** From the import on, what the receiver holds is the imported manifest's mapped lengths. */
  lemma ReceiverHoldsManifest(session: Session, steps: seq<Step>)
    requires var s := Run(session, steps); !s.r.poisoned && Holding(s.rp)
    ensures var s := Run(session, steps); s.rl.held == Lengths(s.rp.m)
  {
    EveryRunIsMatched(session, steps);
  }
}
