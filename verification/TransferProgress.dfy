/** Records as bytes, and runs without failures: between two endpoints running
    this code an answer is never malformed, and what poisons such a run is
    exactly a record taken by the wrong kind of receive. */
module TransferProgress {
  import opened Machine
  import opened Protocol
  import opened Transfer
  import opened TransferSafety
  import opened TransferRuns

  // ----- records stand for their bytes -----

  /** Only capacity frames carry a status, and the receiver's has two values. */
  predicate CanonicalRecord(record: Record) {
    record.Native? && (record.tag.Offer? || record.status.Ready? || (record.tag.Reply? && record.status.ActiveLimit?))
  }

  lemma MagicIsInjective(a: Record, b: Record)
    requires CanonicalRecord(a) && CanonicalRecord(b) && Magic(a.tag, a.status) == Magic(b.tag, b.status)
    ensures a.tag == b.tag && a.status == b.status
  {
    var x, y := Magic(a.tag, a.status), Magic(b.tag, b.status);
    assert x[4] == y[4] && x[5] == y[5] && x[6] == y[6];
  }

  /** Two frames have the same bytes exactly when they are the same record. */
  lemma BytesIdentifyRecords(a: Record, b: Record)
    requires CanonicalRecord(a) && CanonicalRecord(b) && WellFormed(a.m) && WellFormed(b.m)
    ensures Encode(a.m, Magic(a.tag, a.status)) == Encode(b.m, Magic(b.tag, b.status)) <==> a == b
  {
    if Encode(a.m, Magic(a.tag, a.status)) == Encode(b.m, Magic(b.tag, b.status)) {
      FramesAreInjective(a.m, Magic(a.tag, a.status), b.m, Magic(b.tag, b.status));
      MagicIsInjective(a, b);
    }
  }

  /** A begun batch is admissible exactly when its manifest can be constructed. */
  lemma AdmissibleIsConstructed(session: Session, id: u64, m: Manifest)
    ensures Admissible(session, id, m)
       <==> && |m.entries| <= session.limits.maxRegionsPerBatch
            && m.totalLogical <= session.limits.maxBatchBytes && m.totalMapped <= session.limits.maxBatchBytes
            && (forall i :: 0 <= i < |m.entries| ==> m.entries[i].logicalLen <= session.limits.maxRegionBytes)
            && exists es :: NewManifest(session.nonce, session.parentPid, session.childPid, id, session.authority, es)
                            == Some(m)
  {
    if Admissible(session, id, m) {
      WellFormedReconstructs(m);
    }
    forall es | NewManifest(session.nonce, session.parentPid, session.childPid, id, session.authority, es) == Some(m)
      ensures WellFormed(m)
    {
      ConstructionIsWellFormed(session.nonce, session.parentPid, session.childPid, id, session.authority, es);
    }
  }

  // ----- the two endpoints in step -----

  predicate Waiting(rp: ReceiverPhase) {
    rp.RIdle? || rp.ROpened?
  }

  /** Every combination of phases and undelivered records a failure-free run can reach. */
  ghost predicate Synced(cp: CoordinatorPhase, rp: ReceiverPhase, qc: seq<Record>, qr: seq<Record>) {
    match cp
    case CIdle => qr == [] && BehindCommit(rp, qc, [])
    case COpened(m) => qr == [] && BehindCommit(rp, qc, [])
    case COfferSent(m, status) =>
      || (qr == [] && BehindCommit(rp, qc, [Native(Offer, status, m)]))
      || (qr == [] && qc == [] && rp == RDeciding(m, status))
      || (qr == [Native(Reply, ActiveLimit, m)] && qc == [] && Waiting(rp))
      || (qr == [Native(Reply, Ready, m)] && qc == [] && status.Ready? && rp == RReady(m.transferId))
    case CPreflighted(m) => qr == [] && qc == [] && rp == RReady(m.transferId)
    case CCapabilitySent(m) =>
      || (qr == [] && qc == [Frame(Capability, m)] && rp == RReady(m.transferId))
      || (qr == [] && qc == [] && rp == RGotCapability(m))
      || (qr == [Frame(Imported, m)] && qc == [] && rp == RImportedSent(m))
    case CGotImported(m) => qr == [] && qc == [] && rp == RImportedSent(m)
    case CSealedSent(m) =>
      || (qr == [] && qc == [Frame(Sealed, m)] && rp == RImportedSent(m))
      || (qr == [] && qc == [] && rp == RGotSealed(m))
      || (qr == [Frame(ReadyFrame, m)] && qc == [] && rp == RReadySent(m))
    case CGotReady(m) => qr == [] && qc == [] && rp == RReadySent(m)
  }

  /** The receiver waits for `rest`, or still has the last COMMIT in front of it. */
  ghost predicate BehindCommit(rp: ReceiverPhase, qc: seq<Record>, rest: seq<Record>) {
    || (Waiting(rp) && qc == rest)
    || (rp.RReadySent? && qc == [Frame(Commit, rp.m)] + rest)
  }

  /** A step with no failing outcome, at a point where the session can call it. */
  ghost predicate Calm(session: Session, s: State, step: Step) {
    match step
    case Coordinator(cs) => (
      match cs
      case CBegin(_) => s.cp.CIdle? && s.c.next <= session.limits.maxTransactions
      case CSendOffer(_, out) => out.Delivered?
      case CReceive(ok) => ok
      case CSendNext(valid, out) => valid && out.Delivered?
      case CSendApplication(_, out) => s.cp.CIdle? && out.Delivered?
      case CAbandon => false)
    case Receiver(rs) => (
      match rs
      case REnter => s.rp.RIdle? && s.r.next <= session.limits.maxTransactions
      case RReceive(ok, accept) => ok && accept
      case RSendReply(out) => out.Delivered?
      case RSendNext(imported, out) => imported && out.Delivered?
      case RSendApplication(_, out) => s.rp.RIdle? && out.Delivered?
      case RAbandon => false)
    case DropCoordinator(_) => true
    case DropReceiver(_) => true
  }

  /** The step takes a record meant for the other kind of receive: an
      application record inside a transaction, or a native one outside. */
  predicate Misreads(s: State, step: Step) {
    match step
    case Coordinator(CReceive(_)) =>
      s.c.taken < |s.r.sent| && !s.cp.CIdle? && s.r.sent[s.c.taken].Application?
    case Receiver(RReceive(_, _)) =>
      s.r.taken < |s.c.sent| && (s.rp.RIdle? <==> s.c.sent[s.r.taken].Native?)
    case _ => false
  }

  // ----- undelivered native records -----

  function Natives(q: seq<Record>): seq<Record> {
    if q == [] then [] else (if q[0].Native? then [q[0]] else []) + Natives(q[1..])
  }

  lemma {:induction false} NativesSplit(a: seq<Record>, b: seq<Record>)
    ensures Natives(a + b) == Natives(a) + Natives(b)
  {
    if a == [] {
      assert a + b == b;
    } else {
      assert (a + b)[1..] == a[1..] + b;
      NativesSplit(a[1..], b);
    }
  }

  /** The native records of a log that the peer has not taken. */
  function Pending(log: seq<Record>, taken: nat): seq<Record>
    requires taken <= |log|
  {
    Natives(log[taken..])
  }

  lemma PendingGrows(log: seq<Record>, taken: nat, record: Record)
    requires taken <= |log|
    ensures Pending(log + [record], taken) == Pending(log, taken) + if record.Native? then [record] else []
  {
    assert (log + [record])[taken..] == log[taken..] + [record];
    NativesSplit(log[taken..], [record]);
    assert [record][1..] == [];
  }

  lemma PendingHead(log: seq<Record>, taken: nat)
    requires taken < |log|
    ensures Pending(log, taken) == (if log[taken].Native? then [log[taken]] else []) + Pending(log, taken + 1)
  {
    assert log[taken..][1..] == log[taken + 1..];
  }

  /** The endpoints are healthy and agree, application records aside, on how far the transfer is. */
  ghost predicate InStep(session: Session, s: State) {
    && !s.c.poisoned && !s.r.poisoned && s.r.taken <= |s.c.sent| && s.c.taken <= |s.r.sent|
    && Synced(s.cp, s.rp, Pending(s.c.sent, s.r.taken), Pending(s.r.sent, s.c.taken))
    && (!s.cp.CIdle? ==> OfSession(session, s.cp.m))
  }

  ghost predicate CalmRun(session: Session, steps: seq<Step>)
    decreases |steps|
  {
    steps == [] || (CalmRun(session, steps[..|steps| - 1])
                    && Calm(session, Run(session, steps[..|steps| - 1]), steps[|steps| - 1]))
  }

  // ----- one calm coordinator step -----

  lemma CalmOffer(c: Side, m: Manifest, reserved: bool, prepared: bool, rp: ReceiverPhase, taken: nat, qr: seq<Record>)
    requires !c.poisoned && taken <= |c.sent| && Synced(COpened(m), rp, Pending(c.sent, taken), qr)
    ensures var (e, ep) := ApplyOffer(c, m, reserved, prepared, Delivered);
            && !e.poisoned && taken <= |e.sent| && e.taken == c.taken && ep.COfferSent? && ep.m == m
            && Synced(ep, rp, Pending(e.sent, taken), qr)
  {
    PendingGrows(c.sent, taken, Native(Offer, LocalStatus(reserved, prepared), m));
  }

  lemma CalmTake(c: Side, cp: CoordinatorPhase, rp: ReceiverPhase, qc: seq<Record>, qr: seq<Record>)
    requires !c.poisoned && (c.open <==> !cp.CIdle?) && Synced(cp, rp, qc, qr) && qr != []
    ensures var (e, ep) := CoordinatorTakes(Take(c), cp, qr[0]);
            && !e.poisoned && e.sent == c.sent && e.taken == c.taken + 1 && Synced(ep, rp, qc, qr[1..])
            && !cp.CIdle? && (!ep.CIdle? ==> ep.m == cp.m)
  {
    assert qr[1..] == [];
  }

  lemma CalmNext(c: Side, cp: CoordinatorPhase, rp: ReceiverPhase, taken: nat, qr: seq<Record>)
    requires !c.poisoned && (c.open <==> !cp.CIdle?) && taken <= |c.sent|
    requires Synced(cp, rp, Pending(c.sent, taken), qr) && (cp.CPreflighted? || cp.CGotImported? || cp.CGotReady?)
    ensures var (e, ep) := ApplySendNext(c, cp, true, Delivered);
            && !e.poisoned && taken <= |e.sent| && e.taken == c.taken && Synced(ep, rp, Pending(e.sent, taken), qr)
            && (!ep.CIdle? ==> ep.m == cp.m)
  {
    var tag := if cp.CPreflighted? then Capability else if cp.CGotImported? then Sealed else Commit;
    PendingGrows(c.sent, taken, Frame(tag, cp.m));
  }

  /** What a coordinator's step does to the whole state. */
  lemma AppliedCoordinator(session: Session, s: State, step: CoordinatorStep, reserved: bool)
    requires !step.CBegin? && reserved == (s.cp.COpened? && Grant(session, s.cl, s.cp.m).Some?)
    ensures var t := Apply(session, s, Coordinator(step));
            && (t.c, t.cp) == ApplyCoordinator(session, s.c, s.cp, reserved, step, s.r.sent)
            && t.r == s.r && t.rp == s.rp && t.rl == s.rl && t.checked == s.checked
            && t.cl == CoordinatorLedger(session, s.cl, s.cp, t.c, t.cp)
  {
  }

  lemma CalmCoordinatorSends(session: Session, s: State, cs: CoordinatorStep)
    requires CFlags(session.limits, s.c, s.cp) && InStep(session, s) && (cs.CSendOffer? || cs.CSendNext?)
    requires Calm(session, s, Coordinator(cs))
    ensures InStep(session, Apply(session, s, Coordinator(cs)))
  {
    var taken, qr := s.r.taken, Pending(s.r.sent, s.c.taken);
    var reserved := s.cp.COpened? && Grant(session, s.cl, s.cp.m).Some?;
    AppliedCoordinator(session, s, cs, reserved);
    if cs.CSendOffer? && s.cp.COpened? {
      CalmOffer(s.c, s.cp.m, reserved, cs.prepared, s.rp, taken, qr);
    } else if cs.CSendNext? && (s.cp.CPreflighted? || s.cp.CGotImported? || s.cp.CGotReady?) {
      CalmNext(s.c, s.cp, s.rp, taken, qr);
    }
  }

  lemma TakesNative(session: Session, s: State)
    requires CFlags(session.limits, s.c, s.cp) && InStep(session, s)
    requires s.c.taken < |s.r.sent| && s.r.sent[s.c.taken].Native?
    ensures var (c, cp) := CoordinatorTakes(Take(s.c), s.cp, s.r.sent[s.c.taken]);
            && !c.poisoned && c.sent == s.c.sent && c.taken == s.c.taken + 1
            && Synced(cp, s.rp, Pending(s.c.sent, s.r.taken), Pending(s.r.sent, s.c.taken + 1))
            && !s.cp.CIdle? && (!cp.CIdle? ==> cp.m == s.cp.m)
  {
    var qr := Pending(s.r.sent, s.c.taken);
    PendingHead(s.r.sent, s.c.taken);
    assert qr[0] == s.r.sent[s.c.taken] && qr[1..] == Pending(s.r.sent, s.c.taken + 1);
    CalmTake(s.c, s.cp, s.rp, Pending(s.c.sent, s.r.taken), qr);
  }

  lemma CalmCoordinatorReceives(session: Session, s: State)
    requires CFlags(session.limits, s.c, s.cp) && InStep(session, s) && !Misreads(s, Coordinator(CReceive(true)))
    ensures InStep(session, Apply(session, s, Coordinator(CReceive(true))))
  {
    var reserved := s.cp.COpened? && Grant(session, s.cl, s.cp.m).Some?;
    AppliedCoordinator(session, s, CReceive(true), reserved);
    if s.c.taken < |s.r.sent| {
      if s.r.sent[s.c.taken].Native? {
        TakesNative(session, s);
      } else {
        PendingHead(s.r.sent, s.c.taken);
      }
    }
  }

  lemma CalmCoordinatorSpeaks(session: Session, s: State, payload: seq<byte>)
    requires CFlags(session.limits, s.c, s.cp) && InStep(session, s) && s.cp.CIdle?
    ensures InStep(session, Apply(session, s, Coordinator(CSendApplication(payload, Delivered))))
  {
    AppliedCoordinator(session, s, CSendApplication(payload, Delivered), false);
    PendingGrows(s.c.sent, s.r.taken, Application(payload));
  }

  lemma CalmCoordinator(session: Session, s: State, cs: CoordinatorStep)
    requires Inv(session, s) && InStep(session, s) && Calm(session, s, Coordinator(cs))
    requires !Misreads(s, Coordinator(cs))
    ensures InStep(session, Apply(session, s, Coordinator(cs)))
  {
    match cs
    case CBegin(m) =>
    case CReceive(_) => CalmCoordinatorReceives(session, s);
    case CSendApplication(payload, _) => CalmCoordinatorSpeaks(session, s, payload);
    case _ => CalmCoordinatorSends(session, s, cs);
  }

  // ----- one calm receiver step -----

  /** The offer at the head of the queue carries the id the receiver expects. */
  lemma OfferIdMatches(session: Session, s: State)
    requires Inv(session, s) && !s.r.poisoned && s.rp.ROpened? && s.r.taken < |s.c.sent|
    requires var record := s.c.sent[s.r.taken]; record.Native? && record.tag.Offer?
    ensures s.c.sent[s.r.taken].m.transferId == s.rp.id
  {
    NextOfferIsNumbered(s.c.sent, s.r.taken);
  }

  /** The offers before it count an offer's id. */
  lemma NextOfferIsNumbered(sent: seq<Record>, taken: nat)
    requires taken < |sent| && sent[taken].Native? && sent[taken].tag.Offer? && Counted(Of(Offer, sent))
    ensures sent[taken].m.transferId == |Of(Offer, sent[..taken])| + 1
  {
    OneMore(sent, taken);
    OfAppend(Offer, sent[..taken], sent[taken]);
    OfPrefix(Offer, sent, taken + 1);
    assert Of(Offer, sent)[|Of(Offer, sent[..taken])|] == sent[taken].m;
  }

  ghost predicate IdFits(rp: ReceiverPhase, record: Record) {
    rp.ROpened? && record.Native? && record.tag.Offer? ==> record.m.transferId == rp.id
  }

  lemma HeadIsOurs(cp: CoordinatorPhase, rp: ReceiverPhase, qc: seq<Record>, qr: seq<Record>)
    requires Synced(cp, rp, qc, qr) && qc != []
    ensures qc[0].Native?
    ensures (!cp.CIdle? && qc[0].m == cp.m) || (rp.RReadySent? && qc[0] == Frame(Commit, rp.m))
  {
  }

  lemma CalmReceiverTake(r: Side, cp: CoordinatorPhase, rp: ReceiverPhase, qc: seq<Record>, qr: seq<Record>,
                         accept: bool)
    requires !r.poisoned && (r.open <==> !rp.RIdle?) && Synced(cp, rp, qc, qr) && qc != [] && !rp.RIdle?
    requires IdFits(rp, qc[0]) && (accept || (rp.RReadySent? && qc[0] == Frame(Commit, rp.m)))
    ensures var (e, ep) := ReceiverTakes(Take(r), rp, qc[0], accept);
            !e.poisoned && Synced(cp, ep, qc[1..], qr)
  {
    if rp.RReadySent? && cp.COfferSent? {
      assert qc[1..] == [Native(Offer, cp.status, cp.m)];
    } else {
      assert qc[1..] == [];
    }
  }

  lemma CalmReply(r: Side, cp: CoordinatorPhase, m: Manifest, status: CapacityStatus, reserved: bool, taken: nat,
                  qc: seq<Record>)
    requires !r.poisoned && r.open && taken <= |r.sent|
    requires Synced(cp, RDeciding(m, status), qc, Pending(r.sent, taken))
    ensures var (e, ep) := ApplySendReply(r, m, status, reserved, Delivered);
            !e.poisoned && taken <= |e.sent| && e.taken == r.taken && Synced(cp, ep, qc, Pending(e.sent, taken))
  {
    PendingGrows(r.sent, taken, Native(Reply, Ready, m));
    PendingGrows(r.sent, taken, Native(Reply, ActiveLimit, m));
  }

  lemma CalmReceiverNext(r: Side, cp: CoordinatorPhase, rp: ReceiverPhase, taken: nat, qc: seq<Record>)
    requires !r.poisoned && taken <= |r.sent| && Synced(cp, rp, qc, Pending(r.sent, taken))
    requires rp.RGotCapability? || rp.RGotSealed?
    ensures var (e, ep) := ApplyReceiverNext(r, rp, true, Delivered);
            !e.poisoned && taken <= |e.sent| && e.taken == r.taken && Synced(cp, ep, qc, Pending(e.sent, taken))
  {
    PendingGrows(r.sent, taken, Frame(Imported, rp.m));
    PendingGrows(r.sent, taken, Frame(ReadyFrame, rp.m));
  }

  /** What a receiver's step does to the whole state. */
  lemma AppliedReceiver(session: Session, s: State, step: ReceiverStep, reserved: bool)
    requires reserved == (s.rp.RDeciding? && Grant(session, s.rl, s.rp.m).Some?)
    ensures var t := Apply(session, s, Receiver(step));
            && (t.r, t.rp)
               == ApplyReceiver(session, s.r, s.rp, reserved, Judged(session, step, s.r, s.c.sent), s.c.sent)
            && t.c == s.c && t.cp == s.cp && t.cl == s.cl
            && t.rl == ReceiverLedger(session, s.rl, s.rp, t.r, t.rp) && t.checked == Checked(s.checked, s.rp, t.rp)
  {
  }

  lemma ReceivesNative(session: Session, s: State)
    requires Inv(session, s) && InStep(session, s) && !s.rp.RIdle?
    requires s.r.taken < |s.c.sent| && s.c.sent[s.r.taken].Native?
    ensures var record := s.c.sent[s.r.taken];
            var (e, ep) := ReceiverTakes(Take(s.r), s.rp, record, OfSession(session, record.m));
            !e.poisoned && Synced(s.cp, ep, Pending(s.c.sent, s.r.taken + 1), Pending(s.r.sent, s.c.taken))
  {
    var qc, qr := Pending(s.c.sent, s.r.taken), Pending(s.r.sent, s.c.taken);
    PendingHead(s.c.sent, s.r.taken);
    assert qc[0] == s.c.sent[s.r.taken] && qc[1..] == Pending(s.c.sent, s.r.taken + 1);
    HeadIsOurs(s.cp, s.rp, qc, qr);
    if s.rp.ROpened? && qc[0].tag.Offer? {
      OfferIdMatches(session, s);
    }
    CalmReceiverTake(s.r, s.cp, s.rp, qc, qr, OfSession(session, qc[0].m));
  }

  /** Without a record to take the receiver keeps waiting; otherwise it takes the head of the queue. */
  lemma ReceiveTakesHead(session: Session, s: State)
    requires !s.r.poisoned
    ensures var t := Apply(session, s, Receiver(RReceive(true, true)));
            && t.c == s.c && t.cp == s.cp
            && if s.r.taken < |s.c.sent| then
                 var record := s.c.sent[s.r.taken];
                 (t.r, t.rp) == ReceiverTakes(Take(s.r), s.rp, record, !record.Native? || OfSession(session, record.m))
               else t.r == s.r && t.rp == s.rp
  {
  }

  lemma TakeKeepsSent(r: Side, rp: ReceiverPhase, record: Record, accept: bool)
    ensures var (e, _) := ReceiverTakes(Take(r), rp, record, accept); e.sent == r.sent && e.taken == r.taken + 1
  {
  }

  lemma CalmReceiverReceives(session: Session, s: State)
    requires Inv(session, s) && InStep(session, s) && !Misreads(s, Receiver(RReceive(true, true)))
    ensures InStep(session, Apply(session, s, Receiver(RReceive(true, true))))
  {
    ReceiveTakesHead(session, s);
    if s.r.taken < |s.c.sent| {
      var record := s.c.sent[s.r.taken];
      TakeKeepsSent(s.r, s.rp, record, !record.Native? || OfSession(session, record.m));
      if record.Native? {
        ReceivesNative(session, s);
      } else {
        PendingHead(s.c.sent, s.r.taken);
      }
    }
  }

  lemma CalmReceiverReplies(session: Session, s: State)
    requires RFlags(session.limits, s.r, s.rp) && InStep(session, s)
    ensures InStep(session, Apply(session, s, Receiver(RSendReply(Delivered))))
  {
    var reserved := s.rp.RDeciding? && Grant(session, s.rl, s.rp.m).Some?;
    AppliedReceiver(session, s, RSendReply(Delivered), reserved);
    if s.rp.RDeciding? {
      CalmReply(s.r, s.cp, s.rp.m, s.rp.status, reserved, s.c.taken, Pending(s.c.sent, s.r.taken));
    }
  }

  lemma CalmReceiverSends(session: Session, s: State)
    requires InStep(session, s)
    ensures InStep(session, Apply(session, s, Receiver(RSendNext(true, Delivered))))
  {
    var reserved := s.rp.RDeciding? && Grant(session, s.rl, s.rp.m).Some?;
    AppliedReceiver(session, s, RSendNext(true, Delivered), reserved);
    if s.rp.RGotCapability? || s.rp.RGotSealed? {
      CalmReceiverNext(s.r, s.cp, s.rp, s.c.taken, Pending(s.c.sent, s.r.taken));
    }
  }

  lemma CalmReceiverSpeaks(session: Session, s: State, payload: seq<byte>)
    requires RFlags(session.limits, s.r, s.rp) && InStep(session, s) && s.rp.RIdle?
    ensures InStep(session, Apply(session, s, Receiver(RSendApplication(payload, Delivered))))
  {
    AppliedReceiver(session, s, RSendApplication(payload, Delivered), false);
    PendingGrows(s.r.sent, s.c.taken, Application(payload));
  }

  lemma CalmReceiverEnters(session: Session, s: State)
    requires RFlags(session.limits, s.r, s.rp) && InStep(session, s) && Calm(session, s, Receiver(REnter))
    ensures InStep(session, Apply(session, s, Receiver(REnter)))
  {
    AppliedReceiver(session, s, REnter, false);
  }

  lemma CalmReceiver(session: Session, s: State, rs: ReceiverStep)
    requires Inv(session, s) && InStep(session, s) && Calm(session, s, Receiver(rs)) && !Misreads(s, Receiver(rs))
    ensures InStep(session, Apply(session, s, Receiver(rs)))
  {
    match rs
    case REnter => CalmReceiverEnters(session, s);
    case RReceive(_, _) => CalmReceiverReceives(session, s);
    case RSendReply(_) => CalmReceiverReplies(session, s);
    case RSendNext(_, _) => CalmReceiverSends(session, s);
    case RSendApplication(payload, _) => CalmReceiverSpeaks(session, s, payload);
  }

  // ----- when a run without failures poisons -----

  lemma CalmStep(session: Session, s: State, step: Step)
    requires Inv(session, s) && InStep(session, s) && Calm(session, s, step) && !Misreads(s, step)
    ensures InStep(session, Apply(session, s, step))
  {
    match step
    case Coordinator(cs) => CalmCoordinator(session, s, cs);
    case Receiver(rs) => CalmReceiver(session, s, rs);
    case DropCoordinator(i) =>
    case DropReceiver(i) =>
  }

  /** A misread is never survived. */
  lemma MisreadPoisons(session: Session, s: State, step: Step)
    requires !s.c.poisoned && !s.r.poisoned && Calm(session, s, step) && Misreads(s, step)
    ensures var t := Apply(session, s, step); t.c.poisoned || t.r.poisoned
  {
    match step
    case Coordinator(cs) =>
      AppliedCoordinator(session, s, cs, s.cp.COpened? && Grant(session, s.cl, s.cp.m).Some?);
    case Receiver(rs) => ReceiveTakesHead(session, s);
  }

  /** Step `k` of the run is a misread by healthy endpoints. */
  ghost predicate MisreadAt(session: Session, steps: seq<Step>, k: nat) {
    k < |steps| && !Run(session, steps[..k]).c.poisoned && !Run(session, steps[..k]).r.poisoned
    && Misreads(Run(session, steps[..k]), steps[k])
  }

  lemma EarlierMisread(session: Session, steps: seq<Step>, n: nat, k: nat)
    requires k < n <= |steps|
    ensures MisreadAt(session, steps[..n], k) <==> MisreadAt(session, steps, k)
  {
    assert steps[..n][..k] == steps[..k];
  }

  /** As long as nothing is misread the endpoints stay in step. */
  lemma {:induction false} UnmisreadStaysInStep(session: Session, steps: seq<Step>)
    requires CalmRun(session, steps) && forall k: nat :: !MisreadAt(session, steps, k)
    ensures InStep(session, Run(session, steps))
  {
    if steps == [] {
      assert FRESH.sent[0..] == [];
    } else {
      var n := |steps| - 1;
      forall k: nat ensures !MisreadAt(session, steps[..n], k) {
        if k < n {
          EarlierMisread(session, steps, n, k);
        }
      }
      UnmisreadStaysInStep(session, steps[..n]);
      EveryRunKeepsInv(session, steps[..n]);
      assert !MisreadAt(session, steps, n);
      CalmStep(session, Run(session, steps[..n]), steps[n]);
    }
  }

  lemma PoisonStays(session: Session, first: seq<Step>, rest: seq<Step>, steps: seq<Step>)
    requires steps == first + rest && (Run(session, first).c.poisoned || Run(session, first).r.poisoned)
    ensures Run(session, steps).c.poisoned || Run(session, steps).r.poisoned
  {
    PoisonIsForever(session, first, rest);
  }

  lemma CutAt(steps: seq<Step>, k: nat)
    requires k <= |steps|
    ensures steps == steps[..k] + steps[k..]
  {
  }

  lemma {:induction false} CalmUpTo(session: Session, steps: seq<Step>, n: nat)
    requires CalmRun(session, steps) && n <= |steps|
    ensures CalmRun(session, steps[..n])
    decreases |steps|
  {
    if n == |steps| {
      assert steps[..n] == steps;
    } else {
      CalmUpTo(session, steps[..|steps| - 1], n);
      assert steps[..|steps| - 1][..n] == steps[..n];
    }
  }

  lemma RunOne(session: Session, steps: seq<Step>, k: nat)
    requires k < |steps|
    ensures Run(session, steps[..k + 1]) == Apply(session, Run(session, steps[..k]), steps[k])
    ensures CalmRun(session, steps[..k + 1])
       <==> CalmRun(session, steps[..k]) && Calm(session, Run(session, steps[..k]), steps[k])
  {
    assert steps[..k + 1][..k] == steps[..k];
  }

  lemma CalmPrefix(session: Session, steps: seq<Step>, k: nat)
    requires CalmRun(session, steps) && k < |steps|
    ensures Calm(session, Run(session, steps[..k]), steps[k])
  {
    CalmUpTo(session, steps, k + 1);
    RunOne(session, steps, k);
  }

  lemma MisreadIsFatal(session: Session, steps: seq<Step>, k: nat)
    requires CalmRun(session, steps) && MisreadAt(session, steps, k)
    ensures Run(session, steps).c.poisoned || Run(session, steps).r.poisoned
  {
    CalmPrefix(session, steps, k);
    MisreadPoisons(session, Run(session, steps[..k]), steps[k]);
    RunOne(session, steps, k);
    CutAt(steps, k + 1);
    PoisonStays(session, steps[..k + 1], steps[k + 1..], steps);
  }

  /** A run without failures poisons an endpoint exactly when, somewhere in it,
      a healthy endpoint takes an application record inside a transaction or an
      idle receiver takes a native one. */
  lemma CalmRunPoisonsExactly(session: Session, steps: seq<Step>)
    requires CalmRun(session, steps)
    ensures Run(session, steps).c.poisoned || Run(session, steps).r.poisoned
       <==> exists k: nat :: MisreadAt(session, steps, k)
  {
    if exists k: nat :: MisreadAt(session, steps, k) {
      var k: nat :| MisreadAt(session, steps, k);
      MisreadIsFatal(session, steps, k);
    } else {
      UnmisreadStaysInStep(session, steps);
    }
  }

  /** Healthy endpoints of a run without failures are in step. */
  lemma HealthyIsInStep(session: Session, steps: seq<Step>)
    requires CalmRun(session, steps) && !Run(session, steps).c.poisoned && !Run(session, steps).r.poisoned
    ensures InStep(session, Run(session, steps))
  {
    CalmRunPoisonsExactly(session, steps);
    UnmisreadStaysInStep(session, steps);
  }

  // ----- it happens -----

  /** The receiver, idle, sends a control record while the coordinator begins a transfer. */
  function CrossedSteps(m: Manifest, payload: seq<byte>): seq<Step> {
    [Coordinator(CBegin(m)), Receiver(RSendApplication(payload, Delivered)), Coordinator(CSendOffer(true, Delivered)),
     Coordinator(CReceive(true))]
  }

  lemma CrossedBegins(session: Session, m: Manifest, payload: seq<byte>)
    requires Admissible(session, 1, m) && session.limits.maxTransactions >= 1
    ensures var steps := CrossedSteps(m, payload)[..2];
            var s := Run(session, steps);
            && CalmRun(session, steps) && !s.c.poisoned && s.cp == COpened(m) && s.c.taken == 0
            && s.r.sent == [Application(payload)]
  {
    var steps := CrossedSteps(m, payload);
    RunOne(session, steps, 0);
    RunOne(session, steps, 1);
    AppliedReceiver(session, Run(session, steps[..1]), RSendApplication(payload, Delivered), false);
    assert [] + [Application(payload)] == [Application(payload)];
  }

  lemma OfferThenTake(session: Session, s: State, m: Manifest)
    requires !s.c.poisoned && s.cp == COpened(m) && s.c.taken < |s.r.sent| && s.r.sent[s.c.taken].Application?
    ensures var t := Apply(session, s, Coordinator(CSendOffer(true, Delivered)));
            Apply(session, t, Coordinator(CReceive(true))).c.poisoned
  {
    var t := Apply(session, s, Coordinator(CSendOffer(true, Delivered)));
    AppliedCoordinator(session, s, CSendOffer(true, Delivered), Grant(session, s.cl, m).Some?);
    AppliedCoordinator(session, t, CReceive(true), false);
  }

  /** A control record that crosses an offer is taken as the answer to it: every
      step succeeds, and the coordinator is poisoned. */
  lemma CrossedRecordPoisons(session: Session, m: Manifest, payload: seq<byte>)
    requires Admissible(session, 1, m) && session.limits.maxTransactions >= 1
    ensures CalmRun(session, CrossedSteps(m, payload)) && Run(session, CrossedSteps(m, payload)).c.poisoned
  {
    var steps := CrossedSteps(m, payload);
    CrossedBegins(session, m, payload);
    OfferThenTake(session, Run(session, steps[..2]), m);
    RunOne(session, steps, 2);
    RunOne(session, steps, 3);
    assert steps[..4] == steps;
  }
}
