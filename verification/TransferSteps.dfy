/** Which steps stand behind what the endpoints send, take and commit, and which
    steps poison them. Nothing here depends on the log of checks. */
module TransferSteps {
  import opened Ledger
  import opened Protocol
  import opened Transfer
  import opened TransferSafety
  import opened TransferRuns

  // ----- what poisons an endpoint -----

  /** The record a coordinator in that phase goes on from. */
  ghost predicate CWelcome(cp: CoordinatorPhase, record: Record) {
    match cp
    case CIdle => record.Application?
    case COfferSent(m, status) =>
      record == Native(Reply, ActiveLimit, m) || (status == Ready && record == Native(Reply, Ready, m))
    case CCapabilitySent(m) => record == Native(Imported, Ready, m)
    case CSealedSent(m) => record == Native(ReadyFrame, Ready, m)
    case _ => false
  }

  ghost predicate CFails(session: Session, c: Side, cp: CoordinatorPhase, step: CoordinatorStep, peer: seq<Record>) {
    match step
    case CBegin(_) => !cp.CIdle? || c.next > session.limits.maxTransactions
    case CSendOffer(_, out) => cp.COpened? && out != Delivered
    case CReceive(ok) => !ok || (c.taken < |peer| && !CWelcome(cp, peer[c.taken]))
    case CSendNext(valid, out) =>
      || ((cp.CPreflighted? || cp.CGotImported?) && (!valid || out != Delivered))
      || (cp.CGotReady? && out != Delivered)
    case CSendApplication(_, out) => !cp.CIdle? || out != Delivered
    case CAbandon => true
  }

  lemma CoordinatorFailsExactly(session: Session, c: Side, cp: CoordinatorPhase, reserved: bool, step: CoordinatorStep,
                                peer: seq<Record>)
    requires CFlags(session.limits, c, cp) && !c.poisoned
    ensures ApplyCoordinator(session, c, cp, reserved, step, peer).0.poisoned <==> CFails(session, c, cp, step, peer)
  {
  }

  /** The manifest names this session and keeps within its limits. */
  predicate Ours(session: Session, m: Manifest) {
    && m.nonce == session.nonce && m.parentPid == session.parentPid && m.childPid == session.childPid
    && m.authority == session.authority && |m.entries| <= session.limits.maxRegionsPerBatch
    && m.totalLogical <= session.limits.maxBatchBytes && m.totalMapped <= session.limits.maxBatchBytes
    && forall i :: 0 <= i < |m.entries| ==> m.entries[i].logicalLen <= session.limits.maxRegionBytes
  }

  /** The record a receiver in that phase goes on from; `accept` is the outcome
      of the manifest match or of the activation check. */
  ghost predicate RWelcome(session: Session, rp: ReceiverPhase, record: Record, accept: bool) {
    match rp
    case RIdle => record.Application?
    case ROpened(id) =>
      record.Native? && record.tag == Offer && record.m.transferId == id && accept && Ours(session, record.m)
    case RReady(id) =>
      && record.Native? && record == Native(Capability, Ready, record.m) && record.m.transferId == id
      && accept && Ours(session, record.m)
    case RImportedSent(m) => record == Native(Sealed, Ready, m) && accept && Ours(session, m)
    case RReadySent(m) => record == Native(Commit, Ready, m)
    case _ => false
  }

  ghost predicate RFails(session: Session, r: Side, rp: ReceiverPhase, step: ReceiverStep, peer: seq<Record>) {
    match step
    case REnter => !rp.RIdle? || r.next > session.limits.maxTransactions
    case RReceive(ok, accept) => !ok || (r.taken < |peer| && !RWelcome(session, rp, peer[r.taken], accept))
    case RSendReply(out) => rp.RDeciding? && out != Delivered
    case RSendNext(imported, out) =>
      (rp.RGotCapability? && (!imported || out != Delivered)) || (rp.RGotSealed? && out != Delivered)
    case RSendApplication(_, out) => !rp.RIdle? || out != Delivered
    case RAbandon => true
  }

  lemma ReceiverFailsExactly(session: Session, r: Side, rp: ReceiverPhase, reserved: bool, step: ReceiverStep,
                             peer: seq<Record>)
    requires RFlags(session.limits, r, rp) && !r.poisoned
    ensures ApplyReceiver(session, r, rp, reserved, Judged(session, step, r, peer), peer).0.poisoned
       <==> RFails(session, r, rp, step, peer)
  {
  }

  /** In every run a healthy coordinator is poisoned by exactly these steps. While
      ids are left, a manifest that cannot be constructed for the next one is
      refused before anything changes. */
  lemma CoordinatorPoisonsExactly(session: Session, steps: seq<Step>, step: CoordinatorStep)
    requires !Run(session, steps).c.poisoned
    ensures var s := Run(session, steps);
            Apply(session, s, Coordinator(step)).c.poisoned <==>
            && CFails(session, s.c, s.cp, step, s.r.sent)
            && (step.CBegin? ==> s.c.next > session.limits.maxTransactions || Admissible(session, s.c.next, step.m))
    ensures var s := Run(session, steps);
            step.CBegin? && s.c.next <= session.limits.maxTransactions && !Admissible(session, s.c.next, step.m) ==>
              Apply(session, s, Coordinator(step)) == s
  {
    EveryRunKeepsInv(session, steps);
    var s := Run(session, steps);
    var reserved := s.cp.COpened? && Grant(session, s.cl, s.cp.m).Some?;
    CoordinatorFailsExactly(session, s.c, s.cp, reserved, step, s.r.sent);
  }

  /** The same for the receiver: a failed import, a manifest that does not match
      and a failed activation check are among them. */
  lemma ReceiverPoisonsExactly(session: Session, steps: seq<Step>, step: ReceiverStep)
    requires !Run(session, steps).r.poisoned
    ensures var s := Run(session, steps);
            Apply(session, s, Receiver(step)).r.poisoned <==> RFails(session, s.r, s.rp, step, s.c.sent)
  {
    EveryRunKeepsInv(session, steps);
    var s := Run(session, steps);
    var reserved := s.rp.RDeciding? && Grant(session, s.rl, s.rp.m).Some?;
    ReceiverFailsExactly(session, s.r, s.rp, reserved, step, s.c.sent);
  }

  // ----- what stands behind a record -----

  /** Why the coordinator may send the record: the step, its outcome and the
      state of its ledger. */
  ghost predicate CGrounds(session: Session, s: State, step: CoordinatorStep, record: Record) {
    match record
    case Application(payload) => step.CSendApplication? && step.payload == payload
    case Native(tag, status, m) => (
      match tag
      case Offer =>
        && step.CSendOffer? && s.cp == COpened(m)
        && (status == Ready <==> ReserveAll(s.cl, session.limits, Lengths(m)).Some? && step.prepared)
        && (status == ActiveLimit <==> ReserveAll(s.cl, session.limits, Lengths(m)).None?)
      case Capability => step.CSendNext? && step.valid && s.cp == CPreflighted(m) && status == Ready
      case Sealed => step.CSendNext? && step.valid && s.cp == CGotImported(m) && status == Ready
      case Commit => step.CSendNext? && s.cp == CGotReady(m) && status == Ready
      case _ => false)
  }

  ghost predicate RGrounds(session: Session, s: State, step: ReceiverStep, record: Record) {
    match record
    case Application(payload) => step.RSendApplication? && step.payload == payload
    case Native(tag, status, m) => (
      match tag
      case Reply =>
        && step.RSendReply? && s.rp.RDeciding? && s.rp.m == m
        && (status == Ready <==> s.rp.status == Ready && ReserveAll(s.rl, session.limits, Lengths(m)).Some?)
        && (status == Ready || status == ActiveLimit)
      case Imported => step.RSendNext? && step.imported && s.rp == RGotCapability(m) && status == Ready
      case ReadyFrame => step.RSendNext? && s.rp == RGotSealed(m) && status == Ready
      case _ => false)
  }

  /** The log is as before, or one record longer with grounds for it. */
  ghost predicate CSpeaks(session: Session, s: State, step: CoordinatorStep, sent: seq<Record>) {
    || sent == s.c.sent
    || (|sent| == |s.c.sent| + 1 && s.c.sent <= sent && CGrounds(session, s, step, sent[|s.c.sent|]))
  }

  ghost predicate RSpeaks(session: Session, s: State, step: ReceiverStep, sent: seq<Record>) {
    || sent == s.r.sent
    || (|sent| == |s.r.sent| + 1 && s.r.sent <= sent && RGrounds(session, s, step, sent[|s.r.sent|]))
  }

  lemma SpeaksOne(session: Session, s: State, step: CoordinatorStep, record: Record)
    requires CGrounds(session, s, step, record)
    ensures CSpeaks(session, s, step, s.c.sent + [record])
  {
  }

  lemma CoordinatorSends(session: Session, s: State, step: CoordinatorStep)
    requires step.CSendNext? || step.CSendApplication?
    ensures CSpeaks(session, s, step, ApplyCoordinator(session, s.c, s.cp, false, step, s.r.sent).0.sent)
  {
    if step.CSendApplication? {
      SpeaksOne(session, s, step, Application(step.payload));
    } else if step.valid && s.cp.CPreflighted? {
      SpeaksOne(session, s, step, Frame(Capability, s.cp.m));
    } else if step.valid && s.cp.CGotImported? {
      SpeaksOne(session, s, step, Frame(Sealed, s.cp.m));
    } else if s.cp.CGotReady? {
      SpeaksOne(session, s, step, Frame(Commit, s.cp.m));
    }
  }

  lemma CoordinatorOffers(session: Session, s: State, step: CoordinatorStep, reserved: bool)
    requires step.CSendOffer? && reserved == (s.cp.COpened? && Grant(session, s.cl, s.cp.m).Some?)
    ensures CSpeaks(session, s, step, ApplyCoordinator(session, s.c, s.cp, reserved, step, s.r.sent).0.sent)
  {
    if s.cp.COpened? {
      SpeaksOne(session, s, step, Native(Offer, LocalStatus(reserved, step.prepared), s.cp.m));
    }
  }

  lemma CoordinatorSpeaks(session: Session, s: State, step: CoordinatorStep)
    ensures var t := Apply(session, s, Coordinator(step)); t.r == s.r && CSpeaks(session, s, step, t.c.sent)
  {
    match step
    case CSendOffer(_, _) =>
      CoordinatorOffers(session, s, step, s.cp.COpened? && Grant(session, s.cl, s.cp.m).Some?);
    case CSendNext(_, _) => CoordinatorSends(session, s, step);
    case CSendApplication(_, _) => CoordinatorSends(session, s, step);
    case _ =>
  }

  lemma RespondsOne(session: Session, s: State, step: ReceiverStep, record: Record)
    requires RGrounds(session, s, step, record)
    ensures RSpeaks(session, s, step, s.r.sent + [record])
  {
  }

  lemma ReceiverSends(session: Session, s: State, step: ReceiverStep)
    requires step.RSendNext? || step.RSendApplication?
    ensures RSpeaks(session, s, step, ApplyReceiver(session, s.r, s.rp, false, step, s.c.sent).0.sent)
  {
    if step.RSendApplication? {
      RespondsOne(session, s, step, Application(step.payload));
    } else if step.imported && s.rp.RGotCapability? {
      RespondsOne(session, s, step, Frame(Imported, s.rp.m));
    } else if s.rp.RGotSealed? {
      RespondsOne(session, s, step, Frame(ReadyFrame, s.rp.m));
    }
  }

  lemma ReceiverReplies(session: Session, s: State, step: ReceiverStep, reserved: bool)
    requires step.RSendReply? && reserved == (s.rp.RDeciding? && Grant(session, s.rl, s.rp.m).Some?)
    ensures RSpeaks(session, s, step, ApplyReceiver(session, s.r, s.rp, reserved, step, s.c.sent).0.sent)
  {
    if s.rp.RDeciding? {
      var status := if s.rp.status.Ready? && reserved then Ready else ActiveLimit;
      RespondsOne(session, s, step, Native(Reply, status, s.rp.m));
    }
  }

  lemma ReceiverSpeaks(session: Session, s: State, step: ReceiverStep)
    ensures var t := Apply(session, s, Receiver(step)); t.c == s.c && RSpeaks(session, s, step, t.r.sent)
  {
    match step
    case RSendReply(_) =>
      ReceiverReplies(session, s, step, s.rp.RDeciding? && Grant(session, s.rl, s.rp.m).Some?);
    case RSendNext(_, _) => ReceiverSends(session, s, step);
    case RSendApplication(_, _) => ReceiverSends(session, s, step);
    case _ =>
  }

  /** Step `k` of the run is where the coordinator sent its record number `x`. */
  ghost predicate CSentAt(session: Session, steps: seq<Step>, k: nat, x: nat) {
    && k < |steps| && steps[k].Coordinator? && x < |Run(session, steps).c.sent|
    && |Run(session, steps[..k]).c.sent| == x
    && CGrounds(session, Run(session, steps[..k]), steps[k].cs, Run(session, steps).c.sent[x])
  }

  ghost predicate RSentAt(session: Session, steps: seq<Step>, k: nat, x: nat) {
    && k < |steps| && steps[k].Receiver? && x < |Run(session, steps).r.sent|
    && |Run(session, steps[..k]).r.sent| == x
    && RGrounds(session, Run(session, steps[..k]), steps[k].rs, Run(session, steps).r.sent[x])
  }

  lemma LogsGrow(session: Session, s: State, step: Step)
    ensures var t := Apply(session, s, step); s.c.sent <= t.c.sent && s.r.sent <= t.r.sent
  {
    match step
    case Coordinator(cs) => CoordinatorSpeaks(session, s, cs);
    case Receiver(rs) => ReceiverSpeaks(session, s, rs);
    case DropCoordinator(i) =>
    case DropReceiver(i) =>
  }

  /** Every record the coordinator ever put on the wire was sent by one step with
      the grounds for it: an OFFER says ready exactly when the batch was prepared
      and reserved, CAPABILITY and SEALED follow a successful validation. */
  lemma {:induction false} CoordinatorHadGrounds(session: Session, steps: seq<Step>, x: nat) returns (k: nat)
    requires x < |Run(session, steps).c.sent|
    ensures CSentAt(session, steps, k, x)
    decreases |steps|
  {
    var n := |steps| - 1;
    var before := Run(session, steps[..n]);
    LogsGrow(session, before, steps[n]);
    if x < |before.c.sent| {
      k := CoordinatorHadGrounds(session, steps[..n], x);
      assert steps[..n][..k] == steps[..k];
    } else {
      k := n;
      CoordinatorSpeaks(session, before, steps[n].cs);
    }
  }

  /** The same for the receiver: a reply says ready exactly when the offer did
      and the batch was reserved, IMPORTED follows a successful import. */
  lemma {:induction false} ReceiverHadGrounds(session: Session, steps: seq<Step>, x: nat) returns (k: nat)
    requires x < |Run(session, steps).r.sent|
    ensures RSentAt(session, steps, k, x)
    decreases |steps|
  {
    var n := |steps| - 1;
    var before := Run(session, steps[..n]);
    LogsGrow(session, before, steps[n]);
    if x < |before.r.sent| {
      k := ReceiverHadGrounds(session, steps[..n], x);
      assert steps[..n][..k] == steps[..k];
    } else {
      k := n;
      ReceiverSpeaks(session, before, steps[n].rs);
    }
  }

  // ----- what stands behind a commit -----

  /** Step `k` is a receive that succeeded, took `record` and accepted it. */
  ghost predicate Took(session: Session, steps: seq<Step>, k: nat, record: Record) {
    && k < |steps| && steps[k] == Receiver(RReceive(true, true))
    && var s, t := Run(session, steps[..k]), Run(session, steps[..k + 1]);
       && s.r.taken < |s.c.sent| && s.c.sent[s.r.taken] == record
       && t.r.taken == s.r.taken + 1 && !t.r.poisoned
  }

  /** Step `k` follows a successful import and sends IMPORTED. */
  ghost predicate Answered(session: Session, steps: seq<Step>, k: nat, m: Manifest) {
    && k < |steps| && steps[k].Receiver? && steps[k].rs.RSendNext? && steps[k].rs.imported
    && Run(session, steps[..k + 1]).r.sent == Run(session, steps[..k]).r.sent + [Native(Imported, Ready, m)]
  }

  ghost predicate Received(session: Session, steps: seq<Step>, m: Manifest) {
    exists a: nat :: Took(session, steps, a, Native(Capability, Ready, m))
  }

  ghost predicate ImportedAt(session: Session, steps: seq<Step>, a: nat, b: nat, m: Manifest) {
    a < b && Took(session, steps, a, Native(Capability, Ready, m)) && Answered(session, steps, b, m)
  }

  ghost predicate ImportedIn(session: Session, steps: seq<Step>, m: Manifest) {
    exists a: nat, b: nat :: ImportedAt(session, steps, a, b, m)
  }

  /** The manifest's CAPABILITY was taken and accepted, then it was imported, then
      its SEALED was taken and the activation check passed. */
  ghost predicate VettedAt(session: Session, steps: seq<Step>, a: nat, b: nat, c: nat, m: Manifest) {
    && a < b < c && Took(session, steps, a, Native(Capability, Ready, m)) && Answered(session, steps, b, m)
    && Took(session, steps, c, Native(Sealed, Ready, m))
  }

  ghost predicate Vetted(session: Session, steps: seq<Step>, m: Manifest) {
    exists a: nat, b: nat, c: nat :: VettedAt(session, steps, a, b, c, m)
  }

  lemma TookStays(session: Session, steps: seq<Step>, k: nat, record: Record, n: nat)
    requires n <= |steps| && Took(session, steps[..n], k, record)
    ensures k < n && Took(session, steps, k, record)
  {
    assert steps[..n][..k] == steps[..k] && steps[..n][..k + 1] == steps[..k + 1];
  }

  lemma AnsweredStays(session: Session, steps: seq<Step>, k: nat, m: Manifest, n: nat)
    requires n <= |steps| && Answered(session, steps[..n], k, m)
    ensures k < n && Answered(session, steps, k, m)
  {
    assert steps[..n][..k] == steps[..k] && steps[..n][..k + 1] == steps[..k + 1];
  }

  lemma ReceivedStays(session: Session, steps: seq<Step>, m: Manifest, n: nat)
    requires n <= |steps| && Received(session, steps[..n], m)
    ensures Received(session, steps, m)
  {
    var a: nat :| Took(session, steps[..n], a, Native(Capability, Ready, m));
    TookStays(session, steps, a, Native(Capability, Ready, m), n);
  }

  lemma ImportedStays(session: Session, steps: seq<Step>, m: Manifest, n: nat)
    requires n <= |steps| && ImportedIn(session, steps[..n], m)
    ensures ImportedIn(session, steps, m)
  {
    var a: nat, b: nat :| ImportedAt(session, steps[..n], a, b, m);
    TookStays(session, steps, a, Native(Capability, Ready, m), n);
    AnsweredStays(session, steps, b, m, n);
    assert ImportedAt(session, steps, a, b, m);
  }

  lemma VettedStays(session: Session, steps: seq<Step>, m: Manifest, n: nat)
    requires n <= |steps| && Vetted(session, steps[..n], m)
    ensures Vetted(session, steps, m)
  {
    var a: nat, b: nat, c: nat :| VettedAt(session, steps[..n], a, b, c, m);
    TookStays(session, steps, a, Native(Capability, Ready, m), n);
    AnsweredStays(session, steps, b, m, n);
    TookStays(session, steps, c, Native(Sealed, Ready, m), n);
    assert VettedAt(session, steps, a, b, c, m);
  }

  /** How the receiver comes to the phases in which it holds a manifest. */
  lemma ComesTo(session: Session, r: Side, rp: ReceiverPhase, reserved: bool, step: ReceiverStep, peer: seq<Record>)
    requires !r.poisoned
    ensures var (e, ep) := ApplyReceiver(session, r, rp, reserved, step, peer);
            !e.poisoned && ep != rp ==>
              && (ep.RGotCapability? ==>
                    && step == RReceive(true, true) && r.taken < |peer| && peer[r.taken] == Frame(Capability, ep.m)
                    && e.taken == r.taken + 1)
              && (ep.RImportedSent? ==>
                    && step.RSendNext? && step.imported && rp == RGotCapability(ep.m)
                    && e.sent == r.sent + [Frame(Imported, ep.m)])
              && (ep.RGotSealed? ==>
                    && step == RReceive(true, true) && r.taken < |peer| && peer[r.taken] == Frame(Sealed, ep.m)
                    && e.taken == r.taken + 1 && rp == RImportedSent(ep.m))
              && (ep.RReadySent? ==> rp == RGotSealed(ep.m))
  {
  }

  ghost predicate PhaseBacked(session: Session, steps: seq<Step>, rp: ReceiverPhase) {
    match rp
    case RGotCapability(m) => Received(session, steps, m)
    case RImportedSent(m) => ImportedIn(session, steps, m)
    case RGotSealed(m) => Vetted(session, steps, m)
    case RReadySent(m) => Vetted(session, steps, m)
    case _ => true
  }

  /** What the run has behind it, by the receiver's phase and its list of checks. */
  ghost predicate Backed(session: Session, steps: seq<Step>) {
    var s := Run(session, steps);
    && (!s.r.poisoned ==> PhaseBacked(session, steps, s.rp))
    && forall m :: m in s.checked ==> Vetted(session, steps, m)
  }

  lemma PhaseStays(session: Session, steps: seq<Step>, rp: ReceiverPhase, n: nat)
    requires n <= |steps| && PhaseBacked(session, steps[..n], rp)
    ensures PhaseBacked(session, steps, rp)
  {
    match rp
    case RGotCapability(m) => ReceivedStays(session, steps, m, n);
    case RImportedSent(m) => ImportedStays(session, steps, m, n);
    case RGotSealed(m) => VettedStays(session, steps, m, n);
    case RReadySent(m) => VettedStays(session, steps, m, n);
    case _ =>
  }

  /** The last step brought the receiver to a new phase. */
  lemma NewPhaseIsBacked(session: Session, steps: seq<Step>, n: nat)
    requires |steps| == n + 1 && steps[n].Receiver?
    requires var s := Run(session, steps[..n]); !s.r.poisoned && PhaseBacked(session, steps[..n], s.rp)
    requires var t := Run(session, steps); !t.r.poisoned && t.rp != Run(session, steps[..n]).rp
    ensures PhaseBacked(session, steps, Run(session, steps).rp)
  {
    var s, t := Run(session, steps[..n]), Run(session, steps);
    var reserved := s.rp.RDeciding? && Grant(session, s.rl, s.rp.m).Some?;
    ComesTo(session, s.r, s.rp, reserved, Judged(session, steps[n].rs, s.r, s.c.sent), s.c.sent);
    assert steps[..n + 1] == steps;
    match t.rp
    case RGotCapability(m) => assert Took(session, steps, n, Native(Capability, Ready, m));
    case RImportedSent(m) =>
      var a: nat :| Took(session, steps[..n], a, Native(Capability, Ready, m));
      TookStays(session, steps, a, Native(Capability, Ready, m), n);
      assert ImportedAt(session, steps, a, n, m);
    case RGotSealed(m) =>
      var a: nat, b: nat :| ImportedAt(session, steps[..n], a, b, m);
      TookStays(session, steps, a, Native(Capability, Ready, m), n);
      AnsweredStays(session, steps, b, m, n);
      assert VettedAt(session, steps, a, b, n, m);
    case RReadySent(m) => VettedStays(session, steps, m, n);
    case _ =>
  }

  lemma CheckedStays(session: Session, steps: seq<Step>, n: nat)
    requires |steps| == n + 1 && Backed(session, steps[..n])
    requires !Run(session, steps).r.poisoned ==> PhaseBacked(session, steps, Run(session, steps).rp)
    requires var s, t := Run(session, steps[..n]), Run(session, steps);
             t.checked == s.checked || (!t.r.poisoned && t.rp.RGotSealed? && t.checked == s.checked + [t.rp.m])
    ensures Backed(session, steps)
  {
    forall m | m in Run(session, steps).checked ensures Vetted(session, steps, m) {
      if m in Run(session, steps[..n]).checked {
        VettedStays(session, steps, m, n);
      }
    }
  }

  /** Only reaching `RGotSealed` alive adds to the list of checks. */
  lemma ChecksGrow(session: Session, s: State, step: Step)
    ensures var t := Apply(session, s, step);
            || t.checked == s.checked
            || (!t.r.poisoned && t.rp.RGotSealed? && t.checked == s.checked + [t.rp.m])
    ensures var t := Apply(session, s, step); s.r.poisoned ==> t.r.poisoned
    ensures var t := Apply(session, s, step); !step.Receiver? ==> t.rp == s.rp && t.r == s.r
  {
  }

  lemma {:induction false} EveryRunIsBacked(session: Session, steps: seq<Step>)
    ensures Backed(session, steps)
  {
    if steps != [] {
      var n := |steps| - 1;
      EveryRunIsBacked(session, steps[..n]);
      ChecksGrow(session, Run(session, steps[..n]), steps[n]);
      if !Run(session, steps).r.poisoned {
        if Run(session, steps).rp == Run(session, steps[..n]).rp {
          PhaseStays(session, steps, Run(session, steps).rp, n);
        } else {
          NewPhaseIsBacked(session, steps, n);
        }
      }
      CheckedStays(session, steps, n);
    }
  }

  /** Whatever either endpoint commits, and whatever a COMMIT is even sent for,
      the receiver took its CAPABILITY and accepted it, then imported it and said
      so, then took its SEALED and passed the activation check, in that order. */
  lemma CommitWasVetted(session: Session, steps: seq<Step>, m: Manifest)
    requires var s := Run(session, steps); m in s.c.committed || m in s.r.committed || m in Of(Commit, s.c.sent)
    ensures exists a: nat, b: nat, c: nat :: VettedAt(session, steps, a, b, c, m)
  {
    CommitChain(session, steps);
    EveryRunIsBacked(session, steps);
    assert m in Run(session, steps).checked;
    assert Vetted(session, steps, m);
  }

  lemma SentAtSome(log: seq<Record>, record: Record) returns (x: nat)
    requires record in log
    ensures x < |log| && log[x] == record
  {
    x :| x < |log| && log[x] == record;
  }

  /** And the coordinator validated it before CAPABILITY and again before SEALED. */
  lemma CommitWasValidated(session: Session, steps: seq<Step>, m: Manifest) returns (first: nat, second: nat)
    requires var s := Run(session, steps); m in s.c.committed || m in s.r.committed || m in Of(Commit, s.c.sent)
    ensures first < |steps| && steps[first].Coordinator? && second < |steps| && steps[second].Coordinator?
    ensures steps[first].cs.CSendNext? && steps[first].cs.valid && steps[second].cs.CSendNext? && steps[second].cs.valid
    ensures Run(session, steps[..first]).cp == CPreflighted(m) && Run(session, steps[..second]).cp == CGotImported(m)
  {
    CommitChain(session, steps);
    CoordinatorCommitsAfterReady(session, steps, m);
    var x := SentAtSome(Run(session, steps).c.sent, Frame(Capability, m));
    first := CoordinatorHadGrounds(session, steps, x);
    var y := SentAtSome(Run(session, steps).c.sent, Frame(Sealed, m));
    second := CoordinatorHadGrounds(session, steps, y);
  }
}
