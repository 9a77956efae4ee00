/** Without failures and with no application record under way, an open transfer
    can always go on, and only finitely often whatever the schedule. */
module TransferLiveness {
  import opened Protocol
  import opened Ledger
  import opened Transfer
  import opened TransferSafety
  import opened TransferRuns
  import opened TransferProgress

  function CoordinatorRank(cp: CoordinatorPhase): nat {
    match cp
    case CIdle => 0
    case COpened(_) => 7
    case COfferSent(_, _) => 6
    case CPreflighted(_) => 5
    case CCapabilitySent(_) => 4
    case CGotImported(_) => 3
    case CSealedSent(_) => 2
    case CGotReady(_) => 1
  }

  /** A receiver still holding the previous READY is furthest from done. */
  function ReceiverRank(rp: ReceiverPhase, cp: CoordinatorPhase): nat {
    match rp
    case RReadySent(_) => if cp.COpened? || cp.COfferSent? then 9 else 1
    case RIdle => 8
    case ROpened(_) => 7
    case RDeciding(_, _) => 6
    case RReady(_) => 5
    case RGotCapability(_) => 4
    case RImportedSent(_) => 3
    case RGotSealed(_) => 2
  }

  /** The receiver's work counts only while the coordinator has nothing to take;
      behind an unread answer all it can do is open the next transaction. */
  function Rank(cp: CoordinatorPhase, rp: ReceiverPhase, answered: bool): nat {
    20 * CoordinatorRank(cp) + if answered then (if rp.RIdle? then 1 else 0) else 2 + ReceiverRank(rp, cp)
  }

  function RankOf(s: State): nat {
    Rank(s.cp, s.rp, s.c.taken < |s.r.sent|)
  }

  // ----- no application record under way -----

  ghost predicate NoApplications(q: seq<Record>) {
    forall i :: 0 <= i < |q| ==> q[i].Native?
  }

  ghost predicate Quiet(s: State) {
    && s.r.taken <= |s.c.sent| && s.c.taken <= |s.r.sent|
    && NoApplications(s.c.sent[s.r.taken..]) && NoApplications(s.r.sent[s.c.taken..])
  }

  /** In step, with the undelivered records exactly those of the transfer. */
  ghost predicate Lockstep(session: Session, s: State) {
    && !s.c.poisoned && !s.r.poisoned && s.r.taken <= |s.c.sent| && s.c.taken <= |s.r.sent|
    && Synced(s.cp, s.rp, s.c.sent[s.r.taken..], s.r.sent[s.c.taken..])
    && (!s.cp.CIdle? ==> OfSession(session, s.cp.m))
  }

  lemma {:induction false} NativesOfNatives(q: seq<Record>)
    requires NoApplications(q)
    ensures Natives(q) == q
  {
    if q != [] {
      NativesOfNatives(q[1..]);
      assert q == [q[0]] + q[1..];
    }
  }

  lemma SyncedIsNative(cp: CoordinatorPhase, rp: ReceiverPhase, qc: seq<Record>, qr: seq<Record>)
    requires Synced(cp, rp, qc, qr)
    ensures NoApplications(qc) && NoApplications(qr)
  {
  }

  lemma LockstepIsQuiet(session: Session, s: State)
    ensures Lockstep(session, s) <==> InStep(session, s) && Quiet(s)
  {
    if s.r.taken <= |s.c.sent| && s.c.taken <= |s.r.sent| {
      var qc, qr := s.c.sent[s.r.taken..], s.r.sent[s.c.taken..];
      if Synced(s.cp, s.rp, qc, qr) {
        SyncedIsNative(s.cp, s.rp, qc, qr);
      }
      if NoApplications(qc) && NoApplications(qr) {
        NativesOfNatives(qc);
        NativesOfNatives(qr);
      }
    }
  }

  /** A step of the transfer itself: no application record, no dropped mapping, no new transfer. */
  predicate Exchange(step: Step) {
    match step
    case Coordinator(cs) => !cs.CSendApplication? && !cs.CBegin?
    case Receiver(rs) => !rs.RSendApplication?
    case _ => false
  }

  /** What one endpoint's step may do to the two logs. */
  ghost predicate Talks(e: Side, after: Side, peer: seq<Record>) {
    && (after.taken == e.taken || (after.taken == e.taken + 1 && e.taken < |peer|))
    && (after.sent == e.sent || exists record: Record :: record.Native? && after.sent == e.sent + [record])
  }

  lemma SendTalks(e: Side, record: Record, out: SendOutcome, peer: seq<Record>)
    requires record.Native?
    ensures Talks(e, Send(e, record, out), peer)
  {
  }

  lemma CoordinatorTalks(session: Session, c: Side, cp: CoordinatorPhase, reserved: bool, step: CoordinatorStep,
                         peer: seq<Record>)
    requires !step.CSendApplication?
    ensures var (e, _) := ApplyCoordinator(session, c, cp, reserved, step, peer); Talks(c, e, peer)
  {
    if !c.poisoned {
      match step
      case CSendOffer(prepared, out) =>
        if cp.COpened? {
          SendTalks(c, Native(Offer, LocalStatus(reserved, prepared), cp.m), out, peer);
        }
      case CSendNext(valid, out) =>
        if cp.CPreflighted? {
          SendTalks(c, Frame(Capability, cp.m), out, peer);
        } else if cp.CGotImported? {
          SendTalks(c, Frame(Sealed, cp.m), out, peer);
        } else if cp.CGotReady? {
          SendTalks(c, Frame(Commit, cp.m), out, peer);
        }
      case _ =>
    }
  }

  lemma ReceiverTalks(session: Session, r: Side, rp: ReceiverPhase, reserved: bool, step: ReceiverStep,
                      peer: seq<Record>)
    requires !step.RSendApplication?
    ensures var (e, _) := ApplyReceiver(session, r, rp, reserved, step, peer); Talks(r, e, peer)
  {
    if !r.poisoned {
      match step
      case RSendReply(out) =>
        if rp.RDeciding? {
          SendTalks(r, Native(Reply, Ready, rp.m), out, peer);
          SendTalks(r, Native(Reply, ActiveLimit, rp.m), out, peer);
        }
      case RSendNext(imported, out) =>
        if rp.RGotCapability? {
          SendTalks(r, Frame(Imported, rp.m), out, peer);
        } else if rp.RGotSealed? {
          SendTalks(r, Frame(ReadyFrame, rp.m), out, peer);
        }
      case _ =>
    }
  }

  lemma TalkingKeepsQuiet(e: Side, after: Side, peer: seq<Record>, taken: nat)
    requires Talks(e, after, peer) && taken <= |e.sent| && e.taken <= |peer|
    requires NoApplications(e.sent[taken..]) && NoApplications(peer[e.taken..])
    ensures taken <= |after.sent| && after.taken <= |peer|
    ensures NoApplications(after.sent[taken..]) && NoApplications(peer[after.taken..])
  {
    forall i | 0 <= i < |after.sent| - taken ensures after.sent[taken..][i].Native? {
      if taken + i < |e.sent| {
        assert e.sent[taken..][i].Native?;
      }
    }
    forall i | 0 <= i < |peer| - after.taken ensures peer[after.taken..][i].Native? {
      assert peer[e.taken..][i + after.taken - e.taken].Native?;
    }
  }

  lemma ExchangeKeepsQuiet(session: Session, s: State, step: Step)
    requires Quiet(s) && Exchange(step)
    ensures Quiet(Apply(session, s, step))
  {
    match step
    case Coordinator(cs) =>
      var reserved := s.cp.COpened? && Grant(session, s.cl, s.cp.m).Some?;
      AppliedCoordinator(session, s, cs, reserved);
      CoordinatorTalks(session, s.c, s.cp, reserved, cs, s.r.sent);
      TalkingKeepsQuiet(s.c, Apply(session, s, step).c, s.r.sent, s.r.taken);
    case Receiver(rs) =>
      var reserved := s.rp.RDeciding? && Grant(session, s.rl, s.rp.m).Some?;
      AppliedReceiver(session, s, rs, reserved);
      ReceiverTalks(session, s.r, s.rp, reserved, Judged(session, rs, s.r, s.c.sent), s.c.sent);
      TalkingKeepsQuiet(s.r, Apply(session, s, step).r, s.c.sent, s.c.taken);
  }

  lemma ExchangeKeepsLockstep(session: Session, s: State, step: Step)
    requires Inv(session, s) && Lockstep(session, s) && Calm(session, s, step) && Exchange(step) && !Misreads(s, step)
    ensures Lockstep(session, Apply(session, s, step))
  {
    LockstepIsQuiet(session, s);
    CalmStep(session, s, step);
    ExchangeKeepsQuiet(session, s, step);
    LockstepIsQuiet(session, Apply(session, s, step));
  }

  // ----- whose turn it is -----

  predicate Sending(cp: CoordinatorPhase) {
    cp.CPreflighted? || cp.CGotImported? || cp.CGotReady?
  }

  /** Whose turn it is. */
  function Turn(s: State): Step {
    if s.cp.COpened? then Coordinator(CSendOffer(true, Delivered))
    else if Sending(s.cp) then Coordinator(CSendNext(true, Delivered))
    else if s.c.taken < |s.r.sent| then Coordinator(CReceive(true))
    else match s.rp
      case RIdle => Receiver(REnter)
      case RDeciding(_, _) => Receiver(RSendReply(Delivered))
      case RGotCapability(_) => Receiver(RSendNext(true, Delivered))
      case RGotSealed(_) => Receiver(RSendNext(true, Delivered))
      case _ => Receiver(RReceive(true, true))
  }

  lemma QueueHead(log: seq<Record>, taken: nat)
    requires taken < |log|
    ensures log[taken..] != [] && log[taken..][0] == log[taken] && log[taken + 1..] == log[taken..][1..]
  {
  }

  /** An untaken offer means the receiver has ids left. */
  lemma OfferLeavesIds(sent: seq<Record>, taken: nat, maximum: nat)
    requires taken < |sent| && sent[taken].Native? && sent[taken].tag.Offer? && |Of(Offer, sent)| <= maximum
    ensures |Of(Offer, sent[..taken])| + 1 <= maximum
  {
    OneMore(sent, taken);
    OfAppend(Offer, sent[..taken], sent[taken]);
    OfPrefix(Offer, sent, taken + 1);
  }

  lemma OfferIsNext(cp: CoordinatorPhase, rp: ReceiverPhase, qc: seq<Record>)
    requires Synced(cp, rp, qc, []) && cp.COfferSent? && rp.RIdle?
    ensures qc != [] && qc[0].Native? && qc[0].tag.Offer?
  {
  }

  lemma OffersAreFew(session: Session, s: State)
    requires Inv(session, s)
    ensures |Of(Offer, s.c.sent)| <= session.limits.maxTransactions
    ensures !s.r.poisoned && s.rp.RIdle? ==>
              s.r.taken <= |s.c.sent| && s.r.next == |Of(Offer, s.c.sent[..s.r.taken])| + 1
  {
  }

  lemma ReceiverMayEnter(session: Session, s: State)
    requires Inv(session, s) && Lockstep(session, s) && s.rp.RIdle? && s.cp.COfferSent? && s.c.taken >= |s.r.sent|
    ensures s.r.next <= session.limits.maxTransactions
  {
    assert s.r.sent[s.c.taken..] == [];
    OfferIsNext(s.cp, s.rp, s.c.sent[s.r.taken..]);
    QueueHead(s.c.sent, s.r.taken);
    OffersAreFew(session, s);
    OfferLeavesIds(s.c.sent, s.r.taken, session.limits.maxTransactions);
  }

  /** The turn is a step of the transfer that succeeds and reads what is meant for it. */
  lemma TurnIsCalm(session: Session, s: State)
    requires Inv(session, s) && Lockstep(session, s) && !s.cp.CIdle?
    ensures Calm(session, s, Turn(s)) && Exchange(Turn(s)) && !Misreads(s, Turn(s))
  {
    LockstepIsQuiet(session, s);
    if s.c.taken < |s.r.sent| {
      QueueHead(s.r.sent, s.c.taken);
    }
    if s.r.taken < |s.c.sent| {
      QueueHead(s.c.sent, s.r.taken);
    }
    if !s.cp.COpened? && !Sending(s.cp) && s.c.taken >= |s.r.sent| && s.rp.RIdle? {
      IdleMeansOffered(s.cp, s.rp, s.c.sent[s.r.taken..], s.r.sent[s.c.taken..]);
      ReceiverMayEnter(session, s);
    }
  }

  lemma IdleMeansOffered(cp: CoordinatorPhase, rp: ReceiverPhase, qc: seq<Record>, qr: seq<Record>)
    requires Synced(cp, rp, qc, qr) && rp.RIdle? && !cp.CIdle? && !cp.COpened?
    ensures cp.COfferSent?
  {
  }

  // ----- the coordinator's turn -----

  lemma MovesRank(cp: CoordinatorPhase, ep: CoordinatorPhase, reserved: bool)
    requires CMoves(cp, ep, reserved) && !cp.CIdle?
    ensures ep == cp || CoordinatorRank(ep) < CoordinatorRank(cp)
  {
  }

  /** A calm step of the coordinator in a transfer does nothing, or brings it nearer to the end. */
  lemma CoordinatorActs(session: Session, c: Side, cp: CoordinatorPhase, reserved: bool, step: CoordinatorStep,
                        peer: seq<Record>)
    requires CFlags(session.limits, c, cp) && !c.poisoned && !cp.CIdle? && !step.CBegin? && !step.CAbandon?
    requires !step.CSendApplication? && (step.CReceive? ==> step.ok)
    requires cp.COpened? || Sending(cp) ==> c.taken >= |peer|
    ensures var (e, ep) := ApplyCoordinator(session, c, cp, reserved, step, peer);
            e.poisoned || (e, ep) == (c, cp) || CoordinatorRank(ep) < CoordinatorRank(cp)
  {
    CoordinatorMoves(session, c, cp, reserved, step, peer);
    var (e, ep) := ApplyCoordinator(session, c, cp, reserved, step, peer);
    if !e.poisoned {
      MovesRank(cp, ep, reserved);
    }
  }

  lemma RankDrops(s: State, t: State)
    requires CoordinatorRank(t.cp) < CoordinatorRank(s.cp)
    ensures RankOf(t) < RankOf(s)
  {
  }

  lemma SilentWhileSending(session: Session, s: State)
    requires Lockstep(session, s) && (s.cp.COpened? || Sending(s.cp))
    ensures s.c.taken >= |s.r.sent|
  {
    assert s.r.sent[s.c.taken..] == [];
  }

  lemma StillCoordinator(session: Session, s: State, t: State)
    requires !s.c.poisoned && !s.cp.CIdle? && t.c == s.c && t.cp == s.cp
    requires t.r == s.r && t.rp == s.rp && t.rl == s.rl && t.checked == s.checked
    requires t.cl == CoordinatorLedger(session, s.cl, s.cp, t.c, t.cp)
    ensures t == s
  {
  }

  lemma CoordinatorDescends(session: Session, s: State, step: CoordinatorStep)
    requires Inv(session, s) && Lockstep(session, s) && !s.cp.CIdle?
    requires Calm(session, s, Coordinator(step)) && Exchange(Coordinator(step)) && !Misreads(s, Coordinator(step))
    ensures var t := Apply(session, s, Coordinator(step)); t == s || RankOf(t) < RankOf(s)
  {
    var t := Apply(session, s, Coordinator(step));
    ExchangeKeepsLockstep(session, s, Coordinator(step));
    if s.cp.COpened? || Sending(s.cp) {
      SilentWhileSending(session, s);
    }
    var reserved := s.cp.COpened? && Grant(session, s.cl, s.cp.m).Some?;
    AppliedCoordinator(session, s, step, reserved);
    CoordinatorActs(session, s.c, s.cp, reserved, step, s.r.sent);
    if t.c == s.c && t.cp == s.cp {
      StillCoordinator(session, s, t);
    } else {
      RankDrops(s, t);
    }
  }

  // ----- the receiver -----

  lemma ReceiverMovesRank(rp: ReceiverPhase, ep: ReceiverPhase, cp: CoordinatorPhase, reserved: bool)
    requires RMoves(rp, ep, reserved) && ep != rp && !cp.CIdle?
    requires rp.RReadySent? ==> cp.COpened? || cp.COfferSent?
    ensures || ReceiverRank(ep, cp) < ReceiverRank(rp, cp)
            || (rp.RDeciding? && ep.RIdle?) || (rp.RGotSealed? && ep.RReadySent?)
  {
  }

  /** A calm step of the receiver does nothing, or changes its phase, and answers exactly by sending. */
  lemma ReceiverActs(session: Session, r: Side, rp: ReceiverPhase, reserved: bool, step: ReceiverStep,
                     peer: seq<Record>)
    requires RFlags(session.limits, r, rp) && !r.poisoned && !step.RAbandon? && !step.RSendApplication?
    requires (step.RReceive? ==> step.ok) && (step.REnter? ==> rp.RIdle?)
    requires rp.RIdle? || rp.RDeciding? || rp.RGotCapability? || rp.RGotSealed? ==> step.RReceive? ==> r.taken >= |peer|
    ensures var (e, ep) := ApplyReceiver(session, r, rp, reserved, step, peer);
            || e.poisoned || (e, ep) == (r, rp)
            || (ep != rp && if step.RSendReply? || step.RSendNext? then |e.sent| == |r.sent| + 1 else e.sent == r.sent)
  {
  }

  /** Behind an unread answer the receiver has nothing to take and nothing to send. */
  lemma AnsweredIsDone(session: Session, s: State)
    requires Lockstep(session, s) && !s.cp.CIdle? && s.c.taken < |s.r.sent|
    ensures s.r.taken >= |s.c.sent| && !s.rp.RDeciding? && !s.rp.RGotCapability? && !s.rp.RGotSealed?
  {
    QueueHead(s.r.sent, s.c.taken);
    assert s.c.sent[s.r.taken..] == [];
  }

  lemma NothingForSenders(session: Session, s: State)
    requires Lockstep(session, s) && (s.rp.RDeciding? || s.rp.RGotCapability? || s.rp.RGotSealed?)
    ensures s.r.taken >= |s.c.sent|
  {
    assert s.c.sent[s.r.taken..] == [];
  }

  lemma ReadySentIsBehind(session: Session, s: State)
    requires Lockstep(session, s) && !s.cp.CIdle? && s.rp.RReadySent? && s.r.taken < |s.c.sent|
    ensures s.cp.COpened? || s.cp.COfferSent?
  {
    QueueHead(s.c.sent, s.r.taken);
  }

  lemma StillLedger(session: Session, l: Ledger, rp: ReceiverPhase, r: Side)
    requires !r.poisoned && (rp.RIdle? ==> l.held == [])
    ensures ReceiverLedger(session, l, rp, r, rp) == l
  {
  }

  lemma StillReceiver(session: Session, s: State, t: State)
    requires !s.r.poisoned && (s.rp.RIdle? ==> s.rl.held == []) && t.r == s.r && t.rp == s.rp
    requires t.c == s.c && t.cp == s.cp && t.cl == s.cl
    requires t.rl == ReceiverLedger(session, s.rl, s.rp, t.r, t.rp) && t.checked == Checked(s.checked, s.rp, t.rp)
    ensures t == s
  {
    StillLedger(session, s.rl, s.rp, s.r);
  }

  lemma AnsweredMove(s: State, t: State)
    requires t.cp == s.cp && t.c == s.c && s.c.taken < |s.r.sent| && t.r.sent == s.r.sent
    requires s.rp.RIdle? && t.rp.ROpened?
    ensures RankOf(t) < RankOf(s)
  {
  }

  lemma UnansweredMove(s: State, t: State, reserved: bool)
    requires t.cp == s.cp && t.c == s.c && s.c.taken >= |s.r.sent| && RMoves(s.rp, t.rp, reserved) && t.rp != s.rp
    requires !s.cp.CIdle? && (s.rp.RReadySent? ==> s.cp.COpened? || s.cp.COfferSent?) && s.c.taken <= |s.r.sent|
    requires if s.rp.RDeciding? || s.rp.RGotCapability? || s.rp.RGotSealed? then |t.r.sent| == |s.r.sent| + 1
             else t.r.sent == s.r.sent
    ensures RankOf(t) < RankOf(s)
  {
    ReceiverMovesRank(s.rp, t.rp, s.cp, reserved);
  }

  lemma ReceiverDescends(session: Session, s: State, step: ReceiverStep)
    requires Inv(session, s) && Lockstep(session, s) && !s.cp.CIdle?
    requires Calm(session, s, Receiver(step)) && Exchange(Receiver(step)) && !Misreads(s, Receiver(step))
    ensures var t := Apply(session, s, Receiver(step)); t == s || RankOf(t) < RankOf(s)
  {
    var t := Apply(session, s, Receiver(step));
    ExchangeKeepsLockstep(session, s, Receiver(step));
    ReceiverCanTake(session, s, step);
    var reserved := s.rp.RDeciding? && Grant(session, s.rl, s.rp.m).Some?;
    var judged := Judged(session, step, s.r, s.c.sent);
    AppliedReceiver(session, s, step, reserved);
    ReceiverActs(session, s.r, s.rp, reserved, judged, s.c.sent);
    ReceiverMoves(session, s.r, s.rp, reserved, judged, s.c.sent);
    if t.r == s.r && t.rp == s.rp {
      StillReceiver(session, s, t);
    } else {
      MoveKinds(session, s.r, s.rp, reserved, judged, s.c.sent);
      ReceiverMoved(session, s, t, step, reserved);
    }
  }

  lemma ReceiverCanTake(session: Session, s: State, step: ReceiverStep)
    requires Lockstep(session, s) && !Misreads(s, Receiver(step))
    ensures s.rp.RIdle? || s.rp.RDeciding? || s.rp.RGotCapability? || s.rp.RGotSealed? ==>
              step.RReceive? ==> s.r.taken >= |s.c.sent|
  {
    if s.r.taken < |s.c.sent| {
      QueueHead(s.c.sent, s.r.taken);
      SyncedIsNative(s.cp, s.rp, s.c.sent[s.r.taken..], s.r.sent[s.c.taken..]);
    }
    if s.rp.RDeciding? || s.rp.RGotCapability? || s.rp.RGotSealed? {
      NothingForSenders(session, s);
    }
  }

  /** Which steps can change the receiver's phase. */
  lemma MoveKinds(session: Session, r: Side, rp: ReceiverPhase, reserved: bool, step: ReceiverStep, peer: seq<Record>)
    requires RFlags(session.limits, r, rp) && !r.poisoned && !step.RSendApplication? && (step.REnter? ==> rp.RIdle?)
    ensures var (e, ep) := ApplyReceiver(session, r, rp, reserved, step, peer);
            ep != rp && !e.poisoned ==>
              && ((step.RSendReply? || step.RSendNext?) <==> (rp.RDeciding? || rp.RGotCapability? || rp.RGotSealed?))
              && (rp.RIdle? ==> ep.ROpened?) && (!rp.RIdle? && step.RReceive? ==> r.taken < |peer|)
              && (step.REnter? || step.RReceive? || step.RSendReply? || step.RSendNext?)
  {
  }

  lemma ReceiverMoved(session: Session, s: State, t: State, step: ReceiverStep, reserved: bool)
    requires Lockstep(session, s) && !s.cp.CIdle? && t.c == s.c && t.cp == s.cp
    requires RMoves(s.rp, t.rp, reserved) && t.rp != s.rp
    requires if step.RSendReply? || step.RSendNext? then |t.r.sent| == |s.r.sent| + 1 else t.r.sent == s.r.sent
    requires (step.RSendReply? || step.RSendNext?) <==> (s.rp.RDeciding? || s.rp.RGotCapability? || s.rp.RGotSealed?)
    requires (s.rp.RIdle? ==> t.rp.ROpened?) && (!s.rp.RIdle? && step.RReceive? ==> s.r.taken < |s.c.sent|)
    requires step.REnter? || step.RReceive? || step.RSendReply? || step.RSendNext?
    requires step.REnter? ==> s.rp.RIdle?
    ensures RankOf(t) < RankOf(s)
  {
    if s.c.taken < |s.r.sent| {
      AnsweredIsDone(session, s);
      AnsweredMove(s, t);
    } else {
      if s.rp.RReadySent? {
        ReadySentIsBehind(session, s);
      }
      UnansweredMove(s, t, reserved);
    }
  }

  /** Every step of a transfer that succeeds and reads what is meant for it
      changes nothing or brings the transfer nearer to its end. */
  lemma EveryStepDescends(session: Session, s: State, step: Step)
    requires Inv(session, s) && Lockstep(session, s) && !s.cp.CIdle?
    requires Calm(session, s, step) && Exchange(step) && !Misreads(s, step)
    ensures var t := Apply(session, s, step); t == s || RankOf(t) < RankOf(s)
  {
    match step
    case Coordinator(cs) => CoordinatorDescends(session, s, cs);
    case Receiver(rs) => ReceiverDescends(session, s, rs);
  }

  // ----- the turn always changes something -----

  lemma OfferMoves(c: Side, m: Manifest, reserved: bool)
    ensures ApplyOffer(c, m, reserved, true, Delivered).1 != COpened(m)
  {
  }

  lemma SendMoves(c: Side, cp: CoordinatorPhase)
    requires Sending(cp)
    ensures ApplySendNext(c, cp, true, Delivered).1 != cp
  {
  }

  lemma TakeMoves(c: Side, cp: CoordinatorPhase, record: Record)
    ensures CoordinatorTakes(Take(c), cp, record).0.taken == c.taken + 1
  {
  }

  lemma CoordinatorTurnMoves(session: Session, s: State, step: CoordinatorStep)
    requires Inv(session, s) && Lockstep(session, s) && !s.cp.CIdle? && Turn(s) == Coordinator(step)
    ensures Apply(session, s, Coordinator(step)) != s
  {
    var reserved := s.cp.COpened? && Grant(session, s.cl, s.cp.m).Some?;
    AppliedCoordinator(session, s, step, reserved);
    if s.cp.COpened? {
      OfferMoves(s.c, s.cp.m, reserved);
    } else if Sending(s.cp) {
      SendMoves(s.c, s.cp);
    } else {
      CoordinatorReceives(session, s.c, s.cp, reserved, true, s.r.sent);
      TakeMoves(s.c, s.cp, s.r.sent[s.c.taken]);
    }
  }

  /** With the coordinator waiting and nothing to take, the receiver has something to take. */
  lemma SomethingWaits(session: Session, s: State)
    requires Lockstep(session, s) && !s.cp.CIdle? && !s.cp.COpened? && !Sending(s.cp) && s.c.taken >= |s.r.sent|
    ensures s.rp.ROpened? || s.rp.RReady? || s.rp.RImportedSent? || s.rp.RReadySent? ==> s.r.taken < |s.c.sent|
    ensures s.rp.RReadySent? ==> s.cp.COfferSent?
  {
    assert s.r.sent[s.c.taken..] == [];
    assert s.r.taken >= |s.c.sent| ==> s.c.sent[s.r.taken..] == [];
  }

  lemma TakingMoves(r: Side, rp: ReceiverPhase, record: Record, accept: bool)
    ensures ReceiverTakes(Take(r), rp, record, accept).0.taken == r.taken + 1
  {
  }

  lemma ReceiverTurnMoves(session: Session, s: State, step: ReceiverStep)
    requires Inv(session, s) && Lockstep(session, s) && !s.cp.CIdle? && Turn(s) == Receiver(step)
    ensures Apply(session, s, Receiver(step)) != s
  {
    SomethingWaits(session, s);
    var reserved := s.rp.RDeciding? && Grant(session, s.rl, s.rp.m).Some?;
    AppliedReceiver(session, s, step, reserved);
    if step.RReceive? {
      var accept := step.accept && (s.c.sent[s.r.taken].Native? ==> OfSession(session, s.c.sent[s.r.taken].m));
      TakingMoves(s.r, s.rp, s.c.sent[s.r.taken], accept);
    }
  }

  lemma TurnDescends(session: Session, s: State)
    requires Inv(session, s) && Lockstep(session, s) && !s.cp.CIdle?
    ensures RankOf(Apply(session, s, Turn(s))) < RankOf(s)
  {
    TurnIsCalm(session, s);
    EveryStepDescends(session, s, Turn(s));
    match Turn(s)
    case Coordinator(step) => CoordinatorTurnMoves(session, s, step);
    case Receiver(step) => ReceiverTurnMoves(session, s, step);
  }

  // ----- every schedule -----

  /** Every step of the list succeeds, belongs to the transfer and reads what is meant for it. */
  ghost predicate Schedule(session: Session, s: State, more: seq<Step>)
    decreases |more|
  {
    more == [] || (Calm(session, s, more[0]) && Exchange(more[0]) && !Misreads(s, more[0])
                   && Schedule(session, Apply(session, s, more[0]), more[1..]))
  }

  ghost function After(session: Session, s: State, more: seq<Step>): State
    decreases |more|
  {
    if more == [] then s else After(session, Apply(session, s, more[0]), more[1..])
  }

  /** How often a schedule changes the state before the coordinator is idle. */
  ghost function Changes(session: Session, s: State, more: seq<Step>): nat
    decreases |more|
  {
    if more == [] || s.cp.CIdle? then 0
    else
      var t := Apply(session, s, more[0]);
      (if t == s then 0 else 1) + Changes(session, t, more[1..])
  }

  /** Whatever the schedule, only so many of its steps change anything before
      the coordinator is idle again; and until then some step always does. */
  lemma {:induction false} EveryScheduleEnds(session: Session, s: State, more: seq<Step>)
    requires Inv(session, s) && Lockstep(session, s) && Schedule(session, s, more)
    ensures Changes(session, s, more) <= RankOf(s)
    decreases |more|
  {
    if more != [] && !s.cp.CIdle? {
      EveryStepDescends(session, s, more[0]);
      StepKeepsInv(session, s, more[0]);
      ExchangeKeepsLockstep(session, s, more[0]);
      EveryScheduleEnds(session, Apply(session, s, more[0]), more[1..]);
    }
  }

  lemma OneMoreCalmStep(session: Session, steps: seq<Step>, step: Step)
    requires CalmRun(session, steps) && Calm(session, Run(session, steps), step)
    ensures CalmRun(session, steps + [step])
    ensures Run(session, steps + [step]) == Apply(session, Run(session, steps), step)
  {
    assert (steps + [step])[..|steps|] == steps;
  }

  lemma NextTurn(session: Session, steps: seq<Step>) returns (step: Step)
    requires CalmRun(session, steps) && Lockstep(session, Run(session, steps)) && !Run(session, steps).cp.CIdle?
    ensures CalmRun(session, steps + [step]) && Lockstep(session, Run(session, steps + [step]))
    ensures RankOf(Run(session, steps + [step])) < RankOf(Run(session, steps))
  {
    var s := Run(session, steps);
    step := Turn(s);
    EveryRunKeepsInv(session, steps);
    TurnIsCalm(session, s);
    TurnDescends(session, s);
    ExchangeKeepsLockstep(session, s, step);
    OneMoreCalmStep(session, steps, step);
  }

  lemma Regroup(steps: seq<Step>, step: Step, rest: seq<Step>)
    ensures steps + ([step] + rest) == (steps + [step]) + rest
  {
  }

  lemma {:induction false} LockstepCompletes(session: Session, steps: seq<Step>) returns (more: seq<Step>)
    requires CalmRun(session, steps) && Lockstep(session, Run(session, steps))
    ensures CalmRun(session, steps + more) && Lockstep(session, Run(session, steps + more))
    ensures Run(session, steps + more).cp.CIdle?
    decreases RankOf(Run(session, steps))
  {
    if Run(session, steps).cp.CIdle? {
      more := [];
      assert steps + more == steps;
    } else {
      var step := NextTurn(session, steps);
      var rest := LockstepCompletes(session, steps + [step]);
      more := [step] + rest;
      Regroup(steps, step, rest);
    }
  }

  /** Healthy endpoints of a run without failures, with no application record
      under way, are in lockstep. */
  lemma HealthyIsLockstep(session: Session, steps: seq<Step>)
    requires CalmRun(session, steps) && Quiet(Run(session, steps))
    requires !Run(session, steps).c.poisoned && !Run(session, steps).r.poisoned
    ensures Lockstep(session, Run(session, steps))
  {
    HealthyIsInStep(session, steps);
    LockstepIsQuiet(session, Run(session, steps));
  }

  /** An open transfer is not stuck: from every run without failures whose
      endpoints are healthy and that has no application record under way, some
      such continuation brings the coordinator back to idle. */
  lemma TransferCompletes(session: Session, steps: seq<Step>) returns (more: seq<Step>)
    requires CalmRun(session, steps) && Quiet(Run(session, steps))
    requires !Run(session, steps).c.poisoned && !Run(session, steps).r.poisoned
    ensures CalmRun(session, steps + more) && Run(session, steps + more).cp.CIdle? && Quiet(Run(session, steps + more))
    ensures !Run(session, steps + more).c.poisoned && !Run(session, steps + more).r.poisoned
  {
    HealthyIsLockstep(session, steps);
    more := LockstepCompletes(session, steps);
    LockstepIsQuiet(session, Run(session, steps + more));
  }
}
