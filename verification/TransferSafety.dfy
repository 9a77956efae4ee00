/** What every run of the transaction protocol keeps. */
module TransferSafety {
  import opened Machine
  import opened Limits
  import opened Protocol
  import opened Ledger
  import opened Transfer

  // ----- logs -----

  /** The manifests of the frames of one kind, in order. */
  function Of(t: Tag, log: seq<Record>): seq<Manifest> {
    if log == [] then []
    else
      var last := log[|log| - 1];
      Of(t, log[..|log| - 1]) + if last.Native? && last.tag == t then [last.m] else []
  }

  lemma OfAppend(t: Tag, log: seq<Record>, record: Record)
    ensures Of(t, log + [record]) == Of(t, log) + if record.Native? && record.tag == t then [record.m] else []
  {
    assert (log + [record])[..|log|] == log;
  }

  lemma OneMore(log: seq<Record>, n: nat)
    requires n < |log|
    ensures log[..n + 1] == log[..n] + [log[n]]
  {
  }

  lemma {:induction false} OfPrefix(t: Tag, log: seq<Record>, n: nat)
    requires n <= |log|
    ensures Of(t, log[..n]) <= Of(t, log)
  {
    if n == |log| {
      assert log[..n] == log;
    } else {
      OfPrefix(t, log[..|log| - 1], n);
      assert log[..|log| - 1][..n] == log[..n];
    }
  }

  // ----- flags and ids -----

  ghost predicate CFlags(limits: SessionLimits, c: Side, cp: CoordinatorPhase) {
    && 1 <= c.next <= limits.maxTransactions + 1
    && (!c.poisoned ==> (c.open <==> !cp.CIdle?))
  }

  ghost predicate RFlags(limits: SessionLimits, r: Side, rp: ReceiverPhase) {
    && 1 <= r.next <= limits.maxTransactions + 1
    && (!r.poisoned ==> (r.open <==> !rp.RIdle?))
  }

  lemma CoordinatorKeepsFlags(session: Session, c: Side, cp: CoordinatorPhase, reserved: bool, step: CoordinatorStep,
                              peer: seq<Record>)
    requires CFlags(session.limits, c, cp)
    ensures var (e, ep) := ApplyCoordinator(session, c, cp, reserved, step, peer); CFlags(session.limits, e, ep)
  {
  }

  lemma ReceiverKeepsFlags(session: Session, r: Side, rp: ReceiverPhase, reserved: bool, step: ReceiverStep,
                           peer: seq<Record>)
    requires RFlags(session.limits, r, rp)
    ensures var (e, ep) := ApplyReceiver(session, r, rp, reserved, step, peer); RFlags(session.limits, e, ep)
  {
  }

  // ----- the coordinator's logs -----

  ghost predicate Counted(offers: seq<Manifest>) {
    forall k :: 0 <= k < |offers| ==> offers[k].transferId == k + 1
  }

  /** The offers carry the ids 1, 2, 3, ... */
  ghost predicate COffers(c: Side, cp: CoordinatorPhase, offers: seq<Manifest>) {
    && Counted(offers)
    && |offers| + 1 <= c.next <= |offers| + 2
    && (!c.poisoned ==>
          && c.next == |offers| + 1 + (if cp.COpened? then 1 else 0)
          && (!cp.CIdle? ==> cp.m.transferId == c.next - 1))
  }

  /** Every COMMIT answers one READY, and a batch commits only after its COMMIT. */
  ghost predicate CCommits(c: Side, cp: CoordinatorPhase, commits: seq<Manifest>, readies: seq<Manifest>) {
    if c.poisoned then c.committed <= commits <= readies && |commits| <= |c.committed| + 1
    else c.committed == commits && readies == if cp.CGotReady? then commits + [cp.m] else commits
  }

  ghost predicate Increasing(ms: seq<Manifest>) {
    forall i, j :: 0 <= i < j < |ms| ==> ms[i].transferId < ms[j].transferId
  }

  ghost predicate Below(ms: seq<Manifest>, bound: int) {
    forall i :: 0 <= i < |ms| ==> ms[i].transferId < bound
  }

  /** Committed ids increase and lie below the id of the open transaction. */
  ghost predicate CIds(c: Side, cp: CoordinatorPhase, commits: seq<Manifest>) {
    && Increasing(commits)
    && Below(commits, c.next)
    && (!c.poisoned && !cp.CIdle? ==> Below(commits, c.next - 1))
  }

  ghost predicate CLogs(c: Side, cp: CoordinatorPhase, inbox: seq<Record>) {
    && CIds(c, cp, Of(Commit, c.sent))
    && COffers(c, cp, Of(Offer, c.sent))
    && CCommits(c, cp, Of(Commit, c.sent), Of(ReadyFrame, inbox))
  }

  lemma PoisonKeepsCLogs(c: Side, cp: CoordinatorPhase, inbox: seq<Record>)
    requires CLogs(c, cp, inbox)
    ensures CLogs(Poison(c), CIdle, inbox)
  {
  }

  lemma BeginKeepsCLogs(session: Session, c: Side, cp: CoordinatorPhase, m: Manifest, inbox: seq<Record>)
    requires CFlags(session.limits, c, cp) && CLogs(c, cp, inbox) && !c.poisoned
    requires c.next <= session.limits.maxTransactions ==> m.transferId == c.next
    ensures var (e, ep) := ApplyBegin(session, c, m); CLogs(e, ep, inbox)
  {
  }

  lemma OfferKeepsCOffers(c: Side, m: Manifest, reserved: bool, prepared: bool, out: SendOutcome, offers: seq<Manifest>)
    requires COffers(c, COpened(m), offers) && !c.poisoned
    ensures var (e, ep) := ApplyOffer(c, m, reserved, prepared, out);
            COffers(e, ep, if out.Lost? then offers else offers + [m])
  {
  }

  lemma OfferKeepsCCommits(c: Side, m: Manifest, reserved: bool, prepared: bool, out: SendOutcome,
                           commits: seq<Manifest>, readies: seq<Manifest>)
    requires CCommits(c, COpened(m), commits, readies) && CIds(c, COpened(m), commits) && !c.poisoned
    ensures var (e, ep) := ApplyOffer(c, m, reserved, prepared, out);
            CCommits(e, ep, commits, readies) && CIds(e, ep, commits)
  {
  }

  lemma OfferKeepsCLogs(c: Side, m: Manifest, reserved: bool, prepared: bool, out: SendOutcome, inbox: seq<Record>)
    requires CLogs(c, COpened(m), inbox) && !c.poisoned
    ensures var (e, ep) := ApplyOffer(c, m, reserved, prepared, out); CLogs(e, ep, inbox)
  {
    var record := Native(Offer, LocalStatus(reserved, prepared), m);
    OfAppend(Offer, c.sent, record);
    OfAppend(Commit, c.sent, record);
    OfferKeepsCOffers(c, m, reserved, prepared, out, Of(Offer, c.sent));
    OfferKeepsCCommits(c, m, reserved, prepared, out, Of(Commit, c.sent), Of(ReadyFrame, inbox));
  }

  lemma TakeKeepsCCommits(c: Side, cp: CoordinatorPhase, record: Record, commits: seq<Manifest>, readies: seq<Manifest>)
    requires (c.open <==> !cp.CIdle?) && !c.poisoned && CCommits(c, cp, commits, readies)
    ensures var (e, ep) := CoordinatorTakes(Take(c), cp, record);
            CCommits(e, ep, commits, if record.Native? && record.tag.ReadyFrame? then readies + [record.m] else readies)
  {
  }

  lemma TakeKeepsCOffers(c: Side, cp: CoordinatorPhase, record: Record, offers: seq<Manifest>, commits: seq<Manifest>)
    requires (c.open <==> !cp.CIdle?) && !c.poisoned && COffers(c, cp, offers) && CIds(c, cp, commits)
    ensures var (e, ep) := CoordinatorTakes(Take(c), cp, record);
            e.sent == c.sent && e.taken == c.taken + 1 && COffers(e, ep, offers) && CIds(e, ep, commits)
  {
  }

  lemma TakeKeepsCLogs(c: Side, cp: CoordinatorPhase, record: Record, inbox: seq<Record>)
    requires c.open <==> !cp.CIdle?
    requires CLogs(c, cp, inbox) && !c.poisoned
    ensures var (e, ep) := CoordinatorTakes(Take(c), cp, record);
            e.taken == c.taken + 1 && CLogs(e, ep, inbox + [record])
  {
    OfAppend(ReadyFrame, inbox, record);
    TakeKeepsCOffers(c, cp, record, Of(Offer, c.sent), Of(Commit, c.sent));
    TakeKeepsCCommits(c, cp, record, Of(Commit, c.sent), Of(ReadyFrame, inbox));
  }

  /** Moving between phases in the middle of a transfer does not concern the logs. */
  lemma PhaseKeepsCLogs(c: Side, cp: CoordinatorPhase, after: CoordinatorPhase, inbox: seq<Record>)
    requires CLogs(c, cp, inbox) && !c.poisoned && !cp.CIdle? && !cp.COpened? && !cp.CGotReady?
    requires !after.CIdle? && !after.COpened? && !after.CGotReady? && after.m == cp.m
    ensures CLogs(c, after, inbox)
  {
  }

  lemma SendKeepsCLogs(c: Side, cp: CoordinatorPhase, record: Record, out: SendOutcome, inbox: seq<Record>,
                       after: CoordinatorPhase)
    requires CLogs(c, cp, inbox) && !c.poisoned && !cp.CIdle? && !cp.COpened? && !cp.CGotReady?
    requires !after.CIdle? && !after.COpened? && !after.CGotReady? && after.m == cp.m
    requires record == Frame(Capability, cp.m) || record == Frame(Sealed, cp.m)
    ensures var e := Send(c, record, out);
            if e.poisoned then CLogs(e, CIdle, inbox) else CLogs(e, after, inbox)
  {
    var longer := c.(sent := c.sent + [record]);
    QuietKeepsCLogs(c, cp, record, inbox);
    PoisonKeepsCLogs(c, cp, inbox);
    PoisonKeepsCLogs(longer, cp, inbox);
    PhaseKeepsCLogs(longer, cp, after, inbox);
  }

  lemma CommitKeepsCOffers(c: Side, m: Manifest, out: SendOutcome, offers: seq<Manifest>)
    requires c.open && !c.poisoned && COffers(c, CGotReady(m), offers)
    ensures var (e, ep) := ApplyCommit(c, m, out); COffers(e, ep, offers)
  {
  }

  lemma CommitKeepsCCommits(c: Side, m: Manifest, out: SendOutcome, commits: seq<Manifest>, readies: seq<Manifest>)
    requires c.open && !c.poisoned && CCommits(c, CGotReady(m), commits, readies)
    ensures var (e, ep) := ApplyCommit(c, m, out);
            CCommits(e, ep, if out.Lost? then commits else commits + [m], readies)
  {
  }

  lemma CommitKeepsCIds(c: Side, m: Manifest, out: SendOutcome, commits: seq<Manifest>)
    requires c.open && !c.poisoned && CIds(c, CGotReady(m), commits) && m.transferId == c.next - 1
    ensures var (e, ep) := ApplyCommit(c, m, out); CIds(e, ep, if out.Lost? then commits else commits + [m])
  {
  }

  lemma CommitKeepsCLogs(c: Side, m: Manifest, out: SendOutcome, inbox: seq<Record>)
    requires c.open && CLogs(c, CGotReady(m), inbox) && !c.poisoned
    ensures var (e, ep) := ApplyCommit(c, m, out); CLogs(e, ep, inbox)
  {
    OfAppend(Offer, c.sent, Frame(Commit, m));
    OfAppend(Commit, c.sent, Frame(Commit, m));
    CommitKeepsCOffers(c, m, out, Of(Offer, c.sent));
    CommitKeepsCCommits(c, m, out, Of(Commit, c.sent), Of(ReadyFrame, inbox));
    CommitKeepsCIds(c, m, out, Of(Commit, c.sent));
  }

  lemma CapabilityKeepsCLogs(c: Side, m: Manifest, valid: bool, out: SendOutcome, inbox: seq<Record>)
    requires CLogs(c, CPreflighted(m), inbox) && !c.poisoned
    ensures var (e, ep) := ApplySendNext(c, CPreflighted(m), valid, out); CLogs(e, ep, inbox)
  {
    PoisonKeepsCLogs(c, CPreflighted(m), inbox);
    SendKeepsCLogs(c, CPreflighted(m), Frame(Capability, m), out, inbox, CCapabilitySent(m));
  }

  lemma SealedKeepsCLogs(c: Side, m: Manifest, valid: bool, out: SendOutcome, inbox: seq<Record>)
    requires CLogs(c, CGotImported(m), inbox) && !c.poisoned
    ensures var (e, ep) := ApplySendNext(c, CGotImported(m), valid, out); CLogs(e, ep, inbox)
  {
    PoisonKeepsCLogs(c, CGotImported(m), inbox);
    SendKeepsCLogs(c, CGotImported(m), Frame(Sealed, m), out, inbox, CSealedSent(m));
  }

  lemma NextKeepsCLogs(c: Side, cp: CoordinatorPhase, valid: bool, out: SendOutcome, inbox: seq<Record>)
    requires c.open <==> !cp.CIdle?
    requires CLogs(c, cp, inbox) && !c.poisoned && (cp.CPreflighted? || cp.CGotImported? || cp.CGotReady?)
    ensures var (e, ep) := ApplySendNext(c, cp, valid, out); CLogs(e, ep, inbox)
  {
    match cp
    case CPreflighted(m) => CapabilityKeepsCLogs(c, m, valid, out, inbox);
    case CGotImported(m) => SealedKeepsCLogs(c, m, valid, out, inbox);
    case CGotReady(m) => CommitKeepsCLogs(c, m, out, inbox);
  }

  /** Records that are neither offers nor commits leave the logs as they are. */
  lemma QuietKeepsCLogs(c: Side, cp: CoordinatorPhase, record: Record, inbox: seq<Record>)
    requires CLogs(c, cp, inbox) && !(record.Native? && (record.tag.Offer? || record.tag.Commit?))
    ensures CLogs(c.(sent := c.sent + [record]), cp, inbox)
  {
    OfAppend(Offer, c.sent, record);
    OfAppend(Commit, c.sent, record);
  }

  lemma PayloadKeepsCLogs(c: Side, cp: CoordinatorPhase, payload: seq<byte>, out: SendOutcome, inbox: seq<Record>)
    requires c.open <==> !cp.CIdle?
    requires CLogs(c, cp, inbox) && !c.poisoned
    ensures var e := SendPayload(c, payload, out);
            if e.poisoned then CLogs(e, CIdle, inbox) else CLogs(e, cp, inbox)
  {
    QuietKeepsCLogs(c, cp, Application(payload), inbox);
    PoisonKeepsCLogs(c, cp, inbox);
    PoisonKeepsCLogs(c.(sent := c.sent + [Application(payload)]), cp, inbox);
  }

  lemma TakeNextKeepsCLogs(c: Side, cp: CoordinatorPhase, peer: seq<Record>)
    requires c.open <==> !cp.CIdle?
    requires !c.poisoned && c.taken < |peer| && CLogs(c, cp, peer[..c.taken])
    ensures var (e, ep) := CoordinatorTakes(Take(c), cp, peer[c.taken]);
            e.taken == c.taken + 1 && CLogs(e, ep, peer[..c.taken + 1])
  {
    OneMore(peer, c.taken);
    TakeKeepsCLogs(c, cp, peer[c.taken], peer[..c.taken]);
  }

  lemma CoordinatorReceives(session: Session, c: Side, cp: CoordinatorPhase, reserved: bool, ok: bool,
                            peer: seq<Record>)
    requires !c.poisoned
    ensures ApplyCoordinator(session, c, cp, reserved, CReceive(ok), peer) ==
            if !ok then (Poison(c), CIdle)
            else if c.taken < |peer| then CoordinatorTakes(Take(c), cp, peer[c.taken])
            else (c, cp)
  {
  }

  lemma ReceiveKeepsCLogs(session: Session, c: Side, cp: CoordinatorPhase, reserved: bool, ok: bool, peer: seq<Record>)
    requires CFlags(session.limits, c, cp) && c.taken <= |peer| && CLogs(c, cp, peer[..c.taken]) && !c.poisoned
    ensures var (e, ep) := ApplyCoordinator(session, c, cp, reserved, CReceive(ok), peer);
            e.taken <= |peer| && CLogs(e, ep, peer[..e.taken])
  {
    CoordinatorReceives(session, c, cp, reserved, ok, peer);
    if !ok {
      PoisonKeepsCLogs(c, cp, peer[..c.taken]);
    } else if c.taken < |peer| {
      TakeNextKeepsCLogs(c, cp, peer);
    }
  }

  lemma OfferStepKeepsCLogs(session: Session, c: Side, cp: CoordinatorPhase, reserved: bool,
                            prepared: bool, out: SendOutcome, peer: seq<Record>)
    requires CFlags(session.limits, c, cp) && c.taken <= |peer| && CLogs(c, cp, peer[..c.taken]) && !c.poisoned
    ensures var (e, ep) := ApplyCoordinator(session, c, cp, reserved, CSendOffer(prepared, out), peer);
            e.taken == c.taken && CLogs(e, ep, peer[..c.taken])
  {
    if cp.COpened? {
      OfferKeepsCLogs(c, cp.m, reserved, prepared, out, peer[..c.taken]);
    }
  }

  lemma NextStepKeepsCLogs(session: Session, c: Side, cp: CoordinatorPhase, reserved: bool,
                            valid: bool, out: SendOutcome, peer: seq<Record>)
    requires CFlags(session.limits, c, cp) && c.taken <= |peer| && CLogs(c, cp, peer[..c.taken]) && !c.poisoned
    ensures var (e, ep) := ApplyCoordinator(session, c, cp, reserved, CSendNext(valid, out), peer);
            e.taken == c.taken && CLogs(e, ep, peer[..c.taken])
  {
    if cp.CPreflighted? || cp.CGotImported? || cp.CGotReady? {
      NextKeepsCLogs(c, cp, valid, out, peer[..c.taken]);
    }
  }

  lemma PayloadStepKeepsCLogs(session: Session, c: Side, cp: CoordinatorPhase, reserved: bool,
                            payload: seq<byte>, out: SendOutcome, peer: seq<Record>)
    requires CFlags(session.limits, c, cp) && c.taken <= |peer| && CLogs(c, cp, peer[..c.taken]) && !c.poisoned
    ensures var (e, ep) := ApplyCoordinator(session, c, cp, reserved, CSendApplication(payload, out), peer);
            e.taken == c.taken && CLogs(e, ep, peer[..c.taken])
  {
    PayloadKeepsCLogs(c, cp, payload, out, peer[..c.taken]);
  }

  lemma CoordinatorKeepsLogs(session: Session, c: Side, cp: CoordinatorPhase, reserved: bool, step: CoordinatorStep,
                             peer: seq<Record>)
    requires CFlags(session.limits, c, cp) && c.taken <= |peer| && CLogs(c, cp, peer[..c.taken])
    requires step.CBegin? && c.next <= session.limits.maxTransactions ==> step.m.transferId == c.next
    ensures var (e, ep) := ApplyCoordinator(session, c, cp, reserved, step, peer);
            e.taken <= |peer| && CLogs(e, ep, peer[..e.taken])
  {
    if !c.poisoned {
      match step
      case CBegin(m) => BeginKeepsCLogs(session, c, cp, m, peer[..c.taken]);
      case CReceive(ok) => ReceiveKeepsCLogs(session, c, cp, reserved, ok, peer);
      case CAbandon => PoisonKeepsCLogs(c, cp, peer[..c.taken]);
      case CSendOffer(prepared, out) => OfferStepKeepsCLogs(session, c, cp, reserved, prepared, out, peer);
      case CSendNext(valid, out) => NextStepKeepsCLogs(session, c, cp, reserved, valid, out, peer);
      case CSendApplication(payload, out) => PayloadStepKeepsCLogs(session, c, cp, reserved, payload, out, peer);
    }
  }

  // ----- the receiver's logs -----

  function Id(rp: ReceiverPhase): nat
    requires !rp.RIdle?
  {
    if rp.ROpened? || rp.RReady? then rp.id else rp.m.transferId
  }

  /** The receiver's ids count the offers it has taken. */
  ghost predicate ROffers(r: Side, rp: ReceiverPhase, offers: seq<Manifest>) {
    !r.poisoned ==>
      && r.next == |offers| + 1 + (if rp.ROpened? then 1 else 0)
      && (!rp.RIdle? ==> Id(rp) == r.next - 1)
  }

  /** READY follows the checks, and a batch commits only on its COMMIT. */
  ghost predicate RCommits(r: Side, rp: ReceiverPhase, checked: seq<Manifest>, commits: seq<Manifest>,
                           readies: seq<Manifest>)
  {
    if r.poisoned then
      && r.committed <= commits
      && r.committed <= readies <= checked
      && |readies| <= |r.committed| + 1
    else
      && r.committed == commits
      && readies == (if rp.RReadySent? then r.committed + [rp.m] else r.committed)
      && checked == if rp.RGotSealed? then readies + [rp.m] else readies
  }

  ghost predicate RLogs(r: Side, rp: ReceiverPhase, checked: seq<Manifest>, inbox: seq<Record>) {
    && ROffers(r, rp, Of(Offer, inbox))
    && RCommits(r, rp, checked, Of(Commit, inbox), Of(ReadyFrame, r.sent))
  }

  lemma PoisonKeepsRLogs(r: Side, rp: ReceiverPhase, checked: seq<Manifest>, inbox: seq<Record>)
    requires RLogs(r, rp, checked, inbox)
    ensures RLogs(Poison(r), RIdle, checked, inbox)
  {
  }

  lemma EnterKeepsRLogs(session: Session, r: Side, rp: ReceiverPhase, checked: seq<Manifest>, inbox: seq<Record>)
    requires RFlags(session.limits, r, rp) && RLogs(r, rp, checked, inbox) && !r.poisoned
    ensures var e := Enter(r, session.limits);
            if e.poisoned then RLogs(e, RIdle, checked, inbox) else RLogs(e, ROpened(r.next), checked, inbox)
  {
  }

  lemma TakeKeepsROffers(r: Side, rp: ReceiverPhase, record: Record, accept: bool, offers: seq<Manifest>)
    requires r.open <==> !rp.RIdle?
    requires ROffers(r, rp, offers) && !r.poisoned
    ensures var (e, ep) := ReceiverTakes(Take(r), rp, record, accept);
            ROffers(e, ep, if record.Native? && record.tag.Offer? then offers + [record.m] else offers)
  {
  }

  lemma TakeKeepsRCommits(r: Side, rp: ReceiverPhase, checked: seq<Manifest>, record: Record, accept: bool,
                          commits: seq<Manifest>, readies: seq<Manifest>)
    requires r.open <==> !rp.RIdle?
    requires RCommits(r, rp, checked, commits, readies) && !r.poisoned
    ensures var (e, ep) := ReceiverTakes(Take(r), rp, record, accept);
            e.sent == r.sent
            && RCommits(e, ep, Checked(checked, rp, ep),
                        if record.Native? && record.tag.Commit? then commits + [record.m] else commits, readies)
  {
  }

  lemma TakeKeepsRLogs(r: Side, rp: ReceiverPhase, checked: seq<Manifest>, record: Record,
                       accept: bool, inbox: seq<Record>)
    requires r.open <==> !rp.RIdle?
    requires RLogs(r, rp, checked, inbox) && !r.poisoned
    ensures var (e, ep) := ReceiverTakes(Take(r), rp, record, accept);
            RLogs(e, ep, Checked(checked, rp, ep), inbox + [record])
  {
    OfAppend(Offer, inbox, record);
    OfAppend(Commit, inbox, record);
    TakeKeepsROffers(r, rp, record, accept, Of(Offer, inbox));
    TakeKeepsRCommits(r, rp, checked, record, accept, Of(Commit, inbox), Of(ReadyFrame, r.sent));
  }

  lemma ReplyKeepsRLogs(r: Side, m: Manifest, status: CapacityStatus, reserved: bool, out: SendOutcome,
                        checked: seq<Manifest>, inbox: seq<Record>)
    requires r.open && RLogs(r, RDeciding(m, status), checked, inbox) && !r.poisoned
    ensures var (e, ep) := ApplySendReply(r, m, status, reserved, out);
            !ep.RGotSealed? && RLogs(e, ep, checked, inbox)
  {
    OfAppend(ReadyFrame, r.sent, Native(Reply, Ready, m));
    OfAppend(ReadyFrame, r.sent, Native(Reply, ActiveLimit, m));
  }

  lemma ImportedKeepsRLogs(r: Side, m: Manifest, out: SendOutcome, checked: seq<Manifest>, inbox: seq<Record>)
    requires RLogs(r, RGotCapability(m), checked, inbox) && !r.poisoned
    ensures var e := Send(r, Frame(Imported, m), out);
            if e.poisoned then RLogs(e, RIdle, checked, inbox) else RLogs(e, RImportedSent(m), checked, inbox)
  {
    OfAppend(ReadyFrame, r.sent, Frame(Imported, m));
  }

  lemma ReadyKeepsRLogs(r: Side, m: Manifest, out: SendOutcome, checked: seq<Manifest>, inbox: seq<Record>)
    requires RLogs(r, RGotSealed(m), checked, inbox) && !r.poisoned
    ensures var e := Send(r, Frame(ReadyFrame, m), out);
            if e.poisoned then RLogs(e, RIdle, checked, inbox) else RLogs(e, RReadySent(m), checked, inbox)
  {
    OfAppend(ReadyFrame, r.sent, Frame(ReadyFrame, m));
  }

  lemma NextKeepsRLogs(r: Side, rp: ReceiverPhase, imported: bool, out: SendOutcome, checked: seq<Manifest>,
                       inbox: seq<Record>)
    requires RLogs(r, rp, checked, inbox) && !r.poisoned && (rp.RGotCapability? || rp.RGotSealed?)
    ensures var (e, ep) := ApplyReceiverNext(r, rp, imported, out);
            !ep.RGotSealed? && RLogs(e, ep, checked, inbox)
  {
    PoisonKeepsRLogs(r, rp, checked, inbox);
    if rp.RGotCapability? {
      ImportedKeepsRLogs(r, rp.m, out, checked, inbox);
    } else {
      ReadyKeepsRLogs(r, rp.m, out, checked, inbox);
    }
  }

  lemma PayloadKeepsRLogs(r: Side, rp: ReceiverPhase, payload: seq<byte>, out: SendOutcome, checked: seq<Manifest>,
                          inbox: seq<Record>)
    requires RLogs(r, rp, checked, inbox) && !r.poisoned
    ensures var e := SendPayload(r, payload, out);
            if e.poisoned then RLogs(e, RIdle, checked, inbox) else RLogs(e, rp, checked, inbox)
  {
    OfAppend(ReadyFrame, r.sent, Application(payload));
  }

  lemma TakeNextKeepsRLogs(r: Side, rp: ReceiverPhase, checked: seq<Manifest>, accept: bool, peer: seq<Record>)
    requires r.open <==> !rp.RIdle?
    requires !r.poisoned && r.taken < |peer| && RLogs(r, rp, checked, peer[..r.taken])
    ensures var (e, ep) := ReceiverTakes(Take(r), rp, peer[r.taken], accept);
            e.taken == r.taken + 1 && RLogs(e, ep, Checked(checked, rp, ep), peer[..r.taken + 1])
  {
    OneMore(peer, r.taken);
    TakeKeepsRLogs(r, rp, checked, peer[r.taken], accept, peer[..r.taken]);
  }

  lemma ReceiveKeepsRLogs(session: Session, r: Side, rp: ReceiverPhase, checked: seq<Manifest>, reserved: bool,
                          ok: bool, accept: bool, peer: seq<Record>)
    requires RFlags(session.limits, r, rp) && r.taken <= |peer| && RLogs(r, rp, checked, peer[..r.taken]) && !r.poisoned
    ensures var (e, ep) := ApplyReceiver(session, r, rp, reserved, RReceive(ok, accept), peer);
            e.taken <= |peer| && RLogs(e, ep, Checked(checked, rp, ep), peer[..e.taken])
  {
    if !ok {
      PoisonKeepsRLogs(r, rp, checked, peer[..r.taken]);
    } else if r.taken < |peer| {
      TakeNextKeepsRLogs(r, rp, checked, accept, peer);
    }
  }

  lemma ReplyStepKeepsRLogs(session: Session, r: Side, rp: ReceiverPhase, checked: seq<Manifest>, reserved: bool,
               out: SendOutcome, peer: seq<Record>)
    requires RFlags(session.limits, r, rp) && r.taken <= |peer| && RLogs(r, rp, checked, peer[..r.taken]) && !r.poisoned
    ensures var (e, ep) := ApplyReceiver(session, r, rp, reserved, RSendReply(out), peer);
            e.taken == r.taken && RLogs(e, ep, Checked(checked, rp, ep), peer[..r.taken])
  {
    if rp.RDeciding? {
      ReplyKeepsRLogs(r, rp.m, rp.status, reserved, out, checked, peer[..r.taken]);
    }
  }

  lemma NextStepKeepsRLogs(session: Session, r: Side, rp: ReceiverPhase, checked: seq<Manifest>, reserved: bool,
               imported: bool, out: SendOutcome, peer: seq<Record>)
    requires RFlags(session.limits, r, rp) && r.taken <= |peer| && RLogs(r, rp, checked, peer[..r.taken]) && !r.poisoned
    ensures var (e, ep) := ApplyReceiver(session, r, rp, reserved, RSendNext(imported, out), peer);
            e.taken == r.taken && RLogs(e, ep, Checked(checked, rp, ep), peer[..r.taken])
  {
    if rp.RGotCapability? || rp.RGotSealed? {
      NextKeepsRLogs(r, rp, imported, out, checked, peer[..r.taken]);
    }
  }

  lemma PayloadStepKeepsRLogs(session: Session, r: Side, rp: ReceiverPhase, checked: seq<Manifest>, reserved: bool,
               payload: seq<byte>, out: SendOutcome, peer: seq<Record>)
    requires RFlags(session.limits, r, rp) && r.taken <= |peer| && RLogs(r, rp, checked, peer[..r.taken]) && !r.poisoned
    ensures var (e, ep) := ApplyReceiver(session, r, rp, reserved, RSendApplication(payload, out), peer);
            e.taken == r.taken && RLogs(e, ep, Checked(checked, rp, ep), peer[..r.taken])
  {
    PayloadKeepsRLogs(r, rp, payload, out, checked, peer[..r.taken]);
  }

  lemma ReceiverKeepsLogs(session: Session, r: Side, rp: ReceiverPhase, checked: seq<Manifest>, reserved: bool,
                          step: ReceiverStep, peer: seq<Record>)
    requires RFlags(session.limits, r, rp) && r.taken <= |peer| && RLogs(r, rp, checked, peer[..r.taken])
    ensures var (e, ep) := ApplyReceiver(session, r, rp, reserved, step, peer);
            e.taken <= |peer| && RLogs(e, ep, Checked(checked, rp, ep), peer[..e.taken])
  {
    if !r.poisoned {
      match step
      case REnter => EnterKeepsRLogs(session, r, rp, checked, peer[..r.taken]);
      case RReceive(ok, accept) => ReceiveKeepsRLogs(session, r, rp, checked, reserved, ok, accept, peer);
      case RAbandon => PoisonKeepsRLogs(r, rp, checked, peer[..r.taken]);
      case RSendReply(out) => ReplyStepKeepsRLogs(session, r, rp, checked, reserved, out, peer);
      case RSendNext(imported, out) => NextStepKeepsRLogs(session, r, rp, checked, reserved, imported, out, peer);
      case RSendApplication(payload, out) =>
        PayloadStepKeepsRLogs(session, r, rp, checked, reserved, payload, out, peer);
    }
  }

  lemma CoordinatorAppends(session: Session, c: Side, cp: CoordinatorPhase, reserved: bool, step: CoordinatorStep,
                           peer: seq<Record>)
    ensures var (e, _) := ApplyCoordinator(session, c, cp, reserved, step, peer);
            c.sent <= e.sent && c.committed <= e.committed && (c.poisoned ==> e == c)
  {
  }

  lemma ReceiverAppends(session: Session, r: Side, rp: ReceiverPhase, reserved: bool, step: ReceiverStep,
                        peer: seq<Record>)
    ensures var (e, _) := ApplyReceiver(session, r, rp, reserved, step, peer);
            r.sent <= e.sent && r.committed <= e.committed && (r.poisoned ==> e == r)
  {
  }

  // ----- what the receiver checked, it was sent -----

  predicate Holding(rp: ReceiverPhase) {
    rp.RGotCapability? || rp.RImportedSent? || rp.RGotSealed? || rp.RReadySent?
  }

  ghost predicate RSeen(r: Side, rp: ReceiverPhase, checked: seq<Manifest>, inbox: seq<Record>) {
    && (forall m :: m in checked ==> Frame(Capability, m) in inbox && Frame(Sealed, m) in inbox)
    && (!r.poisoned && Holding(rp) ==> Frame(Capability, rp.m) in inbox)
  }

  lemma TakeKeepsSeen(r: Side, rp: ReceiverPhase, checked: seq<Manifest>, record: Record,
                      accept: bool, inbox: seq<Record>)
    requires RSeen(r, rp, checked, inbox) && !r.poisoned
    ensures var (e, ep) := ReceiverTakes(Take(r), rp, record, accept);
            RSeen(e, ep, Checked(checked, rp, ep), inbox + [record])
  {
  }

  lemma ReceiverKeepsSeen(session: Session, r: Side, rp: ReceiverPhase, checked: seq<Manifest>, reserved: bool,
                          step: ReceiverStep, peer: seq<Record>)
    requires r.taken <= |peer| && RSeen(r, rp, checked, peer[..r.taken])
    ensures var (e, ep) := ApplyReceiver(session, r, rp, reserved, step, peer);
            e.taken <= |peer| && RSeen(e, ep, Checked(checked, rp, ep), peer[..e.taken])
  {
    if !r.poisoned && step.RReceive? && step.ok && r.taken < |peer| {
      TakeKeepsSeen(r, rp, checked, peer[r.taken], step.accept, peer[..r.taken]);
      assert peer[..r.taken + 1] == peer[..r.taken] + [peer[r.taken]];
    }
  }

  // ----- lease charges -----

  /** Charges are held exactly from the offer to the end of the transaction. */
  ghost predicate CCharges(session: Session, c: Side, cp: CoordinatorPhase, l: Ledger) {
    && Balanced(l, session.limits)
    && (c.poisoned || cp.CIdle? || cp.COpened? || (cp.COfferSent? && cp.status.ActiveLimit?) ==> l.held == [])
    && (!c.poisoned && !cp.CIdle? && !cp.COpened? && (cp.COfferSent? ==> !cp.status.ActiveLimit?) ==>
          l.held == Lengths(cp.m))
  }

  ghost predicate RCharges(session: Session, r: Side, rp: ReceiverPhase, l: Ledger) {
    && Balanced(l, session.limits)
    && (r.poisoned || rp.RIdle? || rp.ROpened? || rp.RDeciding? ==> l.held == [])
  }

  // ----- how phases may follow one another -----

  ghost predicate CMoves(cp: CoordinatorPhase, ep: CoordinatorPhase, reserved: bool) {
    || ep == cp
    || (cp.CIdle? && ep.COpened?)
    || (cp.COpened? && ep.COfferSent? && ep.m == cp.m && (ep.status.ActiveLimit? <==> !reserved))
    || (cp.COfferSent? && cp.status.Ready? && ep == CPreflighted(cp.m))
    || (cp.CPreflighted? && ep == CCapabilitySent(cp.m))
    || (cp.CCapabilitySent? && ep == CGotImported(cp.m))
    || (cp.CGotImported? && ep == CSealedSent(cp.m))
    || (cp.CSealedSent? && ep == CGotReady(cp.m))
    || (ep.CIdle? && (cp.COfferSent? || cp.CGotReady?))
  }

  /** A coordinator that stays unpoisoned leaves a transaction only by a
      declined preflight or by committing its batch. */
  lemma CoordinatorMoves(session: Session, c: Side, cp: CoordinatorPhase, reserved: bool, step: CoordinatorStep,
                         peer: seq<Record>)
    requires CFlags(session.limits, c, cp)
    ensures var (e, ep) := ApplyCoordinator(session, c, cp, reserved, step, peer);
            && (!e.poisoned ==> CMoves(cp, ep, reserved))
            && e.committed == if !e.poisoned && cp.CGotReady? && ep.CIdle? then c.committed + [cp.m] else c.committed
  {
  }

  ghost predicate RMoves(rp: ReceiverPhase, ep: ReceiverPhase, reserved: bool) {
    || ep == rp
    || (rp.RIdle? && ep.ROpened?)
    || (rp.ROpened? && ep.RDeciding?)
    || (rp.RDeciding? && ep.RReady? && rp.status.Ready? && reserved)
    || (rp.RReady? && ep.RGotCapability?)
    || (rp.RGotCapability? && ep == RImportedSent(rp.m))
    || (rp.RImportedSent? && ep == RGotSealed(rp.m))
    || (rp.RGotSealed? && ep == RReadySent(rp.m))
    || (ep.RIdle? && (rp.RDeciding? || rp.RReadySent?))
  }

  lemma ReceiverMoves(session: Session, r: Side, rp: ReceiverPhase, reserved: bool, step: ReceiverStep,
                      peer: seq<Record>)
    requires RFlags(session.limits, r, rp)
    ensures var (e, ep) := ApplyReceiver(session, r, rp, reserved, step, peer);
            && (!e.poisoned ==> RMoves(rp, ep, reserved))
            && e.committed == if !e.poisoned && rp.RReadySent? && ep.RIdle? then r.committed + [rp.m] else r.committed
  {
  }

  lemma ChargesFollowCoordinator(session: Session, l: Ledger, c: Side, cp: CoordinatorPhase, reserved: bool, e: Side,
                                 ep: CoordinatorPhase)
    requires CCharges(session, c, cp, l) && (!e.poisoned ==> !c.poisoned && CMoves(cp, ep, reserved))
    requires cp.COpened? ==> (reserved <==> Grant(session, l, cp.m).Some?)
    ensures CCharges(session, e, ep, CoordinatorLedger(session, l, cp, e, ep))
  {
    ReleaseKeepsBalance(l, session.limits);
    KeepKeepsBalance(l, session.limits);
    if cp.COpened? {
      ReserveAllKeepsBalance(l, session.limits, Lengths(cp.m));
    }
  }

  lemma ChargesFollowReceiver(session: Session, l: Ledger, r: Side, rp: ReceiverPhase, reserved: bool, e: Side,
                              ep: ReceiverPhase)
    requires RCharges(session, r, rp, l) && (!e.poisoned ==> !r.poisoned && RMoves(rp, ep, reserved))
    ensures RCharges(session, e, ep, ReceiverLedger(session, l, rp, e, ep))
  {
    ReleaseKeepsBalance(l, session.limits);
    KeepKeepsBalance(l, session.limits);
    if rp.RDeciding? {
      ReserveAllKeepsBalance(l, session.limits, Lengths(rp.m));
    }
  }
}
