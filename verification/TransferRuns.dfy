/** Theorems about every run of the transaction protocol. */
module TransferRuns {
  import opened Ledger
  import opened Transfer
  import opened TransferSafety

  ghost predicate CInv(session: Session, c: Side, cp: CoordinatorPhase, peer: seq<Record>) {
    CFlags(session.limits, c, cp) && c.taken <= |peer| && CLogs(c, cp, peer[..c.taken])
  }

  ghost predicate RInv(session: Session, r: Side, rp: ReceiverPhase, checked: seq<Manifest>, peer: seq<Record>) {
    && RFlags(session.limits, r, rp) && r.taken <= |peer|
    && RLogs(r, rp, checked, peer[..r.taken]) && RSeen(r, rp, checked, peer[..r.taken])
  }

  ghost predicate Inv(session: Session, s: State) {
    && CInv(session, s.c, s.cp, s.r.sent)
    && RInv(session, s.r, s.rp, s.checked, s.c.sent)
    && CCharges(session, s.c, s.cp, s.cl)
    && RCharges(session, s.r, s.rp, s.rl)
  }

  lemma PeerAppendKeepsC(session: Session, c: Side, cp: CoordinatorPhase, peer: seq<Record>, longer: seq<Record>)
    requires CInv(session, c, cp, peer) && peer <= longer
    ensures CInv(session, c, cp, longer)
  {
    assert longer[..c.taken] == peer[..c.taken];
  }

  lemma PeerAppendKeepsR(session: Session, r: Side, rp: ReceiverPhase, checked: seq<Manifest>, peer: seq<Record>,
                         longer: seq<Record>)
    requires RInv(session, r, rp, checked, peer) && peer <= longer
    ensures RInv(session, r, rp, checked, longer)
  {
    assert longer[..r.taken] == peer[..r.taken];
  }

  lemma CoordinatorStepKeepsC(session: Session, c: Side, cp: CoordinatorPhase, reserved: bool, step: CoordinatorStep,
                              peer: seq<Record>)
    requires CInv(session, c, cp, peer) && !Refused(session, c, step)
    ensures var (e, ep) := ApplyCoordinator(session, c, cp, reserved, step, peer); CInv(session, e, ep, peer)
  {
    CoordinatorKeepsFlags(session, c, cp, reserved, step, peer);
    CoordinatorKeepsLogs(session, c, cp, reserved, step, peer);
  }

  lemma ReceiverStepKeepsR(session: Session, r: Side, rp: ReceiverPhase, checked: seq<Manifest>, reserved: bool,
                           step: ReceiverStep, peer: seq<Record>)
    requires RInv(session, r, rp, checked, peer)
    ensures var (e, ep) := ApplyReceiver(session, r, rp, reserved, step, peer);
            RInv(session, e, ep, Checked(checked, rp, ep), peer)
  {
    ReceiverKeepsFlags(session, r, rp, reserved, step, peer);
    ReceiverKeepsLogs(session, r, rp, checked, reserved, step, peer);
    ReceiverKeepsSeen(session, r, rp, checked, reserved, step, peer);
  }

  lemma CoordinatorStepKeepsInv(session: Session, s: State, step: CoordinatorStep)
    requires Inv(session, s)
    ensures Inv(session, Apply(session, s, Coordinator(step)))
  {
    if !Refused(session, s.c, step) {
      var reserved := s.cp.COpened? && Grant(session, s.cl, s.cp.m).Some?;
      var (c, cp) := ApplyCoordinator(session, s.c, s.cp, reserved, step, s.r.sent);
      CoordinatorStepKeepsC(session, s.c, s.cp, reserved, step, s.r.sent);
      CoordinatorAppends(session, s.c, s.cp, reserved, step, s.r.sent);
      CoordinatorMoves(session, s.c, s.cp, reserved, step, s.r.sent);
      PeerAppendKeepsR(session, s.r, s.rp, s.checked, s.c.sent, c.sent);
      ChargesFollowCoordinator(session, s.cl, s.c, s.cp, reserved, c, cp);
    }
  }

  lemma ReceiverStepKeepsInv(session: Session, s: State, step: ReceiverStep)
    requires Inv(session, s)
    ensures Inv(session, Apply(session, s, Receiver(step)))
  {
    var reserved := s.rp.RDeciding? && Grant(session, s.rl, s.rp.m).Some?;
    var judged := Judged(session, step, s.r, s.c.sent);
    var (r, rp) := ApplyReceiver(session, s.r, s.rp, reserved, judged, s.c.sent);
    ReceiverStepKeepsR(session, s.r, s.rp, s.checked, reserved, judged, s.c.sent);
    ReceiverAppends(session, s.r, s.rp, reserved, judged, s.c.sent);
    ReceiverMoves(session, s.r, s.rp, reserved, judged, s.c.sent);
    PeerAppendKeepsC(session, s.c, s.cp, s.r.sent, r.sent);
    ChargesFollowReceiver(session, s.rl, s.r, s.rp, reserved, r, rp);
  }

  lemma StepKeepsInv(session: Session, s: State, step: Step)
    requires Inv(session, s)
    ensures Inv(session, Apply(session, s, step))
  {
    match step
    case Coordinator(cs) => CoordinatorStepKeepsInv(session, s, cs);
    case Receiver(rs) => ReceiverStepKeepsInv(session, s, rs);
    case DropCoordinator(i) => DropKeepsBalance(s.cl, session.limits, i);
    case DropReceiver(i) => DropKeepsBalance(s.rl, session.limits, i);
  }

  lemma {:induction false} EveryRunKeepsInv(session: Session, steps: seq<Step>)
    ensures Inv(session, Run(session, steps))
  {
    if steps == [] {
      assert FRESH.sent[..0] == [];
    } else {
      EveryRunKeepsInv(session, steps[..|steps| - 1]);
      StepKeepsInv(session, Run(session, steps[..|steps| - 1]), steps[|steps| - 1]);
    }
  }

  // ----- who may commit what, and when -----

  lemma {:induction false} OfIsSent(t: Tag, log: seq<Record>, m: Manifest)
    requires m in Of(t, log)
    ensures exists status :: Native(t, status, m) in log
  {
    var last := log[|log| - 1];
    if last.Native? && last.tag == t && last.m == m {
      assert Native(t, last.status, m) in log;
    } else {
      OfIsSent(t, log[..|log| - 1], m);
      var status :| Native(t, status, m) in log[..|log| - 1];
      assert Native(t, status, m) in log;
    }
  }

  /** In every run the committed batches of both endpoints are prefixes of
      the COMMITs sent, those of the READYs sent, and those of the checks passed;
      neither endpoint is more than one batch ahead of the other. */
  lemma CommitChain(session: Session, steps: seq<Step>)
    ensures var s := Run(session, steps);
            && s.c.committed <= Of(Commit, s.c.sent) && s.r.committed <= Of(Commit, s.c.sent)
            && Of(Commit, s.c.sent) <= Of(ReadyFrame, s.r.sent) <= s.checked
            && |s.c.committed| <= |s.r.committed| + 1 && |s.r.committed| <= |s.c.committed| + 1
  {
    EveryRunKeepsInv(session, steps);
    var s := Run(session, steps);
    OfPrefix(Commit, s.c.sent, s.r.taken);
    OfPrefix(ReadyFrame, s.r.sent, s.c.taken);
  }

  /** The receiver commits a manifest only after the coordinator sent its COMMIT. */
  lemma ReceiverCommitsAfterCommit(session: Session, steps: seq<Step>, m: Manifest)
    requires m in Run(session, steps).r.committed
    ensures exists status :: Native(Commit, status, m) in Run(session, steps).c.sent
  {
    CommitChain(session, steps);
    OfIsSent(Commit, Run(session, steps).c.sent, m);
  }

  /** The coordinator commits, and even sends COMMIT, only after the receiver
      sent READY for the same manifest, having imported it and passed the seal check. */
  lemma CoordinatorCommitsAfterReady(session: Session, steps: seq<Step>, m: Manifest)
    requires m in Of(Commit, Run(session, steps).c.sent) || m in Run(session, steps).c.committed
    ensures var s := Run(session, steps);
            && m in s.checked && (exists status :: Native(ReadyFrame, status, m) in s.r.sent)
            && Frame(Capability, m) in s.c.sent && Frame(Sealed, m) in s.c.sent
  {
    CommitChain(session, steps);
    EveryRunKeepsInv(session, steps);
    var s := Run(session, steps);
    OfIsSent(ReadyFrame, s.r.sent, m);
    assert Frame(Capability, m) in s.c.sent[..s.r.taken];
    assert Frame(Sealed, m) in s.c.sent[..s.r.taken];
  }

  // ----- transaction ids -----

  /** Once the receiver has taken everything sent, two idle unpoisoned
      endpoints agree on the next id and on every committed batch. */
  lemma IdleEndpointsAgree(session: Session, steps: seq<Step>)
    requires var s := Run(session, steps);
             && !s.c.poisoned && !s.r.poisoned && s.cp.CIdle? && s.rp.RIdle? && s.r.taken == |s.c.sent|
    ensures var s := Run(session, steps); s.c.next == s.r.next && s.c.committed == s.r.committed
  {
    EveryRunKeepsInv(session, steps);
    var s := Run(session, steps);
    assert s.c.sent[..s.r.taken] == s.c.sent;
  }

  /** Ids are handed out as 1, 2, 3, ..., committed ids strictly increase, and
      none passes the negotiated maximum. */
  lemma IdsAreOrderly(session: Session, steps: seq<Step>)
    ensures var s := Run(session, steps);
            && Counted(Of(Offer, s.c.sent)) && |Of(Offer, s.c.sent)| <= session.limits.maxTransactions
            && Increasing(s.c.committed) && Increasing(s.r.committed)
            && Below(Of(Commit, s.c.sent), session.limits.maxTransactions + 1)
            && s.c.next <= session.limits.maxTransactions + 1 && s.r.next <= session.limits.maxTransactions + 1
  {
    EveryRunKeepsInv(session, steps);
    CommitChain(session, steps);
    var s := Run(session, steps);
    IncreasingPrefix(s.c.committed, Of(Commit, s.c.sent));
    IncreasingPrefix(s.r.committed, Of(Commit, s.c.sent));
  }

  lemma IncreasingPrefix(a: seq<Manifest>, b: seq<Manifest>)
    requires a <= b && Increasing(b)
    ensures Increasing(a)
  {
    forall i, j | 0 <= i < j < |a| ensures a[i].transferId < a[j].transferId {
      assert a[i] == b[i] && a[j] == b[j];
    }
  }

  // ----- leaving a transaction -----

  /** However a coordinator leaves a transaction, it is poisoned with nothing
      committed, or declined with nothing charged, or it commits that batch and
      keeps exactly that batch's charges. */
  lemma CoordinatorLeaves(session: Session, steps: seq<Step>, step: CoordinatorStep)
    requires !Run(session, steps).cp.CIdle?
    ensures var s := Run(session, steps);
            var t := Apply(session, s, Coordinator(step));
            t.cp.CIdle? ==>
              || (t.c.poisoned && t.c.committed == s.c.committed && t.cl.held == [] && t.cl.active == s.cl.active)
              || (!t.c.poisoned && s.cp.COfferSent? && t.c.committed == s.c.committed
                  && t.cl.held == [] && t.cl.active == s.cl.active)
              || (!t.c.poisoned && s.cp.CGotReady? && t.c.committed == s.c.committed + [s.cp.m]
                  && t.cl.active == s.cl.active + Lengths(s.cp.m))
  {
    EveryRunKeepsInv(session, steps);
    var s := Run(session, steps);
    if !Refused(session, s.c, step) {
      var reserved := s.cp.COpened? && Grant(session, s.cl, s.cp.m).Some?;
      CoordinatorMoves(session, s.c, s.cp, reserved, step, s.r.sent);
      CoordinatorAppends(session, s.c, s.cp, reserved, step, s.r.sent);
    }
  }

  /** Before READY is answered the receiver's charges never move: a declined
      preflight leaves its ledger exactly as it was. */
  lemma DeclineLeavesLedger(session: Session, steps: seq<Step>, step: ReceiverStep)
    requires var rp := Run(session, steps).rp; rp.ROpened? || rp.RDeciding?
    ensures var s := Run(session, steps);
            var t := Apply(session, s, Receiver(step));
            !t.rp.RReady? ==> t.rl == s.rl && t.r.committed == s.r.committed
  {
    EveryRunKeepsInv(session, steps);
    var s := Run(session, steps);
    var reserved := s.rp.RDeciding? && Grant(session, s.rl, s.rp.m).Some?;
    var judged := Judged(session, step, s.r, s.c.sent);
    var (r, rp) := ApplyReceiver(session, s.r, s.rp, reserved, judged, s.c.sent);
    ReceiverMoves(session, s.r, s.rp, reserved, judged, s.c.sent);
    UnchargedStays(session, s.rl, s.rp, r, rp, reserved);
  }

  lemma UnchargedStays(session: Session, l: Ledger, rp: ReceiverPhase, e: Side, ep: ReceiverPhase, reserved: bool)
    requires l.held == [] && (rp.ROpened? || rp.RDeciding?) && (!e.poisoned ==> RMoves(rp, ep, reserved))
    ensures e.poisoned || !ep.RReady? ==> ReceiverLedger(session, l, rp, e, ep) == l
  {
  }

  /** A poisoned endpoint sends, takes and commits nothing ever again. */
  lemma {:induction false} PoisonIsForever(session: Session, steps: seq<Step>, more: seq<Step>)
    ensures var s, t := Run(session, steps), Run(session, steps + more);
            (s.c.poisoned ==> t.c == s.c) && (s.r.poisoned ==> t.r == s.r)
  {
    if more == [] {
      assert steps + more == steps;
    } else {
      var n := |more| - 1;
      PoisonIsForever(session, steps, more[..n]);
      assert (steps + more)[..|steps + more| - 1] == steps + more[..n];
    }
  }

  /** At every moment of every run both ledgers' counters equal the charges
      held and active, within the limits; idle endpoints hold none. */
  lemma ChargesAreConserved(session: Session, steps: seq<Step>)
    ensures var s := Run(session, steps);
            && Balanced(s.cl, session.limits) && Balanced(s.rl, session.limits)
            && (s.c.poisoned || s.cp.CIdle? ==> s.cl.held == [])
            && (s.r.poisoned || s.rp.RIdle? ==> s.rl.held == [])
  {
    EveryRunKeepsInv(session, steps);
  }
}
