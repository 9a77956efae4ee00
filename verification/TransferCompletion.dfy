/** Without failures a transfer that both sides have room for commits on both
    sides, whatever the schedule. */
module TransferCompletion {
  import opened Protocol
  import opened Ledger
  import opened Transfer
  import opened TransferSafety
  import opened TransferRuns
  import opened TransferProgress
  import opened TransferLiveness

  /** The open transfer of `m` has not been declined, and whoever has still to reserve has room. */
  ghost predicate Winning(session: Session, s: State, m: Manifest) {
    match s.cp
    case CIdle => false
    case COpened(x) => x == m && Grant(session, s.cl, m).Some? && Grant(session, s.rl, m).Some?
    case COfferSent(x, status) =>
      && x == m && status.Ready?
      && if s.c.taken < |s.r.sent| then s.rp.RReady? else Grant(session, s.rl, m).Some?
    case _ => s.cp.m == m
  }

  // ----- the coordinator's turn -----

  lemma OfferWins(session: Session, s: State, m: Manifest)
    requires Inv(session, s) && Lockstep(session, s) && Winning(session, s, m) && s.cp.COpened?
    ensures var t := Apply(session, s, Coordinator(CSendOffer(true, Delivered)));
            Winning(session, t, m) && t.c.committed == s.c.committed
  {
    var t := Apply(session, s, Coordinator(CSendOffer(true, Delivered)));
    assert s.r.sent[s.c.taken..] == [];
    assert t.cp == COfferSent(m, Ready);
  }

  /** Where a calm send takes the coordinator. */
  lemma SentNext(c: Side, cp: CoordinatorPhase)
    requires !c.poisoned && c.open && Sending(cp)
    ensures var (e, ep) := ApplySendNext(c, cp, true, Delivered);
            && ep == (match cp
                      case CPreflighted(m) => CCapabilitySent(m)
                      case CGotImported(m) => CSealedSent(m)
                      case _ => CIdle)
            && e.committed == if cp.CGotReady? then c.committed + [cp.m] else c.committed
  {
  }

  lemma NextSends(session: Session, s: State)
    requires CFlags(session.limits, s.c, s.cp) && !s.c.poisoned && Sending(s.cp)
    ensures var t := Apply(session, s, Coordinator(CSendNext(true, Delivered)));
            (t.c, t.cp) == ApplySendNext(s.c, s.cp, true, Delivered) && t.rp == s.rp
  {
    AppliedCoordinator(session, s, CSendNext(true, Delivered), false);
  }

  /** COMMIT ends the transfer, anything before it goes on with it. */
  lemma NextWins(session: Session, s: State, m: Manifest)
    requires Inv(session, s) && Lockstep(session, s) && Winning(session, s, m) && Sending(s.cp)
    ensures var t := Apply(session, s, Coordinator(CSendNext(true, Delivered)));
            if s.cp.CGotReady?
            then t.cp.CIdle? && t.c.committed == s.c.committed + [m] && t.rp == s.rp == RReadySent(m)
            else Winning(session, t, m) && t.c.committed == s.c.committed
  {
    NextSends(session, s);
    SentNext(s.c, s.cp);
  }

  /** The reply at the head of the queue says yes. */
  lemma ReplyIsYes(session: Session, s: State, m: Manifest)
    requires Lockstep(session, s) && Winning(session, s, m) && s.cp.COfferSent? && s.c.taken < |s.r.sent|
    ensures s.r.sent[s.c.taken] == Native(Reply, Ready, m)
  {
    QueueHead(s.r.sent, s.c.taken);
  }

  lemma LaterIsAnswered(session: Session, s: State, m: Manifest)
    requires Lockstep(session, s) && Winning(session, s, m) && s.c.taken < |s.r.sent|
    requires s.cp.CCapabilitySent? || s.cp.CSealedSent?
    ensures s.r.sent[s.c.taken] == Frame(if s.cp.CCapabilitySent? then Imported else ReadyFrame, m)
  {
    QueueHead(s.r.sent, s.c.taken);
  }

  lemma TakeWins(session: Session, s: State, m: Manifest)
    requires Inv(session, s) && Lockstep(session, s) && Winning(session, s, m)
    requires !s.cp.COpened? && !Sending(s.cp) && s.c.taken < |s.r.sent|
    ensures var t := Apply(session, s, Coordinator(CReceive(true)));
            Winning(session, t, m) && t.c.committed == s.c.committed
  {
    AppliedCoordinator(session, s, CReceive(true), false);
    if s.cp.COfferSent? {
      ReplyIsYes(session, s, m);
    } else {
      LaterIsAnswered(session, s, m);
    }
    TookAnswer(s.c, s.cp, s.r.sent[s.c.taken]);
  }

  lemma TookAnswer(c: Side, cp: CoordinatorPhase, record: Record)
    requires cp.COfferSent? || cp.CCapabilitySent? || cp.CSealedSent?
    requires cp.COfferSent? ==> cp.status.Ready? && record == Native(Reply, Ready, cp.m)
    requires cp.CCapabilitySent? ==> record == Frame(Imported, cp.m)
    requires cp.CSealedSent? ==> record == Frame(ReadyFrame, cp.m)
    ensures var (e, ep) := CoordinatorTakes(Take(c), cp, record);
            && e.committed == c.committed
            && ep == (match cp case COfferSent(m, _) => CPreflighted(m) case CCapabilitySent(m) => CGotImported(m)
                      case _ => CGotReady(cp.m))
  {
  }

  // ----- the receiver's turn -----

  /** Reservations of the batch before move to its mappings, so the room left is the same. */
  lemma RoomStays(session: Session, l: Ledger, rp: ReceiverPhase, e: Side, ep: ReceiverPhase, reserved: bool,
                  m: Manifest)
    requires Balanced(l, session.limits) && !e.poisoned && RMoves(rp, ep, reserved)
    requires rp.RIdle? || rp.ROpened? || (rp.RReadySent? && ep.RIdle?)
    requires ep.RIdle? && !rp.RReadySent? ==> l.held == []
    ensures Grant(session, ReceiverLedger(session, l, rp, e, ep), m).Some? <==> Grant(session, l, m).Some?
  {
    var after := ReceiverLedger(session, l, rp, e, ep);
    KeepKeepsBalance(l, session.limits);
    ReserveAllExactly(l, session.limits, Lengths(m));
    ReserveAllExactly(Keep(l), session.limits, Lengths(m));
    assert after == l || after == Keep(l) || (l.held == [] && after == ReleaseHeld(l));
  }

  lemma ReplyWins(session: Session, s: State, m: Manifest)
    requires Inv(session, s) && Lockstep(session, s) && Winning(session, s, m) && s.cp.COfferSent?
    requires s.rp.RDeciding? && s.c.taken >= |s.r.sent|
    ensures var t := Apply(session, s, Receiver(RSendReply(Delivered))); Winning(session, t, m) && t.c == s.c
  {
    assert s.r.sent[s.c.taken..] == [];
    assert s.rp == RDeciding(m, Ready);
  }

  /** Before it decides, the receiver only takes the COMMIT of the batch before and the offer. */
  lemma WaitWins(session: Session, s: State, step: ReceiverStep, m: Manifest)
    requires Inv(session, s) && Lockstep(session, s) && Winning(session, s, m) && (s.cp.COpened? || s.cp.COfferSent?)
    requires s.c.taken >= |s.r.sent| && (s.rp.RIdle? || s.rp.ROpened? || s.rp.RReadySent?)
    requires Calm(session, s, Receiver(step)) && Exchange(Receiver(step)) && !Misreads(s, Receiver(step))
    ensures var t := Apply(session, s, Receiver(step)); Winning(session, t, m) && t.c == s.c
  {
    var t := Apply(session, s, Receiver(step));
    var judged := Judged(session, step, s.r, s.c.sent);
    ExchangeKeepsLockstep(session, s, Receiver(step));
    AppliedReceiver(session, s, step, false);
    ReceiverCanTake(session, s, step);
    ReceiverActs(session, s.r, s.rp, false, judged, s.c.sent);
    ReceiverMoves(session, s.r, s.rp, false, judged, s.c.sent);
    if t.r == s.r && t.rp == s.rp {
      StillReceiver(session, s, t);
    } else {
      MoveKinds(session, s.r, s.rp, false, judged, s.c.sent);
      RoomStays(session, s.rl, s.rp, t.r, t.rp, false, m);
    }
  }

  /** Once the coordinator is past the offer, the receiver's steps cannot change its mind. */
  lemma LateReceiverWins(session: Session, s: State, step: ReceiverStep, m: Manifest)
    requires Winning(session, s, m) && !s.cp.COpened? && !s.cp.COfferSent?
    ensures var t := Apply(session, s, Receiver(step)); Winning(session, t, m) && t.c == s.c
  {
  }

  /** With the offer unanswered, the receiver has not yet said yes. */
  lemma Unanswered(session: Session, s: State, m: Manifest)
    requires Lockstep(session, s) && Winning(session, s, m) && (s.cp.COpened? || s.cp.COfferSent?)
    requires s.c.taken >= |s.r.sent|
    ensures s.rp.RIdle? || s.rp.ROpened? || s.rp.RReadySent? || (s.rp.RDeciding? && s.cp.COfferSent?)
  {
    assert s.r.sent[s.c.taken..] == [];
  }

  /** Having said yes, the receiver waits. */
  lemma AnsweredWaits(session: Session, s: State, step: ReceiverStep, m: Manifest)
    requires Inv(session, s) && Lockstep(session, s) && Winning(session, s, m) && s.cp.COfferSent?
    requires s.c.taken < |s.r.sent| && Calm(session, s, Receiver(step)) && Exchange(Receiver(step))
    ensures Apply(session, s, Receiver(step)) == s
  {
    AnsweredIsDone(session, s);
    AppliedReceiver(session, s, step, false);
    StillReceiver(session, s, Apply(session, s, Receiver(step)));
  }

  lemma DecidingWins(session: Session, s: State, step: ReceiverStep, m: Manifest)
    requires Inv(session, s) && Lockstep(session, s) && Winning(session, s, m) && s.cp.COfferSent?
    requires s.rp.RDeciding? && s.c.taken >= |s.r.sent|
    requires Calm(session, s, Receiver(step)) && Exchange(Receiver(step))
    ensures var t := Apply(session, s, Receiver(step)); Winning(session, t, m) && t.c == s.c
  {
    if step.RSendReply? {
      ReplyWins(session, s, m);
    } else {
      NothingForSenders(session, s);
      AppliedReceiver(session, s, step, Grant(session, s.rl, s.rp.m).Some?);
      StillReceiver(session, s, Apply(session, s, Receiver(step)));
    }
  }

  lemma ReceiverWins(session: Session, s: State, step: ReceiverStep, m: Manifest)
    requires Inv(session, s) && Lockstep(session, s) && Winning(session, s, m)
    requires Calm(session, s, Receiver(step)) && Exchange(Receiver(step)) && !Misreads(s, Receiver(step))
    ensures var t := Apply(session, s, Receiver(step)); Winning(session, t, m) && t.c == s.c
  {
    if !s.cp.COpened? && !s.cp.COfferSent? {
      LateReceiverWins(session, s, step, m);
    } else if s.c.taken < |s.r.sent| {
      if s.cp.COpened? {
        SilentWhileSending(session, s);
      }
      AnsweredWaits(session, s, step, m);
    } else {
      Unanswered(session, s, m);
      if s.rp.RDeciding? {
        DecidingWins(session, s, step, m);
      } else {
        WaitWins(session, s, step, m);
      }
    }
  }

  /** The coordinator committed `m` and the receiver is about to learn of it. */
  ghost predicate JustCommitted(s: State, t: State, m: Manifest) {
    t.cp.CIdle? && t.c.committed == s.c.committed + [m] && t.rp == RReadySent(m)
  }

  predicate WellPrepared(step: Step) {
    step.Coordinator? && step.cs.CSendOffer? ==> step.cs.prepared
  }

  lemma CoordinatorWins(session: Session, s: State, step: CoordinatorStep, m: Manifest)
    requires Inv(session, s) && Lockstep(session, s) && Winning(session, s, m)
    requires Calm(session, s, Coordinator(step)) && Exchange(Coordinator(step)) && WellPrepared(Coordinator(step))
    ensures var t := Apply(session, s, Coordinator(step));
            (Winning(session, t, m) && t.c.committed == s.c.committed) || JustCommitted(s, t, m)
  {
    if s.cp.COpened? || Sending(s.cp) {
      SilentWhileSending(session, s);
    }
    if s.cp.COpened? && step.CSendOffer? {
      OfferWins(session, s, m);
    } else if Sending(s.cp) && step.CSendNext? {
      NextWins(session, s, m);
    } else if step.CReceive? && s.c.taken < |s.r.sent| {
      TakeWins(session, s, m);
    } else {
      AppliedCoordinator(session, s, step, s.cp.COpened? && Grant(session, s.cl, s.cp.m).Some?);
      StillCoordinator(session, s, Apply(session, s, Coordinator(step)));
    }
  }

  /** No step of the transfer can make a winning transfer lose. */
  lemma EveryStepWins(session: Session, s: State, step: Step, m: Manifest)
    requires Inv(session, s) && Lockstep(session, s) && Winning(session, s, m)
    requires Calm(session, s, step) && Exchange(step) && !Misreads(s, step) && WellPrepared(step)
    ensures var t := Apply(session, s, step);
            (Winning(session, t, m) && t.c.committed == s.c.committed) || JustCommitted(s, t, m)
  {
    match step
    case Coordinator(cs) => CoordinatorWins(session, s, cs, m);
    case Receiver(rs) => ReceiverWins(session, s, rs, m);
  }

  // ----- every schedule -----

  lemma IdleStays(session: Session, s: State, step: Step)
    requires Inv(session, s) && Lockstep(session, s) && s.cp.CIdle? && Calm(session, s, step) && Exchange(step)
    ensures var t := Apply(session, s, step); t.cp.CIdle? && t.c.committed == s.c.committed
  {
    match step
    case Coordinator(cs) =>
      assert s.r.sent[s.c.taken..] == [];
      AppliedCoordinator(session, s, cs, false);
    case Receiver(rs) => AppliedReceiver(session, s, rs, s.rp.RDeciding? && Grant(session, s.rl, s.rp.m).Some?);
  }

  lemma {:induction false} IdleStaysAfter(session: Session, s: State, more: seq<Step>)
    requires Inv(session, s) && Lockstep(session, s) && s.cp.CIdle? && Schedule(session, s, more)
    ensures var t := After(session, s, more); t.cp.CIdle? && t.c.committed == s.c.committed
    decreases |more|
  {
    if more != [] {
      IdleStays(session, s, more[0]);
      StepKeepsInv(session, s, more[0]);
      ExchangeKeepsLockstep(session, s, more[0]);
      IdleStaysAfter(session, Apply(session, s, more[0]), more[1..]);
    }
  }

  /** Whatever the schedule, a winning transfer is still winning or has been
      committed: it is never declined and never lost. */
  lemma {:induction false} EveryScheduleWins(session: Session, s: State, more: seq<Step>, m: Manifest)
    requires Inv(session, s) && Lockstep(session, s) && Winning(session, s, m)
    requires Schedule(session, s, more) && forall i :: 0 <= i < |more| ==> WellPrepared(more[i])
    ensures var t := After(session, s, more);
            || (Winning(session, t, m) && t.c.committed == s.c.committed)
            || (t.cp.CIdle? && t.c.committed == s.c.committed + [m])
    decreases |more|
  {
    if more != [] {
      var t := Apply(session, s, more[0]);
      EveryStepWins(session, s, more[0], m);
      StepKeepsInv(session, s, more[0]);
      ExchangeKeepsLockstep(session, s, more[0]);
      if Winning(session, t, m) {
        EveryScheduleWins(session, t, more[1..], m);
      } else {
        IdleStaysAfter(session, t, more[1..]);
      }
    }
  }

  /** The same from a run: a transfer both sides have room for, with no
      application record under way, is open or committed after every schedule of
      its steps, and so many of them change something before it is committed. */
  lemma EveryScheduleCommits(session: Session, steps: seq<Step>, more: seq<Step>, m: Manifest)
    requires CalmRun(session, steps) && Quiet(Run(session, steps))
    requires !Run(session, steps).c.poisoned && !Run(session, steps).r.poisoned && Run(session, steps).cp == COpened(m)
    requires Grant(session, Run(session, steps).cl, m).Some? && Grant(session, Run(session, steps).rl, m).Some?
    requires Schedule(session, Run(session, steps), more) && forall i :: 0 <= i < |more| ==> WellPrepared(more[i])
    ensures var s := Run(session, steps);
            var t := After(session, s, more);
            && Changes(session, s, more) <= RankOf(s)
            && (t.cp.CIdle? ==> t.c.committed == s.c.committed + [m])
            && (!t.cp.CIdle? ==> t.cp.m == m && t.c.committed == s.c.committed)
  {
    EveryRunKeepsInv(session, steps);
    HealthyIsLockstep(session, steps);
    EveryScheduleEnds(session, Run(session, steps), more);
    EveryScheduleWins(session, Run(session, steps), more, m);
  }

  // ----- to the commit -----

  lemma WinningTurn(session: Session, steps: seq<Step>, m: Manifest) returns (step: Step)
    requires CalmRun(session, steps)
    requires Lockstep(session, Run(session, steps)) && Winning(session, Run(session, steps), m)
    ensures CalmRun(session, steps + [step]) && Lockstep(session, Run(session, steps + [step]))
    ensures var s, t := Run(session, steps), Run(session, steps + [step]);
            && RankOf(t) < RankOf(s)
            && ((Winning(session, t, m) && t.c.committed == s.c.committed) || JustCommitted(s, t, m))
  {
    var s := Run(session, steps);
    step := Turn(s);
    EveryRunKeepsInv(session, steps);
    TurnIsCalm(session, s);
    TurnDescends(session, s);
    EveryStepWins(session, s, step, m);
    ExchangeKeepsLockstep(session, s, step);
    OneMoreCalmStep(session, steps, step);
  }

  /** Turn by turn, a winning transfer reaches the coordinator's commit. */
  lemma {:induction false} WinningCommits(session: Session, steps: seq<Step>, m: Manifest) returns (more: seq<Step>)
    requires CalmRun(session, steps)
    requires Lockstep(session, Run(session, steps)) && Winning(session, Run(session, steps), m)
    ensures CalmRun(session, steps + more) && Lockstep(session, Run(session, steps + more))
    ensures JustCommitted(Run(session, steps), Run(session, steps + more), m)
    decreases RankOf(Run(session, steps))
  {
    var step := WinningTurn(session, steps, m);
    if JustCommitted(Run(session, steps), Run(session, steps + [step]), m) {
      more := [step];
    } else {
      var rest := WinningCommits(session, steps + [step], m);
      more := [step] + rest;
      Regroup(steps, step, rest);
    }
  }

  /** The receiver takes the COMMIT the coordinator has sent. */
  lemma TakesCommit(session: Session, s: State)
    requires RFlags(session.limits, s.r, s.rp) && Lockstep(session, s) && s.cp.CIdle? && s.rp.RReadySent?
    ensures var t := Apply(session, s, Receiver(RReceive(true, true)));
            t.c == s.c && t.cp == s.cp && t.rp.RIdle? && t.r.taken == |s.c.sent|
  {
    QueueHead(s.c.sent, s.r.taken);
    assert |s.c.sent[s.r.taken..]| == 1;
    ReceiveTakesHead(session, s);
    assert s.c.sent[s.r.taken] == Frame(Commit, s.rp.m);
  }

  lemma CommitArrives(session: Session, steps: seq<Step>)
    requires CalmRun(session, steps) && Lockstep(session, Run(session, steps))
    requires Run(session, steps).cp.CIdle? && Run(session, steps).rp.RReadySent?
    ensures var more := steps + [Receiver(RReceive(true, true))];
            var s, t := Run(session, steps), Run(session, more);
            && CalmRun(session, more) && Lockstep(session, t) && t.cp.CIdle? && t.rp.RIdle? && t.c == s.c
            && t.r.taken == |t.c.sent|
  {
    var step := Receiver(RReceive(true, true));
    var s := Run(session, steps);
    EveryRunKeepsInv(session, steps);
    TakesCommit(session, s);
    QueueHead(s.c.sent, s.r.taken);
    SyncedIsNative(s.cp, s.rp, s.c.sent[s.r.taken..], s.r.sent[s.c.taken..]);
    ExchangeKeepsLockstep(session, s, step);
    OneMoreCalmStep(session, steps, step);
  }

  /** Both endpoints are idle and healthy with no application record under way. */
  ghost predicate Settled(s: State) {
    Quiet(s) && s.cp.CIdle? && s.rp.RIdle? && !s.c.poisoned && !s.r.poisoned
  }

  /** `m` is the next batch of both endpoints. */
  ghost predicate BothCommit(s: State, t: State, m: Manifest) {
    t.c.committed == t.r.committed == s.c.committed + [m]
  }

  /** A transfer begun without failures, with no application record under way,
      commits on both sides when both have room for it: some such continuation
      ends with both endpoints idle and the batch last on both lists, which are
      the same list. */
  lemma TransferCommits(session: Session, steps: seq<Step>, m: Manifest) returns (more: seq<Step>)
    requires CalmRun(session, steps) && Quiet(Run(session, steps))
    requires !Run(session, steps).c.poisoned && !Run(session, steps).r.poisoned && Run(session, steps).cp == COpened(m)
    requires Grant(session, Run(session, steps).cl, m).Some? && Grant(session, Run(session, steps).rl, m).Some?
    ensures CalmRun(session, steps + more) && Settled(Run(session, steps + more))
    ensures BothCommit(Run(session, steps), Run(session, steps + more), m)
  {
    HealthyIsLockstep(session, steps);
    var reach := WinningCommits(session, steps, m);
    CommitArrives(session, steps + reach);
    more := reach + [Receiver(RReceive(true, true))];
    InTwoParts(steps, reach, [Receiver(RReceive(true, true))]);
    LockstepIsQuiet(session, Run(session, steps + more));
    IdleEndpointsAgree(session, steps + more);
  }

  // ----- from between transfers -----

  /** The coordinator may offer `m` next, and both ledgers have room for it. */
  ghost predicate Offerable(session: Session, s: State, m: Manifest) {
    && s.c.next <= session.limits.maxTransactions && Admissible(session, s.c.next, m)
    && Grant(session, s.cl, m).Some? && Grant(session, s.rl, m).Some?
  }

  lemma BeginOpens(session: Session, s: State, m: Manifest)
    requires Inv(session, s) && !s.c.poisoned && s.cp.CIdle?
    requires s.c.next <= session.limits.maxTransactions && Admissible(session, s.c.next, m)
    ensures var t := Apply(session, s, Coordinator(CBegin(m)));
            && !t.c.poisoned && t.cp == COpened(m)
            && t.c.committed == s.c.committed && t.c.sent == s.c.sent && t.c.taken == s.c.taken
            && t.r == s.r && t.rp == s.rp && t.cl == s.cl && t.rl == s.rl
  {
  }

  /** Whoever is idle with an id left can begin a transfer. */
  lemma TransferBegins(session: Session, steps: seq<Step>, m: Manifest)
    requires CalmRun(session, steps) && !Run(session, steps).c.poisoned && !Run(session, steps).r.poisoned
    requires Run(session, steps).cp.CIdle? && Run(session, steps).c.next <= session.limits.maxTransactions
    requires Admissible(session, Run(session, steps).c.next, m)
    ensures var begun := steps + [Coordinator(CBegin(m))];
            var s, t := Run(session, steps), Run(session, begun);
            && CalmRun(session, begun) && !t.c.poisoned && t.cp == COpened(m)
            && t.c.committed == s.c.committed && t.c.sent == s.c.sent && t.c.taken == s.c.taken
            && t.r == s.r && t.rp == s.rp && t.cl == s.cl && t.rl == s.rl
  {
    EveryRunKeepsInv(session, steps);
    BeginOpens(session, Run(session, steps), m);
    OneMoreCalmStep(session, steps, Coordinator(CBegin(m)));
  }

  function Undelivered(s: State): nat
    requires s.r.taken <= |s.c.sent| && s.c.taken <= |s.r.sent|
  {
    |s.c.sent| - s.r.taken + |s.r.sent| - s.c.taken
  }

  /** Only records were delivered between the two states. */
  ghost predicate OnlyDelivered(s: State, t: State) {
    && t.cp == s.cp && t.rp == s.rp && t.cl == s.cl && t.rl == s.rl
    && t.c.committed == s.c.committed && t.r.committed == s.r.committed && t.c.next == s.c.next
  }

  lemma CoordinatorDelivers(session: Session, s: State)
    requires Inv(session, s) && InStep(session, s) && s.cp.CIdle? && s.rp.RIdle? && s.c.taken < |s.r.sent|
    ensures var step := Coordinator(CReceive(true));
            var t := Apply(session, s, step);
            && Calm(session, s, step) && InStep(session, t) && OnlyDelivered(s, t)
            && t.c.sent == s.c.sent && t.r == s.r && t.c.taken == s.c.taken + 1
  {
    var step := Coordinator(CReceive(true));
    PendingHead(s.r.sent, s.c.taken);
    assert Pending(s.r.sent, s.c.taken) == [];
    CalmStep(session, s, step);
    AppliedCoordinator(session, s, CReceive(true), false);
    IdleKeepsLedger(session, s, CReceive(true));
  }

  lemma IdleKeepsLedger(session: Session, s: State, step: CoordinatorStep)
    requires CCharges(session, s.c, s.cp, s.cl) && s.cp.CIdle? && !step.CBegin?
    requires var t := Apply(session, s, Coordinator(step)); !t.c.poisoned && t.cp.CIdle?
    ensures Apply(session, s, Coordinator(step)).cl == s.cl
  {
  }

  lemma ReceiverDelivers(session: Session, s: State)
    requires Inv(session, s) && InStep(session, s) && s.cp.CIdle? && s.rp.RIdle? && s.r.taken < |s.c.sent|
    ensures var step := Receiver(RReceive(true, true));
            var t := Apply(session, s, step);
            && Calm(session, s, step) && InStep(session, t) && OnlyDelivered(s, t)
            && t.c == s.c && t.r.sent == s.r.sent && t.r.taken == s.r.taken + 1
  {
    var step := Receiver(RReceive(true, true));
    PendingHead(s.c.sent, s.r.taken);
    assert Pending(s.c.sent, s.r.taken) == [];
    CalmStep(session, s, step);
    ReceiveTakesHead(session, s);
    IdleReceiverKeepsLedger(session, s, RReceive(true, true));
  }

  lemma IdleReceiverKeepsLedger(session: Session, s: State, step: ReceiverStep)
    requires RCharges(session, s.r, s.rp, s.rl) && s.rp.RIdle?
    requires var t := Apply(session, s, Receiver(step)); !t.r.poisoned && t.rp.RIdle?
    ensures Apply(session, s, Receiver(step)).rl == s.rl
  {
  }

  /** Between transfers whatever is under way is an application record, which an idle receive takes. */
  lemma IdleDelivers(session: Session, s: State) returns (step: Step)
    requires Inv(session, s) && InStep(session, s) && s.cp.CIdle? && s.rp.RIdle? && Undelivered(s) > 0
    ensures Calm(session, s, step)
    ensures var t := Apply(session, s, step);
            InStep(session, t) && OnlyDelivered(s, t) && Undelivered(t) < Undelivered(s)
  {
    if s.c.taken < |s.r.sent| {
      step := Coordinator(CReceive(true));
      CoordinatorDelivers(session, s);
    } else {
      step := Receiver(RReceive(true, true));
      ReceiverDelivers(session, s);
    }
  }

  /** Between transfers a session can always be brought to where nothing is under way. */
  lemma {:induction false} IdleSettles(session: Session, steps: seq<Step>) returns (more: seq<Step>)
    requires CalmRun(session, steps) && InStep(session, Run(session, steps))
    requires Run(session, steps).cp.CIdle? && Run(session, steps).rp.RIdle?
    ensures CalmRun(session, steps + more) && Settled(Run(session, steps + more))
    ensures OnlyDelivered(Run(session, steps), Run(session, steps + more))
    decreases Undelivered(Run(session, steps))
  {
    var s := Run(session, steps);
    if Undelivered(s) == 0 {
      more := [];
      assert steps + more == steps;
    } else {
      EveryRunKeepsInv(session, steps);
      var step := IdleDelivers(session, s);
      OneMoreCalmStep(session, steps, step);
      var rest := IdleSettles(session, steps + [step]);
      more := [step] + rest;
      Regroup(steps, step, rest);
    }
  }

  lemma HealthySettles(session: Session, steps: seq<Step>) returns (more: seq<Step>)
    requires CalmRun(session, steps) && !Run(session, steps).c.poisoned && !Run(session, steps).r.poisoned
    requires Run(session, steps).cp.CIdle? && Run(session, steps).rp.RIdle?
    ensures CalmRun(session, steps + more) && Settled(Run(session, steps + more))
    ensures OnlyDelivered(Run(session, steps), Run(session, steps + more))
  {
    HealthyIsInStep(session, steps);
    more := IdleSettles(session, steps);
  }

  lemma SettledCommits(session: Session, steps: seq<Step>, m: Manifest) returns (more: seq<Step>)
    requires CalmRun(session, steps) && Settled(Run(session, steps)) && Offerable(session, Run(session, steps), m)
    ensures CalmRun(session, steps + more) && Settled(Run(session, steps + more))
    ensures BothCommit(Run(session, steps), Run(session, steps + more), m)
  {
    TransferBegins(session, steps, m);
    var begun := Coordinator(CBegin(m));
    var commit := TransferCommits(session, steps + [begun], m);
    more := [begun] + commit;
    Regroup(steps, begun, commit);
  }

  /** Between transfers of a healthy session without failures, whatever control
      records are under way, a batch both sides have room for can be committed on
      both sides. */
  lemma SessionCanCommit(session: Session, steps: seq<Step>, m: Manifest) returns (more: seq<Step>)
    requires CalmRun(session, steps) && !Run(session, steps).c.poisoned && !Run(session, steps).r.poisoned
    requires Run(session, steps).cp.CIdle? && Run(session, steps).rp.RIdle?
    requires Offerable(session, Run(session, steps), m)
    ensures CalmRun(session, steps + more) && Settled(Run(session, steps + more))
    ensures BothCommit(Run(session, steps), Run(session, steps + more), m)
  {
    var settle := HealthySettles(session, steps);
    var commit := DeliveredCommits(session, steps, steps + settle, m);
    more := settle + commit;
    InTwoParts(steps, settle, commit);
  }

  lemma InTwoParts(steps: seq<Step>, first: seq<Step>, second: seq<Step>)
    ensures steps + (first + second) == steps + first + second
  {
  }

  lemma DeliveredCommits(session: Session, steps: seq<Step>, settled: seq<Step>, m: Manifest) returns (more: seq<Step>)
    requires CalmRun(session, settled) && Settled(Run(session, settled))
    requires Offerable(session, Run(session, steps), m) && OnlyDelivered(Run(session, steps), Run(session, settled))
    ensures CalmRun(session, settled + more) && Settled(Run(session, settled + more))
    ensures BothCommit(Run(session, steps), Run(session, settled + more), m)
  {
    StillOfferable(session, Run(session, steps), Run(session, settled), m);
    more := SettledCommits(session, settled, m);
  }

  lemma StillOfferable(session: Session, s: State, t: State, m: Manifest)
    requires Offerable(session, s, m) && OnlyDelivered(s, t)
    ensures Offerable(session, t, m)
  {
  }
}
