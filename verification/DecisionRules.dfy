/** What each call of a decision answers, field by field, from how far the
    decision has come. */
module DecisionRules {
  import opened Machine
  import opened Wire
  import opened Negotiation
  import opened Transcript
  import opened Decision

  /** No ACCEPT validated yet, the coordinator's, both, or ended. */
  datatype Stage =
    | Open
    | CoordinatorAgreed(challenge: DecisionChallenge)
    | BothAgreed(challenge: DecisionChallenge)
    | Ended

  ghost predicate AtStage(t: State, stage: Stage) {
    match stage
    case Open => t.acceptedRoles == 0
    case CoordinatorAgreed(challenge) => t.acceptedRoles == 1 && t.challenge == Some(challenge)
    case BothAgreed(challenge) => t.acceptedRoles == 3 && t.challenge == Some(challenge)
    case Ended => t.acceptedRoles == 255
  }

  /** Every run of calls is at exactly one stage. */
  lemma EveryRunHasStage(start: State, calls: seq<Call>) returns (stage: Stage)
    requires Fresh(start)
    ensures AtStage(Run(start, calls), stage)
    ensures forall other :: AtStage(Run(start, calls), other) ==> other == stage
  {
    EveryRunKeepsInv(start, calls);
    var t := Run(start, calls);
    stage := if t.acceptedRoles == 0 then Open
             else if t.acceptedRoles == 1 then CoordinatorAgreed(t.challenge.value)
             else if t.acceptedRoles == 3 then BothAgreed(t.challenge.value)
             else Ended;
  }

  /** The frame carries the transcript's values. */
  predicate Carries(a: AcceptFrame, t: State) {
    && a.nonce == t.nonce && a.selected == t.selected && a.limits == t.limits && a.atomics == t.atomics
    && a.target == t.target && a.digest == t.digest
  }

  predicate FactsCarry(f: AcceptedFacts, t: State) {
    && f.nonce == t.nonce && f.selected == t.selected && f.limits == t.limits && f.atomics == t.atomics
    && f.target == t.target && f.major == t.major && f.minor == t.minor && f.digest == t.digest
  }

  /** The coordinator's ACCEPT comes out exactly before anything was validated. */
  lemma CoordinatorAcceptExactly(start: State, calls: seq<Call>, challenge: DecisionChallenge, stage: Stage)
    requires Fresh(start) && AtStage(Run(start, calls), stage)
    ensures var (after, reply) := Apply(Run(start, calls), CoordinatorAccept(challenge));
            && after == Run(start, calls) && (reply.Accepted? <==> stage == Open)
            && (reply.Accepted? ==>
                  && reply.accept.role == Coordinator && Carries(reply.accept, start)
                  && reply.accept.challenge == challenge)
            && (!reply.Accepted? ==> reply == Failed(DecisionReplayOrOrder))
  {
    EveryRunKeepsInv(start, calls);
  }

  /** The receiver's comes out exactly after the coordinator's was validated, with its challenge. */
  lemma ReceiverAcceptExactly(start: State, calls: seq<Call>, stage: Stage)
    requires Fresh(start) && AtStage(Run(start, calls), stage)
    ensures var (after, reply) := Apply(Run(start, calls), ReceiverAccept);
            && after == Run(start, calls) && (reply.Accepted? <==> stage.CoordinatorAgreed?)
            && (reply.Accepted? ==>
                  && reply.accept.role == Receiver && Carries(reply.accept, start)
                  && reply.accept.challenge == stage.challenge)
            && (!reply.Accepted? ==> reply == Failed(DecisionReplayOrOrder))
  {
    EveryRunKeepsInv(start, calls);
  }

  /** Rejecting ends the decision and succeeds exactly in one's turn. */
  lemma RejectExactly(start: State, calls: seq<Call>, challenge: DecisionChallenge, reason: NonZeroU32, stage: Stage)
    requires Fresh(start) && AtStage(Run(start, calls), stage)
    ensures var (after, reply) := Apply(Run(start, calls), CoordinatorReject(challenge, reason));
            && AtStage(after, Ended)
            && reply == if stage == Open then Rejected(RejectFrame(Coordinator, start.nonce, reason, challenge))
                        else Failed(DecisionReplayOrOrder)
    ensures var (after, reply) := Apply(Run(start, calls), ReceiverReject(reason));
            && AtStage(after, Ended)
            && reply == if stage.CoordinatorAgreed?
                        then Rejected(RejectFrame(Receiver, start.nonce, reason, stage.challenge))
                        else Failed(DecisionReplayOrOrder)
  {
    EveryRunKeepsInv(start, calls);
  }

  /** A REJECT frame is believed exactly in its sender's turn, from that sender,
      under this nonce and, from the receiver, with the challenge; validating one
      always ends the decision. */
  lemma ValidateRejectExactly(start: State, calls: seq<Call>, x: RejectFrame, expected: SenderRole, stage: Stage)
    requires Fresh(start) && AtStage(Run(start, calls), stage)
    ensures var (after, reply) := Apply(Run(start, calls), ValidateReject(x, expected));
            && AtStage(after, Ended)
            && (reply.Reason? <==>
                  && x.role == expected && x.nonce == start.nonce
                  && (if expected == Coordinator then stage == Open
                      else stage.CoordinatorAgreed? && x.challenge == stage.challenge))
            && (reply.Reason? ==> reply.reason == x.reason)
            && (!reply.Reason? ==>
                  reply == if (if expected == Coordinator then stage != Open else !stage.CoordinatorAgreed?)
                           then Failed(DecisionReplayOrOrder)
                           else if !HasNonZero(x.nonce) then Failed(NonceMismatch)
                           else if x.role != expected || x.nonce != start.nonce then Failed(EffectiveMismatch)
                           else Failed(DecisionChallengeMismatch))
  {
    EveryRunKeepsInv(start, calls);
  }

  /** An ACCEPT frame is validated exactly in its sender's turn, from that
      sender, with every value of the transcript and, from the receiver, the
      coordinator's challenge; then the decision moves one stage on, otherwise it ends. */
  lemma ValidateAcceptExactly(start: State, calls: seq<Call>, x: AcceptFrame, expected: SenderRole, stage: Stage)
    requires Fresh(start) && AtStage(Run(start, calls), stage)
    ensures var (after, reply) := Apply(Run(start, calls), ValidateAccept(x, expected));
            && (reply == Validated <==>
                  && x.role == expected && Carries(x, start)
                  && (if expected == Coordinator then stage == Open
                      else stage.CoordinatorAgreed? && x.challenge == stage.challenge))
            && (reply == Validated ==>
                  AtStage(after, if expected == Coordinator then CoordinatorAgreed(x.challenge)
                                 else BothAgreed(x.challenge)))
            && (reply != Validated ==>
                  && AtStage(after, Ended)
                  && reply == if (if expected == Coordinator then stage != Open else !stage.CoordinatorAgreed?)
                              then Failed(DecisionReplayOrOrder)
                              else if expected == Receiver && x.challenge != stage.challenge
                              then Failed(DecisionChallengeMismatch) else Failed(EffectiveMismatch))
  {
    EveryRunKeepsInv(start, calls);
  }

  /** The facts come out exactly once both agreed, carry the transcript's values
      and the challenge, and end the decision. */
  lemma TakeFactsExactly(start: State, calls: seq<Call>, stage: Stage)
    requires Fresh(start) && AtStage(Run(start, calls), stage)
    ensures var (after, reply) := Apply(Run(start, calls), TakeFacts);
            && AtStage(after, Ended) && (reply.Facts? <==> stage.BothAgreed?)
            && (reply.Facts? ==> FactsCarry(reply.facts, start) && reply.facts.challenge == stage.challenge)
            && (!reply.Facts? ==> reply == Failed(DecisionReplayOrOrder))
  {
    EveryRunKeepsInv(start, calls);
  }
}
