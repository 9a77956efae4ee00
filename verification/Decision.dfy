/** The ordered, one-shot, two-party decision on a negotiated transcript. */
module Decision {
  import opened Machine
  import opened Wire
  import opened Limits
  import opened Negotiation
  import opened Transcript

  datatype Call =
    | CoordinatorAccept(challenge: DecisionChallenge)
    | ReceiverAccept
    | CoordinatorReject(challenge: DecisionChallenge, reason: NonZeroU32)
    | ReceiverReject(reason: NonZeroU32)
    | ValidateReject(reject: RejectFrame, expected: SenderRole)
    | ValidateAccept(accept: AcceptFrame, expected: SenderRole)
    | TakeFacts

  datatype Reply =
    | Accepted(accept: AcceptFrame)
    | Rejected(reject: RejectFrame)
    | Reason(reason: NonZeroU32)
    | Validated
    | Facts(facts: AcceptedFacts)
    | Failed(error: WireError)

  function AcceptOf(t: State, role: SenderRole, challenge: DecisionChallenge): AcceptFrame {
    AcceptFrame(role, t.nonce, t.selected, t.limits, t.atomics, t.target, t.digest, challenge)
  }

  function FactsOf(t: State, challenge: DecisionChallenge): AcceptedFacts {
    AcceptedFacts(t.nonce, t.selected, t.limits, t.atomics, t.target, t.major, t.minor, t.digest, challenge)
  }

  function Stop(t: State): State {
    t.(acceptedRoles := TERMINAL)
  }

  function ApplyTakeFacts(t: State): (State, Reply) {
    if t.acceptedRoles != 3 then (Stop(t), Failed(DecisionReplayOrOrder))
    else match t.challenge
         case None => (t, Failed(DecisionReplayOrOrder))
         case Some(challenge) => (Stop(t), Facts(FactsOf(t, challenge)))
  }

  function ApplyReceiverAccept(t: State): (State, Reply) {
    if t.acceptedRoles != 1 then (t, Failed(DecisionReplayOrOrder))
    else match t.challenge
         case None => (t, Failed(DecisionReplayOrOrder))
         case Some(challenge) => (t, Accepted(AcceptOf(t, Receiver, challenge)))
  }

  function ApplyCoordinatorReject(t: State, challenge: DecisionChallenge, reason: NonZeroU32): (State, Reply) {
    if t.acceptedRoles != 0 then (Stop(t), Failed(DecisionReplayOrOrder))
    else
      var reject := RejectFrame(Coordinator, t.nonce, reason, challenge);
      match RejectFault(reject)
      case Some(e) => (t, Failed(e))
      case None => (Stop(t), Rejected(reject))
  }

  function ApplyReceiverReject(t: State, reason: NonZeroU32): (State, Reply) {
    if t.acceptedRoles != 1 then (Stop(t), Failed(DecisionReplayOrOrder))
    else match t.challenge
         case None => (t, Failed(DecisionReplayOrOrder))
         case Some(challenge) =>
           var reject := RejectFrame(Receiver, t.nonce, reason, challenge);
           match RejectFault(reject)
           case Some(e) => (t, Failed(e))
           case None => (Stop(t), Rejected(reject))
  }

  function ApplyValidateReject(t: State, reject: RejectFrame, expected: SenderRole): (State, Reply) {
    if t.acceptedRoles != (if expected.Coordinator? then 0 else 1) then (Stop(t), Failed(DecisionReplayOrOrder))
    else if RejectFault(reject).Some? then (Stop(t), Failed(RejectFault(reject).value))
    else if reject.role != expected || reject.nonce != t.nonce then (Stop(t), Failed(EffectiveMismatch))
    else if expected == Receiver && t.challenge.None? then (Stop(t), Failed(DecisionReplayOrOrder))
    else if expected == Receiver && reject.challenge != t.challenge.value
    then (Stop(t), Failed(DecisionChallengeMismatch))
    else (Stop(t), Reason(reject.reason))
  }

  /** The roles byte is a two-bit set, or all ones once terminal. */
  function ApplyValidateAccept(t: State, accept: AcceptFrame, expected: SenderRole): (State, Reply) {
    if t.major != WIRE_MAJOR || t.minor != WIRE_MINOR then (t, Failed(BadVersion))
    else if t.acceptedRoles == TERMINAL
            || (expected == Receiver && t.acceptedRoles != 1)
            || (expected == Coordinator && t.acceptedRoles % 2 == 1)
    then (Stop(t), Failed(DecisionReplayOrOrder))
    else if expected == Coordinator then
      if accept != AcceptOf(t, Coordinator, accept.challenge) then (Stop(t), Failed(EffectiveMismatch))
      else (t.(challenge := Some(accept.challenge), acceptedRoles := t.acceptedRoles + 1), Validated)
    else
      match t.challenge
      case None => (t, Failed(DecisionReplayOrOrder))
      case Some(challenge) =>
        if accept.challenge != challenge then (Stop(t), Failed(DecisionChallengeMismatch))
        else if accept != AcceptOf(t, Receiver, challenge) then (Stop(t), Failed(EffectiveMismatch))
        else (t.(acceptedRoles := 3), Validated)
  }

  function Apply(t: State, call: Call): (State, Reply) {
    match call
    case CoordinatorAccept(challenge) =>
      if t.acceptedRoles != 0 then (t, Failed(DecisionReplayOrOrder))
      else (t, Accepted(AcceptOf(t, Coordinator, challenge)))
    case ReceiverAccept => ApplyReceiverAccept(t)
    case CoordinatorReject(challenge, reason) => ApplyCoordinatorReject(t, challenge, reason)
    case ReceiverReject(reason) => ApplyReceiverReject(t, reason)
    case ValidateReject(reject, expected) => ApplyValidateReject(t, reject, expected)
    case ValidateAccept(accept, expected) => ApplyValidateAccept(t, accept, expected)
    case TakeFacts => ApplyTakeFacts(t)
  }

  function Run(t: State, calls: seq<Call>): State {
    if calls == [] then t else Apply(Run(t, calls[..|calls| - 1]), calls[|calls| - 1]).0
  }

  /** The reply to call `i` of a run. */
  function ReplyAt(t: State, calls: seq<Call>, i: nat): Reply
    requires i < |calls|
  {
    Apply(Run(t, calls[..i]), calls[i]).1
  }

  ghost predicate Fresh(t: State) {
    && t.acceptedRoles == 0 && t.challenge.None? && !IsZero(t.nonce)
    && t.major == WIRE_MAJOR && t.minor == WIRE_MINOR
  }

  /** The decided facts never change, and a challenge is held exactly from the coordinator's ACCEPT on. */
  ghost predicate Inv(start: State, t: State) {
    && t == start.(challenge := t.challenge, acceptedRoles := t.acceptedRoles)
    && t.acceptedRoles in {0, 1, 3, TERMINAL}
    && (t.acceptedRoles == 0 ==> t.challenge.None?)
    && (t.acceptedRoles in {1, 3} ==> t.challenge.Some?)
  }

  lemma CallKeepsInv(start: State, t: State, call: Call)
    requires Fresh(start) && Inv(start, t)
    ensures Inv(start, Apply(t, call).0)
    ensures t.challenge.Some? ==> Apply(t, call).0.challenge == t.challenge
    ensures t.acceptedRoles == TERMINAL ==> Apply(t, call).0.acceptedRoles == TERMINAL
  {
  }

  lemma {:induction false} EveryRunKeepsInv(start: State, calls: seq<Call>)
    requires Fresh(start)
    ensures Inv(start, Run(start, calls))
  {
    if calls != [] {
      EveryRunKeepsInv(start, calls[..|calls| - 1]);
      CallKeepsInv(start, Run(start, calls[..|calls| - 1]), calls[|calls| - 1]);
    }
  }

  lemma RunUnfolds(start: State, calls: seq<Call>, k: nat)
    requires k < |calls|
    ensures Run(start, calls[..k + 1]) == Apply(Run(start, calls[..k]), calls[k]).0
  {
    assert calls[..k + 1][..k] == calls[..k];
  }

  /** What one more call of a run cannot undo. */
  lemma OneMoreCall(start: State, calls: seq<Call>, k: nat)
    requires Fresh(start) && k < |calls|
    ensures Run(start, calls[..k]).challenge.Some? ==>
              Run(start, calls[..k + 1]).challenge == Run(start, calls[..k]).challenge
    ensures Run(start, calls[..k]).acceptedRoles == TERMINAL ==>
              Run(start, calls[..k + 1]).acceptedRoles == TERMINAL
  {
    EveryRunKeepsInv(start, calls[..k]);
    CallKeepsInv(start, Run(start, calls[..k]), calls[k]);
    RunUnfolds(start, calls, k);
  }

  lemma {:induction false} ChallengeIsStable(start: State, calls: seq<Call>, i: nat, j: nat)
    requires Fresh(start) && i <= j <= |calls| && Run(start, calls[..i]).challenge.Some?
    ensures Run(start, calls[..j]).challenge == Run(start, calls[..i]).challenge
  {
    if i < j {
      ChallengeIsStable(start, calls, i, j - 1);
      OneMoreCall(start, calls, j - 1);
    }
  }

  // ----- failures are terminal -----

  predicate Borrows(call: Call) {
    call.CoordinatorAccept? || call.ReceiverAccept?
  }

  /** A failed call ends the decision exactly when it may change the transcript:
      every error branch of those calls that would not is unreachable. The two
      calls that only borrow the transcript report a failure and leave it as it was. */
  lemma FailureIsTerminalUnlessBorrowed(start: State, calls: seq<Call>, call: Call)
    requires Fresh(start) && Apply(Run(start, calls), call).1.Failed?
    ensures var before, after := Run(start, calls), Apply(Run(start, calls), call).0;
            && (after.acceptedRoles == TERMINAL <==> !Borrows(call) || before.acceptedRoles == TERMINAL)
            && (Borrows(call) ==> after == before)
  {
    EveryRunKeepsInv(start, calls);
  }

  /** A borrowed call that fails and is followed by a successful decision. */
  lemma BorrowedFailureIsNotTerminal(start: State, challenge: DecisionChallenge)
    requires Fresh(start)
    ensures var agreed := [ValidateAccept(AcceptOf(start, Coordinator, challenge), Coordinator),
                           ValidateAccept(AcceptOf(start, Receiver, challenge), Receiver)];
            && Apply(Run(start, agreed), CoordinatorAccept(challenge)).1.Failed?
            && Apply(Run(start, agreed + [CoordinatorAccept(challenge)]), TakeFacts).1.Facts?
  {
    var first := ValidateAccept(AcceptOf(start, Coordinator, challenge), Coordinator);
    var second := ValidateAccept(AcceptOf(start, Receiver, challenge), Receiver);
    var calls := [first, second, CoordinatorAccept(challenge)];
    assert Run(start, calls[..0]) == start;
    RunUnfolds(start, calls, 0);
    RunUnfolds(start, calls, 1);
    RunUnfolds(start, calls, 2);
    assert calls[..2] == [first, second] && calls[..3] == [first, second] + [CoordinatorAccept(challenge)];
  }

  lemma {:induction false} TerminalStaysTerminal(start: State, calls: seq<Call>, i: nat, j: nat)
    requires Fresh(start) && i <= j <= |calls| && Run(start, calls[..i]).acceptedRoles == TERMINAL
    ensures Run(start, calls[..j]).acceptedRoles == TERMINAL
  {
    if i < j {
      TerminalStaysTerminal(start, calls, i, j - 1);
      OneMoreCall(start, calls, j - 1);
    }
  }

  /** Facts come out at most once in any run. */
  lemma FactsComeOutOnce(start: State, calls: seq<Call>, i: nat, j: nat)
    requires Fresh(start) && i < j < |calls| && ReplyAt(start, calls, i).Facts?
    ensures !ReplyAt(start, calls, j).Facts?
  {
    EveryRunKeepsInv(start, calls[..i]);
    RunUnfolds(start, calls, i);
    TerminalStaysTerminal(start, calls, i + 1, j);
  }

  // ----- bilateral agreement -----

  /** Facts extracted anywhere in a run carry the run's decided values and its one challenge. */
  lemma ExtractedFacts(start: State, calls: seq<Call>, i: nat)
    requires Fresh(start) && i < |calls| && ReplyAt(start, calls, i).Facts?
    ensures Run(start, calls[..i]).challenge.Some?
    ensures ReplyAt(start, calls, i).facts == FactsOf(start, Run(start, calls[..i]).challenge.value)
  {
    EveryRunKeepsInv(start, calls[..i]);
  }

  /** Two endpoints whose transcripts were built independently, where the
      coordinator validated the very ACCEPT the receiver produced: whatever facts
      either later extracts are the same facts. */
  lemma AcceptedFactsAgree(c: State, r: State, cCalls: seq<Call>, rCalls: seq<Call>,
                           k: nat, l: nat, i: nat, j: nat, x: AcceptFrame)
    requires Fresh(c) && Fresh(r) && k < |cCalls| && i < |cCalls| && l < |rCalls| && j < |rCalls|
    requires rCalls[l] == ReceiverAccept && ReplyAt(r, rCalls, l) == Accepted(x)
    requires cCalls[k] == ValidateAccept(x, Receiver) && ReplyAt(c, cCalls, k) == Validated
    requires ReplyAt(c, cCalls, i).Facts? && ReplyAt(r, rCalls, j).Facts?
    ensures ReplyAt(c, cCalls, i).facts == ReplyAt(r, rCalls, j).facts
  {
    EveryRunKeepsInv(c, cCalls[..k]);
    EveryRunKeepsInv(r, rCalls[..l]);
    var cSeen, rSeen := Run(c, cCalls[..k]), Run(r, rCalls[..l]);
    assert x == AcceptOf(cSeen, Receiver, cSeen.challenge.value) == AcceptOf(rSeen, Receiver, rSeen.challenge.value);
    ExtractedFacts(c, cCalls, i);
    ExtractedFacts(r, rCalls, j);
    if i <= k { ChallengeIsStable(c, cCalls, i, k); } else { ChallengeIsStable(c, cCalls, k, i); }
    if j <= l { ChallengeIsStable(r, rCalls, j, l); } else { ChallengeIsStable(r, rCalls, l, j); }
  }

  /** A reduced transcript starts a decision. */
  lemma ReducedIsFresh(c: HelloFrame, r: HelloFrame, local: AtomicCapabilities, current: TargetFacts,
                       sha: seq<byte> -> Bytes32)
    requires FromHelloPair(c, r, local, current, sha).Ok?
    ensures Fresh(FromHelloPair(c, r, local, current, sha).value)
  {
  }

  /** Both endpoints extracted facts, and the coordinator validated the ACCEPT the receiver produced. */
  ghost predicate Concluded(c: State, r: State, cCalls: seq<Call>, rCalls: seq<Call>,
                            k: nat, l: nat, i: nat, j: nat, x: AcceptFrame)
  {
    && k < |cCalls| && i < |cCalls| && l < |rCalls| && j < |rCalls|
    && rCalls[l] == ReceiverAccept && ReplyAt(r, rCalls, l) == Accepted(x)
    && cCalls[k] == ValidateAccept(x, Receiver) && ReplyAt(c, cCalls, k) == Validated
    && ReplyAt(c, cCalls, i).Facts? && ReplyAt(r, rCalls, j).Facts?
  }

  lemma ConcludedAgree(c: State, r: State, cCalls: seq<Call>, rCalls: seq<Call>,
                       k: nat, l: nat, i: nat, j: nat, x: AcceptFrame)
    requires Fresh(c) && Fresh(r) && Concluded(c, r, cCalls, rCalls, k, l, i, j, x)
    ensures ReplyAt(c, cCalls, i).facts == ReplyAt(r, rCalls, j).facts
    ensures ReplyAt(c, cCalls, i).facts.limits == c.limits == r.limits
    ensures ReplyAt(c, cCalls, i).facts.selected == c.selected == r.selected && c.digest == r.digest
    ensures var facts := ReplyAt(c, cCalls, i).facts;
            && facts.nonce == c.nonce == r.nonce && facts.digest == c.digest && facts.atomics == c.atomics == r.atomics
            && facts.target == c.target == r.target && facts.major == c.major == r.major
            && facts.minor == c.minor == r.minor && facts.challenge == x.challenge
  {
    AcceptedFactsAgree(c, r, cCalls, rCalls, k, l, i, j, x);
    ExtractedFacts(c, cCalls, i);
    ExtractedFacts(r, rCalls, j);
    EveryRunKeepsInv(r, rCalls[..l]);
    if j <= l { ChallengeIsStable(r, rCalls, j, l); } else { ChallengeIsStable(r, rCalls, l, j); }
  }

  /** From the HELLOs to the facts: each endpoint reduces the pair it saw,
      and whatever the two later extract is one set of facts that respects the
      offer and the required features each of them sent. */
  lemma NegotiatedFactsAreFair(mine: HelloFrame, theirs: HelloFrame, cLocal: AtomicCapabilities, cTarget: TargetFacts,
                               seen: HelloFrame, own: HelloFrame, rLocal: AtomicCapabilities, rTarget: TargetFacts,
                               sha: seq<byte> -> Bytes32, cCalls: seq<Call>, rCalls: seq<Call>,
                               k: nat, l: nat, i: nat, j: nat, x: AcceptFrame)
    requires FromHelloPair(mine, theirs, cLocal, cTarget, sha).Ok? && FromHelloPair(seen, own, rLocal, rTarget, sha).Ok?
    requires Concluded(FromHelloPair(mine, theirs, cLocal, cTarget, sha).value,
                       FromHelloPair(seen, own, rLocal, rTarget, sha).value, cCalls, rCalls, k, l, i, j, x)
    ensures var c := FromHelloPair(mine, theirs, cLocal, cTarget, sha).value;
            var r := FromHelloPair(seen, own, rLocal, rTarget, sha).value;
            var facts := ReplyAt(c, cCalls, i).facts;
            && facts == ReplyAt(r, rCalls, j).facts
            && Within(facts.limits, mine.limits) && Within(facts.limits, own.limits)
            && FeatureSubset(mine.required, facts.selected) && FeatureSubset(own.required, facts.selected)
  {
    var c := FromHelloPair(mine, theirs, cLocal, cTarget, sha).value;
    var r := FromHelloPair(seen, own, rLocal, rTarget, sha).value;
    ReducedIsFresh(mine, theirs, cLocal, cTarget, sha);
    ReducedIsFresh(seen, own, rLocal, rTarget, sha);
    ConcludedAgree(c, r, cCalls, rCalls, k, l, i, j, x);
    ReductionIsFair(mine, theirs, cLocal, cTarget, sha);
    ReductionIsFair(seen, own, rLocal, rTarget, sha);
  }

  lemma SoundHelloFits(h: HelloFrame)
    requires HelloFault(h).None?
    ensures |h.payload| <= U32_MAX
  {
  }

  lemma ReducedHellosFit(c: HelloFrame, r: HelloFrame, local: AtomicCapabilities, current: TargetFacts,
                         sha: seq<byte> -> Bytes32)
    requires FromHelloPair(c, r, local, current, sha).Ok?
    ensures |c.payload| <= U32_MAX && |r.payload| <= U32_MAX
    ensures FromHelloPair(c, r, local, current, sha).value.digest == sha(DigestInput(c, r))
  {
    SoundHelloFits(c);
    SoundHelloFits(r);
  }

  /** The hash tells the two transcripts apart, if they differ. */
  ghost predicate TellsApart(sha: seq<byte> -> Bytes32, c: HelloFrame, r: HelloFrame, c': HelloFrame, r': HelloFrame) {
    |c.payload| <= U32_MAX && |r.payload| <= U32_MAX && |c'.payload| <= U32_MAX && |r'.payload| <= U32_MAX ==>
      (sha(DigestInput(c, r)) == sha(DigestInput(c', r')) ==> DigestInput(c, r) == DigestInput(c', r'))
  }

  /** Concluding proves what was said: unless the hash collides on the two
      transcripts, each endpoint saw the HELLO the other sent. */
  lemma ConcludedSawSameHellos(mine: HelloFrame, theirs: HelloFrame, cLocal: AtomicCapabilities, cTarget: TargetFacts,
                               seen: HelloFrame, own: HelloFrame, rLocal: AtomicCapabilities, rTarget: TargetFacts,
                               sha: seq<byte> -> Bytes32, cCalls: seq<Call>, rCalls: seq<Call>,
                               k: nat, l: nat, i: nat, j: nat, x: AcceptFrame)
    requires FromHelloPair(mine, theirs, cLocal, cTarget, sha).Ok? && FromHelloPair(seen, own, rLocal, rTarget, sha).Ok?
    requires Concluded(FromHelloPair(mine, theirs, cLocal, cTarget, sha).value,
                       FromHelloPair(seen, own, rLocal, rTarget, sha).value, cCalls, rCalls, k, l, i, j, x)
    requires TellsApart(sha, mine, theirs, seen, own)
    ensures mine == seen && theirs == own
  {
    var c := FromHelloPair(mine, theirs, cLocal, cTarget, sha).value;
    var r := FromHelloPair(seen, own, rLocal, rTarget, sha).value;
    ReducedIsFresh(mine, theirs, cLocal, cTarget, sha);
    ReducedIsFresh(seen, own, rLocal, rTarget, sha);
    ConcludedAgree(c, r, cCalls, rCalls, k, l, i, j, x);
    ReducedHellosFit(mine, theirs, cLocal, cTarget, sha);
    ReducedHellosFit(seen, own, rLocal, rTarget, sha);
    DigestInputBindsBothHellos(mine, theirs, seen, own);
  }

  /** Facts are only extracted after both ACCEPTs were validated, in order. */
  lemma FactsNeedBothAccepts(start: State, calls: seq<Call>, i: nat)
    requires Fresh(start) && i < |calls| && ReplyAt(start, calls, i).Facts?
    ensures exists a, b :: 0 <= a < b < i && calls[a].ValidateAccept? && calls[b].ValidateAccept?
              && calls[a].expected == Coordinator && calls[b].expected == Receiver
              && ReplyAt(start, calls, a) == Validated && ReplyAt(start, calls, b) == Validated
  {
    EveryRunKeepsInv(start, calls[..i]);
    var b := LastRise(start, calls, i, 3);
    EveryRunKeepsInv(start, calls[..b]);
    var a := LastRise(start, calls, b, 1);
    EveryRunKeepsInv(start, calls[..a]);
  }

  lemma RiseIsValidation(start: State, t: State, call: Call, roles: byte)
    requires Fresh(start) && Inv(start, t) && roles in {1, 3}
    requires t.acceptedRoles != roles && Apply(t, call).0.acceptedRoles == roles
    ensures call.ValidateAccept? && Apply(t, call).1 == Validated
    ensures call.expected == if roles == 1 then Coordinator else Receiver
    ensures roles == 3 ==> t.acceptedRoles == 1
  {
  }

  /** The call at which the roles byte took the value it has before call `i`. */
  lemma {:induction false} LastRise(start: State, calls: seq<Call>, i: nat, roles: byte) returns (a: nat)
    requires Fresh(start) && i <= |calls| && roles in {1, 3} && Run(start, calls[..i]).acceptedRoles == roles
    ensures a < i && Run(start, calls[..a]).acceptedRoles != roles
    ensures Run(start, calls[..a + 1]).acceptedRoles == roles
    ensures calls[a].ValidateAccept? && ReplyAt(start, calls, a) == Validated
    ensures roles == 1 ==> calls[a].expected == Coordinator
    ensures roles == 3 ==> calls[a].expected == Receiver && Run(start, calls[..a]).acceptedRoles == 1
  {
    EveryRunKeepsInv(start, calls[..i - 1]);
    RunUnfolds(start, calls, i - 1);
    if Run(start, calls[..i - 1]).acceptedRoles == roles {
      a := LastRise(start, calls, i - 1, roles);
    } else {
      a := i - 1;
      RiseIsValidation(start, Run(start, calls[..a]), calls[a], roles);
    }
  }

  // ----- the calls in place -----

  class NegotiatedTranscript {
    const nonce: Bytes32
    const selected: FeatureBits
    const limits: SessionLimits
    const atomics: AtomicOffer
    const target: TargetFacts
    const major: u16
    const minor: u16
    const digest: Bytes32
    var challenge: Option<DecisionChallenge>
    var acceptedRoles: byte

    ghost function View(): State
      reads this
    {
      State(nonce, selected, limits, atomics, target, major, minor, digest, challenge, acceptedRoles)
    }

    constructor (t: State)
      ensures View() == t
    {
      nonce, selected, limits, atomics, target := t.nonce, t.selected, t.limits, t.atomics, t.target;
      major, minor, digest := t.major, t.minor, t.digest;
      challenge, acceptedRoles := t.challenge, t.acceptedRoles;
    }

    method MakeAccept(role: SenderRole, c: DecisionChallenge) returns (frame: AcceptFrame)
      ensures frame == AcceptOf(View(), role, c)
    {
      frame := AcceptFrame(role, nonce, selected, limits, atomics, target, digest, c);
    }

    method TakeAcceptedFacts() returns (r: Reply)
      modifies this
      ensures (View(), r) == Apply(old(View()), TakeFacts)
    {
      if acceptedRoles != 3 {
        acceptedRoles := TERMINAL;
        return Failed(DecisionReplayOrOrder);
      }
      if challenge.None? {
        return Failed(DecisionReplayOrOrder);
      }
      acceptedRoles := TERMINAL;
      return Facts(AcceptedFacts(nonce, selected, limits, atomics, target, major, minor, digest, challenge.value));
    }

    method RejectAsCoordinator(c: DecisionChallenge, reason: NonZeroU32) returns (r: Reply)
      modifies this
      ensures (View(), r) == Apply(old(View()), CoordinatorReject(c, reason))
    {
      if acceptedRoles != 0 {
        acceptedRoles := TERMINAL;
        return Failed(DecisionReplayOrOrder);
      }
      var reject := RejectFrame(Coordinator, nonce, reason, c);
      var fault := RejectFault(reject);
      if fault.Some? {
        return Failed(fault.value);
      }
      acceptedRoles := TERMINAL;
      return Rejected(reject);
    }

    method RejectAsReceiver(reason: NonZeroU32) returns (r: Reply)
      modifies this
      ensures (View(), r) == Apply(old(View()), ReceiverReject(reason))
    {
      if acceptedRoles != 1 {
        acceptedRoles := TERMINAL;
        return Failed(DecisionReplayOrOrder);
      }
      if challenge.None? {
        return Failed(DecisionReplayOrOrder);
      }
      var reject := RejectFrame(Receiver, nonce, reason, challenge.value);
      var fault := RejectFault(reject);
      if fault.Some? {
        return Failed(fault.value);
      }
      acceptedRoles := TERMINAL;
      return Rejected(reject);
    }

    method CheckReject(reject: RejectFrame, expected: SenderRole) returns (r: Reply)
      modifies this
      ensures (View(), r) == Apply(old(View()), ValidateReject(reject, expected))
    {
      var order := if expected == Coordinator then acceptedRoles == 0 else acceptedRoles == 1;
      acceptedRoles := TERMINAL;
      if !order {
        return Failed(DecisionReplayOrOrder);
      }
      var fault := RejectFault(reject);
      if fault.Some? {
        return Failed(fault.value);
      }
      if reject.role != expected || reject.nonce != nonce {
        return Failed(EffectiveMismatch);
      }
      if expected == Receiver {
        if challenge.None? {
          return Failed(DecisionReplayOrOrder);
        }
        if reject.challenge != challenge.value {
          return Failed(DecisionChallengeMismatch);
        }
      }
      return Reason(reject.reason);
    }

    method CheckAccept(accept: AcceptFrame, expected: SenderRole) returns (r: Reply)
      modifies this
      ensures (View(), r) == Apply(old(View()), ValidateAccept(accept, expected))
    {
      if major != WIRE_MAJOR || minor != WIRE_MINOR {
        return Failed(BadVersion);
      }
      if acceptedRoles == TERMINAL || (expected == Receiver && acceptedRoles != 1)
         || (expected == Coordinator && acceptedRoles % 2 == 1) {
        acceptedRoles := TERMINAL;
        return Failed(DecisionReplayOrOrder);
      }
      if expected == Receiver && challenge.None? {
        return Failed(DecisionReplayOrOrder);
      }
      var expectedChallenge := if expected == Coordinator then accept.challenge else challenge.value;
      if expected == Receiver && accept.challenge != expectedChallenge {
        acceptedRoles := TERMINAL;
        return Failed(DecisionChallengeMismatch);
      }
      var own := MakeAccept(expected, expectedChallenge);
      if accept != own {
        acceptedRoles := TERMINAL;
        return Failed(EffectiveMismatch);
      }
      if expected == Coordinator {
        challenge := Some(expectedChallenge);
        acceptedRoles := acceptedRoles + 1;
      } else {
        acceptedRoles := acceptedRoles + 2;
      }
      return Validated;
    }
  }
}
