/** The accepted-session transaction: two endpoints, two record queues,
    and a failure allowed at every send, receive and native check. */
module Transfer {
  import opened Machine
  import opened Wire
  import opened Limits
  import opened Protocol
  import opened Ledger

  type Manifest = TransferManifest

  /** What both endpoints agreed on when the session was accepted. */
  datatype Session = Session(
    nonce: Bytes32, parentPid: u32, childPid: u32, authority: Authority, limits: SessionLimits)

  // ----- records -----

  datatype Tag = Offer | Reply | Capability | Imported | Sealed | ReadyFrame | Commit

  /** A native frame is determined by its phase magic and manifest. */
  datatype Record =
    | Native(tag: Tag, status: CapacityStatus, m: Manifest)
    | Application(payload: seq<byte>)

  function Frame(tag: Tag, m: Manifest): Record {
    Native(tag, Ready, m)
  }

  function Magic(tag: Tag, status: CapacityStatus): Bytes8 {
    match tag
    case Offer => CapacityMagic(status)
    case Reply => if status.Ready? then RECEIVER_CAPACITY_READY_MAGIC else RECEIVER_CAPACITY_REJECT_MAGIC
    case Capability => CAPABILITY_MAGIC
    case Imported => IMPORTED_MAGIC
    case Sealed => SEALED_MAGIC
    case ReadyFrame => READY_MAGIC
    case Commit => COMMIT_MAGIC
  }

  function Ascii(s: string): (b: seq<byte>)
    requires forall i :: 0 <= i < |s| ==> s[i] as int < 128
    ensures |b| == |s|
  {
    seq(|s|, i requires 0 <= i < |s| => s[i] as int)
  }

  /** Each frame opens with the eight letters of its phase. */
  lemma MagicLetters(status: CapacityStatus)
    ensures Magic(Offer, Ready) == Ascii("NIPCCPR1") && Magic(Offer, ActiveLimit) == Ascii("NIPCCPJ1")
    ensures Magic(Offer, PreparationFailed) == Ascii("NIPCCPF1")
    ensures Magic(Reply, status) == if status == Ready then Ascii("NIPCRPR1") else Ascii("NIPCRPJ1")
    ensures Magic(Capability, status) == Ascii("NIPCCAP1") && Magic(Imported, status) == Ascii("NIPCIMP1")
    ensures Magic(Sealed, status) == Ascii("NIPCSEA1") && Magic(ReadyFrame, status) == Ascii("NIPCRDY1")
    ensures Magic(Commit, status) == Ascii("NIPCCMT1")
  {
  }

  // ----- endpoints -----

  datatype CoordinatorPhase =
    | CIdle
    | COpened(m: Manifest)
    | COfferSent(m: Manifest, status: CapacityStatus)
    | CPreflighted(m: Manifest)
    | CCapabilitySent(m: Manifest)
    | CGotImported(m: Manifest)
    | CSealedSent(m: Manifest)
    | CGotReady(m: Manifest)

  datatype ReceiverPhase =
    | RIdle
    | ROpened(id: nat)
    | RDeciding(m: Manifest, status: CapacityStatus)
    | RReady(id: nat)
    | RGotCapability(m: Manifest)
    | RImportedSent(m: Manifest)
    | RGotSealed(m: Manifest)
    | RReadySent(m: Manifest)

  /** `sent` is everything handed to the peer's queue, `taken` how many of the
      peer's records were received. */
  datatype Side = Side(
    poisoned: bool, open: bool, next: nat, sent: seq<Record>, taken: nat, committed: seq<Manifest>)

  /** `checked` lists the manifests whose import and seal checks passed;
      `cl` and `rl` are the two sessions' lease charges. */
  datatype State = State(
    c: Side, cp: CoordinatorPhase, cl: Ledger, r: Side, rp: ReceiverPhase, rl: Ledger, checked: seq<Manifest>)

  const FRESH: Side := Side(false, false, 1, [], 0, [])

  const START: State := State(FRESH, CIdle, EMPTY, FRESH, RIdle, EMPTY, [])

  /** A send reports success, or fails without or after delivering the record. */
  datatype SendOutcome = Delivered | Lost | Ambiguous

  function Poison(e: Side): Side {
    e.(poisoned := true)
  }

  function Send(e: Side, record: Record, out: SendOutcome): Side {
    match out
    case Delivered => e.(sent := e.sent + [record])
    case Lost => Poison(e)
    case Ambiguous => Poison(e.(sent := e.sent + [record]))
  }

  function Take(e: Side): Side {
    e.(taken := e.taken + 1)
  }

  /** `enter_native_transaction`: the id is taken before anything is exchanged. */
  function Enter(e: Side, limits: SessionLimits): Side {
    if e.poisoned then e
    else if e.next > limits.maxTransactions || e.open then Poison(e)
    else e.(open := true, next := e.next + 1)
  }

  /** `end_transaction`, with the failure branch the code keeps. */
  function End(e: Side): Side {
    if e.open then e.(open := false) else Poison(e)
  }

  function Lengths(m: Manifest): (r: seq<u64>)
    ensures |r| == |m.entries|
  {
    seq(|m.entries|, i requires 0 <= i < |m.entries| => m.entries[i].mappedLen)
  }

  // ----- coordinator -----

  /** The session-bound part of the receiver's manifest match, apart from the id. */
  predicate OfSession(session: Session, m: Manifest) {
    && m.nonce == session.nonce && m.parentPid == session.parentPid && m.childPid == session.childPid
    && m.authority == session.authority && FitsLimits(m, session.limits)
  }

  datatype CoordinatorStep =
    | CBegin(m: Manifest)
    | CSendOffer(prepared: bool, out: SendOutcome)
    | CReceive(ok: bool)
    | CSendNext(valid: bool, out: SendOutcome)
    | CSendApplication(payload: seq<byte>, out: SendOutcome)
    | CAbandon

  /** The manifests `begin_native_transaction` can construct under an id. */
  ghost predicate Admissible(session: Session, id: nat, m: Manifest) {
    WellFormed(m) && m.transferId == id && OfSession(session, m)
  }

  /** Beginning under a manifest that was constructed for the next id. */
  function ApplyBegin(session: Session, c: Side, m: Manifest): (Side, CoordinatorPhase) {
    var e := Enter(c, session.limits); if e.poisoned then (e, CIdle) else (e, COpened(m))
  }

  function LocalStatus(reserved: bool, prepared: bool): CapacityStatus {
    if !reserved then ActiveLimit else if !prepared then PreparationFailed else Ready
  }

  function ApplyOffer(c: Side, m: Manifest, reserved: bool, prepared: bool, out: SendOutcome)
    : (Side, CoordinatorPhase)
  {
    var status := LocalStatus(reserved, prepared);
    var e := Send(c, Native(Offer, status, m), out);
    if e.poisoned then (e, CIdle) else (e, COfferSent(m, status))
  }

  function ApplyReply(c: Side, m: Manifest, status: CapacityStatus, record: Record): (Side, CoordinatorPhase) {
    if record == Native(Reply, Ready, m) && status.Ready? then (c, CPreflighted(m))
    else if record == Native(Reply, ActiveLimit, m) then (End(c), CIdle)
    else (Poison(c), CIdle)
  }

  function CoordinatorTakes(c: Side, cp: CoordinatorPhase, record: Record): (Side, CoordinatorPhase) {
    match cp
    case CIdle => if record.Application? then (c, CIdle) else (Poison(c), CIdle)
    case COfferSent(m, status) => ApplyReply(c, m, status, record)
    case CCapabilitySent(m) => if record == Frame(Imported, m) then (c, CGotImported(m)) else (Poison(c), CIdle)
    case CSealedSent(m) => if record == Frame(ReadyFrame, m) then (c, CGotReady(m)) else (Poison(c), CIdle)
    case _ => (Poison(c), CIdle)
  }

  /** COMMIT goes out, the transaction ends, and only then is the batch committed. */
  function ApplyCommit(c: Side, m: Manifest, out: SendOutcome): (Side, CoordinatorPhase) {
    var e := Send(c, Frame(Commit, m), out);
    if e.poisoned then (e, CIdle)
    else
      var ended := End(e);
      if ended.poisoned then (ended, CIdle)
      else (ended.(committed := ended.committed + [m]), CIdle)
  }

  function ApplySendNext(c: Side, cp: CoordinatorPhase, valid: bool, out: SendOutcome): (Side, CoordinatorPhase) {
    match cp
    case CPreflighted(m) =>
      if !valid then (Poison(c), CIdle)
      else var e := Send(c, Frame(Capability, m), out); if e.poisoned then (e, CIdle) else (e, CCapabilitySent(m))
    case CGotImported(m) =>
      if !valid then (Poison(c), CIdle)
      else var e := Send(c, Frame(Sealed, m), out); if e.poisoned then (e, CIdle) else (e, CSealedSent(m))
    case CGotReady(m) => ApplyCommit(c, m, out)
    case _ => (Poison(c), CIdle)
  }

  function SendPayload(e: Side, payload: seq<byte>, out: SendOutcome): Side {
    if e.open then Poison(e) else Send(e, Application(payload), out)
  }

  /** One step of the coordinator against everything the receiver has sent;
      `reserved` is whether the open batch's charges would be granted. */
  function ApplyCoordinator(session: Session, c: Side, cp: CoordinatorPhase, reserved: bool, step: CoordinatorStep,
                            peer: seq<Record>): (Side, CoordinatorPhase)
  {
    if c.poisoned then (c, cp)
    else match step
      case CBegin(m) => ApplyBegin(session, c, m)
      case CSendOffer(prepared, out) => if cp.COpened? then ApplyOffer(c, cp.m, reserved, prepared, out) else (c, cp)
      case CReceive(ok) =>
        if !ok then (Poison(c), CIdle)
        else if c.taken < |peer| then CoordinatorTakes(Take(c), cp, peer[c.taken])
        else (c, cp)
      case CSendNext(valid, out) =>
        if cp.CPreflighted? || cp.CGotImported? || cp.CGotReady? then ApplySendNext(c, cp, valid, out) else (c, cp)
      case CSendApplication(payload, out) =>
        var e := SendPayload(c, payload, out); if e.poisoned then (e, CIdle) else (e, cp)
      case CAbandon => (Poison(c), CIdle)
  }

  // ----- receiver -----

  datatype ReceiverStep =
    | REnter
    | RReceive(ok: bool, accept: bool)
    | RSendReply(out: SendOutcome)
    | RSendNext(imported: bool, out: SendOutcome)
    | RSendApplication(payload: seq<byte>, out: SendOutcome)
    | RAbandon

  /** `accept` is the outcome of the checks on the record beyond phase and id:
      the manifest match, or the activation check after SEALED. */
  function ReceiverTakes(r: Side, rp: ReceiverPhase, record: Record, accept: bool)
    : (Side, ReceiverPhase)
  {
    match rp
    case RIdle => if record.Application? then (r, RIdle) else (Poison(r), RIdle)
    case ROpened(id) =>
      if record.Native? && record.tag.Offer? && record.m.transferId == id && accept
      then (r, RDeciding(record.m, record.status)) else (Poison(r), RIdle)
    case RReady(id) =>
      if record.Native? && record == Frame(Capability, record.m) && record.m.transferId == id && accept
      then (r, RGotCapability(record.m)) else (Poison(r), RIdle)
    case RImportedSent(m) =>
      if record == Frame(Sealed, m) && accept then (r, RGotSealed(m)) else (Poison(r), RIdle)
    case RReadySent(m) =>
      if record == Frame(Commit, m) then
        var e := End(r);
        if e.poisoned then (e, RIdle)
        else (e.(committed := e.committed + [m]), RIdle)
      else (Poison(r), RIdle)
    case _ => (Poison(r), RIdle)
  }

  /** Reservations are attempted only for a ready coordinator; a reply that
      is not ready ends the transaction. */
  function ApplySendReply(r: Side, m: Manifest, status: CapacityStatus, reserved: bool, out: SendOutcome)
    : (Side, ReceiverPhase)
  {
    if status.Ready? && reserved then
      var e := Send(r, Native(Reply, Ready, m), out); if e.poisoned then (e, RIdle) else (e, RReady(m.transferId))
    else
      var e := Send(r, Native(Reply, ActiveLimit, m), out); if e.poisoned then (e, RIdle) else (End(e), RIdle)
  }

  function ApplyReceiverNext(r: Side, rp: ReceiverPhase, imported: bool, out: SendOutcome): (Side, ReceiverPhase) {
    match rp
    case RGotCapability(m) =>
      if !imported then (Poison(r), RIdle)
      else var e := Send(r, Frame(Imported, m), out); if e.poisoned then (e, RIdle) else (e, RImportedSent(m))
    case RGotSealed(m) =>
      var e := Send(r, Frame(ReadyFrame, m), out); if e.poisoned then (e, RIdle) else (e, RReadySent(m))
    case _ => (Poison(r), RIdle)
  }

  function ApplyReceiver(session: Session, r: Side, rp: ReceiverPhase, reserved: bool, step: ReceiverStep,
                         peer: seq<Record>): (Side, ReceiverPhase)
  {
    if r.poisoned then (r, rp)
    else match step
      case REnter =>
        var e := Enter(r, session.limits); if e.poisoned then (e, RIdle) else (e, ROpened(r.next))
      case RReceive(ok, accept) =>
        if !ok then (Poison(r), RIdle)
        else if r.taken < |peer| then ReceiverTakes(Take(r), rp, peer[r.taken], accept)
        else (r, rp)
      case RSendReply(out) => if rp.RDeciding? then ApplySendReply(r, rp.m, rp.status, reserved, out) else (r, rp)
      case RSendNext(imported, out) =>
        if rp.RGotCapability? || rp.RGotSealed? then ApplyReceiverNext(r, rp, imported, out) else (r, rp)
      case RSendApplication(payload, out) =>
        var e := SendPayload(r, payload, out); if e.poisoned then (e, RIdle) else (e, rp)
      case RAbandon => (Poison(r), RIdle)
  }

  // ----- runs -----

  /** Besides endpoint steps, a mapping of a committed batch may be dropped at any time. */
  datatype Step =
    | Coordinator(cs: CoordinatorStep)
    | Receiver(rs: ReceiverStep)
    | DropCoordinator(i: nat)
    | DropReceiver(i: nat)

  function Grant(session: Session, l: Ledger, m: Manifest): Option<Ledger> {
    ReserveAll(l, session.limits, Lengths(m))
  }

  function GrantOrKeep(session: Session, l: Ledger, m: Manifest): Ledger {
    match Grant(session, l, m) case Some(granted) => granted case None => l
  }

  /** Reservations are taken with the offer, handed over by a commit, and
      dropped by every other way of leaving the transaction. */
  function CoordinatorLedger(session: Session, l: Ledger, before: CoordinatorPhase, c: Side, after: CoordinatorPhase)
    : Ledger
  {
    if c.poisoned then ReleaseHeld(l)
    else if before.COpened? && after.COfferSent? then GrantOrKeep(session, l, before.m)
    else if before.CGotReady? && after.CIdle? then Keep(l)
    else if after.CIdle? then ReleaseHeld(l)
    else l
  }

  function ReceiverLedger(session: Session, l: Ledger, before: ReceiverPhase, r: Side, after: ReceiverPhase): Ledger {
    if r.poisoned then ReleaseHeld(l)
    else if before.RDeciding? && after.RReady? then GrantOrKeep(session, l, before.m)
    else if before.RReadySent? && after.RIdle? then Keep(l)
    else if after.RIdle? then ReleaseHeld(l)
    else l
  }

  /** The import and seal checks passed when the receiver reaches `RGotSealed`. */
  function Checked(checked: seq<Manifest>, before: ReceiverPhase, after: ReceiverPhase): seq<Manifest> {
    if after.RGotSealed? && !before.RGotSealed? then checked + [after.m] else checked
  }

  /** A batch with no admissible manifest is refused before the transaction
      opens, and changes nothing; an exhausted id space is not such a refusal. */
  ghost predicate Refused(session: Session, c: Side, step: CoordinatorStep) {
    step.CBegin? && c.next <= session.limits.maxTransactions && !Admissible(session, c.next, step.m)
  }

  /** A manifest of another session is never accepted; whether one of this
      session matches the expected regions is the step's own outcome. */
  function Judged(session: Session, step: ReceiverStep, r: Side, peer: seq<Record>): ReceiverStep {
    if step.RReceive? && r.taken < |peer| && peer[r.taken].Native?
    then step.(accept := step.accept && OfSession(session, peer[r.taken].m)) else step
  }

  ghost function Apply(session: Session, s: State, step: Step): State {
    match step
    case Coordinator(cs) =>
      if Refused(session, s.c, cs) then s
      else
        var reserved := s.cp.COpened? && Grant(session, s.cl, s.cp.m).Some?;
        var (c, cp) := ApplyCoordinator(session, s.c, s.cp, reserved, cs, s.r.sent);
        s.(c := c, cp := cp, cl := CoordinatorLedger(session, s.cl, s.cp, c, cp))
    case Receiver(rs) =>
      var reserved := s.rp.RDeciding? && Grant(session, s.rl, s.rp.m).Some?;
      var (r, rp) := ApplyReceiver(session, s.r, s.rp, reserved, Judged(session, rs, s.r, s.c.sent), s.c.sent);
      s.(r := r, rp := rp, rl := ReceiverLedger(session, s.rl, s.rp, r, rp), checked := Checked(s.checked, s.rp, rp))
    case DropCoordinator(i) => s.(cl := Drop(s.cl, i))
    case DropReceiver(i) => s.(rl := Drop(s.rl, i))
  }

  ghost function Run(session: Session, steps: seq<Step>): State {
    if steps == [] then START else Apply(session, Run(session, steps[..|steps| - 1]), steps[|steps| - 1])
  }
}
