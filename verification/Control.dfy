/** Application control records: one wire form, strict sequencing, and poison. */
module Control {
  import opened Machine
  import opened Wire
  import opened Limits

  const MAGIC: Bytes8 := [0x4E, 0x49, 0x50, 0x43, 0x41, 0x50, 0x50, 0x31] // NIPCAPP1
  const VERSION_MAJOR: u16 := 1
  const VERSION_MINOR: u16 := 0
  const CONTROL_HEADER_LEN: nat := 72
  const APPLICATION_CONTROL_KIND_MIN: u32 := 0x8000_0000

  datatype ControlFrame = ControlFrame(kind: u32, payload: seq<byte>)

  datatype ControlError =
    | Poisoned
    | Truncated
    | BadMagic
    | BadVersion
    | NonCanonical
    | WrongSession
    | ReservedKind
    | PayloadTooLarge
    | ReplayOrReorder
    | TransactionConflict
    | SequenceExhausted
    | LengthOverflow
    | DestinationTooSmall

  datatype State = State(
    nonce: Bytes32, maximumPayload: u32, nextSend: u64, nextReceive: u64,
    open: bool, poisoned: bool, pending: bool)

  predicate Admitted(maximumPayload: u32, f: ControlFrame) {
    && f.kind >= APPLICATION_CONTROL_KIND_MIN
    && |f.payload| <= maximumPayload && |f.payload| <= HARD_MAX_CONTROL_PAYLOAD_BYTES
  }

  // ----- wire form -----

  function PutFixed(b: seq<byte>, length: u32): (r: seq<byte>)
    requires |b| >= 72 && length + 72 <= U32_MAX
    ensures |r| == |b|
  {
    var b := Put(b, 28, Zeros(4));
    var b := Put(b, 0, MAGIC);
    var b := Put(b, 8, U16Bytes(VERSION_MAJOR));
    var b := Put(b, 10, U16Bytes(VERSION_MINOR));
    var b := Put(b, 12, U32Bytes(CONTROL_HEADER_LEN));
    Put(b, 16, U32Bytes(72 + length))
  }

  function PutVarying(b: seq<byte>, nonce: Bytes32, sequence: u64, kind: u32, length: u32): (r: seq<byte>)
    requires |b| >= 72
    ensures |r| == |b|
  {
    var b := Put(b, 20, U32Bytes(length));
    var b := Put(b, 24, U32Bytes(kind));
    var b := Put(b, 32, nonce);
    Put(b, 64, U64Bytes(sequence))
  }

  /** The encoder over an arbitrary destination; it clears the reserved word itself. */
  function EncodedOver(b: seq<byte>, nonce: Bytes32, sequence: u64, f: ControlFrame): (r: seq<byte>)
    requires |f.payload| <= HARD_MAX_CONTROL_PAYLOAD_BYTES && |b| >= 72 + |f.payload|
    ensures |r| == |b|
  {
    Put(PutVarying(PutFixed(b, |f.payload|), nonce, sequence, f.kind, |f.payload|), 72, f.payload)
  }

  ghost predicate FixedAt(b: seq<byte>, length: u32)
  {
    && length + 72 <= U32_MAX
    && ZeroRange(b, 28, 32) && At(b, 0, MAGIC)
    && At(b, 8, U16Bytes(VERSION_MAJOR)) && At(b, 10, U16Bytes(VERSION_MINOR))
    && At(b, 12, U32Bytes(CONTROL_HEADER_LEN)) && At(b, 16, U32Bytes(72 + length))
  }

  ghost predicate VaryingAt(b: seq<byte>, nonce: Bytes32, sequence: u64, kind: u32, length: u32) {
    At(b, 20, U32Bytes(length)) && At(b, 24, U32Bytes(kind)) && At(b, 32, nonce) && At(b, 64, U64Bytes(sequence))
  }

  ghost predicate RecordAt(b: seq<byte>, nonce: Bytes32, sequence: u64, f: ControlFrame) {
    && |f.payload| <= HARD_MAX_CONTROL_PAYLOAD_BYTES
    && FixedAt(b, |f.payload|) && VaryingAt(b, nonce, sequence, f.kind, |f.payload|) && At(b, 72, f.payload)
  }

  lemma PutFixedAt(b: seq<byte>, length: u32)
    requires |b| >= 72 && length + 72 <= U32_MAX
    ensures FixedAt(PutFixed(b, length), length)
  {
    AtZeros(PutFixed(b, length), 28, 4);
  }

  lemma PutVaryingAt(b: seq<byte>, nonce: Bytes32, sequence: u64, kind: u32, length: u32)
    requires |b| >= 72 && FixedAt(b, length)
    ensures var r := PutVarying(b, nonce, sequence, kind, length);
            FixedAt(r, length) && VaryingAt(r, nonce, sequence, kind, length)
  {
  }

  lemma PayloadKeepsHeader(b: seq<byte>, nonce: Bytes32, sequence: u64, kind: u32, payload: seq<byte>)
    requires |payload| <= HARD_MAX_CONTROL_PAYLOAD_BYTES && |b| >= 72 + |payload|
    requires FixedAt(b, |payload|) && VaryingAt(b, nonce, sequence, kind, |payload|)
    ensures var r := Put(b, 72, payload); FixedAt(r, |payload|) && VaryingAt(r, nonce, sequence, kind, |payload|)
  {
  }

  lemma EncodedIsRecord(b: seq<byte>, nonce: Bytes32, sequence: u64, f: ControlFrame)
    requires |f.payload| <= HARD_MAX_CONTROL_PAYLOAD_BYTES && |b| >= 72 + |f.payload|
    ensures RecordAt(EncodedOver(b, nonce, sequence, f), nonce, sequence, f)
  {
    PutFixedAt(b, |f.payload|);
    PutVaryingAt(PutFixed(b, |f.payload|), nonce, sequence, f.kind, |f.payload|);
    PayloadKeepsHeader(PutVarying(PutFixed(b, |f.payload|), nonce, sequence, f.kind, |f.payload|),
                       nonce, sequence, f.kind, f.payload);
  }

  /** The one record a frame has under a nonce and sequence. */
  function Record(nonce: Bytes32, sequence: u64, f: ControlFrame): (r: seq<byte>)
    requires |f.payload| <= HARD_MAX_CONTROL_PAYLOAD_BYTES
    ensures |r| == 72 + |f.payload|
  {
    EncodedOver(Zeros(72 + |f.payload|), nonce, sequence, f)
  }

  lemma SameFixed(a: seq<byte>, b: seq<byte>, length: u32)
    requires FixedAt(a, length) && FixedAt(b, length)
    ensures |a| >= 32 && |b| >= 32 && forall i :: 0 <= i < 32 && !(20 <= i < 28) ==> a[i] == b[i]
  {
    SameAt(a, b, 0, MAGIC);
    SameAt(a, b, 8, U16Bytes(VERSION_MAJOR));
    SameAt(a, b, 10, U16Bytes(VERSION_MINOR));
    SameAt(a, b, 12, U32Bytes(CONTROL_HEADER_LEN));
    SameAt(a, b, 16, U32Bytes(72 + length));
  }

  lemma SameVarying(a: seq<byte>, b: seq<byte>, nonce: Bytes32, sequence: u64, kind: u32, length: u32)
    requires VaryingAt(a, nonce, sequence, kind, length) && VaryingAt(b, nonce, sequence, kind, length)
    ensures |a| >= 72 && |b| >= 72 && forall i :: 20 <= i < 28 || 32 <= i < 72 ==> a[i] == b[i]
  {
    SameAt(a, b, 20, U32Bytes(length));
    SameAt(a, b, 24, U32Bytes(kind));
    SameAt(a, b, 32, nonce);
    SameAt(a, b, 64, U64Bytes(sequence));
  }

  lemma RecordsAgree(a: seq<byte>, b: seq<byte>, nonce: Bytes32, sequence: u64, f: ControlFrame)
    requires RecordAt(a, nonce, sequence, f) && RecordAt(b, nonce, sequence, f)
    ensures a[..72 + |f.payload|] == b[..72 + |f.payload|]
  {
    SameFixed(a, b, |f.payload|);
    SameVarying(a, b, nonce, sequence, f.kind, |f.payload|);
    SameAt(a, b, 72, f.payload);
  }

  /** The encoder's output does not depend on what the buffer held. */
  lemma EncoderIgnoresOldBytes(b: seq<byte>, nonce: Bytes32, sequence: u64, f: ControlFrame)
    requires |f.payload| <= HARD_MAX_CONTROL_PAYLOAD_BYTES && |b| >= 72 + |f.payload|
    ensures EncodedOver(b, nonce, sequence, f)[..72 + |f.payload|] == Record(nonce, sequence, f)
    ensures EncodedOver(b, nonce, sequence, f)[72 + |f.payload|..] == b[72 + |f.payload|..]
  {
    var n := 72 + |f.payload|;
    EncodedIsRecord(b, nonce, sequence, f);
    EncodedIsRecord(Zeros(n), nonce, sequence, f);
    RecordsAgree(EncodedOver(b, nonce, sequence, f), Record(nonce, sequence, f), nonce, sequence, f);
    TailKept(b, nonce, sequence, f);
  }

  lemma FixedTail(b: seq<byte>, length: u32, n: nat, t: seq<byte>)
    requires |b| >= 72 && length + 72 <= U32_MAX && n >= 72 && At(b, n, t)
    ensures At(PutFixed(b, length), n, t)
  {
  }

  lemma VaryingTail(b: seq<byte>, nonce: Bytes32, sequence: u64, kind: u32, length: u32, n: nat, t: seq<byte>)
    requires |b| >= 72 && n >= 72 && At(b, n, t)
    ensures At(PutVarying(b, nonce, sequence, kind, length), n, t)
  {
  }

  lemma TailKept(b: seq<byte>, nonce: Bytes32, sequence: u64, f: ControlFrame)
    requires |f.payload| <= HARD_MAX_CONTROL_PAYLOAD_BYTES && |b| >= 72 + |f.payload|
    ensures EncodedOver(b, nonce, sequence, f)[72 + |f.payload|..] == b[72 + |f.payload|..]
  {
    var n, t := 72 + |f.payload|, b[72 + |f.payload|..];
    assert At(b, n, t);
    FixedTail(b, |f.payload|, n, t);
    VaryingTail(PutFixed(b, |f.payload|), nonce, sequence, f.kind, |f.payload|, n, t);
  }

  // ----- receiving -----

  function HeaderFault(s: State, b: seq<byte>): Option<ControlError>
    requires |b| >= 72
  {
    if s.poisoned then Some(Poisoned)
    else if s.open then Some(TransactionConflict)
    else if s.pending then Some(ReplayOrReorder)
    else if b[0..8] != MAGIC then Some(BadMagic)
    else if GetU16(b, 8) != VERSION_MAJOR || GetU16(b, 10) != VERSION_MINOR then Some(BadVersion)
    else if GetU32(b, 12) != CONTROL_HEADER_LEN || GetU32(b, 28) != 0 then Some(NonCanonical)
    else if GetU32(b, 16) != 72 + GetU32(b, 20) then Some(NonCanonical)
    else if GetU32(b, 20) > s.maximumPayload || GetU32(b, 20) > HARD_MAX_CONTROL_PAYLOAD_BYTES
    then Some(PayloadTooLarge)
    else if GetU32(b, 24) < APPLICATION_CONTROL_KIND_MIN then Some(ReservedKind)
    else if b[32..64] != s.nonce then Some(WrongSession)
    else if GetU64(b, 64) != s.nextReceive then Some(ReplayOrReorder)
    else if s.nextReceive == U64_MAX then Some(SequenceExhausted)
    else None
  }

  function Poison(s: State): State {
    s.(poisoned := true)
  }

  /** `decode_owned`: every failure poisons; an abandoned pending receive does too. */
  function Decode(s: State, b: seq<byte>): (State, Result<ControlFrame, ControlError>) {
    if |b| < 72 then (Poison(s), Err(Truncated))
    else match HeaderFault(s, b)
      case Some(e) => (Poison(s), Err(e))
      case None =>
        if |b| != 72 + GetU32(b, 20) || s.nextReceive == U64_MAX then (Poison(s).(pending := false), Err(NonCanonical))
        else (s.(nextReceive := s.nextReceive + 1), Ok(ControlFrame(GetU32(b, 24), b[72..])))
  }

  lemma RecordReads(b: seq<byte>, nonce: Bytes32, sequence: u64, f: ControlFrame)
    requires RecordAt(b, nonce, sequence, f)
    ensures |b| >= 72 && b[0..8] == MAGIC && GetU16(b, 8) == VERSION_MAJOR && GetU16(b, 10) == VERSION_MINOR
    ensures GetU32(b, 12) == CONTROL_HEADER_LEN && GetU32(b, 28) == 0
    ensures GetU32(b, 16) == 72 + |f.payload| && GetU32(b, 20) == |f.payload|
    ensures GetU32(b, 24) == f.kind && b[32..64] == nonce && GetU64(b, 64) == sequence
  {
    ZeroWord();
    assert b[28..32] == Zeros(4);
  }

  lemma ReadsRecord(s: State, b: seq<byte>)
    requires |b| >= 72 && HeaderFault(s, b).None? && |b| == 72 + GetU32(b, 20)
    ensures RecordAt(b, s.nonce, s.nextReceive, ControlFrame(GetU32(b, 24), b[72..]))
  {
    ZeroWord();
    assert b[28..32] == Zeros(4);
    assert forall i :: 28 <= i < 32 ==> b[i] == b[28..32][i - 28];
  }

  lemma AcceptedIsRecord(s: State, b: seq<byte>)
    requires Decode(s, b).1.Ok?
    ensures var f := Decode(s, b).1.value;
            && !s.poisoned && !s.open && !s.pending && s.nextReceive != U64_MAX
            && Admitted(s.maximumPayload, f) && b == Record(s.nonce, s.nextReceive, f)
  {
    ReadsRecord(s, b);
    OnlyRecord(b, s.nonce, s.nextReceive, ControlFrame(GetU32(b, 24), b[72..]));
  }

  lemma OnlyRecord(b: seq<byte>, nonce: Bytes32, sequence: u64, f: ControlFrame)
    requires RecordAt(b, nonce, sequence, f) && |b| == 72 + |f.payload|
    ensures b == Record(nonce, sequence, f)
  {
    var r := Record(nonce, sequence, f);
    EncodedIsRecord(Zeros(|b|), nonce, sequence, f);
    RecordsAgree(b, r, nonce, sequence, f);
    assert b[..|b|] == b && r[..|b|] == r;
  }

  lemma RecordIsAccepted(s: State, f: ControlFrame)
    requires !s.poisoned && !s.open && !s.pending && s.nextReceive != U64_MAX && Admitted(s.maximumPayload, f)
    ensures Decode(s, Record(s.nonce, s.nextReceive, f)).1 == Ok(f)
  {
    var b := Record(s.nonce, s.nextReceive, f);
    EncodedIsRecord(Zeros(72 + |f.payload|), s.nonce, s.nextReceive, f);
    RecordReads(b, s.nonce, s.nextReceive, f);
    assert b[72..] == f.payload;
  }

  /** A record is accepted exactly when it is the one record of an admitted
      frame under this session's nonce and the next sequence. */
  lemma AcceptsExactly(s: State, b: seq<byte>, f: ControlFrame)
    ensures Decode(s, b).1 == Ok(f) <==>
              && !s.poisoned && !s.open && !s.pending && s.nextReceive != U64_MAX
              && f.kind >= 0x8000_0000 && |f.payload| <= s.maximumPayload && |f.payload| <= 0x100_0000
              && b == Record(s.nonce, s.nextReceive, f)
  {
    if Decode(s, b).1 == Ok(f) {
      AcceptedIsRecord(s, b);
    } else if !s.poisoned && !s.open && !s.pending && s.nextReceive != U64_MAX && Admitted(s.maximumPayload, f) {
      RecordIsAccepted(s, f);
    }
  }

  /** Acceptance advances the sequence by one; every refusal poisons. */
  lemma DecodeMoves(s: State, b: seq<byte>)
    ensures var (t, r) := Decode(s, b);
            if r.Ok? then s.nextReceive < U64_MAX && t == s.(nextReceive := s.nextReceive + 1)
            else t == s.(poisoned := true, pending := t.pending) && (t.pending ==> s.pending)
  {
  }

  /** What each refusal of a record says of it and of the endpoint. */
  ghost predicate DecodeErrorHolds(e: ControlError, s: State, b: seq<byte>) {
    match e
    case Truncated => |b| < 72
    case Poisoned => s.poisoned
    case TransactionConflict => s.open
    case BadMagic => |b| >= 72 && b[0..8] != MAGIC
    case BadVersion => |b| >= 72 && (GetU16(b, 8) != VERSION_MAJOR || GetU16(b, 10) != VERSION_MINOR)
    case NonCanonical =>
      && |b| >= 72
      && (GetU32(b, 12) != 72 || GetU32(b, 28) != 0 || GetU32(b, 16) != 72 + GetU32(b, 20) || |b| != 72 + GetU32(b, 20))
    case PayloadTooLarge => |b| >= 72 && (GetU32(b, 20) > s.maximumPayload || GetU32(b, 20) > 0x100_0000)
    case ReservedKind => |b| >= 72 && GetU32(b, 24) < 0x8000_0000
    case WrongSession => |b| >= 72 && b[32..64] != s.nonce
    case ReplayOrReorder => s.pending || (|b| >= 72 && GetU64(b, 64) != s.nextReceive)
    case SequenceExhausted => s.nextReceive == U64_MAX
    case _ => false
  }

  /** A refused record is refused for the reason it names. */
  lemma DecodeErrorIsTrue(s: State, b: seq<byte>)
    requires Decode(s, b).1.Err?
    ensures DecodeErrorHolds(Decode(s, b).1.error, s, b)
  {
    DecodeErrors(s, b);
    if |b| >= 72 && HeaderFault(s, b).Some? {
      HeaderErrorIsTrue(s, b);
    }
  }

  lemma DecodeErrors(s: State, b: seq<byte>)
    requires Decode(s, b).1.Err?
    ensures var e := Decode(s, b).1.error;
            if |b| < 72 then e == Truncated
            else if HeaderFault(s, b).Some? then e == HeaderFault(s, b).value
            else e == NonCanonical && |b| != 72 + GetU32(b, 20)
  {
  }

  lemma HeaderErrorIsTrue(s: State, b: seq<byte>)
    requires |b| >= 72 && HeaderFault(s, b).Some?
    ensures DecodeErrorHolds(HeaderFault(s, b).value, s, b)
  {
  }

  /** Different sequences never share a record. */
  lemma SequenceIsBound(nonce: Bytes32, i: u64, f: ControlFrame, j: u64, g: ControlFrame)
    requires |f.payload| <= HARD_MAX_CONTROL_PAYLOAD_BYTES && |g.payload| <= HARD_MAX_CONTROL_PAYLOAD_BYTES
    requires Record(nonce, i, f) == Record(nonce, j, g)
    ensures i == j && f == g
  {
    var b := Record(nonce, i, f);
    EncodedIsRecord(Zeros(72 + |f.payload|), nonce, i, f);
    EncodedIsRecord(Zeros(72 + |g.payload|), nonce, j, g);
    RecordReads(b, nonce, i, f);
    RecordReads(b, nonce, j, g);
    assert f.payload == b[72..72 + |f.payload|] == g.payload;
  }

  // ----- transactions and sending -----

  function Begin(s: State): (State, Option<ControlError>) {
    if s.poisoned then (s, Some(Poisoned))
    else if s.open || s.pending then (Poison(s), Some(TransactionConflict))
    else (s.(open := true), None)
  }

  function End(s: State): (State, Option<ControlError>) {
    if s.poisoned then (s, Some(Poisoned))
    else if !s.open then (Poison(s), Some(TransactionConflict))
    else (s.(open := false), None)
  }

  function LocalFault(s: State, f: ControlFrame): Option<ControlError> {
    if s.poisoned then Some(Poisoned)
    else if s.open then Some(TransactionConflict)
    else if f.kind < APPLICATION_CONTROL_KIND_MIN then Some(ReservedKind)
    else if |f.payload| > U32_MAX then Some(LengthOverflow)
    else if |f.payload| > s.maximumPayload || |f.payload| > HARD_MAX_CONTROL_PAYLOAD_BYTES then Some(PayloadTooLarge)
    else if s.nextSend == U64_MAX then Some(SequenceExhausted)
    else None
  }

  /** `encode_parts_into`: conflicts and exhaustion poison, other refusals do not. */
  function SendFault(s: State, f: ControlFrame, room: nat): Option<ControlError> {
    if s.open || s.pending then Some(TransactionConflict)
    else if s.nextSend == U64_MAX then Some(SequenceExhausted)
    else match LocalFault(s, f)
      case Some(e) => Some(e)
      case None => if room < 72 + |f.payload| then Some(DestinationTooSmall) else None
  }

  function AfterSend(s: State, f: ControlFrame, room: nat): State {
    match SendFault(s, f, room)
    case None => if s.nextSend < U64_MAX then s.(nextSend := s.nextSend + 1) else s
    case Some(TransactionConflict) => Poison(s)
    case Some(SequenceExhausted) => Poison(s)
    case Some(_) => s
  }

  /** A send succeeds exactly on a healthy endpoint outside transactions, with a
      number left, for an application kind, within both payload limits and the
      buffer; then it takes one number and changes nothing else. A conflict and
      an exhausted number space poison, other refusals change nothing. */
  lemma SendsExactly(s: State, f: ControlFrame, room: nat)
    ensures SendFault(s, f, room).None? <==>
            && !s.poisoned && !s.open && !s.pending && s.nextSend < U64_MAX && f.kind >= 0x8000_0000
            && |f.payload| <= s.maximumPayload && |f.payload| <= 0x100_0000 && 72 + |f.payload| <= room
    ensures AfterSend(s, f, room) ==
            if SendFault(s, f, room).None? then s.(nextSend := s.nextSend + 1)
            else s.(poisoned := s.poisoned || s.open || s.pending || s.nextSend == U64_MAX)
  {
  }

  /** A transaction begins exactly on a healthy endpoint with none open and no
      receive pending, and is open afterwards; a conflict poisons. */
  lemma BeginsExactly(s: State)
    ensures Begin(s).1.None? <==> !s.poisoned && !s.open && !s.pending
    ensures Begin(s).1.None? ==> Begin(s).0 == s.(open := true)
    ensures Begin(s).1.Some? ==> Begin(s).0 == s.(poisoned := true)
    ensures Begin(s).1.Some? ==> Begin(s).1.value == if s.poisoned then Poisoned else TransactionConflict
  {
  }

  /** It ends exactly on a healthy endpoint with one open; ending none poisons. */
  lemma EndsExactly(s: State)
    ensures End(s).1.None? <==> !s.poisoned && s.open
    ensures End(s).1.None? ==> End(s).0 == s.(open := false)
    ensures End(s).1.Some? ==> End(s).0 == s.(poisoned := true)
    ensures End(s).1.Some? ==> End(s).1.value == if s.poisoned then Poisoned else TransactionConflict
  {
  }
}
