/** The HELLO, ACCEPT and REJECT frames and their single wire encoding. */
module Negotiation {
  import opened Machine
  import opened Wire
  import opened Limits
  import Bits

  const MAGIC: Bytes8 := [0x4E, 0x49, 0x50, 0x43, 0x48, 0x45, 0x4C, 0x31]  // NIPCHEL1
  const WIRE_MAJOR: u16 := 1
  const WIRE_MINOR: u16 := 0
  const HEADER_LEN: nat := 224
  const KIND_HELLO: u16 := 1
  const KIND_ACCEPT: u16 := 2
  const KIND_REJECT: u16 := 3
  const KNOWN_ATOMIC_FLAGS: u32 := 3

  datatype SenderRole = Coordinator | Receiver

  datatype FeatureBits = FeatureBits(low: u64, high: u64)

  datatype TargetFacts = TargetFacts(os: u16, architecture: u16, pointerWidth: byte, endian: byte)

  datatype AtomicOffer = AtomicOffer(
    u32LockFree: bool, u64LockFree: bool, u32Alignment: u16, u64Alignment: u16,
    pageAlignment: u32, cacheLineAlignment: u32)

  datatype HelloFrame = HelloFrame(
    role: SenderRole, nonce: Bytes32, supported: FeatureBits, required: FeatureBits,
    limits: SessionLimits, atomics: AtomicOffer, target: TargetFacts, payload: seq<byte>)

  /** A decision challenge is never all zero: its only constructors refuse that value. */
  type DecisionChallenge = s: Bytes16 | !IsZero(s) 
    witness var w := [1] + Zeros(15); assert w[0] == 1; w

  type NonZeroU32 = x: u32 | x != 0 witness 1

  datatype AcceptFrame = AcceptFrame(
    role: SenderRole, nonce: Bytes32, selected: FeatureBits, limits: SessionLimits,
    atomics: AtomicOffer, target: TargetFacts, digest: Bytes32, challenge: DecisionChallenge)

  datatype RejectFrame = RejectFrame(
    role: SenderRole, nonce: Bytes32, reason: NonZeroU32, challenge: DecisionChallenge)

  datatype Frame = Hello(hello: HelloFrame) | Accept(accept: AcceptFrame) | Reject(reject: RejectFrame)

  datatype WireError =
    | Truncated | BadMagic | BadVersion | BadKind | BadRole | BadTarget | TargetMismatch
    | BadAtomicFacts | AtomicMismatch | BadLimits | BadRejectReason | BadDecisionChallenge
    | NonceMismatch | NonCanonical | EffectiveMismatch | DecisionReplayOrOrder
    | DecisionChallengeMismatch | RequiredFeatureNotSupported | PayloadTooLarge | LengthOverflow | DestinationTooSmall

  predicate FeatureSubset(a: FeatureBits, b: FeatureBits) {
    Bits.Subset(a.low, b.low) && Bits.Subset(a.high, b.high)
  }

  function TargetFault(t: TargetFacts): Option<WireError> {
    if !(1 <= t.os <= 3) || !(1 <= t.architecture <= 2) || t.pointerWidth != 64 || t.endian != 1
    then Some(BadTarget) else None
  }

  function AtomicFault(a: AtomicOffer): Option<WireError> {
    if !Bits.IsPowerOfTwo(a.u32Alignment) || !Bits.IsPowerOfTwo(a.u64Alignment)
       || !Bits.IsPowerOfTwo(a.pageAlignment) || !Bits.IsPowerOfTwo(a.cacheLineAlignment)
       || a.pageAlignment < a.u32Alignment || a.pageAlignment < a.u64Alignment
       || a.cacheLineAlignment < a.u32Alignment || a.cacheLineAlignment < a.u64Alignment
    then Some(BadAtomicFacts) else None
  }

  function PayloadFault(length: nat, limit: u32): Option<WireError> {
    if length > HARD_MAX_BOOTSTRAP_PAYLOAD_BYTES || length > limit then Some(PayloadTooLarge) else None
  }

  function HelloFault(f: HelloFrame): Option<WireError> {
    if IsZero(f.nonce) then Some(NonceMismatch)
    else if !FeatureSubset(f.required, f.supported) then Some(RequiredFeatureNotSupported)
    else if Fault(f.limits).Some? then Some(BadLimits)
    else if AtomicFault(f.atomics).Some? then AtomicFault(f.atomics)
    else if TargetFault(f.target).Some? then TargetFault(f.target)
    else if |f.payload| > U32_MAX then Some(LengthOverflow)
    else PayloadFault(|f.payload|, f.limits.maxBootstrapPayloadBytes)
  }

  function AcceptFault(f: AcceptFrame): Option<WireError> {
    if IsZero(f.nonce) then Some(NonceMismatch)
    else if IsZero(f.digest) then Some(EffectiveMismatch)
    else if Fault(f.limits).Some? then Some(BadLimits)
    else if AtomicFault(f.atomics).Some? then AtomicFault(f.atomics)
    else TargetFault(f.target)
  }

  function RejectFault(f: RejectFrame): Option<WireError> {
    if IsZero(f.nonce) then Some(NonceMismatch) else None
  }

  function FrameFault(f: Frame): Option<WireError> {
    match f
    case Hello(h) => HelloFault(h)
    case Accept(a) => AcceptFault(a)
    case Reject(r) => RejectFault(r)
  }

  function RoleByte(r: SenderRole): byte {
    if r.Coordinator? then 1 else 2
  }

  function FrameRole(f: Frame): SenderRole {
    match f case Hello(h) => h.role case Accept(a) => a.role case Reject(r) => r.role
  }

  function FrameNonce(f: Frame): Bytes32 {
    match f case Hello(h) => h.nonce case Accept(a) => a.nonce case Reject(r) => r.nonce
  }

  function FramePayload(f: Frame): seq<byte> {
    if f.Hello? then f.hello.payload else []
  }

  function AtomicFlags(a: AtomicOffer): u32 {
    (if a.u32LockFree then 1 else 0) + (if a.u64LockFree then 2 else 0)
  }

  // ----- encoders, as the sequence of copies they perform -----

  function PutIdentity(b: seq<byte>, nonce: Bytes32, supported: FeatureBits, required: FeatureBits): (r: seq<byte>)
    requires |b| >= HEADER_LEN
    ensures |r| == |b|
  {
    var b := Put(b, 32, nonce);
    var b := Put(b, 64, U64Bytes(supported.low));
    var b := Put(b, 72, U64Bytes(supported.high));
    var b := Put(b, 80, U64Bytes(required.low));
    Put(b, 88, U64Bytes(required.high))
  }

  function PutLimits(b: seq<byte>, l: SessionLimits): (r: seq<byte>)
    requires |b| >= HEADER_LEN
    ensures |r| == |b|
  {
    var b := Put(b, 96, U16Bytes(l.maxRegionsPerBatch));
    var b := Put(b, 100, U32Bytes(l.maxActiveRegions));
    var b := Put(b, 104, U64Bytes(l.maxRegionBytes));
    var b := Put(b, 112, U64Bytes(l.maxBatchBytes));
    var b := Put(b, 120, U64Bytes(l.maxActiveBytes));
    var b := Put(b, 128, U64Bytes(l.maxTransactions));
    var b := Put(b, 136, U32Bytes(l.maxBootstrapPayloadBytes));
    Put(b, 140, U32Bytes(l.maxControlPayloadBytes))
  }

  function PutFacts(b: seq<byte>, a: AtomicOffer, t: TargetFacts): (r: seq<byte>)
    requires |b| >= HEADER_LEN
    ensures |r| == |b|
  {
    var b := Put(b, 144, U32Bytes(AtomicFlags(a)));
    var b := Put(b, 148, U16Bytes(a.u32Alignment));
    var b := Put(b, 150, U16Bytes(a.u64Alignment));
    var b := Put(b, 152, U32Bytes(a.pageAlignment));
    var b := Put(b, 156, U32Bytes(a.cacheLineAlignment));
    var b := Put(b, 160, U16Bytes(t.os));
    var b := Put(b, 162, U16Bytes(t.architecture));
    Put(b, 164, [t.pointerWidth, t.endian])
  }

  function PutCommon(b: seq<byte>, nonce: Bytes32, supported: FeatureBits, required: FeatureBits,
                     l: SessionLimits, a: AtomicOffer, t: TargetFacts): (r: seq<byte>)
    requires |b| >= HEADER_LEN
    ensures |r| == |b|
  {
    PutFacts(PutLimits(PutIdentity(b, nonce, supported, required), l), a, t)
  }

  ghost predicate LimitsAt(b: seq<byte>, l: SessionLimits) {
    && At(b, 96, U16Bytes(l.maxRegionsPerBatch))
    && At(b, 100, U32Bytes(l.maxActiveRegions))
    && At(b, 104, U64Bytes(l.maxRegionBytes))
    && At(b, 112, U64Bytes(l.maxBatchBytes))
    && At(b, 120, U64Bytes(l.maxActiveBytes))
    && At(b, 128, U64Bytes(l.maxTransactions))
    && At(b, 136, U32Bytes(l.maxBootstrapPayloadBytes))
    && At(b, 140, U32Bytes(l.maxControlPayloadBytes))
  }

  ghost predicate FactsAt(b: seq<byte>, a: AtomicOffer, t: TargetFacts) {
    && At(b, 144, U32Bytes((if a.u32LockFree then 1 else 0) + (if a.u64LockFree then 2 else 0)))
    && At(b, 148, U16Bytes(a.u32Alignment)) && At(b, 150, U16Bytes(a.u64Alignment))
    && At(b, 152, U32Bytes(a.pageAlignment)) && At(b, 156, U32Bytes(a.cacheLineAlignment))
    && At(b, 160, U16Bytes(t.os)) && At(b, 162, U16Bytes(t.architecture))
    && At(b, 164, [t.pointerWidth, t.endian])
  }

  ghost predicate CommonAt(b: seq<byte>, nonce: Bytes32, supported: FeatureBits,
                           l: SessionLimits, a: AtomicOffer, t: TargetFacts) {
    && At(b, 32, nonce)
    && At(b, 64, U64Bytes(supported.low)) && At(b, 72, U64Bytes(supported.high))
    && LimitsAt(b, l) && FactsAt(b, a, t)
  }

  /** Everything outside the range `lo..hi` stands where it stood. */
  ghost predicate KeptOutside(b: seq<byte>, r: seq<byte>, lo: nat, hi: nat) {
    && (forall o: nat, s: seq<byte> {:trigger At(b, o, s)} :: At(b, o, s) && (o + |s| <= lo || hi <= o) ==> At(r, o, s))
    && (forall i: nat, j: nat {:trigger ZeroRange(b, i, j)} ::
          ZeroRange(b, i, j) && (j <= lo || hi <= i) ==> ZeroRange(r, i, j))
  }

  lemma PutIdentityAt(b: seq<byte>, nonce: Bytes32, supported: FeatureBits, required: FeatureBits)
    requires |b| >= HEADER_LEN
    ensures var r := PutIdentity(b, nonce, supported, required);
            && At(r, 32, nonce) && At(r, 64, U64Bytes(supported.low)) && At(r, 72, U64Bytes(supported.high))
            && At(r, 80, U64Bytes(required.low)) && At(r, 88, U64Bytes(required.high)) && KeptOutside(b, r, 32, 96)
  {
  }

  lemma PutLimitsAt(b: seq<byte>, l: SessionLimits)
    requires |b| >= HEADER_LEN
    ensures var r := PutLimits(b, l);
            LimitsAt(r, l) && KeptOutside(b, r, 96, 144) && (ZeroRange(b, 98, 100) ==> ZeroRange(r, 98, 100))
  {
  }

  lemma PutFactsAt(b: seq<byte>, a: AtomicOffer, t: TargetFacts)
    requires |b| >= HEADER_LEN
    ensures var r := PutFacts(b, a, t); FactsAt(r, a, t) && KeptOutside(b, r, 144, 166)
  {
  }

  lemma PutCommonAt(b: seq<byte>, nonce: Bytes32, supported: FeatureBits, required: FeatureBits,
                    l: SessionLimits, a: AtomicOffer, t: TargetFacts)
    requires |b| >= HEADER_LEN
    ensures var r := PutCommon(b, nonce, supported, required, l, a, t);
            && CommonAt(r, nonce, supported, l, a, t)
            && At(r, 80, U64Bytes(required.low)) && At(r, 88, U64Bytes(required.high))
            && KeptOutside(b, r, 32, 166) && (ZeroRange(b, 98, 100) ==> ZeroRange(r, 98, 100))
  {
    var identity := PutIdentity(b, nonce, supported, required);
    var limits := PutLimits(identity, l);
    PutIdentityAt(b, nonce, supported, required);
    PutLimitsAt(identity, l);
    PutFactsAt(limits, a, t);
  }

  function PutPreamble(b: seq<byte>, kind: u16, role: SenderRole, required: u32, payloadLen: u32): (r: seq<byte>)
    requires |b| >= HEADER_LEN
    ensures |r| == |b|
  {
    var b := Put(b, 0, MAGIC);
    var b := Put(b, 8, U16Bytes(WIRE_MAJOR));
    var b := Put(b, 10, U16Bytes(WIRE_MINOR));
    var b := Put(b, 16, U32Bytes(HEADER_LEN));
    var b := Put(b, 20, U32Bytes(required));
    var b := Put(b, 24, U32Bytes(payloadLen));
    var b := Put(b, 12, U16Bytes(kind));
    Put(b, 14, [RoleByte(role)])
  }

  function EncodedLen(f: Frame): nat {
    HEADER_LEN + |FramePayload(f)|
  }

  function PutHello(b: seq<byte>, h: HelloFrame): (r: seq<byte>)
    requires EncodedLen(Hello(h)) <= |b| && EncodedLen(Hello(h)) <= U32_MAX
    ensures |r| == |b|
  {
    var p := PutPreamble(b, KIND_HELLO, h.role, EncodedLen(Hello(h)), |h.payload|);
    var c := PutCommon(p, h.nonce, h.supported, h.required, h.limits, h.atomics, h.target);
    Put(c, HEADER_LEN, h.payload)
  }

  function PutAccept(b: seq<byte>, a: AcceptFrame): (r: seq<byte>)
    requires HEADER_LEN <= |b|
    ensures |r| == |b|
  {
    var p := PutPreamble(b, KIND_ACCEPT, a.role, HEADER_LEN, 0);
    var c := PutCommon(p, a.nonce, a.selected, FeatureBits(0, 0), a.limits, a.atomics, a.target);
    Put(Put(c, 80, a.challenge), 166, a.digest)
  }

  function PutReject(b: seq<byte>, j: RejectFrame): (r: seq<byte>)
    requires HEADER_LEN <= |b|
    ensures |r| == |b|
  {
    var p := PutPreamble(b, KIND_REJECT, j.role, HEADER_LEN, 0);
    Put(Put(Put(p, 28, U32Bytes(j.reason)), 32, j.nonce), 80, j.challenge)
  }

  /** The generic encoder's copies: clear the whole frame, then write every field. */
  function EncodedOver(f: Frame, destination: seq<byte>): (r: seq<byte>)
    requires EncodedLen(f) <= |destination| && EncodedLen(f) <= U32_MAX
    ensures |r| == |destination|
  {
    var z := Put(destination, 0, Zeros(EncodedLen(f)));
    match f
    case Hello(h) => PutHello(z, h)
    case Accept(a) => PutAccept(z, a)
    case Reject(j) => PutReject(z, j)
  }

  /** The borrowed-HELLO encoder's copies: clear only the reserved ranges, then write every field. */
  function HelloOver(h: HelloFrame, destination: seq<byte>): (r: seq<byte>)
    requires EncodedLen(Hello(h)) <= |destination| && EncodedLen(Hello(h)) <= U32_MAX
    ensures |r| == |destination|
  {
    PutHello(ClearReserved(destination), h)
  }

  function ClearReserved(b: seq<byte>): (r: seq<byte>)
    requires |b| >= HEADER_LEN
    ensures |r| == |b|
    ensures ZeroRange(r, 15, 16) && ZeroRange(r, 28, 32) && ZeroRange(r, 98, 100)
    ensures ZeroRange(r, 166, 198) && ZeroRange(r, 198, 224)
  {
    var b1 := Put(b, 15, Zeros(1));
    var b2 := Put(b1, 28, Zeros(4));
    var b3 := Put(b2, 98, Zeros(2));
    var r := Put(b3, 166, Zeros(58));
    AtZeros(r, 15, 1);
    AtZeros(r, 28, 4);
    AtZeros(r, 98, 2);
    AtZeros(r, 166, 58);
    r
  }

  // ----- what a canonical frame holds, field by field -----

  ghost predicate PreambleAt(b: seq<byte>, f: Frame, kind: u16) {
    && |b| >= EncodedLen(f) && EncodedLen(f) <= U32_MAX
    && At(b, 0, MAGIC) && At(b, 8, U16Bytes(WIRE_MAJOR)) && At(b, 10, U16Bytes(WIRE_MINOR))
    && At(b, 12, U16Bytes(kind)) && At(b, 14, [if FrameRole(f) == Coordinator then 1 else 2])
    && ZeroRange(b, 15, 16)
    && At(b, 16, U32Bytes(HEADER_LEN)) && At(b, 20, U32Bytes(EncodedLen(f)))
    && At(b, 24, U32Bytes(|FramePayload(f)|)) && ZeroRange(b, 198, 224)
  }

  ghost predicate HelloBodyAt(b: seq<byte>, h: HelloFrame) {
    && ZeroRange(b, 28, 32)
    && CommonAt(b, h.nonce, h.supported, h.limits, h.atomics, h.target)
    && At(b, 80, U64Bytes(h.required.low)) && At(b, 88, U64Bytes(h.required.high))
    && ZeroRange(b, 98, 100) && ZeroRange(b, 166, 198) && At(b, 224, h.payload)
  }

  ghost predicate AcceptBodyAt(b: seq<byte>, a: AcceptFrame) {
    && ZeroRange(b, 28, 32)
    && CommonAt(b, a.nonce, a.selected, a.limits, a.atomics, a.target)
    && At(b, 80, a.challenge) && ZeroRange(b, 98, 100) && At(b, 166, a.digest)
  }

  ghost predicate RejectBodyAt(b: seq<byte>, j: RejectFrame) {
    && At(b, 28, U32Bytes(j.reason)) && At(b, 32, j.nonce)
    && ZeroRange(b, 64, 80) && At(b, 80, j.challenge) && ZeroRange(b, 96, 198)
  }

  /** `b` begins with the one canonical encoding of `f`. */
  ghost predicate FrameAt(b: seq<byte>, f: Frame) {
    match f
    case Hello(h) => PreambleAt(b, f, KIND_HELLO) && HelloBodyAt(b, h)
    case Accept(a) => PreambleAt(b, f, KIND_ACCEPT) && AcceptBodyAt(b, a)
    case Reject(j) => PreambleAt(b, f, KIND_REJECT) && RejectBodyAt(b, j)
  }

  /** Where a whole frame is cleared first, every subrange is clear. */
  lemma ClearedRanges(b: seq<byte>, n: nat)
    requires 224 <= n <= |b|
    ensures var z := Put(b, 0, Zeros(n));
            && ZeroRange(z, 15, 16) && ZeroRange(z, 28, 32) && ZeroRange(z, 64, 80) && ZeroRange(z, 96, 198)
            && ZeroRange(z, 98, 100) && ZeroRange(z, 166, 198) && ZeroRange(z, 198, 224)
  {
    AtZeros(Put(b, 0, Zeros(n)), 0, n);
  }

  lemma PutPreambleAt(b: seq<byte>, f: Frame, kind: u16)
    requires |b| >= EncodedLen(f) && EncodedLen(f) <= U32_MAX
    requires ZeroRange(b, 15, 16) && ZeroRange(b, 198, 224)
    ensures var r := PutPreamble(b, kind, FrameRole(f), EncodedLen(f), |FramePayload(f)|);
            && PreambleAt(r, f, kind)
            && (forall lo: nat, hi: nat {:trigger ZeroRange(b, lo, hi)} ::
                  ZeroRange(b, lo, hi) && 28 <= lo ==> ZeroRange(r, lo, hi))
  {
  }

  /** The last copies of each encoder, once the preamble and the common fields stand. */
  lemma FinishHello(c: seq<byte>, h: HelloFrame)
    requires PreambleAt(c, Hello(h), KIND_HELLO)
    requires CommonAt(c, h.nonce, h.supported, h.limits, h.atomics, h.target)
    requires At(c, 80, U64Bytes(h.required.low)) && At(c, 88, U64Bytes(h.required.high))
    requires ZeroRange(c, 28, 32) && ZeroRange(c, 98, 100) && ZeroRange(c, 166, 198)
    ensures FrameAt(Put(c, HEADER_LEN, h.payload), Hello(h))
  {
  }

  lemma FinishAccept(c: seq<byte>, a: AcceptFrame)
    requires PreambleAt(c, Accept(a), KIND_ACCEPT)
    requires CommonAt(c, a.nonce, a.selected, a.limits, a.atomics, a.target)
    requires ZeroRange(c, 28, 32) && ZeroRange(c, 98, 100)
    ensures FrameAt(Put(Put(c, 80, a.challenge), 166, a.digest), Accept(a))
  {
  }

  lemma FinishReject(p: seq<byte>, j: RejectFrame)
    requires PreambleAt(p, Reject(j), KIND_REJECT)
    requires ZeroRange(p, 64, 80) && ZeroRange(p, 96, 198)
    ensures FrameAt(Put(Put(Put(p, 28, U32Bytes(j.reason)), 32, j.nonce), 80, j.challenge), Reject(j))
  {
  }

  lemma CommonOverPreamble(p: seq<byte>, f: Frame, kind: u16, nonce: Bytes32, supported: FeatureBits,
                           required: FeatureBits, l: SessionLimits, a: AtomicOffer, t: TargetFacts)
    requires PreambleAt(p, f, kind) && ZeroRange(p, 28, 32) && ZeroRange(p, 98, 100) && ZeroRange(p, 166, 198)
    ensures var c := PutCommon(p, nonce, supported, required, l, a, t);
            && PreambleAt(c, f, kind) && CommonAt(c, nonce, supported, l, a, t)
            && At(c, 80, U64Bytes(required.low)) && At(c, 88, U64Bytes(required.high))
            && ZeroRange(c, 28, 32) && ZeroRange(c, 98, 100) && ZeroRange(c, 166, 198)
  {
    PutCommonAt(p, nonce, supported, required, l, a, t);
  }

  lemma PutHelloIsCanonical(z: seq<byte>, h: HelloFrame)
    requires EncodedLen(Hello(h)) <= |z| && EncodedLen(Hello(h)) <= U32_MAX
    requires ZeroRange(z, 15, 16) && ZeroRange(z, 28, 32) && ZeroRange(z, 98, 100)
    requires ZeroRange(z, 166, 198) && ZeroRange(z, 198, 224)
    ensures FrameAt(PutHello(z, h), Hello(h))
  {
    PutPreambleAt(z, Hello(h), KIND_HELLO);
    var p := PutPreamble(z, KIND_HELLO, h.role, EncodedLen(Hello(h)), |h.payload|);
    CommonOverPreamble(p, Hello(h), KIND_HELLO, h.nonce, h.supported, h.required, h.limits, h.atomics, h.target);
    FinishHello(PutCommon(p, h.nonce, h.supported, h.required, h.limits, h.atomics, h.target), h);
  }

  lemma PutAcceptIsCanonical(z: seq<byte>, a: AcceptFrame)
    requires |z| >= HEADER_LEN
    requires ZeroRange(z, 15, 16) && ZeroRange(z, 28, 32) && ZeroRange(z, 98, 100)
    requires ZeroRange(z, 166, 198) && ZeroRange(z, 198, 224)
    ensures FrameAt(PutAccept(z, a), Accept(a))
  {
    PutPreambleAt(z, Accept(a), KIND_ACCEPT);
    var p := PutPreamble(z, KIND_ACCEPT, a.role, HEADER_LEN, 0);
    CommonOverPreamble(p, Accept(a), KIND_ACCEPT, a.nonce, a.selected, FeatureBits(0, 0), a.limits, a.atomics,
                       a.target);
    FinishAccept(PutCommon(p, a.nonce, a.selected, FeatureBits(0, 0), a.limits, a.atomics, a.target), a);
  }

  lemma PutRejectIsCanonical(z: seq<byte>, j: RejectFrame)
    requires |z| >= HEADER_LEN
    requires ZeroRange(z, 15, 16) && ZeroRange(z, 64, 80) && ZeroRange(z, 96, 198) && ZeroRange(z, 198, 224)
    ensures FrameAt(PutReject(z, j), Reject(j))
  {
    PutPreambleAt(z, Reject(j), KIND_REJECT);
    FinishReject(PutPreamble(z, KIND_REJECT, j.role, HEADER_LEN, 0), j);
  }

  lemma ClearedHello(b: seq<byte>, h: HelloFrame)
    requires EncodedLen(Hello(h)) <= |b| && EncodedLen(Hello(h)) <= U32_MAX
    ensures FrameAt(PutHello(Put(b, 0, Zeros(EncodedLen(Hello(h)))), h), Hello(h))
  {
    ClearedRanges(b, EncodedLen(Hello(h)));
    PutHelloIsCanonical(Put(b, 0, Zeros(EncodedLen(Hello(h)))), h);
  }

  lemma ClearedAccept(b: seq<byte>, a: AcceptFrame)
    requires |b| >= HEADER_LEN
    ensures FrameAt(PutAccept(Put(b, 0, Zeros(HEADER_LEN)), a), Accept(a))
  {
    ClearedRanges(b, HEADER_LEN);
    PutAcceptIsCanonical(Put(b, 0, Zeros(HEADER_LEN)), a);
  }

  lemma ClearedReject(b: seq<byte>, j: RejectFrame)
    requires |b| >= HEADER_LEN
    ensures FrameAt(PutReject(Put(b, 0, Zeros(HEADER_LEN)), j), Reject(j))
  {
    ClearedRanges(b, HEADER_LEN);
    PutRejectIsCanonical(Put(b, 0, Zeros(HEADER_LEN)), j);
  }

  lemma EncodedOverIsCanonical(f: Frame, destination: seq<byte>)
    requires EncodedLen(f) <= |destination| && EncodedLen(f) <= U32_MAX
    ensures FrameAt(EncodedOver(f, destination), f)
  {
    match f
    case Hello(h) => ClearedHello(destination, h);
    case Accept(a) => ClearedAccept(destination, a);
    case Reject(j) => ClearedReject(destination, j);
  }

  /** The reserved ranges that the borrowed-HELLO encoder clears are all that it leaves unwritten. */
  lemma HelloOverIsCanonical(h: HelloFrame, destination: seq<byte>)
    requires EncodedLen(Hello(h)) <= |destination| && EncodedLen(Hello(h)) <= U32_MAX
    ensures FrameAt(HelloOver(h, destination), Hello(h))
  {
    PutHelloIsCanonical(ClearReserved(destination), h);
  }

  // ----- decoder -----

  function ReadFeatures(b: seq<byte>, offset: nat): FeatureBits
    requires offset + 16 <= |b|
  {
    FeatureBits(GetU64(b, offset), GetU64(b, offset + 8))
  }

  function ReadLimits(b: seq<byte>): SessionLimits
    requires |b| >= HEADER_LEN
  {
    SessionLimits(GetU16(b, 96), GetU64(b, 104), GetU64(b, 112), GetU32(b, 100), GetU64(b, 120),
                  GetU64(b, 128), GetU32(b, 136), GetU32(b, 140))
  }

  function ReadAtomics(b: seq<byte>): AtomicOffer
    requires |b| >= HEADER_LEN
  {
    var flags := GetU32(b, 144);
    AtomicOffer(Bits.And(flags, 1) != 0, Bits.And(flags, 2) != 0, GetU16(b, 148), GetU16(b, 150),
                GetU32(b, 152), GetU32(b, 156))
  }

  function ReadTarget(b: seq<byte>): TargetFacts
    requires |b| >= HEADER_LEN
  {
    TargetFacts(GetU16(b, 160), GetU16(b, 162), b[164], b[165])
  }

  /** Decoding limits, atomics and target, in the order the checks run. */
  function CommonFault(b: seq<byte>): Option<WireError>
    requires |b| >= HEADER_LEN
  {
    if GetU16(b, 98) != 0 then Some(NonCanonical)
    else if Fault(ReadLimits(b)).Some? then Some(BadLimits)
    else if Bits.AndNot(GetU32(b, 144), KNOWN_ATOMIC_FLAGS) != 0 then Some(BadAtomicFacts)
    else if AtomicFault(ReadAtomics(b)).Some? then AtomicFault(ReadAtomics(b))
    else TargetFault(ReadTarget(b))
  }

  function ReadHello(b: seq<byte>, role: SenderRole): HelloFrame
    requires |b| >= HEADER_LEN
  {
    HelloFrame(role, b[32..64], ReadFeatures(b, 64), ReadFeatures(b, 80),
               ReadLimits(b), ReadAtomics(b), ReadTarget(b), b[HEADER_LEN..])
  }

  function ReadAccept(b: seq<byte>, role: SenderRole): AcceptFrame
    requires |b| >= HEADER_LEN && !IsZero(b[80..96])
  {
    AcceptFrame(role, b[32..64], ReadFeatures(b, 64), ReadLimits(b), ReadAtomics(b),
                ReadTarget(b), b[166..198], b[80..96])
  }

  function DecodeHello(b: seq<byte>, role: SenderRole, payloadLen: u32, localLimit: u32): (r: Result<Frame, WireError>)
    requires |b| >= HEADER_LEN
    ensures r.Ok? ==> r.value.Hello? && r.value.hello.role == role && r.value.hello.payload == b[HEADER_LEN..]
  {
    if GetU32(b, 28) != 0 || !ZeroRange(b, 166, 198) then Err(NonCanonical)
    else if PayloadFault(payloadLen, localLimit).Some? then Err(PayloadTooLarge)
    else if !FeatureSubset(ReadFeatures(b, 80), ReadFeatures(b, 64)) then Err(RequiredFeatureNotSupported)
    else if CommonFault(b).Some? then Err(CommonFault(b).value)
    else if PayloadFault(payloadLen, ReadLimits(b).maxBootstrapPayloadBytes).Some? then Err(PayloadTooLarge)
    else
      var h := ReadHello(b, role);
      match HelloFault(h) case Some(e) => Err(e) case None => Ok(Hello(h))
  }

  function DecodeAccept(b: seq<byte>, role: SenderRole, payloadLen: u32): (r: Result<Frame, WireError>)
    requires |b| >= HEADER_LEN
    ensures r.Ok? ==> r.value.Accept? && r.value.accept.role == role && payloadLen == 0
  {
    if payloadLen != 0 || GetU32(b, 28) != 0 then Err(NonCanonical)
    else if CommonFault(b).Some? then Err(CommonFault(b).value)
    else if IsZero(b[80..96]) then Err(BadDecisionChallenge)
    else
      var a := ReadAccept(b, role);
      match AcceptFault(a) case Some(e) => Err(e) case None => Ok(Accept(a))
  }

  function DecodeReject(b: seq<byte>, role: SenderRole, payloadLen: u32): (r: Result<Frame, WireError>)
    requires |b| >= HEADER_LEN
    ensures r.Ok? ==> r.value.Reject? && r.value.reject.role == role && payloadLen == 0
  {
    if payloadLen != 0 || !ZeroRange(b, 64, 80) || !ZeroRange(b, 96, 198) then Err(NonCanonical)
    else if GetU32(b, 28) == 0 then Err(BadRejectReason)
    else if IsZero(b[80..96]) then Err(BadDecisionChallenge)
    else
      var j := RejectFrame(role, b[32..64], GetU32(b, 28), b[80..96]);
      match RejectFault(j) case Some(e) => Err(e) case None => Ok(Reject(j))
  }

  function DecodeRole(value: byte): Option<SenderRole> {
    if value == 1 then Some(Coordinator) else if value == 2 then Some(Receiver) else None
  }

  function DecodeFrame(b: seq<byte>, role: SenderRole, nonce: Bytes32, localLimit: u32): (r: Result<Frame, WireError>)
    ensures r.Ok? ==> |b| == EncodedLen(r.value) && FrameRole(r.value) == role
  {
    if |b| < HEADER_LEN then Err(Truncated)
    else if b[..8] != MAGIC then Err(BadMagic)
    else if GetU16(b, 8) != WIRE_MAJOR || GetU16(b, 10) != WIRE_MINOR then Err(BadVersion)
    else if DecodeRole(b[14]) != Some(role) then Err(BadRole)
    else if b[15] != 0 || GetU32(b, 16) != HEADER_LEN || !ZeroRange(b, 198, 224) then Err(NonCanonical)
    else
      var payloadLen := GetU32(b, 24);
      if GetU32(b, 20) != HEADER_LEN + payloadLen || |b| != HEADER_LEN + payloadLen then Err(NonCanonical)
      else if IsZero(b[32..64]) || b[32..64] != nonce then Err(NonceMismatch)
      else
        var kind := GetU16(b, 12);
        if kind == KIND_HELLO then DecodeHello(b, role, payloadLen, localLimit)
        else if kind == KIND_ACCEPT then DecodeAccept(b, role, payloadLen)
        else if kind == KIND_REJECT then DecodeReject(b, role, payloadLen)
        else Err(BadKind)
  }

  // ----- one encoding -----

  lemma FlagBits(flags: u32)
    ensures Bits.AndNot(flags, 3) == 0 <==> flags < 4
    ensures flags < 4 ==>
              flags == (if Bits.And(flags, 1) != 0 then 1 else 0) + (if Bits.And(flags, 2) != 0 then 2 else 0)
  {
    assert Bits.AndNot(flags, 3) == 2 * Bits.AndNot(flags / 2, 1) || flags == 0;
    assert flags / 2 > 0 ==> Bits.AndNot(flags / 2, 1) == 2 * Bits.AndNot(flags / 4, 0);
    AndNotZero(flags / 4);
  }

  lemma {:induction false} AndNotZero(x: nat)
    ensures Bits.AndNot(x, 0) == x
  {
    if x > 0 { AndNotZero(x / 2); }
  }

  lemma ReadLimitsAt(b: seq<byte>, l: SessionLimits)
    requires |b| >= HEADER_LEN
    ensures LimitsAt(b, l) <==> ReadLimits(b) == l
  {
  }

  lemma ReadTargetAt(b: seq<byte>, t: TargetFacts)
    requires |b| >= HEADER_LEN
    ensures At(b, 160, U16Bytes(t.os)) && At(b, 162, U16Bytes(t.architecture)) && At(b, 164, [t.pointerWidth, t.endian])
       <==> ReadTarget(b) == t
  {
    assert b[164..166] == [b[164], b[165]];
  }

  lemma ReadFactsAt(b: seq<byte>, a: AtomicOffer, t: TargetFacts)
    requires |b| >= HEADER_LEN
    ensures FactsAt(b, a, t) && Bits.AndNot(GetU32(b, 144), KNOWN_ATOMIC_FLAGS) == 0 <==>
            Bits.AndNot(GetU32(b, 144), KNOWN_ATOMIC_FLAGS) == 0 && ReadAtomics(b) == a && ReadTarget(b) == t
  {
    FlagBits(GetU32(b, 144));
    ReadTargetAt(b, t);
  }

  lemma ReadCommon(b: seq<byte>, nonce: Bytes32, supported: FeatureBits, l: SessionLimits, a: AtomicOffer,
                   t: TargetFacts)
    requires |b| >= HEADER_LEN
    ensures CommonAt(b, nonce, supported, l, a, t) && Bits.AndNot(GetU32(b, 144), KNOWN_ATOMIC_FLAGS) == 0 <==>
            && b[32..64] == nonce && ReadFeatures(b, 64) == supported && ReadLimits(b) == l
            && Bits.AndNot(GetU32(b, 144), KNOWN_ATOMIC_FLAGS) == 0 && ReadAtomics(b) == a && ReadTarget(b) == t
  {
    ReadLimitsAt(b, l);
    ReadFactsAt(b, a, t);
  }

  lemma ReadHead(b: seq<byte>, kind: u16, role: SenderRole)
    requires |b| >= HEADER_LEN
    ensures At(b, 0, MAGIC) && At(b, 8, U16Bytes(WIRE_MAJOR)) && At(b, 10, U16Bytes(WIRE_MINOR))
            && At(b, 12, U16Bytes(kind)) && At(b, 14, [RoleByte(role)]) && ZeroRange(b, 15, 16) <==>
            b[..8] == MAGIC && GetU16(b, 8) == WIRE_MAJOR && GetU16(b, 10) == WIRE_MINOR
            && GetU16(b, 12) == kind && DecodeRole(b[14]) == Some(role) && b[15] == 0
  {
    assert b[14..15] == [b[14]];
  }

  lemma ReadLengths(b: seq<byte>, required: u32, payloadLen: u32)
    requires |b| >= HEADER_LEN
    ensures At(b, 16, U32Bytes(HEADER_LEN)) && At(b, 20, U32Bytes(required)) && At(b, 24, U32Bytes(payloadLen)) <==>
            GetU32(b, 16) == HEADER_LEN && GetU32(b, 20) == required && GetU32(b, 24) == payloadLen
  {
  }

  lemma ReadPreamble(b: seq<byte>, f: Frame, kind: u16)
    requires |b| >= HEADER_LEN && |b| == EncodedLen(f)
    ensures PreambleAt(b, f, kind) <==>
            && b[..8] == MAGIC && GetU16(b, 8) == WIRE_MAJOR && GetU16(b, 10) == WIRE_MINOR
            && GetU16(b, 12) == kind && DecodeRole(b[14]) == Some(FrameRole(f)) && b[15] == 0
            && GetU32(b, 16) == HEADER_LEN && GetU32(b, 20) == |b| && GetU32(b, 24) == |b| - HEADER_LEN
            && ZeroRange(b, 198, 224)
  {
    ReadHead(b, kind, FrameRole(f));
    if |b| <= U32_MAX {
      ReadLengths(b, |b|, |FramePayload(f)|);
    }
  }

  lemma ReadZero(b: seq<byte>)
    requires |b| >= HEADER_LEN
    ensures GetU32(b, 28) == 0 <==> ZeroRange(b, 28, 32)
    ensures GetU16(b, 98) == 0 <==> ZeroRange(b, 98, 100)
  {
    ZeroLE(b[28..32]);
    ZeroLE(b[98..100]);
    assert IsZero(b[28..32]) <==> ZeroRange(b, 28, 32) by {
      assert forall i :: 28 <= i < 32 ==> b[i] == b[28..32][i - 28];
    }
    assert IsZero(b[98..100]) <==> ZeroRange(b, 98, 100) by {
      assert forall i :: 98 <= i < 100 ==> b[i] == b[98..100][i - 98];
    }
  }

  lemma {:induction false} ZeroLE(s: seq<byte>)
    ensures FromLE(s) == 0 <==> IsZero(s)
  {
    if s != [] {
      ZeroLE(s[1..]);
      if IsZero(s[1..]) && s[0] == 0 {
        assert forall i :: 0 < i < |s| ==> s[i] == s[1..][i - 1];
      }
    }
  }

  /** A frame is accepted exactly when the bytes are its canonical encoding, it is
      valid, and it comes from the expected peer and session within the local limit. */
  predicate Acceptable(f: Frame, role: SenderRole, nonce: Bytes32, localLimit: u32) {
    && FrameFault(f).None? && FrameRole(f) == role && FrameNonce(f) == nonce
    && |FramePayload(f)| <= localLimit
  }

  ghost predicate CanonicalReserved(b: seq<byte>)
    requires |b| >= HEADER_LEN
  {
    GetU32(b, 28) == 0 && GetU16(b, 98) == 0 && Bits.AndNot(GetU32(b, 144), KNOWN_ATOMIC_FLAGS) == 0
  }

  lemma ReadHelloBody(b: seq<byte>, h: HelloFrame)
    requires |b| == HEADER_LEN + |h.payload|
    ensures HelloBodyAt(b, h) <==> CanonicalReserved(b) && ZeroRange(b, 166, 198) && h == ReadHello(b, h.role)
  {
    ReadCommon(b, h.nonce, h.supported, h.limits, h.atomics, h.target);
    ReadZero(b);
    FlagBits(GetU32(b, 144));
    assert b[HEADER_LEN..] == b[HEADER_LEN..HEADER_LEN + |h.payload|];
  }

  lemma ReadAcceptBody(b: seq<byte>, a: AcceptFrame)
    requires |b| == HEADER_LEN
    ensures AcceptBodyAt(b, a) <==> CanonicalReserved(b) && !IsZero(b[80..96]) && a == ReadAccept(b, a.role)
  {
    ReadCommon(b, a.nonce, a.selected, a.limits, a.atomics, a.target);
    ReadZero(b);
    FlagBits(GetU32(b, 144));
  }

  lemma DecodeHelloReads(b: seq<byte>, role: SenderRole, localLimit: u32, h: HelloFrame)
    requires |b| >= HEADER_LEN && |b| - HEADER_LEN <= U32_MAX
    ensures DecodeHello(b, role, |b| - HEADER_LEN, localLimit) == Ok(Hello(h)) <==>
            && CanonicalReserved(b) && ZeroRange(b, 166, 198) && h == ReadHello(b, role)
            && HelloFault(h).None? && |h.payload| <= localLimit
  {
  }

  lemma DecodeAcceptReads(b: seq<byte>, role: SenderRole, a: AcceptFrame)
    requires |b| == HEADER_LEN
    ensures DecodeAccept(b, role, 0) == Ok(Accept(a)) <==>
            && CanonicalReserved(b) && !IsZero(b[80..96]) && a == ReadAccept(b, role) && AcceptFault(a).None?
  {
  }

  lemma DecodeRejectReads(b: seq<byte>, role: SenderRole, j: RejectFrame)
    requires |b| == HEADER_LEN
    ensures DecodeReject(b, role, 0) == Ok(Reject(j)) <==>
            j.role == role && RejectBodyAt(b, j) && RejectFault(j).None?
  {
  }

  /** The checks before the kind is inspected. */
  lemma DecodePreamble(b: seq<byte>, role: SenderRole, nonce: Bytes32, localLimit: u32, f: Frame)
    requires |b| == EncodedLen(f) && FrameRole(f) == role
    ensures PreambleAt(b, f, KIND_HELLO) && b[32..64] == nonce && !IsZero(nonce) ==>
              DecodeFrame(b, role, nonce, localLimit) == DecodeHello(b, role, |b| - HEADER_LEN, localLimit)
    ensures PreambleAt(b, f, KIND_ACCEPT) && b[32..64] == nonce && !IsZero(nonce) ==>
              DecodeFrame(b, role, nonce, localLimit) == DecodeAccept(b, role, |b| - HEADER_LEN)
    ensures PreambleAt(b, f, KIND_REJECT) && b[32..64] == nonce && !IsZero(nonce) ==>
              DecodeFrame(b, role, nonce, localLimit) == DecodeReject(b, role, |b| - HEADER_LEN)
    ensures DecodeFrame(b, role, nonce, localLimit).Ok? ==>
              && b[32..64] == nonce && !IsZero(nonce)
              && (PreambleAt(b, f, KIND_HELLO) || PreambleAt(b, f, KIND_ACCEPT) || PreambleAt(b, f, KIND_REJECT))
  {
    ReadPreamble(b, f, KIND_HELLO);
    ReadPreamble(b, f, KIND_ACCEPT);
    ReadPreamble(b, f, KIND_REJECT);
  }

  lemma DecodedHelloIsCanonical(b: seq<byte>, role: SenderRole, nonce: Bytes32, localLimit: u32, h: HelloFrame)
    requires DecodeFrame(b, role, nonce, localLimit) == Ok(Hello(h))
    ensures FrameAt(b, Hello(h)) && Acceptable(Hello(h), role, nonce, localLimit)
  {
    DecodePreamble(b, role, nonce, localLimit, Hello(h));
    DecodeHelloReads(b, role, localLimit, h);
    ReadHelloBody(b, h);
  }

  lemma DecodedAcceptIsCanonical(b: seq<byte>, role: SenderRole, nonce: Bytes32, localLimit: u32, a: AcceptFrame)
    requires DecodeFrame(b, role, nonce, localLimit) == Ok(Accept(a))
    ensures FrameAt(b, Accept(a)) && Acceptable(Accept(a), role, nonce, localLimit)
  {
    DecodePreamble(b, role, nonce, localLimit, Accept(a));
    DecodeAcceptReads(b, role, a);
    ReadAcceptBody(b, a);
  }

  lemma DecodedRejectIsCanonical(b: seq<byte>, role: SenderRole, nonce: Bytes32, localLimit: u32, j: RejectFrame)
    requires DecodeFrame(b, role, nonce, localLimit) == Ok(Reject(j))
    ensures FrameAt(b, Reject(j)) && Acceptable(Reject(j), role, nonce, localLimit)
  {
    DecodePreamble(b, role, nonce, localLimit, Reject(j));
    DecodeRejectReads(b, role, j);
  }

  lemma CanonicalDecodes(b: seq<byte>, role: SenderRole, nonce: Bytes32, localLimit: u32, f: Frame)
    requires |b| == EncodedLen(f) && FrameAt(b, f) && Acceptable(f, role, nonce, localLimit)
    ensures DecodeFrame(b, role, nonce, localLimit) == Ok(f)
  {
    DecodePreamble(b, role, nonce, localLimit, f);
    match f
    case Hello(h) =>
      DecodeHelloReads(b, role, localLimit, h);
      ReadHelloBody(b, h);
    case Accept(a) =>
      DecodeAcceptReads(b, role, a);
      ReadAcceptBody(b, a);
    case Reject(j) =>
      DecodeRejectReads(b, role, j);
  }

  /** Bytes are accepted as `f` exactly when they are the canonical encoding of
      `f` and `f` is acceptable, so no frame has a second accepted encoding. */
  lemma DecodesExactlyCanonical(b: seq<byte>, role: SenderRole, nonce: Bytes32, localLimit: u32, f: Frame)
    ensures DecodeFrame(b, role, nonce, localLimit) == Ok(f) <==>
            |b| == EncodedLen(f) && FrameAt(b, f) && Acceptable(f, role, nonce, localLimit)
  {
    if DecodeFrame(b, role, nonce, localLimit) == Ok(f) {
      match f
      case Hello(h) => DecodedHelloIsCanonical(b, role, nonce, localLimit, h);
      case Accept(a) => DecodedAcceptIsCanonical(b, role, nonce, localLimit, a);
      case Reject(j) => DecodedRejectIsCanonical(b, role, nonce, localLimit, j);
    } else if |b| == EncodedLen(f) && FrameAt(b, f) && Acceptable(f, role, nonce, localLimit) {
      CanonicalDecodes(b, role, nonce, localLimit, f);
    }
  }

  lemma SamePreamble(a: seq<byte>, b: seq<byte>, f: Frame, kind: u16)
    requires PreambleAt(a, f, kind) && PreambleAt(b, f, kind)
    ensures forall i :: 0 <= i < 28 || 198 <= i < 224 ==> a[i] == b[i]
  {
    SameAt(a, b, 0, MAGIC);
    SameAt(a, b, 8, U16Bytes(WIRE_MAJOR));
    SameAt(a, b, 10, U16Bytes(WIRE_MINOR));
    SameAt(a, b, 12, U16Bytes(kind));
    SameAt(a, b, 14, [RoleByte(FrameRole(f))]);
    SameAt(a, b, 16, U32Bytes(HEADER_LEN));
    SameAt(a, b, 20, U32Bytes(EncodedLen(f)));
    SameAt(a, b, 24, U32Bytes(|FramePayload(f)|));
  }

  lemma SameCommon(x: seq<byte>, y: seq<byte>, nonce: Bytes32, supported: FeatureBits,
                   l: SessionLimits, a: AtomicOffer, t: TargetFacts)
    requires CommonAt(x, nonce, supported, l, a, t) && CommonAt(y, nonce, supported, l, a, t)
    ensures forall i :: 32 <= i < 80 || 96 <= i < 98 || 100 <= i < 166 ==> x[i] == y[i]
  {
    SameAt(x, y, 32, nonce);
    SameAt(x, y, 64, U64Bytes(supported.low));
    SameAt(x, y, 72, U64Bytes(supported.high));
    SameAt(x, y, 96, U16Bytes(l.maxRegionsPerBatch));
    SameAt(x, y, 100, U32Bytes(l.maxActiveRegions));
    SameAt(x, y, 104, U64Bytes(l.maxRegionBytes));
    SameAt(x, y, 112, U64Bytes(l.maxBatchBytes));
    SameAt(x, y, 120, U64Bytes(l.maxActiveBytes));
    SameAt(x, y, 128, U64Bytes(l.maxTransactions));
    SameAt(x, y, 136, U32Bytes(l.maxBootstrapPayloadBytes));
    SameAt(x, y, 140, U32Bytes(l.maxControlPayloadBytes));
    SameAt(x, y, 144, U32Bytes(AtomicFlags(a)));
    SameAt(x, y, 148, U16Bytes(a.u32Alignment));
    SameAt(x, y, 150, U16Bytes(a.u64Alignment));
    SameAt(x, y, 152, U32Bytes(a.pageAlignment));
    SameAt(x, y, 156, U32Bytes(a.cacheLineAlignment));
    SameAt(x, y, 160, U16Bytes(t.os));
    SameAt(x, y, 162, U16Bytes(t.architecture));
    SameAt(x, y, 164, [t.pointerWidth, t.endian]);
  }

  lemma SameHello(x: seq<byte>, y: seq<byte>, h: HelloFrame)
    requires FrameAt(x, Hello(h)) && FrameAt(y, Hello(h))
    ensures x[..EncodedLen(Hello(h))] == y[..EncodedLen(Hello(h))]
  {
    SamePreamble(x, y, Hello(h), KIND_HELLO);
    SameCommon(x, y, h.nonce, h.supported, h.limits, h.atomics, h.target);
    SameAt(x, y, 80, U64Bytes(h.required.low));
    SameAt(x, y, 88, U64Bytes(h.required.high));
    SameAt(x, y, 224, h.payload);
  }

  lemma SameAccept(x: seq<byte>, y: seq<byte>, a: AcceptFrame)
    requires FrameAt(x, Accept(a)) && FrameAt(y, Accept(a))
    ensures x[..HEADER_LEN] == y[..HEADER_LEN]
  {
    SamePreamble(x, y, Accept(a), KIND_ACCEPT);
    SameCommon(x, y, a.nonce, a.selected, a.limits, a.atomics, a.target);
    SameAt(x, y, 80, a.challenge);
    SameAt(x, y, 166, a.digest);
  }

  lemma SameReject(x: seq<byte>, y: seq<byte>, j: RejectFrame)
    requires FrameAt(x, Reject(j)) && FrameAt(y, Reject(j))
    ensures x[..HEADER_LEN] == y[..HEADER_LEN]
  {
    SamePreamble(x, y, Reject(j), KIND_REJECT);
    SameAt(x, y, 28, U32Bytes(j.reason));
    SameAt(x, y, 32, j.nonce);
    SameAt(x, y, 80, j.challenge);
  }

  /** The field map fixes every byte of the frame. */
  lemma CanonicalIsUnique(x: seq<byte>, y: seq<byte>, f: Frame)
    requires FrameAt(x, f) && FrameAt(y, f)
    ensures x[..EncodedLen(f)] == y[..EncodedLen(f)]
  {
    match f
    case Hello(h) => SameHello(x, y, h);
    case Accept(a) => SameAccept(x, y, a);
    case Reject(j) => SameReject(x, y, j);
  }

  lemma PreamblePrefix(b: seq<byte>, f: Frame, kind: u16)
    requires PreambleAt(b, f, kind)
    ensures PreambleAt(b[..EncodedLen(f)], f, kind)
  {
    PrefixKeeps(b, EncodedLen(f));
  }

  lemma HelloBodyPrefix(b: seq<byte>, h: HelloFrame, n: nat)
    requires HelloBodyAt(b, h) && EncodedLen(Hello(h)) <= n <= |b|
    ensures HelloBodyAt(b[..n], h)
  {
    PrefixKeeps(b, n);
  }

  lemma FramePrefix(b: seq<byte>, f: Frame)
    requires FrameAt(b, f)
    ensures FrameAt(b[..EncodedLen(f)], f)
  {
    match f
    case Hello(h) =>
      PreamblePrefix(b, f, KIND_HELLO);
      HelloBodyPrefix(b, h, EncodedLen(f));
    case Accept(a) =>
      PreamblePrefix(b, f, KIND_ACCEPT);
      AcceptBodyPrefix(b, a, EncodedLen(f));
    case Reject(j) =>
      PreamblePrefix(b, f, KIND_REJECT);
      PrefixKeeps(b, EncodedLen(f));
  }

  lemma AcceptBodyPrefix(b: seq<byte>, a: AcceptFrame, n: nat)
    requires AcceptBodyAt(b, a) && HEADER_LEN <= n <= |b|
    ensures AcceptBodyAt(b[..n], a)
  {
    PrefixKeeps(b, n);
  }

  /** Decoding what was encoded returns it, whatever the buffer held before. */
  lemma EncodeThenDecode(f: Frame, destination: seq<byte>, localLimit: u32)
    requires EncodedLen(f) <= |destination| && EncodedLen(f) <= U32_MAX
    requires FrameFault(f).None? && |FramePayload(f)| <= localLimit
    ensures DecodeFrame(EncodedOver(f, destination)[..EncodedLen(f)], FrameRole(f), FrameNonce(f), localLimit) == Ok(f)
  {
    var b := EncodedOver(f, destination);
    EncodedOverIsCanonical(f, destination);
    FramePrefix(b, f);
    CanonicalDecodes(b[..EncodedLen(f)], FrameRole(f), FrameNonce(f), localLimit, f);
  }

  lemma CanonicalReencodes(b: seq<byte>, f: Frame, destination: seq<byte>)
    requires |b| == EncodedLen(f) <= |destination| && FrameAt(b, f)
    ensures EncodedLen(f) <= U32_MAX && EncodedOver(f, destination)[..|b|] == b
  {
    EncodedOverIsCanonical(f, destination);
    SameFrame(EncodedOver(f, destination), b, f);
  }

  lemma SameFrame(a: seq<byte>, b: seq<byte>, f: Frame)
    requires |b| == EncodedLen(f) <= |a| && FrameAt(a, f) && FrameAt(b, f)
    ensures a[..|b|] == b
  {
    CanonicalIsUnique(a, b, f);
    assert b[..|b|] == b;
  }

  /** Accepted bytes re-encode to themselves, over any buffer. */
  lemma DecodeThenEncode(b: seq<byte>, role: SenderRole, nonce: Bytes32, localLimit: u32, f: Frame,
                         destination: seq<byte>)
    requires DecodeFrame(b, role, nonce, localLimit) == Ok(f) && |b| <= |destination|
    ensures |b| == EncodedLen(f) <= U32_MAX && EncodedOver(f, destination)[..|b|] == b
  {
    DecodesExactlyCanonical(b, role, nonce, localLimit, f);
    CanonicalReencodes(b, f, destination);
  }

  /** The borrowed-HELLO encoder writes, on any dirty buffer, the bytes of the
      generic encoder, although it clears only four reserved ranges. */
  lemma HelloEncodersAgree(h: HelloFrame, dirty: seq<byte>, other: seq<byte>)
    requires EncodedLen(Hello(h)) <= U32_MAX
    requires EncodedLen(Hello(h)) <= |dirty| && EncodedLen(Hello(h)) <= |other|
    ensures HelloOver(h, dirty)[..EncodedLen(Hello(h))] == EncodedOver(Hello(h), other)[..EncodedLen(Hello(h))]
  {
    HelloOverIsCanonical(h, dirty);
    EncodedOverIsCanonical(Hello(h), other);
    CanonicalIsUnique(HelloOver(h, dirty), EncodedOver(Hello(h), other), Hello(h));
  }

  lemma PutHelloTail(z: seq<byte>, h: HelloFrame, tail: seq<byte>)
    requires EncodedLen(Hello(h)) <= |z| && EncodedLen(Hello(h)) <= U32_MAX && At(z, EncodedLen(Hello(h)), tail)
    ensures At(PutHello(z, h), EncodedLen(Hello(h)), tail)
  {
    var p := PutPreamble(z, KIND_HELLO, h.role, EncodedLen(Hello(h)), |h.payload|);
    assert At(p, EncodedLen(Hello(h)), tail);
    PutCommonAt(p, h.nonce, h.supported, h.required, h.limits, h.atomics, h.target);
  }

  /** Encoding in place never touches a byte past the frame. */
  lemma HelloOverStaysInFrame(h: HelloFrame, d: seq<byte>, tail: seq<byte>)
    requires EncodedLen(Hello(h)) <= |d| && EncodedLen(Hello(h)) <= U32_MAX
    requires At(d, EncodedLen(Hello(h)), tail)
    ensures At(HelloOver(h, d), EncodedLen(Hello(h)), tail)
  {
    PutHelloTail(ClearReserved(d), h, tail);
  }

  // ----- the encoders in place -----

  method PutPreambleInto(d: array<byte>, kind: u16, role: SenderRole, required: u32, payloadLen: u32)
    requires d.Length >= HEADER_LEN
    modifies d
    ensures d[..] == PutPreamble(old(d[..]), kind, role, required, payloadLen)
  {
    PutBytes(d, 0, MAGIC);
    PutBytes(d, 8, U16Bytes(WIRE_MAJOR));
    PutBytes(d, 10, U16Bytes(WIRE_MINOR));
    PutBytes(d, 16, U32Bytes(HEADER_LEN));
    PutBytes(d, 20, U32Bytes(required));
    PutBytes(d, 24, U32Bytes(payloadLen));
    PutBytes(d, 12, U16Bytes(kind));
    PutBytes(d, 14, [RoleByte(role)]);
  }

  method PutIdentityInto(d: array<byte>, nonce: Bytes32, supported: FeatureBits, required: FeatureBits)
    requires d.Length >= HEADER_LEN
    modifies d
    ensures d[..] == PutIdentity(old(d[..]), nonce, supported, required)
  {
    PutBytes(d, 32, nonce);
    PutBytes(d, 64, U64Bytes(supported.low));
    PutBytes(d, 72, U64Bytes(supported.high));
    PutBytes(d, 80, U64Bytes(required.low));
    PutBytes(d, 88, U64Bytes(required.high));
  }

  method PutLimitsInto(d: array<byte>, l: SessionLimits)
    requires d.Length >= HEADER_LEN
    modifies d
    ensures d[..] == PutLimits(old(d[..]), l)
  {
    PutBytes(d, 96, U16Bytes(l.maxRegionsPerBatch));
    PutBytes(d, 100, U32Bytes(l.maxActiveRegions));
    PutBytes(d, 104, U64Bytes(l.maxRegionBytes));
    PutBytes(d, 112, U64Bytes(l.maxBatchBytes));
    PutBytes(d, 120, U64Bytes(l.maxActiveBytes));
    PutBytes(d, 128, U64Bytes(l.maxTransactions));
    PutBytes(d, 136, U32Bytes(l.maxBootstrapPayloadBytes));
    PutBytes(d, 140, U32Bytes(l.maxControlPayloadBytes));
  }

  method PutFactsInto(d: array<byte>, a: AtomicOffer, t: TargetFacts)
    requires d.Length >= HEADER_LEN
    modifies d
    ensures d[..] == PutFacts(old(d[..]), a, t)
  {
    var flags := 0;
    if a.u32LockFree {
      flags := flags + 1;
    }
    if a.u64LockFree {
      flags := flags + 2;
    }
    PutBytes(d, 144, U32Bytes(flags));
    PutBytes(d, 148, U16Bytes(a.u32Alignment));
    PutBytes(d, 150, U16Bytes(a.u64Alignment));
    PutBytes(d, 152, U32Bytes(a.pageAlignment));
    PutBytes(d, 156, U32Bytes(a.cacheLineAlignment));
    PutBytes(d, 160, U16Bytes(t.os));
    PutBytes(d, 162, U16Bytes(t.architecture));
    PutBytes(d, 164, [t.pointerWidth, t.endian]);
  }

  method ClearReservedInto(d: array<byte>)
    requires d.Length >= HEADER_LEN
    modifies d
    ensures d[..] == ClearReserved(old(d[..]))
  {
    PutBytes(d, 15, Zeros(1));
    PutBytes(d, 28, Zeros(4));
    PutBytes(d, 98, Zeros(2));
    PutBytes(d, 166, Zeros(58));
  }

  /** The header writes of a HELLO over an already cleared buffer. */
  method PutHelloInto(d: array<byte>, h: HelloFrame)
    requires EncodedLen(Hello(h)) <= d.Length && EncodedLen(Hello(h)) <= U32_MAX
    modifies d
    ensures d[..] == PutHello(old(d[..]), h)
  {
    PutPreambleInto(d, KIND_HELLO, h.role, HEADER_LEN + |h.payload|, |h.payload|);
    PutIdentityInto(d, h.nonce, h.supported, h.required);
    PutLimitsInto(d, h.limits);
    PutFactsInto(d, h.atomics, h.target);
    PutBytes(d, HEADER_LEN, h.payload);
  }

  /** `encode_hello_into`, writing only the frame. */
  method EncodeHelloInto(h: HelloFrame, destination: array<byte>) returns (r: Result<nat, WireError>)
    modifies destination
    ensures r.Ok? <==> HelloFault(h).None? && EncodedLen(Hello(h)) <= destination.Length
    ensures r.Ok? ==> r.value == EncodedLen(Hello(h)) <= U32_MAX
                      && destination[..] == HelloOver(h, old(destination[..]))
    ensures r.Err? ==> unchanged(destination)
    ensures r.Err? ==> r.error == if HelloFault(h).Some? then HelloFault(h).value else DestinationTooSmall
  {
    var fault := HelloFault(h);
    if fault.Some? {
      return Err(fault.value);
    }
    var required := HEADER_LEN + |h.payload|;
    if destination.Length < required {
      return Err(DestinationTooSmall);
    }
    ClearReservedInto(destination);
    PutHelloInto(destination, h);
    return Ok(required);
  }

  method PutAcceptInto(d: array<byte>, a: AcceptFrame)
    requires HEADER_LEN <= d.Length
    modifies d
    ensures d[..] == PutAccept(old(d[..]), a)
  {
    PutPreambleInto(d, KIND_ACCEPT, a.role, HEADER_LEN, 0);
    PutIdentityInto(d, a.nonce, a.selected, FeatureBits(0, 0));
    PutLimitsInto(d, a.limits);
    PutFactsInto(d, a.atomics, a.target);
    PutBytes(d, 80, a.challenge);
    PutBytes(d, 166, a.digest);
  }

  method PutRejectInto(d: array<byte>, j: RejectFrame)
    requires HEADER_LEN <= d.Length
    modifies d
    ensures d[..] == PutReject(old(d[..]), j)
  {
    PutPreambleInto(d, KIND_REJECT, j.role, HEADER_LEN, 0);
    PutBytes(d, 28, U32Bytes(j.reason));
    PutBytes(d, 32, j.nonce);
    PutBytes(d, 80, j.challenge);
  }

  method FillFrame(f: Frame, d: array<byte>)
    requires EncodedLen(f) <= d.Length && EncodedLen(f) <= U32_MAX
    modifies d
    ensures d[..] == EncodedOver(f, old(d[..]))
  {
    PutBytes(d, 0, Zeros(EncodedLen(f)));
    match f
    case Hello(h) => PutHelloInto(d, h);
    case Accept(a) => PutAcceptInto(d, a);
    case Reject(j) => PutRejectInto(d, j);
  }

  /** `encode_into` for all three kinds. */
  method EncodeInto(f: Frame, destination: array<byte>) returns (r: Result<nat, WireError>)
    modifies destination
    ensures r.Ok? <==> FrameFault(f).None? && EncodedLen(f) <= destination.Length
    ensures r.Ok? ==> r.value == EncodedLen(f) <= U32_MAX && destination[..] == EncodedOver(f, old(destination[..]))
    ensures r.Err? ==> unchanged(destination)
    ensures r.Err? ==> r.error == if FrameFault(f).Some? then FrameFault(f).value else DestinationTooSmall
  {
    var fault := FrameFault(f);
    if fault.Some? {
      return Err(fault.value);
    }
    if destination.Length < EncodedLen(f) {
      return Err(DestinationTooSmall);
    }
    FaultlessFits(f);
    FillFrame(f, destination);
    return Ok(EncodedLen(f));
  }

  lemma FaultlessFits(f: Frame)
    requires FrameFault(f).None?
    ensures EncodedLen(f) <= U32_MAX
  {
  }
}
