/** The rules of the negotiation in terms of single fields and bits: which
    frames are valid, which pairs of HELLOs reduce, and to what. */
module HelloRules {
  import opened Machine
  import opened Wire
  import opened Limits
  import opened Negotiation
  import opened Transcript
  import Bits

  // ----- limits, targets and atomics -----

  /** Every limit is positive and at most its hard maximum. */
  predicate LimitsInRange(l: SessionLimits) {
    && 1 <= l.maxRegionsPerBatch <= 16 && 1 <= l.maxRegionBytes <= 0x100_0000_0000
    && 1 <= l.maxBatchBytes <= 0x400_0000_0000 && 1 <= l.maxActiveRegions <= 0x10_0000
    && 1 <= l.maxActiveBytes <= 0x1000_0000_0000 && 1 <= l.maxTransactions <= 0x1_0000_0000_0000
    && 1 <= l.maxBootstrapPayloadBytes <= 0x100_0000 && 1 <= l.maxControlPayloadBytes <= 0x100_0000
  }

  /** One of the limits is zero. */
  predicate SomeLimitIsZero(l: SessionLimits) {
    0 in [l.maxRegionsPerBatch, l.maxRegionBytes, l.maxBatchBytes, l.maxActiveRegions, l.maxActiveBytes,
          l.maxTransactions, l.maxBootstrapPayloadBytes, l.maxControlPayloadBytes]
  }

  lemma LimitsValidExactly(l: SessionLimits)
    ensures Fault(l).None? <==> LimitsInRange(l)
    ensures Fault(l).Some? ==> Fault(l).value == if SomeLimitIsZero(l) then ZeroLimit else AboveHardMaximum
  {
    var all := [l.maxRegionsPerBatch, l.maxRegionBytes, l.maxBatchBytes, l.maxActiveRegions, l.maxActiveBytes,
                l.maxTransactions, l.maxBootstrapPayloadBytes, l.maxControlPayloadBytes];
    if 0 in all {
      var k :| 0 <= k < |all| && all[k] == 0;
    } else {
      assert all[0] != 0 && all[1] != 0 && all[2] != 0 && all[3] != 0;
      assert all[4] != 0 && all[5] != 0 && all[6] != 0 && all[7] != 0;
    }
  }

  ghost predicate IsPow2(x: nat) {
    exists n: nat :: x == Pow2(n)
  }

  lemma {:induction false} PowIsPositive(n: nat)
    ensures Pow2(n) >= 1
  {
    if n > 0 {
      PowIsPositive(n - 1);
    }
  }

  lemma {:induction false} PowerIsPow2(x: nat) returns (n: nat)
    requires Bits.IsPowerOfTwo(x)
    ensures x == Pow2(n)
  {
    if x == 1 {
      n := 0;
    } else {
      var half := PowerIsPow2(x / 2);
      n := half + 1;
    }
  }

  lemma Doubled(x: nat)
    ensures 2 * x % 2 == 0 && 2 * x / 2 == x
  {
  }

  lemma {:induction false} Pow2IsPower(n: nat)
    ensures Bits.IsPowerOfTwo(Pow2(n))
  {
    if n > 0 {
      Pow2IsPower(n - 1);
      PowIsPositive(n - 1);
      Doubled(Pow2(n - 1));
    }
  }

  lemma PowersAreExact(x: nat)
    ensures Bits.IsPowerOfTwo(x) <==> IsPow2(x)
  {
    if Bits.IsPowerOfTwo(x) {
      var n := PowerIsPow2(x);
    }
    if IsPow2(x) {
      var n: nat :| x == Pow2(n);
      Pow2IsPower(n);
    }
  }

  /** Alignments are powers of two, and pages and cache lines hold both words. */
  ghost predicate AtomicsAreSound(u32Alignment: nat, u64Alignment: nat, page: nat, line: nat) {
    && IsPow2(u32Alignment) && IsPow2(u64Alignment) && IsPow2(page) && IsPow2(line)
    && u32Alignment <= page && u64Alignment <= page && u32Alignment <= line && u64Alignment <= line
  }

  predicate TargetIsKnown(t: TargetFacts) {
    t.os in {1, 2, 3} && t.architecture in {1, 2} && t.pointerWidth == 64 && t.endian == 1
  }

  lemma AtomicsValidExactly(a: AtomicOffer)
    ensures AtomicFault(a).None? <==>
            AtomicsAreSound(a.u32Alignment, a.u64Alignment, a.pageAlignment, a.cacheLineAlignment)
    ensures AtomicFault(a).Some? ==> AtomicFault(a).value == BadAtomicFacts
  {
    PowersAreExact(a.u32Alignment);
    PowersAreExact(a.u64Alignment);
    PowersAreExact(a.pageAlignment);
    PowersAreExact(a.cacheLineAlignment);
  }

  lemma TargetValidExactly(t: TargetFacts)
    ensures TargetFault(t) == if TargetIsKnown(t) then None else Some(BadTarget)
  {
  }

  // ----- frames -----

  /** Every bit of `a` is set in `b`. */
  ghost predicate BitsIn(a: FeatureBits, b: FeatureBits) {
    && (forall k: nat :: Bits.Bit(a.low, k) ==> Bits.Bit(b.low, k))
    && (forall k: nat :: Bits.Bit(a.high, k) ==> Bits.Bit(b.high, k))
  }

  lemma SubsetIsBits(a: FeatureBits, b: FeatureBits)
    ensures FeatureSubset(a, b) <==> BitsIn(a, b)
  {
    if FeatureSubset(a, b) {
      forall k: nat | Bits.Bit(a.low, k) ensures Bits.Bit(b.low, k) { Bits.SubsetBit(a.low, b.low, k); }
      forall k: nat | Bits.Bit(a.high, k) ensures Bits.Bit(b.high, k) { Bits.SubsetBit(a.high, b.high, k); }
    } else if !Bits.Subset(a.low, b.low) {
      var k := Bits.MissingBit(a.low, b.low);
    } else {
      var k := Bits.MissingBit(a.high, b.high);
    }
  }

  ghost predicate HelloIsValid(h: HelloFrame) {
    && HasNonZero(h.nonce) && BitsIn(h.required, h.supported) && LimitsInRange(h.limits)
    && AtomicsAreSound(h.atomics.u32Alignment, h.atomics.u64Alignment, h.atomics.pageAlignment,
                       h.atomics.cacheLineAlignment)
    && TargetIsKnown(h.target) && |h.payload| <= 0x100_0000 && |h.payload| <= h.limits.maxBootstrapPayloadBytes
  }

  ghost predicate AcceptIsValid(a: AcceptFrame) {
    && HasNonZero(a.nonce) && HasNonZero(a.digest) && LimitsInRange(a.limits)
    && AtomicsAreSound(a.atomics.u32Alignment, a.atomics.u64Alignment, a.atomics.pageAlignment,
                       a.atomics.cacheLineAlignment)
    && TargetIsKnown(a.target)
  }

  ghost predicate FrameIsValid(f: Frame) {
    match f
    case Hello(h) => HelloIsValid(h)
    case Accept(a) => AcceptIsValid(a)
    case Reject(r) => HasNonZero(r.nonce)
  }

  /** The first rule a HELLO breaks, in the order they are checked. */
  ghost predicate HelloErrorHolds(e: WireError, h: HelloFrame) {
    match e
    case NonceMismatch => !HasNonZero(h.nonce)
    case RequiredFeatureNotSupported => !BitsIn(h.required, h.supported)
    case BadLimits => !LimitsInRange(h.limits)
    case BadAtomicFacts => !AtomicsAreSound(h.atomics.u32Alignment, h.atomics.u64Alignment, h.atomics.pageAlignment,
                                            h.atomics.cacheLineAlignment)
    case BadTarget => !TargetIsKnown(h.target)
    case LengthOverflow => |h.payload| > 0xFFFF_FFFF
    case PayloadTooLarge =>
      |h.payload| <= 0xFFFF_FFFF && (|h.payload| > 0x100_0000 || |h.payload| > h.limits.maxBootstrapPayloadBytes)
    case _ => false
  }

  lemma HelloValidExactly(h: HelloFrame)
    ensures HelloFault(h).None? <==> HelloIsValid(h)
    ensures HelloFault(h).Some? ==> HelloErrorHolds(HelloFault(h).value, h)
  {
    SubsetIsBits(h.required, h.supported);
    LimitsValidExactly(h.limits);
    AtomicsValidExactly(h.atomics);
    TargetValidExactly(h.target);
  }

  /** A frame passes validation exactly when each of its fields is sound. */
  lemma FrameValidExactly(f: Frame)
    ensures FrameFault(f).None? <==> FrameIsValid(f)
  {
    match f
    case Hello(h) => HelloValidExactly(h);
    case Accept(a) =>
      LimitsValidExactly(a.limits);
      AtomicsValidExactly(a.atomics);
      TargetValidExactly(a.target);
    case Reject(r) =>
  }

  // ----- what a decoding error says -----

  predicate AtomicsRead(b: seq<byte>)
    requires |b| >= 224
  {
    GetU32(b, 144) <= 3
  }

  /** A length or a reserved byte of the frame is not what its kind asks for. */
  predicate Malformed(b: seq<byte>)
    requires |b| >= 224
  {
    || b[15] != 0 || GetU32(b, 16) != 224 || GetU32(b, 20) != |b| || 224 + GetU32(b, 24) != |b|
    || HasNonZero(b[28..32]) || HasNonZero(b[198..224])
    || (GetU16(b, 12) == 3 && (HasNonZero(b[64..80]) || HasNonZero(b[96..198])))
    || (GetU16(b, 12) == 1 && HasNonZero(b[166..198])) || GetU16(b, 98) != 0
    || (GetU16(b, 12) != 1 && GetU32(b, 24) != 0)
  }

  ghost predicate HeaderErrorHolds(e: WireError, b: seq<byte>, role: SenderRole, nonce: Bytes32, localLimit: u32)
    requires |b| >= 224
  {
    match e
    case BadMagic => b[..8] != MAGIC
    case BadVersion => GetU16(b, 8) != 1 || GetU16(b, 10) != 0
    case BadKind => GetU16(b, 12) != 1 && GetU16(b, 12) != 2 && GetU16(b, 12) != 3
    case BadRole => b[14] != if role == Coordinator then 1 else 2
    case NonceMismatch => b[32..64] != nonce || !HasNonZero(nonce)
    case BadLimits => !LimitsInRange(ReadLimits(b))
    case BadAtomicFacts =>
      var a := ReadAtomics(b);
      !AtomicsRead(b) || !AtomicsAreSound(a.u32Alignment, a.u64Alignment, a.pageAlignment, a.cacheLineAlignment)
    case BadTarget => !TargetIsKnown(ReadTarget(b))
    case PayloadTooLarge =>
      var n := GetU32(b, 24);
      n > 0x100_0000 || n > localLimit || n > ReadLimits(b).maxBootstrapPayloadBytes
    case RequiredFeatureNotSupported => !BitsIn(ReadFeatures(b, 80), ReadFeatures(b, 64))
    case BadDecisionChallenge => !HasNonZero(b[80..96])
    case BadRejectReason => GetU32(b, 28) == 0
    case EffectiveMismatch => !HasNonZero(b[166..198])
    case NonCanonical => Malformed(b)
    case _ => false
  }

  lemma NotZeroRange(b: seq<byte>, lo: nat, hi: nat)
    requires lo <= hi <= |b| && !ZeroRange(b, lo, hi)
    ensures HasNonZero(b[lo..hi])
  {
    var i :| lo <= i < hi && b[i] != 0;
    assert b[lo..hi][i - lo] != 0;
  }

  lemma ZeroReads(b: seq<byte>, at: nat)
    requires at + 4 <= |b| && IsZero(b[at..at + 4])
    ensures GetU32(b, at) == 0
  {
    ZeroWord();
    assert b[at..at + 4] == Zeros(4);
  }

  lemma NotZeroWord(b: seq<byte>, at: nat)
    requires at + 4 <= |b| && GetU32(b, at) != 0
    ensures HasNonZero(b[at..at + 4])
  {
    if IsZero(b[at..at + 4]) {
      ZeroReads(b, at);
    }
  }

  lemma FlagsRead(b: seq<byte>)
    requires |b| >= 224
    ensures Bits.AndNot(GetU32(b, 144), KNOWN_ATOMIC_FLAGS) == 0 <==> AtomicsRead(b)
  {
    FlagBits(GetU32(b, 144));
  }

  lemma CommonErrorIsTrue(b: seq<byte>, role: SenderRole, nonce: Bytes32, localLimit: u32)
    requires |b| >= 224 && CommonFault(b).Some?
    ensures HeaderErrorHolds(CommonFault(b).value, b, role, nonce, localLimit)
  {
    LimitsValidExactly(ReadLimits(b));
    AtomicsValidExactly(ReadAtomics(b));
    TargetValidExactly(ReadTarget(b));
    FlagsRead(b);
  }

  lemma HelloDecodes(b: seq<byte>, role: SenderRole, localLimit: u32)
    requires |b| >= 224 && DecodeHello(b, role, GetU32(b, 24), localLimit).Err?
    ensures var e := DecodeHello(b, role, GetU32(b, 24), localLimit).error;
            if GetU32(b, 28) != 0 || !ZeroRange(b, 166, 198) then e == NonCanonical
            else if PayloadFault(GetU32(b, 24), localLimit).Some? then e == PayloadTooLarge
            else if !FeatureSubset(ReadFeatures(b, 80), ReadFeatures(b, 64)) then e == RequiredFeatureNotSupported
            else if CommonFault(b).Some? then e == CommonFault(b).value
            else if PayloadFault(GetU32(b, 24), ReadLimits(b).maxBootstrapPayloadBytes).Some? then e == PayloadTooLarge
            else HelloFault(ReadHello(b, role)) == Some(e)
  {
  }

  /** Behind those checks only the nonce can still be wrong. */
  lemma HelloRestErrors(b: seq<byte>, role: SenderRole)
    requires |b| >= 224 && |b| == 224 + GetU32(b, 24) && CommonFault(b).None?
    requires FeatureSubset(ReadFeatures(b, 80), ReadFeatures(b, 64))
    requires PayloadFault(GetU32(b, 24), ReadLimits(b).maxBootstrapPayloadBytes).None?
    ensures HelloFault(ReadHello(b, role)).Some? ==>
              HelloFault(ReadHello(b, role)).value == NonceMismatch && IsZero(b[32..64])
  {
  }

  lemma HelloDecodeErrorIsTrue(b: seq<byte>, role: SenderRole, nonce: Bytes32, localLimit: u32)
    requires |b| >= 224 && |b| == 224 + GetU32(b, 24) && GetU16(b, 12) == 1 && b[32..64] == nonce
    requires DecodeHello(b, role, GetU32(b, 24), localLimit).Err?
    ensures HeaderErrorHolds(DecodeHello(b, role, GetU32(b, 24), localLimit).error, b, role, nonce, localLimit)
  {
    HelloDecodes(b, role, localLimit);
    SubsetIsBits(ReadFeatures(b, 80), ReadFeatures(b, 64));
    if GetU32(b, 28) != 0 {
      NotZeroWord(b, 28);
    } else if !ZeroRange(b, 166, 198) {
      NotZeroRange(b, 166, 198);
    } else if CommonFault(b).Some? {
      CommonErrorIsTrue(b, role, nonce, localLimit);
    } else if FeatureSubset(ReadFeatures(b, 80), ReadFeatures(b, 64))
              && PayloadFault(GetU32(b, 24), ReadLimits(b).maxBootstrapPayloadBytes).None? {
      HelloRestErrors(b, role);
    }
  }

  lemma AcceptErrors(a: AcceptFrame)
    requires AcceptFault(a).Some?
    ensures match AcceptFault(a).value
            case NonceMismatch => IsZero(a.nonce)
            case EffectiveMismatch => IsZero(a.digest)
            case BadLimits => Fault(a.limits).Some?
            case BadAtomicFacts => AtomicFault(a.atomics).Some?
            case BadTarget => TargetFault(a.target).Some?
            case _ => false
  {
  }

  /** Behind the common checks only the nonce and the digest can still be wrong. */
  lemma AcceptRestErrors(b: seq<byte>, role: SenderRole)
    requires |b| >= 224 && CommonFault(b).None? && !IsZero(b[80..96]) && AcceptFault(ReadAccept(b, role)).Some?
    ensures var e := AcceptFault(ReadAccept(b, role)).value;
            (e == NonceMismatch && IsZero(b[32..64])) || (e == EffectiveMismatch && IsZero(b[166..198]))
  {
    AcceptErrors(ReadAccept(b, role));
  }

  lemma AcceptDecodes(b: seq<byte>, role: SenderRole)
    requires |b| >= 224 && DecodeAccept(b, role, GetU32(b, 24)).Err?
    ensures var e := DecodeAccept(b, role, GetU32(b, 24)).error;
            if GetU32(b, 24) != 0 || GetU32(b, 28) != 0 then e == NonCanonical
            else if CommonFault(b).Some? then e == CommonFault(b).value
            else if IsZero(b[80..96]) then e == BadDecisionChallenge
            else AcceptFault(ReadAccept(b, role)) == Some(e)
  {
  }

  lemma AcceptDecodeErrorIsTrue(b: seq<byte>, role: SenderRole, nonce: Bytes32, localLimit: u32)
    requires |b| >= 224 && |b| == 224 + GetU32(b, 24) && GetU16(b, 12) == 2 && b[32..64] == nonce
    requires DecodeAccept(b, role, GetU32(b, 24)).Err?
    ensures HeaderErrorHolds(DecodeAccept(b, role, GetU32(b, 24)).error, b, role, nonce, localLimit)
  {
    AcceptDecodes(b, role);
    if GetU32(b, 28) != 0 {
      NotZeroWord(b, 28);
    } else if GetU32(b, 24) == 0 {
      if CommonFault(b).Some? {
        CommonErrorIsTrue(b, role, nonce, localLimit);
      } else if !IsZero(b[80..96]) {
        AcceptRestErrors(b, role);
      }
    }
  }

  lemma RejectDecodeErrorIsTrue(b: seq<byte>, role: SenderRole, nonce: Bytes32, localLimit: u32)
    requires |b| >= 224 && |b| == 224 + GetU32(b, 24) && GetU16(b, 12) == 3 && b[32..64] == nonce
    requires DecodeReject(b, role, GetU32(b, 24)).Err?
    ensures HeaderErrorHolds(DecodeReject(b, role, GetU32(b, 24)).error, b, role, nonce, localLimit)
  {
    if !ZeroRange(b, 64, 80) {
      NotZeroRange(b, 64, 80);
    } else if !ZeroRange(b, 96, 198) {
      NotZeroRange(b, 96, 198);
    }
  }

  /** The fields in front, in the order they are looked at. */
  predicate PreamblePasses(b: seq<byte>, role: SenderRole, nonce: Bytes32)
    requires |b| >= 224
  {
    && b[..8] == MAGIC && GetU16(b, 8) == 1 && GetU16(b, 10) == 0
    && DecodeRole(b[14]) == Some(role) && b[15] == 0 && GetU32(b, 16) == 224 && ZeroRange(b, 198, 224)
    && GetU32(b, 20) == 224 + GetU32(b, 24) && |b| == 224 + GetU32(b, 24)
    && !IsZero(b[32..64]) && b[32..64] == nonce
  }

  /** The first of them that fails. */
  function PreambleFault(b: seq<byte>, role: SenderRole): WireError
    requires |b| >= 224
  {
    if b[..8] != MAGIC then BadMagic
    else if GetU16(b, 8) != 1 || GetU16(b, 10) != 0 then BadVersion
    else if DecodeRole(b[14]) != Some(role) then BadRole
    else if b[15] != 0 || GetU32(b, 16) != 224 || !ZeroRange(b, 198, 224)
            || GetU32(b, 20) != 224 + GetU32(b, 24) || |b| != 224 + GetU32(b, 24) then NonCanonical
    else NonceMismatch
  }

  lemma PreambleFails(b: seq<byte>, role: SenderRole, nonce: Bytes32, localLimit: u32)
    requires |b| >= 224 && !PreamblePasses(b, role, nonce)
    ensures DecodeFrame(b, role, nonce, localLimit) == Err(PreambleFault(b, role))
  {
  }

  lemma PreambleErrorIsTrue(b: seq<byte>, role: SenderRole, nonce: Bytes32, localLimit: u32)
    requires |b| >= 224 && !PreamblePasses(b, role, nonce)
    ensures HeaderErrorHolds(PreambleFault(b, role), b, role, nonce, localLimit)
  {
    if !ZeroRange(b, 198, 224) {
      NotZeroRange(b, 198, 224);
    }
  }

  lemma KindDecodes(b: seq<byte>, role: SenderRole, nonce: Bytes32, localLimit: u32)
    requires |b| >= 224 && PreamblePasses(b, role, nonce)
    ensures DecodeFrame(b, role, nonce, localLimit) ==
            if GetU16(b, 12) == 1 then DecodeHello(b, role, GetU32(b, 24), localLimit)
            else if GetU16(b, 12) == 2 then DecodeAccept(b, role, GetU32(b, 24))
            else if GetU16(b, 12) == 3 then DecodeReject(b, role, GetU32(b, 24))
            else Err(BadKind)
  {
  }

  /** Bytes that are not a frame are refused for the reason named. */
  lemma DecodeErrorIsTrue(b: seq<byte>, role: SenderRole, nonce: Bytes32, localLimit: u32)
    requires DecodeFrame(b, role, nonce, localLimit).Err?
    ensures var e := DecodeFrame(b, role, nonce, localLimit).error;
            if |b| < 224 then e == Truncated else HeaderErrorHolds(e, b, role, nonce, localLimit)
  {
    if |b| >= 224 {
      if PreamblePasses(b, role, nonce) {
        KindDecodes(b, role, nonce, localLimit);
        if GetU16(b, 12) == 1 {
          HelloDecodeErrorIsTrue(b, role, nonce, localLimit);
        } else if GetU16(b, 12) == 2 {
          AcceptDecodeErrorIsTrue(b, role, nonce, localLimit);
        } else if GetU16(b, 12) == 3 {
          RejectDecodeErrorIsTrue(b, role, nonce, localLimit);
        }
      } else {
        PreambleFails(b, role, nonce, localLimit);
        PreambleErrorIsTrue(b, role, nonce, localLimit);
      }
    }
  }

  // ----- the reduction -----

  /** The locally discovered facts fit the offer's fields and are sound. */
  ghost predicate LocalIsSound(v: AtomicCapabilities) {
    && v.u32Alignment <= 0xFFFF && v.u64Alignment <= 0xFFFF
    && v.pageAlignment <= 0xFFFF_FFFF && v.cacheLineAlignment <= 0xFFFF_FFFF
    && AtomicsAreSound(v.u32Alignment, v.u64Alignment, v.pageAlignment, v.cacheLineAlignment)
  }

  predicate AlignedAlike(a: AtomicOffer, v: AtomicCapabilities) {
    && a.u32Alignment == v.u32Alignment && a.u64Alignment == v.u64Alignment
    && a.pageAlignment == v.pageAlignment && a.cacheLineAlignment == v.cacheLineAlignment
  }

  /** Feature `k` of the low word is one this build knows, both HELLOs support it,
      and the atomic operation behind it is lock-free on both sides and locally. */
  predicate Usable(k: nat, c: HelloFrame, r: HelloFrame, local: AtomicCapabilities) {
    && Bits.Bit(c.supported.low, k) && Bits.Bit(r.supported.low, k)
    && (|| (k == 0 && local.u32LockFree && c.atomics.u32LockFree && r.atomics.u32LockFree)
        || (k == 1 && local.u64LockFree && c.atomics.u64LockFree && r.atomics.u64LockFree))
  }

  /** What either HELLO requires can be used; the high word has no known feature. */
  ghost predicate RequirementsMet(c: HelloFrame, r: HelloFrame, local: AtomicCapabilities) {
    && (forall k: nat :: Bits.Bit(c.required.low, k) ==> Usable(k, c, r, local))
    && (forall k: nat :: Bits.Bit(r.required.low, k) ==> Usable(k, c, r, local))
    && c.required.high == 0 && r.required.high == 0
  }

  lemma LocalOfferExactly(v: AtomicCapabilities)
    ensures LocalOffer(v).Ok? <==> LocalIsSound(v)
    ensures LocalOffer(v).Ok? ==>
              && LocalOffer(v).value.u32LockFree == v.u32LockFree && LocalOffer(v).value.u64LockFree == v.u64LockFree
              && AlignedAlike(LocalOffer(v).value, v)
  {
    if v.u32Alignment <= U16_MAX && v.u64Alignment <= U16_MAX
       && v.pageAlignment <= U32_MAX && v.cacheLineAlignment <= U32_MAX {
      AtomicsValidExactly(AtomicOffer(v.u32LockFree, v.u64LockFree, v.u32Alignment, v.u64Alignment,
                                      v.pageAlignment, v.cacheLineAlignment));
    }
  }

  lemma SmallBits(k: nat)
    ensures (Bits.Bit(3, k) <==> k < 2) && (Bits.Bit(2, k) <==> k == 1) && (Bits.Bit(1, k) <==> k == 0)
  {
    if k >= 2 {
      Bits.ZeroHasNoBits(k - 2);
      assert Bits.Bit(3, k) == Bits.Bit(1, k - 1) == Bits.Bit(0, k - 2);
      assert Bits.Bit(2, k) == Bits.Bit(1, k - 1);
      assert Bits.Bit(1, k) == Bits.Bit(0, k - 1);
      Bits.ZeroHasNoBits(k - 1);
    }
  }

  lemma FlagBit(a: AtomicOffer, k: nat)
    ensures Bits.Bit(AtomicFlags(a), k) <==> (k == 0 && a.u32LockFree) || (k == 1 && a.u64LockFree)
  {
    SmallBits(k);
    Bits.ZeroHasNoBits(k);
  }

  /** Bit by bit, what is selected is what is usable. */
  lemma SelectedBit(c: HelloFrame, r: HelloFrame, local: AtomicCapabilities, mine: AtomicOffer, k: nat)
    requires mine.u32LockFree == local.u32LockFree && mine.u64LockFree == local.u64LockFree
    ensures var selected := SelectedFeatures(c, r, EffectiveAtomics(mine, c.atomics, r.atomics));
            (Bits.Bit(selected.low, k) <==> Usable(k, c, r, local)) && selected.high == 0
  {
    var atomics := EffectiveAtomics(mine, c.atomics, r.atomics);
    var two := Bits.And(c.supported.low, r.supported.low);
    Bits.AndBit(c.supported.low, r.supported.low, k);
    Bits.AndBit(two, 3, k);
    Bits.AndBit(Bits.And(two, 3), AtomicFlags(atomics), k);
    SmallBits(k);
    FlagBit(atomics, k);
  }

  lemma NoBitsIsZero(x: nat)
    requires forall k: nat :: !Bits.Bit(x, k)
    ensures x == 0
  {
    Bits.SubsetByBits(x, 0);
    WholeIsRest(x);
  }

  lemma {:induction false} WholeIsRest(x: nat)
    ensures Bits.AndNot(x, 0) == x
  {
    if x > 0 {
      WholeIsRest(x / 2);
    }
  }

  lemma RequiredIsMet(x: FeatureBits, selected: FeatureBits, c: HelloFrame, r: HelloFrame, local: AtomicCapabilities)
    requires selected.high == 0 && forall k: nat :: Bits.Bit(selected.low, k) <==> Usable(k, c, r, local)
    ensures FeatureSubset(x, selected) <==>
            (forall k: nat :: Bits.Bit(x.low, k) ==> Usable(k, c, r, local)) && x.high == 0
  {
    Bits.SubsetByBits(x.low, selected.low);
    Bits.SubsetByBits(x.high, 0);
    if FeatureSubset(x, selected) {
      forall k: nat ensures !Bits.Bit(x.high, k) {
        Bits.ZeroHasNoBits(k);
      }
      NoBitsIsZero(x.high);
    }
  }

  /** Two HELLOs reduce exactly when both are valid, they come from the two roles
      with one nonce and this target, all alignments are the local ones, and every
      feature either requires is usable. */
  ghost predicate Reducible(c: HelloFrame, r: HelloFrame, local: AtomicCapabilities, current: TargetFacts) {
    && HelloIsValid(c) && HelloIsValid(r) && c.role == Coordinator && r.role == Receiver
    && c.nonce == r.nonce && c.target == current && r.target == current
    && LocalIsSound(local) && AlignedAlike(c.atomics, local) && AlignedAlike(r.atomics, local)
    && RequirementsMet(c, r, local)
  }

  lemma SelectedBits(c: HelloFrame, r: HelloFrame, local: AtomicCapabilities, mine: AtomicOffer)
    requires mine.u32LockFree == local.u32LockFree && mine.u64LockFree == local.u64LockFree
    ensures var selected := SelectedFeatures(c, r, EffectiveAtomics(mine, c.atomics, r.atomics));
            selected.high == 0 && forall k: nat :: Bits.Bit(selected.low, k) <==> Usable(k, c, r, local)
  {
    var selected := SelectedFeatures(c, r, EffectiveAtomics(mine, c.atomics, r.atomics));
    SelectedBit(c, r, local, mine, 0);
    forall k: nat ensures Bits.Bit(selected.low, k) <==> Usable(k, c, r, local) {
      SelectedBit(c, r, local, mine, k);
    }
  }

  lemma UnionIsMet(c: HelloFrame, r: HelloFrame, local: AtomicCapabilities, mine: AtomicOffer)
    requires mine.u32LockFree == local.u32LockFree && mine.u64LockFree == local.u64LockFree
    ensures FeatureSubset(FeatureUnion(c.required, r.required),
                          SelectedFeatures(c, r, EffectiveAtomics(mine, c.atomics, r.atomics)))
       <==> RequirementsMet(c, r, local)
  {
    var selected := SelectedFeatures(c, r, EffectiveAtomics(mine, c.atomics, r.atomics));
    SelectedBits(c, r, local, mine);
    Bits.OrSubset(c.required.low, r.required.low, selected.low);
    Bits.OrSubset(c.required.high, r.required.high, selected.high);
    RequiredIsMet(c.required, selected, c, r, local);
    RequiredIsMet(r.required, selected, c, r, local);
  }

  /** The checks in the order the reduction makes them. */
  lemma PairPasses(c: HelloFrame, r: HelloFrame, local: AtomicCapabilities, current: TargetFacts,
                   sha: seq<byte> -> Bytes32)
    ensures FromHelloPair(c, r, local, current, sha).Ok? <==>
            && HelloFault(c).None? && HelloFault(r).None? && c.role == Coordinator && r.role == Receiver
            && c.nonce == r.nonce && c.target == current && r.target == current
            && Fault(c.limits).None? && Fault(r.limits).None? && LocalOffer(local).Ok?
            && var mine := LocalOffer(local).value;
               && SameAlignments(c.atomics, mine) && SameAlignments(r.atomics, mine)
               && FeatureSubset(FeatureUnion(c.required, r.required),
                                SelectedFeatures(c, r, EffectiveAtomics(mine, c.atomics, r.atomics)))
  {
  }

  /** Two HELLOs reduce exactly when they are reducible. */
  lemma ReducesExactly(c: HelloFrame, r: HelloFrame, local: AtomicCapabilities, current: TargetFacts,
                       sha: seq<byte> -> Bytes32)
    ensures FromHelloPair(c, r, local, current, sha).Ok? <==> Reducible(c, r, local, current)
  {
    HelloValidExactly(c);
    HelloValidExactly(r);
    LocalOfferExactly(local);
    LimitsValidExactly(c.limits);
    LimitsValidExactly(r.limits);
    PairPasses(c, r, local, current, sha);
    if LocalOffer(local).Ok? {
      UnionIsMet(c, r, local, LocalOffer(local).value);
    }
  }

  /** The reduced transcript, in terms of the functions that compute it. */
  lemma PairYields(c: HelloFrame, r: HelloFrame, local: AtomicCapabilities, current: TargetFacts,
                   sha: seq<byte> -> Bytes32)
    requires FromHelloPair(c, r, local, current, sha).Ok?
    ensures HelloFault(c).None? && HelloFault(r).None? && LocalOffer(local).Ok? && Negotiate(c.limits, r.limits).Ok?
    ensures |c.payload| <= U32_MAX && |r.payload| <= U32_MAX
    ensures var t := FromHelloPair(c, r, local, current, sha).value;
            && t.nonce == c.nonce && t.target == current && t.major == 1 && t.minor == 0
            && t.digest == sha(DigestInput(c, r)) && t.challenge.None? && t.acceptedRoles == 0
            && t.atomics == EffectiveAtomics(LocalOffer(local).value, c.atomics, r.atomics)
            && t.selected == SelectedFeatures(c, r, t.atomics) && t.limits == Negotiate(c.limits, r.limits).value
  {
  }

  predicate Minimum(m: nat, a: nat, b: nat) {
    m == if a <= b then a else b
  }

  /** Each limit is the lesser of the two offered. */
  predicate LimitsAreMinima(l: SessionLimits, a: SessionLimits, b: SessionLimits) {
    && Minimum(l.maxRegionsPerBatch, a.maxRegionsPerBatch, b.maxRegionsPerBatch)
    && Minimum(l.maxRegionBytes, a.maxRegionBytes, b.maxRegionBytes)
    && Minimum(l.maxBatchBytes, a.maxBatchBytes, b.maxBatchBytes)
    && Minimum(l.maxActiveRegions, a.maxActiveRegions, b.maxActiveRegions)
    && Minimum(l.maxActiveBytes, a.maxActiveBytes, b.maxActiveBytes)
    && Minimum(l.maxTransactions, a.maxTransactions, b.maxTransactions)
    && Minimum(l.maxBootstrapPayloadBytes, a.maxBootstrapPayloadBytes, b.maxBootstrapPayloadBytes)
    && Minimum(l.maxControlPayloadBytes, a.maxControlPayloadBytes, b.maxControlPayloadBytes)
  }

  lemma NegotiatedAreMinima(a: SessionLimits, b: SessionLimits)
    ensures Negotiate(a, b).Ok? <==> LimitsInRange(a) && LimitsInRange(b)
    ensures Negotiate(a, b).Ok? ==> LimitsAreMinima(Negotiate(a, b).value, a, b)
  {
    LimitsValidExactly(a);
    LimitsValidExactly(b);
  }

  /** What a reduction yields, field by field: the greatest limits within both
      offers, the atomics all three share, and exactly the usable features. */
  lemma ReductionIsExact(c: HelloFrame, r: HelloFrame, local: AtomicCapabilities, current: TargetFacts,
                         sha: seq<byte> -> Bytes32)
    requires FromHelloPair(c, r, local, current, sha).Ok?
    ensures |c.payload| <= U32_MAX && |r.payload| <= U32_MAX
    ensures var t := FromHelloPair(c, r, local, current, sha).value;
            && t.nonce == c.nonce && t.target == current && t.major == 1 && t.minor == 0
            && t.digest == sha(DigestInput(c, r)) && t.challenge.None? && t.acceptedRoles == 0
            && (t.atomics.u32LockFree <==> local.u32LockFree && c.atomics.u32LockFree && r.atomics.u32LockFree)
            && (t.atomics.u64LockFree <==> local.u64LockFree && c.atomics.u64LockFree && r.atomics.u64LockFree)
            && AlignedAlike(t.atomics, local)
            && (forall k: nat :: Bits.Bit(t.selected.low, k) <==> Usable(k, c, r, local)) && t.selected.high == 0
            && LimitsAreMinima(t.limits, c.limits, r.limits)
            && forall l :: Within(l, c.limits) && Within(l, r.limits) ==> Within(l, t.limits)
  {
    PairYields(c, r, local, current, sha);
    LocalOfferExactly(local);
    NegotiatedAreMinima(c.limits, r.limits);
    SelectedBits(c, r, local, LocalOffer(local).value);
  }

  ghost predicate ReductionErrorHolds(e: WireError, c: HelloFrame, r: HelloFrame, local: AtomicCapabilities,
                                      current: TargetFacts)
  {
    match e
    case BadRole => c.role != Coordinator || r.role != Receiver
    case NonceMismatch => c.nonce != r.nonce || !HasNonZero(c.nonce) || !HasNonZero(r.nonce)
    case TargetMismatch => c.target != current || r.target != current
    case AtomicMismatch => !AlignedAlike(c.atomics, local) || !AlignedAlike(r.atomics, local)
    case RequiredFeatureNotSupported =>
      !BitsIn(c.required, c.supported) || !BitsIn(r.required, r.supported) || !RequirementsMet(c, r, local)
    case _ => HelloErrorHolds(e, c) || HelloErrorHolds(e, r) || !LocalIsSound(local)
  }

  lemma HelloErrorIsOurs(e: WireError, c: HelloFrame, r: HelloFrame, local: AtomicCapabilities, current: TargetFacts)
    requires HelloErrorHolds(e, c) || HelloErrorHolds(e, r)
    ensures ReductionErrorHolds(e, c, r, local, current)
  {
  }

  lemma LocalErrors(v: AtomicCapabilities)
    requires LocalOffer(v).Err?
    ensures LocalOffer(v).error == LengthOverflow || LocalOffer(v).error == BadAtomicFacts
  {
  }

  /** The first check of a reduction that fails, in terms of the functions it calls. */
  lemma PairFails(c: HelloFrame, r: HelloFrame, local: AtomicCapabilities, current: TargetFacts,
                  sha: seq<byte> -> Bytes32)
    requires FromHelloPair(c, r, local, current, sha).Err?
    ensures var e := FromHelloPair(c, r, local, current, sha).error;
            if HelloFault(c).Some? then e == HelloFault(c).value
            else if HelloFault(r).Some? then e == HelloFault(r).value
            else if c.role != Coordinator || r.role != Receiver then e == BadRole
            else if c.nonce != r.nonce then e == NonceMismatch
            else if c.target != current || r.target != current then e == TargetMismatch
            else if LocalOffer(local).Err? then e == LocalOffer(local).error
            else
              var mine := LocalOffer(local).value;
              if !SameAlignments(c.atomics, mine) || !SameAlignments(r.atomics, mine) then e == AtomicMismatch
              else e == RequiredFeatureNotSupported
                   && !FeatureSubset(FeatureUnion(c.required, r.required),
                                     SelectedFeatures(c, r, EffectiveAtomics(mine, c.atomics, r.atomics)))
  {
  }

  /** A refused reduction is refused for the reason it names. */
  lemma ReductionErrorIsTrue(c: HelloFrame, r: HelloFrame, local: AtomicCapabilities, current: TargetFacts,
                             sha: seq<byte> -> Bytes32)
    requires FromHelloPair(c, r, local, current, sha).Err?
    ensures ReductionErrorHolds(FromHelloPair(c, r, local, current, sha).error, c, r, local, current)
  {
    PairFails(c, r, local, current, sha);
    if HelloFault(c).Some? {
      HelloValidExactly(c);
      HelloErrorIsOurs(HelloFault(c).value, c, r, local, current);
    } else if HelloFault(r).Some? {
      HelloValidExactly(r);
      HelloErrorIsOurs(HelloFault(r).value, c, r, local, current);
    } else if LocalOffer(local).Ok? {
      LocalOfferExactly(local);
      UnionIsMet(c, r, local, LocalOffer(local).value);
    } else {
      LocalOfferExactly(local);
      LocalErrors(local);
    }
  }
}
