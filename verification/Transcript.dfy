/** Reduction of two HELLOs to one transcript, and the digest that binds them. */
module Transcript {
  import opened Machine
  import opened Wire
  import opened Limits
  import opened Negotiation
  import Bits

  const KNOWN_FEATURES := FeatureBits(3, 0)

  /** Locally discovered atomic facts, with native-width alignments. */
  datatype AtomicCapabilities = AtomicCapabilities(
    u32LockFree: bool, u64LockFree: bool, u32Alignment: u64, u64Alignment: u64,
    pageAlignment: u64, cacheLineAlignment: u64)

  datatype State = State(
    nonce: Bytes32, selected: FeatureBits, limits: SessionLimits, atomics: AtomicOffer,
    target: TargetFacts, major: u16, minor: u16, digest: Bytes32,
    challenge: Option<DecisionChallenge>, acceptedRoles: byte)

  datatype AcceptedFacts = AcceptedFacts(
    nonce: Bytes32, selected: FeatureBits, limits: SessionLimits, atomics: AtomicOffer,
    target: TargetFacts, major: u16, minor: u16, digest: Bytes32, challenge: DecisionChallenge)

  const TERMINAL: byte := 255

  // ----- reduction of the two HELLOs -----

  function Intersect(a: FeatureBits, b: FeatureBits): FeatureBits {
    FeatureBits(Bits.And(a.low, b.low), Bits.And(a.high, b.high))
  }

  function LocalOffer(v: AtomicCapabilities): Result<AtomicOffer, WireError> {
    if v.u32Alignment > U16_MAX || v.u64Alignment > U16_MAX
       || v.pageAlignment > U32_MAX || v.cacheLineAlignment > U32_MAX then Err(LengthOverflow)
    else
      var offer := AtomicOffer(v.u32LockFree, v.u64LockFree, v.u32Alignment, v.u64Alignment,
                               v.pageAlignment, v.cacheLineAlignment);
      match AtomicFault(offer) case Some(e) => Err(e) case None => Ok(offer)
  }

  predicate SameAlignments(a: AtomicOffer, b: AtomicOffer) {
    && a.u32Alignment == b.u32Alignment && a.u64Alignment == b.u64Alignment
    && a.pageAlignment == b.pageAlignment && a.cacheLineAlignment == b.cacheLineAlignment
  }

  function EffectiveAtomics(local: AtomicOffer, c: AtomicOffer, r: AtomicOffer): AtomicOffer {
    local.(u32LockFree := local.u32LockFree && c.u32LockFree && r.u32LockFree,
           u64LockFree := local.u64LockFree && c.u64LockFree && r.u64LockFree)
  }

  function SelectedFeatures(c: HelloFrame, r: HelloFrame, atomics: AtomicOffer): FeatureBits {
    Intersect(Intersect(Intersect(c.supported, r.supported), KNOWN_FEATURES),
              FeatureBits(AtomicFlags(atomics), 0))
  }

  /** The transcript both endpoints derive. `sha` stands for the hash of section
      6.2 of FIPS 180-4 over the transcript input, and is left uninterpreted. */
  function FromHelloPair(c: HelloFrame, r: HelloFrame, local: AtomicCapabilities, current: TargetFacts,
                         sha: seq<byte> -> Bytes32): Result<State, WireError>
  {
    if HelloFault(c).Some? then Err(HelloFault(c).value)
    else if HelloFault(r).Some? then Err(HelloFault(r).value)
    else if c.role != Coordinator || r.role != Receiver then Err(BadRole)
    else if c.nonce != r.nonce then Err(NonceMismatch)
    else if c.target != current || r.target != current then Err(TargetMismatch)
    else if LocalOffer(local).Err? then Err(LocalOffer(local).error)
    else
      var mine := LocalOffer(local).value;
      if !SameAlignments(c.atomics, mine) || !SameAlignments(r.atomics, mine) then Err(AtomicMismatch)
      else
        var atomics := EffectiveAtomics(mine, c.atomics, r.atomics);
        var selected := SelectedFeatures(c, r, atomics);
        var required := FeatureUnion(c.required, r.required);
        if !FeatureSubset(required, selected) then Err(RequiredFeatureNotSupported)
        else
          match Negotiate(c.limits, r.limits)
          case Err(_) => Err(BadLimits)
          case Ok(limits) =>
            Ok(State(c.nonce, selected, limits, atomics, current, WIRE_MAJOR, WIRE_MINOR,
                     sha(DigestInput(c, r)), None, 0))
  }

  /** `a | b` on both words; unions of 64-bit words stay 64 bits wide. */
  function FeatureUnion(a: FeatureBits, b: FeatureBits): FeatureBits {
    WordWidth();
    OrStaysInWidth(a.low, b.low, 64);
    OrStaysInWidth(a.high, b.high, 64);
    FeatureBits(Bits.Or(a.low, b.low), Bits.Or(a.high, b.high))
  }

  ghost function Pow2(n: nat): nat {
    if n == 0 then 1 else 2 * Pow2(n - 1)
  }

  lemma {:induction false} OrStaysInWidth(x: nat, y: nat, n: nat)
    requires x < Pow2(n) && y < Pow2(n)
    ensures Bits.Or(x, y) < Pow2(n)
  {
    if n > 0 { OrStaysInWidth(x / 2, y / 2, n - 1); }
  }

  lemma {:induction false} Pow2Sum(m: nat, n: nat)
    ensures Pow2(m + n) == Pow2(m) * Pow2(n)
  {
    if m > 0 {
      Pow2Sum(m - 1, n);
      assert Pow2(m + n) == 2 * Pow2(m - 1 + n);
    }
  }

  lemma WordWidth()
    ensures Pow2(64) == 0x1_0000_0000_0000_0000
  {
    assert Pow2(4) == 16;
    Pow2Sum(4, 4);
    Pow2Sum(8, 8);
    Pow2Sum(16, 16);
    Pow2Sum(32, 32);
  }

  // ----- the digest input -----

  /** "native-ipc-vnext-hello-transcript-v1" */
  const DIGEST_PREFIX: seq<byte> := [
    110, 97, 116, 105, 118, 101, 45, 105, 112, 99, 45, 118, 110, 101, 120, 116, 45,
    104, 101, 108, 108, 111, 45, 116, 114, 97, 110, 115, 99, 114, 105, 112, 116, 45, 118, 49]

  function Join(fields: seq<seq<byte>>): seq<byte> {
    if fields == [] then [] else fields[0] + Join(fields[1..])
  }

  function IdentityFields(h: HelloFrame): seq<seq<byte>> {
    [MAGIC, U16Bytes(WIRE_MAJOR), U16Bytes(WIRE_MINOR), U16Bytes(KIND_HELLO), [RoleByte(h.role)], h.nonce,
     U64Bytes(h.supported.low), U64Bytes(h.supported.high), U64Bytes(h.required.low), U64Bytes(h.required.high)]
  }

  function LimitFields(l: SessionLimits): seq<seq<byte>> {
    [U16Bytes(l.maxRegionsPerBatch), U32Bytes(l.maxActiveRegions), U64Bytes(l.maxRegionBytes),
     U64Bytes(l.maxBatchBytes), U64Bytes(l.maxActiveBytes), U64Bytes(l.maxTransactions),
     U32Bytes(l.maxBootstrapPayloadBytes), U32Bytes(l.maxControlPayloadBytes)]
  }

  function FactFields(a: AtomicOffer, t: TargetFacts, payloadLen: u32): seq<seq<byte>> {
    [U32Bytes(AtomicFlags(a)), U16Bytes(a.u32Alignment), U16Bytes(a.u64Alignment), U32Bytes(a.pageAlignment),
     U32Bytes(a.cacheLineAlignment), U16Bytes(t.os), U16Bytes(t.architecture), [t.pointerWidth, t.endian],
     U32Bytes(payloadLen)]
  }

  function HelloDigestFields(h: HelloFrame): seq<seq<byte>>
    requires |h.payload| <= U32_MAX
  {
    IdentityFields(h) + LimitFields(h.limits) + FactFields(h.atomics, h.target, |h.payload|)
  }

  function HelloDigestInput(h: HelloFrame): seq<byte>
    requires |h.payload| <= U32_MAX
  {
    Join(HelloDigestFields(h)) + h.payload
  }

  function DigestInput(c: HelloFrame, r: HelloFrame): seq<byte>
    requires |c.payload| <= U32_MAX && |r.payload| <= U32_MAX
  {
    DIGEST_PREFIX + (HelloDigestInput(c) + HelloDigestInput(r))
  }

  lemma {:induction false} JoinIsInjective(f: seq<seq<byte>>, g: seq<seq<byte>>, x: seq<byte>, y: seq<byte>)
    requires |f| == |g| && forall i :: 0 <= i < |f| ==> |f[i]| == |g[i]|
    requires Join(f) + x == Join(g) + y
    ensures f == g && x == y
  {
    if f == [] {
      assert Join(f) + x == x && Join(g) + y == y;
    } else {
      var n := |f[0]|;
      assert Join(f) + x == f[0] + (Join(f[1..]) + x);
      assert Join(g) + y == g[0] + (Join(g[1..]) + y);
      assert (Join(f) + x)[..n] == f[0] && (Join(g) + y)[..n] == g[0];
      assert (Join(f) + x)[n..] == Join(f[1..]) + x && (Join(g) + y)[n..] == Join(g[1..]) + y;
      JoinIsInjective(f[1..], g[1..], x, y);
      assert f == [f[0]] + f[1..] && g == [g[0]] + g[1..];
    }
  }

  lemma IdentityFieldsBind(h: HelloFrame, g: HelloFrame)
    requires IdentityFields(h) == IdentityFields(g)
    ensures h.role == g.role && h.nonce == g.nonce && h.supported == g.supported && h.required == g.required
  {
    var f, e := IdentityFields(h), IdentityFields(g);
    assert f[4][0] == e[4][0] && f[5] == e[5] && f[6] == e[6] && f[7] == e[7] && f[8] == e[8] && f[9] == e[9];
  }

  lemma LimitFieldsBind(l: SessionLimits, m: SessionLimits)
    requires LimitFields(l) == LimitFields(m)
    ensures l == m
  {
    var f, e := LimitFields(l), LimitFields(m);
    assert f[0] == e[0] && f[1] == e[1] && f[2] == e[2] && f[3] == e[3];
    assert f[4] == e[4] && f[5] == e[5] && f[6] == e[6] && f[7] == e[7];
  }

  lemma FactFieldsBind(a: AtomicOffer, t: TargetFacts, n: u32, b: AtomicOffer, u: TargetFacts, m: u32)
    requires FactFields(a, t, n) == FactFields(b, u, m)
    ensures a == b && t == u && n == m
  {
    var f, e := FactFields(a, t, n), FactFields(b, u, m);
    assert f[0] == e[0] && f[1] == e[1] && f[2] == e[2] && f[3] == e[3] && f[4] == e[4];
    assert f[5] == e[5] && f[6] == e[6] && f[7][0] == e[7][0] && f[7][1] == e[7][1] && f[8] == e[8];
  }

  /** The fixed-width fields determine the frame up to the bytes of its payload. */
  lemma DigestFieldsBind(h: HelloFrame, g: HelloFrame)
    requires |h.payload| <= U32_MAX && |g.payload| <= U32_MAX && HelloDigestFields(h) == HelloDigestFields(g)
    ensures h == g.(payload := h.payload) && |h.payload| == |g.payload|
  {
    var f, e := HelloDigestFields(h), HelloDigestFields(g);
    assert f[..10] == IdentityFields(h) && e[..10] == IdentityFields(g);
    assert f[10..18] == LimitFields(h.limits) && e[10..18] == LimitFields(g.limits);
    assert f[18..] == FactFields(h.atomics, h.target, |h.payload|);
    assert e[18..] == FactFields(g.atomics, g.target, |g.payload|);
    IdentityFieldsBind(h, g);
    LimitFieldsBind(h.limits, g.limits);
    FactFieldsBind(h.atomics, h.target, |h.payload|, g.atomics, g.target, |g.payload|);
  }

  lemma SplitsEqually(a: seq<byte>, b: seq<byte>, x: seq<byte>, y: seq<byte>)
    requires |a| == |b| && a + x == b + y
    ensures a == b && x == y
  {
    assert a == (a + x)[..|a|] && b == (b + y)[..|a|];
    assert x == (a + x)[|a|..] && y == (b + y)[|a|..];
  }

  lemma FieldWidths(h: HelloFrame, g: HelloFrame)
    requires |h.payload| <= U32_MAX && |g.payload| <= U32_MAX
    ensures var f, e := HelloDigestFields(h), HelloDigestFields(g);
            |f| == |e| && forall i :: 0 <= i < |f| ==> |f[i]| == |e[i]|
  {
  }

  /** One HELLO and whatever follows it are both determined by the hashed bytes. */
  lemma HelloDigestBinds(h: HelloFrame, g: HelloFrame, x: seq<byte>, y: seq<byte>)
    requires |h.payload| <= U32_MAX && |g.payload| <= U32_MAX
    requires HelloDigestInput(h) + x == HelloDigestInput(g) + y
    ensures h == g && x == y
  {
    FieldWidths(h, g);
    assert Join(HelloDigestFields(h)) + (h.payload + x) == HelloDigestInput(h) + x;
    assert Join(HelloDigestFields(g)) + (g.payload + y) == HelloDigestInput(g) + y;
    JoinIsInjective(HelloDigestFields(h), HelloDigestFields(g), h.payload + x, g.payload + y);
    DigestFieldsBind(h, g);
    SplitsEqually(h.payload, g.payload, x, y);
  }

  lemma JoinTwo(a: seq<byte>, b: seq<byte>)
    ensures Join([a, b]) == a + b
  {
    assert [a, b][1..] == [b] && [b][1..] == [];
    assert Join([b]) == b + Join([]) == b;
  }

  lemma {:induction false} JoinSplit(f: seq<seq<byte>>, g: seq<seq<byte>>)
    ensures Join(f + g) == Join(f) + Join(g)
    decreases |f|
  {
    if f == [] {
      assert f + g == g;
    } else {
      assert (f + g)[1..] == f[1..] + g;
      JoinSplit(f[1..], g);
    }
  }

  lemma JoinThree(a: seq<byte>, b: seq<byte>, c: seq<byte>)
    ensures Join([a, b, c]) == a + b + c
  {
    assert [a, b, c] == [a] + [b, c] && [a][1..] == [];
    assert Join([a]) == a + Join([]) == a;
    JoinSplit([a], [b, c]);
    JoinTwo(b, c);
  }

  lemma JoinFour(a: seq<byte>, b: seq<byte>, c: seq<byte>, d: seq<byte>)
    ensures Join([a, b, c, d]) == a + b + c + d
  {
    assert [a, b, c, d] == [a, b] + [c, d];
    JoinSplit([a, b], [c, d]);
    JoinTwo(a, b);
    JoinTwo(c, d);
  }

  /** The identity part of what one HELLO contributes, in order. */
  lemma IdentityOrder(h: HelloFrame)
    ensures Join(IdentityFields(h)) ==
            (MAGIC + U16Bytes(1) + U16Bytes(0) + U16Bytes(1))
            + ([if h.role == Coordinator then 1 else 2] + h.nonce)
            + (U64Bytes(h.supported.low) + U64Bytes(h.supported.high)
               + U64Bytes(h.required.low) + U64Bytes(h.required.high))
  {
    var role: seq<byte> := [if h.role == Coordinator then 1 else 2];
    var first: seq<seq<byte>> := [MAGIC, U16Bytes(1), U16Bytes(0), U16Bytes(1)];
    var second: seq<seq<byte>> := [role, h.nonce];
    var third := [U64Bytes(h.supported.low), U64Bytes(h.supported.high),
                  U64Bytes(h.required.low), U64Bytes(h.required.high)];
    assert IdentityFields(h) == first + (second + third);
    JoinSplit(first, second + third);
    JoinSplit(second, third);
    JoinFour(MAGIC, U16Bytes(1), U16Bytes(0), U16Bytes(1));
    JoinTwo(role, h.nonce);
    JoinFour(third[0], third[1], third[2], third[3]);
    JoinAssociates(Join(first), Join(second), Join(third));
  }

  lemma JoinAssociates(a: seq<byte>, b: seq<byte>, c: seq<byte>)
    ensures a + (b + c) == a + b + c
  {
  }

  /** Its limits, in order. */
  lemma LimitOrder(l: SessionLimits)
    ensures Join(LimitFields(l)) ==
            (U16Bytes(l.maxRegionsPerBatch) + U32Bytes(l.maxActiveRegions)
             + U64Bytes(l.maxRegionBytes) + U64Bytes(l.maxBatchBytes))
            + (U64Bytes(l.maxActiveBytes) + U64Bytes(l.maxTransactions)
               + U32Bytes(l.maxBootstrapPayloadBytes) + U32Bytes(l.maxControlPayloadBytes))
  {
    var first := [U16Bytes(l.maxRegionsPerBatch), U32Bytes(l.maxActiveRegions), U64Bytes(l.maxRegionBytes),
                  U64Bytes(l.maxBatchBytes)];
    var second := [U64Bytes(l.maxActiveBytes), U64Bytes(l.maxTransactions), U32Bytes(l.maxBootstrapPayloadBytes),
                   U32Bytes(l.maxControlPayloadBytes)];
    assert LimitFields(l) == first + second;
    JoinSplit(first, second);
    JoinFour(first[0], first[1], first[2], first[3]);
    JoinFour(second[0], second[1], second[2], second[3]);
  }

  /** Its atomics, target and payload length, in order. */
  lemma FactOrder(a: AtomicOffer, t: TargetFacts, n: u32)
    ensures Join(FactFields(a, t, n)) ==
            (U32Bytes((if a.u32LockFree then 1 else 0) + (if a.u64LockFree then 2 else 0))
             + U16Bytes(a.u32Alignment) + U16Bytes(a.u64Alignment))
            + (U32Bytes(a.pageAlignment) + U32Bytes(a.cacheLineAlignment))
            + (U16Bytes(t.os) + U16Bytes(t.architecture) + [t.pointerWidth, t.endian] + U32Bytes(n))
  {
    var flags := U32Bytes((if a.u32LockFree then 1 else 0) + (if a.u64LockFree then 2 else 0));
    var first := [flags, U16Bytes(a.u32Alignment), U16Bytes(a.u64Alignment)];
    var second := [U32Bytes(a.pageAlignment), U32Bytes(a.cacheLineAlignment)];
    var third := [U16Bytes(t.os), U16Bytes(t.architecture), [t.pointerWidth, t.endian], U32Bytes(n)];
    assert FactFields(a, t, n) == first + (second + third);
    JoinSplit(first, second + third);
    JoinSplit(second, third);
    JoinThree(first[0], first[1], first[2]);
    JoinTwo(second[0], second[1]);
    JoinFour(third[0], third[1], third[2], third[3]);
    JoinAssociates(Join(first), Join(second), Join(third));
  }

  /** The hash reads the prefix, then the coordinator's HELLO, then the
      receiver's, each as identity, limits, facts and payload. */
  lemma DigestOrder(c: HelloFrame, r: HelloFrame)
    requires |c.payload| <= U32_MAX && |r.payload| <= U32_MAX
    ensures DigestInput(c, r) == DIGEST_PREFIX + (HelloDigestInput(c) + HelloDigestInput(r))
    ensures HelloDigestInput(c) == Join(IdentityFields(c)) + Join(LimitFields(c.limits))
                                   + Join(FactFields(c.atomics, c.target, |c.payload|)) + c.payload
  {
    JoinSplit(IdentityFields(c) + LimitFields(c.limits), FactFields(c.atomics, c.target, |c.payload|));
    JoinSplit(IdentityFields(c), LimitFields(c.limits));
  }

  /** Distinct pairs of HELLOs never feed the hash the same bytes. */
  lemma DigestInputBindsBothHellos(c: HelloFrame, r: HelloFrame, c': HelloFrame, r': HelloFrame)
    requires |c.payload| <= U32_MAX && |r.payload| <= U32_MAX
    requires |c'.payload| <= U32_MAX && |r'.payload| <= U32_MAX
    requires DigestInput(c, r) == DigestInput(c', r')
    ensures c == c' && r == r'
  {
    var n := |DIGEST_PREFIX|;
    assert DigestInput(c, r)[n..] == HelloDigestInput(c) + HelloDigestInput(r);
    assert DigestInput(c', r')[n..] == HelloDigestInput(c') + HelloDigestInput(r');
    HelloDigestBinds(c, c', HelloDigestInput(r), HelloDigestInput(r'));
    assert HelloDigestInput(r) + [] == HelloDigestInput(r') + [];
    HelloDigestBinds(r, r', [], []);
  }

  // ----- what the reduction promises -----

  lemma SelectedWithin(x: FeatureBits, c: HelloFrame, r: HelloFrame, atomics: AtomicOffer)
    ensures FeatureSubset(x, SelectedFeatures(c, r, atomics)) <==>
            && FeatureSubset(x, c.supported) && FeatureSubset(x, r.supported)
            && FeatureSubset(x, KNOWN_FEATURES) && FeatureSubset(x, FeatureBits(AtomicFlags(atomics), 0))
  {
    var two := Intersect(c.supported, r.supported);
    var three := Intersect(two, KNOWN_FEATURES);
    Bits.SubsetOfAnd(x.low, c.supported.low, r.supported.low);
    Bits.SubsetOfAnd(x.high, c.supported.high, r.supported.high);
    Bits.SubsetOfAnd(x.low, two.low, 3);
    Bits.SubsetOfAnd(x.high, two.high, 0);
    Bits.SubsetOfAnd(x.low, three.low, AtomicFlags(atomics));
    Bits.SubsetOfAnd(x.high, three.high, 0);
  }

  /** A reduced transcript selects every feature either side requires and nothing
      either side lacks, and its limits are the greatest within both offers. */
  lemma ReductionIsFair(c: HelloFrame, r: HelloFrame, local: AtomicCapabilities, current: TargetFacts,
                        sha: seq<byte> -> Bytes32)
    requires FromHelloPair(c, r, local, current, sha).Ok?
    ensures var t := FromHelloPair(c, r, local, current, sha).value;
            && t.nonce == c.nonce == r.nonce && t.target == c.target == r.target
            && FeatureSubset(c.required, t.selected) && FeatureSubset(r.required, t.selected)
            && FeatureSubset(t.selected, c.supported) && FeatureSubset(t.selected, r.supported)
            && Within(t.limits, c.limits) && Within(t.limits, r.limits) && Fault(t.limits).None?
            && SameAlignments(t.atomics, c.atomics) && SameAlignments(t.atomics, r.atomics)
            && (t.atomics.u32LockFree ==> c.atomics.u32LockFree && r.atomics.u32LockFree)
            && (t.atomics.u64LockFree ==> c.atomics.u64LockFree && r.atomics.u64LockFree)
            && t.acceptedRoles == 0 && t.challenge.None? && !IsZero(t.nonce)
  {
    var t := FromHelloPair(c, r, local, current, sha).value;
    Bits.OrSubset(c.required.low, r.required.low, t.selected.low);
    Bits.OrSubset(c.required.high, r.required.high, t.selected.high);
    Bits.SubsetByBits(t.selected.low, t.selected.low);
    Bits.SubsetByBits(t.selected.high, t.selected.high);
    SelectedWithin(t.selected, c, r, t.atomics);
  }
}
