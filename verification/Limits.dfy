/** Finite session limits: validation and the pairwise minimum. */
module Limits {
  import opened Machine

  const HARD_MAX_REGIONS_PER_BATCH: u16 := 16
  const HARD_MAX_BOOTSTRAP_PAYLOAD_BYTES: u32 := 0x100_0000
  const HARD_MAX_CONTROL_PAYLOAD_BYTES: u32 := 0x100_0000
  const HARD_MAX_REGION_BYTES: u64 := 0x100_0000_0000
  const HARD_MAX_BATCH_BYTES: u64 := 0x400_0000_0000
  const HARD_MAX_ACTIVE_REGIONS: u32 := 0x10_0000
  const HARD_MAX_ACTIVE_BYTES: u64 := 0x1000_0000_0000
  const HARD_MAX_TRANSACTIONS: u64 := 0x1_0000_0000_0000

  datatype SessionLimits = SessionLimits(
    maxRegionsPerBatch: u16, maxRegionBytes: u64, maxBatchBytes: u64,
    maxActiveRegions: u32, maxActiveBytes: u64, maxTransactions: u64,
    maxBootstrapPayloadBytes: u32, maxControlPayloadBytes: u32)

  datatype LimitError = ZeroLimit | AboveHardMaximum | NativeSizeNarrowing

  function Fault(l: SessionLimits): Option<LimitError> {
    if l.maxRegionsPerBatch == 0 || l.maxRegionBytes == 0 || l.maxBatchBytes == 0
       || l.maxActiveRegions == 0 || l.maxActiveBytes == 0 || l.maxTransactions == 0
       || l.maxBootstrapPayloadBytes == 0 || l.maxControlPayloadBytes == 0
    then Some(ZeroLimit)
    else if l.maxRegionsPerBatch > HARD_MAX_REGIONS_PER_BATCH
       || l.maxRegionBytes > HARD_MAX_REGION_BYTES
       || l.maxBatchBytes > HARD_MAX_BATCH_BYTES
       || l.maxActiveRegions > HARD_MAX_ACTIVE_REGIONS
       || l.maxActiveBytes > HARD_MAX_ACTIVE_BYTES
       || l.maxTransactions > HARD_MAX_TRANSACTIONS
       || l.maxBootstrapPayloadBytes > HARD_MAX_BOOTSTRAP_PAYLOAD_BYTES
       || l.maxControlPayloadBytes > HARD_MAX_CONTROL_PAYLOAD_BYTES
    then Some(AboveHardMaximum)
    else None
  }

  function Min(a: nat, b: nat): (m: nat)
    ensures m <= a && m <= b && (m == a || m == b)
  {
    if a < b then a else b
  }

  function Minima(a: SessionLimits, b: SessionLimits): SessionLimits {
    SessionLimits(
      Min(a.maxRegionsPerBatch, b.maxRegionsPerBatch),
      Min(a.maxRegionBytes, b.maxRegionBytes),
      Min(a.maxBatchBytes, b.maxBatchBytes),
      Min(a.maxActiveRegions, b.maxActiveRegions),
      Min(a.maxActiveBytes, b.maxActiveBytes),
      Min(a.maxTransactions, b.maxTransactions),
      Min(a.maxBootstrapPayloadBytes, b.maxBootstrapPayloadBytes),
      Min(a.maxControlPayloadBytes, b.maxControlPayloadBytes))
  }

  predicate Within(a: SessionLimits, b: SessionLimits) {
    && a.maxRegionsPerBatch <= b.maxRegionsPerBatch
    && a.maxRegionBytes <= b.maxRegionBytes
    && a.maxBatchBytes <= b.maxBatchBytes
    && a.maxActiveRegions <= b.maxActiveRegions
    && a.maxActiveBytes <= b.maxActiveBytes
    && a.maxTransactions <= b.maxTransactions
    && a.maxBootstrapPayloadBytes <= b.maxBootstrapPayloadBytes
    && a.maxControlPayloadBytes <= b.maxControlPayloadBytes
  }

  /** The greatest limits both offers allow; minima of valid offers are valid,
      so the final validation never fails. */
  function Negotiate(a: SessionLimits, b: SessionLimits): (r: Result<SessionLimits, LimitError>)
    ensures r.Ok? <==> Fault(a).None? && Fault(b).None?
    ensures r.Ok? ==> Fault(r.value).None? && Within(r.value, a) && Within(r.value, b)
    ensures r.Ok? ==> forall l :: Within(l, a) && Within(l, b) ==> Within(l, r.value)
    ensures r.Err? ==> r.error == if Fault(a).Some? then Fault(a).value else Fault(b).value
  {
    if Fault(a).Some? then Err(Fault(a).value)
    else if Fault(b).Some? then Err(Fault(b).value)
    else
      var m := Minima(a, b);
      match Fault(m) case Some(e) => Err(e) case None => Ok(m)
  }
}
