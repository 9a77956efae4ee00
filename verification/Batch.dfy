/** Batches: admission under session limits, their manifest and reservations,
    and the committed region set. */
module Batch {
  import opened Machine
  import opened Wire
  import opened Limits
  import opened Protocol
  import K = Keyed
  import Transfer

  datatype Writer = CoordinatorWrites | ReceiverWrites

  datatype PreparedRegion = PreparedRegion(
    id: u128, writer: Writer, incarnation: Bytes16, owner: u32, logicalLen: u64, mappedLen: u64)

  datatype BatchError =
    | InvalidLimits
    | Empty
    | TooManyRegions
    | DuplicateRegionId(id: nat)
    | BatchBytesExceeded
    | InvalidRegionLength
    | CommitMismatch

  function Logical(regions: seq<PreparedRegion>): nat {
    if regions == [] then 0 else Logical(regions[..|regions| - 1]) + regions[|regions| - 1].logicalLen
  }

  function Mapped(regions: seq<PreparedRegion>): nat {
    if regions == [] then 0 else Mapped(regions[..|regions| - 1]) + regions[|regions| - 1].mappedLen
  }

  predicate DistinctIds(regions: seq<PreparedRegion>) {
    forall i, j :: 0 <= i < j < |regions| ==> regions[i].id != regions[j].id
  }

  /** Everything a batch admitted under these limits satisfies. */
  predicate Admissible(limits: SessionLimits, regions: seq<PreparedRegion>) {
    && |regions| <= limits.maxRegionsPerBatch && DistinctIds(regions)
    && Logical(regions) <= limits.maxBatchBytes && Mapped(regions) <= limits.maxBatchBytes
    && forall i :: 0 <= i < |regions| ==> regions[i].logicalLen <= limits.maxRegionBytes
  }

  class TransferBatch {
    const limits: SessionLimits
    var regions: seq<PreparedRegion>
    var totalLogical: u64
    var totalMapped: u64

    ghost predicate Valid()
      reads this
    {
      Admissible(limits, regions) && totalLogical == Logical(regions) && totalMapped == Mapped(regions)
    }

    constructor (limits: SessionLimits)
      ensures this.limits == limits && regions == [] && Valid()
    {
      this.limits := limits;
      regions, totalLogical, totalMapped := [], 0, 0;
    }

    method HasId(id: u128) returns (found: bool)
      ensures found <==> exists i :: 0 <= i < |regions| && regions[i].id == id
    {
      for i := 0 to |regions|
        invariant forall k :: 0 <= k < i ==> regions[k].id != id
      {
        if regions[i].id == id {
          return true;
        }
      }
      return false;
    }

    /** A region is admitted exactly when the batch with it is still within the limits. */
    method Add(region: PreparedRegion) returns (r: Result<(), BatchError>)
      requires Valid()
      modifies this
      ensures Valid()
      ensures r.Ok? <==> Admissible(limits, old(regions) + [region])
      ensures r.Ok? <==>
              && |old(regions)| < limits.maxRegionsPerBatch
              && (forall i :: 0 <= i < |old(regions)| ==> old(regions)[i].id != region.id)
              && region.logicalLen <= limits.maxRegionBytes
              && old(totalLogical) + region.logicalLen <= limits.maxBatchBytes
              && old(totalMapped) + region.mappedLen <= limits.maxBatchBytes
      ensures regions == if r.Ok? then old(regions) + [region] else old(regions)
      ensures r.Err? ==>
                r.error == if |regions| >= limits.maxRegionsPerBatch then TooManyRegions
                           else if exists i :: 0 <= i < |regions| && regions[i].id == region.id
                           then DuplicateRegionId(region.id)
                           else if region.logicalLen > limits.maxRegionBytes then InvalidRegionLength
                           else BatchBytesExceeded
    {
      AppendTotals(regions, region);
      AppendAdmissible(limits, regions, region);
      if |regions| >= limits.maxRegionsPerBatch {
        return Err(TooManyRegions);
      }
      var duplicate := HasId(region.id);
      if duplicate {
        return Err(DuplicateRegionId(region.id));
      }
      if region.logicalLen > limits.maxRegionBytes {
        return Err(InvalidRegionLength);
      }
      if totalLogical + region.logicalLen > U64_MAX || totalMapped + region.mappedLen > U64_MAX {
        return Err(BatchBytesExceeded);
      }
      if totalLogical + region.logicalLen > limits.maxBatchBytes
         || totalMapped + region.mappedLen > limits.maxBatchBytes {
        return Err(BatchBytesExceeded);
      }
      totalLogical, totalMapped := totalLogical + region.logicalLen, totalMapped + region.mappedLen;
      regions := regions + [region];
      return Ok(());
    }
  }

  lemma AppendTotals(regions: seq<PreparedRegion>, region: PreparedRegion)
    ensures Logical(regions + [region]) == Logical(regions) + region.logicalLen
    ensures Mapped(regions + [region]) == Mapped(regions) + region.mappedLen
  {
    assert (regions + [region])[..|regions|] == regions;
  }

  /** Admission looks at the new region only. */
  lemma AppendAdmissible(limits: SessionLimits, regions: seq<PreparedRegion>, region: PreparedRegion)
    requires Admissible(limits, regions)
    ensures Admissible(limits, regions + [region])
       <==> |regions| < limits.maxRegionsPerBatch && (forall i :: 0 <= i < |regions| ==> regions[i].id != region.id)
            && Logical(regions) + region.logicalLen <= limits.maxBatchBytes
            && Mapped(regions) + region.mappedLen <= limits.maxBatchBytes && region.logicalLen <= limits.maxRegionBytes
  {
    AppendTotals(regions, region);
    var all := regions + [region];
    if Admissible(limits, all) {
      assert all[|regions|] == region;
      forall i | 0 <= i < |regions| ensures regions[i].id != region.id {
        assert all[i].id != all[|regions|].id;
      }
    }
  }

  // ----- the manifest of a batch -----

  function EntryOf(r: PreparedRegion): ManifestEntry {
    ManifestEntry(r.id, r.incarnation, r.owner, if r.writer.CoordinatorWrites? then ReadOnly else SoleWriter,
                  r.logicalLen, r.mappedLen, 0, REQUIRED_ENTRY_FLAGS)
  }

  function Entries(regions: seq<PreparedRegion>): (es: seq<ManifestEntry>)
    ensures |es| == |regions|
  {
    seq(|regions|, i requires 0 <= i < |regions| => EntryOf(regions[i]))
  }

  lemma {:induction false} EntriesKeepTotals(regions: seq<PreparedRegion>)
    ensures TotalLogical(Entries(regions)) == Logical(regions) && TotalMapped(Entries(regions)) == Mapped(regions)
  {
    if regions != [] {
      var n := |regions| - 1;
      EntriesKeepTotals(regions[..n]);
      assert Entries(regions)[..n] == Entries(regions[..n]);
    }
  }

  lemma StrictFromDistinct(es: seq<ManifestEntry>, sorted: seq<ManifestEntry>)
    requires Ascending(sorted) && multiset(sorted) == multiset(es)
    requires forall i, j :: 0 <= i < j < |es| ==> es[i].regionId != es[j].regionId
    ensures StrictlyAscending(sorted)
  {
    var s, t := ById(es), ById(sorted);
    ByIdPermutes(es, sorted);
    assert K.DistinctKeys(s);
    K.DistinctPermutes(s, t);
    forall i, j | 0 <= i < j < |sorted| ensures sorted[i].regionId < sorted[j].regionId {
      assert t[i].0 != t[j].0;
    }
  }

  lemma IncarnationsPermute(es: seq<ManifestEntry>, sorted: seq<ManifestEntry>)
    requires multiset(sorted) == multiset(es) && DistinctIncarnations(es) && StrictlyAscending(sorted)
    ensures DistinctIncarnations(sorted)
  {
    forall i, j | 0 <= i < j < |sorted| ensures sorted[i].incarnation != sorted[j].incarnation {
      assert sorted[i] in multiset(es) && sorted[j] in multiset(es);
      var a :| 0 <= a < |es| && es[a] == sorted[i];
      var b :| 0 <= b < |es| && es[b] == sorted[j];
      assert sorted[i].regionId < sorted[j].regionId;
      assert a != b;
    }
  }

  /** A nonempty admitted batch of prepared regions with distinct incarnations
      always has a manifest, and it fits the limits it was admitted under. */
  lemma AdmittedBatchHasManifest(limits: SessionLimits, regions: seq<PreparedRegion>, nonce: Bytes32, parentPid: u32,
                                 childPid: u32, transferId: u64, authority: Authority)
    requires limits.maxRegionsPerBatch <= HARD_MAX_REGIONS_PER_BATCH && Admissible(limits, regions) && regions != []
    requires forall i :: 0 <= i < |regions| ==>
               && regions[i].id != 0 && HasNonZero(regions[i].incarnation)
               && 0 < regions[i].logicalLen <= regions[i].mappedLen
    requires DistinctIncarnations(Entries(regions)) && ValidHeader(nonce, parentPid, childPid, transferId)
    ensures var m := NewManifest(nonce, parentPid, childPid, transferId, authority, Entries(regions));
            m.Some? && FitsLimits(m.value, limits)
  {
    var es := Entries(regions);
    var sorted := SortById(es);
    EntriesKeepTotals(regions);
    SortByIdSorts(es);
    StrictFromDistinct(es, sorted);
    IncarnationsPermute(es, sorted);
    forall i | 0 <= i < |es| ensures ValidEntry(es[i]) {
      assert HasNonZero(regions[i].incarnation);
    }
    forall i | 0 <= i < |sorted| ensures sorted[i].logicalLen <= limits.maxRegionBytes {
      assert sorted[i] in multiset(es);
      var k :| 0 <= k < |es| && es[k] == sorted[i];
      assert regions[k].logicalLen <= limits.maxRegionBytes;
    }
  }

  // ----- reservations -----

  function ById(es: seq<ManifestEntry>): (r: seq<K.Entry<u64>>)
    ensures |r| == |es|
  {
    seq(|es|, i requires 0 <= i < |es| => (es[i].regionId, es[i].mappedLen))
  }

  lemma ByIdSplit(a: seq<ManifestEntry>, b: seq<ManifestEntry>)
    ensures ById(a + b) == ById(a) + ById(b)
  {
  }

  lemma {:induction false} ByIdPermutes(s: seq<ManifestEntry>, t: seq<ManifestEntry>)
    requires multiset(s) == multiset(t)
    ensures multiset(ById(s)) == multiset(ById(t))
    decreases |s|
  {
    assert |s| == |multiset(s)| == |multiset(t)| == |t|;
    if s != [] {
      var n := |s| - 1;
      assert s[n] in multiset(t);
      var k :| 0 <= k < |t| && t[k] == s[n];
      var rest := t[..k] + t[k + 1..];
      RemoveAt(s, n);
      RemoveAt(t, k);
      assert s[..n] + s[n + 1..] == s[..n];
      assert multiset(s[..n]) == multiset(s) - multiset{s[n]};
      assert multiset(rest) == multiset(t) - multiset{t[k]};
      ByIdPermutes(s[..n], rest);
      ByIdRemove(s, n);
      ByIdRemove(t, k);
    }
  }

  lemma ByIdRemove(t: seq<ManifestEntry>, k: nat)
    requires k < |t|
    ensures multiset(ById(t)) == multiset(ById(t[..k] + t[k + 1..])) + multiset{(t[k].regionId, t[k].mappedLen)}
  {
    assert t == t[..k] + ([t[k]] + t[k + 1..]);
    ByIdSplit(t[..k], [t[k]] + t[k + 1..]);
    ByIdSplit([t[k]], t[k + 1..]);
    ByIdSplit(t[..k], t[k + 1..]);
    assert ById([t[k]]) == [(t[k].regionId, t[k].mappedLen)];
  }

  function Pairs(regions: seq<PreparedRegion>): (r: seq<K.Entry<u64>>)
    ensures |r| == |regions|
  {
    seq(|regions|, i requires 0 <= i < |regions| => (regions[i].id, regions[i].mappedLen))
  }

  /** Id and length pairs sorted on their own, then the ids dropped. */
  function ReservationLengths(regions: seq<PreparedRegion>): (r: seq<u64>)
    ensures |r| == |regions|
  {
    var sorted := K.Sort(Pairs(regions));
    seq(|sorted|, i requires 0 <= i < |sorted| => sorted[i].1)
  }

  /** The batch's own sort and the manifest's agree: reservation i is for the
      manifest entry with ordinal i. */
  lemma ReservationsFollowOrdinals(regions: seq<PreparedRegion>, nonce: Bytes32, parentPid: u32, childPid: u32,
                                   transferId: u64, authority: Authority, m: TransferManifest)
    requires NewManifest(nonce, parentPid, childPid, transferId, authority, Entries(regions)) == Some(m)
    ensures ReservationLengths(regions) == Transfer.Lengths(m)
    ensures forall i :: 0 <= i < |m.entries| ==>
              m.entries[i].ordinal == i && ReservationLengths(regions)[i] == m.entries[i].mappedLen
  {
    var es := Entries(regions);
    var sorted := SortById(es);
    SortByIdSorts(es);
    ByIdPermutes(es, sorted);
    assert ById(es) == Pairs(regions);
    K.SortSorts(Pairs(regions));
    K.ArrangementIsUnique(K.Sort(Pairs(regions)), ById(sorted));
    forall i | 0 <= i < |m.entries|
      ensures m.entries[i].ordinal == i && ReservationLengths(regions)[i] == m.entries[i].mappedLen
    {
      assert K.Sort(Pairs(regions))[i] == ById(sorted)[i];
    }
  }

  // ----- receiver expectations -----

  datatype ExpectedRegion = ExpectedRegion(writer: Writer, logicalLen: u64)

  function TotalExpected(s: seq<K.Entry<ExpectedRegion>>): nat {
    if s == [] then 0 else TotalExpected(s[..|s| - 1]) + s[|s| - 1].1.logicalLen
  }

  lemma {:induction false} ExpectedGrows(s: seq<K.Entry<ExpectedRegion>>, n: nat)
    requires n <= |s|
    ensures TotalExpected(s[..n]) <= TotalExpected(s)
    decreases |s|
  {
    if n == |s| {
      assert s[..n] == s;
    } else {
      var m := |s| - 1;
      ExpectedGrows(s[..m], n);
      assert s[..m][..n] == s[..n];
    }
  }

  predicate NoneEmpty(s: seq<K.Entry<ExpectedRegion>>) {
    forall i :: 0 <= i < |s| ==> s[i].1.logicalLen != 0
  }

  /** Region `k` is the first that is empty or takes the total past 64 bits. */
  ghost predicate FirstRefused(s: seq<K.Entry<ExpectedRegion>>, k: nat, error: BatchError) {
    && k < |s| && NoneEmpty(s[..k]) && TotalExpected(s[..k]) <= U64_MAX
    && if s[k].1.logicalLen == 0 then error == InvalidRegionLength
       else TotalExpected(s[..k + 1]) > U64_MAX && error == BatchBytesExceeded
  }

  method SumExpected(s: seq<K.Entry<ExpectedRegion>>) returns (r: Result<nat, BatchError>)
    ensures r.Ok? <==> NoneEmpty(s) && TotalExpected(s) <= U64_MAX
    ensures r.Ok? ==> r.value == TotalExpected(s)
    ensures r.Err? ==> exists k :: FirstRefused(s, k, r.error)
  {
    var total := 0;
    for i := 0 to |s|
      invariant total == TotalExpected(s[..i]) <= U64_MAX && NoneEmpty(s[..i])
    {
      assert s[..i + 1][..i] == s[..i];
      ExpectedGrows(s, i + 1);
      if s[i].1.logicalLen == 0 {
        assert FirstRefused(s, i, InvalidRegionLength);
        return Err(InvalidRegionLength);
      }
      if total + s[i].1.logicalLen > U64_MAX {
        assert FirstRefused(s, i, BatchBytesExceeded);
        return Err(BatchBytesExceeded);
      }
      total := total + s[i].1.logicalLen;
    }
    assert s[..|s|] == s;
    return Ok(total);
  }

  lemma NoneEmptyPermutes(s: seq<K.Entry<ExpectedRegion>>, t: seq<K.Entry<ExpectedRegion>>)
    requires multiset(s) == multiset(t) && NoneEmpty(s)
    ensures NoneEmpty(t)
  {
    forall i | 0 <= i < |t| ensures t[i].1.logicalLen != 0 {
      assert t[i] in multiset(s);
    }
  }

  /** `id` is the least id that occurs twice. */
  ghost predicate LeastRepeated<T(!new)>(s: seq<K.Entry<T>>, id: nat) {
    && (exists i, j :: 0 <= i < j < |K.Sort(s)| && K.Sort(s)[i].0 == id == K.Sort(s)[j].0)
    && (forall i, j :: 0 <= i < j < |K.Sort(s)| && K.Sort(s)[i].0 == K.Sort(s)[j].0 ==> id <= K.Sort(s)[i].0)
  }

  /** Why an expectation is refused, in the order the code looks. */
  ghost predicate ExpectFault(regions: seq<K.Entry<ExpectedRegion>>, error: BatchError) {
    if regions == [] then error == Empty
    else if |regions| > 16 then error == TooManyRegions
    else if !K.DistinctKeys(regions) then error.DuplicateRegionId? && LeastRepeated(regions, error.id)
    else exists k :: FirstRefused(K.Sort(regions), k, error)
  }

  /** `try_from_regions`: one to sixteen distinct ids, no empty region, a
      representable total; the result is in id order. */
  method ExpectBatch(regions: seq<K.Entry<ExpectedRegion>>)
    returns (r: Result<(seq<K.Entry<ExpectedRegion>>, nat), BatchError>)
    ensures r.Ok? <==>
              && 1 <= |regions| <= 16
              && (forall i, j :: 0 <= i < j < |regions| ==> regions[i].0 != regions[j].0)
              && (forall i :: 0 <= i < |regions| ==> regions[i].1.logicalLen != 0)
              && TotalExpected(K.Sort(regions)) <= U64_MAX
    ensures r.Ok? ==> r.value == (K.Sort(regions), TotalExpected(K.Sort(regions)))
    ensures r.Err? ==> ExpectFault(regions, r.error)
  {
    if regions == [] {
      return Err(Empty);
    }
    if |regions| > 16 {
      return Err(TooManyRegions);
    }
    var duplicate, id := K.HasDuplicateKey(regions);
    if duplicate {
      return Err(DuplicateRegionId(id));
    }
    var sorted := K.Sort(regions);
    K.SortSorts(regions);
    var total := SumExpected(sorted);
    if NoneEmpty(regions) {
      NoneEmptyPermutes(regions, sorted);
    }
    if total.Err? {
      return Err(total.error);
    }
    NoneEmptyPermutes(sorted, regions);
    return Ok((sorted, total.value));
  }

  // ----- the committed set -----

  datatype LocalAuthority = Reader | WriterOf

  /** Why a committed set is refused, in the order the code looks. */
  ghost predicate CommitFault(expected: seq<K.Entry<LocalAuthority>>, regions: seq<K.Entry<LocalAuthority>>,
                              error: BatchError)
  {
    if |expected| > 16 then error == CommitMismatch
    else if !K.DistinctKeys(expected) then error.DuplicateRegionId? && LeastRepeated(expected, error.id)
    else if !K.DistinctKeys(regions)
    then exists k :: 0 <= k < |regions| && K.DistinctKeys(regions[..k]) && regions[k].0 in K.ToMap(regions[..k])
                     && error == DuplicateRegionId(regions[k].0)
    else error == CommitMismatch
  }

  /** `from_local_committed` succeeds exactly when neither list repeats an id
      and the committed regions are, as a map, the expected ids and directions. */
  method FromLocalCommitted(expected: seq<K.Entry<LocalAuthority>>, regions: seq<K.Entry<LocalAuthority>>)
    returns (r: Result<map<nat, LocalAuthority>, BatchError>)
    ensures r.Ok? <==>
              && |expected| <= 16 && (forall i, j :: 0 <= i < j < |expected| ==> expected[i].0 != expected[j].0)
              && (forall i, j :: 0 <= i < j < |regions| ==> regions[i].0 != regions[j].0)
              && K.ToMap(expected) == K.ToMap(regions)
    ensures r.Ok? ==> r.value == K.ToMap(regions)
    ensures r.Err? ==> CommitFault(expected, regions, r.error)
  {
    if |expected| > 16 {
      return Err(CommitMismatch);
    }
    var duplicate, id := K.HasDuplicateKey(expected);
    if duplicate {
      return Err(DuplicateRegionId(id));
    }
    K.MapOfDistinct(expected);
    var keyed: map<nat, LocalAuthority> := map[];
    for i := 0 to |regions|
      invariant keyed == K.ToMap(regions[..i]) && K.DistinctKeys(regions[..i])
    {
      K.KeysOfMap(regions[..i], regions[i].0);
      assert regions[..i + 1][..i] == regions[..i];
      if regions[i].0 in keyed {
        RepeatedKey(regions, i);
        return Err(DuplicateRegionId(regions[i].0));
      }
      FreshKey(regions, i);
      keyed := keyed[regions[i].0 := regions[i].1];
    }
    assert regions[..|regions|] == regions;
    if |keyed| != |expected| {
      return Err(CommitMismatch);
    }
    for i := 0 to |expected|
      invariant forall k :: 0 <= k < i ==> expected[k].0 in keyed && keyed[expected[k].0] == expected[k].1
    {
      if expected[i].0 !in keyed || keyed[expected[i].0] != expected[i].1 {
        return Err(CommitMismatch);
      }
    }
    K.MapIsExact(expected, keyed);
    return Ok(keyed);
  }

  lemma RepeatedKey(s: seq<K.Entry<LocalAuthority>>, i: nat)
    requires i < |s| && s[i].0 in K.ToMap(s[..i])
    ensures !K.DistinctKeys(s)
  {
    K.KeysOfMap(s[..i], s[i].0);
    var k :| 0 <= k < i && s[..i][k].0 == s[i].0;
    assert s[k].0 == s[i].0;
  }

  lemma FreshKey(s: seq<K.Entry<LocalAuthority>>, i: nat)
    requires i < |s| && K.DistinctKeys(s[..i]) && s[i].0 !in K.ToMap(s[..i])
    ensures K.DistinctKeys(s[..i + 1])
  {
    K.KeysOfMap(s[..i], s[i].0);
    forall a, b | 0 <= a < b < i + 1 ensures s[a].0 != s[b].0 {
      assert s[..i][a] == s[a];
      if b < i {
        assert s[..i][b] == s[b];
      }
    }
  }
}
