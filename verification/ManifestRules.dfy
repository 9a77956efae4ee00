/** What a manifest is, field by field: which entries construct one, what it
    holds of a batch, and where each field of an entry stands on the wire. */
module ManifestRules {
  import opened Machine
  import opened Wire
  import opened Limits
  import opened Protocol
  import opened Batch
  import K = Keyed

  // ----- which entries construct a manifest -----

  predicate EntryIsSound(e: ManifestEntry) {
    e.regionId != 0 && HasNonZero(e.incarnation) && 1 <= e.logicalLen <= e.mappedLen && e.flags == 3
  }

  predicate DistinctRegions(es: seq<ManifestEntry>) {
    forall i, j :: 0 <= i < j < |es| ==>
      es[i].regionId != es[j].regionId && es[i].incarnation != es[j].incarnation
  }

  lemma SortedIsDistinct(es: seq<ManifestEntry>)
    ensures StrictlyAscending(SortById(es)) && DistinctIncarnations(SortById(es)) <==> DistinctRegions(es)
  {
    var sorted := SortById(es);
    SortByIdSorts(es);
    if DistinctRegions(es) {
      StrictFromDistinct(es, sorted);
      IncarnationsPermute(es, sorted);
    }
    if StrictlyAscending(sorted) && DistinctIncarnations(sorted) {
      DistinctFromStrict(es, sorted);
    }
  }

  lemma DistinctFromStrict(es: seq<ManifestEntry>, sorted: seq<ManifestEntry>)
    requires multiset(es) == multiset(sorted) && StrictlyAscending(sorted) && DistinctIncarnations(sorted)
    ensures DistinctRegions(es)
  {
    var s, t := ById(es), ById(sorted);
    ByIdPermutes(es, sorted);
    assert K.DistinctKeys(t);
    K.DistinctPermutes(t, s);
    forall i, j | 0 <= i < j < |es| ensures es[i].regionId != es[j].regionId && es[i].incarnation != es[j].incarnation {
      assert s[i].0 != s[j].0;
      assert es[i] in multiset(sorted) && es[j] in multiset(sorted);
      var a :| 0 <= a < |sorted| && sorted[a] == es[i];
      var b :| 0 <= b < |sorted| && sorted[b] == es[j];
      assert a != b;
    }
  }

  /** Entries construct a manifest exactly when the header has no zero field and
      no reserved id, there are one to sixteen of them, each is sound, the totals
      fit 64 bits, and no region id and no incarnation occurs twice. */
  lemma ConstructsExactly(nonce: Bytes32, parentPid: u32, childPid: u32, transferId: u64, authority: Authority,
                          es: seq<ManifestEntry>)
    ensures NewManifest(nonce, parentPid, childPid, transferId, authority, es).Some? <==>
            && HasNonZero(nonce) && parentPid != 0 && childPid != 0 && 0 < transferId < 0xFFFF_FFFF_FFFF_FFFF
            && 1 <= |es| <= 16 && (forall i :: 0 <= i < |es| ==> EntryIsSound(es[i]))
            && TotalLogical(es) <= U64_MAX && TotalMapped(es) <= U64_MAX && DistinctRegions(es)
  {
    SortedIsDistinct(es);
    EntriesAreSound(es);
    ConstructionChecks(nonce, parentPid, childPid, transferId, authority, es);
  }

  predicate AllValid(es: seq<ManifestEntry>) {
    forall i :: 0 <= i < |es| ==> ValidEntry(es[i])
  }

  lemma EntriesAreSound(es: seq<ManifestEntry>)
    ensures AllValid(es) <==> forall i :: 0 <= i < |es| ==> EntryIsSound(es[i])
  {
  }

  lemma ConstructionChecks(nonce: Bytes32, parentPid: u32, childPid: u32, transferId: u64, authority: Authority,
                           es: seq<ManifestEntry>)
    ensures NewManifest(nonce, parentPid, childPid, transferId, authority, es).Some? <==>
            && ValidHeader(nonce, parentPid, childPid, transferId) && 1 <= |es| <= 16 && AllValid(es)
            && TotalLogical(es) <= U64_MAX && TotalMapped(es) <= U64_MAX
            && StrictlyAscending(SortById(es)) && DistinctIncarnations(SortById(es))
  {
  }

  /** `e` stands among the entries, under its place in the list. */
  predicate Listed(entries: seq<ManifestEntry>, e: ManifestEntry) {
    exists j: u16 :: j < |entries| && entries[j] == e.(ordinal := j)
  }

  /** Entry `j` is one of `es`. */
  predicate Given(entries: seq<ManifestEntry>, j: u16, es: seq<ManifestEntry>)
    requires j < |entries|
  {
    exists i :: 0 <= i < |es| && entries[j] == es[i].(ordinal := j)
  }

  lemma NumberedIsGiven(es: seq<ManifestEntry>, sorted: seq<ManifestEntry>, j: u16)
    requires multiset(sorted) == multiset(es) && |sorted| <= U16_MAX && j < |sorted|
    ensures Given(Numbered(sorted), j, es)
  {
    assert sorted[j] in multiset(es);
    var i :| 0 <= i < |es| && es[i] == sorted[j];
    assert Numbered(sorted)[j] == es[i].(ordinal := j);
  }

  lemma GivenIsListed(es: seq<ManifestEntry>, sorted: seq<ManifestEntry>, i: nat)
    requires multiset(sorted) == multiset(es) && |sorted| <= U16_MAX && i < |es|
    ensures Listed(Numbered(sorted), es[i])
  {
    assert es[i] in multiset(sorted);
    var j: u16 :| j < |sorted| && sorted[j] == es[i];
    assert Numbered(sorted)[j] == es[i].(ordinal := j);
  }

  /** The entries of the manifest are the given ones, each once, in ascending
      order of their ids and numbered in that order. */
  lemma ManifestHolds(nonce: Bytes32, parentPid: u32, childPid: u32, transferId: u64, authority: Authority,
                      es: seq<ManifestEntry>, m: TransferManifest)
    requires NewManifest(nonce, parentPid, childPid, transferId, authority, es) == Some(m)
    ensures m.nonce == nonce && m.parentPid == parentPid && m.childPid == childPid && m.transferId == transferId
    ensures m.authority == authority && m.totalLogical == TotalLogical(es) && m.totalMapped == TotalMapped(es)
    ensures |m.entries| == |es| <= U16_MAX
    ensures forall i, j :: 0 <= i < j < |m.entries| ==> m.entries[i].regionId < m.entries[j].regionId
    ensures forall j: u16 :: j < |m.entries| ==> Given(m.entries, j, es)
    ensures forall i :: 0 <= i < |es| ==> Listed(m.entries, es[i])
  {
    var sorted := SortById(es);
    SortByIdSorts(es);
    NumberingKeepsEntries(sorted);
    forall j: u16 | j < |m.entries| ensures Given(m.entries, j, es) {
      NumberedIsGiven(es, sorted, j);
    }
    forall i | 0 <= i < |es| ensures Listed(m.entries, es[i]) {
      GivenIsListed(es, sorted, i);
    }
  }

  /** A manifest fits the session exactly when every count and sum does. */
  lemma FitsExactly(m: TransferManifest, limits: SessionLimits)
    ensures FitsLimits(m, limits) <==>
            && |m.entries| <= limits.maxRegionsPerBatch
            && m.totalLogical <= limits.maxBatchBytes && m.totalMapped <= limits.maxBatchBytes
            && forall i :: 0 <= i < |m.entries| ==> m.entries[i].logicalLen <= limits.maxRegionBytes
  {
  }

  // ----- the manifest of a batch -----

  /** The entry describes the region: the receiver may write exactly what it is to write. */
  predicate Describes(e: ManifestEntry, r: PreparedRegion) {
    && e.regionId == r.id && e.incarnation == r.incarnation && e.writer == r.owner
    && e.logicalLen == r.logicalLen && e.mappedLen == r.mappedLen
    && (e.access == ReadOnly <==> r.writer.CoordinatorWrites?) && (e.access == SoleWriter <==> r.writer.ReceiverWrites?)
  }

  /** Exactly one of the entries describes the region. */
  predicate DescribedOnce(entries: seq<ManifestEntry>, r: PreparedRegion) {
    exists j :: 0 <= j < |entries| && Describes(entries[j], r)
                && forall k :: 0 <= k < |entries| && Describes(entries[k], r) ==> k == j
  }

  predicate DescribesSome(e: ManifestEntry, regions: seq<PreparedRegion>) {
    exists i :: 0 <= i < |regions| && Describes(e, regions[i])
  }

  lemma EntryDescribes(regions: seq<PreparedRegion>, i: nat, j: u16)
    requires i < |regions|
    ensures Describes(Entries(regions)[i].(ordinal := j), regions[i])
  {
  }

  lemma RegionIsDescribed(regions: seq<PreparedRegion>, i: nat, entries: seq<ManifestEntry>)
    requires i < |regions| && Listed(entries, Entries(regions)[i])
    requires forall a, b :: 0 <= a < b < |entries| ==> entries[a].regionId < entries[b].regionId
    ensures DescribedOnce(entries, regions[i])
  {
    var j: u16 :| j < |entries| && entries[j] == Entries(regions)[i].(ordinal := j);
    EntryDescribes(regions, i, j);
    forall k | 0 <= k < |entries| && Describes(entries[k], regions[i]) ensures k == j {
      assert entries[k].regionId == entries[j].regionId;
    }
  }

  /** The manifest of a batch describes every region by exactly one entry, and has no other. */
  lemma BatchManifestDescribes(regions: seq<PreparedRegion>, nonce: Bytes32, parentPid: u32, childPid: u32,
                               transferId: u64, authority: Authority, m: TransferManifest)
    requires NewManifest(nonce, parentPid, childPid, transferId, authority, Entries(regions)) == Some(m)
    ensures |m.entries| == |regions|
    ensures forall i :: 0 <= i < |regions| ==> DescribedOnce(m.entries, regions[i])
    ensures forall j :: 0 <= j < |m.entries| ==> DescribesSome(m.entries[j], regions)
  {
    var es := Entries(regions);
    ManifestHolds(nonce, parentPid, childPid, transferId, authority, es, m);
    forall i | 0 <= i < |regions| ensures DescribedOnce(m.entries, regions[i]) {
      RegionIsDescribed(regions, i, m.entries);
    }
    forall j | 0 <= j < |m.entries| ensures DescribesSome(m.entries[j], regions) {
      assert Given(m.entries, j, es);
      var i :| 0 <= i < |es| && m.entries[j] == es[i].(ordinal := j);
      EntryDescribes(regions, i, j);
    }
  }

  // ----- where an entry's fields stand -----

  lemma AtInside(b: seq<byte>, start: nat, row: seq<byte>, offset: nat, s: seq<byte>)
    requires At(b, start, row) && At(row, offset, s)
    ensures At(b, start + offset, s)
  {
    var whole := b[start..start + |row|];
    assert |b[start + offset..start + offset + |s|]| == |s|;
    forall k | 0 <= k < |s| ensures b[start + offset + k] == s[k] {
      assert s[k] == row[offset..offset + |s|][k] == row[offset + k] == whole[offset + k];
    }
  }

  /** The fields of an entry that starts at `start`. */
  ghost predicate EntryAt(b: seq<byte>, start: nat, e: ManifestEntry) {
    && At(b, start, U128Bytes(e.regionId)) && At(b, start + 16, e.incarnation)
    && At(b, start + 32, U64Bytes(e.logicalLen)) && At(b, start + 40, U64Bytes(e.mappedLen))
    && At(b, start + 48, U32Bytes(e.writer)) && At(b, start + 52, U32Bytes(if e.access == SoleWriter then 2 else 1))
    && At(b, start + 56, U16Bytes(e.ordinal)) && At(b, start + 58, U16Bytes(e.flags)) && At(b, start + 60, Zeros(4))
  }

  lemma EntryBytesAt(e: ManifestEntry)
    ensures EntryAt(EntryBytes(e), 0, e)
  {
    assert At(Zeros(ENTRY_LEN), 60, Zeros(4));
  }

  lemma RowHoldsEntry(b: seq<byte>, start: nat, e: ManifestEntry)
    requires At(b, start, EntryBytes(e))
    ensures EntryAt(b, start, e)
  {
    EntryBytesAt(e);
    var row := EntryBytes(e);
    AtInside(b, start, row, 0, U128Bytes(e.regionId));
    AtInside(b, start, row, 16, e.incarnation);
    AtInside(b, start, row, 32, U64Bytes(e.logicalLen));
    AtInside(b, start, row, 40, U64Bytes(e.mappedLen));
    AtInside(b, start, row, 48, U32Bytes(e.writer));
    AtInside(b, start, row, 52, U32Bytes(if e.access == SoleWriter then 2 else 1));
    AtInside(b, start, row, 56, U16Bytes(e.ordinal));
    AtInside(b, start, row, 58, U16Bytes(e.flags));
    AtInside(b, start, row, 60, Zeros(4));
  }

  /** Entry `i` of an encoded manifest occupies 64 bytes from 96 + 64 i, each field at its place. */
  lemma EncodedEntryAt(m: TransferManifest, magic: Bytes8, i: nat)
    requires |m.entries| <= 16 && i < |m.entries|
    ensures EntryAt(Encode(m, magic), 96 + 64 * i, m.entries[i])
  {
    EncodedFrameAt(m, magic);
    RowsHoldEntries(Encode(m, magic), m.entries, i);
  }

  lemma RowsHoldEntries(b: seq<byte>, es: seq<ManifestEntry>, i: nat)
    requires RowsAt(b, Rows(es)) && i < |es|
    ensures EntryAt(b, 96 + 64 * i, es[i])
  {
    assert At(b, EntryStart(i), Rows(es)[i]);
    RowHoldsEntry(b, 96 + 64 * i, es[i]);
  }

  /** The frame's header words, in numbers: version, count, flags, length and authority. */
  lemma EncodedHeaderAt(m: TransferManifest, magic: Bytes8)
    requires |m.entries| <= 16
    ensures var b := Encode(m, magic);
            && |b| == 1120 && At(b, 0, magic) && At(b, 8, U32Bytes(1)) && At(b, 12, U32Bytes(|m.entries|))
            && At(b, 16, m.nonce) && At(b, 48, U32Bytes(m.parentPid)) && At(b, 52, U32Bytes(m.childPid))
            && At(b, 56, U64Bytes(m.transferId)) && At(b, 64, magic[4..8]) && At(b, 68, U32Bytes(1))
            && At(b, 72, U32Bytes(1120))
            && At(b, 76, U32Bytes(match m.authority
                                  case Legacy => 0
                                  case LinuxMdweV1 => 1
                                  case MacMachV1 => 2
                                  case WindowsSectionsV1 => 3))
            && At(b, 80, U64Bytes(m.totalLogical)) && At(b, 88, U64Bytes(m.totalMapped))
            && ZeroRange(b, 96 + 64 * |m.entries|, 1120)
  {
    EncodedFrameAt(m, magic);
  }
}
