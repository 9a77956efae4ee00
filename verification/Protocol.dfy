/** Transfer manifests: canonical construction and their single wire encoding. */
module Protocol {
  import opened Machine
  import opened Wire
  import opened Limits

  const CONTROL_VERSION: u32 := 1
  const MAX_TRANSFER_ENTRIES: nat := 16
  const ENTRY_LEN: nat := 64
  const CONTROL_FRAME_LEN: nat := 1120
  const MANIFEST_FLAG_CANONICAL: u32 := 1
  const REQUIRED_ENTRY_FLAGS: u16 := 3

  const CAPABILITY_MAGIC: Bytes8 := [0x4E, 0x49, 0x50, 0x43, 0x43, 0x41, 0x50, 0x31]                  // NIPCCAP1
  const COORDINATOR_CAPACITY_READY_MAGIC: Bytes8 := [0x4E, 0x49, 0x50, 0x43, 0x43, 0x50, 0x52, 0x31]  // NIPCCPR1
  const COORDINATOR_CAPACITY_REJECT_MAGIC: Bytes8 := [0x4E, 0x49, 0x50, 0x43, 0x43, 0x50, 0x4A, 0x31] // NIPCCPJ1
  const COORDINATOR_PREPARATION_FAILED_MAGIC: Bytes8 :=
    [0x4E, 0x49, 0x50, 0x43, 0x43, 0x50, 0x46, 0x31]                                                  // NIPCCPF1
  const RECEIVER_CAPACITY_READY_MAGIC: Bytes8 := [0x4E, 0x49, 0x50, 0x43, 0x52, 0x50, 0x52, 0x31]     // NIPCRPR1
  const RECEIVER_CAPACITY_REJECT_MAGIC: Bytes8 := [0x4E, 0x49, 0x50, 0x43, 0x52, 0x50, 0x4A, 0x31]    // NIPCRPJ1
  const IMPORTED_MAGIC: Bytes8 := [0x4E, 0x49, 0x50, 0x43, 0x49, 0x4D, 0x50, 0x31]                    // NIPCIMP1
  const SEALED_MAGIC: Bytes8 := [0x4E, 0x49, 0x50, 0x43, 0x53, 0x45, 0x41, 0x31]                      // NIPCSEA1
  const READY_MAGIC: Bytes8 := [0x4E, 0x49, 0x50, 0x43, 0x52, 0x44, 0x59, 0x31]                       // NIPCRDY1
  const COMMIT_MAGIC: Bytes8 := [0x4E, 0x49, 0x50, 0x43, 0x43, 0x4D, 0x54, 0x31]                      // NIPCCMT1

  datatype PeerAccess = ReadOnly | SoleWriter

  datatype Authority = Legacy | LinuxMdweV1 | MacMachV1 | WindowsSectionsV1

  datatype ManifestEntry = ManifestEntry(
    regionId: u128, incarnation: Bytes16, writer: u32, access: PeerAccess,
    logicalLen: u64, mappedLen: u64, ordinal: u16, flags: u16)

  datatype TransferManifest = TransferManifest(
    nonce: Bytes32, parentPid: u32, childPid: u32, transferId: u64, authority: Authority,
    totalLogical: u64, totalMapped: u64, entries: seq<ManifestEntry>)

  // ----- construction -----

  predicate ValidEntry(e: ManifestEntry) {
    && e.regionId != 0 && !IsZero(e.incarnation) && e.logicalLen != 0
    && e.logicalLen <= e.mappedLen && e.flags == REQUIRED_ENTRY_FLAGS
  }

  function TotalLogical(es: seq<ManifestEntry>): nat {
    if es == [] then 0 else TotalLogical(es[..|es| - 1]) + es[|es| - 1].logicalLen
  }

  function TotalMapped(es: seq<ManifestEntry>): nat {
    if es == [] then 0 else TotalMapped(es[..|es| - 1]) + es[|es| - 1].mappedLen
  }

  function Insert(e: ManifestEntry, es: seq<ManifestEntry>): (r: seq<ManifestEntry>)
    ensures |r| == |es| + 1
  {
    if es == [] || e.regionId <= es[0].regionId then [e] + es else [es[0]] + Insert(e, es[1..])
  }

  /** The library sort by region id. */
  function SortById(es: seq<ManifestEntry>): (r: seq<ManifestEntry>)
    ensures |r| == |es|
  {
    if es == [] then [] else Insert(es[0], SortById(es[1..]))
  }

  predicate Ascending(es: seq<ManifestEntry>) {
    forall i, j :: 0 <= i < j < |es| ==> es[i].regionId <= es[j].regionId
  }

  predicate StrictlyAscending(es: seq<ManifestEntry>) {
    forall i, j :: 0 <= i < j < |es| ==> es[i].regionId < es[j].regionId
  }

  predicate DistinctIncarnations(es: seq<ManifestEntry>) {
    forall i, j :: 0 <= i < j < |es| ==> es[i].incarnation != es[j].incarnation
  }

  function Numbered(es: seq<ManifestEntry>): (r: seq<ManifestEntry>)
    requires |es| <= U16_MAX
    ensures |r| == |es|
  {
    seq(|es|, i requires 0 <= i < |es| => es[i].(ordinal := i))
  }

  predicate ValidHeader(nonce: Bytes32, parentPid: u32, childPid: u32, transferId: u64) {
    !IsZero(nonce) && parentPid != 0 && childPid != 0 && transferId != 0 && transferId != U64_MAX
  }

  function NewManifest(nonce: Bytes32, parentPid: u32, childPid: u32, transferId: u64, authority: Authority,
                       es: seq<ManifestEntry>): Option<TransferManifest>
  {
    if !ValidHeader(nonce, parentPid, childPid, transferId) || es == [] || |es| > MAX_TRANSFER_ENTRIES then None
    else if (exists i :: 0 <= i < |es| && !ValidEntry(es[i]))
            || TotalLogical(es) > U64_MAX || TotalMapped(es) > U64_MAX then None
    else
      var sorted := SortById(es);
      if !StrictlyAscending(sorted) || !DistinctIncarnations(sorted) then None
      else Some(TransferManifest(nonce, parentPid, childPid, transferId, authority,
                                 TotalLogical(es), TotalMapped(es), Numbered(sorted)))
  }

  /** What every constructed manifest satisfies. */
  ghost predicate WellFormed(m: TransferManifest) {
    && ValidHeader(m.nonce, m.parentPid, m.childPid, m.transferId)
    && 1 <= |m.entries| <= MAX_TRANSFER_ENTRIES
    && (forall i :: 0 <= i < |m.entries| ==> ValidEntry(m.entries[i]) && m.entries[i].ordinal == i)
    && m.totalLogical == TotalLogical(m.entries) && m.totalMapped == TotalMapped(m.entries)
    && StrictlyAscending(m.entries) && DistinctIncarnations(m.entries)
  }

  lemma {:induction false} InsertKeepsMembers(e: ManifestEntry, es: seq<ManifestEntry>)
    ensures multiset(Insert(e, es)) == multiset{e} + multiset(es)
  {
    if es != [] && e.regionId > es[0].regionId {
      InsertKeepsMembers(e, es[1..]);
      assert es == [es[0]] + es[1..];
    }
  }

  lemma {:induction false} InsertSorts(e: ManifestEntry, es: seq<ManifestEntry>)
    requires Ascending(es)
    ensures Ascending(Insert(e, es))
  {
    if es != [] && e.regionId > es[0].regionId {
      InsertSorts(e, es[1..]);
      InsertKeepsMembers(e, es[1..]);
      var tail := Insert(e, es[1..]);
      forall k | 0 <= k < |tail| ensures es[0].regionId <= tail[k].regionId {
        assert tail[k] in multiset(tail);
        assert tail[k] == e || tail[k] in es[1..];
      }
    }
  }

  lemma {:induction false} SortByIdSorts(es: seq<ManifestEntry>)
    ensures Ascending(SortById(es)) && multiset(SortById(es)) == multiset(es)
  {
    if es != [] {
      SortByIdSorts(es[1..]);
      InsertSorts(es[0], SortById(es[1..]));
      InsertKeepsMembers(es[0], SortById(es[1..]));
      assert es == [es[0]] + es[1..];
    }
  }

  lemma HeadsAgree(s: seq<ManifestEntry>, t: seq<ManifestEntry>)
    requires Ascending(s) && StrictlyAscending(t) && multiset(s) == multiset(t) && s != []
    ensures t != [] && s[0] == t[0]
  {
    assert s[0] in multiset(t);
    var k :| 0 <= k < |t| && t[k] == s[0];
    assert t[0] in multiset(s);
    var j :| 0 <= j < |s| && s[j] == t[0];
    assert s[0].regionId <= s[j].regionId;
    assert k == 0;
  }

  lemma TailsAgree(s: seq<ManifestEntry>, t: seq<ManifestEntry>)
    requires s != [] && t != [] && s[0] == t[0] && multiset(s) == multiset(t)
    ensures multiset(s[1..]) == multiset(t[1..])
  {
    assert s == [s[0]] + s[1..] && t == [t[0]] + t[1..];
    assert multiset(s[1..]) == multiset(s) - multiset{s[0]};
    assert multiset(t[1..]) == multiset(t) - multiset{t[0]};
  }

  /** With distinct ids there is only one ascending arrangement. */
  lemma {:induction false} StrictArrangementIsUnique(s: seq<ManifestEntry>, t: seq<ManifestEntry>)
    requires Ascending(s) && StrictlyAscending(t) && multiset(s) == multiset(t)
    ensures s == t
  {
    if s == [] {
      assert |multiset(t)| == 0;
    } else {
      HeadsAgree(s, t);
      TailsAgree(s, t);
      StrictArrangementIsUnique(s[1..], t[1..]);
    }
  }

  lemma {:induction false} TotalsSplit(a: seq<ManifestEntry>, b: seq<ManifestEntry>)
    ensures TotalLogical(a + b) == TotalLogical(a) + TotalLogical(b)
    ensures TotalMapped(a + b) == TotalMapped(a) + TotalMapped(b)
  {
    if b == [] {
      assert a + b == a;
    } else {
      TotalsSplit(a, b[..|b| - 1]);
      assert (a + b)[..|a + b| - 1] == a + b[..|b| - 1];
    }
  }

  lemma RemoveAt(t: seq<ManifestEntry>, k: nat)
    requires k < |t|
    ensures var rest := t[..k] + t[k + 1..];
            && multiset(t) == multiset(rest) + multiset{t[k]}
            && TotalLogical(t) == TotalLogical(rest) + t[k].logicalLen
            && TotalMapped(t) == TotalMapped(rest) + t[k].mappedLen
  {
    assert t == t[..k] + ([t[k]] + t[k + 1..]);
    TotalsSplit(t[..k], [t[k]] + t[k + 1..]);
    TotalsSplit([t[k]], t[k + 1..]);
    TotalsSplit(t[..k], t[k + 1..]);
    assert [t[k]][..0] == [];
  }

  lemma {:induction false} TotalsOfPermutation(s: seq<ManifestEntry>, t: seq<ManifestEntry>)
    requires multiset(s) == multiset(t)
    ensures |s| == |t| && TotalLogical(s) == TotalLogical(t) && TotalMapped(s) == TotalMapped(t)
  {
    assert |s| == |multiset(s)| == |multiset(t)| == |t|;
    if s != [] {
      var last := |s| - 1;
      assert s[last] in multiset(t);
      var k :| 0 <= k < |t| && t[k] == s[last];
      RemoveAt(s, last);
      RemoveAt(t, k);
      assert s[..last] + s[last + 1..] == s[..last];
      assert multiset(s[..last]) == multiset(s) - multiset{s[last]};
      assert multiset(t[..k] + t[k + 1..]) == multiset(t) - multiset{t[k]};
      TotalsOfPermutation(s[..last], t[..k] + t[k + 1..]);
    }
  }

  lemma {:induction false} NumberingKeepsTotals(es: seq<ManifestEntry>)
    requires |es| <= U16_MAX
    ensures TotalLogical(Numbered(es)) == TotalLogical(es) && TotalMapped(Numbered(es)) == TotalMapped(es)
    decreases |es|
  {
    if es != [] {
      NumberingKeepsTotals(es[..|es| - 1]);
      assert Numbered(es)[..|es| - 1] == Numbered(es[..|es| - 1]);
    }
  }

  /** Every constructed manifest is well formed and holds exactly the given
      entries, renumbered in ascending id order. */
  lemma ConstructionIsWellFormed(nonce: Bytes32, parentPid: u32, childPid: u32, transferId: u64,
                                 authority: Authority, es: seq<ManifestEntry>)
    requires NewManifest(nonce, parentPid, childPid, transferId, authority, es).Some?
    ensures WellFormed(NewManifest(nonce, parentPid, childPid, transferId, authority, es).value)
  {
    var m := NewManifest(nonce, parentPid, childPid, transferId, authority, es).value;
    var sorted := SortById(es);
    SortByIdSorts(es);
    TotalsOfPermutation(es, sorted);
    NumberingKeepsTotals(sorted);
    forall i | 0 <= i < |sorted| ensures ValidEntry(sorted[i]) {
      assert sorted[i] in multiset(es);
    }
    NumberingKeepsEntries(sorted);
  }

  lemma NumberingKeepsEntries(es: seq<ManifestEntry>)
    requires |es| <= U16_MAX
    ensures forall i :: 0 <= i < |es| ==>
              Numbered(es)[i].ordinal == i && (ValidEntry(es[i]) ==> ValidEntry(Numbered(es)[i]))
    ensures StrictlyAscending(es) ==> StrictlyAscending(Numbered(es))
    ensures DistinctIncarnations(es) ==> DistinctIncarnations(Numbered(es))
  {
  }

  /** Construction does not depend on the order the entries were given in. */
  lemma ConstructionIgnoresOrder(nonce: Bytes32, parentPid: u32, childPid: u32, transferId: u64,
                                 authority: Authority, s: seq<ManifestEntry>, t: seq<ManifestEntry>)
    requires multiset(s) == multiset(t)
    ensures NewManifest(nonce, parentPid, childPid, transferId, authority, s)
         == NewManifest(nonce, parentPid, childPid, transferId, authority, t)
  {
    TotalsOfPermutation(s, t);
    SortByIdSorts(s);
    SortByIdSorts(t);
    SameMembers(s, t);
    if StrictlyAscending(SortById(s)) {
      StrictArrangementIsUnique(SortById(t), SortById(s));
    } else if StrictlyAscending(SortById(t)) {
      StrictArrangementIsUnique(SortById(s), SortById(t));
    }
  }

  lemma SameMembers(s: seq<ManifestEntry>, t: seq<ManifestEntry>)
    requires multiset(s) == multiset(t)
    ensures (exists i :: 0 <= i < |s| && !ValidEntry(s[i])) <==> (exists i :: 0 <= i < |t| && !ValidEntry(t[i]))
  {
    forall i | 0 <= i < |s| ensures exists j :: 0 <= j < |t| && t[j] == s[i] {
      assert s[i] in multiset(t);
    }
    forall i | 0 <= i < |t| ensures exists j :: 0 <= j < |s| && s[j] == t[i] {
      assert t[i] in multiset(s);
    }
  }

  /** Constructing from a well-formed manifest's own entries gives it back. */
  lemma WellFormedReconstructs(m: TransferManifest)
    requires WellFormed(m)
    ensures NewManifest(m.nonce, m.parentPid, m.childPid, m.transferId, m.authority, m.entries) == Some(m)
  {
    SortByIdSorts(m.entries);
    StrictArrangementIsUnique(SortById(m.entries), m.entries);
    assert Numbered(m.entries) == m.entries;
  }

  // ----- encoding -----

  function AccessWord(a: PeerAccess): u32 {
    if a.ReadOnly? then 1 else 2
  }

  function AuthorityWord(a: Authority): u32 {
    match a case Legacy => 0 case LinuxMdweV1 => 1 case MacMachV1 => 2 case WindowsSectionsV1 => 3
  }

  function PutIdentity(b: seq<byte>, m: TransferManifest, magic: Bytes8): (r: seq<byte>)
    requires |b| == CONTROL_FRAME_LEN && |m.entries| <= MAX_TRANSFER_ENTRIES
    ensures |r| == |b|
  {
    var b := Put(b, 0, magic);
    var b := Put(b, 8, U32Bytes(CONTROL_VERSION));
    var b := Put(b, 12, U32Bytes(|m.entries|));
    var b := Put(b, 16, m.nonce);
    var b := Put(b, 48, U32Bytes(m.parentPid));
    var b := Put(b, 52, U32Bytes(m.childPid));
    Put(b, 56, U64Bytes(m.transferId))
  }

  /** The frame kind is the magic's last four bytes, read and written little-endian. */
  function PutSummary(b: seq<byte>, m: TransferManifest, magic: Bytes8): (r: seq<byte>)
    requires |b| == CONTROL_FRAME_LEN
    ensures |r| == |b|
  {
    var b := Put(b, 64, U32Bytes(GetU32(magic, 4)));
    var b := Put(b, 68, U32Bytes(MANIFEST_FLAG_CANONICAL));
    var b := Put(b, 72, U32Bytes(CONTROL_FRAME_LEN));
    var b := Put(b, 76, U32Bytes(AuthorityWord(m.authority)));
    var b := Put(b, 80, U64Bytes(m.totalLogical));
    Put(b, 88, U64Bytes(m.totalMapped))
  }

  function EntryStart(i: nat): nat {
    96 + i * ENTRY_LEN
  }

  /** One entry's 64 bytes; the last four stay zero. */
  function EntryBytes(e: ManifestEntry): (r: seq<byte>)
    ensures |r| == ENTRY_LEN
  {
    var b := Put(Zeros(ENTRY_LEN), 0, U128Bytes(e.regionId));
    var b := Put(b, 16, e.incarnation);
    var b := Put(b, 32, U64Bytes(e.logicalLen));
    var b := Put(b, 40, U64Bytes(e.mappedLen));
    var b := Put(b, 48, U32Bytes(e.writer));
    var b := Put(b, 52, U32Bytes(AccessWord(e.access)));
    var b := Put(b, 56, U16Bytes(e.ordinal));
    Put(b, 58, U16Bytes(e.flags))
  }

  type Row = s: seq<byte> | |s| == ENTRY_LEN witness Zeros(ENTRY_LEN)

  function Rows(es: seq<ManifestEntry>): (r: seq<Row>)
    ensures |r| == |es|
  {
    seq(|es|, i requires 0 <= i < |es| => EntryBytes(es[i]))
  }

  function PutRows(b: seq<byte>, rows: seq<Row>): (r: seq<byte>)
    requires |b| == CONTROL_FRAME_LEN && |rows| <= MAX_TRANSFER_ENTRIES
    ensures |r| == |b|
  {
    if rows == [] then b
    else var n := |rows| - 1; Put(PutRows(b, rows[..n]), EntryStart(n), rows[n])
  }

  function Encode(m: TransferManifest, magic: Bytes8): (r: seq<byte>)
    requires |m.entries| <= MAX_TRANSFER_ENTRIES
    ensures |r| == CONTROL_FRAME_LEN
  {
    PutRows(PutSummary(PutIdentity(Zeros(CONTROL_FRAME_LEN), m, magic), m, magic), Rows(m.entries))
  }

  // ----- what an encoded frame holds, field by field -----

  ghost predicate IdentityAt(b: seq<byte>, m: TransferManifest, magic: Bytes8) {
    && |m.entries| <= MAX_TRANSFER_ENTRIES
    && At(b, 0, magic) && At(b, 8, U32Bytes(CONTROL_VERSION)) && At(b, 12, U32Bytes(|m.entries|))
    && At(b, 16, m.nonce) && At(b, 48, U32Bytes(m.parentPid)) && At(b, 52, U32Bytes(m.childPid))
    && At(b, 56, U64Bytes(m.transferId))
  }

  ghost predicate SummaryAt(b: seq<byte>, m: TransferManifest, magic: Bytes8) {
    && At(b, 64, magic[4..8]) && At(b, 68, U32Bytes(MANIFEST_FLAG_CANONICAL))
    && At(b, 72, U32Bytes(CONTROL_FRAME_LEN)) && At(b, 76, U32Bytes(AuthorityWord(m.authority)))
    && At(b, 80, U64Bytes(m.totalLogical)) && At(b, 88, U64Bytes(m.totalMapped))
  }

  ghost predicate FrameAt(b: seq<byte>, m: TransferManifest, magic: Bytes8) {
    && |b| == CONTROL_FRAME_LEN && IdentityAt(b, m, magic) && SummaryAt(b, m, magic)
    && RowsAt(b, Rows(m.entries))
  }

  ghost predicate RowsAt(b: seq<byte>, rows: seq<Row>) {
    && (forall i :: 0 <= i < |rows| ==> At(b, EntryStart(i), rows[i]))
    && ZeroRange(b, EntryStart(|rows|), CONTROL_FRAME_LEN)
  }

  lemma PutIdentityAt(b: seq<byte>, m: TransferManifest, magic: Bytes8)
    requires |b| == CONTROL_FRAME_LEN && |m.entries| <= MAX_TRANSFER_ENTRIES && ZeroRange(b, 96, CONTROL_FRAME_LEN)
    ensures IdentityAt(PutIdentity(b, m, magic), m, magic)
    ensures ZeroRange(PutIdentity(b, m, magic), 96, CONTROL_FRAME_LEN)
  {
    var r := PutIdentity(b, m, magic);
  }

  lemma PutSummaryAt(b: seq<byte>, m: TransferManifest, magic: Bytes8)
    requires |b| == CONTROL_FRAME_LEN && IdentityAt(b, m, magic) && ZeroRange(b, 96, CONTROL_FRAME_LEN)
    ensures IdentityAt(PutSummary(b, m, magic), m, magic) && SummaryAt(PutSummary(b, m, magic), m, magic)
    ensures ZeroRange(PutSummary(b, m, magic), 96, CONTROL_FRAME_LEN)
  {
    var r := PutSummary(b, m, magic);
  }

  lemma PutHeaderAt(b: seq<byte>, m: TransferManifest, magic: Bytes8)
    requires |b| == CONTROL_FRAME_LEN && |m.entries| <= MAX_TRANSFER_ENTRIES && ZeroRange(b, 96, CONTROL_FRAME_LEN)
    ensures var r := PutSummary(PutIdentity(b, m, magic), m, magic);
            IdentityAt(r, m, magic) && SummaryAt(r, m, magic) && ZeroRange(r, 96, CONTROL_FRAME_LEN)
  {
    PutIdentityAt(b, m, magic);
    PutSummaryAt(PutIdentity(b, m, magic), m, magic);
  }

  ghost predicate HeaderKept(b: seq<byte>, r: seq<byte>) {
    forall o: nat, t: seq<byte> {:trigger At(b, o, t)} :: At(b, o, t) && o + |t| <= 96 ==> At(r, o, t)
  }

  lemma {:induction false} PutRowsAt(b: seq<byte>, rows: seq<Row>)
    requires |b| == CONTROL_FRAME_LEN && |rows| <= MAX_TRANSFER_ENTRIES && ZeroRange(b, 96, CONTROL_FRAME_LEN)
    ensures RowsAt(PutRows(b, rows), rows) && HeaderKept(b, PutRows(b, rows))
  {
    if rows != [] {
      var n := |rows| - 1;
      PutRowsAt(b, rows[..n]);
      OneMoreRow(b, PutRows(b, rows[..n]), rows[..n], rows[n]);
      assert rows[..n] + [rows[n]] == rows;
    }
  }

  lemma OneMoreRow(b: seq<byte>, before: seq<byte>, rows: seq<Row>, row: Row)
    requires |before| == CONTROL_FRAME_LEN && |rows| < MAX_TRANSFER_ENTRIES && HeaderKept(b, before)
    requires RowsAt(before, rows)
    ensures var r := Put(before, EntryStart(|rows|), row);
            RowsAt(r, rows + [row]) && HeaderKept(b, r)
  {
    var start := EntryStart(|rows|);
    assert ZeroRange(before, start + ENTRY_LEN, CONTROL_FRAME_LEN);
    var r := Put(before, start, row);
    forall i | 0 <= i < |rows| ensures At(r, EntryStart(i), rows[i]) {
      assert At(before, EntryStart(i), rows[i]);
    }
    forall o: nat, t: seq<byte> | At(b, o, t) && o + |t| <= 96 ensures At(r, o, t) {
      assert At(before, o, t);
    }
  }

  lemma EncodedFrameAt(m: TransferManifest, magic: Bytes8)
    requires |m.entries| <= MAX_TRANSFER_ENTRIES
    ensures FrameAt(Encode(m, magic), m, magic)
  {
    PutHeaderAt(Zeros(CONTROL_FRAME_LEN), m, magic);
    var b := PutSummary(PutIdentity(Zeros(CONTROL_FRAME_LEN), m, magic), m, magic);
    PutRowsAt(b, Rows(m.entries));
    IdentityKept(b, Encode(m, magic), m, magic);
  }

  lemma IdentityKept(b: seq<byte>, r: seq<byte>, m: TransferManifest, magic: Bytes8)
    requires IdentityAt(b, m, magic) && SummaryAt(b, m, magic)
    requires HeaderKept(b, r)
    ensures IdentityAt(r, m, magic) && SummaryAt(r, m, magic)
  {
  }

  // ----- a frame is determined by its fields -----

  lemma SameHeader(a: seq<byte>, b: seq<byte>, m: TransferManifest, magic: Bytes8)
    requires IdentityAt(a, m, magic) && IdentityAt(b, m, magic) && SummaryAt(a, m, magic) && SummaryAt(b, m, magic)
    ensures |a| >= 96 && |b| >= 96 && forall i :: 0 <= i < 96 ==> a[i] == b[i]
  {
    SameAt(a, b, 0, magic);
    SameAt(a, b, 8, U32Bytes(CONTROL_VERSION));
    SameAt(a, b, 12, U32Bytes(|m.entries|));
    SameAt(a, b, 16, m.nonce);
    SameAt(a, b, 48, U32Bytes(m.parentPid));
    SameAt(a, b, 52, U32Bytes(m.childPid));
    SameAt(a, b, 56, U64Bytes(m.transferId));
    SameAt(a, b, 64, magic[4..8]);
    SameAt(a, b, 68, U32Bytes(MANIFEST_FLAG_CANONICAL));
    SameAt(a, b, 72, U32Bytes(CONTROL_FRAME_LEN));
    SameAt(a, b, 76, U32Bytes(AuthorityWord(m.authority)));
    SameAt(a, b, 80, U64Bytes(m.totalLogical));
    SameAt(a, b, 88, U64Bytes(m.totalMapped));
  }

  lemma FrameIsUnique(a: seq<byte>, b: seq<byte>, m: TransferManifest, magic: Bytes8)
    requires FrameAt(a, m, magic) && FrameAt(b, m, magic)
    ensures a == b
  {
    SameHeader(a, b, m, magic);
    SameRows(a, b, Rows(m.entries));
  }

  lemma SameRows(a: seq<byte>, b: seq<byte>, rows: seq<Row>)
    requires |a| == |b| == CONTROL_FRAME_LEN && RowsAt(a, rows) && RowsAt(b, rows)
    ensures forall i :: 96 <= i < |a| ==> a[i] == b[i]
  {
    forall i | 96 <= i < |a| ensures a[i] == b[i] {
      if i < EntryStart(|rows|) {
        var k := (i - 96) / 64;
        assert EntryStart(k) <= i < EntryStart(k) + 64;
        SameAt(a, b, EntryStart(k), rows[k]);
      }
    }
  }

  // ----- phase frames -----

  /** A phase frame: the capability frame with magic and kind overwritten. */
  function PhaseFrame(frame: seq<byte>, magic: Bytes8): (r: seq<byte>)
    requires |frame| == CONTROL_FRAME_LEN
    ensures |r| == CONTROL_FRAME_LEN
  {
    Put(Put(frame, 0, magic), 64, magic[4..8])
  }

  lemma PatchedFrameAt(b: seq<byte>, m: TransferManifest, magic: Bytes8, phase: Bytes8)
    requires FrameAt(b, m, magic)
    ensures FrameAt(PhaseFrame(b, phase), m, phase)
  {
    PatchKeepsRows(b, Rows(m.entries), phase);
  }

  lemma PatchKeepsRows(b: seq<byte>, rows: seq<Row>, phase: Bytes8)
    requires |b| == CONTROL_FRAME_LEN && RowsAt(b, rows)
    ensures RowsAt(PhaseFrame(b, phase), rows)
  {
    forall i | 0 <= i < |rows| ensures At(PhaseFrame(b, phase), EntryStart(i), rows[i]) {
      assert At(b, EntryStart(i), rows[i]);
    }
  }

  /** Patching the two fields is the same as encoding under the new magic. */
  lemma PhaseFrameIsReencoding(m: TransferManifest, magic: Bytes8, phase: Bytes8)
    requires |m.entries| <= MAX_TRANSFER_ENTRIES
    ensures PhaseFrame(Encode(m, magic), phase) == Encode(m, phase)
  {
    var b := Encode(m, magic);
    EncodedFrameAt(m, magic);
    EncodedFrameAt(m, phase);
    var r := PhaseFrame(b, phase);
    PatchedFrameAt(b, m, magic, phase);
    FrameIsUnique(r, Encode(m, phase), m, phase);
  }

  // ----- decoding -----

  function DecodeAccess(v: u32): Option<PeerAccess> {
    if v == 1 then Some(ReadOnly) else if v == 2 then Some(SoleWriter) else None
  }

  function DecodeAuthority(v: u32): Option<Authority> {
    if v == 0 then Some(Legacy) else if v == 1 then Some(LinuxMdweV1)
    else if v == 2 then Some(MacMachV1) else if v == 3 then Some(WindowsSectionsV1) else None
  }

  function DecodeEntry(b: seq<byte>, start: nat): Option<ManifestEntry>
    requires start + ENTRY_LEN <= |b|
  {
    match DecodeAccess(GetU32(b, start + 52))
    case None => None
    case Some(access) =>
      Some(ManifestEntry(
        GetU128(b, start), b[start + 16..start + 32], GetU32(b, start + 48), access,
        GetU64(b, start + 32), GetU64(b, start + 40), GetU16(b, start + 56), GetU16(b, start + 58)))
  }

  function DecodeEntries(b: seq<byte>, n: nat): (r: Option<seq<ManifestEntry>>)
    requires |b| == CONTROL_FRAME_LEN && n <= MAX_TRANSFER_ENTRIES
    ensures r.Some? ==> |r.value| == n
  {
    if forall i :: 0 <= i < n ==> DecodeEntry(b, EntryStart(i)).Some?
    then Some(seq(n, i requires 0 <= i < n => DecodeEntry(b, EntryStart(i)).value))
    else None
  }

  /** Everything decode does before its final comparison with a re-encoding. */
  function ParseManifest(magic: Bytes8, b: seq<byte>): Option<TransferManifest> {
    if |b| != CONTROL_FRAME_LEN || b[..8] != magic || GetU32(b, 8) != CONTROL_VERSION
       || !(1 <= GetU32(b, 12) <= MAX_TRANSFER_ENTRIES)
    then None
    else match DecodeAuthority(GetU32(b, 76))
      case None => None
      case Some(authority) =>
        match DecodeEntries(b, GetU32(b, 12))
        case None => None
        case Some(es) =>
          NewManifest(b[16..48], GetU32(b, 48), GetU32(b, 52), GetU64(b, 56), authority, es)
  }

  function Decode(magic: Bytes8, b: seq<byte>): Option<TransferManifest> {
    match ParseManifest(magic, b)
    case None => None
    case Some(m) => if |m.entries| <= MAX_TRANSFER_ENTRIES && Encode(m, magic) == b then Some(m) else None
  }

  lemma EntryFields(e: ManifestEntry)
    ensures var r := EntryBytes(e);
            && At(r, 0, U128Bytes(e.regionId)) && At(r, 16, e.incarnation)
            && At(r, 32, U64Bytes(e.logicalLen)) && At(r, 40, U64Bytes(e.mappedLen))
            && At(r, 48, U32Bytes(e.writer)) && At(r, 52, U32Bytes(AccessWord(e.access)))
            && At(r, 56, U16Bytes(e.ordinal)) && At(r, 58, U16Bytes(e.flags)) && ZeroRange(r, 60, 64)
  {
    assert ZeroRange(Zeros(ENTRY_LEN), 60, 64);
    var r := EntryBytes(e);
  }

  lemma EntryReads(b: seq<byte>, start: nat, e: ManifestEntry)
    requires At(b, start, EntryBytes(e))
    ensures DecodeEntry(b, start) == Some(e)
  {
    EntryFields(e);
    var r := EntryBytes(e);
    InsideAt(b, start, r, 0, U128Bytes(e.regionId));
    InsideAt(b, start, r, 16, e.incarnation);
    InsideAt(b, start, r, 32, U64Bytes(e.logicalLen));
    InsideAt(b, start, r, 40, U64Bytes(e.mappedLen));
    InsideAt(b, start, r, 48, U32Bytes(e.writer));
    InsideAt(b, start, r, 52, U32Bytes(AccessWord(e.access)));
    InsideAt(b, start, r, 56, U16Bytes(e.ordinal));
    InsideAt(b, start, r, 58, U16Bytes(e.flags));
  }

  lemma EntriesRead(b: seq<byte>, es: seq<ManifestEntry>)
    requires |b| == CONTROL_FRAME_LEN && |es| <= MAX_TRANSFER_ENTRIES && RowsAt(b, Rows(es))
    ensures DecodeEntries(b, |es|) == Some(es)
  {
    forall i | 0 <= i < |es| ensures DecodeEntry(b, EntryStart(i)) == Some(es[i]) {
      assert Rows(es)[i] == EntryBytes(es[i]);
      EntryReads(b, EntryStart(i), es[i]);
    }
    assert DecodeEntries(b, |es|).value == es;
  }

  lemma HeaderReads(b: seq<byte>, m: TransferManifest, magic: Bytes8)
    requires |b| == CONTROL_FRAME_LEN && IdentityAt(b, m, magic) && SummaryAt(b, m, magic)
    ensures b[..8] == magic && GetU32(b, 8) == CONTROL_VERSION && GetU32(b, 12) == |m.entries|
    ensures b[16..48] == m.nonce && GetU32(b, 48) == m.parentPid && GetU32(b, 52) == m.childPid
    ensures GetU64(b, 56) == m.transferId && DecodeAuthority(GetU32(b, 76)) == Some(m.authority)
  {
    assert b[0..8] == magic;
  }

  lemma FrameParses(b: seq<byte>, m: TransferManifest, magic: Bytes8)
    requires WellFormed(m) && FrameAt(b, m, magic)
    ensures ParseManifest(magic, b) == Some(m)
  {
    HeaderReads(b, m, magic);
    EntriesRead(b, m.entries);
    ParseFromParts(magic, b, m);
  }

  lemma DecodeOfEncoding(m: TransferManifest, magic: Bytes8)
    requires WellFormed(m)
    ensures Decode(magic, Encode(m, magic)) == Some(m)
  {
    EncodedFrameAt(m, magic);
    FrameParses(Encode(m, magic), m, magic);
  }

  lemma ParseFromParts(magic: Bytes8, b: seq<byte>, m: TransferManifest)
    requires |b| == CONTROL_FRAME_LEN && b[..8] == magic && GetU32(b, 8) == CONTROL_VERSION
    requires WellFormed(m) && GetU32(b, 12) == |m.entries| && DecodeEntries(b, GetU32(b, 12)) == Some(m.entries)
    requires b[16..48] == m.nonce && GetU32(b, 48) == m.parentPid && GetU32(b, 52) == m.childPid
    requires GetU64(b, 56) == m.transferId && DecodeAuthority(GetU32(b, 76)) == Some(m.authority)
    ensures ParseManifest(magic, b) == Some(m)
  {
    WellFormedReconstructs(m);
  }

  /** Decoding succeeds exactly on the encodings of well-formed manifests. */
  lemma DecodesExactlyEncodings(magic: Bytes8, b: seq<byte>, m: TransferManifest)
    ensures Decode(magic, b) == Some(m) <==> WellFormed(m) && b == Encode(m, magic)
  {
    if Decode(magic, b) == Some(m) {
      ParsedIsWellFormed(magic, b);
    } else if WellFormed(m) {
      DecodeOfEncoding(m, magic);
    }
  }

  lemma ParsedIsWellFormed(magic: Bytes8, b: seq<byte>)
    requires ParseManifest(magic, b).Some?
    ensures WellFormed(ParseManifest(magic, b).value)
  {
    ConstructionIsWellFormed(b[16..48], GetU32(b, 48), GetU32(b, 52), GetU64(b, 56),
                             DecodeAuthority(GetU32(b, 76)).value, DecodeEntries(b, GetU32(b, 12)).value);
  }

  /** A frame names its phase and its manifest: equal bytes, equal both. */
  lemma FramesAreInjective(m: TransferManifest, magic: Bytes8, n: TransferManifest, other: Bytes8)
    requires WellFormed(m) && WellFormed(n) && Encode(m, magic) == Encode(n, other)
    ensures m == n && magic == other
  {
    EncodedFrameAt(m, magic);
    EncodedFrameAt(n, other);
    assert magic == Encode(m, magic)[0..8] == other;
    DecodesExactlyEncodings(magic, Encode(m, magic), m);
    DecodesExactlyEncodings(magic, Encode(m, magic), n);
  }

  // ----- coordinator capacity frames -----

  datatype CapacityStatus = Ready | ActiveLimit | PreparationFailed

  function CapacityMagic(s: CapacityStatus): Bytes8 {
    match s
    case Ready => COORDINATOR_CAPACITY_READY_MAGIC
    case ActiveLimit => COORDINATOR_CAPACITY_REJECT_MAGIC
    case PreparationFailed => COORDINATOR_PREPARATION_FAILED_MAGIC
  }

  function DecodeCapacity(b: seq<byte>): Option<(TransferManifest, CapacityStatus)> {
    TryInTurn(Decode(COORDINATOR_CAPACITY_READY_MAGIC, b), Decode(COORDINATOR_CAPACITY_REJECT_MAGIC, b),
              Decode(COORDINATOR_PREPARATION_FAILED_MAGIC, b))
  }

  lemma DecodeNeedsMagic(magic: Bytes8, b: seq<byte>)
    requires Decode(magic, b).Some?
    ensures |b| == CONTROL_FRAME_LEN && b[6] == magic[6]
  {
    assert b[..8][6] == b[6];
  }

  lemma OtherMagicFails(b: seq<byte>, x: Bytes8, y: Bytes8)
    requires Decode(x, b).Some? && x[6] != y[6]
    ensures Decode(y, b).None?
  {
    DecodeNeedsMagic(x, b);
    if Decode(y, b).Some? {
      DecodeNeedsMagic(y, b);
    }
  }

  /** What the three attempts give, tried in turn. */
  function TryInTurn(ready: Option<TransferManifest>, reject: Option<TransferManifest>,
                     failed: Option<TransferManifest>)
    : Option<(TransferManifest, CapacityStatus)>
  {
    if ready.Some? then Some((ready.value, Ready))
    else if reject.Some? then Some((reject.value, ActiveLimit))
    else if failed.Some? then Some((failed.value, PreparationFailed))
    else None
  }

  lemma InTurnIsOwn(ready: Option<TransferManifest>, reject: Option<TransferManifest>, failed: Option<TransferManifest>,
                    m: TransferManifest, s: CapacityStatus)
    requires (reject.Some? ==> ready.None?) && (failed.Some? ==> ready.None? && reject.None?)
    ensures TryInTurn(ready, reject, failed) == Some((m, s))
       <==> Some(m) == (match s case Ready => ready case ActiveLimit => reject case PreparationFailed => failed)
  {
  }

  lemma OneMagicDecodes(b: seq<byte>)
    ensures Decode(COORDINATOR_CAPACITY_REJECT_MAGIC, b).Some? ==> Decode(COORDINATOR_CAPACITY_READY_MAGIC, b).None?
    ensures Decode(COORDINATOR_PREPARATION_FAILED_MAGIC, b).Some? ==>
              Decode(COORDINATOR_CAPACITY_READY_MAGIC, b).None? && Decode(COORDINATOR_CAPACITY_REJECT_MAGIC, b).None?
  {
    if Decode(COORDINATOR_CAPACITY_REJECT_MAGIC, b).Some? {
      OtherMagicFails(b, COORDINATOR_CAPACITY_REJECT_MAGIC, COORDINATOR_CAPACITY_READY_MAGIC);
    }
    if Decode(COORDINATOR_PREPARATION_FAILED_MAGIC, b).Some? {
      OtherMagicFails(b, COORDINATOR_PREPARATION_FAILED_MAGIC, COORDINATOR_CAPACITY_READY_MAGIC);
      OtherMagicFails(b, COORDINATOR_PREPARATION_FAILED_MAGIC, COORDINATOR_CAPACITY_REJECT_MAGIC);
    }
  }

  /** Trying the three magics in turn is trying the status's own magic. */
  lemma CapacityTriesOwnMagic(b: seq<byte>, m: TransferManifest, s: CapacityStatus)
    ensures DecodeCapacity(b) == Some((m, s)) <==> Decode(CapacityMagic(s), b) == Some(m)
  {
    OneMagicDecodes(b);
    InTurnIsOwn(Decode(COORDINATOR_CAPACITY_READY_MAGIC, b), Decode(COORDINATOR_CAPACITY_REJECT_MAGIC, b),
                Decode(COORDINATOR_PREPARATION_FAILED_MAGIC, b), m, s);
  }

  /** The receiver recovers exactly the status and manifest that were sent,
      and accepts no other bytes. */
  lemma CapacityStatusIsExact(b: seq<byte>, m: TransferManifest, s: CapacityStatus)
    ensures DecodeCapacity(b) == Some((m, s))
       <==> WellFormed(m) && b == PhaseFrame(Encode(m, CAPABILITY_MAGIC), CapacityMagic(s))
  {
    CapacityTriesOwnMagic(b, m, s);
    DecodesExactlyEncodings(CapacityMagic(s), b, m);
    if |m.entries| <= MAX_TRANSFER_ENTRIES {
      PhaseFrameIsReencoding(m, CAPABILITY_MAGIC, CapacityMagic(s));
    }
  }

  // ----- limits -----

  predicate FitsLimits(m: TransferManifest, limits: SessionLimits) {
    && |m.entries| <= limits.maxRegionsPerBatch
    && m.totalLogical <= limits.maxBatchBytes && m.totalMapped <= limits.maxBatchBytes
    && forall i :: 0 <= i < |m.entries| ==> m.entries[i].logicalLen <= limits.maxRegionBytes
  }

  // ----- the loops -----

  lemma TotalsOfPrefix(es: seq<ManifestEntry>, i: nat)
    requires i < |es|
    ensures TotalLogical(es[..i + 1]) == TotalLogical(es[..i]) + es[i].logicalLen <= TotalLogical(es)
    ensures TotalMapped(es[..i + 1]) == TotalMapped(es[..i]) + es[i].mappedLen <= TotalMapped(es)
  {
    assert es[..i + 1][..i] == es[..i];
    assert es == es[..i + 1] + es[i + 1..];
    TotalsSplit(es[..i + 1], es[i + 1..]);
  }

  /** The validating pass: checked running totals, stopping at the first bad entry. */
  method SumEntries(es: seq<ManifestEntry>) returns (r: Option<(u64, u64)>)
    ensures r.Some? <==> (forall i :: 0 <= i < |es| ==> ValidEntry(es[i]))
                         && TotalLogical(es) <= U64_MAX && TotalMapped(es) <= U64_MAX
    ensures r.Some? ==> r.value == (TotalLogical(es), TotalMapped(es))
  {
    var totalLogical: u64, totalMapped: u64 := 0, 0;
    for i := 0 to |es|
      invariant forall k :: 0 <= k < i ==> ValidEntry(es[k])
      invariant totalLogical == TotalLogical(es[..i]) && totalMapped == TotalMapped(es[..i])
    {
      TotalsOfPrefix(es, i);
      if !ValidEntry(es[i]) || totalLogical + es[i].logicalLen > U64_MAX || totalMapped + es[i].mappedLen > U64_MAX {
        return None;
      }
      totalLogical, totalMapped := totalLogical + es[i].logicalLen, totalMapped + es[i].mappedLen;
    }
    assert es[..|es|] == es;
    return Some((totalLogical, totalMapped));
  }

  /** Equal neighbours are the only duplicates a sorted sequence can have. */
  method HasAdjacentDuplicate(es: seq<ManifestEntry>) returns (found: bool)
    requires Ascending(es)
    ensures found <==> !StrictlyAscending(es)
  {
    if es == [] {
      return false;
    }
    for i := 1 to |es|
      invariant StrictlyAscending(es[..i])
    {
      if es[i - 1].regionId == es[i].regionId {
        return true;
      }
    }
    assert es[..|es|] == es;
    return false;
  }

  method HasDuplicateIncarnation(es: seq<ManifestEntry>) returns (found: bool)
    ensures found <==> !DistinctIncarnations(es)
  {
    for left := 0 to |es|
      invariant forall i, j :: 0 <= i < left && i < j < |es| ==> es[i].incarnation != es[j].incarnation
    {
      for right := left + 1 to |es|
        invariant forall j :: left < j < right ==> es[left].incarnation != es[j].incarnation
      {
        if es[right].incarnation == es[left].incarnation {
          return true;
        }
      }
    }
    return false;
  }

  method AssignOrdinals(sorted: seq<ManifestEntry>) returns (entries: seq<ManifestEntry>)
    requires |sorted| <= MAX_TRANSFER_ENTRIES
    ensures entries == Numbered(sorted)
  {
    entries := sorted;
    for i := 0 to |entries|
      invariant |entries| == |sorted|
      invariant entries == Numbered(sorted)[..i] + sorted[i..]
    {
      entries := entries[i := entries[i].(ordinal := i)];
    }
  }

  /** `TransferManifest::new_with_authority`, pass by pass. */
  method BuildManifest(nonce: Bytes32, parentPid: u32, childPid: u32, transferId: u64, authority: Authority,
                       es: seq<ManifestEntry>) returns (r: Option<TransferManifest>)
    ensures r == NewManifest(nonce, parentPid, childPid, transferId, authority, es)
  {
    if !ValidHeader(nonce, parentPid, childPid, transferId) || es == [] || |es| > MAX_TRANSFER_ENTRIES {
      return None;
    }
    var totals := SumEntries(es);
    if totals.None? {
      return None;
    }
    var sorted := SortById(es);
    SortByIdSorts(es);
    var duplicate := HasAdjacentDuplicate(sorted);
    if duplicate {
      return None;
    }
    duplicate := HasDuplicateIncarnation(sorted);
    if duplicate {
      return None;
    }
    var entries := AssignOrdinals(sorted);
    var (logical, mapped) := totals.value;
    return Some(TransferManifest(nonce, parentPid, childPid, transferId, authority, logical, mapped, entries));
  }

  /** Writing inside a row that was put is putting the row written inside. */
  lemma PutInside(b: seq<byte>, start: nat, row: seq<byte>, offset: nat, t: seq<byte>)
    requires start + |row| <= |b| && offset + |t| <= |row|
    ensures Put(Put(b, start, row), start + offset, t) == Put(b, start, Put(row, offset, t))
  {
  }

  method WriteEntry(frame: array<byte>, start: nat, e: ManifestEntry)
    requires start + ENTRY_LEN <= frame.Length && ZeroRange(frame[..], start, start + ENTRY_LEN)
    modifies frame
    ensures frame[..] == Put(old(frame[..]), start, EntryBytes(e))
  {
    ghost var b, row := frame[..], Zeros(ENTRY_LEN);
    assert b == Put(b, start, row);
    PutInside(b, start, row, 0, U128Bytes(e.regionId));
    PutBytes(frame, start, U128Bytes(e.regionId));
    row := Put(row, 0, U128Bytes(e.regionId));
    PutInside(b, start, row, 16, e.incarnation);
    PutBytes(frame, start + 16, e.incarnation);
    row := Put(row, 16, e.incarnation);
    PutInside(b, start, row, 32, U64Bytes(e.logicalLen));
    PutBytes(frame, start + 32, U64Bytes(e.logicalLen));
    row := Put(row, 32, U64Bytes(e.logicalLen));
    PutInside(b, start, row, 40, U64Bytes(e.mappedLen));
    PutBytes(frame, start + 40, U64Bytes(e.mappedLen));
    row := Put(row, 40, U64Bytes(e.mappedLen));
    PutInside(b, start, row, 48, U32Bytes(e.writer));
    PutBytes(frame, start + 48, U32Bytes(e.writer));
    row := Put(row, 48, U32Bytes(e.writer));
    PutInside(b, start, row, 52, U32Bytes(AccessWord(e.access)));
    PutBytes(frame, start + 52, U32Bytes(AccessWord(e.access)));
    row := Put(row, 52, U32Bytes(AccessWord(e.access)));
    PutInside(b, start, row, 56, U16Bytes(e.ordinal));
    PutBytes(frame, start + 56, U16Bytes(e.ordinal));
    row := Put(row, 56, U16Bytes(e.ordinal));
    PutInside(b, start, row, 58, U16Bytes(e.flags));
    PutBytes(frame, start + 58, U16Bytes(e.flags));
  }

  method WriteHeader(frame: array<byte>, m: TransferManifest, magic: Bytes8)
    requires frame.Length == CONTROL_FRAME_LEN && |m.entries| <= MAX_TRANSFER_ENTRIES
    modifies frame
    ensures frame[..] == PutSummary(PutIdentity(old(frame[..]), m, magic), m, magic)
  {
    PutBytes(frame, 0, magic);
    PutBytes(frame, 8, U32Bytes(CONTROL_VERSION));
    PutBytes(frame, 12, U32Bytes(|m.entries|));
    PutBytes(frame, 16, m.nonce);
    PutBytes(frame, 48, U32Bytes(m.parentPid));
    PutBytes(frame, 52, U32Bytes(m.childPid));
    PutBytes(frame, 56, U64Bytes(m.transferId));
    PutBytes(frame, 64, U32Bytes(GetU32(magic, 4)));
    PutBytes(frame, 68, U32Bytes(MANIFEST_FLAG_CANONICAL));
    PutBytes(frame, 72, U32Bytes(CONTROL_FRAME_LEN));
    PutBytes(frame, 76, U32Bytes(AuthorityWord(m.authority)));
    PutBytes(frame, 80, U64Bytes(m.totalLogical));
    PutBytes(frame, 88, U64Bytes(m.totalMapped));
  }

  method WriteRows(frame: array<byte>, es: seq<ManifestEntry>)
    requires frame.Length == CONTROL_FRAME_LEN && |es| <= MAX_TRANSFER_ENTRIES
    requires ZeroRange(frame[..], 96, CONTROL_FRAME_LEN)
    modifies frame
    ensures frame[..] == PutRows(old(frame[..]), Rows(es))
  {
    ghost var header, rows := frame[..], Rows(es);
    for i := 0 to |es|
      invariant frame[..] == PutRows(header, rows[..i])
    {
      NextRow(header, rows, i);
      WriteEntry(frame, EntryStart(i), es[i]);
    }
    assert rows[..|es|] == rows;
  }

  lemma NextRow(header: seq<byte>, rows: seq<Row>, i: nat)
    requires |header| == CONTROL_FRAME_LEN && i < |rows| <= MAX_TRANSFER_ENTRIES
    requires ZeroRange(header, 96, CONTROL_FRAME_LEN)
    ensures ZeroRange(PutRows(header, rows[..i]), EntryStart(i), EntryStart(i) + ENTRY_LEN)
    ensures PutRows(header, rows[..i + 1]) == Put(PutRows(header, rows[..i]), EntryStart(i), rows[i])
  {
    PutRowsAt(header, rows[..i]);
    assert rows[..i + 1][..i] == rows[..i];
  }

  /** `TransferManifest::encode`: header, then one row per entry. */
  method EncodeManifest(m: TransferManifest, magic: Bytes8) returns (frame: array<byte>)
    requires |m.entries| <= MAX_TRANSFER_ENTRIES
    ensures fresh(frame) && frame[..] == Encode(m, magic)
  {
    frame := new byte[CONTROL_FRAME_LEN](i => 0);
    assert frame[..] == Zeros(CONTROL_FRAME_LEN);
    PutHeaderAt(frame[..], m, magic);
    WriteHeader(frame, m, magic);
    WriteRows(frame, m.entries);
  }
}
