# Verified model of native-ipc

native-ipc moves shared-memory regions between two processes and lets them exchange payloads through rings of slots in
those regions. This project is a Dafny model of the parts of it that are state, bytes and arithmetic, with proofs about
every input, every run and every interleaving. `dafny verify dfyconfig.toml` checks all of it.

## How the model is organised

| files | part of native-ipc |
|---|---|
| `Slots`, `Ring`, `RingCalls`, `RingMoves`, `RingTearing`, `SlotMemory` | the slot ring: checks, every interleaving of one writer and any number of reader copies, exactly when a copy can be torn, and the same calls in place |
| `Layout`, `Routes`, `RouteIndex`, `RegionBytes`, `RegionValidation` | region sizes, acknowledgement routes, the header codec, initialisation and validation of a mapping |
| `Protocol`, `ManifestRules`, `Transfer`, `TransferSafety`, `TransferRuns`, `TransferSteps`, `TransferCharges`, `TransferProgress`, `TransferLiveness`, `TransferCompletion`, `Dispatcher` | manifests and the two-endpoint transaction |
| `Ledger`, `ResourceStates`, `Leases`, `LeaseCalls`, `Resources`, `Prefault` | lease charges, their concurrent drops, reservations, page touching |
| `Limits`, `Negotiation`, `Transcript`, `HelloRules`, `Decision`, `DecisionRules` | session limits, HELLO/ACCEPT/REJECT frames, the reduction, the decision |
| `Control`, `ControlChannel` | application control records |
| `Batch`, `Keyed` | batches, expectations, the committed region set |
| `Quoting`, `QuotingNames`, `Reaper` | the Windows argument quoter, reaper owners |
| `Machine`, `Wire`, `Bits` | fixed-width integers, little-endian fields, bit operations |

Code that updates something in place is a class or a method with loops and a `modifies` clause, proved against the
functions the theorems are about; code made of expressions is functions. Behaviour over time is a fold of a total step
function over an arbitrary list of steps, so a theorem about `Run(steps)` is a theorem about every run.

Decisions a reader should know:

- Shared memory is sequentially consistent; that the Release stores and Acquire loads of the slot code are enough for
  this is assumed. Each payload byte, the length, the sequence and the acknowledgement are separate steps.
- A send succeeds, fails without delivering, or fails after delivering; a receive fails or takes the next record. A
  deadline is one of those failures. Native checks (import, seal, revalidation, region match) are step outcomes.
- The macOS transaction pair is the one modelled.
- SHA-256 (section 6.2 of FIPS 180-4) is an arbitrary function, given as a parameter.
- `usize` has 64 bits. Memory allocation does not fail.
- The runtime that splits a Windows command line is modelled from the documented rules of the Microsoft C runtime: the
  program name toggles on quotes, later arguments use the backslash rule and the doubled quote.

Where the code does not do what one might expect, the code is kept and the exact condition is proved:

- A failed decision call is not always terminal: `coordinator_accept` and `receiver_accept` only borrow the transcript.
  `FailureIsTerminalUnlessBorrowed` says exactly which failures end it, `BorrowedFailureIsNotTerminal` shows one that does
  not.
- The recheck after a copy does not make it faithful. `TearsExactly` says for every copy under way when it can still pass
  both rechecks with bytes that were never published. From a slot that is not being refilled: exactly when its sequence
  is still the slot's, a byte of it is unread and the slot has a next sequence. So acknowledging only after the last byte
  was read suffices, and acknowledging earlier does not. `EveryLaidOutRingTears`: every ring a calculated layout yields
  has such a run; only a ring without payload bytes, which no layout allows, is safe by the recheck alone
  (`RecheckSufficesExactly`).
- A control record that crosses an offer poisons the session although nothing failed: the coordinator takes the next
  record for the answer to its offer (`CrossedRecordPoisons`). `CalmRunPoisonsExactly` says what poisons a run without
  failures: exactly a receive of the wrong kind for the record that is next. The liveness theorems therefore start where
  no control record is under way (`Quiet`), which idle receives always reach between transfers (`IdleSettles`).
- An argument with a double quote and no blank is written bare and does not come back (`BareQuoteIsLost`); a program name
  whose quoting does not close swallows what follows (`OpenNameSwallows`). `LineRoundTrips` is the exact condition for
  the whole list and `LaterArgumentsRecovered` for the arguments after the first, both for every non-empty list.
- Validation ignores a slot's stride padding as well as its payload; `InPayload` covers both.
- Prefaulting a valid range fails when the end of its last page is not representable (`Prefault.PrefaultRead`).

## Model

| member | source | states |
|---|---|---|
| `Slots.PublishAllowedExactly` | crates/native-ipc-core/src/slot.rs:199-261 | a publication passes every check exactly when the generation matches, the sequence is the slot's next one without wrap, and on reuse the exact acknowledgement of the current sequence is presented |
| `Slots.PublishErrorIsTrue` | crates/native-ipc-core/src/slot.rs:199-261 | every refusal of a publication names a condition that holds, with the values it reports |
| `Ring.EveryRunKeepsInv` | crates/native-ipc-core/src/slot.rs:199-261 | every interleaving of byte writes, length and sequence stores, observations, byte copies, rechecks and acknowledgements keeps order, intact payloads and faithful copies |
| `Ring.SlotPublishesInOrder` | crates/native-ipc-core/src/slot.rs:205-224 | in every reachable state slot i has published exactly i+1, i+1+N, i+1+2N, ... without wrap, and its cell holds the current sequence or the one before |
| `Ring.SequencePublishedOnce` | crates/native-ipc-core/src/slot.rs:730-743 | no sequence is published twice, within a slot or across slots |
| `Ring.UnacknowledgedIsLatestAndIntact` | crates/native-ipc-core/src/slot.rs:225-254 | a published sequence its cell has not reached is the slot's latest, its bytes are untouched and its refill has not begun |
| `Ring.UndisturbedIsIntact` | crates/native-ipc-core/src/slot.rs:225-254 | a slot that still publishes a sequence and is not being refilled holds exactly its latest publication |
| `Ring.CopyBeforeAcknowledgementIsExact` | crates/native-ipc-core/src/mapping.rs:176-199 | in every interleaving a copy that returns before its sequence is acknowledged holds exactly the bytes published under that sequence |
| `Ring.RecheckPassesBeforeAcknowledgement` | crates/native-ipc-core/src/slot.rs:321-350 | a complete copy of an unacknowledged sequence always passes the recheck |
| `Ring.NoReuseBeforeAcknowledgement` | crates/native-ipc-core/src/slot.rs:225-254 | a slot being refilled had its current sequence acknowledged |
| `Ring.AcknowledgedWriterIsAccepted` | crates/native-ipc-core/src/slot.rs:199-261 | a writer presenting what its cell holds is accepted exactly for the slot's next number, and only once the current sequence is acknowledged |
| `RingCalls.CopiesAnswerTheirCalls` | crates/native-ipc-core/src/mapping.rs:176-199 | in every run each copy was begun by one call naming a slot and a sequence, serves them to its end, and returns only under them |
| `RingCalls.BindingsShareRoute` | crates/native-ipc-core/src/layout.rs:522-600 | the writer and the acknowledging end of a slot are bound to the same owner, cell, role, generation and index |
| `RingTearing.TearsExactly` | crates/native-ipc-core/src/slot.rs:316-350 | for every run and every copy under way, refilled slot or not: some continuation returns bytes that were never published, with all checks passing, exactly when the sequence is still the slot's and (no refill) a byte is unread and a next sequence exists, (bytes being stored) the copy holds or can still read a byte that is not the published one, (length stored) the bytes read and to be read are not the publication and the observed length is stored or can be stored once more |
| `RingTearing.LastByteBeforeAcknowledgement` | crates/native-ipc-core/src/mapping.rs:176-199 | a copy whose last byte was read before its sequence was acknowledged returns the published bytes in every continuation, however late its rechecks run |
| `RingTearing.RecheckSufficesExactly` | crates/native-ipc-core/src/slot.rs:316-350 | in a ring no run ever returns unpublished bytes exactly when its slots have no payload capacity |
| `RingTearing.EveryLaidOutRingTears` | crates/native-ipc-core/src/layout.rs:732-744 | a calculated layout has payload bytes, so every ring with its slot count and capacity has a run that returns unpublished bytes with all checks passing |
| `RingTearing.EveryRunKeepsRefilling` | crates/native-ipc-core/src/mapping.rs:320-344 | until a refill stores its length the slot shows the old length and, past what is written, the old bytes, and every copy of its sequence observed that length |
| `RingTearing.TearableTears` | crates/native-ipc-core/src/slot.rs:199-261 | the continuation that tears such a copy: the slot is acknowledged and refilled with a different byte, or the refill under way goes on, or another publication stores the observed length again, and the copy goes on |
| `RingTearing.SafeForever` | crates/native-ipc-core/src/slot.rs:321-350 | a copy that is complete, whose slot moved on or can never be refilled, whose remaining bytes are the published ones, or whose length can never be stored again stays safe in every continuation |
| `SlotMemory.VolatileCopy` | crates/native-ipc-core/src/mapping.rs:116-125 | copies exactly the first length bytes and leaves the rest of the destination |
| `SlotMemory.AcknowledgementCell.Acknowledge` | crates/native-ipc-core/src/slot.rs:483-513 | an observation is acknowledged exactly when its role, generation and slot are the cell's, its sequence is not zero and not below the cell; then the cell holds it, otherwise nothing changes and the reason named is true |
| `SlotMemory.AcknowledgementCell.Observe` | crates/native-ipc-core/src/slot.rs:541-550 | what it returns, presented by the writer of the same route, allows reuse after exactly the sequence the cell holds, and is refused as lagging or as future after any other |
| `SlotMemory.SlotRecord.PreparePublish` | crates/native-ipc-core/src/slot.rs:199-261 | a publication is prepared exactly for this generation, the slot's next sequence at its ring position and, on reuse, the exact acknowledgement field by field; a refusal is the first fault and true |
| `SlotMemory.SlotRecord.Publish` | crates/native-ipc-core/src/mapping.rs:320-344 | a publication replaces payload, length and sequence together; a refusal stores nothing and says why |
| `SlotMemory.SlotRecord.Observe` | crates/native-ipc-core/src/slot.rs:290-314 | observation succeeds exactly for the current sequence at this ring position, of this generation, with a length within capacity; a refusal names a true reason |
| `SlotMemory.SlotRecord.Recheck` | crates/native-ipc-core/src/slot.rs:321-350 | recheck passes exactly when the observation's role and generation are the binding's and the stored sequence, generation and length are still the observed ones; a refusal names a true reason |
| `SlotMemory.SlotRecord.CopyPayloadInto` | crates/native-ipc-core/src/mapping.rs:207-234 | returns the published prefix, leaves the destination past it, and changes nothing on error |
| `SlotMemory.UninterruptedPublish` | crates/native-ipc-core/src/mapping.rs:320-344 | the ring's byte-by-byte steps, uninterrupted, do to a slot what the in-place call does |
| `SlotMemory.WriteBytesFillsPrefix` | crates/native-ipc-core/src/mapping.rs:320-344 | uninterrupted byte writes fill exactly a prefix of the payload |
| `Layout.AlignUp` | crates/native-ipc-core/src/layout.rs:938-943 | the masked sum is the least multiple of 64 not below the value, or an overflow error |
| `Layout.CalculatesExactly` | crates/native-ipc-core/src/layout.rs:221-272 | calculation succeeds exactly when the counts are positive and within the three limits, the stride fits 32 bits and the total the mapping; it returns a sized header that repeats the specification, and tells empty, unrepresentable and too large apart |
| `Layout.ProductsFit` | crates/native-ipc-core/src/layout.rs:485-488 | the unchecked 32-bit products cannot wrap |
| `Layout.SlotRangeIsExact` | crates/native-ipc-core/src/layout.rs:478-494 | on a calculated header only an out-of-range slot index fails |
| `Layout.AcknowledgementRangeIsExact` | crates/native-ipc-core/src/layout.rs:554-570 | on a calculated header only an out-of-range cell index fails, and cells end before the slots |
| `Layout.PayloadStaysInSlot` | crates/native-ipc-core/src/layout.rs:496-519 | payload ranges start right past the slot's metadata and end inside the slot; only length and index can be refused |
| `Layout.TilesCover` | crates/native-ipc-core/src/layout.rs:478-570 | every byte below the total size lies in the header, a cell or a slot |
| `Layout.TilesAreDisjoint` | crates/native-ipc-core/src/layout.rs:478-570 | no byte lies in two of them |
| `Layout.TilesAreAligned` | crates/native-ipc-core/src/layout.rs:478-570 | header, cells and slots start on 64-byte boundaries and end inside the region |
| `Routes.Pigeonhole` | crates/native-ipc-core/src/layout.rs:745-796 | as many distinct in-range keys as there are places use every place |
| `Routes.SlotsAreRouted` | crates/native-ipc-core/src/layout.rs:745-796 | exactly the existing slots are targets of routes |
| `Routes.CellsAreRouted` | crates/native-ipc-core/src/layout.rs:745-796 | exactly the existing cells are owned by routes |
| `Routes.RoutesAreBijection` | crates/native-ipc-core/src/layout.rs:148-180 | in an accepted topology routes are a bijection between all slots and all cells, joining regions of opposite writers |
| `Routes.RoutesAcceptedExactly` | crates/native-ipc-core/src/layout.rs:745-796 | over distinct roles exactly those lists of routes are accepted that pair every slot with every cell one to one across regions of opposite writers |
| `Routes.CountTable` | crates/native-ipc-core/src/layout.rs:749-758 | the checked sum of all counts, or an overflow |
| `Routes.HasClash` | crates/native-ipc-core/src/layout.rs:782-787 | finds a route with the same target slot or the same owner cell |
| `Routes.ValidateRoutes` | crates/native-ipc-core/src/layout.rs:745-796 | accepts exactly the complete, fitting, clash-free route lists, returns them unchanged, and otherwise reports the count or the first route that is wrong |
| `RouteIndex.BuildRouteLookup` | crates/native-ipc-core/src/layout.rs:798-809 | the index lists every route once in target and slot order |
| `RouteIndex.AcknowledgementRoute` | crates/native-ipc-core/src/layout.rs:193-206 | the binary search returns what a linear scan of the routes returns |
| `RouteIndex.LookupIsTotal` | crates/native-ipc-core/src/layout.rs:193-206 | a route is found for a region's slot exactly when the slot is in range |
| `RouteIndex.BindWriterSlot` | crates/native-ipc-core/src/mapping.rs:300-317 | binding succeeds for every in-range slot and no other, with the cell of the slot's own route |
| `RouteIndex.CalculateRegions` | crates/native-ipc-core/src/layout.rs:161-172 | succeeds exactly on distinct roles whose layouts all calculate, and otherwise reports the first specification that repeats a role or cannot be laid out |
| `RouteIndex.CalculateSet` | crates/native-ipc-core/src/layout.rs:148-180 | accepts exactly the admissible specifications, returns their headers, routes and index, and otherwise reports the first thing wrong |
| `RouteIndex.AcceptedIsSized` | crates/native-ipc-core/src/layout.rs:148-180 | all headers of an accepted set are sized and have distinct roles |
| `RegionBytes.PutHeaderAt` | crates/native-ipc-core/src/layout.rs:886-905 | the header encoder writes every field and zeroes the reserved tail, whatever the buffer held |
| `RegionBytes.DecodesExactly` | crates/native-ipc-core/src/layout.rs:867-924 | canonical header bytes and the decoded header determine each other |
| `RegionBytes.HeaderIsCanonical` | crates/native-ipc-core/src/layout.rs:867-924 | the front of a buffer is the header block exactly when it passes the encoding checks and decodes to the header |
| `RegionBytes.QuiescentExactly` | crates/native-ipc-core/src/layout.rs:303-322 | a mapping is quiescent exactly when it equals the encoder's output outside the payload areas and is zero past the region |
| `RegionValidation.CalculatedHeaderPasses` | crates/native-ipc-core/src/layout.rs:811-865 | on a calculated header only the identity and size checks can fail |
| `RegionValidation.HeaderRefusedExactly` | crates/native-ipc-core/src/layout.rs:811-865 | a decoded header passes exactly when each of its fields is the expected one, and a refusal names a field that is wrong |
| `RegionBytes.EncodingErrorIsTrue` | crates/native-ipc-core/src/layout.rs:867-905 | a refused header block is refused for the field its reason names |
| `RegionValidation.RepeatedChecksHold` | crates/native-ipc-core/src/layout.rs:391-442 | the stride and size comparisons that validation repeats always hold |
| `RegionValidation.SlotsReady` | crates/native-ipc-core/src/layout.rs:443-452 | the slot loop accepts exactly fresh metadata in every slot |
| `RegionValidation.ValidateBody` | crates/native-ipc-core/src/layout.rs:391-452 | after the header match the remaining checks pass exactly on quiescent mappings, and otherwise name cells, padding or slots, in that order |
| `RegionValidation.MatchHeader` | crates/native-ipc-core/src/layout.rs:375-390 | passes exactly when the bytes carry the header of the region the expectations name, and otherwise reports the first thing wrong |
| `RegionValidation.ValidateRegion` | crates/native-ipc-core/src/layout.rs:370-460 | accepts exactly quiescent mappings of the named region under matching expectations, and otherwise reports the first thing wrong |
| `RegionValidation.AcceptsEncoderOutput` | crates/native-ipc-core/src/layout.rs:370-460 | under a region's own identity a mapping within the limit is accepted exactly when it equals the encoder's output outside payload areas and is zero after |
| `RegionValidation.EncodeInto` | crates/native-ipc-core/src/layout.rs:303-322 | writes the region's initial bytes in front and nothing past them, or refuses a short mapping untouched |
| `RegionValidation.WriteHeader` | crates/native-ipc-core/src/layout.rs:886-905 | the in-place header writes produce the header block |
| `Protocol.ConstructionIsWellFormed` | crates/native-ipc/src/protocol.rs:441-501 | every constructed manifest is sorted, numbered, duplicate-free and carries its own totals |
| `ManifestRules.ConstructsExactly` | crates/native-ipc/src/protocol.rs:441-501 | entries construct a manifest exactly when no header field is zero or reserved, there are one to sixteen, each is sound, the totals fit 64 bits and no id or incarnation repeats |
| `ManifestRules.ManifestHolds` | crates/native-ipc/src/protocol.rs:441-501 | a constructed manifest holds the given header, the totals and exactly the given entries, ascending and numbered |
| `ManifestRules.FitsExactly` | crates/native-ipc/src/protocol.rs:533-545 | a manifest fits a session exactly when its count, both totals and each logical length do |
| `Protocol.ConstructionIgnoresOrder` | crates/native-ipc/src/protocol.rs:441-501 | any permutation of the entries constructs the same manifest, or none |
| `Protocol.WellFormedReconstructs` | crates/native-ipc/src/protocol.rs:441-501 | constructing from a well-formed manifest's entries gives it back |
| `Protocol.EncodedFrameAt` | crates/native-ipc/src/protocol.rs:503-531 | an encoded frame holds each field at its offset and zeros everywhere else |
| `ManifestRules.EncodedEntryAt` | crates/native-ipc/src/protocol.rs:503-531 | entry i occupies the 64 bytes from 96 + 64 i with each field at its place and access 1 for read-only, 2 for the sole writer |
| `ManifestRules.EncodedHeaderAt` | crates/native-ipc/src/protocol.rs:503-531 | each header word of an encoded frame stands at its place, the authority as its number |
| `Transfer.MagicLetters` | crates/native-ipc/src/protocol.rs:11-35 | every phase's frame opens with its own eight letters |
| `Protocol.FrameIsUnique` | crates/native-ipc/src/protocol.rs:503-531 | the fields determine every byte of a frame |
| `Protocol.PhaseFrameIsReencoding` | crates/native-ipc/src/protocol.rs:326-332 | patching magic and kind equals encoding the manifest under the new magic |
| `Protocol.DecodesExactlyEncodings` | crates/native-ipc/src/protocol.rs:375-421 | decoding succeeds exactly on encodings of well-formed manifests |
| `Protocol.FramesAreInjective` | crates/native-ipc/src/protocol.rs:503-531 | equal frames have the same phase and the same manifest |
| `Protocol.CapacityStatusIsExact` | crates/native-ipc/src/protocol.rs:277-299 | trying the three magics recovers exactly the status and manifest that were sent |
| `Protocol.SumEntries` | crates/native-ipc/src/protocol.rs:459-472 | the validating pass gives the totals exactly when every entry is valid and no total overflows |
| `Protocol.HasAdjacentDuplicate` | crates/native-ipc/src/protocol.rs:473-479 | comparing neighbours finds every duplicate id |
| `Protocol.HasDuplicateIncarnation` | crates/native-ipc/src/protocol.rs:480-487 | the pairwise pass finds every repeated incarnation |
| `Protocol.AssignOrdinals` | crates/native-ipc/src/protocol.rs:488-490 | every entry gets its position as its ordinal |
| `Protocol.BuildManifest` | crates/native-ipc/src/protocol.rs:441-501 | the passes together construct what the specification constructs |
| `Protocol.EncodeManifest` | crates/native-ipc/src/protocol.rs:503-531 | the in-place writes produce the one encoding |
| `Protocol.WriteRows` | crates/native-ipc/src/protocol.rs:503-531 | the rows land behind the header without touching it |
| `Ledger.ReserveAllExactly` | crates/native-ipc/src/backend/accepted_control.rs:615-624 | reserving one length after another grants exactly the batches that fit as a whole |
| `Ledger.ReserveAllKeepsBalance` | crates/native-ipc/src/backend/accepted_control.rs:615-624 | a granted batch is charged in full on top of what was there, and counters stay the sums of the charges |
| `Ledger.ReleaseKeepsBalance` | crates/native-ipc/src/liveness.rs:238-255 | giving back all held reservations keeps the counters equal to the charges |
| `Ledger.KeepKeepsBalance` | crates/native-ipc/src/active.rs:582-603 | turning reservations into active leases keeps the counters equal to the charges |
| `Ledger.DropKeepsBalance` | crates/native-ipc/src/liveness.rs:238-255 | dropping one active lease takes exactly its charge out of the counters, which stay equal to the charges |
| `TransferSafety.CoordinatorKeepsLogs` | crates/native-ipc/src/backend/accepted_control.rs:2543-2635 | every coordinator step keeps ids, offers and commits in order with what it has received |
| `TransferSafety.ReceiverKeepsLogs` | crates/native-ipc/src/backend/accepted_control.rs:3479-3652 | every receiver step keeps READY behind the checks and commits behind COMMIT |
| `TransferSafety.ReceiverKeepsSeen` | crates/native-ipc/src/backend/accepted_control.rs:3479-3580 | what the receiver checked it was sent: CAPABILITY and SEALED of the same manifest |
| `TransferSafety.CoordinatorMoves` | crates/native-ipc/src/backend/accepted_control.rs:2543-2635 | an unpoisoned coordinator only moves forward through the phases, and commits only by sending COMMIT |
| `TransferSafety.ReceiverMoves` | crates/native-ipc/src/backend/accepted_control.rs:3479-3652 | an unpoisoned receiver only moves forward through the phases, and commits only on COMMIT |
| `TransferRuns.EveryRunKeepsInv` | crates/native-ipc/src/backend/accepted_control.rs:2543-2635 | in every run, with failures anywhere, both endpoints' logs, flags, ids and charges stay consistent |
| `TransferRuns.CommitChain` | crates/native-ipc/src/backend/accepted_control.rs:3479-3652 | in every run both committed lists are prefixes of the COMMITs sent, those of the READYs sent, those of the checks passed, and neither endpoint is more than one batch ahead |
| `TransferRuns.ReceiverCommitsAfterCommit` | crates/native-ipc/src/backend/accepted_control.rs:3582-3652 | the receiver commits a manifest only after the coordinator sent COMMIT for that manifest |
| `TransferRuns.CoordinatorCommitsAfterReady` | crates/native-ipc/src/backend/accepted_control.rs:2591-2635 | the coordinator commits, or sends COMMIT, only for a manifest it sent as CAPABILITY and SEALED and that the receiver answered READY, after the phases in which its checks pass |
| `TransferSteps.CommitWasVetted` | crates/native-ipc/src/backend/accepted_control.rs:3479-3580 | for every manifest either endpoint committed, or for which a COMMIT was sent, the run has three steps in order: a receive that took and accepted its CAPABILITY, a send of IMPORTED after a successful import, a receive that took its SEALED and passed the activation check |
| `TransferSteps.CommitWasValidated` | crates/native-ipc/src/backend/accepted_control.rs:2543-2589 | for every such manifest the coordinator's validation succeeded before CAPABILITY and again before SEALED |
| `TransferSteps.CoordinatorHadGrounds` | crates/native-ipc/src/backend/accepted_control.rs:744-790 | every record the coordinator ever sent has one step behind it with the grounds for it; an offer says ready exactly when the batch was prepared and reserved |
| `TransferSteps.ReceiverHadGrounds` | crates/native-ipc/src/backend/accepted_control.rs:1313-1402 | the same for the receiver; a reply says ready exactly when the offer did and the batch was reserved, IMPORTED follows a successful import |
| `TransferSteps.CoordinatorPoisonsExactly` | crates/native-ipc/src/backend/accepted_control.rs:2543-2635 | in every run exactly these steps poison a healthy coordinator: a failed send, receive or validation, a record its phase does not go on from, an exhausted or second transaction, abandoning |
| `TransferSteps.ReceiverPoisonsExactly` | crates/native-ipc/src/backend/accepted_control.rs:3479-3652 | in every run exactly these steps poison a healthy receiver, among them a failed import, a manifest of another session or outside the limits, and a failed activation check |
| `TransferRuns.IdleEndpointsAgree` | crates/native-ipc/src/backend/accepted_control.rs:4246-4280 | two idle unpoisoned endpoints with nothing undelivered to the receiver agree on the next id and on everything committed |
| `TransferRuns.IdsAreOrderly` | crates/native-ipc/src/backend/accepted_control.rs:4207-4280 | offers carry 1, 2, 3, ..., committed ids strictly increase, none passes the negotiated maximum |
| `TransferRuns.CoordinatorLeaves` | crates/native-ipc/src/backend/accepted_control.rs:744-790 | a coordinator leaves a transaction poisoned with nothing committed, or declined with nothing charged, or with exactly that batch and its charges |
| `TransferRuns.DeclineLeavesLedger` | crates/native-ipc/src/backend/accepted_control.rs:1313-1402 | until it answers ready the receiver's lease counters do not move |
| `TransferRuns.PoisonIsForever` | crates/native-ipc/src/backend/mod.rs:276-278 | a poisoned endpoint sends, takes and commits nothing again |
| `TransferRuns.ChargesAreConserved` | crates/native-ipc/src/liveness.rs:109-151 | at every moment both ledgers' counters equal held plus active charges within the limits, and idle endpoints hold none |
| `TransferCharges.ReceiverLeaves` | crates/native-ipc/src/backend/accepted_control.rs:3582-3652 | a receiver leaves a transaction poisoned with nothing committed, or declined with its ledger as it was, or with exactly that batch and exactly its charges |
| `TransferCharges.ReceiverHoldsManifest` | crates/native-ipc/src/backend/accepted_control.rs:3479-3580 | from the import on the receiver holds exactly the mapped lengths of the manifest it imports |
| `TransferCharges.CapabilityIsOffered` | crates/native-ipc/src/backend/accepted_control.rs:1313-1402 | a CAPABILITY with the id of an OFFER carries the manifest of that OFFER |
| `TransferCharges.EveryRunIsMatched` | crates/native-ipc/src/backend/accepted_control.rs:3479-3580 | in every run every CAPABILITY was offered and the receiver reserves for what it was offered |
| `TransferProgress.BytesIdentifyRecords` | crates/native-ipc/src/protocol.rs:335-372 | two native records have equal bytes exactly when they are the same phase, status and manifest |
| `TransferProgress.AdmissibleIsConstructed` | crates/native-ipc/src/backend/accepted_control.rs:4207-4244 | the manifests a transaction can begin with are exactly those that construct for its id and fit the limits |
| `TransferProgress.CalmRunPoisonsExactly` | crates/native-ipc/src/backend/accepted_control.rs:744-790 | a run in which nothing fails, control records included, has poisoned an endpoint exactly when some receive took a record of the other kind: an application record for a transaction's answer, or a native record outside a transaction |
| `TransferProgress.CrossedRecordPoisons` | crates/native-ipc/src/backend/accepted_control.rs:758-779 | an application record sent by the idle receiver before it takes the offer poisons the coordinator, with every send and receive succeeding |
| `TransferProgress.HealthyIsInStep` | crates/native-ipc/src/backend/accepted_control.rs:2543-2635 | while such a run is healthy the two phases and the native records under way fit together, so no answer is unexpected |
| `TransferProgress.OfferIdMatches` | crates/native-ipc/src/backend/accepted_control.rs:4246-4280 | the id an opened receiver expects is the id of the offer waiting for it |
| `TransferLiveness.TransferCompletes` | crates/native-ipc/src/backend/macos_vnext/session.rs:862-920 | from every healthy failure-free run with no application record under way a failure-free continuation brings the coordinator back to idle, so an open transfer is never stuck |
| `TransferLiveness.EveryStepDescends` | crates/native-ipc/src/backend/macos_vnext/session.rs:862-920 | every failure-free step of either endpoint in an open transfer changes nothing or brings it nearer to its end, in whatever order the steps come |
| `TransferLiveness.EveryScheduleEnds` | crates/native-ipc/src/backend/macos_vnext/session.rs:862-920 | of the steps of any such schedule at most a number fixed by the present phases change anything, so every schedule ends |
| `TransferLiveness.TurnIsCalm` | crates/native-ipc/src/backend/macos_vnext/session.rs:862-920 | while a transfer is open and no application record is under way, the endpoint whose turn it is can take a failure-free step that misreads nothing |
| `TransferLiveness.TurnDescends` | crates/native-ipc/src/backend/macos_vnext/session.rs:862-920 | the step of the endpoint whose turn it is always brings the transfer nearer to its end |
| `TransferCompletion.TransferCommits` | crates/native-ipc/src/backend/macos_vnext/session.rs:862-920 | a transfer begun in a healthy failure-free run with no application record under way, for which both sides have room, has a failure-free continuation that ends with both endpoints idle and the batch last on both, equal, lists |
| `TransferCompletion.EveryScheduleCommits` | crates/native-ipc/src/backend/macos_vnext/session.rs:862-920 | whatever failure-free schedule such a transfer is given, it is still open with its manifest or it is committed; it is never declined or lost, and only boundedly many steps change anything |
| `TransferCompletion.EveryStepWins` | crates/native-ipc/src/backend/accepted_control.rs:2543-2635 | no failure-free step of either endpoint can make a transfer lose for which both have room: it stays winning or the coordinator commits it |
| `TransferCompletion.IdleSettles` | crates/native-ipc/src/backend/accepted_control.rs:512-546 | between transfers every record under way is an application record, and receiving them leads to a healthy state with nothing under way and the ledgers and committed lists unchanged |
| `TransferCompletion.SessionCanCommit` | crates/native-ipc/src/backend/macos_vnext/session.rs:862-920 | between transfers of a healthy failure-free run, with any application records under way, every manifest both ledgers have room for can be committed on both sides |
| `TransferCompletion.TransferBegins` | crates/native-ipc/src/backend/accepted_control.rs:4207-4280 | an idle coordinator with an id left can begin any manifest it can construct |
| `TransferCompletion.WinningCommits` | crates/native-ipc/src/backend/accepted_control.rs:2543-2635 | turn by turn such a transfer reaches the coordinator's commit |
| `Dispatcher.AcceptedControlDispatcher.EnterNativeTransaction` | crates/native-ipc/src/backend/accepted_control.rs:4246-4280 | a poisoned or expired entry changes nothing, an exhausted or conflicting one poisons, a granted one takes the next id, and the error names the first of the four that applies |
| `Dispatcher.AcceptedControlDispatcher.SendRecord` | crates/native-ipc/src/backend/accepted_control.rs:4365-4371 | a send succeeds exactly on a healthy transport that delivers; an ambiguous failure has delivered the record, and every failure poisons |
| `Dispatcher.AcceptedControlDispatcher.ReceiveRecord` | crates/native-ipc/src/backend/accepted_control.rs:4311-4331 | takes the peer's next record or poisons, and a poisoned session takes nothing |
| `Dispatcher.AcceptedControlDispatcher.PoisonBoth` | crates/native-ipc/src/backend/accepted_control.rs:639-643 | poisoning marks the session and changes nothing else |
| `Dispatcher.AcceptedControlDispatcher.EndTransaction` | crates/native-ipc/src/backend/accepted_control.rs:4373-4384 | an open transaction ends, ending without one poisons, and a poisoned session ends nothing |
| `Dispatcher.CoordinatorTransaction.ExchangeCapacity` | crates/native-ipc/src/backend/accepted_control.rs:744-790 | the exchange is one offer step and one answer step; it is ready only for a reserved and prepared batch whose peer answered ready for the same manifest |
| `Dispatcher.CoordinatorTransaction.Prepare` | crates/native-ipc/src/backend/accepted_control.rs:2543-2589 | prepare is exactly the CAPABILITY, IMPORTED, SEALED steps and poisons out of turn; it is done only after both validations, both sends and the peer's IMPORTED for this manifest |
| `Dispatcher.CoordinatorTransaction.Commit` | crates/native-ipc/src/backend/accepted_control.rs:2591-2635 | commit is exactly the READY and COMMIT steps; a batch comes out only for the sealed manifest, after the peer's READY, with COMMIT sent |
| `Dispatcher.ReceiverTransaction.AnswerOffer` | crates/native-ipc/src/backend/accepted_control.rs:1313-1402 | the preflight is one offer step and one reply step; it is ready only for an accepted, ready offer of the expected id that was reserved |
| `Dispatcher.ReceiverTransaction.Prepare` | crates/native-ipc/src/backend/accepted_control.rs:3479-3580 | prepare is exactly the CAPABILITY, IMPORTED, SEALED steps and poisons out of turn; it is done only when the manifest matched, the import succeeded and the activation check passed |
| `Dispatcher.ReceiverTransaction.ImportAndSeal` | crates/native-ipc/src/backend/accepted_control.rs:3521-3580 | the part behind CAPABILITY is done exactly when the import succeeded, IMPORTED went out, SEALED for this manifest came in and the activation check passed |
| `Dispatcher.ReceiverTransaction.Commit` | crates/native-ipc/src/backend/accepted_control.rs:3582-3652 | commit is exactly the READY and COMMIT steps; a batch comes out only for the sealed manifest, with READY sent and the exact COMMIT received |
| `Leases.EveryRunKeepsInv` | crates/native-ipc/src/liveness.rs:109-255 | every interleaving of owner calls with two-step drops keeps the accounting |
| `Leases.CountersMatchLeases` | crates/native-ipc/src/liveness.rs:109-255 | the counters are the sums over leases not past each decrement plus the reservation being made, within the limits, and no decrement can underflow |
| `Leases.SecondCheckNeverFails` | crates/native-ipc/src/liveness.rs:133-137 | the second activity check of a reservation never fails |
| `Leases.GrantedCallHolds` | crates/native-ipc/src/backend/accepted_control.rs:615-624 | a granted call leaves one live lease per requested length, in order |
| `Leases.RefusedCallRestores` | crates/native-ipc/src/backend/accepted_control.rs:615-624 | a refused call leaves no charge of its own in either counter |
| `LeaseCalls.FittingCallIsGranted` | crates/native-ipc/src/liveness.rs:109-150 | a reservation call that fits when it starts is never refused, whatever drops run meanwhile, and is granted once the owner has taken its steps |
| `LeaseCalls.GrantedCallFitted` | crates/native-ipc/src/liveness.rs:109-137 | a call is granted only when none of its lengths is zero or beyond the byte limit, with a live lease for each |
| `LeaseCalls.RefusalIsJustified` | crates/native-ipc/src/liveness.rs:109-137 | in every run a reservation turns into a refusal only when a limit is reached or the session is not active, and the refusal says which |
| `LeaseCalls.DropsTakeEffect` | crates/native-ipc/src/liveness.rs:238-255 | a lease that was handed out can be dropped at any time and takes exactly its bytes, then its region, out of the counters |
| `LeaseCalls.ObservedAlone` | crates/native-ipc/src/liveness.rs:187-199 | undisturbed, the observed facts are the counters |
| `LeaseCalls.ClosedAlone` | crates/native-ipc/src/liveness.rs:162-181 | undisturbed, closing succeeds exactly on empty counters of an owner not yet closed, and otherwise says what remains |
| `LeaseCalls.PoisonedAtOnce` | crates/native-ipc/src/liveness.rs:153-160 | poisoning takes effect exactly on an active owner |
| `Leases.FactsNeverLow` | crates/native-ipc/src/liveness.rs:187-199 | observed facts are never below what is charged when they are returned |
| `Leases.CloseNeedsEmpty` | crates/native-ipc/src/liveness.rs:162-181 | a closed owner has no charged lease and zero counters |
| `Leases.ClosedForever` | crates/native-ipc/src/liveness.rs:153-181 | a closed owner stays closed and never makes another lease |
| `Resources.ResourceOwner.ReserveOne` | crates/native-ipc/src/liveness.rs:109-151 | a reservation charges both counters or neither, and says why it was refused |
| `Resources.ResourceOwner.DropLast` | crates/native-ipc/src/liveness.rs:238-255 | a drop returns exactly its own charge |
| `Resources.ResourceOwner.Unwind` | crates/native-ipc/src/backend/accepted_control.rs:615-624 | dropping what a refused call had reserved restores the ledger it started from |
| `Resources.ResourceOwner.PoisonResources` | crates/native-ipc/src/liveness.rs:153-160 | poisoning changes an active owner only, and no charge |
| `Resources.ResourceOwner.ReserveMappedLengths` | crates/native-ipc/src/backend/accepted_control.rs:615-624 | all of the lengths are reserved or the counters are as before; the error is the limit, or the session's state when it is not active and the first length is possible |
| `Resources.ResourceOwner.TryClose` | crates/native-ipc/src/liveness.rs:162-181 | closes exactly once and only when nothing is charged |
| `Resources.ResourceOwner.Complete` | crates/native-ipc/src/active.rs:582-603 | the charge passes to the mapping exactly when lengths agree and the session is active, and is given back otherwise |
| `Prefault.PrefaultRead` | crates/native-ipc/src/active.rs:605-657 | succeeds exactly on valid ranges with representable page ends and touches one byte of the range in each of its pages; a reversed range is invalid, every other failure is out of bounds |
| `Limits.Negotiate` | crates/native-ipc/src/session.rs:1307-1364 | the greatest limits within both offers, valid whenever both offers are |
| `HelloRules.LimitsValidExactly` | crates/native-ipc/src/session.rs:1307-1364 | limits are valid exactly when each is positive and at most its hard maximum; a refusal says whether one is zero |
| `HelloRules.NegotiatedAreMinima` | crates/native-ipc/src/session.rs:1307-1364 | two valid offers negotiate to the lesser of each limit |
| `HelloRules.FrameValidExactly` | crates/native-ipc/src/negotiation.rs:672-716 | a frame is valid exactly when nonce and digest are not zero, required bits are supported, limits are in range, alignments are fitting powers of two, the target is known and the payload within both limits |
| `HelloRules.HelloValidExactly` | crates/native-ipc/src/negotiation.rs:672-690 | a HELLO is valid exactly under those rules, and a refusal names one it breaks |
| `Negotiation.DecodesExactlyCanonical` | crates/native-ipc/src/negotiation.rs:718-836 | decoding accepts exactly the canonical bytes of a valid frame of the expected role and nonce within the local limit |
| `HelloRules.DecodeErrorIsTrue` | crates/native-ipc/src/negotiation.rs:718-836 | bytes that are not a frame are refused for the field the reason names |
| `Negotiation.CanonicalIsUnique` | crates/native-ipc/src/negotiation.rs:275-339 | a frame has one canonical encoding |
| `Negotiation.EncodeThenDecode` | crates/native-ipc/src/negotiation.rs:275-339 | decoding an encoded valid frame returns it |
| `Negotiation.DecodeThenEncode` | crates/native-ipc/src/negotiation.rs:718-836 | accepted bytes re-encode to themselves over any buffer |
| `Negotiation.HelloEncodersAgree` | crates/native-ipc/src/negotiation.rs:355-398 | the borrowed-HELLO encoder writes the generic encoder's bytes on any dirty buffer |
| `Negotiation.EncodedOverIsCanonical` | crates/native-ipc/src/negotiation.rs:275-339 | encoding over any old bytes leaves exactly the canonical frame |
| `Negotiation.HelloOverStaysInFrame` | crates/native-ipc/src/negotiation.rs:355-398 | encoding touches nothing past the frame |
| `Negotiation.EncodeHelloInto` | crates/native-ipc/src/negotiation.rs:355-398 | the borrowed encoder succeeds exactly on a valid HELLO that fits, writes that one frame, and otherwise names the first fault and leaves the buffer alone |
| `Negotiation.EncodeInto` | crates/native-ipc/src/negotiation.rs:261-339 | the generic encoder succeeds exactly on a valid frame that fits, writes that one frame, and otherwise names the first fault and leaves the buffer alone |
| `Transcript.DigestInputBindsBothHellos` | crates/native-ipc/src/negotiation.rs:845-895 | the digest input determines both HELLOs |
| `Transcript.ReductionIsFair` | crates/native-ipc/src/negotiation.rs:445-511 | a reduced transcript has every required and only supported features, limits within both offers and shared alignments |
| `HelloRules.ReducesExactly` | crates/native-ipc/src/negotiation.rs:445-511 | two HELLOs reduce exactly when both are valid, they come from the two roles under one nonce and this target, every alignment is the sound local one, and each required feature is known, supported by both and lock-free on all three sides |
| `HelloRules.ReductionIsExact` | crates/native-ipc/src/negotiation.rs:445-511 | the reduced transcript field by field: lock-free flags exactly when all three have them, exactly the usable features, the lesser of each limit, the digest of the two HELLOs |
| `HelloRules.ReductionErrorIsTrue` | crates/native-ipc/src/negotiation.rs:445-511 | a refused reduction is refused for the reason it names |
| `Transcript.DigestOrder` | crates/native-ipc/src/negotiation.rs:845-851 | the hash reads the prefix, the coordinator's HELLO, then the receiver's, each as identity, limits, facts and payload |
| `Transcript.IdentityOrder` | crates/native-ipc/src/negotiation.rs:853-865 | the identity part in order, the role as its number |
| `Transcript.LimitOrder` | crates/native-ipc/src/negotiation.rs:866-873 | the limits in order and width |
| `Transcript.FactOrder` | crates/native-ipc/src/negotiation.rs:874-893 | flags, alignments, target and payload length in order and width |
| `Transcript.SelectedWithin` | crates/native-ipc/src/negotiation.rs:445-511 | a feature set is selected exactly when both sides support it, it is known, and the atomics allow it |
| `Decision.EveryRunKeepsInv` | crates/native-ipc/src/negotiation.rs:530-670 | decided values never change and a challenge is held exactly from the coordinator's ACCEPT on |
| `Decision.ReducedIsFresh` | crates/native-ipc/src/negotiation.rs:445-511 | every successful reduction is a state the decision theorems start from |
| `Decision.ChallengeIsStable` | crates/native-ipc/src/negotiation.rs:631-670 | once held, the challenge never changes |
| `Decision.FailureIsTerminalUnlessBorrowed` | crates/native-ipc/src/negotiation.rs:530-670 | a failed call ends the decision exactly when it is not one of the two borrowing calls or it had ended before |
| `Decision.BorrowedFailureIsNotTerminal` | crates/native-ipc/src/negotiation.rs:530-548 | a borrowing call that fails and is followed by a successful extraction |
| `Decision.TerminalStaysTerminal` | crates/native-ipc/src/negotiation.rs:530-670 | an ended decision stays ended |
| `Decision.FactsComeOutOnce` | crates/native-ipc/src/negotiation.rs:401-423 | facts come out at most once in any run of calls |
| `Decision.ExtractedFacts` | crates/native-ipc/src/negotiation.rs:401-423 | extracted facts carry the reduced values and the run's one challenge |
| `Decision.FactsNeedBothAccepts` | crates/native-ipc/src/negotiation.rs:401-423 | facts come out only after both ACCEPTs were validated, coordinator first |
| `DecisionRules.EveryRunHasStage` | crates/native-ipc/src/negotiation.rs:530-670 | every run of calls is at exactly one stage: open, coordinator agreed, both agreed, or ended |
| `DecisionRules.ValidateAcceptExactly` | crates/native-ipc/src/negotiation.rs:631-670 | an ACCEPT is validated exactly in its sender's turn, from that sender, with every value of the transcript and the one challenge; it moves the decision one stage on, anything else ends it with the reason |
| `DecisionRules.ValidateRejectExactly` | crates/native-ipc/src/negotiation.rs:592-625 | a REJECT is believed exactly in its sender's turn under this nonce and challenge, and always ends the decision |
| `DecisionRules.CoordinatorAcceptExactly` | crates/native-ipc/src/negotiation.rs:530-538 | the coordinator's ACCEPT comes out exactly at the start and carries every value of the transcript |
| `DecisionRules.ReceiverAcceptExactly` | crates/native-ipc/src/negotiation.rs:540-548 | the receiver's comes out exactly after the coordinator's was validated, with its challenge |
| `DecisionRules.RejectExactly` | crates/native-ipc/src/negotiation.rs:550-590 | a rejection comes out exactly in one's turn and always ends the decision |
| `DecisionRules.TakeFactsExactly` | crates/native-ipc/src/negotiation.rs:401-423 | facts come out exactly once both agreed, carry every value of the transcript and the challenge, and end the decision |
| `Decision.AcceptedFactsAgree` | crates/native-ipc/src/negotiation.rs:540-670 | endpoints that validated each other's ACCEPT extract equal facts in every field |
| `Decision.NegotiatedFactsAreFair` | crates/native-ipc/src/negotiation.rs:425-670 | from the HELLOs to the facts: one set of facts within each side's own offer and with each side's required features |
| `Decision.ConcludedSawSameHellos` | crates/native-ipc/src/negotiation.rs:425-670 | unless the hash collides on the two transcripts, endpoints that concluded saw each other's HELLOs as they were sent |
| `Decision.NegotiatedTranscript.TakeAcceptedFacts` | crates/native-ipc/src/negotiation.rs:401-423 | in place, extraction consumes the transcript and answers as the decision machine does |
| `Decision.NegotiatedTranscript.RejectAsCoordinator` | crates/native-ipc/src/negotiation.rs:550-568 | in place, a coordinator rejection ends the decision whether or not it was allowed, as the machine does |
| `Decision.NegotiatedTranscript.RejectAsReceiver` | crates/native-ipc/src/negotiation.rs:570-590 | in place, a receiver rejection ends the decision whether or not it was allowed, as the machine does |
| `Decision.NegotiatedTranscript.CheckReject` | crates/native-ipc/src/negotiation.rs:592-625 | in place, validating a REJECT ends the decision, as the machine does |
| `Decision.NegotiatedTranscript.CheckAccept` | crates/native-ipc/src/negotiation.rs:631-670 | in place, validating an ACCEPT binds the challenge and advances one role, or ends the decision, as the machine does |
| `Control.AcceptsExactly` | crates/native-ipc/src/control.rs:156-191 | a record is accepted exactly when it is the one record of an admitted frame under the session nonce and the next sequence |
| `Control.DecodeMoves` | crates/native-ipc/src/control.rs:249-353 | acceptance advances the sequence by one, every refusal poisons |
| `Control.DecodeErrorIsTrue` | crates/native-ipc/src/control.rs:249-353 | a refused record is refused for the reason it names |
| `ControlChannel.ControlStateOwner.EncodedLenParts` | crates/native-ipc/src/control.rs:76-83 | a frame has a wire length exactly on a healthy endpoint outside transactions with a number left, an application kind and a payload within both limits; a refusal names a true reason |
| `Control.SendsExactly` | crates/native-ipc/src/control.rs:94-139 | a send succeeds exactly on a healthy endpoint outside transactions with a number left, an application kind, a payload within both limits and room for it; it takes one number; only conflicts and exhaustion poison |
| `Control.BeginsExactly` | crates/native-ipc/src/control.rs:193-203 | a transaction begins exactly on a healthy endpoint with none open and no receive pending, and is open afterwards; a conflict poisons |
| `Control.EndsExactly` | crates/native-ipc/src/control.rs:205-215 | it ends exactly on a healthy endpoint with one open; ending none poisons |
| `ControlChannel.NothingAcceptedInside` | crates/native-ipc/src/control.rs:249-255 | from the grant of a transaction to its end no delivery is accepted, and the receiver is poisoned exactly when a record was delivered, a second transaction begun or it was poisoned |
| `ControlChannel.SilentWhileOpen` | crates/native-ipc/src/control.rs:94-107 | with a transaction open an endpoint sends nothing, and any action but its end poisons it |
| `Control.SequenceIsBound` | crates/native-ipc/src/control.rs:94-139 | different sequences or frames never share a record |
| `Control.EncoderIgnoresOldBytes` | crates/native-ipc/src/control.rs:94-139 | the encoded record does not depend on the buffer's old contents, and nothing past it changes |
| `ControlChannel.SentIsNumbered` | crates/native-ipc/src/control.rs:94-139 | whatever the endpoint does between its sends (failed sends, receives, transactions, poisoning), the frames sent are admitted and numbered from one without a gap |
| `ControlChannel.DeliveryIsStep` | crates/native-ipc/src/control.rs:156-191 | decoding any copy of any record does exactly what its sequence number says |
| `ControlChannel.DeliverInOrder` | crates/native-ipc/src/control.rs:249-295 | record i is accepted exactly when it is the next one, outside a transaction and unpoisoned, and then as the i-th frame |
| `ControlChannel.AcceptedIsPrefix` | crates/native-ipc/src/control.rs:156-353 | under loss, duplication and reordering, and whatever transactions and failures either endpoint goes through, the frames accepted are a prefix of the frames sent |
| `ControlChannel.DeviationPoisons` | crates/native-ipc/src/control.rs:249-295 | a delivery out of turn poisons and accepts nothing |
| `ControlChannel.PoisonIsForever` | crates/native-ipc/src/control.rs:249-295 | a poisoned receiver never accepts another frame |
| `ControlChannel.InOrderIsAccepted` | crates/native-ipc/src/control.rs:249-343 | in-order delivery outside transactions is accepted in full up to sequence exhaustion |
| `ControlChannel.ControlStateOwner.EncodePartsInto` | crates/native-ipc/src/control.rs:94-139 | a send succeeds exactly without a fault, writes the one record of its number and nothing past it; a refusal writes nothing |
| `ControlChannel.ControlStateOwner.DecodeOwned` | crates/native-ipc/src/control.rs:156-191 | in place, decoding with its pending receive moves the state as the channel theorems assume |
| `ControlChannel.ControlStateOwner.BeginNative` | crates/native-ipc/src/control.rs:193-203 | granted exactly when healthy with no transaction open and no receive pending, and open afterwards; a conflict poisons; the sequences stay |
| `ControlChannel.ControlStateOwner.EndNative` | crates/native-ipc/src/control.rs:205-215 | granted exactly when healthy with a transaction open, and closed afterwards; otherwise poisons; the sequences stay |
| `Keyed.ArrangementIsUnique` | crates/native-ipc/src/batch.rs:205-218 | with distinct keys every sort gives the same sequence |
| `Keyed.MapIsExact` | crates/native-ipc/src/batch.rs:333-342 | a map of the same size that holds every expected pair is exactly the expected map |
| `Keyed.HasDuplicateKey` | crates/native-ipc/src/batch.rs:319-326 | sorting and comparing neighbours finds a duplicate exactly when there is one, and names the least |
| `Batch.TransferBatch.Add` | crates/native-ipc/src/batch.rs:163-193 | a region is admitted exactly when the batch with it is still within the session limits, and otherwise the first limit it breaks is named |
| `Batch.AdmittedBatchHasManifest` | crates/native-ipc/src/batch.rs:220-234 | an admitted batch with distinct incarnations has a manifest, and it fits the limits |
| `ManifestRules.BatchManifestDescribes` | crates/native-ipc/src/batch.rs:220-234 | the manifest of a batch describes every region by exactly one entry with its id, incarnation, owner and lengths, read-only exactly when the coordinator writes it, and has no other entry |
| `Batch.ReservationsFollowOrdinals` | crates/native-ipc/src/batch.rs:205-218 | the i-th reservation length is the mapped length of the manifest entry with ordinal i |
| `Batch.ExpectBatch` | crates/native-ipc/src/batch.rs:93-121 | accepts exactly one to sixteen distinct non-empty regions with a representable total, in id order, and otherwise names the count, the least repeated id, or the first region that is empty or overflows |
| `Batch.SumExpected` | crates/native-ipc/src/batch.rs:93-121 | the total exists exactly when no region is empty and nothing overflows, and otherwise the first such region is named |
| `Batch.FromLocalCommitted` | crates/native-ipc/src/batch.rs:311-344 | succeeds exactly when neither list repeats an id and the region map equals the expected ids and directions, and otherwise tells a repeated id from a mismatch |
| `QuotingNames.LaterArgumentsRecovered` | crates/native-ipc/src/backend/windows.rs:1774-1827 | for every non-empty list the later arguments come back exactly when the name's quoting closes, or is alone and does not end early, and every later argument with a quote has a blank |
| `Quoting.LaterBehindClosedName` | crates/native-ipc/src/backend/windows.rs:1774-1827 | behind a name whose quoting closes the later arguments come back exactly when each is recoverable |
| `QuotingNames.OpenNameLoses` | crates/native-ipc/src/backend/windows.rs:1817-1827 | behind a name left open the later arguments never come back, because a space too many is swallowed |
| `QuotingNames.TextInFrontStays` | crates/native-ipc/src/backend/windows.rs:1817-1827 | text left over from a name in front of the later arguments never splits away |
| `QuotingNames.ScanGoesOn` | crates/native-ipc/src/backend/windows.rs:1786-1800 | a scan runs on over a space inside quotes and ends at it outside |
| `Quoting.LineRoundTrips` | crates/native-ipc/src/backend/windows.rs:1774-1827 | for every non-empty list, splitting the built line gives the whole list back exactly when the name has no quote and no final backslash behind a blank, and every later argument with a quote has a blank |
| `Quoting.NameRecovered` | crates/native-ipc/src/backend/windows.rs:1774-1801 | the program name comes back exactly when it has no quote and, if it was quoted, no final backslash |
| `Quoting.QuoteFreeNames` | crates/native-ipc/src/backend/windows.rs:1817-1827 | a name without quotes always closes its quoting |
| `Quoting.QuotedParses` | crates/native-ipc/src/backend/windows.rs:1774-1801 | a quoted argument with any run of backslashes parses back to itself |
| `Quoting.BodyParses` | crates/native-ipc/src/backend/windows.rs:1786-1800 | inside quotes the escaped text parses back, with any backslashes pending |
| `Quoting.UnrecoverableIsLost` | crates/native-ipc/src/backend/windows.rs:1776-1783 | an argument with a quote and no blank never comes back |
| `Quoting.TailParses` | crates/native-ipc/src/backend/windows.rs:1817-1827 | the later part of the line splits into its arguments exactly when each is recoverable |
| `Quoting.BareQuoteIsLost` | crates/native-ipc/src/backend/windows.rs:1776-1783 | behind any name whose quoting closes, the one-unit argument of a quote does not come back |
| `Quoting.OpenNameSwallows` | crates/native-ipc/src/backend/windows.rs:1817-1827 | a concrete program name that swallows the argument behind it |
| `Quoting.QuoteArgument` | crates/native-ipc/src/backend/windows.rs:1774-1801 | the one-pass loop appends the quoted form |
| `Quoting.QuoteBody` | crates/native-ipc/src/backend/windows.rs:1784-1800 | the loop with its backslash count writes the escaped text |
| `Quoting.CommandLineExact` | crates/native-ipc/src/backend/windows.rs:1817-1827 | the loop builds the line the splitting theorems are about, then a zero, for every list including the empty one |
| `Reaper.EveryRunKeepsInv` | crates/native-ipc/src/backend/reaper_ownership.rs:24-106 | any interleaving of clones, two-step releases and requests keeps the count exact |
| `Reaper.CountIsExact` | crates/native-ipc/src/backend/reaper_ownership.rs:62-100 | the count equals the active owners, and releasing an active owner never underflows |
| `Reaper.ExactlyOneLatches` | crates/native-ipc/src/backend/reaper_ownership.rs:62-83 | once every owner is released exactly one release returned true |
| `Reaper.LastIsLast` | crates/native-ipc/src/backend/reaper_ownership.rs:62-83 | the owner told it was last is the only one, and nobody is active then |
| `Reaper.EmptyStaysEmpty` | crates/native-ipc/src/backend/reaper_ownership.rs:86-100 | a count that reached zero stays zero |
| `Reaper.TerminationNeedsEveryRelease` | crates/native-ipc/src/backend/reaper_ownership.rs:24-83 | without a request termination is never latched while an owner is active |
| `Reaper.StepsTakeEffect` | crates/native-ipc/src/backend/reaper_ownership.rs:62-100 | in every run a clone of an active owner is one more active owner, giving up takes one share, and only the last latches |
| `Reaper.Ownership.Release` | crates/native-ipc/src/backend/reaper_ownership.rs:62-83 | a second release does nothing; the one that takes the count from one latches and says so; a count of zero is the only panic |
| `Reaper.Ownership.CloneOwner` | crates/native-ipc/src/backend/reaper_ownership.rs:86-100 | a clone is a new active owner of the same count, counted once; a released owner and a full count are the only panics |

## Left out

- Kernel calls and their wrappers (memfd, mmap, Mach VM, sections, sockets, pipes): outcomes of the operating system.
- The Linux and Windows transaction pairs: separate code beside the modelled macOS pair.
- The reaper thread, spawning and supervision: they rest on operating-system behaviour.
- Session close inside the transfer model: it is modelled with the leases instead.
- Constructing a batch (`TransferBatch::new`): checks that its three limits are not zero and at most sixteen regions; session limits that pass `Limits.Fault` satisfy both.
- Taking a mapping out of a committed set (`take_writer`, `take_reader`): removes one id of the map whose contents `Batch.FromLocalCommitted` states, or refuses a missing id or the other direction.
- The core envelope codec: encodes a 72-byte header of fixed little-endian fields in front of a payload and decodes it under record and byte budgets; fixed-offset headers with a payload are the subject of `Control` and `Negotiation`.
- Session wrappers, error mapping, environment parsing and the preinitialiser: they pass the modelled results on.
- Hostile writers and weak memory: both sides are assumed to run this code.
- Wall-clock time: a deadline is a failure that may happen at any send or receive.
- Allocation failures: every buffer and vector is assumed to be allocated.
- The match of a manifest against the receiver's expected regions is a step outcome, so runs include every answer it could give.
- Activation after a commit, beyond completing a reservation: hands native owners to the active set.
- The writing form of prefaulting: repeats the page walk of `Prefault.PrefaultRead` with same-value stores.
- TransferLiveness.TransferCompletes: a transfer with an application record under way is not covered, because such a record can poison it (`TransferProgress.CrossedRecordPoisons`).
- Quoting: units are those before the terminating zero; arguments with a zero unit are refused before a line is built.
- Protocol.BuildManifest: the library sort is modelled by insertion; with distinct ids every sort gives the same sequence.
