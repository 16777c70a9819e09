# Mesedi record keeping: a verified model

Mesedi records what AI agents did and commits to those records so that an auditor can check them without
trusting the operator. This project models that commitment scheme, and the four client-side algorithms that
feed it or act on it, and proves what they are for.

**The attestation chain** (Go, `backend/attest`). Each execution's events are put in canonical order and folded
into a Merkle tree; every hour a checkpoint commits to one leaf per project and names the checkpoint before it;
an export carries a window of checkpoints with one project's leaves, proofs and execution digests.

- Proofs: the level-by-level tree is the tree of section 2.1 of RFC 6962 at every size, the prover's walk is the
  path of section 2.1.1, every proof built is accepted, and an accepted proof names the leaf at its index.
- Chain: the scan accepts exactly the valid chains; a valid chain is numbered and tiled without holes; its last
  hash fixes everything before it; the builder only makes acceptable chains and can always go on.
- Export: the report is OK exactly for clean exports; one that ends with the hash of a published checkpoint is a
  whole window of the published chain, cannot hide an interior hour and says how many executions came before it;
  every window of an honest history exports to a document that passes.

**The clients.** The Python shipper's queue, batches, flush barriers and retries; the TypeScript reader of the halt
event stream; the canonical JSON that tool schemas are hashed as; the Python budget tracker shared by threads.

Hashing: SHA-256 is an arbitrary function `H` from byte strings to 32 bytes, and nothing is assumed of it. A
binding result says: among the finitely many strings in `hashed`, which include those hashed to build and check
the objects at hand, either no two collide and the conclusion holds, or two do, and `Hashing.FindCollision`
returns such a pair. For inclusion proofs, chains and exports the set is computed as well, by
`Inclusion.ExtractCollision`, `ChainProperties.ExtractChainCollision` and `ExportProperties.FindExportCollision`.

Numbers and times: Go's `uint64` arithmetic wraps (`Wrap`), a `time.Duration` is a 64-bit count of nanoseconds,
`Sub` saturates, `Truncate` cuts down from year 1. Go strings are byte sequences and JavaScript strings are
sequences of 16-bit code units.

Where a loop, a class or an in-place sort is in the source, it is a method here, proved equal to a function; the
lemmas then say what that function means. Files follow the source's files:

| file | models |
|---|---|
| GoBytes, GoTime, Encoding, Hashing | byte strings, decimal, hex, instants and their rendering, the field encoding, hashes |
| Records, Refusals | the hashed strings spelled out; which error each check reports |
| MerkleTree, Inclusion, EventDigest | digest.go |
| Checkpoint, ChainProperties, TenantChain, Domains | checkpoint.go and interval_proof.go |
| Export, ExportReport, ExportProperties, HonestRun | export.go |
| Shipper | _shipper.py |
| CodeUnits, HaltStream, Jcs | halt_stream.ts and jcs.ts |
| Budget | halt.py and the check-then-count pattern of tool.py |

Where the code differs from what its comments promise, the model follows the code:

- `VerifyInclusion` never asks that the leaf hash be 32 bytes, and the claim that a proof shows one leaf fails
  without it: under any two-leaf root, both leaves glued together pass as leaf 0 (`Inclusion.GluedLeavesAccepted`;
  `Inclusion.InclusionSound` has the exact condition). `VerifyTenantLeafInclusion` recomputes the hash and is safe.
- An interval of the longest duration there is lets a checkpoint of any greater span through, because `Sub`
  saturates (`ChainProperties.TilingExactly`).
- `BuildCheckpoint` says it refuses leaves whose sub-chain counts contradict themselves; it compares each leaf's
  count with the presence of its root and looks at nothing else of the sub-chain (`ChainProperties.BuiltExactly`).
  It does not notice a wrapped sequence number or total (`ChainProperties.BuiltExtends`, with an accepted window
  for either in `ChainProperties.BuilderOverflows`).
- A leaf that keeps a sub-chain intact over an hour without executions is documented and accepted by the builder,
  but an export showing it cannot pass: its empty list has no fold (`HonestRun.HonestWindowVerifies`, with one such
  hour in `HonestRun.IdleHourFails`).
- The halt stream reader says it normalises all three line ends; one that is cut between its CR and its LF counts
  twice, which can lose a halt (`HaltStream.CutInCrLfLosesHalt`) or raise one the stream does not contain
  (`HaltStream.CutInCrLfRaisesHalt`). `HaltStream.CutExactly` has the exact condition.
- `Compute` says input order is irrelevant; it is exactly when events sharing sequence and id have one leaf hash
  (`EventDigest.OrderIndependenceExactly`).
- The shipper's `max_retries` can be set, but its table of waits has three entries: with more than three retries a
  fourth transient answer ends the worker (`Shipper.DeliveryMeans`).

## Model

| member | source | states |
|---|---|---|
| `GoBytes.HexRoundTrip` | backend/attest/digest.go:253 | decoding undoes the lower-case hex encoding, for every byte string |
| `GoBytes.HexEncodeMeans` | backend/attest/digest.go:253 | two lower-case digits for each byte, the high one first |
| `GoBytes.HexDecodeExactly` | backend/attest/digest.go:373-391 | a text decodes to exactly the bytes whose lower-case spelling it is, letter case aside, and to nothing else |
| `GoBytes.DecimalIsShortest` | backend/attest/digest.go:199-210 | a number is written with its own digits, the last by its remainder, and no leading zero |
| `GoTime.CivilRoundTrip` | backend/attest/checkpoint.go:263-265 | the calendar fields an instant is rendered from determine the instant |
| `GoTime.TimeTextInjective` | backend/attest/checkpoint.go:260-265 | two instants never share the nine-digit UTC rendering, in any year |
| `GoTime.CivilOfInstant` | backend/attest/checkpoint.go:260-265 | the calendar is the Gregorian one: every real date and time of day is read back from the instant it names |
| `GoTime.ZeroTime` | backend/attest/checkpoint.go:267-281 | the instants that Truncate cuts to are counted from midnight on 1 January of year 1, where Unix time lies 62135596800 seconds on |
| `GoTime.TimeTextSample` | backend/attest/checkpoint.go:260-265 | the layout, letter by letter, on an instant whose fields are all different |
| `Encoding.FieldsUnique` | backend/attest/checkpoint.go:221-229 | a length-prefixed record followed by anything decodes in one way only, whatever bytes its values hold |
| `Records.EventLayout` | backend/attest/digest.go:188-215 | the canonical leaf spelled out: which label stands before which field, in which order |
| `Records.LeafLayout` | backend/attest/checkpoint.go:324-338 | the tenant leaf record spelled out |
| `Records.CheckpointLayout` | backend/attest/checkpoint.go:340-360 | the checkpoint record spelled out |
| `Records.HashedTime` | backend/attest/checkpoint.go:231-265 | a hashed time is the time's own text with the last three of its nine digits zero |
| `Records.ZeroHashIs` | backend/attest/checkpoint.go:96-100 | the hash that names no predecessor is 64 zeros |
| `Hashing.FindCollision` | backend/attest/digest.go:430-446 | searches the hashed strings and finds two different ones with one digest exactly when there are any |
| `Hashing.LeafBinding` | backend/attest/digest.go:430-437 | equal leaf hashes mean equal data, or a collision |
| `Hashing.NodeBinding` | backend/attest/digest.go:439-446 | equal node hashes mean equal children once one child on each side has the same length, or a collision |
| `Hashing.LeafIsNotNode` | backend/attest/digest.go:430-446 | a leaf's hash never passes for a node's, or there is a collision |
| `MerkleTree.SmallTrees` | backend/attest/digest.go:430-466 | the preimages and the trees of up to three leaves, byte for byte |
| `MerkleTree.RootIsMth` | backend/attest/digest.go:449-466 | promoting the odd node level by level gives the recursive tree hash of RFC 6962 at every size |
| `MerkleTree.LevelPathIsRfcPath` | backend/attest/digest.go:321-345 | the siblings met level by level are the audit path of section 2.1.1, promoted nodes adding none |
| `MerkleTree.LevelPathLength` | backend/attest/digest.go:321-345 | a path has one entry for each level at which the node has a sibling |
| `MerkleTree.PathLengthBound` | backend/attest/digest.go:321-345 | that is never more than the logarithm of the size, rounded up |
| `MerkleTree.RootBinding` | backend/attest/digest.go:449-466 | equally long lists of digests with one root are equal element by element, or there is a collision |
| `MerkleTree.DataBinding` | backend/attest/digest.go:432-466 | over prefixed leaves the root alone fixes how many there are and the bytes of each, in order, or there is a collision |
| `Inclusion.BuildNextLevel` | backend/attest/digest.go:455-463 | pairs are hashed left to right and an odd last node moves up unchanged |
| `Inclusion.RootFromLeafHashes` | backend/attest/digest.go:449-466 | returns the RFC 6962 tree hash, that of the empty string for no leaves |
| `Inclusion.ProvePath` | backend/attest/digest.go:306-346 | returns the RFC 6962 path in hex; an index outside the tree or a hash that is not hex is refused, in this order |
| `Inclusion.VerifyInclusion` | backend/attest/digest.go:373-422 | hashing first and then skipping promoted levels gives the verdict of a climb that takes one level at a time |
| `Inclusion.VerdictErrors` | backend/attest/digest.go:373-421 | a proof is an error exactly for an index outside the tree, a leaf hash that is not hex, or a path entry that is not hex where the climb comes to it; a bad entry behind that makes it false, not an error |
| `Inclusion.ClimbComplete` | backend/attest/digest.go:384-421 | from any leaf of any tree the climb along its own siblings arrives at the root |
| `Inclusion.InclusionComplete` | backend/attest/digest.go:280-422 | for every size and every index, promoted nodes included, the proof built is accepted |
| `Inclusion.ClimbLength` | backend/attest/digest.go:387-421 | a climb arrives exactly when every entry decodes and there are as many as levels with a sibling |
| `Inclusion.AcceptedLength` | backend/attest/digest.go:387-421 | an accepted path has the one length its index and size allow, within the logarithm of the size |
| `Inclusion.ClimbSound` | backend/attest/digest.go:384-421 | a climb from 32 bytes that arrives at a tree's root started at the leaf with its index, or there is a collision |
| `Inclusion.InclusionSound` | backend/attest/digest.go:373-422 | an accepted proof names the leaf at its index exactly when its leaf hash is 64 hex digits, or there is a collision |
| `Inclusion.QueriesCover` | backend/attest/digest.go:373-466 | the computed set holds every string hashed to build the tree and check the proof |
| `Inclusion.ExtractCollision` | backend/attest/digest.go:373-422 | from an accepted proof of 64 hex digits for anything but the leaf at its index, computes two strings with one hash |
| `Inclusion.GluedLeavesAccepted` | backend/attest/digest.go:379-421 | without the 32 bytes soundness fails: both leaves of any two-leaf tree, concatenated, are accepted as leaf 0 |
| `EventDigest.CanonicalLeafInjective` | backend/attest/digest.go:188-215 | two events with one canonical leaf agree in every field, the payload up to its digest |
| `EventDigest.SliceStable` | backend/attest/digest.go:241-246 | the in-place sort leaves the stably sorted slice |
| `EventDigest.StableSortSorted` | backend/attest/digest.go:235-246 | the result is ordered by sequence, then by event id |
| `EventDigest.CanonicalOrder` | backend/attest/digest.go:235-246 | the sequence never goes down, and within one sequence neither does the id, byte by byte |
| `EventDigest.SortedUnique` | backend/attest/digest.go:235-246 | events that differ in sequence or id have one sorted arrangement |
| `EventDigest.SortIsStable` | backend/attest/digest.go:235-246 | events of one key come out in the order they came in, for every list and key |
| `EventDigest.SortedKeysAgree` | backend/attest/digest.go:235-246 | two sorted arrangements of the same events have the same sequence and id at every place |
| `EventDigest.Compute` | backend/attest/digest.go:223-263 | nils are dropped, nothing left is an error, and the digest holds the tree hash, count and hex leaf hashes in canonical order |
| `EventDigest.NonNilMeans` | backend/attest/digest.go:224-234 | what is kept is every event that is not nil, in the order given |
| `EventDigest.DigestSays` | backend/attest/digest.go:223-263 | the digest field by field; an error exactly when no event is left |
| `EventDigest.OrderIndependence` | backend/attest/digest.go:217-263 | any retrieval order of the same events, nils anywhere, gives the same digest when sequence and id tell them apart |
| `EventDigest.OrderIndependenceExactly` | backend/attest/digest.go:217-263 | for every list, all orders of its events give one digest exactly when any two events sharing sequence and id have one leaf hash |
| `EventDigest.Prove` | backend/attest/digest.go:280-293 | the proof for an index of a published digest, with the errors of the path walk |
| `EventDigest.ProofSays` | backend/attest/digest.go:280-293 | the proof built carries the index asked for, the hash at that index, the digest's own size and root |
| `EventDigest.ProofRoundTrip` | backend/attest/digest.go:223-422 | every event of every computed digest can be proved and its proof is accepted |
| `EventDigest.ComputeForChain` | backend/attest/digest.go:136-164 | only an execution without events gets the event-less digest, and only if it has an id |
| `EventDigest.ChainDigestSays` | backend/attest/digest.go:136-164 | refused exactly for an execution with neither events nor an id; an event-less one hashes its own domain, a zero byte and the id |
| `EventDigest.ChainRootBinding` | backend/attest/digest.go:136-164 | a chain digest's root tells event-less executions from others, fixes the id of one and every canonical leaf of the other, or there is a collision |
| `Domains.RecordsDiffer` | backend/attest/checkpoint.go:72-94 | an event, a tenant leaf and a checkpoint never have the same record, whatever their fields |
| `Domains.PreimagesDiffer` | backend/attest/digest.go:153-156 | leaf, node and event-less strings never coincide |
| `Domains.HashesDiffer` | backend/attest/checkpoint.go:72-94 | no hash of one kind passes for another kind's, or there is a collision |
| `Checkpoints.LeafRecordInjective` | backend/attest/checkpoint.go:324-338 | two tenant leaves with one preimage are equal in every field |
| `Checkpoints.CheckpointRecordInjective` | backend/attest/checkpoint.go:340-360 | two checkpoints with one preimage agree on every field but the hash, times to the microsecond |
| `Checkpoints.TenantLeafBinding` | backend/attest/checkpoint.go:324-338 | a tenant leaf's hash fixes the leaf, or there is a collision |
| `Checkpoints.CheckpointBinding` | backend/attest/checkpoint.go:340-360 | a checkpoint's hash fixes all it covers, or there is a collision |
| `Checkpoints.FoldLeaves` | backend/attest/checkpoint.go:471-504 | stops at the first defective leaf; otherwise the digests in order and the 64-bit sum of the counts |
| `Checkpoints.BuildCheckpoint` | backend/attest/checkpoint.go:404-536 | the first refusal in the source's order, or the sealed successor: number, links, root, total and truncated clock |
| `Checkpoints.VerifyChain` | backend/attest/checkpoint.go:551-659 | accepts exactly the valid chains; otherwise the first complaint about the first bad checkpoint |
| `Checkpoints.PassesIffValid` | backend/attest/checkpoint.go:551-659 | the ordered checks together ask for a chain of sound checkpoints, each following the one before, and nothing else |
| `Refusals.ChainRefusals` | backend/attest/checkpoint.go:551-659 | the error is that of the first demand not met, in the order the checks are made, of the first checkpoint that falls short |
| `Refusals.BuildRefusals` | backend/attest/checkpoint.go:404-504 | a build is refused with the error of the first demand not met: the header's in order, then leaf by leaf |
| `Refusals.BuiltSays` | backend/attest/checkpoint.go:459-536 | what is built, field by field |
| `Refusals.AddedMeans` | backend/attest/checkpoint.go:471-504 | the count added is the sum of the leaves' counts modulo 2^64 |
| `ChainProperties.SubWindow` | backend/attest/checkpoint.go:616-632 | every contiguous window of an accepted chain is accepted |
| `ChainProperties.Concatenation` | backend/attest/checkpoint.go:616-657 | two accepted windows join into one exactly when the second's first follows the first's last |
| `ChainProperties.Numbering` | backend/attest/checkpoint.go:579-638 | sequence numbers are consecutive from at least 1 and never wrap |
| `ChainProperties.ChainTiles` | backend/attest/checkpoint.go:596-651 | checkpoint i starts i intervals after the first and lasts one interval |
| `ChainProperties.TilingExactly` | backend/attest/checkpoint.go:596-603 | all accepted chains of an interval tile exactly when the interval is below the longest duration, where Sub saturates |
| `ChainProperties.OneSlotPerInstant` | backend/attest/checkpoint.go:267-281 | every instant of the period lies in one checkpoint, the one its place on the clock's grid names |
| `ChainProperties.ChainBinding` | backend/attest/checkpoint.go:538-659 | of two accepted chains with one last hash, whatever intervals they were checked against, the shorter is a suffix of the longer on all hashed fields, or there is a collision; one reaching back to number 1 has no longer companion |
| `ChainProperties.ExtractChainCollision` | backend/attest/checkpoint.go:538-659 | from two accepted chains that end in one hash and disagree further back, computes two strings with one hash |
| `ChainProperties.BuiltExactly` | backend/attest/checkpoint.go:404-504 | a build succeeds exactly for one aligned interval of well-formed leaves on an untampered, published predecessor that it adjoins |
| `ChainProperties.BuiltIsSound` | backend/attest/checkpoint.go:459-536 | what is built passes every check made of one checkpoint unless its number wrapped to 0, and continues its predecessor |
| `ChainProperties.BuiltExtends` | backend/attest/checkpoint.go:459-536 | building on an accepted window keeps it accepted exactly when neither number nor total overflows 64 bits |
| `ChainProperties.BuilderOverflows` | backend/attest/checkpoint.go:459-526 | both overflows happen: on an accepted window with the last number, and on one with a full total, a build succeeds and the result is refused |
| `ChainProperties.NextIsBuildable` | backend/attest/checkpoint.go:404-504 | an accepted, published window can always go on: the next interval with well-formed leaves is never refused |
| `ChainProperties.GrownIsValid` | backend/attest/checkpoint.go:404-659 | every chain grown from nothing is accepted, its last number is its length and its total the executions it covers |
| `ChainProperties.IdleChain` | backend/attest/checkpoint.go:388-391 | chains of every length are grown, by empty intervals alone |
| `ChainProperties.HashSurvivesStorage` | backend/attest/checkpoint.go:231-265 | cutting the times to microseconds leaves the hash unchanged |
| `ChainProperties.BuiltOnGrid` | backend/attest/checkpoint.go:517-534 | with an interval of whole microseconds a built checkpoint is already what the database returns |
| `ChainProperties.StorageRoundTrip` | backend/attest/checkpoint.go:231-265 | an accepted chain read back from storage is accepted exactly when the interval is whole microseconds |
| `TenantChain.VerifyIntervalLeaves` | backend/attest/checkpoint.go:679-704 | count first, then the empty root, then the tree hash of the leaves in order |
| `Refusals.LeavesRefusals` | backend/attest/checkpoint.go:679-704 | the error is that of the first demand not met |
| `TenantChain.CommittedOnce` | backend/attest/checkpoint.go:668-704 | two leaf lists accepted for one checkpoint are equal leaf by leaf, or there is a collision |
| `TenantChain.VerifyTenantSubChain` | backend/attest/checkpoint.go:723-759 | accepts exactly the valid sub-chains; otherwise the first complaint about the first bad leaf |
| `Refusals.SubChainRefusals` | backend/attest/checkpoint.go:723-759 | the error is that of the first demand not met, of the first leaf that falls short |
| `TenantChain.SubChainConservation` | backend/attest/checkpoint.go:706-759 | the last total is the first plus every later count, in 64-bit arithmetic |
| `TenantChain.DeletionDetected` | backend/attest/checkpoint.go:706-759 | taking out interior leaves that hold an execution makes the check fail, or there is a collision |
| `TenantChain.LeavesDistinct` | backend/attest/checkpoint.go:144-151 | a sub-chain from its first leaf on repeats no leaf, or there is a collision |
| `TenantChain.RootedDeletionDetected` | backend/attest/checkpoint.go:706-759 | from the first leaf on not even leaves without executions can be taken out, or there is a collision or a leaf hashing to 64 zeros |
| `TenantChain.RootOverExecutionDigests` | backend/attest/checkpoint.go:302-322 | an empty list, then the first digest that is not hex or not 32 bytes, is refused; otherwise the tree hash in the given order |
| `Refusals.FoldRefusals` | backend/attest/checkpoint.go:302-322 | an empty list is refused, then the first digest not 64 hex digits, by what is wrong with it; otherwise the tree hash over all |
| `TenantChain.FoldBinding` | backend/attest/checkpoint.go:283-322 | equally long lists with one fold are the same digests in the same order, or there is a collision |
| `TenantChain.FindLeaf` | backend/attest/interval_proof.go:58-73 | where the project's one leaf is, that it has none, or the first two it has |
| `TenantChain.ProveTenantLeaf` | backend/attest/interval_proof.go:45-92 | refuses leaves the checkpoint did not commit to and a project with none or two; otherwise the proof against its root |
| `Refusals.ProofRefusals` | backend/attest/interval_proof.go:45-92 | refused for the first of four reasons and for no other |
| `Refusals.TenantProofSays` | backend/attest/interval_proof.go:45-92 | the proof built is of the project's own leaf: its index, hash, the number of leaves and the checkpoint's root |
| `TenantChain.VerifyTenantLeafInclusion` | backend/attest/interval_proof.go:104-131 | the first thing wrong with a proof for this leaf under this checkpoint, or nothing |
| `Refusals.InclusionRefusals` | backend/attest/interval_proof.go:104-131 | the error is that of the first of five demands not met |
| `TenantChain.TenantProofComplete` | backend/attest/interval_proof.go:30-131 | a project with one leaf in a committed interval gets a proof that verifies with that leaf |
| `TenantChain.TenantProofSound` | backend/attest/interval_proof.go:94-131 | a leaf that verifies is the committed leaf at the proof's index, or there is a collision; no length condition is left |
| `Export.ExportVerification.Add` | backend/attest/export.go:183-190 | the finding is appended and OK stays the conjunction of all findings |
| `Export.CollectLinks` | backend/attest/export.go:245-320 | the loop collects unpublished hours, wrongly linked hours and the number of matched links, the lists that `ExportReport.PublicationReported` describes |
| `Export.VerifyHour` | backend/attest/export.go:348-410 | at most one finding for an hour: the first thing wrong with its leaf, proof, fold or count, or its success |
| `Export.VerifyHours` | backend/attest/export.go:342-410 | the findings hour by hour, the project's own leaves even where a later check failed, and the quiet hours |
| `Export.VerifyOwnEntries` | backend/attest/export.go:412-475 | the sub-chain's finding, and where in the project's history the export begins, with its limit |
| `Export.VerifyChainExport` | backend/attest/export.go:200-497 | all findings and limits in order, and OK exactly when every finding is |
| `Export.OkMeansClean` | backend/attest/export.go:200-497 | OK exactly for a valid chain, published and linked hour by hour, whose every leaf is the project's, included, folded and counted, and whose sub-chain holds |
| `ExportReport.LinksCounted` | backend/attest/export.go:288-320 | the matched links are as many as hours that follow the one before by number and name its log entry |
| `ExportReport.SkippedMean` | backend/attest/export.go:288-320 | the skipped list holds exactly the numbers of the hours that follow by number and name another entry, in order |
| `ExportReport.PublicationReported` | backend/attest/export.go:245-340 | for any export, the third and fourth findings carry exactly the unpublished hours and the wrongly linked ones, by number and in order, and the number of matched links |
| `ExportReport.CleanPublication` | backend/attest/export.go:245-340 | a clean export of n hours reports n - 1 matched links, none skipped and none unpublished |
| `ExportReport.HourExplained` | backend/attest/export.go:348-410 | a finding on an hour is true of it and all that is checked earlier was in order; none exactly for a quiet hour |
| `ExportReport.ExplainedOnce` | backend/attest/export.go:348-410 | no two findings explain one hour |
| `ExportReport.HoursReported` | backend/attest/export.go:342-410 | the hour findings are one for each hour that is not quiet, in the order of the hours |
| `ExportReport.QuietReported` | backend/attest/export.go:477-484 | the quiet hours are mentioned, with their number, exactly when there are any |
| `ExportReport.OwnLeavesMean` | backend/attest/export.go:342-368 | the leaves put into the sub-chain are those shown under the export's own project, in order |
| `ExportReport.OwnReported` | backend/attest/export.go:412-475 | whether the entries are a sub-chain, how many they are, and whether they start the history, and the limit that goes with it |
| `ExportReport.HeaderReported` | backend/attest/export.go:200-225 | the first thing wrong with the file's header ends the report |
| `ExportReport.ReportShape` | backend/attest/export.go:342-497 | publication, hours, own entries, quiet hours: the findings in this order, and the limits |
| `ExportReport.IntervalMeans` | backend/attest/export.go:225 | the declared seconds in nanoseconds, modulo 2^64 |
| `ExportProperties.RootedTotal` | backend/attest/checkpoint.go:140-142 | a leaf's running total is the executions since the project's first leaf |
| `ExportProperties.PriorIs` | backend/attest/export.go:424-447 | total minus own count is the number of executions before the leaf |
| `ExportProperties.PresentedIsCommitted` | backend/attest/export.go:370-379 | the leaf an hour shows is the one the project has there, or there is a collision |
| `ExportProperties.WindowIsPublished` | backend/attest/export.go:227-340 | an OK export whose last checkpoint has a published hash shows a whole window of the published chain: no checkpoint left out, put in or replaced, none before number 1, or there is a collision |
| `ExportProperties.OmissionDetected` | backend/attest/export.go:412-475 | an OK export that ends with a published checkpoint's hash carries a contiguous run of the project's true sub-chain and, if it skips a beginning, reports exactly the executions skipped, or there is a collision |
| `ExportProperties.NoHiddenHour` | backend/attest/export.go:342-475 | in such an export, between two hours shown with a leaf, an hour is shown as quiet exactly when the project has no leaf behind that checkpoint of the published chain |
| `ExportProperties.ExportQueriesCover` | backend/attest/export.go:200-497 | the computed set holds every string hashed for an export and for what was published |
| `ExportProperties.FindExportCollision` | backend/attest/export.go:200-497 | for any OK export over a published chain, finds a collision or establishes all that the omission results assume |
| `ExportProperties.ExecutionsBound` | backend/attest/export.go:381-405 | an hour's execution list is the one its leaf was folded from, digest by digest, or there is a collision |
| `HonestRun.HourVerifies` | backend/attest/export.go:348-410 | an hour of an honest history passes exactly when it shows no leaf without executions |
| `HonestRun.WindowLeaves` | backend/attest/export.go:342-368 | the leaves a window shows are the project's leaves of exactly its hours |
| `HonestRun.HonestWindowVerifies` | backend/attest/export.go:200-497 | any window exported from an honest history is OK exactly when no leaf in it stands for an hour without executions |
| `HonestRun.IdleHourFails` | backend/attest/checkpoint.go:132-134 | the failing side is real: an honest hour with a first leaf and no executions, whose export is not OK |
| `HonestRun.HonestSetting` | backend/attest/export.go:200-497 | an honest window satisfies every assumption of the omission results but the absence of a collision |
| `Shipper.DeliveryMeans` | sdk-python/mesedi/_shipper.py:357-389 | the first answer that is not transient decides; exhausted after max_retries + 1 transient ones; the worker dies exactly when more than 3 retries are allowed and the first 4 answers are transient |
| `Shipper.SubmissionOutcome` | sdk-python/mesedi/_shipper.py:357-389 | the outcome in terms of the answers and their codes: below 400 delivered, 400 to 499 rejected, a failure or 500 and above tried again |
| `Shipper.TurnMeans` | sdk-python/mesedi/_shipper.py:258-300 | a turn sends and keeps exactly what was pending and then what it took; only an event below the batch size is kept |
| `Shipper.EventShipper.Enqueue` | sdk-python/mesedi/_shipper.py:182-184 | the item joins the end of the queue and nothing already queued, sent or signalled changes |
| `Shipper.EventShipper.SubmitPayload` | sdk-python/mesedi/_shipper.py:182-193 | accepted at the end of the queue exactly when the queue is unbounded or below its bound; otherwise dropped and counted, nothing else changing |
| `Shipper.EventShipper.Flush` | sdk-python/mesedi/_shipper.py:204-219 | a barrier with a signal not yet set exactly when the queue is unbounded or below its bound; otherwise None and nothing changes |
| `Shipper.EventShipper.Shutdown` | sdk-python/mesedi/_shipper.py:221-236 | raises the stop flag, once, and gives up nothing that is queued |
| `Shipper.EventShipper.SendWithRetry` | sdk-python/mesedi/_shipper.py:331-389 | the submission finishes once, with the outcome its answers call for, producers going on meanwhile; or the worker dies with it unfinished |
| `Shipper.EventShipper.Settle` | sdk-python/mesedi/_shipper.py:359-383 | exactly the counter of the outcome goes up and what was in flight becomes finished |
| `Shipper.EventShipper.Dequeue` | sdk-python/mesedi/_shipper.py:258 | takes the oldest item not yet taken |
| `Shipper.EventShipper.AddToBatch` | sdk-python/mesedi/_shipper.py:267-273 | the event goes behind those pending; below the batch size nothing is sent, at it exactly that batch is |
| `Shipper.EventShipper.SetSignal` | sdk-python/mesedi/_shipper.py:274-282 | a signal is set only with everything before its barrier sent |
| `Shipper.EventShipper.TakeOne` | sdk-python/mesedi/_shipper.py:258-300 | one turn takes at most the oldest item and makes exactly the submissions due: a timeout or a barrier sends what is pending, a non-event sends it first and itself after; only a barrier sets a signal, its own |
| `Shipper.EventShipper.RunLoop` | sdk-python/mesedi/_shipper.py:240-304 | over any outside events the invariant holds at every turn; however producers go on, an exit comes with everything accepted before the stop taken and finished, and leaves nothing queued but what arrives during the last submission; a stopped worker left alone gets there in one turn for each queued item and one more |
| `Shipper.EventShipper.FinalFlush` | sdk-python/mesedi/_shipper.py:302-304 | with the queue empty, sending what is pending leaves everything accepted before it finished, in order |
| `Shipper.EventShipper.Conservation` | sdk-python/mesedi/_shipper.py:240-304 | finished, in flight, pending, held and queued, in this order, are what was accepted in that order; offered is accepted plus dropped; delivered, rejected and exhausted add up to finished |
| `Shipper.EventShipper.FlushMeans` | sdk-python/mesedi/_shipper.py:204-219 | a set signal means everything accepted before its barrier has finished sending |
| `HaltStream.TwoReplacesNormalize` | sdk-typescript/src/halt_stream.ts:175-178 | the two replaces are one pass in which CR LF, CR and LF each end one line, and leave no CR |
| `HaltStream.NormalizeAcrossCut` | sdk-typescript/src/halt_stream.ts:174-178 | a cut changes the normalised text exactly when it falls inside a CR LF, by one line end too many |
| `HaltStream.CarryOver` | sdk-typescript/src/halt_stream.ts:179-182 | holding back the partial line and splitting it with what follows yields the lines of the whole text |
| `HaltStream.SplitJoins` | sdk-typescript/src/halt_stream.ts:179-182 | the lines joined again by LF are the text, and no line holds an LF |
| `HaltStream.EventLineNames` | sdk-typescript/src/halt_stream.ts:200-201 | an event line names a halt with any white space around the word; one with nothing but white space names a message |
| `CodeUnits.TrimMeans` | sdk-typescript/src/halt_stream.ts:201 | what is trimmed off either end is white space, and what is left starts and ends with something else |
| `CodeUnits.TrimPadded` | sdk-typescript/src/halt_stream.ts:201 | white space around a text that has none at its ends is what trimming removes |
| `HaltStream.DataLineHolds` | sdk-typescript/src/halt_stream.ts:202-205 | a data line holds what follows the colon without one leading space |
| `HaltStream.OtherLineIgnored` | sdk-typescript/src/halt_stream.ts:196-206 | a comment, or a line that is neither field, changes nothing in its block |
| `HaltStream.PayloadStep` | sdk-typescript/src/halt_stream.ts:188-205 | several data lines are dispatched one to a line |
| `HaltStream.FirstHaltIsFirst` | sdk-typescript/src/halt_stream.ts:186-194 | what is dispatched comes from a halt block with no halt block before it, and nothing is when there is none |
| `HaltStream.HaltStreamReader.ConsumeLines` | sdk-typescript/src/halt_stream.ts:184-207 | the loop over lines, with its two variables, finds the first blank-terminated block whose last event line is halt and that has data |
| `HaltStream.HaltStreamReader.Run` | sdk-typescript/src/halt_stream.ts:162-218 | reading chunk by chunk until the end, a failure or a stop, the callback gets what one pass over the pieces dispatches, and at most once |
| `HaltStream.ChunksAreThePrefix` | sdk-typescript/src/halt_stream.ts:162-173 | the chunks read are all the reads before the first that is no chunk or finds the reader stopped |
| `HaltStream.CallsMade` | sdk-typescript/src/halt_stream.ts:219-243 | one call for a dispatch, with the reason found in it or the generic one, and none otherwise |
| `HaltStream.HaltStreamReader.Start` | sdk-typescript/src/halt_stream.ts:91-160 | only the first start reads, and only a 200 answer with a body can lead to a call |
| `HaltStream.HaltStreamReader.Stop` | sdk-typescript/src/halt_stream.ts:103-111 | sets the flag and makes no call |
| `HaltStream.PiecesAreNormalized` | sdk-typescript/src/halt_stream.ts:174-178 | the chunks normalised one by one are the normalised stream exactly when no cut falls between a CR and its LF |
| `HaltStream.DispatchIsOnePass` | sdk-typescript/src/halt_stream.ts:162-208 | the reader dispatches as one pass over the whole normalised stream does when every cut between a CR and its LF is harmless, as when there is none |
| `HaltStream.NoCutIsHarmless` | sdk-typescript/src/halt_stream.ts:162-208 | a stream without such a cut is covered |
| `HaltStream.ServerFrameDispatched` | backend/internal/api/halt_subscribers.go:236 | the frame the server writes, cut into chunks anywhere, dispatches its payload |
| `HaltStream.ExtraBlankLine` | sdk-typescript/src/halt_stream.ts:184-207 | a blank line more goes unnoticed, whatever lines follow, exactly where a halt is found already or the open block has no data and is not a halt |
| `HaltStream.CutExactly` | sdk-typescript/src/halt_stream.ts:162-208 | a cut between a CR and its LF goes unnoticed, whatever text follows, exactly at such a place |
| `HaltStream.HarmlessCutsExactly` | sdk-typescript/src/halt_stream.ts:162-208 | of any number of cuts, all are harmless exactly when each goes unnoticed whatever text follows it |
| `HaltStream.ChunkIndependence` | sdk-typescript/src/halt_stream.ts:162-208 | two ways of cutting one stream, with harmless cuts only, dispatch the same |
| `HaltStream.DispatchStays` | sdk-typescript/src/halt_stream.ts:188-191 | what has been dispatched is not changed by later chunks |
| `HaltStream.TailIsIgnored` | sdk-typescript/src/halt_stream.ts:180-182 | text that ends no line is never dispatched |
| `HaltStream.CutInCrLfLosesHalt` | sdk-typescript/src/halt_stream.ts:175-178 | every halt frame with CR LF line ends that is dispatched whole is lost when cut inside the line end of its event line |
| `HaltStream.CutInCrLfRaisesHalt` | sdk-typescript/src/halt_stream.ts:175-178 | a block that renames its event after its data dispatches nothing whole, and its data when cut inside the line end of the data line |
| `Jcs.SortKeysSorts` | sdk-typescript/src/jcs.ts:36 | distinct keys come out ascending by code units, none lost or added |
| `Jcs.BeforeIsLexicographic` | sdk-typescript/src/jcs.ts:36 | a proper prefix comes first, and otherwise the first unit that differs decides |
| `Jcs.CanonicalizePrintsNormal` | sdk-typescript/src/jcs.ts:24-41 | the text is the plain printing of the value with members sorted at every depth; it throws exactly when something in the value cannot be serialised |
| `Jcs.StringBack` | sdk-typescript/src/jcs.ts:25-30 | reading an escaped string gives back its code units, lone surrogates included, and leaves what follows |
| `Jcs.EscapeIsClean` | sdk-typescript/src/jcs.ts:25-30 | what is written between the quotes holds no control unit and no unpaired surrogate |
| `Jcs.EscapeIsShortest` | sdk-typescript/src/jcs.ts:7-13 | minimal escaping: of all such texts that read as a string, the one written is the shortest |
| `Jcs.EscapesAreLowerCase` | sdk-typescript/src/jcs.ts:25-30 | an escape that needs four digits has them in lower case, so one spelling is left |
| `Jcs.EscapesSpelled` | sdk-typescript/src/jcs.ts:25-30 | the seven short escapes and which unit each stands for; four digits, high one first, for the rest; none for a surrogate pair |
| `Jcs.DigitsBack` | sdk-typescript/src/jcs.ts:25-30 | reading printed digits gives back the number and goes on behind them |
| `Jcs.DigitsAreShortest` | sdk-typescript/src/jcs.ts:25-30 | a number has no leading zero, and a sign only below zero |
| `Jcs.NumbersSpelled` | sdk-typescript/src/jcs.ts:25-30 | digits from the most significant down, behind the sign |
| `Jcs.PrintBack` | sdk-typescript/src/jcs.ts:24-41 | parsing a printed value gives the value back and leaves what follows it |
| `Jcs.CanonicalParsesBack` | sdk-typescript/src/jcs.ts:24-41 | parsing the canonical text gives the value with its members sorted, to the last character |
| `Jcs.SampleText` | sdk-typescript/src/jcs.ts:24-41 | the text of one schema to the last character: no white space, members sorted, the short escape of a line feed |
| `Jcs.SameIsNormal` | sdk-typescript/src/jcs.ts:35-40 | two values are equal up to member order at every depth exactly when sorting makes them equal |
| `Jcs.FaithfulKey` | sdk-typescript/src/jcs.ts:24-41 | two serialisable values have one canonical text exactly when they are equal up to member order at every depth |
| `Jcs.NoPhantomDrift` | sdk-typescript/src/jcs.ts:49-60 | schemas equal up to member order hash alike, and schemas that hash alike are equal up to it or are two texts with one hash |
| `Jcs.HashOmittedExactly` | sdk-typescript/src/jcs.ts:49-60 | the hash is left out for null and for what cannot be serialised, and for nothing else |
| `Budgets.BudgetTracker.IncrementSteps` | sdk-python/mesedi/halt.py:117-119 | only the step count changes, by n |
| `Budgets.BudgetTracker.AddTokens` | sdk-python/mesedi/halt.py:121-124 | only the token totals change, each by its own amount |
| `Budgets.BudgetTracker.SignalRemoteHalt` | sdk-python/mesedi/halt.py:136-150 | the last reason wins, an empty one is replaced, the totals stay |
| `Budgets.BudgetTracker.CheckOrHalt` | sdk-python/mesedi/halt.py:152-210 | a pending halt is raised and cleared before any budget is looked at; one signalled between the two locked sections stays pending; otherwise it passes exactly when elapsed time, steps, input and output tokens are each below the limit set for them, and names the first that is not |
| `Budgets.StepKeepsBudget` | sdk-python/mesedi/halt.py:117-198 | every locked section of every thread keeps counted plus cleared steps within the bound |
| `Budgets.StepsBounded` | sdk-python/mesedi/tool.py:318-355 | no interleaving of k threads counts more than max_steps + k - 1 steps, and none at all when the limit is not positive |
| `Budgets.BoundIsMet` | sdk-python/mesedi/tool.py:318-355 | the bound is exact: for every limit and every k some interleaving counts that many |
| `Budgets.NoLaterPass` | sdk-python/mesedi/halt.py:152-210 | once a token total has reached its limit and only non-negative numbers are added, no later check of any thread passes |
| `Budgets.RaisedExactlyOnce` | sdk-python/mesedi/halt.py:136-177 | the first check to look after a signal raises, with the last reason signalled before it, and no look after that does until the next signal |
| `Budgets.NotLost` | sdk-python/mesedi/halt.py:136-177 | a halt is pending exactly when the last thing that happened to the flag was a signal, with that signal's reason |

## Left out

- SHA-256 itself: `H` is any function into 32 bytes.
- Transparency log entries, `LedgerBackend`, `LeafPreimage`, `AnchorProof`, `GeneratedAt` and signatures: the offline check reads none of them.
- Report and error prose (`Detail`, `short`, `plural`, wrapped messages): findings and errors are constructors with the numbers they carry.
- Go time zones and monotonic readings: every use goes through UTC instants.
- `sort.SliceStable`: modelled as an in-place insertion sort, which has the same result; Go's block-wise algorithm is not part of this model.
- A nil event given to `CanonicalLeaf`, and hex errors on strings the package itself just encoded: unreachable from the modelled callers.
- `ExportProperties.OmissionDetected`: leaves and checkpoints after the one the export ends with are outside the claim; nothing in it names a successor.
- HTTP, TextDecoder, JSON.parse of the halt payload, connect timeouts and console output: chunks arrive decoded, and the reason found in a payload is a parameter.
- The shipper's clock: a timed-out `get` is a turn that finds the queue empty; waits between retries, compression, payload truncation, serialisation errors, logging, the join timeout and the loop's branch for an unknown item kind are not modelled.
- The shipper's threads: producers' calls arrive at the points between two of the worker's steps, in any number and order; the unlocked drop counter's lost updates under the Python interpreter are not modelled.
- JSON numbers that are not safe integers, NaN, sparse arrays and objects with `toJSON`: not values of the model; equal output with the Python SDK is not claimed.
- UTF-8 encoding of the canonical text before hashing: the hash is any function of the text.
- `snapshot()` and the floating-point formatting of halt reasons; elapsed time is a real number.
- The TypeScript shipper, truncation, compression, provider integrations, error classifiers, migrations and scripts.
