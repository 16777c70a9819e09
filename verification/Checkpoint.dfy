/** Tenant leaves, checkpoints, their hashes, the builder of the next checkpoint and the chain verifier. */
module Checkpoints {
  import opened Wrappers
  import opened GoBytes
  import opened GoTime
  import opened Hashing
  import opened Encoding
  import opened MerkleTree
  import opened Inclusion

  const TWO64 := 0x1_0000_0000_0000_0000

  /** uint64 and Go's int, both 64 bits wide. */
  type U64 = x: int | 0 <= x < TWO64
  type I64 = x: int | -0x8000_0000_0000_0000 <= x <= 0x7fff_ffff_ffff_ffff

  function Wrap(x: int): U64 {
    x % TWO64
  }

  datatype TenantLeaf = TenantLeaf(
    projectId: Bytes, intervalRoot: Bytes, executionCount: I64, cumulativeCount: U64, prevLeafHash: Bytes)

  datatype Checkpoint = Checkpoint(
    format: Bytes, seqNo: U64, prevCheckpointHash: Bytes, prevLogEntryId: Bytes, intervalStart: Time,
    intervalEnd: Time, tenantLeafCount: I64, merkleRoot: Bytes, cumulativeCount: U64, createdAt: Time, hash: Bytes)

  function FormatCurrent(): Bytes {
    Text("mesedi.checkpoint.v2")
  }

  function CheckpointDomain(): Bytes {
    Text("mesedi.checkpoint.v1")
  }

  function TenantLeafDomain(): Bytes {
    Text("mesedi.checkpoint.tenant-leaf.v1")
  }

  /** 64 hex zeros. */
  function ZeroHash(): Bytes {
    Text("0000000000000000000000000000000000000000000000000000000000000000")
  }

  /** The one time encoding that is hashed: truncated to what every backend stores. */
  function CanonicalTime(t: Time): Bytes {
    TimeText(Truncate(t, MICROSECOND))
  }

  predicate AlignedTo(t: Time, d: Duration) {
    Truncate(t, d) == t
  }

  // ----- hashed records

  function LeafLabels(): seq<string> {
    ["domain", "project_id", "interval_root", "execution_count", "cumulative_count", "prev_leaf_hash"]
  }

  function LeafValues(l: TenantLeaf): (v: seq<Bytes>)
    ensures |v| == |LeafLabels()|
  {
    [TenantLeafDomain(), l.projectId, l.intervalRoot, Itoa(l.executionCount), Itoa(l.cumulativeCount),
     l.prevLeafHash]
  }

  function LeafRecord(l: TenantLeaf): Bytes {
    Fields(LeafLabels(), LeafValues(l))
  }

  function TenantLeafHash(H: HashFn, l: TenantLeaf): Bytes {
    HexEncode(LeafHash(H, LeafRecord(l)))
  }

  function CheckpointLabels(): seq<string> {
    ["domain", "format", "seq", "prev_checkpoint_hash", "prev_log_entry_id",
    "interval_start", "interval_end", "tenant_leaf_count", "merkle_root", "cumulative_count", "created_at_unattested"]
  }

  function CheckpointValues(c: Checkpoint): (v: seq<Bytes>)
    ensures |v| == |CheckpointLabels()|
  {
    [CheckpointDomain(), c.format, Itoa(c.seqNo), c.prevCheckpointHash, c.prevLogEntryId,
     CanonicalTime(c.intervalStart), CanonicalTime(c.intervalEnd), Itoa(c.tenantLeafCount), c.merkleRoot,
     Itoa(c.cumulativeCount), CanonicalTime(c.createdAt)]
  }

  function CheckpointRecord(c: Checkpoint): Bytes {
    Fields(CheckpointLabels(), CheckpointValues(c))
  }

  function CheckpointHash(H: HashFn, c: Checkpoint): Bytes {
    HexEncode(LeafHash(H, CheckpointRecord(c)))
  }

  /** A checkpoint as a database hands it back: every time cut to microseconds. */
  function Stored(c: Checkpoint): Checkpoint {
    Checkpoint(c.format, c.seqNo, c.prevCheckpointHash, c.prevLogEntryId, Truncate(c.intervalStart, MICROSECOND),
               Truncate(c.intervalEnd, MICROSECOND), c.tenantLeafCount, c.merkleRoot, c.cumulativeCount,
               Truncate(c.createdAt, MICROSECOND), c.hash)
  }

  lemma LeafRecordInjective(a: TenantLeaf, b: TenantLeaf)
    requires LeafRecord(a) == LeafRecord(b)
    ensures a == b
  {
    var v, w := LeafValues(a), LeafValues(b);
    FieldsInjective(LeafLabels(), v, w);
    assert v[1] == w[1] && v[2] == w[2] && v[3] == w[3] && v[4] == w[4] && v[5] == w[5];
    ItoaInjective(a.executionCount, b.executionCount);
    ItoaInjective(a.cumulativeCount, b.cumulativeCount);
  }

  /** Equal records are records of checkpoints that agree on every field but the hash, times to the microsecond. */
  lemma CheckpointRecordInjective(a: Checkpoint, b: Checkpoint)
    requires CheckpointRecord(a) == CheckpointRecord(b)
    ensures Stored(a) == Stored(b).(hash := a.hash)
  {
    var v, w := CheckpointValues(a), CheckpointValues(b);
    FieldsInjective(CheckpointLabels(), v, w);
    assert v[1] == w[1] && v[2] == w[2] && v[3] == w[3] && v[4] == w[4] && v[5] == w[5];
    assert v[6] == w[6] && v[7] == w[7] && v[8] == w[8] && v[9] == w[9] && v[10] == w[10];
    ItoaInjective(a.seqNo, b.seqNo);
    ItoaInjective(a.tenantLeafCount, b.tenantLeafCount);
    ItoaInjective(a.cumulativeCount, b.cumulativeCount);
    TimeTextInjective(Truncate(a.intervalStart, MICROSECOND), Truncate(b.intervalStart, MICROSECOND));
    TimeTextInjective(Truncate(a.intervalEnd, MICROSECOND), Truncate(b.intervalEnd, MICROSECOND));
    TimeTextInjective(Truncate(a.createdAt, MICROSECOND), Truncate(b.createdAt, MICROSECOND));
  }

  lemma TenantLeafBinding(H: HashFn, hashed: set<Bytes>, a: TenantLeaf, b: TenantLeaf)
    requires CollisionFree(H, hashed)
    requires LeafPreimage(LeafRecord(a)) in hashed && LeafPreimage(LeafRecord(b)) in hashed
    requires TenantLeafHash(H, a) == TenantLeafHash(H, b)
    ensures a == b
  {
    HexInjective(LeafHash(H, LeafRecord(a)), LeafHash(H, LeafRecord(b)));
    LeafBinding(H, hashed, LeafRecord(a), LeafRecord(b));
    LeafRecordInjective(a, b);
  }

  lemma CheckpointBinding(H: HashFn, hashed: set<Bytes>, a: Checkpoint, b: Checkpoint)
    requires CollisionFree(H, hashed)
    requires LeafPreimage(CheckpointRecord(a)) in hashed && LeafPreimage(CheckpointRecord(b)) in hashed
    requires CheckpointHash(H, a) == CheckpointHash(H, b)
    ensures Stored(a) == Stored(b).(hash := a.hash)
  {
    HexInjective(LeafHash(H, CheckpointRecord(a)), LeafHash(H, CheckpointRecord(b)));
    LeafBinding(H, hashed, CheckpointRecord(a), CheckpointRecord(b));
    CheckpointRecordInjective(a, b);
  }

  // ----- building the next checkpoint

  datatype CheckpointParams = CheckpointParams(
    prev: Option<Checkpoint>, prevLogEntryId: Bytes, intervalStart: Time, intervalEnd: Time, interval: Duration,
    leaves: seq<TenantLeaf>, now: Time)

  datatype BuildError =
    | IntervalNotPositive | EndNotAfterStart | WrongSpan | Misaligned | PrevHashMismatch | NoPrevLogEntry
    | NotContiguous | GenesisWithLogEntry
    | LeafWithoutProject(at: nat) | LeafWithoutPrevHash(at: nat) | NegativeCount(at: nat) | RootCountMismatch(at: nat)

  function HeaderDefect(H: HashFn, p: CheckpointParams): Option<BuildError> {
    if p.interval <= 0 then Some(IntervalNotPositive)
    else if p.intervalEnd <= p.intervalStart then Some(EndNotAfterStart)
    else if Sub(p.intervalEnd, p.intervalStart) != p.interval then Some(WrongSpan)
    else if !AlignedTo(p.intervalStart, p.interval) then Some(Misaligned)
    else match p.prev
      case None => if p.prevLogEntryId != [] then Some(GenesisWithLogEntry) else None
      case Some(prev) =>
        if CheckpointHash(H, prev) != prev.hash then Some(PrevHashMismatch)
        else if p.prevLogEntryId == [] then Some(NoPrevLogEntry)
        else if p.intervalStart != prev.intervalEnd then Some(NotContiguous)
        else None
  }

  function LeafDefect(l: TenantLeaf, at: nat): Option<BuildError> {
    if l.projectId == [] then Some(LeafWithoutProject(at))
    else if l.prevLeafHash == [] then Some(LeafWithoutPrevHash(at))
    else if l.executionCount < 0 then Some(NegativeCount(at))
    else if (l.executionCount == 0) != (l.intervalRoot == []) then Some(RootCountMismatch(at))
    else None
  }

  function FirstLeafDefect(leaves: seq<TenantLeaf>): Option<BuildError> {
    if leaves == [] then None
    else
      var before := FirstLeafDefect(leaves[..|leaves| - 1]);
      if before.Some? then before else LeafDefect(leaves[|leaves| - 1], |leaves| - 1)
  }

  /** The uint64 sum of the leaves' execution counts. */
  function Added(leaves: seq<TenantLeaf>): U64 {
    if leaves == [] then 0 else Wrap(Added(leaves[..|leaves| - 1]) + Wrap(leaves[|leaves| - 1].executionCount))
  }

  /** The same sum without the 64-bit limit. */
  function Executions(leaves: seq<TenantLeaf>): int {
    if leaves == [] then 0 else Executions(leaves[..|leaves| - 1]) + leaves[|leaves| - 1].executionCount
  }

  function LeafRecords(leaves: seq<TenantLeaf>): (data: seq<Bytes>)
    ensures |data| == |leaves|
  {
    seq(|leaves|, i requires 0 <= i < |leaves| => LeafRecord(leaves[i]))
  }

  /** The digests the interval tree is built over. */
  function LeafDigests(H: HashFn, leaves: seq<TenantLeaf>): (d: seq<Bytes>)
    ensures |d| == |leaves|
  {
    LeafHashes(H, LeafRecords(leaves))
  }

  /** Empty for an empty interval, never the empty-tree root. */
  function IntervalRoot(H: HashFn, leaves: seq<TenantLeaf>): Bytes {
    if leaves == [] then [] else HexEncode(Mth(H, LeafDigests(H, leaves)))
  }

  function NextSeqNo(prev: Option<Checkpoint>): U64 {
    match prev case None => 1 case Some(c) => Wrap(c.seqNo + 1)
  }

  function PrevHash(prev: Option<Checkpoint>): Bytes {
    match prev case None => ZeroHash() case Some(c) => c.hash
  }

  function Baseline(prev: Option<Checkpoint>): U64 {
    match prev case None => 0 case Some(c) => c.cumulativeCount
  }

  /** The next checkpoint before its own hash is filled in. */
  function Unsealed(H: HashFn, p: CheckpointParams, clock: Time): Checkpoint
    requires |p.leaves| <= MAX_DURATION
  {
    Checkpoint(
      FormatCurrent(), NextSeqNo(p.prev), PrevHash(p.prev), p.prevLogEntryId, p.intervalStart, p.intervalEnd,
      |p.leaves|, IntervalRoot(H, p.leaves), Wrap(Baseline(p.prev) + Added(p.leaves)),
      Truncate(if p.now == 0 then clock else p.now, MICROSECOND), [])
  }

  function Seal(H: HashFn, c: Checkpoint): Checkpoint {
    c.(hash := CheckpointHash(H, c))
  }

  function Built(H: HashFn, p: CheckpointParams, clock: Time): Result<Checkpoint, BuildError>
    requires |p.leaves| <= MAX_DURATION
  {
    match HeaderDefect(H, p)
    case Some(e) => Err(e)
    case None =>
      match FirstLeafDefect(p.leaves)
      case Some(e) => Err(e)
      case None => Ok(Seal(H, Unsealed(H, p, clock)))
  }

  /** `clock` is what time.Now() would return; a slice has at most 2^63 - 1 elements. */
  method BuildCheckpoint(H: HashFn, p: CheckpointParams, clock: Time) returns (r: Result<Checkpoint, BuildError>)
    requires |p.leaves| <= MAX_DURATION
    ensures r == Built(H, p, clock)
  {
    hide CheckpointHash;
    hide LeafRecord;
    var defect := HeaderDefect(H, p);
    if defect.Some? {
      return Err(defect.value);
    }
    var folded := FoldLeaves(H, p.leaves);
    if folded.Err? {
      return Err(folded.error);
    }
    var root := RootText(H, folded.value.0);
    var now := if p.now == 0 then clock else p.now;
    var c := Checkpoint(
      FormatCurrent(), NextSeqNo(p.prev), PrevHash(p.prev), p.prevLogEntryId, p.intervalStart, p.intervalEnd,
      |p.leaves|, root, Wrap(Baseline(p.prev) + folded.value.1), Truncate(now, MICROSECOND), []);
    r := Ok(Seal(H, c));
  }

  method RootText(H: HashFn, digests: seq<Bytes>) returns (root: Bytes)
    ensures root == if digests == [] then [] else HexEncode(Mth(H, digests))
  {
    root := [];
    if |digests| > 0 {
      var digest := RootFromLeafHashes(H, digests);
      root := HexEncode(digest);
    }
  }

  lemma LeafDigestAt(H: HashFn, leaves: seq<TenantLeaf>, i: nat)
    requires i < |leaves|
    ensures HexDecode(TenantLeafHash(H, leaves[i])) == Some(LeafDigests(H, leaves)[i])
  {
    hide LeafRecord;
    HexRoundTrip(LeafHash(H, LeafRecord(leaves[i])));
  }

  /** The leaf loop: refuse the first defective leaf, collect the digests, add up the counts. */
  method FoldLeaves(H: HashFn, leaves: seq<TenantLeaf>) returns (r: Result<(seq<Bytes>, U64), BuildError>)
    ensures FirstLeafDefect(leaves).Some? ==> r == Err(FirstLeafDefect(leaves).value)
    ensures FirstLeafDefect(leaves).None? ==> r == Ok((LeafDigests(H, leaves), Added(leaves)))
  {
    hide TenantLeafHash, LeafDigests, LeafDefect;
    var leafHashes: seq<Bytes>, added: U64 := [], 0;
    for i := 0 to |leaves|
      invariant FirstLeafDefect(leaves[..i]) == None
      invariant |leafHashes| == i && forall j :: 0 <= j < i ==> leafHashes[j] == LeafDigests(H, leaves)[j]
      invariant added == Added(leaves[..i])
    {
      assert leaves[..i + 1][..i] == leaves[..i];
      var defect := LeafDefect(leaves[i], i);
      if defect.Some? {
        DefectPersists(leaves, i + 1);
        return Err(defect.value);
      }
      LeafDigestAt(H, leaves, i);
      leafHashes := leafHashes + [HexDecode(TenantLeafHash(H, leaves[i])).value];
      added := Wrap(added + Wrap(leaves[i].executionCount));
    }
    assert leaves[..|leaves|] == leaves;
    assert leafHashes == LeafDigests(H, leaves);
    r := Ok((leafHashes, added));
  }

  lemma {:induction false} DefectPersists(leaves: seq<TenantLeaf>, n: nat)
    requires n <= |leaves| && FirstLeafDefect(leaves[..n]).Some?
    ensures FirstLeafDefect(leaves) == FirstLeafDefect(leaves[..n])
  {
    if n < |leaves| {
      var init := leaves[..|leaves| - 1];
      assert init[..n] == leaves[..n];
      DefectPersists(init, n);
    } else {
      assert leaves[..n] == leaves;
    }
  }

  // ----- verifying a chain

  datatype ChainError =
    | ChainEmpty | ChainIntervalNotPositive
    | ChainFormat(at: nat) | ChainSequence(at: nat) | ChainHashMismatch(at: nat) | ChainEmptyRootMismatch(at: nat)
    | ChainInterval(at: nat) | ChainGenesis(at: nat) | ChainPrevHash(at: nat) | ChainCountRegressed(at: nat)

  /** What VerifyChain asks of one checkpoint on its own. */
  ghost predicate Sound(H: HashFn, c: Checkpoint, interval: Duration) {
    && c.format == FormatCurrent()
    && c.seqNo >= 1
    && c.hash == CheckpointHash(H, c)
    && (c.tenantLeafCount == 0 <==> c.merkleRoot == [])
    && c.intervalStart < c.intervalEnd
    && Sub(c.intervalEnd, c.intervalStart) == interval
    && AlignedTo(c.intervalStart, interval)
  }

  /** Only a checkpoint numbered 1 must look like genesis; any other may open a window. */
  ghost predicate Opens(c: Checkpoint) {
    c.seqNo == 1 ==> c.prevCheckpointHash == ZeroHash() && c.prevLogEntryId == []
  }

  ghost predicate Follows(c: Checkpoint, prev: Checkpoint) {
    && c.seqNo == Wrap(prev.seqNo + 1)
    && c.prevCheckpointHash == prev.hash
    && c.prevLogEntryId != []
    && c.intervalStart == prev.intervalEnd
    && prev.cumulativeCount <= c.cumulativeCount
  }

  ghost predicate ValidChain(H: HashFn, cps: seq<Checkpoint>, interval: Duration) {
    && cps != [] && interval > 0
    && (forall i :: 0 <= i < |cps| ==> Sound(H, cps[i], interval))
    && Opens(cps[0])
    && forall i :: 0 < i < |cps| ==> Follows(cps[i], cps[i - 1])
  }

  /** The first complaint about checkpoint i, in the order the checks are made. */
  function Complaint(H: HashFn, cps: seq<Checkpoint>, interval: Duration, i: nat): Option<ChainError>
    requires i < |cps|
  {
    var c := cps[i];
    if c.format != FormatCurrent() then Some(ChainFormat(i))
    else if c.seqNo < 1 then Some(ChainSequence(i))
    else if CheckpointHash(H, c) != c.hash then Some(ChainHashMismatch(i))
    else if (c.tenantLeafCount == 0) != (c.merkleRoot == []) then Some(ChainEmptyRootMismatch(i))
    else if c.intervalEnd <= c.intervalStart then Some(ChainInterval(i))
    else if Sub(c.intervalEnd, c.intervalStart) != interval then Some(ChainInterval(i))
    else if !AlignedTo(c.intervalStart, interval) then Some(ChainInterval(i))
    else if i == 0 then
      if c.seqNo == 1 && (c.prevCheckpointHash != ZeroHash() || c.prevLogEntryId != []) then Some(ChainGenesis(i))
      else None
    else
      var prev := cps[i - 1];
      if c.seqNo != Wrap(prev.seqNo + 1) then Some(ChainSequence(i))
      else if c.prevCheckpointHash != prev.hash then Some(ChainPrevHash(i))
      else if c.prevLogEntryId == [] then Some(ChainPrevHash(i))
      else if c.intervalStart != prev.intervalEnd then Some(ChainInterval(i))
      else if c.cumulativeCount < prev.cumulativeCount then Some(ChainCountRegressed(i))
      else None
  }

  function FirstComplaint(H: HashFn, cps: seq<Checkpoint>, interval: Duration, i: nat): Option<ChainError>
    requires i <= |cps|
    decreases |cps| - i
  {
    if i == |cps| then None
    else
      var complaint := Complaint(H, cps, interval, i);
      if complaint.Some? then complaint else FirstComplaint(H, cps, interval, i + 1)
  }

  function ChainFailure(H: HashFn, cps: seq<Checkpoint>, interval: Duration): Option<ChainError> {
    if cps == [] then Some(ChainEmpty)
    else if interval <= 0 then Some(ChainIntervalNotPositive)
    else FirstComplaint(H, cps, interval, 0)
  }

  lemma NoComplaint(H: HashFn, cps: seq<Checkpoint>, interval: Duration, i: nat)
    requires i < |cps|
    ensures Complaint(H, cps, interval, i) == None
       <==> Sound(H, cps[i], interval) && if i == 0 then Opens(cps[0]) else Follows(cps[i], cps[i - 1])
  {
    hide CheckpointHash;
    hide AlignedTo;
    hide Sub;
    hide Wrap;
  }

  lemma {:induction false} NoComplaintsFrom(H: HashFn, cps: seq<Checkpoint>, interval: Duration, i: nat)
    requires i <= |cps|
    ensures FirstComplaint(H, cps, interval, i) == None
       <==> forall j :: i <= j < |cps| ==> Complaint(H, cps, interval, j) == None
    decreases |cps| - i
  {
    hide Complaint;
    if i < |cps| {
      NoComplaintsFrom(H, cps, interval, i + 1);
    }
  }

  /** The checks, made one checkpoint after the other, pass exactly on the valid chains. */
  lemma PassesIffValid(H: HashFn, cps: seq<Checkpoint>, interval: Duration)
    ensures ChainFailure(H, cps, interval) == None <==> ValidChain(H, cps, interval)
  {
    hide Complaint;
    hide Sound;
    hide Follows;
    hide Opens;
    NoComplaintsFrom(H, cps, interval, 0);
    if ValidChain(H, cps, interval) {
      forall i | 0 <= i < |cps|
        ensures Complaint(H, cps, interval, i) == None
      {
        NoComplaint(H, cps, interval, i);
      }
    } else if ChainFailure(H, cps, interval) == None {
      NoComplaint(H, cps, interval, 0);
      forall i | 0 <= i < |cps|
        ensures Sound(H, cps[i], interval) && (i > 0 ==> Follows(cps[i], cps[i - 1]))
      {
        NoComplaint(H, cps, interval, i);
      }
    }
  }

  /** Accepts exactly the valid chains; otherwise reports the first complaint about the first bad checkpoint. */
  method VerifyChain(H: HashFn, cps: seq<Checkpoint>, interval: Duration) returns (r: Option<ChainError>)
    ensures r == ChainFailure(H, cps, interval)
    ensures r.None? <==> ValidChain(H, cps, interval)
  {
    hide Complaint;
    hide ValidChain;
    PassesIffValid(H, cps, interval);
    if |cps| == 0 {
      return Some(ChainEmpty);
    }
    if interval <= 0 {
      return Some(ChainIntervalNotPositive);
    }
    for i := 0 to |cps|
      invariant FirstComplaint(H, cps, interval, i) == FirstComplaint(H, cps, interval, 0)
    {
      var complaint := Complaint(H, cps, interval, i);
      if complaint.Some? {
        return complaint;
      }
    }
    r := None;
  }
}
