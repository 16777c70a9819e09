/**
 * Which error each check reports. A check is a list of demands in the order the source makes them; what it reports
 * is the error of the first one not met.
 */
module Refusals {
  import opened Wrappers
  import opened GoBytes
  import opened GoTime
  import opened Hashing
  import opened MerkleTree
  import opened Inclusion
  import opened Checkpoints
  import opened ChainProperties
  import opened TenantChain

  datatype Demand<+E> = Demand(met: bool, error: E)

  ghost predicate FirstUnmet<E>(ds: seq<Demand<E>>, r: Option<E>) {
    && (r.None? <==> forall k :: 0 <= k < |ds| ==> ds[k].met)
    && (r.Some? ==> exists k :: 0 <= k < |ds| && !ds[k].met && ds[k].error == r.value
                             && forall j :: 0 <= j < k ==> ds[j].met)
  }

  /** Demands made one after the other: the first list's error wins. */
  lemma Then<E>(a: seq<Demand<E>>, r: Option<E>, b: seq<Demand<E>>, s: Option<E>)
    requires FirstUnmet(a, r) && FirstUnmet(b, s)
    ensures FirstUnmet(a + b, if r.Some? then r else s)
  {
    var ds := a + b;
    if r.Some? {
      var k :| 0 <= k < |a| && !a[k].met && a[k].error == r.value && forall j :: 0 <= j < k ==> a[j].met;
      assert ds[k] == a[k];
    } else if s.Some? {
      var k :| 0 <= k < |b| && !b[k].met && b[k].error == s.value && forall j :: 0 <= j < k ==> b[j].met;
      assert ds[|a| + k] == b[k];
      assert forall j :: 0 <= j < |a| + k ==> ds[j].met;
    } else {
      assert forall j :: 0 <= j < |ds| ==> ds[j].met;
    }
  }

  lemma NoDemand<E>()
    ensures FirstUnmet<E>([], None)
  {
  }

  // ----- the chain

  function OwnDemands(H: HashFn, c: Checkpoint, interval: Duration, i: nat): seq<Demand<ChainError>> {
    [Demand(c.format == Text("mesedi.checkpoint.v2"), ChainFormat(i)),
     Demand(c.seqNo >= 1, ChainSequence(i)),
     Demand(CheckpointHash(H, c) == c.hash, ChainHashMismatch(i)),
     Demand(c.tenantLeafCount == 0 <==> c.merkleRoot == [], ChainEmptyRootMismatch(i)),
     Demand(c.intervalStart < c.intervalEnd, ChainInterval(i)),
     Demand(Sub(c.intervalEnd, c.intervalStart) == interval, ChainInterval(i)),
     Demand(Truncate(c.intervalStart, interval) == c.intervalStart, ChainInterval(i))]
  }

  function GenesisDemands(c: Checkpoint, i: nat): seq<Demand<ChainError>> {
    [Demand(c.seqNo == 1 ==> c.prevCheckpointHash == ZeroHash(), ChainGenesis(i)),
     Demand(c.seqNo == 1 ==> c.prevLogEntryId == [], ChainGenesis(i))]
  }

  function LinkDemands(c: Checkpoint, prev: Checkpoint, i: nat): seq<Demand<ChainError>> {
    [Demand(c.seqNo == Wrap(prev.seqNo + 1), ChainSequence(i)),
     Demand(c.prevCheckpointHash == prev.hash, ChainPrevHash(i)),
     Demand(c.prevLogEntryId != [], ChainPrevHash(i)),
     Demand(c.intervalStart == prev.intervalEnd, ChainInterval(i)),
     Demand(c.cumulativeCount >= prev.cumulativeCount, ChainCountRegressed(i))]
  }

  function CheckpointDemands(H: HashFn, cps: seq<Checkpoint>, interval: Duration, i: nat): seq<Demand<ChainError>>
    requires i < |cps|
  {
    OwnDemands(H, cps[i], interval, i)
      + if i == 0 then GenesisDemands(cps[i], i) else LinkDemands(cps[i], cps[i - 1], i)
  }

  lemma ComplaintMeans(H: HashFn, cps: seq<Checkpoint>, interval: Duration, i: nat)
    requires i < |cps|
    ensures FirstUnmet(CheckpointDemands(H, cps, interval, i), Complaint(H, cps, interval, i))
  {
    hide CheckpointHash, Sub, Truncate, Text, Wrap, ZeroHash;
    var ds, r := CheckpointDemands(H, cps, interval, i), Complaint(H, cps, interval, i);
    if !ds[0].met { assert ds[0].error == r.value; }
    else if !ds[1].met { assert ds[1].error == r.value; }
    else if !ds[2].met { assert ds[2].error == r.value; }
    else if !ds[3].met { assert ds[3].error == r.value; }
    else if !ds[4].met { assert ds[4].error == r.value; }
    else if !ds[5].met { assert ds[5].error == r.value; }
    else if !ds[6].met { assert ds[6].error == r.value; }
    else if !ds[7].met { assert ds[7].error == r.value; }
    else if !ds[8].met { assert ds[8].error == r.value; }
    else if i > 0 && !ds[9].met { assert ds[9].error == r.value; }
    else if i > 0 && !ds[10].met { assert ds[10].error == r.value; }
    else if i > 0 && !ds[11].met { assert ds[11].error == r.value; }
  }

  /** What each checkpoint must meet, one checkpoint after the other, from the i-th on. */
  function DemandsFrom(H: HashFn, cps: seq<Checkpoint>, interval: Duration, i: nat): seq<Demand<ChainError>>
    requires i <= |cps|
    decreases |cps| - i
  {
    if i == |cps| then [] else CheckpointDemands(H, cps, interval, i) + DemandsFrom(H, cps, interval, i + 1)
  }

  function ChainDemands(H: HashFn, cps: seq<Checkpoint>, interval: Duration): seq<Demand<ChainError>> {
    [Demand(cps != [], ChainEmpty), Demand(interval > 0, ChainIntervalNotPositive)] + DemandsFrom(H, cps, interval, 0)
  }

  lemma {:induction false} ComplaintsMean(H: HashFn, cps: seq<Checkpoint>, interval: Duration, i: nat)
    requires i <= |cps|
    ensures FirstUnmet(DemandsFrom(H, cps, interval, i), FirstComplaint(H, cps, interval, i))
    decreases |cps| - i
  {
    hide FirstUnmet, CheckpointDemands, Complaint;
    if i == |cps| {
      NoDemand<ChainError>();
    } else {
      ComplaintMeans(H, cps, interval, i);
      ComplaintsMean(H, cps, interval, i + 1);
      Then(CheckpointDemands(H, cps, interval, i), Complaint(H, cps, interval, i),
           DemandsFrom(H, cps, interval, i + 1), FirstComplaint(H, cps, interval, i + 1));
    }
  }

  /** VerifyChain reports the first demand not met, of the first checkpoint that does not meet all of its own. */
  lemma ChainRefusals(H: HashFn, cps: seq<Checkpoint>, interval: Duration)
    ensures FirstUnmet(ChainDemands(H, cps, interval), ChainFailure(H, cps, interval))
  {
    hide DemandsFrom, FirstComplaint;
    ComplaintsMean(H, cps, interval, 0);
    var a := [Demand(cps != [], ChainEmpty), Demand(interval > 0, ChainIntervalNotPositive)];
    var r := if !a[0].met then Some(a[0].error) else if !a[1].met then Some(a[1].error) else None;
    assert FirstUnmet(a, r) by {
      if !a[0].met { assert a[0].error == r.value; } else if !a[1].met { assert a[1].error == r.value; }
    }
    Then(a, r, DemandsFrom(H, cps, interval, 0), FirstComplaint(H, cps, interval, 0));
  }

  // ----- the builder

  function HeaderDemands(H: HashFn, p: CheckpointParams): seq<Demand<BuildError>> {
    [Demand(p.interval > 0, IntervalNotPositive),
     Demand(p.intervalStart < p.intervalEnd, EndNotAfterStart),
     Demand(Sub(p.intervalEnd, p.intervalStart) == p.interval, WrongSpan),
     Demand(Truncate(p.intervalStart, p.interval) == p.intervalStart, Misaligned)]
      + match p.prev
        case None => [Demand(p.prevLogEntryId == [], GenesisWithLogEntry)]
        case Some(prev) =>
          [Demand(CheckpointHash(H, prev) == prev.hash, PrevHashMismatch),
           Demand(p.prevLogEntryId != [], NoPrevLogEntry),
           Demand(p.intervalStart == prev.intervalEnd, NotContiguous)]
  }

  function LeafDemands(l: TenantLeaf, i: nat): seq<Demand<BuildError>> {
    [Demand(l.projectId != [], LeafWithoutProject(i)),
     Demand(l.prevLeafHash != [], LeafWithoutPrevHash(i)),
     Demand(l.executionCount >= 0, NegativeCount(i)),
     Demand(l.executionCount == 0 <==> l.intervalRoot == [], RootCountMismatch(i))]
  }

  function LeavesDemands(leaves: seq<TenantLeaf>): seq<Demand<BuildError>> {
    if leaves == [] then []
    else LeavesDemands(leaves[..|leaves| - 1]) + LeafDemands(leaves[|leaves| - 1], |leaves| - 1)
  }

  lemma HeaderMeans(H: HashFn, p: CheckpointParams)
    ensures FirstUnmet(HeaderDemands(H, p), HeaderDefect(H, p))
  {
    hide CheckpointHash, Sub, Truncate;
    var ds, r := HeaderDemands(H, p), HeaderDefect(H, p);
    if !ds[0].met { assert ds[0].error == r.value; }
    else if !ds[1].met { assert ds[1].error == r.value; }
    else if !ds[2].met { assert ds[2].error == r.value; }
    else if !ds[3].met { assert ds[3].error == r.value; }
    else if !ds[4].met { assert ds[4].error == r.value; }
    else if p.prev.Some? && !ds[5].met { assert ds[5].error == r.value; }
    else if p.prev.Some? && !ds[6].met { assert ds[6].error == r.value; }
  }

  lemma LeafMeans(l: TenantLeaf, i: nat)
    ensures FirstUnmet(LeafDemands(l, i), LeafDefect(l, i))
  {
    var ds, r := LeafDemands(l, i), LeafDefect(l, i);
    if !ds[0].met { assert ds[0].error == r.value; }
    else if !ds[1].met { assert ds[1].error == r.value; }
    else if !ds[2].met { assert ds[2].error == r.value; }
    else if !ds[3].met { assert ds[3].error == r.value; }
  }

  lemma {:induction false} LeavesMean(leaves: seq<TenantLeaf>)
    ensures FirstUnmet(LeavesDemands(leaves), FirstLeafDefect(leaves))
  {
    hide FirstUnmet, LeafDemands, LeafDefect;
    if leaves == [] {
      NoDemand<BuildError>();
    } else {
      var n := |leaves| - 1;
      LeavesMean(leaves[..n]);
      LeafMeans(leaves[n], n);
      Then(LeavesDemands(leaves[..n]), FirstLeafDefect(leaves[..n]),
           LeafDemands(leaves[n], n), LeafDefect(leaves[n], n));
    }
  }

  function Refusal<T, E>(r: Result<T, E>): Option<E> {
    match r case Ok(_) => None case Err(e) => Some(e)
  }

  /** BuildCheckpoint refuses on the header first and then on the first leaf that falls short. */
  lemma BuildRefusals(H: HashFn, p: CheckpointParams, clock: Time)
    requires |p.leaves| <= MAX_DURATION
    ensures FirstUnmet(HeaderDemands(H, p) + LeavesDemands(p.leaves), Refusal(Built(H, p, clock)))
  {
    hide FirstUnmet, HeaderDemands, LeavesDemands, HeaderDefect, FirstLeafDefect, Unsealed, Seal;
    HeaderMeans(H, p);
    LeavesMean(p.leaves);
    Then(HeaderDemands(H, p), HeaderDefect(H, p), LeavesDemands(p.leaves), FirstLeafDefect(p.leaves));
  }

  /** And what it builds, field by field. */
  lemma BuiltSays(H: HashFn, p: CheckpointParams, clock: Time)
    requires |p.leaves| <= MAX_DURATION && Built(H, p, clock).Ok?
    ensures var c := Built(H, p, clock).value;
      && c.format == Text("mesedi.checkpoint.v2") && c.prevLogEntryId == p.prevLogEntryId
      && c.intervalStart == p.intervalStart && c.intervalEnd == p.intervalEnd && c.tenantLeafCount == |p.leaves|
      && c.createdAt == Truncate(if p.now == 0 then clock else p.now, 1000) && c.hash == CheckpointHash(H, c)
      && (p.prev.None? ==> c.seqNo == 1 && c.prevCheckpointHash == ZeroHash() && c.cumulativeCount == Added(p.leaves))
      && (p.prev.Some? ==>
            && c.seqNo == Wrap(p.prev.value.seqNo + 1) && c.prevCheckpointHash == p.prev.value.hash
            && c.cumulativeCount == Wrap(p.prev.value.cumulativeCount + Added(p.leaves)))
      && (p.leaves == [] ==> c.merkleRoot == [])
      && (p.leaves != [] ==> c.merkleRoot == HexEncode(Mth(H, LeafHashes(H, LeafRecords(p.leaves)))))
  {
    hide Text, ZeroHash, HeaderDefect, FirstLeafDefect, Mth, LeafHashes, LeafRecords, Added, CheckpointHash, Truncate;
    SealHash(H, Unsealed(H, p, clock));
  }

  lemma {:induction false} AddedMeans(leaves: seq<TenantLeaf>)
    requires forall i :: 0 <= i < |leaves| ==> leaves[i].executionCount >= 0
    ensures Added(leaves) == Wrap(Executions(leaves))
  {
    hide Wrap;
    if leaves == [] {
      WrapBoth(0, 0);
    } else {
      var n := |leaves| - 1;
      assert forall i :: 0 <= i < n ==> leaves[..n][i] == leaves[i];
      AddedMeans(leaves[..n]);
      WrapBoth(Executions(leaves[..n]), leaves[n].executionCount);
    }
  }

  lemma WrapBoth(a: int, b: int)
    ensures Wrap(Wrap(a) + Wrap(b)) == Wrap(a + b) && Wrap(0) == 0
  {
    WrapOnce(a, Wrap(b));
    WrapOnce(b, a);
  }

  // ----- leaves, sub-chains, folds and proofs

  function LeavesListDemands(H: HashFn, c: Checkpoint, leaves: seq<TenantLeaf>): seq<Demand<LeavesError>> {
    [Demand(|leaves| == c.tenantLeafCount, LeafCountMismatch),
     Demand(leaves == [] ==> c.merkleRoot == [], RootWithoutLeaves),
     Demand(leaves != [] ==> c.merkleRoot == HexEncode(Mth(H, LeafHashes(H, LeafRecords(leaves)))), RootMismatch)]
  }

  lemma LeavesRefusals(H: HashFn, c: Checkpoint, leaves: seq<TenantLeaf>)
    ensures FirstUnmet(LeavesListDemands(H, c, leaves), LeavesVerdict(H, c, leaves))
  {
    hide Mth, LeafHashes, LeafRecords, HexEncode;
    var ds, r := LeavesListDemands(H, c, leaves), LeavesVerdict(H, c, leaves);
    if !ds[0].met { assert ds[0].error == r.value; }
    else if !ds[1].met { assert ds[1].error == r.value; }
    else if !ds[2].met { assert ds[2].error == r.value; }
  }

  function LinkedLeafDemands(H: HashFn, projectId: Bytes, leaves: seq<TenantLeaf>, i: nat): seq<Demand<SubChainError>>
    requires i < |leaves|
  {
    var l := leaves[i];
    [Demand(l.projectId == projectId, WrongProject(i))]
      + if i == 0 then []
        else
          [Demand(l.prevLeafHash == TenantLeafHash(H, leaves[i - 1]), BrokenLink(i)),
           Demand(l.executionCount >= 0, NegativeExecutionCount(i)),
           Demand(l.cumulativeCount == Wrap(leaves[i - 1].cumulativeCount + Wrap(l.executionCount)), CountMismatch(i))]
  }

  function LinkedFrom(H: HashFn, projectId: Bytes, leaves: seq<TenantLeaf>, i: nat): seq<Demand<SubChainError>>
    requires i <= |leaves|
    decreases |leaves| - i
  {
    if i == |leaves| then [] else LinkedLeafDemands(H, projectId, leaves, i) + LinkedFrom(H, projectId, leaves, i + 1)
  }

  lemma LinkedLeafMeans(H: HashFn, projectId: Bytes, leaves: seq<TenantLeaf>, i: nat)
    requires i < |leaves|
    ensures FirstUnmet(LinkedLeafDemands(H, projectId, leaves, i), SubChainComplaint(H, projectId, leaves, i))
  {
    hide TenantLeafHash, Wrap;
    var ds, r := LinkedLeafDemands(H, projectId, leaves, i), SubChainComplaint(H, projectId, leaves, i);
    if !ds[0].met { assert ds[0].error == r.value; }
    else if i > 0 && !ds[1].met { assert ds[1].error == r.value; }
    else if i > 0 && !ds[2].met { assert ds[2].error == r.value; }
    else if i > 0 && !ds[3].met { assert ds[3].error == r.value; }
  }

  lemma {:induction false} LinkedMean(H: HashFn, projectId: Bytes, leaves: seq<TenantLeaf>, i: nat)
    requires i <= |leaves|
    ensures FirstUnmet(LinkedFrom(H, projectId, leaves, i), FirstSubChainComplaint(H, projectId, leaves, i))
    decreases |leaves| - i
  {
    hide FirstUnmet, LinkedLeafDemands, SubChainComplaint;
    if i == |leaves| {
      NoDemand<SubChainError>();
    } else {
      LinkedLeafMeans(H, projectId, leaves, i);
      LinkedMean(H, projectId, leaves, i + 1);
      Then(LinkedLeafDemands(H, projectId, leaves, i), SubChainComplaint(H, projectId, leaves, i),
           LinkedFrom(H, projectId, leaves, i + 1), FirstSubChainComplaint(H, projectId, leaves, i + 1));
    }
  }

  /** VerifyTenantSubChain reports the first demand not met, of the first leaf that does not meet all of its own. */
  lemma SubChainRefusals(H: HashFn, projectId: Bytes, leaves: seq<TenantLeaf>)
    ensures FirstUnmet([Demand(leaves != [], NoLeaves)] + LinkedFrom(H, projectId, leaves, 0),
                       SubChainFailure(H, projectId, leaves))
  {
    hide LinkedFrom, FirstSubChainComplaint;
    LinkedMean(H, projectId, leaves, 0);
    var d := Demand(leaves != [], NoLeaves);
    Single(d);
    Then([d], if d.met then None else Some(d.error), LinkedFrom(H, projectId, leaves, 0),
         FirstSubChainComplaint(H, projectId, leaves, 0));
  }

  lemma Single<E>(d: Demand<E>)
    ensures FirstUnmet([d], if d.met then None else Some(d.error))
  {
    assert [d][0] == d;
  }

  function DigestDemands(hexRoots: seq<Bytes>): seq<Demand<FoldError>> {
    if hexRoots == [] then []
    else
      var n := |hexRoots| - 1;
      var raw := HexDecode(hexRoots[n]);
      DigestDemands(hexRoots[..n])
        + [Demand(raw.Some?, NotHex(n)),
           Demand(raw.Some? ==> |raw.value| == 32, WrongSize(n, if raw.Some? then |raw.value| else 0))]
  }

  lemma {:induction false} DigestsMean(hexRoots: seq<Bytes>)
    ensures FirstUnmet(DigestDemands(hexRoots), FirstDigestDefect(hexRoots))
  {
    hide HexDecode;
    if hexRoots == [] {
      NoDemand<FoldError>();
    } else {
      var n := |hexRoots| - 1;
      var raw := HexDecode(hexRoots[n]);
      DigestsMean(hexRoots[..n]);
      var ds := [Demand(raw.Some?, NotHex(n)),
                 Demand(raw.Some? ==> |raw.value| == 32, WrongSize(n, if raw.Some? then |raw.value| else 0))];
      var r := DigestDefect(hexRoots[n], n);
      assert FirstUnmet(ds, r) by {
        if !ds[0].met { assert ds[0].error == r.value; } else if !ds[1].met { assert ds[1].error == r.value; }
      }
      hide FirstUnmet;
      Then(DigestDemands(hexRoots[..n]), FirstDigestDefect(hexRoots[..n]), ds, r);
    }
  }

  /** RootOverExecutionDigests refuses an empty list, and then the first digest that is not 32 bytes of hex. */
  lemma FoldRefusals(H: HashFn, hexRoots: seq<Bytes>)
    ensures FirstUnmet([Demand(hexRoots != [], NoDigests)] + DigestDemands(hexRoots), Refusal(FoldOf(H, hexRoots)))
    ensures FoldOf(H, hexRoots).Ok? ==>
              DecodeAll(hexRoots).Some? && FoldOf(H, hexRoots).value == HexEncode(Mth(H, DecodeAll(hexRoots).value))
  {
    hide DigestDemands, FirstDigestDefect, Mth, HexEncode, DecodeAll;
    DigestsMean(hexRoots);
    NoDigestDefect(hexRoots);
    var d := Demand(hexRoots != [], NoDigests);
    Single(d);
    Then([d], if d.met then None else Some(d.error), DigestDemands(hexRoots), FirstDigestDefect(hexRoots));
  }

  function ProofDemands(H: HashFn, c: Checkpoint, leaves: seq<TenantLeaf>, projectId: Bytes)
    : seq<Demand<TenantProofError>>
  {
    var found, why := Locate(leaves, projectId), LeavesVerdict(H, c, leaves);
    [Demand(projectId != [], EmptyProjectId),
     Demand(why.None?, NotTheCommittedLeaves(if why.Some? then why.value else LeafCountMismatch)),
     Demand(!found.Twice?, if found.Twice? then DuplicateProject(found.first, found.second) else LeafNotInInterval),
     Demand(!found.Absent?, LeafNotInInterval)]
  }

  /** ProveTenantLeaf refuses for these four reasons and no other. */
  lemma ProofRefusals(H: HashFn, c: Checkpoint, leaves: seq<TenantLeaf>, projectId: Bytes)
    ensures FirstUnmet(ProofDemands(H, c, leaves, projectId), Refusal(TenantProof(H, c, leaves, projectId)))
  {
    hide Locate, LeavesVerdict, PathFor;
    var ds, r := ProofDemands(H, c, leaves, projectId), Refusal(TenantProof(H, c, leaves, projectId));
    DecodeHexAll(LeafDigests(H, leaves));
    PathBuilds(H, LeafDigests(H, leaves));
    hide LeafDigests;
    if !ds[0].met { assert ds[0].error == r.value; }
    else if !ds[1].met { assert ds[1].error == r.value; }
    else if !ds[2].met { assert ds[2].error == r.value; }
    else if !ds[3].met { assert ds[3].error == r.value; }
  }

  /** The proof is of the project's own leaf: its index and hash, the number of leaves, the checkpoint's root. */
  lemma TenantProofSays(H: HashFn, c: Checkpoint, leaves: seq<TenantLeaf>, projectId: Bytes)
    requires TenantProof(H, c, leaves, projectId).Ok?
    ensures Locate(leaves, projectId).At?
    ensures var p, i := TenantProof(H, c, leaves, projectId).value, Locate(leaves, projectId).index;
      && p.leafIndex == i < |leaves| && leaves[i].projectId == projectId
      && p.leafHash == TenantLeafHash(H, leaves[i]) && p.treeSize == |leaves| && p.root == c.merkleRoot
      && p.algorithm == Text("mesedi-exec-merkle-v1/rfc6962-sha256")
  {
    hide LeavesVerdict, PathFor, TenantLeafHash, Text, Locate, TenantHashes;
    var i := Locate(leaves, projectId).index;
    HashAt(H, leaves, i);
  }

  lemma PathBuilds(H: HashFn, hashes: seq<Bytes>)
    ensures forall i :: 0 <= i < |hashes| ==> PathFor(H, HexAll(hashes), i).Ok?
  {
    hide RfcPath;
    DecodeHexAll(hashes);
  }

  function InclusionDemands(H: HashFn, c: Checkpoint, leaf: TenantLeaf, p: InclusionProof)
    : seq<Demand<InclusionError>>
  {
    var v := Verdict(H, p);
    [Demand(p.leafHash == TenantLeafHash(H, leaf), ProofForAnotherLeaf),
     Demand(p.root == c.merkleRoot, ProofForAnotherRoot),
     Demand(p.treeSize == c.tenantLeafCount, ProofForAnotherSize),
     Demand(v.Ok?, BadProof(if v.Err? then v.error else IndexOutOfRange)),
     Demand(v == Ok(true), NotIncluded)]
  }

  /** VerifyTenantLeafInclusion reports the first of these five that is not met. */
  lemma InclusionRefusals(H: HashFn, c: Checkpoint, leaf: TenantLeaf, p: InclusionProof)
    ensures FirstUnmet(InclusionDemands(H, c, leaf, p), InclusionVerdict(H, c, leaf, p))
  {
    hide TenantLeafHash, Verdict;
    var ds, r := InclusionDemands(H, c, leaf, p), InclusionVerdict(H, c, leaf, p);
    if !ds[0].met { assert ds[0].error == r.value; }
    else if !ds[1].met { assert ds[1].error == r.value; }
    else if !ds[2].met { assert ds[2].error == r.value; }
    else if !ds[3].met { assert ds[3].error == r.value; }
    else if !ds[4].met { assert ds[4].error == r.value; }
  }
}
