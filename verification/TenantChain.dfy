/**
 * One project's leaves: that a list of leaves is what a checkpoint committed to, that a project's leaves
 * chain across intervals, and the proof that ties a single leaf to a checkpoint.
 */
module TenantChain {
  import opened Wrappers
  import opened GoBytes
  import opened Hashing
  import opened MerkleTree
  import opened Inclusion
  import opened Checkpoints

  // ----- the leaves of one interval

  datatype LeavesError = LeafCountMismatch | RootWithoutLeaves | RootMismatch

  function LeavesVerdict(H: HashFn, c: Checkpoint, leaves: seq<TenantLeaf>): Option<LeavesError> {
    if |leaves| != c.tenantLeafCount then Some(LeafCountMismatch)
    else if leaves == [] then
      if c.merkleRoot != [] then Some(RootWithoutLeaves) else None
    else if IntervalRoot(H, leaves) != c.merkleRoot then Some(RootMismatch)
    else None
  }

  method VerifyIntervalLeaves(H: HashFn, c: Checkpoint, leaves: seq<TenantLeaf>) returns (r: Option<LeavesError>)
    ensures r == LeavesVerdict(H, c, leaves)
  {
    hide TenantLeafHash, LeafDigests;
    if |leaves| != c.tenantLeafCount {
      return Some(LeafCountMismatch);
    }
    if |leaves| == 0 {
      return if c.merkleRoot != [] then Some(RootWithoutLeaves) else None;
    }
    var hashes: seq<Bytes> := [];
    for i := 0 to |leaves|
      invariant |hashes| == i && forall j :: 0 <= j < i ==> hashes[j] == LeafDigests(H, leaves)[j]
    {
      LeafDigestAt(H, leaves, i);
      hashes := hashes + [HexDecode(TenantLeafHash(H, leaves[i])).value];
    }
    assert hashes == LeafDigests(H, leaves);
    var root := RootFromLeafHashes(H, hashes);
    r := if HexEncode(root) != c.merkleRoot then Some(RootMismatch) else None;
  }

  /** These leaves, in this order, are what the checkpoint committed to. */
  ghost predicate Committed(H: HashFn, c: Checkpoint, leaves: seq<TenantLeaf>) {
    LeavesVerdict(H, c, leaves) == None
  }

  /** `hashed` holds every string hashed while checking a list of leaves. */
  ghost predicate LeavesHashed(H: HashFn, hashed: set<Bytes>, leaves: seq<TenantLeaf>) {
    DataHashed(H, hashed, LeafRecords(leaves))
  }

  /** `hashed` holds every leaf's own string. */
  ghost predicate RecordsHashed(hashed: set<Bytes>, leaves: seq<TenantLeaf>) {
    forall i :: 0 <= i < |leaves| ==> LeafPreimage(LeafRecord(leaves[i])) in hashed
  }

  lemma LeavesHashedRecords(H: HashFn, hashed: set<Bytes>, leaves: seq<TenantLeaf>)
    requires LeavesHashed(H, hashed, leaves)
    ensures RecordsHashed(hashed, leaves)
  {
    hide LeafRecord;
    hide LeafPreimage;
    forall i | 0 <= i < |leaves|
      ensures LeafPreimage(LeafRecord(leaves[i])) in hashed
    {
      assert LeafRecords(leaves)[i] == LeafRecord(leaves[i]);
    }
  }

  lemma CommittedRoot(H: HashFn, c: Checkpoint, leaves: seq<TenantLeaf>)
    requires Committed(H, c, leaves)
    ensures |leaves| == c.tenantLeafCount
    ensures leaves == [] <==> c.merkleRoot == []
    ensures leaves != [] ==> c.merkleRoot == HexEncode(DataRoot(H, LeafRecords(leaves)))
  {
    hide LeafRecord;
    if leaves != [] {
      RootIsMth(H, LeafDigests(H, leaves));
      RootIsDigest(H, LeafDigests(H, leaves));
    }
  }

  /** A checkpoint commits to one list of leaves. */
  lemma CommittedOnce(H: HashFn, hashed: set<Bytes>, c: Checkpoint, a: seq<TenantLeaf>, b: seq<TenantLeaf>)
    requires Committed(H, c, a) && Committed(H, c, b)
    requires CollisionFree(H, hashed) && LeavesHashed(H, hashed, a) && LeavesHashed(H, hashed, b)
    ensures a == b
  {
    hide LeafRecord;
    hide Committed;
    CommittedRoot(H, c, a);
    CommittedRoot(H, c, b);
    if a != [] {
      HexInjective(DataRoot(H, LeafRecords(a)), DataRoot(H, LeafRecords(b)));
      DataBinding(H, hashed, LeafRecords(a), LeafRecords(b));
      forall i | 0 <= i < |a|
        ensures a[i] == b[i]
      {
        assert LeafRecords(a)[i] == LeafRecords(b)[i];
        LeafRecordInjective(a[i], b[i]);
      }
    }
  }

  // ----- a project's leaves across intervals

  datatype SubChainError =
    | NoLeaves | WrongProject(at: nat) | BrokenLink(at: nat) | NegativeExecutionCount(at: nat) | CountMismatch(at: nat)

  function SubChainComplaint(H: HashFn, projectId: Bytes, leaves: seq<TenantLeaf>, i: nat): Option<SubChainError>
    requires i < |leaves|
  {
    var l := leaves[i];
    if l.projectId != projectId then Some(WrongProject(i))
    else if i == 0 then None
    else if l.prevLeafHash != TenantLeafHash(H, leaves[i - 1]) then Some(BrokenLink(i))
    else if l.executionCount < 0 then Some(NegativeExecutionCount(i))
    else if l.cumulativeCount != Wrap(leaves[i - 1].cumulativeCount + Wrap(l.executionCount)) then Some(CountMismatch(i))
    else None
  }

  ghost predicate LinksTo(H: HashFn, l: TenantLeaf, prev: TenantLeaf) {
    && l.prevLeafHash == TenantLeafHash(H, prev)
    && l.executionCount >= 0
    && l.cumulativeCount == Wrap(prev.cumulativeCount + l.executionCount)
  }

  ghost predicate ValidSubChain(H: HashFn, projectId: Bytes, leaves: seq<TenantLeaf>) {
    && leaves != []
    && (forall i :: 0 <= i < |leaves| ==> leaves[i].projectId == projectId)
    && forall i :: 0 < i < |leaves| ==> LinksTo(H, leaves[i], leaves[i - 1])
  }

  function FirstSubChainComplaint(H: HashFn, projectId: Bytes, leaves: seq<TenantLeaf>, i: nat): Option<SubChainError>
    requires i <= |leaves|
    decreases |leaves| - i
  {
    if i == |leaves| then None
    else
      var complaint := SubChainComplaint(H, projectId, leaves, i);
      if complaint.Some? then complaint else FirstSubChainComplaint(H, projectId, leaves, i + 1)
  }

  function SubChainFailure(H: HashFn, projectId: Bytes, leaves: seq<TenantLeaf>): Option<SubChainError> {
    if leaves == [] then Some(NoLeaves) else FirstSubChainComplaint(H, projectId, leaves, 0)
  }

  lemma {:induction false} SubChainPassesFrom(H: HashFn, projectId: Bytes, leaves: seq<TenantLeaf>, i: nat)
    requires i <= |leaves|
    ensures FirstSubChainComplaint(H, projectId, leaves, i) == None
       <==> (forall j :: i <= j < |leaves| ==> leaves[j].projectId == projectId)
            && (forall j :: i <= j < |leaves| && 0 < j ==> LinksTo(H, leaves[j], leaves[j - 1]))
    decreases |leaves| - i
  {
    hide SubChainComplaint, LinksTo;
    if i < |leaves| {
      SubChainPassesFrom(H, projectId, leaves, i + 1);
      NoSubChainComplaint(H, projectId, leaves, i);
    }
  }

  lemma NoSubChainComplaint(H: HashFn, projectId: Bytes, leaves: seq<TenantLeaf>, i: nat)
    requires i < |leaves|
    ensures SubChainComplaint(H, projectId, leaves, i) == None
       <==> leaves[i].projectId == projectId && (i > 0 ==> LinksTo(H, leaves[i], leaves[i - 1]))
  {
    hide TenantLeafHash;
  }

  /** Accepts exactly the valid sub-chains; otherwise reports the first complaint about the first bad leaf. */
  method VerifyTenantSubChain(H: HashFn, projectId: Bytes, leaves: seq<TenantLeaf>) returns (r: Option<SubChainError>)
    ensures r == SubChainFailure(H, projectId, leaves)
    ensures r.None? <==> ValidSubChain(H, projectId, leaves)
  {
    hide SubChainComplaint;
    hide LinksTo;
    if |leaves| == 0 {
      return Some(NoLeaves);
    }
    SubChainPassesFrom(H, projectId, leaves, 0);
    for i := 0 to |leaves|
      invariant FirstSubChainComplaint(H, projectId, leaves, i) == FirstSubChainComplaint(H, projectId, leaves, 0)
    {
      var complaint := SubChainComplaint(H, projectId, leaves, i);
      if complaint.Some? {
        return complaint;
      }
    }
    r := None;
  }

  /** The running total is the first leaf's plus every later leaf's count, modulo 2^64. */
  lemma {:induction false} SubChainConservation(H: HashFn, projectId: Bytes, leaves: seq<TenantLeaf>)
    requires ValidSubChain(H, projectId, leaves)
    ensures Executions(leaves[1..]) >= 0
    ensures leaves[|leaves| - 1].cumulativeCount == Wrap(leaves[0].cumulativeCount + Executions(leaves[1..]))
  {
    hide TenantLeafHash;
    var n := |leaves| - 1;
    if n == 0 {
      assert leaves[1..] == [];
    } else {
      SubChainConservation(H, projectId, leaves[..n]);
      assert leaves[..n][1..] == leaves[1..][..n - 1];
      assert leaves[1..][n - 1] == leaves[n];
      assert LinksTo(H, leaves[n], leaves[n - 1]);
      WrapOnce(leaves[0].cumulativeCount + Executions(leaves[..n][1..]), leaves[n].executionCount);
    }
  }

  lemma WrapOnce(a: int, b: int)
    ensures Wrap(Wrap(a) + b) == Wrap(a + b)
  {}

  lemma SubChainPart(H: HashFn, projectId: Bytes, leaves: seq<TenantLeaf>, lo: nat, hi: nat)
    requires ValidSubChain(H, projectId, leaves) && lo < hi <= |leaves|
    ensures ValidSubChain(H, projectId, leaves[lo..hi])
  {
    hide LinksTo;
    var part := leaves[lo..hi];
    forall i | 0 < i < |part|
      ensures LinksTo(H, part[i], part[i - 1])
    {
      assert part[i] == leaves[lo + i] && part[i - 1] == leaves[lo + i - 1];
    }
  }

  /** Leaves i to j - 1 taken out of a sub-chain. */
  function Without(leaves: seq<TenantLeaf>, i: nat, j: nat): seq<TenantLeaf>
    requires i <= j <= |leaves|
  {
    leaves[..i] + leaves[j..]
  }

  /** If what is left still verifies, the leaf before the cut and the last leaf cut out are the same leaf. */
  lemma DeletionNeedsTwin(H: HashFn, hashed: set<Bytes>, projectId: Bytes, leaves: seq<TenantLeaf>, i: nat, j: nat)
    requires ValidSubChain(H, projectId, leaves) && 0 < i < j < |leaves|
    requires CollisionFree(H, hashed) && RecordsHashed(hashed, leaves)
    requires ValidSubChain(H, projectId, Without(leaves, i, j))
    ensures leaves[i - 1] == leaves[j - 1]
  {
    hide TenantLeafHash;
    hide LeafRecord;
    var left := Without(leaves, i, j);
    assert left[i] == leaves[j] && left[i - 1] == leaves[i - 1];
    assert LinksTo(H, left[i], left[i - 1]) && LinksTo(H, leaves[j], leaves[j - 1]);
    TenantLeafBinding(H, hashed, leaves[i - 1], leaves[j - 1]);
  }

  /** Interior leaves holding at least one execution cannot be taken out unnoticed. */
  lemma DeletionDetected(H: HashFn, hashed: set<Bytes>, projectId: Bytes, leaves: seq<TenantLeaf>, i: nat, j: nat)
    requires ValidSubChain(H, projectId, leaves) && 0 < i < j < |leaves|
    requires CollisionFree(H, hashed) && RecordsHashed(hashed, leaves)
    requires 0 < Executions(leaves[i..j]) < TWO64
    ensures !ValidSubChain(H, projectId, Without(leaves, i, j))
  {
    hide LinksTo;
    hide LeafRecord;
    if ValidSubChain(H, projectId, Without(leaves, i, j)) {
      DeletionNeedsTwin(H, hashed, projectId, leaves, i, j);
      SubChainPart(H, projectId, leaves, i - 1, j);
      var part := leaves[i - 1..j];
      SubChainConservation(H, projectId, part);
      assert part[1..] == leaves[i..j];
      assert part[0] == leaves[i - 1] && part[|part| - 1] == leaves[j - 1];
      NoFullTurn(leaves[i - 1].cumulativeCount, Executions(leaves[i..j]));
    }
  }

  lemma NoFullTurn(a: U64, b: int)
    requires 0 < b < TWO64
    ensures Wrap(a + b) != a
  {}

  /** A sub-chain from the project's first leaf: nothing before it, and its total starts with its own count. */
  ghost predicate GenesisRooted(H: HashFn, projectId: Bytes, leaves: seq<TenantLeaf>) {
    && ValidSubChain(H, projectId, leaves)
    && leaves[0].prevLeafHash == ZeroHash()
    && leaves[0].executionCount >= 0
    && leaves[0].cumulativeCount == leaves[0].executionCount
  }

  /** No leaf's hash is the 64 zeros that mark "no predecessor". */
  ghost predicate NoZeroLeaf(H: HashFn, leaves: seq<TenantLeaf>) {
    forall i :: 0 <= i < |leaves| ==> TenantLeafHash(H, leaves[i]) != ZeroHash()
  }

  /** Its leaves are pairwise different, whatever their counts. */
  lemma {:induction false} LeavesDistinct(
      H: HashFn, hashed: set<Bytes>, projectId: Bytes, leaves: seq<TenantLeaf>, i: nat, j: nat)
    requires GenesisRooted(H, projectId, leaves) && NoZeroLeaf(H, leaves) && i < j < |leaves|
    requires CollisionFree(H, hashed) && RecordsHashed(hashed, leaves)
    ensures leaves[i] != leaves[j]
  {
    hide TenantLeafHash;
    hide LeafRecord;
    assert LinksTo(H, leaves[j], leaves[j - 1]);
    assert TenantLeafHash(H, leaves[j - 1]) != ZeroHash();
    if i > 0 {
      LeavesDistinct(H, hashed, projectId, leaves, i - 1, j - 1);
      assert LinksTo(H, leaves[i], leaves[i - 1]);
      if leaves[i] == leaves[j] {
        TenantLeafBinding(H, hashed, leaves[i - 1], leaves[j - 1]);
      }
    }
  }

  /** From the first leaf on, no interior run of any kind can be taken out unnoticed. */
  lemma RootedDeletionDetected(
      H: HashFn, hashed: set<Bytes>, projectId: Bytes, leaves: seq<TenantLeaf>, i: nat, j: nat)
    requires GenesisRooted(H, projectId, leaves) && NoZeroLeaf(H, leaves) && 0 < i < j < |leaves|
    requires CollisionFree(H, hashed) && RecordsHashed(hashed, leaves)
    ensures !ValidSubChain(H, projectId, Without(leaves, i, j))
  {
    hide LinksTo;
    hide LeafRecord;
    hide NoZeroLeaf;
    if ValidSubChain(H, projectId, Without(leaves, i, j)) {
      DeletionNeedsTwin(H, hashed, projectId, leaves, i, j);
      LeavesDistinct(H, hashed, projectId, leaves, i - 1, j - 1);
    }
  }

  // ----- a project's root over its execution digests

  datatype FoldError = NoDigests | NotHex(at: nat) | WrongSize(at: nat, size: nat)

  function DigestDefect(hexRoot: Bytes, at: nat): Option<FoldError> {
    match HexDecode(hexRoot)
    case None => Some(NotHex(at))
    case Some(raw) => if |raw| != DIGEST_SIZE then Some(WrongSize(at, |raw|)) else None
  }

  function FirstDigestDefect(hexRoots: seq<Bytes>): Option<FoldError> {
    if hexRoots == [] then None
    else
      var before := FirstDigestDefect(hexRoots[..|hexRoots| - 1]);
      if before.Some? then before else DigestDefect(hexRoots[|hexRoots| - 1], |hexRoots| - 1)
  }

  lemma {:induction false} NoDigestDefect(hexRoots: seq<Bytes>)
    ensures FirstDigestDefect(hexRoots) == None
       <==> DecodeAll(hexRoots).Some? && AllDigests(DecodeAll(hexRoots).value)
  {
    hide HexDecode;
    if hexRoots != [] {
      var n := |hexRoots| - 1;
      var init := hexRoots[..n];
      NoDigestDefect(init);
      if FirstDigestDefect(hexRoots) == None {
        assert forall i :: 0 <= i < n ==> hexRoots[i] == init[i];
        assert forall i :: 0 <= i < n ==> HexDecode(hexRoots[i]).Some? && |HexDecode(hexRoots[i]).value| == DIGEST_SIZE by {
          forall i | 0 <= i < n
            ensures HexDecode(hexRoots[i]).Some? && |HexDecode(hexRoots[i]).value| == DIGEST_SIZE
          {
            assert DecodeAll(init).value[i] == HexDecode(init[i]).value;
          }
        }
      } else if DecodeAll(hexRoots).Some? && AllDigests(DecodeAll(hexRoots).value) {
        var all := DecodeAll(hexRoots).value;
        assert all[n] == HexDecode(hexRoots[n]).value;
        forall i | 0 <= i < n
          ensures HexDecode(init[i]).Some? && |HexDecode(init[i]).value| == DIGEST_SIZE
        {
          assert all[i] == HexDecode(hexRoots[i]).value;
        }
      }
    }
  }

  /** The digests are leaves as they stand; an empty list has no root. */
  function FoldOf(H: HashFn, hexRoots: seq<Bytes>): Result<Bytes, FoldError> {
    if hexRoots == [] then Err(NoDigests)
    else match FirstDigestDefect(hexRoots)
      case Some(e) => Err(e)
      case None =>
        NoDigestDefect(hexRoots);
        Ok(HexEncode(Mth(H, DecodeAll(hexRoots).value)))
  }

  method RootOverExecutionDigests(H: HashFn, hexRoots: seq<Bytes>) returns (r: Result<Bytes, FoldError>)
    ensures r == FoldOf(H, hexRoots)
  {
    if |hexRoots| == 0 {
      return Err(NoDigests);
    }
    var level: seq<Bytes> := [];
    for i := 0 to |hexRoots|
      invariant FirstDigestDefect(hexRoots[..i]) == None
      invariant |level| == i && forall j :: 0 <= j < i ==> HexDecode(hexRoots[j]) == Some(level[j])
    {
      assert hexRoots[..i + 1][..i] == hexRoots[..i];
      var raw := HexDecode(hexRoots[i]);
      if DigestDefect(hexRoots[i], i).Some? {
        DigestDefectPersists(hexRoots, i + 1);
        return Err(DigestDefect(hexRoots[i], i).value);
      }
      level := level + [raw.value];
    }
    assert hexRoots[..|hexRoots|] == hexRoots;
    assert DecodeAll(hexRoots).value == level;
    var root := RootFromLeafHashes(H, level);
    r := Ok(HexEncode(root));
  }

  lemma {:induction false} DigestDefectPersists(hexRoots: seq<Bytes>, n: nat)
    requires n <= |hexRoots| && FirstDigestDefect(hexRoots[..n]).Some?
    ensures FirstDigestDefect(hexRoots) == FirstDigestDefect(hexRoots[..n])
  {
    if n < |hexRoots| {
      var init := hexRoots[..|hexRoots| - 1];
      assert init[..n] == hexRoots[..n];
      DigestDefectPersists(init, n);
    } else {
      assert hexRoots[..n] == hexRoots;
    }
  }

  /** Two equally long lists with one fold hold the same digests in the same order. */
  lemma FoldBinding(H: HashFn, hashed: set<Bytes>, a: seq<Bytes>, b: seq<Bytes>)
    requires FoldOf(H, a).Ok? && FoldOf(H, a) == FoldOf(H, b) && |a| == |b|
    requires DecodeAll(a).Some? && DecodeAll(b).Some? && CollisionFree(H, hashed)
    requires TreeHashed(H, hashed, DecodeAll(a).value) && TreeHashed(H, hashed, DecodeAll(b).value)
    ensures DecodeAll(a) == DecodeAll(b)
  {
    hide DecodeAll;
    var x, y := DecodeAll(a).value, DecodeAll(b).value;
    NoDigestDefect(a);
    NoDigestDefect(b);
    HexInjective(Mth(H, x), Mth(H, y));
    RootIsMth(H, x);
    RootIsMth(H, y);
    RootBinding(H, hashed, x, y);
  }

  // ----- a proof for one leaf

  datatype Found = Absent | At(index: nat) | Twice(first: nat, second: nat)

  /** Where a project's leaf is, reading from the front and stopping at a second one. */
  function Locate(leaves: seq<TenantLeaf>, projectId: Bytes): (f: Found)
    ensures f.Absent? <==> forall k :: 0 <= k < |leaves| ==> leaves[k].projectId != projectId
    ensures f.At? ==> f.index < |leaves|
    ensures f.At? ==> forall k :: 0 <= k < |leaves| ==> (leaves[k].projectId == projectId <==> k == f.index)
    ensures f.Twice? ==> f.first < f.second < |leaves|
    ensures f.Twice? ==> leaves[f.first].projectId == projectId == leaves[f.second].projectId
    ensures f.Twice? ==> forall k :: 0 <= k < f.second ==> (leaves[k].projectId == projectId <==> k == f.first)
  {
    if leaves == [] then Absent
    else
      var n := |leaves| - 1;
      var before := Locate(leaves[..n], projectId);
      if before.Twice? || leaves[n].projectId != projectId then before
      else if before.At? then Twice(before.index, n)
      else At(n)
  }

  datatype TenantProofError =
    | EmptyProjectId | NotTheCommittedLeaves(why: LeavesError) | DuplicateProject(first: nat, second: nat)
    | LeafNotInInterval | PathError(path: ProofError)

  function TenantHashes(H: HashFn, leaves: seq<TenantLeaf>): (s: seq<Bytes>)
    ensures |s| == |leaves|
  {
    HexAll(LeafDigests(H, leaves))
  }

  function TenantProof(H: HashFn, c: Checkpoint, leaves: seq<TenantLeaf>, projectId: Bytes)
    : Result<InclusionProof, TenantProofError>
  {
    if projectId == [] then Err(EmptyProjectId)
    else match LeavesVerdict(H, c, leaves)
      case Some(why) => Err(NotTheCommittedLeaves(why))
      case None =>
        match Locate(leaves, projectId)
        case Twice(i, j) => Err(DuplicateProject(i, j))
        case Absent => Err(LeafNotInInterval)
        case At(index) =>
          match PathFor(H, TenantHashes(H, leaves), index)
          case Err(e) => Err(PathError(e))
          case Ok(path) =>
            Ok(InclusionProof(index, TenantHashes(H, leaves)[index], |leaves|, c.merkleRoot, path, AlgorithmV1()))
  }

  method ProveTenantLeaf(H: HashFn, c: Checkpoint, leaves: seq<TenantLeaf>, projectId: Bytes)
    returns (r: Result<InclusionProof, TenantProofError>)
    ensures r == TenantProof(H, c, leaves, projectId)
  {
    hide LeavesVerdict;
    hide TenantHashes;
    hide Locate;
    hide PathFor;
    if projectId == [] {
      return Err(EmptyProjectId);
    }
    var why := VerifyIntervalLeaves(H, c, leaves);
    if why.Some? {
      return Err(NotTheCommittedLeaves(why.value));
    }
    var found, leafHex := FindLeaf(H, leaves, projectId);
    match found {
      case Twice(i, j) => return Err(DuplicateProject(i, j));
      case Absent => return Err(LeafNotInInterval);
      case At(index) =>
        var path := ProvePath(H, leafHex, index);
        match path
        case Err(e) => r := Err(PathError(e));
        case Ok(p) => r := Ok(InclusionProof(index, leafHex[index], |leafHex|, c.merkleRoot, p, AlgorithmV1()));
    }
  }

  lemma HashAt(H: HashFn, leaves: seq<TenantLeaf>, i: nat)
    requires i < |leaves|
    ensures TenantHashes(H, leaves)[i] == TenantLeafHash(H, leaves[i])
  {
    hide LeafRecord;
  }

  lemma LocateStep(leaves: seq<TenantLeaf>, projectId: Bytes, i: nat)
    requires i < |leaves| && !Locate(leaves[..i], projectId).Twice?
    ensures Locate(leaves[..i + 1], projectId) ==
      if leaves[i].projectId != projectId then Locate(leaves[..i], projectId)
      else if Locate(leaves[..i], projectId).At? then Twice(Locate(leaves[..i], projectId).index, i)
      else At(i)
  {
    assert leaves[..i + 1][..i] == leaves[..i];
  }

  /** The search loop: stop at a second leaf of the project, hash every leaf on the way. */
  method FindLeaf(H: HashFn, leaves: seq<TenantLeaf>, projectId: Bytes) returns (found: Found, leafHex: seq<Bytes>)
    ensures found == Locate(leaves, projectId)
    ensures !found.Twice? ==> leafHex == TenantHashes(H, leaves)
  {
    hide TenantHashes;
    hide TenantLeafHash;
    hide Locate;
    found, leafHex := Absent, [];
    EmptyAbsent(leaves, projectId);
    for i := 0 to |leaves|
      invariant |leafHex| == i && forall j :: 0 <= j < i ==> leafHex[j] == TenantHashes(H, leaves)[j]
      invariant found == Locate(leaves[..i], projectId) && !found.Twice?
    {
      HashAt(H, leaves, i);
      LocateStep(leaves, projectId, i);
      leafHex := leafHex + [TenantLeafHash(H, leaves[i])];
      if leaves[i].projectId == projectId {
        if found.At? {
          SecondStays(leaves, projectId, i + 1);
          return Twice(found.index, i), leafHex;
        }
        found := At(i);
      }
    }
    assert leaves[..|leaves|] == leaves;
  }

  lemma EmptyAbsent(leaves: seq<TenantLeaf>, projectId: Bytes)
    ensures Locate(leaves[..0], projectId) == Absent
  {}

  lemma {:induction false} SecondStays(leaves: seq<TenantLeaf>, projectId: Bytes, n: nat)
    requires n <= |leaves| && Locate(leaves[..n], projectId).Twice?
    ensures Locate(leaves, projectId) == Locate(leaves[..n], projectId)
  {
    if n < |leaves| {
      var init := leaves[..|leaves| - 1];
      assert init[..n] == leaves[..n];
      SecondStays(init, projectId, n);
    } else {
      assert leaves[..n] == leaves;
    }
  }

  datatype InclusionError =
    | ProofForAnotherLeaf | ProofForAnotherRoot | ProofForAnotherSize | BadProof(error: ProofError) | NotIncluded

  function InclusionVerdict(H: HashFn, c: Checkpoint, leaf: TenantLeaf, p: InclusionProof): Option<InclusionError> {
    if p.leafHash != TenantLeafHash(H, leaf) then Some(ProofForAnotherLeaf)
    else if p.root != c.merkleRoot then Some(ProofForAnotherRoot)
    else if p.treeSize != c.tenantLeafCount then Some(ProofForAnotherSize)
    else match Verdict(H, p)
      case Err(e) => Some(BadProof(e))
      case Ok(ok) => if ok then None else Some(NotIncluded)
  }

  method VerifyTenantLeafInclusion(H: HashFn, c: Checkpoint, leaf: TenantLeaf, p: InclusionProof)
    returns (r: Option<InclusionError>)
    ensures r == InclusionVerdict(H, c, leaf, p)
  {
    hide TenantLeafHash;
    hide Verdict;
    if p.leafHash != TenantLeafHash(H, leaf) {
      return Some(ProofForAnotherLeaf);
    }
    if p.root != c.merkleRoot {
      return Some(ProofForAnotherRoot);
    }
    if p.treeSize != c.tenantLeafCount {
      return Some(ProofForAnotherSize);
    }
    var ok := VerifyInclusion(H, p);
    match ok
    case Err(e) => r := Some(BadProof(e));
    case Ok(b) => r := if b then None else Some(NotIncluded);
  }

  /** A project with one leaf in a committed interval gets a proof, and the proof verifies with that leaf. */
  lemma TenantProofComplete(H: HashFn, c: Checkpoint, leaves: seq<TenantLeaf>, projectId: Bytes)
    requires Committed(H, c, leaves) && projectId != [] && Locate(leaves, projectId).At?
    ensures TenantProof(H, c, leaves, projectId).Ok?
    ensures InclusionVerdict(H, c, leaves[Locate(leaves, projectId).index], TenantProof(H, c, leaves, projectId).value)
         == None
  {
    hide LeafRecord;
    hide Verdict;
    hide PathFor;
    var i := Locate(leaves, projectId).index;
    InclusionComplete(H, LeafDigests(H, leaves), i, AlgorithmV1());
    assert TenantHashes(H, leaves)[i] == TenantLeafHash(H, leaves[i]);
  }

  /** A leaf whose proof verifies against a committed interval is the leaf at the proof's index. */
  lemma TenantProofSound(
      H: HashFn, hashed: set<Bytes>, c: Checkpoint, leaves: seq<TenantLeaf>, leaf: TenantLeaf, p: InclusionProof)
    requires Committed(H, c, leaves) && InclusionVerdict(H, c, leaf, p) == None
    requires CollisionFree(H, hashed) && LeavesHashed(H, hashed, leaves)
    requires LeafPreimage(LeafRecord(leaf)) in hashed && ProofHashed(H, hashed, p)
    ensures 0 <= p.leafIndex < |leaves| && leaf == leaves[p.leafIndex]
  {
    hide LeafRecord;
    hide Committed;
    hide Climb;
    hide ClimbHashed;
    CommittedRoot(H, c, leaves);
    var digests := LeafDigests(H, leaves);
    RootIsMth(H, digests);
    InclusionSound(H, hashed, digests, p);
    HexRoundTrip(LeafHash(H, LeafRecord(leaf)));
    LeavesHashedRecords(H, hashed, leaves);
    LeafBinding(H, hashed, LeafRecord(leaf), LeafRecord(leaves[p.leafIndex]));
    LeafRecordInjective(leaf, leaves[p.leafIndex]);
  }
}
