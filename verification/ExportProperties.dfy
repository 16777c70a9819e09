/**
 * What a clean export proves about the project's real history, and that honest operation always yields
 * clean exports.
 */
module ExportProperties {
  import opened Wrappers
  import opened GoBytes
  import opened GoTime
  import opened Hashing
  import opened MerkleTree
  import opened Inclusion
  import opened Checkpoints
  import opened ChainProperties
  import opened TenantChain
  import opened Export

  // ----- a project's sub-chain inside the whole history of committed leaf lists

  function OwnOf(leaves: seq<TenantLeaf>, projectId: Bytes): seq<TenantLeaf> {
    var found := Locate(leaves, projectId);
    if found.At? then [leaves[found.index]] else []
  }

  /** The project's leaves through the history, interval by interval. */
  function ProjectLeaves(history: seq<seq<TenantLeaf>>, projectId: Bytes): seq<TenantLeaf> {
    if history == [] then []
    else ProjectLeaves(history[..|history| - 1], projectId) + OwnOf(history[|history| - 1], projectId)
  }

  /** How many of them precede interval n. */
  function Position(history: seq<seq<TenantLeaf>>, projectId: Bytes, n: nat): nat
    requires n <= |history|
  {
    |ProjectLeaves(history[..n], projectId)|
  }

  lemma {:induction false} ProjectLeavesPrefix(history: seq<seq<TenantLeaf>>, projectId: Bytes, n: nat)
    requires n <= |history|
    ensures ProjectLeaves(history[..n], projectId) <= ProjectLeaves(history, projectId)
  {
    hide OwnOf;
    if n == |history| {
      assert history[..n] == history;
    } else {
      var init := history[..|history| - 1];
      assert init[..n] == history[..n];
      ProjectLeavesPrefix(init, projectId, n);
    }
  }

  lemma PositionStep(history: seq<seq<TenantLeaf>>, projectId: Bytes, n: nat)
    requires n < |history|
    ensures Position(history, projectId, n + 1) == Position(history, projectId, n) + |OwnOf(history[n], projectId)|
    ensures Position(history, projectId, n + 1) <= |ProjectLeaves(history, projectId)|
    ensures OwnOf(history[n], projectId)
         == ProjectLeaves(history, projectId)[Position(history, projectId, n)..Position(history, projectId, n + 1)]
  {
    hide OwnOf;
    assert history[..n + 1][..n] == history[..n];
    ProjectLeavesPrefix(history, projectId, n + 1);
    var whole, upto := ProjectLeaves(history, projectId), ProjectLeaves(history[..n + 1], projectId);
    assert upto == whole[..|upto|];
  }

  /** An export over published checkpoints, next to the leaf lists those checkpoints committed to. */
  ghost predicate Published(H: HashFn, e: ChainExport, history: seq<seq<TenantLeaf>>, off: nat) {
    && off + |e.intervals| <= |history|
    && (forall n :: 0 <= n < |history| ==> !Locate(history[n], e.projectId).Twice?)
    && (forall k :: 0 <= k < |e.intervals| ==> Committed(H, e.intervals[k].checkpoint, history[off + k]))
  }

  /** `hashed` holds every string hashed for the history and for the export's leaves and proofs. */
  ghost predicate ExportHashed(H: HashFn, hashed: set<Bytes>, e: ChainExport, history: seq<seq<TenantLeaf>>) {
    && (forall n :: 0 <= n < |history| ==> LeavesHashed(H, hashed, history[n]))
    && (forall k :: 0 <= k < |e.intervals| ==> IntervalHashed(H, hashed, e.intervals[k]))
  }

  ghost predicate IntervalHashed(H: HashFn, hashed: set<Bytes>, iv: ExportedInterval) {
    && (iv.leaf.Some? ==> LeafPreimage(LeafRecord(iv.leaf.value)) in hashed)
    && (iv.proof.Some? ==> ProofHashed(H, hashed, iv.proof.value))
  }

  /** The project's history is a genesis-rooted sub-chain that nowhere collides with the zero hash or wraps. */
  ghost predicate TrueHistory(H: HashFn, projectId: Bytes, history: seq<seq<TenantLeaf>>) {
    var s := ProjectLeaves(history, projectId);
    && (s != [] ==> GenesisRooted(H, projectId, s))
    && NoZeroLeaf(H, s)
    && Executions(s) < TWO64
  }

  lemma {:induction false} HistoryRecords(
      H: HashFn, hashed: set<Bytes>, history: seq<seq<TenantLeaf>>, projectId: Bytes)
    requires forall n :: 0 <= n < |history| ==> LeavesHashed(H, hashed, history[n])
    ensures RecordsHashed(hashed, ProjectLeaves(history, projectId))
  {
    hide LeavesHashed;
    hide LeafRecord;
    if history != [] {
      var n := |history| - 1;
      assert forall i :: 0 <= i < n ==> history[..n][i] == history[i];
      HistoryRecords(H, hashed, history[..n], projectId);
      LeavesHashedRecords(H, hashed, history[n]);
    }
  }

  /** A presented leaf that passed is the one the project really has in that interval. */
  lemma PresentedIsCommitted(
      H: HashFn, hashed: set<Bytes>, e: ChainExport, history: seq<seq<TenantLeaf>>, off: nat, k: nat)
    requires Published(H, e, history, off) && ExportHashed(H, hashed, e, history) && CollisionFree(H, hashed)
    requires k < |e.intervals| && e.intervals[k].leaf.Some? && HourSound(H, e.projectId, e.intervals[k])
    ensures OwnOf(history[off + k], e.projectId) == [e.intervals[k].leaf.value]
  {
    hide Committed;
    hide LeavesHashed;
    hide LeafRecord;
    hide ProofHashed;
    hide InclusionVerdict;
    hide FoldOf;
    hide Locate;
    var iv := e.intervals[k];
    assert IntervalHashed(H, hashed, iv);
    assert LeavesHashed(H, hashed, history[off + k]);
    TenantProofSound(H, hashed, iv.checkpoint, history[off + k], iv.leaf.value, iv.proof.value);
  }

  lemma OwnLeavesStep(projectId: Bytes, ivs: seq<ExportedInterval>, k: nat)
    requires k < |ivs| && (ivs[k].leaf.Some? ==> ivs[k].leaf.value.projectId == projectId)
    ensures OwnLeaves(projectId, ivs[..k + 1]) == OwnLeaves(projectId, ivs[..k]) + AsSeq(ivs[k].leaf)
  {
    assert ivs[..k + 1][..k] == ivs[..k];
  }

  lemma {:induction false} OwnLeavesPrefix(projectId: Bytes, ivs: seq<ExportedInterval>, k: nat)
    requires k <= |ivs|
    ensures OwnLeaves(projectId, ivs[..k]) <= OwnLeaves(projectId, ivs)
  {
    if k == |ivs| {
      assert ivs[..k] == ivs;
    } else {
      var init := ivs[..|ivs| - 1];
      assert init[..k] == ivs[..k];
      OwnLeavesPrefix(projectId, init, k);
    }
  }

  /** In a true history, the leaf a given leaf names as its predecessor is the one just before it. */
  lemma PredecessorIs(
      H: HashFn, hashed: set<Bytes>, projectId: Bytes, s: seq<TenantLeaf>, prev: nat, next: nat)
    requires GenesisRooted(H, projectId, s) && NoZeroLeaf(H, s)
    requires CollisionFree(H, hashed) && RecordsHashed(hashed, s)
    requires prev < next < |s| && s[next].prevLeafHash == TenantLeafHash(H, s[prev])
    ensures next == prev + 1
  {
    hide TenantLeafHash;
    hide LeafRecord;
    hide NoZeroLeaf;
    assert LinksTo(H, s[next], s[next - 1]);
    TenantLeafBinding(H, hashed, s[prev], s[next - 1]);
    if prev < next - 1 {
      LeavesDistinct(H, hashed, projectId, s, prev, next - 1);
    }
  }

  /** A clean export whose every checkpoint commits to the leaves of its own place in the history. */
  ghost predicate Aligned(
      H: HashFn, hashed: set<Bytes>, e: ChainExport, history: seq<seq<TenantLeaf>>, off: nat) {
    && Clean(H, e)
    && Published(H, e, history, off)
    && TrueHistory(H, e.projectId, history)
    && CollisionFree(H, hashed)
    && ExportHashed(H, hashed, e, history)
  }

  /** The leaves presented by the first k intervals are the run of the history that ends before `end`. */
  ghost predicate RunEndsAt(e: ChainExport, history: seq<seq<TenantLeaf>>, off: nat, k: nat, end: nat)
    requires k <= |e.intervals| && off + |e.intervals| <= |history|
  {
    var own, s := OwnLeaves(e.projectId, e.intervals[..k]), ProjectLeaves(history, e.projectId);
    && |own| <= end <= |s|
    && end <= Position(history, e.projectId, off + k)
    && own == s[end - |own|..end]
  }

  lemma {:induction false} RunSoFar(
      H: HashFn, hashed: set<Bytes>, e: ChainExport, history: seq<seq<TenantLeaf>>, off: nat, k: nat)
    returns (end: nat)
    requires Aligned(H, hashed, e, history, off) && k <= |e.intervals|
    ensures off + |e.intervals| <= |history| && RunEndsAt(e, history, off, k, end)
  {
    hide Aligned;
    hide Published;
    hide ExportHashed;
    hide TrueHistory;
    hide RunEndsAt;
    hide HourSound;
    hide Position;
    Parts(H, hashed, e, history, off);
    if k == 0 {
      RunStart(e, history, off);
      end := 0;
    } else {
      end := RunSoFar(H, hashed, e, history, off, k - 1);
      if e.intervals[k - 1].leaf.None? {
        QuietStep(H, hashed, e, history, off, k - 1, end);
      } else {
        PresentedStep(H, hashed, e, history, off, k - 1, end);
        end := Position(history, e.projectId, off + k - 1) + 1;
      }
    }
  }

  /** The assumptions one by one, for proofs that keep the definitions out of sight. */
  lemma Parts(H: HashFn, hashed: set<Bytes>, e: ChainExport, history: seq<seq<TenantLeaf>>, off: nat)
    requires Aligned(H, hashed, e, history, off)
    ensures off + |e.intervals| <= |history|
    ensures Published(H, e, history, off) && TrueHistory(H, e.projectId, history)
    ensures CollisionFree(H, hashed) && ExportHashed(H, hashed, e, history)
    ensures HoursSound(H, e.projectId, e.intervals)
    ensures Blocker(e) == None
    ensures OwnLeaves(e.projectId, e.intervals) != [] ==>
      ValidSubChain(H, e.projectId, OwnLeaves(e.projectId, e.intervals))
  {
    hide ValidChain;
    hide HourSound;
    hide ValidSubChain;
    hide Committed;
    hide TrueHistory;
    hide ExportHashed;
    hide ExportFormatV1;
    hide PriorExecutions;
  }

  lemma RunStart(e: ChainExport, history: seq<seq<TenantLeaf>>, off: nat)
    requires off + |e.intervals| <= |history|
    ensures RunEndsAt(e, history, off, 0, 0)
  {
    hide ProjectLeaves;
  }

  lemma QuietStep(
      H: HashFn, hashed: set<Bytes>, e: ChainExport, history: seq<seq<TenantLeaf>>, off: nat, k: nat, end: nat)
    requires k < |e.intervals| && off + |e.intervals| <= |history| && e.intervals[k].leaf.None?
    requires RunEndsAt(e, history, off, k, end)
    ensures RunEndsAt(e, history, off, k + 1, end)
  {
    hide OwnOf;
    hide OwnLeaves;
    hide ProjectLeaves;
    OwnLeavesStep(e.projectId, e.intervals, k);
    PositionStep(history, e.projectId, off + k);
  }

  lemma PresentedStep(
      H: HashFn, hashed: set<Bytes>, e: ChainExport, history: seq<seq<TenantLeaf>>, off: nat, k: nat, before: nat)
    requires Aligned(H, hashed, e, history, off) && k < |e.intervals| && e.intervals[k].leaf.Some?
    requires off + |e.intervals| <= |history| && RunEndsAt(e, history, off, k, before)
    ensures RunEndsAt(e, history, off, k + 1, Position(history, e.projectId, off + k) + 1)
  {
    hide Aligned;
    hide OwnLeaves;
    hide ProjectLeaves;
    hide Position;
    PresentedAt(H, hashed, e, history, off, k);
    var p, s := e.projectId, ProjectLeaves(history, e.projectId);
    var own, l, q := OwnLeaves(p, e.intervals[..k]), e.intervals[k].leaf.value, Position(history, p, off + k);
    if own != [] {
      NextPresented(H, hashed, e, history, off, k, before);
    }
    RunGrows(s, own, l, q);
  }

  lemma RunGrows(s: seq<TenantLeaf>, own: seq<TenantLeaf>, l: TenantLeaf, q: nat)
    requires q < |s| && s[q] == l && |own| <= q && (own != [] ==> own == s[q - |own|..q])
    ensures own + [l] == s[q + 1 - |own + [l]|..q + 1]
  {}

  /** A presented leaf, its place in the list of presented leaves and its place in the history. */
  lemma PresentedAt(H: HashFn, hashed: set<Bytes>, e: ChainExport, history: seq<seq<TenantLeaf>>, off: nat, k: nat)
    requires Aligned(H, hashed, e, history, off) && k < |e.intervals| && e.intervals[k].leaf.Some?
    ensures off + |e.intervals| <= |history|
    ensures OwnLeaves(e.projectId, e.intervals[..k + 1])
         == OwnLeaves(e.projectId, e.intervals[..k]) + [e.intervals[k].leaf.value]
    ensures OwnOf(history[off + k], e.projectId) == [e.intervals[k].leaf.value]
    ensures Position(history, e.projectId, off + k + 1) == Position(history, e.projectId, off + k) + 1
    ensures Position(history, e.projectId, off + k) < |ProjectLeaves(history, e.projectId)|
    ensures ProjectLeaves(history, e.projectId)[Position(history, e.projectId, off + k)] == e.intervals[k].leaf.value
  {
    hide Aligned;
    hide Published;
    hide ExportHashed;
    hide TrueHistory;
    hide InclusionVerdict;
    hide FoldOf;
    hide ValidSubChain;
    hide OwnOf;
    hide OwnLeaves;
    hide ProjectLeaves;
    hide Position;
    Parts(H, hashed, e, history, off);
    PresentedIsCommitted(H, hashed, e, history, off, k);
    OwnLeavesStep(e.projectId, e.intervals, k);
    PositionStep(history, e.projectId, off + k);
    var s, q := ProjectLeaves(history, e.projectId), Position(history, e.projectId, off + k);
    assert s[q..q + 1][0] == s[q];
  }

  lemma NextPresented(
      H: HashFn, hashed: set<Bytes>, e: ChainExport, history: seq<seq<TenantLeaf>>, off: nat, k: nat, before: nat)
    requires Aligned(H, hashed, e, history, off) && k < |e.intervals| && e.intervals[k].leaf.Some?
    requires 0 < before <= Position(history, e.projectId, off + k) < |ProjectLeaves(history, e.projectId)|
    requires OwnLeaves(e.projectId, e.intervals[..k]) != []
    requires OwnLeaves(e.projectId, e.intervals[..k + 1])
          == OwnLeaves(e.projectId, e.intervals[..k]) + [e.intervals[k].leaf.value]
    requires var own := OwnLeaves(e.projectId, e.intervals[..k]);
             own[|own| - 1] == ProjectLeaves(history, e.projectId)[before - 1]
    requires ProjectLeaves(history, e.projectId)[Position(history, e.projectId, off + k)] == e.intervals[k].leaf.value
    ensures before == Position(history, e.projectId, off + k)
  {
    hide Aligned;
    hide Published;
    hide ExportHashed;
    hide HourSound;
    hide OwnLeaves;
    hide ProjectLeaves;
    hide Position;
    hide TenantLeafHash;
    hide NoZeroLeaf;
    hide GenesisRooted;
    Parts(H, hashed, e, history, off);
    var p, all := e.projectId, OwnLeaves(e.projectId, e.intervals);
    var n := |OwnLeaves(p, e.intervals[..k])|;
    OwnLeavesPrefix(p, e.intervals, k + 1);
    assert all[n] == OwnLeaves(p, e.intervals[..k + 1])[n] && all[n - 1] == OwnLeaves(p, e.intervals[..k + 1])[n - 1];
    assert LinksTo(H, all[n], all[n - 1]);
    AllHashed(H, hashed, e, history);
    PredecessorIs(H, hashed, p, ProjectLeaves(history, p), before - 1, Position(history, p, off + k));
  }

  lemma AllHashed(H: HashFn, hashed: set<Bytes>, e: ChainExport, history: seq<seq<TenantLeaf>>)
    requires ExportHashed(H, hashed, e, history)
    ensures RecordsHashed(hashed, ProjectLeaves(history, e.projectId))
  {
    hide LeavesHashed;
    hide IntervalHashed;
    hide LeafRecord;
    HistoryRecords(H, hashed, history, e.projectId);
  }

  lemma {:induction false} ExecutionsMonotone(H: HashFn, projectId: Bytes, s: seq<TenantLeaf>, i: nat)
    requires GenesisRooted(H, projectId, s) && i <= |s|
    ensures 0 <= Executions(s[..i]) <= Executions(s)
    decreases |s| - i
  {
    hide TenantLeafHash;
    if i == |s| {
      assert s[..i] == s;
      RootedTotal(H, projectId, s, i - 1);
    } else {
      ExecutionsMonotone(H, projectId, s, i + 1);
      assert s[..i + 1][..i] == s[..i];
      assert s[i].executionCount >= 0 by {
        if i > 0 {
          assert LinksTo(H, s[i], s[i - 1]);
        }
      }
      if i > 0 {
        RootedTotal(H, projectId, s, i - 1);
      }
    }
  }

  /** From the first leaf on, the running total is the number of executions so far. */
  lemma RootedTotal(H: HashFn, projectId: Bytes, s: seq<TenantLeaf>, i: nat)
    requires GenesisRooted(H, projectId, s) && i < |s|
    ensures Executions(s[..i + 1]) >= 0
    ensures s[i].cumulativeCount == Wrap(Executions(s[..i + 1]))
  {
    hide TenantLeafHash;
    var part := s[..i + 1];
    SubChainPart(H, projectId, s, 0, i + 1);
    SubChainConservation(H, projectId, s[0..i + 1]);
    ExecutionsSplit(part);
    WrapOnce(part[0].cumulativeCount, Executions(part[1..]));
  }

  lemma {:induction false} ExecutionsSplit(s: seq<TenantLeaf>)
    requires s != []
    ensures Executions(s) == s[0].executionCount + Executions(s[1..])
  {
    var n := |s| - 1;
    if n == 0 {
      assert s[1..] == [] && s[..0] == [];
    } else {
      ExecutionsSplit(s[..n]);
      assert s[..n][1..] == s[1..][..n - 1];
      assert s[1..][n - 1] == s[n];
    }
  }

  lemma PriorIs(H: HashFn, projectId: Bytes, s: seq<TenantLeaf>, a: nat)
    requires GenesisRooted(H, projectId, s) && a < |s| && Executions(s) < TWO64
    ensures PriorExecutions(s[a]) == Executions(s[..a])
  {
    hide GenesisRooted;
    RootedTotal(H, projectId, s, a);
    ExecutionsMonotone(H, projectId, s, a);
    ExecutionsMonotone(H, projectId, s, a + 1);
    assert s[..a + 1][..a] == s[..a];
    assert s[a].cumulativeCount == Executions(s[..a]) + s[a].executionCount;
    SubtractCount(s[a].cumulativeCount, s[a].executionCount, Executions(s[..a]));
  }

  lemma SubtractCount(total: U64, count: I64, rest: U64)
    requires total == rest + count
    ensures Wrap(total - Wrap(count)) == rest
  {
    if count < 0 {
      assert Wrap(count) == count + TWO64;
    } else {
      assert Wrap(count) == count;
    }
  }

  lemma FirstOrNot(H: HashFn, projectId: Bytes, s: seq<TenantLeaf>, a: nat)
    requires GenesisRooted(H, projectId, s) && NoZeroLeaf(H, s) && a < |s|
    ensures s[a].prevLeafHash == ZeroHash() <==> a == 0
  {
    hide TenantLeafHash;
    hide ZeroHash;
    if a > 0 {
      assert LinksTo(H, s[a], s[a - 1]);
      assert TenantLeafHash(H, s[a - 1]) != ZeroHash();
    }
  }

  /** `own` is the part of `s` that starts at `start`. */
  ghost predicate CarriesRun(own: seq<TenantLeaf>, s: seq<TenantLeaf>, start: nat) {
    start + |own| <= |s| && own == s[start..start + |own|]
  }

  /** What a report on a run from `start` on admits, `skipped` executions having come before. */
  function LimitsFrom(start: nat, skipped: U64): seq<Limit> {
    (if start == 0 then [] else [EarlierRunsNotCovered(skipped)]) + [LogNotResolved, RunsNotOpened, NothingJudged]
  }

  /**
   * A clean export carries a contiguous run of the project's true sub-chain. If the run does not start at the
   * beginning, the report says so and names exactly how many executions it leaves out.
   */
  lemma AlignedOmission(
      H: HashFn, hashed: set<Bytes>, e: ChainExport, history: seq<seq<TenantLeaf>>, off: nat)
    returns (start: nat, skipped: U64)
    requires Aligned(H, hashed, e, history, off) && OwnLeaves(e.projectId, e.intervals) != []
    ensures CarriesRun(OwnLeaves(e.projectId, e.intervals), ProjectLeaves(history, e.projectId), start)
    ensures skipped == Executions(ProjectLeaves(history, e.projectId)[..start])
    ensures ExportLimits(e) == LimitsFrom(start, skipped)
  {
    hide Aligned;
    hide OwnLeaves;
    hide ProjectLeaves;
    hide ExportLimits;
    hide Executions;
    hide Blocker;
    hide TrueHistory;
    hide Published;
    hide ExportHashed;
    hide HourSound;
    hide ValidSubChain;
    Parts(H, hashed, e, history, off);
    var end := RunSoFar(H, hashed, e, history, off, |e.intervals|);
    assert e.intervals[..|e.intervals|] == e.intervals;
    start := end - |OwnLeaves(e.projectId, e.intervals)|;
    skipped := LimitsNameThePrior(H, e, history, start);
  }

  lemma LimitsNameThePrior(H: HashFn, e: ChainExport, history: seq<seq<TenantLeaf>>, start: nat) returns (skipped: U64)
    requires TrueHistory(H, e.projectId, history) && Blocker(e) == None && OwnLeaves(e.projectId, e.intervals) != []
    requires start < |ProjectLeaves(history, e.projectId)|
    requires OwnLeaves(e.projectId, e.intervals)[0] == ProjectLeaves(history, e.projectId)[start]
    ensures skipped == Executions(ProjectLeaves(history, e.projectId)[..start])
    ensures ExportLimits(e) == LimitsFrom(start, skipped)
  {
    hide OwnLeaves;
    hide ProjectLeaves;
    hide GenesisRooted;
    hide NoZeroLeaf;
    hide PriorExecutions;
    hide ZeroHash;
    hide Executions;
    hide Blocker;
    var s := ProjectLeaves(history, e.projectId);
    PriorIs(H, e.projectId, s, start);
    FirstOrNot(H, e.projectId, s, start);
    ExecutionsMonotone(H, e.projectId, s, start);
    skipped := Executions(s[..start]);
  }

  /** Where a presented leaf sits in the project's history. */
  lemma PresentedPosition(
      H: HashFn, hashed: set<Bytes>, e: ChainExport, history: seq<seq<TenantLeaf>>, off: nat, k: nat, start: nat)
    requires Aligned(H, hashed, e, history, off) && k < |e.intervals| && e.intervals[k].leaf.Some?
    requires start + |OwnLeaves(e.projectId, e.intervals)| <= |ProjectLeaves(history, e.projectId)|
    requires OwnLeaves(e.projectId, e.intervals)
          == ProjectLeaves(history, e.projectId)[start..start + |OwnLeaves(e.projectId, e.intervals)|]
    ensures Position(history, e.projectId, off + k) == start + |OwnLeaves(e.projectId, e.intervals[..k])|
    ensures OwnOf(history[off + k], e.projectId) != []
  {
    hide Aligned;
    hide Published;
    hide ExportHashed;
    hide TrueHistory;
    hide HourSound;
    hide ValidSubChain;
    hide OwnLeaves;
    hide ProjectLeaves;
    hide Position;
    Parts(H, hashed, e, history, off);
    PresentedAt(H, hashed, e, history, off, k);
    OwnLeavesPrefix(e.projectId, e.intervals, k + 1);
    var p, s, all := e.projectId, ProjectLeaves(history, e.projectId), OwnLeaves(e.projectId, e.intervals);
    var c, q := |OwnLeaves(p, e.intervals[..k])|, Position(history, p, off + k);
    assert all[c] == OwnLeaves(p, e.intervals[..k + 1])[c];
    assert s[start + c] == s[start..start + |all|][c];
    SamePosition(H, hashed, e, history, q, start + c);
  }

  lemma SamePosition(
      H: HashFn, hashed: set<Bytes>, e: ChainExport, history: seq<seq<TenantLeaf>>, i: nat, j: nat)
    requires TrueHistory(H, e.projectId, history) && CollisionFree(H, hashed) && ExportHashed(H, hashed, e, history)
    requires i < |ProjectLeaves(history, e.projectId)| && j < |ProjectLeaves(history, e.projectId)|
    requires ProjectLeaves(history, e.projectId)[i] == ProjectLeaves(history, e.projectId)[j]
    ensures i == j
  {
    hide GenesisRooted;
    hide NoZeroLeaf;
    hide ProjectLeaves;
    hide ExportHashed;
    AllHashed(H, hashed, e, history);
    if i < j {
      LeavesDistinct(H, hashed, e.projectId, ProjectLeaves(history, e.projectId), i, j);
    } else if j < i {
      LeavesDistinct(H, hashed, e.projectId, ProjectLeaves(history, e.projectId), j, i);
    }
  }

  /** How many real leaves intervals i to j - 1 hold beyond those presented. */
  ghost function Missing(e: ChainExport, history: seq<seq<TenantLeaf>>, off: nat, i: nat, j: nat): int
    requires i <= j <= |e.intervals| && off + |e.intervals| <= |history|
  {
    (Position(history, e.projectId, off + j) - |OwnLeaves(e.projectId, e.intervals[..j])|)
      - (Position(history, e.projectId, off + i) - |OwnLeaves(e.projectId, e.intervals[..i])|)
  }

  lemma {:induction false} MissingGrows(
      H: HashFn, hashed: set<Bytes>, e: ChainExport, history: seq<seq<TenantLeaf>>, off: nat, i: nat, j: nat)
    requires Aligned(H, hashed, e, history, off) && i <= j <= |e.intervals|
    ensures Missing(e, history, off, i, j) >= 0
    decreases j
  {
    hide Aligned;
    hide Position;
    hide OwnLeaves;
    hide Locate;
    if i < j {
      MissingGrows(H, hashed, e, history, off, i, j - 1);
      MissingStep(H, hashed, e, history, off, j - 1);
    }
  }

  lemma HourParts(H: HashFn, hashed: set<Bytes>, e: ChainExport, history: seq<seq<TenantLeaf>>, off: nat, k: nat)
    requires Aligned(H, hashed, e, history, off) && k < |e.intervals|
    ensures off + |e.intervals| <= |history| && !Locate(history[off + k], e.projectId).Twice?
    ensures e.intervals[k].leaf.Some? ==> e.intervals[k].leaf.value.projectId == e.projectId
    ensures e.intervals[k].leaf.Some? ==> OwnOf(history[off + k], e.projectId) == [e.intervals[k].leaf.value]
  {
    hide Clean, Committed, ExportHashed, TrueHistory, InclusionVerdict, FoldOf, Locate, OwnOf;
    Parts(H, hashed, e, history, off);
    if e.intervals[k].leaf.Some? {
      PresentedIsCommitted(H, hashed, e, history, off, k);
    }
  }

  lemma MissingStep(H: HashFn, hashed: set<Bytes>, e: ChainExport, history: seq<seq<TenantLeaf>>, off: nat, k: nat)
    requires Aligned(H, hashed, e, history, off) && k < |e.intervals|
    ensures off + |e.intervals| <= |history|
    ensures Missing(e, history, off, k, k + 1)
         == if e.intervals[k].leaf.None? && Locate(history[off + k], e.projectId).At? then 1 else 0
    ensures e.intervals[k].leaf.Some? ==> Locate(history[off + k], e.projectId).At?
  {
    hide Aligned, OwnLeaves, ProjectLeaves, Position, Locate;
    HourParts(H, hashed, e, history, off, k);
    PositionStep(history, e.projectId, off + k);
    OwnLeavesStep(e.projectId, e.intervals, k);
  }

  /** Between two presented hours no hour is hidden: one shown as quiet held nothing for this project. */
  lemma AlignedNoHiddenHour(
      H: HashFn, hashed: set<Bytes>, e: ChainExport, history: seq<seq<TenantLeaf>>, off: nat, i: nat, k: nat, j: nat)
    requires Aligned(H, hashed, e, history, off) && i <= k < j < |e.intervals|
    requires e.intervals[i].leaf.Some? && e.intervals[j].leaf.Some?
    ensures off + |e.intervals| <= |history|
    ensures e.intervals[k].leaf.Some? <==> Locate(history[off + k], e.projectId).At?
  {
    hide Aligned;
    hide Position;
    hide OwnLeaves;
    hide ProjectLeaves;
    hide Locate;
    hide Executions;
    hide ExportLimits;
    PresentedNonempty(H, hashed, e, history, off, i);
    var start, _ := AlignedOmission(H, hashed, e, history, off);
    PresentedPosition(H, hashed, e, history, off, i, start);
    PresentedPosition(H, hashed, e, history, off, j, start);
    assert Missing(e, history, off, i, j) == 0;
    MissingGrows(H, hashed, e, history, off, i, k);
    MissingStep(H, hashed, e, history, off, k);
    MissingGrows(H, hashed, e, history, off, k + 1, j);
  }

  lemma PresentedNonempty(
      H: HashFn, hashed: set<Bytes>, e: ChainExport, history: seq<seq<TenantLeaf>>, off: nat, k: nat)
    requires Aligned(H, hashed, e, history, off) && k < |e.intervals| && e.intervals[k].leaf.Some?
    ensures OwnLeaves(e.projectId, e.intervals) != []
    ensures off + |e.intervals| <= |history|
  {
    hide OwnLeaves;
    hide ValidChain;
    hide InclusionVerdict;
    hide FoldOf;
    assert HourSound(H, e.projectId, e.intervals[k]);
    OwnLeavesStep(e.projectId, e.intervals, k);
    OwnLeavesPrefix(e.projectId, e.intervals, k + 1);
    assert |OwnLeaves(e.projectId, e.intervals[..k + 1])| > 0;
  }

  // ----- over the published chain

  /** What the operator published: the chain, what it was checked against, and the leaves behind each checkpoint. */
  datatype Ledger = Ledger(interval: Duration, chain: seq<Checkpoint>, history: seq<seq<TenantLeaf>>)

  /** An accepted chain from checkpoint 1 on, each checkpoint committing to at most one leaf of the project. */
  ghost predicate OnRecord(H: HashFn, l: Ledger, projectId: Bytes) {
    && l.chain != [] && l.chain[0].seqNo == 1
    && |l.chain| == |l.history|
    && (forall i :: 0 <= i < |l.chain| ==> Committed(H, l.chain[i], l.history[i]))
    && (forall i :: 0 <= i < |l.history| ==> !Locate(l.history[i], projectId).Twice?)
    && ValidChain(H, l.chain, l.interval)
  }

  /** The project has a leaf behind checkpoint i of the published chain. */
  predicate HasLeafAt(l: Ledger, projectId: Bytes, i: int) {
    0 <= i < |l.history| && Locate(l.history[i], projectId).At?
  }

  /** All an auditor must know of the published chain: the hash of the checkpoint the export ends with. */
  ghost predicate EndsAt(e: ChainExport, l: Ledger, n: nat) {
    e.intervals != [] && n < |l.chain| && e.intervals[|e.intervals| - 1].checkpoint.hash == l.chain[n].hash
  }

  /** `hashed` holds every string hashed for the export and for what was published. */
  ghost predicate AllHashedFor(H: HashFn, hashed: set<Bytes>, e: ChainExport, l: Ledger) {
    && ExportHashed(H, hashed, e, l.history)
    && ChainHashed(hashed, l.chain) && ChainHashed(hashed, CheckpointsOf(e.intervals))
  }

  /** Everything the omission results assume; nothing ties the export's other checkpoints to the published ones. */
  ghost predicate Setting(H: HashFn, hashed: set<Bytes>, e: ChainExport, l: Ledger, n: nat) {
    && Clean(H, e)
    && OnRecord(H, l, e.projectId) && EndsAt(e, l, n)
    && TrueHistory(H, e.projectId, l.history)
    && CollisionFree(H, hashed) && AllHashedFor(H, hashed, e, l)
  }

  /** The export's checkpoints are those of the published chain from `off` on, in every hashed field. */
  ghost predicate ShowsWindow(e: ChainExport, l: Ledger, off: int) {
    && 0 <= off && off + |e.intervals| <= |l.chain|
    && forall k :: 0 <= k < |e.intervals| ==> Stored(e.intervals[k].checkpoint) == Stored(l.chain[off + k])
  }

  lemma CommittedStored(H: HashFn, a: Checkpoint, b: Checkpoint, leaves: seq<TenantLeaf>)
    requires Stored(a) == Stored(b) && Committed(H, b, leaves)
    ensures Committed(H, a, leaves)
  {
    hide IntervalRoot, Truncate;
  }

  ghost predicate LastHash(cps: seq<Checkpoint>, hash: Bytes) {
    cps != [] && cps[|cps| - 1].hash == hash
  }

  lemma SettingParts(H: HashFn, hashed: set<Bytes>, e: ChainExport, l: Ledger, n: nat)
    requires Setting(H, hashed, e, l, n)
    ensures n < |l.chain| == |l.history|
    ensures LastHash(CheckpointsOf(e.intervals), l.chain[n].hash) && l.chain[0].seqNo == 1
    ensures ValidChain(H, CheckpointsOf(e.intervals), IntervalOf(e.intervalSeconds))
    ensures ValidChain(H, l.chain, l.interval)
    ensures CollisionFree(H, hashed) && ChainHashed(hashed, l.chain) && ChainHashed(hashed, CheckpointsOf(e.intervals))
  {
    hide ValidChain, Committed, TrueHistory, ExportHashed, ChainHashed, HoursSound, OwnSound, Logged, LinksPublished;
    hide Locate, ExportFormatV1, CollisionFree;
  }

  /** Where in the published chain the export begins. */
  function Offset(e: ChainExport, n: nat): int {
    n + 1 - |e.intervals|
  }

  /**
   * A clean export is a whole window of the published chain: no checkpoint can be left out, put in or replaced, and
   * it cannot reach back before checkpoint 1.
   */
  lemma WindowIsPublished(H: HashFn, hashed: set<Bytes>, e: ChainExport, l: Ledger, n: nat)
    requires Setting(H, hashed, e, l, n)
    ensures n < |l.chain| && ShowsWindow(e, l, Offset(e, n))
  {
    hide Setting, ValidChain, ChainHashed, Stored, CollisionFree, Committed;
    SettingParts(H, hashed, e, l, n);
    var a, b := CheckpointsOf(e.intervals), l.chain[0..n + 1];
    SubWindow(H, l.chain, l.interval, 0, n + 1);
    ChainHashedPart(hashed, l.chain, n + 1);
    assert b[0] == l.chain[0] && b[|b| - 1] == l.chain[n];
    if |a| <= |b| {
      ChainBinding(H, hashed, a, IntervalOf(e.intervalSeconds), b, l.interval);
    } else {
      ChainBinding(H, hashed, b, l.interval, a, IntervalOf(e.intervalSeconds));
    }
    forall k | 0 <= k < |e.intervals|
      ensures Stored(e.intervals[k].checkpoint) == Stored(l.chain[Offset(e, n) + k])
    {
      assert a[k] == e.intervals[k].checkpoint && b[|b| - |a| + k] == l.chain[Offset(e, n) + k];
    }
  }

  lemma ChainHashedPart(hashed: set<Bytes>, cps: seq<Checkpoint>, n: nat)
    requires ChainHashed(hashed, cps) && n <= |cps|
    ensures ChainHashed(hashed, cps[0..n])
  {
    hide CheckpointRecord, LeafPreimage;
  }

  lemma SettingAligned(H: HashFn, hashed: set<Bytes>, e: ChainExport, l: Ledger, n: nat)
    requires Setting(H, hashed, e, l, n)
    ensures n < |l.chain| == |l.history| && Offset(e, n) >= 0
    ensures Aligned(H, hashed, e, l.history, Offset(e, n))
  {
    hide ValidChain, Committed, Stored, ExportHashed, TrueHistory, Clean, CollisionFree, ChainHashed, Locate;
    WindowIsPublished(H, hashed, e, l, n);
    var off := Offset(e, n);
    forall k | 0 <= k < |e.intervals|
      ensures Committed(H, e.intervals[k].checkpoint, l.history[off + k])
    {
      CommittedStored(H, e.intervals[k].checkpoint, l.chain[off + k], l.history[off + k]);
    }
  }

  /**
   * A clean export that ends with a published checkpoint carries a contiguous run of the project's true sub-chain. If
   * the run does not start at the beginning, the report says so and names exactly how many executions it leaves out.
   */
  lemma OmissionDetected(H: HashFn, hashed: set<Bytes>, e: ChainExport, l: Ledger, n: nat)
    returns (start: nat, skipped: U64)
    requires Setting(H, hashed, e, l, n) && OwnLeaves(e.projectId, e.intervals) != []
    ensures CarriesRun(OwnLeaves(e.projectId, e.intervals), ProjectLeaves(l.history, e.projectId), start)
    ensures skipped == Executions(ProjectLeaves(l.history, e.projectId)[..start])
    ensures ExportLimits(e) == LimitsFrom(start, skipped)
  {
    hide Setting, Aligned, OwnLeaves, ProjectLeaves, Executions, ExportLimits;
    SettingAligned(H, hashed, e, l, n);
    start, skipped := AlignedOmission(H, hashed, e, l.history, Offset(e, n));
  }

  /** Between two presented hours no hour is hidden: one shown as quiet held nothing for this project. */
  lemma NoHiddenHour(H: HashFn, hashed: set<Bytes>, e: ChainExport, l: Ledger, n: nat, i: nat, k: nat, j: nat)
    requires Setting(H, hashed, e, l, n) && i <= k < j < |e.intervals|
    requires e.intervals[i].leaf.Some? && e.intervals[j].leaf.Some?
    ensures n < |l.history| && Offset(e, n) >= 0
    ensures e.intervals[k].leaf.Some? <==> HasLeafAt(l, e.projectId, Offset(e, n) + k)
  {
    hide Setting, Aligned, Locate;
    SettingAligned(H, hashed, e, l, n);
    AlignedNoHiddenHour(H, hashed, e, l.history, Offset(e, n), i, k, j);
  }

  // ----- the strings hashed, computed

  function DataQueries(H: HashFn, data: seq<Bytes>): set<Bytes> {
    (set i | 0 <= i < |data| :: LeafPreimage(data[i])) + TreeQueries(H, LeafHashes(H, data))
  }

  function HistoryQueries(H: HashFn, history: seq<seq<TenantLeaf>>): set<Bytes> {
    if history == [] then {}
    else HistoryQueries(H, history[..|history| - 1]) + DataQueries(H, LeafRecords(history[|history| - 1]))
  }

  function IntervalQueries(H: HashFn, iv: ExportedInterval): set<Bytes> {
    (if iv.leaf.Some? then {LeafPreimage(LeafRecord(iv.leaf.value))} else {})
      + if iv.proof.Some? then ProofQueries(H, iv.proof.value) else {}
  }

  function IntervalsQueries(H: HashFn, ivs: seq<ExportedInterval>): set<Bytes> {
    if ivs == [] then {} else IntervalsQueries(H, ivs[..|ivs| - 1]) + IntervalQueries(H, ivs[|ivs| - 1])
  }

  /** Exactly the strings hashed for the export and for what was published. */
  function ExportQueries(H: HashFn, e: ChainExport, l: Ledger): set<Bytes> {
    HistoryQueries(H, l.history) + IntervalsQueries(H, e.intervals)
      + ChainQueries(l.chain) + ChainQueries(CheckpointsOf(e.intervals))
  }

  lemma DataQueriesCover(H: HashFn, hashed: set<Bytes>, data: seq<Bytes>)
    requires DataQueries(H, data) <= hashed
    ensures DataHashed(H, hashed, data)
  {
    hide LeafPreimage, TreeQueries, TreeHashed, LeafHashes;
    QueriesCoverTree(H, hashed, LeafHashes(H, data));
    forall i | 0 <= i < |data|
      ensures LeafPreimage(data[i]) in hashed
    {
      assert LeafPreimage(data[i]) in DataQueries(H, data);
    }
  }

  lemma {:induction false} HistoryQueriesCover(H: HashFn, hashed: set<Bytes>, history: seq<seq<TenantLeaf>>)
    requires HistoryQueries(H, history) <= hashed
    ensures forall i :: 0 <= i < |history| ==> LeavesHashed(H, hashed, history[i])
  {
    hide DataQueries, DataHashed, LeafRecords;
    if history != [] {
      var n := |history| - 1;
      HistoryQueriesCover(H, hashed, history[..n]);
      DataQueriesCover(H, hashed, LeafRecords(history[n]));
      assert LeavesHashed(H, hashed, history[n]);
      assert forall i :: 0 <= i < n ==> history[..n][i] == history[i];
    }
  }

  lemma IntervalQueriesCover(H: HashFn, hashed: set<Bytes>, iv: ExportedInterval)
    requires IntervalQueries(H, iv) <= hashed
    ensures IntervalHashed(H, hashed, iv)
  {
    hide LeafPreimage, LeafRecord, ProofQueries, ProofHashed;
    if iv.proof.Some? {
      ProofQueriesCover(H, hashed, iv.proof.value);
    }
  }

  lemma {:induction false} IntervalsQueriesCover(H: HashFn, hashed: set<Bytes>, ivs: seq<ExportedInterval>)
    requires IntervalsQueries(H, ivs) <= hashed
    ensures forall k :: 0 <= k < |ivs| ==> IntervalHashed(H, hashed, ivs[k])
  {
    hide IntervalQueries, IntervalHashed;
    if ivs != [] {
      var n := |ivs| - 1;
      IntervalsQueriesCover(H, hashed, ivs[..n]);
      IntervalQueriesCover(H, hashed, ivs[n]);
      assert forall k :: 0 <= k < n ==> ivs[..n][k] == ivs[k];
    }
  }

  lemma ExportQueriesCover(H: HashFn, e: ChainExport, l: Ledger)
    ensures AllHashedFor(H, ExportQueries(H, e, l), e, l)
  {
    hide HistoryQueries, IntervalsQueries, ChainQueries, LeavesHashed, IntervalHashed, ChainHashed, CheckpointsOf;
    var hashed := ExportQueries(H, e, l);
    HistoryQueriesCover(H, hashed, l.history);
    IntervalsQueriesCover(H, hashed, e.intervals);
    ChainQueriesCover(hashed, l.chain);
    ChainQueriesCover(hashed, CheckpointsOf(e.intervals));
  }

  /** For a clean export over a published chain: a collision, or everything the omission results assume. */
  method FindExportCollision(H: HashFn, e: ChainExport, l: Ledger, n: nat) returns (r: Option<(Bytes, Bytes)>)
    requires Clean(H, e) && OnRecord(H, l, e.projectId) && EndsAt(e, l, n) && TrueHistory(H, e.projectId, l.history)
    ensures r.Some? ==> IsCollision(H, r.value.0, r.value.1)
    ensures r.None? ==> Setting(H, ExportQueries(H, e, l), e, l, n)
  {
    hide ExportQueries, AllHashedFor, Clean, OnRecord, EndsAt, TrueHistory, CollisionFree;
    r := FindCollision(H, ExportQueries(H, e, l));
    ExportQueriesCover(H, e, l);
  }

  /** In a clean export an hour's execution list is the one its leaf was folded from, digest by digest. */
  lemma ExecutionsBound(H: HashFn, hashed: set<Bytes>, projectId: Bytes, iv: ExportedInterval, digests: seq<Bytes>)
    requires HourSound(H, projectId, iv) && iv.leaf.Some?
    requires FoldOf(H, digests) == Ok(iv.leaf.value.intervalRoot) && |digests| == iv.leaf.value.executionCount
    requires DecodeAll(digests).Some? && DecodeAll(Digests(iv.executions)).Some? && CollisionFree(H, hashed)
    requires TreeHashed(H, hashed, DecodeAll(digests).value)
    requires TreeHashed(H, hashed, DecodeAll(Digests(iv.executions)).value)
    ensures DecodeAll(Digests(iv.executions)) == DecodeAll(digests)
  {
    hide FoldOf;
    hide DecodeAll;
    hide InclusionVerdict;
    hide TreeHashed;
    FoldBinding(H, hashed, Digests(iv.executions), digests);
  }
}
