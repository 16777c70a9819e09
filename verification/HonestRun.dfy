/**
 * An honest operator's run: checkpoints built one after the other, each published, every project's leaves
 * chained. Any window of it exports to a document that verifies.
 */
module HonestRun {
  import opened Wrappers
  import opened GoBytes
  import opened GoTime
  import opened Hashing
  import opened Checkpoints
  import opened ChainProperties
  import opened TenantChain
  import opened Export
  import opened ExportProperties

  /** The build calls, what they returned, where each was published, and the project's executions per interval. */
  datatype Run = Run(
    calls: seq<BuildCall>, cps: seq<Checkpoint>, logIds: seq<Bytes>, executions: seq<seq<ExportedExecution>>)

  function History(run: Run): (h: seq<seq<TenantLeaf>>)
    ensures |h| == |run.calls|
  {
    seq(|run.calls|, i requires 0 <= i < |run.calls| => run.calls[i].params.leaves)
  }

  /** The chain half: grown from nothing without overflow, every predecessor's log entry passed on. */
  ghost predicate HonestChain(H: HashFn, interval: Duration, run: Run) {
    && Grown(H, interval, run.calls, run.cps) && run.calls != []
    && |run.calls| < TWO64 && TotalExecutions(run.calls) < TWO64
    && |run.logIds| == |run.calls|
    && (forall i :: 0 <= i < |run.logIds| ==> run.logIds[i] != [])
    && forall i :: 0 < i < |run.calls| ==> run.calls[i].params.prevLogEntryId == run.logIds[i - 1]
  }

  /** A leaf that says what the executions say: their number, and their fold when there are any. */
  ghost predicate LeafMatches(H: HashFn, leaf: TenantLeaf, executions: seq<ExportedExecution>) {
    && leaf.executionCount == |executions|
    && (executions != [] ==> FoldOf(H, Digests(executions)) == Ok(leaf.intervalRoot))
  }

  ghost predicate HourMatches(H: HashFn, projectId: Bytes, leaves: seq<TenantLeaf>, executions: seq<ExportedExecution>) {
    match Locate(leaves, projectId)
    case Twice(_, _) => false
    case Absent => executions == []
    case At(j) => LeafMatches(H, leaves[j], executions)
  }

  /** The project half: at most one leaf an interval, matching its executions, chained from the first one on. */
  ghost predicate HonestProject(H: HashFn, projectId: Bytes, run: Run) {
    && projectId != []
    && |run.executions| == |run.calls|
    && (forall i :: 0 <= i < |run.calls| ==> HourMatches(H, projectId, run.calls[i].params.leaves, run.executions[i]))
    && TrueHistory(H, projectId, History(run))
  }

  /** What is exported for interval i: the checkpoint, its log entry, and the project's leaf with its proof. */
  function IntervalExport(H: HashFn, projectId: Bytes, run: Run, i: nat): ExportedInterval
    requires i < |run.calls| == |run.cps| == |run.logIds| == |run.executions|
  {
    var leaves := run.calls[i].params.leaves;
    var found := Locate(leaves, projectId);
    var proof := TenantProof(H, run.cps[i], leaves, projectId);
    ExportedInterval(run.cps[i], run.logIds[i],
                     if found.At? then Some(leaves[found.index]) else None,
                     if proof.Ok? then Some(proof.value) else None, run.executions[i])
  }

  function WindowExport(H: HashFn, projectId: Bytes, seconds: I64, run: Run, lo: nat, hi: nat): (e: ChainExport)
    requires lo <= hi <= |run.calls| == |run.cps| == |run.logIds| == |run.executions|
    ensures |e.intervals| == hi - lo
  {
    ChainExport(ExportFormatV1(), projectId, seconds,
                seq(hi - lo, k requires 0 <= k < hi - lo => IntervalExport(H, projectId, run, lo + k)))
  }

  // ----- each hour of the window

  lemma BuiltCommits(H: HashFn, p: CheckpointParams, clock: Time)
    requires |p.leaves| <= MAX_DURATION && Built(H, p, clock).Ok?
    ensures Committed(H, Built(H, p, clock).value, p.leaves)
    ensures Built(H, p, clock).value.prevLogEntryId == p.prevLogEntryId
  {
    hide CheckpointHash;
    hide IntervalRoot;
    hide Added;
    hide AlignedTo;
    hide Sub;
    IntervalRootPresent(H, p.leaves);
  }

  lemma RunLengths(H: HashFn, interval: Duration, run: Run, i: nat)
    requires HonestChain(H, interval, run) && i < |run.calls|
    ensures |run.calls| == |run.cps| == |run.logIds| && run.logIds[i] != []
    ensures Committed(H, run.cps[i], run.calls[i].params.leaves)
    ensures i > 0 ==> run.cps[i].prevLogEntryId == run.logIds[i - 1]
  {
    hide Built;
    hide Committed;
    hide TotalExecutions;
    BuiltCommits(H, run.calls[i].params, run.calls[i].clock);
  }

  /** A leaf is shown only where there are executions to fold. */
  ghost predicate Foldable(run: Run, projectId: Bytes, i: nat)
    requires i < |run.calls| == |run.executions|
  {
    Locate(run.calls[i].params.leaves, projectId).At? ==> run.executions[i] != []
  }

  /** An hour of the window is sound unless it shows a leaf without executions, whose list cannot be folded. */
  lemma HourVerifies(H: HashFn, interval: Duration, projectId: Bytes, run: Run, i: nat)
    requires HonestChain(H, interval, run) && HonestProject(H, projectId, run) && i < |run.calls|
    requires |run.calls| == |run.cps| == |run.logIds|
    ensures HourSound(H, projectId, IntervalExport(H, projectId, run, i))
       <==> Foldable(run, projectId, i)
  {
    hide HonestChain;
    hide TrueHistory;
    hide TenantProof;
    hide InclusionVerdict;
    hide FoldOf;
    hide Committed;
    var leaves := run.calls[i].params.leaves;
    RunLengths(H, interval, run, i);
    assert HourMatches(H, projectId, leaves, run.executions[i]);
    var found := Locate(leaves, projectId);
    if found.At? {
      hide Locate;
      TenantProofComplete(H, run.cps[i], leaves, projectId);
      EmptyFolds(H, run.executions[i]);
    } else {
      hide Locate;
      NoLeafNoProof(H, run.cps[i], leaves, projectId);
    }
  }

  lemma EmptyFolds(H: HashFn, executions: seq<ExportedExecution>)
    ensures executions == [] ==> FoldOf(H, Digests(executions)).Err?
  {}

  lemma NoLeafNoProof(H: HashFn, c: Checkpoint, leaves: seq<TenantLeaf>, projectId: Bytes)
    requires Locate(leaves, projectId).Absent?
    ensures TenantProof(H, c, leaves, projectId).Err?
  {
    hide LeavesVerdict;
  }

  // ----- the window as a whole

  lemma WindowChain(H: HashFn, seconds: I64, projectId: Bytes, run: Run, lo: nat, hi: nat)
    requires 0 < seconds && seconds * SECOND <= MAX_DURATION
    requires HonestChain(H, seconds * SECOND, run) && lo < hi <= |run.calls|
    requires |run.calls| == |run.cps| == |run.logIds| == |run.executions|
    ensures var e := WindowExport(H, projectId, seconds, run, lo, hi);
            && IntervalOf(e.intervalSeconds) == seconds * SECOND
            && ValidChain(H, CheckpointsOf(e.intervals), IntervalOf(e.intervalSeconds))
  {
    hide ValidChain;
    hide Grown;
    hide TotalExecutions;
    GrownIsValid(H, seconds * SECOND, run.calls, run.cps);
    SubWindow(H, run.cps, seconds * SECOND, lo, hi);
    var e := WindowExport(H, projectId, seconds, run, lo, hi);
    WindowCheckpoints(H, projectId, seconds, run, lo, hi);
  }

  lemma WindowCheckpoints(H: HashFn, projectId: Bytes, seconds: I64, run: Run, lo: nat, hi: nat)
    requires lo <= hi <= |run.calls| == |run.cps| == |run.logIds| == |run.executions|
    ensures CheckpointsOf(WindowExport(H, projectId, seconds, run, lo, hi).intervals) == run.cps[lo..hi]
  {
    hide IntervalExport;
    var e := WindowExport(H, projectId, seconds, run, lo, hi);
    forall k | 0 <= k < hi - lo
      ensures CheckpointsOf(e.intervals)[k] == run.cps[lo..hi][k]
    {
      CheckpointOfInterval(H, projectId, run, lo + k);
    }
  }

  lemma CheckpointOfInterval(H: HashFn, projectId: Bytes, run: Run, i: nat)
    requires i < |run.calls| == |run.cps| == |run.logIds| == |run.executions|
    ensures IntervalExport(H, projectId, run, i).checkpoint == run.cps[i]
    ensures IntervalExport(H, projectId, run, i).logEntryId == run.logIds[i]
  {
    hide TenantProof;
    hide Locate;
  }

  lemma WindowPublished(H: HashFn, interval: Duration, projectId: Bytes, seconds: I64, run: Run, lo: nat, hi: nat)
    requires HonestChain(H, interval, run)
    requires lo <= hi <= |run.calls| == |run.cps| == |run.logIds| == |run.executions|
    ensures var ivs := WindowExport(H, projectId, seconds, run, lo, hi).intervals;
            Logged(ivs) && LinksPublished(ivs)
  {
    hide HonestChain;
    hide IntervalExport;
    hide Committed;
    var ivs := WindowExport(H, projectId, seconds, run, lo, hi).intervals;
    forall k | 0 <= k < |ivs|
      ensures ivs[k].logEntryId != []
      ensures k > 0 ==> ivs[k].checkpoint.prevLogEntryId == ivs[k - 1].logEntryId
    {
      RunLengths(H, interval, run, lo + k);
      CheckpointOfInterval(H, projectId, run, lo + k);
      if k > 0 {
        CheckpointOfInterval(H, projectId, run, lo + k - 1);
        assert ivs[k - 1] == IntervalExport(H, projectId, run, lo + k - 1);
      }
    }
  }

  /** The leaves presented are the project's leaves of exactly those intervals. */
  lemma {:induction false} WindowLeaves(
      H: HashFn, projectId: Bytes, seconds: I64, run: Run, lo: nat, hi: nat, k: nat)
    requires lo + k <= hi <= |run.calls| == |run.cps| == |run.logIds| == |run.executions|
    ensures Position(History(run), projectId, lo) <= Position(History(run), projectId, lo + k)
    ensures Position(History(run), projectId, lo + k) <= |ProjectLeaves(History(run), projectId)|
    ensures OwnLeaves(projectId, WindowExport(H, projectId, seconds, run, lo, hi).intervals[..k])
         == ProjectLeaves(History(run), projectId)
              [Position(History(run), projectId, lo)..Position(History(run), projectId, lo + k)]
  {
    hide ProjectLeaves, Position, OwnLeaves, OwnOf, IntervalExport;
    var h, ivs := History(run), WindowExport(H, projectId, seconds, run, lo, hi).intervals;
    PositionInRange(h, projectId, lo + k);
    NothingShown(projectId, ivs);
    if k > 0 {
      WindowLeaves(H, projectId, seconds, run, lo, hi, k - 1);
      PositionStep(h, projectId, lo + k - 1);
      LeafOfInterval(H, projectId, run, lo + k - 1);
      assert ivs[k - 1] == IntervalExport(H, projectId, run, lo + k - 1);
      assert h[lo + k - 1] == run.calls[lo + k - 1].params.leaves;
      OwnLeavesStep(projectId, ivs, k - 1);
    }
  }

  lemma NothingShown(projectId: Bytes, ivs: seq<ExportedInterval>)
    ensures OwnLeaves(projectId, ivs[..0]) == []
  {}

  lemma PositionInRange(history: seq<seq<TenantLeaf>>, projectId: Bytes, n: nat)
    requires n <= |history|
    ensures Position(history, projectId, n) <= |ProjectLeaves(history, projectId)|
  {
    hide ProjectLeaves;
    ProjectLeavesPrefix(history, projectId, n);
  }

  lemma LeafOfInterval(H: HashFn, projectId: Bytes, run: Run, i: nat)
    requires i < |run.calls| == |run.cps| == |run.logIds| == |run.executions|
    ensures AsSeq(IntervalExport(H, projectId, run, i).leaf) == OwnOf(run.calls[i].params.leaves, projectId)
    ensures var leaf := IntervalExport(H, projectId, run, i).leaf; leaf.Some? ==> leaf.value.projectId == projectId
  {
    hide TenantProof;
  }

  lemma WindowSubChain(H: HashFn, projectId: Bytes, s: seq<TenantLeaf>, a: nat, b: nat)
    requires GenesisRooted(H, projectId, s) && NoZeroLeaf(H, s) && Executions(s) < TWO64 && a < b <= |s|
    ensures ValidSubChain(H, projectId, s[a..b])
    ensures s[a..b][0].prevLeafHash == ZeroHash() ==> PriorExecutions(s[a..b][0]) == 0
  {
    SubChainPart(H, projectId, s, a, b);
    FirstOrNot(H, projectId, s, a);
    PriorIs(H, projectId, s, a);
    assert s[..0] == [];
  }

  lemma WindowOwn(H: HashFn, projectId: Bytes, seconds: I64, run: Run, lo: nat, hi: nat)
    requires lo <= hi <= |run.calls| == |run.cps| == |run.logIds| == |run.executions|
    requires TrueHistory(H, projectId, History(run))
    ensures OwnSound(H, projectId, OwnLeaves(projectId, WindowExport(H, projectId, seconds, run, lo, hi).intervals))
  {
    hide ProjectLeaves;
    hide OwnLeaves;
    hide TenantProof;
    hide Locate;
    hide GenesisRooted;
    hide NoZeroLeaf;
    hide ValidSubChain;
    hide PriorExecutions;
    hide ZeroHash;
    var h, ivs := History(run), WindowExport(H, projectId, seconds, run, lo, hi).intervals;
    WindowLeaves(H, projectId, seconds, run, lo, hi, hi - lo);
    assert ivs[..hi - lo] == ivs;
    var a, b := Position(h, projectId, lo), Position(h, projectId, hi);
    if a < b {
      WindowSubChain(H, projectId, ProjectLeaves(h, projectId), a, b);
    }
  }

  /**
   * Any window of an honest run exports to a document whose report is OK, exactly when no leaf in it stands for
   * an hour without executions: the builder accepts such a leaf, the verifier cannot fold its empty list.
   */
  lemma HonestWindowVerifies(H: HashFn, projectId: Bytes, seconds: I64, run: Run, lo: nat, hi: nat)
    requires 0 < seconds && seconds * SECOND <= MAX_DURATION
    requires HonestChain(H, seconds * SECOND, run) && HonestProject(H, projectId, run)
    requires lo < hi <= |run.calls| && |run.cps| == |run.logIds| == |run.calls|
    ensures AllOk(ExportFindings(H, WindowExport(H, projectId, seconds, run, lo, hi)))
       <==> forall i :: lo <= i < hi ==> Foldable(run, projectId, i)
  {
    hide HonestChain;
    hide TrueHistory;
    hide HourMatches;
    hide Locate;
    hide TenantProof;
    hide HourSound;
    hide ValidChain;
    hide LinksPublished;
    hide OwnLeaves;
    hide ValidSubChain;
    hide PriorExecutions;
    hide ZeroHash;
    hide ExportFindings;
    hide Foldable;
    hide IntervalExport;
    var e := WindowExport(H, projectId, seconds, run, lo, hi);
    OkMeansClean(H, e);
    WindowChain(H, seconds, projectId, run, lo, hi);
    WindowPublished(H, seconds * SECOND, projectId, seconds, run, lo, hi);
    WindowOwn(H, projectId, seconds, run, lo, hi);
    forall k | 0 <= k < hi - lo
      ensures HourSound(H, projectId, e.intervals[k]) <==> Foldable(run, projectId, lo + k)
    {
      HourVerifies(H, seconds * SECOND, projectId, run, lo + k);
    }
    HoursShifted(H, projectId, run, e, lo, hi);
  }

  /** The same hours, counted from the window's start and from the run's. */
  lemma HoursShifted(H: HashFn, projectId: Bytes, run: Run, e: ChainExport, lo: nat, hi: nat)
    requires lo <= hi <= |run.calls| == |run.executions| && |e.intervals| == hi - lo
    requires forall k :: 0 <= k < hi - lo ==>
      (HourSound(H, projectId, e.intervals[k]) <==> Foldable(run, projectId, lo + k))
    ensures HoursSound(H, projectId, e.intervals)
       <==> forall i :: lo <= i < hi ==> Foldable(run, projectId, i)
  {
    hide HourSound;
    hide Foldable;
    if HoursSound(H, projectId, e.intervals) {
      forall i | lo <= i < hi
        ensures Foldable(run, projectId, i)
      {
        assert HourSound(H, projectId, e.intervals[i - lo]);
        assert lo + (i - lo) == i;
      }
    }
  }

  /** A project's first leaf, kept over an hour in which it ran nothing. */
  function IdleLeaf(): TenantLeaf {
    TenantLeaf([7], [], 0, 0, ZeroHash())
  }

  function IdleParams(interval: Duration): CheckpointParams {
    CheckpointParams(None, [], 0, interval, interval, [IdleLeaf()], 1)
  }

  lemma IdleBuilds(H: HashFn, interval: Duration)
    requires interval > 0
    ensures Built(H, IdleParams(interval), 0).Ok?
  {
    hide Built;
    assert Truncate(0, interval) == 0;
    BuiltExactly(H, IdleParams(interval), 0);
  }

  lemma IdleFound()
    ensures Locate([IdleLeaf()], [7]) == At(0)
  {
    assert [IdleLeaf()][..0] == [] && Locate([], [7]) == Absent;
  }

  lemma IdleSubChain(H: HashFn)
    requires TenantLeafHash(H, IdleLeaf()) != ZeroHash()
    ensures Locate([IdleLeaf()], [7]) == At(0)
    ensures TrueHistory(H, [7], [[IdleLeaf()]])
  {
    hide TenantLeafHash, ZeroHash, Locate;
    IdleFound();
    var leaf := IdleLeaf();
    assert [leaf][..0] == [] && [[leaf]][..0] == [] && ProjectLeaves([], [7]) == [];
    assert ProjectLeaves([[leaf]], [7]) == OwnOf([leaf], [7]) == [leaf];
  }

  function IdleRun(H: HashFn, interval: Duration): Run
    requires interval > 0
  {
    IdleBuilds(H, interval);
    Run([BuildCall(IdleParams(interval), 0)], [Built(H, IdleParams(interval), 0).value], [[1]], [[]])
  }

  lemma IdleRunChain(H: HashFn, interval: Duration)
    requires interval > 0
    ensures HonestChain(H, interval, IdleRun(H, interval))
  {
    hide Built;
    IdleBuilds(H, interval);
    assert [BuildCall(IdleParams(interval), 0)][..0] == [] && [IdleLeaf()][..0] == [];
    assert Executions([]) == 0 && TotalExecutions([]) == 0 && Executions([IdleLeaf()]) == 0;
    assert TotalExecutions([BuildCall(IdleParams(interval), 0)]) == 0;
  }

  lemma IdleRunProject(H: HashFn, interval: Duration)
    requires interval > 0 && TenantLeafHash(H, IdleLeaf()) != ZeroHash()
    ensures HonestProject(H, [7], IdleRun(H, interval)) && !Foldable(IdleRun(H, interval), [7], 0)
  {
    hide Built, TenantLeafHash, TrueHistory, ZeroHash, Locate;
    IdleSubChain(H);
    assert History(IdleRun(H, interval)) == [[IdleLeaf()]];
  }

  /** The failing side is real: one honest hour with such a leaf, for any hash that does not map it to the zeros. */
  lemma IdleHourFails(H: HashFn, seconds: I64)
    requires 0 < seconds && seconds * SECOND <= MAX_DURATION && TenantLeafHash(H, IdleLeaf()) != ZeroHash()
    ensures var run := IdleRun(H, seconds * SECOND);
      && HonestChain(H, seconds * SECOND, run) && HonestProject(H, [7], run)
      && !AllOk(ExportFindings(H, WindowExport(H, [7], seconds, run, 0, 1)))
  {
    hide Built, TenantLeafHash, HonestChain, HonestProject, ExportFindings, ZeroHash, Foldable;
    var run := IdleRun(H, seconds * SECOND);
    IdleRunChain(H, seconds * SECOND);
    IdleRunProject(H, seconds * SECOND);
    HonestWindowVerifies(H, [7], seconds, run, 0, 1);
    assert !Foldable(run, [7], 0);
  }

  /** What the operator has published after such a run. */
  function LedgerOf(interval: Duration, run: Run): Ledger {
    Ledger(interval, run.cps, History(run))
  }

  /**
   * So a window of an honest run satisfies what the omission results assume: they speak about the exports that
   * are really made, given only that no two of the hashed strings collide.
   */
  lemma HonestSetting(
      H: HashFn, hashed: set<Bytes>, projectId: Bytes, seconds: I64, run: Run, lo: nat, hi: nat)
    requires 0 < seconds && seconds * SECOND <= MAX_DURATION
    requires HonestChain(H, seconds * SECOND, run) && HonestProject(H, projectId, run)
    requires lo < hi <= |run.calls| && |run.cps| == |run.logIds| == |run.calls|
    requires forall i :: lo <= i < hi ==> Foldable(run, projectId, i)
    requires CollisionFree(H, hashed)
    requires AllHashedFor(
      H, hashed, WindowExport(H, projectId, seconds, run, lo, hi), LedgerOf(seconds * SECOND, run))
    ensures Setting(
      H, hashed, WindowExport(H, projectId, seconds, run, lo, hi), LedgerOf(seconds * SECOND, run), hi - 1)
  {
    hide HonestChain, HonestProject, TrueHistory, Clean, ExportFindings, AllHashedFor, Foldable, OnRecord;
    HonestHistory(H, projectId, run);
    HonestWindowVerifies(H, projectId, seconds, run, lo, hi);
    OkMeansClean(H, WindowExport(H, projectId, seconds, run, lo, hi));
    HonestlyOnRecord(H, seconds * SECOND, projectId, run);
    CheckpointOfInterval(H, projectId, run, hi - 1);
  }

  lemma HonestHistory(H: HashFn, projectId: Bytes, run: Run)
    requires HonestProject(H, projectId, run)
    ensures TrueHistory(H, projectId, History(run)) && |run.executions| == |run.calls|
  {
    hide TrueHistory, HourMatches;
  }

  lemma HonestlyOnRecord(H: HashFn, interval: Duration, projectId: Bytes, run: Run)
    requires HonestChain(H, interval, run) && HonestProject(H, projectId, run)
    ensures OnRecord(H, LedgerOf(interval, run), projectId)
  {
    hide Grown, ValidChain, TrueHistory, Committed, LeafMatches;
    var h, n := History(run), |run.calls|;
    GrownIsValid(H, interval, run.calls, run.cps);
    GrownSizes(H, interval, run.calls, run.cps);
    Numbering(H, run.cps, interval, n - 1);
    forall i | 0 <= i < n
      ensures Committed(H, run.cps[i], h[i]) && !Locate(h[i], projectId).Twice?
    {
      RunLengths(H, interval, run, i);
      assert HourMatches(H, projectId, run.calls[i].params.leaves, run.executions[i]);
    }
  }
}
