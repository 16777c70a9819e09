/** The offline check of a chain export: every finding, in the order the checks are made. */
module Export {
  import opened Wrappers
  import opened GoBytes
  import opened GoTime
  import opened Hashing
  import opened Inclusion
  import opened Checkpoints
  import opened TenantChain

  datatype ExportedExecution = ExportedExecution(executionId: Bytes, digestRoot: Bytes)

  datatype ExportedInterval = ExportedInterval(
    checkpoint: Checkpoint, logEntryId: Bytes, leaf: Option<TenantLeaf>, proof: Option<InclusionProof>,
    executions: seq<ExportedExecution>)

  datatype ChainExport = ChainExport(
    format: Bytes, projectId: Bytes, intervalSeconds: I64, intervals: seq<ExportedInterval>)

  function ExportFormatV1(): Bytes {
    Text("mesedi.chain-export.v1")
  }

  /** One named finding with the numbers it carries. */
  datatype Finding =
    | FileFormat | ProjectIdentity | IntervalsPresent | IntervalCadence(seconds: int)
    | RecordsLinkUp(problem: Option<ChainError>)
    | AllPublished(unpublished: seq<U64>)
    | PublicationNeverSkipped(skipped: seq<U64>, linked: nat, firstUnchecked: bool)
    | HourConsistency(hour: U64) | HourOwnership(hour: U64) | HourInclusion(hour: U64, why: Option<InclusionError>)
    | HourFingerprint(hour: U64, fold: Option<FoldError>) | HourRunCount(hour: U64, claimed: int, listed: nat)
    | HourVerified(hour: U64, runs: nat)
    | OwnEntries(broken: Option<SubChainError>, entries: nat)
    | Coverage(complete: bool, prior: U64)
    | QuietHours(empty: nat, total: nat)

  datatype CheckResult = CheckResult(finding: Finding, ok: bool)

  /** What the report says was not checked. */
  datatype Limit = EarlierRunsNotCovered(prior: U64) | LogNotResolved | RunsNotOpened | NothingJudged

  class ExportVerification {
    var Checks: seq<CheckResult>
    var Unverified: seq<Limit>
    var OK: bool

    ghost predicate Valid()
      reads this
    {
      OK <==> AllOk(Checks)
    }

    constructor ()
      ensures Valid() && Checks == [] && Unverified == []
    {
      Checks, Unverified, OK := [], [], true;
    }

    method Add(finding: Finding, ok: bool)
      requires Valid()
      modifies this
      ensures Valid() && Checks == old(Checks) + [CheckResult(finding, ok)] && Unverified == old(Unverified)
    {
      AllOkAppend(Checks, [CheckResult(finding, ok)]);
      assert [CheckResult(finding, ok)][0].ok == ok;
      Checks := Checks + [CheckResult(finding, ok)];
      if !ok {
        OK := false;
      }
    }
  }

  ghost predicate AllOk(checks: seq<CheckResult>) {
    forall i :: 0 <= i < |checks| ==> checks[i].ok
  }

  // ----- the findings, one section after the other

  /** time.Duration(seconds) * time.Second, in 64-bit arithmetic. */
  function IntervalOf(seconds: I64): Duration {
    (seconds * SECOND - MIN_DURATION) % TWO64 + MIN_DURATION
  }

  function CheckpointsOf(ivs: seq<ExportedInterval>): (cps: seq<Checkpoint>)
    ensures |cps| == |ivs|
  {
    seq(|ivs|, i requires 0 <= i < |ivs| => ivs[i].checkpoint)
  }

  function Unpublished(ivs: seq<ExportedInterval>): seq<U64> {
    if ivs == [] then []
    else
      var iv := ivs[|ivs| - 1];
      Unpublished(ivs[..|ivs| - 1]) + if iv.logEntryId == [] then [iv.checkpoint.seqNo] else []
  }

  datatype Links = Links(skipped: seq<U64>, linked: nat)

  /** Does interval i name the log entry its predecessor was published at? Only asked of adjacent numbers. */
  datatype LinkState = NotAdjacent | Matches | Skips

  function LinkAt(ivs: seq<ExportedInterval>, i: nat): LinkState
    requires i < |ivs|
  {
    if i == 0 || ivs[i].checkpoint.seqNo != Wrap(ivs[i - 1].checkpoint.seqNo + 1) then NotAdjacent
    else if ivs[i].checkpoint.prevLogEntryId != ivs[i - 1].logEntryId then Skips
    else Matches
  }

  function LinksUpTo(ivs: seq<ExportedInterval>, n: nat): Links
    requires n <= |ivs|
  {
    if n == 0 then Links([], 0)
    else
      var before := LinksUpTo(ivs, n - 1);
      match LinkAt(ivs, n - 1)
      case NotAdjacent => before
      case Matches => Links(before.skipped, before.linked + 1)
      case Skips => Links(before.skipped + [ivs[n - 1].checkpoint.seqNo], before.linked)
  }

  function Digests(executions: seq<ExportedExecution>): (d: seq<Bytes>)
    ensures |d| == |executions|
  {
    seq(|executions|, i requires 0 <= i < |executions| => executions[i].digestRoot)
  }

  /** The finding about one interval's own leaf; None where a quiet hour is simply quiet. */
  function HourFinding(H: HashFn, projectId: Bytes, iv: ExportedInterval): Option<CheckResult> {
    var hour := iv.checkpoint.seqNo;
    match iv.leaf
    case None =>
      if iv.proof.Some? || iv.executions != [] then Some(CheckResult(HourConsistency(hour), false)) else None
    case Some(leaf) => Some(LeafFinding(H, projectId, iv, leaf))
  }

  function LeafFinding(H: HashFn, projectId: Bytes, iv: ExportedInterval, leaf: TenantLeaf): CheckResult {
    var hour := iv.checkpoint.seqNo;
    if leaf.projectId != projectId then CheckResult(HourOwnership(hour), false)
    else match iv.proof
      case None => CheckResult(HourInclusion(hour, None), false)
      case Some(proof) =>
        match InclusionVerdict(H, iv.checkpoint, leaf, proof)
        case Some(why) => CheckResult(HourInclusion(hour, Some(why)), false)
        case None =>
          match FoldOf(H, Digests(iv.executions))
          case Err(e) => CheckResult(HourFingerprint(hour, Some(e)), false)
          case Ok(got) =>
            if got != leaf.intervalRoot then CheckResult(HourFingerprint(hour, None), false)
            else if leaf.executionCount != |iv.executions| then
              CheckResult(HourRunCount(hour, leaf.executionCount, |iv.executions|), false)
            else CheckResult(HourVerified(hour, |iv.executions|), true)
  }

  function HourFindings(H: HashFn, projectId: Bytes, ivs: seq<ExportedInterval>): seq<CheckResult> {
    if ivs == [] then []
    else HourFindings(H, projectId, ivs[..|ivs| - 1]) + AsSeq(HourFinding(H, projectId, ivs[|ivs| - 1]))
  }

  function AsSeq<T>(o: Option<T>): seq<T> {
    match o case None => [] case Some(x) => [x]
  }

  /** The leaves collected for the sub-chain: every one presented under the export's own project. */
  function OwnLeaves(projectId: Bytes, ivs: seq<ExportedInterval>): seq<TenantLeaf> {
    if ivs == [] then []
    else
      var iv := ivs[|ivs| - 1];
      OwnLeaves(projectId, ivs[..|ivs| - 1])
        + if iv.leaf.Some? && iv.leaf.value.projectId == projectId then [iv.leaf.value] else []
  }

  function EmptyHours(ivs: seq<ExportedInterval>): nat {
    if ivs == [] then 0 else EmptyHours(ivs[..|ivs| - 1]) + if ivs[|ivs| - 1].leaf.None? then 1 else 0
  }

  /** Executions the first exported leaf's running total says came before it, in uint64 arithmetic. */
  function PriorExecutions(first: TenantLeaf): U64 {
    Wrap(first.cumulativeCount - Wrap(first.executionCount))
  }

  function CoverageFinding(first: TenantLeaf): CheckResult {
    var prior := PriorExecutions(first);
    if first.prevLeafHash == ZeroHash() then CheckResult(Coverage(prior == 0, prior), prior == 0)
    else CheckResult(Coverage(false, prior), true)
  }

  function OwnFindings(H: HashFn, projectId: Bytes, leaves: seq<TenantLeaf>): seq<CheckResult> {
    if leaves == [] then []
    else
      var broken := SubChainFailure(H, projectId, leaves);
      [CheckResult(OwnEntries(broken, |leaves|), broken.None?), CoverageFinding(leaves[0])]
  }

  function HistoryLimits(leaves: seq<TenantLeaf>): seq<Limit> {
    if leaves != [] && leaves[0].prevLeafHash != ZeroHash() then [EarlierRunsNotCovered(PriorExecutions(leaves[0]))]
    else []
  }

  /** The check that stops everything else, if there is one. */
  function Blocker(e: ChainExport): Option<seq<CheckResult>> {
    if e.format != ExportFormatV1() then Some([CheckResult(FileFormat, false)])
    else if e.projectId == [] then Some([CheckResult(FileFormat, true), CheckResult(ProjectIdentity, false)])
    else if e.intervals == [] then Some([CheckResult(FileFormat, true), CheckResult(IntervalsPresent, false)])
    else if e.intervalSeconds <= 0 then
      Some([CheckResult(FileFormat, true), CheckResult(IntervalCadence(e.intervalSeconds), false)])
    else None
  }

  function ChainFindings(H: HashFn, e: ChainExport): seq<CheckResult> {
    var failure := ChainFailure(H, CheckpointsOf(e.intervals), IntervalOf(e.intervalSeconds));
    var unpublished := Unpublished(e.intervals);
    var links := LinksUpTo(e.intervals, |e.intervals|);
    [CheckResult(FileFormat, true),
     CheckResult(RecordsLinkUp(failure), failure.None?),
     CheckResult(AllPublished(unpublished), unpublished == []),
     CheckResult(PublicationNeverSkipped(links.skipped, links.linked,
                                         e.intervals != [] && e.intervals[0].checkpoint.seqNo != 1), links.skipped == [])]
  }

  function QuietFindings(ivs: seq<ExportedInterval>): seq<CheckResult> {
    if EmptyHours(ivs) > 0 then [CheckResult(QuietHours(EmptyHours(ivs), |ivs|), true)] else []
  }

  function ExportFindings(H: HashFn, e: ChainExport): seq<CheckResult> {
    match Blocker(e)
    case Some(checks) => checks
    case None =>
      ChainFindings(H, e)
        + HourFindings(H, e.projectId, e.intervals)
        + OwnFindings(H, e.projectId, OwnLeaves(e.projectId, e.intervals))
        + QuietFindings(e.intervals)
  }

  function ExportLimits(e: ChainExport): seq<Limit> {
    if Blocker(e).Some? then []
    else HistoryLimits(OwnLeaves(e.projectId, e.intervals)) + [LogNotResolved, RunsNotOpened, NothingJudged]
  }

  method VerifyChainExport(H: HashFn, e: ChainExport) returns (v: ExportVerification)
    ensures fresh(v)
    ensures v.Checks == ExportFindings(H, e) && v.Unverified == ExportLimits(e)
    ensures v.OK <==> AllOk(ExportFindings(H, e))
  {
    hide ChainFailure, ChainFindings, HourFinding, HourFindings, OwnFindings, OwnLeaves, EmptyHours, HistoryLimits;
    hide AllOk;
    v := new ExportVerification();
    if e.format != ExportFormatV1() {
      v.Add(FileFormat, false);
      return;
    }
    v.Add(FileFormat, true);
    if e.projectId == [] {
      v.Add(ProjectIdentity, false);
      return;
    }
    if |e.intervals| == 0 {
      v.Add(IntervalsPresent, false);
      return;
    }
    if e.intervalSeconds <= 0 {
      v.Add(IntervalCadence(e.intervalSeconds), false);
      return;
    }
    VerifyLinks(H, e, v);
    var leaves, emptyForUs := VerifyHours(H, e.projectId, e.intervals, v);
    VerifyOwnEntries(H, e.projectId, leaves, v);
    if emptyForUs > 0 {
      v.Add(QuietHours(emptyForUs, |e.intervals|), true);
    }
    v.Unverified := v.Unverified + [LogNotResolved, RunsNotOpened, NothingJudged];
  }

  /** The chain itself, that every checkpoint was published, and that publication was never skipped. */
  method VerifyLinks(H: HashFn, e: ChainExport, v: ExportVerification)
    requires v.Valid() && v.Checks == [CheckResult(FileFormat, true)] && e.intervals != []
    modifies v
    ensures v.Valid() && v.Checks == ChainFindings(H, e) && v.Unverified == old(v.Unverified)
  {
    hide ChainFailure, LinksUpTo, Unpublished, AllOk, CheckpointsOf, IntervalOf;
    var failure := VerifyChain(H, CheckpointsOf(e.intervals), IntervalOf(e.intervalSeconds));
    v.Add(RecordsLinkUp(failure), failure.None?);

    var unpublished, skipped, linked := CollectLinks(e.intervals);
    v.Add(AllPublished(unpublished), unpublished == []);
    var firstUnchecked := e.intervals[0].checkpoint.seqNo != 1;
    v.Add(PublicationNeverSkipped(skipped, linked, firstUnchecked), skipped == []);
    FourInARow(CheckResult(FileFormat, true), CheckResult(RecordsLinkUp(failure), failure.None?),
               CheckResult(AllPublished(unpublished), unpublished == []),
               CheckResult(PublicationNeverSkipped(skipped, linked, firstUnchecked), skipped == []));
  }

  lemma FourInARow(a: CheckResult, b: CheckResult, c: CheckResult, d: CheckResult)
    ensures [a] + [b] + [c] + [d] == [a, b, c, d]
  {}

  method CollectLinks(ivs: seq<ExportedInterval>)
    returns (unpublished: seq<U64>, skipped: seq<U64>, linked: nat)
    ensures unpublished == Unpublished(ivs)
    ensures Links(skipped, linked) == LinksUpTo(ivs, |ivs|)
  {
    unpublished, skipped, linked := [], [], 0;
    for i := 0 to |ivs|
      invariant unpublished == Unpublished(ivs[..i])
      invariant Links(skipped, linked) == LinksUpTo(ivs, i)
    {
      assert ivs[..i + 1][..i] == ivs[..i];
      if ivs[i].logEntryId == [] {
        unpublished := unpublished + [ivs[i].checkpoint.seqNo];
      }
      match LinkAt(ivs, i) {
        case NotAdjacent =>
        case Skips => skipped := skipped + [ivs[i].checkpoint.seqNo];
        case Matches => linked := linked + 1;
      }
    }
    assert ivs[..|ivs|] == ivs;
  }

  /** This project's leaf in every interval. */
  method VerifyHours(H: HashFn, projectId: Bytes, ivs: seq<ExportedInterval>, v: ExportVerification)
    returns (leaves: seq<TenantLeaf>, emptyForUs: nat)
    requires v.Valid()
    modifies v
    ensures v.Valid() && v.Checks == old(v.Checks) + HourFindings(H, projectId, ivs)
    ensures v.Unverified == old(v.Unverified)
    ensures leaves == OwnLeaves(projectId, ivs) && emptyForUs == EmptyHours(ivs)
  {
    leaves, emptyForUs := [], 0;
    for i := 0 to |ivs|
      invariant v.Valid() && v.Checks == old(v.Checks) + HourFindings(H, projectId, ivs[..i])
      invariant v.Unverified == old(v.Unverified)
      invariant leaves == OwnLeaves(projectId, ivs[..i]) && emptyForUs == EmptyHours(ivs[..i])
    {
      assert ivs[..i + 1][..i] == ivs[..i];
      VerifyHour(H, projectId, ivs[i], v);
      if ivs[i].leaf.None? {
        emptyForUs := emptyForUs + 1;
      } else if ivs[i].leaf.value.projectId == projectId {
        leaves := leaves + [ivs[i].leaf.value];
      }
    }
    assert ivs[..|ivs|] == ivs;
  }

  method VerifyHour(H: HashFn, projectId: Bytes, iv: ExportedInterval, v: ExportVerification)
    requires v.Valid()
    modifies v
    ensures v.Valid() && v.Checks == old(v.Checks) + AsSeq(HourFinding(H, projectId, iv))
    ensures v.Unverified == old(v.Unverified)
  {
    hide InclusionVerdict;
    hide FoldOf;
    var hour := iv.checkpoint.seqNo;
    if iv.leaf.None? {
      if iv.proof.Some? || iv.executions != [] {
        v.Add(HourConsistency(hour), false);
      }
      return;
    }
    var leaf := iv.leaf.value;
    if leaf.projectId != projectId {
      v.Add(HourOwnership(hour), false);
      return;
    }
    if iv.proof.None? {
      v.Add(HourInclusion(hour, None), false);
      return;
    }
    var why := VerifyTenantLeafInclusion(H, iv.checkpoint, leaf, iv.proof.value);
    if why.Some? {
      v.Add(HourInclusion(hour, why), false);
      return;
    }
    var got := RootOverExecutionDigests(H, Digests(iv.executions));
    if got.Err? {
      v.Add(HourFingerprint(hour, Some(got.error)), false);
    } else if got.value != leaf.intervalRoot {
      v.Add(HourFingerprint(hour, None), false);
    } else if leaf.executionCount != |iv.executions| {
      v.Add(HourRunCount(hour, leaf.executionCount, |iv.executions|), false);
    } else {
      v.Add(HourVerified(hour, |iv.executions|), true);
    }
  }

  /** The project's sub-chain, and where in the project's history the export begins. */
  method VerifyOwnEntries(H: HashFn, projectId: Bytes, leaves: seq<TenantLeaf>, v: ExportVerification)
    requires v.Valid()
    modifies v
    ensures v.Valid() && v.Checks == old(v.Checks) + OwnFindings(H, projectId, leaves)
    ensures v.Unverified == old(v.Unverified) + HistoryLimits(leaves)
  {
    hide SubChainFailure;
    if |leaves| == 0 {
      return;
    }
    var broken := VerifyTenantSubChain(H, projectId, leaves);
    v.Add(OwnEntries(broken, |leaves|), broken.None?);
    var first := leaves[0];
    var prior := PriorExecutions(first);
    if first.prevLeafHash == ZeroHash() {
      v.Add(Coverage(prior == 0, prior), prior == 0);
    } else {
      v.Add(Coverage(false, prior), true);
      v.Unverified := v.Unverified + [EarlierRunsNotCovered(prior)];
    }
  }

  // ----- what a clean report means

  ghost predicate LinksPublished(ivs: seq<ExportedInterval>) {
    forall i :: 0 < i < |ivs| && ivs[i].checkpoint.seqNo == Wrap(ivs[i - 1].checkpoint.seqNo + 1) ==>
      ivs[i].checkpoint.prevLogEntryId == ivs[i - 1].logEntryId
  }

  /** Nothing at all for a quiet hour; otherwise a leaf of this project, included, folding to its root. */
  ghost predicate HourSound(H: HashFn, projectId: Bytes, iv: ExportedInterval) {
    match iv.leaf
    case None => iv.proof == None && iv.executions == []
    case Some(leaf) =>
      && leaf.projectId == projectId
      && iv.proof.Some?
      && InclusionVerdict(H, iv.checkpoint, leaf, iv.proof.value) == None
      && FoldOf(H, Digests(iv.executions)) == Ok(leaf.intervalRoot)
      && leaf.executionCount == |iv.executions|
  }

  ghost predicate Logged(ivs: seq<ExportedInterval>) {
    forall i :: 0 <= i < |ivs| ==> ivs[i].logEntryId != []
  }

  ghost predicate HoursSound(H: HashFn, projectId: Bytes, ivs: seq<ExportedInterval>) {
    forall i :: 0 <= i < |ivs| ==> HourSound(H, projectId, ivs[i])
  }

  ghost predicate Clean(H: HashFn, e: ChainExport) {
    && e.format == ExportFormatV1() && e.projectId != [] && e.intervals != [] && e.intervalSeconds > 0
    && ValidChain(H, CheckpointsOf(e.intervals), IntervalOf(e.intervalSeconds))
    && Logged(e.intervals) && LinksPublished(e.intervals) && HoursSound(H, e.projectId, e.intervals)
    && OwnSound(H, e.projectId, OwnLeaves(e.projectId, e.intervals))
  }

  /** The leaves shown are a valid sub-chain, and one that starts it counts no execution before itself. */
  ghost predicate OwnSound(H: HashFn, projectId: Bytes, own: seq<TenantLeaf>) {
    own != [] ==>
      && ValidSubChain(H, projectId, own)
      && (own[0].prevLeafHash == ZeroHash() ==> PriorExecutions(own[0]) == 0)
  }

  lemma {:induction false} AllPublishedMeans(ivs: seq<ExportedInterval>)
    ensures Unpublished(ivs) == [] <==> Logged(ivs)
  {
    if ivs != [] {
      var n := |ivs| - 1;
      AllPublishedMeans(ivs[..n]);
      assert forall i :: 0 <= i < n ==> ivs[..n][i] == ivs[i];
      assert Unpublished(ivs) == [] <==> Unpublished(ivs[..n]) == [] && ivs[n].logEntryId != [];
    }
  }

  lemma {:induction false} NoneSkippedMeans(ivs: seq<ExportedInterval>, n: nat)
    requires n <= |ivs|
    ensures LinksUpTo(ivs, n).skipped == [] <==> forall i :: 0 <= i < n ==> !LinkAt(ivs, i).Skips?
  {
    hide LinkAt;
    if n > 0 {
      NoneSkippedMeans(ivs, n - 1);
    }
  }

  lemma AllOkAppend(a: seq<CheckResult>, b: seq<CheckResult>)
    ensures AllOk(a + b) <==> AllOk(a) && AllOk(b)
  {
    if AllOk(a + b) {
      forall i | 0 <= i < |a| ensures a[i].ok { assert (a + b)[i] == a[i]; }
      forall i | 0 <= i < |b| ensures b[i].ok { assert (a + b)[|a| + i] == b[i]; }
    }
  }

  lemma HourMeans(H: HashFn, projectId: Bytes, iv: ExportedInterval)
    ensures AllOk(AsSeq(HourFinding(H, projectId, iv))) <==> HourSound(H, projectId, iv)
  {
    hide InclusionVerdict;
    hide FoldOf;
    var f := HourFinding(H, projectId, iv);
    if f.Some? {
      assert AsSeq(f)[0].ok <==> HourSound(H, projectId, iv);
    }
  }

  lemma {:induction false} HoursMean(H: HashFn, projectId: Bytes, ivs: seq<ExportedInterval>)
    ensures AllOk(HourFindings(H, projectId, ivs)) <==> HoursSound(H, projectId, ivs)
  {
    hide HourSound;
    hide HourFinding;
    hide AllOk;
    if ivs != [] {
      var n := |ivs| - 1;
      HoursMean(H, projectId, ivs[..n]);
      HourMeans(H, projectId, ivs[n]);
      AllOkAppend(HourFindings(H, projectId, ivs[..n]), AsSeq(HourFinding(H, projectId, ivs[n])));
      assert forall i :: 0 <= i < n ==> ivs[..n][i] == ivs[i];
    } else {
      assert AllOk([]) by { NoChecksOk(); }
    }
  }

  lemma NoChecksOk()
    ensures AllOk([])
  {}

  lemma OwnMeans(H: HashFn, projectId: Bytes, leaves: seq<TenantLeaf>)
    ensures AllOk(OwnFindings(H, projectId, leaves)) <==> OwnSound(H, projectId, leaves)
  {
    hide ValidSubChain;
    hide PriorExecutions;
    hide ZeroHash;
    if leaves != [] {
      SubChainPasses(H, projectId, leaves);
      hide SubChainFailure;
      var f := OwnFindings(H, projectId, leaves);
      assert AllOk(f) <==> f[0].ok && f[1].ok;
    }
  }

  lemma SubChainPasses(H: HashFn, projectId: Bytes, leaves: seq<TenantLeaf>)
    ensures SubChainFailure(H, projectId, leaves) == None <==> ValidSubChain(H, projectId, leaves)
  {
    hide SubChainComplaint;
    hide LinksTo;
    SubChainPassesFrom(H, projectId, leaves, 0);
  }

  lemma ChainMeans(H: HashFn, e: ChainExport)
    ensures AllOk(ChainFindings(H, e)) <==>
      && ValidChain(H, CheckpointsOf(e.intervals), IntervalOf(e.intervalSeconds))
      && Logged(e.intervals) && LinksPublished(e.intervals)
  {
    hide ValidChain;
    hide ChainFailure;
    PassesIffValid(H, CheckpointsOf(e.intervals), IntervalOf(e.intervalSeconds));
    AllPublishedMeans(e.intervals);
    NoneSkippedMeans(e.intervals, |e.intervals|);
    NeverSkips(e.intervals);
    var f := ChainFindings(H, e);
    assert AllOk(f) <==> f[1].ok && f[2].ok && f[3].ok;
  }

  lemma NeverSkips(ivs: seq<ExportedInterval>)
    ensures (forall i :: 0 <= i < |ivs| ==> !LinkAt(ivs, i).Skips?) <==> LinksPublished(ivs)
  {
    if forall i :: 0 <= i < |ivs| ==> !LinkAt(ivs, i).Skips? {
      forall i | 0 < i < |ivs| && ivs[i].checkpoint.seqNo == Wrap(ivs[i - 1].checkpoint.seqNo + 1)
        ensures ivs[i].checkpoint.prevLogEntryId == ivs[i - 1].logEntryId
      {
        assert !LinkAt(ivs, i).Skips?;
      }
    }
  }

  /** The report is OK exactly for clean exports. */
  lemma OkMeansClean(H: HashFn, e: ChainExport)
    ensures AllOk(ExportFindings(H, e)) <==> Clean(H, e)
  {
    hide ChainFindings;
    hide HourFindings;
    hide OwnFindings;
    hide ValidChain;
    hide HourSound;
    hide ValidSubChain;
    hide PriorExecutions;
    hide ZeroHash;
    hide LinksPublished;
    var own := OwnLeaves(e.projectId, e.intervals);
    var a, b := ChainFindings(H, e), HourFindings(H, e.projectId, e.intervals);
    var c, d := OwnFindings(H, e.projectId, own), QuietFindings(e.intervals);
    ChainMeans(H, e);
    HoursMean(H, e.projectId, e.intervals);
    OwnMeans(H, e.projectId, own);
    AllOkAppend(a, b);
    AllOkAppend(a + b, c);
    AllOkAppend(a + b + c, d);
    if Blocker(e).Some? {
      var f := ExportFindings(H, e);
      assert !f[|f| - 1].ok;
    }
  }
}
