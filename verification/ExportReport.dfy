/** What the report of an export says, finding by finding, in terms of the export itself. */
module ExportReport {
  import opened Wrappers
  import opened GoBytes
  import opened GoTime
  import opened Hashing
  import opened Inclusion
  import opened Checkpoints
  import opened TenantChain
  import opened Export

  // ----- publication

  /** Interval i has the number after its predecessor's. */
  ghost predicate Adjacent(ivs: seq<ExportedInterval>, i: int) {
    0 < i < |ivs| && ivs[i].checkpoint.seqNo == (ivs[i - 1].checkpoint.seqNo + 1) % 0x1_0000_0000_0000_0000
  }

  ghost predicate NamesPredecessor(ivs: seq<ExportedInterval>, i: int) {
    Adjacent(ivs, i) && ivs[i].checkpoint.prevLogEntryId == ivs[i - 1].logEntryId
  }

  ghost predicate NamesAnother(ivs: seq<ExportedInterval>, i: int) {
    Adjacent(ivs, i) && ivs[i].checkpoint.prevLogEntryId != ivs[i - 1].logEntryId
  }

  /** The intervals before n that name the log entry their predecessor was published at. */
  ghost function Matched(ivs: seq<ExportedInterval>, n: nat): set<int> {
    set i | 0 <= i < n && NamesPredecessor(ivs, i)
  }

  ghost predicate Ascending(idx: seq<int>) {
    forall j, k :: 0 <= j < k < |idx| ==> idx[j] < idx[k]
  }

  /** `numbers` are the numbers of the intervals at these places, in this order. */
  ghost predicate NumbersAt(ivs: seq<ExportedInterval>, idx: seq<int>, numbers: seq<U64>) {
    && |idx| == |numbers| && Ascending(idx)
    && forall k :: 0 <= k < |idx| ==> 0 <= idx[k] < |ivs| && numbers[k] == ivs[idx[k]].checkpoint.seqNo
  }

  lemma NumbersMore(ivs: seq<ExportedInterval>, idx: seq<int>, numbers: seq<U64>, i: nat)
    requires NumbersAt(ivs, idx, numbers) && i < |ivs| && forall k :: k in idx ==> k < i
    ensures NumbersAt(ivs, idx + [i], numbers + [ivs[i].checkpoint.seqNo])
  {
    AscendingMore(idx, i);
  }

  lemma AscendingMore(idx: seq<int>, i: int)
    requires Ascending(idx) && forall k :: k in idx ==> k < i
    ensures Ascending(idx + [i])
  {
    var more := idx + [i];
    forall j, k | 0 <= j < k < |more|
      ensures more[j] < more[k]
    {
      assert more[j] == idx[j] && idx[j] in idx;
    }
  }

  lemma {:induction false} LinksCounted(ivs: seq<ExportedInterval>, n: nat)
    requires n <= |ivs|
    ensures LinksUpTo(ivs, n).linked == |Matched(ivs, n)|
  {
    hide LinkAt, NamesPredecessor;
    if n == 0 {
      assert Matched(ivs, 0) == {};
    } else {
      LinksCounted(ivs, n - 1);
      LinkCases(ivs, n - 1);
      var before := Matched(ivs, n - 1);
      assert Matched(ivs, n) == if NamesPredecessor(ivs, n - 1) then before + {n - 1} else before;
    }
  }

  lemma {:induction false} SkippedMean(ivs: seq<ExportedInterval>, n: nat) returns (idx: seq<int>)
    requires n <= |ivs|
    ensures NumbersAt(ivs, idx, LinksUpTo(ivs, n).skipped)
    ensures forall i :: i in idx <==> 0 <= i < n && NamesAnother(ivs, i)
  {
    if n == 0 {
      idx := [];
    } else {
      idx := SkippedMean(ivs, n - 1);
      LinkCases(ivs, n - 1);
      hide LinkAt, NamesPredecessor, NamesAnother, NumbersAt;
      if NamesAnother(ivs, n - 1) {
        NumbersMore(ivs, idx, LinksUpTo(ivs, n - 1).skipped, n - 1);
        idx := idx + [n - 1];
      }
    }
  }

  lemma LinkCases(ivs: seq<ExportedInterval>, i: nat)
    requires i < |ivs|
    ensures LinkAt(ivs, i).Matches? <==> NamesPredecessor(ivs, i)
    ensures LinkAt(ivs, i).Skips? <==> NamesAnother(ivs, i)
  {
  }

  lemma {:induction false} UnpublishedMean(ivs: seq<ExportedInterval>, n: nat) returns (idx: seq<int>)
    requires n <= |ivs|
    ensures NumbersAt(ivs, idx, Unpublished(ivs[..n]))
    ensures forall i :: i in idx <==> 0 <= i < n && ivs[i].logEntryId == []
  {
    if n == 0 {
      idx := [];
    } else {
      idx := UnpublishedMean(ivs, n - 1);
      assert ivs[..n][..n - 1] == ivs[..n - 1];
      if ivs[n - 1].logEntryId == [] {
        NumbersMore(ivs, idx, Unpublished(ivs[..n - 1]), n - 1);
        idx := idx + [n - 1];
      }
    }
  }

  /** The first four findings of a report that gets past its header, by name. */
  lemma ReportStarts(H: HashFn, e: ChainExport)
    requires Blocker(e) == None
    ensures |ExportFindings(H, e)| >= 4 && e.intervals != []
    ensures ExportFindings(H, e)[0] == CheckResult(FileFormat, true)
    ensures var f := ExportFindings(H, e)[1];
      var failure := ChainFailure(H, CheckpointsOf(e.intervals), IntervalOf(e.intervalSeconds));
      f.finding == RecordsLinkUp(failure) && f.ok == failure.None?
    ensures var f, u := ExportFindings(H, e)[2], Unpublished(e.intervals);
      f.finding == AllPublished(u) && f.ok == (u == [])
    ensures var f, l := ExportFindings(H, e)[3], LinksUpTo(e.intervals, |e.intervals|);
      && f.finding == PublicationNeverSkipped(l.skipped, l.linked, e.intervals[0].checkpoint.seqNo != 1)
      && f.ok == (l.skipped == [])
  {
    hide ChainFailure, HourFindings, OwnFindings, QuietFindings, LinksUpTo, Unpublished, CheckpointsOf, IntervalOf;
    var a := ChainFindings(H, e);
    assert a <= ExportFindings(H, e);
    assert ExportFindings(H, e)[0] == a[0] && ExportFindings(H, e)[1] == a[1];
    assert ExportFindings(H, e)[2] == a[2] && ExportFindings(H, e)[3] == a[3];
  }

  /**
   * The publication findings of any export: the unpublished hours and those naming the wrong log entry, by number and
   * in order, and how many of the others that have a predecessor here name the right one.
   */
  lemma PublicationReported(H: HashFn, e: ChainExport) returns (missing: seq<int>, wrong: seq<int>)
    requires Blocker(e) == None
    ensures |ExportFindings(H, e)| >= 4 && e.intervals != []
    ensures forall i :: i in missing <==> 0 <= i < |e.intervals| && e.intervals[i].logEntryId == []
    ensures forall i :: i in wrong <==> 0 <= i < |e.intervals| && NamesAnother(e.intervals, i)
    ensures var f := ExportFindings(H, e)[2];
      f.finding.AllPublished? && NumbersAt(e.intervals, missing, f.finding.unpublished) && f.ok == (missing == [])
    ensures var f := ExportFindings(H, e)[3];
      && f.finding.PublicationNeverSkipped? && NumbersAt(e.intervals, wrong, f.finding.skipped)
      && f.finding.linked == |Matched(e.intervals, |e.intervals|)| && f.ok == (wrong == [])
      && f.finding.firstUnchecked == (e.intervals[0].checkpoint.seqNo != 1)
  {
    hide ExportFindings, LinksUpTo, Unpublished, NamesAnother, Matched, ChainFailure;
    ReportStarts(H, e);
    missing := UnpublishedMean(e.intervals, |e.intervals|);
    assert e.intervals[..|e.intervals|] == e.intervals;
    wrong := SkippedMean(e.intervals, |e.intervals|);
    LinksCounted(e.intervals, |e.intervals|);
    NoNumbers(e.intervals, missing, Unpublished(e.intervals));
    NoNumbers(e.intervals, wrong, LinksUpTo(e.intervals, |e.intervals|).skipped);
    hide NumbersAt;
  }

  lemma {:induction false} AllButFirst(n: nat, s: set<int>)
    requires n > 0 && forall i :: i in s <==> 0 < i < n
    ensures |s| == n - 1
  {
    if n == 1 {
      forall i
        ensures i !in s
      {
      }
      assert s == {};
    } else {
      var fewer := s - {n - 1};
      AllButFirst(n - 1, fewer);
      assert n - 1 in s && s == fewer + {n - 1};
    }
  }

  /** In a clean export every hour but the first names the log entry of the hour before it; the report counts them. */
  lemma CleanPublication(H: HashFn, e: ChainExport)
    requires Clean(H, e)
    ensures |ExportFindings(H, e)| >= 4 && e.intervals != []
    ensures ExportFindings(H, e)[2] == CheckResult(AllPublished([]), true)
    ensures ExportFindings(H, e)[3] == CheckResult(
              PublicationNeverSkipped([], |e.intervals| - 1, e.intervals[0].checkpoint.seqNo != 1), true)
  {
    hide ExportFindings, NumbersAt, NamesAnother, NamesPredecessor, Clean, Logged, Matched, Blocker;
    CleanHeader(H, e);
    var missing, wrong := PublicationReported(H, e);
    NoneMissing(e.intervals, missing);
    NoWrongLink(H, e, wrong);
    CleanCount(H, e);
    NoNumbers(e.intervals, missing, ExportFindings(H, e)[2].finding.unpublished);
    NoNumbers(e.intervals, wrong, ExportFindings(H, e)[3].finding.skipped);
  }

  lemma NoneMissing(ivs: seq<ExportedInterval>, missing: seq<int>)
    requires Logged(ivs) && forall i :: i in missing ==> 0 <= i < |ivs| && ivs[i].logEntryId == []
    ensures missing == []
  {
    HeadIsIn(missing);
    forall i
      ensures i !in missing
    {
      assert 0 <= i < |ivs| ==> ivs[i].logEntryId != [];
    }
  }

  lemma HeadIsIn<T>(s: seq<T>)
    ensures s != [] ==> s[0] in s
  {
  }

  lemma NoWrongLink(H: HashFn, e: ChainExport, wrong: seq<int>)
    requires Clean(H, e) && forall i :: i in wrong ==> 0 <= i < |e.intervals| && NamesAnother(e.intervals, i)
    ensures wrong == []
  {
    hide Clean, NamesAnother, NamesPredecessor;
    if wrong != [] {
      var i := wrong[0];
      NoFirst(e.intervals);
      if i > 0 {
        CleanLink(H, e, i);
      }
    }
  }

  lemma CleanCount(H: HashFn, e: ChainExport)
    requires Clean(H, e) && e.intervals != []
    ensures |Matched(e.intervals, |e.intervals|)| == |e.intervals| - 1
  {
    hide Clean, NamesAnother, NamesPredecessor;
    forall i | 0 < i < |e.intervals|
      ensures NamesPredecessor(e.intervals, i)
    {
      CleanLink(H, e, i);
    }
    NoFirst(e.intervals);
    AllButFirst(|e.intervals|, Matched(e.intervals, |e.intervals|));
  }

  lemma CleanHeader(H: HashFn, e: ChainExport)
    requires Clean(H, e)
    ensures Blocker(e) == None && Logged(e.intervals)
  {
    hide ValidChain, HoursSound, OwnSound, LinksPublished, ExportFormatV1;
  }

  lemma NoFirst(ivs: seq<ExportedInterval>)
    ensures !NamesPredecessor(ivs, 0) && !NamesAnother(ivs, 0)
  {
  }

  lemma NoNumbers(ivs: seq<ExportedInterval>, idx: seq<int>, numbers: seq<U64>)
    requires NumbersAt(ivs, idx, numbers)
    ensures idx == [] <==> numbers == []
  {
  }

  lemma CleanLink(H: HashFn, e: ChainExport, i: nat)
    requires Clean(H, e) && 0 < i < |e.intervals|
    ensures NamesPredecessor(e.intervals, i) && !NamesAnother(e.intervals, i)
  {
    hide HoursSound, OwnSound, Sound;
    var cps := CheckpointsOf(e.intervals);
    assert Follows(cps[i], cps[i - 1]);
  }

  // ----- the hours

  ghost predicate Own(projectId: Bytes, iv: ExportedInterval) {
    iv.leaf.Some? && iv.leaf.value.projectId == projectId
  }

  ghost predicate Included(H: HashFn, iv: ExportedInterval) {
    iv.leaf.Some? && iv.proof.Some? && InclusionVerdict(H, iv.checkpoint, iv.leaf.value, iv.proof.value) == None
  }

  ghost predicate Folded(H: HashFn, iv: ExportedInterval) {
    iv.leaf.Some? && FoldOf(H, Digests(iv.executions)) == Ok(iv.leaf.value.intervalRoot)
  }

  /** The finding is true of the interval, and everything looked at before it was in order. */
  ghost predicate Explains(H: HashFn, projectId: Bytes, iv: ExportedInterval, r: CheckResult) {
    match r.finding
    case HourConsistency(hour) =>
      !r.ok && hour == iv.checkpoint.seqNo && iv.leaf.None? && (iv.proof.Some? || iv.executions != [])
    case HourOwnership(hour) =>
      !r.ok && hour == iv.checkpoint.seqNo && iv.leaf.Some? && iv.leaf.value.projectId != projectId
    case HourInclusion(hour, None) =>
      !r.ok && hour == iv.checkpoint.seqNo && Own(projectId, iv) && iv.proof.None?
    case HourInclusion(hour, Some(why)) =>
      && !r.ok && hour == iv.checkpoint.seqNo && Own(projectId, iv) && iv.proof.Some?
      && InclusionVerdict(H, iv.checkpoint, iv.leaf.value, iv.proof.value) == Some(why)
    case HourFingerprint(hour, Some(why)) =>
      && !r.ok && hour == iv.checkpoint.seqNo && Own(projectId, iv) && Included(H, iv)
      && FoldOf(H, Digests(iv.executions)) == Err(why)
    case HourFingerprint(hour, None) =>
      && !r.ok && hour == iv.checkpoint.seqNo && Own(projectId, iv) && Included(H, iv)
      && FoldOf(H, Digests(iv.executions)).Ok? && !Folded(H, iv)
    case HourRunCount(hour, claimed, listed) =>
      && !r.ok && hour == iv.checkpoint.seqNo && Own(projectId, iv) && Included(H, iv) && Folded(H, iv)
      && claimed == iv.leaf.value.executionCount && listed == |iv.executions| && claimed != listed
    case HourVerified(hour, runs) =>
      && r.ok && hour == iv.checkpoint.seqNo && Own(projectId, iv) && Included(H, iv) && Folded(H, iv)
      && iv.leaf.value.executionCount == runs == |iv.executions|
    case _ => false
  }

  ghost predicate Quiet(iv: ExportedInterval) {
    iv.leaf.None? && iv.proof.None? && iv.executions == []
  }

  lemma HourExplained(H: HashFn, projectId: Bytes, iv: ExportedInterval)
    ensures HourFinding(H, projectId, iv).None? <==> Quiet(iv)
    ensures HourFinding(H, projectId, iv).Some? ==> Explains(H, projectId, iv, HourFinding(H, projectId, iv).value)
  {
    hide InclusionVerdict, FoldOf, Digests;
  }

  /** Two findings that explain one interval are the same finding. */
  lemma ExplainedOnce(H: HashFn, projectId: Bytes, iv: ExportedInterval, r: CheckResult, s: CheckResult)
    requires Explains(H, projectId, iv, r) && Explains(H, projectId, iv, s)
    ensures r == s
  {
    hide InclusionVerdict, FoldOf, Digests;
  }

  /** Every hour that is not quiet has the one finding that explains it, in the order of the hours. */
  lemma {:induction false} HoursReported(H: HashFn, projectId: Bytes, ivs: seq<ExportedInterval>, n: nat)
    returns (idx: seq<int>)
    requires n <= |ivs|
    ensures Ascending(idx) && |idx| == |HourFindings(H, projectId, ivs[..n])|
    ensures forall i :: i in idx <==> 0 <= i < n && !Quiet(ivs[i])
    ensures forall k :: 0 <= k < |idx| ==>
      0 <= idx[k] < |ivs| && Explains(H, projectId, ivs[idx[k]], HourFindings(H, projectId, ivs[..n])[k])
  {
    hide Quiet, Explains, HourFinding;
    if n == 0 {
      idx := [];
    } else {
      idx := HoursReported(H, projectId, ivs, n - 1);
      assert ivs[..n][..n - 1] == ivs[..n - 1];
      HourExplained(H, projectId, ivs[n - 1]);
      if !Quiet(ivs[n - 1]) {
        assert forall k :: 0 <= k < |idx| ==> idx[k] in idx && idx[k] < n - 1;
        idx := idx + [n - 1];
      }
    }
  }

  // ----- the project's own entries

  ghost function QuietAt(ivs: seq<ExportedInterval>, n: nat): set<int> {
    set i | 0 <= i < n && i < |ivs| && ivs[i].leaf.None?
  }

  lemma {:induction false} QuietCounted(ivs: seq<ExportedInterval>, n: nat)
    requires n <= |ivs|
    ensures EmptyHours(ivs[..n]) == |QuietAt(ivs, n)|
  {
    if n == 0 {
      assert QuietAt(ivs, 0) == {};
    } else {
      QuietCounted(ivs, n - 1);
      assert ivs[..n][..n - 1] == ivs[..n - 1];
      var before := QuietAt(ivs, n - 1);
      assert QuietAt(ivs, n) == if ivs[n - 1].leaf.None? then before + {n - 1} else before;
    }
  }

  /** The quiet hours are mentioned when there are any, with their number out of all. */
  lemma QuietReported(ivs: seq<ExportedInterval>)
    ensures var n := |QuietAt(ivs, |ivs|)|;
      QuietFindings(ivs) == if n == 0 then [] else [CheckResult(QuietHours(n, |ivs|), true)]
  {
    QuietCounted(ivs, |ivs|);
    assert ivs[..|ivs|] == ivs;
  }

  /** `leaves` are the leaves shown by the intervals at these places, in this order. */
  ghost predicate LeavesAt(ivs: seq<ExportedInterval>, idx: seq<int>, leaves: seq<TenantLeaf>) {
    && |idx| == |leaves| && Ascending(idx)
    && forall k :: 0 <= k < |idx| ==> 0 <= idx[k] < |ivs| && ivs[idx[k]].leaf == Some(leaves[k])
  }

  lemma LeavesMore(ivs: seq<ExportedInterval>, idx: seq<int>, leaves: seq<TenantLeaf>, i: nat)
    requires LeavesAt(ivs, idx, leaves) && i < |ivs| && ivs[i].leaf.Some? && forall k :: k in idx ==> k < i
    ensures LeavesAt(ivs, idx + [i], leaves + [ivs[i].leaf.value])
  {
    AscendingMore(idx, i);
  }

  lemma OwnStep(projectId: Bytes, ivs: seq<ExportedInterval>, n: nat)
    requires 0 < n <= |ivs|
    ensures OwnLeaves(projectId, ivs[..n]) ==
            OwnLeaves(projectId, ivs[..n - 1]) + if Own(projectId, ivs[n - 1]) then [ivs[n - 1].leaf.value] else []
  {
    assert ivs[..n][..n - 1] == ivs[..n - 1];
  }

  /** The leaves put into the sub-chain are those shown under the export's own project, in order. */
  lemma {:induction false} OwnLeavesMean(projectId: Bytes, ivs: seq<ExportedInterval>, n: nat) returns (idx: seq<int>)
    requires n <= |ivs|
    ensures LeavesAt(ivs, idx, OwnLeaves(projectId, ivs[..n]))
    ensures forall i :: i in idx <==> 0 <= i < n && Own(projectId, ivs[i])
  {
    if n == 0 {
      idx := [];
    } else {
      hide OwnLeaves, LeavesAt;
      idx := OwnLeavesMean(projectId, ivs, n - 1);
      OwnStep(projectId, ivs, n);
      if Own(projectId, ivs[n - 1]) {
        LeavesMore(ivs, idx, OwnLeaves(projectId, ivs[..n - 1]), n - 1);
        idx := idx + [n - 1];
      }
    }
  }

  /** What came before a leaf is what its own count must be added to, to give its total. */
  lemma PriorAdds(first: TenantLeaf)
    ensures (PriorExecutions(first) + first.executionCount) % 0x1_0000_0000_0000_0000 == first.cumulativeCount
  {
    var a, b := first.cumulativeCount, first.executionCount;
    assert (a - b % TWO64) % TWO64 == (a - b) % TWO64;
    assert ((a - b) % TWO64 + b) % TWO64 == a % TWO64;
  }

  /**
   * The findings on the project's own entries, and the limits: none without entries; otherwise whether they are a
   * sub-chain, how many they are, and whether they start the project's history or how much came before.
   */
  lemma OwnReported(H: HashFn, projectId: Bytes, leaves: seq<TenantLeaf>)
    ensures leaves == [] ==> OwnFindings(H, projectId, leaves) == [] && HistoryLimits(leaves) == []
    ensures leaves != [] ==>
              var first, f := leaves[0], OwnFindings(H, projectId, leaves);
              var prior := PriorExecutions(first);
              && |f| == 2
              && f[0].finding.OwnEntries? && f[0].finding.entries == |leaves|
              && (f[0].ok <==> ValidSubChain(H, projectId, leaves))
              && f[0].finding.broken == SubChainFailure(H, projectId, leaves)
              && (first.prevLeafHash != ZeroHash() ==>
                    f[1] == CheckResult(Coverage(false, prior), true)
                    && HistoryLimits(leaves) == [EarlierRunsNotCovered(prior)])
              && (first.prevLeafHash == ZeroHash() && prior == 0 ==>
                    f[1] == CheckResult(Coverage(true, 0), true) && HistoryLimits(leaves) == [])
              && (first.prevLeafHash == ZeroHash() && prior > 0 ==>
                    f[1] == CheckResult(Coverage(false, prior), false) && HistoryLimits(leaves) == [])
  {
    hide SubChainFailure, ValidSubChain, PriorExecutions, ZeroHash;
    SubChainPasses(H, projectId, leaves);
  }

  // ----- the report as a whole

  /** The header findings: the first thing wrong with the file ends the report, without any limit to admit. */
  lemma HeaderReported(H: HashFn, e: ChainExport)
    ensures e.format != Text("mesedi.chain-export.v1") ==> ExportFindings(H, e) == [CheckResult(FileFormat, false)]
    ensures e.format == Text("mesedi.chain-export.v1") && e.projectId == [] ==>
              ExportFindings(H, e) == [CheckResult(FileFormat, true), CheckResult(ProjectIdentity, false)]
    ensures e.format == Text("mesedi.chain-export.v1") && e.projectId != [] && e.intervals == [] ==>
              ExportFindings(H, e) == [CheckResult(FileFormat, true), CheckResult(IntervalsPresent, false)]
    ensures e.format == Text("mesedi.chain-export.v1") && e.projectId != [] && e.intervals != [] ==>
              e.intervalSeconds <= 0 ==>
                ExportFindings(H, e) ==
                [CheckResult(FileFormat, true), CheckResult(IntervalCadence(e.intervalSeconds), false)]
    ensures Blocker(e).Some? ==> ExportLimits(e) == []
    ensures Blocker(e).None? <==>
              && e.format == Text("mesedi.chain-export.v1") && e.projectId != [] && e.intervals != []
              && e.intervalSeconds > 0
  {
    hide Text, ChainFindings, HourFindings, OwnFindings, QuietFindings;
  }

  /** Past the header: publication, then the hours, then the project's own entries, then the quiet hours. */
  lemma ReportShape(H: HashFn, e: ChainExport)
    requires Blocker(e) == None
    ensures |ExportFindings(H, e)| >= 4
    ensures ExportFindings(H, e)[4..] ==
            HourFindings(H, e.projectId, e.intervals)
              + OwnFindings(H, e.projectId, OwnLeaves(e.projectId, e.intervals)) + QuietFindings(e.intervals)
    ensures ExportLimits(e) ==
            HistoryLimits(OwnLeaves(e.projectId, e.intervals)) + [LogNotResolved, RunsNotOpened, NothingJudged]
  {
    hide HourFindings, OwnFindings, QuietFindings, OwnLeaves, HistoryLimits, Blocker, ChainFailure;
    hide Unpublished, LinksUpTo, CheckpointsOf, IntervalOf;
    var a, b := ChainFindings(H, e), HourFindings(H, e.projectId, e.intervals);
    var c, d := OwnFindings(H, e.projectId, OwnLeaves(e.projectId, e.intervals)), QuietFindings(e.intervals);
    assert |a| == 4;
    assert (a + b + c + d)[4..] == b + c + d;
  }

  /** The interval checked against is the declared number of seconds, in 64-bit nanoseconds. */
  lemma IntervalMeans(seconds: I64)
    ensures -0x8000_0000_0000_0000 <= seconds * 1_000_000_000 <= 0x7fff_ffff_ffff_ffff ==>
              IntervalOf(seconds) == seconds * 1_000_000_000
    ensures (IntervalOf(seconds) - seconds * 1_000_000_000) % 0x1_0000_0000_0000_0000 == 0
  {
    var x := seconds * SECOND;
    var q := (x - MIN_DURATION) / TWO64;
    assert IntervalOf(seconds) == x - q * TWO64;
    assert (-q * TWO64) % TWO64 == 0;
  }
}
