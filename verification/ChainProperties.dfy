/**
 * What an accepted chain means: its windows, its numbering and tiling, what its last hash commits to, that
 * the builder only produces acceptable chains, and that storage does not disturb one.
 */
module ChainProperties {
  import opened Wrappers
  import opened GoBytes
  import opened GoTime
  import opened Hashing
  import opened MerkleTree
  import opened Checkpoints

  // ----- windows

  /** Every contiguous part of an accepted chain is accepted on its own. */
  lemma SubWindow(H: HashFn, cps: seq<Checkpoint>, interval: Duration, lo: nat, hi: nat)
    requires ValidChain(H, cps, interval) && lo < hi <= |cps|
    ensures ValidChain(H, cps[lo..hi], interval)
  {
    hide Sound;
    var w := cps[lo..hi];
    forall i | 0 <= i < |w|
      ensures Sound(H, w[i], interval) && (i > 0 ==> Follows(w[i], w[i - 1]))
    {
      assert w[i] == cps[lo + i] && (i > 0 ==> w[i - 1] == cps[lo + i - 1]);
    }
    Numbering(H, cps, interval, lo);
    assert w[0] == cps[lo];
  }

  /** Two accepted windows make one exactly when the second begins where the first ends. */
  lemma Concatenation(H: HashFn, a: seq<Checkpoint>, b: seq<Checkpoint>, interval: Duration)
    requires ValidChain(H, a, interval) && ValidChain(H, b, interval)
    ensures ValidChain(H, a + b, interval) <==> Follows(b[0], a[|a| - 1])
  {
    hide Sound;
    hide Follows;
    hide Opens;
    var ab := a + b;
    assert ab[|a|] == b[0] && ab[|a| - 1] == a[|a| - 1];
    if Follows(b[0], a[|a| - 1]) {
      forall i | 0 < i < |ab|
        ensures Follows(ab[i], ab[i - 1])
      {
        if i < |a| {
          assert ab[i] == a[i] && ab[i - 1] == a[i - 1];
        } else if i > |a| {
          assert ab[i] == b[i - |a|] && ab[i - 1] == b[i - |a| - 1];
        }
      }
    }
  }

  // ----- numbering and tiling

  /** Sequence numbers are consecutive; a wrapped number would be 0 and is refused. */
  lemma {:induction false} Numbering(H: HashFn, cps: seq<Checkpoint>, interval: Duration, i: nat)
    requires ValidChain(H, cps, interval) && i < |cps|
    ensures cps[i].seqNo == cps[0].seqNo + i && cps[0].seqNo >= 1
  {
    hide CheckpointHash;
    hide LeafRecord;
    hide AlignedTo;
    assert Sound(H, cps[0], interval);
    if i > 0 {
      Numbering(H, cps, interval, i - 1);
      assert Sound(H, cps[i], interval) && Follows(cps[i], cps[i - 1]);
    }
  }

  ghost predicate Tiles(cps: seq<Checkpoint>, interval: Duration) {
    forall i :: 0 <= i < |cps| ==>
      && cps[i].intervalStart == cps[0].intervalStart + i * interval
      && cps[i].intervalEnd == cps[i].intervalStart + interval
  }

  lemma {:induction false} IntervalAt(H: HashFn, cps: seq<Checkpoint>, interval: Duration, i: nat)
    requires ValidChain(H, cps, interval) && interval < MAX_DURATION && i < |cps|
    ensures cps[i].intervalStart == cps[0].intervalStart + i * interval
    ensures cps[i].intervalEnd == cps[i].intervalStart + interval
  {
    hide CheckpointHash;
    hide LeafRecord;
    assert Sound(H, cps[i], interval);
    if i > 0 {
      IntervalAt(H, cps, interval, i - 1);
      assert Follows(cps[i], cps[i - 1]);
      assert i * interval == (i - 1) * interval + interval;
    }
  }

  /** A checkpoint that spans twice the longest duration: Sub saturates, so it passes for one of that length. */
  function OverlongBody(prev: Option<Checkpoint>): Checkpoint {
    var start := match prev case None => 0 case Some(c) => c.intervalEnd;
    Checkpoint(FormatCurrent(), NextSeqNo(prev), PrevHash(prev), if prev.None? then [] else [0],
               start, start + 2 * MAX_DURATION, 0, [], Baseline(prev), 0, [])
  }

  function Overlong(H: HashFn, prev: Option<Checkpoint>): Checkpoint {
    Seal(H, OverlongBody(prev))
  }

  lemma OverlongSound(H: HashFn, prev: Option<Checkpoint>)
    requires prev == None || prev == Some(Overlong(H, None))
    ensures Sound(H, Overlong(H, prev), MAX_DURATION)
  {
    hide CheckpointHash;
    SealHash(H, OverlongBody(prev));
    assert Truncate(0, MAX_DURATION) == 0 && Truncate(2 * MAX_DURATION, MAX_DURATION) == 2 * MAX_DURATION;
  }

  lemma OverlongLinks(H: HashFn)
    ensures Opens(Overlong(H, None))
    ensures Follows(Overlong(H, Some(Overlong(H, None))), Overlong(H, None))
    ensures Overlong(H, None).intervalStart == 0 && Overlong(H, None).intervalEnd == 2 * MAX_DURATION
  {
    hide CheckpointHash;
  }

  lemma OverlongChain(H: HashFn)
    ensures ValidChain(H, [Overlong(H, None), Overlong(H, Some(Overlong(H, None)))], MAX_DURATION)
  {
    hide Overlong;
    hide Sound;
    hide Follows;
    hide Opens;
    OverlongSound(H, None);
    OverlongSound(H, Some(Overlong(H, None)));
    OverlongLinks(H);
  }

  /** The hash does not depend on the hash field. */
  lemma SealHash(H: HashFn, c: Checkpoint)
    ensures CheckpointHash(H, Seal(H, c)) == Seal(H, c).hash == CheckpointHash(H, c)
  {
    assert CheckpointValues(Seal(H, c)) == CheckpointValues(c);
  }

  lemma ChainTiles(H: HashFn, cps: seq<Checkpoint>, interval: Duration)
    requires ValidChain(H, cps, interval) && interval < MAX_DURATION
    ensures Tiles(cps, interval)
  {
    hide ValidChain;
    forall i | 0 <= i < |cps|
      ensures cps[i].intervalStart == cps[0].intervalStart + i * interval
      ensures cps[i].intervalEnd == cps[i].intervalStart + interval
    {
      IntervalAt(H, cps, interval, i);
    }
  }

  /** Accepted chains tile their period for every interval length but the longest duration there is. */
  lemma TilingExactly(H: HashFn, interval: Duration)
    requires interval > 0
    ensures (forall cps: seq<Checkpoint> :: ValidChain(H, cps, interval) ==> Tiles(cps, interval))
       <==> interval < MAX_DURATION
  {
    hide ValidChain;
    hide Overlong;
    if interval < MAX_DURATION {
      forall cps: seq<Checkpoint> | ValidChain(H, cps, interval)
        ensures Tiles(cps, interval)
      {
        ChainTiles(H, cps, interval);
      }
    } else {
      OverlongChain(H);
      OverlongLinks(H);
      var c := Overlong(H, None);
      var cps := [c, Overlong(H, Some(c))];
      assert cps[0] == c && !Tiles(cps, interval);
    }
  }

  ghost predicate Covers(c: Checkpoint, t: Time) {
    c.intervalStart <= t < c.intervalEnd
  }

  /** Position, in a chain, of the checkpoint whose turn it is at t. */
  function SlotOf(cps: seq<Checkpoint>, interval: Duration, t: Time): int
    requires cps != [] && interval > 0
  {
    t / interval - cps[0].intervalStart / interval
  }

  lemma NotNegative(k: nat, d: nat)
    ensures k * d >= 0
  {
  }

  lemma MulStep(a: int, b: int, d: int)
    requires d > 0
    ensures a < b ==> a * d + d <= b * d
  {
    if a < b {
      NotNegative(b - a - 1, d);
      assert b * d == (a + 1 + (b - a - 1)) * d == a * d + d + (b - a - 1) * d;
    }
  }

  lemma QuotientIs(t: int, d: int, q: int)
    requires d > 0 && q * d <= t < q * d + d
    ensures t / d == q
  {
    MulStep(t / d, q, d);
    MulStep(q, t / d, d);
  }

  lemma StartOnGrid(H: HashFn, cps: seq<Checkpoint>, interval: Duration)
    requires ValidChain(H, cps, interval)
    ensures cps[0].intervalStart == cps[0].intervalStart / interval * interval
  {
    hide CheckpointHash;
    hide LeafRecord;
    assert Sound(H, cps[0], interval);
  }

  lemma SlotArithmetic(start: Time, interval: Duration, base: int, i: int, t: Time)
    requires interval > 0 && start == base * interval
    ensures start + i * interval <= t < start + i * interval + interval <==> t / interval == base + i
  {
    assert (base + i) * interval == base * interval + i * interval;
    if start + i * interval <= t < start + i * interval + interval {
      QuotientIs(t, interval, base + i);
    } else {
      QuotientBounds(t, interval);
    }
  }

  lemma QuotientBounds(t: int, d: int)
    requires d > 0
    ensures t / d * d <= t < t / d * d + d
  {}

  /** Every instant of the period lies in one checkpoint: the one its place on the clock's grid names. */
  lemma OneSlotPerInstant(H: HashFn, cps: seq<Checkpoint>, interval: Duration, t: Time)
    requires ValidChain(H, cps, interval) && interval < MAX_DURATION
    requires cps[0].intervalStart <= t < cps[|cps| - 1].intervalEnd
    ensures 0 <= SlotOf(cps, interval, t) < |cps|
    ensures forall i :: 0 <= i < |cps| ==> (Covers(cps[i], t) <==> i == SlotOf(cps, interval, t))
  {
    hide Sound;
    hide Follows;
    hide Opens;
    var n, start := |cps|, cps[0].intervalStart;
    StartOnGrid(H, cps, interval);
    forall i | 0 <= i < n
      ensures Covers(cps[i], t) <==> i == SlotOf(cps, interval, t)
    {
      IntervalAt(H, cps, interval, i);
      SlotArithmetic(start, interval, start / interval, i, t);
    }
    IntervalAt(H, cps, interval, n - 1);
    SlotInRange(start, interval, n, t);
  }

  lemma SlotInRange(start: Time, interval: Duration, n: nat, t: Time)
    requires interval > 0 && start == start / interval * interval
    requires start <= t < start + (n - 1) * interval + interval
    ensures 0 <= t / interval - start / interval < n
  {
    var base := start / interval;
    QuotientBounds(t, interval);
    assert (base + (n - 1)) * interval == base * interval + (n - 1) * interval;
    MulStep(t / interval, base, interval);
    MulStep(base + (n - 1), t / interval, interval);
  }

  // ----- what the last hash commits to

  ghost predicate ChainHashed(hashed: set<Bytes>, cps: seq<Checkpoint>) {
    forall i :: 0 <= i < |cps| ==> LeafPreimage(CheckpointRecord(cps[i])) in hashed
  }

  lemma SameHashSameCheckpoint(
      H: HashFn, hashed: set<Bytes>, a: seq<Checkpoint>, interval: Duration, b: seq<Checkpoint>, other: Duration,
      i: nat, j: nat)
    requires ValidChain(H, a, interval) && ValidChain(H, b, other) && i < |a| && j < |b|
    requires CollisionFree(H, hashed) && ChainHashed(hashed, a) && ChainHashed(hashed, b)
    requires a[i].hash == b[j].hash
    ensures Stored(a[i]) == Stored(b[j])
    ensures i > 0 && j > 0 ==> a[i - 1].hash == b[j - 1].hash
  {
    hide CheckpointHash;
    hide LeafRecord;
    hide CheckpointRecord;
    assert Sound(H, a[i], interval) && Sound(H, b[j], other);
    CheckpointBinding(H, hashed, a[i], b[j]);
    if i > 0 && j > 0 {
      assert Follows(a[i], a[i - 1]) && Follows(b[j], b[j - 1]);
    }
  }

  /** Going back k steps from an agreed last hash, the two chains still agree. */
  lemma {:induction false} AgreeFromTheEnd(
      H: HashFn, hashed: set<Bytes>, a: seq<Checkpoint>, interval: Duration, b: seq<Checkpoint>, other: Duration,
      k: nat)
    requires ValidChain(H, a, interval) && ValidChain(H, b, other) && k < |a| <= |b|
    requires CollisionFree(H, hashed) && ChainHashed(hashed, a) && ChainHashed(hashed, b)
    requires a[|a| - 1].hash == b[|b| - 1].hash
    ensures a[|a| - 1 - k].hash == b[|b| - 1 - k].hash
    ensures Stored(a[|a| - 1 - k]) == Stored(b[|b| - 1 - k])
  {
    hide ValidChain;
    hide ChainHashed;
    if k > 0 {
      AgreeFromTheEnd(H, hashed, a, interval, b, other, k - 1);
      SameHashSameCheckpoint(H, hashed, a, interval, b, other, |a| - k, |b| - k);
    }
    SameHashSameCheckpoint(H, hashed, a, interval, b, other, |a| - 1 - k, |b| - 1 - k);
  }

  /**
   * Two accepted chains with the same last hash, whatever intervals they were checked against: the shorter is a
   * suffix of the longer, on every field, times to the microsecond. A chain reaching back to checkpoint 1 has no
   * longer companion.
   */
  lemma ChainBinding(
      H: HashFn, hashed: set<Bytes>, a: seq<Checkpoint>, interval: Duration, b: seq<Checkpoint>, other: Duration)
    requires ValidChain(H, a, interval) && ValidChain(H, b, other) && |a| <= |b|
    requires CollisionFree(H, hashed) && ChainHashed(hashed, a) && ChainHashed(hashed, b)
    requires a[|a| - 1].hash == b[|b| - 1].hash
    ensures forall i :: 0 <= i < |a| ==> Stored(a[i]) == Stored(b[|b| - |a| + i])
    ensures a[0].seqNo == 1 ==> |a| == |b|
  {
    hide Stored;
    hide ValidChain;
    hide ChainHashed;
    forall i | 0 <= i < |a|
      ensures Stored(a[i]) == Stored(b[|b| - |a| + i])
    {
      AgreeFromTheEnd(H, hashed, a, interval, b, other, |a| - 1 - i);
    }
    AgreeOnNumber(H, hashed, a, interval, b, other);
  }

  lemma AgreeOnNumber(
      H: HashFn, hashed: set<Bytes>, a: seq<Checkpoint>, interval: Duration, b: seq<Checkpoint>, other: Duration)
    requires ValidChain(H, a, interval) && ValidChain(H, b, other) && |a| <= |b|
    requires CollisionFree(H, hashed) && ChainHashed(hashed, a) && ChainHashed(hashed, b)
    requires a[|a| - 1].hash == b[|b| - 1].hash
    ensures a[0].seqNo == b[0].seqNo + (|b| - |a|) && b[0].seqNo >= 1
  {
    hide Sound;
    hide Follows;
    hide ChainHashed;
    AgreeFromTheEnd(H, hashed, a, interval, b, other, |a| - 1);
    assert Stored(a[0]).seqNo == Stored(b[|b| - |a|]).seqNo;
    Numbering(H, b, other, |b| - |a|);
  }

  /** Exactly the strings hashed for the checkpoints of a chain. */
  function ChainQueries(cps: seq<Checkpoint>): set<Bytes> {
    set i | 0 <= i < |cps| :: LeafPreimage(CheckpointRecord(cps[i]))
  }

  lemma ChainQueriesCover(hashed: set<Bytes>, cps: seq<Checkpoint>)
    requires ChainQueries(cps) <= hashed
    ensures ChainHashed(hashed, cps)
  {
    hide CheckpointRecord, LeafPreimage;
    forall i | 0 <= i < |cps|
      ensures LeafPreimage(CheckpointRecord(cps[i])) in hashed
    {
      assert LeafPreimage(CheckpointRecord(cps[i])) in ChainQueries(cps);
    }
  }

  /** From two accepted chains that end in one hash and yet disagree, two strings with one hash. */
  method ExtractChainCollision(
      H: HashFn, a: seq<Checkpoint>, interval: Duration, b: seq<Checkpoint>, other: Duration, i: nat)
    returns (x: Bytes, y: Bytes)
    requires ValidChain(H, a, interval) && ValidChain(H, b, other) && i < |a| <= |b|
    requires a[|a| - 1].hash == b[|b| - 1].hash && Stored(a[i]) != Stored(b[|b| - |a| + i])
    ensures IsCollision(H, x, y)
  {
    hide ValidChain, ChainHashed, ChainQueries, Stored, IsCollision;
    var hashed := ChainQueries(a) + ChainQueries(b);
    var found := FindCollision(H, hashed);
    if found.None? {
      ChainQueriesCover(hashed, a);
      ChainQueriesCover(hashed, b);
      ChainBinding(H, hashed, a, interval, b, other);
      assert false;
    }
    x, y := found.value.0, found.value.1;
  }

  // ----- the builder

  lemma IntervalRootPresent(H: HashFn, leaves: seq<TenantLeaf>)
    ensures IntervalRoot(H, leaves) == [] <==> leaves == []
  {
    hide LeafRecord;
    if leaves != [] {
      RootIsMth(H, LeafDigests(H, leaves));
      RootIsDigest(H, LeafDigests(H, leaves));
    }
  }

  /** A leaf the builder takes: a root exactly when there are executions. */
  ghost predicate WellFormed(l: TenantLeaf) {
    && l.projectId != [] && l.prevLeafHash != []
    && l.executionCount >= 0 && (l.executionCount == 0 <==> l.intervalRoot == [])
  }

  lemma {:induction false} NoLeafDefect(leaves: seq<TenantLeaf>)
    ensures FirstLeafDefect(leaves) == None <==> forall i :: 0 <= i < |leaves| ==> WellFormed(leaves[i])
  {
    if leaves != [] {
      var n := |leaves| - 1;
      NoLeafDefect(leaves[..n]);
      assert forall i :: 0 <= i < n ==> leaves[..n][i] == leaves[i];
      assert FirstLeafDefect(leaves) == None <==> FirstLeafDefect(leaves[..n]) == None && WellFormed(leaves[n]);
    }
  }

  /** One whole interval on the grid, joined to an untampered and published predecessor if there is one. */
  ghost predicate Buildable(H: HashFn, p: CheckpointParams) {
    && p.interval > 0 && p.intervalStart < p.intervalEnd
    && Sub(p.intervalEnd, p.intervalStart) == p.interval && AlignedTo(p.intervalStart, p.interval)
    && (p.prev.None? ==> p.prevLogEntryId == [])
    && (p.prev.Some? ==>
          && p.prev.value.hash == CheckpointHash(H, p.prev.value)
          && p.prevLogEntryId != [] && p.intervalStart == p.prev.value.intervalEnd)
    && forall i :: 0 <= i < |p.leaves| ==> WellFormed(p.leaves[i])
  }

  /** The builder refuses nothing else. */
  lemma BuiltExactly(H: HashFn, p: CheckpointParams, clock: Time)
    requires |p.leaves| <= MAX_DURATION
    ensures Built(H, p, clock).Ok? <==> Buildable(H, p)
  {
    hide CheckpointHash, FirstLeafDefect, WellFormed, Sub, AlignedTo;
    NoLeafDefect(p.leaves);
  }

  /** An accepted window can always be continued: the next interval's build is never refused. */
  lemma NextIsBuildable(
      H: HashFn, cps: seq<Checkpoint>, interval: Duration, logId: Bytes, leaves: seq<TenantLeaf>, now: Time,
      clock: Time)
    requires ValidChain(H, cps, interval) && interval < MAX_DURATION && logId != [] && |leaves| <= MAX_DURATION
    requires forall i :: 0 <= i < |leaves| ==> WellFormed(leaves[i])
    ensures var last := cps[|cps| - 1];
      var end := last.intervalEnd;
      Built(H, CheckpointParams(Some(last), logId, end, end + interval, interval, leaves, now), clock).Ok?
  {
    hide CheckpointHash, WellFormed, Built, Sub, AlignedTo, Follows, Opens;
    var last := cps[|cps| - 1];
    assert Sound(H, last, interval);
    NextOnGrid(last.intervalStart, last.intervalEnd, interval);
    var end := last.intervalEnd;
    BuiltExactly(H, CheckpointParams(Some(last), logId, end, end + interval, interval, leaves, now), clock);
  }

  lemma NextOnGrid(start: Time, end: Time, interval: Duration)
    requires 0 < interval < MAX_DURATION && Sub(end, start) == interval && AlignedTo(start, interval)
    ensures AlignedTo(end, interval) && Sub(end + interval, end) == interval
  {
    assert end == start + interval;
    var q := start / interval;
    assert start == q * interval;
    assert end == (q + 1) * interval;
    QuotientIs(end, interval, q + 1);
  }

  ghost predicate Continues(c: Checkpoint, prev: Checkpoint) {
    && c.prevCheckpointHash == prev.hash
    && c.prevLogEntryId != []
    && c.intervalStart == prev.intervalEnd
  }

  lemma BuiltIsSound(H: HashFn, p: CheckpointParams, clock: Time)
    requires |p.leaves| <= MAX_DURATION && Built(H, p, clock).Ok?
    ensures var c := Built(H, p, clock).value;
            && (Sound(H, c, p.interval) <==> c.seqNo >= 1)
            && (p.prev.None? ==> Opens(c))
            && (p.prev.Some? ==> Continues(c, p.prev.value))
  {
    hide CheckpointHash;
    hide FirstLeafDefect;
    hide IntervalRoot;
    hide Added;
    hide AlignedTo;
    hide Sub;
    hide Truncate;
    SealHash(H, Unsealed(H, p, clock));
    IntervalRootPresent(H, p.leaves);
  }

  lemma BuiltCounts(H: HashFn, p: CheckpointParams, clock: Time)
    requires |p.leaves| <= MAX_DURATION && Built(H, p, clock).Ok?
    ensures Built(H, p, clock).value.seqNo == NextSeqNo(p.prev)
    ensures Built(H, p, clock).value.cumulativeCount == Wrap(Baseline(p.prev) + Added(p.leaves))
    ensures FirstLeafDefect(p.leaves) == None && p.interval > 0
  {
    hide CheckpointHash;
    hide IntervalRoot;
    hide AlignedTo;
    hide Sub;
  }

  lemma NoOverflow(a: U64, b: U64)
    ensures a <= Wrap(a + b) <==> a + b < TWO64
  {}

  /**
   * Building on the last element of an accepted window keeps it accepted, exactly when neither the sequence
   * number nor the running total overflows 64 bits; the builder itself does not look.
   */
  lemma BuiltExtends(H: HashFn, cps: seq<Checkpoint>, p: CheckpointParams, clock: Time)
    requires ValidChain(H, cps, p.interval) && p.prev == Some(cps[|cps| - 1])
    requires |p.leaves| <= MAX_DURATION && Built(H, p, clock).Ok?
    ensures ValidChain(H, cps + [Built(H, p, clock).value], p.interval)
       <==> cps[|cps| - 1].seqNo + 1 < TWO64 && cps[|cps| - 1].cumulativeCount + Added(p.leaves) < TWO64
  {
    hide Built;
    hide Sound;
    hide Added;
    var c, last := Built(H, p, clock).value, cps[|cps| - 1];
    BuiltIsSound(H, p, clock);
    BuiltCounts(H, p, clock);
    NoOverflow(last.cumulativeCount, Added(p.leaves));
    ExtendByOne(H, cps, c, p.interval);
  }

  /** A window of one idle checkpoint with the given number and total. */
  function WindowOfOne(H: HashFn, number: U64, total: U64): seq<Checkpoint> {
    [Seal(H, Checkpoint(FormatCurrent(), number, ZeroHash(), [1], 0, SECOND, 0, [], total, 0, []))]
  }

  lemma WindowOfOneValid(H: HashFn, number: U64, total: U64)
    requires number > 1
    ensures ValidChain(H, WindowOfOne(H, number, total), SECOND)
  {
    hide CheckpointHash;
    SealHash(H, Checkpoint(FormatCurrent(), number, ZeroHash(), [1], 0, SECOND, 0, [], total, 0, []));
    assert Truncate(0, SECOND) == 0;
  }

  /** What extends such a window by one interval with these leaves. */
  function NextParams(H: HashFn, number: U64, total: U64, leaves: seq<TenantLeaf>): CheckpointParams {
    CheckpointParams(Some(WindowOfOne(H, number, total)[0]), [1], SECOND, SECOND + SECOND, SECOND, leaves, 1)
  }

  lemma NextBuilds(H: HashFn, number: U64, total: U64, leaves: seq<TenantLeaf>)
    requires number > 1 && |leaves| <= MAX_DURATION && forall i :: 0 <= i < |leaves| ==> WellFormed(leaves[i])
    ensures Built(H, NextParams(H, number, total, leaves), 0).Ok?
    ensures ValidChain(H, WindowOfOne(H, number, total), SECOND)
    ensures var next := Built(H, NextParams(H, number, total, leaves), 0);
      ValidChain(H, WindowOfOne(H, number, total) + [next.value], SECOND) <==>
        number + 1 < TWO64 && total + Added(leaves) < TWO64
  {
    hide ValidChain, Built, CheckpointHash, WellFormed, Added;
    var w := WindowOfOne(H, number, total);
    WindowOfOneValid(H, number, total);
    NextIsBuildable(H, w, SECOND, [1], leaves, 1, 0);
    BuiltExtends(H, w, NextParams(H, number, total, leaves), 0);
  }

  /** A build on this accepted window succeeds, and the result is no longer accepted. */
  ghost predicate Outgrows(H: HashFn, number: U64, total: U64, leaves: seq<TenantLeaf>) {
    && ValidChain(H, WindowOfOne(H, number, total), SECOND)
    && |leaves| <= MAX_DURATION && Built(H, NextParams(H, number, total, leaves), 0).Ok?
    && !ValidChain(H, WindowOfOne(H, number, total) + [Built(H, NextParams(H, number, total, leaves), 0).value], SECOND)
  }

  /** Both overflows happen: of the last sequence number, and of a total that one more execution takes past 64 bits. */
  lemma BuilderOverflows(H: HashFn)
    ensures Outgrows(H, TWO64 - 1, 0, [])
    ensures Outgrows(H, 2, TWO64 - 1, [TenantLeaf([1], [1], 1, 0, [1])])
  {
    hide ValidChain, Built, WindowOfOne, NextParams, Added;
    var leaf := TenantLeaf([1], [1], 1, 0, [1]);
    NextBuilds(H, TWO64 - 1, 0, []);
    NextBuilds(H, 2, TWO64 - 1, [leaf]);
    AddedOne(leaf);
  }

  lemma AddedOne(leaf: TenantLeaf)
    requires leaf.executionCount == 1
    ensures Added([leaf]) == 1
  {
    assert [leaf][..0] == [];
  }

  lemma ExtendByOne(H: HashFn, cps: seq<Checkpoint>, c: Checkpoint, interval: Duration)
    requires ValidChain(H, cps, interval)
    ensures ValidChain(H, cps + [c], interval) <==> Sound(H, c, interval) && Follows(c, cps[|cps| - 1])
  {
    hide Sound;
    hide Follows;
    hide Opens;
    var longer := cps + [c];
    assert longer[|cps|] == c;
    forall i | 0 <= i < |cps|
      ensures longer[i] == cps[i]
    {}
    if ValidChain(H, longer, interval) {
      assert Follows(longer[|cps|], longer[|cps| - 1]);
    }
  }

  /** One build request with the clock reading it met. */
  datatype BuildCall = BuildCall(params: CheckpointParams, clock: Time)

  function Predecessor(cps: seq<Checkpoint>, i: nat): Option<Checkpoint>
    requires i < |cps|
  {
    if i == 0 then None else Some(cps[i - 1])
  }

  /** cps came out of the given calls, the first from nothing and each other one on its predecessor. */
  ghost predicate Grown(H: HashFn, interval: Duration, calls: seq<BuildCall>, cps: seq<Checkpoint>) {
    && |calls| == |cps|
    && forall i :: 0 <= i < |calls| ==>
         && calls[i].params.interval == interval
         && |calls[i].params.leaves| <= MAX_DURATION
         && calls[i].params.prev == Predecessor(cps, i)
         && Built(H, calls[i].params, calls[i].clock) == Ok(cps[i])
  }

  /** Executions covered by the calls, as an unbounded number. */
  ghost function TotalExecutions(calls: seq<BuildCall>): int {
    if calls == [] then 0
    else TotalExecutions(calls[..|calls| - 1]) + Executions(calls[|calls| - 1].params.leaves)
  }

  lemma {:induction false} AddedIsExecutions(leaves: seq<TenantLeaf>)
    requires FirstLeafDefect(leaves) == None
    ensures Executions(leaves) >= 0
    ensures Executions(leaves) < TWO64 ==> Added(leaves) == Executions(leaves)
  {
    if leaves != [] {
      AddedIsExecutions(leaves[..|leaves| - 1]);
      assert LeafDefect(leaves[|leaves| - 1], |leaves| - 1) == None;
    }
  }

  lemma InitAndLast<T>(s: seq<T>)
    requires s != []
    ensures s == s[..|s| - 1] + [s[|s| - 1]]
  {}

  lemma {:induction false} GrownLast(H: HashFn, interval: Duration, calls: seq<BuildCall>, cps: seq<Checkpoint>)
    requires Grown(H, interval, calls, cps) && calls != []
    ensures |cps| == |calls|
    ensures var p := calls[|calls| - 1].params;
      && p.interval == interval && |p.leaves| <= MAX_DURATION && p.prev == Predecessor(cps, |cps| - 1)
      && Built(H, p, calls[|calls| - 1].clock) == Ok(cps[|cps| - 1])
    ensures |calls| > 1 ==> Grown(H, interval, calls[..|calls| - 1], cps[..|cps| - 1])
  {
    hide Built;
    var n := |calls| - 1;
    assert calls[n].params.interval == interval;
    forall i | 0 <= i < n
      ensures Predecessor(cps[..n], i) == Predecessor(cps, i) && cps[..n][i] == cps[i] && calls[..n][i] == calls[i]
    {}
  }

  lemma {:induction false} GrownFirst(H: HashFn, interval: Duration, calls: seq<BuildCall>, cps: seq<Checkpoint>)
    requires Grown(H, interval, calls, cps) && |calls| == 1 && TotalExecutions(calls) < TWO64
    ensures TotalExecutions(calls) >= 0
    ensures ValidChain(H, cps, interval)
    ensures cps[0].seqNo == 1 && cps[0].cumulativeCount == TotalExecutions(calls)
  {
    hide Grown;
    hide Built;
    hide Added;
    hide Executions;
    hide Sound;
    hide Follows;
    GrownLast(H, interval, calls, cps);
    FirstBuilt(H, calls[0], cps[0]);
    BuiltCounts(H, calls[0].params, calls[0].clock);
    AddedIsExecutions(calls[0].params.leaves);
    assert calls[..0] == [] && cps == [cps[0]];
  }

  lemma {:induction false} GrownStep(H: HashFn, interval: Duration, calls: seq<BuildCall>, cps: seq<Checkpoint>)
    requires Grown(H, interval, calls, cps) && |calls| > 1
    requires |calls| < TWO64 && TotalExecutions(calls) < TWO64
    requires var n := |calls| - 1;
      TotalExecutions(calls[..n]) < TWO64 ==>
        && TotalExecutions(calls[..n]) >= 0 && ValidChain(H, cps[..n], interval)
        && cps[n - 1].seqNo == n && cps[n - 1].cumulativeCount == TotalExecutions(calls[..n])
    ensures TotalExecutions(calls[..|calls| - 1]) < TWO64 && TotalExecutions(calls) >= 0
    ensures ValidChain(H, cps, interval)
    ensures cps[|cps| - 1].seqNo == |calls| && cps[|cps| - 1].cumulativeCount == TotalExecutions(calls)
  {
    hide Grown;
    hide Built;
    hide Added;
    hide Executions;
    hide Sound;
    hide Follows;
    GrownLast(H, interval, calls, cps);
    var n := |calls| - 1;
    var call := calls[n];
    BuiltCounts(H, call.params, call.clock);
    AddedIsExecutions(call.params.leaves);
    assert TotalExecutions(calls) == TotalExecutions(calls[..n]) + Executions(call.params.leaves);
    BuiltExtends(H, cps[..n], call.params, call.clock);
    InitAndLast(cps);
  }

  lemma {:induction false} GrownCounts(H: HashFn, interval: Duration, calls: seq<BuildCall>, cps: seq<Checkpoint>)
    requires Grown(H, interval, calls, cps) && calls != []
    requires |calls| < TWO64 && TotalExecutions(calls) < TWO64
    ensures TotalExecutions(calls) >= 0
    ensures ValidChain(H, cps, interval)
    ensures cps[|cps| - 1].seqNo == |calls| && cps[|cps| - 1].cumulativeCount == TotalExecutions(calls)
  {
    hide Built;
    hide Sound;
    hide Follows;
    hide TotalExecutions;
    if |calls| == 1 {
      GrownFirst(H, interval, calls, cps);
    } else {
      var n := |calls| - 1;
      GrownLast(H, interval, calls, cps);
      if TotalExecutions(calls[..n]) < TWO64 {
        GrownCounts(H, interval, calls[..n], cps[..n]);
      }
      GrownStep(H, interval, calls, cps);
    }
  }

  lemma FirstBuilt(H: HashFn, call: BuildCall, c: Checkpoint)
    requires |call.params.leaves| <= MAX_DURATION && call.params.prev == None
    requires Built(H, call.params, call.clock) == Ok(c)
    ensures ValidChain(H, [c], call.params.interval)
    ensures c.seqNo == 1 && c.cumulativeCount == Added(call.params.leaves)
  {
    hide Built;
    hide Sound;
    hide Added;
    BuiltIsSound(H, call.params, call.clock);
    BuiltCounts(H, call.params, call.clock);
  }

  /** Every chain grown from nothing is accepted, numbered from 1, and its total is the executions it covers. */
  lemma GrownIsValid(H: HashFn, interval: Duration, calls: seq<BuildCall>, cps: seq<Checkpoint>)
    requires Grown(H, interval, calls, cps) && calls != []
    requires |calls| < TWO64 && TotalExecutions(calls) < TWO64
    ensures ValidChain(H, cps, interval)
    ensures cps[|cps| - 1].seqNo == |calls| && cps[|cps| - 1].cumulativeCount == TotalExecutions(calls)
  {
    hide Built;
    hide ValidChain;
    GrownCounts(H, interval, calls, cps);
  }

  lemma GrownExtends(
      H: HashFn, interval: Duration, calls: seq<BuildCall>, cps: seq<Checkpoint>, call: BuildCall, c: Checkpoint)
    requires Grown(H, interval, calls, cps)
    requires call.params.interval == interval && |call.params.leaves| <= MAX_DURATION
    requires call.params.prev == if cps == [] then None else Some(cps[|cps| - 1])
    requires Built(H, call.params, call.clock) == Ok(c)
    ensures Grown(H, interval, calls + [call], cps + [c])
  {
    hide Built;
    var longer, more := cps + [c], calls + [call];
    forall i | 0 <= i < |more|
      ensures longer[i] == (if i < |cps| then cps[i] else c) && more[i] == (if i < |calls| then calls[i] else call)
      ensures Predecessor(longer, i) == if i < |cps| then Predecessor(cps, i) else call.params.prev
    {}
  }

  /** Idle intervals, one after the other, grow a chain of any length: checkpoints are made when nothing happens too. */
  lemma {:induction false} IdleChain(H: HashFn, interval: Duration, n: nat)
    returns (calls: seq<BuildCall>, cps: seq<Checkpoint>)
    requires 0 < interval < MAX_DURATION && 0 < n < TWO64
    ensures Grown(H, interval, calls, cps) && |cps| == n && TotalExecutions(calls) == 0
    ensures forall i :: 0 <= i < n ==> cps[i].tenantLeafCount == 0
  {
    hide Built, Grown, ValidChain;
    var p: CheckpointParams;
    if n == 1 {
      calls, cps := [], [];
      NothingGrown(H, interval);
      p := CheckpointParams(None, [], 0, interval, interval, [], 1);
      FirstIdle(H, interval);
    } else {
      calls, cps := IdleChain(H, interval, n - 1);
      GrownSizes(H, interval, calls, cps);
      GrownIsValid(H, interval, calls, cps);
      var last := cps[n - 2];
      p := CheckpointParams(Some(last), [1], last.intervalEnd, last.intervalEnd + interval, interval, [], 1);
      NextIsBuildable(H, cps, interval, [1], [], 1, 0);
    }
    var c := Built(H, p, 0).value;
    IdleCount(H, p);
    GrownExtends(H, interval, calls, cps, BuildCall(p, 0), c);
    assert (calls + [BuildCall(p, 0)])[..|calls|] == calls;
    calls, cps := calls + [BuildCall(p, 0)], cps + [c];
  }

  lemma NothingGrown(H: HashFn, interval: Duration)
    ensures Grown(H, interval, [], []) && TotalExecutions([]) == 0
  {}

  lemma GrownSizes(H: HashFn, interval: Duration, calls: seq<BuildCall>, cps: seq<Checkpoint>)
    requires Grown(H, interval, calls, cps)
    ensures |calls| == |cps|
  {
    hide Built;
  }

  lemma FirstIdle(H: HashFn, interval: Duration)
    requires 0 < interval < MAX_DURATION
    ensures Built(H, CheckpointParams(None, [], 0, interval, interval, [], 1), 0).Ok?
  {
    hide Built;
    BuiltExactly(H, CheckpointParams(None, [], 0, interval, interval, [], 1), 0);
  }

  lemma IdleCount(H: HashFn, p: CheckpointParams)
    requires p.leaves == [] && Built(H, p, 0).Ok?
    ensures Built(H, p, 0).value.tenantLeafCount == 0 && Executions(p.leaves) == 0
  {
    hide CheckpointHash;
  }

  // ----- storage

  function StoredChain(cps: seq<Checkpoint>): (s: seq<Checkpoint>)
    ensures |s| == |cps|
  {
    seq(|cps|, i requires 0 <= i < |cps| => Stored(cps[i]))
  }

  /** Cutting any time field to microseconds leaves the hash alone. */
  lemma HashSurvivesStorage(H: HashFn, c: Checkpoint)
    ensures CheckpointHash(H, Stored(c)) == CheckpointHash(H, c)
  {
    assert forall t :: Truncate(Truncate(t, MICROSECOND), MICROSECOND) == Truncate(t, MICROSECOND);
    assert CheckpointValues(Stored(c)) == CheckpointValues(c);
  }

  lemma GridMultiple(t: Time, interval: Duration)
    requires interval > 0 && interval % MICROSECOND == 0 && AlignedTo(t, interval)
    ensures Truncate(t, MICROSECOND) == t
  {
    var q, m := t / interval, interval / MICROSECOND;
    assert t == q * interval && interval == m * MICROSECOND;
    assert q * interval == (q * m) * MICROSECOND by { MulAssociative(q, m, MICROSECOND); }
  }

  lemma MulAssociative(a: int, b: int, c: int)
    ensures a * (b * c) == (a * b) * c
  {}

  /** On a whole-microsecond interval a built checkpoint is already what the database will return. */
  lemma BuiltOnGrid(H: HashFn, p: CheckpointParams, clock: Time)
    requires |p.leaves| <= MAX_DURATION && Built(H, p, clock).Ok?
    requires p.interval % MICROSECOND == 0
    ensures Stored(Built(H, p, clock).value) == Built(H, p, clock).value
  {
    hide CheckpointHash;
    hide FirstLeafDefect;
    hide IntervalRoot;
    hide Added;
    GridMultiple(p.intervalStart, p.interval);
    assert p.intervalEnd == p.intervalStart + p.interval;
    assert Truncate(p.intervalEnd, MICROSECOND) == p.intervalEnd;
  }

  lemma StoredSound(H: HashFn, c: Checkpoint, interval: Duration)
    requires Sound(H, c, interval) && 0 < interval < MAX_DURATION
    ensures Sound(H, Stored(c), interval) <==> interval % MICROSECOND == 0
    ensures interval % MICROSECOND == 0 ==>
      Stored(c).intervalStart == c.intervalStart && Stored(c).intervalEnd == c.intervalEnd
  {
    hide CheckpointHash;
    HashSurvivesStorage(H, c);
    GridDifference(c.intervalStart, c.intervalEnd);
    if interval % MICROSECOND == 0 {
      GridMultiple(c.intervalStart, interval);
      assert Truncate(c.intervalEnd, MICROSECOND) == c.intervalEnd;
    }
  }

  lemma GridDifference(t: Time, u: Time)
    ensures (Truncate(u, MICROSECOND) - Truncate(t, MICROSECOND)) % MICROSECOND == 0
  {
    assert Truncate(u, MICROSECOND) - Truncate(t, MICROSECOND) == (u / MICROSECOND - t / MICROSECOND) * MICROSECOND;
  }

  /** An accepted chain is still accepted when read back, exactly when the interval is whole microseconds. */
  lemma StorageRoundTrip(H: HashFn, cps: seq<Checkpoint>, interval: Duration)
    requires ValidChain(H, cps, interval) && interval < MAX_DURATION
    ensures ValidChain(H, StoredChain(cps), interval) <==> interval % MICROSECOND == 0
  {
    hide Sound;
    var back := StoredChain(cps);
    forall i | 0 <= i < |cps|
      ensures Sound(H, back[i], interval) <==> interval % MICROSECOND == 0
      ensures interval % MICROSECOND == 0 && i > 0 ==> Follows(back[i], back[i - 1])
    {
      StoredSound(H, cps[i], interval);
      if i > 0 {
        StoredSound(H, cps[i - 1], interval);
        assert Follows(cps[i], cps[i - 1]);
      }
    }
  }
}
