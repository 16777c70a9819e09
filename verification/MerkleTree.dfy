/**
 * The tree of section 2.1 of RFC 6962 over already-hashed leaves, twice: level by level with an odd last
 * node promoted unchanged, which is how it is built, and by the standard's recursive split at the
 * largest power of two below the size. Likewise the sibling path of section 2.1.1.
 */
module MerkleTree {
  import opened GoBytes
  import opened Hashing

  // ----- level by level

  function NextLevel(H: HashFn, level: seq<Bytes>): (next: seq<Bytes>)
    ensures |next| == (|level| + 1) / 2
  {
    seq((|level| + 1) / 2, i requires 0 <= i < (|level| + 1) / 2 =>
      if 2 * i + 1 == |level| then level[2 * i] else NodeHash(H, level[2 * i], level[2 * i + 1]))
  }

  function Root(H: HashFn, level: seq<Bytes>): Bytes
    decreases |level|
  {
    if level == [] then H([]) else if |level| == 1 then level[0] else Root(H, NextLevel(H, level))
  }

  /** A node's neighbour under their common parent; a promoted node has none. */
  function Sibling(level: seq<Bytes>, index: nat): (entry: seq<Bytes>)
    requires index < |level|
  {
    var sibling := if index % 2 == 0 then index + 1 else index - 1;
    if sibling < |level| then [level[sibling]] else []
  }

  /** The siblings met on the way from a node to the root. */
  function LevelPath(H: HashFn, level: seq<Bytes>, index: nat): (path: seq<Bytes>)
    requires index < |level|
    decreases |level|
  {
    if |level| == 1 then [] else Sibling(level, index) + LevelPath(H, NextLevel(H, level), index / 2)
  }

  // ----- RFC 6962, sections 2.1 and 2.1.1

  predicate IsPowerOf2(k: int) {
    k == 1 || (k > 1 && k % 2 == 0 && IsPowerOf2(k / 2))
  }

  /** The largest power of two smaller than n. */
  function SplitPoint(n: nat): (k: nat)
    requires n > 1
    ensures IsPowerOf2(k) && k < n <= 2 * k
  {
    if n == 2 then 1 else 2 * SplitPoint((n + 1) / 2)
  }

  function Mth(H: HashFn, leaves: seq<Bytes>): Bytes {
    if leaves == [] then H([])
    else if |leaves| == 1 then leaves[0]
    else
      var k := SplitPoint(|leaves|);
      NodeHash(H, Mth(H, leaves[..k]), Mth(H, leaves[k..]))
  }

  function RfcPath(H: HashFn, index: nat, leaves: seq<Bytes>): seq<Bytes>
    requires index < |leaves|
    decreases |leaves|
  {
    if |leaves| == 1 then []
    else
      var k := SplitPoint(|leaves|);
      if index < k then RfcPath(H, index, leaves[..k]) + [Mth(H, leaves[k..])]
      else RfcPath(H, index - k, leaves[k..]) + [Mth(H, leaves[..k])]
  }

  /** The tree hash of section 2.1 of RFC 6962, spelled out for the smallest trees. */
  lemma SmallTrees(H: HashFn, a: Bytes, b: Bytes, c: Bytes)
    ensures LeafHash(H, a) == H([0] + a)
    ensures Mth(H, []) == H([]) && Mth(H, [a]) == a && Mth(H, [a, b]) == H([1] + a + b)
    ensures Mth(H, [a, b, c]) == H([1] + H([1] + a + b) + c)
  {
    assert [a, b][..1] == [a] && [a, b][1..] == [b];
    assert [a, b, c][..2] == [a, b] && [a, b, c][2..] == [c];
    assert SplitPoint(2) == 1 && SplitPoint(3) == 2;
  }

  // ----- the two agree

  lemma NextLevelSplit(H: HashFn, level: seq<Bytes>, k: nat)
    requires k <= |level| && k % 2 == 0
    ensures NextLevel(H, level)[..k / 2] == NextLevel(H, level[..k])
    ensures NextLevel(H, level)[k / 2..] == NextLevel(H, level[k..])
  {}

  lemma RootStep(H: HashFn, level: seq<Bytes>)
    requires level != []
    ensures Root(H, NextLevel(H, level)) == Root(H, level)
  {
    if |level| == 1 {
      assert NextLevel(H, level) == level;
    }
  }

  lemma {:induction false} RootSplit(H: HashFn, level: seq<Bytes>, k: nat)
    requires IsPowerOf2(k) && k < |level| <= 2 * k
    ensures Root(H, level) == NodeHash(H, Root(H, level[..k]), Root(H, level[k..]))
    decreases |level|
  {
    var next := NextLevel(H, level);
    if k == 1 {
      assert Root(H, next) == next[0];
    } else {
      RootSplit(H, next, k / 2);
      NextLevelSplit(H, level, k);
      RootStep(H, level[..k]);
      RootStep(H, level[k..]);
    }
  }

  /** The level-by-level fold is the recursive tree hash, at every size. */
  lemma {:induction false} RootIsMth(H: HashFn, leaves: seq<Bytes>)
    ensures Root(H, leaves) == Mth(H, leaves)
    decreases |leaves|
  {
    if |leaves| > 1 {
      var k := SplitPoint(|leaves|);
      RootSplit(H, leaves, k);
      RootIsMth(H, leaves[..k]);
      RootIsMth(H, leaves[k..]);
    }
  }

  lemma LevelPathStep(H: HashFn, level: seq<Bytes>, index: nat)
    requires index < |level|
    ensures LevelPath(H, level, index) == Sibling(level, index) + LevelPath(H, NextLevel(H, level), index / 2)
  {}

  lemma SiblingSplit(level: seq<Bytes>, index: nat, k: nat)
    requires k % 2 == 0 && k <= |level| && index < |level|
    ensures index < k ==> Sibling(level, index) == Sibling(level[..k], index)
    ensures index >= k ==> Sibling(level, index) == Sibling(level[k..], index - k)
  {
    SiblingSide(index, k);
  }

  /** A pair lies on one side of an even cut. */
  lemma SiblingSide(index: nat, k: nat)
    requires k % 2 == 0
    ensures index < k && index % 2 == 0 ==> index + 1 < k
    ensures index >= k ==> (index - k) % 2 == index % 2 && (index % 2 == 1 ==> index > k)
  {}

  lemma LiftPath(H: HashFn, a: seq<Bytes>, i: nat, b: seq<Bytes>, j: nat, tail: seq<Bytes>)
    requires i < |a| && j < |b| && Sibling(a, i) == Sibling(b, j)
    requires LevelPath(H, NextLevel(H, a), i / 2) == LevelPath(H, NextLevel(H, b), j / 2) + tail
    ensures LevelPath(H, a, i) == LevelPath(H, b, j) + tail
  {
    LevelPathStep(H, a, i);
    LevelPathStep(H, b, j);
    Associate(Sibling(b, j), LevelPath(H, NextLevel(H, b), j / 2), tail);
  }

  lemma Associate(a: seq<Bytes>, b: seq<Bytes>, c: seq<Bytes>)
    ensures a + (b + c) == a + b + c
  {}

  lemma {:induction false} LevelPathLeft(H: HashFn, level: seq<Bytes>, index: nat, k: nat)
    requires IsPowerOf2(k) && index < k < |level| <= 2 * k
    ensures LevelPath(H, level, index) == LevelPath(H, level[..k], index) + [Root(H, level[k..])]
    decreases |level|
  {
    if k == 1 {
      LevelPathStep(H, level, index);
      assert LevelPath(H, NextLevel(H, level), 0) == [];
    } else {
      LevelPathLeft(H, NextLevel(H, level), index / 2, k / 2);
      NextLevelSplit(H, level, k);
      RootStep(H, level[k..]);
      SiblingSplit(level, index, k);
      LiftPath(H, level, index, level[..k], index, [Root(H, level[k..])]);
    }
  }

  lemma LevelPathOfTwo(H: HashFn, level: seq<Bytes>)
    requires |level| == 2
    ensures LevelPath(H, level, 1) == LevelPath(H, level[1..], 0) + [Root(H, level[..1])]
  {
    LevelPathStep(H, level, 1);
    assert LevelPath(H, NextLevel(H, level), 0) == [];
  }

  lemma {:induction false} LevelPathRight(H: HashFn, level: seq<Bytes>, index: nat, k: nat)
    requires IsPowerOf2(k) && k <= index < |level| <= 2 * k
    ensures LevelPath(H, level, index) == LevelPath(H, level[k..], index - k) + [Root(H, level[..k])]
    decreases |level|
  {
    hide LevelPath, Root, NextLevel, Sibling;
    if k == 1 {
      LevelPathOfTwo(H, level);
    } else {
      LevelPathRight(H, NextLevel(H, level), index / 2, k / 2);
      NextLevelSplit(H, level, k);
      RootStep(H, level[..k]);
      SiblingSplit(level, index, k);
      assert (index - k) / 2 == index / 2 - k / 2;
      LiftPath(H, level, index, level[k..], index - k, [Root(H, level[..k])]);
    }
  }

  /** The prover's walk yields the standard's path: a promoted node costs no entry. */
  lemma {:induction false} LevelPathIsRfcPath(H: HashFn, leaves: seq<Bytes>, index: nat)
    requires index < |leaves|
    ensures LevelPath(H, leaves, index) == RfcPath(H, index, leaves)
    decreases |leaves|
  {
    if |leaves| > 1 {
      var k := SplitPoint(|leaves|);
      RootIsMth(H, leaves[..k]);
      RootIsMth(H, leaves[k..]);
      if index < k {
        LevelPathLeft(H, leaves, index, k);
        LevelPathIsRfcPath(H, leaves[..k], index);
      } else {
        LevelPathRight(H, leaves, index, k);
        LevelPathIsRfcPath(H, leaves[k..], index - k);
      }
    }
  }

  // ----- the length of a path

  /** How many levels, from a node to the root, give the node a sibling; `last` is the last index there. */
  function PathLength(index: nat, last: nat): nat
    requires index <= last
    decreases last
  {
    if last == 0 then 0
    else (if index % 2 == 1 || index < last then 1 else 0) + PathLength(index / 2, last / 2)
  }

  function Power2(k: nat): nat {
    if k == 0 then 1 else 2 * Power2(k - 1)
  }

  /** The least c with n <= 2^c. */
  function CeilLog2(n: nat): (c: nat)
    requires n > 0
    ensures n <= Power2(c) && (c > 0 ==> Power2(c - 1) < n)
  {
    if n == 1 then 0 else 1 + CeilLog2((n + 1) / 2)
  }

  lemma {:induction false} PathLengthBound(index: nat, size: nat)
    requires index < size
    ensures PathLength(index, size - 1) <= CeilLog2(size)
    decreases size
  {
    if size > 1 {
      PathLengthBound(index / 2, (size + 1) / 2);
      assert (size + 1) / 2 - 1 == (size - 1) / 2;
    }
  }

  lemma {:induction false} LevelPathLength(H: HashFn, level: seq<Bytes>, index: nat)
    requires index < |level|
    ensures |LevelPath(H, level, index)| == PathLength(index, |level| - 1)
    decreases |level|
  {
    var last := |level| - 1;
    if last > 0 {
      LevelPathStep(H, level, index);
      LevelPathLength(H, NextLevel(H, level), index / 2);
      assert (|level| + 1) / 2 - 1 == last / 2;
    }
  }

  // ----- what a tree binds

  /** The string hashed for the parent of the i-th pair of a level. */
  function PairPreimage(level: seq<Bytes>, i: nat): Bytes
    requires i < |level| / 2
  {
    NodePreimage(level[2 * i], level[2 * i + 1])
  }

  /** `hashed` holds every string hashed while folding a level to its root. */
  ghost predicate TreeHashed(H: HashFn, hashed: set<Bytes>, level: seq<Bytes>)
    decreases |level|
  {
    |level| > 1 ==>
      && (forall i :: 0 <= i < |level| / 2 ==> PairPreimage(level, i) in hashed)
      && TreeHashed(H, hashed, NextLevel(H, level))
  }

  /** Exactly those strings. */
  function TreeQueries(H: HashFn, level: seq<Bytes>): set<Bytes>
    decreases |level|
  {
    if |level| <= 1 then {}
    else (set i | 0 <= i < |level| / 2 :: PairPreimage(level, i)) + TreeQueries(H, NextLevel(H, level))
  }

  lemma {:induction false} QueriesCoverTree(H: HashFn, hashed: set<Bytes>, level: seq<Bytes>)
    requires TreeQueries(H, level) <= hashed
    ensures TreeHashed(H, hashed, level)
    decreases |level|
  {
    if |level| > 1 {
      QueriesCoverTree(H, hashed, NextLevel(H, level));
      forall i | 0 <= i < |level| / 2
        ensures PairPreimage(level, i) in hashed
      {
        assert PairPreimage(level, i) in TreeQueries(H, level);
      }
    }
  }

  ghost predicate AllDigests(hashes: seq<Bytes>) {
    forall i :: 0 <= i < |hashes| ==> |hashes[i]| == DIGEST_SIZE
  }

  lemma NextLevelDigests(H: HashFn, level: seq<Bytes>)
    requires AllDigests(level)
    ensures AllDigests(NextLevel(H, level))
  {}

  /** A known parent fixes both its children once either of the offered ones is 32 bytes. */
  lemma ParentBinding(H: HashFn, hashed: set<Bytes>, level: seq<Bytes>, i: nat, l: Bytes, r: Bytes)
    requires i < |level| / 2 && AllDigests(level) && (|l| == DIGEST_SIZE || |r| == DIGEST_SIZE)
    requires CollisionFree(H, hashed) && PairPreimage(level, i) in hashed && NodePreimage(l, r) in hashed
    requires NodeHash(H, l, r) == NextLevel(H, level)[i]
    ensures l == level[2 * i] && r == level[2 * i + 1]
  {
    NodeBinding(H, hashed, l, r, level[2 * i], level[2 * i + 1]);
  }

  lemma NextLevelBinding(H: HashFn, hashed: set<Bytes>, a: seq<Bytes>, b: seq<Bytes>)
    requires |a| == |b| > 1 && AllDigests(a) && AllDigests(b)
    requires CollisionFree(H, hashed) && TreeHashed(H, hashed, a) && TreeHashed(H, hashed, b)
    requires NextLevel(H, a) == NextLevel(H, b)
    ensures a == b
  {
    forall i | 0 <= i < |a|
      ensures a[i] == b[i]
    {
      var j := i / 2;
      assert i == 2 * j || i == 2 * j + 1;
      assert NextLevel(H, a)[j] == NextLevel(H, b)[j];
      if 2 * j + 1 < |a| {
        assert PairPreimage(a, j) in hashed && PairPreimage(b, j) in hashed;
        ParentBinding(H, hashed, b, j, a[2 * j], a[2 * j + 1]);
      }
    }
  }

  /** Two leaf lists of one size with one root are the same list. */
  lemma {:induction false} RootBinding(H: HashFn, hashed: set<Bytes>, a: seq<Bytes>, b: seq<Bytes>)
    requires |a| == |b| && AllDigests(a) && AllDigests(b)
    requires CollisionFree(H, hashed) && TreeHashed(H, hashed, a) && TreeHashed(H, hashed, b)
    requires Root(H, a) == Root(H, b)
    ensures a == b
    decreases |a|
  {
    if |a| > 1 {
      NextLevelDigests(H, a);
      NextLevelDigests(H, b);
      RootBinding(H, hashed, NextLevel(H, a), NextLevel(H, b));
      NextLevelBinding(H, hashed, a, b);
    }
  }

  /** Splitting at a power of two: both halves and the node above them were hashed. */
  lemma {:induction false} TreeHashedSplit(H: HashFn, hashed: set<Bytes>, level: seq<Bytes>, k: nat)
    requires IsPowerOf2(k) && k < |level| <= 2 * k && TreeHashed(H, hashed, level)
    ensures NodePreimage(Root(H, level[..k]), Root(H, level[k..])) in hashed
    ensures TreeHashed(H, hashed, level[..k]) && TreeHashed(H, hashed, level[k..])
    decreases |level|
  {
    if k == 1 {
      assert PairPreimage(level, 0) in hashed;
    } else {
      TreeHashedSplit(H, hashed, NextLevel(H, level), k / 2);
      NextLevelSplit(H, level, k);
      RootStep(H, level[..k]);
      RootStep(H, level[k..]);
      PairsHashedSplit(hashed, level, k);
    }
  }

  lemma PairsHashedSplit(hashed: set<Bytes>, level: seq<Bytes>, k: nat)
    requires k <= |level| && k % 2 == 0
    requires forall i :: 0 <= i < |level| / 2 ==> PairPreimage(level, i) in hashed
    ensures forall i :: 0 <= i < |level[..k]| / 2 ==> PairPreimage(level[..k], i) in hashed
    ensures forall i :: 0 <= i < |level[k..]| / 2 ==> PairPreimage(level[k..], i) in hashed
  {
    forall i | 0 <= i < |level[..k]| / 2
      ensures PairPreimage(level[..k], i) in hashed
    {
      assert PairPreimage(level[..k], i) == PairPreimage(level, i);
    }
    forall i | 0 <= i < |level[k..]| / 2
      ensures PairPreimage(level[k..], i) in hashed
    {
      assert PairPreimage(level[k..], i) == PairPreimage(level, i + k / 2);
    }
  }

  function LeafHashes(H: HashFn, data: seq<Bytes>): (leaves: seq<Bytes>)
    ensures |leaves| == |data|
  {
    seq(|data|, i requires 0 <= i < |data| => LeafHash(H, data[i]))
  }

  /** `hashed` holds every string hashed while building a tree from its leaf data. */
  ghost predicate DataHashed(H: HashFn, hashed: set<Bytes>, data: seq<Bytes>) {
    && (forall i :: 0 <= i < |data| ==> LeafPreimage(data[i]) in hashed)
    && TreeHashed(H, hashed, LeafHashes(H, data))
  }

  /** The root of a non-empty tree fixes the number of leaves and every leaf's bytes, in order. */
  lemma {:induction false} DataBinding(H: HashFn, hashed: set<Bytes>, a: seq<Bytes>, b: seq<Bytes>)
    requires a != [] && b != []
    requires CollisionFree(H, hashed) && DataHashed(H, hashed, a) && DataHashed(H, hashed, b)
    requires DataRoot(H, a) == DataRoot(H, b)
    ensures a == b
    decreases |a| + |b|
  {
    hide DataHashed, DataRoot;
    if |a| == 1 && |b| == 1 {
      OneLeafBinding(H, hashed, a, b);
    } else if |a| == 1 {
      LeafRootIsNoNode(H, hashed, a, b);
    } else if |b| == 1 {
      LeafRootIsNoNode(H, hashed, b, a);
    } else {
      var j, k := SplitPoint(|a|), SplitPoint(|b|);
      HalvesAgree(H, hashed, a, j, b, k);
      DataBinding(H, hashed, a[..j], b[..k]);
      DataBinding(H, hashed, a[j..], b[k..]);
      SameHalves(a, j, b, k);
    }
  }

  lemma OneLeafBinding(H: HashFn, hashed: set<Bytes>, a: seq<Bytes>, b: seq<Bytes>)
    requires |a| == 1 && |b| == 1
    requires CollisionFree(H, hashed) && DataHashed(H, hashed, a) && DataHashed(H, hashed, b)
    requires DataRoot(H, a) == DataRoot(H, b)
    ensures a == b
  {
    LeafBinding(H, hashed, a[0], b[0]);
    assert a == [a[0]] && b == [b[0]];
  }

  lemma SameHalves(a: seq<Bytes>, j: nat, b: seq<Bytes>, k: nat)
    requires j <= |a| && k <= |b| && a[..j] == b[..k] && a[j..] == b[k..]
    ensures a == b
  {
    assert a == a[..j] + a[j..] && b == b[..k] + b[k..];
  }

  function DataRoot(H: HashFn, data: seq<Bytes>): Bytes {
    Root(H, LeafHashes(H, data))
  }

  lemma HalvesAgree(H: HashFn, hashed: set<Bytes>, a: seq<Bytes>, j: nat, b: seq<Bytes>, k: nat)
    requires IsPowerOf2(j) && j < |a| <= 2 * j && IsPowerOf2(k) && k < |b| <= 2 * k
    requires CollisionFree(H, hashed) && DataHashed(H, hashed, a) && DataHashed(H, hashed, b)
    requires DataRoot(H, a) == DataRoot(H, b)
    ensures DataHashed(H, hashed, a[..j]) && DataHashed(H, hashed, b[..k])
    ensures DataHashed(H, hashed, a[j..]) && DataHashed(H, hashed, b[k..])
    ensures DataRoot(H, a[..j]) == DataRoot(H, b[..k]) && DataRoot(H, a[j..]) == DataRoot(H, b[k..])
  {
    DataSplit(H, hashed, a, j);
    DataSplit(H, hashed, b, k);
    NodeBinding(H, hashed, DataRoot(H, a[..j]), DataRoot(H, a[j..]), DataRoot(H, b[..k]), DataRoot(H, b[k..]));
  }

  lemma LeafHashesSplit(H: HashFn, data: seq<Bytes>, k: nat)
    requires k <= |data|
    ensures LeafHashes(H, data)[..k] == LeafHashes(H, data[..k])
    ensures LeafHashes(H, data)[k..] == LeafHashes(H, data[k..])
  {}

  lemma DataSplit(H: HashFn, hashed: set<Bytes>, data: seq<Bytes>, k: nat)
    requires IsPowerOf2(k) && k < |data| <= 2 * k && DataHashed(H, hashed, data)
    ensures DataHashed(H, hashed, data[..k]) && DataHashed(H, hashed, data[k..])
    ensures |DataRoot(H, data[..k])| == DIGEST_SIZE
    ensures NodePreimage(DataRoot(H, data[..k]), DataRoot(H, data[k..])) in hashed
    ensures DataRoot(H, data) == NodeHash(H, DataRoot(H, data[..k]), DataRoot(H, data[k..]))
  {
    hide TreeHashed, Root;
    var leaves := LeafHashes(H, data);
    LeafHashesSplit(H, data, k);
    TreeHashedSplit(H, hashed, leaves, k);
    RootSplit(H, leaves, k);
    RootIsDigest(H, leaves[..k]);
  }

  lemma LeafRootIsNoNode(H: HashFn, hashed: set<Bytes>, a: seq<Bytes>, b: seq<Bytes>)
    requires |a| == 1 && |b| > 1
    requires CollisionFree(H, hashed) && DataHashed(H, hashed, a) && DataHashed(H, hashed, b)
    ensures DataRoot(H, a) != DataRoot(H, b)
  {
    var k := SplitPoint(|b|);
    DataSplit(H, hashed, b, k);
    LeafIsNotNode(H, hashed, a[0], DataRoot(H, b[..k]), DataRoot(H, b[k..]));
  }

  lemma {:induction false} RootIsDigest(H: HashFn, level: seq<Bytes>)
    requires AllDigests(level)
    ensures |Root(H, level)| == DIGEST_SIZE
    decreases |level|
  {
    if |level| > 1 {
      RootIsDigest(H, NextLevel(H, level));
    }
  }
}
