/**
 * Inclusion proofs: building the sibling path of a leaf, and recomputing the root from a leaf and its
 * path by the two-index climb of section 2.1.3.2 of RFC 9162.
 */
module Inclusion {
  import opened Wrappers
  import opened GoBytes
  import opened Hashing
  import opened MerkleTree

  datatype InclusionProof = InclusionProof(
    leafIndex: int, leafHash: Bytes, treeSize: int, root: Bytes, path: seq<Bytes>, algorithm: Bytes)

  function AlgorithmV1(): Bytes {
    Text("mesedi-exec-merkle-v1/rfc6962-sha256")
  }

  datatype ProofError = IndexOutOfRange | MalformedLeafHash | MalformedPathHash

  function HexAll(hashes: seq<Bytes>): (s: seq<Bytes>)
    ensures |s| == |hashes|
  {
    seq(|hashes|, i requires 0 <= i < |hashes| => HexEncode(hashes[i]))
  }

  function DecodeAll(hexes: seq<Bytes>): (r: Option<seq<Bytes>>)
    ensures r.Some? ==> |r.value| == |hexes|
  {
    if forall i :: 0 <= i < |hexes| ==> HexDecode(hexes[i]).Some? then
      Some(seq(|hexes|, i requires 0 <= i < |hexes| => HexDecode(hexes[i]).value))
    else
      None
  }

  /** Each entry of a path decoded on its own, None where it is malformed. */
  function Decoded(path: seq<Bytes>): (d: seq<Option<Bytes>>)
    ensures |d| == |path|
  {
    seq(|path|, i requires 0 <= i < |path| => HexDecode(path[i]))
  }

  /** A sequence nothing in which is missing. */
  function Entries<T>(s: seq<T>): (d: seq<Option<T>>)
    ensures |d| == |s|
  {
    seq(|s|, i requires 0 <= i < |s| => Some(s[i]))
  }

  lemma DecodedHexAll(hashes: seq<Bytes>)
    ensures Decoded(HexAll(hashes)) == Entries(hashes)
  {
    forall i | 0 <= i < |hashes|
      ensures HexDecode(HexAll(hashes)[i]) == Some(hashes[i])
    {
      HexRoundTrip(hashes[i]);
    }
  }

  lemma DecodeHexAll(hashes: seq<Bytes>)
    ensures DecodeAll(HexAll(hashes)) == Some(hashes)
  {
    forall i | 0 <= i < |hashes|
      ensures HexDecode(HexAll(hashes)[i]) == Some(hashes[i])
    {
      HexRoundTrip(hashes[i]);
    }
    assert DecodeAll(HexAll(hashes)).value == hashes;
  }

  // ----- building a path

  /** The path provePath is to return: the standard's, hex encoded, once index and hashes are well formed. */
  function PathFor(H: HashFn, leafHex: seq<Bytes>, index: int): Result<seq<Bytes>, ProofError> {
    if index < 0 || index >= |leafHex| then Err(IndexOutOfRange)
    else match DecodeAll(leafHex)
      case None => Err(MalformedLeafHash)
      case Some(leaves) => Ok(HexAll(RfcPath(H, index, leaves)))
  }

  method BuildNextLevel(H: HashFn, level: seq<Bytes>) returns (next: seq<Bytes>)
    ensures next == NextLevel(H, level)
  {
    next := [];
    var i := 0;
    while i < |level|
      invariant i % 2 == 0 && i <= |level| + 1
      invariant next == NextLevel(H, level)[..i / 2]
    {
      if i + 1 == |level| {
        next := next + [level[i]];
      } else {
        next := next + [NodeHash(H, level[i], level[i + 1])];
      }
      i := i + 2;
    }
  }

  method RootFromLeafHashes(H: HashFn, leaves: seq<Bytes>) returns (root: Bytes)
    ensures root == Mth(H, leaves)
  {
    if |leaves| == 0 {
      return H([]);
    }
    var level := leaves;
    while |level| > 1
      invariant level != [] && Root(H, level) == Root(H, leaves)
      decreases |level|
    {
      level := BuildNextLevel(H, level);
    }
    RootIsMth(H, leaves);
    root := level[0];
  }

  method DecodeLeaves(leafHex: seq<Bytes>) returns (r: Option<seq<Bytes>>)
    ensures r == DecodeAll(leafHex)
  {
    var level: seq<Bytes> := [];
    for i := 0 to |leafHex|
      invariant |level| == i
      invariant forall j :: 0 <= j < i ==> HexDecode(leafHex[j]) == Some(level[j])
    {
      match HexDecode(leafHex[i])
      case None => return None;
      case Some(raw) => level := level + [raw];
    }
    assert DecodeAll(leafHex).value == level;
    r := Some(level);
  }

  lemma HexAllAppend(a: seq<Bytes>, b: seq<Bytes>)
    ensures HexAll(a + b) == HexAll(a) + HexAll(b)
  {}

  lemma PathSoFarStep(H: HashFn, level: seq<Bytes>, index: nat, path: seq<Bytes>, longer: seq<Bytes>)
    requires index < |level| && longer == path + HexAll(Sibling(level, index))
    ensures longer + HexAll(LevelPath(H, NextLevel(H, level), index / 2)) == path + HexAll(LevelPath(H, level, index))
  {
    var rest := LevelPath(H, NextLevel(H, level), index / 2);
    LevelPathStep(H, level, index);
    HexAllAppend(Sibling(level, index), rest);
    Associate(path, HexAll(Sibling(level, index)), HexAll(rest));
  }

  method AppendSibling(level: seq<Bytes>, idx: nat, path: seq<Bytes>) returns (longer: seq<Bytes>)
    requires idx < |level|
    ensures longer == path + HexAll(Sibling(level, idx))
  {
    longer := path;
    var sibling := if idx % 2 == 0 then idx + 1 else idx - 1;
    if sibling < |level| {
      longer := longer + [HexEncode(level[sibling])];
    }
  }

  method ProvePath(H: HashFn, leafHex: seq<Bytes>, index: int) returns (r: Result<seq<Bytes>, ProofError>)
    ensures r == PathFor(H, leafHex, index)
  {
    if index < 0 || index >= |leafHex| {
      return Err(IndexOutOfRange);
    }
    var decoded := DecodeLeaves(leafHex);
    if decoded.None? {
      return Err(MalformedLeafHash);
    }
    ghost var whole := HexAll(LevelPath(H, decoded.value, index));
    LevelPathIsRfcPath(H, decoded.value, index);

    var level, idx := decoded.value, index;
    var path: seq<Bytes> := [];
    while |level| > 1
      invariant 0 <= idx < |level|
      invariant path + HexAll(LevelPath(H, level, idx)) == whole
      decreases |level|
    {
      var next := BuildNextLevel(H, level);
      var longer := AppendSibling(level, idx, path);
      PathSoFarStep(H, level, idx, path, longer);
      path := longer;
      idx := idx / 2;
      level := next;
    }
    assert path == path + HexAll(LevelPath(H, level, idx));
    r := Ok(path);
  }

  // ----- checking a path

  datatype Climbed = Reached(root: Bytes) | Rejected | Malformed

  /**
   * What a path says about the root, one level at a time: `fn` is the node's index in its level and `sn`
   * the level's last index. A node that is last in a level of odd size is promoted and consumes nothing.
   */
  function Climb(H: HashFn, fn: nat, sn: nat, cur: Bytes, path: seq<Option<Bytes>>): Climbed
    requires fn <= sn
    decreases sn
  {
    if path == [] then
      if sn == 0 then Reached(cur) else Rejected
    else match path[0]
      case None => Malformed
      case Some(sib) =>
        if sn == 0 then Rejected
        else if fn % 2 == 1 then Climb(H, fn / 2, sn / 2, NodeHash(H, sib, cur), path[1..])
        else if fn == sn then Climb(H, fn / 2, sn / 2, cur, path)
        else Climb(H, fn / 2, sn / 2, NodeHash(H, cur, sib), path[1..])
  }

  /** `hashed` holds every node string hashed during a climb. */
  ghost predicate ClimbHashed(H: HashFn, hashed: set<Bytes>, fn: nat, sn: nat, cur: Bytes, path: seq<Option<Bytes>>)
    requires fn <= sn
    decreases sn
  {
    path != [] && path[0].Some? && sn > 0 ==>
      var sib := path[0].value;
      if fn % 2 == 1 then
        && NodePreimage(sib, cur) in hashed
        && ClimbHashed(H, hashed, fn / 2, sn / 2, NodeHash(H, sib, cur), path[1..])
      else if fn == sn then
        ClimbHashed(H, hashed, fn / 2, sn / 2, cur, path)
      else
        && NodePreimage(cur, sib) in hashed
        && ClimbHashed(H, hashed, fn / 2, sn / 2, NodeHash(H, cur, sib), path[1..])
  }

  /** Exactly those strings. */
  function ClimbQueries(H: HashFn, fn: nat, sn: nat, cur: Bytes, path: seq<Option<Bytes>>): set<Bytes>
    requires fn <= sn
    decreases sn
  {
    if path == [] || path[0].None? || sn == 0 then {}
    else
      var sib := path[0].value;
      if fn % 2 == 1 then
        {NodePreimage(sib, cur)} + ClimbQueries(H, fn / 2, sn / 2, NodeHash(H, sib, cur), path[1..])
      else if fn == sn then
        ClimbQueries(H, fn / 2, sn / 2, cur, path)
      else
        {NodePreimage(cur, sib)} + ClimbQueries(H, fn / 2, sn / 2, NodeHash(H, cur, sib), path[1..])
  }

  lemma {:induction false} QueriesCoverClimb(
      H: HashFn, hashed: set<Bytes>, fn: nat, sn: nat, cur: Bytes, path: seq<Option<Bytes>>)
    requires fn <= sn && ClimbQueries(H, fn, sn, cur, path) <= hashed
    ensures ClimbHashed(H, hashed, fn, sn, cur, path)
    decreases sn
  {
    if path != [] && path[0].Some? && sn > 0 {
      var sib := path[0].value;
      if fn % 2 == 1 {
        QueriesCoverClimb(H, hashed, fn / 2, sn / 2, NodeHash(H, sib, cur), path[1..]);
      } else if fn == sn {
        QueriesCoverClimb(H, hashed, fn / 2, sn / 2, cur, path);
      } else {
        QueriesCoverClimb(H, hashed, fn / 2, sn / 2, NodeHash(H, cur, sib), path[1..]);
      }
    }
  }

  function Verdict(H: HashFn, p: InclusionProof): Result<bool, ProofError> {
    if p.treeSize <= 0 || p.leafIndex < 0 || p.leafIndex >= p.treeSize then Err(IndexOutOfRange)
    else match HexDecode(p.leafHash)
      case None => Err(MalformedLeafHash)
      case Some(leaf) =>
        match Climb(H, p.leafIndex, p.treeSize - 1, leaf, Decoded(p.path))
        case Malformed => Err(MalformedPathHash)
        case Rejected => Ok(false)
        case Reached(root) => Ok(HexEncode(root) == p.root)
  }

  /** `hashed` holds every node string hashed while checking a proof. */
  ghost predicate ProofHashed(H: HashFn, hashed: set<Bytes>, p: InclusionProof) {
    0 <= p.leafIndex < p.treeSize && HexDecode(p.leafHash).Some? ==>
      ClimbHashed(H, hashed, p.leafIndex, p.treeSize - 1, HexDecode(p.leafHash).value, Decoded(p.path))
  }

  /** The loop hashes first and then skips the promoted levels; the verdict is the level-by-level one. */
  method VerifyInclusion(H: HashFn, p: InclusionProof) returns (r: Result<bool, ProofError>)
    ensures r == Verdict(H, p)
  {
    if p.treeSize <= 0 || p.leafIndex < 0 || p.leafIndex >= p.treeSize {
      return Err(IndexOutOfRange);
    }
    var decoded := HexDecode(p.leafHash);
    if decoded.None? {
      return Err(MalformedLeafHash);
    }
    var cur := decoded.value;
    var fn, sn := p.leafIndex, p.treeSize - 1;
    ghost var outcome := Climb(H, fn, sn, cur, Decoded(p.path));
    for j := 0 to |p.path|
      invariant 0 <= fn <= sn
      invariant Climb(H, fn, sn, cur, Decoded(p.path)[j..]) == outcome
    {
      var sib := HexDecode(p.path[j]);
      if sib.None? {
        return Err(MalformedPathHash);
      }
      if sn == 0 {
        return Ok(false);
      }
      assert Decoded(p.path)[j..][1..] == Decoded(p.path)[j + 1..];
      if fn % 2 == 1 || fn == sn {
        ghost var below := cur;
        cur := NodeHash(H, sib.value, cur);
        while fn != 0 && fn % 2 == 0
          invariant 0 < fn <= sn && (fn % 2 == 1 || fn == sn)
          invariant Climb(H, fn, sn, below, Decoded(p.path)[j..]) == outcome
          decreases fn
        {
          fn, sn := fn / 2, sn / 2;
        }
      } else {
        cur := NodeHash(H, cur, sib.value);
      }
      fn, sn := fn / 2, sn / 2;
    }
    r := Ok(sn == 0 && HexEncode(cur) == p.root);
  }

  // ----- completeness

  /** One level of an honest climb: with the node's own sibling, if it has one, it arrives at its parent. */
  lemma ClimbStep(H: HashFn, level: seq<Bytes>, index: nat, rest: seq<Bytes>)
    requires |level| > 1 && index < |level| && (Sibling(level, index) == [] ==> rest != [])
    ensures index / 2 <= (|level| - 1) / 2
    ensures Climb(H, index, |level| - 1, level[index], Entries(Sibling(level, index) + rest))
         == Climb(H, index / 2, (|level| - 1) / 2, NextLevel(H, level)[index / 2], Entries(rest))
  {
    var path := Entries(Sibling(level, index) + rest);
    if Sibling(level, index) == [] {
      assert Sibling(level, index) + rest == rest;
    } else {
      assert path[0] == Some(Sibling(level, index)[0]) && path[1..] == Entries(rest);
    }
  }

  lemma {:induction false} ClimbComplete(H: HashFn, level: seq<Bytes>, index: nat)
    requires index < |level|
    ensures Climb(H, index, |level| - 1, level[index], Entries(LevelPath(H, level, index)))
         == Reached(Root(H, level))
    decreases |level|
  {
    if |level| > 1 {
      var next := NextLevel(H, level);
      var rest := LevelPath(H, next, index / 2);
      ClimbComplete(H, next, index / 2);
      assert |next| - 1 == (|level| - 1) / 2;
      LevelPathStep(H, level, index);
      if Sibling(level, index) == [] {
        PathNonempty(index / 2, |next| - 1);
        LevelPathLength(H, next, index / 2);
      }
      ClimbStep(H, level, index, rest);
    }
  }

  /** A node below the root always meets a sibling somewhere on the way up. */
  lemma {:induction false} PathNonempty(index: nat, last: nat)
    requires index <= last && last > 0
    ensures PathLength(index, last) > 0
    decreases last
  {
    if index % 2 == 0 && index == last {
      PathNonempty(index / 2, last / 2);
    }
  }

  /** Every leaf of every tree: the proof built for it is accepted. */
  lemma InclusionComplete(H: HashFn, leaves: seq<Bytes>, index: nat, algorithm: Bytes)
    requires index < |leaves|
    ensures PathFor(H, HexAll(leaves), index).Ok?
    ensures Verdict(H, InclusionProof(index, HexEncode(leaves[index]), |leaves|, HexEncode(Mth(H, leaves)),
                                      PathFor(H, HexAll(leaves), index).value, algorithm)) == Ok(true)
  {
    DecodeHexAll(leaves);
    DecodedHexAll(RfcPath(H, index, leaves));
    HexRoundTrip(leaves[index]);
    LevelPathIsRfcPath(H, leaves, index);
    ClimbComplete(H, leaves, index);
    RootIsMth(H, leaves);
  }

  /** One path length per position and size: shorter and longer paths are turned away whatever they hold. */
  lemma {:induction false} ClimbLength(H: HashFn, fn: nat, sn: nat, cur: Bytes, path: seq<Option<Bytes>>)
    requires fn <= sn
    ensures Climb(H, fn, sn, cur, path).Reached? <==> None !in path && |path| == PathLength(fn, sn)
    decreases sn
  {
    if path == [] {
      if sn > 0 {
        PathNonempty(fn, sn);
      }
    } else if path[0].Some? && sn > 0 {
      if fn % 2 == 0 && fn == sn {
        ClimbLength(H, fn / 2, sn / 2, cur, path);
      } else {
        var sib := path[0].value;
        var parent := if fn % 2 == 1 then NodeHash(H, sib, cur) else NodeHash(H, cur, sib);
        ClimbLength(H, fn / 2, sn / 2, parent, path[1..]);
        assert path == [path[0]] + path[1..];
      }
    }
  }

  /** The first entry missing is the j-th. */
  ghost predicate FirstMissing(path: seq<Option<Bytes>>, j: nat) {
    j < |path| && path[j].None? && None !in path[..j]
  }

  /** A malformed entry is an error exactly where the climb comes to it, not behind what the tree has room for. */
  lemma {:induction false} ClimbMalformed(H: HashFn, fn: nat, sn: nat, cur: Bytes, path: seq<Option<Bytes>>)
    requires fn <= sn
    ensures Climb(H, fn, sn, cur, path).Malformed? <==>
              exists j: nat :: FirstMissing(path, j) && j <= PathLength(fn, sn)
    decreases sn
  {
    hide NodeHash;
    if path != [] {
      if path[0].None? {
        assert FirstMissing(path, 0);
      } else if sn > 0 && fn % 2 == 0 && fn == sn {
        ClimbMalformed(H, fn / 2, sn / 2, cur, path);
      } else if sn > 0 {
        var sib := path[0].value;
        var parent := if fn % 2 == 1 then NodeHash(H, sib, cur) else NodeHash(H, cur, sib);
        ClimbMalformed(H, fn / 2, sn / 2, parent, path[1..]);
        MalformedBehind(path, PathLength(fn / 2, sn / 2));
      }
    }
  }

  lemma MalformedBehind(path: seq<Option<Bytes>>, n: nat)
    requires path != [] && path[0].Some?
    ensures (exists j: nat :: FirstMissing(path, j) && j <= n + 1) <==>
            exists j: nat :: FirstMissing(path[1..], j) && j <= n
  {
    if j: nat :| FirstMissing(path, j) && j <= n + 1 {
      assert path[1..][..j - 1] == path[..j][1..];
      assert FirstMissing(path[1..], j - 1);
    }
    if j: nat :| FirstMissing(path[1..], j) && j <= n {
      assert path[..j + 1] == [path[0]] + path[1..][..j];
      assert FirstMissing(path, j + 1);
    }
  }

  /** The first entry of a path that is not hex is the j-th. */
  ghost predicate FirstMalformed(path: seq<Bytes>, j: nat) {
    j < |path| && HexDecode(path[j]).None? && forall k :: 0 <= k < j ==> HexDecode(path[k]).Some?
  }

  lemma MissingIsMalformed(path: seq<Bytes>, j: nat)
    ensures FirstMissing(Decoded(path), j) <==> FirstMalformed(path, j)
  {
    hide HexDecode;
    if j < |path| {
      var d := Decoded(path);
      assert forall k :: 0 <= k < j ==> d[..j][k] == HexDecode(path[k]);
      if None !in d[..j] {
        forall k | 0 <= k < j
          ensures HexDecode(path[k]).Some?
        {
          assert d[..j][k] in d[..j];
        }
      }
    }
  }

  lemma MalformedWithin(path: seq<Bytes>, n: nat)
    ensures (exists j: nat :: FirstMissing(Decoded(path), j) && j <= n) <==>
            exists j: nat :: FirstMalformed(path, j) && j <= n
  {
    hide FirstMissing, FirstMalformed, Decoded;
    forall j: nat
      ensures FirstMissing(Decoded(path), j) <==> FirstMalformed(path, j)
    {
      MissingIsMalformed(path, j);
    }
  }

  /** Which error a proof meets, if any: a place outside the tree, then its leaf hash, then a path hash come to. */
  lemma VerdictErrors(H: HashFn, p: InclusionProof)
    ensures Verdict(H, p) == Err(IndexOutOfRange) <==> p.leafIndex < 0 || p.leafIndex >= p.treeSize
    ensures Verdict(H, p) == Err(MalformedLeafHash) <==> 0 <= p.leafIndex < p.treeSize && HexDecode(p.leafHash).None?
    ensures Verdict(H, p) == Err(MalformedPathHash) <==>
              && 0 <= p.leafIndex < p.treeSize && HexDecode(p.leafHash).Some?
              && exists j: nat :: FirstMalformed(p.path, j) && j <= PathLength(p.leafIndex, p.treeSize - 1)
  {
    hide HexDecode, Climb, FirstMissing, FirstMalformed, Decoded, PathLength;
    if 0 <= p.leafIndex < p.treeSize && HexDecode(p.leafHash).Some? {
      ClimbMalformed(H, p.leafIndex, p.treeSize - 1, HexDecode(p.leafHash).value, Decoded(p.path));
      MalformedWithin(p.path, PathLength(p.leafIndex, p.treeSize - 1));
    }
  }

  lemma AcceptedLength(H: HashFn, p: InclusionProof)
    requires Verdict(H, p) == Ok(true)
    ensures |p.path| == PathLength(p.leafIndex, p.treeSize - 1) <= CeilLog2(p.treeSize)
  {
    hide PathLength, CeilLog2, Climb;
    ClimbLength(H, p.leafIndex, p.treeSize - 1, HexDecode(p.leafHash).value, Decoded(p.path));
    PathLengthBound(p.leafIndex, p.treeSize);
  }

  // ----- soundness

  lemma {:induction false} ClimbSound(
      H: HashFn, hashed: set<Bytes>, level: seq<Bytes>, index: nat, cur: Bytes, path: seq<Option<Bytes>>)
    requires index < |level| && AllDigests(level) && |cur| == DIGEST_SIZE
    requires CollisionFree(H, hashed) && TreeHashed(H, hashed, level)
    requires ClimbHashed(H, hashed, index, |level| - 1, cur, path)
    requires Climb(H, index, |level| - 1, cur, path) == Reached(Root(H, level))
    ensures cur == level[index]
    decreases |level|
  {
    hide NodeHash;
    hide NodePreimage;
    hide PairPreimage;
    if |level| > 1 {
      var next, up := NextLevel(H, level), index / 2;
      assert |next| - 1 == (|level| - 1) / 2;
      NextLevelDigests(H, level);
      var sib := path[0].value;
      if index % 2 == 1 {
        ClimbSound(H, hashed, next, up, NodeHash(H, sib, cur), path[1..]);
        ParentBinding(H, hashed, level, up, sib, cur);
        assert index == 2 * up + 1;
      } else if index == |level| - 1 {
        ClimbSound(H, hashed, next, up, cur, path);
        assert next[up] == level[2 * up];
      } else {
        ClimbSound(H, hashed, next, up, NodeHash(H, cur, sib), path[1..]);
        ParentBinding(H, hashed, level, up, cur, sib);
        assert index == 2 * up;
      }
    }
  }

  /**
   * An accepted proof against a tree's root and size names the leaf at its index, exactly when the leaf
   * hash it carries decodes to 32 bytes; nothing in the check itself asks for that length.
   */
  lemma InclusionSound(H: HashFn, hashed: set<Bytes>, leaves: seq<Bytes>, p: InclusionProof)
    requires AllDigests(leaves) && p.treeSize == |leaves| && p.root == HexEncode(Mth(H, leaves))
    requires Verdict(H, p) == Ok(true)
    requires CollisionFree(H, hashed) && TreeHashed(H, hashed, leaves) && ProofHashed(H, hashed, p)
    ensures |p.leafHash| == 2 * DIGEST_SIZE <==> HexDecode(p.leafHash) == Some(leaves[p.leafIndex])
  {
    var leaf := HexDecode(p.leafHash).value;
    RootIsMth(H, leaves);
    HexInjective(Climb(H, p.leafIndex, p.treeSize - 1, leaf, Decoded(p.path)).root, Mth(H, leaves));
    if |leaf| == DIGEST_SIZE {
      ClimbSound(H, hashed, leaves, p.leafIndex, leaf, Decoded(p.path));
    }
  }

  /** Every node string hashed while checking a proof. */
  function ProofQueries(H: HashFn, p: InclusionProof): set<Bytes> {
    if 0 <= p.leafIndex < p.treeSize && HexDecode(p.leafHash).Some? then
      ClimbQueries(H, p.leafIndex, p.treeSize - 1, HexDecode(p.leafHash).value, Decoded(p.path))
    else {}
  }

  lemma ProofQueriesCover(H: HashFn, hashed: set<Bytes>, p: InclusionProof)
    requires ProofQueries(H, p) <= hashed
    ensures ProofHashed(H, hashed, p)
  {
    hide ClimbQueries, ClimbHashed, Decoded, HexDecode;
    if 0 <= p.leafIndex < p.treeSize && HexDecode(p.leafHash).Some? {
      QueriesCoverClimb(H, hashed, p.leafIndex, p.treeSize - 1, HexDecode(p.leafHash).value, Decoded(p.path));
    }
  }

  /** Every node string hashed by building the tree and by checking the proof. */
  function InclusionQueries(H: HashFn, leaves: seq<Bytes>, p: InclusionProof): set<Bytes> {
    TreeQueries(H, leaves) + ProofQueries(H, p)
  }

  lemma QueriesCover(H: HashFn, leaves: seq<Bytes>, p: InclusionProof)
    ensures TreeHashed(H, InclusionQueries(H, leaves, p), leaves)
    ensures ProofHashed(H, InclusionQueries(H, leaves, p), p)
  {
    hide TreeQueries, ProofQueries, TreeHashed, ProofHashed;
    var hashed := InclusionQueries(H, leaves, p);
    QueriesCoverTree(H, hashed, leaves);
    ProofQueriesCover(H, hashed, p);
  }

  /** Given an accepted proof for something other than the leaf at its index, a collision can be computed. */
  method ExtractCollision(H: HashFn, leaves: seq<Bytes>, p: InclusionProof) returns (x: Bytes, y: Bytes)
    requires AllDigests(leaves) && p.treeSize == |leaves| && p.root == HexEncode(Mth(H, leaves))
    requires Verdict(H, p) == Ok(true) && |p.leafHash| == 2 * DIGEST_SIZE
    requires HexDecode(p.leafHash) != Some(leaves[p.leafIndex])
    ensures IsCollision(H, x, y)
  {
    hide InclusionQueries;
    hide TreeHashed;
    hide ProofHashed;
    hide Mth;
    var found := FindCollision(H, InclusionQueries(H, leaves, p));
    if found.None? {
      QueriesCover(H, leaves, p);
      InclusionSound(H, InclusionQueries(H, leaves, p), leaves, p);
      assert false;
    }
    x, y := found.value.0, found.value.1;
  }

  /** Without the length: under any two-leaf root, both leaves glued together pass as leaf 0. */
  lemma GluedLeavesAccepted(H: HashFn, a: Digest32, b: Digest32, algorithm: Bytes)
    ensures Verdict(H, InclusionProof(0, HexEncode(a + b), 2, HexEncode(Mth(H, [a, b])), [[]], algorithm)) == Ok(true)
  {
    HexRoundTrip(a + b);
    HexRoundTrip([]);
    assert HexEncode([]) == [];
    assert Decoded([[]]) == [Some([])];
    assert NodePreimage(a + b, []) == NodePreimage(a, b);
    assert [a, b][..1] == [a] && [a, b][1..] == [b];
  }
}
