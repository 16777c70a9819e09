/**
 * SHA-256 as an arbitrary total function into 32 bytes. Nothing is assumed about it: every binding
 * result below holds for any such function, provided no two different strings among the ones that were
 * actually hashed collide, and `FindCollision` searches exactly those strings for the colliding pair.
 */
module Hashing {
  import opened Wrappers
  import opened GoBytes

  const DIGEST_SIZE := 32

  type Digest32 = d: Bytes | |d| == DIGEST_SIZE witness seq(DIGEST_SIZE, i => 0)
  type HashFn = Bytes -> Digest32

  /** merkleLeafHash hashes 0x00 followed by the data. */
  function LeafPreimage(data: Bytes): Bytes {
    [0] + data
  }

  /** merkleNodeHash hashes 0x01, the left child and the right child. */
  function NodePreimage(left: Bytes, right: Bytes): Bytes {
    [1] + left + right
  }

  function LeafHash(H: HashFn, data: Bytes): (d: Bytes)
    ensures |d| == DIGEST_SIZE
  {
    H(LeafPreimage(data))
  }

  function NodeHash(H: HashFn, left: Bytes, right: Bytes): (d: Bytes)
    ensures |d| == DIGEST_SIZE
  {
    H(NodePreimage(left, right))
  }

  predicate IsCollision(H: HashFn, x: Bytes, y: Bytes) {
    x != y && H(x) == H(y)
  }

  /** No two different members of `hashed` have the same digest. */
  ghost predicate CollisionFree(H: HashFn, hashed: set<Bytes>) {
    forall x, y {:trigger IsCollision(H, x, y)} :: x in hashed && y in hashed ==> !IsCollision(H, x, y)
  }

  /** Looks for two different members of `hashed` with one digest; finds such a pair whenever there is one. */
  method FindCollision(H: HashFn, hashed: set<Bytes>) returns (r: Option<(Bytes, Bytes)>)
    ensures r.None? <==> CollisionFree(H, hashed)
    ensures r.Some? ==> r.value.0 in hashed && r.value.1 in hashed && IsCollision(H, r.value.0, r.value.1)
  {
    var todo := hashed;
    var seen: map<Bytes, Bytes> := map[];  // digest to the member that has it
    while todo != {}
      invariant todo <= hashed
      invariant forall d :: d in seen ==> seen[d] in hashed - todo && H(seen[d]) == d
      invariant forall x :: x in hashed - todo ==> H(x) in seen && seen[H(x)] == x
      decreases |todo|
    {
      var x :| x in todo;
      var d: Bytes := H(x);
      if d in seen {
        assert IsCollision(H, seen[d], x);
        return Some((seen[d], x));
      }
      seen := seen[d := x];
      todo := todo - {x};
    }
    assert hashed - todo == hashed;
    r := None;
  }

  lemma LeafBinding(H: HashFn, hashed: set<Bytes>, a: Bytes, b: Bytes)
    requires CollisionFree(H, hashed) && LeafPreimage(a) in hashed && LeafPreimage(b) in hashed
    requires LeafHash(H, a) == LeafHash(H, b)
    ensures a == b
  {
    assert !IsCollision(H, LeafPreimage(a), LeafPreimage(b));
    assert LeafPreimage(a)[1..] == a && LeafPreimage(b)[1..] == b;
  }

  /**
   * Equal node hashes have equal operands once one operand on each side is known to be 32 bytes: the
   * concatenation alone does not say where the left child ends.
   */
  lemma NodeBinding(H: HashFn, hashed: set<Bytes>, l1: Bytes, r1: Bytes, l2: Bytes, r2: Bytes)
    requires CollisionFree(H, hashed) && NodePreimage(l1, r1) in hashed && NodePreimage(l2, r2) in hashed
    requires NodeHash(H, l1, r1) == NodeHash(H, l2, r2)
    requires |l1| == |l2| || |r1| == |r2|
    ensures l1 == l2 && r1 == r2
  {
    var x, y := NodePreimage(l1, r1), NodePreimage(l2, r2);
    assert !IsCollision(H, x, y);
    assert |l1| == |l2|;
    assert x[1..1 + |l1|] == l1 && y[1..1 + |l2|] == l2;
    assert x[1 + |l1|..] == r1 && y[1 + |l2|..] == r2;
  }

  /** The prefixes keep leaves and nodes apart. */
  lemma LeafIsNotNode(H: HashFn, hashed: set<Bytes>, data: Bytes, l: Bytes, r: Bytes)
    requires CollisionFree(H, hashed) && LeafPreimage(data) in hashed && NodePreimage(l, r) in hashed
    ensures LeafHash(H, data) != NodeHash(H, l, r)
  {
    assert !IsCollision(H, LeafPreimage(data), NodePreimage(l, r));
    assert LeafPreimage(data)[0] == 0 && NodePreimage(l, r)[0] == 1;
  }
}
