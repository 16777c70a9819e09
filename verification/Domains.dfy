/** The kinds of hashed strings never coincide, whatever the fields hold. */
module Domains {
  import opened GoBytes
  import opened Hashing
  import opened Encoding
  import opened EventDigest
  import opened Checkpoints

  lemma FieldsStart(labels: seq<string>, values: seq<Bytes>)
    requires |labels| == |values| && labels != []
    ensures Fields(labels, values) == Field(Text(labels[0]), values[0]) + Fields(labels[1..], values[1..])
  {}

  lemma EventStart(H: HashFn, e: Event)
    ensures CanonicalLeaf(H, e) != [] && CanonicalLeaf(H, e)[0] == 101
  {
    FieldsStart(EventLabels(), EventValues(H, e));
    assert EventLabels()[0][0] == 'e';
  }

  lemma TenantStart(l: TenantLeaf)
    ensures LeafRecord(l) != [] && LeafRecord(l)[0] == 100
    ensures exists rest :: LeafRecord(l) == Field(Text("domain"), TenantLeafDomain()) + rest
  {
    FieldsStart(LeafLabels(), LeafValues(l));
    assert LeafLabels()[0] == "domain";
  }

  lemma CheckpointStart(c: Checkpoint)
    ensures CheckpointRecord(c) != [] && CheckpointRecord(c)[0] == 100
    ensures exists rest :: CheckpointRecord(c) == Field(Text("domain"), CheckpointDomain()) + rest
  {
    hide CanonicalTime;
    hide Itoa;
    var labels, values := CheckpointLabels(), CheckpointValues(c);
    FieldsStart(labels, values);
    assert labels[0] == "domain" && values[0] == CheckpointDomain();
    hide CheckpointDomain;
    var rest := Fields(labels[1..], values[1..]);
    assert CheckpointRecord(c) == Field(Text("domain"), CheckpointDomain()) + rest;
    assert Field(Text("domain"), CheckpointDomain())[0] == 100;
  }

  /** An event, a tenant leaf and a checkpoint never have the same record. */
  lemma RecordsDiffer(H: HashFn, e: Event, l: TenantLeaf, c: Checkpoint)
    ensures CanonicalLeaf(H, e) != LeafRecord(l)
    ensures CanonicalLeaf(H, e) != CheckpointRecord(c)
    ensures LeafRecord(l) != CheckpointRecord(c)
  {
    hide CanonicalLeaf;
    hide LeafRecord;
    hide CheckpointRecord;
    EventStart(H, e);
    TenantStart(l);
    CheckpointStart(c);
    assert |TenantLeafDomain()| == 32 && |CheckpointDomain()| == 20;
    if LeafRecord(l) == CheckpointRecord(c) {
      hide Field;
      var r :| LeafRecord(l) == Field(Text("domain"), TenantLeafDomain()) + r;
      var s :| CheckpointRecord(c) == Field(Text("domain"), CheckpointDomain()) + s;
      FieldUnique(Text("domain"), TenantLeafDomain(), CheckpointDomain(), r, s);
    }
  }

  /** A leaf string, a node string and an event-less execution's string never coincide. */
  lemma PreimagesDiffer(data: Bytes, left: Bytes, right: Bytes, id: Bytes)
    ensures LeafPreimage(data) != NodePreimage(left, right)
    ensures NoEventsPreimage(id) != LeafPreimage(data)
    ensures NoEventsPreimage(id) != NodePreimage(left, right)
  {
    NoEventsFirstByte(id);
    assert LeafPreimage(data)[0] == 0 && NodePreimage(left, right)[0] == 1;
  }

  /** So, short of a collision, no hash of one kind passes for a hash of another. */
  lemma HashesDiffer(H: HashFn, hashed: set<Bytes>, e: Event, l: TenantLeaf, c: Checkpoint)
    requires CollisionFree(H, hashed)
    requires LeafPreimage(CanonicalLeaf(H, e)) in hashed
    requires LeafPreimage(LeafRecord(l)) in hashed && LeafPreimage(CheckpointRecord(c)) in hashed
    ensures HexEncode(LeafHash(H, CanonicalLeaf(H, e))) != TenantLeafHash(H, l)
    ensures HexEncode(LeafHash(H, CanonicalLeaf(H, e))) != CheckpointHash(H, c)
    ensures TenantLeafHash(H, l) != CheckpointHash(H, c)
  {
    hide CanonicalLeaf;
    hide LeafRecord;
    hide CheckpointRecord;
    RecordsDiffer(H, e, l, c);
    HexDiffers(H, hashed, CanonicalLeaf(H, e), LeafRecord(l));
    HexDiffers(H, hashed, CanonicalLeaf(H, e), CheckpointRecord(c));
    HexDiffers(H, hashed, LeafRecord(l), CheckpointRecord(c));
  }

  lemma HexDiffers(H: HashFn, hashed: set<Bytes>, a: Bytes, b: Bytes)
    requires CollisionFree(H, hashed) && LeafPreimage(a) in hashed && LeafPreimage(b) in hashed && a != b
    ensures HexEncode(LeafHash(H, a)) != HexEncode(LeafHash(H, b))
  {
    if HexEncode(LeafHash(H, a)) == HexEncode(LeafHash(H, b)) {
      HexInjective(LeafHash(H, a), LeafHash(H, b));
      LeafBinding(H, hashed, a, b);
    }
  }
}
