/** The hashed strings spelled out: which label goes with which value, in which order, byte for byte. */
module Records {
  import opened GoBytes
  import opened GoTime
  import opened Hashing
  import opened Encoding
  import opened EventDigest
  import opened Checkpoints

  /** label, length and value, with a colon after each of the first two and a line feed at the end. */
  function Line(name: string, value: Bytes): Bytes {
    Text(name) + [58] + Itoa(|value|) + [58] + value + [10]
  }

  lemma Fields3(a: string, x: Bytes, b: string, y: Bytes, c: string, z: Bytes)
    ensures Fields([a, b, c], [x, y, z]) == Line(a, x) + Line(b, y) + Line(c, z)
  {
    var l, v := [a, b, c], [x, y, z];
    assert l[1..] == [b, c] && v[1..] == [y, z] && l[1..][1..] == [c] && v[1..][1..] == [z];
    assert [c][1..] == [] && [z][1..] == [];
    hide Field, Line;
    FieldIsLine(a, x);
    FieldIsLine(b, y);
    FieldIsLine(c, z);
    assert Fields([c], [z]) == Field(Text(c), z) + Fields([], []) == Field(Text(c), z);
    assert Fields([b, c], [y, z]) == Field(Text(b), y) + Fields([c], [z]);
    assert Fields(l, v) == Field(Text(a), x) + Fields([b, c], [y, z]);
  }

  lemma FieldIsLine(name: string, value: Bytes)
    ensures Field(Text(name), value) == Line(name, value)
  {
  }

  lemma Fields1(a: string, x: Bytes)
    ensures Fields([a], [x]) == Line(a, x)
  {
    FieldIsLine(a, x);
    hide Field, Line;
    assert [a][1..] == [] && [x][1..] == [];
    assert Fields([a], [x]) == Field(Text(a), x) + Fields([], []) == Field(Text(a), x);
  }

  lemma {:induction false} FieldsConcat(l: seq<string>, v: seq<Bytes>, m: seq<string>, w: seq<Bytes>)
    requires |l| == |v| && |m| == |w|
    ensures Fields(l + m, v + w) == Fields(l, v) + Fields(m, w)
  {
    hide Field;
    if l == [] {
      assert l + m == m && v + w == w;
    } else {
      FieldsConcat(l[1..], v[1..], m, w);
      assert (l + m)[1..] == l[1..] + m && (v + w)[1..] == v[1..] + w;
    }
  }

  /** One event's canonical leaf. */
  lemma EventLayout(H: HashFn, e: Event)
    ensures CanonicalLeaf(H, e) ==
            (Line("event_id", e.eventId) + Line("execution_id", e.executionId) + Line("event_type", e.eventType))
          + (Line("sequence", Itoa(e.sequence)) + Line("timestamp", TimeText(e.timestamp))
             + Line("duration_ms", Itoa(e.durationMs)))
          + Line("payload_sha256", HexEncode(H(e.payload)))
  {
    hide Line, Itoa, TimeText, HexEncode, Fields;
    var v := EventValues(H, e);
    var a, b := ["event_id", "execution_id", "event_type"], ["sequence", "timestamp", "duration_ms"];
    var c := ["payload_sha256"];
    assert EventLabels() == a + b + c && v == v[..3] + v[3..6] + [v[6]];
    FieldsConcat(a + b, v[..3] + v[3..6], c, [v[6]]);
    FieldsConcat(a, v[..3], b, v[3..6]);
    assert v[..3] == [v[0], v[1], v[2]] && v[3..6] == [v[3], v[4], v[5]];
    Fields3(a[0], v[0], a[1], v[1], a[2], v[2]);
    Fields3(b[0], v[3], b[1], v[4], b[2], v[5]);
    Fields1(c[0], v[6]);
  }

  /** One tenant leaf's record. */
  lemma LeafLayout(l: TenantLeaf)
    ensures LeafRecord(l) ==
            (Line("domain", Text("mesedi.checkpoint.tenant-leaf.v1")) + Line("project_id", l.projectId)
             + Line("interval_root", l.intervalRoot))
          + (Line("execution_count", Itoa(l.executionCount)) + Line("cumulative_count", Itoa(l.cumulativeCount))
             + Line("prev_leaf_hash", l.prevLeafHash))
  {
    hide Line, Itoa, Fields, Text;
    var v := LeafValues(l);
    var a, b := ["domain", "project_id", "interval_root"], ["execution_count", "cumulative_count", "prev_leaf_hash"];
    assert LeafLabels() == a + b && v == v[..3] + v[3..];
    FieldsConcat(a, v[..3], b, v[3..]);
    assert v[..3] == [v[0], v[1], v[2]] && v[3..] == [v[3], v[4], v[5]];
    Fields3(a[0], v[0], a[1], v[1], a[2], v[2]);
    Fields3(b[0], v[3], b[1], v[4], b[2], v[5]);
  }

  /** One checkpoint's record. */
  lemma CheckpointLayout(c: Checkpoint)
    ensures CheckpointRecord(c) ==
            (Line("domain", Text("mesedi.checkpoint.v1")) + Line("format", c.format) + Line("seq", Itoa(c.seqNo)))
          + (Line("prev_checkpoint_hash", c.prevCheckpointHash) + Line("prev_log_entry_id", c.prevLogEntryId)
             + Line("interval_start", CanonicalTime(c.intervalStart)))
          + (Line("interval_end", CanonicalTime(c.intervalEnd)) + Line("tenant_leaf_count", Itoa(c.tenantLeafCount))
             + Line("merkle_root", c.merkleRoot))
          + Line("cumulative_count", Itoa(c.cumulativeCount))
          + Line("created_at_unattested", CanonicalTime(c.createdAt))
  {
    hide Line, Itoa, Fields, Text, CanonicalTime;
    var v := CheckpointValues(c);
    CheckpointSplit(c, v);
    Fields3("domain", v[0], "format", v[1], "seq", v[2]);
    Fields3("prev_checkpoint_hash", v[3], "prev_log_entry_id", v[4], "interval_start", v[5]);
    Fields3("interval_end", v[6], "tenant_leaf_count", v[7], "merkle_root", v[8]);
    Fields1("cumulative_count", v[9]);
    Fields1("created_at_unattested", v[10]);
  }

  lemma CheckpointSplit(c: Checkpoint, v: seq<Bytes>)
    requires v == CheckpointValues(c)
    ensures CheckpointRecord(c) ==
            Fields(["domain", "format", "seq"], [v[0], v[1], v[2]])
          + Fields(["prev_checkpoint_hash", "prev_log_entry_id", "interval_start"], [v[3], v[4], v[5]])
          + Fields(["interval_end", "tenant_leaf_count", "merkle_root"], [v[6], v[7], v[8]])
          + Fields(["cumulative_count"], [v[9]]) + Fields(["created_at_unattested"], [v[10]])
  {
    hide Itoa, Fields, Text, CanonicalTime;
    var a, b := ["domain", "format", "seq"], ["prev_checkpoint_hash", "prev_log_entry_id", "interval_start"];
    var d, e := ["interval_end", "tenant_leaf_count", "merkle_root"], ["cumulative_count"];
    var f := ["created_at_unattested"];
    var p, q, r := [v[0], v[1], v[2]], [v[3], v[4], v[5]], [v[6], v[7], v[8]];
    assert CheckpointLabels() == a + b + d + e + f && v == p + q + r + [v[9]] + [v[10]];
    FieldsConcat(a + b + d + e, p + q + r + [v[9]], f, [v[10]]);
    FieldsConcat(a + b + d, p + q + r, e, [v[9]]);
    FieldsConcat(a + b, p + q, d, r);
    FieldsConcat(a, p, b, q);
  }

  /** The string hashed for an execution without events. */
  lemma NoEventsLayout(id: Bytes)
    ensures NoEventsPreimage(id) == Text("mesedi.execution.no-events.v1") + [0] + id
  {
  }

  // ----- times to the microsecond

  lemma PaddedStep(n: nat, width: nat)
    requires width >= 2
    ensures Padded(n, width) == Padded(n / 10, width - 1) + [(48 + n % 10) as byte]
  {
    if n < 10 {
      assert Decimal(0) == [48];
      assert seq(width - 1, i => 48 as byte) == seq((width - 2) as nat, i => 48 as byte) + [48];
    }
  }

  lemma PaddedThousands(n: nat)
    ensures Padded(n, 9)[..|Padded(n, 9)| - 3] == Padded(n / 1000, 6)
    ensures n % 1000 == 0 ==> Padded(n, 9) == Padded(n / 1000, 6) + [48, 48, 48]
  {
    hide Padded;
    PaddedStep(n, 9);
    PaddedStep(n / 10, 8);
    PaddedStep(n / 100, 7);
    assert n / 10 / 10 == n / 100 && n / 100 / 10 == n / 1000;
    if n % 1000 == 0 {
      assert n % 10 == 0 && n / 10 % 10 == 0 && n / 100 % 10 == 0;
    }
  }

  lemma Thousands(k: int, n: int)
    ensures (k * 1000 + n) % 1000 == n % 1000
  {
  }

  lemma MicrosOfDay(t: Time)
    ensures var u := Truncate(t, 1000);
      && u / DAY == t / DAY && u % DAY / SECOND == t % DAY / SECOND
      && u % DAY % SECOND == t % DAY % SECOND / 1000 * 1000
  {
    var days, rest := t / DAY, t % DAY;
    var s, n := rest / SECOND, rest % SECOND;
    assert t == days * DAY + s * SECOND + n;
    Thousands(days * 86_400_000_000 + s * 1_000_000, n);
    ClockParts(days, s, n - n % 1000);
  }

  lemma MicrosCivil(t: Time)
    ensures CivilOf(Truncate(t, 1000)) == CivilOf(t).(nano := CivilOf(t).nano / 1000 * 1000)
  {
    MicrosOfDay(t);
  }

  lemma {:induction false} ConcatLast(p: seq<Bytes>, x: Bytes)
    ensures Concat(p + [x]) == Concat(p) + x
  {
    if p == [] {
      assert p + [x] == [x] && [x][1..] == [];
      assert Concat([x]) == x + Concat([]);
    } else {
      ConcatLast(p[1..], x);
      assert (p + [x])[1..] == p[1..] + [x];
    }
  }

  lemma SecondsApart(c: Civil)
    requires c.Valid()
    ensures Concat(TailPieces(c)) == Concat(TailPieces(c)[..11]) + Padded(c.nano, 9)
  {
    hide Padded, Concat;
    var p := TailPieces(c);
    ConcatLast(p[..11], p[11]);
    assert p == p[..11] + [p[11]];
  }

  /** A hashed time is the time's own text with the last three of its nine digits zero. */
  lemma HashedTime(t: Time)
    ensures var x, y := CanonicalTime(t), TimeText(t);
      |x| == |y| && x[..|x| - 4] == y[..|y| - 4] && x[|x| - 4..] == [48, 48, 48, 90]
  {
    hide Padded, Concat, CivilOf, YearText, Decimal;
    var c := CivilOf(t);
    var d := c.(nano := c.nano / 1000 * 1000);
    MicrosCivil(t);
    SecondsApart(c);
    SecondsApart(d);
    SameSeconds(c, d);
    PaddedThousands(c.nano);
    PaddedThousands(d.nano);
    NineDigits(c.nano);
    NineDigits(d.nano);
    var head := YearText(c.year) + Concat(TailPieces(c)[..11]);
    var six := Padded(c.nano / 1000, 6);
    assert Text("Z") == [90];
    assert CanonicalTime(t) == head + six + [48, 48, 48] + [90];
    assert TimeText(t) == head + Padded(c.nano, 9) + [90];
    assert Padded(c.nano, 9) == six + Padded(c.nano, 9)[6..];
  }

  lemma SameSeconds(c: Civil, d: Civil)
    requires c.Valid() && d == c.(nano := d.nano) && 0 <= d.nano < SECOND
    ensures TailPieces(c)[..11] == TailPieces(d)[..11]
  {
    hide Padded;
  }

  lemma NineDigits(n: nat)
    requires n < SECOND
    ensures |Padded(n, 9)| == 9 && |Padded(n / 1000, 6)| == 6
  {
    assert Power10(1) == 10 && Power10(2) == 100 && Power10(3) == 1000 && Power10(4) == 10_000;
    assert Power10(6) == 1_000_000 && Power10(7) == 10_000_000 && Power10(9) == SECOND;
    PaddedWidth(n, 9);
    PaddedWidth(n / 1000, 6);
  }

  predicate ZerosOnly(s: string) {
    forall i :: 0 <= i < |s| ==> s[i] == '0'
  }

  lemma EightZeros()
    ensures ZerosOnly("00000000")
  {
    var s := "00000000";
    assert s[0] == s[1] == s[2] == s[3] == s[4] == s[5] == s[6] == s[7] == '0';
  }

  lemma MoreZeros(s: string, t: string)
    requires ZerosOnly(s) && ZerosOnly(t)
    ensures ZerosOnly(s + t)
  {
  }

  lemma ManyZeros()
    ensures ZerosOnly("0000000000000000000000000000000000000000000000000000000000000000")
    ensures |"0000000000000000000000000000000000000000000000000000000000000000"| == 64
  {
    var a, b, c := "00000000", "0000000000000000", "00000000000000000000000000000000";
    EightZeros();
    MoreZeros(a, a);
    assert a + a == b;
    MoreZeros(b, b);
    assert b + b == c;
    MoreZeros(c, c);
    assert c + c == "0000000000000000000000000000000000000000000000000000000000000000";
  }

  /** The hash that names no predecessor is 64 zeros. */
  lemma ZeroHashIs()
    ensures |ZeroHash()| == 64 && forall i :: 0 <= i < 64 ==> ZeroHash()[i] == 48
  {
    ManyZeros();
    hide ZerosOnly;
    var s := "0000000000000000000000000000000000000000000000000000000000000000";
    assert ZeroHash() == Text(s) && ZerosOnly(s);
    TextOfZeros(s);
  }

  lemma TextOfZeros(s: string)
    requires ZerosOnly(s)
    ensures forall i :: 0 <= i < |s| ==> Text(s)[i] == 48
  {
  }
}
