/** The digest of one execution's events: canonical leaves, canonical order, Merkle root, and its proofs. */
module EventDigest {
  import opened Wrappers
  import opened GoBytes
  import opened GoTime
  import opened Hashing
  import opened Encoding
  import opened MerkleTree
  import opened Inclusion

  datatype Event = Event(
    eventId: Bytes, executionId: Bytes, eventType: Bytes, sequence: int, timestamp: Time, durationMs: int,
    payload: Bytes)

  datatype Digest = Digest(executionId: Bytes, root: Bytes, leafCount: int, leaves: seq<Bytes>, algorithm: Bytes)

  datatype DigestError = NoEvents | NoExecutionId

  function AlgorithmNoEventsV1(): Bytes {
    Text("mesedi-exec-no-events-v1/sha256")
  }

  function NoEventsDomain(): Bytes {
    Text("mesedi.execution.no-events.v1")
  }

  // ----- canonical leaves

  function EventLabels(): seq<string> {
    ["event_id", "execution_id", "event_type", "sequence", "timestamp", "duration_ms", "payload_sha256"]
  }

  function EventValues(H: HashFn, e: Event): (v: seq<Bytes>)
    ensures |v| == |EventLabels()|
  {
    [e.eventId, e.executionId, e.eventType, Itoa(e.sequence), TimeText(e.timestamp), Itoa(e.durationMs),
     HexEncode(H(e.payload))]
  }

  function CanonicalLeaf(H: HashFn, e: Event): Bytes {
    Fields(EventLabels(), EventValues(H, e))
  }

  /** Equal leaves are leaves of equal events, up to the payload, of which the leaf holds only the digest. */
  lemma CanonicalLeafInjective(H: HashFn, a: Event, b: Event)
    requires CanonicalLeaf(H, a) == CanonicalLeaf(H, b)
    ensures a == b.(payload := a.payload) && H(a.payload) == H(b.payload)
  {
    var v, w := EventValues(H, a), EventValues(H, b);
    FieldsInjective(EventLabels(), v, w);
    assert v[0] == w[0] && v[1] == w[1] && v[2] == w[2] && v[3] == w[3] && v[4] == w[4] && v[5] == w[5] && v[6] == w[6];
    ItoaInjective(a.sequence, b.sequence);
    TimeTextInjective(a.timestamp, b.timestamp);
    ItoaInjective(a.durationMs, b.durationMs);
    HexInjective(H(a.payload), H(b.payload));
  }

  // ----- canonical order

  /** Go's < on strings: bytewise, a proper prefix first. */
  predicate StringLess(a: Bytes, b: Bytes) {
    if a == [] || b == [] then a == [] && b != []
    else a[0] < b[0] || (a[0] == b[0] && StringLess(a[1..], b[1..]))
  }

  predicate KeyLess(a: Event, b: Event) {
    if a.sequence != b.sequence then a.sequence < b.sequence else StringLess(a.eventId, b.eventId)
  }

  predicate SameKey(a: Event, b: Event) {
    a.sequence == b.sequence && a.eventId == b.eventId
  }

  lemma {:induction false} StringLessTrichotomy(a: Bytes, b: Bytes)
    ensures StringLess(a, b) || a == b || StringLess(b, a)
    ensures !(StringLess(a, b) && StringLess(b, a)) && !StringLess(a, a)
  {
    if a != [] && b != [] {
      StringLessTrichotomy(a[1..], b[1..]);
      assert a == [a[0]] + a[1..] && b == [b[0]] + b[1..];
    }
    if a != [] {
      StringLessTrichotomy(a[1..], a[1..]);
    }
  }

  lemma {:induction false} StringLessTransitive(a: Bytes, b: Bytes, c: Bytes)
    requires StringLess(a, b) && StringLess(b, c)
    ensures StringLess(a, c)
  {
    if a != [] && a[0] == b[0] == c[0] {
      StringLessTransitive(a[1..], b[1..], c[1..]);
    }
  }

  /** k is the first place at which the strings differ, and there the first is smaller. */
  ghost predicate SmallerAt(a: Bytes, b: Bytes, k: nat) {
    k < |a| && k < |b| && a[..k] == b[..k] && a[k] < b[k]
  }

  lemma SmallerBehind(x: byte, s: Bytes, t: Bytes, k: nat)
    ensures SmallerAt([x] + s, [x] + t, k + 1) <==> SmallerAt(s, t, k)
  {
    var a, b := [x] + s, [x] + t;
    if k < |s| && k < |t| {
      assert a[..k + 1] == [x] + s[..k] && b[..k + 1] == [x] + t[..k];
      assert s[..k] == a[..k + 1][1..] && t[..k] == b[..k + 1][1..];
    }
  }

  lemma SameHead(a: Bytes, b: Bytes, k: nat)
    requires SmallerAt(a, b, k)
    ensures if k > 0 then a[0] == b[0] else a[0] < b[0]
  {
    if k > 0 {
      assert a[0] == a[..k][0] && b[0] == b[..k][0];
    }
  }

  /** Go's string order: a proper prefix first, and otherwise the first byte that differs decides. */
  lemma {:induction false} StringLessMeans(a: Bytes, b: Bytes)
    ensures StringLess(a, b) <==> a < b || exists k: nat :: SmallerAt(a, b, k)
  {
    if a != [] && b != [] {
      var s, t := a[1..], b[1..];
      assert a == [a[0]] + s && b == [b[0]] + t;
      StringLessMeans(s, t);
      if k: nat :| SmallerAt(a, b, k) {
        SameHead(a, b, k);
        if k > 0 {
          SmallerBehind(a[0], s, t, k - 1);
        }
      }
      if a[0] < b[0] {
        assert SmallerAt(a, b, 0);
      } else if a[0] == b[0] && exists k: nat :: SmallerAt(s, t, k) {
        var k: nat :| SmallerAt(s, t, k);
        SmallerBehind(a[0], s, t, k);
      }
    }
  }

  lemma KeyOrder(a: Event, b: Event, c: Event)
    ensures KeyLess(a, b) || SameKey(a, b) || KeyLess(b, a)
    ensures !(KeyLess(a, b) && KeyLess(b, a)) && (SameKey(a, b) ==> !KeyLess(a, b))
    ensures KeyLess(a, b) && KeyLess(b, c) ==> KeyLess(a, c)
  {
    StringLessTrichotomy(a.eventId, b.eventId);
    if StringLess(a.eventId, b.eventId) && StringLess(b.eventId, c.eventId) {
      StringLessTransitive(a.eventId, b.eventId, c.eventId);
    }
  }

  /** The new event goes after every event it is not less than: equal keys keep their order. */
  function Insert(sorted: seq<Event>, e: Event): (r: seq<Event>)
    ensures multiset(r) == multiset(sorted) + multiset{e}
  {
    if sorted == [] then [e]
    else
      var n := |sorted| - 1;
      assert sorted == sorted[..n] + [sorted[n]];
      if KeyLess(e, sorted[n]) then Insert(sorted[..n], e) + [sorted[n]] else sorted + [e]
  }

  function StableSort(s: seq<Event>): (r: seq<Event>)
    ensures multiset(r) == multiset(s)
  {
    if s == [] then []
    else
      assert s == s[..|s| - 1] + [s[|s| - 1]];
      Insert(StableSort(s[..|s| - 1]), s[|s| - 1])
  }

  ghost predicate Sorted(s: seq<Event>) {
    forall i, j :: 0 <= i < j < |s| ==> !KeyLess(s[j], s[i])
  }

  lemma {:induction false} InsertSorted(sorted: seq<Event>, e: Event)
    requires Sorted(sorted)
    ensures Sorted(Insert(sorted, e))
  {
    if sorted != [] {
      var n := |sorted| - 1;
      var last := sorted[n];
      if KeyLess(e, last) {
        InsertSorted(sorted[..n], e);
        var front := Insert(sorted[..n], e);
        forall i | 0 <= i < |front|
          ensures !KeyLess(last, front[i])
        {
          assert front[i] in multiset(front);
          KeyOrder(e, last, last);
        }
      } else {
        forall i | 0 <= i < n
          ensures !KeyLess(e, sorted[i])
        {
          KeyOrder(e, sorted[i], last);
          KeyOrder(last, e, sorted[i]);
          KeyOrder(sorted[i], last, last);
        }
      }
    }
  }

  lemma {:induction false} StableSortSorted(s: seq<Event>)
    ensures Sorted(StableSort(s))
  {
    if s != [] {
      StableSortSorted(s[..|s| - 1]);
      InsertSorted(StableSort(s[..|s| - 1]), s[|s| - 1]);
    }
  }

  /** In the sorted events the sequence never goes down, and within one sequence neither does the id. */
  lemma CanonicalOrder(s: seq<Event>, i: nat, j: nat)
    requires i < j < |s|
    ensures |StableSort(s)| == |s|
    ensures var a, b := StableSort(s)[i], StableSort(s)[j];
      a.sequence < b.sequence || (a.sequence == b.sequence && !StringLess(b.eventId, a.eventId))
  {
    StableSortSorted(s);
    StableSortLength(s);
    hide StringLess, StableSort;
  }

  /** Events that share a key are one and the same event. */
  ghost predicate KeysIdentify(s: multiset<Event>) {
    forall a, b {:trigger SameKey(a, b)} :: a in s && b in s && SameKey(a, b) ==> a == b
  }

  lemma SortedHeads(a: seq<Event>, b: seq<Event>)
    requires Sorted(a) && Sorted(b) && multiset(a) == multiset(b) && KeysIdentify(multiset(a)) && a != [] && b != []
    ensures a[0] == b[0]
  {
    assert a[0] in multiset(b) && b[0] in multiset(a);
    var i :| 0 <= i < |a| && a[i] == b[0];
    var j :| 0 <= j < |b| && b[j] == a[0];
    KeyOrder(a[0], b[0], b[0]);
  }

  lemma DropHead(a: seq<Event>)
    requires a != [] && Sorted(a) && KeysIdentify(multiset(a))
    ensures multiset(a[1..]) == multiset(a) - multiset{a[0]}
    ensures Sorted(a[1..]) && KeysIdentify(multiset(a[1..]))
  {
    hide KeyLess;
    assert a == [a[0]] + a[1..];
  }

  /** There is one sorted arrangement. */
  lemma {:induction false} SortedUnique(a: seq<Event>, b: seq<Event>)
    requires Sorted(a) && Sorted(b) && multiset(a) == multiset(b) && KeysIdentify(multiset(a))
    ensures a == b
  {
    hide Sorted;
    hide KeysIdentify;
    assert |multiset(a)| == |a| && |multiset(b)| == |b|;
    if a != [] {
      SortedHeads(a, b);
      DropHead(a);
      assert KeysIdentify(multiset(b));
      DropHead(b);
      SortedUnique(a[1..], b[1..]);
      assert a == [a[0]] + a[1..] && b == [b[0]] + b[1..];
    }
  }

  lemma StableSortLength(s: seq<Event>)
    ensures |StableSort(s)| == |s|
  {
    assert |multiset(StableSort(s))| == |multiset(s)|;
  }

  lemma SortedFront(s: seq<Event>, was: seq<Event>, i: nat)
    requires i < |was| && s == StableSort(was[..i]) + was[i..]
    ensures |StableSort(was[..i])| == i && s[..i] == StableSort(was[..i])
    ensures s[i] == was[i] && s[i + 1..] == was[i + 1..]
  {
    hide StableSort;
    StableSortLength(was[..i]);
  }

  lemma StableSortStart(s: seq<Event>)
    ensures StableSort(s[..0]) + s[0..] == s
  {}

  lemma StableSortStep(s: seq<Event>, i: nat)
    requires i < |s|
    ensures StableSort(s[..i + 1]) == Insert(StableSort(s[..i]), s[i])
  {
    assert s[..i + 1][..i] == s[..i];
  }

  /** sort.SliceStable with the canonical order, in place. */
  method SliceStable(slice: array<Event>)
    modifies slice
    ensures slice[..] == StableSort(old(slice[..]))
  {
    hide StableSort, Insert, KeyLess;
    ghost var was := slice[..];
    StableSortStart(was);
    var i := 0;
    while i < slice.Length
      invariant 0 <= i <= slice.Length
      invariant slice[..] == StableSort(was[..i]) + was[i..]
    {
      ghost var front := StableSort(was[..i]);
      SortedFront(slice[..], was, i);
      SinkInto(slice, i, front);
      StableSortStep(was, i);
      i := i + 1;
    }
    assert was[..i] == was;
  }

  /** Swaps the element at i leftwards past every greater one; `front` is the sorted part before it. */
  method SinkInto(slice: array<Event>, i: nat, ghost front: seq<Event>)
    requires i < slice.Length && |front| == i && slice[..][..i] == front
    modifies slice
    ensures slice[..] == Insert(front, old(slice[..])[i]) + old(slice[..])[i + 1..]
  {
    hide KeyLess;
    hide Insert;
    ghost var e, rest := slice[..][i], slice[..][i + 1..];
    var j := i;
    assert slice[..] == front[..j] + [e] + front[j..] + rest;
    while j > 0 && KeyLess(slice[j], slice[j - 1])
      invariant 0 <= j <= i
      invariant slice[..] == front[..j] + [e] + front[j..] + rest
      invariant forall k :: j <= k < i ==> KeyLess(e, front[k])
    {
      assert slice[..][j] == e && slice[..][j - 1] == front[j - 1];
      ghost var before := slice[..];
      slice[j], slice[j - 1] := slice[j - 1], slice[j];
      assert slice[..] == before[j := front[j - 1]][j - 1 := e];
      SwapDown(front, e, rest, j);
      j := j - 1;
    }
    assert slice[..][j] == e && (j > 0 ==> slice[..][j - 1] == front[j - 1]);
    InsertAt(front, e, j);
  }

  lemma SwapDown(front: seq<Event>, e: Event, rest: seq<Event>, j: nat)
    requires 0 < j <= |front|
    ensures (front[..j] + [e] + front[j..] + rest)[j := front[j - 1]][j - 1 := e]
         == front[..j - 1] + [e] + front[j - 1..] + rest
  {}

  lemma {:induction false} InsertAt(front: seq<Event>, e: Event, j: nat)
    requires j <= |front| && (j > 0 ==> !KeyLess(e, front[j - 1]))
    requires forall k :: j <= k < |front| ==> KeyLess(e, front[k])
    ensures Insert(front, e) == front[..j] + [e] + front[j..]
  {
    hide KeyLess;
    if j < |front| {
      var n := |front| - 1;
      InsertAt(front[..n], e, j);
      LastBack(front, e, j);
    }
  }

  lemma LastBack(front: seq<Event>, e: Event, j: nat)
    requires j < |front|
    ensures front[..|front| - 1][..j] + [e] + front[..|front| - 1][j..] + [front[|front| - 1]]
         == front[..j] + [e] + front[j..]
  {}

  // ----- Compute

  function NonNil(evts: seq<Option<Event>>): seq<Event> {
    if evts == [] then []
    else NonNil(evts[..|evts| - 1]) + match evts[|evts| - 1] case None => [] case Some(e) => [e]
  }

  lemma NonNilOne(x: Option<Event>)
    ensures NonNil([x]) == if x.Some? then [x.value] else []
  {
    assert [x][..0] == [];
  }

  /** The events in their order, the nils gone. */
  lemma {:induction false} NonNilMeans(a: seq<Option<Event>>, b: seq<Option<Event>>, e: Event)
    ensures NonNil([]) == [] && NonNil([None]) == [] && NonNil([Some(e)]) == [e]
    ensures NonNil(a + b) == NonNil(a) + NonNil(b)
    decreases |b|
  {
    NonNilOne(None);
    NonNilOne(Some(e));
    if b == [] {
      assert a + b == a;
    } else {
      var n := |b| - 1;
      NonNilMeans(a, b[..n], e);
      assert (a + b)[..|a + b| - 1] == a + b[..n];
    }
  }

  function CanonicalLeaves(H: HashFn, s: seq<Event>): (data: seq<Bytes>)
    ensures |data| == |s|
  {
    seq(|s|, i requires 0 <= i < |s| => CanonicalLeaf(H, s[i]))
  }

  function OrderedLeaves(H: HashFn, evts: seq<Option<Event>>): seq<Bytes> {
    CanonicalLeaves(H, StableSort(NonNil(evts)))
  }

  function DigestOf(H: HashFn, executionId: Bytes, evts: seq<Option<Event>>): Result<Digest, DigestError> {
    if NonNil(evts) == [] then Err(NoEvents)
    else
      var leaves := LeafHashes(H, OrderedLeaves(H, evts));
      Ok(Digest(executionId, HexEncode(Mth(H, leaves)), |leaves|, HexAll(leaves), AlgorithmV1()))
  }

  method Compute(H: HashFn, executionId: Bytes, evts: seq<Option<Event>>) returns (r: Result<Digest, DigestError>)
    ensures r == DigestOf(H, executionId, evts)
  {
    var ordered: seq<Event> := [];
    for i := 0 to |evts|
      invariant ordered == NonNil(evts[..i])
    {
      assert evts[..i + 1][..i] == evts[..i];
      match evts[i] {
        case None =>
        case Some(e) => ordered := ordered + [e];
      }
    }
    assert evts[..|evts|] == evts;
    if |ordered| == 0 {
      return Err(NoEvents);
    }
    var slice := new Event[|ordered|](i requires 0 <= i < |ordered| => ordered[i]);
    assert slice[..] == ordered;
    SliceStable(slice);
    var leaves, leafHex := HashLeaves(H, CanonicalLeaves(H, slice[..]));
    assert NonNil(evts) != [];
    var root := RootFromLeafHashes(H, leaves);
    r := Ok(Digest(executionId, HexEncode(root), |leaves|, leafHex, AlgorithmV1()));
  }

  method HashLeaves(H: HashFn, data: seq<Bytes>) returns (leaves: seq<Bytes>, leafHex: seq<Bytes>)
    ensures leaves == LeafHashes(H, data) && leafHex == HexAll(leaves)
  {
    leaves, leafHex := [], [];
    for i := 0 to |data|
      invariant |leaves| == |leafHex| == i
      invariant forall j :: 0 <= j < i ==> leaves[j] == LeafHash(H, data[j])
      invariant forall j :: 0 <= j < i ==> leafHex[j] == HexEncode(leaves[j])
    {
      var lh := LeafHash(H, data[i]);
      leaves, leafHex := leaves + [lh], leafHex + [HexEncode(lh)];
    }
  }

  /** Field by field: an error for no events, and otherwise the hashes of the events in canonical order. */
  lemma DigestSays(H: HashFn, executionId: Bytes, evts: seq<Option<Event>>)
    ensures DigestOf(H, executionId, evts) == Err(NoEvents) <==> NonNil(evts) == []
    ensures NonNil(evts) != [] ==>
              var ordered := StableSort(NonNil(evts));
              DigestOf(H, executionId, evts).Ok? && var d := DigestOf(H, executionId, evts).value;
              && d.executionId == executionId && d.algorithm == Text("mesedi-exec-merkle-v1/rfc6962-sha256")
              && d.leafCount == |d.leaves| == |NonNil(evts)| == |ordered|
              && (forall i :: 0 <= i < |ordered| ==>
                    d.leaves[i] == HexEncode(LeafHash(H, CanonicalLeaf(H, ordered[i]))))
              && d.root == HexEncode(DataRoot(H, OrderedLeaves(H, evts)))
  {
    StableSortLength(NonNil(evts));
    RootIsMth(H, LeafHashes(H, OrderedLeaves(H, evts)));
    hide CanonicalLeaf, StableSort, NonNil, Root, Mth;
    if NonNil(evts) != [] {
      var d := DigestOf(H, executionId, evts).value;
      forall i | 0 <= i < |StableSort(NonNil(evts))|
        ensures d.leaves[i] == HexEncode(LeafHash(H, CanonicalLeaf(H, StableSort(NonNil(evts))[i])))
      {
        HashAt(H, evts, i);
      }
    }
  }

  // ----- events that share a key

  /** The events of one key, in their order. */
  function OfKey(s: seq<Event>, k: Event): seq<Event> {
    if s == [] then []
    else OfKey(s[..|s| - 1], k) + if SameKey(s[|s| - 1], k) then [s[|s| - 1]] else []
  }

  lemma OfKeyAppend(s: seq<Event>, e: Event, k: Event)
    ensures OfKey(s + [e], k) == OfKey(s, k) + if SameKey(e, k) then [e] else []
  {
    assert (s + [e])[..|s|] == s;
  }

  lemma {:induction false} InsertIsStable(sorted: seq<Event>, e: Event, k: Event)
    requires Sorted(sorted)
    ensures OfKey(Insert(sorted, e), k) == OfKey(sorted, k) + if SameKey(e, k) then [e] else []
  {
    hide KeyLess, SameKey, Sorted;
    if sorted == [] {
      assert [e][..0] == [];
    } else {
      var n := |sorted| - 1;
      if KeyLess(e, sorted[n]) {
        SortedInit(sorted);
        InsertIsStable(sorted[..n], e, k);
        OfKeyAppend(Insert(sorted[..n], e), sorted[n], k);
        OtherKey(e, sorted[n], k);
      } else {
        OfKeyAppend(sorted, e, k);
      }
    }
  }

  lemma OtherKey(e: Event, last: Event, k: Event)
    requires KeyLess(e, last)
    ensures SameKey(e, k) ==> !SameKey(last, k)
  {
    KeyOrder(e, last, k);
  }

  lemma SortedInit(s: seq<Event>)
    requires Sorted(s) && s != []
    ensures Sorted(s[..|s| - 1])
  {
    hide KeyLess;
  }

  /** The sort is stable: events of one key keep the order they came in. */
  lemma {:induction false} SortIsStable(s: seq<Event>, k: Event)
    ensures OfKey(StableSort(s), k) == OfKey(s, k)
  {
    hide Sorted, Insert;
    if s != [] {
      var init := s[..|s| - 1];
      SortIsStable(init, k);
      StableSortSorted(init);
      InsertIsStable(StableSort(init), s[|s| - 1], k);
    }
  }

  /** What is in order already is left as it is. */
  lemma {:induction false} SortedStays(s: seq<Event>)
    requires Sorted(s)
    ensures StableSort(s) == s
  {
    hide KeyLess, Sorted, StableSort, Insert;
    if s == [] {
      StableSortStart(s);
    } else {
      var n := |s| - 1;
      SortedInit(s);
      SortedStays(s[..n]);
      StableSortStep(s, n);
      assert s[..n + 1] == s == s[..n] + [s[n]];
      if n > 0 {
        SortedLast(s);
      }
      InsertLast(s[..n], s[n]);
    }
  }

  lemma InsertLast(sorted: seq<Event>, e: Event)
    requires sorted != [] ==> !KeyLess(e, sorted[|sorted| - 1])
    ensures Insert(sorted, e) == sorted + [e]
  {
    hide KeyLess;
  }

  lemma SortedLast(s: seq<Event>)
    requires Sorted(s) && |s| > 1
    ensures !KeyLess(s[|s| - 1], s[|s| - 2])
  {
    hide KeyLess;
  }

  /** An event cut down to its key. */
  function KeyOnly(e: Event): Event {
    Event(e.eventId, [], [], e.sequence, 0, 0, [])
  }

  function KeysOnly(s: seq<Event>): (keys: seq<Event>)
    ensures |keys| == |s| && forall i :: 0 <= i < |s| ==> keys[i] == KeyOnly(s[i])
  {
    seq(|s|, i requires 0 <= i < |s| => KeyOnly(s[i]))
  }

  lemma KeysOfParts(a: seq<Event>, e: Event, b: seq<Event>)
    ensures KeysOnly(a + b) == KeysOnly(a) + KeysOnly(b)
    ensures KeysOnly(a + [e] + b) == KeysOnly(a) + [KeyOnly(e)] + KeysOnly(b)
  {
    hide KeyOnly;
  }

  lemma TakeOut<T>(a: seq<T>, e: T, b: seq<T>)
    ensures multiset(a + [e] + b) == multiset(a + b) + multiset{e}
  {
  }

  lemma Cancel<T>(x: multiset<T>, y: multiset<T>, e: T)
    requires x + multiset{e} == y + multiset{e}
    ensures x == y
  {
    assert x == (x + multiset{e}) - multiset{e} && y == (y + multiset{e}) - multiset{e};
  }

  lemma AroundIt<T>(t: seq<T>, j: nat)
    requires j < |t|
    ensures t == t[..j] + [t[j]] + t[j + 1..]
  {
  }

  lemma RestMatches<T>(s: seq<T>, t: seq<T>, j: nat)
    requires s != [] && j < |t| && t[j] == s[0] && multiset(s) == multiset(t)
    ensures multiset(s[1..]) == multiset(t[..j] + t[j + 1..])
  {
    var e, x, y := s[0], s[1..], t[..j] + t[j + 1..];
    AroundIt(t, j);
    TakeOut(t[..j], e, t[j + 1..]);
    AroundIt(s, 0);
    TakeOut(s[..0], e, x);
    assert s[..0] + x == x;
    Cancel(multiset(x), multiset(y), e);
  }

  lemma KeysStep(s: seq<Event>, t: seq<Event>, j: nat)
    requires s != [] && j < |t| && t[j] == s[0]
    requires multiset(KeysOnly(s[1..])) == multiset(KeysOnly(t[..j] + t[j + 1..]))
    ensures multiset(KeysOnly(s)) == multiset(KeysOnly(t))
  {
    hide KeyOnly, KeysOnly;
    var e, a, b := s[0], t[..j], t[j + 1..];
    AroundIt(t, j);
    assert s == [] + [e] + s[1..] && [] + s[1..] == s[1..];
    KeysOfParts(a, e, b);
    KeysOfParts([], e, s[1..]);
    TakeOut(KeysOnly(a), KeyOnly(e), KeysOnly(b));
    TakeOut(KeysOnly([]), KeyOnly(e), KeysOnly(s[1..]));
  }

  lemma {:induction false} KeysOfSame(s: seq<Event>, t: seq<Event>)
    requires multiset(s) == multiset(t)
    ensures multiset(KeysOnly(s)) == multiset(KeysOnly(t))
    decreases |s|
  {
    hide KeyOnly, KeysOnly;
    assert |multiset(s)| == |s| && |multiset(t)| == |t|;
    if s == [] {
      assert t == [];
    } else {
      assert s[0] in multiset(t);
      var j :| 0 <= j < |t| && t[j] == s[0];
      RestMatches(s, t, j);
      KeysOfSame(s[1..], t[..j] + t[j + 1..]);
      KeysStep(s, t, j);
    }
  }

  lemma KeysSorted(s: seq<Event>)
    requires Sorted(s)
    ensures Sorted(KeysOnly(s)) && KeysIdentify(multiset(KeysOnly(s)))
  {
    var keys := KeysOnly(s);
    forall a, b | a in multiset(keys) && b in multiset(keys) && SameKey(a, b)
      ensures a == b
    {
      var i :| 0 <= i < |keys| && keys[i] == a;
      var j :| 0 <= j < |keys| && keys[j] == b;
    }
  }

  /** Two sorted arrangements of the same events have the same key at every place. */
  lemma SortedKeysAgree(s: seq<Event>, t: seq<Event>)
    requires Sorted(s) && Sorted(t) && multiset(s) == multiset(t)
    ensures |s| == |t| && forall i :: 0 <= i < |s| ==> SameKey(s[i], t[i])
  {
    hide Sorted, KeysIdentify;
    KeysSorted(s);
    KeysSorted(t);
    KeysOfSame(s, t);
    SortedUnique(KeysOnly(s), KeysOnly(t));
    forall i | 0 <= i < |s|
      ensures SameKey(s[i], t[i])
    {
      assert KeysOnly(s)[i] == KeysOnly(t)[i];
    }
  }

  function EventHash(H: HashFn, e: Event): Bytes {
    LeafHash(H, CanonicalLeaf(H, e))
  }

  /** Any two events sharing sequence and id have one leaf hash. */
  ghost predicate KeyFixesHash(H: HashFn, s: seq<Event>) {
    forall x, y {:trigger SameKey(x, y)} :: x in s && y in s && SameKey(x, y) ==> EventHash(H, x) == EventHash(H, y)
  }

  lemma HashAt(H: HashFn, evts: seq<Option<Event>>, i: nat)
    requires i < |StableSort(NonNil(evts))|
    ensures |OrderedLeaves(H, evts)| == |StableSort(NonNil(evts))|
    ensures LeafHashes(H, OrderedLeaves(H, evts))[i] == EventHash(H, StableSort(NonNil(evts))[i])
  {
    hide CanonicalLeaf, StableSort, NonNil;
  }

  lemma SameHashes(H: HashFn, a: seq<Option<Event>>, b: seq<Option<Event>>)
    requires multiset(NonNil(a)) == multiset(NonNil(b)) && KeyFixesHash(H, NonNil(a))
    ensures LeafHashes(H, OrderedLeaves(H, a)) == LeafHashes(H, OrderedLeaves(H, b))
    ensures NonNil(a) == [] <==> NonNil(b) == []
  {
    hide CanonicalLeaf, StableSort, NonNil, Sorted, EventHash;
    var s, t := StableSort(NonNil(a)), StableSort(NonNil(b));
    StableSortSorted(NonNil(a));
    StableSortSorted(NonNil(b));
    SortedKeysAgree(s, t);
    StableSortLength(NonNil(a));
    StableSortLength(NonNil(b));
    forall i | 0 <= i < |s|
      ensures LeafHashes(H, OrderedLeaves(H, a))[i] == LeafHashes(H, OrderedLeaves(H, b))[i]
    {
      HashAt(H, a, i);
      HashAt(H, b, i);
      assert s[i] in multiset(NonNil(a)) && t[i] in multiset(NonNil(b));
    }
    assert |OrderedLeaves(H, a)| == |s| && |OrderedLeaves(H, b)| == |t|;
  }

  lemma {:induction false} NonNilOfEntries(s: seq<Event>)
    ensures NonNil(Entries(s)) == s
  {
    if s != [] {
      var n := |s| - 1;
      NonNilOfEntries(s[..n]);
      assert Entries(s)[..n] == Entries(s[..n]);
      assert s == s[..n] + [s[n]];
    }
  }

  /** Exchanging two events that share a key keeps a sorted arrangement sorted. */
  lemma SwapStaysSorted(s: seq<Event>, i: nat, j: nat)
    requires Sorted(s) && i < |s| && j < |s| && SameKey(s[i], s[j])
    ensures Sorted(s[i := s[j]][j := s[i]]) && multiset(s[i := s[j]][j := s[i]]) == multiset(s)
  {
    hide StringLess;
    var t := s[i := s[j]][j := s[i]];
    assert forall k :: 0 <= k < |s| ==> SameKey(t[k], s[k]);
  }

  lemma SwapShows(H: HashFn, executionId: Bytes, a: seq<Option<Event>>, x: Event, y: Event)
    returns (b: seq<Option<Event>>)
    requires x in NonNil(a) && y in NonNil(a) && SameKey(x, y) && EventHash(H, x) != EventHash(H, y)
    ensures multiset(NonNil(b)) == multiset(NonNil(a)) && DigestOf(H, executionId, b) != DigestOf(H, executionId, a)
  {
    hide CanonicalLeaf, StableSort, NonNil, Sorted, EventHash, OrderedLeaves, KeyLess, StringLess;
    var s := StableSort(NonNil(a));
    StableSortSorted(NonNil(a));
    assert x in multiset(s) && y in multiset(s);
    var i :| 0 <= i < |s| && s[i] == x;
    var j :| 0 <= j < |s| && s[j] == y;
    var t := s[i := s[j]][j := s[i]];
    SwapStaysSorted(s, i, j);
    SortedStays(t);
    b := Entries(t);
    NonNilOfEntries(t);
    HashAt(H, a, i);
    HashAt(H, b, i);
    DifferentLeaves(H, executionId, a, b, i);
  }

  lemma DifferentLeaves(H: HashFn, executionId: Bytes, a: seq<Option<Event>>, b: seq<Option<Event>>, i: nat)
    requires NonNil(a) != [] && i < |OrderedLeaves(H, a)| && i < |OrderedLeaves(H, b)|
    requires LeafHashes(H, OrderedLeaves(H, a))[i] != LeafHashes(H, OrderedLeaves(H, b))[i]
    ensures DigestOf(H, executionId, b) != DigestOf(H, executionId, a)
  {
    hide OrderedLeaves, NonNil;
    var x, y := LeafHashes(H, OrderedLeaves(H, a)), LeafHashes(H, OrderedLeaves(H, b));
    if HexAll(x)[i] == HexAll(y)[i] {
      HexInjective(x[i], y[i]);
    }
  }

  /**
   * Order is irrelevant exactly when any two events sharing sequence and id have one leaf hash. Where they have
   * not, exchanging two of them changes the digest: the sort is stable, so it keeps the order they came in.
   */
  lemma OrderIndependenceExactly(H: HashFn, executionId: Bytes, a: seq<Option<Event>>)
    ensures (forall b :: multiset(NonNil(b)) == multiset(NonNil(a)) ==>
                           DigestOf(H, executionId, b) == DigestOf(H, executionId, a))
       <==> KeyFixesHash(H, NonNil(a))
  {
    hide NonNil, OrderedLeaves, EventHash, DigestOf, KeyFixesHash;
    if KeyFixesHash(H, NonNil(a)) {
      forall b | multiset(NonNil(b)) == multiset(NonNil(a))
        ensures DigestOf(H, executionId, b) == DigestOf(H, executionId, a)
      {
        SameHashes(H, a, b);
        SameDigest(H, executionId, a, b);
      }
    } else {
      var x, y := KeyCollision(H, NonNil(a));
      var b := SwapShows(H, executionId, a, x, y);
    }
  }

  lemma KeyCollision(H: HashFn, s: seq<Event>) returns (x: Event, y: Event)
    requires !KeyFixesHash(H, s)
    ensures x in s && y in s && SameKey(x, y) && EventHash(H, x) != EventHash(H, y)
  {
    hide EventHash;
    x, y :| x in s && y in s && SameKey(x, y) && EventHash(H, x) != EventHash(H, y);
  }

  lemma SameDigest(H: HashFn, executionId: Bytes, a: seq<Option<Event>>, b: seq<Option<Event>>)
    requires LeafHashes(H, OrderedLeaves(H, a)) == LeafHashes(H, OrderedLeaves(H, b))
    requires NonNil(a) == [] <==> NonNil(b) == []
    ensures DigestOf(H, executionId, b) == DigestOf(H, executionId, a)
  {
    hide OrderedLeaves, NonNil;
  }

  /** Neither the retrieval order of the events nor nils among them change the digest. */
  lemma OrderIndependence(H: HashFn, executionId: Bytes, a: seq<Option<Event>>, b: seq<Option<Event>>)
    requires multiset(NonNil(a)) == multiset(NonNil(b)) && KeysIdentify(multiset(NonNil(a)))
    ensures DigestOf(H, executionId, a) == DigestOf(H, executionId, b)
  {
    hide NonNil, OrderedLeaves, DigestOf, EventHash;
    KeysIdentifyHashes(H, NonNil(a));
    SameHashes(H, a, b);
    SameDigest(H, executionId, a, b);
  }

  lemma KeysIdentifyHashes(H: HashFn, s: seq<Event>)
    requires KeysIdentify(multiset(s))
    ensures KeyFixesHash(H, s)
  {
    hide EventHash;
    forall x, y | x in s && y in s && SameKey(x, y)
      ensures EventHash(H, x) == EventHash(H, y)
    {
      assert x in multiset(s) && y in multiset(s);
    }
  }

  // ----- Prove

  function ProofFrom(H: HashFn, d: Digest, index: int): Result<InclusionProof, ProofError> {
    match PathFor(H, d.leaves, index)
    case Err(e) => Err(e)
    case Ok(path) =>
      Ok(InclusionProof(index, d.leaves[index], |d.leaves|, d.root, path, AlgorithmV1()))
  }

  method Prove(H: HashFn, d: Digest, index: int) returns (r: Result<InclusionProof, ProofError>)
    ensures r == ProofFrom(H, d, index)
  {
    var path := ProvePath(H, d.leaves, index);
    match path
    case Err(e) => r := Err(e);
    case Ok(p) => r := Ok(InclusionProof(index, d.leaves[index], |d.leaves|, d.root, p, AlgorithmV1()));
  }

  /** The proof is of the leaf asked for: its index, its hash, the digest's size and root. */
  lemma ProofSays(H: HashFn, d: Digest, index: int)
    ensures ProofFrom(H, d, index).Ok? ==>
              var p := ProofFrom(H, d, index).value;
              && 0 <= index < |d.leaves| && p.leafIndex == index && p.leafHash == d.leaves[index]
              && p.treeSize == |d.leaves| && p.root == d.root
              && p.algorithm == Text("mesedi-exec-merkle-v1/rfc6962-sha256")
    ensures ProofFrom(H, d, index) == Err(IndexOutOfRange) <==> index < 0 || index >= |d.leaves|
    ensures ProofFrom(H, d, index) == Err(MalformedLeafHash) <==>
              0 <= index < |d.leaves| && exists i :: 0 <= i < |d.leaves| && HexDecode(d.leaves[i]).None?
  {
    hide RfcPath, HexDecode;
  }

  /** Every event of every digest can be proved, and the proof is accepted. */
  lemma ProofRoundTrip(H: HashFn, executionId: Bytes, evts: seq<Option<Event>>, index: nat)
    requires DigestOf(H, executionId, evts).Ok? && index < DigestOf(H, executionId, evts).value.leafCount
    ensures var r := ProofFrom(H, DigestOf(H, executionId, evts).value, index);
            r.Ok? && Verdict(H, r.value) == Ok(true)
  {
    InclusionComplete(H, LeafHashes(H, OrderedLeaves(H, evts)), index, AlgorithmV1());
  }

  // ----- ComputeForChain

  function NoEventsPreimage(executionId: Bytes): Bytes {
    NoEventsDomain() + [0] + executionId
  }

  function ChainDigestOf(H: HashFn, executionId: Bytes, evts: seq<Option<Event>>): Result<Digest, DigestError> {
    if NonNil(evts) != [] then DigestOf(H, executionId, evts)
    else if executionId == [] then Err(NoExecutionId)
    else Ok(Digest(executionId, HexEncode(H(NoEventsPreimage(executionId))), 0, [], AlgorithmNoEventsV1()))
  }

  method ComputeForChain(H: HashFn, executionId: Bytes, evts: seq<Option<Event>>)
    returns (r: Result<Digest, DigestError>)
    ensures r == ChainDigestOf(H, executionId, evts)
  {
    r := Compute(H, executionId, evts);
    if r.Ok? {
      return;
    }
    if executionId == [] {
      return Err(NoExecutionId);
    }
    var sum: Bytes := H(NoEventsDomain() + [0] + executionId);
    r := Ok(Digest(executionId, HexEncode(sum), 0, [], AlgorithmNoEventsV1()));
  }

  /** Only an execution with no events and no id has no chain digest; one with no events has one of its own kind. */
  lemma ChainDigestSays(H: HashFn, executionId: Bytes, evts: seq<Option<Event>>)
    ensures NonNil(evts) != [] ==> ChainDigestOf(H, executionId, evts) == DigestOf(H, executionId, evts)
    ensures ChainDigestOf(H, executionId, evts) == Err(NoExecutionId) <==> NonNil(evts) == [] && executionId == []
    ensures ChainDigestOf(H, executionId, evts) != Err(NoEvents)
    ensures NonNil(evts) == [] && executionId != [] ==>
              ChainDigestOf(H, executionId, evts).Ok? && var d := ChainDigestOf(H, executionId, evts).value;
              && d.executionId == executionId && d.leafCount == 0 && d.leaves == []
              && d.algorithm == Text("mesedi-exec-no-events-v1/sha256")
              && d.root == HexEncode(H(Text("mesedi.execution.no-events.v1") + [0] + executionId))
  {
    hide NonNil, StableSort, Mth;
  }

  /** `hashed` holds every string hashed for a chain digest. */
  ghost predicate DigestHashed(H: HashFn, hashed: set<Bytes>, executionId: Bytes, evts: seq<Option<Event>>) {
    if NonNil(evts) == [] then NoEventsPreimage(executionId) in hashed
    else DataHashed(H, hashed, OrderedLeaves(H, evts))
  }

  /**
   * What a chain digest's root alone commits to. An event-less execution's root is nobody else's; the root
   * of one with events fixes how many there are and the canonical leaf of each, in order.
   */
  lemma ChainRootBinding(
      H: HashFn, hashed: set<Bytes>, id1: Bytes, evts1: seq<Option<Event>>, id2: Bytes, evts2: seq<Option<Event>>)
    requires ChainDigestOf(H, id1, evts1).Ok? && ChainDigestOf(H, id2, evts2).Ok?
    requires ChainDigestOf(H, id1, evts1).value.root == ChainDigestOf(H, id2, evts2).value.root
    requires CollisionFree(H, hashed)
    requires DigestHashed(H, hashed, id1, evts1) && DigestHashed(H, hashed, id2, evts2)
    ensures NonNil(evts1) == [] <==> NonNil(evts2) == []
    ensures NonNil(evts1) == [] ==> id1 == id2
    ensures OrderedLeaves(H, evts1) == OrderedLeaves(H, evts2)
  {
    var a, b := OrderedLeaves(H, evts1), OrderedLeaves(H, evts2);
    if NonNil(evts1) == [] && NonNil(evts2) == [] {
      var x, y := NoEventsPreimage(id1), NoEventsPreimage(id2);
      HexInjective(H(x), H(y));
      assert !IsCollision(H, x, y);
      assert x[|NoEventsDomain()| + 1..] == id1 && y[|NoEventsDomain()| + 1..] == id2;
    } else if NonNil(evts1) != [] && NonNil(evts2) != [] {
      LeavesNonempty(H, evts1);
      LeavesNonempty(H, evts2);
      RootIsMth(H, LeafHashes(H, a));
      RootIsMth(H, LeafHashes(H, b));
      HexInjective(DataRoot(H, a), DataRoot(H, b));
      DataBinding(H, hashed, a, b);
    } else if NonNil(evts1) == [] {
      NoEventsRootDiffers(H, hashed, id1, evts2);
    } else {
      NoEventsRootDiffers(H, hashed, id2, evts1);
    }
  }

  lemma LeavesNonempty(H: HashFn, evts: seq<Option<Event>>)
    requires NonNil(evts) != []
    ensures OrderedLeaves(H, evts) != []
  {
    assert |multiset(NonNil(evts))| == |NonNil(evts)|;
    assert |multiset(StableSort(NonNil(evts)))| == |StableSort(NonNil(evts))|;
  }

  lemma NoEventsRootDiffers(H: HashFn, hashed: set<Bytes>, id: Bytes, evts: seq<Option<Event>>)
    requires NonNil(evts) != [] && CollisionFree(H, hashed)
    requires NoEventsPreimage(id) in hashed && DataHashed(H, hashed, OrderedLeaves(H, evts))
    ensures HexEncode(H(NoEventsPreimage(id))) != HexEncode(Mth(H, LeafHashes(H, OrderedLeaves(H, evts))))
  {
    var data := OrderedLeaves(H, evts);
    var x := NoEventsPreimage(id);
    NoEventsFirstByte(id);
    LeavesNonempty(H, evts);
    var y: Bytes;
    if |data| == 1 {
      y := LeafPreimage(data[0]);
    } else {
      var k := SplitPoint(|data|);
      DataSplit(H, hashed, data, k);
      y := NodePreimage(DataRoot(H, data[..k]), DataRoot(H, data[k..]));
    }
    assert y[0] < 2 && y in hashed;
    assert !IsCollision(H, x, y);
    RootIsMth(H, LeafHashes(H, data));
    if HexEncode(H(x)) == HexEncode(DataRoot(H, data)) {
      HexInjective(H(x), DataRoot(H, data));
    }
  }

  lemma NoEventsFirstByte(id: Bytes)
    ensures NoEventsPreimage(id)[0] == 109
  {
    assert NoEventsDomain()[0] as int == 'm' as int % 256;
  }
}
