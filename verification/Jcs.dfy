/**
 * Canonical JSON for declared tool schemas. The text is a key for the value: two values print the same exactly when
 * they are equal up to the order of object members, which is proved through a parser that undoes the printer.
 */
module Jcs {
  import opened Wrappers
  import opened CodeUnits

  datatype Member<T> = Member(key: Text, value: T)

  /** A JavaScript value; `Unserializable` stands for functions, symbols, undefined and BigInt. */
  datatype Json =
    | Null
    | Bool(b: bool)
    | Number(n: int)
    | Str(s: Text)
    | Array(items: seq<Json>)
    | Object(members: seq<Member<Json>>)
    | Unserializable

  const MAX_SAFE_INTEGER := 0x1F_FFFF_FFFF_FFFF

  ghost predicate DistinctKeys<T>(members: seq<Member<T>>) {
    forall i, j :: 0 <= i < j < |members| ==> members[i].key != members[j].key
  }

  /** An object holds a key once, at every depth; numbers are safe integers. */
  ghost predicate Proper(v: Json) {
    match v
    case Number(n) => -MAX_SAFE_INTEGER <= n <= MAX_SAFE_INTEGER
    case Array(items) => forall item :: item in items ==> Proper(item)
    case Object(members) => DistinctKeys(members) && forall m :: m in members ==> Proper(m.value)
    case _ => true
  }

  predicate Serializable(v: Json) {
    match v
    case Unserializable => false
    case Array(items) => forall item :: item in items ==> Serializable(item)
    case Object(members) => forall m :: m in members ==> Serializable(m.value)
    case _ => true
  }

  /** Equal up to the order of object members, at every depth. */
  ghost predicate Same(a: Json, b: Json) {
    match (a, b)
    case (Array(xs), Array(ys)) => |xs| == |ys| && forall i :: 0 <= i < |xs| ==> Same(xs[i], ys[i])
    case (Object(ms), Object(ns)) =>
      && (forall m :: m in ms ==> exists n :: n in ns && m.key == n.key && Same(m.value, n.value))
      && (forall n :: n in ns ==> exists m :: m in ms && m.key == n.key && Same(m.value, n.value))
    case _ => a == b
  }

  // ----- keys in order

  /** Array.prototype.sort without a comparator: by 16-bit code units. */
  predicate Before(a: Text, b: Text) {
    if a == [] then b != []
    else b != [] && (a[0] < b[0] || (a[0] == b[0] && Before(a[1..], b[1..])))
  }

  lemma {:induction false} BeforeIsTotal(a: Text, b: Text)
    ensures Before(a, b) || a == b || Before(b, a)
    ensures !(Before(a, b) && Before(b, a)) && !Before(a, a)
  {
    if a != [] {
      BeforeIsTotal(a[1..], a[1..]);
      if b != [] {
        BeforeIsTotal(a[1..], b[1..]);
        assert a == [a[0]] + a[1..] && b == [b[0]] + b[1..];
      }
    }
  }

  /** k is the first place at which the texts differ, and there the first is smaller. */
  ghost predicate SmallerAt(a: Text, b: Text, k: nat) {
    k < |a| && k < |b| && a[..k] == b[..k] && a[k] < b[k]
  }

  lemma SmallerBehind(x: Unit, s: Text, t: Text, k: nat)
    ensures SmallerAt([x] + s, [x] + t, k + 1) <==> SmallerAt(s, t, k)
  {
    var a, b := [x] + s, [x] + t;
    if k < |s| && k < |t| {
      assert a[..k + 1] == [x] + s[..k] && b[..k + 1] == [x] + t[..k];
      assert s[..k] == a[..k + 1][1..] && t[..k] == b[..k + 1][1..];
    }
  }

  lemma SameHead(a: Text, b: Text, k: nat)
    requires SmallerAt(a, b, k)
    ensures if k > 0 then a[0] == b[0] else a[0] < b[0]
  {
    if k > 0 {
      assert a[0] == a[..k][0] && b[0] == b[..k][0];
    }
  }

  /** That is: a proper prefix comes first, and otherwise the first unit that differs decides. */
  lemma {:induction false} BeforeIsLexicographic(a: Text, b: Text)
    ensures Before(a, b) <==> a < b || exists k: nat :: SmallerAt(a, b, k)
  {
    if a != [] && b != [] {
      var s, t := a[1..], b[1..];
      assert a == [a[0]] + s && b == [b[0]] + t;
      BeforeIsLexicographic(s, t);
      if k: nat :| SmallerAt(a, b, k) {
        SameHead(a, b, k);
        if k > 0 {
          SmallerBehind(a[0], s, t, k - 1);
        }
      }
      if a[0] < b[0] {
        assert SmallerAt(a, b, 0);
      } else if a[0] == b[0] && exists k: nat :: SmallerAt(s, t, k) {
        var k: nat :| SmallerAt(s, t, k);
        SmallerBehind(a[0], s, t, k);
      }
    }
  }

  lemma {:induction false} BeforeIsTransitive(a: Text, b: Text, c: Text)
    requires Before(a, b) && Before(b, c)
    ensures Before(a, c)
  {
    if a != [] && a[0] == b[0] == c[0] {
      BeforeIsTransitive(a[1..], b[1..], c[1..]);
    }
  }

  function InsertKey(sorted: seq<Text>, key: Text): (longer: seq<Text>)
    ensures forall k :: k in longer <==> k in sorted || k == key
  {
    if sorted != [] && Before(sorted[0], key) then [sorted[0]] + InsertKey(sorted[1..], key) else [key] + sorted
  }

  function SortKeys(keys: seq<Text>): (sorted: seq<Text>)
    ensures forall k :: k in sorted <==> k in keys
  {
    if keys == [] then [] else InsertKey(SortKeys(keys[1..]), keys[0])
  }

  ghost predicate Ascending(keys: seq<Text>) {
    forall i, j :: 0 <= i < j < |keys| ==> Before(keys[i], keys[j])
  }

  lemma {:induction false} InsertKeyKeeps(sorted: seq<Text>, key: Text)
    requires Ascending(sorted) && key !in sorted
    ensures Ascending(InsertKey(sorted, key))
  {
    if sorted != [] && Before(sorted[0], key) {
      InsertKeyKeeps(sorted[1..], key);
      var rest := InsertKey(sorted[1..], key);
      forall j | 0 <= j < |rest|
        ensures Before(sorted[0], rest[j])
      {
        assert rest[j] in rest;
      }
    } else if sorted != [] {
      BeforeIsTotal(sorted[0], key);
      forall j | 0 <= j < |sorted|
        ensures Before(key, sorted[j])
      {
        if j > 0 {
          BeforeIsTransitive(key, sorted[0], sorted[j]);
        }
      }
    }
  }

  lemma {:induction false} SortKeysSorts(keys: seq<Text>)
    requires forall i, j :: 0 <= i < j < |keys| ==> keys[i] != keys[j]
    ensures Ascending(SortKeys(keys))
  {
    if keys != [] {
      SortKeysSorts(keys[1..]);
      InsertKeyKeeps(SortKeys(keys[1..]), keys[0]);
      assert keys == [keys[0]] + keys[1..];
    }
  }

  lemma HeadIsIn(s: seq<Text>)
    ensures s != [] ==> s[0] in s
  {
  }

  /** An ascending sequence is fixed by what it holds. */
  lemma {:induction false} AscendingIsUnique(a: seq<Text>, b: seq<Text>)
    requires Ascending(a) && Ascending(b) && forall k :: k in a <==> k in b
    ensures a == b
  {
    if a == [] {
      HeadIsIn(b);
    } else {
      assert a[0] in a && a[0] in b;
      assert b[0] in b && b[0] in a;
      BeforeIsTotal(a[0], b[0]);
      BeforeIsTotal(a[0], a[0]);
      assert a[0] == b[0];
      forall k
        ensures k in a[1..] <==> k in b[1..]
      {
        BeforeIsTotal(k, k);
        assert k in a[1..] ==> k in a && k != a[0];
        assert k in b[1..] ==> k in b && k != b[0];
        assert a == [a[0]] + a[1..] && b == [b[0]] + b[1..];
      }
      AscendingIsUnique(a[1..], b[1..]);
    }
  }

  // ----- members in order

  function Keys<T>(members: seq<Member<T>>): (keys: seq<Text>)
    ensures |keys| == |members| && forall i :: 0 <= i < |keys| ==> keys[i] == members[i].key
  {
    if members == [] then [] else [members[0].key] + Keys(members[1..])
  }

  /** obj[key], for a key the object has. */
  function Find<T>(members: seq<Member<T>>, key: Text): (value: T)
    requires key in Keys(members)
    ensures Member(key, value) in members
  {
    if members[0].key == key then members[0].value else Find(members[1..], key)
  }

  function Pick<T>(members: seq<Member<T>>, keys: seq<Text>): (picked: seq<Member<T>>)
    requires forall k :: k in keys ==> k in Keys(members)
    ensures |picked| == |keys|
    ensures forall i :: 0 <= i < |keys| ==> picked[i].key == keys[i] && picked[i] in members
  {
    if keys == [] then []
    else
      assert keys[0] in keys;
      [Member(keys[0], Find(members, keys[0]))] + Pick(members, keys[1..])
  }

  /** The members by ascending key: Object.keys(obj).sort(), each looked up again. */
  function Arrange<T>(members: seq<Member<T>>): seq<Member<T>> {
    Pick(members, SortKeys(Keys(members)))
  }

  lemma KeysDistinct<T>(members: seq<Member<T>>, m: Member<T>, n: Member<T>)
    requires DistinctKeys(members) && m in members && n in members && m.key == n.key
    ensures m == n
  {
    var i :| 0 <= i < |members| && members[i] == m;
    var j :| 0 <= j < |members| && members[j] == n;
    assert i == j;
  }

  lemma ArrangeHolds<T>(members: seq<Member<T>>)
    requires DistinctKeys(members)
    ensures forall m :: m in Arrange(members) <==> m in members
    ensures Ascending(Keys(Arrange(members))) && Keys(Arrange(members)) == SortKeys(Keys(members))
  {
    var keys := SortKeys(Keys(members));
    SortKeysSorts(Keys(members));
    assert Keys(Arrange(members)) == keys;
    forall m | m in members
      ensures m in Arrange(members)
    {
      var i :| 0 <= i < |members| && members[i] == m;
      assert Keys(members)[i] == m.key;
      assert m.key in keys;
      var j :| 0 <= j < |keys| && keys[j] == m.key;
      KeysDistinct(members, m, Arrange(members)[j]);
    }
  }

  /** The order members come in does not matter. */
  lemma ArrangeIsUnique<T>(ms: seq<Member<T>>, ns: seq<Member<T>>)
    requires DistinctKeys(ms) && DistinctKeys(ns) && forall m :: m in ms <==> m in ns
    ensures Arrange(ms) == Arrange(ns)
  {
    ArrangeHolds(ms);
    ArrangeHolds(ns);
    var a, b := Arrange(ms), Arrange(ns);
    forall k
      ensures k in Keys(a) <==> k in Keys(b)
    {
      KeyOf(a, k);
      KeyOf(b, k);
    }
    AscendingIsUnique(Keys(a), Keys(b));
    forall i | 0 <= i < |a|
      ensures a[i] == b[i]
    {
      assert Keys(a)[i] == Keys(b)[i] && a[i] in ms && b[i] in ms;
      KeysDistinct(ms, a[i], b[i]);
    }
  }

  lemma KeyOf<T>(members: seq<Member<T>>, k: Text)
    ensures k in Keys(members) <==> exists m :: m in members && m.key == k
  {
    if k in Keys(members) {
      var i :| 0 <= i < |members| && Keys(members)[i] == k;
      assert members[i] in members;
    }
    forall m | m in members && m.key == k
      ensures k in Keys(members)
    {
      var i :| 0 <= i < |members| && members[i] == m;
      assert Keys(members)[i] == k;
    }
  }

  // ----- strings and numbers

  function HexDigit(d: int): Unit
    requires 0 <= d < 16
  {
    if d < 10 then (48 + d) as Unit else (87 + d) as Unit
  }

  /** A backslash, u and four lower-case hexadecimal digits. */
  function UnicodeEscape(c: Unit): Text {
    var n := c as int;
    [BACKSLASH, 117, HexDigit(n / 4096), HexDigit(n / 256 % 16), HexDigit(n / 16 % 16), HexDigit(n % 16)]
  }

  predicate HighSurrogate(c: Unit) { 0xD800 <= c <= 0xDBFF }

  predicate LowSurrogate(c: Unit) { 0xDC00 <= c <= 0xDFFF }

  function EscapeUnit(c: Unit): Text {
    if c == QUOTE || c == BACKSLASH then [BACKSLASH, c]
    else if c == 8 then [BACKSLASH, 98]
    else if c == 9 then [BACKSLASH, 116]
    else if c == 10 then [BACKSLASH, 110]
    else if c == 12 then [BACKSLASH, 102]
    else if c == 13 then [BACKSLASH, 114]
    else if c < 32 then UnicodeEscape(c)
    else if HighSurrogate(c) || LowSurrogate(c) then UnicodeEscape(c)
    else [c]
  }

  predicate StartsWithPair(s: Text) {
    |s| > 1 && HighSurrogate(s[0]) && LowSurrogate(s[1])
  }

  /** What JSON.stringify puts between the quotes: a surrogate is escaped unless it is half of a pair. */
  function Escape(s: Text): Text {
    if s == [] then []
    else if StartsWithPair(s) then [s[0], s[1]] + Escape(s[2..])
    else EscapeUnit(s[0]) + Escape(s[1..])
  }

  function Quoted(s: Text): Text {
    [QUOTE] + Escape(s) + [QUOTE]
  }

  function Digits(n: nat): Text {
    if n < 10 then [(48 + n) as Unit] else Digits(n / 10) + [(48 + n % 10) as Unit]
  }

  function Decimal(n: int): Text {
    if n < 0 then [45] + Digits(-n) else Digits(n)
  }

  // ----- the printer

  /** "null", "true", "false" */
  function NullText(): Text { [110, 117, 108, 108] }
  function TrueText(): Text { [116, 114, 117, 101] }
  function FalseText(): Text { [102, 97, 108, 115, 101] }

  const SLASH: Unit := 47
  const OPEN_ARRAY: Unit := 91
  const CLOSE_ARRAY: Unit := 93
  const OPEN_OBJECT: Unit := 123
  const CLOSE_OBJECT: Unit := 125

  function Parts(members: seq<Member<Text>>): (parts: seq<Text>)
    ensures |parts| == |members|
  {
    if members == [] then []
    else [Quoted(members[0].key) + [COLON] + members[0].value] + Parts(members[1..])
  }

  function Bracketed(texts: seq<Text>): Text {
    [OPEN_ARRAY] + Join(texts, COMMA) + [CLOSE_ARRAY]
  }

  function Braced(members: seq<Member<Text>>): Text {
    [OPEN_OBJECT] + Join(Parts(members), COMMA) + [CLOSE_OBJECT]
  }

  /** canonicalize: None where the source throws. */
  function Canonicalize(v: Json): Option<Text> {
    match v
    case Null => Some(NullText())
    case Bool(b) => Some(if b then TrueText() else FalseText())
    case Number(n) => Some(Decimal(n))
    case Str(s) => Some(Quoted(s))
    case Array(items) =>
      var texts := CanonicalizeAll(items);
      if texts.None? then None else Some(Bracketed(texts.value))
    case Object(members) =>
      var texts := CanonicalizeMembers(members);
      if texts.None? then None else Some(Braced(Arrange(texts.value)))
    case Unserializable => None
  }

  function CanonicalizeAll(items: seq<Json>): Option<seq<Text>> {
    if items == [] then Some([])
    else
      var first, rest := Canonicalize(items[0]), CanonicalizeAll(items[1..]);
      if first.None? || rest.None? then None else Some([first.value] + rest.value)
  }

  function CanonicalizeMembers(members: seq<Member<Json>>): Option<seq<Member<Text>>> {
    if members == [] then Some([])
    else
      var first, rest := Canonicalize(members[0].value), CanonicalizeMembers(members[1..]);
      if first.None? || rest.None? then None else Some([Member(members[0].key, first.value)] + rest.value)
  }

  // ----- printing without sorting

  /** The value with its members in ascending key order at every depth. */
  function Normal(v: Json): Json {
    match v
    case Array(items) => Array(NormalAll(items))
    case Object(members) => Object(Arrange(NormalMembers(members)))
    case _ => v
  }

  function NormalAll(items: seq<Json>): (normal: seq<Json>)
    ensures |normal| == |items|
    ensures forall i :: 0 <= i < |items| ==> normal[i] == Normal(items[i])
  {
    if items == [] then [] else [Normal(items[0])] + NormalAll(items[1..])
  }

  function NormalMembers(members: seq<Member<Json>>): (normal: seq<Member<Json>>)
    ensures |normal| == |members|
    ensures forall i :: 0 <= i < |members| ==> normal[i] == Member(members[i].key, Normal(members[i].value))
  {
    if members == [] then []
    else [Member(members[0].key, Normal(members[0].value))] + NormalMembers(members[1..])
  }

  function Print(v: Json): Text {
    match v
    case Null => NullText()
    case Bool(b) => if b then TrueText() else FalseText()
    case Number(n) => Decimal(n)
    case Str(s) => Quoted(s)
    case Array(items) => Bracketed(PrintAll(items))
    case Object(members) => Braced(PrintMembers(members))
    case Unserializable => []
  }

  function PrintAll(items: seq<Json>): (texts: seq<Text>)
    ensures |texts| == |items|
    ensures forall i :: 0 <= i < |items| ==> texts[i] == Print(items[i])
  {
    if items == [] then [] else [Print(items[0])] + PrintAll(items[1..])
  }

  function PrintMembers(members: seq<Member<Json>>): (texts: seq<Member<Text>>)
    ensures |texts| == |members|
    ensures forall i :: 0 <= i < |members| ==> texts[i] == Member(members[i].key, Print(members[i].value))
  {
    if members == [] then [] else [Member(members[0].key, Print(members[0].value))] + PrintMembers(members[1..])
  }

  lemma {:induction false} FindPrinted(ms: seq<Member<Json>>, ts: seq<Member<Text>>, k: Text)
    requires ts == PrintMembers(ms) && k in Keys(ms)
    ensures k in Keys(ts) && Find(ts, k) == Print(Find(ms, k))
  {
    assert Keys(ms) == Keys(ts);
    if ms[0].key != k {
      FindPrinted(ms[1..], ts[1..], k);
    }
  }

  lemma {:induction false} PickPrinted(ms: seq<Member<Json>>, ts: seq<Member<Text>>, keys: seq<Text>)
    requires ts == PrintMembers(ms) && Keys(ts) == Keys(ms) && forall k :: k in keys ==> k in Keys(ms)
    ensures Pick(ts, keys) == PrintMembers(Pick(ms, keys))
  {
    if keys != [] {
      assert keys[0] in keys;
      FindPrinted(ms, ts, keys[0]);
      PickPrinted(ms, ts, keys[1..]);
    }
  }

  /** Sorting the printed members is printing the sorted ones. */
  lemma ArrangePrinted(ms: seq<Member<Json>>)
    ensures Arrange(PrintMembers(ms)) == PrintMembers(Arrange(ms))
  {
    var ts := PrintMembers(ms);
    assert Keys(ts) == Keys(ms);
    PickPrinted(ms, ts, SortKeys(Keys(ms)));
  }

  /** canonicalize prints the normal form, and throws exactly when something in the value cannot be serialised. */
  lemma {:induction false} CanonicalizePrintsNormal(v: Json)
    ensures Canonicalize(v) == if Serializable(v) then Some(Print(Normal(v))) else None
  {
    match v
    case Array(items) => AllPrintNormal(items);
    case Object(members) =>
      MembersPrintNormal(members);
      ArrangePrinted(NormalMembers(members));
    case _ =>
  }

  lemma {:induction false} AllPrintNormal(items: seq<Json>)
    ensures CanonicalizeAll(items) ==
            if forall item :: item in items ==> Serializable(item) then Some(PrintAll(NormalAll(items))) else None
  {
    if items != [] {
      CanonicalizePrintsNormal(items[0]);
      AllPrintNormal(items[1..]);
      assert items == [items[0]] + items[1..];
      assert NormalAll(items)[1..] == NormalAll(items[1..]);
    }
  }

  lemma {:induction false} MembersPrintNormal(members: seq<Member<Json>>)
    ensures CanonicalizeMembers(members) ==
            if forall m :: m in members ==> Serializable(m.value) then Some(PrintMembers(NormalMembers(members)))
            else None
  {
    if members != [] {
      CanonicalizePrintsNormal(members[0].value);
      MembersPrintNormal(members[1..]);
      assert members == [members[0]] + members[1..];
      assert NormalMembers(members)[1..] == NormalMembers(members[1..]);
    }
  }

  // ----- equal up to member order

  /** Two values are equal up to member order exactly when they have one normal form. */
  lemma {:induction false} SameIsNormal(a: Json, b: Json)
    requires Proper(a) && Proper(b)
    ensures Same(a, b) <==> Normal(a) == Normal(b)
  {
    hide Arrange, NormalMembers;
    match (a, b)
    case (Array(xs), Array(ys)) =>
      forall i | 0 <= i < |xs| && i < |ys|
        ensures Same(xs[i], ys[i]) <==> NormalAll(xs)[i] == NormalAll(ys)[i]
      {
        SameIsNormal(xs[i], ys[i]);
      }
    case (Object(ms), Object(ns)) =>
      forall m, n | m in ms && n in ns
        ensures Same(m.value, n.value) <==> Normal(m.value) == Normal(n.value)
      {
        SameIsNormal(m.value, n.value);
      }
      CoversSame(ms, ns);
      SameMembers(ms, ns);
    case _ =>
  }

  lemma CoversSame(ms: seq<Member<Json>>, ns: seq<Member<Json>>)
    requires forall m, n :: m in ms && n in ns ==> (Same(m.value, n.value) <==> Normal(m.value) == Normal(n.value))
    ensures Same(Object(ms), Object(ns)) <==> Covers(ms, ns) && Covers(ns, ms)
  {
    hide Normal;
  }

  function NormalMember(m: Member<Json>): Member<Json> {
    Member(m.key, Normal(m.value))
  }

  ghost predicate Counterpart(m: Member<Json>, ns: seq<Member<Json>>) {
    exists n :: n in ns && m.key == n.key && Normal(m.value) == Normal(n.value)
  }

  lemma CounterpartIn(m: Member<Json>, ns: seq<Member<Json>>)
    ensures Counterpart(m, ns) <==> NormalMember(m) in NormalMembers(ns)
  {
    hide Normal;
    var ys := NormalMembers(ns);
    if NormalMember(m) in ys {
      var i :| 0 <= i < |ys| && ys[i] == NormalMember(m);
      assert ns[i] in ns;
    }
    if Counterpart(m, ns) {
      var n :| n in ns && m.key == n.key && Normal(m.value) == Normal(n.value);
      var i :| 0 <= i < |ns| && ns[i] == n;
      assert ys[i] == NormalMember(m);
    }
  }

  ghost predicate Covers(ms: seq<Member<Json>>, ns: seq<Member<Json>>) {
    forall m :: m in ms ==> Counterpart(m, ns)
  }

  ghost predicate Included(xs: seq<Member<Json>>, ys: seq<Member<Json>>) {
    forall x :: x in xs ==> x in ys
  }

  lemma CoversMeans(ms: seq<Member<Json>>, ns: seq<Member<Json>>)
    ensures Covers(ms, ns) <==> Included(NormalMembers(ms), NormalMembers(ns))
  {
    hide Normal, Counterpart, NormalMember;
    var xs, ys := NormalMembers(ms), NormalMembers(ns);
    if Covers(ms, ns) {
      forall x | x in xs
        ensures x in ys
      {
        var i :| 0 <= i < |xs| && xs[i] == x;
        NormalAt(ms, i);
        assert ms[i] in ms;
        CounterpartIn(ms[i], ns);
      }
      assert Included(xs, ys);
    }
    if Included(xs, ys) {
      forall m | m in ms
        ensures Counterpart(m, ns)
      {
        var i :| 0 <= i < |ms| && ms[i] == m;
        NormalAt(ms, i);
        assert xs[i] in xs;
        CounterpartIn(m, ns);
      }
      assert Covers(ms, ns);
    }
  }

  lemma NormalAt(ms: seq<Member<Json>>, i: nat)
    requires i < |ms|
    ensures NormalMembers(ms)[i] == NormalMember(ms[i])
  {
  }

  lemma SameMembers(ms: seq<Member<Json>>, ns: seq<Member<Json>>)
    requires DistinctKeys(ms) && DistinctKeys(ns)
    ensures Covers(ms, ns) && Covers(ns, ms) <==> Arrange(NormalMembers(ms)) == Arrange(NormalMembers(ns))
  {
    hide Covers;
    CoversMeans(ms, ns);
    CoversMeans(ns, ms);
    var xs, ys := NormalMembers(ms), NormalMembers(ns);
    ArrangeHolds(xs);
    ArrangeHolds(ys);
    if Covers(ms, ns) && Covers(ns, ms) {
      ArrangeIsUnique(xs, ys);
    }
  }

  // ----- a parser for what the printer prints

  predicate IsDigit(c: Unit) {
    48 <= c <= 57
  }

  function ReadDigits(t: Text, acc: nat): (r: (nat, Text))
    ensures |r.1| <= |t|
  {
    if t != [] && IsDigit(t[0]) then ReadDigits(t[1..], 10 * acc + (t[0] as int - 48)) else (acc, t)
  }

  function HexValue(c: Unit): Option<int> {
    if IsDigit(c) then Some(c as int - 48)
    else if 97 <= c <= 102 then Some(c as int - 87)
    else if 65 <= c <= 70 then Some(c as int - 55)
    else None
  }

  /** The unit an escape stands for, from just behind its backslash. */
  function ReadEscape(t: Text): (r: Option<(Unit, Text)>)
    ensures r.Some? ==> |r.value.1| < |t|
  {
    if t == [] then None
    else if t[0] == QUOTE || t[0] == BACKSLASH || t[0] == SLASH then Some((t[0], t[1..]))
    else if t[0] == 98 then Some((8, t[1..]))
    else if t[0] == 116 then Some((9, t[1..]))
    else if t[0] == 110 then Some((10, t[1..]))
    else if t[0] == 102 then Some((12, t[1..]))
    else if t[0] == 114 then Some((13, t[1..]))
    else if t[0] == 117 && |t| > 4 then ReadHex(t[1], t[2], t[3], t[4], t[5..])
    else None
  }

  function ReadHex(a: Unit, b: Unit, c: Unit, d: Unit, rest: Text): (r: Option<(Unit, Text)>)
    ensures r.Some? ==> r.value.1 == rest
  {
    var p, q, r, s := HexValue(a), HexValue(b), HexValue(c), HexValue(d);
    if p.None? || q.None? || r.None? || s.None? then None
    else
      var n := 4096 * p.value + 256 * q.value + 16 * r.value + s.value;
      if 0 <= n < 0x1_0000 then Some((n as Unit, rest)) else None
  }

  /** A string from just behind its opening quote, up to and with its closing one. */
  function ReadString(t: Text): (r: Option<(Text, Text)>)
    ensures r.Some? ==> |r.value.1| < |t|
    decreases |t|
  {
    if t == [] then None
    else if t[0] == QUOTE then Some(([], t[1..]))
    else if t[0] == BACKSLASH then
      var e := ReadEscape(t[1..]);
      if e.None? then None else Behind(e.value.0, ReadString(e.value.1))
    else Behind(t[0], ReadString(t[1..]))
  }

  function Behind(c: Unit, r: Option<(Text, Text)>): Option<(Text, Text)> {
    if r.None? then None else Some(([c] + r.value.0, r.value.1))
  }

  function Parse(t: Text): (r: Option<(Json, Text)>)
    ensures r.Some? ==> |r.value.1| < |t|
    decreases |t|, 0
  {
    if t == [] then None
    else if t[0] == QUOTE then
      var s := ReadString(t[1..]);
      if s.None? then None else Some((Str(s.value.0), s.value.1))
    else if t[0] == OPEN_ARRAY then
      if |t| > 1 && t[1] == CLOSE_ARRAY then Some((Array([]), t[2..]))
      else
        var items := ParseItems(t[1..]);
        if items.None? then None else Some((Array(items.value.0), items.value.1))
    else if t[0] == OPEN_OBJECT then
      if |t| > 1 && t[1] == CLOSE_OBJECT then Some((Object([]), t[2..]))
      else
        var members := ParseMembers(t[1..]);
        if members.None? then None else Some((Object(members.value.0), members.value.1))
    else ParseScalar(t)
  }

  function ParseScalar(t: Text): (r: Option<(Json, Text)>)
    requires t != []
    ensures r.Some? ==> |r.value.1| < |t|
  {
    if NullText() <= t then Some((Null, t[4..]))
    else if TrueText() <= t then Some((Bool(true), t[4..]))
    else if FalseText() <= t then Some((Bool(false), t[5..]))
    else if t[0] == 45 && |t| > 1 then
      var d := ReadDigits(t[1..], 0);
      var n: int := d.0;
      Some((Number(-n), d.1))
    else if IsDigit(t[0]) then
      var d := ReadDigits(t[1..], t[0] as int - 48);
      Some((Number(d.0), d.1))
    else None
  }

  function ParseItems(t: Text): (r: Option<(seq<Json>, Text)>)
    ensures r.Some? ==> |r.value.1| < |t|
    decreases |t|, 1
  {
    var v := Parse(t);
    if v.None? || v.value.1 == [] then None
    else
      var rest := v.value.1;
      if rest[0] == CLOSE_ARRAY then Some(([v.value.0], rest[1..]))
      else if rest[0] != COMMA then None
      else
        var more := ParseItems(rest[1..]);
        if more.None? then None else Some(([v.value.0] + more.value.0, more.value.1))
  }

  function ParseMember(t: Text): (r: Option<(Member<Json>, Text)>)
    ensures r.Some? ==> |r.value.1| < |t|
    decreases |t|, 1
  {
    if t == [] || t[0] != QUOTE then None
    else
      var key := ReadString(t[1..]);
      if key.None? || key.value.1 == [] || key.value.1[0] != COLON then None
      else
        var v := Parse(key.value.1[1..]);
        if v.None? then None else Some((Member(key.value.0, v.value.0), v.value.1))
  }

  function ParseMembers(t: Text): (r: Option<(seq<Member<Json>>, Text)>)
    ensures r.Some? ==> |r.value.1| < |t|
    decreases |t|, 2
  {
    var m := ParseMember(t);
    if m.None? || m.value.1 == [] then None
    else
      var rest := m.value.1;
      if rest[0] == CLOSE_OBJECT then Some(([m.value.0], rest[1..]))
      else if rest[0] != COMMA then None
      else
        var more := ParseMembers(rest[1..]);
        if more.None? then None else Some(([m.value.0] + more.value.0, more.value.1))
  }

  // ----- the parser undoes the printer

  lemma {:induction false} DigitsBack(n: nat, rest: Text)
    ensures ReadDigits(Digits(n) + rest, 0) == ReadDigits(rest, n)
    ensures |Digits(n)| > 0 && IsDigit(Digits(n)[0])
  {
    if n < 10 {
      assert (Digits(n) + rest)[1..] == rest;
    } else {
      var last := [(48 + n % 10) as Unit];
      DigitsBack(n / 10, last + rest);
      DigitsBack(n / 10, []);
      assert Digits(n) + rest == Digits(n / 10) + (last + rest);
      assert (last + rest)[1..] == rest;
    }
  }

  lemma HexBack(c: Unit, rest: Text)
    ensures ReadEscape(UnicodeEscape(c)[1..] + rest) == Some((c, rest))
  {
    var n := c as int;
    var e := UnicodeEscape(c)[1..];
    assert e == [117, HexDigit(n / 4096), HexDigit(n / 256 % 16), HexDigit(n / 16 % 16), HexDigit(n % 16)];
    assert (e + rest)[5..] == rest;
    FourDigits(n);
    HexDigitBack(n / 4096);
    HexDigitBack(n / 256 % 16);
    HexDigitBack(n / 16 % 16);
    HexDigitBack(n % 16);
  }

  lemma HexDigitBack(d: int)
    requires 0 <= d < 16
    ensures HexValue(HexDigit(d)) == Some(d)
  {
  }

  lemma FourDigits(n: int)
    requires 0 <= n < 0x1_0000
    ensures 4096 * (n / 4096) + 256 * (n / 256 % 16) + 16 * (n / 16 % 16) + n % 16 == n && n / 4096 < 16
  {
  }

  lemma ShortBack(c: Unit, t: Text)
    requires |EscapeUnit(c)| == 2
    ensures EscapeUnit(c)[0] == BACKSLASH && ReadEscape(EscapeUnit(c)[1..] + t) == Some((c, t))
  {
    assert (EscapeUnit(c)[1..] + t)[1..] == t;
  }

  lemma UnitKinds(c: Unit)
    ensures |EscapeUnit(c)| == 1 ==> EscapeUnit(c) == [c] && c != QUOTE && c != BACKSLASH
    ensures |EscapeUnit(c)| == 1 || |EscapeUnit(c)| == 2 || EscapeUnit(c) == UnicodeEscape(c)
  {
  }

  lemma ReadsEscape(e: Text, c: Unit, t: Text)
    requires e != [] && e[0] == BACKSLASH && ReadEscape(e[1..] + t) == Some((c, t))
    ensures ReadString(e + t) == Behind(c, ReadString(t))
  {
    hide ReadEscape;
    assert (e + t)[1..] == e[1..] + t;
  }

  lemma UnitBack(c: Unit, t: Text)
    ensures ReadString(EscapeUnit(c) + t) == Behind(c, ReadString(t))
  {
    hide EscapeUnit, ReadString, ReadEscape, Behind;
    UnitKinds(c);
    if |EscapeUnit(c)| == 1 {
      RawBack(c, t);
    } else if |EscapeUnit(c)| == 2 {
      ShortBack(c, t);
      ReadsEscape(EscapeUnit(c), c, t);
    } else {
      HexBack(c, t);
      ReadsEscape(UnicodeEscape(c), c, t);
    }
  }

  lemma RawBack(c: Unit, t: Text)
    requires c != QUOTE && c != BACKSLASH
    ensures ReadString([c] + t) == Behind(c, ReadString(t))
  {
    assert ([c] + t)[1..] == t;
  }

  lemma {:induction false} StringBack(s: Text, rest: Text)
    ensures ReadString(Escape(s) + [QUOTE] + rest) == Some((s, rest))
    decreases |s|
  {
    hide ReadString, EscapeUnit, Escape;
    EscapeStep(s);
    if s == [] {
      ClosingQuote(rest);
      assert Escape(s) + [QUOTE] + rest == [QUOTE] + rest;
    } else if StartsWithPair(s) {
      StringBack(s[2..], rest);
      var t := Escape(s[2..]) + [QUOTE] + rest;
      RawBack(s[1], t);
      RawBack(s[0], [s[1]] + t);
      assert Escape(s) + [QUOTE] + rest == [s[0]] + ([s[1]] + t);
      assert s == [s[0]] + ([s[1]] + s[2..]);
    } else {
      StringBack(s[1..], rest);
      var t := Escape(s[1..]) + [QUOTE] + rest;
      UnitBack(s[0], t);
      assert Escape(s) + [QUOTE] + rest == EscapeUnit(s[0]) + t;
      assert s == [s[0]] + s[1..];
    }
  }

  lemma EscapeStep(s: Text)
    ensures Escape(s) ==
            if s == [] then [] else if StartsWithPair(s) then [s[0], s[1]] + Escape(s[2..])
            else EscapeUnit(s[0]) + Escape(s[1..])
  {
  }

  lemma ClosingQuote(rest: Text)
    ensures ReadString([QUOTE] + rest) == Some(([], rest))
  {
    assert ([QUOTE] + rest)[1..] == rest;
  }

  ghost predicate NoDigitAhead(rest: Text) {
    rest == [] || !IsDigit(rest[0])
  }

  lemma DigitsEnd(n: nat, rest: Text)
    requires NoDigitAhead(rest)
    ensures ReadDigits(rest, n) == (n, rest)
  {
  }

  lemma NumberBack(n: int, rest: Text)
    requires NoDigitAhead(rest)
    ensures Parse(Decimal(n) + rest) == Some((Number(n), rest))
  {
    var m := if n < 0 then -n else n;
    DigitsBack(m, rest);
    DigitsEnd(m, rest);
    var t := Digits(m) + rest;
    assert t[0] == Digits(m)[0];
    assert ReadDigits(t, 0) == ReadDigits(t[1..], t[0] as int - 48);
    if n < 0 {
      assert Decimal(n) + rest == [45] + t && ([45] + t)[1..] == t;
    }
  }

  lemma WordBack(v: Json, rest: Text)
    requires v.Null? || v.Bool?
    ensures Parse(Print(v) + rest) == Some((v, rest))
  {
    var w := Print(v);
    assert w <= w + rest && (w + rest)[|w|..] == rest;
    assert w == NullText() || w == TrueText() || w == FalseText();
    assert (w + rest)[0] == w[0];
    if NullText() <= w + rest { assert NullText()[0] == w[0]; }
    if TrueText() <= w + rest { assert TrueText()[0] == w[0]; }
    if FalseText() <= w + rest { assert FalseText()[0] == w[0]; }
  }

  lemma PrintStarts(v: Json)
    requires Serializable(v)
    ensures Print(v) != [] && Print(v)[0] != CLOSE_ARRAY
  {
    if v.Number? {
      DigitsBack(if v.n < 0 then -v.n else v.n, []);
    }
  }

  lemma QuotedBack(s: Text, rest: Text)
    ensures (Quoted(s) + rest)[0] == QUOTE && ReadString((Quoted(s) + rest)[1..]) == Some((s, rest))
  {
    StringBack(s, rest);
    assert (Quoted(s) + rest)[1..] == Escape(s) + [QUOTE] + rest;
  }

  /** Parsing what was printed gives the value back and leaves what follows it. */
  lemma {:induction false} PrintBack(v: Json, rest: Text)
    requires Serializable(v) && NoDigitAhead(rest)
    ensures Parse(Print(v) + rest) == Some((v, rest))
    decreases v, 0
  {
    hide ReadString, ReadDigits, ParseScalar, ParseItems, ParseMembers, Decimal, Escape, Join;
    match v
    case Null => WordBack(v, rest);
    case Bool(_) => WordBack(v, rest);
    case Number(n) => NumberBack(n, rest);
    case Str(s) => QuotedBack(s, rest);
    case Array(items) => ArrayBack(items, rest);
    case Object(members) => ObjectBack(members, rest);
  }

  lemma {:induction false} ArrayBack(items: seq<Json>, rest: Text)
    requires forall item :: item in items ==> Serializable(item)
    ensures Parse(Bracketed(PrintAll(items)) + rest) == Some((Array(items), rest))
    decreases items, 2
  {
    hide ParseScalar, ParseItems, ParseMembers, Serializable, Print;
    var t := Bracketed(PrintAll(items)) + rest;
    if items == [] {
      assert t == [OPEN_ARRAY, CLOSE_ARRAY] + rest;
    } else {
      ItemsBack(items, rest);
      var inner := Join(PrintAll(items), COMMA) + [CLOSE_ARRAY] + rest;
      assert t == [OPEN_ARRAY] + inner;
      PrintStarts(items[0]);
      assert t[1] == Print(items[0])[0];
    }
  }

  lemma {:induction false} ItemsBack(items: seq<Json>, rest: Text)
    requires items != [] && forall item :: item in items ==> Serializable(item)
    ensures ParseItems(Join(PrintAll(items), COMMA) + [CLOSE_ARRAY] + rest) == Some((items, rest))
    decreases items, 1
  {
    hide Parse, Serializable, Print;
    var first := Print(items[0]);
    if |items| == 1 {
      PrintBack(items[0], [CLOSE_ARRAY] + rest);
      assert Join(PrintAll(items), COMMA) + [CLOSE_ARRAY] + rest == first + ([CLOSE_ARRAY] + rest);
      assert items == [items[0]];
    } else {
      var tail := Join(PrintAll(items[1..]), COMMA) + [CLOSE_ARRAY] + rest;
      ItemsBack(items[1..], rest);
      PrintBack(items[0], [COMMA] + tail);
      assert PrintAll(items)[1..] == PrintAll(items[1..]);
      assert Join(PrintAll(items), COMMA) + [CLOSE_ARRAY] + rest == first + ([COMMA] + tail);
      assert items == [items[0]] + items[1..];
    }
  }

  function PartOf(m: Member<Json>): Text {
    Quoted(m.key) + [COLON] + Print(m.value)
  }

  lemma {:induction false} MemberBack(m: Member<Json>, rest: Text)
    requires Serializable(m.value) && NoDigitAhead(rest)
    ensures ParseMember(PartOf(m) + rest) == Some((m, rest))
    decreases m, 0
  {
    hide Parse, Quoted, Serializable, Print;
    PrintBack(m.value, rest);
    QuotedBack(m.key, [COLON] + (Print(m.value) + rest));
    assert PartOf(m) + rest == Quoted(m.key) + ([COLON] + (Print(m.value) + rest));
    assert ([COLON] + (Print(m.value) + rest))[1..] == Print(m.value) + rest;
  }

  lemma {:induction false} ObjectBack(members: seq<Member<Json>>, rest: Text)
    requires forall m :: m in members ==> Serializable(m.value)
    ensures Parse(Braced(PrintMembers(members)) + rest) == Some((Object(members), rest))
    decreases members, 2
  {
    hide ParseScalar, ParseItems, ParseMembers, Serializable, Print;
    var t := Braced(PrintMembers(members)) + rest;
    if members == [] {
      assert t == [OPEN_OBJECT, CLOSE_OBJECT] + rest;
    } else {
      MembersBack(members, rest);
      var parts := Parts(PrintMembers(members));
      assert t == [OPEN_OBJECT] + (Join(parts, COMMA) + [CLOSE_OBJECT] + rest);
      assert parts[0][0] == QUOTE && t[1] == parts[0][0];
    }
  }

  lemma {:induction false} MembersBack(members: seq<Member<Json>>, rest: Text)
    requires members != [] && forall m :: m in members ==> Serializable(m.value)
    ensures ParseMembers(Join(Parts(PrintMembers(members)), COMMA) + [CLOSE_OBJECT] + rest) == Some((members, rest))
    decreases members, 1
  {
    hide ParseMember, Serializable, Print, Quoted;
    var parts := Parts(PrintMembers(members));
    var first := PartOf(members[0]);
    assert parts[0] == first;
    if |members| == 1 {
      MemberBack(members[0], [CLOSE_OBJECT] + rest);
      assert Join(parts, COMMA) + [CLOSE_OBJECT] + rest == first + ([CLOSE_OBJECT] + rest);
      assert members == [members[0]];
    } else {
      var tail := Join(Parts(PrintMembers(members[1..])), COMMA) + [CLOSE_OBJECT] + rest;
      MembersBack(members[1..], rest);
      MemberBack(members[0], [COMMA] + tail);
      assert PrintMembers(members)[1..] == PrintMembers(members[1..]);
      assert parts[1..] == Parts(PrintMembers(members[1..]));
      assert Join(parts, COMMA) + [CLOSE_OBJECT] + rest == first + ([COMMA] + tail);
      assert members == [members[0]] + members[1..];
    }
  }

  lemma {:induction false} NormalSerializes(v: Json)
    requires Serializable(v)
    ensures Serializable(Normal(v))
  {
    match v
    case Array(items) =>
      forall item | item in NormalAll(items)
        ensures Serializable(item)
      {
        var i :| 0 <= i < |items| && NormalAll(items)[i] == item;
        NormalSerializes(items[i]);
      }
    case Object(members) =>
      forall m | m in Arrange(NormalMembers(members))
        ensures Serializable(m.value)
      {
        assert m in NormalMembers(members);
        var i :| 0 <= i < |members| && NormalMembers(members)[i] == m;
        assert members[i] in members;
        NormalSerializes(members[i].value);
      }
    case _ =>
  }

  /** The canonical text parses back to the value with its members sorted. */
  lemma CanonicalParsesBack(v: Json)
    requires Serializable(v)
    ensures Canonicalize(v).Some? && Parse(Canonicalize(v).value) == Some((Normal(v), []))
  {
    CanonicalizePrintsNormal(v);
    NormalSerializes(v);
    PrintBack(Normal(v), []);
    assert Print(Normal(v)) + [] == Print(Normal(v));
  }

  /** The canonical text is a faithful key: equal exactly for values equal up to member order at every depth. */
  lemma FaithfulKey(a: Json, b: Json)
    requires Proper(a) && Proper(b) && Serializable(a) && Serializable(b)
    ensures Canonicalize(a) == Canonicalize(b) <==> Same(a, b)
  {
    hide Canonicalize, Normal, Same, Proper, Serializable, Parse;
    CanonicalParsesBack(a);
    CanonicalParsesBack(b);
    CanonicalizePrintsNormal(a);
    CanonicalizePrintsNormal(b);
    SameIsNormal(a, b);
  }

  // ----- which of the texts of a string is written

  /** No control character, and no surrogate that is not half of a pair. */
  predicate Clean(t: Text) {
    if t == [] then true
    else if t[0] < 32 then false
    else if StartsWithPair(t) then Clean(t[2..])
    else !HighSurrogate(t[0]) && !LowSurrogate(t[0]) && Clean(t[1..])
  }

  lemma {:induction false} CleanBehind(u: Text, t: Text)
    requires forall i :: 0 <= i < |u| ==> 32 <= u[i] < 0xD800
    ensures Clean(u + t) <==> Clean(t)
  {
    if u == [] {
      assert u + t == t;
    } else {
      CleanBehind(u[1..], t);
      assert (u + t)[1..] == u[1..] + t;
    }
  }

  lemma EscapedIsPlain(c: Unit)
    ensures |EscapeUnit(c)| > 1 ==> forall i :: 0 <= i < |EscapeUnit(c)| ==> 32 <= EscapeUnit(c)[i] < 0xD800
    ensures |EscapeUnit(c)| <= 1 ==> EscapeUnit(c) == [c] && c >= 32 && !HighSurrogate(c) && !LowSurrogate(c)
  {
  }

  /** What is written between the quotes is clean. */
  lemma {:induction false} EscapeIsClean(s: Text)
    ensures Clean(Escape(s))
    decreases |s|
  {
    hide EscapeUnit, Escape;
    EscapeStep(s);
    if StartsWithPair(s) {
      EscapeIsClean(s[2..]);
      assert ([s[0], s[1]] + Escape(s[2..]))[2..] == Escape(s[2..]);
    } else if s != [] {
      EscapeIsClean(s[1..]);
      EscapedIsPlain(s[0]);
      if |EscapeUnit(s[0])| > 1 {
        CleanBehind(EscapeUnit(s[0]), Escape(s[1..]));
      } else {
        assert ([s[0]] + Escape(s[1..]))[1..] == Escape(s[1..]);
      }
    }
  }

  lemma UnitLengths(c: Unit)
    ensures 1 <= |EscapeUnit(c)| <= 6
    ensures c == QUOTE || c == BACKSLASH || c == SLASH || c == 8 || c == 9 || c == 10 || c == 12 || c == 13 ==>
              |EscapeUnit(c)| <= 2
  {
  }

  /** A unit in front costs at most its own escape: pairing it with what follows only saves. */
  lemma EscapeBehind(c: Unit, s: Text)
    ensures |Escape([c] + s)| <= |EscapeUnit(c)| + |Escape(s)|
  {
    hide EscapeUnit, Escape;
    EscapeStep([c] + s);
    assert ([c] + s)[1..] == s;
    if StartsWithPair([c] + s) {
      assert ([c] + s)[2..] == s[1..];
      EscapeStep(s);
      LoneLength(c);
      UnitLengths(s[0]);
      assert !StartsWithPair(s);
    }
  }

  lemma LoneLength(c: Unit)
    requires HighSurrogate(c)
    ensures |EscapeUnit(c)| == 6
  {
  }

  lemma EscapeOfPair(h: Unit, l: Unit, s: Text)
    requires HighSurrogate(h) && LowSurrogate(l)
    ensures Escape([h, l] + s) == [h, l] + Escape(s)
  {
    EscapeStep([h, l] + s);
    assert ([h, l] + s)[2..] == s;
  }

  /** How long an escape is that stands for a unit, and what is left behind it. */
  lemma EscapeRead(t: Text)
    requires ReadEscape(t).Some?
    ensures var (c, rest) := ReadEscape(t).value;
      var used := |t| - |rest|;
      && 1 <= used <= |t| && rest == t[used..] && |EscapeUnit(c)| <= used + 1
      && forall i :: 0 <= i < used ==> t[i] < 0xD800
  {
    var (c, rest) := ReadEscape(t).value;
    UnitLengths(c);
    hide EscapeUnit;
  }

  lemma ReadStringStep(t: Text)
    requires t != []
    ensures ReadString(t) ==
            if t[0] == QUOTE then Some(([], t[1..]))
            else if t[0] == BACKSLASH then
              if ReadEscape(t[1..]).None? then None
              else Behind(ReadEscape(t[1..]).value.0, ReadString(ReadEscape(t[1..]).value.1))
            else Behind(t[0], ReadString(t[1..]))
  {
  }

  lemma CleanSuffix(t: Text, n: nat)
    requires Clean(t) && n <= |t| && forall i :: 0 <= i < n ==> t[i] < 0xD800
    ensures Clean(t[n..])
  {
    CleanUnits(t, n);
    CleanBehind(t[..n], t[n..]);
    assert t == t[..n] + t[n..];
  }

  lemma {:induction false} CleanUnits(t: Text, n: nat)
    requires Clean(t) && n <= |t| && forall i :: 0 <= i < n ==> t[i] < 0xD800
    ensures forall i :: 0 <= i < n ==> 32 <= t[i]
  {
    if n > 0 {
      CleanUnits(t[1..], n - 1);
      assert forall i :: 1 <= i < n ==> t[i] == t[1..][i - 1];
    }
  }

  /** Of all the clean texts that read as a string, the one written is the shortest. */
  lemma {:induction false} EscapeIsShortest(t: Text, s: Text)
    requires Clean(t) && ReadString(t + [QUOTE]) == Some((s, []))
    ensures |Escape(s)| <= |t|
    decreases |t|
  {
    hide Escape, EscapeUnit, ReadString, ReadEscape;
    var q := t + [QUOTE];
    ReadStringStep(q);
    EscapeStep([]);
    if t != [] && t[0] != QUOTE {
      if t[0] == BACKSLASH {
        ShortestBehindEscape(t, s);
      } else if StartsWithPair(t) {
        assert q[1..] == t[1..] + [QUOTE] && q[1..][1..] == t[2..] + [QUOTE];
        ReadStringStep(q[1..]);
        var rest := ReadString(t[2..] + [QUOTE]).value.0;
        EscapeIsShortest(t[2..], rest);
        EscapeOfPair(t[0], t[1], rest);
        assert s == [t[0], t[1]] + rest;
      } else {
        assert q[1..] == t[1..] + [QUOTE];
        var rest := ReadString(t[1..] + [QUOTE]).value.0;
        EscapeIsShortest(t[1..], rest);
        EscapeBehind(t[0], rest);
        PlainLength(t[0]);
      }
    }
  }

  lemma PlainLength(c: Unit)
    requires c >= 32 && c != QUOTE && c != BACKSLASH && !HighSurrogate(c) && !LowSurrogate(c)
    ensures |EscapeUnit(c)| == 1
  {
  }

  lemma {:induction false} ShortestBehindEscape(t: Text, s: Text)
    requires t != [] && t[0] == BACKSLASH && Clean(t) && ReadString(t + [QUOTE]) == Some((s, []))
    ensures |Escape(s)| <= |t|
    decreases |t|, 0
  {
    hide Escape, EscapeUnit, ReadString, ReadEscape;
    var q := t + [QUOTE];
    assert q[1..] == t[1..] + [QUOTE];
    ReadStringStep(q);
    EscapeRead(q[1..]);
    var (c, rest) := ReadEscape(q[1..]).value;
    var used := |q| - 1 - |rest|;
    EscapeReadsOn(t, c, rest);
    var tail := t[1 + used..];
    assert rest == tail + [QUOTE];
    assert forall i :: 1 <= i < 1 + used ==> t[i] == q[1..][i - 1];
    CleanSuffix(t, 1 + used);
    var behind := ReadString(rest).value.0;
    EscapeIsShortest(tail, behind);
    EscapeBehind(c, behind);
  }

  /** The escape ends before the closing quote, since a string still has to be read behind it. */
  lemma EscapeReadsOn(t: Text, c: Unit, rest: Text)
    requires t != [] && ReadEscape((t + [QUOTE])[1..]) == Some((c, rest)) && ReadString(rest).Some?
    ensures |rest| >= 1
  {
  }

  /** The hexadecimal digits of an escape are lower case, so it has one spelling. */
  lemma EscapesAreLowerCase(c: Unit)
    ensures UnicodeEscape(c)[..2] == [BACKSLASH, 117]
    ensures forall i :: 2 <= i < 6 ==> IsDigit(UnicodeEscape(c)[i]) || 97 <= UnicodeEscape(c)[i] <= 102
  {
    var n := c as int;
    assert forall d: int :: 0 <= d < 16 ==> IsDigit(HexDigit(d)) || 97 <= HexDigit(d) <= 102;
    assert n / 4096 < 16;
  }

  /** A number has no leading zero, and a sign only below zero. */
  lemma {:induction false} DigitsAreShortest(n: nat)
    ensures forall i :: 0 <= i < |Digits(n)| ==> IsDigit(Digits(n)[i])
    ensures |Digits(n)| > 1 ==> Digits(n)[0] != 48
    ensures n > 0 ==> Digits(n)[0] != 48
    ensures Decimal(n) == Digits(n) && (n > 0 ==> Decimal(0 - n) == [45] + Digits(n))
  {
    if n >= 10 {
      DigitsAreShortest(n / 10);
    }
  }

  // ----- the schema hash

  /** inputSchemaHash: the empty text for null and for what cannot be serialised. */
  function InputSchemaHash(hash: Text -> Text, schema: Json): Text {
    var canonical := Canonicalize(schema);
    if schema.Null? || canonical.None? then [] else hash(canonical.value)
  }

  /** The hash is left out for null and for what cannot be serialised, and for nothing else. */
  lemma HashOmittedExactly(hash: Text -> Text, schema: Json)
    requires forall t :: hash(t) != []
    ensures InputSchemaHash(hash, schema) == [] <==> schema == Null || !Serializable(schema)
  {
    hide Normal, Print;
    CanonicalizePrintsNormal(schema);
  }

  /** Equal hashes mean one schema up to member order, or two different texts with one hash. */
  lemma NoPhantomDrift(hash: Text -> Text, a: Json, b: Json)
    requires Proper(a) && Proper(b) && InputSchemaHash(hash, a) != [] && InputSchemaHash(hash, b) != []
    ensures Same(a, b) ==> InputSchemaHash(hash, a) == InputSchemaHash(hash, b)
    ensures InputSchemaHash(hash, a) == InputSchemaHash(hash, b) && !Same(a, b) ==>
              var s, t := Canonicalize(a).value, Canonicalize(b).value;
              s != t && hash(s) == hash(t)
  {
    CanonicalizePrintsNormal(a);
    CanonicalizePrintsNormal(b);
    FaithfulKey(a, b);
  }

  // ----- one schema and its text

  /** b, a list, comes before a, a line end. */
  function SampleSchema(): Json {
    Object([Member([98], Array([Bool(true), Null])), Member([97], Str([10]))])
  }

  lemma AllStep(x: Json, xs: seq<Json>)
    ensures CanonicalizeAll([]) == Some([])
    ensures Canonicalize(x).Some? && CanonicalizeAll(xs).Some? ==>
              CanonicalizeAll([x] + xs) == Some([Canonicalize(x).value] + CanonicalizeAll(xs).value)
  {
    assert ([x] + xs)[1..] == xs;
  }

  lemma MembersStep(m: Member<Json>, ms: seq<Member<Json>>)
    ensures CanonicalizeMembers([]) == Some([])
    ensures Canonicalize(m.value).Some? && CanonicalizeMembers(ms).Some? ==>
              CanonicalizeMembers([m] + ms) ==
              Some([Member(m.key, Canonicalize(m.value).value)] + CanonicalizeMembers(ms).value)
  {
    assert ([m] + ms)[1..] == ms;
  }

  lemma AsciiConcat(a: string, b: string)
    ensures Ascii(a + b) == Ascii(a) + Ascii(b)
  {
  }

  lemma SampleList()
    ensures Canonicalize(Array([Bool(true), Null])) == Some(Ascii("[true,null]"))
  {
    var items := [Bool(true), Null];
    AllStep(Null, []);
    AllStep(Bool(true), [Null]);
    assert [Null] + [] == [Null] && [Bool(true)] + [Null] == items;
    assert [TrueText()] + ([NullText()] + []) == [TrueText(), NullText()];
    assert [TrueText(), NullText()][1..] == [NullText()];
    assert Join([TrueText(), NullText()], COMMA) == TrueText() + [COMMA] + NullText();
    assert Bracketed([TrueText(), NullText()]) == Ascii("[true,null]");
  }

  lemma SampleString()
    ensures Canonicalize(Str([10])) == Some(Ascii("\"\\n\""))
  {
    assert [10 as Unit][1..] == [] && Escape([10]) == EscapeUnit(10) + Escape([]);
    assert Quoted([10]) == Ascii("\"\\n\"");
  }

  function AsciiUnit(c: char): Unit {
    (c as int % 128) as Unit
  }

  lemma AsciiTwo(s: string)
    requires |s| == 2
    ensures Ascii(s) == [AsciiUnit(s[0]), AsciiUnit(s[1])]
  {
  }

  lemma AsciiSix(s: string)
    requires |s| == 6
    ensures Ascii(s) == [AsciiUnit(s[0]), AsciiUnit(s[1]), AsciiUnit(s[2])]
                      + [AsciiUnit(s[3]), AsciiUnit(s[4]), AsciiUnit(s[5])]
  {
  }

  /** The seven short escapes; the others have four digits, and a whole pair has none. */
  lemma EscapesSpelled()
    ensures EscapeUnit(34) == Ascii("\\\"") && EscapeUnit(92) == Ascii("\\\\") && EscapeUnit(8) == Ascii("\\b")
    ensures EscapeUnit(9) == Ascii("\\t") && EscapeUnit(10) == Ascii("\\n") && EscapeUnit(12) == Ascii("\\f")
    ensures EscapeUnit(13) == Ascii("\\r") && EscapeUnit(0x1F) == Ascii("\\u001f")
    ensures EscapeUnit(0xDA3C) == Ascii("\\uda3c") && Escape([0xD83D, 0xDE00]) == [0xD83D, 0xDE00]
  {
    hide EscapeUnit;
    ShortIs(34, "\\\"");
    ShortIs(92, "\\\\");
    ShortIs(8, "\\b");
    ShortIs(9, "\\t");
    ShortIs(10, "\\n");
    ShortIs(12, "\\f");
    ShortIs(13, "\\r");
    LongSpelled();
    WholePair();
  }

  lemma ShortIs(c: Unit, s: string)
    requires |s| == 2 && s[0] == '\\'
    requires (c == 34 && s[1] == '"') || (c == 92 && s[1] == '\\') || (c == 8 && s[1] == 'b') || (c == 9 && s[1] == 't')
          || (c == 10 && s[1] == 'n') || (c == 12 && s[1] == 'f') || (c == 13 && s[1] == 'r')
    ensures EscapeUnit(c) == Ascii(s)
  {
    AsciiTwo(s);
    hide Ascii;
  }

  lemma LongSpelled()
    ensures EscapeUnit(0x1F) == Ascii("\\u001f") && EscapeUnit(0xDA3C) == Ascii("\\uda3c")
  {
    AsciiSix("\\u001f");
    AsciiSix("\\uda3c");
    hide Ascii;
  }

  lemma WholePair()
    ensures Escape([0xD83D, 0xDE00]) == [0xD83D, 0xDE00]
  {
    var pair: Text := [0xD83D, 0xDE00];
    assert pair[2..] == [] && Escape(pair) == pair[..2] + Escape([]);
  }

  /** Digits from the most significant down, behind the sign. */
  lemma NumbersSpelled()
    ensures Canonicalize(Number(-1203)) == Some(Ascii("-1203")) && Canonicalize(Number(0)) == Some(Ascii("0"))
    ensures Canonicalize(Bool(false)) == Some(Ascii("false"))
  {
    DigitsStep(1203);
    DigitsStep(120);
    DigitsStep(12);
    DigitsStep(1);
    DigitsStep(0);
    hide Digits;
    assert Decimal(-1203) == [45] + Digits(1203);
    assert Decimal(-1203) == Ascii("-1203");
    assert Decimal(0) == Ascii("0");
    assert FalseText() == Ascii("false");
  }

  lemma DigitsStep(n: nat)
    ensures Digits(n) == if n < 10 then [(48 + n) as Unit] else Digits(n / 10) + [(48 + n % 10) as Unit]
  {
  }

  lemma SampleKeys<T>(x: T, y: T)
    ensures Arrange([Member([98], x), Member([97], y)]) == [Member([97], y), Member([98], x)]
  {
    var ms := [Member([98], x), Member([97], y)];
    var a: Text, b: Text := [97], [98];
    assert ms[1..] == [Member(a, y)] && [Member(a, y)][1..] == [];
    assert Keys([Member(a, y)]) == [a] && Keys(ms) == [b] + [a] == [b, a];
    assert [b, a][1..] == [a] && [a][1..] == [] && SortKeys([a]) == InsertKey([], a) == [a];
    assert Before(a, b) && InsertKey([a], b) == [a] + InsertKey([], b) == [a, b];
    assert SortKeys([b, a]) == [a, b] && [a, b][1..] == [b] && [b][1..] == [];
    assert Find(ms, b) == x && Find(ms, a) == Find(ms[1..], a) == y;
    assert Pick(ms, [b]) == [Member(b, x)];
  }

  /** The text of a schema, to the last character: no white space, members sorted, the short escape. */
  lemma SampleText()
    ensures Canonicalize(SampleSchema()) == Some(Ascii("{\"a\":\"\\n\",\"b\":[true,null]}"))
  {
    hide Arrange, Quoted, Escape, EscapeUnit;
    SampleList();
    SampleString();
    var l, s := Ascii("[true,null]"), Ascii("\"\\n\"");
    var ms := [Member([98], Array([Bool(true), Null])), Member([97], Str([10]))];
    MembersStep(ms[1], []);
    MembersStep(ms[0], [ms[1]]);
    assert [ms[1]] + [] == [ms[1]] && [ms[0]] + [ms[1]] == ms;
    assert [Member([98], l)] + ([Member([97], s)] + []) == [Member([98], l), Member([97], s)];
    SampleKeys(l, s);
    SampleParts(l, s);
  }

  lemma QuotedKey(c: Unit)
    requires 97 <= c <= 98
    ensures Quoted([c]) == [QUOTE, c, QUOTE]
  {
    assert [c][1..] == [] && Escape([c]) == EscapeUnit(c) + Escape([]);
  }

  lemma SampleParts(l: Text, s: Text)
    requires l == Ascii("[true,null]") && s == Ascii("\"\\n\"")
    ensures Braced([Member([97], s), Member([98], l)]) == Ascii("{\"a\":\"\\n\",\"b\":[true,null]}")
  {
    hide Quoted;
    QuotedKey(97);
    QuotedKey(98);
    var ms := [Member([97], s), Member([98], l)];
    var p, q := [QUOTE, 97, QUOTE, COLON] + s, [QUOTE, 98, QUOTE, COLON] + l;
    assert ms[1..] == [Member([98], l)] && ms[1..][1..] == [];
    assert Quoted([97]) + [COLON] + s == p && Quoted([98]) + [COLON] + l == q;
    assert Parts(ms[1..]) == [q] && Parts(ms) == [p, q];
    assert [p, q][1..] == [q] && Join([p, q], COMMA) == p + [COMMA] + q;
    assert Braced(ms) == [OPEN_OBJECT] + (p + [COMMA] + q) + [CLOSE_OBJECT];
    SampleSpelling(l, s);
  }

  lemma SampleSpelling(l: Text, s: Text)
    requires l == Ascii("[true,null]") && s == Ascii("\"\\n\"")
    ensures [OPEN_OBJECT] + (([QUOTE, 97, QUOTE, COLON] + s) + [COMMA] + ([QUOTE, 98, QUOTE, COLON] + l))
              + [CLOSE_OBJECT] ==
            Ascii("{\"a\":\"\\n\",\"b\":[true,null]}")
  {
    hide Ascii;
    var a, b, c := "{\"a\":", ",\"b\":", "}";
    var x, y := "\"\\n\"", "[true,null]";
    SampleEnds();
    AsciiConcat(a, x);
    AsciiConcat(a + x, b);
    AsciiConcat(a + x + b, y);
    AsciiConcat(a + x + b + y, c);
    SampleWhole();
    Regroup([OPEN_OBJECT], [QUOTE, 97, QUOTE, COLON], s, [COMMA], [QUOTE, 98, QUOTE, COLON], l, [CLOSE_OBJECT]);
  }

  lemma SampleEnds()
    ensures Ascii("{\"a\":") == [OPEN_OBJECT] + [QUOTE, 97, QUOTE, COLON] && Ascii("}") == [CLOSE_OBJECT]
    ensures Ascii(",\"b\":") == [COMMA] + [QUOTE, 98, QUOTE, COLON]
  {
  }

  lemma SampleWhole()
    ensures "{\"a\":" + "\"\\n\"" + ",\"b\":" + "[true,null]" + "}" == "{\"a\":\"\\n\",\"b\":[true,null]}"
  {
  }

  lemma Regroup(a: Text, b: Text, c: Text, d: Text, e: Text, f: Text, g: Text)
    ensures a + ((b + c) + d + (e + f)) + g == (a + b) + c + (d + e) + f + g
  {
  }
}
