/** JavaScript strings: sequences of 16-bit code units, surrogates included. */
module CodeUnits {
  newtype Unit = x: int | 0 <= x < 0x1_0000

  type Text = seq<Unit>

  const LF: Unit := 10
  const CR: Unit := 13
  const SPACE: Unit := 32
  const QUOTE: Unit := 34
  const COMMA: Unit := 44
  const COLON: Unit := 58
  const BACKSLASH: Unit := 92

  /** A text of ASCII characters. */
  function Ascii(s: string): (t: Text)
    ensures |t| == |s| && forall i :: 0 <= i < |s| ==> t[i] as int == s[i] as int % 128
  {
    seq(|s|, i requires 0 <= i < |s| => (s[i] as int % 128) as Unit)
  }

  predicate StartsWith(s: Text, prefix: Text) {
    prefix <= s
  }

  function Join(parts: seq<Text>, separator: Unit): Text {
    if parts == [] then []
    else if |parts| == 1 then parts[0]
    else parts[0] + [separator] + Join(parts[1..], separator)
  }

  /** What String.prototype.trim removes: white space and line terminators. */
  predicate IsSpace(c: Unit) {
    || 9 <= c <= 13 || c == 32 || c == 0xA0 || c == 0x1680 || 0x2000 <= c <= 0x200A
    || c == 0x2028 || c == 0x2029 || c == 0x202F || c == 0x205F || c == 0x3000 || c == 0xFEFF
  }

  function Trim(s: Text): Text {
    if s != [] && IsSpace(s[0]) then Trim(s[1..])
    else if s != [] && IsSpace(s[|s| - 1]) then Trim(s[..|s| - 1])
    else s
  }

  predicate AllSpace(s: Text) {
    forall i :: 0 <= i < |s| ==> IsSpace(s[i])
  }

  lemma NoSpace(s: Text)
    ensures AllSpace([]) && AllSpace(s[..0]) && AllSpace(s[|s|..])
  {
  }

  lemma MoreSpace(s: Text, t: Text)
    ensures AllSpace(s) && AllSpace(t) ==> AllSpace(s + t)
    ensures |s| == 1 && IsSpace(s[0]) ==> AllSpace(s)
    ensures |t| == 1 && IsSpace(t[0]) ==> AllSpace(t)
  {
    hide IsSpace;
  }

  /** What is cut off at either end is white space; what is left, if anything, starts and ends with something else. */
  lemma {:induction false} TrimMeans(s: Text) returns (i: nat, j: nat)
    ensures i <= j <= |s| && Trim(s) == s[i..j] && AllSpace(s[..i]) && AllSpace(s[j..])
    ensures i < j ==> !IsSpace(s[i]) && !IsSpace(s[j - 1])
    decreases |s|
  {
    hide IsSpace, AllSpace;
    assert AllSpace([]) && AllSpace(s[..0]) && AllSpace(s[|s|..]) by { NoSpace(s); }
    if s != [] && IsSpace(s[0]) {
      i, j := TrimMeans(s[1..]);
      assert s[1..][i..j] == s[i + 1..j + 1] && s[1..][j..] == s[j + 1..];
      assert s[..i + 1] == [s[0]] + s[1..][..i];
      MoreSpace([s[0]], s[1..][..i]);
      i, j := i + 1, j + 1;
    } else if s != [] && IsSpace(s[|s| - 1]) {
      var init := s[..|s| - 1];
      i, j := TrimMeans(init);
      assert init[i..j] == s[i..j] && init[..i] == s[..i];
      assert s[j..] == init[j..] + [s[|s| - 1]];
      MoreSpace(init[j..], [s[|s| - 1]]);
    } else {
      i, j := 0, |s|;
      assert s[0..|s|] == s;
    }
  }

  lemma {:induction false} TrimSpace(s: Text)
    requires AllSpace(s)
    ensures Trim(s) == []
  {
    hide IsSpace;
    if s != [] {
      TrimSpace(s[1..]);
    }
  }

  /** White space on either side of a text that has none at its ends is what trimming removes. */
  lemma {:induction false} TrimPadded(a: Text, core: Text, b: Text)
    requires AllSpace(a) && AllSpace(b) && core != [] && !IsSpace(core[0]) && !IsSpace(core[|core| - 1])
    ensures Trim(a + core + b) == core
    decreases |a| + |b|
  {
    hide IsSpace;
    var s := a + core + b;
    if a != [] {
      TrimPadded(a[1..], core, b);
      assert s[0] == a[0] && s[1..] == a[1..] + core + b;
    } else if b != [] {
      var n := |b| - 1;
      TrimPadded([], core, b[..n]);
      assert s[0] == core[0] && s[|s| - 1] == b[n] && s[..|s| - 1] == [] + core + b[..n];
    } else {
      assert s == core;
    }
  }

  /** Every text between separators, none lost, none added. */
  lemma JoinStep(parts: seq<Text>, last: Text, separator: Unit)
    ensures Join([last], separator) == last
    ensures parts != [] ==> Join(parts + [last], separator) == Join(parts, separator) + [separator] + last
  {
    if parts != [] {
      JoinAppend(parts, last, separator);
    }
  }

  lemma {:induction false} JoinAppend(parts: seq<Text>, last: Text, separator: Unit)
    requires parts != []
    ensures Join(parts + [last], separator) == Join(parts, separator) + [separator] + last
  {
    var whole := parts + [last];
    if |parts| == 1 {
      assert whole[1..] == [last];
    } else {
      JoinAppend(parts[1..], last, separator);
      assert whole[1..] == parts[1..] + [last];
    }
  }
}
