/**
 * The length-prefixed field encoding every hashed record is built from: label:length:value\n, once per
 * field. The record's labels are fixed, so unique decodability is a statement about the values.
 */
module Encoding {
  import opened GoBytes

  function Field(name: Bytes, value: Bytes): Bytes {
    name + [COLON] + Itoa(|value|) + [COLON] + value + [NEWLINE]
  }

  /** The buffer left by appending one field per label, in order. */
  function Fields(labels: seq<string>, values: seq<Bytes>): Bytes
    requires |labels| == |values|
  {
    if labels == [] then [] else Field(Text(labels[0]), values[0]) + Fields(labels[1..], values[1..])
  }

  /** The first separator splits a string in only one way. */
  lemma SplitAtSeparator(sep: byte, a: Bytes, b: Bytes, c: Bytes, d: Bytes)
    requires sep !in a && sep !in c
    requires a + [sep] + b == c + [sep] + d
    ensures a == c && b == d
  {
    var x, y := a + [sep] + b, c + [sep] + d;
    assert x[|a|] == sep && y[|c|] == sep;
    assert |a| == |c|;
    assert x[..|a|] == a && y[..|c|] == c;
    assert x[|a| + 1..] == b && y[|c| + 1..] == d;
  }

  /** One field read off the front: the length says where the value ends, so what follows is determined. */
  lemma FieldUnique(name: Bytes, v: Bytes, w: Bytes, r: Bytes, s: Bytes)
    requires Field(name, v) + r == Field(name, w) + s
    ensures v == w && r == s
  {
    var x, y := Field(name, v) + r, Field(name, w) + s;
    var n := |name| + 1;
    var tailV, tailW := v + [NEWLINE] + r, w + [NEWLINE] + s;
    assert x[n..] == Itoa(|v|) + [COLON] + tailV;
    assert y[n..] == Itoa(|w|) + [COLON] + tailW;
    SplitAtSeparator(COLON, Itoa(|v|), tailV, Itoa(|w|), tailW);
    ItoaInjective(|v|, |w|);
    assert tailV[..|v|] == v && tailW[..|w|] == w;
    assert tailV[|v| + 1..] == r && tailW[|w| + 1..] == s;
  }

  /** No two value lists share an encoding, whatever bytes the values contain and whatever follows. */
  lemma {:induction false} FieldsUnique(labels: seq<string>, v: seq<Bytes>, w: seq<Bytes>, r: Bytes, s: Bytes)
    requires |labels| == |v| == |w|
    requires Fields(labels, v) + r == Fields(labels, w) + s
    ensures v == w && r == s
  {
    hide Field;
    if labels == [] {
      assert Fields(labels, v) + r == r && Fields(labels, w) + s == s;
    } else {
      var name := Text(labels[0]);
      var restV, restW := Fields(labels[1..], v[1..]), Fields(labels[1..], w[1..]);
      assert Field(name, v[0]) + (restV + r) == Fields(labels, v) + r;
      assert Field(name, w[0]) + (restW + s) == Fields(labels, w) + s;
      FieldUnique(name, v[0], w[0], restV + r, restW + s);
      FieldsUnique(labels[1..], v[1..], w[1..], r, s);
      assert v == [v[0]] + v[1..] && w == [w[0]] + w[1..];
    }
  }

  lemma FieldsInjective(labels: seq<string>, v: seq<Bytes>, w: seq<Bytes>)
    requires |labels| == |v| == |w| && Fields(labels, v) == Fields(labels, w)
    ensures v == w
  {
    assert Fields(labels, v) + [] == Fields(labels, w) + [];
    FieldsUnique(labels, v, w, [], []);
  }
}
