/**
 * Go strings and byte slices. A Go string is an immutable byte sequence and `len` counts bytes, so one
 * type serves for both. Also strconv's decimal rendering and encoding/hex.
 */
module GoBytes {
  import opened Wrappers

  newtype byte = x: int | 0 <= x < 256
  type Bytes = seq<byte>

  /** An ASCII literal of the source, as bytes. */
  function Text(s: string): (b: Bytes)
    ensures |b| == |s|
    ensures forall i :: 0 <= i < |s| ==> b[i] as int == s[i] as int % 256
  {
    seq(|s|, i requires 0 <= i < |s| => (s[i] as int % 256) as byte)
  }

  const COLON: byte := 58
  const NEWLINE: byte := 10
  const MINUS: byte := 45

  // ----- strconv.Itoa, strconv.FormatUint and fmt's %d

  predicate IsDigit(b: byte) {
    48 <= b <= 57
  }

  predicate AllDigits(s: Bytes) {
    forall i :: 0 <= i < |s| ==> IsDigit(s[i])
  }

  function Decimal(n: nat): (s: Bytes)
    ensures 0 < |s| && AllDigits(s)
  {
    if n < 10 then [(48 + n) as byte] else Decimal(n / 10) + [(48 + n % 10) as byte]
  }

  function DecimalValue(s: Bytes): int {
    if s == [] then 0 else DecimalValue(s[..|s| - 1]) * 10 + (s[|s| - 1] as int - 48)
  }

  lemma {:induction false} DecimalRoundTrip(n: nat)
    ensures DecimalValue(Decimal(n)) == n
  {
    if n < 10 {
      assert Decimal(n)[..0] == [];
    } else {
      DecimalRoundTrip(n / 10);
      assert Decimal(n)[..|Decimal(n)| - 1] == Decimal(n / 10);
    }
  }

  /** strconv.Itoa: a minus sign in front of a negative number. */
  function Itoa(i: int): (s: Bytes)
    ensures 0 < |s| && AllDigits(s[1..]) && (s[0] == MINUS || IsDigit(s[0]))
    ensures s[0] == MINUS <==> i < 0
    ensures COLON !in s
  {
    if i < 0 then [MINUS] + Decimal(-i) else Decimal(i)
  }

  lemma ItoaInjective(i: int, j: int)
    requires Itoa(i) == Itoa(j)
    ensures i == j
  {
    if i < 0 {
      assert Itoa(i)[1..] == Decimal(-i) && Itoa(j)[1..] == Decimal(-j);
      DecimalRoundTrip(-i);
      DecimalRoundTrip(-j);
    } else {
      DecimalRoundTrip(i);
      DecimalRoundTrip(j);
    }
  }

  /** The digits are the number's, with no leading zero. */
  lemma {:induction false} DecimalIsShortest(n: nat)
    ensures |Decimal(n)| > 1 ==> Decimal(n)[0] != 48
    ensures n > 0 ==> Decimal(n)[0] != 48
  {
    if n >= 10 {
      DecimalIsShortest(n / 10);
    }
  }

  lemma ItoaMeans(i: int)
    ensures i >= 0 ==> DecimalValue(Itoa(i)) == i
    ensures i < 0 ==> Itoa(i)[0] == 45 && DecimalValue(Itoa(i)[1..]) == -i
    ensures i != 0 ==> Itoa(i)[if i < 0 then 1 else 0] != 48
  {
    var n := if i < 0 then -i else i;
    DecimalRoundTrip(n);
    DecimalIsShortest(n);
    assert i < 0 ==> Itoa(i)[1..] == Decimal(n);
  }

  // ----- encoding/hex

  function HexDigit(n: int): (c: byte)
    requires 0 <= n < 16
    ensures NibbleOf(c) == Some(n)
  {
    if n < 10 then (48 + n) as byte else (87 + n) as byte
  }

  /** Decoding accepts both letter cases; encoding writes lower case only. */
  function NibbleOf(c: byte): (r: Option<int>)
    ensures r.Some? ==> 0 <= r.value < 16
  {
    if 48 <= c <= 57 then Some(c as int - 48)
    else if 97 <= c <= 102 then Some(c as int - 87)
    else if 65 <= c <= 70 then Some(c as int - 55)
    else None
  }

  function HexEncode(b: Bytes): (s: Bytes)
    ensures |s| == 2 * |b|
  {
    if b == [] then [] else [HexDigit(b[0] as int / 16), HexDigit(b[0] as int % 16)] + HexEncode(b[1..])
  }

  /** hex.DecodeString: an error on odd length or on any character that is not a hex digit. */
  function HexDecode(s: Bytes): (r: Option<Bytes>)
    ensures r.Some? ==> 2 * |r.value| == |s|
  {
    if s == [] then Some([])
    else if |s| == 1 || NibbleOf(s[0]).None? || NibbleOf(s[1]).None? || HexDecode(s[2..]).None? then None
    else Some([(NibbleOf(s[0]).value * 16 + NibbleOf(s[1]).value) as byte] + HexDecode(s[2..]).value)
  }

  lemma {:induction false} HexRoundTrip(b: Bytes)
    ensures HexDecode(HexEncode(b)) == Some(b)
  {
    if b != [] {
      HexRoundTrip(b[1..]);
      var s := HexEncode(b);
      assert s[2..] == HexEncode(b[1..]);
      assert NibbleOf(s[0]) == Some(b[0] as int / 16) && NibbleOf(s[1]) == Some(b[0] as int % 16);
      assert b == [b[0]] + b[1..];
    }
  }

  /** A to F as a to f, everything else as it is. */
  function LowerHex(s: Bytes): (l: Bytes)
    ensures |l| == |s|
  {
    seq(|s|, i requires 0 <= i < |s| => if 65 <= s[i] <= 70 then s[i] + 32 else s[i])
  }

  lemma {:induction false} HexIsLowerCase(b: Bytes)
    ensures forall i :: 0 <= i < |HexEncode(b)| ==> IsDigit(HexEncode(b)[i]) || 97 <= HexEncode(b)[i] <= 102
  {
    if b != [] {
      HexIsLowerCase(b[1..]);
    }
  }

  lemma DigitIs(n: int)
    requires 0 <= n < 16
    ensures HexDigit(n) == Text("0123456789abcdef")[n]
  {
  }

  /** Two digits for each byte, the high one first. */
  lemma {:induction false} HexEncodeMeans(b: Bytes, i: nat)
    requires i < |b|
    ensures var digits, s := Text("0123456789abcdef"), HexEncode(b);
      s[2 * i] == digits[b[i] as int / 16] && s[2 * i + 1] == digits[b[i] as int % 16]
  {
    DigitIs(b[i] as int / 16);
    DigitIs(b[i] as int % 16);
    hide HexDigit, Text;
    if i > 0 {
      HexEncodeMeans(b[1..], i - 1);
      assert HexEncode(b)[2..] == HexEncode(b[1..]);
      assert HexEncode(b)[2 * i] == HexEncode(b)[2..][2 * i - 2];
    }
  }

  lemma NibbleMeans(c: byte, n: int)
    requires 0 <= n < 16
    ensures NibbleOf(c) == Some(n) <==> HexDigit(n) == if 65 <= c <= 70 then c + 32 else c
  {
  }

  /** Decoding yields exactly the bytes whose lower-case spelling the text is, in whatever case it is written. */
  lemma {:induction false} HexDecodeExactly(s: Bytes, b: Bytes)
    ensures HexDecode(s) == Some(b) <==> HexEncode(b) == LowerHex(s)
    decreases |s|
  {
    if |s| < 2 {
      assert b != [] ==> |HexEncode(b)| >= 2;
    } else if b != [] {
      HexDecodeExactly(s[2..], b[1..]);
      DecodeStep(s, b);
      EncodeStep(s, b);
    }
  }

  lemma DecodeStep(s: Bytes, b: Bytes)
    requires |s| >= 2 && b != []
    ensures HexDecode(s) == Some(b) <==>
            && NibbleOf(s[0]) == Some(b[0] as int / 16) && NibbleOf(s[1]) == Some(b[0] as int % 16)
            && HexDecode(s[2..]) == Some(b[1..])
  {
    hide NibbleOf;
    assert b == [b[0]] + b[1..];
    if NibbleOf(s[0]).Some? && NibbleOf(s[1]).Some? {
      ByteOfNibbles(s, b[0]);
    }
  }

  lemma EncodeStep(s: Bytes, b: Bytes)
    requires |s| >= 2 && b != []
    ensures HexEncode(b) == LowerHex(s) <==>
            && NibbleOf(s[0]) == Some(b[0] as int / 16) && NibbleOf(s[1]) == Some(b[0] as int % 16)
            && HexEncode(b[1..]) == LowerHex(s[2..])
  {
    hide NibbleOf, HexDigit;
    var e, l := HexEncode(b), LowerHex(s);
    NibbleMeans(s[0], b[0] as int / 16);
    NibbleMeans(s[1], b[0] as int % 16);
    assert e == e[..2] + e[2..] && l == l[..2] + l[2..];
    assert e[2..] == HexEncode(b[1..]) && l[2..] == LowerHex(s[2..]);
    assert e[..2] == [HexDigit(b[0] as int / 16), HexDigit(b[0] as int % 16)];
    assert l[..2] == [l[0], l[1]];
    if e[..2] == l[..2] {
      assert e[0] == l[0] && e[1] == l[1];
    }
  }

  lemma ByteOfNibbles(s: Bytes, b: byte)
    requires |s| >= 2 && NibbleOf(s[0]).Some? && NibbleOf(s[1]).Some?
    ensures (NibbleOf(s[0]).value * 16 + NibbleOf(s[1]).value) as byte == b <==>
      NibbleOf(s[0]).value == b as int / 16 && NibbleOf(s[1]).value == b as int % 16
  {
  }

  lemma HexInjective(a: Bytes, b: Bytes)
    requires HexEncode(a) == HexEncode(b)
    ensures a == b
  {
    HexRoundTrip(a);
    HexRoundTrip(b);
  }
}
