/**
 * time.Time as an instant: nanoseconds since Go's zero time, 1 January of year 1, 00:00:00 UTC. The
 * location and the monotonic reading play no part in Equal, After, Sub, UTC or Truncate.
 */
module GoTime {
  import opened GoBytes

  type Time = int
  type Duration = d: int | MIN_DURATION <= d <= MAX_DURATION

  const MIN_DURATION := -0x8000_0000_0000_0000
  const MAX_DURATION := 0x7fff_ffff_ffff_ffff
  const MICROSECOND := 1_000
  const SECOND := 1_000_000_000
  const DAY := 86_400_000_000_000

  /** t.Truncate(d): down to a multiple of d since the zero time; t itself when d is not positive. */
  function Truncate(t: Time, d: int): (r: Time)
    ensures d > 0 ==> r <= t < r + d && r == t / d * d
    ensures d <= 0 ==> r == t
  {
    if d <= 0 then t else t - t % d
  }

  /** t.Sub(u) saturates at the ends of the Duration range. */
  function Sub(t: Time, u: Time): (d: Duration)
    ensures MIN_DURATION <= t - u <= MAX_DURATION ==> d == t - u
    ensures t - u > MAX_DURATION ==> d == MAX_DURATION
    ensures t - u < MIN_DURATION ==> d == MIN_DURATION
  {
    if t - u > MAX_DURATION then MAX_DURATION else if t - u < MIN_DURATION then MIN_DURATION else t - u
  }

  // ----- the layout 2006-01-02T15:04:05.000000000Z

  /** Go's appendInt: decimal digits, zero-padded on the left to the given width, a sign in front. */
  function Padded(n: nat, width: nat): (s: Bytes)
    ensures 0 < |s| && AllDigits(s)
  {
    var d := Decimal(n);
    if |d| < width then seq(width - |d|, i => 48) + d else d
  }

  function YearText(y: int): Bytes {
    if y < 0 then [MINUS] + Padded(-y, 4) else Padded(y, 4)
  }

  function DaysBeforeYear(y: int): int {
    var p := y - 1;
    365 * p + p / 4 - p / 100 + p / 400
  }

  predicate IsLeap(y: int) {
    y % 4 == 0 && (y % 100 != 0 || y % 400 == 0)
  }

  lemma QuotientStep4(p: int)
    ensures (p + 1) / 4 == p / 4 + if (p + 1) % 4 == 0 then 1 else 0
  {}

  lemma QuotientStep100(p: int)
    ensures (p + 1) / 100 == p / 100 + if (p + 1) % 100 == 0 then 1 else 0
  {}

  lemma QuotientStep400(p: int)
    ensures (p + 1) / 400 == p / 400 + if (p + 1) % 400 == 0 then 1 else 0
  {}

  lemma MultipleOf400(y: int)
    ensures y % 400 == 0 ==> y % 100 == 0
  {
    if y % 400 == 0 {
      assert y == 100 * (4 * (y / 400));
    }
  }

  lemma MultipleOf100(y: int)
    ensures y % 100 == 0 ==> y % 4 == 0
  {
    if y % 100 == 0 {
      assert y == 4 * (25 * (y / 100));
    }
  }

  lemma YearLength(y: int)
    ensures DaysBeforeYear(y + 1) == DaysBeforeYear(y) + if IsLeap(y) then 366 else 365
  {
    QuotientStep4(y - 1);
    QuotientStep100(y - 1);
    QuotientStep400(y - 1);
    MultipleOf400(y);
    MultipleOf100(y);
  }

  /** The year holding the given day, counting days from 1 January of year 1, searched upward from y. */
  function YearFrom(day: int, y: int): (r: int)
    requires DaysBeforeYear(y) <= day
    ensures DaysBeforeYear(r) <= day < DaysBeforeYear(r + 1)
    decreases day - DaysBeforeYear(y)
  {
    YearLength(y);
    if day < DaysBeforeYear(y + 1) then y else YearFrom(day, y + 1)
  }

  function YearOf(day: int): (y: int)
    ensures DaysBeforeYear(y) <= day < DaysBeforeYear(y + 1)
  {
    YearFrom(day, if day < 0 then day else 1)
  }

  function DaysBeforeMonth(m: int, leap: bool): int
    requires 1 <= m <= 12
  {
    [0, 31, 59, 90, 120, 151, 181, 212, 243, 273, 304, 334][m - 1] + if leap && m > 2 then 1 else 0
  }

  function MonthFrom(dayOfYear: nat, leap: bool, m: int): (r: int)
    requires 1 <= m <= 12 && DaysBeforeMonth(m, leap) <= dayOfYear < 366
    ensures 1 <= r <= 12 && 0 <= dayOfYear - DaysBeforeMonth(r, leap) < 32
    ensures r < 12 ==> dayOfYear < DaysBeforeMonth(r + 1, leap)
    decreases 12 - m
  {
    if m == 12 || dayOfYear < DaysBeforeMonth(m + 1, leap) then m else MonthFrom(dayOfYear, leap, m + 1)
  }

  /** The calendar reading of an instant. */
  datatype Civil = Civil(year: int, month: int, day: int, hour: int, minute: int, second: int, nano: int) {
    ghost predicate Valid() {
      && 1 <= month <= 12 && 1 <= day <= 32
      && 0 <= hour < 24 && 0 <= minute < 60 && 0 <= second < 60 && 0 <= nano < SECOND
    }
  }

  function CivilOf(t: Time): (c: Civil)
    ensures c.Valid()
  {
    var days, second := t / DAY, t % DAY / SECOND;
    var minute := second / 60;
    var y := YearOf(days);
    YearLength(y);
    var dayOfYear := days - DaysBeforeYear(y);
    var m := MonthFrom(dayOfYear, IsLeap(y), 1);
    Civil(y, m, dayOfYear - DaysBeforeMonth(m, IsLeap(y)) + 1,
          minute / 60, minute % 60, second % 60, t % DAY % SECOND)
  }

  function InstantOf(c: Civil): Time
    requires 1 <= c.month <= 12
  {
    (DaysBeforeYear(c.year) + DaysBeforeMonth(c.month, IsLeap(c.year)) + c.day - 1) * DAY
      + ((c.hour * 60 + c.minute) * 60 + c.second) * SECOND + c.nano
  }

  /** Time is counted from the zero time, midnight on 1 January of year 1; Unix time starts 62135596800 s later. */
  lemma ZeroTime()
    ensures InstantOf(Civil(1, 1, 1, 0, 0, 0, 0)) == 0
    ensures InstantOf(Civil(1970, 1, 1, 0, 0, 0, 0)) == 62_135_596_800 * 1_000_000_000
  {
  }

  lemma CivilRoundTrip(t: Time)
    ensures InstantOf(CivilOf(t)) == t
  {
    var c := CivilOf(t);
    var second := t % DAY / SECOND;
    assert DaysBeforeYear(c.year) + DaysBeforeMonth(c.month, IsLeap(c.year)) + c.day - 1 == t / DAY;
    assert (c.hour * 60 + c.minute) * 60 + c.second == second;
    assert second * SECOND + c.nano == t % DAY;
  }

  function DaysIn(month: int, leap: bool): (n: int)
    ensures 28 <= n <= 31
  {
    match month
    case 2 => if leap then 29 else 28
    case 4 => 30
    case 6 => 30
    case 9 => 30
    case 11 => 30
    case _ => 31
  }

  lemma MonthTable(m: int, leap: bool)
    requires 1 <= m <= 12
    ensures DaysBeforeMonth(1, leap) == 0
    ensures if m < 12 then DaysBeforeMonth(m, leap) + DaysIn(m, leap) == DaysBeforeMonth(m + 1, leap)
            else DaysBeforeMonth(m, leap) + DaysIn(m, leap) == if leap then 366 else 365
  {
  }

  lemma {:induction false} MonthsGrow(a: int, b: int, leap: bool)
    requires 1 <= a < b <= 12
    ensures DaysBeforeMonth(a, leap) + DaysIn(a, leap) <= DaysBeforeMonth(b, leap)
    decreases b - a
  {
    MonthTable(a, leap);
    if a + 1 < b {
      MonthsGrow(a + 1, b, leap);
    }
  }

  lemma {:induction false} YearsGrow(y: int, z: int)
    requires y <= z
    ensures DaysBeforeYear(y) <= DaysBeforeYear(z)
    decreases z - y
  {
    if y < z {
      YearsGrow(y, z - 1);
      YearLength(z - 1);
    }
  }

  lemma YearIs(day: int, y: int)
    requires DaysBeforeYear(y) <= day < DaysBeforeYear(y + 1)
    ensures YearOf(day) == y
  {
    var r := YearOf(day);
    if r < y {
      YearsGrow(r + 1, y);
    } else if y < r {
      YearsGrow(y + 1, r);
    }
  }

  lemma MonthIs(dayOfYear: nat, leap: bool, m: int)
    requires 1 <= m <= 12 && dayOfYear < 366
    requires DaysBeforeMonth(m, leap) <= dayOfYear < DaysBeforeMonth(m, leap) + DaysIn(m, leap)
    ensures MonthFrom(dayOfYear, leap, 1) == m
  {
    var r := MonthFrom(dayOfYear, leap, 1);
    if r < m {
      MonthsGrow(r, m, leap);
      assert r < 12 && dayOfYear < DaysBeforeMonth(r + 1, leap);
      MonthTable(r, leap);
    } else if m < r {
      MonthsGrow(m, r, leap);
    }
  }

  lemma ClockParts(days: int, second: int, nano: int)
    requires 0 <= second < 86_400 && 0 <= nano < SECOND
    ensures var t := days * DAY + second * SECOND + nano;
      t / DAY == days && t % DAY == second * SECOND + nano && t % DAY / SECOND == second && t % DAY % SECOND == nano
  {
    var rest := second * SECOND + nano;
    assert 0 <= rest < DAY;
    assert rest / SECOND == second && rest % SECOND == nano;
  }

  /** A date of the Gregorian calendar, of any year, and a time of day. */
  ghost predicate Real(c: Civil) {
    c.Valid() && c.day <= DaysIn(c.month, IsLeap(c.year))
  }

  /** The calendar reading is the Gregorian one: every real date and time is read back from its instant. */
  lemma CivilOfInstant(c: Civil)
    requires Real(c)
    ensures CivilOf(InstantOf(c)) == c
  {
    hide YearOf, MonthFrom, DaysBeforeMonth, DaysBeforeYear, IsLeap, DaysIn;
    var leap := IsLeap(c.year);
    var dayOfYear := DaysBeforeMonth(c.month, leap) + c.day - 1;
    var days, second := DaysBeforeYear(c.year) + dayOfYear, (c.hour * 60 + c.minute) * 60 + c.second;
    YearLength(c.year);
    DayInYear(c, leap);
    YearIs(days, c.year);
    MonthIs(dayOfYear, leap, c.month);
    ClockParts(days, second, c.nano);
    assert InstantOf(c) == days * DAY + second * SECOND + c.nano;
    HourParts(c.hour, c.minute, c.second);
  }

  lemma DayInYear(c: Civil, leap: bool)
    requires c.Valid() && c.day <= DaysIn(c.month, leap)
    ensures 0 <= DaysBeforeMonth(c.month, leap) + c.day - 1 < if leap then 366 else 365
  {
    MonthTable(c.month, leap);
    MonthTable(12, leap);
    if c.month < 12 {
      MonthsGrow(c.month, 12, leap);
    }
    if 1 < c.month {
      MonthsGrow(1, c.month, leap);
    }
  }

  lemma HourParts(hour: int, minute: int, second: int)
    requires 0 <= hour && 0 <= minute < 60 && 0 <= second < 60
    ensures var s := (hour * 60 + minute) * 60 + second;
      s % 60 == second && s / 60 % 60 == minute && s / 60 / 60 == hour
  {
    var s := (hour * 60 + minute) * 60 + second;
    assert s / 60 == hour * 60 + minute;
  }

  /** Everything after the year; each piece has the same width for every instant. */
  function TailPieces(c: Civil): (p: seq<Bytes>)
    requires c.Valid()
    ensures |p| == 12
  {
    [Text("-"), Padded(c.month, 2), Text("-"), Padded(c.day, 2), Text("T"), Padded(c.hour, 2), Text(":"),
     Padded(c.minute, 2), Text(":"), Padded(c.second, 2), Text("."), Padded(c.nano, 9)]
  }

  function Concat(pieces: seq<Bytes>): Bytes {
    if pieces == [] then [] else pieces[0] + Concat(pieces[1..])
  }

  /** t.UTC().Format("2006-01-02T15:04:05.000000000Z") */
  function TimeText(t: Time): Bytes {
    YearText(CivilOf(t).year) + Concat(TailPieces(CivilOf(t))) + Text("Z")
  }

  lemma {:induction false} LeadingZeros(s: Bytes, zeros: nat)
    ensures DecimalValue(seq(zeros, i => 48) + s) == DecimalValue(s)
    decreases |s| + zeros
  {
    var z := seq(zeros, i => 48 as byte) + s;
    if s != [] {
      LeadingZeros(s[..|s| - 1], zeros);
      assert z[..|z| - 1] == seq(zeros, i => 48) + s[..|s| - 1];
    } else if zeros > 0 {
      LeadingZeros(s, zeros - 1);
      assert z[..|z| - 1] == seq((zeros - 1) as nat, i => 48) + s;
    }
  }

  lemma PaddedInjective(n: nat, m: nat, width: nat)
    requires Padded(n, width) == Padded(m, width)
    ensures n == m
  {
    forall k: nat
      ensures DecimalValue(Padded(k, width)) == k
    {
      DecimalRoundTrip(k);
      if |Decimal(k)| < width {
        LeadingZeros(Decimal(k), width - |Decimal(k)|);
      }
    }
  }

  lemma {:induction false} DecimalWidth(n: nat, bound: nat, width: nat)
    requires 0 < width && bound == Power10(width) && n < bound
    ensures |Decimal(n)| <= width
  {
    if n >= 10 {
      DecimalWidth(n / 10, bound / 10, width - 1);
    }
  }

  function Power10(k: nat): (p: nat)
    ensures p > 0
  {
    if k == 0 then 1 else 10 * Power10(k - 1)
  }

  lemma PaddedWidth(n: nat, width: nat)
    requires 0 < width && n < Power10(width)
    ensures |Padded(n, width)| == width
  {
    DecimalWidth(n, Power10(width), width);
  }

  function TailWidth(): seq<nat> {
    [1, 2, 1, 2, 1, 2, 1, 2, 1, 2, 1, 9]
  }

  lemma TailWidths(c: Civil)
    requires c.Valid()
    ensures forall i :: 0 <= i < 12 ==> |TailPieces(c)[i]| == TailWidth()[i]
  {
    assert Power10(1) == 10 && Power10(2) == 100 && Power10(3) == 1000;
    assert Power10(5) == 100_000 && Power10(7) == 10_000_000 && Power10(9) == SECOND;
    PaddedWidth(c.month, 2);
    PaddedWidth(c.day, 2);
    PaddedWidth(c.hour, 2);
    PaddedWidth(c.minute, 2);
    PaddedWidth(c.second, 2);
    PaddedWidth(c.nano, 9);
  }

  lemma {:induction false} ConcatInjective(p: seq<Bytes>, q: seq<Bytes>)
    requires |p| == |q| && forall i :: 0 <= i < |p| ==> |p[i]| == |q[i]|
    ensures |Concat(p)| == |Concat(q)|
    ensures Concat(p) == Concat(q) ==> p == q
  {
    if p != [] {
      ConcatInjective(p[1..], q[1..]);
      var x, y := Concat(p), Concat(q);
      assert x[..|p[0]|] == p[0] && y[..|q[0]|] == q[0];
      assert x[|p[0]|..] == Concat(p[1..]) && y[|q[0]|..] == Concat(q[1..]);
      assert p == [p[0]] + p[1..] && q == [q[0]] + q[1..];
    }
  }

  lemma YearTextInjective(y: int, z: int)
    requires YearText(y) == YearText(z)
    ensures y == z
  {
    assert YearText(y)[0] == MINUS <==> y < 0;
    assert YearText(z)[0] == MINUS <==> z < 0;
    if y < 0 {
      assert YearText(y)[1..] == Padded(-y, 4) && YearText(z)[1..] == Padded(-z, 4);
      PaddedInjective(-y, -z, 4);
    } else {
      PaddedInjective(y, z, 4);
    }
  }

  /** Equal renderings are renderings of the same instant: everything after the year has a fixed width. */
  lemma TimeTextInjective(t: Time, u: Time)
    requires TimeText(t) == TimeText(u)
    ensures t == u
  {
    var c, d := CivilOf(t), CivilOf(u);
    var p, q := TailPieces(c), TailPieces(d);
    TailWidths(c);
    TailWidths(d);
    ConcatInjective(p, q);
    var x, y := TimeText(t), TimeText(u);
    var n := |YearText(c.year)|;
    assert |YearText(d.year)| == n;
    assert x[..n] == YearText(c.year) && y[..n] == YearText(d.year);
    assert x[n..|x| - 1] == Concat(p) && y[n..|y| - 1] == Concat(q);
    YearTextInjective(c.year, d.year);
    SameFields(c, d);
    CivilRoundTrip(t);
    CivilRoundTrip(u);
  }

  lemma SameFields(c: Civil, d: Civil)
    requires c.Valid() && d.Valid() && c.year == d.year && TailPieces(c) == TailPieces(d)
    ensures c == d
  {
    var p, q := TailPieces(c), TailPieces(d);
    assert p[1] == q[1] && p[3] == q[3] && p[5] == q[5] && p[7] == q[7] && p[9] == q[9] && p[11] == q[11];
    PaddedInjective(c.month, d.month, 2);
    PaddedInjective(c.day, d.day, 2);
    PaddedInjective(c.hour, d.hour, 2);
    PaddedInjective(c.minute, d.minute, 2);
    PaddedInjective(c.second, d.second, 2);
    PaddedInjective(c.nano, d.nano, 9);
  }

  /** The layout, on an instant whose fields are all different. */
  lemma TimeTextSample()
    ensures TimeText(InstantOf(SampleCivil())) == Text("2026-09-04T13:05:37.120000700Z")
  {
    hide CivilOf, TailPieces, Concat, InstantOf, YearText, Text, SampleTail, Joined, Texts, Real;
    SampleReal();
    CivilOfInstant(SampleCivil());
    SamplePieces();
    ConcatText(SampleTail());
    SampleJoined();
    SampleSpelling();
  }

  function SampleCivil(): Civil {
    Civil(2026, 9, 4, 13, 5, 37, 120_000_700)
  }

  lemma SampleReal()
    ensures Real(SampleCivil())
  {
  }

  lemma SampleSpelling()
    ensures Text("2026") + Text("-09-04T13:05:37.120000700") + Text("Z") == Text("2026-09-04T13:05:37.120000700Z")
  {
    TextConcat("2026", "-09-04T13:05:37.120000700");
    TextConcat("2026" + "-09-04T13:05:37.120000700", "Z");
    assert "2026" + "-09-04T13:05:37.120000700" + "Z" == "2026-09-04T13:05:37.120000700Z";
  }

  function SampleTail(): seq<string> {
    ["-", "09", "-", "04"] + ["T", "13", ":", "05"] + [":", "37", ".", "120000700"]
  }

  lemma DecimalStep(q: nat, r: nat)
    requires q > 0 && r < 10
    ensures Decimal(10 * q + r) == Decimal(q) + [(48 + r) as byte]
  {
  }

  lemma SampleDigits()
    ensures Decimal(2026) == Text("2026") && Decimal(13) == Text("13") && Decimal(37) == Text("37")
    ensures Decimal(9) == Text("9") && Decimal(4) == Text("4") && Decimal(5) == Text("5")
  {
    var one, two, three := Decimal(1), Decimal(2), Decimal(3);
    assert one == [49] && two == [50] && three == [51];
    DecimalStep(1, 3);
    DecimalStep(3, 7);
    DecimalStep(2, 0);
    DecimalStep(20, 2);
    DecimalStep(202, 6);
  }

  lemma SampleNanos()
    ensures Decimal(120_000_700) == Text("120000700")
  {
    var one := Decimal(1);
    assert one == [49];
    hide Decimal;
    DecimalStep(1, 2);
    DecimalStep(12, 0);
    DecimalStep(120, 0);
    DecimalStep(1200, 0);
    DecimalStep(12000, 0);
    DecimalStep(120000, 7);
    DecimalStep(1200007, 0);
    DecimalStep(12000070, 0);
  }

  lemma SamplePieces()
    ensures YearText(2026) == Text("2026")
    ensures TailPieces(SampleCivil()) == Texts(SampleTail())
  {
    SampleDigits();
    SampleNanos();
    hide Decimal;
    var zero := seq(1, i => 48 as byte);
    assert zero + Text("9") == Text("09") && zero + Text("4") == Text("04") && zero + Text("5") == Text("05");
  }

  lemma JoinedOne(a: string)
    ensures Joined([a]) == a
  {
    assert [a][1..] == [];
  }

  lemma JoinedFour(a: string, b: string, c: string, d: string)
    ensures Joined([a, b, c, d]) == a + b + c + d
  {
    hide Joined;
    JoinedOne(a);
    JoinedOne(b);
    JoinedOne(c);
    JoinedOne(d);
    JoinedConcat([a], [b]);
    JoinedConcat([c], [d]);
    JoinedConcat([a, b], [c, d]);
    assert [a] + [b] == [a, b] && [c] + [d] == [c, d] && [a, b] + [c, d] == [a, b, c, d];
  }

  lemma {:induction false} JoinedConcat(s: seq<string>, t: seq<string>)
    ensures Joined(s + t) == Joined(s) + Joined(t)
  {
    if s == [] {
      assert s + t == t;
    } else {
      JoinedConcat(s[1..], t);
      assert (s + t)[1..] == s[1..] + t;
    }
  }

  lemma SampleJoined()
    ensures Joined(SampleTail()) == "-09-04T13:05:37.120000700"
  {
    hide Joined;
    JoinedFour("-", "09", "-", "04");
    JoinedFour("T", "13", ":", "05");
    JoinedFour(":", "37", ".", "120000700");
    JoinedConcat(["-", "09", "-", "04"], ["T", "13", ":", "05"]);
    JoinedConcat(["-", "09", "-", "04"] + ["T", "13", ":", "05"], [":", "37", ".", "120000700"]);
    assert "-" + "09" + "-" + "04" == "-09-04" && "T" + "13" + ":" + "05" == "T13:05";
    assert ":" + "37" + "." + "120000700" == ":37.120000700";
    assert "-09-04" + "T13:05" + ":37.120000700" == "-09-04T13:05:37.120000700";
  }

  lemma TextConcat(a: string, b: string)
    ensures Text(a + b) == Text(a) + Text(b)
  {
  }

  function Joined(s: seq<string>): string {
    if s == [] then "" else s[0] + Joined(s[1..])
  }

  function Texts(s: seq<string>): (b: seq<Bytes>)
    ensures |b| == |s|
  {
    seq(|s|, i requires 0 <= i < |s| => Text(s[i]))
  }

  lemma {:induction false} ConcatText(s: seq<string>)
    ensures Concat(Texts(s)) == Text(Joined(s))
  {
    if s != [] {
      ConcatText(s[1..]);
      assert Texts(s)[1..] == Texts(s[1..]);
      assert Text(s[0] + Joined(s[1..])) == Text(s[0]) + Text(Joined(s[1..]));
    }
  }
}
