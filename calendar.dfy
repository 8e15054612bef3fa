/** UTC calendar arithmetic as ECMAScript defines it for Date objects (section 21.4.1 of
    ECMA-262: Day, DayFromYear, YearFromTime, MonthFromTime, DateFromTime), and the day key
    `YYYY-MM-DD` that formatDate in src/scripts/fetch-market.ts builds from it. */
module Calendar {
  import opened Wrappers
  import opened Numerals
  import opened Lex

  const MsPerDay: int := 86_400_000
  /** The largest magnitude of a valid time value; beyond it `new Date(ts)` is an Invalid Date. */
  const MaxTimeValue: int := 8_640_000_000_000_000

  /** A calendar date: month 1..12 (getUTCMonth() + 1), day of month from 1. */
  datatype Civil = Civil(year: int, month: int, day: int)

  /** The day number of a time value: floor(t / msPerDay). */
  function DayOf(t: int): int {
    t / MsPerDay
  }

  function DayFromYear(y: int): int {
    365 * (y - 1970) + (y - 1969) / 4 - (y - 1901) / 100 + (y - 1601) / 400
  }

  predicate IsLeapYear(y: int) {
    y % 4 == 0 && (y % 100 != 0 || y % 400 == 0)
  }

  function DaysInYear(y: int): int {
    if IsLeapYear(y) then 366 else 365
  }

  /** Each leap-year term of DayFromYear steps up by one from year y to y + 1 exactly when
      y is a multiple of its period. */
  lemma QuadStep(y: int)
    ensures (y - 1968) / 4 - (y - 1969) / 4 == if y % 4 == 0 then 1 else 0
  {
    var q, r := (y - 1969) / 4, (y - 1969) % 4;
    assert y - 1969 == 4 * q + r;
    if r == 3 {
      assert (y - 1968) / 4 == q + 1;
    } else {
      assert (y - 1968) / 4 == q;
    }
  }

  lemma CenturyStep(y: int)
    ensures (y - 1900) / 100 - (y - 1901) / 100 == if y % 100 == 0 then 1 else 0
  {
    var q, r := (y - 1901) / 100, (y - 1901) % 100;
    assert y - 1901 == 100 * q + r;
    if r == 99 {
      assert (y - 1900) / 100 == q + 1;
    } else {
      assert (y - 1900) / 100 == q;
    }
  }

  lemma QuadCenturyStep(y: int)
    ensures (y - 1600) / 400 - (y - 1601) / 400 == if y % 400 == 0 then 1 else 0
  {
    var q, r := (y - 1601) / 400, (y - 1601) % 400;
    assert y - 1601 == 400 * q + r;
    if r == 399 {
      assert (y - 1600) / 400 == q + 1;
    } else {
      assert (y - 1600) / 400 == q;
    }
  }

  /** A multiple of 400 is a multiple of 100, and a multiple of 100 a multiple of 4. */
  lemma PeriodsNest(y: int)
    ensures y % 400 == 0 ==> y % 100 == 0
    ensures y % 100 == 0 ==> y % 4 == 0
  {
    if y % 400 == 0 {
      var k := y / 400;
      assert y == 400 * k;
      assert y / 100 == 4 * k;
    }
    if y % 100 == 0 {
      var k := y / 100;
      assert y == 100 * k;
      assert y / 4 == 25 * k;
    }
  }

  lemma YearLength(y: int)
    ensures DayFromYear(y + 1) - DayFromYear(y) == DaysInYear(y)
  {
    PeriodsNest(y);
    QuadStep(y);
    CenturyStep(y);
    QuadCenturyStep(y);
  }

  lemma {:induction false} DayFromYearMonotone(a: int, b: int)
    requires a <= b
    ensures DayFromYear(a) <= DayFromYear(b)
    decreases b - a
  {
    if a < b {
      YearLength(b - 1);
      DayFromYearMonotone(a, b - 1);
    }
  }

  function YearUp(n: int, y: int): (r: int)
    requires DayFromYear(y) <= n
    ensures DayFromYear(r) <= n < DayFromYear(r + 1)
    decreases n - DayFromYear(y)
  {
    YearLength(y);
    if n < DayFromYear(y + 1) then y else YearUp(n, y + 1)
  }

  function YearDown(n: int, y: int): (r: int)
    requires n < DayFromYear(y)
    ensures DayFromYear(r) <= n < DayFromYear(r + 1)
    decreases DayFromYear(y) - n
  {
    YearLength(y - 1);
    if DayFromYear(y - 1) <= n then y - 1 else YearDown(n, y - 1)
  }

  /** YearFromTime: the year whose first day is the latest one not after day n. */
  function YearOfDay(n: int): (y: int)
    ensures DayFromYear(y) <= n < DayFromYear(y + 1)
  {
    if DayFromYear(1970) <= n then YearUp(n, 1970) else YearDown(n, 1970)
  }

  /** The number of days in the months before month m (0-based), in a common or leap year. */
  function DaysBeforeMonth(m: nat, leap: bool): int
    requires m <= 12
  {
    [0, 31, 59, 90, 120, 151, 181, 212, 243, 273, 304, 334, 365][m]
    + if leap && m >= 2 then 1 else 0
  }

  function DaysInMonth(m: nat, leap: bool): int
    requires m < 12
  {
    DaysBeforeMonth(m + 1, leap) - DaysBeforeMonth(m, leap)
  }

  lemma DaysBeforeMonthMonotone(a: nat, b: nat, leap: bool)
    requires a <= b <= 12
    ensures DaysBeforeMonth(a, leap) <= DaysBeforeMonth(b, leap)
  {
  }

  lemma MonthLengths(m: nat, leap: bool)
    requires m < 12
    ensures 28 <= DaysInMonth(m, leap) <= 31
    ensures DaysBeforeMonth(12, leap) == if leap then 366 else 365
  {
  }

  /** MonthFromTime: the 0-based month that day d of a year (counted from 0) falls in. */
  function MonthFrom(d: int, leap: bool, m: nat): (r: nat)
    requires m < 12 && DaysBeforeMonth(m, leap) <= d
    ensures m <= r < 12 && DaysBeforeMonth(r, leap) <= d
    ensures r == 11 || d < DaysBeforeMonth(r + 1, leap)
    decreases 12 - m
  {
    if m == 11 || d < DaysBeforeMonth(m + 1, leap) then m else MonthFrom(d, leap, m + 1)
  }

  /** The day of the epoch (0 is 1970-01-01) that a calendar date names. */
  function DayOfCivil(c: Civil): int
    requires 1 <= c.month <= 12
  {
    DayFromYear(c.year) + DaysBeforeMonth(c.month - 1, IsLeapYear(c.year)) + c.day - 1
  }

  predicate ValidCivil(c: Civil) {
    1 <= c.month <= 12 && 1 <= c.day <= DaysInMonth(c.month - 1, IsLeapYear(c.year))
  }

  /** getUTCFullYear(), getUTCMonth() + 1 and getUTCDate() of day n: a valid date that names day n. */
  function CivilOfDay(n: int): (c: Civil)
    ensures ValidCivil(c) && 1 <= c.day <= 31
    ensures DayOfCivil(c) == n
  {
    var y := YearOfDay(n);
    var leap := IsLeapYear(y);
    var d := n - DayFromYear(y);
    assert 0 <= d < DaysBeforeMonth(12, leap) by {
      YearLength(y);
      MonthLengths(0, leap);
    }
    var m := MonthFrom(d, leap, 0);
    MonthLengths(m, leap);
    Civil(y, m + 1, d - DaysBeforeMonth(m, leap) + 1)
  }

  predicate Before(a: Civil, b: Civil) {
    a.year < b.year || (a.year == b.year && (a.month < b.month || (a.month == b.month && a.day < b.day)))
  }

  /** The days of a valid date's year that come before it. */
  lemma DayWithinYear(c: Civil)
    requires ValidCivil(c)
    ensures 0 <= DayOfCivil(c) - DayFromYear(c.year) < DayFromYear(c.year + 1) - DayFromYear(c.year)
  {
    YearLength(c.year);
    MonthLengths(c.month - 1, IsLeapYear(c.year));
    DaysBeforeMonthMonotone(c.month, 12, IsLeapYear(c.year));
  }

  /** An earlier valid date names an earlier day. */
  lemma DayOfCivilOrder(a: Civil, b: Civil)
    requires ValidCivil(a) && ValidCivil(b) && Before(a, b)
    ensures DayOfCivil(a) < DayOfCivil(b)
  {
    if a.year < b.year {
      DayWithinYear(a);
      DayWithinYear(b);
      DayFromYearMonotone(a.year + 1, b.year);
    } else if a.month < b.month {
      DaysBeforeMonthMonotone(a.month, b.month - 1, IsLeapYear(a.year));
    }
  }

  /** A later day is a later calendar date. */
  lemma CivilOfDayMonotone(n1: int, n2: int)
    requires n1 < n2
    ensures Before(CivilOfDay(n1), CivilOfDay(n2))
  {
    var c1, c2 := CivilOfDay(n1), CivilOfDay(n2);
    if !Before(c1, c2) {
      if c1 != c2 {
        DayOfCivilOrder(c2, c1);
      }
      assert false;
    }
  }

  /** A calendar date names exactly one day: days and valid dates correspond one to one. */
  lemma CivilRoundTrip(c: Civil)
    requires ValidCivil(c)
    ensures CivilOfDay(DayOfCivil(c)) == c
  {
    var c' := CivilOfDay(DayOfCivil(c));
    if Before(c, c') {
      DayOfCivilOrder(c, c');
      assert false;
    } else if Before(c', c) {
      DayOfCivilOrder(c', c);
      assert false;
    }
  }

  /** The day key: UTC year, then month and day of month each padded to two digits. */
  function DayKey(c: Civil): string
    requires ValidCivil(c)
  {
    Join3(IntStr(c.year), Pad2(c.month), Pad2(c.day), "-")
  }

  /** Three fields with a separator between each two. */
  function Join3(y: string, m: string, d: string, sep: string): string {
    y + sep + m + sep + d
  }

  /** formatDate(ts): the UTC day key of a millisecond timestamp. Outside the range of valid
      time values every getter yields NaN, so the key reads "NaN-NaN-NaN". A key of a valid
      time value reads back as its UTC date; the NaN key reads as no date. */
  function FormatDate(ts: int): (k: string)
    ensures -MaxTimeValue <= ts <= MaxTimeValue ==> ParseDayKey(k) == Some(CivilOfDay(DayOf(ts)))
    ensures ts < -MaxTimeValue || MaxTimeValue < ts ==> ParseDayKey(k) == None
  {
    if ts < -MaxTimeValue || MaxTimeValue < ts then
      var nan := "NaN-NaN-NaN";
      assert nan[|nan| - 6] == 'a';
      nan
    else
      var c := CivilOfDay(DayOf(ts));
      DayKeyRoundTrip(c);
      DayKey(c)
  }

  /** Reading a key `Y-MM-DD` back: the year is everything before the last six characters,
      which must be a dash, two digits, a dash and two digits. */
  function ParseDayKey(k: string): Option<Civil> {
    if |k| >= 7 && k[|k| - 6] == '-' && k[|k| - 3] == '-'
       && AllDigits(k[|k| - 5..|k| - 3]) && AllDigits(k[|k| - 2..])
    then
      match ParseInt(k[..|k| - 6])
      case None => None
      case Some(y) => Some(Civil(y, ParseNat(k[|k| - 5..|k| - 3]), ParseNat(k[|k| - 2..])))
    else None
  }

  /** Where the parts of a key `Y-M-D` with two-character month and day sit, counted from the end. */
  lemma KeySuffix(k: string, y: string, m: string, d: string)
    requires k == Join3(y, m, d, "-") && |m| == 2 && |d| == 2
    ensures |k| == |y| + 6
    ensures k[..|k| - 6] == y && k[|k| - 6] == '-' && k[|k| - 5..|k| - 3] == m
      && k[|k| - 3] == '-' && k[|k| - 2..] == d
  {
  }

  /** A key made of a readable year and two two-digit fields reads back as that date. */
  lemma ReadKey(k: string, y: string, m: string, d: string, c: Civil)
    requires k == Join3(y, m, d, "-") && |y| >= 1 && ParseInt(y) == Some(c.year)
    requires |m| == 2 && AllDigits(m) && ParseNat(m) == c.month
    requires |d| == 2 && AllDigits(d) && ParseNat(d) == c.day
    ensures ParseDayKey(k) == Some(c)
  {
    KeySuffix(k, y, m, d);
  }

  /** The day key of every valid date, whatever its year, reads back as that date. */
  lemma DayKeyRoundTrip(c: Civil)
    requires ValidCivil(c)
    ensures ParseDayKey(DayKey(c)) == Some(c)
  {
    MonthLengths(c.month - 1, IsLeapYear(c.year));
    FieldsRoundTrip(c.year, c.month, c.day);
  }

  /** Fields with a month and a day below 100 read back from the key they make. */
  lemma FieldsRoundTrip(year: int, month: nat, day: nat)
    requires month < 100 && day < 100
    ensures ParseDayKey(Join3(IntStr(year), Pad2(month), Pad2(day), "-")) == Some(Civil(year, month, day))
  {
    Pad2RoundTrip(month);
    Pad2RoundTrip(day);
    IntStrRoundTrip(year);
    ReadKey(Join3(IntStr(year), Pad2(month), Pad2(day), "-"), IntStr(year), Pad2(month), Pad2(day), Civil(year, month, day));
  }

  predicate FourDigitYear(c: Civil) {
    1000 <= c.year <= 9999
  }

  /** Where the parts of a key `Y<sep>M<sep>D` sit, for parts of widths 4, 2 and 2 and a
      one-character separator. */
  lemma KeyLayout(y: string, m: string, d: string, sep: string)
    requires |y| == 4 && |m| == 2 && |d| == 2 && |sep| == 1
    ensures var k := Join3(y, m, d, sep);
      |k| == 10 && k[..4] == y && k[4] == sep[0] && k[5..7] == m && k[7] == sep[0] && k[8..] == d
  {
  }

  lemma SeparatorSuffix(a: string, b: string, sep: string)
    requires |a| == |b|
    ensures Less(a + sep, b + sep) <==> Less(a, b)
    ensures a + sep == b + sep <==> a == b
  {
    LessConcat(a, sep, b, sep);
    LessIrreflexive(sep);
    if a + sep == b + sep {
      assert a == (a + sep)[..|a|] && b == (b + sep)[..|a|];
    }
  }

  /** Keys `Y-M-D` whose parts have equal widths compare part by part. */
  lemma KeyCompare(y1: string, m1: string, d1: string, y2: string, m2: string, d2: string, sep: string)
    requires |y1| == |y2| && |m1| == |m2|
    ensures Less(y1 + sep + m1 + sep + d1, y2 + sep + m2 + sep + d2)
      <==> Less(y1, y2) || (y1 == y2 && (Less(m1, m2) || (m1 == m2 && Less(d1, d2))))
  {
    var ya, yb, ma, mb := y1 + sep, y2 + sep, m1 + sep, m2 + sep;
    assert y1 + sep + m1 + sep + d1 == ya + ma + d1;
    assert y2 + sep + m2 + sep + d2 == yb + mb + d2;
    LessThreeParts(ya, ma, d1, yb, mb, d2);
    SeparatorSuffix(y1, y2, sep);
    SeparatorSuffix(m1, m2, sep);
  }

  /** Two fields of equal width that order and identify as the numbers they show. */
  predicate FieldOrder(s1: string, s2: string, x: int, y: int) {
    |s1| == |s2| && (Less(s1, s2) <==> x < y) && (s1 == s2 <==> x == y)
  }

  /** Year fields of four-digit years have four characters and compare as the years. */
  lemma YearField(a: int, b: int)
    requires 1000 <= a <= 9999 && 1000 <= b <= 9999
    ensures |IntStr(a)| == 4
    ensures FieldOrder(IntStr(a), IntStr(b), a, b)
  {
    FourDigits(a);
    FourDigits(b);
    NatStrOrder(a, b);
    if NatStr(a) == NatStr(b) {
      NatStrInjective(a, b);
    }
  }

  /** Two-digit fields have two characters and compare as the numbers. */
  lemma TwoDigitField(a: nat, b: nat)
    requires a < 100 && b < 100
    ensures |Pad2(a)| == 2
    ensures FieldOrder(Pad2(a), Pad2(b), a, b)
  {
    Pad2RoundTrip(a);
    Pad2RoundTrip(b);
    Pad2Order(a, b);
    if Pad2(a) == Pad2(b) {
      assert ParseNat(Pad2(a)) == ParseNat(Pad2(b));
    }
  }

  /** Keys whose fields order and identify the year, month and day order as the dates do. */
  lemma FieldsOrder(y1: string, m1: string, d1: string, y2: string, m2: string, d2: string, a: Civil, b: Civil, sep: string)
    requires FieldOrder(y1, y2, a.year, b.year) && FieldOrder(m1, m2, a.month, b.month)
    requires FieldOrder(d1, d2, a.day, b.day)
    ensures Less(Join3(y1, m1, d1, sep), Join3(y2, m2, d2, sep)) <==> Before(a, b)
  {
    KeyCompare(y1, m1, d1, y2, m2, d2, sep);
  }

  /** A key `Y-M-D` of a four-digit and two two-digit fields shows them at fixed places. */
  lemma KeyShape(k: string, y: string, m: string, d: string, yv: int, mv: int, dv: int)
    requires k == Join3(y, m, d, "-")
    requires |y| == 4 && AllDigits(y) && ParseNat(y) == yv
    requires |m| == 2 && AllDigits(m) && ParseNat(m) == mv
    requires |d| == 2 && AllDigits(d) && ParseNat(d) == dv
    ensures |k| == 10 && k[4] == '-' && k[7] == '-'
      && AllDigits(k[..4]) && ParseNat(k[..4]) == yv
      && AllDigits(k[5..7]) && ParseNat(k[5..7]) == mv
      && AllDigits(k[8..]) && ParseNat(k[8..]) == dv
  {
    KeyLayout(y, m, d, "-");
  }

  /** A day key of a date with a four-digit year is ten characters `YYYY-MM-DD`: digits with
      dashes at positions 4 and 7, the month and the day each reading back as two digits. */
  lemma DayKeyShape(c: Civil)
    requires ValidCivil(c) && FourDigitYear(c)
    ensures var k := DayKey(c);
      |k| == 10 && k[4] == '-' && k[7] == '-'
      && AllDigits(k[..4]) && ParseNat(k[..4]) == c.year
      && AllDigits(k[5..7]) && ParseNat(k[5..7]) == c.month
      && AllDigits(k[8..]) && ParseNat(k[8..]) == c.day
  {
    MonthLengths(c.month - 1, IsLeapYear(c.year));
    FourDigits(c.year);
    ParseNatStr(c.year);
    Pad2RoundTrip(c.month);
    Pad2RoundTrip(c.day);
    KeyShape(DayKey(c), IntStr(c.year), Pad2(c.month), Pad2(c.day), c.year, c.month, c.day);
  }

  /** The year, month and day fields of two dates with four-digit years order as the dates' parts. */
  lemma DayFields(a: Civil, b: Civil)
    requires FourDigitYear(a) && FourDigitYear(b)
    requires 0 <= a.month < 100 && 0 <= a.day < 100 && 0 <= b.month < 100 && 0 <= b.day < 100
    ensures FieldOrder(IntStr(a.year), IntStr(b.year), a.year, b.year)
    ensures FieldOrder(Pad2(a.month), Pad2(b.month), a.month, b.month)
    ensures FieldOrder(Pad2(a.day), Pad2(b.day), a.day, b.day)
  {
    YearField(a.year, b.year);
    TwoDigitField(a.month, b.month);
    TwoDigitField(a.day, b.day);
  }

  /** For four-digit years, the string order of day keys is calendar order; this is what
      makes Object.keys(prices).sort() chronological. */
  lemma DayKeyOrder(a: Civil, b: Civil)
    requires ValidCivil(a) && FourDigitYear(a) && ValidCivil(b) && FourDigitYear(b)
    ensures Less(DayKey(a), DayKey(b)) <==> Before(a, b)
  {
    MonthLengths(a.month - 1, IsLeapYear(a.year));
    MonthLengths(b.month - 1, IsLeapYear(b.year));
    DayFields(a, b);
    FieldsOrder(IntStr(a.year), Pad2(a.month), Pad2(a.day), IntStr(b.year), Pad2(b.month), Pad2(b.day), a, b, "-");
  }

  /** Two valid timestamps get the same day key exactly when they fall on the same UTC day:
      samples of one day share a key, samples of different days never do. */
  lemma SameKeyIffSameDay(t1: int, t2: int)
    requires -MaxTimeValue <= t1 <= MaxTimeValue && -MaxTimeValue <= t2 <= MaxTimeValue
    ensures FormatDate(t1) == FormatDate(t2) <==> DayOf(t1) == DayOf(t2)
  {
    if FormatDate(t1) == FormatDate(t2) {
      var c1, c2 := CivilOfDay(DayOf(t1)), CivilOfDay(DayOf(t2));
      assert Some(c1) == Some(c2);
      assert DayOfCivil(c1) == DayOf(t1) && DayOfCivil(c2) == DayOf(t2);
    }
  }

  /** Within four-digit years, one timestamp's key sorts before another's exactly when it
      falls on an earlier UTC day. */
  lemma FormatDateChronological(t1: int, t2: int)
    requires -MaxTimeValue <= t1 <= MaxTimeValue && -MaxTimeValue <= t2 <= MaxTimeValue
    requires FourDigitYear(CivilOfDay(DayOf(t1))) && FourDigitYear(CivilOfDay(DayOf(t2)))
    ensures Less(FormatDate(t1), FormatDate(t2)) <==> DayOf(t1) < DayOf(t2)
  {
    var c1, c2 := CivilOfDay(DayOf(t1)), CivilOfDay(DayOf(t2));
    DayKeyOrder(c1, c2);
    if Before(c1, c2) {
      DayOfCivilOrder(c1, c2);
    } else if DayOf(t1) < DayOf(t2) {
      CivilOfDayMonotone(DayOf(t1), DayOf(t2));
    }
  }
}
