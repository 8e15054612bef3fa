/** `dateLocale` of src/utils/utils.ts: a time value shown as "<day> <Month> <year> <h>:<mm> <AM|PM>"
    in the host's local time, together with a reader that recovers the shown fields. */
module DisplayDate {
  import opened Wrappers
  import opened Numerals
  import opened Calendar

  const Months: seq<string> := ["January", "February", "March", "April", "May", "June", "July",
                                "August", "September", "October", "November", "December"]
  const MsPerHour: int := 3_600_000
  const MsPerMinute: int := 60_000

  /** The template's fields for an invalid date: every getter is NaN, `months[NaN]` is
      undefined, NaN % 12 is falsy so the hour shows as 12, and NaN >= 12 is false. */
  const InvalidFields: seq<string> := ["NaN", "undefined", "NaN", "12:NaN", "AM"]

  /** The local getters: full year, month index 0..11, day of month, hours, minutes. */
  datatype LocalTime = LocalTime(year: int, month: int, day: int, hours: int, minutes: int)

  predicate ValidLocal(t: LocalTime) {
    0 <= t.month < 12 && 1 <= t.day <= 31 && 0 <= t.hours < 24 && 0 <= t.minutes < 60
  }

  lemma MinuteDecomposition(q: int)
    ensures (q / 1440) * 1440 + ((q / 60) % 24) * 60 + q % 60 == q
  {
    var h := q / 60;
    assert q == 60 * h + q % 60;
    assert h == 24 * (h / 24) + h % 24;
    assert q / 1440 == h / 24 by {
      var d := h / 24;
      assert 1440 * d <= q < 1440 * d + 1440;
    }
  }

  /** The local getters on a local time value `local`: they lie in their ranges, and together
      they name `local` down to the minute. */
  function LocalTimeOf(local: int): (t: LocalTime)
    ensures ValidLocal(t)
    ensures ValidCivil(Civil(t.year, t.month + 1, t.day))
    ensures DayOfCivil(Civil(t.year, t.month + 1, t.day)) * MsPerDay + t.hours * MsPerHour + t.minutes * MsPerMinute
            == local - local % MsPerMinute
  {
    var c := CivilOfDay(DayOf(local));
    var q := local / MsPerMinute;
    assert local / MsPerHour == q / 60 && DayOf(local) == q / 1440;
    MinuteDecomposition(q);
    LocalTime(c.year, c.month - 1, c.day, (q / 60) % 24, q % 60)
  }

  function Meridiem(hours: int): string {
    if hours >= 12 then "PM" else "AM"
  }

  /** Reading a 12-hour clock back: 12 AM is midnight, 12 PM is noon. */
  function To24(h: int, meridiem: string): int {
    if meridiem == "AM" then (if h == 12 then 0 else h)
    else (if h == 12 then 12 else h + 12)
  }

  /** hours % 12, with 0 shown as 12: an hour of the 12-hour clock that, with its
      meridiem, gives back the 24-hour value. */
  function TwelveHour(hours: int): (h: int)
    requires 0 <= hours < 24
    ensures 1 <= h <= 12
    ensures hours == 0 ==> h == 12 && Meridiem(hours) == "AM"
    ensures 1 <= hours <= 11 ==> h == hours && Meridiem(hours) == "AM"
    ensures hours == 12 ==> h == 12 && Meridiem(hours) == "PM"
    ensures 13 <= hours ==> h == hours - 12 && Meridiem(hours) == "PM"
    ensures To24(h, Meridiem(hours)) == hours
  {
    if hours % 12 == 0 then 12 else hours % 12
  }

  /** "<h>:<mm>" with the minutes padded to two digits. */
  function Clock(hours: int, minutes: int): string
    requires 0 <= hours < 24 && 0 <= minutes < 60
  {
    NatStr(TwelveHour(hours)) + ":" + Pad2(minutes)
  }

  function DisplayFields(t: LocalTime): seq<string>
    requires ValidLocal(t)
  {
    [NatStr(t.day), Months[t.month], IntStr(t.year), Clock(t.hours, t.minutes), Meridiem(t.hours)]
  }

  /** Parts joined with a one-character separator, as a template literal with spaces does. */
  function Join(parts: seq<string>, sep: char): string
    requires |parts| >= 1
  {
    if |parts| == 1 then parts[0] else parts[0] + [sep] + Join(parts[1..], sep)
  }

  /** s.split(sep) for a one-character separator. */
  function Split(s: string, sep: char): (r: seq<string>)
    ensures |r| >= 1
  {
    if s == [] then [[]]
    else
      var rest := Split(s[1..], sep);
      if s[0] == sep then [[]] + rest else [[s[0]] + rest[0]] + rest[1..]
  }

  /** The formatted local time of valid getters. */
  function FormatLocal(t: LocalTime): string
    requires ValidLocal(t)
  {
    Join(DisplayFields(t), ' ')
  }

  /** dateLocale(date) for a time value `ts` and a host whose local time is `offset`
      milliseconds ahead of UTC. */
  function DateLocale(ts: int, offset: int): (r: string)
    ensures |Split(r, ' ')| == 5
    ensures Split(r, ' ')[1] in Months <==> -MaxTimeValue <= ts <= MaxTimeValue
  {
    if ts < -MaxTimeValue || MaxTimeValue < ts then
      InvalidShape();
      Join(InvalidFields, ' ')
    else
      var t := LocalTimeOf(ts + offset);
      DisplayShape(t);
      FormatLocal(t)
  }

  lemma {:induction false} SplitWhole(a: string, sep: char)
    requires sep !in a
    ensures Split(a, sep) == [a]
  {
    if a != [] {
      SplitWhole(a[1..], sep);
      assert [a[0]] + a[1..] == a;
    }
  }

  lemma {:induction false} SplitFirst(a: string, b: string, sep: char)
    requires sep !in a
    ensures Split(a + [sep] + b, sep) == [a] + Split(b, sep)
  {
    var s := a + [sep] + b;
    if a == [] {
      assert s[0] == sep && s[1..] == b;
    } else {
      assert s[0] == a[0] && s[1..] == a[1..] + [sep] + b;
      SplitFirst(a[1..], b, sep);
      assert [a[0]] + a[1..] == a;
    }
  }

  /** Splitting a join on its separator gives the parts back when no part holds it. */
  lemma {:induction false} SplitJoin(parts: seq<string>, sep: char)
    requires |parts| >= 1
    requires forall i :: 0 <= i < |parts| ==> sep !in parts[i]
    ensures Split(Join(parts, sep), sep) == parts
  {
    if |parts| == 1 {
      SplitWhole(parts[0], sep);
    } else {
      SplitJoin(parts[1..], sep);
      SplitFirst(parts[0], Join(parts[1..], sep), sep);
    }
  }

  function IndexOf(xs: seq<string>, x: string): (i: int)
    requires x in xs
    ensures 0 <= i < |xs| && xs[i] == x
    ensures forall j :: 0 <= j < i ==> xs[j] != x
  {
    if xs[0] == x then 0 else 1 + IndexOf(xs[1..], x)
  }

  /** "h:mm" read back as hours 0..12 and minutes. */
  function ParseClock(s: string): Option<(int, int)> {
    if |s| >= 4 && s[|s| - 3] == ':' && AllDigits(s[..|s| - 3]) && AllDigits(s[|s| - 2..])
    then Some((ParseNat(s[..|s| - 3]), ParseNat(s[|s| - 2..])))
    else None
  }

  /** The getters shown by the five fields of a dateLocale string. */
  function ParseFields(fs: seq<string>): Option<LocalTime> {
    if |fs| != 5 || fs[1] !in Months || (fs[4] != "AM" && fs[4] != "PM") || |fs[0]| == 0 || !AllDigits(fs[0])
    then None
    else match (ParseInt(fs[2]), ParseClock(fs[3]))
      case (Some(year), Some((h, m))) => Some(LocalTime(year, IndexOf(Months, fs[1]), ParseNat(fs[0]), To24(h, fs[4]), m))
      case _ => None
  }

  /** Reads a dateLocale string back into the getters it shows. */
  function ParseDisplay(s: string): Option<LocalTime> {
    ParseFields(Split(s, ' '))
  }

  lemma MonthsDistinct()
    ensures |Months| == 12
    ensures forall i, j :: 0 <= i < j < 12 ==> Months[i] != Months[j]
    ensures forall i :: 0 <= i < 12 ==> ' ' !in Months[i]
  {
  }

  /** A string of digits has no space in it. */
  lemma DigitsHaveNoSpace(s: string)
    requires AllDigits(s)
    ensures ' ' !in s
  {
    forall i | 0 <= i < |s|
      ensures s[i] != ' '
    {
      assert IsDigit(s[i]);
    }
  }

  /** "h:mm" made of a digit string, a colon and two digits. */
  lemma ClockParts(c: string, h: string, mm: string, hv: int, mv: int)
    requires c == h + ":" + mm
    requires |h| >= 1 && AllDigits(h) && ParseNat(h) == hv
    requires |mm| == 2 && AllDigits(mm) && ParseNat(mm) == mv
    ensures ' ' !in c
    ensures ParseClock(c) == Some((hv, mv))
  {
    assert c[..|c| - 3] == h;
    assert c[|c| - 2..] == mm;
    DigitsHaveNoSpace(h);
    DigitsHaveNoSpace(mm);
    assert c[|h|] == ':';
  }

  lemma ClockRoundTrip(hours: int, minutes: int)
    requires 0 <= hours < 24 && 0 <= minutes < 60
    ensures ' ' !in Clock(hours, minutes)
    ensures ParseClock(Clock(hours, minutes)) == Some((TwelveHour(hours), minutes))
  {
    Pad2RoundTrip(minutes);
    ParseNatStr(TwelveHour(hours));
    ClockParts(Clock(hours, minutes), NatStr(TwelveHour(hours)), Pad2(minutes), TwelveHour(hours), minutes);
  }

  lemma IntStrHasNoSpace(i: int)
    ensures ' ' !in IntStr(i)
  {
    if i < 0 {
      DigitsHaveNoSpace(NatStr(-i));
      assert IntStr(i) == "-" + NatStr(-i);
    } else {
      DigitsHaveNoSpace(NatStr(i));
    }
  }

  lemma FieldsWithoutSpace(fs: seq<string>, day: string, month: string, year: string, clock: string, meridiem: string)
    requires fs == [day, month, year, clock, meridiem]
    requires ' ' !in day && ' ' !in month && ' ' !in year && ' ' !in clock && ' ' !in meridiem
    ensures forall i :: 0 <= i < |fs| ==> ' ' !in fs[i]
  {
  }

  lemma MeridiemHasNoSpace(hours: int)
    ensures ' ' !in Meridiem(hours)
  {
  }

  /** No field of the shown string holds the space that separates them. */
  lemma DisplayFieldsHaveNoSpace(t: LocalTime)
    requires ValidLocal(t)
    ensures forall i :: 0 <= i < |DisplayFields(t)| ==> ' ' !in DisplayFields(t)[i]
  {
    MonthsDistinct();
    ClockRoundTrip(t.hours, t.minutes);
    DigitsHaveNoSpace(NatStr(t.day));
    IntStrHasNoSpace(t.year);
    MeridiemHasNoSpace(t.hours);
    FieldsWithoutSpace(DisplayFields(t), NatStr(t.day), Months[t.month], IntStr(t.year), Clock(t.hours, t.minutes), Meridiem(t.hours));
  }

  /** The shown string is five space-separated fields: the unpadded day, the month's name,
      the year, the 12-hour clock with two-digit minutes, and the meridiem. */
  lemma DisplayShape(t: LocalTime)
    requires ValidLocal(t)
    ensures Split(FormatLocal(t), ' ') == DisplayFields(t)
  {
    DisplayFieldsHaveNoSpace(t);
    SplitJoin(DisplayFields(t), ' ');
  }

  /** Five fields that show a day, a month name, a year, a 12-hour clock and a meridiem
      read back as the getters they show. */
  lemma ReadFields(fs: seq<string>, t: LocalTime)
    requires ValidLocal(t)
    requires |fs| == 5 && fs[1] == Months[t.month] && fs[4] == Meridiem(t.hours)
    requires |fs[0]| >= 1 && AllDigits(fs[0]) && ParseNat(fs[0]) == t.day
    requires ParseInt(fs[2]) == Some(t.year)
    requires ParseClock(fs[3]) == Some((TwelveHour(t.hours), t.minutes))
    ensures ParseFields(fs) == Some(t)
  {
    MonthsDistinct();
    assert IndexOf(Months, Months[t.month]) == t.month;
  }

  /** The shown day, year and clock read back as the getters they show. */
  lemma FieldsReadable(t: LocalTime, day: string, year: string, clock: string)
    requires ValidLocal(t)
    requires day == NatStr(t.day) && year == IntStr(t.year) && clock == Clock(t.hours, t.minutes)
    ensures |day| >= 1 && AllDigits(day) && ParseNat(day) == t.day
    ensures ParseInt(year) == Some(t.year)
    ensures ParseClock(clock) == Some((TwelveHour(t.hours), t.minutes))
  {
    ClockRoundTrip(t.hours, t.minutes);
    IntStrRoundTrip(t.year);
    ParseNatStr(t.day);
  }

  /** Reading the shown string gives back every getter it was made from. */
  lemma DisplayRoundTrip(t: LocalTime)
    requires ValidLocal(t)
    ensures ParseDisplay(FormatLocal(t)) == Some(t)
  {
    DisplayShape(t);
    var fs := DisplayFields(t);
    FieldsReadable(t, fs[0], fs[2], fs[3]);
    ReadFields(fs, t);
  }

  /** Two valid local times that show the same string are the same to the minute. */
  lemma DisplayInjective(a: LocalTime, b: LocalTime)
    requires ValidLocal(a) && ValidLocal(b)
    requires FormatLocal(a) == FormatLocal(b)
    ensures a == b
  {
    DisplayRoundTrip(a);
    DisplayRoundTrip(b);
  }

  /** The output for an invalid date splits into its five fields, the second not a month. */
  lemma InvalidShape()
    ensures Split(Join(InvalidFields, ' '), ' ') == InvalidFields
    ensures InvalidFields[1] !in Months
  {
    assert forall i :: 0 <= i < |InvalidFields| ==> ' ' !in InvalidFields[i];
    SplitJoin(InvalidFields, ' ');
    assert "undefined" !in Months;
  }

  /** The string shown for an invalid date does not read as a date. */
  lemma InvalidDisplayUnreadable()
    ensures ParseDisplay(Join(InvalidFields, ' ')) == None
  {
    InvalidShape();
  }

  /** A valid time value is read back as the local getters of its local time; the string
      shown for an invalid one does not read as a date at all. */
  lemma DateLocaleReadsBack(ts: int, offset: int)
    ensures -MaxTimeValue <= ts <= MaxTimeValue ==> ParseDisplay(DateLocale(ts, offset)) == Some(LocalTimeOf(ts + offset))
    ensures ts < -MaxTimeValue || MaxTimeValue < ts ==> ParseDisplay(DateLocale(ts, offset)) == None
  {
    if -MaxTimeValue <= ts <= MaxTimeValue {
      DisplayRoundTrip(LocalTimeOf(ts + offset));
    } else {
      InvalidDisplayUnreadable();
    }
  }
}
