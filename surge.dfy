/** The surge rule applied to each token in `run` (src/scripts/fetch-market.ts), taken out
    of the page loop as a function of the token's price and volume objects. */
module Surge {
  import opened Wrappers
  import opened Lex
  import opened Calendar
  import opened Series

  /** A JavaScript number as the arithmetic of the rule can produce it: finite, or one of the
      values a division by zero or an undefined operand yields. */
  datatype Num = Finite(r: real) | PosInf | NegInf | NaN

  /** a / b: division by zero gives Infinity, -Infinity or NaN. */
  function Divide(a: real, b: real): Num {
    if b != 0.0 then Finite(a / b)
    else if a > 0.0 then PosInf
    else if a < 0.0 then NegInf
    else NaN
  }

  function Times(x: Num, k: real): Num
    requires k > 0.0
  {
    if x.Finite? then Finite(x.r * k) else x
  }

  /** x >= t for a finite threshold t: false for NaN and -Infinity, true for Infinity. */
  predicate AtLeast(x: Num, t: real) {
    match x
    case Finite(r) => r >= t
    case PosInf => true
    case NegInf => false
    case NaN => false
  }

  /** Math.round: the nearest integer, halves rounded up. */
  function Round(x: real): int {
    (x + 0.5).Floor
  }

  const MinDays: int := 15
  const AverageDays: int := 14
  const SpikeFactor: real := 1.5
  const MinChangePercent: real := 20.0

  /** What `run` records for a token whose volume and price surged. */
  datatype Surge = Surge(
    surgeDay: string,
    surgeVolume: real,
    surgeMultiplier: Num,
    avgVolume: int,
    priceStart: real,
    priceSurge: real,
    priceToday: real,
    priceChange: Num)

  /** Object.keys(prices).sort() */
  function Dates(prices: Dict): seq<string> {
    Sort(prices.keys)
  }

  /** The sum of the volumes of the given days, or None when some day has no volume entry
      (the `undefined` that makes the JavaScript sum NaN). */
  function VolumeTotal(days: seq<string>, volumes: Dict): Option<real> {
    if days == [] then Some(0.0)
    else match VolumeTotal(days[..|days| - 1], volumes)
      case None => None
      case Some(t) => if days[|days| - 1] in volumes.vals then Some(t + volumes.vals[days[|days| - 1]]) else None
  }

  /** avgVolume14d: the sum of the volumes of the fourteen days before the last, over 14. */
  function Average(days: seq<string>, volumes: Dict): Num {
    match VolumeTotal(days, volumes)
    case Some(t) => Finite(t / AverageDays as real)
    case None => NaN
  }

  /** v >= 1.5 * avgVolume14d, where an undefined v or a NaN average never qualifies. */
  predicate Spike(day: string, volumes: Dict, avg: Num) {
    day in volumes.vals && avg.Finite? && volumes.vals[day] >= SpikeFactor * avg.r
  }

  /** The scan loop with its break: the first of the given days that spikes. */
  function FirstSpike(days: seq<string>, volumes: Dict, avg: Num): (r: Option<string>)
    ensures r.Some? ==> r.value in days && Spike(r.value, volumes, avg)
    ensures r.None? <==> forall d :: d in days ==> !Spike(d, volumes, avg)
    ensures r.Some? ==>
      exists i :: 0 <= i < |days| && days[i] == r.value && forall j :: 0 <= j < i ==> !Spike(days[j], volumes, avg)
  {
    if days == [] then None
    else if Spike(days[0], volumes, avg) then Some(days[0])
    else
      var r := FirstSpike(days[1..], volumes, avg);
      assert r.Some? ==>
        exists i :: 0 <= i < |days| && days[i] == r.value && forall j :: 0 <= j < i ==> !Spike(days[j], volumes, avg)
      by {
        if r.Some? {
          var i :| 0 <= i < |days[1..]| && days[1..][i] == r.value
            && forall j :: 0 <= j < i ==> !Spike(days[1..][j], volumes, avg);
          assert days[i + 1] == r.value;
          forall j | 0 <= j < i + 1
            ensures !Spike(days[j], volumes, avg)
          {
            if j > 0 {
              assert days[j] == days[1..][j - 1];
            }
          }
        }
      }
      r
  }

  /** ((to - from) / from) * 100 */
  function PercentChange(from: real, to: real): Num {
    Times(Divide(to - from, from), 100.0)
  }

  predicate Enough(prices: Dict) {
    |prices.keys| >= MinDays
  }

  /** dates.slice(-15, -1): the fourteen days before the last. */
  function Window(prices: Dict): seq<string>
    requires Enough(prices)
  {
    var dates := Dates(prices);
    dates[|dates| - 15..|dates| - 1]
  }

  /** avgVolume14d */
  function AvgVolume(prices: Dict, volumes: Dict): Num
    requires Enough(prices)
  {
    Average(Window(prices), volumes)
  }

  /** dates[n - 15], the reference day fourteen positions before the last. */
  function StartDay(prices: Dict): string
    requires Enough(prices)
  {
    Dates(prices)[|Dates(prices)| - 15]
  }

  /** The day the scan loop stops at, if any. */
  function SurgeDayOf(prices: Dict, volumes: Dict): Option<string>
    requires Enough(prices)
  {
    var dates := Dates(prices);
    FirstSpike(dates[|dates| - 2..], volumes, AvgVolume(prices, volumes))
  }

  /** The surge rule for one token. */
  function Detect(prices: Dict, volumes: Dict): (r: Option<Surge>)
    requires prices.Valid()
    ensures !Enough(prices) ==> r.None?
    ensures r.Some? ==>
      && Enough(prices)
      && r.value.surgeDay in Dates(prices)[|Dates(prices)| - 2..]
      && Spike(r.value.surgeDay, volumes, AvgVolume(prices, volumes))
      && AtLeast(r.value.priceChange, MinChangePercent)
  {
    if !Enough(prices) then None
    else match SurgeDayOf(prices, volumes)
      case None => None
      case Some(day) =>
        var dates := Dates(prices);
        var avg := AvgVolume(prices, volumes);
        var start := prices.vals[StartDay(prices)];
        var change := PercentChange(start, prices.vals[day]);
        if AtLeast(change, MinChangePercent) then
          Some(Surge(day, volumes.vals[day], Divide(volumes.vals[day], avg.r), Round(avg.r),
                     start, prices.vals[day], prices.vals[dates[|dates| - 1]], change))
        else None
  }

  /** A token with fewer than fifteen distinct days of prices is skipped. */
  lemma ShortHistoryNoSurge(prices: Dict, volumes: Dict)
    requires prices.Valid() && |prices.keys| < MinDays
    ensures Detect(prices, volumes).None?
  {
  }

  /** Only the second-to-last and the last of the sorted dates are scanned, in that order,
      and the first that spikes is the surge day: the earlier one wins when both spike. */
  lemma {:induction false} ScanOfLastTwo(prices: Dict, volumes: Dict)
    requires prices.Valid() && Enough(prices)
    ensures var dates := Dates(prices);
      var n := |dates|;
      var avg := AvgVolume(prices, volumes);
      SurgeDayOf(prices, volumes) ==
        if Spike(dates[n - 2], volumes, avg) then Some(dates[n - 2])
        else if Spike(dates[n - 1], volumes, avg) then Some(dates[n - 1])
        else None
  {
    var dates := Dates(prices);
    var n := |dates|;
    var avg := AvgVolume(prices, volumes);
    var last2 := dates[n - 2..];
    assert last2[0] == dates[n - 2] && last2[1..] == [dates[n - 1]];
    assert FirstSpike(last2, volumes, avg) ==
      if Spike(dates[n - 2], volumes, avg) then Some(dates[n - 2]) else FirstSpike([dates[n - 1]], volumes, avg);
    assert [dates[n - 1]][1..] == [];
    assert FirstSpike([dates[n - 1]], volumes, avg) ==
      if Spike(dates[n - 1], volumes, avg) then Some(dates[n - 1]) else FirstSpike([], volumes, avg);
  }

  /** With no spike on either scanned day there is no result, whatever the price did. */
  lemma NoSpikeNoSurge(prices: Dict, volumes: Dict)
    requires prices.Valid() && Enough(prices)
    requires var dates := Dates(prices);
      !Spike(dates[|dates| - 2], volumes, AvgVolume(prices, volumes))
      && !Spike(dates[|dates| - 1], volumes, AvgVolume(prices, volumes))
    ensures Detect(prices, volumes).None?
  {
    ScanOfLastTwo(prices, volumes);
  }

  /** Once a surge day is found, a record is emitted exactly when the price change from the
      reference day to the surge day is at least 20 percent. */
  lemma EmitsIffPriceRose(prices: Dict, volumes: Dict)
    requires prices.Valid() && Enough(prices) && SurgeDayOf(prices, volumes).Some?
    ensures var day := SurgeDayOf(prices, volumes).value;
      day in prices.vals
      && (Detect(prices, volumes).Some?
          <==> AtLeast(PercentChange(prices.vals[StartDay(prices)], prices.vals[day]), MinChangePercent))
  {
  }

  /** The fields of an emitted record, each read from the sorted dates as the source reads it. */
  lemma SurgeFields(prices: Dict, volumes: Dict)
    requires prices.Valid() && Detect(prices, volumes).Some?
    ensures var s := Detect(prices, volumes).value;
      var dates := Dates(prices);
      var n := |dates|;
      var avg := AvgVolume(prices, volumes);
      && n >= MinDays
      && SurgeDayOf(prices, volumes) == Some(s.surgeDay)
      && (s.surgeDay == dates[n - 2] || s.surgeDay == dates[n - 1])
      && Spike(s.surgeDay, volumes, avg)
      && s.surgeVolume == volumes.vals[s.surgeDay]
      && s.priceStart == prices.vals[dates[n - 15]]
      && s.priceSurge == prices.vals[s.surgeDay]
      && s.priceToday == prices.vals[dates[n - 1]]
      && avg.Finite? && s.avgVolume == Round(avg.r)
      && s.surgeMultiplier == Divide(s.surgeVolume, avg.r)
      && s.priceChange == PercentChange(s.priceStart, s.priceSurge)
      && AtLeast(s.priceChange, MinChangePercent)
  {
    ScanOfLastTwo(prices, volumes);
  }

  /** The average is the mean of exactly fourteen volumes: those of the days at positions
      n-15 .. n-2, leaving out the last day. */
  lemma AverageOfFourteen(prices: Dict, volumes: Dict)
    requires prices.Valid() && |prices.keys| >= MinDays
    requires forall d :: d in prices.vals ==> d in volumes.vals
    ensures var dates := Dates(prices);
      var window := Window(prices);
      |window| == 14 && dates[|dates| - 1] !in window
      && AvgVolume(prices, volumes) == Finite(VolumeSum(window, volumes) / 14.0)
  {
    var dates := Dates(prices);
    var n := |dates|;
    var window := Window(prices);
    SortStrict(prices.keys);
    if dates[n - 1] in window {
      var k :| 0 <= k < |window| && window[k] == dates[n - 1];
      assert dates[n - 15 + k] == dates[n - 1];
      LessIrreflexive(dates[n - 1]);
      assert false;
    }
    TotalOfKnownVolumes(window, volumes);
  }

  /** The plain sum of the volumes of days that all have one. */
  function VolumeSum(days: seq<string>, volumes: Dict): real
    requires forall d :: d in days ==> d in volumes.vals
  {
    if days == [] then 0.0 else VolumeSum(days[..|days| - 1], volumes) + volumes.vals[days[|days| - 1]]
  }

  lemma {:induction false} TotalOfKnownVolumes(days: seq<string>, volumes: Dict)
    requires forall d :: d in days ==> d in volumes.vals
    ensures VolumeTotal(days, volumes) == Some(VolumeSum(days, volumes))
  {
    if days != [] {
      TotalOfKnownVolumes(days[..|days| - 1], volumes);
    }
  }

  /** A day missing from the volumes among the fourteen makes the average NaN, and then no
      day spikes and nothing is emitted. */
  lemma {:induction false} MissingVolumeNoSurge(prices: Dict, volumes: Dict, k: int)
    requires prices.Valid() && |prices.keys| >= MinDays
    requires |prices.keys| - 15 <= k < |prices.keys| - 1 && Dates(prices)[k] !in volumes.vals
    ensures Detect(prices, volumes).None?
  {
    var n := |Dates(prices)|;
    MissingVolumeMakesNaN(Window(prices), volumes, k - (n - 15));
    ScanOfLastTwo(prices, volumes);
  }

  lemma {:induction false} MissingVolumeMakesNaN(days: seq<string>, volumes: Dict, k: int)
    requires 0 <= k < |days| && days[k] !in volumes.vals
    ensures VolumeTotal(days, volumes).None?
  {
    if k < |days| - 1 {
      MissingVolumeMakesNaN(days[..|days| - 1], volumes, k);
    }
  }

  /** A volume of at least 1.5 times a positive average has a finite multiplier of at least 1.5. */
  lemma MultiplierBound(v: real, avg: real)
    requires v >= SpikeFactor * avg && avg > 0.0
    ensures Divide(v, avg).Finite? && Divide(v, avg).r >= SpikeFactor
  {
    assert v / avg * avg == v;
  }

  /** An emitted surge day's volume is at least 1.5 times the average, and for a positive
      average its multiplier is a finite number of at least 1.5. */
  lemma SurgeVolumeExceedsAverage(prices: Dict, volumes: Dict)
    requires prices.Valid() && Detect(prices, volumes).Some?
    ensures var s := Detect(prices, volumes).value;
      var avg := AvgVolume(prices, volumes);
      avg.Finite? && s.surgeVolume >= SpikeFactor * avg.r
      && (avg.r > 0.0 ==> s.surgeMultiplier.Finite? && s.surgeMultiplier.r >= SpikeFactor)
  {
    SurgeFields(prices, volumes);
    var s := Detect(prices, volumes).value;
    var avg := AvgVolume(prices, volumes);
    if avg.r > 0.0 {
      MultiplierBound(s.surgeVolume, avg.r);
    }
  }

  lemma ProductNonNegative(x: real, y: real)
    requires x >= 0.0 && y >= 0.0
    ensures x * y >= 0.0
  {
  }

  /** A change of at least 20 percent from a positive start is a finite one to at least 1.2
      times the start; from a zero start it is an infinite one to a positive price. */
  lemma ChangeBound(start: real, surge: real)
    requires AtLeast(PercentChange(start, surge), MinChangePercent)
    ensures start > 0.0 ==> surge >= 1.2 * start && PercentChange(start, surge).Finite?
    ensures start == 0.0 ==> surge > 0.0 && PercentChange(start, surge) == PosInf
  {
    if start > 0.0 {
      var q := (surge - start) / start;
      assert q * 100.0 >= 20.0;
      assert q * start == surge - start;
      assert q >= 0.2;
      ProductNonNegative(q - 0.2, start);
    }
  }

  /** An emitted record's surge-day price is at least 1.2 times its start price when that is
      positive; when the start price is zero the record is still emitted for any positive
      surge price, with an infinite change. */
  lemma SurgePriceRise(prices: Dict, volumes: Dict)
    requires prices.Valid() && Detect(prices, volumes).Some?
    ensures var s := Detect(prices, volumes).value;
      && (s.priceStart > 0.0 ==> s.priceSurge >= 1.2 * s.priceStart && s.priceChange.Finite?)
      && (s.priceStart == 0.0 ==> s.priceSurge > 0.0 && s.priceChange == PosInf)
  {
    SurgeFields(prices, volumes);
    var s := Detect(prices, volumes).value;
    ChangeBound(s.priceStart, s.priceSurge);
  }

  /** When every price sample lies within a four-digit year, the sorted dates follow the
      days: a date earlier in the list is the key of a strictly earlier UTC day, so the
      reference day precedes the scanned days and the last date is the latest day. */
  lemma DatesFollowDays(ss: seq<Sample>, i: int, j: int)
    requires forall k :: 0 <= k < |ss| ==>
               -MaxTimeValue <= ss[k].ts <= MaxTimeValue && FourDigitYear(CivilOfDay(DayOf(ss[k].ts)))
    requires 0 <= i < j < |Dates(FromSamples(ss))|
    ensures exists a, b ::
              && 0 <= a < |ss| && 0 <= b < |ss|
              && KeyOf(ss[a]) == Dates(FromSamples(ss))[i] && KeyOf(ss[b]) == Dates(FromSamples(ss))[j]
              && DayOf(ss[a].ts) < DayOf(ss[b].ts)
  {
    var prices := FromSamples(ss);
    var dates := Dates(prices);
    SortStrict(prices.keys);
    assert Less(dates[i], dates[j]);
    assert dates[i] in prices.keys && dates[j] in prices.keys;
    KeysOfSamples(ss, dates[i]);
    KeysOfSamples(ss, dates[j]);
    var a :| 0 <= a < |ss| && KeyOf(ss[a]) == dates[i];
    var b :| 0 <= b < |ss| && KeyOf(ss[b]) == dates[j];
    FormatDateChronological(ss[a].ts, ss[b].ts);
  }
}
