/**
 * The expiry sweep of functions/schedule.js: every class whose test ended
 * at least a day ago is deleted through `deleteClass`, with the class's own
 * stored teacherId. Times are milliseconds since 1970-01-01T00:00 in the
 * runtime's time zone, which is taken to be UTC.
 */
module Schedule {
  import opened Common
  import opened Firestore
  import Teacher

  const MINUTE_MS: int := 60 * 1000
  const HOUR_MS: int := 60 * 60 * 1000
  const DAY_MS: int := 24 * 60 * 60 * 1000

  // ---------------------------------------------------------------------
  // The proleptic Gregorian calendar
  // ---------------------------------------------------------------------

  predicate IsLeapYear(y: int)
  {
    y % 4 == 0 && (y % 100 != 0 || y % 400 == 0)
  }

  function DaysInMonth(y: int, m: int): (n: int)
    requires 1 <= m <= 12
    ensures 28 <= n <= 31
  {
    if m == 2 then (if IsLeapYear(y) then 29 else 28)
    else if m == 4 || m == 6 || m == 9 || m == 11 then 30
    else 31
  }

  /** The day number of `y-m-d`, counted from 1970-01-01, by the usual
      closed form: years are shifted to start in March, so that the leap day
      ends a year, and grouped in 400-year cycles of 146097 days. The day of
      the month is not range-checked, so `d` beyond the month runs on into
      the next one. */
  function DaysFromCivil(y: int, m: int, d: int): (n: int)
    requires 1 <= m <= 12
    ensures y >= 1970 && d >= 1 ==> n >= 0
    ensures y < 1970 && d <= 31 ==> n < 0
  {
    var Y := if m <= 2 then y - 1 else y;
    EpochYearStart();
    if Y >= 1969 then
      ShiftedYearStartGrows(1969, Y);
      ShiftedYearStart(Y) + MonthOffset(m) + d - 1 - 719468
    else
      ShiftedYearStartGrows(Y, 1969);
      ShiftedYearStart(Y) + MonthOffset(m) + d - 1 - 719468
  }

  /** The March-based year 1969 starts 719162 days after the calendar's
      day 0. */
  lemma EpochYearStart()
    ensures ShiftedYearStart(1969) == 719162
  {
    assert 1969 / 400 == 4 && 1969 % 400 == 369 && 369 / 4 == 92 && 369 / 100 == 3;
  }

  /** Every March-based year has at least 365 days. */
  lemma {:induction false} ShiftedYearStartGrows(a: int, b: int)
    requires a <= b
    ensures ShiftedYearStart(a) + 365 * (b - a) <= ShiftedYearStart(b)
    decreases b - a
  {
    if a < b {
      ShiftedYearStartGrows(a, b - 1);
      ShiftedYearLength(b - 1);
    }
  }

  /** The day count of the March-based year that `Y` starts. */
  function ShiftedYearStart(Y: int): int
  {
    (Y / 400) * 146097 + (Y % 400) * 365 + (Y % 400) / 4 - (Y % 400) / 100
  }

  /** The days from 1 March to the first of month `m` of the March-based
      year (the closed form's `(153 * mp + 2) / 5`). */
  function MonthOffset(m: int): (n: int)
    requires 1 <= m <= 12
    ensures 0 <= n <= 337
  {
    [306, 337, 0, 31, 61, 92, 122, 153, 184, 214, 245, 275][m - 1]
  }

  /** The quotient and remainder by 400 of the next year. */
  lemma NextCycle(y: int)
    ensures y % 400 == 399 ==> (y + 1) / 400 == y / 400 + 1 && (y + 1) % 400 == 0
    ensures y % 400 != 399 ==> (y + 1) / 400 == y / 400 && (y + 1) % 400 == y % 400 + 1
  {
  }

  /** Leap years repeat every 400 years. */
  lemma LeapByCycle(y: int)
    ensures IsLeapYear(y) <==> IsLeapYear(y % 400)
  {
    var q, t := y / 400, y % 400;
    ShiftMod4(100 * q, t);
    ShiftMod100(4 * q, t);
  }

  /** Adding a multiple of 4 does not change the remainder by 4. */
  lemma ShiftMod4(k: int, t: int)
    ensures (4 * k + t) % 4 == t % 4
  {
    assert 4 * k + t == 4 * (k + t / 4) + t % 4;
  }

  /** Adding a multiple of 100 does not change the remainder by 100. */
  lemma ShiftMod100(k: int, t: int)
    ensures (100 * k + t) % 100 == t % 100
  {
    assert 100 * k + t == 100 * (k + t / 100) + t % 100;
  }

  /** Inside a 400-year cycle, the year after `t` adds 365 days, plus one
      when it is a leap year. */
  lemma InCycleYearLength(t: int)
    requires 0 <= t < 399
    ensures (t + 1) * 365 + (t + 1) / 4 - (t + 1) / 100 - (t * 365 + t / 4 - t / 100) ==
      365 + (if IsLeapYear(t + 1) then 1 else 0)
  {
    assert (t + 1) / 4 - t / 4 == if (t + 1) % 4 == 0 then 1 else 0;
    assert (t + 1) / 100 - t / 100 == if (t + 1) % 100 == 0 then 1 else 0;
    if (t + 1) % 100 == 0 {
      assert t + 1 == 100 || t + 1 == 200 || t + 1 == 300;
    }
  }

  /** The March-based year that starts in March of `y` has 365 days, plus one
      when the February that ends it is a leap February. */
  lemma ShiftedYearLength(y: int)
    ensures ShiftedYearStart(y + 1) - ShiftedYearStart(y) == 365 + (if IsLeapYear(y + 1) then 1 else 0)
  {
    NextCycle(y);
    LeapByCycle(y + 1);
    var q, t := y / 400, y % 400;
    if t == 399 {
      assert ShiftedYearStart(y) == q * 146097 + 399 * 365 + 99 - 3;
      assert ShiftedYearStart(y + 1) == (q + 1) * 146097;
    } else {
      InCycleYearLength(t);
      assert ShiftedYearStart(y) == q * 146097 + t * 365 + t / 4 - t / 100;
      assert ShiftedYearStart(y + 1) == q * 146097 + (t + 1) * 365 + (t + 1) / 4 - (t + 1) / 100;
    }
  }

  /** The first of every month is the first of the previous month plus that
      month's length, also across a year end. */
  lemma NextMonth(y: int, m: int)
    requires 1 <= m <= 12
    ensures m < 12 ==> DaysFromCivil(y, m + 1, 1) == DaysFromCivil(y, m, 1) + DaysInMonth(y, m)
    ensures m == 12 ==> DaysFromCivil(y + 1, 1, 1) == DaysFromCivil(y, 12, 1) + 31
  {
    if m == 2 {
      ShiftedYearLength(y - 1);
    }
  }

  /** Days from 1970-01-01 to the first of `y-m`, counted month by month:
      forwards from the epoch for later months, backwards for earlier ones. */
  function CountedDays(y: int, m: int): int
    requires 1 <= m <= 12
    decreases if y >= 1970 then y - 1970 else 1970 - y, if y >= 1970 then m else 12 - m
  {
    if y >= 1970 then
      if m > 1 then CountedDays(y, m - 1) + DaysInMonth(y, m - 1)
      else if y == 1970 then 0
      else CountedDays(y - 1, 12) + DaysInMonth(y - 1, 12)
    else if m < 12 then CountedDays(y, m + 1) - DaysInMonth(y, m)
    else CountedDays(y + 1, 1) - 31
  }

  /** 1970-01-01 is day 0. */
  lemma EpochDay()
    ensures DaysFromCivil(1970, 1, 1) == 0
  {
    EpochYearStart();
  }

  /** The closed form agrees with counting from the epoch, in both
      directions. */
  lemma DaysFromCivilCounts(y: int, m: int)
    requires 1 <= m <= 12
    ensures DaysFromCivil(y, m, 1) == CountedDays(y, m)
  {
    if y >= 1970 {
      CountsForwards(y, m);
    } else {
      CountsBackwards(y, m);
    }
  }

  /** The count from the epoch onwards. */
  lemma {:induction false} CountsForwards(y: int, m: int)
    requires y >= 1970 && 1 <= m <= 12
    ensures DaysFromCivil(y, m, 1) == CountedDays(y, m)
    decreases y, m
  {
    if m > 1 {
      CountsForwards(y, m - 1);
      CountsNextMonth(y, m - 1);
    } else if y == 1970 {
      EpochDay();
    } else {
      CountsForwards(y - 1, 12);
      CountsNextMonth(y - 1, 12);
    }
  }

  /** The count back from the epoch. */
  lemma {:induction false} CountsBackwards(y: int, m: int)
    requires y < 1970 && 1 <= m <= 12
    ensures DaysFromCivil(y, m, 1) == CountedDays(y, m)
    decreases 1970 - y, 12 - m
  {
    if m < 12 {
      CountsBackwards(y, m + 1);
      CountsNextMonth(y, m);
    } else if y == 1969 {
      EpochDay();
      CountsNextMonth(y, 12);
    } else {
      CountsBackwards(y + 1, 1);
      CountsNextMonth(y, 12);
    }
  }

  /** One step of the count: the closed form agrees on the first of a month
      exactly when it agrees on the first of the next one. */
  lemma CountsNextMonth(y: int, m: int)
    requires 1 <= m <= 12
    ensures m < 12 ==> (DaysFromCivil(y, m, 1) == CountedDays(y, m) <==>
                        DaysFromCivil(y, m + 1, 1) == CountedDays(y, m + 1))
    ensures m == 12 ==> (DaysFromCivil(y, 12, 1) == CountedDays(y, 12) <==>
                         DaysFromCivil(y + 1, 1, 1) == CountedDays(y + 1, 1))
  {
    NextMonth(y, m);
    CountedStep(y, m);
  }

  /** The count grows by the month's length from one first of a month to
      the next. */
  lemma CountedStep(y: int, m: int)
    requires 1 <= m <= 12
    ensures m < 12 ==> CountedDays(y, m + 1) == CountedDays(y, m) + DaysInMonth(y, m)
    ensures m == 12 ==> CountedDays(y + 1, 1) == CountedDays(y, 12) + 31
  {
  }

  // ---------------------------------------------------------------------
  // new Date(year, month, day, hours, minutes)
  // ---------------------------------------------------------------------

  /** A year in 0..99 means 1900 + year. */
  function FullYear(year: int): (y: int)
    ensures 0 <= year <= 99 ==> y == 1900 + year
    ensures !(0 <= year <= 99) ==> y == year
  {
    if 0 <= year <= 99 then 1900 + year else year
  }

  /** The largest distance from the epoch a Date can hold: 10^8 days. */
  const MAX_TIME: int := 8640000000000000

  /** `TimeClip`: a time value beyond `MAX_TIME` either side of the epoch is
      an Invalid Date (`None`). */
  function TimeClip(t: int): (r: Option<int>)
    ensures r.Some? <==> -MAX_TIME <= t <= MAX_TIME
    ensures r.Some? ==> r.value == t
  {
    if -MAX_TIME <= t <= MAX_TIME then Some(t) else None
  }

  /** The time value the fields of `new Date(year, month0, day, hour, minute)`
      name, before clipping, with a zero-based month: a month outside 0..11
      moves the year, and day, hour and minute outside their ranges run on
      linearly. */
  function LocalInstant(year: int, month0: int, day: int, hour: int, minute: int): int
  {
    var y := FullYear(year) + month0 / 12;
    var m := month0 % 12 + 1;
    (DaysFromCivil(y, m, 1) + day - 1) * DAY_MS + hour * HOUR_MS + minute * MINUTE_MS
  }

  /** `new Date(year, month0, day, hour, minute)`: a whole number of minutes
      within the Date range, or an Invalid Date. */
  function MakeDate(year: int, month0: int, day: int, hour: int, minute: int): (r: Option<int>)
    ensures r.Some? ==> -MAX_TIME <= r.value <= MAX_TIME && r.value % MINUTE_MS == 0
  {
    var days := DaysFromCivil(FullYear(year) + month0 / 12, month0 % 12 + 1, 1) + day - 1;
    WholeMinutes(days, hour, minute);
    TimeClip(LocalInstant(year, month0, day, hour, minute))
  }

  /** Whole days, hours and minutes make a whole number of minutes. */
  lemma WholeMinutes(days: int, hour: int, minute: int)
    ensures (days * DAY_MS + hour * HOUR_MS + minute * MINUTE_MS) % MINUTE_MS == 0
  {
    var k := days * 1440 + hour * 60 + minute;
    assert days * DAY_MS + hour * HOUR_MS + minute * MINUTE_MS == 60000 * k;
  }

  /** For a time of day within range, the date's day number and time within
      the day are the ones its fields name. */
  lemma MakeDateParts(year: int, month0: int, day: int, hour: int, minute: int)
    requires 0 <= hour < 24 && 0 <= minute < 60
    requires MakeDate(year, month0, day, hour, minute).Some?
    ensures MakeDate(year, month0, day, hour, minute).value / DAY_MS ==
      DaysFromCivil(FullYear(year) + month0 / 12, month0 % 12 + 1, 1) + day - 1
    ensures MakeDate(year, month0, day, hour, minute).value % DAY_MS == hour * HOUR_MS + minute * MINUTE_MS
  {
    var days := DaysFromCivil(FullYear(year) + month0 / 12, month0 % 12 + 1, 1) + day - 1;
    var within := hour * HOUR_MS + minute * MINUTE_MS;
    assert 0 <= within < DAY_MS;
    assert MakeDate(year, month0, day, hour, minute).value == days * DAY_MS + within;
  }

  /** Month 12 of one year is month 0 of the next, month -1 is December of
      the previous one. */
  lemma MonthOverflow(year: int, day: int, hour: int, minute: int)
    requires year >= 101
    ensures MakeDate(year, 12, day, hour, minute) == MakeDate(year + 1, 0, day, hour, minute)
    ensures MakeDate(year, -1, day, hour, minute) == MakeDate(year - 1, 11, day, hour, minute)
  {
    assert 12 / 12 == 1 && 12 % 12 == 0 && 0 / 12 == 0 && 0 % 12 == 0;
    assert -1 / 12 == -1 && -1 % 12 == 11 && 11 / 12 == 0 && 11 % 12 == 11;
    assert FullYear(year) == year && FullYear(year + 1) == year + 1 && FullYear(year - 1) == year - 1;
  }

  /** A date field converted to a number: a string of decimal digits
      denotes its value (the empty string 0); anything else, or a field the
      split did not produce, is NaN. */
  function ParseField(parts: seq<string>, i: nat): (r: Option<int>)
    ensures r.Some? <==> i < |parts| && AllDigits(parts[i])
    ensures r.Some? ==> r.value == DecimalValue(parts[i])
  {
    if i < |parts| && AllDigits(parts[i]) then Some(DecimalValue(parts[i])) else None
  }

  /** The start of the test: `testDate` split on '-' into year, month and
      day, `testStartTime` split on ':' into hour and minute, the month
      made zero-based. `None` is an Invalid Date. */
  function TestStart(testDate: string, testStartTime: string): (r: Option<int>)
    ensures r.Some? ==> -MAX_TIME <= r.value <= MAX_TIME && r.value % MINUTE_MS == 0
    ensures |Split(testDate, '-')| < 3 || |Split(testStartTime, ':')| < 2 ==> r.None?
  {
    StartFromParts(Split(testDate, '-'), Split(testStartTime, ':'))
  }

  /** `new Date(testYear, testMonth - 1, testDay, testHour, testMinute)` of
      the destructured segments. */
  function StartFromParts(date: seq<string>, time: seq<string>): Option<int>
  {
    var year, month, day := ParseField(date, 0), ParseField(date, 1), ParseField(date, 2);
    var hour, minute := ParseField(time, 0), ParseField(time, 1);
    if year.Some? && month.Some? && day.Some? && hour.Some? && minute.Some? then
      MakeDate(year.value, month.value - 1, day.value, hour.value, minute.value)
    else
      None
  }

  /** The end of the test: `new Date` of the start plus the stored hours and
      minutes. An Invalid start gives an Invalid end, and so does an end
      outside the Date range. */
  function TestEnd(doc: ClassDoc): (r: Option<int>)
    ensures TestStart(doc.testDate, doc.testStartTime).None? ==> r.None?
    ensures r.Some? ==> -MAX_TIME <= r.value <= MAX_TIME
  {
    var start := TestStart(doc.testDate, doc.testStartTime);
    if start.None? then None
    else TimeClip(start.value + doc.testTimeHours * HOUR_MS + doc.testTimeMinutes * MINUTE_MS)
  }

  /** `testEndDateTime <= cutoff` with `cutoff = now - 24 h`. An Invalid Date
      compares false, so a class whose start is Invalid is never due. */
  function IsExpired(doc: ClassDoc, now: int): (due: bool)
    ensures due ==> TestStart(doc.testDate, doc.testStartTime).Some?
  {
    var end := TestEnd(doc);
    end.Some? && end.value <= now - DAY_MS
  }

  /** A string of digits holds no separator. */
  lemma NoSeparatorInDigits(s: string, sep: char)
    requires AllDigits(s) && !IsDigit(sep)
    ensures sep !in s
  {
    forall i | 0 <= i < |s|
      ensures s[i] != sep
    {
      assert IsDigit(s[i]);
    }
  }

  /** A date of three digit fields splits into those fields. */
  lemma SplitDate(ys: string, ms: string, ds: string)
    requires AllDigits(ys) && AllDigits(ms) && AllDigits(ds)
    ensures Split(ys + "-" + ms + "-" + ds, '-') == [ys, ms, ds]
  {
    NoSeparatorInDigits(ys, '-');
    NoSeparatorInDigits(ms, '-');
    NoSeparatorInDigits(ds, '-');
    SplitNoSeparator(ds, '-');
    SplitPeel(ms, '-', ds);
    assert ms + "-" + ds == ms + ['-'] + ds;
    SplitPeel(ys, '-', ms + "-" + ds);
    assert ys + "-" + ms + "-" + ds == ys + ['-'] + (ms + "-" + ds);
  }

  /** A time of two digit fields splits into those fields. */
  lemma SplitTime(hs: string, mins: string)
    requires AllDigits(hs) && AllDigits(mins)
    ensures Split(hs + ":" + mins, ':') == [hs, mins]
  {
    NoSeparatorInDigits(hs, ':');
    NoSeparatorInDigits(mins, ':');
    SplitNoSeparator(mins, ':');
    SplitPeel(hs, ':', mins);
    assert hs + ":" + mins == hs + [':'] + mins;
  }

  /** For fields of decimal digits denoting `year`, `month`, `day`, `hour`
      and `minute`, the start is `new Date` of those numbers with the month
      made zero-based. */
  lemma TestStartFromFields(ys: string, ms: string, ds: string, hs: string, mins: string,
                            year: int, month: int, day: int, hour: int, minute: int)
    requires AllDigits(ys) && AllDigits(ms) && AllDigits(ds) && AllDigits(hs) && AllDigits(mins)
    requires DecimalValue(ys) == year && DecimalValue(ms) == month && DecimalValue(ds) == day
    requires DecimalValue(hs) == hour && DecimalValue(mins) == minute
    ensures TestStart(ys + "-" + ms + "-" + ds, hs + ":" + mins) == MakeDate(year, month - 1, day, hour, minute)
  {
    SplitDate(ys, ms, ds);
    SplitTime(hs, mins);
    StartFromFields([ys, ms, ds], [hs, mins], year, month, day, hour, minute);
  }

  /** The destructured segments, read as numbers, give `new Date` of them. */
  lemma StartFromFields(date: seq<string>, time: seq<string>, year: int, month: int, day: int, hour: int, minute: int)
    requires |date| == 3 && |time| == 2
    requires forall i :: 0 <= i < 3 ==> AllDigits(date[i])
    requires forall i :: 0 <= i < 2 ==> AllDigits(time[i])
    requires DecimalValue(date[0]) == year && DecimalValue(date[1]) == month && DecimalValue(date[2]) == day
    requires DecimalValue(time[0]) == hour && DecimalValue(time[1]) == minute
    ensures StartFromParts(date, time) == MakeDate(year, month - 1, day, hour, minute)
  {
    FieldValue(date, 0, year);
    FieldValue(date, 1, month);
    FieldValue(date, 2, day);
    FieldValue(time, 0, hour);
    FieldValue(time, 1, minute);
  }

  /** The end is the start plus the stored duration, unless that falls
      outside the Date range. */
  lemma EndFromStart(doc: ClassDoc, start: int)
    requires TestStart(doc.testDate, doc.testStartTime) == Some(start)
    ensures var end := start + doc.testTimeHours * 60 * 60 * 1000 + doc.testTimeMinutes * 60 * 1000;
      (-8640000000000000 <= end <= 8640000000000000 ==> TestEnd(doc) == Some(end)) &&
      (!(-8640000000000000 <= end <= 8640000000000000) ==> TestEnd(doc) == None)
  {
    var end := start + doc.testTimeHours * HOUR_MS + doc.testTimeMinutes * MINUTE_MS;
    assert TestEnd(doc) == TimeClip(end);
    assert end == start + doc.testTimeHours * 60 * 60 * 1000 + doc.testTimeMinutes * 60 * 1000;
  }

  /** A class whose end falls outside the Date range is never due, however
      late the sweep runs. */
  lemma ClippedEndNeverDue(doc: ClassDoc, start: int, now: int)
    requires TestStart(doc.testDate, doc.testStartTime) == Some(start)
    requires !(-MAX_TIME <= start + doc.testTimeHours * HOUR_MS + doc.testTimeMinutes * MINUTE_MS <= MAX_TIME)
    ensures !IsExpired(doc, now)
  {
    EndFromStart(doc, start);
  }

  /** A segment of digits converts to the number it denotes. */
  lemma FieldValue(parts: seq<string>, i: nat, v: int)
    requires i < |parts| && AllDigits(parts[i]) && DecimalValue(parts[i]) == v
    ensures ParseField(parts, i) == Some(v)
  {
  }

  /** Selection is exactly "the test ended at least 24 hours before now";
      the boundary itself is selected. */
  lemma ExpiredIff(doc: ClassDoc, now: int)
    ensures IsExpired(doc, now) <==> TestEnd(doc).Some? && TestEnd(doc).value + 86400000 <= now
    ensures TestEnd(doc).Some? && now == TestEnd(doc).value + 86400000 ==> IsExpired(doc, now)
  {
  }

  /** A class selected at some time stays selected at every later time. */
  lemma ExpiryMonotone(doc: ClassDoc, now: int, later: int)
    requires IsExpired(doc, now) && now <= later
    ensures IsExpired(doc, later)
  {
  }

  /** The fields of the worked example below, read as numbers. */
  lemma ExampleDigits()
    ensures DecimalValue("2024") == 2024 && DecimalValue("01") == 1
    ensures DecimalValue("09") == 9 && DecimalValue("00") == 0
  {
    assert "2024"[..3] == "202" && "202"[..2] == "20" && "20"[..1] == "2" && "2"[..0] == "";
    assert "01"[..1] == "0" && "09"[..1] == "0" && "00"[..1] == "0" && "0"[..0] == "";
  }

  /** 2024-01-01 is day 19723 of the epoch; 09:00 that day is
      1704099600000 ms. */
  lemma ExampleDay()
    ensures DaysFromCivil(2024, 1, 1) == 19723
    ensures MakeDate(2024, 0, 1, 9, 0) == Some(1704099600000)
  {
    assert 2023 / 400 == 5 && 2023 % 400 == 23;
    assert (1 + 9) % 12 == 10 && (153 * 10 + 2) / 5 == 306;
    assert 23 / 4 == 5 && 23 / 100 == 0;
    assert DaysFromCivil(2024, 1, 1) == 5 * 146097 + (23 * 365 + 5 - 0 + 306) - 719468;
    assert FullYear(2024) + 0 / 12 == 2024 && 0 % 12 + 1 == 1;
  }

  /** A test on 2024-01-01 from 09:00 lasting 1 h 30 m ends at
      2024-01-01T10:30; it is swept at 2024-01-03T00:00 but not yet at
      2024-01-01T20:00. */
  lemma WorkedExample(doc: ClassDoc)
    requires doc.testDate == "2024-01-01" && doc.testStartTime == "09:00"
    requires doc.testTimeHours == 1 && doc.testTimeMinutes == 30
    ensures TestEnd(doc) == Some(1704105000000)
    ensures IsExpired(doc, 1704240000000)
    ensures !IsExpired(doc, 1704139200000)
  {
    assert "2024-01-01" == "2024" + "-" + "01" + "-" + "01";
    assert "09:00" == "09" + ":" + "00";
    assert AllDigits("2024") && AllDigits("01") && AllDigits("09") && AllDigits("00");
    ExampleDigits();
    TestStartFromFields("2024", "01", "01", "09", "00", 2024, 1, 1, 9, 0);
    ExampleDay();
    EndFromStart(doc, 1704099600000);
  }

  /** The same test with a duration of minus three billion hours, which the
      class form accepts, ends before the Date range begins: its end is an
      Invalid Date and the sweep never deletes it. */
  lemma HugeNegativeDurationNeverDue(doc: ClassDoc, now: int)
    requires doc.testDate == "2024-01-01" && doc.testStartTime == "09:00"
    requires doc.testTimeHours == -3000000000 && doc.testTimeMinutes == 0
    ensures TestEnd(doc) == None
    ensures !IsExpired(doc, now)
  {
    assert "2024-01-01" == "2024" + "-" + "01" + "-" + "01";
    assert "09:00" == "09" + ":" + "00";
    assert AllDigits("2024") && AllDigits("01") && AllDigits("09") && AllDigits("00");
    ExampleDigits();
    TestStartFromFields("2024", "01", "01", "09", "00", 2024, 1, 1, 9, 0);
    ExampleDay();
    ClippedEndNeverDue(doc, 1704099600000, now);
    EndFromStart(doc, 1704099600000);
  }

  // ---------------------------------------------------------------------
  // scheduledClassCleanup
  // ---------------------------------------------------------------------

  /** The classes the sweep at `now` selects. */
  function SelectedForDeletion(classes: map<string, ClassDoc>, now: int): (ids: set<string>)
    ensures forall id :: id in ids <==> id in classes && IsExpired(classes[id], now)
  {
    set id | id in classes && IsExpired(classes[id], now)
  }

  /** A later sweep selects at least what an earlier one over the same
      classes did. */
  lemma SelectionGrows(classes: map<string, ClassDoc>, now: int, later: int)
    requires now <= later
    ensures SelectedForDeletion(classes, now) <= SelectedForDeletion(classes, later)
  {
    forall id | id in SelectedForDeletion(classes, now)
      ensures id in SelectedForDeletion(classes, later)
    {
      ExpiryMonotone(classes[id], now, later);
    }
  }

  /** The request body `{classId, teacherId}` of one delete call. */
  datatype DeleteCall = DeleteCall(classId: string, teacherId: string)

  /** `callDeleteClassFunction`: `deleteClass` with a reply that is thrown
      away. With the class's own teacherId the ownership check passes, so
      the class goes with its pdf folder unless the blob removal fails. */
  method CallDeleteClassFunction(db: Db, classId: string, teacherId: string, storageFails: bool)
    requires db.Valid()
    requires classId in db.classes && db.classes[classId].teacherId == teacherId
    modifies db
    ensures db.Valid() && db.students == old(db.students)
    ensures storageFails ==> db.classes == old(db.classes) && db.bucket == old(db.bucket)
    ensures !storageFails ==>
      db.classes == old(db.classes) - {classId} &&
      db.bucket == RemoveFolder(old(db.bucket), PdfFolder(classId))
  {
    var _ := Teacher.DeleteClass(db, teacherId, classId, storageFails);
  }

  /** The calls the sweep makes, given the snapshot it read: one per
      selected class, carrying that class's stored teacherId. */
  method CollectExpired(classes: map<string, ClassDoc>, now: int) returns (calls: seq<DeleteCall>)
    ensures forall c | c in calls ::
      c.classId in classes && IsExpired(classes[c.classId], now) && c.teacherId == classes[c.classId].teacherId
    ensures forall id | id in classes && IsExpired(classes[id], now) ::
      DeleteCall(id, classes[id].teacherId) in calls
    ensures forall i, j :: 0 <= i < j < |calls| ==> calls[i].classId != calls[j].classId
  {
    var ids := Snapshot(classes);
    calls := [];
    for k := 0 to |ids|
      invariant forall c | c in calls ::
        c.classId in ids[..k] && c.classId in classes && IsExpired(classes[c.classId], now) &&
        c.teacherId == classes[c.classId].teacherId
      invariant forall id | id in ids[..k] && IsExpired(classes[id], now) ::
        DeleteCall(id, classes[id].teacherId) in calls
      invariant forall i, j :: 0 <= i < j < |calls| ==> calls[i].classId != calls[j].classId
    {
      var id := ids[k];
      assert ids[..k + 1] == ids[..k] + [id];
      assert id !in ids[..k];
      if IsExpired(classes[id], now) {
        calls := calls + [DeleteCall(id, classes[id].teacherId)];
      }
    }
    assert ids[..|ids|] == ids;
  }

  /** One delete call of the sweep, on top of those before it: `done` are
      the classes already gone. */
  method RunDelete(db: Db, c: DeleteCall, storageFails: bool,
                   ghost classes0: map<string, ClassDoc>, ghost bucket0: map<string, Blob>, ghost done: set<string>)
    returns (ghost done': set<string>)
    requires db.Valid() && c.classId in db.classes && db.classes[c.classId].teacherId == c.teacherId
    requires db.classes == classes0 - done && db.bucket == RemovePdfFolders(bucket0, done)
    modifies db
    ensures done' == if storageFails then done else done + {c.classId}
    ensures db.classes == classes0 - done' && db.bucket == RemovePdfFolders(bucket0, done')
    ensures db.students == old(db.students) && db.Valid()
  {
    CallDeleteClassFunction(db, c.classId, c.teacherId, storageFails);
    done' := done;
    if !storageFails {
      RemoveOneMorePdfFolder(bucket0, done, c.classId);
      done' := done + {c.classId};
    }
  }

  /** The classes named by the first `k + 1` calls are those named by the
      first `k` and the next one. */
  lemma CallIdsStep(calls: seq<DeleteCall>, k: nat)
    requires k < |calls|
    ensures (set i | 0 <= i < k + 1 :: calls[i].classId) == (set i | 0 <= i < k :: calls[i].classId) + {calls[k].classId}
  {
  }

  /** The delete calls run one after another. */
  method RunDeletes(db: Db, calls: seq<DeleteCall>, storageFailures: set<string>)
    requires db.Valid()
    requires forall i, j :: 0 <= i < j < |calls| ==> calls[i].classId != calls[j].classId
    requires forall i :: 0 <= i < |calls| ==>
      calls[i].classId in db.classes && db.classes[calls[i].classId].teacherId == calls[i].teacherId
    modifies db
    ensures var deleted := (set i | 0 <= i < |calls| :: calls[i].classId) - storageFailures;
      db.classes == old(db.classes) - deleted &&
      db.bucket == RemovePdfFolders(old(db.bucket), deleted)
    ensures db.students == old(db.students) && db.Valid()
  {
    ghost var done: set<string> := {};
    RemoveNoPdfFolder(db.bucket);
    for k := 0 to |calls|
      invariant done == (set i | 0 <= i < k :: calls[i].classId) - storageFailures
      invariant db.classes == old(db.classes) - done
      invariant db.bucket == RemovePdfFolders(old(db.bucket), done)
      invariant db.students == old(db.students)
      invariant db.Valid()
    {
      var c := calls[k];
      assert c.classId !in done;
      done := RunDelete(db, c, c.classId in storageFailures, old(db.classes), old(db.bucket), done);
      CallIdsStep(calls, k);
    }
  }

  /** `scheduledClassCleanup`: reads all classes once, issues exactly one
      delete per selected class with its stored teacherId, and so removes
      every selected class whose blob removal succeeds, with its pdf folder.
      Unselected classes, and every student subcollection, stay. */
  method ScheduledClassCleanup(db: Db, now: int, storageFailures: set<string>) returns (calls: seq<DeleteCall>)
    requires db.Valid()
    modifies db
    ensures forall c | c in calls ::
      c.classId in old(db.classes) && IsExpired(old(db.classes)[c.classId], now) &&
      c.teacherId == old(db.classes)[c.classId].teacherId
    ensures forall id | id in SelectedForDeletion(old(db.classes), now) ::
      DeleteCall(id, old(db.classes)[id].teacherId) in calls
    ensures forall i, j :: 0 <= i < j < |calls| ==> calls[i].classId != calls[j].classId
    ensures var deleted := SelectedForDeletion(old(db.classes), now) - storageFailures;
      db.classes == old(db.classes) - deleted &&
      db.bucket == RemovePdfFolders(old(db.bucket), deleted)
    ensures db.students == old(db.students) && db.Valid()
  {
    calls := CollectExpired(db.classes, now);
    ghost var selected := set i | 0 <= i < |calls| :: calls[i].classId;
    assert selected == SelectedForDeletion(db.classes, now) by {
      forall id | id in SelectedForDeletion(db.classes, now) ensures id in selected {
        var i :| 0 <= i < |calls| && calls[i] == DeleteCall(id, db.classes[id].teacherId);
      }
    }
    RunDeletes(db, calls, storageFailures);
  }
}
