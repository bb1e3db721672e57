/**
 The calendar arithmetic of the run header (`chrono_like`, src/main.rs):
 days since 1970-01-01 to a proleptic Gregorian date (section 3.2.1 of
 ISO 8601:2004), with `/` and `%` Euclidean as in the source.
*/
module Calendar {
  datatype Date = Date(year: int, month: int, day: int)

  // ----- the calendar itself ----------------------------------------------

  predicate Leap(y: int) { y % 4 == 0 && (y % 100 != 0 || y % 400 == 0) }

  function DaysInMonth(y: int, m: int): int {
    if m == 2 then (if Leap(y) then 29 else 28)
    else if m == 4 || m == 6 || m == 9 || m == 11 then 30
    else 31
  }

  predicate Valid(d: Date) { 1 <= d.month <= 12 && 1 <= d.day <= DaysInMonth(d.year, d.month) }

  function NextDay(d: Date): Date {
    if d.day < DaysInMonth(d.year, d.month) then d.(day := d.day + 1)
    else if d.month < 12 then Date(d.year, d.month + 1, 1)
    else Date(d.year + 1, 1, 1)
  }

  // ----- the source's formula ---------------------------------------------

  function YearOfEra(doe: int): int { (doe - doe / 1460 + doe / 36524 - doe / 146_096) / 365 }

  function DayOfYear(doe: int, yoe: int): int { doe - (365 * yoe + yoe / 4 - yoe / 100) }

  function MonthIndex(doy: int): int { (5 * doy + 2) / 153 }

  function CivilFromDays(days: int): Date {
    var z := days + 719_468;
    var era := z / 146_097;
    var doe := z % 146_097;
    var yoe := YearOfEra(doe);
    var y := yoe + era * 400;
    var doy := DayOfYear(doe, yoe);
    var mp := MonthIndex(doy);
    var d := doy - (153 * mp + 2) / 5 + 1;
    var mth := if mp < 10 then mp + 3 else mp - 9;
    Date(if mth <= 2 then y + 1 else y, mth, d)
  }

  datatype Stamp = Stamp(date: Date, hour: int, minute: int, second: int)

  function ChronoLike(ms: nat): Stamp {
    var secs := ms / 1000;
    var days, rem := secs / 86_400, secs % 86_400;
    Stamp(CivilFromDays(days), rem / 3600, (rem % 3600) / 60, rem % 60)
  }

  // ----- day numbers counted from the calendar ----------------------------

  /** Days before 1 January of year `y`, counted from 1 January of year 1. */
  function DaysBeforeYear(y: int): int {
    365 * (y - 1) + (y - 1) / 4 - (y - 1) / 100 + (y - 1) / 400
  }

  function DaysBeforeMonth(y: int, m: int): int
    decreases m
  {
    if m <= 1 then 0 else DaysBeforeMonth(y, m - 1) + DaysInMonth(y, m - 1)
  }

  /** The day's number, with 1970-01-01 as day 0. */
  function DayNumber(d: Date): int {
    DaysBeforeYear(d.year) + DaysBeforeMonth(d.year, d.month) + d.day - 1 - 719_162
  }

  lemma QuotientSteps(y: int)
    ensures y / 4 == (y - 1) / 4 + (if y % 4 == 0 then 1 else 0)
    ensures y / 100 == (y - 1) / 100 + (if y % 100 == 0 then 1 else 0)
    ensures y / 400 == (y - 1) / 400 + (if y % 400 == 0 then 1 else 0)
  {
  }

  lemma MultipleOfHundred(y: int)
    requires y % 100 == 0
    ensures y % 4 == 0
  {
    var t := y / 100;
    assert y == 4 * (25 * t) + 0;
  }

  lemma MultipleOfFourHundred(y: int)
    requires y % 400 == 0
    ensures y % 100 == 0
  {
    var t := y / 400;
    assert y == 100 * (4 * t) + 0;
  }

  lemma Multiples(y: int)
    ensures y % 400 == 0 ==> y % 100 == 0
    ensures y % 100 == 0 ==> y % 4 == 0
  {
    if y % 400 == 0 { MultipleOfFourHundred(y); }
    if y % 100 == 0 { MultipleOfHundred(y); }
  }

  lemma YearLength(y: int)
    ensures DaysBeforeYear(y + 1) - DaysBeforeYear(y) == if Leap(y) then 366 else 365
  {
    QuotientSteps(y);
    Multiples(y);
  }

  lemma MonthTable(y: int)
    ensures DaysBeforeMonth(y, 1) == 0 && DaysBeforeMonth(y, 2) == 31
    ensures var l := if Leap(y) then 1 else 0;
            && DaysBeforeMonth(y, 3) == 59 + l && DaysBeforeMonth(y, 4) == 90 + l
            && DaysBeforeMonth(y, 5) == 120 + l && DaysBeforeMonth(y, 6) == 151 + l
            && DaysBeforeMonth(y, 7) == 181 + l && DaysBeforeMonth(y, 8) == 212 + l
            && DaysBeforeMonth(y, 9) == 243 + l && DaysBeforeMonth(y, 10) == 273 + l
            && DaysBeforeMonth(y, 11) == 304 + l && DaysBeforeMonth(y, 12) == 334 + l
  {
    assert DaysBeforeMonth(y, 4) == DaysBeforeMonth(y, 3) + 31;
    assert DaysBeforeMonth(y, 7) == DaysBeforeMonth(y, 6) + 30;
    assert DaysBeforeMonth(y, 10) == DaysBeforeMonth(y, 9) + 30;
  }

  /** The counted number really advances by one per calendar day. */
  lemma DayNumberOfNextDay(d: Date)
    requires Valid(d)
    ensures Valid(NextDay(d)) && DayNumber(NextDay(d)) == DayNumber(d) + 1
  {
    YearLength(d.year);
    MonthTable(d.year);
    assert DaysBeforeMonth(d.year + 1, 1) == 0;
  }

  predicate Before(a: Date, b: Date) {
    a.year < b.year || (a.year == b.year && (a.month < b.month || (a.month == b.month && a.day < b.day)))
  }

  lemma {:induction false} MonthsAccumulate(y: int, m: int, n: int)
    requires 1 <= m < n <= 13
    ensures DaysBeforeMonth(y, m) + DaysInMonth(y, m) <= DaysBeforeMonth(y, n)
    decreases n
  {
    if m < n - 1 { MonthsAccumulate(y, m, n - 1); }
  }

  lemma {:induction false} YearsAccumulate(y: int, z: int)
    requires y < z
    ensures DaysBeforeYear(y) + DaysBeforeMonth(y, 13) <= DaysBeforeYear(z)
    decreases z - y
  {
    YearLength(y);
    MonthTable(y);
    assert DaysBeforeMonth(y, 13) == DaysBeforeMonth(y, 12) + 31;
    if y + 1 < z {
      YearsAccumulate(y + 1, z);
      MonthsAccumulate(y + 1, 1, 13);
    }
  }

  lemma DayNumberIsMonotone(a: Date, b: Date)
    requires Valid(a) && Valid(b) && Before(a, b)
    ensures DayNumber(a) < DayNumber(b)
  {
    if a.month < 13 { MonthsAccumulate(a.year, a.month, 13); }
    if 1 < b.month { MonthsAccumulate(b.year, 1, b.month); }
    if a.year < b.year { YearsAccumulate(a.year, b.year); }
    else if a.month < b.month { MonthsAccumulate(a.year, a.month, b.month); }
  }

  // ----- the formula inverts the count ------------------------------------

  /** Day `doe` of a 400-year era, split into century, four-year block, year and day. */
  lemma EraSplit(doe: int) returns (h: int, q: int, s: int, k: int)
    requires 0 <= doe < 146_097
    ensures 0 <= h <= 3 && 0 <= q <= 24 && 0 <= s <= 3 && 0 <= k <= 365
    ensures doe == 36524 * h + 1461 * q + 365 * s + k
    ensures k == 365 ==> s == 3 && (q < 24 || h == 3)
  {
    h := if doe == 146_096 then 3 else doe / 36524;
    var inCentury := doe - 36524 * h;
    q := inCentury / 1461;
    var inBlock := inCentury - 1461 * q;
    s := if inBlock == 1460 then 3 else inBlock / 365;
    k := inBlock - 365 * s;
  }

  lemma YearFormula(h: int, q: int, s: int, k: int)
    requires 0 <= h <= 3 && 0 <= q <= 24 && 0 <= s <= 3 && 0 <= k <= 365
    requires k == 365 ==> s == 3 && (q < 24 || h == 3)
    ensures var doe := 36524 * h + 1461 * q + 365 * s + k;
            YearOfEra(doe) == 100 * h + 4 * q + s && DayOfYear(doe, 100 * h + 4 * q + s) == k
  {
    var doe := 36524 * h + 1461 * q + 365 * s + k;
    var e := if 24 * h + q + 365 * s + k >= 1460 then 1 else 0;
    assert doe / 1460 == 25 * h + q + e;
    var last := if doe == 146_096 then 1 else 0;
    assert doe / 36524 == h + last;
    assert doe / 146_096 == last;
    assert 0 <= k - e < 365;
    assert doe - doe / 1460 + doe / 36524 - doe / 146_096 == 365 * (100 * h + 4 * q + s) + (k - e);
    var yoe := 100 * h + 4 * q + s;
    assert yoe / 4 == 25 * h + q && yoe / 100 == h;
  }

  /** The month formula over a year that starts on 1 March. */
  lemma MonthFormula(doy: int)
    requires 0 <= doy <= 365
    ensures var mp := MonthIndex(doy); var d := doy - (153 * mp + 2) / 5 + 1;
            && 0 <= mp <= 11 && 1 <= d <= 31
            && (mp == 1 || mp == 3 || mp == 6 || mp == 8 ==> d <= 30)
            && (mp == 11 ==> d <= 29 && (d == 29 <==> doy == 365))
  {
  }

  /** Days from 1 March of year `y` to the first of its `mp`-th month. */
  lemma MarchYear(y: int, mp: int)
    requires 0 <= mp <= 11
    ensures var mth := if mp < 10 then mp + 3 else mp - 9;
            var year := if mth <= 2 then y + 1 else y;
            DaysBeforeYear(year) + DaysBeforeMonth(year, mth)
            == DaysBeforeYear(y) + DaysBeforeMonth(y, 3) + (153 * mp + 2) / 5
  {
    YearLength(y);
    MonthTable(y);
    MonthTable(y + 1);
  }

  /** How a year of a 400-year era divides. */
  lemma EraYear(era: int, h: int, q: int, s: int)
    requires 0 <= h <= 3 && 0 <= q <= 24 && 0 <= s <= 3
    ensures var y := 400 * era + 100 * h + 4 * q + s;
            && y / 4 == 100 * era + 25 * h + q && y % 4 == s
            && y / 100 == 4 * era + h && y % 100 == 4 * q + s
            && y / 400 == era && y % 400 == 100 * h + 4 * q + s
  {
  }

  /** 1 March of year `era * 400 + yoe` counted from the era's first day. */
  lemma MarchFirst(era: int, h: int, q: int, s: int)
    requires 0 <= h <= 3 && 0 <= q <= 24 && 0 <= s <= 3
    ensures var y := 400 * era + 100 * h + 4 * q + s;
            && DaysBeforeYear(y) + DaysBeforeMonth(y, 3)
               == 146_097 * era + 36524 * h + 1461 * q + 365 * s - 306
            && (Leap(y + 1) <==> s == 3 && (q < 24 || h == 3))
  {
    var y := 400 * era + 100 * h + 4 * q + s;
    MonthTable(y);
    EraYear(era, h, q, s);
    YearLength(y);
    QuotientSteps(y);
    QuotientSteps(y + 1);
    Multiples(y);
    Multiples(y + 1);
    hide DaysBeforeMonth;
    assert DaysBeforeYear(y + 1) == 146_097 * era + 36524 * h + 1461 * q + 365 * s;
  }

  /** The date `k` days after 1 March of that year, by the source's month formula. */
  lemma MarchDay(y: int, k: int)
    requires 0 <= k <= 365 && (k == 365 ==> Leap(y + 1))
    ensures var mp := MonthIndex(k);
            var d := k - (153 * mp + 2) / 5 + 1;
            var mth := if mp < 10 then mp + 3 else mp - 9;
            var date := Date(if mth <= 2 then y + 1 else y, mth, d);
            && Valid(date)
            && DayNumber(date) == DaysBeforeYear(y) + DaysBeforeMonth(y, 3) + k - 719_162
  {
    MonthFormula(k);
    MarchYear(y, MonthIndex(k));
    hide DaysBeforeMonth, DaysBeforeYear;
  }

  /** Every day number gives a valid date, and counting that date gives it back. */
  lemma CivilIsCounted(days: int)
    ensures Valid(CivilFromDays(days))
    ensures DayNumber(CivilFromDays(days)) == days
  {
    hide DaysBeforeMonth, DaysBeforeYear, Leap, DayNumber, Valid, YearOfEra, DayOfYear, MonthIndex;
    var z := days + 719_468;
    var era, doe := z / 146_097, z % 146_097;
    var h, q, s, k := EraSplit(doe);
    YearFormula(h, q, s, k);
    MarchFirst(era, h, q, s);
    var y := 400 * era + 100 * h + 4 * q + s;
    assert y == YearOfEra(doe) + era * 400;
    MarchDay(y, k);
  }

  /** The count has no other date for that number. */
  lemma CountedIsCivil(d: Date)
    requires Valid(d)
    ensures CivilFromDays(DayNumber(d)) == d
  {
    hide CivilFromDays, DayNumber, Valid;
    var c := CivilFromDays(DayNumber(d));
    CivilIsCounted(DayNumber(d));
    if Before(c, d) { DayNumberIsMonotone(c, d); }
    if Before(d, c) { DayNumberIsMonotone(d, c); }
  }

  /** Each day number is followed by the next calendar day. */
  lemma CivilFollowsCalendar(days: int)
    ensures CivilFromDays(days + 1) == NextDay(CivilFromDays(days))
  {
    hide CivilFromDays, DayNumber, Valid, NextDay;
    CivilIsCounted(days);
    DayNumberOfNextDay(CivilFromDays(days));
    CountedIsCivil(NextDay(CivilFromDays(days)));
  }

  /** Counting starts on 1970-01-01. */
  lemma CivilEpoch()
    ensures CivilFromDays(0) == Date(1970, 1, 1)
  {
  }

  /** The header's stamp is a real time of a real day, and loses only milliseconds. */
  lemma StampRoundTrip(ms: nat)
    ensures var t := ChronoLike(ms);
            && Valid(t.date) && 0 <= t.hour < 24 && 0 <= t.minute < 60 && 0 <= t.second < 60
            && 86_400 * DayNumber(t.date) + 3600 * t.hour + 60 * t.minute + t.second == ms / 1000
  {
    CivilIsCounted(ms / 1000 / 86_400);
    hide CivilFromDays, DayNumber, Valid;
    TimeOfDay(ms / 1000 % 86_400);
  }

  lemma TimeOfDay(rem: int)
    requires 0 <= rem < 86_400
    ensures 0 <= rem / 3600 < 24 && 0 <= (rem % 3600) / 60 < 60
    ensures 3600 * (rem / 3600) + 60 * ((rem % 3600) / 60) + rem % 60 == rem
  {
    assert rem % 60 == (rem % 3600) % 60 by { assert rem == 60 * (60 * (rem / 3600)) + rem % 3600; }
  }
}
