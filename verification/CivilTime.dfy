/** Days and civil dates (proleptic Gregorian calendar, UTC). */
module CivilTime {
  import opened Arith

  datatype Date = Date(y: int, m: int, d: int)

  // ----- The conversions, as the code computes them

  /** Year of the 400-year era from the day of the era. */
  function YearOfEra(doe: int): int {
    (doe - doe / 1460 + doe / 36524 - doe / 146096) / 365
  }

  /** Days of the era before year yoe, years starting on 1 March. */
  function DaysBefore(yoe: int): int {
    365 * yoe + yoe / 4 - yoe / 100
  }

  /** Days of the year before the month mp, counted from March. */
  function MonthStart(mp: int): int {
    (153 * mp + 2) / 5
  }

  /** The date of a day counted from 1970-01-01. */
  function CivilFromDays(days: int): Date {
    var z := days + 719468;
    var era := z / 146097;
    var doe := z % 146097;
    var yoe := YearOfEra(doe);
    var y := yoe + era * 400;
    var doy := doe - DaysBefore(yoe);
    var mp := (5 * doy + 2) / 153;
    var d := doy - MonthStart(mp) + 1;
    var m := if mp < 10 then mp + 3 else mp - 9;
    Date(if m <= 2 then y + 1 else y, m, d)
  }

  function DaysFromCivil(t: Date): int {
    var y := if t.m <= 2 then t.y - 1 else t.y;
    var era := y / 400;
    var yoe := y % 400;
    var mp := (t.m + 9) % 12;
    var doy := MonthStart(mp) + t.d - 1;
    var doe := yoe * 365 + yoe / 4 - yoe / 100 + doy;
    era * 146097 + doe - 719468
  }

  // ----- The calendar, said independently

  predicate Leap(y: int) {
    y % 4 == 0 && (y % 100 != 0 || y % 400 == 0)
  }

  function DaysInMonth(y: int, m: int): int {
    if m == 2 then if Leap(y) then 29 else 28
    else if m == 4 || m == 6 || m == 9 || m == 11 then 30
    else 31
  }

  predicate IsDate(t: Date) {
    1 <= t.m <= 12 && 1 <= t.d <= DaysInMonth(t.y, t.m)
  }

  function NextDay(t: Date): Date {
    if t.d < DaysInMonth(t.y, t.m) then Date(t.y, t.m, t.d + 1)
    else if t.m < 12 then Date(t.y, t.m + 1, 1)
    else Date(t.y + 1, 1, 1)
  }

  // ----- The year-of-era formula

  /** A day of the era as centuries, four-year cycles and days. */
  lemma SplitEra(doe: int) returns (c: int, q: int, s: int)
    requires 0 <= doe < 146097
    ensures doe == 36524 * c + 1461 * q + s && 0 <= c <= 3 && 0 <= q <= 24 && 0 <= s < 1461
    ensures q == 24 && s == 1460 ==> c == 3
  {
    c := if doe == 146096 then 3 else doe / 36524;
    var r := doe - 36524 * c;
    q, s := r / 1461, r % 1461;
  }

  lemma Quotients(doe: int, c: int, q: int, s: int) returns (e: int)
    requires doe == 36524 * c + 1461 * q + s && 0 <= c <= 3 && 0 <= q <= 24 && 0 <= s < 1461
    requires q == 24 && s == 1460 ==> c == 3
    ensures 0 <= e <= 1 && (e == 1 <==> 24 * c + q + s >= 1460)
    ensures doe / 1460 == 25 * c + q + e
    ensures doe / 36524 - doe / 146096 == c
  {
    e := if 24 * c + q + s >= 1460 then 1 else 0;
  }

  lemma YearOfEraIs(doe: int, c: int, q: int, s: int)
    requires doe == 36524 * c + 1461 * q + s && 0 <= c <= 3 && 0 <= q <= 24 && 0 <= s < 1461
    requires q == 24 && s == 1460 ==> c == 3
    ensures YearOfEra(doe) == 100 * c + 4 * q + (if s == 1460 then 3 else s / 365)
  {
    var e := Quotients(doe, c, q, s);
    var n := doe - doe / 1460 + doe / 36524 - doe / 146096;
    assert n == 365 * (100 * c + 4 * q) + (s - e);
    assert (s - e) / 365 == if s == 1460 then 3 else s / 365;
  }

  lemma DaysBeforeIs(c: int, q: int, k: int)
    requires 0 <= c && 0 <= q <= 24 && 0 <= k <= 3
    ensures DaysBefore(100 * c + 4 * q + k) == 36524 * c + 1461 * q + 365 * k
  {
    var y := 100 * c + 4 * q + k;
    assert y / 4 == 25 * c + q;
    assert y / 100 == c;
  }

  /** A year of the era as centuries, four-year cycles and years. */
  lemma SplitYear(yoe: int) returns (c: int, q: int, k: int)
    requires 0 <= yoe < 400
    ensures yoe == 100 * c + 4 * q + k && 0 <= c <= 3 && 0 <= q <= 24 && 0 <= k <= 3
    ensures yoe == 399 <==> c == 3 && q == 24 && k == 3
  {
    c, q, k := yoe / 100, yoe % 100 / 4, yoe % 4;
  }

  /** The leap day is at the end of a cycle's last year, but for the last cycle of a century not the fourth. */
  lemma LeapAfter(c: int, q: int, k: int)
    requires 0 <= c <= 3 && 0 <= q <= 24 && 0 <= k <= 3
    ensures Leap(100 * c + 4 * q + k + 1) <==> k == 3 && (q == 24 ==> c == 3)
  {
    var y := 100 * c + 4 * q + k + 1;
    if k < 3 {
      DivIs(y, 4, 25 * c + q, k + 1);
    } else {
      DivIs(y, 4, 25 * c + q + 1, 0);
      if q < 24 {
        DivIs(y, 100, c, 4 * q + 4);
      } else {
        DivIs(y, 100, c + 1, 0);
      }
    }
  }

  /** The formula finds the year of the era, and the day falls on one of that year's 365 or 366 days. */
  lemma YearOfEraIsRight(doe: int)
    requires 0 <= doe < 146097
    ensures var yoe := YearOfEra(doe); var doy := doe - DaysBefore(yoe);
      0 <= yoe < 400 && 0 <= doy <= 365 && (doy == 365 ==> Leap(yoe + 1))
  {
    var c, q, s := SplitEra(doe);
    hide YearOfEra, DaysBefore, Leap;
    var k := if s == 1460 then 3 else s / 365;
    YearOfEraIs(doe, c, q, s);
    DaysBeforeIs(c, q, k);
    LeapAfter(c, q, k);
  }

  /** Years of the era do not overlap: only one year leaves a day of the year in range. */
  lemma YearUnique(yoe: int, doy: int)
    requires 0 <= yoe < 400 && 0 <= doy <= 365 && (doy == 365 ==> Leap(yoe + 1))
    ensures 0 <= DaysBefore(yoe) + doy < 146097
    ensures YearOfEra(DaysBefore(yoe) + doy) == yoe
  {
    hide YearOfEra, DaysBefore, Leap;
    var c, q, k := SplitYear(yoe);
    DaysBeforeIs(c, q, k);
    LeapAfter(c, q, k);
    YearOfEraIs(DaysBefore(yoe) + doy, c, q, 365 * k + doy);
  }

  // ----- Days to dates and back

  /** Days in the month mp counted from March; the last is February. */
  function MarchMonthDays(mp: int, leapDay: bool): int {
    if mp == 11 then if leapDay then 29 else 28
    else if mp == 1 || mp == 3 || mp == 6 || mp == 8 then 30
    else 31
  }

  lemma MonthOfDay(doy: int)
    requires 0 <= doy <= 365
    ensures 0 <= (5 * doy + 2) / 153 <= 11
    ensures var mp := (5 * doy + 2) / 153; 1 <= doy - MonthStart(mp) + 1 <= MarchMonthDays(mp, doy == 365)
  {
    var mp := (5 * doy + 2) / 153;
    assert mp in {0, 1, 2, 3, 4, 5, 6, 7, 8, 9, 10, 11};
  }

  lemma ModShift(y: int, n: int, k: int)
    requires n > 0
    ensures (y + k * n) % n == y % n && (y + k * n) / n == y / n + k
  {
    assert y == y / n * n + y % n;
    assert (y / n + k) * n == y / n * n + k * n;
    DivIs(y + k * n, n, y / n + k, y % n);
  }

  lemma LeapPeriod(y: int, era: int)
    ensures Leap(y + era * 400) == Leap(y)
  {
    ModShift(y, 4, era * 100);
    ModShift(y, 100, era * 4);
    ModShift(y, 400, era);
  }

  /** First day of the March-based year y. */
  function YearStart(y: int): int {
    y / 400 * 146097 + DaysBefore(y % 400) - 719468
  }

  /** The March-based year of a date. */
  function MarchYear(t: Date): int {
    if t.m <= 2 then t.y - 1 else t.y
  }

  lemma DaysFromCivilIs(t: Date)
    ensures DaysFromCivil(t) == YearStart(MarchYear(t)) + MonthStart((t.m + 9) % 12) + t.d - 1
  {}

  lemma EraParts(era: int, n: int, period: int)
    requires 0 <= n < period
    ensures (era * period + n) / period == era && (era * period + n) % period == n
  {
    DivIs(era * period + n, period, era, n);
  }

  function MonthNumber(mp: int): int {
    if mp < 10 then mp + 3 else mp - 9
  }

  lemma MonthNumberBack(mp: int)
    requires 0 <= mp <= 11
    ensures 1 <= MonthNumber(mp) <= 12 && (MonthNumber(mp) + 9) % 12 == mp
  {}

  /** The parts of a day: its era, year of era, month from March, day of month. */
  lemma DayParts(days: int) returns (era: int, yoe: int, doy: int, mp: int)
    ensures 0 <= yoe < 400 && 0 <= doy <= 365 && (doy == 365 ==> Leap(yoe + 1)) && 0 <= mp <= 11
    ensures 1 <= doy - MonthStart(mp) + 1 <= MarchMonthDays(mp, doy == 365)
    ensures days + 719468 == era * 146097 + (DaysBefore(yoe) + doy)
    ensures var y := yoe + era * 400;
      CivilFromDays(days) == Date(if MonthNumber(mp) <= 2 then y + 1 else y, MonthNumber(mp), doy - MonthStart(mp) + 1)
  {
    hide YearOfEra, DaysBefore, MonthStart, MarchMonthDays, Leap;
    var z := days + 719468;
    era := z / 146097;
    var doe := z % 146097;
    assert z == era * 146097 + doe;
    yoe := YearOfEra(doe);
    doy := doe - DaysBefore(yoe);
    mp := (5 * doy + 2) / 153;
    YearOfEraIsRight(doe);
    MonthOfDay(doy);
  }

  lemma MarchDate(y: int, mp: int, d: int)
    requires 0 <= mp <= 11 && 1 <= d <= MarchMonthDays(mp, Leap(y + 1))
    ensures IsDate(Date(if MonthNumber(mp) <= 2 then y + 1 else y, MonthNumber(mp), d))
  {
    hide Leap;
  }

  /** Every day is a genuine date, and converting it back gives the day. */
  lemma DayRoundTrip(days: int)
    ensures IsDate(CivilFromDays(days))
    ensures DaysFromCivil(CivilFromDays(days)) == days
  {
    hide YearOfEra, DaysBefore, MonthStart, Leap, CivilFromDays, DaysFromCivil, MonthNumber, IsDate;
    var era, yoe, doy, mp := DayParts(days);
    MonthNumberBack(mp);
    LeapPeriod(yoe + 1, era);
    MarchDate(yoe + era * 400, mp, doy - MonthStart(mp) + 1);
    DaysFromCivilIs(CivilFromDays(days));
    EraParts(era, yoe, 400);
  }

  lemma DayOfMonth(mp: int, d: int)
    requires 0 <= mp <= 11 && 1 <= d <= MarchMonthDays(mp, true)
    ensures var doy := MonthStart(mp) + d - 1; 0 <= doy <= 365 && (5 * doy + 2) / 153 == mp && (doy == 365 ==> mp == 11 && d == 29)
  {
    assert mp in {0, 1, 2, 3, 4, 5, 6, 7, 8, 9, 10, 11};
  }

  lemma MarchMonth(m: int)
    requires 1 <= m <= 12
    ensures var mp := (m + 9) % 12; 0 <= mp <= 11 && MonthNumber(mp) == m && (mp == 11 <==> m == 2)
    ensures forall y :: m == 2 || DaysInMonth(y, m) == MarchMonthDays((m + 9) % 12, true)
  {
    assert m in {1, 2, 3, 4, 5, 6, 7, 8, 9, 10, 11, 12};
  }

  lemma CivilIs(days: int, era: int, yoe: int, doy: int)
    requires 0 <= yoe < 400 && 0 <= doy <= 365 && (doy == 365 ==> Leap(yoe + 1))
    requires days + 719468 == era * 146097 + (DaysBefore(yoe) + doy)
    ensures var mp := (5 * doy + 2) / 153; var y := yoe + era * 400;
      CivilFromDays(days) == Date(if MonthNumber(mp) <= 2 then y + 1 else y, MonthNumber(mp), doy - MonthStart(mp) + 1)
  {
    hide YearOfEra, DaysBefore, MonthStart, Leap;
    YearUnique(yoe, doy);
    EraParts(era, DaysBefore(yoe) + doy, 146097);
  }

  lemma DayOfYear(t: Date) returns (mp: int, doy: int)
    requires IsDate(t)
    ensures mp == (t.m + 9) % 12 && doy == MonthStart(mp) + t.d - 1 && (5 * doy + 2) / 153 == mp && MonthNumber(mp) == t.m
    ensures 0 <= doy <= 365 && (doy == 365 ==> Leap(MarchYear(t) + 1))
  {
    hide MonthStart, Leap;
    mp := (t.m + 9) % 12;
    doy := MonthStart(mp) + t.d - 1;
    MarchMonth(t.m);
    DayOfMonth(mp, t.d);
  }

  /** And every genuine date comes back from its day. */
  lemma DateRoundTrip(t: Date)
    requires IsDate(t)
    ensures CivilFromDays(DaysFromCivil(t)) == t
  {
    hide YearOfEra, DaysBefore, MonthStart, MonthNumber, Leap, CivilFromDays, DaysFromCivil, IsDate;
    var mp, doy := DayOfYear(t);
    var era, yoe := MarchYear(t) / 400, MarchYear(t) % 400;
    LeapPeriod(yoe + 1, era);
    DaysFromCivilIs(t);
    CivilIs(DaysFromCivil(t), era, yoe, doy);
  }

  lemma YearStartStep(y: int)
    ensures YearStart(y + 1) == YearStart(y) + if Leap(y + 1) then 366 else 365
  {
    var era, yoe := y / 400, y % 400;
    LeapPeriod(yoe + 1, era);
    if yoe == 399 {
      EraParts(era + 1, 0, 400);
    } else {
      EraParts(era, yoe + 1, 400);
    }
    hide Leap;
    DaysBeforeStep(yoe);
  }

  lemma EraDays()
    ensures Leap(400) && DaysBefore(400) == 146096 && DaysBefore(0) == 0
  {}

  lemma DaysBeforeStep(yoe: int)
    requires 0 <= yoe < 400
    ensures DaysBefore(yoe + 1) == DaysBefore(yoe) + if Leap(yoe + 1) && yoe < 399 then 366 else 365
    ensures Leap(400) && DaysBefore(400) == 146096 && DaysBefore(0) == 0
  {
    EraDays();
    hide DaysBefore, Leap;
    var c, q, k := SplitYear(yoe);
    DaysBeforeIs(c, q, k);
    LeapAfter(c, q, k);
    if k < 3 {
      DaysBeforeIs(c, q, k + 1);
    } else if q < 24 {
      DaysBeforeIs(c, q + 1, 0);
    } else {
      DaysBeforeIs(c + 1, 0, 0);
    }
  }

  lemma MarchMonthAfter(mp: int)
    requires 0 <= mp <= 10
    ensures MonthStart(mp + 1) == MonthStart(mp) + MarchMonthDays(mp, true)
    ensures MonthStart(0) == 0 && MonthStart(11) == 337
  {
    assert mp in {0, 1, 2, 3, 4, 5, 6, 7, 8, 9, 10};
  }

  /** A month starts where the one before it ends; February ends the March-based year. */
  lemma MonthAfter(y: int, m: int)
    requires 1 <= m <= 12
    ensures m != 2 ==> MonthStart((m % 12 + 10) % 12) == MonthStart((m + 9) % 12) + DaysInMonth(y, m)
    ensures MonthStart(0) == 0 && MonthStart(11) == 337
  {
    hide MonthStart, MarchMonthDays, MonthNumber, DaysInMonth;
    MarchMonth(m);
    MarchMonthAfter(if m == 2 then 0 else (m + 9) % 12);
  }

  /** The calendar advances by one day when the count does. */
  lemma NextDayIsNext(t: Date)
    requires IsDate(t)
    ensures IsDate(NextDay(t))
    ensures DaysFromCivil(NextDay(t)) == DaysFromCivil(t) + 1
  {
    hide YearStart, MonthStart, Leap, DaysFromCivil;
    DaysFromCivilIs(t);
    DaysFromCivilIs(NextDay(t));
    MonthAfter(t.y, t.m);
    YearStartStep(t.y - 1);
  }

  lemma Epoch()
    ensures CivilFromDays(0) == Date(1970, 1, 1)
  {
    hide YearOfEra, CivilFromDays;
    CivilIs(0, 4, 369, 306);
  }

  /** So counting days from the epoch walks the calendar, one date after the other. */
  lemma CountingWalksCalendar(days: int)
    ensures CivilFromDays(days + 1) == NextDay(CivilFromDays(days))
  {
    hide CivilFromDays, DaysFromCivil, NextDay, IsDate;
    DayRoundTrip(days);
    NextDayIsNext(CivilFromDays(days));
    DateRoundTrip(NextDay(CivilFromDays(days)));
  }
}
