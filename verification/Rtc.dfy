/** Civil time and Unix seconds. */
module Rtc {
  datatype DateTime = DateTime(year: nat, month: nat, day: nat, hour: nat, minute: nat, second: nat)

  const MAX_YEAR: nat := 65535

  // ---------------------------------------------------------------- the Gregorian calendar

  predicate IsLeap(year: int) {
    year % 4 == 0 && (year % 100 != 0 || year % 400 == 0)
  }

  function DaysInMonth(year: nat, month: nat): nat {
    if month == 2 then (if IsLeap(year) then 29 else 28)
    else if month == 4 || month == 6 || month == 9 || month == 11 then 30
    else 31
  }

  /** A date-time of the proleptic Gregorian calendar, UTC without leap seconds. */
  predicate IsDateTime(dt: DateTime) {
    && dt.year <= MAX_YEAR && 1 <= dt.month <= 12 && 1 <= dt.day <= DaysInMonth(dt.year, dt.month)
    && dt.hour < 24 && dt.minute < 60 && dt.second < 60
  }

  const FIRST := DateTime(0, 1, 1, 0, 0, 0)
  const LAST := DateTime(MAX_YEAR, 12, 31, 23, 59, 59)

  function NextDay(dt: DateTime): DateTime {
    if dt.day < DaysInMonth(dt.year, dt.month) then DateTime(dt.year, dt.month, dt.day + 1, 0, 0, 0)
    else if dt.month < 12 then DateTime(dt.year, dt.month + 1, 1, 0, 0, 0)
    else DateTime(dt.year + 1, 1, 1, 0, 0, 0)
  }

  /** The reference: one second later, as a calendar and a clock count. */
  function NextSecond(dt: DateTime): DateTime {
    if dt.second < 59 then dt.(second := dt.second + 1)
    else if dt.minute < 59 then dt.(minute := dt.minute + 1, second := 0)
    else if dt.hour < 23 then dt.(hour := dt.hour + 1, minute := 0, second := 0)
    else NextDay(dt)
  }

  predicate Before(a: DateTime, b: DateTime) {
    if a.year != b.year then a.year < b.year
    else if a.month != b.month then a.month < b.month
    else if a.day != b.day then a.day < b.day
    else if a.hour != b.hour then a.hour < b.hour
    else if a.minute != b.minute then a.minute < b.minute
    else a.second < b.second
  }

  // ---------------------------------------------------------------- the conversions

  /** Division that truncates toward zero. */
  function TruncDiv(a: int, b: int): int
    requires b > 0
  {
    if a >= 0 then a / b else -((-a) / b)
  }

  function Era(y: int): int {
    if y >= 0 then TruncDiv(y, 400) else TruncDiv(y - 399, 400)
  }

  /** Days from 1970-01-01 to a date. */
  function DaysFromCivil(year: int, month: int, day: int): int {
    var y := if month <= 2 then year - 1 else year;
    var era := Era(y);
    var yoe := y - era * 400;
    var m := if month > 2 then month - 3 else month + 9;
    var doy := TruncDiv(153 * m + 2, 5) + day - 1;
    var doe := yoe * 365 + TruncDiv(yoe, 4) - TruncDiv(yoe, 100) + doy;
    era * 146097 + doe - 719468
  }

  function ToUnix(dt: DateTime): int {
    DaysFromCivil(dt.year, dt.month, dt.day) * 86400 + dt.hour * 3600 + dt.minute * 60 + dt.second
  }

  function EraOfDays(z: int): int {
    if z >= 0 then TruncDiv(z, 146097) else TruncDiv(z - 146096, 146097)
  }

  function YearOfEraDay(doe: int): int {
    TruncDiv(doe - TruncDiv(doe, 1460) + TruncDiv(doe, 36524) - TruncDiv(doe, 146096), 365)
  }

  /** Month and day of a day of the March-based year `y`. */
  function DateOfYearDay(y: int, doy: int): (int, int, int) {
    var mp := TruncDiv(5 * doy + 2, 153);
    var d := doy - TruncDiv(153 * mp + 2, 5) + 1;
    var m := if mp < 10 then mp + 3 else mp - 9;
    var year := if m <= 2 then y + 1 else y;
    (year, m, d)
  }

  /** The date of a day number. */
  function CivilFromDays(days: int): (int, int, int) {
    var z := days + 719468;
    var era := EraOfDays(z);
    var doe := z - era * 146097;
    var yoe := YearOfEraDay(doe);
    var doy := doe - (365 * yoe + TruncDiv(yoe, 4) - TruncDiv(yoe, 100));
    DateOfYearDay(yoe + era * 400, doy)
  }

  /** `from_unix`; the year is cut to 16 bits, month and day to 8. */
  function FromUnix(secs: int): DateTime {
    var time := secs % 86400;
    var date := CivilFromDays(secs / 86400);
    DateTime(date.0 % 65536, date.1 % 256, date.2 % 256, time / 3600, time / 60 % 60, time % 60)
  }

  // ---------------------------------------------------------------- years of an era

  /** The March-based year of a date: the year, its number in its era, the era. */
  predicate InEra(y: int, era: int, yoe: int) {
    y == era * 400 + yoe && 0 <= yoe < 400
  }

  lemma EraOfYear(y: int)
    ensures InEra(y, Era(y), y - Era(y) * 400)
  {
  }

  /** Days of the era before year `yoe`. */
  function YearStart(yoe: nat): int { yoe * 365 + yoe / 4 - yoe / 100 }

  /** The days of March-based year `yoe`: the leap day is its last. */
  function YearDays(yoe: nat): nat { if IsLeap(yoe + 1) then 366 else 365 }

  lemma YearStartNext(yoe: nat)
    requires yoe < 400
    ensures YearStart(yoe) + YearDays(yoe) == if yoe == 399 then 146097 else YearStart(yoe + 1)
  {
  }

  lemma LeapInEra(y: int, era: int, yoe: int)
    requires InEra(y, era, yoe)
    ensures IsLeap(y + 1) == IsLeap(yoe + 1)
  {
    EraMod4(era, yoe + 1);
    EraMod100(era, yoe + 1);
    EraMod400(era, yoe + 1);
  }

  lemma EraMod4(era: int, x: int)
    ensures (era * 400 + x) % 4 == x % 4
  {
    assert era * 400 + x == 4 * (era * 100 + x / 4) + x % 4;
    Mod4Unique(era * 400 + x, era * 100 + x / 4, x % 4);
  }

  lemma Mod4Unique(z: int, q: int, r: int)
    requires z == 4 * q + r && 0 <= r < 4
    ensures z % 4 == r
  {
  }

  lemma EraMod100(era: int, x: int)
    ensures (era * 400 + x) % 100 == x % 100
  {
  }

  lemma EraMod400(era: int, x: int)
    ensures (era * 400 + x) % 400 == x % 400
  {
  }

  // ---------------------------------------------------------------- inverting the year

  /** Centuries, four-year cycles and years inside an era. */
  lemma YearDigits(yoe: nat) returns (c: nat, q: nat, r: nat)
    requires yoe < 400
    ensures yoe == 100 * c + 4 * q + r && c <= 3 && q <= 24 && r <= 3
    ensures YearStart(yoe) == 36524 * c + 1461 * q + 365 * r
    ensures YearDays(yoe) == 366 <==> r == 3 && (q == 24 ==> c == 3)
  {
    c, q, r := yoe / 100, yoe % 100 / 4, yoe % 4;
  }

  lemma CenturyOfDay(c: nat, e: nat)
    requires c <= 3 && (e < 36524 || (c == 3 && e == 36524))
    ensures var doe := 36524 * c + e; doe / 36524 - doe / 146096 == c
  {
  }

  lemma CycleOfDay(c: nat, q: nat, f: nat)
    requires f < 2920
    ensures (1460 * (25 * c + q) + f) / 1460 == 25 * c + q + if f < 1460 then 0 else 1
  {
  }

  /** The year of a day of an era. */
  lemma YearOfDay(yoe: nat, doy: nat)
    requires yoe < 400 && doy < YearDays(yoe)
    ensures var doe := YearStart(yoe) + doy;
            0 <= doe < 146097 && YearOfEraDay(doe) == yoe
  {
    var c, q, r := YearDigits(yoe);
    hide YearStart, YearDays;
    assert YearDays(yoe) == 365 || YearDays(yoe) == 366 by { assert YearDays(yoe) <= 366; }
    var doe := YearStart(yoe) + doy;
    CenturyOfDay(c, 1461 * q + 365 * r + doy);
    CycleOfDay(c, q, 24 * c + q + 365 * r + doy);
  }

  // ---------------------------------------------------------------- inverting the month

  /** Days of the March-based year before month `m`. */
  function MonthStart(m: nat): nat { (153 * m + 2) / 5 }

  function MonthIndex(month: nat): int { if month > 2 then month - 3 else month + 9 }

  /** A day of a month is a day of its March-based year, and the month is recovered from it. */
  lemma MonthOfDay(year: nat, month: nat, day: nat, y: int, era: int, yoe: int)
    requires 1 <= month <= 12 && 1 <= day <= DaysInMonth(year, month)
    requires y == (if month <= 2 then year - 1 else year) && InEra(y, era, yoe)
    ensures var m := MonthIndex(month);
            var doy := MonthStart(m) + day - 1;
            0 <= m <= 11 && 0 <= doy < YearDays(yoe) && DateOfYearDay(y, doy) == (year, month, day)
  {
    LeapInEra(y, era, yoe);
    hide IsLeap;
  }

  /** A date as era, year of era and day of year. */
  lemma DaysOfDate(year: nat, month: nat, day: nat, y: int, era: int, yoe: int)
    requires 1 <= month <= 12 && y == (if month <= 2 then year - 1 else year) && InEra(y, era, yoe)
    ensures DaysFromCivil(year, month, day)
            == era * 146097 + YearStart(yoe) + MonthStart(MonthIndex(month)) + day - 1 - 719468
  {
    EraUnique(y, era, yoe);
  }

  lemma EraUnique(y: int, era: int, yoe: int)
    requires InEra(y, era, yoe)
    ensures Era(y) == era
  {
    EraOfYear(y);
  }

  lemma EraOfDay(era: int, doe: int)
    requires 0 <= doe < 146097
    ensures EraOfDays(era * 146097 + doe) == era
  {
  }

  /** The date of a day is the date the day was computed from. */
  lemma CivilRoundTrip(year: nat, month: nat, day: nat)
    requires 1 <= month <= 12 && 1 <= day <= DaysInMonth(year, month)
    ensures CivilFromDays(DaysFromCivil(year, month, day)) == (year, month, day)
  {
    hide DaysFromCivil, Era, DaysInMonth, YearDays, YearStart, MonthStart, MonthIndex, DateOfYearDay, YearOfEraDay;
    hide EraOfDays, TruncDiv;
    var y := if month <= 2 then year - 1 else year;
    var era, yoe := Era(y), y - Era(y) * 400;
    EraOfYear(y);
    MonthOfDay(year, month, day, y, era, yoe);
    DaysOfDate(year, month, day, y, era, yoe);
    var doy := MonthStart(MonthIndex(month)) + day - 1;
    YearOfDay(yoe, doy);
    EraOfDay(era, YearStart(yoe) + doy);
    var z := DaysFromCivil(year, month, day) + 719468;
    assert z == era * 146097 + (YearStart(yoe) + doy);
    YearStartTrunc(yoe);
  }

  lemma YearStartTrunc(yoe: nat)
    ensures 365 * yoe + TruncDiv(yoe, 4) - TruncDiv(yoe, 100) == YearStart(yoe)
  {
  }

  // ---------------------------------------------------------------- main results

  /** Time of day and day number. */
  lemma SecondsOfDay(days: int, hour: nat, minute: nat, second: nat)
    requires hour < 24 && minute < 60 && second < 60
    ensures var secs := days * 86400 + hour * 3600 + minute * 60 + second;
            var time := secs % 86400;
            secs / 86400 == days && time / 3600 == hour && time / 60 % 60 == minute && time % 60 == second
  {
    TimeDigits(hour, minute, second);
    hide *;
  }

  lemma TimeDigits(hour: nat, minute: nat, second: nat)
    requires hour < 24 && minute < 60 && second < 60
    ensures var time := hour * 3600 + minute * 60 + second;
            time < 86400 && time / 3600 == hour && time / 60 % 60 == minute && time % 60 == second
  {
    assert (hour * 3600 + minute * 60 + second) / 60 == hour * 60 + minute;
  }

  /** from_unix undoes to_unix on every date-time of years 0 to 65535. */
  lemma DateTimeRoundTrip(dt: DateTime)
    requires IsDateTime(dt)
    ensures FromUnix(ToUnix(dt)) == dt
  {
    hide CivilFromDays, DaysFromCivil, DaysInMonth;
    CivilRoundTrip(dt.year, dt.month, dt.day);
    MonthLength(dt.year, dt.month);
    var days := DaysFromCivil(dt.year, dt.month, dt.day);
    SecondsOfDay(days, dt.hour, dt.minute, dt.second);
    CutUnchanged(dt.year, dt.month, dt.day);
    FromUnixOf(ToUnix(dt), days, dt);
  }

  lemma CutUnchanged(year: nat, month: nat, day: nat)
    requires year <= MAX_YEAR && month <= 12 && day <= 31
    ensures year % 65536 == year && month % 256 == month && day % 256 == day
  {
  }

  lemma MonthLength(year: nat, month: nat)
    ensures 28 <= DaysInMonth(year, month) <= 31
  {
  }

  lemma FromUnixOf(secs: int, days: int, dt: DateTime)
    requires secs / 86400 == days && CivilFromDays(days) == (dt.year as int, dt.month as int, dt.day as int)
    requires dt.year % 65536 == dt.year && dt.month % 256 == dt.month && dt.day % 256 == dt.day
    requires var time := secs % 86400; time / 3600 == dt.hour && time / 60 % 60 == dt.minute && time % 60 == dt.second
    ensures FromUnix(secs) == dt
  {
    hide CivilFromDays;
  }

  lemma EpochIsZero()
    ensures ToUnix(DateTime(1970, 1, 1, 0, 0, 0)) == 0
  {
  }

  lemma YearZero()
    ensures YearStart(0) == 0
  {
  }

  /** A March-based year ends where the next begins. */
  lemma YearAdvances(y: int, era: int, yoe: int, era': int, yoe': int)
    requires InEra(y, era, yoe) && InEra(y + 1, era', yoe')
    ensures era * 146097 + YearStart(yoe) + YearDays(yoe) == era' * 146097 + YearStart(yoe')
  {
    hide YearStart, YearDays;
    YearStartNext(yoe);
    if yoe < 399 {
      assert era' == era && yoe' == yoe + 1;
    } else {
      assert era' == era + 1 && yoe' == 0;
      YearZero();
    }
  }

  lemma MonthAdvances(year: nat, month: nat)
    requires 1 <= month <= 12 && month != 2
    ensures var next := if month < 12 then month + 1 else 1;
            MonthStart(MonthIndex(month)) + DaysInMonth(year, month) == MonthStart(MonthIndex(next))
  {
  }

  /** The day number of the next day is one more. */
  lemma NextDayAdvances(dt: DateTime)
    requires 1 <= dt.month <= 12 && 1 <= dt.day <= DaysInMonth(dt.year, dt.month)
    ensures var next := NextDay(dt);
            DaysFromCivil(next.year, next.month, next.day) == DaysFromCivil(dt.year, dt.month, dt.day) + 1
  {
    hide DaysFromCivil, Era, YearStart, YearDays;
    var next := NextDay(dt);
    var y := if dt.month <= 2 then dt.year - 1 else dt.year;
    var y' := if next.month <= 2 then next.year - 1 else next.year;
    EraOfYear(y);
    EraOfYear(y');
    var era, yoe, era', yoe' := Era(y), y - Era(y) * 400, Era(y'), y' - Era(y') * 400;
    DaysOfDate(dt.year, dt.month, dt.day, y, era, yoe);
    DaysOfDate(next.year, next.month, next.day, y', era', yoe');
    if dt.day == DaysInMonth(dt.year, dt.month) {
      if dt.month == 2 {
        assert y' == y + 1;
        YearAdvances(y, era, yoe, era', yoe');
        LastDayOfFebruary(dt.year, y, era, yoe);
      } else {
        assert y' == y;
        MonthAdvances(dt.year, dt.month);
      }
    }
  }

  lemma LastDayOfFebruary(year: nat, y: int, era: int, yoe: int)
    requires y == year - 1 && InEra(y, era, yoe)
    ensures MonthStart(MonthIndex(2)) + DaysInMonth(year, 2) == YearDays(yoe) && MonthStart(MonthIndex(3)) == 0
  {
    LeapInEra(y, era, yoe);
    hide IsLeap;
  }

  /** With EpochIsZero, the definition of Unix time: each second of the calendar adds one. */
  lemma NextSecondAdvances(dt: DateTime)
    requires IsDateTime(dt)
    ensures ToUnix(NextSecond(dt)) == ToUnix(dt) + 1
    ensures dt != LAST ==> IsDateTime(NextSecond(dt))
  {
    hide DaysFromCivil;
    MonthLength(dt.year, dt.month);
    MonthLength(dt.year, dt.month + 1);
    NextDayAdvances(dt);
  }

  /** The date-time `n` seconds into year 0. */
  function After(n: nat): DateTime {
    if n == 0 then FIRST else NextSecond(After(n - 1))
  }

  lemma {:induction false} AfterCounts(n: nat)
    requires n <= ToUnix(LAST) - ToUnix(FIRST)
    ensures IsDateTime(After(n)) && ToUnix(After(n)) == ToUnix(FIRST) + n
    decreases n, 0
  {
    hide NextSecond, ToUnix;
    if n > 0 {
      AfterCounts(n - 1);
      NextSecondAdvances(After(n - 1));
    } else {
      assert IsDateTime(FIRST);
    }
  }

  /** to_unix undoes from_unix on every second of years 0 to 65535. */
  lemma UnixRoundTrip(secs: int)
    requires ToUnix(FIRST) <= secs <= ToUnix(LAST)
    ensures IsDateTime(FromUnix(secs)) && ToUnix(FromUnix(secs)) == secs
  {
    hide ToUnix, FromUnix, After;
    AfterCounts(secs - ToUnix(FIRST));
    DateTimeRoundTrip(After(secs - ToUnix(FIRST)));
  }

  lemma NextIsLater(dt: DateTime)
    requires IsDateTime(dt)
    ensures Before(dt, NextSecond(dt))
  {
  }

  lemma BeforeTransitive(a: DateTime, b: DateTime, c: DateTime)
    requires Before(a, b) && Before(b, c)
    ensures Before(a, c)
  {
  }

  lemma {:induction false} LaterIsNotBefore(i: nat, j: nat)
    requires i <= j <= ToUnix(LAST) - ToUnix(FIRST)
    ensures After(i) == After(j) || Before(After(i), After(j))
    decreases j - i
  {
    hide ToUnix, NextSecond, Before;
    if i < j {
      LaterIsNotBefore(i, j - 1);
      AfterCounts(j - 1);
      NextIsLater(After(j - 1));
      if After(i) != After(j - 1) {
        BeforeTransitive(After(i), After(j - 1), After(j));
      }
    }
  }

  /** Every date-time is reached by counting seconds. */
  lemma Reached(dt: DateTime) returns (n: nat)
    requires IsDateTime(dt) && ToUnix(FIRST) <= ToUnix(dt) <= ToUnix(LAST)
    ensures n == ToUnix(dt) - ToUnix(FIRST) && n <= ToUnix(LAST) - ToUnix(FIRST) && After(n) == dt
  {
    hide ToUnix, FromUnix, After;
    n := ToUnix(dt) - ToUnix(FIRST);
    AfterCounts(n);
    DateTimeRoundTrip(dt);
    DateTimeRoundTrip(After(n));
  }

  /** Bounds of a date's day number. */
  lemma DaysInRange(dt: DateTime)
    requires IsDateTime(dt)
    ensures ToUnix(FIRST) <= ToUnix(dt) <= ToUnix(LAST)
  {
    MonthLength(dt.year, dt.month);
    hide DaysInMonth;
  }

  /** to_unix is strictly increasing in calendar order, and only then. */
  lemma UnixOrder(a: DateTime, b: DateTime)
    requires IsDateTime(a) && IsDateTime(b)
    ensures Before(a, b) <==> ToUnix(a) < ToUnix(b)
  {
    hide ToUnix, After, IsDateTime;
    DaysInRange(a);
    DaysInRange(b);
    var i := Reached(a);
    var j := Reached(b);
    if i <= j {
      LaterIsNotBefore(i, j);
    } else {
      LaterIsNotBefore(j, i);
    }
  }
}
