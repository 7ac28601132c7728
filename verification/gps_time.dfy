/** GPS week and time of week turned into a civil date and time. */
module GpsTime {
  /** The fields handed to mktime, with the year and month in their civil numbering. */
  datatype CivilTime = CivilTime(year: int, month: int, day: int, hour: int, minute: int, second: int)

  // ----- The Gregorian calendar, independently of the code -----

  predicate Leap(y: int) {
    y % 4 == 0 && (y % 100 != 0 || y % 400 == 0)
  }

  function MonthDays(y: int, m: int): nat {
    if m == 2 then if Leap(y) then 29 else 28
    else if m == 4 || m == 6 || m == 9 || m == 11 then 30
    else 31
  }

  /** Days from 1 January of year 1 to 1 January of year `y`, proleptically. */
  function DaysBeforeYear(y: int): int {
    365 * (y - 1) + (y - 1) / 4 - (y - 1) / 100 + (y - 1) / 400
  }

  function DaysBeforeMonth(y: int, m: int): nat
    decreases m
  {
    if m <= 1 then 0 else DaysBeforeMonth(y, m - 1) + MonthDays(y, m - 1)
  }

  function DayNumber(y: int, m: int, d: int): int {
    DaysBeforeYear(y) + DaysBeforeMonth(y, m) + d - 1
  }

  predicate ValidDate(y: int, m: int, d: int) {
    1 <= m <= 12 && 1 <= d <= MonthDays(y, m)
  }

  predicate ValidTime(t: CivilTime) {
    && ValidDate(t.year, t.month, t.day)
    && 0 <= t.hour < 24 && 0 <= t.minute < 60 && 0 <= t.second < 60
  }

  /** Seconds since the GPS epoch, midnight of 6 January 1980. */
  function Elapsed(t: CivilTime): int {
    (DayNumber(t.year, t.month, t.day) - DayNumber(1980, 1, 6)) * 86400
    + t.hour * 3600 + t.minute * 60 + t.second
  }

  predicate Before(a: CivilTime, b: CivilTime) {
    a.year < b.year || (a.year == b.year && (a.month < b.month || (a.month == b.month && (a.day < b.day
    || (a.day == b.day && (a.hour < b.hour || (a.hour == b.hour && (a.minute < b.minute
    || (a.minute == b.minute && a.second < b.second)))))))))
  }

  function YearDays(y: int): nat {
    if Leap(y) then 366 else 365
  }

  lemma QuotientStep(z: int, n: int)
    requires n > 1
    ensures (z + 1) / n == z / n + if (z + 1) % n == 0 then 1 else 0
  {
    var q, r := z / n, z % n;
    assert z == n * q + r;
    if r == n - 1 {
      assert z + 1 == n * (q + 1);
      Quotient(z + 1, n, q + 1, 0);
    } else {
      Quotient(z + 1, n, q, r + 1);
    }
  }

  lemma Quotient(x: int, n: int, q: int, r: int)
    requires 0 <= r < n && x == n * q + r
    ensures x / n == q && x % n == r
  {
    var d := x / n - q;
    assert n * d == r - x % n by {
      assert n * (x / n) + x % n == x;
      assert n * (x / n - q) == n * (x / n) - n * q;
    }
    assert d >= 1 ==> n * d >= n;
    assert d <= -1 ==> n * d <= -n;
  }

  lemma YearStep(y: int)
    ensures DaysBeforeYear(y + 1) == DaysBeforeYear(y) + YearDays(y)
  {
    QuotientStep(y - 1, 4);
    QuotientStep(y - 1, 100);
    QuotientStep(y - 1, 400);
    LeapCount(y);
  }

  /** Every 400th year is a 100th one, and that a fourth one. */
  lemma LeapCount(y: int)
    ensures y % 400 == 0 ==> y % 100 == 0
    ensures y % 100 == 0 ==> y % 4 == 0
  {
    if y % 400 == 0 {
      Quotient(y, 100, 4 * (y / 400), 0);
    }
    if y % 100 == 0 {
      Quotient(y, 4, 25 * (y / 100), 0);
    }
  }

  /** Counting years from 1980, the tests for the 100th, 400th and fourth year. */
  lemma YearsFrom1980(k: nat)
    ensures k % 100 == 20 <==> (1980 + k) % 100 == 0
    ensures k % 400 == 20 <==> (1980 + k) % 400 == 0
    ensures k % 4 == 0 <==> (1980 + k) % 4 == 0
  {
    HundredthYears(k);
    FourHundredthYears(k);
    FourthYears(k);
  }

  lemma HundredthYears(k: nat)
    ensures k % 100 == 20 <==> (1980 + k) % 100 == 0
  {}

  lemma FourHundredthYears(k: nat)
    ensures k % 400 == 20 <==> (1980 + k) % 400 == 0
  {}

  lemma FourthYears(k: nat)
    ensures k % 4 == 0 <==> (1980 + k) % 4 == 0
  {}

  lemma {:induction false} YearsMonotone(y: int, z: int)
    requires y <= z
    ensures DaysBeforeYear(y) <= DaysBeforeYear(z)
    decreases z - y
  {
    if y < z {
      YearStep(y);
      YearsMonotone(y + 1, z);
    }
  }

  lemma {:induction false} MonthsMonotone(y: int, m: int, n: int)
    requires 1 <= m <= n
    ensures DaysBeforeMonth(y, m) <= DaysBeforeMonth(y, n)
    decreases n - m
  {
    if m < n {
      MonthsMonotone(y, m + 1, n);
    }
  }

  lemma DayWithinYear(y: int, m: int, d: int)
    requires ValidDate(y, m, d)
    ensures 0 <= DaysBeforeMonth(y, m) + d - 1 < YearDays(y)
  {
    MonthsMonotone(y, m + 1, 13);
    MonthTable(y);
  }

  /** The days before each month, in figures. */
  lemma MonthTable(y: int)
    ensures var leap := if Leap(y) then 1 else 0;
      && DaysBeforeMonth(y, 1) == 0 && DaysBeforeMonth(y, 2) == 31
      && DaysBeforeMonth(y, 3) == 59 + leap && DaysBeforeMonth(y, 4) == 90 + leap
      && DaysBeforeMonth(y, 5) == 120 + leap && DaysBeforeMonth(y, 6) == 151 + leap
      && DaysBeforeMonth(y, 7) == 181 + leap && DaysBeforeMonth(y, 8) == 212 + leap
      && DaysBeforeMonth(y, 9) == 243 + leap && DaysBeforeMonth(y, 10) == 273 + leap
      && DaysBeforeMonth(y, 11) == 304 + leap && DaysBeforeMonth(y, 12) == 334 + leap
      && DaysBeforeMonth(y, 13) == YearDays(y)
  {
    assert DaysBeforeMonth(y, 3) == DaysBeforeMonth(y, 2) + MonthDays(y, 2);
    assert DaysBeforeMonth(y, 5) == DaysBeforeMonth(y, 4) + MonthDays(y, 4);
    assert DaysBeforeMonth(y, 7) == DaysBeforeMonth(y, 6) + MonthDays(y, 6);
    assert DaysBeforeMonth(y, 9) == DaysBeforeMonth(y, 8) + MonthDays(y, 8);
    assert DaysBeforeMonth(y, 11) == DaysBeforeMonth(y, 10) + MonthDays(y, 10);
    assert DaysBeforeMonth(y, 13) == DaysBeforeMonth(y, 12) + MonthDays(y, 12);
  }

  lemma DaysOfYearMonotone(y: int, m: int, d: int, m': int, d': int)
    requires ValidDate(y, m, d) && ValidDate(y, m', d') && (m < m' || (m == m' && d < d'))
    ensures DaysBeforeMonth(y, m) + d < DaysBeforeMonth(y, m') + d'
  {
    assert DaysBeforeMonth(y, m + 1) == DaysBeforeMonth(y, m) + MonthDays(y, m);
    hide DaysBeforeMonth, MonthDays;
    if m < m' {
      MonthsMonotone(y, m + 1, m');
    }
  }

  lemma YearEndsBefore(y: int, n: int)
    requires y < n
    ensures DaysBeforeYear(y) + YearDays(y) <= DaysBeforeYear(n)
  {
    hide DaysBeforeYear, YearDays;
    YearStep(y);
    YearsMonotone(y + 1, n);
  }

  lemma DatesMonotone(a: CivilTime, b: CivilTime)
    requires ValidTime(a) && ValidTime(b)
    requires a.year < b.year || (a.year == b.year && (a.month < b.month || (a.month == b.month && a.day < b.day)))
    ensures DayNumber(a.year, a.month, a.day) < DayNumber(b.year, b.month, b.day)
  {
    hide DaysBeforeYear, DaysBeforeMonth, MonthDays, YearDays;
    if a.year == b.year {
      DaysOfYearMonotone(a.year, a.month, a.day, b.month, b.day);
    } else {
      DayWithinYear(a.year, a.month, a.day);
      DayWithinYear(b.year, b.month, b.day);
      YearEndsBefore(a.year, b.year);
    }
  }

  lemma LaterIsMore(a: CivilTime, b: CivilTime)
    requires ValidTime(a) && ValidTime(b) && Before(a, b)
    ensures Elapsed(a) < Elapsed(b)
  {
    hide DayNumber;
    if a.year == b.year && a.month == b.month && a.day == b.day {
    } else {
      DatesMonotone(a, b);
    }
  }

  /** Civil time and elapsed seconds order the instants alike; so no two civil times share their seconds. */
  lemma ElapsedIsStrictlyMonotone(a: CivilTime, b: CivilTime)
    requires ValidTime(a) && ValidTime(b)
    ensures Before(a, b) <==> Elapsed(a) < Elapsed(b)
    ensures a == b <==> Elapsed(a) == Elapsed(b)
  {
    hide ValidTime, Elapsed;
    if Before(a, b) {
      LaterIsMore(a, b);
    } else if a != b {
      LaterIsMore(b, a);
    }
  }

  /** The count starts at midnight of 6 January 1980, and at no other time. */
  lemma EpochIsZero(t: CivilTime)
    requires ValidTime(t)
    ensures Elapsed(t) == 0 <==> t == CivilTime(1980, 1, 6, 0, 0, 0)
  {
    hide ValidTime, Elapsed;
    var epoch := CivilTime(1980, 1, 6, 0, 0, 0);
    EpochIsValid(epoch);
    ElapsedIsStrictlyMonotone(t, epoch);
  }

  lemma EpochIsValid(t: CivilTime)
    requires t == CivilTime(1980, 1, 6, 0, 0, 0)
    ensures ValidTime(t) && Elapsed(t) == 0
  {
    hide DaysBeforeYear, DaysBeforeMonth;
  }

  // ----- The conversion -----

  /** Takes off whole years from 1980 on; what is left is the day of the last of them. */
  method YearAndDay(days: nat) returns (yearsElapsed: nat, rest: nat)
    ensures DaysBeforeYear(1980 + yearsElapsed) + rest == DaysBeforeYear(1980) + days
    ensures rest < YearDays(1980 + yearsElapsed)
  {
    hide DaysBeforeYear;
    yearsElapsed, rest := 0, days;
    while rest >= 365
      invariant DaysBeforeYear(1980 + yearsElapsed) + rest == DaysBeforeYear(1980) + days
      decreases rest
    {
      YearStep(1980 + yearsElapsed);
      YearsFrom1980(yearsElapsed);
      LeapCount(1980 + yearsElapsed);
      if yearsElapsed % 100 == 20 {
        if yearsElapsed % 400 == 20 {
          if rest >= 366 {
            rest := rest - 366;
          } else {
            break;
          }
        } else {
          rest := rest - 365;
        }
      } else if yearsElapsed % 4 == 0 {
        if rest >= 366 {
          rest := rest - 366;
        } else {
          break;
        }
      } else {
        rest := rest - 365;
      }
      yearsElapsed := yearsElapsed + 1;
    }
  }

  /** The table of days before each month, moved up from March on in a leap year, and the search in it. */
  method MonthAndDay(yearsElapsed: nat, rest: nat) returns (month: nat, day: nat)
    requires rest < YearDays(1980 + yearsElapsed)
    ensures ValidDate(1980 + yearsElapsed, month, day)
    ensures DaysBeforeMonth(1980 + yearsElapsed, month) + day - 1 == rest
  {
    var doy := new nat[12] [0, 31, 59, 90, 120, 151, 181, 212, 243, 273, 304, 334];
    ghost var y := 1980 + yearsElapsed;
    var leap := false;
    if yearsElapsed % 100 == 20 {
      if yearsElapsed % 400 == 20 {
        leap := true;
      }
    } else if yearsElapsed % 4 == 0 {
      leap := true;
    }
    YearsFrom1980(yearsElapsed);
    LeapCount(y);
    assert leap == Leap(y);
    hide Leap;
    ghost var table := doy[..];
    if leap {
      for i := 2 to 12
        invariant doy[0] == table[0] && doy[1] == table[1]
        invariant forall k :: 2 <= k < i ==> doy[k] == table[k] + 1
        invariant forall k :: i <= k < 12 ==> doy[k] == table[k]
      {
        doy[i] := doy[i] + 1;
      }
    }
    MonthTable(y);
    assert forall k :: 0 <= k < 12 ==> doy[k] == DaysBeforeMonth(y, k + 1);
    ghost var filled := doy[..];
    var i := 0;
    while i < 12 && rest >= doy[i]
      invariant 0 <= i <= 12 && doy[..] == filled
      invariant i > 0 ==> doy[i - 1] <= rest
    {
      i := i + 1;
    }
    month, day := i, 0;
    if i > 0 {
      day := rest - doy[i - 1] + 1;
    }
    assert DaysBeforeMonth(y, i + 1) == DaysBeforeMonth(y, i) + MonthDays(y, i);
  }

  lemma FloorOfQuotient(x: real)
    requires x >= 0.0
    ensures (x / 3600.0).Floor == x.Floor / 3600
  {
    var q := x.Floor / 3600;
    assert (3600 * q) as real <= x < (3600 * q + 3600) as real;
  }

  /** Hour, minute and second of a day, the fraction of a second dropped. */
  method TimeOfDay(sec: real) returns (hour: int, minute: int, second: int)
    requires 0.0 <= sec && sec.Floor < 86400
    ensures 0 <= hour < 24 && 0 <= minute < 60 && 0 <= second < 60
    ensures hour * 3600 + minute * 60 + second == sec.Floor
  {
    hour := (sec / 3600.0).Floor;
    FloorOfQuotient(sec);
    minute := sec.Floor % 3600 / 60;
    FloorOfDifference(sec, sec.Floor / 60 * 60);
    second := (sec - (sec.Floor / 60 * 60) as real).Floor;
  }

  lemma FloorOfDifference(x: real, n: int)
    ensures (x - n as real).Floor == x.Floor - n
  {}

  /**
   The civil time built from a week number and a time of week is a valid one, and exactly as many seconds
   after the epoch.
   */
  method GpsToUtcTime(week: nat, tow: real) returns (t: CivilTime)
    requires tow >= 0.0
    ensures ValidTime(t)
    ensures Elapsed(t) == week * 604800 + tow.Floor
  {
    hide DaysBeforeYear, MonthDays;
    var wholeDays := tow.Floor / 86400;
    var days := week * 7 + wholeDays + 5;
    FloorOfDifference(tow, wholeDays * 86400);
    var hour, minute, second := TimeOfDay(tow - (wholeDays * 86400) as real);
    var yearsElapsed, rest := YearAndDay(days);
    var month, day := MonthAndDay(yearsElapsed, rest);
    t := CivilTime(1980 + yearsElapsed, month, day, hour, minute, second);
  }
}
