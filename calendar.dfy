/**
 * Proleptic Gregorian calendar arithmetic on day numbers, and instants seen
 * through fixed-offset time zones.
 *
 * This is the part of Python's `datetime`, `calendar.monthrange` and `pytz`
 * that the maintenance calculators rely on. A day number counts days from
 * 1970-01-01 (negative before it); an instant counts seconds from
 * 1970-01-01T00:00:00Z. Weekdays follow Python's `date.weekday()`:
 * Monday = 0 ... Sunday = 6.
 */
module Calendar {

  const SecondsPerMinute := 60
  const SecondsPerHour := 3600
  const SecondsPerDay := 86400

  datatype Date = Date(year: int, month: int, day: int)

  predicate IsLeapYear(y: int) {
    y % 4 == 0 && (y % 100 != 0 || y % 400 == 0)
  }

  function DaysInMonth(y: int, m: int): (n: int)
    ensures 28 <= n <= 31
  {
    if m == 2 then (if IsLeapYear(y) then 29 else 28)
    else if m == 4 || m == 6 || m == 9 || m == 11 then 30
    else 31
  }

  predicate ValidDate(d: Date) {
    1 <= d.month <= 12 && 1 <= d.day <= DaysInMonth(d.year, d.month)
  }

  // ---------------------------------------------------------------------
  // Dates to day numbers. Years are counted from 1 March, so that the leap
  // day is the last day of its year; 400 such years form an era of
  // 146097 days.
  // ---------------------------------------------------------------------

  /** Days of a March-based year of an era before its month `mp` (0 = March ... 11 = February). */
  function DaysBeforeMonth(mp: int): int {
    (153 * mp + 2) / 5
  }

  /** Days of an era before its March-based year `yoe`. */
  function DaysBeforeYear(yoe: int): int {
    365 * yoe + yoe / 4 - yoe / 100
  }

  /** Days from 1970-01-01 to `d`. */
  function DaysFromCivil(d: Date): int {
    var y := if d.month <= 2 then d.year - 1 else d.year;
    var era := y / 400;
    var yoe := y - era * 400;
    var mp := if d.month > 2 then d.month - 3 else d.month + 9;
    var doy := DaysBeforeMonth(mp) + d.day - 1;
    era * 146097 + DaysBeforeYear(yoe) + doy - 719468
  }

  // ---------------------------------------------------------------------
  // Day numbers to dates.
  // ---------------------------------------------------------------------

  /** The March-based year of an era that holds the era's day `doe`. */
  function YearOfEra(doe: int): (yoe: int)
    requires 0 <= doe < 146097
    ensures 0 <= yoe < 400
    ensures DaysBeforeYear(yoe) <= doe
    ensures doe - DaysBeforeYear(yoe) <= 365
    ensures doe - DaysBeforeYear(yoe) == 365 ==> IsLeapYear(yoe + 1)
  {
    // centuries of 36524 days (the last one has 36525), then 4-year cycles
    // of 1461 days (the last of a century may have 1460), then years of 365
    // days (the last of a cycle may have 366)
    var c := if doe / 36524 < 3 then doe / 36524 else 3;
    var r1 := doe - 36524 * c;
    var q := r1 / 1461;
    var r2 := r1 % 1461;
    var a := if r2 / 365 < 3 then r2 / 365 else 3;
    var yoe := 100 * c + 4 * q + a;
    assert 0 <= q <= 24 && 0 <= a <= 3;
    assert yoe / 4 == 25 * c + q;
    assert yoe / 100 == c;
    assert DaysBeforeYear(yoe) == 36524 * c + 1461 * q + 365 * a;
    LeapAtCycleEnd(c, q, r1, r2, a);
    yoe
  }

  /** The last day of a 4-year cycle is a leap day, except at the end of a century other than the era's last. */
  lemma LeapAtCycleEnd(c: int, q: int, r1: int, r2: int, a: int)
    requires 0 <= c <= 3 && 0 <= q <= 24
    requires 0 <= r1 <= 36524 && (r1 == 36524 ==> c == 3)
    requires r1 == 1461 * q + r2 && 0 <= r2 < 1461
    requires a == if r2 / 365 < 3 then r2 / 365 else 3
    ensures r2 - 365 * a == 365 ==> IsLeapYear(100 * c + 4 * q + a + 1)
  {
    if r2 - 365 * a == 365 {
      assert a == 3 && r2 == 1460;
      var y := 100 * c + 4 * q + 4;
      if q == 24 {
        assert c == 3 && y == 400;
      } else {
        ModShift4(25 * c + q + 1, 0);
        assert y % 4 == 0;
        ModShift100(c, 4 * q + 4);
        assert y % 100 == 4 * q + 4;
      }
    }
  }

  // Adding a multiple of the modulus does not change a remainder.

  lemma ModShift4(k: int, y: int)
    ensures (4 * k + y) % 4 == y % 4
  {
    assert 4 * k + y == 4 * (k + y / 4) + y % 4;
  }

  lemma ModShift100(k: int, y: int)
    ensures (100 * k + y) % 100 == y % 100
  {
    assert 100 * k + y == 100 * (k + y / 100) + y % 100;
  }

  lemma ModShift400(k: int, y: int)
    ensures (400 * k + y) % 400 == y % 400
  {
    assert 400 * k + y == 400 * (k + y / 400) + y % 400;
  }

  /** The March-based month (0 = March ... 11 = February) that holds day `doy` of its year. */
  function MonthOfYear(doy: int): (mp: int)
    requires 0 <= doy <= 365
    ensures 0 <= mp <= 11
    ensures DaysBeforeMonth(mp) <= doy
    ensures mp < 11 ==> doy < DaysBeforeMonth(mp + 1)
  {
    var mp := (5 * doy + 2) / 153;
    assert 153 * mp <= 5 * doy + 2 < 153 * mp + 153;
    mp
  }

  /** The civil date of day number `z`. */
  function CivilFromDays(z: int): (d: Date)
    ensures ValidDate(d)
    ensures DaysFromCivil(d) == z
  {
    var s := z + 719468;
    var era := s / 146097;
    var doe := s % 146097;
    var yoe := YearOfEra(doe);
    var doy := doe - DaysBeforeYear(yoe);
    var mp := MonthOfYear(doy);
    var day := doy - DaysBeforeMonth(mp) + 1;
    var month := if mp < 10 then mp + 3 else mp - 9;
    var year := 400 * era + yoe + (if month <= 2 then 1 else 0);
    MonthLengths(mp, day, doy);
    LeapShift(era, yoe + 1);
    EraOfYear(era, yoe);
    Date(year, month, day)
  }

  lemma EraOfYear(era: int, yoe: int)
    requires 0 <= yoe < 400
    ensures (400 * era + yoe) / 400 == era
  {
  }

  /** Each March-based month is as long as `DaysInMonth` says of its civil month. */
  lemma MonthLengths(mp: int, day: int, doy: int)
    requires 0 <= mp <= 11 && 0 <= doy <= 365
    requires DaysBeforeMonth(mp) <= doy && (mp < 11 ==> doy < DaysBeforeMonth(mp + 1))
    requires day == doy - DaysBeforeMonth(mp) + 1
    ensures 1 <= day
    ensures mp < 11 ==> day <= DaysInMonth(0, if mp < 10 then mp + 3 else mp - 9)
    ensures mp == 11 ==> day <= 29 && (day == 29 <==> doy == 365)
  {
    if mp == 0 { assert DaysBeforeMonth(1) == 31; }
    else if mp == 1 { assert DaysBeforeMonth(1) == 31 && DaysBeforeMonth(2) == 61; }
    else if mp == 2 { assert DaysBeforeMonth(2) == 61 && DaysBeforeMonth(3) == 92; }
    else if mp == 3 { assert DaysBeforeMonth(3) == 92 && DaysBeforeMonth(4) == 122; }
    else if mp == 4 { assert DaysBeforeMonth(4) == 122 && DaysBeforeMonth(5) == 153; }
    else if mp == 5 { assert DaysBeforeMonth(5) == 153 && DaysBeforeMonth(6) == 184; }
    else if mp == 6 { assert DaysBeforeMonth(6) == 184 && DaysBeforeMonth(7) == 214; }
    else if mp == 7 { assert DaysBeforeMonth(7) == 214 && DaysBeforeMonth(8) == 245; }
    else if mp == 8 { assert DaysBeforeMonth(8) == 245 && DaysBeforeMonth(9) == 275; }
    else if mp == 9 { assert DaysBeforeMonth(9) == 275 && DaysBeforeMonth(10) == 306; }
    else if mp == 10 { assert DaysBeforeMonth(10) == 306 && DaysBeforeMonth(11) == 337; }
    else { assert DaysBeforeMonth(11) == 337; }
  }

  /** Leap years repeat every 400 years. */
  lemma LeapShift(era: int, y: int)
    ensures IsLeapYear(400 * era + y) == IsLeapYear(y)
  {
    ModShift4(100 * era, y);
    ModShift100(4 * era, y);
    ModShift400(era, y);
  }

  // ---------------------------------------------------------------------
  // The two conversions are inverse, and day numbers count consecutive days.
  // ---------------------------------------------------------------------

  /** A March-based year of an era has 366 days when the civil year it ends in is a leap year, else 365. */
  lemma YearLength(a: int)
    requires 0 <= a < 399
    ensures DaysBeforeYear(a + 1) == DaysBeforeYear(a) + (if IsLeapYear(a + 1) then 366 else 365)
  {
    assert (a + 1) / 4 == a / 4 + (if (a + 1) % 4 == 0 then 1 else 0);
    assert (a + 1) / 100 == a / 100 + (if (a + 1) % 100 == 0 then 1 else 0);
    assert (a + 1) % 400 != 0;
  }

  /** Later years of an era start later. */
  lemma YearsIncrease(a: int, b: int)
    requires 0 <= a < b
    ensures DaysBeforeYear(a + 1) <= DaysBeforeYear(b)
  {
    assert (a + 1) / 4 <= b / 4;
    assert b / 100 - (a + 1) / 100 <= (b - a - 1) / 100 + 1;
  }

  /** Only one year of an era holds a given day of the era. */
  lemma YearOfEraUnique(doe: int, a: int, b: int)
    requires 0 <= a < 400 && DaysBeforeYear(a) <= doe && doe - DaysBeforeYear(a) <= 365
    requires doe - DaysBeforeYear(a) == 365 ==> IsLeapYear(a + 1)
    requires 0 <= b < 400 && DaysBeforeYear(b) <= doe && doe - DaysBeforeYear(b) <= 365
    requires doe - DaysBeforeYear(b) == 365 ==> IsLeapYear(b + 1)
    ensures a == b
  {
    if a < b {
      YearLength(a);
      YearsIncrease(a, b);
    } else if b < a {
      YearLength(b);
      YearsIncrease(b, a);
    }
  }

  /** Only one month of a March-based year holds a given day of the year. */
  lemma MonthOfYearUnique(doy: int, a: int, b: int)
    requires 0 <= a <= 11 && DaysBeforeMonth(a) <= doy && (a < 11 ==> doy < DaysBeforeMonth(a + 1))
    requires 0 <= b <= 11 && DaysBeforeMonth(b) <= doy && (b < 11 ==> doy < DaysBeforeMonth(b + 1))
    ensures a == b
  {
  }

  /** Each March-based month other than February spans the days of its civil month. */
  lemma MonthSpan(mp: int)
    requires 0 <= mp <= 10
    ensures DaysBeforeMonth(mp + 1) - DaysBeforeMonth(mp) == DaysInMonth(0, if mp < 10 then mp + 3 else mp - 9)
    ensures DaysBeforeMonth(11) == 337
  {
  }

  /** The civil date of the day `doy` of March-based year `yoe` of era `era`, which is day number `z`. */
  lemma CivilFromParts(z: int, era: int, yoe: int, mp: int, doy: int)
    requires 0 <= yoe < 400 && 0 <= mp <= 11 && doy <= 365
    requires DaysBeforeMonth(mp) <= doy && (mp < 11 ==> doy < DaysBeforeMonth(mp + 1))
    requires doy == 365 ==> IsLeapYear(yoe + 1)
    requires DaysBeforeYear(yoe) + doy < 146097
    requires z + 719468 == era * 146097 + DaysBeforeYear(yoe) + doy
    ensures var c := CivilFromDays(z);
      c.year == 400 * era + yoe + (if mp >= 10 then 1 else 0)
      && c.month == (if mp < 10 then mp + 3 else mp - 9)
      && c.day == doy - DaysBeforeMonth(mp) + 1
  {
    var doe := DaysBeforeYear(yoe) + doy;
    EraOfDay(era, doe);
    YearOfEraUnique(doe, YearOfEra(doe), yoe);
    MonthOfYearUnique(doy, MonthOfYear(doy), mp);
    CivilOfSplit(z, era, doe, yoe, mp);
  }

  /** `CivilFromDays` read off the era, year of era and month it finds. */
  lemma CivilOfSplit(z: int, era: int, doe: int, yoe: int, mp: int)
    requires 0 <= doe < 146097
    requires (z + 719468) / 146097 == era && (z + 719468) % 146097 == doe
    requires YearOfEra(doe) == yoe
    requires 0 <= doe - DaysBeforeYear(yoe) <= 365
    requires MonthOfYear(doe - DaysBeforeYear(yoe)) == mp
    ensures var c := CivilFromDays(z);
      c.year == 400 * era + yoe + (if mp >= 10 then 1 else 0)
      && c.month == (if mp < 10 then mp + 3 else mp - 9)
      && c.day == doe - DaysBeforeYear(yoe) - DaysBeforeMonth(mp) + 1
  {
  }

  lemma EraOfDay(era: int, doe: int)
    requires 0 <= doe < 146097
    ensures (era * 146097 + doe) / 146097 == era
    ensures (era * 146097 + doe) % 146097 == doe
  {
  }

  /** Converting a valid date to its day number and back gives the date. */
  lemma CivilOfDays(d: Date)
    requires ValidDate(d)
    ensures CivilFromDays(DaysFromCivil(d)) == d
  {
    var y := if d.month <= 2 then d.year - 1 else d.year;
    var era := y / 400;
    var yoe := y - era * 400;
    var mp := if d.month > 2 then d.month - 3 else d.month + 9;
    var doy := DaysBeforeMonth(mp) + d.day - 1;
    if mp < 11 {
      MonthSpan(mp);
      assert DaysInMonth(0, d.month) == DaysInMonth(d.year, d.month);
    } else {
      MonthSpan(0);
      LeapShift(era, yoe + 1);
    }
    if yoe < 399 {
      YearsIncrease(yoe, 399);
      YearLength(yoe);
    }
    CivilFromParts(DaysFromCivil(d), era, yoe, mp, doy);
  }

  /** The day after the last day of a month is the 1st of the next month. */
  lemma NextMonth(y: int, m: int)
    requires 1 <= m <= 12
    ensures var next := if m == 12 then Date(y + 1, 1, 1) else Date(y, m + 1, 1);
      DaysFromCivil(next) == DaysFromCivil(Date(y, m, DaysInMonth(y, m))) + 1
  {
    if m != 2 {
      MonthSpan(if m > 2 then m - 3 else m + 9);
      assert DaysInMonth(0, m) == DaysInMonth(y, m);
    } else {
      FebruaryEnd(y);
    }
  }

  /** The day after the last of February is 1 March, the first day of the next March-based year. */
  lemma FebruaryEnd(y: int)
    ensures DaysFromCivil(Date(y, 3, 1)) == DaysFromCivil(Date(y, 2, DaysInMonth(y, 2))) + 1
  {
    var era := (y - 1) / 400;
    var yoe := y - 1 - era * 400;
    MonthSpan(0);
    LeapShift(era, yoe + 1);
    if yoe < 399 {
      YearLength(yoe);
      assert y / 400 == era && y - era * 400 == yoe + 1;
    } else {
      assert y / 400 == era + 1 && y - (era + 1) * 400 == 0;
    }
  }

  // ---------------------------------------------------------------------
  // Weekdays and months.
  // ---------------------------------------------------------------------

  /** Python's `weekday()` of day number `z`: 1970-01-01 was a Thursday (3). */
  function Weekday(z: int): (w: int)
    ensures 0 <= w < 7
  {
    (z + 3) % 7
  }

  lemma WeekdayNext(z: int)
    ensures Weekday(z + 1) == (Weekday(z) + 1) % 7
  {
  }

  function DateWeekday(d: Date): (w: int)
    ensures 0 <= w < 7
  {
    Weekday(DaysFromCivil(d))
  }

  /** Inside one month, consecutive days have consecutive day numbers. */
  lemma DaysWithinMonth(y: int, m: int, j: int)
    ensures DaysFromCivil(Date(y, m, j)) == DaysFromCivil(Date(y, m, 1)) + j - 1
  {
  }

  /** The calendar day after a valid date. */
  function NextDate(d: Date): (n: Date)
    requires ValidDate(d)
    ensures ValidDate(n)
  {
    if d.day < DaysInMonth(d.year, d.month) then Date(d.year, d.month, d.day + 1)
    else if d.month == 12 then Date(d.year + 1, 1, 1)
    else Date(d.year, d.month + 1, 1)
  }

  /** Day numbers count consecutive calendar days: the next date has the next day number. */
  lemma NextDay(d: Date)
    requires ValidDate(d)
    ensures DaysFromCivil(NextDate(d)) == DaysFromCivil(d) + 1
    ensures CivilFromDays(DaysFromCivil(d) + 1) == NextDate(d)
  {
    NextDayNumber(d);
    CivilOfDays(NextDate(d));
  }

  lemma NextDayNumber(d: Date)
    requires ValidDate(d)
    ensures DaysFromCivil(NextDate(d)) == DaysFromCivil(d) + 1
  {
    var n := NextDate(d);
    if d.day < DaysInMonth(d.year, d.month) {
      assert n == Date(d.year, d.month, d.day + 1);
      DayAfter(d.year, d.month, d.day);
    } else {
      assert d == Date(d.year, d.month, DaysInMonth(d.year, d.month));
      NextMonth(d.year, d.month);
    }
  }

  /** Inside a month, the next day of the month has the next day number. */
  lemma DayAfter(y: int, m: int, j: int)
    ensures DaysFromCivil(Date(y, m, j + 1)) == DaysFromCivil(Date(y, m, j)) + 1
  {
    DaysWithinMonth(y, m, j);
    DaysWithinMonth(y, m, j + 1);
  }

  /**
   * `calendar.monthrange(y, m)`: the weekday of the 1st and the number of
   * days, so that day `r.1` is the month's last valid day and day `d` falls
   * on weekday `(r.0 + d - 1) % 7`.
   */
  function MonthRange(y: int, m: int): (r: (int, int))
    requires 1 <= m <= 12
    ensures 0 <= r.0 < 7 && 28 <= r.1 <= 31
    ensures ValidDate(Date(y, m, r.1)) && !ValidDate(Date(y, m, r.1 + 1))
    ensures forall d :: 1 <= d <= r.1 ==> DateWeekday(Date(y, m, d)) == (r.0 + d - 1) % 7
  {
    MonthWeekdays(y, m);
    (DateWeekday(Date(y, m, 1)), DaysInMonth(y, m))
  }

  /** Day `d` of a month falls `d - 1` weekdays after the 1st. */
  lemma MonthWeekdays(y: int, m: int)
    ensures forall d :: 1 <= d <= DaysInMonth(y, m) ==>
      DateWeekday(Date(y, m, d)) == (DateWeekday(Date(y, m, 1)) + d - 1) % 7
  {
    forall d | 1 <= d <= DaysInMonth(y, m)
      ensures DateWeekday(Date(y, m, d)) == (DateWeekday(Date(y, m, 1)) + d - 1) % 7
    {
      DaysWithinMonth(y, m, d);
      WeekdayShift(DaysFromCivil(Date(y, m, 1)), d - 1);
    }
  }

  /** Moving `k` days on moves the weekday `k` places round the week. */
  lemma WeekdayShift(z: int, k: int)
    ensures Weekday(z + k) == (Weekday(z) + k) % 7
  {
    assert (z + k + 3) % 7 == ((z + 3) % 7 + k) % 7;
  }

  /** How many of the days 1..k of month `m` of year `y` fall on weekday `wd`. */
  function CountWeekday(y: int, m: int, k: nat, wd: int): nat
  {
    if k == 0 then 0
    else CountWeekday(y, m, k - 1, wd) + (if DateWeekday(Date(y, m, k)) == wd then 1 else 0)
  }

  /** `d` is the `n`-th occurrence of its weekday in its month. */
  predicate IsNthWeekday(d: Date, n: nat) {
    ValidDate(d) && CountWeekday(d.year, d.month, d.day, DateWeekday(d)) == n
  }

  /** Days `k` and `day` of one month share a weekday exactly when they are a multiple of 7 apart. */
  lemma SameWeekdayInMonth(y: int, m: int, day: int, k: int)
    ensures (DateWeekday(Date(y, m, k)) == DateWeekday(Date(y, m, day))) == ((k - day) % 7 == 0)
  {
    DaysWithinMonth(y, m, k);
    DaysWithinMonth(y, m, day);
    var f := DaysFromCivil(Date(y, m, 1));
    ModEqIff(f + k + 2, f + day + 2);
  }

  lemma ModEqIff(a: int, b: int)
    ensures (a % 7 == b % 7) == ((a - b) % 7 == 0)
  {
    assert a - b == 7 * (a / 7 - b / 7) + (a % 7 - b % 7);
  }

  lemma CountStep(x: int)
    ensures (x + 7) / 7 - (x + 6) / 7 == if x % 7 == 0 then 1 else 0
  {
  }

  /** Of the days 1..k, (k + 6 - r) / 7 are congruent to r + 1 modulo 7, for 0 <= r < 7. */
  lemma {:induction false} CountWeekdayClosed(y: int, m: int, day: int, k: nat)
    requires 1 <= day
    ensures CountWeekday(y, m, k, DateWeekday(Date(y, m, day))) == (k + 6 - (day - 1) % 7) / 7
  {
    if k > 0 {
      CountWeekdayClosed(y, m, day, k - 1);
      SameWeekdayInMonth(y, m, day, k);
      CountArith(k, day);
    }
  }

  /** The closed form grows by one exactly at the days congruent to `day`. */
  lemma CountArith(k: int, day: int)
    requires 1 <= day && 1 <= k
    ensures (k + 6 - (day - 1) % 7) / 7
            == (k - 1 + 6 - (day - 1) % 7) / 7 + (if (k - day) % 7 == 0 then 1 else 0)
  {
    var r := (day - 1) % 7;
    assert k - day == (k - 1 - r) - 7 * ((day - 1) / 7);
    ModEqIff(k - day, k - 1 - r);
    CountStep(k - 1 - r);
  }

  /** The n-th weekday of a month is exactly a day in 7(n-1)+1 .. 7n. */
  lemma NthWeekdayIff(d: Date, n: nat)
    requires ValidDate(d)
    ensures IsNthWeekday(d, n) <==> 7 * (n - 1) + 1 <= d.day <= 7 * n
  {
    CountWeekdayClosed(d.year, d.month, d.day, d.day);
    assert CountWeekday(d.year, d.month, d.day, DateWeekday(d)) == (d.day - 1) / 7 + 1;
  }

  /** The weekday of the date of day number `z` is that of `z`. */
  lemma CivilWeekday(z: int)
    ensures DateWeekday(CivilFromDays(z)) == Weekday(z)
  {
  }

  // ---------------------------------------------------------------------
  // Instants in fixed-offset zones.
  // ---------------------------------------------------------------------

  /** Japan Standard Time is UTC+9 all year. */
  const JapanOffset := 9 * SecondsPerHour

  /** America/New_York: Eastern Standard Time (UTC-5) or Eastern Daylight Time (UTC-4). */
  datatype Eastern = EST | EDT {
    function Hours(): int { if EST? then -5 else -4 }
    function Offset(): int { Hours() * SecondsPerHour }
  }

  /** The local day number of instant `t` in a zone `offset` seconds east of UTC. */
  function LocalDay(t: int, offset: int): int {
    (t + offset) / SecondsPerDay
  }

  /** The local wall-clock second of the day, 0 .. 86399. */
  function LocalSecondOfDay(t: int, offset: int): (s: int)
    ensures 0 <= s < SecondsPerDay
  {
    (t + offset) % SecondsPerDay
  }

  function LocalDate(t: int, offset: int): (d: Date)
    ensures ValidDate(d)
  {
    CivilFromDays(LocalDay(t, offset))
  }

  function LocalWeekday(t: int, offset: int): (w: int)
    ensures 0 <= w < 7
  {
    Weekday(LocalDay(t, offset))
  }

  /** The local wall-clock minute of the day, 0 .. 1439, seconds discarded. */
  function LocalMinuteOfDay(t: int, offset: int): (m: int)
    ensures 0 <= m < 24 * 60
  {
    LocalSecondOfDay(t, offset) / SecondsPerMinute
  }

  /** The local wall-clock hour, 0 .. 23. */
  function LocalHour(t: int, offset: int): (h: int)
    ensures 0 <= h < 24
  {
    LocalSecondOfDay(t, offset) / SecondsPerHour
  }

  /** The instant at second `s` of local day `day`, on the clock at `offset`. */
  lemma LocalClock(day: int, s: int, offset: int)
    requires 0 <= s < SecondsPerDay
    ensures LocalDay(day * SecondsPerDay + s - offset, offset) == day
    ensures LocalSecondOfDay(day * SecondsPerDay + s - offset, offset) == s
  {
    assert day * SecondsPerDay + s - offset + offset == day * SecondsPerDay + s;
  }

  /** A day later is the next local day. */
  lemma NextLocalDay(t: int, offset: int)
    ensures LocalDay(t + SecondsPerDay, offset) == LocalDay(t, offset) + 1
  {
    assert t + SecondsPerDay + offset == (t + offset) + 1 * SecondsPerDay;
  }

  /** Every instant is at its local second of its local day. */
  lemma LocalSplit(t: int, offset: int)
    ensures t == LocalDay(t, offset) * SecondsPerDay + LocalSecondOfDay(t, offset) - offset
  {
  }
}
