/** Seconds since 1970 as a civil date in UTC, and back. */
module Calendar {
  import opened Stream

  const YEAR_LIMIT := 0x1_0000   // years are 16-bit words
  const PER_MINUTE := 60
  const PER_HOUR := 3600
  const PER_DAY := 86400
  const PER_NON_LEAP_YEAR := 31536000

  // ----- the calendar

  predicate IsLeapYear(year: nat) {
    year % 4 == 0 && (year % 100 != 0 || (year % 100 == 0 && year % 400 == 0))
  }

  function DaysInYear(year: nat): nat { if IsLeapYear(year) then 366 else 365 }

  /** How many years of [1970, year) are leap years. */
  function LeapYears(year: nat): nat {
    if year <= 1970 then 0 else LeapYears(year - 1) + if IsLeapYear(year - 1) then 1 else 0
  }

  /** The days from the start of 1970 to the start of the year. */
  function DaysBefore(year: nat): nat
    requires year >= 1970
  {
    365 * (year - 1970) + LeapYears(year)
  }

  lemma NothingBefore1970()
    ensures DaysBefore(1970) == 0
  {
  }

  lemma YearStep(year: nat)
    requires year >= 1970
    ensures DaysBefore(year + 1) == DaysBefore(year) + DaysInYear(year)
  {
  }

  function DaysInMonth(month: nat, leap: bool): nat
    requires 1 <= month <= 12
  {
    if month == 2 then (if leap then 29 else 28) else if month in {4, 6, 9, 11} then 30 else 31
  }

  function DaysBeforeMonth(month: nat, leap: bool): nat
    requires 1 <= month <= 13
  {
    if month == 1 then 0 else DaysBeforeMonth(month - 1, leap) + DaysInMonth(month - 1, leap)
  }

  datatype DateTime = DateTime(year: nat, month: nat, day: nat, hour: nat, minute: nat, second: nat)

  predicate ValidDate(d: DateTime) {
    && d.year >= 1970 && 1 <= d.month <= 12 && 1 <= d.day <= DaysInMonth(d.month, IsLeapYear(d.year))
    && d.hour < 24 && d.minute < 60 && d.second < 60
  }

  function Seconds(d: DateTime): int
    requires ValidDate(d)
  {
    (DaysBefore(d.year) + DaysBeforeMonth(d.month, IsLeapYear(d.year)) + d.day - 1) * PER_DAY
    + d.hour * PER_HOUR + d.minute * PER_MINUTE + d.second
  }

  // ----- the tables

  const RUNNING_SECONDS_NON_LEAP: seq<nat> :=
    [0, 2678400, 5097600, 7776000, 10368000, 13046400, 15638400, 18316800, 20995200, 23587200, 26265600, 28857600,
     31536000]

  const RUNNING_SECONDS_LEAP: seq<nat> :=
    [0, 2678400, 5184000, 7862400, 10454400, 13132800, 15724800, 18403200, 21081600, 23673600, 26352000, 28944000,
     31622400]

  function RunningSeconds(leap: bool): seq<nat> {
    if leap then RUNNING_SECONDS_LEAP else RUNNING_SECONDS_NON_LEAP
  }

  lemma {:induction false} TableIsCalendar(month: nat, leap: bool)
    requires 1 <= month <= 13
    ensures RunningSeconds(leap)[month - 1] == DaysBeforeMonth(month, leap) * PER_DAY
  {
    if month > 1 {
      TableIsCalendar(month - 1, leap);
    }
  }

  function SecondsUpUntilMonth(month: nat, year: nat): nat
    requires 1 <= month <= 13
  {
    RunningSeconds(IsLeapYear(year))[month - 1]
  }

  /** The loop steps over every fourth year only, from 1972 on. */
  method GetNumLeapYears(year: nat) returns (n: nat)
    requires year <= YEAR_LIMIT - 4
    ensures n == LeapYears(year)
  {
    n := 0;
    var cursor := 1972;
    while cursor < year
      invariant 1972 <= cursor < YEAR_LIMIT && cursor % 4 == 0 && (cursor < year + 4 || cursor == 1972)
      invariant n == LeapYears(cursor)
    {
      FourYears(cursor);
      if IsLeapYear(cursor) {
        n := n + 1;
      }
      cursor := cursor + 4;
    }
    NoLeapYearBefore(year, cursor, cursor);
  }

  lemma FourYears(year: nat)
    requires year >= 1970 && year % 4 == 0
    ensures LeapYears(year + 4) == LeapYears(year) + if IsLeapYear(year) then 1 else 0
  {
    assert LeapYears(year + 1) == LeapYears(year) + if IsLeapYear(year) then 1 else 0;
    NoLeapYearBefore(year + 1, year + 4, year + 4);
  }

  /** From year on, the next candidate for a leap year is next. */
  lemma {:induction false} NoLeapYearBefore(year: nat, y: nat, next: nat)
    requires year <= y <= next && next % 4 == 0 && (next < year + 4 || next == 1972)
    ensures LeapYears(y) == LeapYears(year)
    decreases y
  {
    if year < y && y > 1970 {
      assert (y - 1) % 4 != 0;
      NoLeapYearBefore(year, y - 1, next);
    }
  }

  /** The Gregorian rule in closed form. */
  lemma {:induction false} LeapYearsClosedForm(year: nat)
    requires year >= 1970
    ensures LeapYears(year) == (year - 1) / 4 - (year - 1) / 100 + (year - 1) / 400 - 477
  {
    if year > 1970 {
      LeapYearsClosedForm(year - 1);
      MultiplesStep(year - 1);
    }
  }

  lemma MultiplesStep(n: nat)
    requires n >= 1970
    ensures n / 4 - n / 100 + n / 400
         == (n - 1) / 4 - (n - 1) / 100 + (n - 1) / 400 + if IsLeapYear(n) then 1 else 0
  {
    var by4, by100, by400 := n % 4 == 0, n % 100 == 0, n % 400 == 0;
    assert n / 4 == (n - 1) / 4 + if by4 then 1 else 0;
    assert n / 100 == (n - 1) / 100 + if by100 then 1 else 0;
    assert n / 400 == (n - 1) / 400 + if by400 then 1 else 0;
    assert by400 ==> by100;
    assert by100 ==> by4;
  }

  /** The days before each month, counted in years that begin in March. */
  lemma MonthsClosedForm(month: nat, leap: bool)
    requires 1 <= month <= 12
    ensures DaysBeforeMonth(month, leap)
         == (153 * ((month + 9) % 12) + 2) / 5 + if month <= 2 then -306 else if leap then 60 else 59
  {
    TableIsCalendar(month, leap);
  }

  /** The seconds of a date by a closed formula of the Gregorian calendar, which counts years from
      March on, so that a leap day is the last day of its year. */
  lemma SecondsClosedForm(d: DateTime)
    requires ValidDate(d)
    ensures var y := if d.month <= 2 then d.year - 1 else d.year;
            var days := 365 * y + y / 4 - y / 100 + y / 400 + (153 * ((d.month + 9) % 12) + 2) / 5 + d.day - 1 - 719468;
            Seconds(d) == days * 86400 + d.hour * 3600 + d.minute * 60 + d.second
  {
    LeapYearsClosedForm(d.year);
    MultiplesStep(d.year);
    MonthsClosedForm(d.month, IsLeapYear(d.year));
    hide LeapYears, DaysBeforeMonth, IsLeapYear;
  }

  // ----- from seconds to a date

  /** The year the seconds fall in, and the seconds since its start, computed in 64-bit words:
      on the first day of a leap year the subtraction wraps around, and the addition of the
      leap day wraps back. */
  method FindYear(epoch: nat) returns (year: nat, sinceYearStart: nat)
    requires epoch < DaysBefore(YEAR_LIMIT) * PER_DAY
    ensures 1970 <= year < YEAR_LIMIT && sinceYearStart < DaysInYear(year) * PER_DAY
    ensures epoch == DaysBefore(year) * PER_DAY + sinceYearStart
  {
    hide LeapYears;
    year, sinceYearStart := 1970, epoch;
    LongestEpoch();
    NothingBefore1970();
    if epoch >= PER_NON_LEAP_YEAR {
      var count := 0;
      ghost var y := 1970;   // the year without wrap-around
      while true
        invariant 1970 <= y < YEAR_LIMIT && year == y && count == DaysBefore(y) * PER_DAY <= epoch
        decreases YEAR_LIMIT - y
      {
        YearStep(y);
        count := count + PER_NON_LEAP_YEAR;
        if IsLeapYear(year) {
          count := count + PER_DAY;
        }
        year := (year + 1) % YEAR_LIMIT;
        y := y + 1;
        if !(epoch >= count) {
          break;
        }
      }
      year := (year + YEAR_LIMIT - 1) % YEAR_LIMIT;
      WrapsBack(epoch, DaysBefore(year) * PER_DAY, IsLeapYear(year));
      sinceYearStart := (epoch - (count - PER_NON_LEAP_YEAR)) % WORD;
      if IsLeapYear(year) {
        sinceYearStart := (sinceYearStart + PER_DAY) % WORD;
      }
    }
  }

  /** Subtracting a year that is a day too short and adding the day again, in 64-bit words, is
      exact, also when the difference is negative in between. */
  lemma WrapsBack(epoch: nat, start: nat, leap: bool)
    requires start <= epoch < WORD
    ensures if leap then ((epoch - (start + PER_DAY)) % WORD + PER_DAY) % WORD == epoch - start
            else (epoch - start) % WORD == epoch - start
  {
    if leap && epoch < start + PER_DAY {
      assert (epoch - (start + PER_DAY)) % WORD == epoch - (start + PER_DAY) + WORD;
    }
  }

  lemma LongestEpoch()
    ensures DaysBefore(YEAR_LIMIT) * PER_DAY < WORD
  {
    LeapYearsClosedForm(YEAR_LIMIT);
  }

  method FindMonth(sinceYearStart: nat, year: nat) returns (month: nat)
    requires sinceYearStart < DaysInYear(year) * PER_DAY
    ensures 1 <= month <= 12
    ensures RunningSeconds(IsLeapYear(year))[month - 1] <= sinceYearStart < RunningSeconds(IsLeapYear(year))[month]
  {
    var running := RunningSeconds(IsLeapYear(year));
    var i := 0;
    while i < 13 && running[i] <= sinceYearStart
      invariant 0 <= i <= 12 && (i > 0 ==> running[i - 1] <= sinceYearStart)
    {
      i := i + 1;
    }
    month := i;
  }

  /** The civil date of a moment: the only valid date with that many seconds. */
  method FromEpoch(epoch: nat) returns (d: DateTime)
    requires epoch < DaysBefore(YEAR_LIMIT) * PER_DAY
    ensures ValidDate(d) && Seconds(d) == epoch && d.year < YEAR_LIMIT
  {
    hide LeapYears;
    var year, sinceYearStart := FindYear(epoch);
    var month := FindMonth(sinceYearStart, year);
    TableIsCalendar(month, IsLeapYear(year));
    TableIsCalendar(month + 1, IsLeapYear(year));
    hide RunningSeconds, DaysBeforeMonth;
    var sinceMonthStart := sinceYearStart - SecondsUpUntilMonth(month, year);
    var day := sinceMonthStart / PER_DAY;
    var sinceDayStart := sinceMonthStart - day * PER_DAY;
    var hour := sinceDayStart / PER_HOUR;
    var minute := (sinceDayStart - hour * PER_HOUR) / PER_MINUTE;
    var second := sinceDayStart - hour * PER_HOUR - minute * PER_MINUTE;
    d := DateTime(year, month, day + 1, hour, minute, second);
  }

  lemma {:induction false} DaysBeforeGrows(m: nat, n: nat)
    requires 1970 <= m <= n
    ensures DaysBefore(m) <= DaysBefore(n)
    ensures m < n ==> DaysBefore(m) + DaysInYear(m) <= DaysBefore(n)
    decreases n - m
  {
    if m < n {
      YearStep(m);
      DaysBeforeGrows(m + 1, n);
    }
  }

  lemma {:induction false} MonthsGrow(m: nat, n: nat, leap: bool)
    requires 1 <= m <= n <= 13
    ensures DaysBeforeMonth(m, leap) <= DaysBeforeMonth(n, leap)
    ensures m < n ==> DaysBeforeMonth(m, leap) + DaysInMonth(m, leap) <= DaysBeforeMonth(n, leap)
    decreases n - m
  {
    if m < n {
      MonthsGrow(m + 1, n, leap);
    }
  }

  /** Dates are ordered like their seconds, so a date is determined by them. */
  lemma DateIsUnique(c: DateTime, d: DateTime)
    requires ValidDate(c) && ValidDate(d) && Seconds(c) == Seconds(d)
    ensures c == d
  {
    SecondsInYear(c);
    SecondsInYear(d);
    hide LeapYears, DaysBeforeMonth;
    if c.year < d.year {
      DaysBeforeGrows(c.year, d.year);
    } else if d.year < c.year {
      DaysBeforeGrows(d.year, c.year);
    } else if c.month < d.month {
      MonthsGrow(c.month, d.month, IsLeapYear(c.year));
    } else if d.month < c.month {
      MonthsGrow(d.month, c.month, IsLeapYear(c.year));
    }
  }

  lemma SecondsInYear(d: DateTime)
    requires ValidDate(d)
    ensures DaysBefore(d.year) * PER_DAY <= Seconds(d) < (DaysBefore(d.year) + DaysInYear(d.year)) * PER_DAY
  {
    MonthsGrow(d.month, 13, IsLeapYear(d.year));
    TableIsCalendar(13, IsLeapYear(d.year));
  }
}
