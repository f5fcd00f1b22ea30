/** The day of the week that T-WI computes for a date (src/doscmd.c, day_of_week in parse_timewrite),
    against the Gregorian calendar as section 3.2.1 of ISO 8601:2004 defines it. */
module Calendar {

  datatype Date = Date(year: int, month: int, day: int)

  predicate IsLeap(year: int) {
    year % 4 == 0 && (year % 100 != 0 || year % 400 == 0)
  }

  function MonthLength(year: int, month: int): (r: int)
    ensures 28 <= r <= 31
  {
    if month == 2 then (if IsLeap(year) then 29 else 28)
    else if month == 4 || month == 6 || month == 9 || month == 11 then 30
    else 31
  }

  predicate IsDate(d: Date) {
    1 <= d.month <= 12 && 1 <= d.day <= MonthLength(d.year, d.month)
  }

  /** The next day of the calendar. */
  function Next(d: Date): (r: Date)
    requires IsDate(d)
    ensures IsDate(r)
  {
    if d.day < MonthLength(d.year, d.month) then Date(d.year, d.month, d.day + 1)
    else if d.month < 12 then Date(d.year, d.month + 1, 1)
    else Date(d.year + 1, 1, 1)
  }

  /** Before the remainder is taken: the year is counted from March, and January and February belong to
      the one before. */
  function Sum(d: Date): int {
    var y := if d.month < 3 then d.year - 1 else d.year;
    d.day + (if d.month < 3 then d.year else d.year - 2) + 23 * d.month / 9 + 4 + Leaps(y)
  }

  function Leaps(y: int): int {
    y / 4 - y / 100 + y / 400
  }

  /** day_of_week, for a year counted from 1900 on; 0 is Sunday. */
  function DayOfWeek(year: int, month: int, day: int): int {
    Sum(Date(year + 1900, month, day)) % 7
  }

  lemma LeapsStep(y: int)
    requires y > 0
    ensures Leaps(y) == Leaps(y - 1) + if IsLeap(y) then 1 else 0
  {
    assert y / 4 == (y - 1) / 4 + if y % 4 == 0 then 1 else 0;
    assert y / 100 == (y - 1) / 100 + if y % 100 == 0 then 1 else 0;
    assert y / 400 == (y - 1) / 400 + if y % 400 == 0 then 1 else 0;
  }

  lemma OneMore(a: int, b: int, k: int)
    requires b == a + 1 + 7 * k
    ensures b % 7 == (a % 7 + 1) % 7
  {}

  /** From each day to the next the day of the week advances by one, across the ends of months and
      years and across 29 February. */
  lemma AdvancesByOne(d: Date)
    requires IsDate(d) && d.year > 0
    ensures Sum(Next(d)) % 7 == (Sum(d) % 7 + 1) % 7
  {
    hide Leaps, IsLeap;
    var e := Next(d);
    if d.day < MonthLength(d.year, d.month) {
      OneMore(Sum(d), Sum(e), 0);
    } else if d.month == 2 {
      LeapsStep(d.year);
      OneMore(Sum(d), Sum(e), -4);
    } else if d.month == 12 {
      OneMore(Sum(d), Sum(e), -8);
    } else {
      MonthStep(d);
      OneMore(Sum(d), Sum(e), -4);
    }
  }

  lemma MonthStep(d: Date)
    requires IsDate(d) && d.month < 12 && d.month != 2 && d.day == MonthLength(d.year, d.month)
    ensures Sum(Next(d)) == Sum(d) - 27
  {
    hide Leaps, IsLeap;
    var e := Next(d);
    assert 23 * e.month / 9 - 23 * d.month / 9 == MonthLength(d.year, d.month) - 28 by {
      Twelfths(d.month);
      Twelfths(e.month);
    }
  }

  lemma Twelfths(m: int)
    requires 1 <= m <= 12
    ensures 23 * m / 9 == if m == 1 then 2 else if m == 2 then 5 else if m == 3 then 7 else if m == 4 then 10
                          else if m == 5 then 12 else if m == 6 then 15 else if m == 7 then 17 else if m == 8 then 20
                          else if m == 9 then 23 else if m == 10 then 25 else if m == 11 then 28 else 30
  {}

  // ---- Counting days from 1 January 1900, a Monday ----------------------------------------

  function NthDay(n: nat): (r: Date)
    ensures IsDate(r) && r.year >= 1900
  {
    if n == 0 then Date(1900, 1, 1) else Next(NthDay(n - 1))
  }

  /** On the n-th day after 1 January 1900 the computed day is n days after Monday. */
  lemma {:induction false} CountsDays(n: nat)
    ensures Sum(NthDay(n)) % 7 == (1 + n) % 7
  {
    hide Sum, Next;
    if n == 0 {
      assert Sum(Date(1900, 1, 1)) % 7 == 1 by { FirstIsMonday(); }
    } else {
      CountsDays(n - 1);
      AdvancesByOne(NthDay(n - 1));
      OneMore(n, n + 1, 0);
    }
  }

  lemma FirstIsMonday()
    ensures Sum(Date(1900, 1, 1)) % 7 == 1
  {}

  /** Days from 1 January 1900 on. */
  function DaysBeforeYear(year: int): nat
    requires year >= 1900
    decreases year
  {
    if year == 1900 then 0 else DaysBeforeYear(year - 1) + if IsLeap(year - 1) then 366 else 365
  }

  function DaysBeforeMonth(year: int, month: int): nat
    requires 1 <= month <= 13
    decreases month
  {
    if month == 1 then 0 else DaysBeforeMonth(year, month - 1) + MonthLength(year, month - 1)
  }

  function DayNumber(d: Date): nat
    requires IsDate(d) && d.year >= 1900
  {
    DaysBeforeYear(d.year) + DaysBeforeMonth(d.year, d.month) + d.day - 1
  }

  /** Every day but the first has one before it. */
  lemma DayBefore(d: Date) returns (before: Date)
    requires IsDate(d) && d.year >= 1900 && d != Date(1900, 1, 1)
    ensures IsDate(before) && before.year >= 1900 && Next(before) == d && DayNumber(d) == DayNumber(before) + 1
  {
    hide IsLeap;
    if d.day > 1 {
      before := Date(d.year, d.month, d.day - 1);
    } else if d.month > 1 {
      before := Date(d.year, d.month - 1, MonthLength(d.year, d.month - 1));
    } else {
      before := Date(d.year - 1, 12, 31);
      YearLength(d.year - 1);
      assert DaysBeforeYear(d.year) == DaysBeforeYear(d.year - 1) + if IsLeap(d.year - 1) then 366 else 365;
    }
  }

  lemma {:induction false} IsNthDay(d: Date)
    requires IsDate(d) && d.year >= 1900
    ensures NthDay(DayNumber(d)) == d
    decreases DayNumber(d)
  {
    if d != Date(1900, 1, 1) {
      hide DayNumber;
      var before := DayBefore(d);
      IsNthDay(before);
    }
  }

  lemma YearLength(year: int)
    ensures DaysBeforeMonth(year, 12) == if IsLeap(year) then 335 else 334
  {
    hide IsLeap;
    assert DaysBeforeMonth(year, 3) == 31 + MonthLength(year, 2);
    assert DaysBeforeMonth(year, 5) == DaysBeforeMonth(year, 3) + 61;
    assert DaysBeforeMonth(year, 7) == DaysBeforeMonth(year, 5) + 61;
    assert DaysBeforeMonth(year, 9) == DaysBeforeMonth(year, 7) + 62;
    assert DaysBeforeMonth(year, 11) == DaysBeforeMonth(year, 9) + 61;
  }

  /** For every valid date from 1900 on, day_of_week is the day of the Gregorian calendar: as many days
      after Monday as the date is after 1 January 1900. */
  lemma IsWeekday(d: Date)
    requires IsDate(d) && d.year >= 1900
    ensures DayOfWeek(d.year - 1900, d.month, d.day) == (1 + DayNumber(d)) % 7
  {
    hide Sum, NthDay, DayNumber;
    IsNthDay(d);
    CountsDays(DayNumber(d));
  }
}
