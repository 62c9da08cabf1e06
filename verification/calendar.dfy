/**
 The proleptic Gregorian calendar at day granularity: the `Date` value the
 file-list generator iterates over, its successor `Next`, the lexicographic
 order that Python's `datetime` comparison uses, and `Ordinal`, the day count
 since 0001-01-01 (that day being day 1), which serves as the reference
 definition the order and the successor are proved against.
 */
module Calendar {

  datatype Date = Date(year: nat, month: nat, day: nat)

  predicate IsLeapYear(y: nat) {
    (y % 4 == 0 && y % 100 != 0) || y % 400 == 0
  }

  function DaysInYear(y: nat): nat {
    if IsLeapYear(y) then 366 else 365
  }

  function DaysInMonth(y: nat, m: nat): (n: nat)
    requires 1 <= m <= 12
    ensures 28 <= n <= 31
    ensures m == 2 ==> (n == 29 <==> IsLeapYear(y))
  {
    if m == 2 then (if IsLeapYear(y) then 29 else 28)
    else if m == 4 || m == 6 || m == 9 || m == 11 then 30
    else 31
  }

  /** A date that exists: the year is 1 or later, as for Python's `datetime`. */
  predicate Valid(d: Date) {
    1 <= d.year && 1 <= d.month <= 12 && 1 <= d.day <= DaysInMonth(d.year, d.month)
  }

  /** The following calendar day. */
  function Next(d: Date): (r: Date)
    requires Valid(d)
    ensures Valid(r)
    ensures Before(d, r)
  {
    if d.day < DaysInMonth(d.year, d.month) then Date(d.year, d.month, d.day + 1)
    else if d.month < 12 then Date(d.year, d.month + 1, 1)
    else Date(d.year + 1, 1, 1)
  }

  /** Chronological order: year first, then month, then day. */
  predicate Before(a: Date, b: Date) {
    a.year < b.year
    || (a.year == b.year && a.month < b.month)
    || (a.year == b.year && a.month == b.month && a.day < b.day)
  }

  predicate NotAfter(a: Date, b: Date) {
    a == b || Before(a, b)
  }

  /** Number of days in the years 1 .. y-1, counting the leap years among them. */
  function DaysBeforeYear(y: nat): nat
    requires 1 <= y
  {
    var p := y - 1;
    365 * p + p / 4 - p / 100 + p / 400
  }

  /** Adding one to p adds one to p / k exactly when p + 1 is a multiple of k. */
  lemma LeapCountStep(p: nat)
    ensures (p + 1) / 4 == p / 4 + (if (p + 1) % 4 == 0 then 1 else 0)
    ensures (p + 1) / 100 == p / 100 + (if (p + 1) % 100 == 0 then 1 else 0)
    ensures (p + 1) / 400 == p / 400 + (if (p + 1) % 400 == 0 then 1 else 0)
  {
  }

  /** The leap-year count steps by one exactly after a leap year. */
  lemma DaysBeforeNextYear(y: nat)
    requires 1 <= y
    ensures DaysBeforeYear(y + 1) == DaysBeforeYear(y) + DaysInYear(y)
  {
    var p := y - 1;
    LeapCountStep(p);
    assert 365 * y == 365 * p + 365;
    assert DaysBeforeYear(y + 1) == 365 * y + y / 4 - y / 100 + y / 400;
    assert DaysBeforeYear(y) == 365 * p + p / 4 - p / 100 + p / 400;
  }

  /** Number of days in the months 1 .. m-1 of year y. */
  function DaysBeforeMonth(y: nat, m: nat): nat
    requires 1 <= m <= 12
  {
    if m == 1 then 0 else DaysBeforeMonth(y, m - 1) + DaysInMonth(y, m - 1)
  }

  /** Day number counted from 0001-01-01, which is day 1. */
  function Ordinal(d: Date): (n: nat)
    requires Valid(d)
    ensures 1 <= n
  {
    DaysBeforeYear(d.year) + DaysBeforeMonth(d.year, d.month) + d.day
  }

  /** Days before each month in a common year, January first. */
  const CommonDaysBefore: seq<nat> := [0, 31, 59, 90, 120, 151, 181, 212, 243, 273, 304, 334]

  /** The days before month m: the common-year count, plus 29 February from March on in a leap year. */
  lemma {:induction false} DaysBeforeMonthTable(y: nat, m: nat)
    requires 1 <= m <= 12
    ensures DaysBeforeMonth(y, m) == CommonDaysBefore[m - 1] + (if m > 2 && IsLeapYear(y) then 1 else 0)
  {
    if m > 1 {
      DaysBeforeMonthTable(y, m - 1);
    }
  }

  /** The twelve months together make up the year. */
  lemma MonthsFillYear(y: nat)
    ensures DaysBeforeMonth(y, 12) + DaysInMonth(y, 12) == DaysInYear(y)
  {
    DaysBeforeMonthTable(y, 12);
  }

  /** A month ends no later than any later month begins. */
  lemma {:induction false} MonthEndsBeforeLaterMonth(y: nat, m1: nat, m2: nat)
    requires 1 <= m1 < m2 <= 12
    ensures DaysBeforeMonth(y, m1) + DaysInMonth(y, m1) <= DaysBeforeMonth(y, m2)
    decreases m2
  {
    if m1 < m2 - 1 {
      MonthEndsBeforeLaterMonth(y, m1, m2 - 1);
    }
  }

  /** Every month ends no later than the year does. */
  lemma MonthEndsWithinYear(y: nat, m: nat)
    requires 1 <= m <= 12
    ensures DaysBeforeMonth(y, m) + DaysInMonth(y, m) <= DaysInYear(y)
  {
    MonthsFillYear(y);
    if m < 12 {
      MonthEndsBeforeLaterMonth(y, m, 12);
    }
  }

  /** A year ends no later than any later year begins. */
  lemma {:induction false} YearEndsBeforeLaterYear(y1: nat, y2: nat)
    requires 1 <= y1 < y2
    ensures DaysBeforeYear(y1) + DaysInYear(y1) <= DaysBeforeYear(y2)
    decreases y2
  {
    DaysBeforeNextYear(y2 - 1);
    if y1 < y2 - 1 {
      YearEndsBeforeLaterYear(y1, y2 - 1);
    }
  }

  /** The ordinal is strictly monotone in chronological order. */
  lemma BeforeOrdinal(a: Date, b: Date)
    requires Valid(a) && Valid(b) && Before(a, b)
    ensures Ordinal(a) < Ordinal(b)
  {
    if a.year < b.year {
      MonthEndsWithinYear(a.year, a.month);
      YearEndsBeforeLaterYear(a.year, b.year);
    } else if a.month < b.month {
      MonthEndsBeforeLaterMonth(a.year, a.month, b.month);
    }
  }

  /** Chronological order and ordinal order agree, in both directions. */
  lemma OrdinalOrder(a: Date, b: Date)
    requires Valid(a) && Valid(b)
    ensures Before(a, b) <==> Ordinal(a) < Ordinal(b)
    ensures NotAfter(a, b) <==> Ordinal(a) <= Ordinal(b)
    ensures a == b <==> Ordinal(a) == Ordinal(b)
  {
    if Before(a, b) {
      BeforeOrdinal(a, b);
    } else if Before(b, a) {
      BeforeOrdinal(b, a);
    }
  }

  /** Distinct valid dates have distinct ordinals. */
  lemma OrdinalInjective(a: Date, b: Date)
    requires Valid(a) && Valid(b) && Ordinal(a) == Ordinal(b)
    ensures a == b
  {
    OrdinalOrder(a, b);
  }

  /** The successor is exactly one day later: no day is skipped or repeated. */
  lemma NextOrdinal(d: Date)
    requires Valid(d)
    ensures Ordinal(Next(d)) == Ordinal(d) + 1
  {
    if d.day == DaysInMonth(d.year, d.month) && d.month == 12 {
      MonthsFillYear(d.year);
      DaysBeforeNextYear(d.year);
    }
  }

  /** `Next(d)` is the earliest date after `d`. */
  lemma NextIsImmediateSuccessor(d: Date, x: Date)
    requires Valid(d) && Valid(x)
    ensures Before(d, Next(d))
    ensures Before(d, x) <==> NotAfter(Next(d), x)
  {
    NextOrdinal(d);
    OrdinalOrder(d, Next(d));
    OrdinalOrder(d, x);
    OrdinalOrder(Next(d), x);
  }
}
