/** The Gregorian calendar as a count of microseconds, and what an offset means. */
module Calendar {
  import opened Texts
  import opened Instants

  /** The days before a year, since the year 1. */
  function DaysBeforeYear(year: nat): int {
    var y := year - 1;
    y * 365 + y / 4 - y / 100 + y / 400
  }

  function DaysBeforeMonth(year: nat, month: nat): nat {
    if month <= 1 then 0 else DaysBeforeMonth(year, month - 1) + DaysInMonth(year, month - 1)
  }

  function DayCount(t: Time): int {
    DaysBeforeYear(t.year) + DaysBeforeMonth(t.year, t.month) + t.day
  }

  function MicrosOfDay(t: Time): nat {
    ((t.hour * 60 + t.minute) * 60 + t.second) * 1_000_000 + t.micro
  }

  const MICROS_IN_A_DAY := 86_400_000_000

  /** The microseconds from the start of the calendar. */
  function Micros(t: Time): int {
    DayCount(t) * MICROS_IN_A_DAY + MicrosOfDay(t)
  }

  /** A year counts 365 days, and 366 in a leap year. */
  lemma YearLength(year: nat)
    requires year >= 1
    ensures DaysBeforeYear(year + 1) == DaysBeforeYear(year) + if IsLeap(year) then 366 else 365
  {
    CountsMultiples(year, 4);
    CountsMultiples(year, 100);
    CountsMultiples(year, 400);
  }

  lemma CountsMultiples(n: nat, d: nat)
    requires n >= 1 && (d == 4 || d == 100 || d == 400)
    ensures n / d == (n - 1) / d + if n % d == 0 then 1 else 0
  {
  }

  lemma MonthsInYear(year: nat)
    ensures DaysBeforeMonth(year, 13) == if IsLeap(year) then 366 else 365
  {
    assert DaysBeforeMonth(year, 2) == 31;
    assert DaysBeforeMonth(year, 4) == DaysBeforeMonth(year, 2) + DaysInMonth(year, 2) + 31;
    assert DaysBeforeMonth(year, 6) == DaysBeforeMonth(year, 4) + 61;
    assert DaysBeforeMonth(year, 8) == DaysBeforeMonth(year, 6) + 61;
    assert DaysBeforeMonth(year, 10) == DaysBeforeMonth(year, 8) + 61;
    assert DaysBeforeMonth(year, 12) == DaysBeforeMonth(year, 10) + 61;
  }

  lemma {:induction false} MonthsAscend(year: nat, m: nat, n: nat)
    requires 1 <= m < n <= 13
    ensures DaysBeforeMonth(year, m) + DaysInMonth(year, m) <= DaysBeforeMonth(year, n)
  {
    if n > m + 1 {
      MonthsAscend(year, m, n - 1);
    }
  }

  lemma {:induction false} YearsAscend(y: nat, z: nat)
    requires 1 <= y < z
    ensures DaysBeforeYear(y) + (if IsLeap(y) then 366 else 365) <= DaysBeforeYear(z)
  {
    if z == y + 1 {
      YearLength(y);
    } else {
      YearsAscend(y, z - 1);
      YearLength(z - 1);
    }
  }

  /** A day lies within its year. */
  lemma DayInYear(t: Time)
    ensures 1 <= DaysBeforeMonth(t.year, t.month) + t.day <= if IsLeap(t.year) then 366 else 365
  {
    MonthsAscend(t.year, t.month, 13);
    MonthsInYear(t.year);
  }

  predicate DayBefore(a: Time, b: Time) {
    a.year < b.year || (a.year == b.year && (a.month < b.month || (a.month == b.month && a.day < b.day)))
  }

  lemma DaysAscend(a: Time, b: Time)
    requires DayBefore(a, b)
    ensures DayCount(a) < DayCount(b)
  {
    if a.year < b.year {
      DayInYear(a);
      DayInYear(b);
      YearsAscend(a.year, b.year);
    } else if a.month < b.month {
      MonthsAscend(a.year, a.month, b.month);
    }
  }

  lemma MicrosAscend(a: Time, b: Time)
    requires Before(a, b)
    ensures Micros(a) < Micros(b)
  {
    assert 0 <= MicrosOfDay(a) < MICROS_IN_A_DAY && 0 <= MicrosOfDay(b) < MICROS_IN_A_DAY;
    if DayBefore(a, b) {
      DaysAscend(a, b);
    }
  }

  /** The order of datetimes, field by field, is the order of the microseconds that they count. */
  lemma BeforeIsEarlier(a: Time, b: Time)
    ensures Before(a, b) <==> Micros(a) < Micros(b)
    ensures a == b <==> Micros(a) == Micros(b)
  {
    BeforeIsRankOrder(a, b);
    BeforeIsRankOrder(b, a);
    if Before(a, b) {
      MicrosAscend(a, b);
    } else if Before(b, a) {
      MicrosAscend(b, a);
    }
  }

  /** Text order is the order of the instants. */
  lemma TextOrderIsMicrosOrder(a: Time, b: Time)
    ensures TextLess(Iso(a), Iso(b)) <==> Micros(a) < Micros(b)
  {
    TextOrderIsTimeOrder(a, b);
    BeforeIsEarlier(a, b);
  }

  /** How far local time is ahead of UTC. */
  function Ahead(o: Offset): int {
    var micros := ((o.hours * 60 + o.minutes) * 60 + o.seconds) * 1_000_000 + o.micros;
    if o.negative then -micros else micros
  }
}
