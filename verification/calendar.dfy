/**
  Proleptic Gregorian civil dates and the instants the leave rules compare.

  A leave record stores date-only values; the services turn them into
  midnight instants and compare those with the current instant. A date is
  mapped to its `DayNumber` (days since 0001-01-01), so the inclusive span of
  a leave is `DayNumber(end) - DayNumber(start) + 1`, and an instant is a
  millisecond count `DayNumber(day) * MsPerDay + msOfDay`. Time zones and
  daylight saving time are not modelled: every day has `MsPerDay` ms.
*/
module Calendar {

  const MsPerDay: int := 86_400_000

  datatype CivilDate = CivilDate(year: int, month: int, day: int) {
    /** Year is at least 1, month in 1..12, day within the month. */
    predicate IsValid() {
      && 1 <= year
      && 1 <= month <= 12
      && 1 <= day <= DaysInMonth(year, month)
    }
  }

  type Date = d: CivilDate | d.IsValid() witness CivilDate(1970, 1, 1)

  /** The current moment: a calendar day and the milliseconds elapsed since its midnight. */
  datatype Moment = Moment(date: Date, msOfDay: int)

  type Clock = m: Moment | 0 <= m.msOfDay < MsPerDay witness Moment(CivilDate(1970, 1, 1), 0)

  predicate IsLeapYear(y: int) {
    y % 4 == 0 && (y % 100 != 0 || y % 400 == 0)
  }

  function DaysInYear(y: int): int {
    if IsLeapYear(y) then 366 else 365
  }

  function DaysInMonth(y: int, m: int): int
    requires 1 <= m <= 12
  {
    if m == 2 then (if IsLeapYear(y) then 29 else 28)
    else if m == 4 || m == 6 || m == 9 || m == 11 then 30
    else 31
  }

  /** Days of year `y` that lie before the first of month `m`. */
  function DaysBeforeMonth(y: int, m: int): int
    requires 1 <= m <= 12
  {
    var common := [0, 31, 59, 90, 120, 151, 181, 212, 243, 273, 304, 334][m - 1];
    if m > 2 && IsLeapYear(y) then common + 1 else common
  }

  /** Days from 0001-01-01 up to the first of January of year `y`. */
  function DaysBeforeYear(y: int): int
    requires 1 <= y
  {
    var p := y - 1;
    365 * p + p / 4 - p / 100 + p / 400
  }

  /** Ordinal of a date: 0 for 0001-01-01, one more for each following day. */
  function DayNumber(d: Date): int {
    DaysBeforeYear(d.year) + DaysBeforeMonth(d.year, d.month) + d.day - 1
  }

  /** Calendar order: earlier year, else earlier month, else earlier day. */
  predicate Precedes(a: Date, b: Date) {
    || a.year < b.year
    || (a.year == b.year && a.month < b.month)
    || (a.year == b.year && a.month == b.month && a.day < b.day)
  }

  /** The instant of midnight at the start of `d`, in ms. */
  function MidnightMs(d: Date): int {
    DayNumber(d) * MsPerDay
  }

  /** The instant a clock reads, in ms on the same scale as `MidnightMs`. */
  function InstantMs(now: Clock): (t: int)
    ensures MidnightMs(now.date) <= t < MidnightMs(now.date) + MsPerDay
  {
    MidnightMs(now.date) + now.msOfDay
  }

  /**
    Midnights are whole days apart: an instant after the midnight starting `a`
    falls on `a` or later, and one before the midnight ending `b` falls on `b`
    or earlier.
  */
  lemma MidnightsBoundDay(now: Clock, a: Date, b: Date)
    ensures MidnightMs(a) < InstantMs(now) ==> DayNumber(a) <= DayNumber(now.date)
    ensures InstantMs(now) < MidnightMs(b) + MsPerDay ==> DayNumber(now.date) <= DayNumber(b)
  {
    var d := DayNumber(now.date);
    if DayNumber(a) > d {
      assert MidnightMs(now.date) + MsPerDay <= MidnightMs(a);
    }
    if DayNumber(b) < d {
      assert MidnightMs(b) + MsPerDay <= MidnightMs(now.date);
    }
  }

  /** Floor division by 4, 100 or 400 grows by one exactly at multiples. */
  lemma DivStep4(p: int)
    requires 0 <= p
    ensures (p + 1) / 4 == p / 4 + (if (p + 1) % 4 == 0 then 1 else 0)
  {
  }

  lemma DivStep100(p: int)
    requires 0 <= p
    ensures (p + 1) / 100 == p / 100 + (if (p + 1) % 100 == 0 then 1 else 0)
  {
  }

  lemma DivStep400(p: int)
    requires 0 <= p
    ensures (p + 1) / 400 == p / 400 + (if (p + 1) % 400 == 0 then 1 else 0)
  {
  }

  lemma DaysBeforeYearStep(y: int)
    requires 1 <= y
    ensures DaysBeforeYear(y + 1) == DaysBeforeYear(y) + DaysInYear(y)
  {
    var p := y - 1;
    DivStep4(p);
    DivStep100(p);
    DivStep400(p);
    LeapDivisors(y);
    assert DaysBeforeYear(y + 1) - DaysBeforeYear(y)
        == 365 + ((p + 1) / 4 - p / 4) - ((p + 1) / 100 - p / 100) + ((p + 1) / 400 - p / 400);
  }

  /** A multiple of 400 is a multiple of 100, and a multiple of 100 is a multiple of 4. */
  lemma LeapDivisors(y: int)
    requires 1 <= y
    ensures y % 400 == 0 ==> y % 100 == 0
    ensures y % 100 == 0 ==> y % 4 == 0
  {
    if y % 400 == 0 {
      MultipleMod(y, 100, 4 * (y / 400));
    }
    if y % 100 == 0 {
      MultipleMod(y, 4, 25 * (y / 100));
    }
  }

  /** `y` is divisible by `n` when it is `n` times something. */
  lemma MultipleMod(y: int, n: int, q: int)
    requires n == 4 || n == 100
    requires y == n * q
    ensures y % n == 0
  {
    var b, r := y / n, y % n;
    assert y == n * b + r && 0 <= r < n;
    assert n * (q - b) == r;
  }

  lemma {:induction false} DaysBeforeYearMonotone(y1: int, y2: int)
    requires 1 <= y1 < y2
    ensures DaysBeforeYear(y1) + DaysInYear(y1) <= DaysBeforeYear(y2)
    decreases y2 - y1
  {
    DaysBeforeYearStep(y1);
    if y1 + 1 < y2 {
      DaysBeforeYearMonotone(y1 + 1, y2);
    }
  }

  lemma DaysBeforeMonthMonotone(y: int, m1: int, m2: int)
    requires 1 <= m1 < m2 <= 12
    ensures DaysBeforeMonth(y, m1) + DaysInMonth(y, m1) <= DaysBeforeMonth(y, m2)
  {
  }

  lemma DayWithinYear(d: Date)
    ensures 0 <= DaysBeforeMonth(d.year, d.month) + d.day - 1 < DaysInYear(d.year)
  {
  }

  /** Day numbers order dates exactly as the calendar does. */
  lemma DayNumberOrder(a: Date, b: Date)
    ensures DayNumber(a) < DayNumber(b) <==> Precedes(a, b)
  {
    DayWithinYear(a);
    DayWithinYear(b);
    if a.year < b.year {
      DaysBeforeYearMonotone(a.year, b.year);
    } else if b.year < a.year {
      DaysBeforeYearMonotone(b.year, a.year);
    } else if a.month < b.month {
      DaysBeforeMonthMonotone(a.year, a.month, b.month);
    } else if b.month < a.month {
      DaysBeforeMonthMonotone(a.year, b.month, a.month);
    }
  }

  /** Distinct dates have distinct day numbers. */
  lemma DayNumberInjective(a: Date, b: Date)
    ensures DayNumber(a) == DayNumber(b) <==> a == b
  {
    DayNumberOrder(a, b);
    DayNumberOrder(b, a);
  }
}
