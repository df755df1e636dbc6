/** Calendar days of the proleptic Gregorian calendar (the calendar of the
    RFC 3339 `full-date` form, section 5.7 of RFC 3339): month lengths, leap
    years, the successor day, and day ordinals that turn the calendar order
    into integer order. Reservation dates are stored in date-typed columns,
    so every stored date is a valid calendar day. */
module Dates {

  datatype Date = Date(year: int, month: int, day: int)

  /** Leap years: divisible by 4, except centuries not divisible by 400. */
  predicate IsLeapYear(y: int) {
    y % 4 == 0 && (y % 100 != 0 || y % 400 == 0)
  }

  function DaysInMonth(y: int, m: int): (n: int)
    requires 1 <= m <= 12
    ensures 28 <= n <= 31
    ensures m == 2 ==> n == (if IsLeapYear(y) then 29 else 28)
    ensures m in {4, 6, 9, 11} ==> n == 30
    ensures m in {1, 3, 5, 7, 8, 10, 12} ==> n == 31
  {
    if m == 2 then (if IsLeapYear(y) then 29 else 28)
    else if m == 4 || m == 6 || m == 9 || m == 11 then 30
    else 31
  }

  predicate ValidDate(d: Date) {
    1 <= d.month <= 12 && 1 <= d.day <= DaysInMonth(d.year, d.month)
  }

  /** Calendar order: strictly earlier. */
  predicate Before(a: Date, b: Date) {
    a.year < b.year ||
    (a.year == b.year && (a.month < b.month || (a.month == b.month && a.day < b.day)))
  }

  /** Calendar order: earlier or the same day. */
  predicate AtMost(a: Date, b: Date) {
    Before(a, b) || a == b
  }

  lemma AtMostTransitive(a: Date, b: Date, c: Date)
    requires AtMost(a, b) && AtMost(b, c)
    ensures AtMost(a, c)
  {
  }

  /** A point in time: a calendar day and the time elapsed since its midnight
      (in the clock's smallest unit; only its order matters). A date compared with
      a timestamp stands for the midnight that starts it. */
  datatype Instant = Instant(day: Date, sinceMidnight: nat)

  function Midnight(d: Date): Instant {
    Instant(d, 0)
  }

  /** Time order: strictly earlier. */
  predicate InstantBefore(a: Instant, b: Instant) {
    Before(a.day, b.day) || (a.day == b.day && a.sinceMidnight < b.sinceMidnight)
  }

  function YearLength(y: int): int {
    if IsLeapYear(y) then 366 else 365
  }

  /** Number of days in the months of year `y` before month `m`. */
  function DaysBeforeMonth(y: int, m: int): (n: int)
    requires 1 <= m <= 13
    ensures 28 * (m - 1) <= n <= 31 * (m - 1)
  {
    if m == 1 then 0 else DaysBeforeMonth(y, m - 1) + DaysInMonth(y, m - 1)
  }

  /** Number of days from 0000-01-01 to the first day of year `y` (negative for earlier years). */
  function DaysBeforeYear(y: int): int
    decreases if y < 0 then -y else y
  {
    if y == 0 then 0
    else if y > 0 then DaysBeforeYear(y - 1) + YearLength(y - 1)
    else DaysBeforeYear(y + 1) - YearLength(y)
  }

  /** Day number of a calendar day; 0000-01-01 has ordinal 0. */
  function Ordinal(d: Date): int
    requires ValidDate(d)
  {
    DaysBeforeYear(d.year) + DaysBeforeMonth(d.year, d.month) + d.day - 1
  }

  /** The next calendar day (what stepping a date by one day does). */
  function Succ(d: Date): (r: Date)
    requires ValidDate(d)
    ensures ValidDate(r) && Before(d, r)
  {
    if d.day < DaysInMonth(d.year, d.month) then Date(d.year, d.month, d.day + 1)
    else if d.month < 12 then Date(d.year, d.month + 1, 1)
    else Date(d.year + 1, 1, 1)
  }

  lemma DaysBeforeYearStep(y: int)
    ensures DaysBeforeYear(y + 1) == DaysBeforeYear(y) + YearLength(y)
  {
  }

  lemma {:induction false} DaysBeforeYearMonotone(y1: int, y2: int)
    requires y1 < y2
    ensures DaysBeforeYear(y1) + YearLength(y1) <= DaysBeforeYear(y2)
    decreases y2 - y1
  {
    DaysBeforeYearStep(y1);
    if y1 + 1 < y2 {
      DaysBeforeYearMonotone(y1 + 1, y2);
    }
  }

  lemma DaysBeforeMonthFullYear(y: int)
    ensures DaysBeforeMonth(y, 13) == YearLength(y)
  {
    var feb := DaysInMonth(y, 2);
    assert DaysBeforeMonth(y, 2) == 31;
    assert DaysBeforeMonth(y, 3) == 31 + feb;
    assert DaysBeforeMonth(y, 4) == 62 + feb;
    assert DaysBeforeMonth(y, 5) == 92 + feb;
    assert DaysBeforeMonth(y, 6) == 123 + feb;
    assert DaysBeforeMonth(y, 7) == 153 + feb;
    assert DaysBeforeMonth(y, 8) == 184 + feb;
    assert DaysBeforeMonth(y, 9) == 215 + feb;
    assert DaysBeforeMonth(y, 10) == 245 + feb;
    assert DaysBeforeMonth(y, 11) == 276 + feb;
    assert DaysBeforeMonth(y, 12) == 306 + feb;
    assert DaysBeforeMonth(y, 13) == 337 + feb;
  }

  lemma {:induction false} DaysBeforeMonthMonotone(y: int, m1: int, m2: int)
    requires 1 <= m1 < m2 <= 13
    ensures DaysBeforeMonth(y, m1) + DaysInMonth(y, m1) <= DaysBeforeMonth(y, m2)
    decreases m2 - m1
  {
    if m1 + 1 < m2 {
      DaysBeforeMonthMonotone(y, m1 + 1, m2);
    }
  }

  /** A valid day's ordinal lies within its year. */
  lemma OrdinalWithinYear(d: Date)
    requires ValidDate(d)
    ensures DaysBeforeYear(d.year) <= Ordinal(d) < DaysBeforeYear(d.year) + YearLength(d.year)
  {
    DaysBeforeMonthFullYear(d.year);
    if d.month < 12 {
      DaysBeforeMonthMonotone(d.year, d.month, 13);
    }
  }

  lemma OrdinalOfBefore(a: Date, b: Date)
    requires ValidDate(a) && ValidDate(b) && Before(a, b)
    ensures Ordinal(a) < Ordinal(b)
  {
    if a.year < b.year {
      OrdinalWithinYear(a);
      OrdinalWithinYear(b);
      DaysBeforeYearMonotone(a.year, b.year);
    } else if a.month < b.month {
      DaysBeforeMonthMonotone(a.year, a.month, b.month);
    }
  }

  /** The calendar order of valid days is the integer order of their ordinals. */
  lemma OrdinalOrder(a: Date, b: Date)
    requires ValidDate(a) && ValidDate(b)
    ensures Before(a, b) <==> Ordinal(a) < Ordinal(b)
    ensures AtMost(a, b) <==> Ordinal(a) <= Ordinal(b)
    ensures a == b <==> Ordinal(a) == Ordinal(b)
  {
    if Before(a, b) {
      OrdinalOfBefore(a, b);
    } else if Before(b, a) {
      OrdinalOfBefore(b, a);
    }
  }

  /** The successor is exactly one day later. */
  lemma SuccOrdinal(d: Date)
    requires ValidDate(d)
    ensures Ordinal(Succ(d)) == Ordinal(d) + 1
  {
    if d.day == DaysInMonth(d.year, d.month) {
      if d.month == 12 {
        DaysBeforeYearStep(d.year);
        DaysBeforeMonthFullYear(d.year);
      }
    }
  }

  /** No valid day lies strictly between a day and its successor. */
  lemma BeforeSucc(x: Date, d: Date)
    requires ValidDate(x) && ValidDate(d)
    ensures Before(x, Succ(d)) <==> AtMost(x, d)
  {
    SuccOrdinal(d);
    OrdinalOrder(x, Succ(d));
    OrdinalOrder(x, d);
  }

  /** The days from `a` to `b`, both included, in calendar order. */
  function DayRange(a: Date, b: Date): (r: seq<Date>)
    requires ValidDate(a) && ValidDate(b)
    ensures |r| == if Before(b, a) then 0 else Ordinal(b) - Ordinal(a) + 1
    ensures forall i :: 0 <= i < |r| ==> ValidDate(r[i]) && Ordinal(r[i]) == Ordinal(a) + i
    decreases Ordinal(b) - Ordinal(a) + 1
  {
    OrdinalOrder(a, b);
    if Before(b, a) then []
    else
      SuccOrdinal(a);
      OrdinalOrder(Succ(a), b);
      var rest := DayRange(Succ(a), b);
      assert forall i :: 1 <= i < |rest| + 1 ==> ([a] + rest)[i] == rest[i - 1];
      [a] + rest
  }

  /** DayRange(a, b) holds exactly the valid days from `a` to `b` inclusive. */
  lemma DayRangeMembers(a: Date, b: Date, x: Date)
    requires ValidDate(a) && ValidDate(b)
    ensures x in DayRange(a, b) <==> ValidDate(x) && AtMost(a, x) && AtMost(x, b)
  {
    var r := DayRange(a, b);
    OrdinalOrder(a, b);
    if x in r {
      var i :| 0 <= i < |r| && r[i] == x;
      OrdinalOrder(a, x);
      OrdinalOrder(x, b);
    }
    if ValidDate(x) && AtMost(a, x) && AtMost(x, b) {
      OrdinalOrder(a, x);
      OrdinalOrder(x, b);
      var i := Ordinal(x) - Ordinal(a);
      OrdinalOrder(r[i], x);
    }
  }

  /** DayRange(a, b) lists its days in strictly increasing calendar order, so no day
      occurs twice and its length counts distinct days. */
  lemma DayRangeIncreasing(a: Date, b: Date)
    requires ValidDate(a) && ValidDate(b)
    ensures forall i, j :: 0 <= i < j < |DayRange(a, b)| ==> Before(DayRange(a, b)[i], DayRange(a, b)[j])
  {
    var r := DayRange(a, b);
    forall i, j | 0 <= i < j < |r|
      ensures Before(r[i], r[j])
    {
      OrdinalOrder(r[i], r[j]);
    }
  }
}
