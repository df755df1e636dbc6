/** The monthly calendar of busy days.

    For a year and month the service builds the month's first day and the
    next month's first day as text bounds, asks storage for every reservation
    with `check_in_date < end` and `check_out_date >= start`, and then walks
    each selected reservation day by day from its check-in to its check-out,
    both included, adding one to a per-day counter. Days no reservation
    covers are absent from the result. */
module ReservationsService {
  import opened Dates
  import opened DateText
  import opened Tables
  import opened Wrappers
  import Validation

  // ---------------------------------------------------------------------------
  // Month bounds

  /** The text `${year}-${month padded to 2}-01` of the first day of a month. */
  lemma FirstOfMonthText(year: int, month: int)
    requires 1000 <= year <= 9999 && 1 <= month <= 12
    ensures IntText(year) + "-" + PadStart(IntText(month), 2) + "-01" == FullDate(Date(year, month, 1))
  {
    FourDigitYearText(year);
    PadStartTwoDigits(month);
    FirstDayText();
    assert "-01" == "-" + FixedDigits(1, 2);
  }

  lemma FourDigitYearText(year: int)
    requires 1000 <= year <= 9999
    ensures IntText(year) == FixedDigits(year, 4)
  {
    assert Pow10(3) == 1000 && Pow10(4) == 10000;
    DecimalIsFixed(year, 4);
  }

  lemma FirstDayText()
    ensures FixedDigits(1, 2) == "01"
  {
    assert FixedDigits(0, 1) == FixedDigits(0, 0) + ['0'];
  }

  /** The start bound as the service writes it: `${year}-${month padded to 2}-01`.
      For four-digit years it is the RFC 3339 text of the day the selection starts at. */
  function StartDateText(year: int, month: int): (r: string)
    ensures 1000 <= year <= 9999 && 1 <= month <= 12 ==> r == FullDate(MonthStart(year, month))
  {
    var t := IntText(year) + "-" + PadStart(IntText(month), 2) + "-01";
    if !(1000 <= year <= 9999 && 1 <= month <= 12) then t
    else
      FirstOfMonthText(year, month);
      t
  }

  /** The end bound as the service writes it: `${year}-${month + 1 padded to 2}-01`,
      with no year rollover. For January to November it is the text of the day the
      selection ends before; for December it names a month 13. */
  function EndDateText(year: int, month: int): (r: string)
    ensures 1000 <= year <= 9999 && 1 <= month <= 11 ==> r == FullDate(MonthEnd(year, month))
    ensures month == 12 ==> r == IntText(year) + "-13-01"
  {
    var t := IntText(year) + "-" + PadStart(IntText(month + 1), 2) + "-01";
    if month == 12 then
      ThirteenText();
      MonthThirteenText(IntText(year), PadStart(IntText(month + 1), 2));
      t
    else if !(1000 <= year <= 9999 && 1 <= month <= 11) then t
    else
      NextMonthText(year, month);
      t
  }

  lemma NextMonthText(year: int, month: int)
    requires 1000 <= year <= 9999 && 1 <= month <= 11
    ensures IntText(year) + "-" + PadStart(IntText(month + 1), 2) + "-01" == FullDate(MonthEnd(year, month))
  {
    FirstOfMonthText(year, month + 1);
    assert MonthEnd(year, month) == Date(year, month + 1, 1);
  }

  /** The padded text `p` is a parameter rather than `PadStart(IntText(13), 2)`:
      with the literal in place the solver keeps evaluating it and runs out of resource. */
  lemma MonthThirteenText(y: string, p: string)
    requires p == "13"
    ensures y + "-" + p + "-01" == y + "-13-01"
  {
    assert "-" + p + "-01" == "-13-01";
    assert y + "-" + p + "-01" == y + ("-" + p + "-01");
  }

  /** As written, December's end bound names month 13 of the same year: it is not
      the text of any calendar day. */
  lemma DecemberEndIsNotADate(year: int)
    requires 1000 <= year <= 9999
    ensures ParseFullDate(EndDateText(year, 12)) == None
  {
    FourDigitYearText(year);
    ThirteenText();
    var s := EndDateText(year, 12);
    assert s == FixedDigits(year, 4) + "-13-01";
    assert s[5..7] == "13";
  }

  lemma ThirteenText()
    ensures PadStart(IntText(13), 2) == "13"
    ensures AllDigits("13") && DigitsValue("13") == 13
  {
    assert Decimal(1) == [DigitChar(1)] == "1";
    assert IntText(13) == Decimal(1) + [DigitChar(3)];
    assert "13"[..1] == "1";
    assert "1"[..0] == "";
  }

  /** The first day of the month. */
  function MonthStart(year: int, month: int): (r: Date)
    requires 1 <= month <= 12
    ensures ValidDate(r) && r.year == year && r.month == month && r.day == 1
  {
    Date(year, month, 1)
  }

  /** Corrected end bound: the first day of the following month, rolling December
      over to January of the next year. */
  function MonthEnd(year: int, month: int): (r: Date)
    requires 1 <= month <= 12
    ensures ValidDate(r) && r == Succ(Date(year, month, DaysInMonth(year, month)))
  {
    if month < 12 then Date(year, month + 1, 1) else Date(year + 1, 1, 1)
  }

  /** Compared in calendar order, December's as-written bound `year-13-01` and the
      corrected bound select the same days, so both select the same reservations. */
  lemma DecemberBoundSelectsSameDays(year: int, d: Date)
    requires ValidDate(d)
    ensures Before(d, Date(year, 13, 1)) <==> Before(d, MonthEnd(year, 12))
  {
  }

  // ---------------------------------------------------------------------------
  // Selection

  /** The month query's condition: check-in before the end bound, check-out on or
      after the start bound. Neither room nor status is consulted. */
  function InMonth(r: Reservation, start: Date, end: Date): (b: bool)
    ensures WellDated(r) && ValidDate(start) && ValidDate(end) ==>
              (b <==> Ordinal(r.checkIn) < Ordinal(end) && Ordinal(start) <= Ordinal(r.checkOut))
  {
    if WellDated(r) && ValidDate(start) && ValidDate(end) then
      OrdinalOrder(r.checkIn, end);
      OrdinalOrder(start, r.checkOut);
      Before(r.checkIn, end) && AtMost(start, r.checkOut)
    else
      Before(r.checkIn, end) && AtMost(start, r.checkOut)
  }

  /** The rows the month query returns, in table order. */
  function SelectForMonth(rows: seq<Reservation>, start: Date, end: Date): (sel: seq<Reservation>)
    ensures forall x :: multiset(sel)[x] == if InMonth(x, start, end) then multiset(rows)[x] else 0
    ensures forall x :: x in sel ==> x in rows
  {
    if rows == [] then []
    else
      assert rows == [rows[0]] + rows[1..];
      (if InMonth(rows[0], start, end) then [rows[0]] else []) + SelectForMonth(rows[1..], start, end)
  }

  function MonthRows(rows: seq<Reservation>, year: int, month: int): seq<Reservation>
    requires 1 <= month <= 12
  {
    SelectForMonth(rows, MonthStart(year, month), MonthEnd(year, month))
  }

  /** The month query selects a stay that checks out no earlier than it checks in
      exactly when the stay has a day in the month. */
  lemma SelectedIffCoversMonthDay(r: Reservation, year: int, month: int)
    requires 1 <= month <= 12 && WellDated(r) && AtMost(r.checkIn, r.checkOut)
    ensures InMonth(r, MonthStart(year, month), MonthEnd(year, month)) <==>
            exists d :: ValidDate(d) && d.year == year && d.month == month
                        && AtMost(r.checkIn, d) && AtMost(d, r.checkOut)
  {
    var start, end := MonthStart(year, month), MonthEnd(year, month);
    var last := Date(year, month, DaysInMonth(year, month));
    BeforeSucc(r.checkIn, last);
    if InMonth(r, start, end) {
      var d := if Before(r.checkIn, start) then start else r.checkIn;
      assert ValidDate(d) && d.year == year && d.month == month
             && AtMost(r.checkIn, d) && AtMost(d, r.checkOut);
    }
  }

  // ---------------------------------------------------------------------------
  // Busy-day counts

  /** A row's walk visits day `d`: check-in and check-out both count. */
  predicate Covers(r: Reservation, d: Date) {
    AtMost(r.checkIn, d) && AtMost(d, r.checkOut)
  }

  /** Number of rows whose walk visits day `d`. */
  function Coverage(rows: seq<Reservation>, d: Date): (n: nat)
    ensures n <= |rows|
  {
    if rows == [] then 0
    else Coverage(rows[..|rows| - 1], d) + (if Covers(rows[|rows| - 1], d) then 1 else 0)
  }

  /** The counter of a day: `busyDays[dateKey] || 0`. */
  function Count(busy: map<Date, int>, d: Date): int {
    if d in busy then busy[d] else 0
  }

  /** The `forEach` callback for one selected row: walk from check-in to check-out,
      both included, one day at a time, adding one to each visited day's counter. */
  method AddStay(busy0: map<Date, int>, r: Reservation) returns (busy: map<Date, int>)
    requires WellDated(r)
    requires forall d :: d in busy0 ==> ValidDate(d) && busy0[d] >= 1
    ensures forall d :: d in busy ==> ValidDate(d) && busy[d] >= 1
    ensures forall d :: ValidDate(d) ==>
              Count(busy, d) == Count(busy0, d) + (if Covers(r, d) then 1 else 0)
  {
    busy := busy0;
    var cur := r.checkIn;
    while AtMost(cur, r.checkOut)
      invariant ValidDate(cur) && AtMost(r.checkIn, cur)
      invariant cur == r.checkIn || Ordinal(cur) <= Ordinal(r.checkOut) + 1
      invariant forall d :: d in busy ==> ValidDate(d) && busy[d] >= 1
      invariant forall d :: ValidDate(d) ==>
                  Count(busy, d) == Count(busy0, d) + (if AtMost(r.checkIn, d) && Before(d, cur) then 1 else 0)
      decreases Ordinal(r.checkOut) - Ordinal(cur)
    {
      OrdinalOrder(cur, r.checkOut);
      busy := busy[cur := Count(busy, cur) + 1];
      SuccOrdinal(cur);
      forall d | ValidDate(d)
        ensures Before(d, Succ(cur)) <==> AtMost(d, cur)
      {
        BeforeSucc(d, cur);
      }
      cur := Succ(cur);
    }
    forall d | ValidDate(d)
      ensures (AtMost(r.checkIn, d) && Before(d, cur)) <==> Covers(r, d)
    {
      OrdinalOrder(cur, r.checkOut);
      OrdinalOrder(d, cur);
      OrdinalOrder(d, r.checkOut);
      OrdinalOrder(r.checkIn, d);
      OrdinalOrder(r.checkIn, r.checkOut);
    }
  }

  /** The service: query the month's rows, then run the callback on each in turn. */
  method ReservationsByMonth(table: seq<Reservation>, year: int, month: int)
      returns (busy: map<Date, int>)
    requires 1 <= month <= 12
    requires AllWellDated(table)
    ensures forall d :: d in busy ==> ValidDate(d) && busy[d] >= 1
    ensures forall d :: d in busy ==> busy[d] == Coverage(MonthRows(table, year, month), d)
    ensures forall d :: ValidDate(d) && Coverage(MonthRows(table, year, month), d) > 0 ==> d in busy
  {
    var start, end := MonthStart(year, month), MonthEnd(year, month);
    var rows := SelectForMonth(table, start, end);
    busy := map[];
    var i := 0;
    while i < |rows|
      invariant 0 <= i <= |rows|
      invariant forall d :: d in busy ==> ValidDate(d) && busy[d] >= 1
      invariant forall d :: ValidDate(d) ==> Count(busy, d) == Coverage(rows[..i], d)
    {
      assert rows[i] in table;
      busy := AddStay(busy, rows[i]);
      assert rows[..i + 1][..i] == rows[..i];
      i := i + 1;
    }
    assert rows[..|rows|] == rows;
  }

  // ---------------------------------------------------------------------------
  // Properties of the counts

  lemma {:induction false} CoverageAppend(s: seq<Reservation>, t: seq<Reservation>, d: Date)
    ensures Coverage(s + t, d) == Coverage(s, d) + Coverage(t, d)
    decreases |t|
  {
    if t != [] {
      assert (s + t)[..|s + t| - 1] == s + t[..|t| - 1];
      assert (s + t)[|s + t| - 1] == t[|t| - 1];
      CoverageAppend(s, t[..|t| - 1], d);
    } else {
      assert s + t == s;
    }
  }

  /** A day's count depends only on which rows there are, not on their order. */
  lemma {:induction false} CoveragePermutation(a: seq<Reservation>, b: seq<Reservation>, d: Date)
    requires multiset(a) == multiset(b)
    ensures Coverage(a, d) == Coverage(b, d)
    decreases |a|
  {
    if a != [] {
      var x := a[|a| - 1];
      assert a == a[..|a| - 1] + [x];
      assert x in multiset(b);
      var k :| 0 <= k < |b| && b[k] == x;
      assert b == b[..k] + [x] + b[k + 1..];
      var rest := b[..k] + b[k + 1..];
      assert multiset(a) == multiset(a[..|a| - 1]) + multiset{x};
      assert multiset(b) == multiset(b[..k]) + multiset{x} + multiset(b[k + 1..]);
      assert multiset(rest) == multiset(b[..k]) + multiset(b[k + 1..]);
      assert multiset(a[..|a| - 1]) == multiset(a) - multiset{x};
      assert multiset(rest) == multiset(b) - multiset{x};
      CoveragePermutation(a[..|a| - 1], rest, d);
      CoverageAppend(b[..k] + [x], b[k + 1..], d);
      CoverageAppend(b[..k], [x], d);
      CoverageAppend(b[..k], b[k + 1..], d);
      assert [x][..0] == [];
    }
  }

  /** The calendar does not depend on the order in which storage returns the rows. */
  lemma MonthCountsIgnoreRowOrder(t1: seq<Reservation>, t2: seq<Reservation>,
                                  year: int, month: int, d: Date)
    requires 1 <= month <= 12
    requires multiset(t1) == multiset(t2)
    ensures Coverage(MonthRows(t1, year, month), d) == Coverage(MonthRows(t2, year, month), d)
  {
    var s1, s2 := MonthRows(t1, year, month), MonthRows(t2, year, month);
    assert forall x :: multiset(s1)[x] == multiset(s2)[x];
    assert multiset(s1) == multiset(s2);
    CoveragePermutation(s1, s2, d);
  }

  /** One stay adds exactly 1 to each day from its check-in to its check-out, both
      included, so it adds (check-out - check-in) + 1 distinct days in all; a stay that checks
      out before it checks in adds nothing. */
  lemma SingleStayContribution(r: Reservation, d: Date)
    requires WellDated(r)
    ensures |DayRange(r.checkIn, r.checkOut)| ==
              if Before(r.checkOut, r.checkIn) then 0 else Ordinal(r.checkOut) - Ordinal(r.checkIn) + 1
    ensures forall i, j :: 0 <= i < j < |DayRange(r.checkIn, r.checkOut)| ==>
              Before(DayRange(r.checkIn, r.checkOut)[i], DayRange(r.checkIn, r.checkOut)[j])
    ensures ValidDate(d) ==> Coverage([r], d) == if d in DayRange(r.checkIn, r.checkOut) then 1 else 0
  {
    DayRangeIncreasing(r.checkIn, r.checkOut);
    DayRangeMembers(r.checkIn, r.checkOut, d);
    assert [r][..0] == [];
  }

  /** Boundary asymmetry: a stay checking out on the first of the month is selected
      and counts that day busy, although the conflict rule treats the same checkout
      day as free for a new stay in that room. */
  lemma CheckoutOnFirstOfMonth(table: seq<Reservation>, i: nat, year: int, month: int, out: Date)
    requires 1 <= month <= 12 && i < |table| && WellDated(table[i])
    requires AtMost(table[i].checkIn, table[i].checkOut)
    requires table[i].checkOut == MonthStart(year, month)
    ensures table[i] in MonthRows(table, year, month)
    ensures Covers(table[i], MonthStart(year, month))
    ensures !Validation.Overlaps(table[i],
              Validation.Booking(table[i].guestId, table[i].roomId, MonthStart(year, month), out))
  {
    var r := table[i];
    OrdinalOrder(r.checkIn, r.checkOut);
    OrdinalOrder(r.checkOut, MonthEnd(year, month));
    assert multiset(table)[r] > 0;
  }

  /** Days are not clipped to the month: a stay from 2025-01-30 to 2025-02-02 makes
      2025-02-01 busy in January's calendar. */
  lemma StayCrossingMonthEnd()
    ensures Coverage(MonthRows([Reservation(1, 1, 1, Date(2025, 1, 30), Date(2025, 2, 2), Active)],
                               2025, 1), Date(2025, 2, 1)) == 1
  {
    var r := Reservation(1, 1, 1, Date(2025, 1, 30), Date(2025, 2, 2), Active);
    assert MonthRows([r], 2025, 1) == [r];
    assert [r][..0] == [];
  }

  lemma CoverageOfTwo(r1: Reservation, r2: Reservation, d: Date)
    ensures Coverage([r1, r2], d) == (if Covers(r1, d) then 1 else 0) + (if Covers(r2, d) then 1 else 0)
  {
    assert [r1, r2][..1] == [r1];
    assert [r1][..0] == [];
  }

  /** The two stays of the calendar example: room 1 from 2025-01-01 to 2025-01-07 and
      room 2 from 2025-01-05 to 2025-01-10. */
  function JanuaryStays(): seq<Reservation> {
    [Reservation(1, 1, 1, Date(2025, 1, 1), Date(2025, 1, 7), Active),
     Reservation(2, 2, 2, Date(2025, 1, 5), Date(2025, 1, 10), Active)]
  }

  /** Both stays are selected for January 2025, in table order. */
  lemma JanuaryRows()
    ensures MonthRows(JanuaryStays(), 2025, 1) == JanuaryStays()
  {
    var t := JanuaryStays();
    var start, end := MonthStart(2025, 1), MonthEnd(2025, 1);
    assert InMonth(t[0], start, end) && InMonth(t[1], start, end);
    assert t[1..] == [t[1]];
    assert SelectForMonth(t[1..], start, end) == [t[1]] + SelectForMonth([], start, end);
  }

  /** January 2025 over those two stays: 2025-01-05 counts 2, the first and last days
      count 1, 2025-01-08 counts 1 (room 2's stay covers it), and no day outside
      2025-01-01..2025-01-10 is busy. */
  lemma JanuaryCalendar(d: Date)
    ensures Coverage(MonthRows(JanuaryStays(), 2025, 1), Date(2025, 1, 5)) == 2
    ensures Coverage(MonthRows(JanuaryStays(), 2025, 1), Date(2025, 1, 1)) == 1
    ensures Coverage(MonthRows(JanuaryStays(), 2025, 1), Date(2025, 1, 8)) == 1
    ensures Coverage(MonthRows(JanuaryStays(), 2025, 1), Date(2025, 1, 10)) == 1
    ensures Coverage(MonthRows(JanuaryStays(), 2025, 1), d) > 0 ==>
              AtMost(Date(2025, 1, 1), d) && AtMost(d, Date(2025, 1, 10))
  {
    var t := JanuaryStays();
    JanuaryRows();
    CoverageOfTwo(t[0], t[1], d);
    CoverageOfTwo(t[0], t[1], Date(2025, 1, 5));
    CoverageOfTwo(t[0], t[1], Date(2025, 1, 1));
    CoverageOfTwo(t[0], t[1], Date(2025, 1, 8));
    CoverageOfTwo(t[0], t[1], Date(2025, 1, 10));
  }

  // ---------------------------------------------------------------------------
  // The JSON response

  /** The response object: each busy day under its `YYYY-MM-DD` key. */
  function BusyDaysJson(busy: map<Date, int>): (json: map<string, int>)
    requires forall d :: d in busy ==> ValidDate(d) && FourDigitYear(d)
    ensures forall d :: d in busy ==> FullDate(d) in json && json[FullDate(d)] == busy[d]
    ensures forall k :: k in json ==>
              ParseFullDate(k).Some? && ParseFullDate(k).value in busy
              && k == FullDate(ParseFullDate(k).value)
  {
    assert forall d :: d in busy ==> ParseFullDate(FullDate(d)) == Some(d) by {
      forall d | d in busy
        ensures ParseFullDate(FullDate(d)) == Some(d)
      {
        FullDateParses(d);
      }
    }
    map k | k in (set d | d in busy :: FullDate(d)) :: busy[ParseFullDate(k).value]
  }
}
