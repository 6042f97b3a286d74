/** The month walk getLunarDate evidently means to do in a year with a leap month L:
    months 1..L, then the leap month, then months L + 1..12, in calendar order, each day
    named after the month whose span holds it (the leap month after month L, whose name
    it shares, as chineseMonth has no separate leap names). The code as written walks
    the leap month in place of month L + 1 instead, which LunarFacts describes. */
module IntendedWalk {
  import opened Outcomes
  import opened LunarTable
  import opened Spans
  import opened LunarCalendar
  import opened LunarFacts

  /** A shape whose leap month, if any, is one of the twelve months. */
  predicate CalendarShape(s: YearShape) {
    ValidShape(s) && s.leapMonth <= 12
  }

  /** Span k of the calendar order is regular month k + 1 up to the leap month, the leap
      month at k == L, and regular month k after it. */
  function CalendarMonth(s: YearShape, k: int): int {
    if 1 <= s.leapMonth <= k then k else k + 1
  }

  /** The number of months of the year. */
  function MonthCount(s: YearShape): int {
    if s.leapMonth == 0 then 12 else 13
  }

  /** The length of span k of the calendar order. */
  function CalendarLength(s: YearShape, k: int): (n: int)
    requires CalendarShape(s) && 0 <= k < MonthCount(s)
    ensures 29 <= n <= 30
  {
    if 1 <= s.leapMonth && k == s.leapMonth then s.leapDays else s.months[CalendarMonth(s, k) - 1]
  }

  /** The lengths of the months of the year in calendar order. */
  function CalendarLengths(s: YearShape): (r: seq<int>)
    requires CalendarShape(s)
    ensures |r| == MonthCount(s) && AllPositive(r)
  {
    seq(MonthCount(s), k requires 0 <= k < MonthCount(s) => CalendarLength(s, k))
  }

  /** Up to the leap month, the days before span k of the calendar order are the
      regular months before month k + 1. */
  lemma {:induction false} CalendarDaysBeforeLeap(s: YearShape, k: int)
    requires CalendarShape(s) && 0 <= k <= 12 && (s.leapMonth == 0 || k <= s.leapMonth)
    ensures DaysBefore(CalendarLengths(s), k) == DaysBefore(s.months, k)
    decreases k
  {
    if k > 0 {
      CalendarDaysBeforeLeap(s, k - 1);
    }
  }

  /** Past the leap month, the days before span k of the calendar order are the regular
      months before month k and the leap month. */
  lemma {:induction false} CalendarDaysAfterLeap(s: YearShape, k: int)
    requires CalendarShape(s) && 1 <= s.leapMonth < k <= 13
    ensures DaysBefore(CalendarLengths(s), k) == DaysBefore(s.months, k - 1) + s.leapDays
    decreases k
  {
    if k == s.leapMonth + 1 {
      CalendarDaysBeforeLeap(s, s.leapMonth);
    } else {
      CalendarDaysAfterLeap(s, k - 1);
    }
  }

  /** The months in calendar order fill the whole year. */
  lemma CalendarLengthsCover(s: YearShape)
    requires CalendarShape(s)
    ensures DaysBefore(CalendarLengths(s), |CalendarLengths(s)|) == ShapeLength(s)
  {
    if s.leapMonth == 0 {
      CalendarDaysBeforeLeap(s, 12);
    } else {
      CalendarDaysAfterLeap(s, 13);
    }
  }

  /** The span of the calendar order that holds day o of the year. */
  ghost function CalendarSpan(s: YearShape, o: int): (k: int)
    requires CalendarShape(s) && 0 <= o < ShapeLength(s)
    ensures InSpan(CalendarLengths(s), o, k)
  {
    CalendarLengthsCover(s);
    InSpanBelow(CalendarLengths(s), o, |CalendarLengths(s)|);
    var k :| 0 <= k < |CalendarLengths(s)| && InSpan(CalendarLengths(s), o, k);
    k
  }

  /** The month and the day within it that the intended walk gives day o of the year. */
  ghost function IntendedPosition(s: YearShape, o: int): Position
    requires CalendarShape(s) && 0 <= o < ShapeLength(s)
  {
    var k := CalendarSpan(s, o);
    Position(CalendarMonth(s, k), o - DaysBefore(CalendarLengths(s), k))
  }

  /** Day o of the year, named by the intended walk. */
  ghost function IntendedLabel(s: YearShape, o: int): Outcome<string>
    requires CalendarShape(s) && 0 <= o < ShapeLength(s)
  {
    Label(IntendedPosition(s, o))
  }

  /** IntendedPosition is read off the one span that holds o. */
  lemma IntendedPositionIn(s: YearShape, o: int, k: int, i: int, offset: int)
    requires CalendarShape(s) && 0 <= o < ShapeLength(s) && InSpan(CalendarLengths(s), o, k)
    requires i == CalendarMonth(s, k) && offset == o - DaysBefore(CalendarLengths(s), k)
    ensures IntendedPosition(s, o) == Position(i, offset)
  {
    InSpanUnique(CalendarLengths(s), o, k, CalendarSpan(s, o));
  }

  /** Day `offset` of span k of the calendar order is within the year, and the intended
      walk puts it at that day of month CalendarMonth(s, k). */
  lemma IntendedPositionAt(s: YearShape, k: int, o: int, i: int, offset: int)
    requires CalendarShape(s) && 0 <= k < MonthCount(s)
    requires i == CalendarMonth(s, k) && offset == o - DaysBefore(CalendarLengths(s), k)
    requires 0 <= offset < CalendarLength(s, k)
    ensures 0 <= o < ShapeLength(s) && IntendedPosition(s, o) == Position(i, offset)
  {
    CalendarLengthsCover(s);
    DaysBeforeIncreasing(CalendarLengths(s), k, MonthCount(s));
    IntendedPositionIn(s, o, k, i, offset);
  }

  /** Every day of the year is within one of months 1..12, at one of days 1..30: the
      intended walk names every day. */
  lemma IntendedYearNamed(s: YearShape, o: int)
    requires CalendarShape(s) && 0 <= o < ShapeLength(s)
    ensures 1 <= IntendedPosition(s, o).i <= 12 && 0 <= IntendedPosition(s, o).offset < 30
    ensures IntendedLabel(s, o).Ok?
  {
    var k := CalendarSpan(s, o);
    DaysBeforeStep(CalendarLengths(s), k + 1);
  }

  /** Day j of regular month m up to the leap month, or in a year without one, is
      month m, day j + 1. */
  lemma IntendedMonthBeforeLeap(s: YearShape, m: int, j: int, o: int)
    requires CalendarShape(s) && 1 <= m <= 12 && (s.leapMonth == 0 || m <= s.leapMonth)
    requires 0 <= j < s.months[m - 1] && o == DaysBefore(s.months, m - 1) + j
    ensures o < ShapeLength(s) && IntendedPosition(s, o) == Position(m, j)
  {
    CalendarDaysBeforeLeap(s, m - 1);
    IntendedPositionAt(s, m - 1, o, m, j);
  }

  /** Day j of regular month m after the leap month is month m, day j + 1, the leap
      month's days counted before it. */
  lemma IntendedMonthAfterLeap(s: YearShape, m: int, j: int, o: int)
    requires CalendarShape(s) && 1 <= s.leapMonth < m <= 12
    requires 0 <= j < s.months[m - 1] && o == DaysBefore(s.months, m - 1) + s.leapDays + j
    ensures o < ShapeLength(s) && IntendedPosition(s, o) == Position(m, j)
  {
    CalendarDaysAfterLeap(s, m);
    IntendedPositionAt(s, m, o, m, j);
  }

  /** Day j of the leap month L is month L, day j + 1. */
  lemma IntendedLeapMonth(s: YearShape, j: int, o: int)
    requires CalendarShape(s) && 1 <= s.leapMonth && 0 <= j < s.leapDays
    requires o == DaysBefore(s.months, s.leapMonth) + j
    ensures o < ShapeLength(s) && IntendedPosition(s, o) == Position(s.leapMonth, j)
  {
    CalendarDaysBeforeLeap(s, s.leapMonth);
    IntendedPositionAt(s, s.leapMonth, o, s.leapMonth, j);
  }

  /** A day before the leap month lies in a span of the calendar order before it, that
      is in the span of a regular month. */
  lemma SpanBeforeLeap(s: YearShape, o: int)
    requires CalendarShape(s) && 0 <= o < ShapeLength(s)
    requires s.leapMonth == 0 || o < DaysBefore(s.months, s.leapMonth)
    ensures var k := CalendarSpan(s, o);
            && 0 <= k < 12 && (s.leapMonth == 0 || k < s.leapMonth)
            && DaysBefore(s.months, k) <= o < DaysBefore(s.months, k + 1)
  {
    var k := CalendarSpan(s, o);
    if 1 <= s.leapMonth <= k {
      CalendarDaysBeforeLeap(s, s.leapMonth);
      if s.leapMonth < k {
        DaysBeforeIncreasing(CalendarLengths(s), s.leapMonth, k);
      }
      assert false;
    }
    CalendarDaysBeforeLeap(s, k);
    CalendarDaysBeforeLeap(s, k + 1);
  }

  /** Before the leap month, and in a year without one, the code as written gives every
      day the position the intended walk gives it. */
  lemma IntendedAgreesBeforeLeap(s: YearShape, o: int)
    requires CalendarShape(s) && 0 <= o < ShapeLength(s)
    requires s.leapMonth == 0 || o < DaysBefore(s.months, s.leapMonth)
    ensures MonthPosition(s, o) == IntendedPosition(s, o)
  {
    var k := CalendarSpan(s, o);
    SpanBeforeLeap(s, o);
    DaysBeforeStep(s.months, k + 1);
    var j := o - DaysBefore(s.months, k);
    IntendedMonthBeforeLeap(s, k + 1, j, o);
    RegularMonthPosition(s, k + 1, j, o);
  }

  // ---------------------------------------------------------------------------------
  // Whole dates

  /** Every year of the table has a leap month among the twelve, if any. */
  predicate AllCalendar(shapes: seq<YearShape>) {
    forall k :: 0 <= k < |shapes| ==> CalendarShape(shapes[k])
  }

  /** The result the conversion evidently means to give for day d after the epoch: the
      same errors outside the table, and the intended name of the day within its year,
      which always exists. */
  ghost function IntendedDateLabel(shapes: seq<YearShape>, d: int): (r: Outcome<string>)
    requires AllCalendar(shapes)
    ensures r.Ok? <==> 0 <= d < YearStart(shapes, |shapes|)
  {
    assert AllValid(shapes);
    if d < 0 then IndexOutOfBounds(LunarInfoArray, -1)
    else if YearStart(shapes, |shapes|) <= d then IndexOutOfBounds(LunarInfoArray, |shapes|)
    else
      var k := YearOf(shapes, d);
      var o := d - YearStart(shapes, k);
      DaysBeforeStep(YearLengths(shapes), k + 1);
      IntendedYearNamed(shapes[k], o);
      IntendedLabel(shapes[k], o)
  }

  /** The intended conversion fails exactly where the code as written reads lunarInfo
      out of range, and names every other day. */
  lemma IntendedDatesNamed(shapes: seq<YearShape>, d: int)
    requires AllCalendar(shapes)
    ensures IntendedDateLabel(shapes, d).Ok? <==> 0 <= d < YearStart(shapes, |shapes|)
    ensures !IntendedDateLabel(shapes, d).Ok? ==> IntendedDateLabel(shapes, d) == DateLabel(shapes, d)
  {
  }

  /** Every year of the converter's table qualifies, so IntendedDatesNamed applies to it:
      the intended conversion names every day from the epoch to the end of the table,
      day 354 included. */
  lemma TableCalendarShapes()
    ensures AllCalendar(Shapes(LunarInfo))
  {
    TableWellFormed();
    WellFormedLeapMonths(LunarInfo);
  }
}
