/** What getLunarDate does to the days of one lunar year, and so to whole dates: the
    month walk, the labels it gives, where it fails. */
module LunarFacts {
  import opened Outcomes
  import opened LunarTable
  import opened Spans
  import opened LunarCalendar

  // ---------------------------------------------------------------------------------
  // The month walk against the months of the year

  /** The length of the leap month of a year with a leap month, which the walk takes in
      place of month L + 1 (for L <= 11) and so walks no regular month L + 1. */
  function SkippedDays(s: YearShape): (n: int)
    requires ValidShape(s)
    ensures 1 <= s.leapMonth <= 11 ==> n == s.leapDays - s.months[s.leapMonth]
    ensures !(1 <= s.leapMonth <= 11) ==> n == 0
  {
    if 1 <= s.leapMonth <= 11 then s.leapDays - s.months[s.leapMonth] else 0
  }

  /** The walk to index i covers the regular months before i, except that past index
      L + 1 the leap month stands in for month L + 1. */
  lemma {:induction false} WalkedCountsMonths(s: YearShape, i: int)
    requires ValidShape(s) && 1 <= i <= 13
    ensures Walked(s, i) == DaysBefore(s.months, i - 1) + if s.leapMonth + 1 < i then SkippedDays(s) else 0
    decreases i
  {
    if i > 1 {
      WalkedCountsMonths(s, i - 1);
      DaysBeforeStep(WalkLengths(s), i - 1);
      DaysBeforeStep(s.months, i - 1);
    }
  }

  /** One more length. */
  lemma DaysBeforeStep(lengths: seq<int>, k: int)
    requires 0 < k <= |lengths|
    ensures DaysBefore(lengths, k) == DaysBefore(lengths, k - 1) + lengths[k - 1]
  {
  }

  /** The days the walk of twelve indices leaves over at the end of the year: none
      without a leap month; otherwise month L + 1 (the one skipped), or the leap month
      itself when L is 12 or more and the walk never reaches it. */
  function TailDays(s: YearShape): (n: int)
    requires ValidShape(s)
    ensures s.leapMonth == 0 <==> n == 0
    ensures 0 <= n <= 30
  {
    if s.leapMonth == 0 then 0
    else if s.leapMonth <= 11 then s.months[s.leapMonth]
    else s.leapDays
  }

  /** The twelve turns of the month loop fall TailDays(s) short of the whole year. */
  lemma WalkTail(s: YearShape)
    requires ValidShape(s)
    ensures ShapeLength(s) == Walked(s, 13) + TailDays(s)
  {
    WalkedCountsMonths(s, 13);
  }

  // ---------------------------------------------------------------------------------
  // Labels within one year

  /** Within the year, the walk never reads chineseDay out of range, and reads
      chineseMonth out of range only at index 12, past the twelfth walk span. */
  lemma YearLabelBounds(s: YearShape, o: int)
    requires ValidShape(s) && 0 <= o < ShapeLength(s)
    ensures var p := MonthPosition(s, o);
            && 1 <= p.i <= 13 && 0 <= p.offset < 30
            && (p.i == 13 <==> Walked(s, 13) <= o && !(s.leapMonth == 12 && o == Walked(s, 13)))
  {
    WalkTail(s);
  }

  /** A year without a leap month: every day gets a name. */
  lemma NonLeapYearNamed(s: YearShape, o: int)
    requires ValidShape(s) && s.leapMonth == 0 && 0 <= o < ShapeLength(s)
    ensures Label(MonthPosition(s, o)).Ok?
  {
    YearLabelBounds(s, o);
    WalkTail(s);
  }

  /** The first day of the year is the first of the first month, 正月初一. */
  lemma NewYearLabel(s: YearShape)
    requires ValidShape(s)
    ensures Label(MonthPosition(s, 0)) == Ok(ChineseMonth[0] + ChineseDay[0])
  {
    DaysBeforeStep(WalkLengths(s), 1);
    MonthPositionIn(s, 0, 1);
  }

  /** Day j of regular month m, up to the leap month (or in a year without one), is
      month m, day j + 1. */
  lemma RegularMonthPosition(s: YearShape, m: int, j: int, o: int)
    requires ValidShape(s) && 1 <= m <= 12 && (s.leapMonth == 0 || m <= s.leapMonth)
    requires 0 <= j < s.months[m - 1] && o == DaysBefore(s.months, m - 1) + j
    ensures MonthPosition(s, o) == Position(m, j)
  {
    WalkedCountsMonths(s, m);
    WalkedCountsMonths(s, m + 1);
    DaysBeforeStep(s.months, m);
    MonthPositionIn(s, o, m);
  }

  /** The first day of the leap month L (for L <= 11) is placed on the first of month L
      again: the fix-up for a zero offset steps back to L when the leap flag is up. */
  lemma LeapMonthRelabel(s: YearShape)
    requires ValidShape(s) && 1 <= s.leapMonth <= 11
    ensures MonthPosition(s, DaysBefore(s.months, s.leapMonth)) == Position(s.leapMonth, 0)
  {
    var l := s.leapMonth;
    WalkedCountsMonths(s, l + 1);
    WalkedCountsMonths(s, l + 2);
    DaysBeforeStep(WalkLengths(s), l + 1);
    MonthPositionIn(s, DaysBefore(s.months, l), l + 1);
  }

  /** So the first day of month L and the first day of its leap month, two different
      days, end up at the same position and get the same name. */
  lemma LeapMonthNameTwice(s: YearShape)
    requires ValidShape(s) && 1 <= s.leapMonth <= 11
    ensures DaysBefore(s.months, s.leapMonth - 1) < DaysBefore(s.months, s.leapMonth)
    ensures MonthPosition(s, DaysBefore(s.months, s.leapMonth - 1))
            == MonthPosition(s, DaysBefore(s.months, s.leapMonth))
  {
    DaysBeforeStep(s.months, s.leapMonth);
    RegularMonthPosition(s, s.leapMonth, 0, DaysBefore(s.months, s.leapMonth - 1));
    LeapMonthRelabel(s);
  }

  /** Day j >= 1 of the leap month L <= 11 lies in walk span L + 1, which the loop
      counts as month L + 1 of regular length months[L]: the day is placed in month
      L + 1, moved by the difference between that length and the leap month's. */
  lemma LeapMonthDays(s: YearShape, j: int, o: int)
    requires ValidShape(s) && 1 <= s.leapMonth <= 11
    requires 1 <= j < s.leapDays && o == DaysBefore(s.months, s.leapMonth) + j
    ensures MonthPosition(s, o) == Position(s.leapMonth + 1, j + s.months[s.leapMonth] - s.leapDays)
  {
    var l := s.leapMonth;
    WalkedCountsMonths(s, l + 1);
    WalkedCountsMonths(s, l + 2);
    DaysBeforeStep(WalkLengths(s), l + 1);
    MonthPositionIn(s, o, l + 1);
  }

  /** The first day after the leap month L <= 10, which is the first of regular month
      L + 1, is where walk span L + 2 begins: it is placed on the first of month L + 2,
      a month later than it is. */
  lemma AfterLeapMonth(s: YearShape, o: int)
    requires ValidShape(s) && 1 <= s.leapMonth <= 10
    requires o == DaysBefore(s.months, s.leapMonth) + s.leapDays
    ensures MonthPosition(s, o) == Position(s.leapMonth + 2, 0)
  {
    var l := s.leapMonth;
    WalkedCountsMonths(s, l + 2);
    WalkedCountsMonths(s, l + 3);
    DaysBeforeStep(s.months, l + 1);
    MonthPositionIn(s, o, l + 2);
  }

  /** The first day of a later regular month m (L + 2 <= m <= 12) when regular month
      L + 1 is shorter than month m: the walk has not yet left span m, and the day is
      placed on day index 29 of month m, its own month's thirtieth day. */
  lemma LaterMonthOwnName(s: YearShape, m: int, o: int)
    requires ValidShape(s) && 1 <= s.leapMonth && s.leapMonth + 2 <= m <= 12
    requires s.months[s.leapMonth] < s.months[m - 1]
    requires o == DaysBefore(s.months, m - 1) + s.leapDays
    ensures MonthPosition(s, o) == Position(m, 29)
  {
    WalkedCountsMonths(s, m);
    WalkedCountsMonths(s, m + 1);
    DaysBeforeStep(s.months, m);
    MonthPositionIn(s, o, m);
  }

  /** The first day of a later regular month m (L + 2 <= m <= 11) when regular month
      L + 1 is at least as long as month m: the day is placed in month m + 1, on day
      index 0 when the two are equally long and 1 when month L + 1 is longer. */
  lemma LaterMonthNextName(s: YearShape, m: int, o: int)
    requires ValidShape(s) && 1 <= s.leapMonth && s.leapMonth + 2 <= m <= 11
    requires s.months[s.leapMonth] >= s.months[m - 1]
    requires o == DaysBefore(s.months, m - 1) + s.leapDays
    ensures MonthPosition(s, o) == Position(m + 1, s.months[s.leapMonth] - s.months[m - 1])
  {
    WalkedCountsMonths(s, m + 1);
    WalkedCountsMonths(s, m + 2);
    DaysBeforeStep(s.months, m);
    DaysBeforeStep(s.months, m + 1);
    MonthPositionIn(s, o, m + 1);
  }

  /** The last TailDays(s) days of a year with a leap month L <= 11 run past the
      twelfth walk span: the lookup chineseMonth[12] fails on each of them. */
  lemma LeapYearTailFails(s: YearShape, o: int)
    requires ValidShape(s) && 1 <= s.leapMonth <= 11
    requires ShapeLength(s) - TailDays(s) <= o < ShapeLength(s)
    ensures Label(MonthPosition(s, o)) == IndexOutOfBounds(ChineseMonthArray, 12)
  {
    WalkTail(s);
    YearLabelBounds(s, o);
  }

  // ---------------------------------------------------------------------------------
  // Whole dates

  /** Day o of year k is day YearStart(shapes, k) + o after the epoch, and
      getLunarDate labels it as the walk through year k does. */
  lemma DateInYear(shapes: seq<YearShape>, k: int, o: int, d: int)
    requires AllValid(shapes) && 0 <= k < |shapes| && 0 <= o < YearLengths(shapes)[k]
    requires d == YearStart(shapes, k) + o
    ensures DateLabel(shapes, d) == Label(MonthPosition(shapes[k], o))
  {
    DayInYear(shapes, k, o);
    DateLabelIn(shapes, d, k, o);
  }

  /** Day o of year k lies in span k of the year lengths. */
  lemma DayInYear(shapes: seq<YearShape>, k: int, o: int)
    requires AllValid(shapes) && 0 <= k < |shapes| && 0 <= o < YearLengths(shapes)[k]
    ensures InSpan(YearLengths(shapes), YearStart(shapes, k) + o, k)
  {
    DaysBeforeStep(YearLengths(shapes), k + 1);
  }

  /** getLunarDate reads lunarInfo out of range exactly for the days before the epoch
      (at index -1) and from the end of the table on (at the index past its end). */
  lemma TableErrorsExactly(shapes: seq<YearShape>, d: int)
    requires AllValid(shapes)
    ensures (DateLabel(shapes, d).IndexOutOfBounds? && DateLabel(shapes, d).arrayName == LunarInfoArray)
            <==> (d < 0 || YearStart(shapes, |shapes|) <= d)
    ensures d < 0 ==> DateLabel(shapes, d) == IndexOutOfBounds(LunarInfoArray, -1)
    ensures 0 <= d && YearStart(shapes, |shapes|) <= d ==> DateLabel(shapes, d) == IndexOutOfBounds(LunarInfoArray, |shapes|)
  {
  }

  /** Within the table, getLunarDate never reads chineseDay out of range, and reads
      chineseMonth out of range only at index 12. */
  lemma DateLabelBounds(shapes: seq<YearShape>, d: int)
    requires AllValid(shapes) && 0 <= d < YearStart(shapes, |shapes|)
    ensures DateLabel(shapes, d).Ok? || DateLabel(shapes, d) == IndexOutOfBounds(ChineseMonthArray, 12)
  {
    var k := YearOf(shapes, d);
    var o := d - YearStart(shapes, k);
    DaysBeforeStep(YearLengths(shapes), k + 1);
    DateLabelIn(shapes, d, k, o);
    YearLabelBounds(shapes[k], o);
  }

  /** Every lunar new year in the table is named 正月初一. */
  lemma NewYearDate(shapes: seq<YearShape>, k: int, d: int)
    requires AllValid(shapes) && 0 <= k < |shapes| && d == YearStart(shapes, k)
    ensures DateLabel(shapes, d) == Ok(ChineseMonth[0] + ChineseDay[0])
  {
    DateInYear(shapes, k, 0, d);
    NewYearLabel(shapes[k]);
  }

  /** Every day of a year without a leap month gets a name. */
  lemma NonLeapYearDates(shapes: seq<YearShape>, k: int, o: int, d: int)
    requires AllValid(shapes) && 0 <= k < |shapes| && shapes[k].leapMonth == 0
    requires 0 <= o < YearLengths(shapes)[k] && d == YearStart(shapes, k) + o
    ensures DateLabel(shapes, d).Ok?
  {
    DateInYear(shapes, k, o, d);
    NonLeapYearNamed(shapes[k], o);
  }

  /** The last TailDays days of a year with a leap month L <= 11 make getLunarDate fail
      on chineseMonth[12]. */
  lemma LeapYearTailDates(shapes: seq<YearShape>, k: int, o: int, d: int)
    requires AllValid(shapes) && 0 <= k < |shapes| && 1 <= shapes[k].leapMonth <= 11
    requires YearLengths(shapes)[k] - TailDays(shapes[k]) <= o < YearLengths(shapes)[k]
    requires d == YearStart(shapes, k) + o
    ensures DateLabel(shapes, d) == IndexOutOfBounds(ChineseMonthArray, 12)
  {
    DateInYear(shapes, k, o, d);
    LeapYearTailFails(shapes[k], o);
  }

  /** The first day of regular month L + 1 of a year with a leap month L <= 10 makes
      getLunarDate name the first of month L + 2. */
  lemma AfterLeapMonthDate(shapes: seq<YearShape>, k: int, o: int, d: int)
    requires AllValid(shapes) && 0 <= k < |shapes| && 1 <= shapes[k].leapMonth <= 10
    requires o == DaysBefore(shapes[k].months, shapes[k].leapMonth) + shapes[k].leapDays
    requires d == YearStart(shapes, k) + o
    ensures DateLabel(shapes, d) == Ok(ChineseMonth[shapes[k].leapMonth + 1] + ChineseDay[0])
  {
    var s := shapes[k];
    DaysBeforeIncreasing(s.months, s.leapMonth, 12);
    DateInYear(shapes, k, o, d);
    AfterLeapMonth(s, o);
  }

  // ---------------------------------------------------------------------------------
  // The converter's table

  /** A well-formed entry has no leap month past 10. */
  lemma WellFormedLeapMonth(x: Long)
    requires WellFormedEntry(x)
    ensures ShapeOf(x).leapMonth <= 10
  {
  }

  /** Well-formed entries have no leap month past 10. */
  lemma WellFormedLeapMonths(t: seq<Long>)
    requires forall k :: 0 <= k < |t| ==> WellFormedEntry(t[k])
    ensures forall k :: 0 <= k < |t| ==> Shapes(t)[k].leapMonth <= 10
  {
    forall k | 0 <= k < |t|
      ensures Shapes(t)[k].leapMonth <= 10
    {
      ShapesAt(t, k);
    }
  }

  /** In the converter's table every leap month is one of 1..10, so the last days of
      each of its leap years make getLunarDate fail on chineseMonth[12]. */
  lemma TableLeapYearTails(k: int, o: int, d: int)
    requires 0 <= k < |LunarInfo| && Shapes(LunarInfo)[k].leapMonth != 0
    requires YearLengths(Shapes(LunarInfo))[k] - TailDays(Shapes(LunarInfo)[k]) <= o < YearLengths(Shapes(LunarInfo))[k]
    requires d == YearStart(Shapes(LunarInfo), k) + o
    ensures DateLabel(Shapes(LunarInfo), d) == IndexOutOfBounds(ChineseMonthArray, 12)
  {
    TableWellFormed();
    WellFormedLeapMonth(LunarInfo[k]);
    ShapesAt(LunarInfo, k);
    LeapYearTailDates(Shapes(LunarInfo), k, o, d);
  }

  /** Entry 0x04bd8: a leap eighth month of 29 days and these regular months. */
  lemma FirstEntryShape()
    ensures ShapeOf(0x04bd8) == YearShape([29, 30, 29, 29, 30, 29, 30, 30, 30, 30, 29, 30], 8, 29)
  {
    var s := ShapeOf(0x04bd8);
    assert s.months == [29, 30, 29, 29, 30, 29, 30, 30, 30, 30, 29, 30];
  }

  /** That year has 384 days, the leap month starts on day 236 of it, and the walk
      leaves month 9's 30 days over. */
  lemma FirstYearLength()
    ensures ShapeLength(YearShape([29, 30, 29, 29, 30, 29, 30, 30, 30, 30, 29, 30], 8, 29)) == 384
    ensures DaysBefore([29, 30, 29, 29, 30, 29, 30, 30, 30, 30, 29, 30], 8) == 236
    ensures TailDays(YearShape([29, 30, 29, 29, 30, 29, 30, 30, 30, 30, 29, 30], 8, 29)) == 30
  {
    var months := [29, 30, 29, 29, 30, 29, 30, 30, 30, 30, 29, 30];
    assert DaysBefore(months, 1) == 29;
    assert DaysBefore(months, 2) == 59;
    assert DaysBefore(months, 3) == 88;
    assert DaysBefore(months, 4) == 117;
    assert DaysBefore(months, 5) == 147;
    assert DaysBefore(months, 6) == 176;
    assert DaysBefore(months, 7) == 206;
    assert DaysBefore(months, 8) == 236;
    assert DaysBefore(months, 9) == 266;
    assert DaysBefore(months, 10) == 296;
    assert DaysBefore(months, 11) == 325;
    assert DaysBefore(months, 12) == 355;
  }

  /** The lunar year 1900 (entry 0x04bd8) has a leap eighth month of 29 days and 384
      days in all, of which the month walk covers 354: day 354 after the epoch is the
      first day that getLunarDate fails on. */
  lemma FirstYearTail()
    ensures DateLabel(Shapes(LunarInfo), 354) == IndexOutOfBounds(ChineseMonthArray, 12)
  {
    var s := YearShape([29, 30, 29, 29, 30, 29, 30, 30, 30, 30, 29, 30], 8, 29);
    FirstYearLength();
    LeapYearTailFails(s, 354);
    FirstYearDate(354, MonthPosition(s, 354));
  }

  /** The lunar year 1900 as the table describes it, starting at the epoch. */
  lemma FirstYearShape()
    ensures Shapes(LunarInfo)[0] == YearShape([29, 30, 29, 29, 30, 29, 30, 30, 30, 30, 29, 30], 8, 29)
    ensures YearStart(Shapes(LunarInfo), 0) == 0
    ensures YearLengths(Shapes(LunarInfo))[0] == 384
  {
    FirstEntryShape();
    FirstYearLength();
    ShapesAt(LunarInfo, 0);
  }

  /** In 1900 the leap eighth month's second day, day 237 after the epoch, is named
      九月初三 (chineseMonth[8], chineseDay[2]): the ninth month's name, and a day late. */
  lemma FirstYearLeapMonthDay()
    ensures DateLabel(Shapes(LunarInfo), 237) == Ok(ChineseMonth[8] + ChineseDay[2])
  {
    var s := YearShape([29, 30, 29, 29, 30, 29, 30, 30, 30, 30, 29, 30], 8, 29);
    FirstYearShape();
    FirstYearLength();
    LeapMonthDays(s, 1, 237);
    FirstYearDate(237, Position(9, 2));
  }

  /** In 1900 the first day of the ninth month, day 265 after the epoch, is named
      十月初一 (chineseMonth[9], chineseDay[0]). */
  lemma FirstYearNinthMonth()
    ensures DateLabel(Shapes(LunarInfo), 265) == Ok(ChineseMonth[9] + ChineseDay[0])
  {
    var s := YearShape([29, 30, 29, 29, 30, 29, 30, 30, 30, 30, 29, 30], 8, 29);
    FirstYearShape();
    FirstYearLength();
    AfterLeapMonth(s, 265);
    FirstYearDate(265, Position(10, 0));
  }

  /** A day of 1900 is labelled by where the walk through that year leaves it. */
  lemma FirstYearDate(o: int, p: Position)
    requires 0 <= o < 384
    requires MonthPosition(YearShape([29, 30, 29, 29, 30, 29, 30, 30, 30, 30, 29, 30], 8, 29), o) == p
    ensures DateLabel(Shapes(LunarInfo), o) == Label(p)
  {
    FirstYearShape();
    FirstShapeDate(Shapes(LunarInfo), o, p);
  }

  /** A day of the first year of any table is labelled by where the walk through that
      year leaves it. */
  lemma FirstShapeDate(shapes: seq<YearShape>, o: int, p: Position)
    requires AllValid(shapes) && 0 < |shapes| && 0 <= o < YearLengths(shapes)[0]
    requires MonthPosition(shapes[0], o) == p
    ensures DateLabel(shapes, o) == Label(p)
  {
    DateInYear(shapes, 0, o, o);
  }
}
