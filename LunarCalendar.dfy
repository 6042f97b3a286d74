/** getLunarDate: the conversion from a day count since 1900-01-31 (the lunar new year
    of 1900) to the names of a lunar month and day, as the Kotlin code computes it.

    The code is modelled as written, exceptions included: an array index out of range
    ends the conversion with `IndexOutOfBounds`. `GetLunarDate` is the method with the
    source's two loops; `DateLabel` states what it returns without loops, through the
    year and the month that contain the day. The statement is made for any table `t` of
    packed entries, each decoded once into a `YearShape`; `GetLunarDate` reads the
    converter's own table, `LunarInfo`. */
module LunarCalendar {
  import opened Outcomes
  import opened LunarTable
  import opened Spans

  // ---------------------------------------------------------------------------------
  // The shape of one year

  /** What an entry says about its year: the lengths of the regular months 1..12 (at
      index month - 1), the leap month (0 for none) and the leap month's length. */
  datatype YearShape = YearShape(months: seq<int>, leapMonth: int, leapDays: int)

  /** The shapes an entry can decode to. */
  predicate ValidShape(s: YearShape) {
    && |s.months| == 12
    && (forall k :: 0 <= k < 12 ==> 29 <= s.months[k] <= 30)
    && 0 <= s.leapMonth < 16
    && (s.leapMonth == 0 <==> s.leapDays == 0)
    && (s.leapMonth != 0 ==> 29 <= s.leapDays <= 30)
  }

  /** The shape of the year an entry describes. */
  function ShapeOf(x: Long): (s: YearShape)
    ensures ValidShape(s)
  {
    YearShape(seq(12, k requires 0 <= k < 12 => MonthDaysOf(x, k + 1)), LeapMonthOf(x), LeapDaysOf(x))
  }

  /** The length of a year of that shape. */
  function ShapeLength(s: YearShape): (n: int)
    requires ValidShape(s)
    ensures n >= 12
  {
    DaysBefore(s.months, |s.months|) + s.leapDays
  }

  /** The regular months before month i of an entry's year, from its shape. */
  lemma {:induction false} ShapeMonthsBefore(x: Long, i: int)
    requires 1 <= i <= 13
    ensures DaysBefore(ShapeOf(x).months, i - 1) == MonthsBefore(x, i)
    decreases i
  {
    if i > 1 {
      ShapeMonthsBefore(x, i - 1);
    }
  }

  /** An entry's year has the length of its shape. */
  lemma ShapeLengthOf(x: Long)
    ensures ShapeLength(ShapeOf(x)) == YearLengthOf(x)
  {
    ShapeMonthsBefore(x, 13);
  }

  // ---------------------------------------------------------------------------------
  // Years

  /** The shapes of the years a table describes. */
  function Shapes(t: seq<Long>): (r: seq<YearShape>)
    ensures |r| == |t| && forall k :: 0 <= k < |r| ==> ValidShape(r[k])
  {
    seq(|t|, k requires 0 <= k < |t| => ShapeOf(t[k]))
  }

  /** Every shape of a sequence is one an entry can decode to. */
  predicate AllValid(shapes: seq<YearShape>) {
    forall k :: 0 <= k < |shapes| ==> ValidShape(shapes[k])
  }

  /** The lengths of the years of a sequence of shapes. */
  function YearLengths(shapes: seq<YearShape>): (r: seq<int>)
    requires AllValid(shapes)
    ensures |r| == |shapes| && AllPositive(r)
  {
    seq(|shapes|, k requires 0 <= k < |shapes| => ShapeLength(shapes[k]))
  }

  /** The number of days from the epoch to the lunar new year of the year of shape k. */
  function YearStart(shapes: seq<YearShape>, k: int): int
    requires AllValid(shapes) && 0 <= k <= |shapes|
  {
    DaysBefore(YearLengths(shapes), k)
  }

  // ---------------------------------------------------------------------------------
  // The month walk

  /** The month loop is at index i while the leap flag is up: the flag is raised after
      the leap month L and cleared after index L + 1, so index L + 1 subtracts the leap
      month's length instead of month L + 1's. */
  predicate LeapTurn(s: YearShape, i: int) {
    1 <= s.leapMonth && i == s.leapMonth + 1
  }

  /** The days the month loop subtracts at index i. */
  function WalkDays(s: YearShape, i: int): (n: int)
    requires ValidShape(s) && 1 <= i <= 12
    ensures 29 <= n <= 30
  {
    if LeapTurn(s, i) then s.leapDays else s.months[i - 1]
  }

  /** What the month loop subtracts at indices 1..12, in order. */
  function WalkLengths(s: YearShape): (r: seq<int>)
    requires ValidShape(s)
    ensures |r| == 12 && AllPositive(r)
  {
    seq(12, k requires 0 <= k < 12 => WalkDays(s, k + 1))
  }

  /** The days subtracted before the month loop reaches index i. */
  function Walked(s: YearShape, i: int): int
    requires ValidShape(s) && 1 <= i <= 13
  {
    DaysBefore(WalkLengths(s), i - 1)
  }

  /** The values of i and offset when getLunarDate reaches its final lookups,
      chineseMonth[i - 1] and chineseDay[offset]. */
  datatype Position = Position(i: int, offset: int)

  /** The two lookups that end getLunarDate, month first: they succeed exactly for a
      month index in 1..12 and a day index in 0..29, and a bad month index is the one
      reported even when the day index is bad too. */
  function Label(p: Position): (r: Outcome<string>)
    ensures r.Ok? <==> 1 <= p.i <= 12 && 0 <= p.offset < 30
    ensures !(1 <= p.i <= 12) ==> r == IndexOutOfBounds(ChineseMonthArray, p.i - 1)
    ensures 1 <= p.i <= 12 && !(0 <= p.offset < 30) ==> r == IndexOutOfBounds(ChineseDayArray, p.offset)
  {
    if !(0 <= p.i - 1 < |ChineseMonth|) then IndexOutOfBounds(ChineseMonthArray, p.i - 1)
    else if !(0 <= p.offset < |ChineseDay|) then IndexOutOfBounds(ChineseDayArray, p.offset)
    else Ok(ChineseMonth[p.i - 1] + ChineseDay[p.offset])
  }

  /** Where day o of a year (counted from 0) that lies in walk span m ends up, that is
      Walked(s, m) <= o and, for m < 13, o < Walked(s, m + 1). On the span's first day
      the loop stops with nothing left over: the month is m, or m - 1 when the leap flag
      is up. Inside a span the loop overshoots and adds month m's regular length back.
      Past the twelfth span nothing is added back and i stays 13. */
  function PositionAt(s: YearShape, o: int, m: int): (p: Position)
    requires ValidShape(s) && 1 <= m <= 13 && Walked(s, m) <= o
    ensures o == Walked(s, m) ==> p.offset == 0 && (p.i == m || (LeapTurn(s, m) && p.i == m - 1))
    ensures o > Walked(s, m) ==> p.i == m
    ensures o > Walked(s, m) && m < 13 ==> p.offset == o - Walked(s, m) + s.months[m - 1] - WalkDays(s, m)
    ensures m < 13 && o < Walked(s, m + 1) ==> 1 <= p.i <= 12 && 0 <= p.offset < 30
  {
    if o == Walked(s, m) then Position(if LeapTurn(s, m) then m - 1 else m, 0)
    else if m == 13 then Position(13, o - Walked(s, 13))
    else Position(m, o - Walked(s, m + 1) + s.months[m - 1])
  }

  /** The walk span that holds day o of a year, when o is before the end of the twelfth. */
  ghost function MonthOf(s: YearShape, o: int): (k: int)
    requires ValidShape(s) && 0 <= o < Walked(s, 13)
    ensures 0 <= k < 12 && InSpan(WalkLengths(s), o, k)
  {
    InSpanBelow(WalkLengths(s), o, 12);
    var k :| 0 <= k < 12 && InSpan(WalkLengths(s), o, k);
    k
  }

  /** Where day o of a year of shape s ends up: within the twelve walk spans, at a
      month in 1..12 and a day in 0..29; past them, at month 13 with the days past the
      twelfth span as the day (except the boundary day when L = 12, which the zero-offset
      fix-up moves back to month 12). */
  ghost function MonthPosition(s: YearShape, o: int): (p: Position)
    requires ValidShape(s) && 0 <= o
    ensures o < Walked(s, 13) ==> 1 <= p.i <= 12 && 0 <= p.offset < 30
    ensures o >= Walked(s, 13) ==> p.offset == o - Walked(s, 13)
    ensures o >= Walked(s, 13) ==> p.i == 13 || (LeapTurn(s, 13) && o == Walked(s, 13) && p.i == 12)
  {
    if o >= Walked(s, 13) then PositionAt(s, o, 13) else PositionAt(s, o, MonthOf(s, o) + 1)
  }

  /** MonthPosition is PositionAt the one span that holds o. */
  lemma MonthPositionIn(s: YearShape, o: int, m: int)
    requires ValidShape(s) && 1 <= m <= 13 && Walked(s, m) <= o
    requires m < 13 ==> o < Walked(s, m + 1)
    ensures MonthPosition(s, o) == PositionAt(s, o, m)
  {
    if m < 12 {
      DaysBeforeIncreasing(WalkLengths(s), m, 12);
    }
    if m < 13 {
      assert InSpan(WalkLengths(s), o, m - 1);
      InSpanUnique(WalkLengths(s), o, m - 1, MonthOf(s, o));
    }
  }

  // ---------------------------------------------------------------------------------
  // Whole dates

  /** The year that holds day d, when d is from the epoch on and before the end of the
      table. */
  ghost function YearOf(shapes: seq<YearShape>, d: int): (k: int)
    requires AllValid(shapes) && 0 <= d < YearStart(shapes, |shapes|)
    ensures 0 <= k < |shapes| && InSpan(YearLengths(shapes), d, k)
  {
    InSpanBelow(YearLengths(shapes), d, |shapes|);
    var k :| 0 <= k < |shapes| && InSpan(YearLengths(shapes), d, k);
    k
  }

  /** The result of getLunarDate for day d after the epoch, for a table whose years have
      the given shapes: an index out of range of the table before the epoch and from
      the end of the table on, otherwise the label of the day within its year. */
  ghost function DateLabel(shapes: seq<YearShape>, d: int): (r: Outcome<string>)
    requires AllValid(shapes)
    ensures (r.IndexOutOfBounds? && r.arrayName == LunarInfoArray) <==> (d < 0 || YearStart(shapes, |shapes|) <= d)
    ensures r.IndexOutOfBounds? && 0 <= d < YearStart(shapes, |shapes|) ==> r.arrayName in {ChineseMonthArray, ChineseDayArray}
  {
    if d < 0 then
      IndexOutOfBounds(LunarInfoArray, -1)
    else if d >= YearStart(shapes, |shapes|) then
      IndexOutOfBounds(LunarInfoArray, |shapes|)
    else
      Label(DayPosition(shapes, d, YearOf(shapes, d)))
  }

  /** Where day d ends up within year k, which starts at or before it. */
  ghost function DayPosition(shapes: seq<YearShape>, d: int, k: int): Position
    requires AllValid(shapes) && 0 <= k < |shapes| && YearStart(shapes, k) <= d
  {
    MonthPosition(shapes[k], d - YearStart(shapes, k))
  }

  /** The year that holds d is the one span of the year lengths that holds it. */
  lemma YearOfIs(shapes: seq<YearShape>, d: int, k: int)
    requires AllValid(shapes) && InSpan(YearLengths(shapes), d, k)
    ensures 0 <= d < YearStart(shapes, |shapes|) && YearOf(shapes, d) == k
  {
    InSpanWithin(YearLengths(shapes), d, k);
    InSpanUnique(YearLengths(shapes), d, k, YearOf(shapes, d));
  }

  /** DateLabel is the label within the one year that holds d. */
  lemma DateLabelIn(shapes: seq<YearShape>, d: int, k: int, o: int)
    requires AllValid(shapes) && InSpan(YearLengths(shapes), d, k) && o == d - YearStart(shapes, k)
    ensures 0 <= o && DateLabel(shapes, d) == Label(MonthPosition(shapes[k], o))
  {
    YearOfIs(shapes, d, k);
    assert DayPosition(shapes, d, k) == MonthPosition(shapes[k], o);
  }

  // ---------------------------------------------------------------------------------
  // The converter's table, read through the shapes

  /** The shape of year k of a table is the decoding of entry k. */
  lemma ShapesAt(t: seq<Long>, k: int)
    requires 0 <= k < |t|
    ensures Shapes(t)[k] == ShapeOf(t[k])
  {
  }

  /** yearDays of a year of the table is the length of its shape. */
  lemma TableYearLength(info: seq<Long>, y: int)
    requires InTable(info, y)
    ensures YearLength(info, y) == YearLengths(Shapes(info))[y - FirstYear]
  {
    ShapesAt(info, y - FirstYear);
    ShapeLengthOf(info[y - FirstYear]);
  }

  /** leapMonth and leapDays of a year of the table read its shape. */
  lemma TableLeapMonth(info: seq<Long>, y: int)
    requires InTable(info, y)
    ensures LeapMonth(info, y) == Shapes(info)[y - FirstYear].leapMonth
    ensures LeapDays(info, y) == Shapes(info)[y - FirstYear].leapDays
  {
    ShapesAt(info, y - FirstYear);
  }

  /** monthDays of a year of the table reads its shape. */
  lemma TableMonthDays(info: seq<Long>, y: int, m: int)
    requires InTable(info, y) && 1 <= m <= 12
    ensures MonthDays(info, y, m) == Shapes(info)[y - FirstYear].months[m - 1]
  {
    ShapesAt(info, y - FirstYear);
  }

  // ---------------------------------------------------------------------------------
  // The year walk

  /** The state of the year loop after k turns from day d: offset is d less the first k
      years, and days is the length of the last year subtracted (0 before the first
      turn), which the offset had not yet used up. */
  ghost predicate YearLoop(shapes: seq<YearShape>, d: int, k: int, offset: int, days: int) {
    && AllValid(shapes)
    && 0 <= k <= |shapes|
    && offset == d - YearStart(shapes, k)
    && if k == 0 then days == 0 else days == YearLengths(shapes)[k - 1] && 0 < offset + days
  }

  /** One turn of the year loop at year i, the year of entry k: yearDays(i) is the length
      of that year, and subtracting it moves the offset to the next new year. */
  lemma YearStep(info: seq<Long>, d: int, k: int, i: int, offset: int, days: int, next: int)
    requires YearLoop(Shapes(info), d, k, offset, days) && i == FirstYear + k && k < |info| && 0 < offset
    requires next == YearLength(info, i)
    ensures YearLoop(Shapes(info), d, k + 1, offset - next, next)
  {
    TableYearLength(info, i);
  }

  /** Where the year loop of getLunarDate and its undo step leave year and offset. */
  datatype YearFound = YearFound(year: int, offset: int)

  /** The year walk found year (at index k of the table) and offset for day d: the year
      before the table when d is before the epoch, the year past its end when d is not
      before the table's end, and otherwise the year that holds d, with offset the day
      within it. */
  ghost predicate FoundYear(shapes: seq<YearShape>, d: int, year: int, offset: int)
    requires AllValid(shapes)
  {
    var k := year - FirstYear;
    && -1 <= k <= |shapes|
    && (k == -1 ==> d < 0)
    && (k == |shapes| ==> YearStart(shapes, |shapes|) <= d)
    && (0 <= k < |shapes| ==> InSpan(YearLengths(shapes), d, k) && offset == d - YearStart(shapes, k))
  }

  /** When the year loop stops after k0 turns with offset0 left, the undo step (one year
      back when the offset went below zero) finds year and offset. */
  lemma YearLoopDone(shapes: seq<YearShape>, d: int, k0: int, offset0: int, days: int, year: int, offset: int)
    requires YearLoop(shapes, d, k0, offset0, days) && |shapes| <= 2100 - FirstYear
    requires !(FirstYear + k0 < 2100 && offset0 > 0)
    requires year == FirstYear + (if offset0 < 0 then k0 - 1 else k0)
    requires offset == if offset0 < 0 then offset0 + days else offset0
    ensures FoundYear(shapes, d, year, offset)
  {
    if offset0 < 0 {
      if 0 < k0 {
        assert YearStart(shapes, k0) == YearStart(shapes, k0 - 1) + YearLengths(shapes)[k0 - 1];
        assert InSpan(YearLengths(shapes), d, k0 - 1);
      }
    } else if offset0 == 0 {
      if k0 < |shapes| {
        assert YearStart(shapes, k0 + 1) == YearStart(shapes, k0) + YearLengths(shapes)[k0];
        assert InSpan(YearLengths(shapes), d, k0);
      }
    }
  }

  /** From the end of the table on, getLunarDate fails reading past it. */
  lemma DateLabelPastEnd(shapes: seq<YearShape>, d: int)
    requires AllValid(shapes) && YearStart(shapes, |shapes|) <= d
    ensures DateLabel(shapes, d) == IndexOutOfBounds(LunarInfoArray, |shapes|)
  {
    assert 0 <= YearStart(shapes, |shapes|);
  }

  /** getLunarDate fails on a year the walk found outside the table. */
  lemma FoundYearOutside(shapes: seq<YearShape>, d: int, year: int, offset: int)
    requires AllValid(shapes) && FoundYear(shapes, d, year, offset) && !InTable(shapes, year)
    ensures DateLabel(shapes, d) == IndexOutOfBounds(LunarInfoArray, year - FirstYear)
  {
    if year - FirstYear == |shapes| {
      DateLabelPastEnd(shapes, d);
    }
  }

  /** Within the table, getLunarDate labels the day offset of the year the walk found. */
  lemma FoundYearInside(shapes: seq<YearShape>, d: int, year: int, offset: int)
    requires AllValid(shapes) && FoundYear(shapes, d, year, offset) && InTable(shapes, year)
    ensures 0 <= offset && DateLabel(shapes, d) == Label(MonthPosition(shapes[year - FirstYear], offset))
  {
    DateLabelIn(shapes, d, year - FirstYear, offset);
  }

  // ---------------------------------------------------------------------------------
  // The month walk

  /** The state of the month loop at index i for day o of a year of shape s: offset is o
      less what the loop subtracted, isLeap is the leap flag, and days is the last length
      subtracted, which the offset had not yet used up. */
  ghost predicate MonthLoop(s: YearShape, o: int, i: int, offset: int, days: int, isLeap: bool) {
    && ValidShape(s)
    && 1 <= i <= 13
    && offset == o - Walked(s, i)
    && isLeap == LeapTurn(s, i)
    && (1 < i ==> days == WalkDays(s, i - 1) && 0 < offset + days)
  }

  /** One turn of the month loop at index i of the year y: it subtracts WalkDays(s, i),
      and the leap flag follows LeapTurn. */
  lemma MonthStep(info: seq<Long>, y: int, o: int, i: int, offset: int, days: int, isLeap: bool,
                  leap: int, next: int, nextLeap: bool)
    requires InTable(info, y) && MonthLoop(Shapes(info)[y - FirstYear], o, i, offset, days, isLeap) && i < 13
    requires 0 < offset && leap == LeapMonth(info, y)
    requires next == if isLeap && i == leap + 1 then LeapDays(info, y) else MonthDays(info, y, i)
    requires nextLeap == if i == leap then true else if isLeap && i == leap + 1 then false else isLeap
    ensures MonthLoop(Shapes(info)[y - FirstYear], o, i + 1, offset - next, next, nextLeap)
  {
    var s := Shapes(info)[y - FirstYear];
    TableLeapMonth(info, y);
    TableMonthDays(info, y, i);
    assert next == WalkDays(s, i);
    assert Walked(s, i + 1) == Walked(s, i) + WalkDays(s, i);
  }

  /** When the month loop stops at index i0 with offset0 left, the fix-ups that follow
      it leave i and offset at the position of day o. */
  lemma MonthLoopDone(s: YearShape, o: int, i0: int, offset0: int, days: int, isLeap: bool, leap: int,
                      i: int, offset: int)
    requires MonthLoop(s, o, i0, offset0, days, isLeap) && 0 <= o && leap == s.leapMonth
    requires !(i0 < 13 && offset0 > 0)
    requires offset0 < 0 ==> 1 < i0 && i == i0 - 1 && offset == offset0 + s.months[i0 - 1 - 1]
    requires offset0 == 0 ==> offset == 0 && i == if leap > 0 && i0 == leap + 1 && isLeap then i0 - 1 else i0
    requires offset0 > 0 ==> i == i0 && offset == offset0
    ensures MonthPosition(s, o) == Position(i, offset)
  {
    if offset0 < 0 {
      assert Walked(s, i0) == Walked(s, i0 - 1) + WalkDays(s, i0 - 1);
      MonthPositionIn(s, o, i0 - 1);
    } else {
      if i0 < 13 {
        assert Walked(s, i0 + 1) == Walked(s, i0) + WalkDays(s, i0);
      }
      MonthPositionIn(s, o, i0);
    }
  }

  // ---------------------------------------------------------------------------------
  // getLunarDate

  /** The first half of getLunarDate: the year loop, which subtracts whole lunar years
      from d, and the undo step when it overshoots. It fails when yearDays reads past the
      end of the table, and otherwise finds the year and the day within it. */
  method WalkYears(info: seq<Long>, d: int) returns (r: Outcome<YearFound>)
    requires |info| <= 2100 - FirstYear
    ensures r.IndexOutOfBounds? ==>
              r.arrayName == LunarInfoArray && r.index == |info| && YearStart(Shapes(info), |info|) <= d
    ensures r.Ok? ==> FoundYear(Shapes(info), d, r.value.year, r.value.offset)
  {
    var offset := d;
    var i := FirstYear;
    var days := 0;
    ghost var k := 0;
    while i < 2100 && offset > 0
      invariant YearLoop(Shapes(info), d, k, offset, days) && i == FirstYear + k
      decreases |info| - k
    {
      if !InTable(info, i) {
        // yearDays(i) reads lunarInfo past its end
        r := IndexOutOfBounds(LunarInfoArray, i - FirstYear);
        return;
      }
      var next := YearDays(info, i);
      YearStep(info, d, k, i, offset, days, next);
      days := next;
      offset := offset - days;
      i := i + 1;
      k := k + 1;
    }
    ghost var k0, offset0 := k, offset;
    if offset < 0 {
      offset := offset + days;
      i := i - 1;
    }
    YearLoopDone(Shapes(info), d, k0, offset0, days, i, offset);
    r := Ok(YearFound(i, offset));
  }

  /** The second half of getLunarDate, for a year of the table and the day offset0
      within it: the month loop and the two fix-ups after it, which leave i and offset at
      the position of that day. */
  method WalkMonths(info: seq<Long>, year: int, offset0: int) returns (p: Position)
    requires InTable(info, year) && 0 <= offset0
    ensures p == MonthPosition(Shapes(info)[year - FirstYear], offset0)
  {
    TableLeapMonth(info, year);
    var offset := offset0;
    var days := 0;
    var leap := LeapMonth(info, year);
    var isLeap := false;
    var i := 1;
    while i < 13 && offset > 0
      invariant MonthLoop(Shapes(info)[year - FirstYear], offset0, i, offset, days, isLeap)
    {
      var next := if isLeap && i == leap + 1 then LeapDays(info, year) else MonthDays(info, year, i);
      ghost var nextLeap := if i == leap then true else if isLeap && i == leap + 1 then false else isLeap;
      MonthStep(info, year, offset0, i, offset, days, isLeap, leap, next, nextLeap);
      days := next;
      offset := offset - days;
      if isLeap && i == leap + 1 {
        isLeap := false;
      }
      if i == leap {
        isLeap := true;
      }
      i := i + 1;
    }
    ghost var i0, offset1 := i, offset;
    if offset == 0 && leap > 0 && i == leap + 1 {
      if isLeap {
        i := i - 1;
      }
    }
    if offset < 0 {
      TableMonthDays(info, year, i - 1);
      offset := offset + MonthDays(info, year, i - 1);
      i := i - 1;
    }
    MonthLoopDone(Shapes(info)[year - FirstYear], offset0, i0, offset1, days, isLeap, leap, i, offset);
    p := Position(i, offset);
  }

  /** getLunarDate, for the day d after 1900-01-31 and the table info (the converter's
      own is LunarInfo): the year walk, then the month walk within the year found, then
      the names of the month and the day. The year loop gives up at 2100,
      so a table must not reach past 2099. */
  method GetLunarDate(info: seq<Long>, d: int) returns (r: Outcome<string>)
    requires |info| <= 2100 - FirstYear
    ensures r == DateLabel(Shapes(info), d)
  {
    var found := WalkYears(info, d);
    if found.IndexOutOfBounds? {
      DateLabelPastEnd(Shapes(info), d);
      r := IndexOutOfBounds(found.arrayName, found.index);
      return;
    }
    var year := found.value.year;
    if !InTable(info, year) {
      // leapMonth(year) reads lunarInfo at index -1 or past its end
      FoundYearOutside(Shapes(info), d, year, found.value.offset);
      r := IndexOutOfBounds(LunarInfoArray, year - FirstYear);
      return;
    }
    FoundYearInside(Shapes(info), d, year, found.value.offset);
    var p := WalkMonths(info, year, found.value.offset);
    // the lookups chineseMonth[i - 1] and chineseDay[offset]
    r := Label(p);
  }
}
