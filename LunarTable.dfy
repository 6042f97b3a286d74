/** The constant data of the lunar converter and the bit-field helpers that read it:
    one packed Kotlin `Long` per lunar year 1900..2049 and the two name tables.

    The decoding is stated once on a single entry `x` (the `...Of` functions and the
    lemmas about them); `LeapMonth`, `LeapDays` and `MonthDays` are the converter's own
    helpers, which look the entry of year y up in the table first. */
module LunarTable {

  /** A Kotlin `Long`; the entries are read with bitwise `and`. */
  type Long = bv64

  /** One entry per lunar year, starting at 1900.
      Bits 0..3: the leap month (0 if none); bit 16: the leap month has 30 days;
      bits 15..4: months 1..12 have 30 days (bit 15 is month 1).
      Written as the rows of eight entries of the source, joined pairwise. */
  const LunarInfo: seq<Long> :=
    (((([0x04bd8, 0x04ae0, 0x0a570, 0x054d5, 0x0d260, 0x0d950, 0x16554, 0x056a0]
    + [0x09ad0, 0x055d2, 0x04ae0, 0x0a5b6, 0x0a4d0, 0x0d250, 0x1d255, 0x0b540])
    + ([0x0d6a0, 0x0ada2, 0x095b0, 0x14977, 0x04970, 0x0a4b0, 0x0b4b5, 0x06a50]
    + [0x06d40, 0x1ab54, 0x02b60, 0x09570, 0x052f2, 0x04970, 0x06566, 0x0d4a0]))
    + (([0x0ea50, 0x06e95, 0x05ad0, 0x02b60, 0x186e3, 0x092e0, 0x1c8d7, 0x0c950]
    + [0x0d4a0, 0x1d8a6, 0x0b550, 0x056a0, 0x1a5b4, 0x025d0, 0x092d0, 0x0d2b2])
    + ([0x0a950, 0x0b557, 0x06ca0, 0x0b550, 0x15355, 0x04da0, 0x0a5d0, 0x14573]
    + ([0x052d0, 0x0a9a8, 0x0e950, 0x06aa0, 0x0aea6, 0x0ab50, 0x04b60, 0x0aae4]
    + [0x0a570, 0x05260, 0x0f263, 0x0d950, 0x05b57, 0x056a0, 0x096d0, 0x04dd5]))))
    + ((([0x04ad0, 0x0a4d0, 0x0d4d4, 0x0d250, 0x0d558, 0x0b540, 0x0b5a0, 0x195a6]
    + [0x095b0, 0x049b0, 0x0a974, 0x0a4b0, 0x0b27a, 0x06a50, 0x06d40, 0x0af46])
    + ([0x0ab60, 0x09570, 0x04af5, 0x04970, 0x064b0, 0x074a3, 0x0ea50, 0x06b58]
    + ([0x05ac0, 0x0ab60, 0x096d5, 0x092e0, 0x0c960, 0x0d954, 0x0d4a0, 0x0da50]
    + [0x07552, 0x056a0, 0x0abb7, 0x025d0, 0x092d0, 0x0cab5, 0x0a950, 0x0b4a0])))
    + (([0x0baa4, 0x0ad50, 0x055d9, 0x04ba0, 0x0a5b0, 0x15176, 0x052b0, 0x0a930]
    + [0x07954, 0x06aa0, 0x0ad50, 0x05b52, 0x04b60, 0x0a6e6, 0x0a4e0, 0x0d260])
    + ([0x0ea65, 0x0d530, 0x05aa0, 0x076a3, 0x096d0, 0x04bd7, 0x04ad0, 0x0a4d0]
    + ([0x1d0b6, 0x0d250, 0x0d520, 0x0dd45, 0x0b5a0, 0x056d0, 0x055b2, 0x049b0]
    + [0x0a577, 0x0a4b0, 0x0aa50, 0x1b255, 0x06d20, 0x0ada0])))))

  /** Names of the lunar months 1..12, at index month - 1. */
  const ChineseMonth: seq<string> := [
    "正月", "二月", "三月", "四月", "五月", "六月",
    "七月", "八月", "九月", "十月", "冬月", "腊月"
  ]

  /** Names of the lunar days 1..30, at index day - 1. */
  const ChineseDay: seq<string> := [
    "初一", "初二", "初三", "初四", "初五", "初六", "初七", "初八", "初九", "初十",
    "十一", "十二", "十三", "十四", "十五", "十六", "十七", "十八", "十九", "二十",
    "廿一", "廿二", "廿三", "廿四", "廿五", "廿六", "廿七", "廿八", "廿九", "三十"
  ]

  /** The year of the table's first entry, and of the epoch 1900-01-31. */
  const FirstYear := 1900

  // ---------------------------------------------------------------------------------
  // Bits of an entry

  /** Bit k of x, read by shifting rather than masking. */
  predicate Bit(x: Long, k: nat)
    requires k < 64
  {
    (x >> k) & 1 == 1
  }

  /** 1 if bit k of x is set, else 0. */
  function BitValue(x: Long, k: nat): (b: nat)
    requires k < 64
    ensures b <= 1
  {
    if Bit(x, k) then 1 else 0
  }

  /** Number of set bits of x at positions lo..hi-1. */
  function SetBitCount(x: Long, lo: nat, hi: nat): (n: nat)
    requires lo <= hi <= 64
    ensures n <= hi - lo
    decreases hi - lo
  {
    if lo == hi then 0 else BitValue(x, lo) + SetBitCount(x, lo + 1, hi)
  }

  // ---------------------------------------------------------------------------------
  // Decoding one entry

  /** The leap-month field of an entry: its low four bits. */
  function LeapMonthOf(x: Long): (l: int)
    ensures 0 <= l < 16
  {
    (x & 0xf) as int
  }

  /** The leap-month field is the number written by bits 3..0. */
  lemma LeapMonthReadsLowBits(x: Long)
    ensures LeapMonthOf(x) == 8 * BitValue(x, 3) + 4 * BitValue(x, 2) + 2 * BitValue(x, 1) + BitValue(x, 0)
  {
  }

  /** The length of the leap month an entry describes, 0 if there is none. */
  function LeapDaysOf(x: Long): (n: int)
    ensures n == 0 <==> LeapMonthOf(x) == 0
    ensures n != 0 ==> n == if Bit(x, 16) then 30 else 29
  {
    if LeapMonthOf(x) != 0 then
      if x & 0x10000 != 0 then 30 else 29
    else
      0
  }

  /** The Kotlin `Int` mask `0x10000 shr m`; `shr` uses only the low five bits of its
      count, which is m % 32 for every m. The mask is a single bit for counts 0..16 and
      zero from 17 on. */
  function MonthMask(m: int): (r: bv32)
    ensures m % 32 <= 16 <==> r != 0
    ensures m % 32 <= 16 ==> r & (r - 1) == 0
  {
    0x10000 >> (m % 32)
  }

  /** The length of regular month m an entry describes. */
  function MonthDaysOf(x: Long, m: int): (n: int)
    ensures n == 29 || n == 30
  {
    if x & (MonthMask(m) as Long) != 0 then 30 else 29
  }

  /** The masks of months 1..4 are 0x8000 down to 0x1000, each half the one before. */
  lemma MonthMaskStepsEarly(m: int)
    requires 1 <= m <= 4
    ensures MonthMask(m) > 0x8 && MonthMask(m) >> 1 == MonthMask(m + 1)
  {
    if m == 1 {} else if m == 2 {} else if m == 3 {} else {}
  }

  /** The masks of months 5..8 are 0x800 down to 0x100, each half the one before. */
  lemma MonthMaskStepsMiddle(m: int)
    requires 5 <= m <= 8
    ensures MonthMask(m) > 0x8 && MonthMask(m) >> 1 == MonthMask(m + 1)
  {
    if m == 5 {} else if m == 6 {} else if m == 7 {} else {}
  }

  /** The masks of months 9..12 are 0x80 down to 0x10, each half the one before; the
      next one, 0x8, is where yearDays stops. */
  lemma MonthMaskStepsLate(m: int)
    requires 9 <= m <= 12
    ensures MonthMask(m) > 0x8 && MonthMask(m) >> 1 == MonthMask(m + 1)
    ensures MonthMask(13) == 0x8
  {
    if m == 9 {} else if m == 10 {} else if m == 11 {} else {}
  }

  /** The masks of months 1..12 are 0x8000 down to 0x10, each half the one before. */
  lemma MonthMaskSteps(m: int)
    requires 1 <= m <= 12
    ensures MonthMask(m) > 0x8 && MonthMask(m) >> 1 == MonthMask(m + 1)
  {
    if m <= 4 {
      MonthMaskStepsEarly(m);
    } else if m <= 8 {
      MonthMaskStepsMiddle(m);
    } else {
      MonthMaskStepsLate(m);
    }
  }

  /** For months 1..4 the mask selects bit 16 - m. */
  lemma MonthMaskSelectsBitEarly(x: Long, m: int)
    requires 1 <= m <= 4
    ensures x & (MonthMask(m) as Long) != 0 <==> Bit(x, 16 - m)
  {
    if m == 1 {} else if m == 2 {} else if m == 3 {} else {}
  }

  /** For months 5..8 the mask selects bit 16 - m. */
  lemma MonthMaskSelectsBitMiddle(x: Long, m: int)
    requires 5 <= m <= 8
    ensures x & (MonthMask(m) as Long) != 0 <==> Bit(x, 16 - m)
  {
    if m == 5 {} else if m == 6 {} else if m == 7 {} else {}
  }

  /** For months 9..12 the mask selects bit 16 - m. */
  lemma MonthMaskSelectsBitLate(x: Long, m: int)
    requires 9 <= m <= 12
    ensures x & (MonthMask(m) as Long) != 0 <==> Bit(x, 16 - m)
  {
    if m == 9 {} else if m == 10 {} else if m == 11 {} else {}
  }

  /** monthDays reads bit 16 - m of the entry: bit 15 for month 1 down to bit 4 for
      month 12, and a set bit means 30 days. */
  lemma MonthDaysReadsMonthBit(x: Long, m: int)
    requires 1 <= m <= 12
    ensures MonthDaysOf(x, m) == 30 <==> Bit(x, 16 - m)
  {
    if m <= 4 {
      MonthMaskSelectsBitEarly(x, m);
    } else if m <= 8 {
      MonthMaskSelectsBitMiddle(x, m);
    } else {
      MonthMaskSelectsBitLate(x, m);
    }
  }

  // ---------------------------------------------------------------------------------
  // Lengths of a year

  /** Total length of the regular months 1..i-1 an entry describes. */
  function MonthsBefore(x: Long, i: int): (s: int)
    requires 1 <= i <= 13
    ensures 29 * (i - 1) <= s <= 30 * (i - 1)
    decreases i
  {
    if i == 1 then 0 else MonthsBefore(x, i - 1) + MonthDaysOf(x, i - 1)
  }

  /** The length of the year an entry describes: its twelve regular months and its leap
      month. */
  function YearLengthOf(x: Long): (n: int)
    ensures LeapMonthOf(x) == 0 ==> 348 <= n <= 360
    ensures LeapMonthOf(x) != 0 ==> 377 <= n <= 390
  {
    MonthsBefore(x, 13) + LeapDaysOf(x)
  }

  /** The regular months before month i are 29 days each plus one day for every set bit
      among the month bits 15 down to 17 - i. */
  lemma {:induction false} MonthsBeforeCountsLongMonths(x: Long, i: int)
    requires 1 <= i <= 13
    ensures MonthsBefore(x, i) == 29 * (i - 1) + SetBitCount(x, 17 - i, 16)
    decreases i
  {
    if i > 1 {
      MonthsBeforeCountsLongMonths(x, i - 1);
      MonthDaysReadsMonthBit(x, i - 1);
    }
  }

  /** The closed form of a year's length: 348 plus the number of set month bits 4..15
      plus the leap month's length. */
  lemma YearLengthCountsLongMonths(x: Long)
    ensures YearLengthOf(x) == 348 + SetBitCount(x, 4, 16) + LeapDaysOf(x)
  {
    MonthsBeforeCountsLongMonths(x, 13);
  }

  /** The number of set bits of x selected by mask, mask >> 1, ... down to (but not
      including) 0x8: the months yearDays counts as 30 days long. */
  function LongMonthsFrom(x: Long, mask: bv32): (n: nat)
    decreases mask
  {
    if mask <= 0x8 then 0
    else (if x & (mask as Long) != 0 then 1 else 0) + LongMonthsFrom(x, mask >> 1)
  }

  /** One month further along the mask: month m adds one day iff it has 30 days. */
  lemma LongMonthsStep(x: Long, m: int)
    requires 1 <= m <= 12
    ensures LongMonthsFrom(x, MonthMask(m)) == MonthDaysOf(x, m) - 29 + LongMonthsFrom(x, MonthMask(m + 1))
  {
    MonthMaskSteps(m);
  }

  /** Counting from month m's mask finds the extra days of months m..12. */
  lemma {:induction false} LongMonthsFromMonth(x: Long, m: int, last: int)
    requires 1 <= m <= 13 && last == 13
    ensures LongMonthsFrom(x, MonthMask(m)) + MonthsBefore(x, m) + 29 * (13 - m) == MonthsBefore(x, last)
    decreases 13 - m
  {
    if m == 13 {
      MonthMaskStepsLate(12);
    } else {
      LongMonthsStep(x, m);
      LongMonthsFromMonth(x, m + 1, last);
    }
  }

  /** The mask walk of yearDays, started at 0x8000, adds up the twelve regular months. */
  lemma LongMonthsAddUp(x: Long)
    ensures 348 + LongMonthsFrom(x, 0x8000) + LeapDaysOf(x) == YearLengthOf(x)
  {
    MonthMaskStepsEarly(1);
    LongMonthsFromMonth(x, 1, 13);
  }

  // ---------------------------------------------------------------------------------
  // Shape of the table

  /** What every entry of the table satisfies: nothing above bit 16, no leap month past
      the tenth, and the leap-size bit only in leap years. */
  predicate WellFormedEntry(x: Long) {
    x >> 17 == 0 && x & 0xf <= 10 && (x & 0x10000 != 0 ==> x & 0xf != 0)
  }

  /** Every entry of s at indices lo..hi-1 is well formed. */
  predicate WellFormedRange(s: seq<Long>, lo: nat, hi: nat)
    requires hi <= |s|
    decreases hi - lo
  {
    lo >= hi || (WellFormedEntry(s[lo]) && WellFormedRange(s, lo + 1, hi))
  }

  /** WellFormedRange(s, lo, hi) covers every index j in lo..hi-1. */
  lemma {:induction false} WellFormedRangeCovers(s: seq<Long>, lo: nat, hi: nat, j: nat)
    requires hi <= |s| && WellFormedRange(s, lo, hi) && lo <= j < hi
    ensures WellFormedEntry(s[j])
    decreases j - lo
  {
    if lo < j {
      WellFormedRangeCovers(s, lo + 1, hi, j);
    }
  }

  /** The entries from 2025 on, checked five at a time. */
  lemma TableWellFormedFrom125()
    ensures WellFormedRange(LunarInfo, 125, 150)
  {
    assert WellFormedRange(LunarInfo, 145, 150);
    assert WellFormedRange(LunarInfo, 140, 150);
    assert WellFormedRange(LunarInfo, 135, 150);
    assert WellFormedRange(LunarInfo, 130, 150);
  }

  /** The entries from 2000 on. */
  lemma TableWellFormedFrom100()
    ensures WellFormedRange(LunarInfo, 100, 150)
  {
    TableWellFormedFrom125();
    assert WellFormedRange(LunarInfo, 120, 150);
    assert WellFormedRange(LunarInfo, 115, 150);
    assert WellFormedRange(LunarInfo, 110, 150);
    assert WellFormedRange(LunarInfo, 105, 150);
  }

  /** The entries from 1975 on. */
  lemma TableWellFormedFrom75()
    ensures WellFormedRange(LunarInfo, 75, 150)
  {
    TableWellFormedFrom100();
    assert WellFormedRange(LunarInfo, 95, 150);
    assert WellFormedRange(LunarInfo, 90, 150);
    assert WellFormedRange(LunarInfo, 85, 150);
    assert WellFormedRange(LunarInfo, 80, 150);
  }

  /** The entries from 1950 on. */
  lemma TableWellFormedFrom50()
    ensures WellFormedRange(LunarInfo, 50, 150)
  {
    TableWellFormedFrom75();
    assert WellFormedRange(LunarInfo, 70, 150);
    assert WellFormedRange(LunarInfo, 65, 150);
    assert WellFormedRange(LunarInfo, 60, 150);
    assert WellFormedRange(LunarInfo, 55, 150);
  }

  /** The entries from 1925 on. */
  lemma TableWellFormedFrom25()
    ensures WellFormedRange(LunarInfo, 25, 150)
  {
    TableWellFormedFrom50();
    assert WellFormedRange(LunarInfo, 45, 150);
    assert WellFormedRange(LunarInfo, 40, 150);
    assert WellFormedRange(LunarInfo, 35, 150);
    assert WellFormedRange(LunarInfo, 30, 150);
  }

  /** The entries from 1900 on. */
  lemma TableWellFormedFrom0()
    ensures WellFormedRange(LunarInfo, 0, 150)
  {
    TableWellFormedFrom25();
    assert WellFormedRange(LunarInfo, 20, 150);
    assert WellFormedRange(LunarInfo, 15, 150);
    assert WellFormedRange(LunarInfo, 10, 150);
    assert WellFormedRange(LunarInfo, 5, 150);
  }

  /** Every entry of the table is well formed. */
  lemma TableWellFormed()
    ensures forall k :: 0 <= k < |LunarInfo| ==> WellFormedEntry(LunarInfo[k])
  {
    TableWellFormedFrom0();
    forall k | 0 <= k < |LunarInfo|
      ensures WellFormedEntry(LunarInfo[k])
    {
      WellFormedRangeCovers(LunarInfo, 0, 150, k);
    }
  }

  // ---------------------------------------------------------------------------------
  // The converter's helpers, which index the table

  /* The helpers take the table as a parameter `info`, so that what is proved about the
     converter holds for any table of packed entries; the converter passes `LunarInfo`. */

  /** `lunarInfo[y - 1900]` does not throw. */
  predicate InTable<T>(info: seq<T>, y: int) {
    0 <= y - FirstYear < |info|
  }

  /** leapMonth: the leap month of year y, 0 if it has none. */
  function LeapMonth(info: seq<Long>, y: int): (l: int)
    requires InTable(info, y)
    ensures 0 <= l < 16
  {
    LeapMonthOf(info[y - FirstYear])
  }

  /** leapDays: the length of the leap month of year y, 0 if it has none. */
  function LeapDays(info: seq<Long>, y: int): (n: int)
    requires InTable(info, y)
    ensures n == 0 <==> LeapMonth(info, y) == 0
    ensures n != 0 ==> n == 29 || n == 30
  {
    LeapDaysOf(info[y - FirstYear])
  }

  /** monthDays: the length of regular month m of year y. */
  function MonthDays(info: seq<Long>, y: int, m: int): (n: int)
    requires InTable(info, y)
    ensures n == 29 || n == 30
  {
    MonthDaysOf(info[y - FirstYear], m)
  }

  /** The length of lunar year y. */
  function YearLength(info: seq<Long>, y: int): (n: int)
    requires InTable(info, y)
    ensures LeapMonth(info, y) == 0 ==> 348 <= n <= 360
    ensures LeapMonth(info, y) != 0 ==> 377 <= n <= 390
  {
    YearLengthOf(info[y - FirstYear])
  }

  /** yearDays: walks the mask 0x8000 down to 0x10, adding a day for every 30-day month,
      then adds the leap month. */
  method YearDays(info: seq<Long>, y: int) returns (days: int)
    requires InTable(info, y)
    ensures days == YearLength(info, y)
  {
    var sum := 348;
    var mask: bv32 := 0x8000;
    while mask > 0x8
      invariant sum + LongMonthsFrom(info[y - FirstYear], mask)
             == 348 + LongMonthsFrom(info[y - FirstYear], 0x8000)
      decreases mask
    {
      sum := sum + if info[y - FirstYear] & (mask as Long) != 0 then 1 else 0;
      mask := mask >> 1;
    }
    LongMonthsAddUp(info[y - FirstYear]);
    days := sum + LeapDays(info, y);
  }
}
