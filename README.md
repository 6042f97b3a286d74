# Lunar date and sun sign converters, modelled in Dafny

This project models the two date converters of an Android calendar app:

- `LunarCalendar.getLunarDate` turns a date into the name of a Chinese lunar month and day, such as "正月初一". It does so with a table of 150 packed `Long` entries, one per lunar year from 1900 to 2049.
- `Zodiac.getZodiac` gives the western sun sign of a date.

The modules are:

- `Outcomes`: the result of a lookup into a constant array. It is either a value or the `ArrayIndexOutOfBoundsException` that the JVM raises, recorded with the array and the index.
- `LunarTable`: the three constant tables of `LunarCalendar.kt`.
  - It decodes one entry: `leapMonth`, `leapDays`, `monthDays`, and `yearDays` (a method with the source's mask loop).
  - It proves that every entry of the table is well formed.
- `Spans`: days laid out in consecutive spans of given lengths. Both walks of `getLunarDate` work on such spans.
- `LunarCalendar`: `getLunarDate` as the method `GetLunarDate`, with the year loop and the month loop of the source.
  - Its result is tied to `DateLabel`, a loop-free statement of what it returns for day `d` after 1900-01-31.
  - `DateLabel` finds the year that holds the day, then the position the month walk reaches in that year.
  - The statement holds for any table `info` of packed entries. The converter's own table is `LunarInfo`.
- `LunarFacts`: what the month walk does to the days of a year, and so to whole dates. This includes where the walk fails.
- `IntendedWalk`: the month walk in calendar order, which the code evidently intends (see Findings).
- `Zodiac`: `getZodiac`, the threshold rule and its properties. It also holds an independent statement of which sign a date lies in, and the lookup with the names in their intended place.

The lunar conversion is modelled as the code computes it. The model does not claim that the table or the walk agrees with the astronomical Chinese calendar.

Three facts about the code shape the model:

- The table has 150 entries, for the lunar years 1900-2049, but the year loop runs up to 2100.
  - On lunar new year 2050 itself the year loop ends with nothing left over. The read of `lunarInfo[150]` then comes from `leapMonth(2050)` (line 60).
  - On every later day the loop calls `yearDays(2050)` (line 50), which reads `lunarInfo[150]`.
  - Either way the conversion fails on `lunarInfo` at index 150. `TableErrorsExactly` and `DateLabelPastEnd` state this, and `WalkYears` gives the loop's share of it.
- `chineseDay` is never read out of range for a day of the table. `chineseMonth` is read out of range only at index 12, and that happens in every year with a leap month (see Findings). `DateLabelBounds` states both.
- The table's bits bound a year to 348..360 days without a leap month and to 377..390 with one. `YearLength` states these bounds.

## Model

| member | source | states |
|---|---|---|
| LunarTable.LeapMonthReadsLowBits | app/src/main/java/com/example/calendar/data/LunarCalendar.kt:105-107 | leapMonth is the low four bits of the entry, 0..15 |
| LunarTable.LeapMonth | app/src/main/java/com/example/calendar/data/LunarCalendar.kt:105-107 | leapMonth of a year of the table is in 0..15 |
| LunarTable.LeapDays | app/src/main/java/com/example/calendar/data/LunarCalendar.kt:98-103 | leapDays is 0 exactly when leapMonth is 0, and otherwise 29 or 30 |
| LunarTable.MonthDays | app/src/main/java/com/example/calendar/data/LunarCalendar.kt:109-111 | monthDays is always 29 or 30 |
| LunarTable.MonthDaysReadsMonthBit | app/src/main/java/com/example/calendar/data/LunarCalendar.kt:109-111 | for month m in 1..12, monthDays is 30 exactly when bit 16 - m of the entry is set |
| LunarTable.MonthMask | app/src/main/java/com/example/calendar/data/LunarCalendar.kt:109-111 | `0x10000 shr m` uses the count modulo 32: the mask is a single bit for counts 0..16 and zero from 17 on |
| LunarTable.MonthDaysOf | app/src/main/java/com/example/calendar/data/LunarCalendar.kt:109-111 | the month length an entry gives is 29 or 30 for any month index, one outside 1..12 included |
| LunarTable.YearLengthCountsLongMonths | app/src/main/java/com/example/calendar/data/LunarCalendar.kt:88-96 | a year has 348 days, plus one per set bit among bits 4..15, plus leapDays |
| LunarTable.YearLength | app/src/main/java/com/example/calendar/data/LunarCalendar.kt:88-96 | a year without a leap month has 348..360 days; a year with one has 377..390 |
| LunarTable.YearDays | app/src/main/java/com/example/calendar/data/LunarCalendar.kt:88-96 | the mask loop from 0x8000 down to 0x10 returns the year's length |
| LunarTable.TableWellFormed | app/src/main/java/com/example/calendar/data/LunarCalendar.kt:7-27 | each of the 150 entries fits in 17 bits, has a leap month of at most 10, and sets bit 16 only when it has a leap month |
| LunarCalendar.ShapeLengthOf | app/src/main/java/com/example/calendar/data/LunarCalendar.kt:88-111 | the decoded months and leap month of an entry add up to yearDays |
| LunarCalendar.TableYearLength | app/src/main/java/com/example/calendar/data/LunarCalendar.kt:88-96 | yearDays(y) is the length of the year of entry y - 1900 |
| LunarCalendar.TableLeapMonth | app/src/main/java/com/example/calendar/data/LunarCalendar.kt:98-107 | leapMonth(y) and leapDays(y) are the leap month and its length in that year's decoding |
| LunarCalendar.TableMonthDays | app/src/main/java/com/example/calendar/data/LunarCalendar.kt:109-111 | monthDays(y, m) is the length of month m in that year's decoding |
| LunarCalendar.MonthPositionIn | app/src/main/java/com/example/calendar/data/LunarCalendar.kt:63-80 | a day inside walk span m stops the month loop at index m, and the fix-ups leave the position PositionAt gives |
| LunarCalendar.MonthPosition | app/src/main/java/com/example/calendar/data/LunarCalendar.kt:63-80 | a day within the twelve walk spans ends at a month in 1..12 and a day index in 0..29; a later day ends at month 13 with its days past the twelfth span as the day index, except the first of them when L = 12, which goes back to month 12 |
| LunarCalendar.YearStep | app/src/main/java/com/example/calendar/data/LunarCalendar.kt:49-53 | one turn of the year loop subtracts the current year and moves the offset to the next lunar new year |
| LunarCalendar.YearLoopDone | app/src/main/java/com/example/calendar/data/LunarCalendar.kt:49-58 | after the loop and the undo step, the year is 1899 for a day before the epoch, 1900 + the table's length for a day past its end, and otherwise the year that holds the day, with the offset being the day within it |
| LunarCalendar.DateLabelPastEnd | app/src/main/java/com/example/calendar/data/LunarCalendar.kt:49-60 | from the end of the table on, the result is a failed read of lunarInfo just past its end: from yearDays in the year loop, or from leapMonth on the new-year day that ends the table |
| LunarCalendar.FoundYearOutside | app/src/main/java/com/example/calendar/data/LunarCalendar.kt:58-60 | a year found outside the table makes leapMonth fail at that year's index |
| LunarCalendar.FoundYearInside | app/src/main/java/com/example/calendar/data/LunarCalendar.kt:58-85 | for a year found inside the table, the result is the name of the month walk's position for the offset |
| LunarCalendar.DateLabelIn | app/src/main/java/com/example/calendar/data/LunarCalendar.kt:40-85 | a day in year k gets the name of its position within year k |
| LunarCalendar.MonthStep | app/src/main/java/com/example/calendar/data/LunarCalendar.kt:63-70 | one turn of the month loop subtracts the leap month's length at index L + 1 and month i's length otherwise; the leap flag is up exactly at index L + 1 |
| LunarCalendar.MonthLoopDone | app/src/main/java/com/example/calendar/data/LunarCalendar.kt:72-80 | the two fix-ups after the month loop leave (i, offset) at the walk's position for the day |
| LunarCalendar.WalkYears | app/src/main/java/com/example/calendar/data/LunarCalendar.kt:46-58 | a failure of the year loop is a read just past the table, for a day from the table's end on; otherwise it finds the year and offset FoundYear describes |
| LunarCalendar.WalkMonths | app/src/main/java/com/example/calendar/data/LunarCalendar.kt:60-80 | the month loop and its fix-ups reach MonthPosition of the offset in the year's shape |
| LunarCalendar.GetLunarDate | app/src/main/java/com/example/calendar/data/LunarCalendar.kt:40-86 | the result for day d after 1900-01-31 is DateLabel: a lunarInfo failure before the epoch and past the table, otherwise the lookup of the walk's position |
| LunarCalendar.DateLabel | app/src/main/java/com/example/calendar/data/LunarCalendar.kt:40-85 | the result of getLunarDate for day d: a lunarInfo failure exactly for days before the epoch and from the table's end on; inside the table any failure is a chineseMonth or chineseDay lookup |
| LunarFacts.WalkedCountsMonths | app/src/main/java/com/example/calendar/data/LunarCalendar.kt:63-70 | the walk to index i covers the regular months before i, except that past index L + 1 the leap month has stood in for month L + 1 |
| LunarFacts.WalkTail | app/src/main/java/com/example/calendar/data/LunarCalendar.kt:63-70 | the twelve turns of the month loop fall TailDays short of the whole year: by none without a leap month, and by month L + 1 otherwise (or by the leap month itself when L ≥ 12) |
| LunarCalendar.PositionAt | app/src/main/java/com/example/calendar/data/LunarCalendar.kt:63-80 | a day in walk span m is placed in month m, except the span's first day when the leap flag is up, which goes to month m - 1; its day index is its day within the span, less the extra days the span's length has over regular month m; inside the first twelve spans the month is in 1..12 and the day index in 0..29 |
| LunarFacts.YearLabelBounds | app/src/main/java/com/example/calendar/data/LunarCalendar.kt:63-83 | within a year, the day index stays in 0..29, and the month index reaches 13 exactly for the days past the twelfth walk span (except the first of them when L = 12) |
| LunarFacts.NonLeapYearNamed | app/src/main/java/com/example/calendar/data/LunarCalendar.kt:63-85 | in a year without a leap month every day gets a name |
| LunarFacts.NewYearLabel | app/src/main/java/com/example/calendar/data/LunarCalendar.kt:64-85 | offset 0 of a year is named 正月初一 |
| LunarCalendar.Label | app/src/main/java/com/example/calendar/data/LunarCalendar.kt:82-85 | the two lookups succeed exactly for a month in 1..12 and a day index in 0..29; a bad month index fails first, on chineseMonth at i - 1, and otherwise a bad day index fails on chineseDay at that index |
| LunarFacts.RegularMonthPosition | app/src/main/java/com/example/calendar/data/LunarCalendar.kt:63-80 | up to the leap month, or in a year without one, day j of month m is at month m, day index j |
| LunarFacts.LeapMonthRelabel | app/src/main/java/com/example/calendar/data/LunarCalendar.kt:72-76 | the first day of the leap month L is placed at month L, day index 0 |
| LunarFacts.LeapMonthNameTwice | app/src/main/java/com/example/calendar/data/LunarCalendar.kt:63-80 | the first day of month L and the first day of its leap month are different days at the same position |
| LunarFacts.LeapMonthDays | app/src/main/java/com/example/calendar/data/LunarCalendar.kt:63-80 | day j >= 1 of the leap month L <= 11 is placed in month L + 1, at day index j + (length of regular month L + 1) - (length of the leap month) |
| LunarFacts.AfterLeapMonth | app/src/main/java/com/example/calendar/data/LunarCalendar.kt:63-80 | the first day after the leap month L <= 10, the first of regular month L + 1, is placed on the first of month L + 2 |
| LunarFacts.LaterMonthOwnName | app/src/main/java/com/example/calendar/data/LunarCalendar.kt:63-80 | the first day of a later regular month m (L + 2 <= m <= 12) is placed on day index 29 of month m itself when regular month L + 1 is shorter than month m |
| LunarFacts.LaterMonthNextName | app/src/main/java/com/example/calendar/data/LunarCalendar.kt:63-80 | the first day of a later regular month m (L + 2 <= m <= 11) is placed in month m + 1, at day index (length of month L + 1) - (length of month m), when regular month L + 1 is at least as long as month m |
| LunarFacts.LeapYearTailFails | app/src/main/java/com/example/calendar/data/LunarCalendar.kt:63-82 | with a leap month in 1..11, each of the last TailDays days of the year fails on chineseMonth[12] |
| LunarFacts.DateInYear | app/src/main/java/com/example/calendar/data/LunarCalendar.kt:40-85 | day o of year k, counted from the epoch, gets the name of its position in year k |
| LunarFacts.TableErrorsExactly | app/src/main/java/com/example/calendar/data/LunarCalendar.kt:49-60 | lunarInfo is read out of range exactly for days before the epoch (index -1) and from the table's end on (index = the table's length) |
| LunarFacts.DateLabelBounds | app/src/main/java/com/example/calendar/data/LunarCalendar.kt:82-83 | within the table, chineseDay is never read out of range, and chineseMonth only at index 12 |
| LunarFacts.NewYearDate | app/src/main/java/com/example/calendar/data/LunarCalendar.kt:40-85 | every lunar new year in the table is named 正月初一 |
| LunarFacts.NonLeapYearDates | app/src/main/java/com/example/calendar/data/LunarCalendar.kt:40-85 | every day of a year without a leap month gets a name |
| LunarFacts.LeapYearTailDates | app/src/main/java/com/example/calendar/data/LunarCalendar.kt:40-85 | the last TailDays days of a year with a leap month in 1..11 fail on chineseMonth[12] |
| LunarFacts.AfterLeapMonthDate | app/src/main/java/com/example/calendar/data/LunarCalendar.kt:40-85 | in a year with a leap month L <= 10, the first day of regular month L + 1 is named the first of month L + 2 |
| LunarFacts.WellFormedLeapMonths | app/src/main/java/com/example/calendar/data/LunarCalendar.kt:105-107 | well-formed entries decode to a leap month of at most 10 |
| LunarFacts.TableLeapYearTails | app/src/main/java/com/example/calendar/data/LunarCalendar.kt:7-85 | with the converter's own table, the last TailDays days of every leap year fail on chineseMonth[12] |
| LunarFacts.FirstEntryShape | app/src/main/java/com/example/calendar/data/LunarCalendar.kt:98-111 | 0x04bd8 decodes to a leap eighth month of 29 days and regular months 29,30,29,29,30,29,30,30,30,30,29,30 |
| LunarFacts.FirstYearLength | app/src/main/java/com/example/calendar/data/LunarCalendar.kt:88-96 | that year has 384 days, its leap month starts on its day 236, and the walk leaves the 30 days of month 9 over |
| LunarFacts.FirstYearTail | app/src/main/java/com/example/calendar/data/LunarCalendar.kt:40-85 | day 354 after 1900-01-31 makes the conversion fail on chineseMonth[12] |
| LunarFacts.FirstYearShape | app/src/main/java/com/example/calendar/data/LunarCalendar.kt:7-8 | the table's first year starts at the epoch, has 384 days and decodes to a leap eighth month of 29 days and the listed months |
| LunarFacts.FirstYearLeapMonthDay | app/src/main/java/com/example/calendar/data/LunarCalendar.kt:40-85 | day 237 after the epoch, the second day of the leap eighth month of 1900, is named 九月初三 |
| LunarFacts.FirstYearNinthMonth | app/src/main/java/com/example/calendar/data/LunarCalendar.kt:40-85 | day 265 after the epoch, the first day of the ninth month of 1900, is named 十月初一 |
| IntendedWalk.CalendarDaysBeforeLeap | app/src/main/java/com/example/calendar/data/LunarCalendar.kt:63-70 | up to the leap month, the months in calendar order start where the regular months do |
| IntendedWalk.CalendarDaysAfterLeap | app/src/main/java/com/example/calendar/data/LunarCalendar.kt:63-70 | past the leap month, the months in calendar order start later by the leap month's length |
| IntendedWalk.CalendarLengthsCover | app/src/main/java/com/example/calendar/data/LunarCalendar.kt:88-96 | the months in calendar order, leap month included, fill exactly yearDays |
| IntendedWalk.IntendedPositionIn | app/src/main/java/com/example/calendar/data/LunarCalendar.kt:63-80 | the intended position of a day is read off the one calendar span that holds it |
| IntendedWalk.IntendedPositionAt | app/src/main/java/com/example/calendar/data/LunarCalendar.kt:63-80 | a day within calendar span k lies in the year and gets that span's month |
| IntendedWalk.IntendedYearNamed | app/src/main/java/com/example/calendar/data/LunarCalendar.kt:63-85 | under the intended walk every day of a year is in months 1..12, at a day index in 0..29, and gets a name |
| IntendedWalk.IntendedMonthBeforeLeap | app/src/main/java/com/example/calendar/data/LunarCalendar.kt:63-80 | under the intended walk, day j of a regular month m up to the leap month is month m, day index j |
| IntendedWalk.IntendedMonthAfterLeap | app/src/main/java/com/example/calendar/data/LunarCalendar.kt:63-80 | under the intended walk, day j of a regular month m after the leap month is month m, day index j, with the leap month counted before it |
| IntendedWalk.IntendedLeapMonth | app/src/main/java/com/example/calendar/data/LunarCalendar.kt:63-80 | under the intended walk, day j of the leap month L is month L, day index j |
| IntendedWalk.SpanBeforeLeap | app/src/main/java/com/example/calendar/data/LunarCalendar.kt:63-70 | a day before the leap month lies in the calendar span of a regular month before it |
| IntendedWalk.IntendedAgreesBeforeLeap | app/src/main/java/com/example/calendar/data/LunarCalendar.kt:63-80 | before the leap month, and in every year without one, the code as written and the intended walk give the same position |
| IntendedWalk.IntendedDateLabel | app/src/main/java/com/example/calendar/data/LunarCalendar.kt:40-85 | the conversion with the intended walk succeeds exactly for the days from the epoch to the end of the table |
| IntendedWalk.IntendedDatesNamed | app/src/main/java/com/example/calendar/data/LunarCalendar.kt:40-85 | the intended conversion names every day from the epoch to the table's end, and fails elsewhere exactly as the code does |
| IntendedWalk.TableCalendarShapes | app/src/main/java/com/example/calendar/data/LunarCalendar.kt:7-27 | every year of the converter's table has a leap month among the twelve, so the intended conversion applies to it |
| Zodiac.GetZodiac | app/src/main/java/com/example/calendar/data/Zodiac.kt:16-24 | getZodiac succeeds exactly for months 0..11 and returns one of the twelve names; any other month fails on zodiacEdgeDay at that index |
| Zodiac.ZodiacNamesDistinct | app/src/main/java/com/example/calendar/data/Zodiac.kt:7-10 | the twelve sign names are distinct |
| Zodiac.ZodiacThreshold | app/src/main/java/com/example/calendar/data/Zodiac.kt:20-23 | the month's own sign is returned exactly from the edge day on, and the previous sign exactly before it |
| Zodiac.ZodiacMonotone | app/src/main/java/com/example/calendar/data/Zodiac.kt:20 | once a month has reached its own sign, later days of the month keep it |
| Zodiac.TwoSignsPerMonth | app/src/main/java/com/example/calendar/data/Zodiac.kt:20-23 | every month gives exactly two different names: the previous sign on the 1st and the month's own sign on the 31st |
| Zodiac.ZodiacContinuity | app/src/main/java/com/example/calendar/data/Zodiac.kt:12-23 | the sign after the edge of month m is the sign before the edge of month m + 1, December to January included |
| Zodiac.LateSignsDistinct | app/src/main/java/com/example/calendar/data/Zodiac.kt:7-23 | different months give different signs after their edges |
| Zodiac.JanuaryEdge | app/src/main/java/com/example/calendar/data/Zodiac.kt:12-23 | January 19th is 射手座 and January 20th is 摩羯座 |
| Zodiac.StartMonth | app/src/main/java/com/example/calendar/data/Zodiac.kt:7-14 | sign k begins in month (k + 11) mod 12: Capricorn in December, each later sign a month later |
| Zodiac.InSign | app/src/main/java/com/example/calendar/data/Zodiac.kt:12-14 | a date of month m lies only in sign m or sign m + 1 (modulo 12): the sign that began the month before, until the edge day, and the one that begins on it |
| Zodiac.InSignUnique | app/src/main/java/com/example/calendar/data/Zodiac.kt:12-14 | every date lies in exactly one sign: the one that began this month, from the edge day on, and otherwise the one that began the month before |
| Zodiac.ZodiacOneBehind | app/src/main/java/com/example/calendar/data/Zodiac.kt:20-23 | getZodiac names the sign just before the one the date lies in |
| Zodiac.ZodiacNeverInSign | app/src/main/java/com/example/calendar/data/Zodiac.kt:20-23 | getZodiac never names the sign the date lies in |
| Zodiac.JanuaryLate | app/src/main/java/com/example/calendar/data/Zodiac.kt:20-23 | January 25th lies in 水瓶座, yet getZodiac returns 摩羯座 |
| Zodiac.IntendedZodiac | app/src/main/java/com/example/calendar/data/Zodiac.kt:16-24 | the corrected lookup succeeds exactly for months 0..11 and fails like getZodiac otherwise |
| Zodiac.IntendedZodiacInSign | app/src/main/java/com/example/calendar/data/Zodiac.kt:7-23 | the corrected lookup names sign k exactly when the date lies in sign k |
| Zodiac.IntendedJanuaryLate | app/src/main/java/com/example/calendar/data/Zodiac.kt:7-23 | the corrected lookup calls January 25th 水瓶座 |

## Left out

- Lines 41-45 of `LunarCalendar.kt` are left out.
  - They read the date from a `java.util.Calendar` and compute the whole days since 1900-01-31 through `Date` in milliseconds, in the default time zone.
  - The model takes that day count `d` as its input. Time zones, daylight saving and the truncating division are not modelled.
  - The reads of year, month and day on lines 41-43 are never used.
- Lines 17-18 of `Zodiac.kt` are left out.
  - They read the 0-based month and the day of the month from a `Calendar`. `GetZodiac` takes them as integers.
  - The result depends on nothing else, in particular not on the year.
- The exceptions the JVM raises are modelled as `IndexOutOfBounds` values. Which array and which index are recorded; stack traces and exception types are not.
- GetLunarDate: it takes the table as a parameter and requires a table of at most 200 entries, the years the loop bound of 2100 allows. With a longer table the loop would stop at 2100 inside the table, which the code never meets with its own 150 entries.
- GetLunarDate: it is split into the methods `WalkYears` (lines 46-58) and `WalkMonths` (lines 60-80). The two lookups of lines 82-85 become the function `Label`.
- LunarCalendar.MonthPosition: it describes the month walk for any decoded year, including leap months 12..15. No entry of the table has one of those.
- Kotlin `Int` overflow is not modelled. The offset only moves toward zero, by at most 390 per step, and starts from a 32-bit day count.
- The model proves nothing about agreement with the astronomical Chinese calendar. The table is taken as given.

## Findings

| source | as written | input that shows it | evidently intended | confidence | as-written member | corrected member |
|---|---|---|---|---|---|---|
| app/src/main/java/com/example/calendar/data/LunarCalendar.kt:63-80 | in a year with a leap month L, the month loop subtracts the leap month at index L + 1 and never subtracts regular month L + 1; the first day of the leap month gets month L's first-day name again, its other days get month L + 1's name, the first day of regular month L + 1 is named the first of month L + 2 (the undo at line 78 adds back monthDays(L + 1) where the leap month was subtracted), the first day of each later regular month m <= 11 is named in month m + 1 when month L + 1 is at least as long as month m, and day 三十 of month m itself when month L + 1 is shorter, and the last days of the year reach index 13 and fail on chineseMonth[12] | day 354 after 1900-01-31 (1901-01-20): lunar 1900 has a leap eighth month and 384 days, and the walk covers only 354 of them; day 237 (second day of the leap month) is named 九月初三 and day 265 (first day of the ninth month) 十月初一 | walk months 1..L, then the leap month, then months L + 1..12, so that every day of the year gets a month in 1..12 and a day in 1..30 | not executed | LunarFacts.FirstYearTail | IntendedWalk.IntendedDatesNamed |
| app/src/main/java/com/example/calendar/data/Zodiac.kt:20-23 | zodiacEdgeDay[m] is the day the next sign begins in month m, but the names are read one place early: the month's own slot from the edge day on, and the previous slot before it, so every date gets the sign before its own | month 0, day 25 (January 25th) gives 摩羯座, while that date lies in 水瓶座, the sign that begins on January 20th | the sign at slot (m + 1) mod 12 from the edge day on, and slot m before it | not executed | Zodiac.JanuaryLate | Zodiac.IntendedZodiacInSign |
