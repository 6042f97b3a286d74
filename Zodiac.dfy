/** getZodiac: the western sun sign of a calendar date, from a 0-based month (January is
    0, as java.util.Calendar counts) and a day of the month, by one threshold per month.

    The code is modelled as written: a sign starting in month m is only named from the
    next month's threshold on, one sign late. `IntendedZodiac` is the lookup with the
    threshold's two sides moved one sign on, and `InSign` says which sign a date lies
    in, sign by sign, independently of either lookup. */
module Zodiac {
  import opened Outcomes

  /** The twelve signs in zodiac order, from Capricorn. */
  const ZodiacNames: seq<string> := [
    "摩羯座", "水瓶座", "双鱼座", "白羊座", "金牛座", "双子座",
    "巨蟹座", "狮子座", "处女座", "天秤座", "天蝎座", "射手座"
  ]

  /** For each month, the first day of the sign that begins in it. */
  const EdgeDays: seq<int> := [20, 19, 21, 21, 21, 22, 23, 23, 23, 23, 22, 22]

  /** The sign of day `day` of month `month`, as getZodiac computes it: the sign at the
      month's own index from the edge day on, the one before it (index month + 11,
      modulo 12) before the edge day. A month outside 0..11 fails on the first lookup,
      zodiacEdgeDay[month]. */
  function GetZodiac(month: int, day: int): (r: Outcome<string>)
    ensures r.Ok? <==> 0 <= month < 12
    ensures r.Ok? ==> r.value in ZodiacNames
    ensures !r.Ok? ==> r == IndexOutOfBounds(ZodiacEdgeDayArray, month)
  {
    if !(0 <= month < |EdgeDays|) then IndexOutOfBounds(ZodiacEdgeDayArray, month)
    else if day < EdgeDays[month] then Ok(ZodiacNames[(month + 11) % 12])
    else Ok(ZodiacNames[month])
  }

  /** The first two characters of a name, as one number: comparing these keys lets the
      solver tell the names apart without comparing whole strings. */
  function NameKey(name: string): int {
    if |name| < 2 then 0 else name[0] as int * 0x1_0000 + name[1] as int
  }

  /** The names differ in their first two characters. */
  lemma NameKeysDistinct()
    ensures forall i, j :: 0 <= i < 12 && 0 <= j < 12 && i != j ==> NameKey(ZodiacNames[i]) != NameKey(ZodiacNames[j])
  {
  }

  /** No two signs have the same name. */
  lemma ZodiacNamesDistinct()
    ensures forall i, j :: 0 <= i < 12 && 0 <= j < 12 && i != j ==> ZodiacNames[i] != ZodiacNames[j]
  {
    NameKeysDistinct();
  }

  // ---------------------------------------------------------------------------------
  // getZodiac as written

  /** Within a month the name changes once, at the edge day: from that day on it is the
      month's own sign, before it the previous one, and the two differ. */
  lemma ZodiacThreshold(month: int, day: int)
    requires 0 <= month < 12
    ensures GetZodiac(month, day) == Ok(ZodiacNames[month]) <==> day >= EdgeDays[month]
    ensures GetZodiac(month, day) == Ok(ZodiacNames[(month + 11) % 12]) <==> day < EdgeDays[month]
  {
    ZodiacNamesDistinct();
  }

  /** Later days of a month never go back to the earlier name. */
  lemma ZodiacMonotone(month: int, day1: int, day2: int)
    requires 0 <= month < 12 && day1 <= day2
    requires GetZodiac(month, day1) == Ok(ZodiacNames[month])
    ensures GetZodiac(month, day2) == Ok(ZodiacNames[month])
  {
    ZodiacThreshold(month, day1);
  }

  /** Each month gives exactly two names: every day gets one of the two, the first of
      the month the earlier one and the 31st the later one. */
  lemma TwoSignsPerMonth(month: int, day: int)
    requires 0 <= month < 12
    ensures GetZodiac(month, day) == Ok(ZodiacNames[(month + 11) % 12]) || GetZodiac(month, day) == Ok(ZodiacNames[month])
    ensures GetZodiac(month, 1) == Ok(ZodiacNames[(month + 11) % 12])
    ensures GetZodiac(month, 31) == Ok(ZodiacNames[month])
    ensures ZodiacNames[(month + 11) % 12] != ZodiacNames[month]
  {
    ZodiacNamesDistinct();
  }

  /** The name after the edge of month m carries on before the edge of the next month,
      December to January included. */
  lemma ZodiacContinuity(month: int, day1: int, day2: int)
    requires 0 <= month < 12
    requires day1 >= EdgeDays[month] && day2 < EdgeDays[(month + 1) % 12]
    ensures GetZodiac(month, day1) == GetZodiac((month + 1) % 12, day2)
  {
    var next := (month + 1) % 12;
    assert (next + 11) % 12 == month;
    assert GetZodiac(next, day2) == Ok(ZodiacNames[month]);
  }

  /** The names from the edge day on are a different sign for every month. */
  lemma LateSignsDistinct(month1: int, month2: int, day1: int, day2: int)
    requires 0 <= month1 < 12 && 0 <= month2 < 12 && month1 != month2
    requires day1 >= EdgeDays[month1] && day2 >= EdgeDays[month2]
    ensures GetZodiac(month1, day1) != GetZodiac(month2, day2)
  {
    ZodiacNamesDistinct();
  }

  /** January 19th is named 射手座 and January 20th 摩羯座. */
  lemma JanuaryEdge()
    ensures GetZodiac(0, 19) == Ok("射手座")
    ensures GetZodiac(0, 20) == Ok("摩羯座")
  {
  }

  // ---------------------------------------------------------------------------------
  // Signs by their dates

  /** The month in which sign k begins: Capricorn (k = 0) in December, each later sign a
      month later. */
  function StartMonth(k: int): (m: int)
    requires 0 <= k < 12
    ensures 0 <= m < 12 && (m + 1) % 12 == k
  {
    (k + 11) % 12
  }

  /** Day `day` of month `month` lies in sign k: the sign begins on the edge day of its
      start month and lasts until the day before the edge day of the next month. So a
      date of month m can only lie in sign m or sign m + 1 (modulo 12). */
  predicate InSign(k: int, month: int, day: int)
    ensures InSign(k, month, day) ==> 0 <= month < 12 && (k == month || k == (month + 1) % 12)
  {
    && 0 <= k < 12 && 0 <= month < 12
    && ((month == StartMonth(k) && day >= EdgeDays[month])
        || (month == (StartMonth(k) + 1) % 12 && day < EdgeDays[month]))
  }

  /** Every date lies in exactly one sign. */
  lemma InSignUnique(month: int, day: int)
    requires 0 <= month < 12
    ensures InSign((month + 1) % 12, month, day) <==> day >= EdgeDays[month]
    ensures InSign(month, month, day) <==> day < EdgeDays[month]
    ensures forall k :: InSign(k, month, day) ==> k == month || k == (month + 1) % 12
  {
  }

  /** getZodiac names the sign before the one the date lies in. */
  lemma ZodiacOneBehind(month: int, day: int, k: int)
    requires InSign(k, month, day)
    ensures GetZodiac(month, day) == Ok(ZodiacNames[(k + 11) % 12])
  {
  }

  /** So getZodiac never names the sign a date lies in. */
  lemma ZodiacNeverInSign(month: int, day: int, k: int)
    requires 0 <= k < 12 && GetZodiac(month, day) == Ok(ZodiacNames[k])
    ensures !InSign(k, month, day)
  {
    ZodiacNamesDistinct();
    if InSign(k, month, day) {
      ZodiacOneBehind(month, day, k);
      assert false;
    }
  }

  /** January 25th lies in 水瓶座, and getZodiac calls it 摩羯座. */
  lemma JanuaryLate()
    ensures InSign(1, 0, 25) && ZodiacNames[1] == "水瓶座"
    ensures GetZodiac(0, 25) == Ok("摩羯座")
  {
  }

  // ---------------------------------------------------------------------------------
  // The lookup as intended

  /** The sign lookup with the names moved one sign on: the sign that begins in the
      month from its edge day on, the one that began the month before until then. */
  function IntendedZodiac(month: int, day: int): (r: Outcome<string>)
    ensures r.Ok? <==> 0 <= month < 12
    ensures !r.Ok? ==> r == GetZodiac(month, day)
  {
    if !(0 <= month < |EdgeDays|) then IndexOutOfBounds(ZodiacEdgeDayArray, month)
    else if day < EdgeDays[month] then Ok(ZodiacNames[month])
    else Ok(ZodiacNames[(month + 1) % 12])
  }

  /** The intended lookup names exactly the sign the date lies in. */
  lemma IntendedZodiacInSign(month: int, day: int, k: int)
    requires 0 <= month < 12 && 0 <= k < 12
    ensures IntendedZodiac(month, day) == Ok(ZodiacNames[k]) <==> InSign(k, month, day)
  {
    ZodiacNamesDistinct();
    InSignUnique(month, day);
  }

  /** January 25th is 水瓶座 under the intended lookup. */
  lemma IntendedJanuaryLate()
    ensures IntendedZodiac(0, 25) == Ok("水瓶座")
  {
  }
}
