/** Consecutive spans of days given by their lengths: the walks of the lunar converter
    subtract such lengths one after another until the day they look for falls in one. */
module Spans {

  /** The total of the first k lengths. */
  function DaysBefore(lengths: seq<int>, k: int): (n: int)
    requires 0 <= k <= |lengths|
    ensures AllPositive(lengths) ==> n >= k
    decreases k
  {
    if k == 0 then 0 else DaysBefore(lengths, k - 1) + lengths[k - 1]
  }

  /** Every length is positive. */
  predicate AllPositive(lengths: seq<int>) {
    forall k :: 0 <= k < |lengths| ==> lengths[k] > 0
  }

  /** Between two indices the total grows by at least the first length. */
  lemma {:induction false} DaysBeforeIncreasing(lengths: seq<int>, a: int, b: int)
    requires 0 <= a < b <= |lengths| && AllPositive(lengths)
    ensures DaysBefore(lengths, a) + lengths[a] <= DaysBefore(lengths, b)
    decreases b - a
  {
    if a + 1 < b {
      DaysBeforeIncreasing(lengths, a, b - 1);
    }
  }

  /** Day d lies in the span of index k: after the first k lengths, within the next. */
  predicate InSpan(lengths: seq<int>, d: int, k: int) {
    0 <= k < |lengths| && DaysBefore(lengths, k) <= d < DaysBefore(lengths, k + 1)
  }

  /** A day before the end of span z - 1 lies in one of the spans before z. */
  lemma {:induction false} InSpanBelow(lengths: seq<int>, d: int, z: int)
    requires 0 <= z <= |lengths| && 0 <= d < DaysBefore(lengths, z)
    ensures exists k :: 0 <= k < z && InSpan(lengths, d, k)
    decreases z
  {
    if d < DaysBefore(lengths, z - 1) {
      InSpanBelow(lengths, d, z - 1);
    } else {
      assert InSpan(lengths, d, z - 1);
    }
  }

  /** With positive lengths, no day lies in two spans. */
  lemma InSpanUnique(lengths: seq<int>, d: int, k1: int, k2: int)
    requires AllPositive(lengths) && InSpan(lengths, d, k1) && InSpan(lengths, d, k2)
    ensures k1 == k2
  {
    if k1 < k2 {
      DaysBeforeIncreasing(lengths, k1, k2);
    } else if k2 < k1 {
      DaysBeforeIncreasing(lengths, k2, k1);
    }
  }

  /** With positive lengths, a day in a span lies between 0 and the total. */
  lemma InSpanWithin(lengths: seq<int>, d: int, k: int)
    requires AllPositive(lengths) && InSpan(lengths, d, k)
    ensures 0 <= d < DaysBefore(lengths, |lengths|)
  {
    if k + 1 < |lengths| {
      DaysBeforeIncreasing(lengths, k + 1, |lengths|);
    }
  }
}
