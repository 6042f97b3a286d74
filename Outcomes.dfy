/** The result of a lookup into one of the converters' constant arrays: either a value,
    or the ArrayIndexOutOfBoundsException the JVM raises, with the array and the index. */
module Outcomes {

  /** The constant arrays of the two converters. */
  datatype ArrayName =
    | LunarInfoArray
    | ChineseMonthArray
    | ChineseDayArray
    | ZodiacEdgeDayArray
    | ZodiacArray

  datatype Outcome<+T> = Ok(value: T) | IndexOutOfBounds(arrayName: ArrayName, index: int)
}
