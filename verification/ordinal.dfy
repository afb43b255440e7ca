/**
  The ordinal suffix used when a week-or-longer report labels days as
  "Mo 3rd". Only the suffix helper is modelled; the rest of the text
  formatting is `strftime` output.
 */
module Ordinal {

  /** `get_ordinal_suffix(day)`. Python's `day % 10` and Dafny's agree for
      every integer because the divisor is positive. */
  function OrdinalSuffix(day: int): (r: string)
    ensures |r| == 2
    ensures r == "th" || r == "st" || r == "nd" || r == "rd"
    ensures 11 <= day <= 13 ==> r == "th"
  {
    if 11 <= day <= 13 then "th"
    else if day % 10 == 1 then "st"
    else if day % 10 == 2 then "nd"
    else if day % 10 == 3 then "rd"
    else "th"
  }

  /** The English ordinal suffixes of the days of a month, 1st to 31st. */
  const MonthDaySuffixes: seq<string> := [
    "st", "nd", "rd", "th", "th", "th", "th", "th", "th", "th",
    "th", "th", "th", "th", "th", "th", "th", "th", "th", "th",
    "st", "nd", "rd", "th", "th", "th", "th", "th", "th", "th",
    "st"]

  /** For every day of a month the helper gives the English suffix. */
  lemma OrdinalSuffixMatchesCalendar(day: int)
    requires 1 <= day <= 31
    ensures OrdinalSuffix(day) == MonthDaySuffixes[day - 1]
  {
  }
}
