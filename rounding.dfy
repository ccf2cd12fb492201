/** The elapsed time of a duration record, in the unit the store keeps it:
    minutes rounded to one decimal place. The model keeps it as a whole number
    of tenths of a minute, so `duration_minutes` is `tenths / 10`. */
module Rounding {

  /** Milliseconds in one tenth of a minute. */
  const TenthMillis := 6000

  /** `Math.round(d / 1000 / 60 * 10)` on exact arithmetic: round half up,
      also for negative elapsed times (`Math.round(-2.5)` is -2). */
  function RoundTenths(elapsed: int): (tenths: int)
    ensures TenthMillis * tenths - TenthMillis / 2 <= elapsed < TenthMillis * tenths + TenthMillis / 2
  {
    (elapsed + TenthMillis / 2) / TenthMillis
  }

  /** The rounded value is the only whole number of tenths within half a tenth
      below or under half a tenth above the elapsed time. */
  lemma RoundTenthsUnique(elapsed: int, tenths: int)
    requires TenthMillis * tenths - TenthMillis / 2 <= elapsed < TenthMillis * tenths + TenthMillis / 2
    ensures RoundTenths(elapsed) == tenths
  {
  }

  /** A later end never yields a shorter duration. */
  lemma RoundTenthsMonotonic(a: int, b: int)
    requires a <= b
    ensures RoundTenths(a) <= RoundTenths(b)
  {
  }

  /** An end before the start gives zero or less, an end at or after it zero or more;
      equal instants give exactly zero. */
  lemma RoundTenthsSign(elapsed: int)
    ensures elapsed == 0 ==> RoundTenths(elapsed) == 0
    ensures elapsed >= 0 ==> RoundTenths(elapsed) >= 0
    ensures elapsed <= 0 ==> RoundTenths(elapsed) <= 0
    ensures elapsed < -TenthMillis / 2 ==> RoundTenths(elapsed) < 0
  {
  }

  /** A whole number of tenths is kept exactly. */
  lemma RoundTenthsExact(tenths: int)
    ensures RoundTenths(TenthMillis * tenths) == tenths
  {
  }
}
