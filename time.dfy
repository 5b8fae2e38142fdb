/** Whole days over millisecond instants, as `Math.ceil(ms / (1000 * 60 * 60 * 24))`. */
module Time {

  /** 1000 * 60 * 60 * 24 */
  const DayMs: int := 86400000

  /** The number of days in `ms`, partial days rounded up (toward positive infinity,
      so a negative span of less than one day gives 0). */
  function CeilDays(ms: int): (days: int)
    ensures (days - 1) * DayMs < ms <= days * DayMs
  {
    -((-ms) / DayMs)
  }

  /** The two bounds of CeilDays pin the day count down: it is the only such integer. */
  lemma CeilDaysUnique(ms: int, days: int)
    requires (days - 1) * DayMs < ms <= days * DayMs
    ensures CeilDays(ms) == days
  {
  }

  /** A whole number of days is its own ceiling. */
  lemma CeilDaysOfWholeDays(k: int)
    ensures CeilDays(k * DayMs) == k
  {
    CeilDaysUnique(k * DayMs, k);
  }

  /** A later instant never gives fewer days. */
  lemma CeilDaysMonotone(a: int, b: int)
    requires a <= b
    ensures CeilDays(a) <= CeilDays(b)
  {
  }
}
