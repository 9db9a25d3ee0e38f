/** Time as the rules see it. Every instant is an integer count of
    microseconds since 1970-01-01T00:00:00 UTC (the resolution of Python's
    `datetime`); a calendar day is an integer count of days since that date. */
module Clock {

  const MicrosPerDay: int := 86_400_000_000

  /** Python's `(now - since).days`: the number of whole days in the
      difference, rounded toward minus infinity (so it is negative when
      `since` lies in the future). */
  function ElapsedDays(now: int, since: int): (days: int)
    ensures days * MicrosPerDay <= now - since < days * MicrosPerDay + MicrosPerDay
  {
    (now - since) / MicrosPerDay
  }

  /** The instant `strptime(date, "%Y-%m-%d")` yields: midnight starting `day`. */
  function DayStart(day: int): (t: int)
    ensures ElapsedDays(t, 0) == day
    ensures t % MicrosPerDay == 0
  {
    day * MicrosPerDay
  }

  /** Elapsed days are exactly `k` whenever the difference lies in the
      half-open window of `k` whole days. */
  lemma ElapsedDaysExact(now: int, since: int, k: int)
    requires k * MicrosPerDay <= now - since < k * MicrosPerDay + MicrosPerDay
    ensures ElapsedDays(now, since) == k
  {
  }
}
