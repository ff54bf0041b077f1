/**
 * Shared vocabulary: instants are whole seconds since the Unix epoch, in UTC,
 * and a slot is the {start, end, duration_minutes} record the scheduling code
 * returns to its callers.
 */
module Calendar {

  /** Seconds since 1970-01-01T00:00:00Z. */
  type Instant = int

  const SecondsPerMinute: int := 60
  const SecondsPerHour: int := 3600
  const SecondsPerDay: int := 86400

  /** `timedelta(minutes=m)` in seconds. */
  function Minutes(m: int): int {
    m * SecondsPerMinute
  }

  /** Number of the UTC calendar day holding `t` (floor division). */
  function Day(t: Instant): int {
    t / SecondsPerDay
  }

  /** Seconds since midnight UTC, what `dt.time()` stands for. */
  function TimeOfDay(t: Instant): int {
    t % SecondsPerDay
  }

  function Max(a: int, b: int): int {
    if a >= b then a else b
  }

  /** An instant is its day's midnight plus its time of day, and that split is unique. */
  lemma DaySplit(d: int, s: int)
    requires 0 <= s < SecondsPerDay
    ensures Day(d * SecondsPerDay + s) == d
    ensures TimeOfDay(d * SecondsPerDay + s) == s
  {
  }

  /** A free or requested time window: `end - start` is `durationMinutes` minutes. */
  datatype Slot = Slot(start: Instant, end: Instant, durationMinutes: int)
}
