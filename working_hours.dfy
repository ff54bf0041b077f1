/**
 * The fixed 09:00-17:00 UTC working window and the "next working instant"
 * snap (App/api/until.py).
 */
module WorkingHours {
  import opened Calendar

  /** `time(9, 0)` and `time(17, 0)` as seconds since midnight. */
  const WorkStart: int := 9 * SecondsPerHour
  const WorkEnd: int := 17 * SecondsPerHour

  /** `is_within_working_hours`: start inclusive, end exclusive. */
  predicate IsWithinWorkingHours(t: Instant) {
    WorkStart <= TimeOfDay(t) < WorkEnd
  }

  /**
   * `get_next_working_time`: before 09:00 it moves to 09:00:00 of the same
   * day, at or after 17:00 to 09:00:00 of the next day, and otherwise it
   * returns the instant itself.
   */
  function NextWorkingTime(t: Instant): (r: Instant)
    ensures t <= r
    ensures IsWithinWorkingHours(r)
    ensures IsWithinWorkingHours(t) ==> r == t
    ensures TimeOfDay(t) < WorkStart ==> Day(r) == Day(t) && TimeOfDay(r) == WorkStart
    ensures WorkEnd <= TimeOfDay(t) ==> Day(r) == Day(t) + 1 && TimeOfDay(r) == WorkStart
  {
    if TimeOfDay(t) < WorkStart then
      DaySplit(Day(t), WorkStart);
      Day(t) * SecondsPerDay + WorkStart
    else if TimeOfDay(t) >= WorkEnd then
      var nextDay := t + SecondsPerDay;
      DaySplit(Day(t) + 1, TimeOfDay(t));
      DaySplit(Day(nextDay), WorkStart);
      Day(nextDay) * SecondsPerDay + WorkStart
    else
      t
  }

  /** The window is half-open: 09:00:00 is inside, 16:59:59 is inside, 17:00:00 is not. */
  lemma WindowBoundaries(d: int)
    ensures IsWithinWorkingHours(d * SecondsPerDay + WorkStart)
    ensures IsWithinWorkingHours(d * SecondsPerDay + WorkEnd - 1)
    ensures !IsWithinWorkingHours(d * SecondsPerDay + WorkEnd)
    ensures !IsWithinWorkingHours(d * SecondsPerDay + WorkStart - 1)
  {
    DaySplit(d, WorkStart);
    DaySplit(d, WorkEnd - 1);
    DaySplit(d, WorkEnd);
    DaySplit(d, WorkStart - 1);
  }

  /** No working instant is skipped: everything in [t, NextWorkingTime(t)) lies outside the window. */
  lemma NextWorkingTimeIsNext(t: Instant, u: Instant)
    requires t <= u < NextWorkingTime(t)
    ensures !IsWithinWorkingHours(u)
  {
    var d := Day(t);
    DaySplit(d, TimeOfDay(t));
    if u < (d + 1) * SecondsPerDay {
      DaySplit(d, u - d * SecondsPerDay);
    } else {
      DaySplit(d + 1, u - (d + 1) * SecondsPerDay);
    }
  }

  /** Snapping twice is snapping once. */
  lemma NextWorkingTimeIdempotent(t: Instant)
    ensures NextWorkingTime(NextWorkingTime(t)) == NextWorkingTime(t)
  {
  }
}
