/**
 * Reference definition of the free-slot search `find_slots`
 * (App/test/test_find_slots.py): a forward scan over events sorted by start
 * that keeps a frontier (`last_end_time`) and cuts fixed-length slots out of
 * the gaps before and between events.
 */
module SlotSpec {
  import opened Calendar

  /** The default of `find_slots`'s `limit` parameter. */
  const DefaultLimit: int := 3

  /** A busy event as the search sees it (the module's CalendarEvent record). */
  datatype Event = Event(clientId: string, agentId: string, start: Instant, end: Instant)

  /** `create_event`: an event of the test client and agent lasting `durationMinutes`. */
  function CreateEvent(start: Instant, durationMinutes: int): (e: Event)
    ensures e.start == start && e.end - e.start == Minutes(durationMinutes)
  {
    Event("test_client", "test_agent", start, start + Minutes(durationMinutes))
  }

  /**
   * The state of the scan: the frontier, the slots found so far, and whether
   * the limit has already ended the search.
   */
  datatype Scan = Scan(frontier: Instant, slots: seq<Slot>, stopped: bool)

  /** The slot of `durationMinutes` that begins at `at`. */
  function SlotAt(at: Instant, durationMinutes: int): Slot {
    Slot(at, at + Minutes(durationMinutes), durationMinutes)
  }

  /** The first `n` back-to-back slots from `from`, as built when there are no events. */
  function BackToBack(from: Instant, durationMinutes: int, n: nat): seq<Slot>
    decreases n
  {
    if n == 0 then []
    else
      var before := BackToBack(from, durationMinutes, n - 1);
      before + [SlotAt(from + (n - 1) * Minutes(durationMinutes), durationMinutes)]
  }

  /**
   * One gap-filling loop: while a slot from the frontier still ends by
   * `bound`, emit it; stop the whole search as soon as the slot count reaches
   * `limit` (checked after the append, so a limit below one still lets one
   * slot out).
   */
  function Fill(frontier: Instant, bound: Instant, durationMinutes: int, limit: int, acc: seq<Slot>): Scan
    decreases (if durationMinutes > 0 then bound - frontier else 0), limit - |acc|
  {
    if frontier + Minutes(durationMinutes) <= bound then
      var acc' := acc + [SlotAt(frontier, durationMinutes)];
      if |acc'| >= limit then Scan(frontier, acc', true)
      else Fill(frontier + Minutes(durationMinutes), bound, durationMinutes, limit, acc')
    else
      Scan(frontier, acc, false)
  }

  /**
   * One pass of the `for event in events` loop. The skip test compares the
   * event's end with the original `startTime`, not with the frontier.
   */
  function Step(s: Scan, ev: Event, startTime: Instant, durationMinutes: int, limit: int): Scan {
    if s.stopped || ev.end <= startTime then s
    else if s.frontier >= ev.start && s.frontier < ev.end then s.(frontier := ev.end)
    else
      var g := Fill(s.frontier, ev.start, durationMinutes, limit, s.slots);
      if g.stopped then g else g.(frontier := Max(g.frontier, ev.end))
  }

  /** The scan after the events of `events`, in order, starting from `s0`. */
  function ScanEvents(s0: Scan, events: seq<Event>, startTime: Instant, durationMinutes: int, limit: int): Scan
    decreases |events|
  {
    if events == [] then s0
    else
      var before := ScanEvents(s0, events[..|events| - 1], startTime, durationMinutes, limit);
      Step(before, events[|events| - 1], startTime, durationMinutes, limit)
  }

  /** The scan state once the gap before the first event has been filled. */
  function Opening(events: seq<Event>, startTime: Instant, durationMinutes: int, limit: int): Scan
    requires events != []
  {
    Fill(startTime, events[0].start, durationMinutes, limit, [])
  }

  /** What `find_slots(events, start_time, duration_minutes, limit)` returns. */
  function FindSlotsSpec(events: seq<Event>, startTime: Instant, durationMinutes: int, limit: int): seq<Slot> {
    if events == [] then BackToBack(startTime, durationMinutes, if limit > 0 then limit else 0)
    else ScanEvents(Opening(events, startTime, durationMinutes, limit), events, startTime, durationMinutes, limit).slots
  }

  /** Once the limit has stopped the scan, later events change nothing. */
  lemma {:induction false} StoppedScanIsFinal(s0: Scan, events: seq<Event>, j: nat, startTime: Instant, durationMinutes: int, limit: int)
    requires j <= |events|
    requires ScanEvents(s0, events[..j], startTime, durationMinutes, limit).stopped
    ensures ScanEvents(s0, events, startTime, durationMinutes, limit)
         == ScanEvents(s0, events[..j], startTime, durationMinutes, limit)
    decreases |events| - j
  {
    if j < |events| {
      assert events[..j + 1][..j] == events[..j];
      StoppedScanIsFinal(s0, events, j + 1, startTime, durationMinutes, limit);
    } else {
      assert events[..j] == events;
    }
  }
}
