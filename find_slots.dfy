/**
 * `find_slots` as the loop program it is (App/test/test_find_slots.py:13-67),
 * proved to compute `SlotSpec.FindSlotsSpec`.
 */
module FindSlots {
  import opened Calendar
  import opened SlotSpec

  /**
   * Cuts `durationMinutes`-long slots out of the free time before and
   * between `events` (sorted by start), beginning at `startTime`, and returns
   * as soon as `limit` slots exist.
   */
  method FindSlots(events: seq<Event>, startTime: Instant, durationMinutes: int, limit: int) returns (slots: seq<Slot>)
    ensures slots == FindSlotsSpec(events, startTime, durationMinutes, limit)
  {
    var duration := Minutes(durationMinutes);
    slots := [];
    var lastEnd := startTime;

    if |events| == 0 {
      var count := if limit > 0 then limit else 0;
      for i := 0 to count
        invariant slots == BackToBack(startTime, durationMinutes, i)
        invariant lastEnd == startTime + i * duration
      {
        var slot := SlotAt(lastEnd, durationMinutes);
        slots := slots + [slot];
        lastEnd := slot.end;
      }
      return;
    }

    ghost var opening := Opening(events, startTime, durationMinutes, limit);
    while lastEnd + duration <= events[0].start
      invariant |slots| < limit || slots == []
      invariant Fill(lastEnd, events[0].start, durationMinutes, limit, slots) == opening
      decreases (if durationMinutes > 0 then events[0].start - lastEnd else 0), limit - |slots|
    {
      var slot := SlotAt(lastEnd, durationMinutes);
      slots := slots + [slot];
      if |slots| >= limit {
        StoppedScanIsFinal(opening, events, 0, startTime, durationMinutes, limit);
        return;
      }
      lastEnd := slot.end;
    }

    for i := 0 to |events|
      invariant |slots| < limit || slots == []
      invariant ScanEvents(opening, events[..i], startTime, durationMinutes, limit) == Scan(lastEnd, slots, false)
    {
      assert events[..i + 1][..i] == events[..i];
      var event := events[i];
      if event.end <= startTime {
        continue;
      }
      if lastEnd >= event.start && lastEnd < event.end {
        lastEnd := event.end;
        continue;
      }
      ghost var gap := Fill(lastEnd, event.start, durationMinutes, limit, slots);
      while lastEnd + duration <= event.start
        invariant |slots| < limit || slots == []
        invariant Fill(lastEnd, event.start, durationMinutes, limit, slots) == gap
        decreases (if durationMinutes > 0 then event.start - lastEnd else 0), limit - |slots|
      {
        var slot := SlotAt(lastEnd, durationMinutes);
        slots := slots + [slot];
        if |slots| >= limit {
          StoppedScanIsFinal(opening, events, i + 1, startTime, durationMinutes, limit);
          return;
        }
        lastEnd := slot.end;
      }
      lastEnd := Max(lastEnd, event.end);
    }
    assert events[..|events|] == events;
  }
}
