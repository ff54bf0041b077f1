/**
 * `check_availability` (App/api/agent_schedule.py:16-101): the requested
 * slot, the three-case conflict filter over the stored events, and the
 * response.
 */
module Availability {
  import opened Wrappers
  import opened Calendar
  import opened CalendarStore

  /** One entry of the response's conflict list: the event's start and end. */
  datatype Conflict = Conflict(start: Instant, end: Option<Instant>)

  /** The three response shapes of the endpoint. */
  datatype Response =
    | Available(slot: Slot)
    | Unavailable(conflicts: seq<Conflict>)
    | InternalError

  /**
   * The query's filter: same client and agent, and the event starts inside
   * the slot, ends inside it, or encloses it. A NULL end makes every
   * comparison with it false, so only the first case can then hold.
   */
  predicate InConflict(e: StoredEvent, clientId: string, agentId: string, start: Instant, end: Instant) {
    && e.clientId == clientId
    && e.agentId == agentId
    && (|| (e.start >= start && e.start < end)
        || (e.end.Some? && e.end.value > start && e.end.value <= end)
        || (e.end.Some? && e.start <= start && e.end.value >= end))
  }

  /** The usual test for two half-open intervals sharing an instant. */
  predicate Overlaps(eventStart: Instant, eventEnd: Instant, start: Instant, end: Instant) {
    eventStart < end && eventEnd > start
  }

  /** For a proper event and a proper slot the three cases are exactly the overlap test. */
  lemma ThreeCasesAreOverlap(e: StoredEvent, clientId: string, agentId: string, start: Instant, end: Instant)
    requires e.end.Some? && e.start < e.end.value && start < end
    ensures InConflict(e, clientId, agentId, start, end)
        <==> e.clientId == clientId && e.agentId == agentId && Overlaps(e.start, e.end.value, start, end)
  {
  }

  /** Touching is not conflicting: an event ending at the slot's start, or starting at its end, is no conflict. */
  lemma TouchingIsNoConflict(e: StoredEvent, clientId: string, agentId: string, start: Instant, end: Instant)
    requires e.end.Some? && e.start < e.end.value && start < end
    requires e.end.value == start || e.start == end
    ensures !InConflict(e, clientId, agentId, start, end)
  {
    ThreeCasesAreOverlap(e, clientId, agentId, start, end);
  }

  /** The rows the query returns, in table order. */
  function Conflicts(rows: seq<StoredEvent>, clientId: string, agentId: string, start: Instant, end: Instant): (r: seq<StoredEvent>)
    ensures forall e :: e in r <==> e in rows && InConflict(e, clientId, agentId, start, end)
    ensures |r| <= |rows|
    decreases |rows|
  {
    if rows == [] then []
    else
      var front := Conflicts(rows[..|rows| - 1], clientId, agentId, start, end);
      var last := rows[|rows| - 1];
      assert rows == rows[..|rows| - 1] + [last];
      if InConflict(last, clientId, agentId, start, end) then front + [last] else front
  }

  /** The response's list comprehension over the conflicting rows. */
  function ConflictList(events: seq<StoredEvent>): (r: seq<Conflict>)
    ensures |r| == |events|
    ensures forall i :: 0 <= i < |events| ==> r[i] == Conflict(events[i].start, events[i].end)
    decreases |events|
  {
    if events == [] then [] else [Conflict(events[0].start, events[0].end)] + ConflictList(events[1..])
  }

  lemma ConflictListMembers(events: seq<StoredEvent>)
    ensures forall e :: e in events ==> Conflict(e.start, e.end) in ConflictList(events)
    ensures forall c :: c in ConflictList(events) ==> exists e :: e in events && c == Conflict(e.start, e.end)
  {
    var r := ConflictList(events);
    forall e | e in events ensures Conflict(e.start, e.end) in r {
      var i :| 0 <= i < |events| && events[i] == e;
      assert r[i] == Conflict(e.start, e.end);
    }
    forall c | c in r ensures exists e :: e in events && c == Conflict(e.start, e.end) {
      var i :| 0 <= i < |r| && r[i] == c;
      assert events[i] in events;
    }
  }

  /**
   * `check_availability` with the conflict list built from the columns the
   * table has: unavailable with every conflicting event's start and end, or
   * available with the requested {start, end, duration_minutes}.
   */
  function CheckAvailability(rows: seq<StoredEvent>, clientId: string, agentId: string,
                             startTime: Instant, durationMinutes: int): (r: Response)
    ensures !r.InternalError?
    ensures r.Available? <==>
      forall e :: e in rows ==> !InConflict(e, clientId, agentId, startTime, startTime + Minutes(durationMinutes))
    ensures r.Available? ==>
      r.slot == Slot(startTime, startTime + Minutes(durationMinutes), durationMinutes)
    ensures r.Unavailable? ==>
      forall e :: e in rows && InConflict(e, clientId, agentId, startTime, startTime + Minutes(durationMinutes))
        ==> Conflict(e.start, e.end) in r.conflicts
    ensures r.Unavailable? ==>
      forall c :: c in r.conflicts ==>
        exists e :: (e in rows && c == Conflict(e.start, e.end)
                     && InConflict(e, clientId, agentId, startTime, startTime + Minutes(durationMinutes)))
  {
    var endTime := startTime + Minutes(durationMinutes);
    var conflicts := Conflicts(rows, clientId, agentId, startTime, endTime);
    if |conflicts| > 0 then
      ConflictListMembers(conflicts);
      Unavailable(ConflictList(conflicts))
    else
      Available(Slot(startTime, endTime, durationMinutes))
  }

  /** The rows of this client and agent are proper intervals with an end; other rows may be anything. */
  ghost predicate ProperRows(rows: seq<StoredEvent>, clientId: string, agentId: string) {
    forall e :: e in rows && e.clientId == clientId && e.agentId == agentId ==> e.end.Some? && e.start < e.end.value
  }

  /**
   * For proper rows of that client and agent and a positive duration, the slot is available exactly
   * when no event of that client and agent overlaps [start, start + duration).
   */
  lemma AvailableIffNoOverlap(rows: seq<StoredEvent>, clientId: string, agentId: string,
                              startTime: Instant, durationMinutes: int)
    requires ProperRows(rows, clientId, agentId) && durationMinutes > 0
    ensures CheckAvailability(rows, clientId, agentId, startTime, durationMinutes).Available?
        <==> forall e :: e in rows && e.clientId == clientId && e.agentId == agentId ==>
               !Overlaps(e.start, e.end.value, startTime, startTime + Minutes(durationMinutes))
  {
    var endTime := startTime + Minutes(durationMinutes);
    forall e | e in rows && e.clientId == clientId && e.agentId == agentId {
      ThreeCasesAreOverlap(e, clientId, agentId, startTime, endTime);
    }
  }

  /** Only events of the requested client and agent can be reported as conflicts. */
  lemma ConflictsAreSameClientAndAgent(rows: seq<StoredEvent>, clientId: string, agentId: string,
                                       startTime: Instant, durationMinutes: int)
    ensures forall e :: e in Conflicts(rows, clientId, agentId, startTime, startTime + Minutes(durationMinutes)) ==>
      e.clientId == clientId && e.agentId == agentId
  {
  }

  /** An event stored without an end conflicts exactly when it starts inside the slot. */
  lemma OpenEndedEventConflict(e: StoredEvent, clientId: string, agentId: string, start: Instant, end: Instant)
    requires e.end.None? && e.clientId == clientId && e.agentId == agentId
    ensures InConflict(e, clientId, agentId, start, end) <==> start <= e.start < end
  {
  }

  // ---------------------------------------------------------------------
  // The endpoint as written
  // ---------------------------------------------------------------------

  /**
   * The endpoint as written: building the conflict list reads
   * `event.event_type`, which the CalendarEvent table does not have, so the
   * AttributeError lands in the catch-all handler and every conflict yields
   * the internal-error response instead of the conflict list.
   */
  function CheckAvailabilityAsWritten(rows: seq<StoredEvent>, clientId: string, agentId: string,
                                      startTime: Instant, durationMinutes: int): (r: Response)
    ensures !r.Unavailable?
    ensures r.InternalError? <==>
      exists e :: e in rows && InConflict(e, clientId, agentId, startTime, startTime + Minutes(durationMinutes))
  {
    var endTime := startTime + Minutes(durationMinutes);
    var conflicts := Conflicts(rows, clientId, agentId, startTime, endTime);
    if |conflicts| > 0 then
      assert conflicts[0] in conflicts;
      InternalError
    else Available(Slot(startTime, endTime, durationMinutes))
  }

  /** As written, a conflict is reported as an internal error exactly where the conflict list was due. */
  lemma AsWrittenHidesConflicts(rows: seq<StoredEvent>, clientId: string, agentId: string,
                                startTime: Instant, durationMinutes: int)
    ensures var written := CheckAvailabilityAsWritten(rows, clientId, agentId, startTime, durationMinutes);
      var intended := CheckAvailability(rows, clientId, agentId, startTime, durationMinutes);
      && (written.InternalError? <==> intended.Unavailable?)
      && (written.Available? ==> written == intended)
  {
  }

  /** One booked 10:00-11:00 event and a request at 10:15 for 30 minutes. */
  lemma AsWrittenCounterexample()
    ensures var row := StoredEvent("uid-1", "c", "a", "Busy", "", 36000, Some(39600));
      && CheckAvailabilityAsWritten([row], "c", "a", 36900, 30) == InternalError
      && CheckAvailability([row], "c", "a", 36900, 30) == Unavailable([Conflict(36000, Some(39600))])
  {
    var row := StoredEvent("uid-1", "c", "a", "Busy", "", 36000, Some(39600));
    assert [row][..0] == [];
    assert Conflicts([row], "c", "a", 36900, 38700) == [row];
  }
}
