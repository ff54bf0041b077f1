# Agent availability and calendar sync — a Dafny model

This project models the scheduling core of a small booking service for
agents. The service keeps each agent's busy calendar events in a table and
answers availability questions against it. The model covers five pieces:

- **Free-slot search** (`find_slots`). One forward scan over events sorted by
  start. It keeps a frontier (`last_end_time`) and cuts slots of a fixed
  length out of the gaps before and between events. It returns once `limit`
  slots exist. With no events it returns `limit` back-to-back slots.
- **Working hours** (`is_within_working_hours`, `get_next_working_time`). The
  fixed 09:00–17:00 UTC daily window, and the snap of an instant to the next
  window start.
- **Availability check** (`check_availability`). It computes the end of the
  requested slot and selects the same client's and agent's events that meet
  a three-case overlap test. It answers "available" with the slot, or
  "unavailable" with the conflicts.
- **Calendar ingestion** (`sync_calendar_to_db`). For each decoded VEVENT it
  inserts a row into a table keyed by the event's uid, if no row has that uid
  yet, and then commits.
- **Sync dispatch tick** (the loop body of `schedule_sync`). Every agent
  whose last sync is missing or older than the interval is stamped with `now`
  and then queued.

Every instant is a whole number of seconds since the Unix epoch, in UTC
(`Calendar.Instant`). A duration of `m` minutes is `Minutes(m) = 60·m`
seconds. Time of day and calendar day are Euclidean remainder and quotient
by 86400.

Files and modules:

- `wrappers.dfy` (`Wrappers`): `Option`, `Result` and `Outcome`.
- `calendar.dfy` (`Calendar`): instants, days, minutes, and the
  `Slot {start, end, durationMinutes}` record.
- `working_hours.dfy` (`WorkingHours`): the code in `App/api/until.py`.
- `slot_spec.dfy` (`SlotSpec`): the reference definition `FindSlotsSpec`.
  It is built from `Fill` (one gap-filling `while`), `Step` (one pass of the
  `for` loop) and `ScanEvents` (the loop as a fold over a prefix of the
  events).
- `find_slots.dfy` (`FindSlots`): the method `FindSlots`. It keeps the
  source's `for`, `while` and nested `while` loops and their early returns,
  and is proved equal to `FindSlotsSpec`.
- `slot_props.dfy` (`SlotProps`): what the search promises, proved of
  `FindSlotsSpec`.
- `slot_scenarios.dfy` (`SlotScenarios`): the expected outputs of the
  `TestFindSlots` cases.
- `calendar_store.dfy` (`CalendarStore`): the `calendar_events` table as a
  map from uid to row, the ingestion as a fold `Ingest`, and the class
  `EventTable` whose method `SyncCalendar` runs the loop and commits.
- `availability.dfy` (`Availability`): the conflict filter, the response
  of `check_availability`, and the endpoint as written (see Findings).
- `sync_dispatch.dfy` (`SyncDispatch`): the class `Dispatcher`, which holds
  `agent_list` and the task queue, with its method `Tick(now)`.

The code has no merge that updates or deletes stored events, no
working-hours-aware slot search, no slots after the last event, and no
utilization report, and the model has none of them either. In particular,
`find_slots` emits nothing after the last event, and the ingestion only
inserts.

## Model

| member | source | states |
|---|---|---|
| `WorkingHours.IsWithinWorkingHours` | App/api/until.py:5-9 | Defines the working window: an instant is inside when its time of day lies in [09:00:00, 17:00:00), start inclusive and end exclusive. It has no contract of its own; `WindowBoundaries` states its edges. |
| `WorkingHours.NextWorkingTime` | App/api/until.py:11-25 | The result is never earlier than the input and always lies in working hours. An instant already in working hours is returned unchanged. Before 09:00 the result is 09:00:00 of the same day. At or after 17:00 it is 09:00:00 of the next day. |
| `WorkingHours.WindowBoundaries` | App/api/until.py:5-9 | The window is half-open on every day. 09:00:00 and 16:59:59 are inside. 17:00:00 and 08:59:59 are outside. |
| `WorkingHours.NextWorkingTimeIsNext` | App/api/until.py:11-25 | No working instant is skipped: every instant from the input up to the result lies outside working hours. |
| `WorkingHours.NextWorkingTimeIdempotent` | App/api/until.py:11-25 | Applying the snap twice gives the same result as applying it once. |
| `SlotSpec.CreateEvent` | App/test/test_find_slots.py:69-77 | The test helper's event starts at the given instant and lasts the given number of minutes. |
| `SlotSpec.FindSlotsSpec` | App/test/test_find_slots.py:13-67 | Defines what `find_slots` returns: `limit` back-to-back slots without events, otherwise the gap-filling scan over the events with the limit checked after each append. It has no contract of its own; `FindSlots.FindSlots` is proved equal to it, and the `SlotProps` lemmas state its properties. |
| `SlotSpec.StoppedScanIsFinal` | App/test/test_find_slots.py:41-61 | Once the limit has stopped the scan (the early `return`), the remaining events change nothing. |
| `FindSlots.FindSlots` | App/test/test_find_slots.py:13-67 | The loop program (the event-free `for`, the opening `while`, the `for` over events with its skip/jump/fill cases and inner `while`, and the early returns) returns exactly `FindSlotsSpec(events, startTime, durationMinutes, limit)`. |
| `SlotProps.FillFacts` | App/test/test_find_slots.py:53-63 | One gap-filling loop only appends. Each new slot has the requested length and ends by the gap's bound. When entered with fewer than `limit` slots (or none), the loop keeps within the limit, and a stopped loop holds exactly max(limit, 1) slots. For non-negative durations the new slots start at or after the old frontier and are ordered; for a loop that runs to the gap's end, they also end by the new frontier. |
| `SlotProps.StepInv` | App/test/test_find_slots.py:45-65 | One pass of the event loop keeps the scan invariant. For every duration: the limit, the slot sizes, and every slot ending by some event's start. For a duration ≥ 0: slots start at or after `startTime` and are ordered, and while the scan runs the frontier is at or after `startTime`, after every slot and past every processed event. For a positive duration and events sorted by start: no slot overlaps any event. |
| `SlotProps.BackToBackAt` | App/test/test_find_slots.py:27-36 | The event-free builder gives n slots, and slot i is [from + i·d, from + (i+1)·d). |
| `SlotProps.NoEventsGivesLimitSlots` | App/test/test_find_slots.py:27-36 | With no events the result has exactly max(limit, 0) slots, and slot i is [start + i·d, start + (i+1)·d) with duration d. |
| `SlotProps.SlotsHaveRequestedLength` | App/test/test_find_slots.py:27-63 | Every returned slot has end − start equal to `durationMinutes` minutes and carries that duration. |
| `SlotProps.SlotCountBounded` | App/test/test_find_slots.py:37-67 | With events present, the result has at most max(limit, 1) slots, so at most `limit` slots when limit ≥ 1. |
| `SlotProps.SlotsAscendFromStart` | App/test/test_find_slots.py:25-65 | For a non-negative duration, every slot starts at or after `start_time` and at or after the end of every earlier slot. For a positive duration the starts strictly ascend. |
| `SlotProps.SlotsAvoidEvents` | App/test/test_find_slots.py:37-67 | For events sorted by start and a positive duration, no returned slot overlaps any event. |
| `SlotProps.NoSlotAfterLastEvent` | App/test/test_find_slots.py:37-67 | With events present, every slot ends at or before the start of some event, so nothing is offered after the last event. |
| `SlotScenarios.NoEventsScenario` | App/test/test_find_slots.py:80-94 | With no events, starting 09:00 with 30 minutes and limit 3, the result is 09:00, 09:30 and 10:00. |
| `SlotScenarios.TwoEventsScenario` | App/test/test_find_slots.py:96-111 | With events 09–10 and 11–12 and the default limit 3, the result is exactly 10:00–10:30 and 10:30–11:00. |
| `SlotScenarios.ThreeEventsScenario` | App/test/test_find_slots.py:113-130 | With events 09–10, 11–12 and 12:30–13 from 09:00, the result is 10:00, 10:30 and 12:00. |
| `SlotScenarios.BeforeEventsScenario` | App/test/test_find_slots.py:133-150 | The same events from 08:00 give 08:00, 08:30 and 10:00. |
| `SlotScenarios.RespectLimitScenario` | App/test/test_find_slots.py:152-165 | One event 11:00–13:00, from 09:00 with limit 3, gives three slots, and the first is 09:00–09:30. |
| `SlotScenarios.ZeroLimitYieldsOneSlot` | App/test/test_find_slots.py:38-42 | With events present, limit 0 still returns one slot, because the limit is checked after the append. |
| `CalendarStore.NewRow` | App/dal/calender.py:72-80 | Defines the row built for a new VEVENT: its uid as key, the caller's client_id and agent_id, and the VEVENT's fields with the "None", "" and NULL defaults. `NewRowsCarryFeedFields` states these fields of every added row. |
| `CalendarStore.IngestOne` | App/dal/calender.py:66-82 | One loop pass fails exactly when the uid is not stored and the VEVENT has no DTSTART, and the model's error value then names that uid. On success the keys grow by exactly that uid, and every stored row keeps its value. A new uid is stored under its own key. |
| `CalendarStore.Ingest` | App/dal/calender.py:65-82 | The loop over the feed, stopped by the first failure. A successful run never loses a key. A failed run names a VEVENT of the feed that has no DTSTART. |
| `CalendarStore.IngestKeys` | App/dal/calender.py:65-85 | After a successful sync the keys are exactly the old keys plus the feed's uids. Nothing is deleted and every VEVENT uid is stored. |
| `CalendarStore.IngestKeepsStored` | App/dal/calender.py:66-70 | Every row stored before the sync is left unmodified, including rows whose uid appears in the feed. |
| `CalendarStore.IngestNewRows` | App/dal/calender.py:65-82 | Each added key holds the row built from the first VEVENT with that uid. A repeated uid later in the same feed sees the earlier insert. |
| `CalendarStore.NewRowsCarryFeedFields` | App/dal/calender.py:72-79 | An added row carries its uid, the caller's client_id and agent_id, and the VEVENT's start and end. A missing end is stored as NULL, a missing summary as "None", and a missing description as "". |
| `CalendarStore.IngestSucceedsIff` | App/dal/calender.py:65-85 | The sync succeeds exactly when every VEVENT it would insert has a DTSTART. |
| `CalendarStore.FailureIsFinal` | App/dal/calender.py:72-85 | Once a VEVENT without DTSTART has failed the run, later VEVENTs do not change the outcome. |
| `CalendarStore.IngestKnownFeedIsNoOp` | App/dal/calender.py:66-70 | A feed whose uids are all stored changes nothing. |
| `CalendarStore.IngestIdempotent` | App/dal/calender.py:56-86 | Syncing the same feed a second time leaves the table as the first sync left it. |
| `CalendarStore.EventTable.SyncCalendar` | App/dal/calender.py:56-86 | The loop over the feed commits exactly `Ingest(old rows, feed)`. A VEVENT whose uid is not yet stored and that has no DTSTART aborts before the commit with the model's error value `MissingStart(uid)`, and leaves the table unchanged. |
| `Availability.InConflict` | App/api/agent_schedule.py:49-71 | Defines the query filter: same client_id and agent_id, and one of the three cases (starts in the slot, ends in the slot, encloses the slot). A NULL end makes the last two cases false. `ThreeCasesAreOverlap`, `TouchingIsNoConflict` and `OpenEndedEventConflict` state what it selects. |
| `Availability.ThreeCasesAreOverlap` | App/api/agent_schedule.py:49-71 | For an event with start < end and a slot of positive length, the three query cases together select exactly the same client's and agent's events with event.start < end ∧ event.end > start. |
| `Availability.TouchingIsNoConflict` | App/api/agent_schedule.py:53-69 | For an event with start < end and a slot of positive length, an event ending exactly at the slot's start, or starting exactly at its end, is not a conflict. |
| `Availability.OpenEndedEventConflict` | App/api/agent_schedule.py:53-69 | An event of the requested client and agent stored without an end (NULL) conflicts exactly when it starts inside the slot. |
| `Availability.Conflicts` | App/api/agent_schedule.py:49-73 | The query result holds exactly the rows that pass the filter. |
| `Availability.ConflictsAreSameClientAndAgent` | App/api/agent_schedule.py:49-52 | Only events with the requested client_id and agent_id are reported as conflicts. |
| `Availability.ConflictList` | App/api/agent_schedule.py:78-84 | The response list has one entry per conflicting event, in order, holding that event's start and end. |
| `Availability.CheckAvailability` | App/api/agent_schedule.py:33-94 | The response is "available" exactly when no row conflicts, and then its slot is {start, start + duration, duration}. Otherwise it is "unavailable" and lists the start and end of every conflicting event and of nothing else. |
| `Availability.AvailableIffNoOverlap` | App/api/agent_schedule.py:49-94 | When every event of that client and agent has an end after its start (rows of other clients and agents may be open-ended) and the duration is positive, the slot is available exactly when no event of that client and agent overlaps [start, start + duration). |
| `Availability.CheckAvailabilityAsWritten` | App/api/agent_schedule.py:73-101 | The endpoint as written never answers "unavailable" with a list. It returns the internal-error response exactly when some row of that client and agent conflicts with the slot. |
| `Availability.AsWrittenHidesConflicts` | App/api/agent_schedule.py:73-101 | As written, the endpoint returns the internal-error response exactly where the conflict list is due, and agrees with the corrected endpoint otherwise. |
| `Availability.AsWrittenCounterexample` | App/api/agent_schedule.py:73-101 | A single 10:00–11:00 event and a request at 10:15 for 30 minutes: as written the result is the internal error, and intended it is "unavailable" with that event. |
| `SyncDispatch.IsDue` | App/jobs/calender_sync.py:61 | Defines the due test: an agent is due when it has no last_sync, or when its last_sync lies strictly before now − interval minutes. `ExactlyOneIntervalAgoIsNotDue` states the strict boundary. |
| `SyncDispatch.Claimed` | App/jobs/calender_sync.py:60-62 | After a pass, each due agent has last_sync = now. Every agent that is not due keeps its entry unchanged. |
| `SyncDispatch.DueIndices` | App/jobs/calender_sync.py:60-61 | The due positions are ascending, all due, and include every due agent. |
| `SyncDispatch.Enqueued` | App/jobs/calender_sync.py:60-63 | Defines what one pass puts on the task queue: the claimed form of each due agent, in agent_list order. It has no contract of its own; `EnqueuedAreClaimedDueAgents` states its meaning. |
| `SyncDispatch.EnqueuedAreClaimedDueAgents` | App/jobs/calender_sync.py:60-63 | The queue receives one entry per due agent, in agent_list order, with no repeats. Each entry is the agent as claimed, with last_sync = now. |
| `SyncDispatch.NothingDueNothingQueued` | App/jobs/calender_sync.py:61 | A pass in which no agent is due enqueues nothing. |
| `SyncDispatch.SecondTickIsQuiet` | App/jobs/calender_sync.py:61-62 | For interval ≥ 0, a second pass at the same `now` enqueues nothing and changes nothing. |
| `SyncDispatch.ExactlyOneIntervalAgoIsNotDue` | App/jobs/calender_sync.py:61 | The boundary is strict: an agent whose last_sync is exactly now − interval is neither claimed nor queued. |
| `SyncDispatch.Dispatcher.constructor` | App/jobs/calender_sync.py:53-55 | The dispatcher starts with the given agent list and interval and an empty queue. |
| `SyncDispatch.Dispatcher.Tick` | App/jobs/calender_sync.py:60-63 | One pass sets the agent list to `Claimed(old agents, now)` and appends `Enqueued(old agents, now)` to the queue. |

## Left out

- The threaded consumer pool is not modelled. This covers `CalendarSyncQueue`'s threads, the queue timeouts, stop/join and error printing (App/jobs/calender_sync.py:13-51). The queue is a sequence that the tick appends to.
- The outer run loop is not modelled: `time.sleep`, the KeyboardInterrupt shutdown, and the `__main__` configuration, including its interval. One pass takes `now` as a parameter, although the code reads the clock twice (lines 61-62).
- `merge_calendar_to_db`, which the sync job imports (App/jobs/calender_sync.py:11), is not defined in App/dal/calender.py. As shown, importing the job module therefore fails, so `schedule_sync` and the tick modelled here cannot run as written. The tick is modelled as the code reads. The merge's update and delete behaviour is not part of this model. Only the insert-only `sync_calendar_to_db` is modelled.
- Storage and parsing are foreign libraries and are not modelled: the SQLAlchemy engine and the global session (`init_db`, `get_db`, `close_db`), `get_events`, opening the file, and iCalendar parsing. The ingestion takes an already decoded sequence of VEVENTs. It relies on autoflush making pending rows visible to the uid lookup.
- A VEVENT without a UID, and DTSTART/DTEND values that are dates rather than date-times, are not modelled. Every decoded VEVENT has a string uid and instant values.
- CalendarStore.EventTable.SyncCalendar: the source fails on a VEVENT without DTSTART by raising AttributeError from `.dt` on None (App/dal/calender.py:78), and that error carries no uid. The model's error value `MissingStart(uid)` names the uid so that the lemmas can say which VEVENT failed. It is not the source's message.
- After a failed sync, the code leaves the rows already added as pending in the global session, where a later commit could store them. The model keeps only the committed table, which the failure leaves unchanged.
- The HTTP layer is not modelled: FastAPI routing, `get_schedules`, the `find_available_times` and `check_day_utilization` stubs (their bodies are `pass`), the `print` calls, the commented-out business-hours block, and the reason and error strings of the responses.
- The database returns the conflicting rows in no guaranteed order. The model takes the rows as a sequence in query order.
- The fallback of `find_slots` to `datetime.now()` when `start_time` is missing is not modelled: `start_time` is a required parameter. The App/test/init_db.py script (file input and printing) is not modelled.
- The parameter defaults `limit = 3` of `find_slots` (App/test/test_find_slots.py:13) and `duration_minutes = 30` of `check_availability` (App/api/agent_schedule.py:20) are not defaults in the model: every call passes them. `SlotSpec.DefaultLimit` names the first, and `SlotScenarios.TwoEventsScenario` uses it for the test that omits `limit`.
- Timezones, DST, naive versus aware datetimes, sub-second precision, and Python's datetime range (years 1–9999) are not modelled. Instants are unbounded integers in UTC.
- The agent dictionaries are modelled as values. The queue therefore holds copies, not references to the same dictionaries. A dictionary listed twice in `agent_list` is treated as two independent agents.
- Availability.CheckAvailability: its contract states the conflict list by membership, in both directions. The order and multiplicity of the entries follow from the definitions of `Availability.Conflicts` (table order) and `Availability.ConflictList`, but no contract states them.
- There are two test methods named `test_slots_between_events` (lines 96 and 113). Python keeps only the later one, so the first never runs. It is modelled anyway, as `SlotScenarios.TwoEventsScenario`.

## Findings

| source | as written | input that shows it | evidently intended | confidence | as-written member | corrected member |
|---|---|---|---|---|---|---|
| App/api/agent_schedule.py:78-85 | The conflict list reads `event.event_type`. The CalendarEvent table (App/dal/calender.py:11-20) has no such column, so building the list raises AttributeError. The catch-all handler (lines 96-101) then returns the internal-error response. | One stored event 10:00–11:00 for client "c", agent "a"; a request at 10:15 for 30 minutes. | "available": false, listing the conflicting event's start and end. | not executed; high | `Availability.AsWrittenCounterexample` | `Availability.CheckAvailability` |
