/**
 * What `find_slots` promises, proved of its reference definition: slot
 * sizes, the limit, ordering, the start bound, no overlap with events, and
 * that nothing is offered after the last event.
 */
module SlotProps {
  import opened Calendar
  import opened SlotSpec

  /** Every slot lasts exactly `durationMinutes` and says so. */
  ghost predicate Sized(slots: seq<Slot>, durationMinutes: int) {
    forall i :: 0 <= i < |slots| ==> slots[i] == SlotAt(slots[i].start, durationMinutes)
  }

  /** Each slot ends no later than the start of some event. */
  ghost predicate EndsBeforeSomeEvent(slots: seq<Slot>, events: seq<Event>) {
    forall i :: 0 <= i < |slots| ==> exists k :: 0 <= k < |events| && slots[i].end <= events[k].start
  }

  ghost predicate StartsFrom(slots: seq<Slot>, t: Instant) {
    forall i :: 0 <= i < |slots| ==> t <= slots[i].start
  }

  ghost predicate EndsBy(slots: seq<Slot>, t: Instant) {
    forall i :: 0 <= i < |slots| ==> slots[i].end <= t
  }

  /** Each slot starts at or after the end of every earlier one. */
  ghost predicate Ascending(slots: seq<Slot>) {
    forall i, j :: 0 <= i < j < |slots| ==> slots[i].end <= slots[j].start
  }

  /** The precondition the docstring states: events sorted by start time. */
  ghost predicate SortedByStart(events: seq<Event>) {
    forall i, j :: 0 <= i < j < |events| ==> events[i].start <= events[j].start
  }

  /** The slot and the event share no instant. */
  predicate Disjoint(s: Slot, e: Event) {
    s.end <= e.start || e.end <= s.start
  }

  ghost predicate AvoidsAll(slots: seq<Slot>, events: seq<Event>) {
    forall i, k :: 0 <= i < |slots| && 0 <= k < |events| ==> Disjoint(slots[i], events[k])
  }

  /**
   * The limit as the loops enforce it: a stopped scan holds exactly
   * max(limit, 1) slots, a running one fewer than `limit` or none.
   */
  ghost predicate WithinLimit(s: Scan, limit: int) {
    && (s.stopped ==> |s.slots| == Max(limit, 1))
    && (!s.stopped ==> |s.slots| < limit || s.slots == [])
  }

  /** What one gap-filling loop adds to `acc`. */
  lemma {:induction false} FillFacts(f: Instant, bound: Instant, dm: int, limit: int, acc: seq<Slot>)
    requires |acc| < limit || acc == []
    ensures var g := Fill(f, bound, dm, limit, acc);
      && |acc| <= |g.slots|
      && (forall i :: 0 <= i < |acc| ==> g.slots[i] == acc[i])
      && WithinLimit(g, limit)
      && (forall k :: |acc| <= k < |g.slots| ==> g.slots[k] == SlotAt(g.slots[k].start, dm) && g.slots[k].end <= bound)
      && (dm >= 0 ==> forall k :: |acc| <= k < |g.slots| ==> f <= g.slots[k].start)
      && (dm >= 0 ==> forall k1, k2 :: |acc| <= k1 < k2 < |g.slots| ==> g.slots[k1].end <= g.slots[k2].start)
      && (dm >= 0 && !g.stopped ==> f <= g.frontier && forall k :: |acc| <= k < |g.slots| ==> g.slots[k].end <= g.frontier)
    decreases (if dm > 0 then bound - f else 0), limit - |acc|
  {
    if f + Minutes(dm) <= bound {
      var acc' := acc + [SlotAt(f, dm)];
      if |acc'| < limit {
        FillFacts(f + Minutes(dm), bound, dm, limit, acc');
      }
    }
  }

  /** The invariant of the scan after the first `j` events. */
  ghost predicate ScanInv(s: Scan, events: seq<Event>, j: nat, startTime: Instant, dm: int, limit: int) {
    && WithinLimit(s, limit)
    && Sized(s.slots, dm)
    && EndsBeforeSomeEvent(s.slots, events)
    && (dm >= 0 ==>
          && StartsFrom(s.slots, startTime)
          && Ascending(s.slots)
          && (!s.stopped ==>
                && startTime <= s.frontier
                && EndsBy(s.slots, s.frontier)
                && forall k :: 0 <= k < j && k < |events| ==> events[k].end <= s.frontier))
    && (dm > 0 && SortedByStart(events) ==> AvoidsAll(s.slots, events))
  }

  lemma OpeningInv(events: seq<Event>, startTime: Instant, dm: int, limit: int)
    requires events != []
    ensures ScanInv(Opening(events, startTime, dm, limit), events, 0, startTime, dm, limit)
  {
    var g := Opening(events, startTime, dm, limit);
    FillFacts(startTime, events[0].start, dm, limit, []);
    forall i | 0 <= i < |g.slots|
      ensures exists k :: 0 <= k < |events| && g.slots[i].end <= events[k].start
    {
      assert g.slots[i].end <= events[0].start;
    }
    if dm > 0 && SortedByStart(events) {
      forall i, k | 0 <= i < |g.slots| && 0 <= k < |events|
        ensures Disjoint(g.slots[i], events[k])
      {
        assert k > 0 ==> events[0].start <= events[k].start;
      }
    }
  }

  lemma StepInv(s: Scan, events: seq<Event>, j: nat, startTime: Instant, dm: int, limit: int)
    requires j < |events|
    requires ScanInv(s, events, j, startTime, dm, limit)
    ensures ScanInv(Step(s, events[j], startTime, dm, limit), events, j + 1, startTime, dm, limit)
  {
    var ev := events[j];
    if s.stopped || ev.end <= startTime {
    } else if s.frontier >= ev.start && s.frontier < ev.end {
    } else {
      var g := Fill(s.frontier, ev.start, dm, limit, s.slots);
      var acc := s.slots;
      FillFacts(s.frontier, ev.start, dm, limit, acc);
      var t := Step(s, ev, startTime, dm, limit);
      assert t.slots == g.slots;
      forall i | 0 <= i < |g.slots|
        ensures exists k :: 0 <= k < |events| && g.slots[i].end <= events[k].start
      {
        if i >= |acc| {
          assert g.slots[i].end <= events[j].start;
        } else {
          assert g.slots[i] == acc[i];
        }
      }
      assert Sized(g.slots, dm) by {
        forall i | 0 <= i < |g.slots| ensures g.slots[i] == SlotAt(g.slots[i].start, dm) {
          if i < |acc| { assert g.slots[i] == acc[i]; }
        }
      }
      if dm >= 0 {
        assert Ascending(g.slots) by {
          forall i1, i2 | 0 <= i1 < i2 < |g.slots| ensures g.slots[i1].end <= g.slots[i2].start {
            if i2 < |acc| {
              assert g.slots[i1] == acc[i1] && g.slots[i2] == acc[i2];
            } else if i1 < |acc| {
              assert g.slots[i1] == acc[i1];
              assert acc[i1].end <= s.frontier;
            }
          }
        }
        assert StartsFrom(g.slots, startTime) by {
          forall i | 0 <= i < |g.slots| ensures startTime <= g.slots[i].start {
            if i < |acc| { assert g.slots[i] == acc[i]; }
          }
        }
        if !g.stopped {
          assert EndsBy(t.slots, t.frontier) by {
            forall i | 0 <= i < |g.slots| ensures g.slots[i].end <= t.frontier {
              if i < |acc| { assert g.slots[i] == acc[i]; }
            }
          }
        }
      }
      if dm > 0 && SortedByStart(events) {
        forall i, k | 0 <= i < |g.slots| && 0 <= k < |events|
          ensures Disjoint(g.slots[i], events[k])
        {
          if i < |acc| {
            assert g.slots[i] == acc[i];
          } else if k < j {
            assert events[k].end <= s.frontier <= g.slots[i].start;
          } else {
            assert g.slots[i].end <= events[j].start <= events[k].start;
          }
        }
      }
    }
  }

  lemma {:induction false} ScanEventsInv(events: seq<Event>, j: nat, startTime: Instant, dm: int, limit: int)
    requires events != [] && j <= |events|
    ensures ScanInv(ScanEvents(Opening(events, startTime, dm, limit), events[..j], startTime, dm, limit),
                    events, j, startTime, dm, limit)
  {
    if j == 0 {
      OpeningInv(events, startTime, dm, limit);
    } else {
      assert events[..j][..j - 1] == events[..j - 1];
      ScanEventsInv(events, j - 1, startTime, dm, limit);
      StepInv(ScanEvents(Opening(events, startTime, dm, limit), events[..j - 1], startTime, dm, limit),
              events, j - 1, startTime, dm, limit);
    }
  }

  /** The final scan over all events satisfies the invariant. */
  lemma FinalInv(events: seq<Event>, startTime: Instant, dm: int, limit: int)
    requires events != []
    ensures var s := ScanEvents(Opening(events, startTime, dm, limit), events, startTime, dm, limit);
      ScanInv(s, events, |events|, startTime, dm, limit) && s.slots == FindSlotsSpec(events, startTime, dm, limit)
  {
    ScanEventsInv(events, |events|, startTime, dm, limit);
    assert events[..|events|] == events;
  }

  /** Closed form of the event-free case: slot i is [from + i*d, from + (i+1)*d). */
  lemma {:induction false} BackToBackAt(from: Instant, dm: int, n: nat)
    ensures |BackToBack(from, dm, n)| == n
    ensures forall i :: 0 <= i < n ==>
      BackToBack(from, dm, n)[i] == Slot(from + i * Minutes(dm), from + (i + 1) * Minutes(dm), dm)
  {
    if n > 0 {
      BackToBackAt(from, dm, n - 1);
      assert from + (n - 1) * Minutes(dm) + Minutes(dm) == from + n * Minutes(dm);
    }
  }

  // ---------------------------------------------------------------------
  // The promises of find_slots, stated of FindSlotsSpec
  // ---------------------------------------------------------------------

  /** With no events the result is exactly `limit` back-to-back slots from `startTime` (none for limit <= 0). */
  lemma NoEventsGivesLimitSlots(startTime: Instant, dm: int, limit: int)
    ensures var r := FindSlotsSpec([], startTime, dm, limit);
      && |r| == Max(limit, 0)
      && forall i :: 0 <= i < |r| ==>
           r[i] == Slot(startTime + i * Minutes(dm), startTime + (i + 1) * Minutes(dm), dm)
  {
    BackToBackAt(startTime, dm, if limit > 0 then limit else 0);
  }

  /** Every returned slot is exactly `durationMinutes` long and carries that duration. */
  lemma SlotsHaveRequestedLength(events: seq<Event>, startTime: Instant, dm: int, limit: int)
    ensures forall s :: s in FindSlotsSpec(events, startTime, dm, limit) ==>
      s.end - s.start == Minutes(dm) && s.durationMinutes == dm
  {
    if events == [] {
      NoEventsGivesLimitSlots(startTime, dm, limit);
    } else {
      FinalInv(events, startTime, dm, limit);
    }
  }

  /**
   * With events the result never exceeds max(limit, 1) slots; it reaches
   * that count only when the limit ended the search, so for limit >= 1 the
   * result has at most `limit` slots.
   */
  lemma SlotCountBounded(events: seq<Event>, startTime: Instant, dm: int, limit: int)
    requires events != []
    ensures |FindSlotsSpec(events, startTime, dm, limit)| <= Max(limit, 1)
    ensures 1 <= limit ==> |FindSlotsSpec(events, startTime, dm, limit)| <= limit
  {
    FinalInv(events, startTime, dm, limit);
  }

  /**
   * For non-negative durations the slots never move backwards: each starts at
   * or after `startTime` and after the end of every earlier slot; for positive
   * durations their starts are strictly ascending.
   */
  lemma SlotsAscendFromStart(events: seq<Event>, startTime: Instant, dm: int, limit: int)
    requires dm >= 0
    ensures var r := FindSlotsSpec(events, startTime, dm, limit);
      && (forall i :: 0 <= i < |r| ==> startTime <= r[i].start)
      && (forall i, j :: 0 <= i < j < |r| ==> r[i].end <= r[j].start)
      && (dm > 0 ==> forall i, j :: 0 <= i < j < |r| ==> r[i].start < r[j].start)
  {
    var r := FindSlotsSpec(events, startTime, dm, limit);
    if events == [] {
      NoEventsGivesLimitSlots(startTime, dm, limit);
      forall i, j | 0 <= i < j < |r| ensures r[i].end <= r[j].start {
        assert (i + 1) * Minutes(dm) <= j * Minutes(dm);
      }
      forall i | 0 <= i < |r| ensures startTime <= r[i].start {
        assert 0 <= i * Minutes(dm);
      }
    } else {
      FinalInv(events, startTime, dm, limit);
    }
    if dm > 0 {
      SlotsHaveRequestedLength(events, startTime, dm, limit);
      forall i, j | 0 <= i < j < |r| ensures r[i].start < r[j].start {
        assert r[i] in r;
      }
    }
  }

  /** For events sorted by start and a positive duration, no slot overlaps any event. */
  lemma SlotsAvoidEvents(events: seq<Event>, startTime: Instant, dm: int, limit: int)
    requires dm > 0 && SortedByStart(events)
    ensures forall s, e :: s in FindSlotsSpec(events, startTime, dm, limit) && e in events ==> Disjoint(s, e)
  {
    if events != [] {
      FinalInv(events, startTime, dm, limit);
      var r := FindSlotsSpec(events, startTime, dm, limit);
      forall s, e | s in r && e in events ensures Disjoint(s, e) {
        var i :| 0 <= i < |r| && r[i] == s;
        var k :| 0 <= k < |events| && events[k] == e;
      }
    }
  }

  /** With events present nothing is offered after the last one: every slot ends by some event's start. */
  lemma NoSlotAfterLastEvent(events: seq<Event>, startTime: Instant, dm: int, limit: int)
    requires events != []
    ensures forall s :: s in FindSlotsSpec(events, startTime, dm, limit) ==>
      exists e :: e in events && s.end <= e.start
  {
    FinalInv(events, startTime, dm, limit);
    var r := FindSlotsSpec(events, startTime, dm, limit);
    forall s | s in r ensures exists e :: e in events && s.end <= e.start {
      var i :| 0 <= i < |r| && r[i] == s;
      var k :| 0 <= k < |events| && r[i].end <= events[k].start;
      assert events[k] in events;
    }
  }
}
