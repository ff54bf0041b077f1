/** The expected outputs of the `TestFindSlots` cases, on 2024-03-01 UTC. */
module SlotScenarios {
  import opened Calendar
  import opened SlotSpec

  /** 2024-03-01T00:00:00Z. */
  const March1: Instant := 1709251200

  function At(hour: int, minute: int): Instant {
    March1 + hour * SecondsPerHour + minute * SecondsPerMinute
  }

  function Busy(): seq<Event> {
    [CreateEvent(At(9, 0), 60), CreateEvent(At(11, 0), 60), CreateEvent(At(12, 30), 30)]
  }

  /** test_no_events: three back-to-back half hours from 09:00. */
  lemma NoEventsScenario()
    ensures FindSlotsSpec([], At(9, 0), 30, 3)
         == [Slot(At(9, 0), At(9, 30), 30), Slot(At(9, 30), At(10, 0), 30), Slot(At(10, 0), At(10, 30), 30)]
  {
  }

  /** Half-hour slot starting at hour:minute. */
  function Half(hour: int, minute: int): Slot {
    SlotAt(At(hour, minute), 30)
  }

  /** The gap 10:00-11:00 holds exactly two half-hour slots. */
  lemma TenToElevenGap(limit: int)
    requires limit > 2
    ensures Fill(At(10, 0), At(11, 0), 30, limit, []) == Scan(At(11, 0), [Half(10, 0), Half(10, 30)], false)
  {
    assert At(10, 0) + Minutes(30) == At(10, 30) && At(10, 30) + Minutes(30) == At(11, 0);
    assert [] + [SlotAt(At(10, 0), 30)] == [Half(10, 0)];
    assert Fill(At(10, 0), At(11, 0), 30, limit, [])
        == Fill(At(10, 30), At(11, 0), 30, limit, [Half(10, 0)]);
    assert Fill(At(10, 30), At(11, 0), 30, limit, [Half(10, 0)])
        == Fill(At(11, 0), At(11, 0), 30, limit, [Half(10, 0), Half(10, 30)]);
  }

  /** The first two events of `Busy()` from 09:00 leave two slots and the frontier at 12:00. */
  lemma FirstTwoEventsFromNine(limit: int)
    requires limit > 2
    ensures var ev := Busy();
      && Opening(ev, At(9, 0), 30, limit) == Scan(At(9, 0), [], false)
      && ScanEvents(Scan(At(9, 0), [], false), ev[..2], At(9, 0), 30, limit)
         == Scan(At(12, 0), [Half(10, 0), Half(10, 30)], false)
  {
    var ev := Busy();
    var s0 := Scan(At(9, 0), [], false);
    assert ev[..2][..1] == ev[..1] && ev[..1][..0] == [];
    assert ScanEvents(s0, ev[..1], At(9, 0), 30, limit) == Scan(At(10, 0), [], false);
    TenToElevenGap(limit);
  }

  /** The first test_slots_between_events: two events, default limit 3, two slots between them. */
  lemma TwoEventsScenario()
    ensures FindSlotsSpec(Busy()[..2], At(9, 0), 30, DefaultLimit)
         == [Slot(At(10, 0), At(10, 30), 30), Slot(At(10, 30), At(11, 0), 30)]
  {
    var ev := Busy()[..2];
    var s0 := Scan(At(9, 0), [], false);
    assert ev[..2] == ev && ev[..1] == Busy()[..1] && ev[..1][..0] == [];
    assert Opening(ev, At(9, 0), 30, DefaultLimit) == s0;
    assert ScanEvents(s0, ev[..1], At(9, 0), 30, DefaultLimit) == Scan(At(10, 0), [], false);
    TenToElevenGap(DefaultLimit);
  }

  /** The second test_slots_between_events: from 09:00 the slots are 10:00, 10:30 and 12:00. */
  lemma ThreeEventsScenario()
    ensures FindSlotsSpec(Busy(), At(9, 0), 30, 3)
         == [Slot(At(10, 0), At(10, 30), 30), Slot(At(10, 30), At(11, 0), 30), Slot(At(12, 0), At(12, 30), 30)]
  {
    var ev := Busy();
    FirstTwoEventsFromNine(3);
    assert ev[..3] == ev;
    assert Fill(At(12, 0), At(12, 30), 30, 3, [Half(10, 0), Half(10, 30)])
        == Scan(At(12, 0), [Half(10, 0), Half(10, 30), Half(12, 0)], true);
  }

  /** test_slots_before_events: from 08:00 the slots are 08:00, 08:30 and 10:00. */
  lemma BeforeEventsScenario()
    ensures FindSlotsSpec(Busy(), At(8, 0), 30, 3)
         == [Slot(At(8, 0), At(8, 30), 30), Slot(At(8, 30), At(9, 0), 30), Slot(At(10, 0), At(10, 30), 30)]
  {
    var ev := Busy();
    var s0 := Scan(At(9, 0), [Half(8, 0), Half(8, 30)], false);
    assert Fill(At(8, 0), At(9, 0), 30, 3, []) == Fill(At(8, 30), At(9, 0), 30, 3, [Half(8, 0)]);
    assert Fill(At(8, 30), At(9, 0), 30, 3, [Half(8, 0)]) == Fill(At(9, 0), At(9, 0), 30, 3, [Half(8, 0), Half(8, 30)]);
    assert Opening(ev, At(8, 0), 30, 3) == s0;
    assert ev[..3] == ev && ev[..3][..2] == ev[..2] && ev[..2][..1] == ev[..1] && ev[..1][..0] == [];
    var s1 := Scan(At(10, 0), [Half(8, 0), Half(8, 30)], false);
    assert ScanEvents(s0, ev[..1], At(8, 0), 30, 3) == s1;
    assert Fill(At(10, 0), At(11, 0), 30, 3, s1.slots) == Scan(At(10, 0), s1.slots + [Half(10, 0)], true);
    assert ScanEvents(s0, ev[..2], At(8, 0), 30, 3).stopped;
    StoppedScanIsFinal(s0, ev, 2, At(8, 0), 30, 3);
  }

  /** test_respect_limit: one event 11:00-13:00, limit 3, the first slot starts at 09:00. */
  lemma RespectLimitScenario()
    ensures var r := FindSlotsSpec([CreateEvent(At(11, 0), 120)], At(9, 0), 30, 3);
      |r| == 3 && r[0] == Slot(At(9, 0), At(9, 30), 30)
  {
    var ev := [CreateEvent(At(11, 0), 120)];
    assert Fill(At(9, 0), At(11, 0), 30, 3, []) == Fill(At(9, 30), At(11, 0), 30, 3, [Half(9, 0)]);
    assert Fill(At(9, 30), At(11, 0), 30, 3, [Half(9, 0)])
        == Fill(At(10, 0), At(11, 0), 30, 3, [Half(9, 0), Half(9, 30)]);
    var s0 := Scan(At(10, 0), [Half(9, 0), Half(9, 30), Half(10, 0)], true);
    assert Opening(ev, At(9, 0), 30, 3) == s0;
    assert ev[..0] == [];
    StoppedScanIsFinal(s0, ev, 0, At(9, 0), 30, 3);
  }

  /** With events present a limit of zero still lets one slot out (the limit is checked after the append). */
  lemma ZeroLimitYieldsOneSlot()
    ensures FindSlotsSpec([CreateEvent(At(11, 0), 60)], At(9, 0), 30, 0) == [Slot(At(9, 0), At(9, 30), 30)]
  {
  }
}
