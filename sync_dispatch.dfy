/**
 * One pass of the dispatch loop in `schedule_sync`
 * (App/jobs/calender_sync.py:53-63): every agent whose last sync is missing
 * or older than the interval is claimed (`last_sync := now`) and then queued.
 */
module SyncDispatch {
  import opened Wrappers
  import opened Calendar

  /** One entry of `agent_list`. */
  datatype SyncTarget = SyncTarget(clientId: string, agentId: string, calendarUrl: string, lastSync: Option<Instant>)

  /** The due test: never synced, or last synced strictly before `now - intervalMins` minutes. */
  predicate IsDue(a: SyncTarget, now: Instant, intervalMins: int) {
    a.lastSync.None? || a.lastSync.value < now - Minutes(intervalMins)
  }

  /** Claiming an agent stamps it with `now`. */
  function Claim(a: SyncTarget, now: Instant): SyncTarget {
    a.(lastSync := Some(now))
  }

  /** `agent_list` after the pass: due agents claimed, the others untouched. */
  function Claimed(agents: seq<SyncTarget>, now: Instant, intervalMins: int): (r: seq<SyncTarget>)
    ensures |r| == |agents|
    ensures forall i :: 0 <= i < |agents| ==>
      r[i] == if IsDue(agents[i], now, intervalMins) then Claim(agents[i], now) else agents[i]
    decreases |agents|
  {
    if agents == [] then []
    else
      var last := agents[|agents| - 1];
      Claimed(agents[..|agents| - 1], now, intervalMins)
        + [if IsDue(last, now, intervalMins) then Claim(last, now) else last]
  }

  /** What the pass puts on the task queue, in `agent_list` order. */
  function Enqueued(agents: seq<SyncTarget>, now: Instant, intervalMins: int): seq<SyncTarget>
    decreases |agents|
  {
    if agents == [] then []
    else
      var last := agents[|agents| - 1];
      Enqueued(agents[..|agents| - 1], now, intervalMins)
        + (if IsDue(last, now, intervalMins) then [Claim(last, now)] else [])
  }

  /** Positions in `agent_list` of the due agents, ascending. */
  function DueIndices(agents: seq<SyncTarget>, now: Instant, intervalMins: int): (r: seq<nat>)
    ensures forall k :: 0 <= k < |r| ==> r[k] < |agents| && IsDue(agents[r[k]], now, intervalMins)
    ensures forall i :: 0 <= i < |agents| && IsDue(agents[i], now, intervalMins) ==> i in r
    ensures forall k1, k2 :: 0 <= k1 < k2 < |r| ==> r[k1] < r[k2]
    decreases |agents|
  {
    if agents == [] then []
    else
      var n := |agents| - 1;
      var front := DueIndices(agents[..n], now, intervalMins);
      assert forall i :: 0 <= i < n ==> agents[..n][i] == agents[i];
      front + (if IsDue(agents[n], now, intervalMins) then [n] else [])
  }

  /**
   * The queue receives exactly the due agents, each once, in `agent_list`
   * order, each already claimed: entry k is the claimed agent at the k-th
   * due position.
   */
  lemma {:induction false} EnqueuedAreClaimedDueAgents(agents: seq<SyncTarget>, now: Instant, intervalMins: int)
    ensures var q := Enqueued(agents, now, intervalMins);
      var idx := DueIndices(agents, now, intervalMins);
      && |q| == |idx|
      && forall k :: 0 <= k < |q| ==>
           q[k] == Claimed(agents, now, intervalMins)[idx[k]] && q[k].lastSync == Some(now)
    decreases |agents|
  {
    if agents != [] {
      var n := |agents| - 1;
      var front := agents[..n];
      EnqueuedAreClaimedDueAgents(front, now, intervalMins);
      assert forall i :: 0 <= i < n ==> front[i] == agents[i];
    }
  }

  /** If no agent is due, nothing is queued. */
  lemma {:induction false} NothingDueNothingQueued(agents: seq<SyncTarget>, now: Instant, intervalMins: int)
    requires forall i :: 0 <= i < |agents| ==> !IsDue(agents[i], now, intervalMins)
    ensures Enqueued(agents, now, intervalMins) == []
    decreases |agents|
  {
    if agents != [] {
      var n := |agents| - 1;
      assert forall i :: 0 <= i < n ==> agents[..n][i] == agents[i];
      NothingDueNothingQueued(agents[..n], now, intervalMins);
    }
  }

  /** A second pass at the same instant, with a non-negative interval, queues nothing and changes nothing. */
  lemma SecondTickIsQuiet(agents: seq<SyncTarget>, now: Instant, intervalMins: int)
    requires intervalMins >= 0
    ensures var after := Claimed(agents, now, intervalMins);
      Enqueued(after, now, intervalMins) == [] && Claimed(after, now, intervalMins) == after
  {
    var after := Claimed(agents, now, intervalMins);
    NothingDueNothingQueued(after, now, intervalMins);
  }

  /** The boundary is strict: an agent synced exactly one interval ago is neither claimed nor queued. */
  lemma ExactlyOneIntervalAgoIsNotDue(agents: seq<SyncTarget>, now: Instant, intervalMins: int, i: nat)
    requires i < |agents| && agents[i].lastSync == Some(now - Minutes(intervalMins))
    ensures Claimed(agents, now, intervalMins)[i] == agents[i]
    ensures i !in DueIndices(agents, now, intervalMins)
  {
  }

  /** The agent list and the task queue the dispatch loop shares with the consumers. */
  class Dispatcher {
    var agents: seq<SyncTarget>
    var queue: seq<SyncTarget>
    const intervalMins: int

    constructor (agentList: seq<SyncTarget>, intervalMins: int)
      ensures agents == agentList && queue == [] && this.intervalMins == intervalMins
    {
      agents := agentList;
      queue := [];
      this.intervalMins := intervalMins;
    }

    /** One pass over `agent_list` at instant `now`. */
    method Tick(now: Instant)
      modifies this
      ensures agents == Claimed(old(agents), now, intervalMins)
      ensures queue == old(queue) + Enqueued(old(agents), now, intervalMins)
    {
      ghost var before := agents;
      for i := 0 to |agents|
        invariant |agents| == |before|
        invariant agents[..i] == Claimed(before[..i], now, intervalMins)
        invariant agents[i..] == before[i..]
        invariant queue == old(queue) + Enqueued(before[..i], now, intervalMins)
      {
        assert before[..i + 1][..i] == before[..i];
        assert agents[i] == before[i];
        if IsDue(agents[i], now, intervalMins) {
          agents := agents[i := Claim(agents[i], now)];
          queue := queue + [agents[i]];
        }
        assert agents[..i + 1] == agents[..i] + [agents[i]];
      }
      assert before[..|before|] == before;
      assert agents[..|agents|] == agents;
    }
  }
}
