/**
 * The event table keyed by `calendar_id` and the insert-if-absent ingestion
 * of a decoded calendar feed, `sync_calendar_to_db` (App/dal/calender.py).
 */
module CalendarStore {
  import opened Wrappers
  import opened Calendar

  /** A decoded VEVENT: the properties the ingestion reads, each possibly absent. */
  datatype VEvent = VEvent(
    uid: string,
    summary: Option<string>,
    description: Option<string>,
    dtstart: Option<Instant>,
    dtend: Option<Instant>)

  /** A row of the `calendar_events` table; `end` is NULL when the VEVENT had no DTEND. */
  datatype StoredEvent = StoredEvent(
    calendarId: string,
    clientId: string,
    agentId: string,
    summary: string,
    description: string,
    start: Instant,
    end: Option<Instant>)

  /** A VEVENT with a new uid and without DTSTART makes `component.get('dtstart').dt` raise before the commit. */
  datatype SyncError = MissingStart(uid: string)

  /** The table, by primary key. */
  type Table = map<string, StoredEvent>

  /**
   * The row built for a new VEVENT: `str()` of a missing summary is "None",
   * a missing description defaults to "", a missing DTEND is stored as NULL.
   */
  function NewRow(clientId: string, agentId: string, v: VEvent): StoredEvent
    requires v.dtstart.Some?
  {
    StoredEvent(v.uid, clientId, agentId, v.summary.GetOr("None"), v.description.GetOr(""),
                v.dtstart.value, v.dtend)
  }

  /** One pass of the loop: skip a uid already stored (or added earlier in this feed), otherwise add its row. */
  function IngestOne(t: Table, clientId: string, agentId: string, v: VEvent): (r: Result<Table, SyncError>)
    ensures r.Failure? <==> v.uid !in t && v.dtstart.None?
    ensures r.Failure? ==> r.error == MissingStart(v.uid)
    ensures r.Success? ==> r.value.Keys == t.Keys + {v.uid}
    ensures r.Success? ==> forall k :: k in t ==> r.value[k] == t[k]
    ensures r.Success? && v.uid !in t ==> r.value[v.uid].calendarId == v.uid
  {
    if v.uid in t then Success(t)
    else if v.dtstart.None? then Failure(MissingStart(v.uid))
    else Success(t[v.uid := NewRow(clientId, agentId, v)])
  }

  /** The table the session holds after the VEVENTs of `feed`, in order; the first failure ends the run. */
  function Ingest(t: Table, clientId: string, agentId: string, feed: seq<VEvent>): (r: Result<Table, SyncError>)
    ensures r.Success? ==> t.Keys <= r.value.Keys
    ensures r.Failure? ==> exists i :: 0 <= i < |feed| && r.error == MissingStart(feed[i].uid) && feed[i].dtstart.None?
    decreases |feed|
  {
    if feed == [] then Success(t)
    else
      match Ingest(t, clientId, agentId, feed[..|feed| - 1])
      case Failure(e) => Failure(e)
      case Success(t') => IngestOne(t', clientId, agentId, feed[|feed| - 1])
  }

  /** The uids the feed mentions. */
  function Uids(feed: seq<VEvent>): set<string> {
    set i | 0 <= i < |feed| :: feed[i].uid
  }

  /** `feed[i]` is the first VEVENT of the feed with uid `k`. */
  ghost predicate FirstWithUid(feed: seq<VEvent>, i: int, k: string) {
    0 <= i < |feed| && feed[i].uid == k && forall j :: 0 <= j < i ==> feed[j].uid != k
  }

  /** The run reaches an insert for `feed[i]`: its uid is neither stored nor seen earlier in the feed. */
  ghost predicate Inserts(t: Table, feed: seq<VEvent>, i: int) {
    0 <= i < |feed| && feed[i].uid !in t && FirstWithUid(feed, i, feed[i].uid)
  }

  /** A failure is a failure of the whole run. */
  lemma {:induction false} FailureIsFinal(t: Table, clientId: string, agentId: string, feed: seq<VEvent>, j: nat)
    requires j <= |feed|
    requires Ingest(t, clientId, agentId, feed[..j]).Failure?
    ensures Ingest(t, clientId, agentId, feed) == Ingest(t, clientId, agentId, feed[..j])
    decreases |feed| - j
  {
    if j < |feed| {
      assert feed[..j + 1][..j] == feed[..j];
      FailureIsFinal(t, clientId, agentId, feed, j + 1);
    } else {
      assert feed[..j] == feed;
    }
  }

  /** The run over a non-empty feed is the run over all but its last VEVENT, then one more pass. */
  lemma IngestSnoc(t: Table, clientId: string, agentId: string, feed: seq<VEvent>)
    requires feed != []
    requires Ingest(t, clientId, agentId, feed).Success?
    ensures Ingest(t, clientId, agentId, feed[..|feed| - 1]).Success?
    ensures Ingest(t, clientId, agentId, feed)
         == IngestOne(Ingest(t, clientId, agentId, feed[..|feed| - 1]).value, clientId, agentId, feed[|feed| - 1])
  {
  }

  lemma UidsSnoc(feed: seq<VEvent>)
    requires feed != []
    ensures Uids(feed) == Uids(feed[..|feed| - 1]) + {feed[|feed| - 1].uid}
  {
    var front := feed[..|feed| - 1];
    assert forall i :: 0 <= i < |front| ==> front[i] == feed[i];
  }

  /** A successful run adds exactly the feed's uids to the keys; nothing is deleted. */
  lemma {:induction false} IngestKeys(t: Table, clientId: string, agentId: string, feed: seq<VEvent>)
    requires Ingest(t, clientId, agentId, feed).Success?
    ensures Ingest(t, clientId, agentId, feed).value.Keys == t.Keys + Uids(feed)
    decreases |feed|
  {
    if feed != [] {
      IngestKeys(t, clientId, agentId, feed[..|feed| - 1]);
      UidsSnoc(feed);
    }
  }

  /** A successful run leaves every stored row as it was, even when the feed mentions its uid. */
  lemma {:induction false} IngestKeepsStored(t: Table, clientId: string, agentId: string, feed: seq<VEvent>)
    requires Ingest(t, clientId, agentId, feed).Success?
    ensures var r := Ingest(t, clientId, agentId, feed).value;
      forall k :: k in t ==> k in r && r[k] == t[k]
    decreases |feed|
  {
    if feed != [] {
      IngestKeepsStored(t, clientId, agentId, feed[..|feed| - 1]);
    }
  }

  /** Each key a successful run adds holds the row built from the first VEVENT with that uid. */
  lemma {:induction false} IngestNewRows(t: Table, clientId: string, agentId: string, feed: seq<VEvent>)
    requires Ingest(t, clientId, agentId, feed).Success?
    ensures var r := Ingest(t, clientId, agentId, feed).value;
      forall k :: k in r && k !in t ==>
        exists i :: FirstWithUid(feed, i, k) && feed[i].dtstart.Some? && r[k] == NewRow(clientId, agentId, feed[i])
    decreases |feed|
  {
    if feed != [] {
      var n := |feed| - 1;
      var front := feed[..n];
      IngestSnoc(t, clientId, agentId, feed);
      IngestNewRows(t, clientId, agentId, front);
      IngestKeys(t, clientId, agentId, front);
      var t' := Ingest(t, clientId, agentId, front).value;
      var r := Ingest(t, clientId, agentId, feed).value;
      forall k | k in r && k !in t
        ensures exists i :: FirstWithUid(feed, i, k) && feed[i].dtstart.Some? && r[k] == NewRow(clientId, agentId, feed[i])
      {
        if k in t' {
          NewRowFromFront(t, t', r, clientId, agentId, feed, k);
        } else {
          NewRowFromLast(t, t', r, clientId, agentId, feed, k);
        }
      }
    }
  }

  lemma NewRowFromFront(t: Table, t': Table, r: Table, clientId: string, agentId: string, feed: seq<VEvent>, k: string)
    requires feed != []
    requires k in t' && k !in t
    requires var front := feed[..|feed| - 1];
      forall k :: k in t' && k !in t ==>
        exists i :: FirstWithUid(front, i, k) && front[i].dtstart.Some? && t'[k] == NewRow(clientId, agentId, front[i])
    requires IngestOne(t', clientId, agentId, feed[|feed| - 1]) == Success(r)
    ensures exists i :: FirstWithUid(feed, i, k) && feed[i].dtstart.Some? && r[k] == NewRow(clientId, agentId, feed[i])
  {
    var front := feed[..|feed| - 1];
    var i :| FirstWithUid(front, i, k) && front[i].dtstart.Some? && t'[k] == NewRow(clientId, agentId, front[i]);
    assert FirstWithUid(feed, i, k);
  }

  lemma NewRowFromLast(t: Table, t': Table, r: Table, clientId: string, agentId: string, feed: seq<VEvent>, k: string)
    requires feed != []
    requires k !in t' && k in r
    requires t'.Keys == t.Keys + Uids(feed[..|feed| - 1])
    requires IngestOne(t', clientId, agentId, feed[|feed| - 1]) == Success(r)
    ensures exists i :: FirstWithUid(feed, i, k) && feed[i].dtstart.Some? && r[k] == NewRow(clientId, agentId, feed[i])
  {
    var n := |feed| - 1;
    assert k == feed[n].uid;
    forall j | 0 <= j < n ensures feed[j].uid != k {
      assert feed[..n][j].uid in Uids(feed[..n]);
    }
    assert FirstWithUid(feed, n, k);
  }

  /** Every VEVENT the run would insert has a DTSTART. */
  ghost predicate StartsPresent(t: Table, feed: seq<VEvent>) {
    forall i :: Inserts(t, feed, i) ==> feed[i].dtstart.Some?
  }

  lemma InsertsSnoc(t: Table, feed: seq<VEvent>)
    requires feed != []
    ensures var n := |feed| - 1;
      && (forall i :: 0 <= i < n ==> (Inserts(t, feed[..n], i) <==> Inserts(t, feed, i)))
      && (Inserts(t, feed, n) <==> feed[n].uid !in t.Keys + Uids(feed[..n]))
  {
    var n := |feed| - 1;
    var front := feed[..n];
    if feed[n].uid !in t && feed[n].uid !in Uids(front) {
      forall j | 0 <= j < n ensures feed[j].uid != feed[n].uid {
        assert front[j].uid in Uids(front);
      }
    }
    if feed[n].uid in Uids(front) {
      var j :| 0 <= j < n && front[j].uid == feed[n].uid;
      assert feed[j].uid == feed[n].uid;
    }
  }

  lemma StartsPresentSnoc(t: Table, feed: seq<VEvent>)
    requires feed != []
    ensures var n := |feed| - 1;
      StartsPresent(t, feed) <==>
        StartsPresent(t, feed[..n]) && (feed[n].uid !in t.Keys + Uids(feed[..n]) ==> feed[n].dtstart.Some?)
  {
    var n := |feed| - 1;
    InsertsSnoc(t, feed);
    if StartsPresent(t, feed) {
      forall i | Inserts(t, feed[..n], i) ensures feed[..n][i].dtstart.Some? {
        assert Inserts(t, feed, i);
      }
    }
  }

  /** The run succeeds exactly when every VEVENT it would insert has a DTSTART. */
  lemma {:induction false} IngestSucceedsIff(t: Table, clientId: string, agentId: string, feed: seq<VEvent>)
    ensures Ingest(t, clientId, agentId, feed).Success? <==> StartsPresent(t, feed)
    decreases |feed|
  {
    if feed != [] {
      var n := |feed| - 1;
      var front := feed[..n];
      IngestSucceedsIff(t, clientId, agentId, front);
      StartsPresentSnoc(t, feed);
      if Ingest(t, clientId, agentId, front).Success? {
        IngestKeys(t, clientId, agentId, front);
      }
    }
  }

  /** A run over a feed whose uids are all stored changes nothing. */
  lemma {:induction false} IngestKnownFeedIsNoOp(t: Table, clientId: string, agentId: string, feed: seq<VEvent>)
    requires Uids(feed) <= t.Keys
    ensures Ingest(t, clientId, agentId, feed) == Success(t)
    decreases |feed|
  {
    if feed != [] {
      var n := |feed| - 1;
      assert Uids(feed[..n]) <= Uids(feed) by {
        forall i | 0 <= i < n ensures feed[..n][i].uid in Uids(feed) {
          assert feed[..n][i] == feed[i];
        }
      }
      IngestKnownFeedIsNoOp(t, clientId, agentId, feed[..n]);
      assert feed[n].uid in Uids(feed);
    }
  }

  /** Syncing the same feed again leaves the table as the first sync left it. */
  lemma IngestIdempotent(t: Table, clientId: string, agentId: string, feed: seq<VEvent>)
    requires Ingest(t, clientId, agentId, feed).Success?
    ensures var r := Ingest(t, clientId, agentId, feed).value;
      Ingest(r, clientId, agentId, feed) == Success(r)
  {
    IngestKeys(t, clientId, agentId, feed);
    IngestKnownFeedIsNoOp(Ingest(t, clientId, agentId, feed).value, clientId, agentId, feed);
  }

  /**
   * Every row a successful run adds carries its uid as key, the caller's
   * client and agent, the VEVENT's start, and the defaults for what the
   * VEVENT lacks.
   */
  lemma NewRowsCarryFeedFields(t: Table, clientId: string, agentId: string, feed: seq<VEvent>, k: string)
    requires Ingest(t, clientId, agentId, feed).Success?
    requires k in Ingest(t, clientId, agentId, feed).value && k !in t
    ensures var row := Ingest(t, clientId, agentId, feed).value[k];
      exists i :: FirstWithUid(feed, i, k)
        && row.calendarId == k && row.clientId == clientId && row.agentId == agentId
        && Some(row.start) == feed[i].dtstart && row.end == feed[i].dtend
        && row.summary == (if feed[i].summary.Some? then feed[i].summary.value else "None")
        && row.description == (if feed[i].description.Some? then feed[i].description.value else "")
  {
    IngestNewRows(t, clientId, agentId, feed);
  }

  /** The `calendar_events` table as the session commits it. */
  class EventTable {
    var rows: Table

    constructor ()
      ensures rows == map[]
    {
      rows := map[];
    }

    /**
     * `sync_calendar_to_db` over an already decoded feed: look each uid up
     * (pending additions included), add a row for each new one, then commit.
     * A VEVENT whose uid is not yet stored and that has no DTSTART aborts
     * before the commit and leaves the table as it was.
     */
    method SyncCalendar(clientId: string, agentId: string, feed: seq<VEvent>) returns (outcome: Outcome<SyncError>)
      modifies this
      ensures Ingest(old(rows), clientId, agentId, feed).Success? ==>
        outcome == Pass && rows == Ingest(old(rows), clientId, agentId, feed).value
      ensures Ingest(old(rows), clientId, agentId, feed).Failure? ==>
        outcome == Fail(Ingest(old(rows), clientId, agentId, feed).error) && rows == old(rows)
    {
      var pending := rows;
      for i := 0 to |feed|
        invariant rows == old(rows)
        invariant Ingest(rows, clientId, agentId, feed[..i]) == Success(pending)
      {
        assert feed[..i + 1][..i] == feed[..i];
        var component := feed[i];
        if component.uid in pending {
          continue;
        }
        if component.dtstart.None? {
          FailureIsFinal(rows, clientId, agentId, feed, i + 1);
          return Fail(MissingStart(component.uid));
        }
        pending := pending[component.uid := NewRow(clientId, agentId, component)];
      }
      assert feed[..|feed|] == feed;
      rows := pending;
      outcome := Pass;
    }
  }
}
