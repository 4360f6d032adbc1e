/**
 Browser sessions as one table of rows beside the display connections that are open on them.  Every service
 call, display event and background claim is one atomic step on a `Db`; a run is any interleaving of steps.
 */
module Sessions {
  import opened Wrappers

  type SessionId = nat
  type NodeId = nat
  type UserId = nat
  type ConnId = nat
  type Time = int

  datatype Status =
    | QUEUED | STARTING | ACTIVE | DISCONNECTED | ISOLATING | ISOLATED
    | TERMINATING | TERMINATED | FAILED

  predicate Dead(s: Status) {
    s in {TERMINATING, TERMINATED, FAILED}
  }

  /** What a background job's claim leaves behind until the job ends the session. */
  predicate Ending(s: Status) {
    s == STARTING || Dead(s)
  }

  /** The two statuses a teardown ends in. */
  predicate Settled(s: Status) {
    s in {TERMINATED, FAILED}
  }

  predicate Viewable(s: Status) {
    s in {ACTIVE, DISCONNECTED}
  }

  datatype Row = Row(
    user: UserId,
    node: Option<NodeId>,
    status: Status,
    createdAt: Time,
    startedAt: Option<Time>,
    lastActivity: Option<Time>,
    viewer: Option<Time>,
    endedAt: Option<Time>)
  {
    function UnattendedSince(): Time {
      if lastActivity.Some? then lastActivity.value
      else if startedAt.Some? then startedAt.value
      else createdAt
    }

    /** The reaper's WHERE clause. */
    predicate Unattended(cutoff: Time) {
      UnattendedSince() < cutoff && (status == DISCONNECTED || (status == ACTIVE && viewer.None?))
    }
  }

  /** A display connection remembers the stamp it wrote when it was opened. */
  datatype Conn = Conn(session: SessionId, stamp: Time)

  /** `open` holds the display connections whose handler is still running, `registry` the in-process registry. */
  datatype Db = Db(
    rows: map<SessionId, Row>,
    open: map<ConnId, Conn>,
    registry: map<SessionId, ConnId>)

  /** `ok` is the Session Agent's answer to the call the step makes. */
  datatype Event =
    | Create(id: SessionId, user: UserId, node: Option<NodeId>, ok: bool)
    | OwnerEnd(id: SessionId, ok: bool)
    | AdminKill(id: SessionId, ok: bool)
    | RevokeOne(id: SessionId, ok: bool)
    | Isolate(id: SessionId, ok: bool)
    | Restore(id: SessionId, ok: bool)
    | AdminDisconnect(id: SessionId)
    | Open(conn: ConnId, id: SessionId)
    | Close(conn: ConnId)
    | StartupReset
    | ReaperClaim(id: SessionId, seen: Status, cutoff: Time)
    | JobFinish(id: SessionId, ok: bool)
    | LostFail(id: SessionId)

  datatype Step = At(now: Time, event: Event)

  // -- Effects on one row ------------------------------------------------------------------------------

  function Created(user: UserId, node: Option<NodeId>, ok: bool, now: Time): Row {
    if ok then Row(user, node, ACTIVE, now, Some(now), Some(now), None, None)
    else Row(user, node, FAILED, now, None, None, None, None)
  }

  function Terminated(r: Row, ok: bool, now: Time): Row {
    if r.status == TERMINATED then r
    else if ok then r.(status := TERMINATED, endedAt := Some(now))
    else r.(status := FAILED)
  }

  function Isolated(r: Row, ok: bool): Row {
    r.(status := if ok then ISOLATED else FAILED)
  }

  function Restored(r: Row, ok: bool, now: Time): Row {
    if ok then r.(status := ACTIVE, viewer := None, lastActivity := Some(now)) else r.(status := FAILED)
  }

  function Opened(r: Row, now: Time): Row {
    r.(status := ACTIVE, lastActivity := Some(now), viewer := Some(now))
  }

  /** Both conditional UPDATEs of the display handler's cleanup. */
  function Closed(r: Row, stamp: Time, now: Time): Row {
    if r.viewer != Some(stamp) then r
    else if r.status == ACTIVE then r.(status := DISCONNECTED, lastActivity := Some(now), viewer := None)
    else r.(viewer := None)
  }

  function Reset(r: Row, now: Time): Row {
    if r.viewer.Some? || r.status == ACTIVE then r.(viewer := None, lastActivity := Some(now)) else r
  }

  function Lost(r: Row, now: Time): Row {
    r.(status := FAILED, endedAt := Some(now))
  }

  predicate ClaimMatches(db: Db, id: SessionId, seen: Status, cutoff: Time) {
    id in db.rows && db.rows[id].status == seen && db.rows[id].Unattended(cutoff)
  }

  /** Whether the guard of a step lets it act on the row of `id`. */
  predicate Accepts(db: Db, e: Event) {
    match e
    case Create(id, _, _, _) => id !in db.rows
    case OwnerEnd(id, _) => id in db.rows && db.rows[id].status !in {ISOLATING, ISOLATED}
    case AdminKill(id, _) => id in db.rows
    case RevokeOne(id, _) => id in db.rows && !Dead(db.rows[id].status)
    case Isolate(id, _) => id in db.rows && Viewable(db.rows[id].status)
    case Restore(id, _) => id in db.rows && db.rows[id].status == ISOLATED
    case AdminDisconnect(id) => id in db.rows && Viewable(db.rows[id].status)
    case Open(_, id) => id in db.rows && Viewable(db.rows[id].status)
    case Close(c) => c in db.open && db.open[c].session in db.rows
    case StartupReset => true
    case ReaperClaim(id, seen, cutoff) => ClaimMatches(db, id, seen, cutoff)
    case JobFinish(id, _) => id in db.rows && Ending(db.rows[id].status)
    case LostFail(id) => id in db.rows && db.rows[id].status in {ACTIVE, DISCONNECTED, ISOLATING, ISOLATED}
  }

  function Apply(db: Db, s: Step): Db {
    var now := s.now;
    if !Accepts(db, s.event) then db else
    match s.event
    case Create(id, user, node, ok) => db.(rows := db.rows[id := Created(user, node, ok, now)])
    case OwnerEnd(id, ok) => db.(rows := db.rows[id := Terminated(db.rows[id], ok, now)])
    case AdminKill(id, ok) => db.(rows := db.rows[id := Terminated(db.rows[id], ok, now)])
    case RevokeOne(id, ok) => db.(rows := db.rows[id := Terminated(db.rows[id], ok, now)])
    case Isolate(id, ok) => db.(rows := db.rows[id := Isolated(db.rows[id], ok)])
    case Restore(id, ok) => db.(rows := db.rows[id := Restored(db.rows[id], ok, now)])
    case AdminDisconnect(id) =>
      db.(rows := db.rows[id := db.rows[id].(status := DISCONNECTED, lastActivity := Some(now))])
    case Open(c, id) =>
      db.(rows := db.rows[id := Opened(db.rows[id], now)], open := db.open[c := Conn(id, now)], registry := db.registry[id := c])
    case Close(c) =>
      var k := db.open[c];
      db.(rows := db.rows[k.session := Closed(db.rows[k.session], k.stamp, now)],
          open := db.open - {c},
          registry := if k.session in db.registry && db.registry[k.session] == c then db.registry - {k.session} else db.registry)
    case StartupReset =>
      Db(map id | id in db.rows :: Reset(db.rows[id], now), map[], map[])
    case ReaperClaim(id, _, _) =>
      db.(rows := db.rows[id := db.rows[id].(status := TERMINATING)])
    case JobFinish(id, ok) => db.(rows := db.rows[id := Terminated(db.rows[id], ok, now)])
    case LostFail(id) => db.(rows := db.rows[id := Lost(db.rows[id], now)], registry := db.registry - {id})
  }

  function Run(db: Db, steps: seq<Step>): Db
    decreases |steps|
  {
    if steps == [] then db else Run(Apply(db, steps[0]), steps[1..])
  }

  lemma {:induction false} RunAppend(db: Db, a: seq<Step>, b: seq<Step>)
    ensures Run(db, a + b) == Run(Run(db, a), b)
    decreases |a|
  {
    if a == [] {
      assert a + b == b;
    } else {
      assert (a + b)[1..] == a[1..] + b;
      RunAppend(Apply(db, a[0]), a[1..], b);
    }
  }

  // -- The state machine -------------------------------------------------------------------------------

  /** What one step may do to the status of a row: rows stay, death is final, termination is frozen. */
  ghost predicate Edge(a: Row, b: Row) {
    && (Dead(a.status) ==> Dead(b.status))
    && (Settled(a.status) ==> Settled(b.status))
    && (Ending(a.status) ==> Ending(b.status))
    && (a.status == TERMINATED ==> b.status == TERMINATED && b.endedAt == a.endedAt)
    && (b.status == TERMINATED && a.status != TERMINATED ==> b.endedAt.Some?)
  }

  lemma StepFollowsEdge(db: Db, s: Step, id: SessionId)
    requires id in db.rows
    ensures id in Apply(db, s).rows && Edge(db.rows[id], Apply(db, s).rows[id])
  {
    if s.event.OwnerEnd? || s.event.AdminKill? || s.event.RevokeOne? || s.event.JobFinish? {
      EndFollowsEdge(db, s, id);
    }
  }

  lemma EndFollowsEdge(db: Db, s: Step, id: SessionId)
    requires id in db.rows && (s.event.OwnerEnd? || s.event.AdminKill? || s.event.RevokeOne? || s.event.JobFinish?)
    ensures id in Apply(db, s).rows && Edge(db.rows[id], Apply(db, s).rows[id])
  {
  }

  /** Over any run: no row disappears, no dead session comes back, a terminated one is frozen and dated. */
  lemma {:induction false} DeathIsFinal(db: Db, steps: seq<Step>, id: SessionId)
    requires id in db.rows
    ensures id in Run(db, steps).rows && Edge(db.rows[id], Run(db, steps).rows[id])
    decreases |steps|
  {
    if steps != [] {
      StepFollowsEdge(db, steps[0], id);
      DeathIsFinal(Apply(db, steps[0]), steps[1..], id);
    }
  }

  /** Only an administrator's end, revoke or restore, or the reconciler, takes a session out of isolation. */
  predicate EndsIsolation(e: Event, id: SessionId) {
    match e
    case AdminKill(i, _) => i == id
    case RevokeOne(i, _) => i == id
    case Restore(i, _) => i == id
    case LostFail(i) => i == id
    case _ => false
  }

  lemma StepKeepsIsolation(db: Db, s: Step, id: SessionId)
    requires id in db.rows && db.rows[id].status == ISOLATED
    ensures Apply(db, s).rows[id].status == ISOLATED || EndsIsolation(s.event, id)
  {
    StepFollowsEdge(db, s, id);
  }

  /** However a run ends an isolation, some step of that kind did it: never the owner, never the reaper. */
  lemma {:induction false} IsolationEndedBy(db: Db, steps: seq<Step>, id: SessionId) returns (k: nat)
    requires id in db.rows && db.rows[id].status == ISOLATED
    requires id in Run(db, steps).rows && Run(db, steps).rows[id].status != ISOLATED
    ensures k < |steps| && EndsIsolation(steps[k].event, id)
    ensures id in Run(db, steps[..k]).rows && Run(db, steps[..k]).rows[id].status == ISOLATED
    decreases |steps|
  {
    var db' := Apply(db, steps[0]);
    StepFollowsEdge(db, steps[0], id);
    if db'.rows[id].status == ISOLATED {
      var j := IsolationEndedBy(db', steps[1..], id);
      k := j + 1;
      assert steps[..k][0] == steps[0] && steps[..k][1..] == steps[1..][..j];
    } else {
      StepKeepsIsolation(db, steps[0], id);
      k := 0;
    }
  }

  // -- Viewer stamps -----------------------------------------------------------------------------------

  /** No two connections open on one session carry the same stamp. */
  ghost predicate StampsUnique(db: Db) {
    forall c, d | c in db.open && d in db.open && c != d ::
      db.open[c].session != db.open[d].session || db.open[c].stamp != db.open[d].stamp
  }

  ghost predicate Owned(db: Db, id: SessionId, stamp: Time) {
    exists c :: c in db.open && db.open[c] == Conn(id, stamp)
  }

  /** Every stored stamp and every registry entry belongs to a connection that is still open. */
  ghost predicate ViewersOwned(db: Db) {
    && StampsUnique(db)
    && (forall id | id in db.rows && db.rows[id].viewer.Some? :: Owned(db, id, db.rows[id].viewer.value))
    && (forall id | id in db.registry :: db.registry[id] in db.open && db.open[db.registry[id]].session == id)
    && (forall c | c in db.open :: db.open[c].session in db.rows)
  }

  /** A connection is new, and no other connection open on the session was stamped at the same instant. */
  ghost predicate FreshOpen(db: Db, s: Step) {
    s.event.Open? ==>
      && s.event.conn !in db.open
      && forall c | c in db.open && db.open[c].session == s.event.id :: db.open[c].stamp != s.now
  }

  ghost predicate FreshRun(db: Db, steps: seq<Step>)
    decreases |steps|
  {
    steps == [] || (FreshOpen(db, steps[0]) && FreshRun(Apply(db, steps[0]), steps[1..]))
  }

  lemma CloseKeepsViewersOwned(db: Db, now: Time, c: ConnId)
    requires ViewersOwned(db) && c in db.open
    ensures ViewersOwned(Apply(db, At(now, Close(c))))
  {
    var db' := Apply(db, At(now, Close(c)));
    forall id | id in db'.rows && db'.rows[id].viewer.Some? ensures Owned(db', id, db'.rows[id].viewer.value) {
      var t := db.rows[id].viewer.value;
      var d :| d in db.open && db.open[d] == Conn(id, t);
      assert d != c && d in db'.open;
    }
  }

  lemma OpenKeepsViewersOwned(db: Db, now: Time, c: ConnId, id: SessionId)
    requires ViewersOwned(db) && FreshOpen(db, At(now, Open(c, id)))
    ensures ViewersOwned(Apply(db, At(now, Open(c, id))))
  {
    var db' := Apply(db, At(now, Open(c, id)));
    if Accepts(db, Open(c, id)) {
      forall i | i in db'.rows && db'.rows[i].viewer.Some? ensures Owned(db', i, db'.rows[i].viewer.value) {
        if i == id {
          assert db'.open[c] == Conn(i, now);
        } else {
          var d :| d in db.open && db.open[d] == Conn(i, db.rows[i].viewer.value);
          assert d in db'.open && db'.open[d] == db.open[d];
        }
      }
    }
  }

  lemma StepKeepsViewersOwned(db: Db, s: Step)
    requires ViewersOwned(db) && FreshOpen(db, s)
    ensures ViewersOwned(Apply(db, s))
  {
    match s.event
    case Open(c, id) => OpenKeepsViewersOwned(db, s.now, c, id);
    case Close(c) =>
      if c in db.open {
        CloseKeepsViewersOwned(db, s.now, c);
      }
    case StartupReset =>
    case _ =>
      var db' := Apply(db, s);
      OtherStepsKeepStamps(db, s);
      forall i | i in db'.rows && db'.rows[i].viewer.Some? ensures Owned(db', i, db'.rows[i].viewer.value) {
        assert Owned(db, i, db.rows[i].viewer.value);
      }
  }

  /** Steps that are neither display events nor a restart write no stamp and close no connection. */
  lemma OtherStepsKeepStamps(db: Db, s: Step)
    requires !s.event.Open? && !s.event.Close? && !s.event.StartupReset?
    ensures var db' := Apply(db, s);
            && db'.open == db.open
            && db.rows.Keys <= db'.rows.Keys
            && (forall i | i in db'.rows && db'.rows[i].viewer.Some? :: i in db.rows && db.rows[i].viewer == db'.rows[i].viewer)
            && (forall i <- db'.registry :: i in db.registry && db'.registry[i] == db.registry[i])
  {
  }

  /** Over any run of steps, tabs opened and closed in any order among them. */
  lemma {:induction false} ViewersOwnedThroughout(db: Db, steps: seq<Step>)
    requires ViewersOwned(db) && FreshRun(db, steps)
    ensures ViewersOwned(Run(db, steps))
    decreases |steps|
  {
    if steps != [] {
      StepKeepsViewersOwned(db, steps[0]);
      ViewersOwnedThroughout(Apply(db, steps[0]), steps[1..]);
    }
  }

  /**
   Closing a connection, whatever the stamps: it changes its session's row iff the stored stamp equals its own,
   then clears the stamp, and changes the status iff the session was ACTIVE besides, to DISCONNECTED.
   */
  lemma CloseTouchesOnlyItsOwnStamp(db: Db, now: Time, c: ConnId)
    requires c in db.open && db.open[c].session in db.rows
    ensures var k := db.open[c];
            var r, r' := db.rows[k.session], Apply(db, At(now, Close(c))).rows[k.session];
            && (r' != r <==> r.viewer == Some(k.stamp))
            && (r' != r ==> r'.viewer == None)
            && (r'.status != r.status <==> r.status == ACTIVE && r.viewer == Some(k.stamp))
            && (r'.status != r.status ==> r'.status == DISCONNECTED)
            && (forall id | id in db.rows && id != k.session :: Apply(db, At(now, Close(c))).rows[id] == db.rows[id])
  {
  }

  /** So closing one connection changes a row that shows another of the session exactly if their stamps are equal. */
  lemma CloseTouchesOtherIffEqualStamps(db: Db, now: Time, c: ConnId, d: ConnId)
    requires c in db.open && d in db.open && c != d && db.open[c].session == db.open[d].session
    requires db.open[c].session in db.rows && db.rows[db.open[c].session].viewer == Some(db.open[d].stamp)
    ensures var id := db.open[c].session;
            Apply(db, At(now, Close(c))).rows[id] != db.rows[id] <==> db.open[c].stamp == db.open[d].stamp
  {
  }

  /** Uniqueness of stamps matters: with equal ones, closing the older tab disconnects the newer. */
  lemma EqualStampsDisconnect()
    ensures var row := Row(7, None, ACTIVE, 0, Some(0), Some(5), Some(5), None);
            var db := Db(map[1 := row], map[10 := Conn(1, 5), 11 := Conn(1, 5)], map[1 := 11]);
            var db' := Apply(db, At(6, Close(10)));
            11 in db'.open && db'.rows[1].status == DISCONNECTED && db'.registry == map[1 := 11]
  {
  }

  // -- Which tab the row follows -----------------------------------------------------------------------

  /** A run in which only tabs of the session come and go. */
  predicate IsTabStep(db: Db, s: Step, id: SessionId) {
    match s.event
    case Open(_, i) => i == id
    case Close(c) => c in db.open && db.open[c].session == id
    case _ => false
  }

  ghost predicate TabRun(db: Db, steps: seq<Step>, id: SessionId)
    decreases |steps|
  {
    steps == [] || (IsTabStep(db, steps[0], id) && TabRun(Apply(db, steps[0]), steps[1..], id))
  }

  /** `k` is the last opening in the run, and the tab it opened was not closed afterwards. */
  ghost predicate LastOpenedStillOpen(steps: seq<Step>, k: nat) {
    && k < |steps| && steps[k].event.Open?
    && forall j | k < j < |steps| :: !steps[j].event.Open? && steps[j].event != Close(steps[k].event.conn)
  }

  /** The row of a session shows exactly one connection as its viewer, or none. */
  ghost predicate Shows(db: Db, id: SessionId, viewer: Option<ConnId>)
    requires id in db.rows
  {
    match viewer
    case None =>
      db.rows[id].viewer == None && db.rows[id].status == DISCONNECTED && id !in db.registry
    case Some(c) =>
      && c in db.open && db.open[c].session == id
      && db.rows[id].viewer == Some(db.open[c].stamp) && db.rows[id].status == ACTIVE
      && id in db.registry && db.registry[id] == c
  }

  lemma OpeningShows(db: Db, now: Time, c: ConnId, id: SessionId)
    requires id in db.rows && Viewable(db.rows[id].status)
    ensures var db' := Apply(db, At(now, Open(c, id))); id in db'.rows && Shows(db', id, Some(c))
  {
  }

  lemma ClosingShows(db: Db, now: Time, c: ConnId, id: SessionId, viewer: Option<ConnId>)
    requires ViewersOwned(db) && id in db.rows && c in db.open && db.open[c].session == id && Shows(db, id, viewer)
    ensures var db' := Apply(db, At(now, Close(c)));
            id in db'.rows && Shows(db', id, if viewer == Some(c) then None else viewer)
  {
  }

  /**
   Status, stamp and registry all follow the tab opened last, and only that one: the session is ACTIVE with
   a viewer iff the last opened tab is still open, whatever older tabs are doing.
   */
  lemma {:induction false} RowFollowsLastTab(db: Db, steps: seq<Step>, id: SessionId)
    requires ViewersOwned(db) && id in db.rows && Shows(db, id, None)
    requires FreshRun(db, steps) && TabRun(db, steps, id)
    ensures id in Run(db, steps).rows
    ensures forall k: nat | LastOpenedStillOpen(steps, k) :: Shows(Run(db, steps), id, Some(steps[k].event.conn))
    ensures (forall k: nat :: !LastOpenedStillOpen(steps, k)) ==> Shows(Run(db, steps), id, None)
    decreases |steps|
  {
    if steps != [] {
      var last := |steps| - 1;
      var before := steps[..last];
      assert steps == before + [steps[last]];
      RunAppend(db, before, [steps[last]]);
      SplitRun(db, before, [steps[last]], id);
      RowFollowsLastTab(db, before, id);
      ViewersOwnedThroughout(db, before);
      var mid := Run(db, before);
      assert Run(db, steps) == Apply(mid, steps[last]);
      match steps[last].event
      case Open(c, _) =>
        OpeningShows(mid, steps[last].now, c, id);
        assert LastOpenedStillOpen(steps, last);
        forall k: nat | LastOpenedStillOpen(steps, k) ensures k == last {
        }
      case Close(c) =>
        ClosingLast(steps, c);
        if k: nat :| LastOpenedStillOpen(before, k) {
          var viewer := before[k].event.conn;
          ClosingShows(mid, steps[last].now, c, id, Some(viewer));
          forall j: nat | LastOpenedStillOpen(before, j) ensures j == k {
            LastIsUnique(before, j, k);
          }
        } else {
          ClosingShows(mid, steps[last].now, c, id, None);
        }
    }
  }

  // -- Which sessions the reaper may claim -------------------------------------------------------------

  predicate Attended(r: Row) {
    r.status == ACTIVE && r.viewer.Some?
  }

  /** The last step that dealt with the session opened a display on it, or it began that way and none did. */
  predicate LastTouchOpens(db: Db, steps: seq<Step>, id: SessionId) {
    if steps == [] then id in db.rows && Attended(db.rows[id])
    else
      var before := Run(db, steps[..|steps| - 1]);
      var last := steps[|steps| - 1];
      if Touches(before, last, id) then last.event.Open? else LastTouchOpens(db, steps[..|steps| - 1], id)
  }

  /** Among usable sessions only a step that touches one changes whether it is attended. */
  lemma StepAttends(db: Db, s: Step, id: SessionId)
    requires id in Apply(db, s).rows && Viewable(Apply(db, s).rows[id].status)
    ensures var r' := Apply(db, s).rows[id];
            if Touches(db, s, id) then Attended(r') <==> s.event.Open?
            else if id in db.rows then Viewable(db.rows[id].status) && (Attended(r') <==> Attended(db.rows[id]))
            else !Attended(r')
  {
  }

  lemma {:induction false} NeverTouched(db: Db, steps: seq<Step>, id: SessionId)
    requires id !in Run(db, steps).rows
    ensures !LastTouchOpens(db, steps, id)
  {
    if steps == [] {
    } else {
      var before := steps[..|steps| - 1];
      assert steps == before + [steps[|steps| - 1]];
      RunAppend(db, before, [steps[|steps| - 1]]);
      RunOne(Run(db, before), steps[|steps| - 1]);
      if id in Run(db, before).rows {
        StepFollowsEdge(Run(db, before), steps[|steps| - 1], id);
      } else {
        NeverTouched(db, before, id);
      }
    }
  }

  lemma RunOne(db: Db, s: Step)
    ensures Run(db, [s]) == Apply(db, s)
  {
    assert [s][1..] == [];
    assert Run(db, [s]) == Run(Apply(db, s), []);
  }

  /** A usable session is attended iff the step that last touched it opened a display. */
  lemma {:induction false} AttendedIffLastTouchOpens(db: Db, steps: seq<Step>, id: SessionId)
    requires id in Run(db, steps).rows && Viewable(Run(db, steps).rows[id].status)
    ensures Attended(Run(db, steps).rows[id]) <==> LastTouchOpens(db, steps, id)
  {
    if steps == [] {
    } else {
      var last := steps[|steps| - 1];
      var before := steps[..|steps| - 1];
      assert steps == before + [last];
      RunAppend(db, before, [last]);
      RunOne(Run(db, before), last);
      StepAttends(Run(db, before), last, id);
      if !Touches(Run(db, before), last, id) {
        if id in Run(db, before).rows {
          AttendedIffLastTouchOpens(db, before, id);
        } else {
          NeverTouched(db, before, id);
        }
      }
    }
  }

  /** The connection whose opening was the last step that dealt with the session. */
  function LastOpener(db: Db, steps: seq<Step>, id: SessionId): Option<ConnId> {
    if steps == [] then None
    else
      var before := Run(db, steps[..|steps| - 1]);
      var last := steps[|steps| - 1];
      if Touches(before, last, id) then (if last.event.Open? then Some(last.event.conn) else None)
      else LastOpener(db, steps[..|steps| - 1], id)
  }

  lemma {:induction false} FreshPrefix(db: Db, a: seq<Step>, b: seq<Step>)
    requires FreshRun(db, a + b)
    ensures FreshRun(db, a) && FreshRun(Run(db, a), b)
    decreases |a|
  {
    if a == [] {
      assert a + b == b;
    } else {
      assert (a + b)[1..] == a[1..] + b;
      FreshPrefix(Apply(db, a[0]), a[1..], b);
    }
  }

  /** A usable session goes on showing its viewer until a step touches it. */
  lemma StepShows(db: Db, s: Step, id: SessionId, c: ConnId)
    requires ViewersOwned(db) && FreshOpen(db, s) && id in db.rows && Shows(db, id, Some(c)) && !Touches(db, s, id)
    requires id in Apply(db, s).rows && Viewable(Apply(db, s).rows[id].status)
    ensures Shows(Apply(db, s), id, Some(c))
  {
    if s.event.Close? && s.event.conn in db.open && db.open[s.event.conn].session == id {
      ClosingShows(db, s.now, s.event.conn, id, Some(c));
    } else {
      OthersKeepShowing(db, s, id, c);
    }
  }

  lemma OthersKeepShowing(db: Db, s: Step, id: SessionId, c: ConnId)
    requires FreshOpen(db, s) && id in db.rows && Shows(db, id, Some(c)) && !Touches(db, s, id)
    requires id in Apply(db, s).rows && Viewable(Apply(db, s).rows[id].status)
    requires s.event.Close? && s.event.conn in db.open ==> db.open[s.event.conn].session != id
    ensures Shows(Apply(db, s), id, Some(c))
  {
  }

  /**
   Over every run of every kind of step: status, stamp and registry of a usable session all show the connection
   whose opening touched it last, and that connection is still open.
   */
  lemma {:induction false} RowShowsLastOpener(db: Db, steps: seq<Step>, id: SessionId, c: ConnId)
    requires ViewersOwned(db) && FreshRun(db, steps)
    requires id in Run(db, steps).rows && Viewable(Run(db, steps).rows[id].status) && LastOpener(db, steps, id) == Some(c)
    ensures Shows(Run(db, steps), id, Some(c))
  {
    var last := steps[|steps| - 1];
    var before := steps[..|steps| - 1];
    assert steps == before + [last];
    RunAppend(db, before, [last]);
    RunOne(Run(db, before), last);
    FreshPrefix(db, before, [last]);
    if Touches(Run(db, before), last, id) {
      OpeningShows(Run(db, before), last.now, c, id);
    } else {
      StepAttends(Run(db, before), last, id);
      if id in Run(db, before).rows {
        ViewersOwnedThroughout(db, before);
        RowShowsLastOpener(db, before, id, c);
        StepShows(Run(db, before), last, id, c);
      } else {
        NoOpener(db, before, id);
      }
    }
  }

  lemma {:induction false} NoOpener(db: Db, steps: seq<Step>, id: SessionId)
    requires id !in Run(db, steps).rows
    ensures LastOpener(db, steps, id) == None
  {
    if steps != [] {
      var before := steps[..|steps| - 1];
      assert steps == before + [steps[|steps| - 1]];
      RunAppend(db, before, [steps[|steps| - 1]]);
      RunOne(Run(db, before), steps[|steps| - 1]);
      if id in Run(db, before).rows {
        StepFollowsEdge(Run(db, before), steps[|steps| - 1], id);
      } else {
        NoOpener(db, before, id);
      }
    }
  }

  /**
   Exactly when a usable session past the cutoff is the reaper's, over every run of every kind of step: iff
   the step that last touched it was not an opening, older displays that are still open notwithstanding.
   */
  lemma ReapableIffLastTouchNotOpening(db: Db, steps: seq<Step>, id: SessionId, cutoff: Time)
    requires id in Run(db, steps).rows && Viewable(Run(db, steps).rows[id].status)
    requires Run(db, steps).rows[id].UnattendedSince() < cutoff
    ensures (exists seen :: ClaimMatches(Run(db, steps), id, seen, cutoff)) <==> !LastTouchOpens(db, steps, id)
  {
    AttendedIffLastTouchOpens(db, steps, id);
    if !LastTouchOpens(db, steps, id) {
      assert ClaimMatches(Run(db, steps), id, Run(db, steps).rows[id].status, cutoff);
    }
  }

  /**
   For runs of tabs only, in terms of the tabs: the session is left to the reaper iff the tab opened last is
   closed.
   */
  lemma ReapableIffLastTabClosed(db: Db, steps: seq<Step>, id: SessionId, cutoff: Time)
    requires ViewersOwned(db) && id in db.rows && Shows(db, id, None)
    requires FreshRun(db, steps) && TabRun(db, steps, id)
    requires id in Run(db, steps).rows && Run(db, steps).rows[id].UnattendedSince() < cutoff
    ensures (exists seen :: ClaimMatches(Run(db, steps), id, seen, cutoff)) <==> !exists k: nat :: LastOpenedStillOpen(steps, k)
  {
    RowFollowsLastTab(db, steps, id);
    if !exists k: nat :: LastOpenedStillOpen(steps, k) {
      assert ClaimMatches(Run(db, steps), id, DISCONNECTED, cutoff);
    }
  }

  /** A closing at the end only matters to the tab it closes. */
  lemma ClosingLast(steps: seq<Step>, c: ConnId)
    requires steps != [] && steps[|steps| - 1].event == Close(c)
    ensures forall k: nat :: LastOpenedStillOpen(steps, k) <==>
              LastOpenedStillOpen(steps[..|steps| - 1], k) && steps[k].event.conn != c
  {
    var before := steps[..|steps| - 1];
    forall k: nat
      ensures LastOpenedStillOpen(steps, k) <==> LastOpenedStillOpen(before, k) && steps[k].event.conn != c
    {
      if LastOpenedStillOpen(before, k) && steps[k].event.conn != c {
        assert forall j | k < j < |before| :: steps[j] == before[j];
      }
      if LastOpenedStillOpen(steps, k) {
        assert steps[|steps| - 1].event != Close(steps[k].event.conn);
        assert forall j | k < j < |before| :: before[j] == steps[j];
      }
    }
  }

  lemma LastIsUnique(steps: seq<Step>, j: nat, k: nat)
    requires LastOpenedStillOpen(steps, j) && LastOpenedStillOpen(steps, k)
    ensures j == k
  {
  }

  lemma {:induction false} SplitRun(db: Db, a: seq<Step>, b: seq<Step>, id: SessionId)
    requires FreshRun(db, a + b) && TabRun(db, a + b, id)
    ensures FreshRun(db, a) && TabRun(db, a, id)
    ensures FreshRun(Run(db, a), b) && TabRun(Run(db, a), b, id)
    decreases |a|
  {
    if a == [] {
      assert a + b == b;
    } else {
      assert (a + b)[1..] == a[1..] + b;
      SplitRun(Apply(db, a[0]), a[1..], b, id);
    }
  }

  /**
   So the documented promise that a session somebody is looking at is never timed out fails when a second
   tab was opened and closed: the first tab is still open here, and the reaper's claim matches.
   */
  lemma WatchedSessionCanBeClaimed()
    ensures var row := Row(7, None, DISCONNECTED, 0, Some(0), Some(0), None, None);
            var db := Db(map[1 := row], map[], map[]);
            var db' := Run(db, [At(1, Open(10, 1)), At(2, Open(11, 1)), At(3, Close(11))]);
            10 in db'.open && db'.open[10].session == 1 && ClaimMatches(db', 1, DISCONNECTED, 4)
  {
    var row := Row(7, None, DISCONNECTED, 0, Some(0), Some(0), None, None);
    var db := Db(map[1 := row], map[], map[]);
    var s1, s2, s3 := At(1, Open(10, 1)), At(2, Open(11, 1)), At(3, Close(11));
    var db2 := Apply(Apply(db, s1), s2);
    assert db2.open[10] == Conn(1, 1) && db2.open[11] == Conn(1, 2) && db2.rows[1].viewer == Some(2);
    RunThree(db, s1, s2, s3);
  }

  /** Likewise after an administrator's disconnect, until the display connection is really gone. */
  lemma DisconnectedViewerCanBeClaimed()
    ensures var row := Row(7, None, ACTIVE, 0, Some(0), Some(0), None, None);
            var db' := Apply(Apply(Db(map[1 := row], map[], map[]), At(1, Open(10, 1))), At(2, AdminDisconnect(1)));
            10 in db'.open && db'.rows[1].viewer == Some(1) && ClaimMatches(db', 1, DISCONNECTED, 3)
  {
  }

  lemma RunThree(db: Db, s1: Step, s2: Step, s3: Step)
    ensures Run(db, [s1, s2, s3]) == Apply(Apply(Apply(db, s1), s2), s3)
  {
    assert [s1, s2, s3][1..] == [s2, s3] && [s2, s3][1..] == [s3] && [s3][1..] == [];
    assert Run(Apply(Apply(db, s1), s2), [s3]) == Run(Apply(Apply(Apply(db, s1), s2), s3), []);
  }

  // -- The reaper against viewers ----------------------------------------------------------------------

  /** A step that shows somebody dealt with the session: connect, close, restore, disconnect, restart. */
  predicate Touches(db: Db, s: Step, id: SessionId) {
    id in db.rows && Accepts(db, s.event) &&
    match s.event
    case Open(_, i) => i == id
    case Close(c) => db.open[c].session == id && db.rows[id].status == ACTIVE && db.rows[id].viewer == Some(db.open[c].stamp)
    case Restore(i, ok) => i == id && ok
    case AdminDisconnect(i) => i == id
    case StartupReset => db.rows[id].viewer.Some? || db.rows[id].status == ACTIVE
    case _ => false
  }

  /** No step happens before `t`. */
  ghost predicate NotBefore(steps: seq<Step>, t: Time) {
    forall s <- steps :: t <= s.now
  }

  /** What a step may make of the activity of a row: its old one, or the time of the step. */
  predicate Restamps(a: Row, b: Row, now: Time) {
    (b.lastActivity == a.lastActivity && b.startedAt == a.startedAt && b.createdAt == a.createdAt) || b.lastActivity == Some(now)
  }

  lemma EffectsRestamp(r: Row, ok: bool, stamp: Time, now: Time)
    ensures Restamps(r, Terminated(r, ok, now), now) && Restamps(r, Isolated(r, ok), now) && Restamps(r, Restored(r, ok, now), now)
    ensures Restamps(r, Opened(r, now), now) && Restamps(r, Closed(r, stamp, now), now) && Restamps(r, Reset(r, now), now)
    ensures Restamps(r, Lost(r, now), now)
  {
  }

  lemma StepRestamps(db: Db, s: Step, id: SessionId)
    requires id in db.rows
    ensures id in Apply(db, s).rows && Restamps(db.rows[id], Apply(db, s).rows[id], s.now)
  {
    match s.event
    case Close(c) =>
      if c in db.open {
        EffectsRestamp(db.rows[id], false, db.open[c].stamp, s.now);
      }
    case OwnerEnd(_, ok) => EffectsRestamp(db.rows[id], ok, 0, s.now);
    case AdminKill(_, ok) => EffectsRestamp(db.rows[id], ok, 0, s.now);
    case RevokeOne(_, ok) => EffectsRestamp(db.rows[id], ok, 0, s.now);
    case Isolate(_, ok) => EffectsRestamp(db.rows[id], ok, 0, s.now);
    case Restore(_, ok) => EffectsRestamp(db.rows[id], ok, 0, s.now);
    case JobFinish(_, ok) => EffectsRestamp(db.rows[id], ok, 0, s.now);
    case _ => EffectsRestamp(db.rows[id], false, 0, s.now);
  }

  /** Activity is only ever stamped with the time of the step. */
  lemma StepKeepsRecent(db: Db, s: Step, id: SessionId, cutoff: Time)
    requires id in db.rows && db.rows[id].UnattendedSince() >= cutoff && cutoff <= s.now
    ensures var db' := Apply(db, s); id in db'.rows && db'.rows[id].UnattendedSince() >= cutoff
  {
    StepRestamps(db, s, id);
  }

  /** A session whose activity is at least the cutoff stays so, hence out of the reaper's reach. */
  lemma {:induction false} RecentStaysRecent(db: Db, steps: seq<Step>, id: SessionId, cutoff: Time)
    requires id in db.rows && db.rows[id].UnattendedSince() >= cutoff && NotBefore(steps, cutoff)
    ensures id in Run(db, steps).rows && Run(db, steps).rows[id].UnattendedSince() >= cutoff
    decreases |steps|
  {
    if steps != [] {
      StepKeepsRecent(db, steps[0], id, cutoff);
      RecentStaysRecent(Apply(db, steps[0]), steps[1..], id, cutoff);
    }
  }

  /**
   Between the reaper's SELECT and its claim, any interleaving that touched the session makes the claim
   match nothing: the clock of every step is at or after the SELECT, hence after the cutoff.
   */
  lemma {:induction false} ReaperSparesTouched(db: Db, steps: seq<Step>, k: nat, id: SessionId, seen: Status, now: Time, timeout: Time)
    requires timeout > 0 && NotBefore(steps, now) && k < |steps|
    requires Touches(Run(db, steps[..k]), steps[k], id)
    ensures !ClaimMatches(Run(db, steps), id, seen, now - timeout)
  {
    var mid := Run(db, steps[..k]);
    var after := Apply(mid, steps[k]);
    assert steps == steps[..k] + ([steps[k]] + steps[k + 1..]);
    RunAppend(db, steps[..k], [steps[k]] + steps[k + 1..]);
    assert Run(mid, [steps[k]] + steps[k + 1..]) == Run(after, steps[k + 1..]);
    assert steps[k] in steps && forall s <- steps[k + 1..] :: s in steps;
    RecentStaysRecent(after, steps[k + 1..], id, now - timeout);
  }

  // -- Background jobs ---------------------------------------------------------------------------------

  /** The two jobs of the reaper process; `updated` is each row's last change when the recovery claims it. */
  datatype Job = Reaper | Recovery(updated: map<SessionId, Time>)

  /**
   One cycle of a job.  Other steps happen `before` the claim on each candidate, and `during` its teardown,
   between the committed claim and the end of the call to the agent; `ok` are the sessions whose agent answers.
   */
  datatype JobCycle = JobCycle(
    job: Job,
    cutoff: Time,
    before: map<SessionId, seq<Step>>,
    during: map<SessionId, seq<Step>>,
    ok: set<SessionId>,
    end: Time)

  type Candidate = (SessionId, Status)

  /** The WHERE clause of the recovery, `updated` being the rows' last changes. */
  predicate StuckMatches(db: Db, id: SessionId, seen: Status, updated: map<SessionId, Time>, cutoff: Time) {
    && id in db.rows && db.rows[id].status == seen && seen in {STARTING, TERMINATING}
    && id in updated && updated[id] < cutoff
  }

  predicate Leaves(db: Db, s: Step, id: SessionId) {
    id in db.rows && id in Apply(db, s).rows && Apply(db, s).rows[id] == db.rows[id]
  }

  /** The last time a step changed the row, `since` if none did. */
  function LastChange(db: Db, steps: seq<Step>, id: SessionId, since: Time): Time {
    if steps == [] then since
    else if Leaves(Run(db, steps[..|steps| - 1]), steps[|steps| - 1], id) then LastChange(db, steps[..|steps| - 1], id, since)
    else steps[|steps| - 1].now
  }

  lemma {:induction false} ChangedLately(db: Db, steps: seq<Step>, k: nat, id: SessionId, since: Time, from: Time)
    requires NotBefore(steps, from) && k < |steps| && !Leaves(Run(db, steps[..k]), steps[k], id)
    ensures LastChange(db, steps, id, since) >= from
    decreases |steps|
  {
    var n := |steps| - 1;
    assert steps[n] in steps;
    if k < n {
      assert forall s <- steps[..n] :: s in steps;
      assert steps[..n][..k] == steps[..k];
      ChangedLately(db, steps[..n], k, id, since, from);
    }
  }

  /** Between the recovery's SELECT and its claim, any step that changed the row makes the claim match nothing. */
  lemma RecoverySparesChanged(db: Db, steps: seq<Step>, k: nat, id: SessionId, seen: Status, since: Time, now: Time, timeout: Time)
    requires timeout > 0 && NotBefore(steps, now) && k < |steps| && !Leaves(Run(db, steps[..k]), steps[k], id)
    ensures !StuckMatches(Run(db, steps), id, seen, map[id := LastChange(db, steps, id, since)], now - timeout)
  {
    ChangedLately(db, steps, k, id, since, now);
  }

  predicate Matches(db: Db, cand: Candidate, cy: JobCycle) {
    match cy.job
    case Reaper => ClaimMatches(db, cand.0, cand.1, cy.cutoff)
    case Recovery(updated) => StuckMatches(db, cand.0, cand.1, updated, cy.cutoff)
  }

  /** The reaper's claim moves the row to TERMINATING; the recovery's claim leaves the status alone. */
  function AfterClaim(db: Db, cand: Candidate, cy: JobCycle): Db {
    if cy.job.Reaper? then Apply(db, At(cy.end, ReaperClaim(cand.0, cand.1, cy.cutoff))) else db
  }

  function StepsOf(steps: map<SessionId, seq<Step>>, id: SessionId): seq<Step> {
    if id in steps then steps[id] else []
  }

  function Teardown(db: Db, cand: Candidate, cy: JobCycle): Db {
    if Matches(db, cand, cy)
    then Apply(Run(AfterClaim(db, cand, cy), StepsOf(cy.during, cand.0)), At(cy.end, JobFinish(cand.0, cand.0 in cy.ok)))
    else db
  }

  predicate Claims(db: Db, cand: Candidate, cy: JobCycle) {
    Matches(Run(db, StepsOf(cy.before, cand.0)), cand, cy)
  }

  /** One turn of a job's loop. */
  function Turn(db: Db, cand: Candidate, cy: JobCycle): Db {
    Teardown(Run(db, StepsOf(cy.before, cand.0)), cand, cy)
  }

  /** The turn claimed the session and its teardown succeeded. */
  predicate Reaps(db: Db, cand: Candidate, cy: JobCycle) {
    Claims(db, cand, cy) && cand.0 in Turn(db, cand, cy).rows && Turn(db, cand, cy).rows[cand.0].status == TERMINATED
  }

  /** `states` are the states between the turns of one cycle. */
  ghost predicate CycleStates(states: seq<Db>, cands: seq<Candidate>, cy: JobCycle) {
    |states| == |cands| + 1 && forall i | 0 <= i < |cands| :: states[i + 1] == Turn(states[i], cands[i], cy)
  }

  function CountReaped(states: seq<Db>, cands: seq<Candidate>, cy: JobCycle, n: nat): nat
    requires n <= |cands| && n <= |states|
  {
    if n == 0 then 0
    else CountReaped(states, cands, cy, n - 1) + if Reaps(states[n - 1], cands[n - 1], cy) then 1 else 0
  }

  lemma ClaimEnds(db: Db, cand: Candidate, cy: JobCycle)
    requires Matches(db, cand, cy)
    ensures cand.0 in AfterClaim(db, cand, cy).rows && Ending(AfterClaim(db, cand, cy).rows[cand.0].status)
  {
  }

  lemma FinishSettles(db: Db, now: Time, id: SessionId, ok: bool)
    requires id in db.rows && Ending(db.rows[id].status)
    ensures var db' := Apply(db, At(now, JobFinish(id, ok))); id in db'.rows && Settled(db'.rows[id].status)
    ensures Apply(db, At(now, JobFinish(id, ok))) == db.(rows := db.rows[id := Terminated(db.rows[id], ok, now)])
  {
  }

  /** Whatever happens during the teardown, a claimed session is still there to be ended. */
  lemma EndingUntilFinish(db: Db, cand: Candidate, cy: JobCycle)
    requires Matches(db, cand, cy)
    ensures var mid := Run(AfterClaim(db, cand, cy), StepsOf(cy.during, cand.0));
            cand.0 in mid.rows && Ending(mid.rows[cand.0].status)
  {
    ClaimEnds(db, cand, cy);
    DeathIsFinal(AfterClaim(db, cand, cy), StepsOf(cy.during, cand.0), cand.0);
  }

  /** One teardown settles its session if the claim matched, and unsettles nobody. */
  lemma TeardownSettles(db: Db, cand: Candidate, cy: JobCycle, id: SessionId)
    requires (Matches(db, cand, cy) && cand.0 == id) || (id in db.rows && Settled(db.rows[id].status))
    ensures var db' := Teardown(db, cand, cy); id in db'.rows && Settled(db'.rows[id].status)
  {
    if Matches(db, cand, cy) {
      var claimed := AfterClaim(db, cand, cy);
      var mid := Run(claimed, StepsOf(cy.during, cand.0));
      EndingUntilFinish(db, cand, cy);
      FinishSettles(mid, cy.end, cand.0, cand.0 in cy.ok);
      if id != cand.0 {
        if cy.job.Reaper? {
          StepFollowsEdge(db, At(cy.end, ReaperClaim(cand.0, cand.1, cy.cutoff)), id);
        }
        DeathIsFinal(claimed, StepsOf(cy.during, cand.0), id);
      }
    }
  }

  lemma TurnSettles(db: Db, cand: Candidate, cy: JobCycle, id: SessionId)
    requires (Claims(db, cand, cy) && cand.0 == id) || (id in db.rows && Settled(db.rows[id].status))
    ensures var db' := Turn(db, cand, cy); id in db'.rows && Settled(db'.rows[id].status)
  {
    if id in db.rows {
      DeathIsFinal(db, StepsOf(cy.before, cand.0), id);
    }
    TeardownSettles(Run(db, StepsOf(cy.before, cand.0)), cand, cy, id);
  }

  /**
   Every session a cycle of either job claims ends the cycle TERMINATED or FAILED, never left TERMINATING,
   whatever steps fall between the claims and inside the teardowns.
   */
  lemma {:induction false} ClaimedEndsSettled(states: seq<Db>, cands: seq<Candidate>, cy: JobCycle, i: nat, n: nat)
    requires CycleStates(states, cands, cy) && i < n <= |cands|
    requires Claims(states[i], cands[i], cy)
    ensures cands[i].0 in states[n].rows && Settled(states[n].rows[cands[i].0].status)
    decreases n
  {
    if i < n - 1 {
      ClaimedEndsSettled(states, cands, cy, i, n - 1);
    }
    TurnSettles(states[n - 1], cands[n - 1], cy, cands[i].0);
  }
}
