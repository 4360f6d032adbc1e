/**
 The transition table of a session, in statuses and stamps alone: what each event leaves of the row it acts on,
 which events bring a row into each status, and which moves the whole system can make.
 */
module SessionTransitions {
  import opened Wrappers
  import opened Sessions

  // -- What each event leaves --------------------------------------------------------------------------

  /** A session begins ACTIVE and stamped, or FAILED and never started. */
  lemma CreateExactly(db: Db, now: Time, id: SessionId, user: UserId, node: Option<NodeId>, ok: bool)
    ensures var db' := Apply(db, At(now, Create(id, user, node, ok)));
            if id in db.rows then db' == db
            else
              && db'.rows.Keys == db.rows.Keys + {id} && db'.open == db.open && db'.registry == db.registry
              && (forall i <- db.rows :: db'.rows[i] == db.rows[i])
              && var r := db'.rows[id];
                 && r.user == user && r.node == node && r.createdAt == now && r.viewer == None && r.endedAt == None
                 && (if ok then r.status == ACTIVE && r.startedAt == Some(now) && r.lastActivity == Some(now)
                     else r.status == FAILED && r.startedAt == None && r.lastActivity == None)
  {
  }

  /** The one row differs from before at most in its status and the stamp of its end. */
  ghost predicate EndsAs(db: Db, db': Db, id: SessionId, status: Status, endedAt: Option<Time>)
    requires id in db.rows
  {
    db' == db.(rows := db.rows[id := db.rows[id].(status := status, endedAt := endedAt)])
  }

  /** All ways to end a session: its status and end stamp, for every status it may have had. */
  lemma EndExactly(db: Db, now: Time, id: SessionId, ok: bool, e: Event)
    requires id in db.rows
    requires e in {OwnerEnd(id, ok), AdminKill(id, ok), RevokeOne(id, ok), JobFinish(id, ok)}
    ensures var was := db.rows[id].status;
            var refused := match e
                           case OwnerEnd(_, _) => was == ISOLATING || was == ISOLATED
                           case RevokeOne(_, _) => was == TERMINATING || was == TERMINATED || was == FAILED
                           case JobFinish(_, _) => was != STARTING && was != TERMINATING && was != TERMINATED && was != FAILED
                           case _ => false;
            if refused || was == TERMINATED then Apply(db, At(now, e)) == db
            else if ok then EndsAs(db, Apply(db, At(now, e)), id, TERMINATED, Some(now))
            else EndsAs(db, Apply(db, At(now, e)), id, FAILED, db.rows[id].endedAt)
  {
    match db.rows[id].status
    case QUEUED | STARTING | ACTIVE | DISCONNECTED | ISOLATING | ISOLATED | TERMINATING | TERMINATED | FAILED =>
  }

  /** Isolation leaves an ACTIVE or DISCONNECTED session ISOLATED if the agent confirmed it, else FAILED. */
  lemma IsolateExactly(db: Db, now: Time, id: SessionId, ok: bool)
    requires id in db.rows
    ensures var db' := Apply(db, At(now, Isolate(id, ok)));
            if db.rows[id].status != ACTIVE && db.rows[id].status != DISCONNECTED then db' == db
            else EndsAs(db, db', id, if ok then ISOLATED else FAILED, db.rows[id].endedAt)
  {
  }

  /** A restored session is ACTIVE, watched by nobody, its clock started anew. */
  lemma RestoreExactly(db: Db, now: Time, id: SessionId, ok: bool)
    requires id in db.rows
    ensures var r, db' := db.rows[id], Apply(db, At(now, Restore(id, ok)));
            if r.status != ISOLATED then db' == db
            else if !ok then EndsAs(db, db', id, FAILED, r.endedAt)
            else db' == db.(rows := db.rows[id :=
              Row(r.user, r.node, ACTIVE, r.createdAt, r.startedAt, Some(now), None, r.endedAt)])
  {
  }

  /** A forced disconnect and an opened display write the same clock, opposite statuses; only the latter a viewer. */
  lemma DisplayExactly(db: Db, now: Time, id: SessionId, c: ConnId)
    requires id in db.rows
    ensures var r := db.rows[id];
            var usable := r.status == ACTIVE || r.status == DISCONNECTED;
            && Apply(db, At(now, AdminDisconnect(id))) ==
                 (if !usable then db
                  else db.(rows := db.rows[id :=
                    Row(r.user, r.node, DISCONNECTED, r.createdAt, r.startedAt, Some(now), r.viewer, r.endedAt)]))
            && Apply(db, At(now, Open(c, id))) ==
                 (if !usable then db
                  else Db(db.rows[id := Row(r.user, r.node, ACTIVE, r.createdAt, r.startedAt, Some(now), Some(now), r.endedAt)],
                          db.open[c := Conn(id, now)], db.registry[id := c]))
  {
  }

  /**
   Closing removes the connection, and its registry entry if that is its own; the row loses the viewer if the
   stamp is this connection's, and becomes DISCONNECTED, its clock started, if it was ACTIVE besides.
   */
  lemma CloseExactly(db: Db, now: Time, c: ConnId)
    requires c in db.open && db.open[c].session in db.rows
    ensures var db', id := Apply(db, At(now, Close(c))), db.open[c].session;
            var r := db.rows[id];
            && db'.open == (map d | d in db.open && d != c :: db.open[d])
            && (forall i :: i in db'.registry <==> i in db.registry && !(i == id && db.registry[i] == c))
            && (forall i <- db'.registry :: db'.registry[i] == db.registry[i])
            && db'.rows == db.rows[id :=
                 if r.viewer != Some(db.open[c].stamp) then r
                 else if r.status != ACTIVE then
                   Row(r.user, r.node, r.status, r.createdAt, r.startedAt, r.lastActivity, None, r.endedAt)
                 else Row(r.user, r.node, DISCONNECTED, r.createdAt, r.startedAt, Some(now), None, r.endedAt)]
  {
  }

  /** A restart forgets every connection and restarts the clock of every session that was ACTIVE or had a viewer. */
  lemma ResetExactly(db: Db, now: Time)
    ensures var db' := Apply(db, At(now, StartupReset));
            && db'.open == map[] && db'.registry == map[] && db'.rows.Keys == db.rows.Keys
            && forall i <- db.rows ::
                 var r := db.rows[i];
                 db'.rows[i] == if r.viewer == None && r.status != ACTIVE then r
                                else Row(r.user, r.node, r.status, r.createdAt, r.startedAt, Some(now), None, r.endedAt)
  {
  }

  /**
   The reaper claims a session that is DISCONNECTED, or ACTIVE with nobody watching, if its last activity, else
   its start, else its creation, is before the cutoff; the claim makes it TERMINATING and writes nothing else.
   */
  lemma ReaperClaimExactly(db: Db, now: Time, id: SessionId, seen: Status, cutoff: Time)
    requires id in db.rows
    ensures var r, db' := db.rows[id], Apply(db, At(now, ReaperClaim(id, seen, cutoff)));
            var matched :=
              && r.status == seen && (seen == DISCONNECTED || (seen == ACTIVE && r.viewer == None))
              && (match (r.lastActivity, r.startedAt)
                  case (Some(active), _) => active < cutoff
                  case (None, Some(started)) => started < cutoff
                  case (None, None) => r.createdAt < cutoff);
            && (ClaimMatches(db, id, seen, cutoff) <==> matched)
            && (if matched then EndsAs(db, db', id, TERMINATING, r.endedAt) else db' == db)
  {
  }

  /** The reconciler's verdict fails a session that should be running; its end is dated, its registry entry gone. */
  lemma LostExactly(db: Db, now: Time, id: SessionId)
    requires id in db.rows
    ensures var r, db' := db.rows[id], Apply(db, At(now, LostFail(id)));
            if r.status == ACTIVE || r.status == DISCONNECTED || r.status == ISOLATING || r.status == ISOLATED then
              && EndsAs(db, db'.(registry := db.registry), id, FAILED, Some(now))
              && db'.registry == (map i | i in db.registry && i != id :: db.registry[i])
            else db' == db
  {
    match db.rows[id].status
    case QUEUED | STARTING | ACTIVE | DISCONNECTED | ISOLATING | ISOLATED | TERMINATING | TERMINATED | FAILED =>
  }

  // -- Which events bring about a status ---------------------------------------------------------------

  /** A row becomes ISOLATED exactly by an isolation of a usable session that the agent confirmed. */
  lemma BecomesIsolatedIff(db: Db, s: Step, id: SessionId)
    requires id in db.rows
    ensures id in Apply(db, s).rows
    ensures db.rows[id].status != ISOLATED && Apply(db, s).rows[id].status == ISOLATED <==>
              s.event == Isolate(id, true) && (db.rows[id].status == ACTIVE || db.rows[id].status == DISCONNECTED)
  {
  }

  /** No step makes a new row ISOLATED. */
  lemma NewRowIsActiveOrFailed(db: Db, s: Step, id: SessionId)
    requires id !in db.rows && id in Apply(db, s).rows
    ensures s.event.Create? && s.event.id == id
    ensures Apply(db, s).rows[id].status == if s.event.ok then ACTIVE else FAILED
  {
  }

  /** An isolation ends exactly by one of these events; the owner's and the reaper's are not among them. */
  lemma LeavesIsolationIff(db: Db, s: Step, id: SessionId)
    requires id in db.rows && db.rows[id].status == ISOLATED
    ensures id in Apply(db, s).rows
    ensures Apply(db, s).rows[id].status != ISOLATED <==>
              s.event in {AdminKill(id, true), AdminKill(id, false), RevokeOne(id, true), RevokeOne(id, false),
                          Restore(id, true), Restore(id, false), LostFail(id)}
  {
    match s.event
    case AdminKill(i, ok) =>
      assert ok == true || ok == false;
    case RevokeOne(i, ok) =>
      assert ok == true || ok == false;
    case Restore(i, ok) =>
      assert ok == true || ok == false;
    case _ =>
  }

  /** Only a display that is opened, or a confirmed restore, makes an existing row ACTIVE. */
  lemma BecomesActiveIff(db: Db, s: Step, id: SessionId)
    requires id in db.rows
    ensures id in Apply(db, s).rows
    ensures db.rows[id].status != ACTIVE && Apply(db, s).rows[id].status == ACTIVE <==>
              || (s.event.Open? && s.event.id == id && db.rows[id].status == DISCONNECTED)
              || (s.event == Restore(id, true) && db.rows[id].status == ISOLATED)
  {
  }

  /** Only a teardown the agent confirmed makes a row TERMINATED, whatever its status but never an owner's isolation. */
  lemma BecomesTerminatedIff(db: Db, s: Step, id: SessionId)
    requires id in db.rows
    ensures id in Apply(db, s).rows
    ensures db.rows[id].status != TERMINATED && Apply(db, s).rows[id].status == TERMINATED <==>
              match db.rows[id].status
              case TERMINATED => false
              case ISOLATING | ISOLATED => s.event in {AdminKill(id, true), RevokeOne(id, true)}
              case QUEUED | ACTIVE | DISCONNECTED => s.event in {OwnerEnd(id, true), AdminKill(id, true), RevokeOne(id, true)}
              case STARTING => s.event in {OwnerEnd(id, true), AdminKill(id, true), RevokeOne(id, true), JobFinish(id, true)}
              case TERMINATING | FAILED => s.event in {OwnerEnd(id, true), AdminKill(id, true), JobFinish(id, true)}
  {
    match db.rows[id].status
    case QUEUED | STARTING | ACTIVE | DISCONNECTED | ISOLATING | ISOLATED | TERMINATING | TERMINATED | FAILED =>
  }

  /**
   Over any run: a session that is ISOLATED in the end, and was not at the start, became so by an isolation of
   a usable session that the agent confirmed, and has been ISOLATED ever since.
   */
  lemma {:induction false} IsolatedHow(db: Db, steps: seq<Step>, id: SessionId) returns (k: nat)
    requires id in db.rows ==> db.rows[id].status != ISOLATED
    requires id in Run(db, steps).rows && Run(db, steps).rows[id].status == ISOLATED
    ensures k < |steps| && steps[k].event == Isolate(id, true)
    ensures id in Run(db, steps[..k]).rows && Run(db, steps[..k]).rows[id].status in {ACTIVE, DISCONNECTED}
    ensures forall n | k < n <= |steps| :: id in Run(db, steps[..n]).rows && Run(db, steps[..n]).rows[id].status == ISOLATED
    decreases |steps|
  {
    var last := |steps| - 1;
    assert steps == [] ==> Run(db, steps) == db;
    var before := steps[..last];
    assert steps == before + [steps[last]];
    RunAppend(db, before, [steps[last]]);
    RunOne(Run(db, before), steps[last]);
    assert steps[..|steps|] == steps;
    if id !in Run(db, before).rows {
      NewRowIsActiveOrFailed(Run(db, before), steps[last], id);
      assert false;
    } else if Run(db, before).rows[id].status == ISOLATED {
      k := IsolatedHow(db, before, id);
      assert before[..k] == steps[..k];
      forall n | k < n <= |steps| ensures id in Run(db, steps[..n]).rows && Run(db, steps[..n]).rows[id].status == ISOLATED {
        if n <= last {
          assert steps[..n] == before[..n];
        }
      }
    } else {
      BecomesIsolatedIff(Run(db, before), steps[last], id);
      k := last;
    }
  }

  // -- The moves of the whole system -------------------------------------------------------------------

  /** The arrows of the lifecycle, the statuses a service holds only inside its own transaction left out. */
  predicate Arrow(a: Status, b: Status) {
    match b
    case ACTIVE => a == DISCONNECTED || a == ISOLATED
    case DISCONNECTED => a == ACTIVE
    case ISOLATED => a == ACTIVE || a == DISCONNECTED
    case TERMINATING => a == ACTIVE || a == DISCONNECTED
    case TERMINATED => a != TERMINATED
    case FAILED => a != TERMINATED && a != FAILED
    case _ => false
  }

  /** Every step follows an arrow or leaves the status alone. */
  lemma StepFollowsArrow(db: Db, s: Step, id: SessionId)
    requires id in db.rows
    ensures id in Apply(db, s).rows
    ensures var a, b := db.rows[id].status, Apply(db, s).rows[id].status; a == b || Arrow(a, b)
  {
    if s.event.OwnerEnd? || s.event.AdminKill? || s.event.RevokeOne? || s.event.JobFinish? {
      EndFollowsArrow(db, s, id);
    } else if s.event.Open? || s.event.Close? || s.event.StartupReset? || s.event.AdminDisconnect? {
      DisplayFollowsArrow(db, s, id);
    }
  }

  lemma EndFollowsArrow(db: Db, s: Step, id: SessionId)
    requires id in db.rows && (s.event.OwnerEnd? || s.event.AdminKill? || s.event.RevokeOne? || s.event.JobFinish?)
    ensures id in Apply(db, s).rows
    ensures var a, b := db.rows[id].status, Apply(db, s).rows[id].status; a == b || Arrow(a, b)
  {
  }

  lemma DisplayFollowsArrow(db: Db, s: Step, id: SessionId)
    requires id in db.rows && (s.event.Open? || s.event.Close? || s.event.StartupReset? || s.event.AdminDisconnect?)
    ensures id in Apply(db, s).rows
    ensures var a, b := db.rows[id].status, Apply(db, s).rows[id].status; a == b || Arrow(a, b)
  {
  }

  /** The event that takes a session along an arrow. */
  function Taker(a: Status, b: Status, id: SessionId, c: ConnId, r: Row): Event {
    match b
    case ACTIVE => if a == ISOLATED then Restore(id, true) else Open(c, id)
    case DISCONNECTED => AdminDisconnect(id)
    case ISOLATED => Isolate(id, true)
    case TERMINATING => ReaperClaim(id, a, r.UnattendedSince() + 1)
    case TERMINATED => AdminKill(id, true)
    case _ => AdminKill(id, false)
  }

  /**
   The moves of the system are exactly the arrows: every step follows one, and every arrow can be taken, from
   any row of that status, except that the reaper takes only sessions nobody is shown as watching.
   */
  lemma MovesAreArrows(db: Db, id: SessionId, b: Status, c: ConnId, now: Time)
    requires id in db.rows && db.rows[id].status != b
    requires b == TERMINATING && db.rows[id].status == ACTIVE ==> db.rows[id].viewer == None
    ensures (exists s :: id in Apply(db, s).rows && Apply(db, s).rows[id].status == b) <==> Arrow(db.rows[id].status, b)
  {
    var a := db.rows[id].status;
    forall s | id in Apply(db, s).rows && Apply(db, s).rows[id].status == b ensures Arrow(a, b) {
      StepFollowsArrow(db, s, id);
    }
    if Arrow(a, b) {
      ArrowIsTaken(db, id, b, c, now);
    }
  }

  lemma ArrowIsTaken(db: Db, id: SessionId, b: Status, c: ConnId, now: Time)
    requires id in db.rows && Arrow(db.rows[id].status, b)
    requires b == TERMINATING && db.rows[id].status == ACTIVE ==> db.rows[id].viewer == None
    ensures var db' := Apply(db, At(now, Taker(db.rows[id].status, b, id, c, db.rows[id])));
            id in db'.rows && db'.rows[id].status == b
  {
    match b
    case QUEUED | STARTING | ACTIVE | DISCONNECTED | ISOLATING | ISOLATED | TERMINATING | TERMINATED | FAILED =>
  }

  // -- The clock and the jobs --------------------------------------------------------------------------

  /** What counts as dealing with a session is exactly what stamps its activity. */
  lemma TouchesIffStamped(db: Db, s: Step, id: SessionId)
    requires id in db.rows && db.rows[id].lastActivity != Some(s.now)
    ensures Touches(db, s, id) <==> id in Apply(db, s).rows && Apply(db, s).rows[id].lastActivity == Some(s.now)
  {
    StepFollowsEdge(db, s, id);
  }

  /** The recovery claims a session left STARTING or TERMINATING since before the cutoff. */
  lemma RecoveryMatchesExactly(db: Db, id: SessionId, seen: Status, cy: JobCycle)
    requires cy.job.Recovery?
    ensures Matches(db, (id, seen), cy) <==>
              && id in db.rows && id in cy.job.updated && cy.job.updated[id] < cy.cutoff
              && db.rows[id].status == seen && (seen == STARTING || seen == TERMINATING)
  {
  }

  /** An undisturbed turn of either job: a session it claims is TERMINATED and dated if the agent answers, else FAILED. */
  lemma QuietTurnExactly(db: Db, cand: Candidate, cy: JobCycle)
    requires cand.0 !in cy.before && cand.0 !in cy.during && cand.0 in db.rows
    ensures var id := cand.0;
            if !Matches(db, cand, cy) then Turn(db, cand, cy) == db
            else if id in cy.ok then EndsAs(db, Turn(db, cand, cy), id, TERMINATED, Some(cy.end))
            else EndsAs(db, Turn(db, cand, cy), id, FAILED, db.rows[id].endedAt)
  {
    if Matches(db, cand, cy) {
      var (id, seen) := cand;
      if cy.job.Reaper? {
        ReaperClaimExactly(db, cy.end, id, seen, cy.cutoff);
      } else {
        RecoveryMatchesExactly(db, id, seen, cy);
      }
      EndExactly(AfterClaim(db, cand, cy), cy.end, id, id in cy.ok, JobFinish(id, id in cy.ok));
    }
  }

  function CountTrue(flags: seq<bool>): nat {
    if flags == [] then 0 else CountTrue(flags[..|flags| - 1]) + if flags[|flags| - 1] then 1 else 0
  }

  lemma {:induction false} CountTrueIsCardinality(flags: seq<bool>)
    ensures CountTrue(flags) == |set i | 0 <= i < |flags| && flags[i]|
  {
    var all := set i | 0 <= i < |flags| && flags[i];
    if flags != [] {
      var n := |flags| - 1;
      var fewer := set i | 0 <= i < |flags[..n]| && flags[..n][i];
      CountTrueIsCardinality(flags[..n]);
      assert all == fewer + if flags[n] then {n} else {};
    }
  }

  /** One turn more or less, whatever ending a session is. */
  lemma CountTrueOneMore(flags: seq<bool>, n: nat)
    requires n < |flags|
    ensures CountTrue(flags[..n + 1]) == CountTrue(flags[..n]) + if flags[n] then 1 else 0
  {
    assert flags[..n + 1][..n] == flags[..n];
  }

  lemma {:induction false} CountFollows(states: seq<Db>, cands: seq<Candidate>, cy: JobCycle, flags: seq<bool>, n: nat)
    requires n <= |flags| <= |cands| && |flags| <= |states|
    requires forall i | 0 <= i < |flags| :: flags[i] == Reaps(states[i], cands[i], cy)
    ensures CountReaped(states, cands, cy, n) == CountTrue(flags[..n])
  {
    if n > 0 {
      CountFollows(states, cands, cy, flags, n - 1);
      CountTrueOneMore(flags, n - 1);
      assert flags[n - 1] == Reaps(states[n - 1], cands[n - 1], cy);
    }
  }

  /** A cycle reports as many sessions as it ended, `ended` telling at which turns it did. */
  lemma CountIsCardinality(states: seq<Db>, cands: seq<Candidate>, cy: JobCycle, ended: seq<bool>)
    requires |ended| == |cands| <= |states|
    requires forall i | 0 <= i < |ended| :: ended[i] == Reaps(states[i], cands[i], cy)
    ensures CountReaped(states, cands, cy, |cands|) == |set i | 0 <= i < |ended| && ended[i]|
  {
    CountFollows(states, cands, cy, ended, |ended|);
    CountTrueIsCardinality(ended);
    assert ended[..|ended|] == ended;
  }
}
