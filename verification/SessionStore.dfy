/**
 The session services as they run: methods that update the rows in place.  Each is tied to the step of
 `Sessions` it performs, so the run theorems there hold of any interleaving of these calls.
 */
module SessionStore {
  import opened Wrappers
  import opened Sessions

  datatype SessionServiceError = SessionServiceError | QuotaExceeded | NoCapacity

  /** `cands` lists, once each, exactly the rows that match the reaper's WHERE clause, with their status. */
  ghost predicate IsSelection(db: Db, cutoff: Time, cands: seq<Candidate>) {
    && (forall i | 0 <= i < |cands| :: ClaimMatches(db, cands[i].0, cands[i].1, cutoff))
    && (forall i, j | 0 <= i < j < |cands| :: cands[i].0 != cands[j].0)
    && (forall id | id in db.rows && db.rows[id].Unattended(cutoff) :: (id, db.rows[id].status) in cands)
  }

  /** The same for the recovery of stuck transitions, `updated` being the rows' last changes at the SELECT. */
  ghost predicate IsStuckSelection(db: Db, updated: map<SessionId, Time>, cutoff: Time, cands: seq<Candidate>) {
    && (forall i | 0 <= i < |cands| :: StuckMatches(db, cands[i].0, cands[i].1, updated, cutoff))
    && (forall i, j | 0 <= i < j < |cands| :: cands[i].0 != cands[j].0)
    && (forall id | id in db.rows && StuckMatches(db, id, db.rows[id].status, updated, cutoff) :: (id, db.rows[id].status) in cands)
  }

  lemma {:induction false} CountPrefix(a: seq<Db>, b: seq<Db>, c: seq<Candidate>, d: seq<Candidate>, cy: JobCycle, n: nat)
    requires n <= |a| && n <= |c| && a <= b && c <= d
    ensures CountReaped(a, c, cy, n) == CountReaped(b, d, cy, n)
  {
    if n > 0 {
      CountPrefix(a, b, c, d, cy, n - 1);
    }
  }

  /** The states of a cycle over `cands`, from `first` to `last`, with that many sessions ended. */
  ghost predicate CycleTo(states: seq<Db>, cands: seq<Candidate>, cy: JobCycle, reaped: nat, first: Db, last: Db) {
    && CycleStates(states, cands, cy) && states[0] == first && states[|cands|] == last
    && reaped == CountReaped(states, cands, cy, |cands|)
  }

  /** One more turn extends a cycle. */
  lemma ExtendCycle(states: seq<Db>, cands: seq<Candidate>, cy: JobCycle, reaped: nat, first: Db, last: Db, cand: Candidate)
    requires CycleTo(states, cands, cy, reaped, first, last)
    ensures CycleTo(states + [Turn(last, cand, cy)], cands + [cand], cy, reaped + if Reaps(last, cand, cy) then 1 else 0,
                    first, Turn(last, cand, cy))
  {
    CountPrefix(states, states + [Turn(last, cand, cy)], cands, cands + [cand], cy, |cands|);
  }

  /** The sessions that count against a user's limit. */
  function CountedOf(rows: map<SessionId, Row>, user: UserId): set<SessionId> {
    set id | id in rows && rows[id].user == user && rows[id].status in {QUEUED, STARTING, ACTIVE, DISCONNECTED}
  }

  lemma CountOneMore(rows: map<SessionId, Row>, id: SessionId, user: UserId, node: Option<NodeId>, agentOk: bool, now: Time)
    requires id !in rows
    ensures |CountedOf(rows[id := Created(user, node, agentOk, now)], user)| <= |CountedOf(rows, user)| + 1
  {
    assert CountedOf(rows[id := Created(user, node, agentOk, now)], user) == CountedOf(rows, user) + if agentOk then {id} else {};
  }

  function LiveOf(rows: map<SessionId, Row>, user: UserId): set<SessionId> {
    set id | id in rows && rows[id].user == user && !Dead(rows[id].status)
  }

  /** An isolated session no longer counts against its owner's limit, nor does one that is ending or has ended. */
  lemma CountedExactly(rows: map<SessionId, Row>, user: UserId, id: SessionId)
    requires id in rows && rows[id].user == user
    ensures id !in CountedOf(rows, user) <==>
              match rows[id].status
              case ISOLATING | ISOLATED | TERMINATING | TERMINATED | FAILED => true
              case QUEUED | STARTING | ACTIVE | DISCONNECTED => false
  {
    match rows[id].status
    case QUEUED | STARTING | ACTIVE | DISCONNECTED | ISOLATING | ISOLATED | TERMINATING | TERMINATED | FAILED =>
  }

  /** The rows after the sessions in `done` went through the service's terminate. */
  function Revoked(rows: map<SessionId, Row>, done: set<SessionId>, ok: set<SessionId>, now: Time): map<SessionId, Row> {
    map id | id in rows :: if id in done then Terminated(rows[id], id in ok, now) else rows[id]
  }

  /**
   What a revocation of all of a user's sessions does to each row: the live ones, isolated ones among them, are
   TERMINATED and dated if the agent answers, else FAILED; those ending or ended and other users' stay.
   */
  lemma RevocationExactly(rows: map<SessionId, Row>, user: UserId, ok: set<SessionId>, now: Time, id: SessionId)
    requires id in rows
    ensures var was, after := rows[id], Revoked(rows, LiveOf(rows, user), ok, now)[id];
            after ==
              if was.user != user then was
              else match was.status
                   case TERMINATING | TERMINATED | FAILED => was
                   case QUEUED | STARTING | ACTIVE | DISCONNECTED | ISOLATING | ISOLATED =>
                     if id in ok then Row(was.user, was.node, TERMINATED, was.createdAt, was.startedAt, was.lastActivity, was.viewer, Some(now))
                     else Row(was.user, was.node, FAILED, was.createdAt, was.startedAt, was.lastActivity, was.viewer, was.endedAt)
  {
    match rows[id].status
    case QUEUED | STARTING | ACTIVE | DISCONNECTED | ISOLATING | ISOLATED | TERMINATING | TERMINATED | FAILED =>
  }

  lemma RevokeOneMore(rows: map<SessionId, Row>, done: set<SessionId>, id: SessionId, ok: set<SessionId>, now: Time)
    requires id in rows && id !in done && rows[id].status != TERMINATED
    ensures var r := Revoked(rows, done, ok, now);
            && id in r && r[id] == rows[id]
            && r[id := Terminated(r[id], id in ok, now)] == Revoked(rows, done + {id}, ok, now)
    ensures Terminated(rows[id], id in ok, now).status == TERMINATED <==> id in ok
  {
  }

  lemma NoneEnded(rows: map<SessionId, Row>, live: set<SessionId>, ok: set<SessionId>, now: Time)
    ensures live - live == {} && rows == Revoked(rows, {}, ok, now)
  {
  }

  lemma OneMoreEnded(live: set<SessionId>, todo: set<SessionId>, id: SessionId, ok: set<SessionId>)
    requires todo <= live && id in todo
    ensures live - (todo - {id}) == live - todo + {id}
    ensures (live - (todo - {id})) * ok == (live - todo) * ok + if id in ok then {id} else {}
  {
  }

  class SessionStore {
    var rows: map<SessionId, Row>
    var open: map<ConnId, Conn>
    var registry: map<SessionId, ConnId>

    function State(): Db
      reads this
    {
      Db(rows, open, registry)
    }

    constructor ()
      ensures State() == Db(map[], map[], map[])
    {
      rows, open, registry := map[], map[], map[];
    }

    method SetStatus(id: SessionId, status: Status)
      requires id in rows
      modifies this`rows
      ensures rows == old(rows)[id := old(rows)[id].(status := status)]
    {
      rows := rows[id := rows[id].(status := status)];
    }

    /** `agentOk` stands for the Session Agent accepting the create, start and display-ready calls. */
    method StartSandbox(id: SessionId, user: UserId, node: NodeId, agentOk: bool, now: Time) returns (r: Result<SessionId, SessionServiceError>)
      requires id !in rows
      modifies this`rows
      ensures rows == old(rows)[id := Created(user, Some(node), agentOk, now)]
      ensures r == if agentOk then Ok(id) else Err(SessionServiceError)
    {
      var row := Row(user, Some(node), QUEUED, now, None, None, None, None);
      row := row.(status := STARTING);
      if !agentOk {
        rows := rows[id := row.(status := FAILED)];
        return Err(SessionServiceError);
      }
      row := row.(status := ACTIVE, startedAt := Some(now));
      rows := rows[id := row.(lastActivity := row.startedAt)];
      r := Ok(id);
    }

    method CountActiveSessionsForUser(user: UserId) returns (count: nat)
      ensures count == |CountedOf(rows, user)|
    {
      count := 0;
      var todo := rows.Keys;
      ghost var counted := {};
      while todo != {}
        invariant todo <= rows.Keys && counted == CountedOf(rows, user) - todo && count == |counted|
        decreases |todo|
      {
        var id :| id in todo;
        if rows[id].user == user && rows[id].status in {QUEUED, STARTING, ACTIVE, DISCONNECTED} {
          count := count + 1;
          counted := counted + {id};
        }
        todo := todo - {id};
      }
      assert counted == CountedOf(rows, user);
    }

    /**
     Quota, then node, then the sandbox: nothing changes unless both checks pass, and the user is never
     taken above the limit.  `node` is what node selection picked.
     */
    method CreateSession(id: SessionId, user: UserId, maxSessions: int, node: Option<NodeId>, agentOk: bool, now: Time)
        returns (r: Result<SessionId, SessionServiceError>)
      requires id !in rows
      modifies this`rows
      ensures |CountedOf(old(rows), user)| >= maxSessions ==> r == Err(QuotaExceeded) && rows == old(rows)
      ensures |CountedOf(old(rows), user)| < maxSessions && node.None? ==> r == Err(NoCapacity) && rows == old(rows)
      ensures |CountedOf(old(rows), user)| < maxSessions && node.Some? ==>
                && State() == Apply(old(State()), At(now, Create(id, user, node, agentOk)))
                && r == (if agentOk then Ok(id) else Err(SessionServiceError))
                && |CountedOf(rows, user)| <= maxSessions
    {
      var count := CountActiveSessionsForUser(user);
      if count >= maxSessions {
        return Err(QuotaExceeded);
      }
      if node.None? {
        return Err(NoCapacity);
      }
      CountOneMore(rows, id, user, node, agentOk, now);
      r := StartSandbox(id, user, node.value, agentOk, now);
    }

    method TerminateSession(id: SessionId, agentOk: bool, now: Time) returns (r: Result<(), SessionServiceError>)
      requires id in rows
      modifies this`rows
      ensures rows == old(rows)[id := Terminated(old(rows)[id], agentOk, now)]
      ensures r.Ok? <==> rows[id].status == TERMINATED
    {
      if rows[id].status == TERMINATED {
        return Ok(());
      }
      SetStatus(id, TERMINATING);
      if !agentOk {
        SetStatus(id, FAILED);
        return Err(SessionServiceError);
      }
      rows := rows[id := rows[id].(status := TERMINATED, endedAt := Some(now))];
      r := Ok(());
    }

    /** The owner's own end button: refused while an administrator keeps the sandbox isolated. */
    method OwnerEndSession(id: SessionId, agentOk: bool, now: Time) returns (r: Result<(), SessionServiceError>)
      requires id in rows
      modifies this`rows
      ensures State() == Apply(old(State()), At(now, OwnerEnd(id, agentOk)))
      ensures old(rows)[id].status in {ISOLATING, ISOLATED} ==> r.Err? && rows == old(rows)
      ensures r.Ok? <==> rows[id].status == TERMINATED
    {
      if rows[id].status == ISOLATING || rows[id].status == ISOLATED {
        return Err(SessionServiceError);
      }
      r := TerminateSession(id, agentOk, now);
    }

    method KillSession(id: SessionId, agentOk: bool, now: Time) returns (r: Result<(), SessionServiceError>)
      requires id in rows
      modifies this`rows
      ensures State() == Apply(old(State()), At(now, AdminKill(id, agentOk)))
      ensures r.Ok? <==> rows[id].status == TERMINATED
    {
      r := TerminateSession(id, agentOk, now);
    }

    /** Ends every live session of a user; `ok` is the set of sessions whose agent answers. */
    method RevokeUserSessions(user: UserId, ok: set<SessionId>, now: Time) returns (terminated: set<SessionId>)
      modifies this`rows
      ensures rows == Revoked(old(rows), LiveOf(old(rows), user), ok, now)
      ensures terminated == LiveOf(old(rows), user) * ok
    {
      var live := LiveOf(rows, user);
      var todo := live;
      ghost var was := rows;
      terminated := {};
      NoneEnded(was, live, ok, now);
      while todo != {}
        invariant todo <= live
        invariant rows == Revoked(was, live - todo, ok, now)
        invariant terminated == (live - todo) * ok
        decreases |todo|
      {
        var id :| id in todo;
        OneMoreEnded(live, todo, id, ok);
        var gone := RevokeOneOf(was, live - todo, id, ok, now);
        todo := todo - {id};
        terminated := terminated + if gone then {id} else {};
      }
      assert live - {} == live;
    }

    method RevokeOneOf(ghost was: map<SessionId, Row>, ghost done: set<SessionId>, id: SessionId, ok: set<SessionId>, now: Time) returns (gone: bool)
      requires id in was && id !in done && was[id].status != TERMINATED
      requires rows == Revoked(was, done, ok, now)
      modifies this`rows
      ensures rows == Revoked(was, done + {id}, ok, now)
      ensures gone <==> id in ok
    {
      RevokeOneMore(was, done, id, ok, now);
      var r := TerminateSession(id, id in ok, now);
      gone := r.Ok?;
    }

    method IsolateSession(id: SessionId, agentOk: bool, now: Time) returns (r: Result<(), SessionServiceError>)
      requires id in rows
      modifies this`rows
      ensures State() == Apply(old(State()), At(now, Isolate(id, agentOk)))
      ensures r.Ok? <==> old(rows)[id].status in {ACTIVE, DISCONNECTED} && agentOk
      ensures rows[id].status == if r.Ok? then ISOLATED
                                 else if old(rows)[id].status in {ACTIVE, DISCONNECTED} then FAILED
                                 else old(rows)[id].status
    {
      if rows[id].status !in {ACTIVE, DISCONNECTED} {
        return Err(SessionServiceError);
      }
      SetStatus(id, ISOLATING);
      if !agentOk {
        SetStatus(id, FAILED);
        return Err(SessionServiceError);
      }
      SetStatus(id, ISOLATED);
      r := Ok(());
    }

    method RestoreSession(id: SessionId, agentOk: bool, now: Time) returns (r: Result<(), SessionServiceError>)
      requires id in rows
      modifies this`rows
      ensures State() == Apply(old(State()), At(now, Restore(id, agentOk)))
      ensures r.Ok? <==> old(rows)[id].status == ISOLATED && agentOk
      ensures rows[id].status == if r.Ok? then ACTIVE else if old(rows)[id].status == ISOLATED then FAILED else old(rows)[id].status
    {
      if rows[id].status != ISOLATED {
        return Err(SessionServiceError);
      }
      if !agentOk {
        SetStatus(id, FAILED);
        return Err(SessionServiceError);
      }
      SetStatus(id, ACTIVE);
      rows := rows[id := rows[id].(viewer := None, lastActivity := Some(now))];
      r := Ok(());
    }

    method DisconnectSession(id: SessionId, now: Time) returns (r: Result<(), SessionServiceError>)
      requires id in rows
      modifies this`rows
      ensures State() == Apply(old(State()), At(now, AdminDisconnect(id)))
      ensures r.Ok? <==> old(rows)[id].status in {ACTIVE, DISCONNECTED}
    {
      if rows[id].status !in {ACTIVE, DISCONNECTED} {
        return Err(SessionServiceError);
      }
      SetStatus(id, DISCONNECTED);
      rows := rows[id := rows[id].(lastActivity := Some(now))];
      r := Ok(());
    }

    /**
     The open path of the display route, taken as one check-and-set: the page's origin, the owner, the
     status, the node's token and the dialled relay, in this order.
     */
    method OpenDisplay(conn: ConnId, id: SessionId, caller: UserId, sameOrigin: bool, hasToken: bool, dialled: bool, now: Time)
        returns (accepted: bool)
      requires conn !in open
      modifies this`rows, this`open, this`registry
      ensures accepted <==>
                && sameOrigin && id in old(rows) && old(rows)[id].user == caller && Viewable(old(rows)[id].status)
                && hasToken && dialled
      ensures State() == if accepted then Apply(old(State()), At(now, Open(conn, id))) else old(State())
    {
      if !sameOrigin {
        return false;
      }
      if id !in rows || rows[id].user != caller {
        return false;
      }
      if rows[id].status !in {ACTIVE, DISCONNECTED} {
        return false;
      }
      if !hasToken {
        return false;
      }
      if !dialled {
        return false;
      }
      SetStatus(id, ACTIVE);
      rows := rows[id := rows[id].(lastActivity := Some(now))];
      var viewerStamp := rows[id].lastActivity;
      rows := rows[id := rows[id].(viewer := viewerStamp)];
      open := open[conn := Conn(id, now)];
      registry := registry[id := conn];
      accepted := true;
    }

    /** The cleanup of the display route; tells whether this closing disconnected the session. */
    method CloseDisplay(conn: ConnId, now: Time) returns (disconnected: bool)
      requires conn in open && open[conn].session in rows
      modifies this`rows, this`open, this`registry
      ensures State() == Apply(old(State()), At(now, Close(conn)))
      ensures disconnected <==> Touches(old(State()), At(now, Close(conn)), old(open)[conn].session)
    {
      var id, viewerStamp := open[conn].session, open[conn].stamp;
      if id in registry && registry[id] == conn {
        registry := registry - {id};
      }
      open := open - {conn};
      disconnected := rows[id].status == ACTIVE && rows[id].viewer == Some(viewerStamp);
      if disconnected {
        rows := rows[id := rows[id].(status := DISCONNECTED, lastActivity := Some(now), viewer := None)];
      }
      if rows[id].viewer == Some(viewerStamp) {
        rows := rows[id := rows[id].(viewer := None)];
      }
    }

    /** A restart of the process that serves the displays: its connections are gone. */
    method ResetViewerStamps(now: Time)
      modifies this
      ensures State() == Apply(old(State()), At(now, StartupReset))
    {
      open, registry := map[], map[];
      rows := map id | id in rows ::
        if rows[id].viewer.Some? || rows[id].status == ACTIVE
        then rows[id].(viewer := None, lastActivity := Some(now)) else rows[id];
    }

    /** What other actors do meanwhile. */
    method Interfere(steps: seq<Step>)
      modifies this
      ensures State() == Run(old(State()), steps)
    {
      assert steps[0..] == steps;
      for i := 0 to |steps|
        invariant Run(State(), steps[i..]) == Run(old(State()), steps)
      {
        assert steps[i..][0] == steps[i] && steps[i..][1..] == steps[i + 1..];
        var db := Apply(State(), steps[i]);
        rows, open, registry := db.rows, db.open, db.registry;
      }
    }

    method SelectUnattended(cutoff: Time) returns (cands: seq<Candidate>)
      ensures IsSelection(State(), cutoff, cands)
    {
      cands := [];
      var todo := rows.Keys;
      while todo != {}
        invariant todo <= rows.Keys
        invariant forall i | 0 <= i < |cands| :: ClaimMatches(State(), cands[i].0, cands[i].1, cutoff) && cands[i].0 !in todo
        invariant forall i, j | 0 <= i < j < |cands| :: cands[i].0 != cands[j].0
        invariant forall id | id in rows && id !in todo && rows[id].Unattended(cutoff) :: (id, rows[id].status) in cands
        decreases |todo|
      {
        var id :| id in todo;
        todo := todo - {id};
        if rows[id].Unattended(cutoff) {
          cands := cands + [(id, rows[id].status)];
        }
      }
    }

    method SelectStuck(updated: map<SessionId, Time>, cutoff: Time) returns (cands: seq<Candidate>)
      ensures IsStuckSelection(State(), updated, cutoff, cands)
    {
      cands := [];
      var todo := rows.Keys;
      while todo != {}
        invariant todo <= rows.Keys
        invariant forall i | 0 <= i < |cands| :: StuckMatches(State(), cands[i].0, cands[i].1, updated, cutoff) && cands[i].0 !in todo
        invariant forall i, j | 0 <= i < j < |cands| :: cands[i].0 != cands[j].0
        invariant forall id | id in rows && id !in todo && StuckMatches(State(), id, rows[id].status, updated, cutoff) ::
                    (id, rows[id].status) in cands
        decreases |todo|
      {
        var id :| id in todo;
        todo := todo - {id};
        if rows[id].status in {STARTING, TERMINATING} && id in updated && updated[id] < cutoff {
          cands := cands + [(id, rows[id].status)];
        }
      }
    }

    /** The conditional UPDATE that claims a candidate. */
    method Claim(cand: Candidate, cy: JobCycle) returns (claimed: bool)
      modifies this`rows
      ensures claimed <==> Matches(old(State()), cand, cy)
      ensures State() == if claimed then AfterClaim(old(State()), cand, cy) else old(State())
    {
      var (id, seen) := cand;
      if cy.job.Reaper? {
        claimed := id in rows && rows[id].status == seen && rows[id].Unattended(cy.cutoff);
        if claimed {
          SetStatus(id, TERMINATING);
        }
      } else {
        claimed := id in rows && rows[id].status == seen && seen in {STARTING, TERMINATING}
                   && id in cy.job.updated && cy.job.updated[id] < cy.cutoff;
      }
    }

    /** The claim and what follows it for one candidate; tells whether it was ended. */
    method ClaimAndTerminate(cand: Candidate, cy: JobCycle) returns (reaped: bool)
      modifies this
      ensures State() == Teardown(old(State()), cand, cy)
      ensures reaped <==> Matches(old(State()), cand, cy) && cand.0 in rows && rows[cand.0].status == TERMINATED
    {
      ghost var was := State();
      var claimed := Claim(cand, cy);
      if !claimed {
        return false;
      }
      EndingUntilFinish(was, cand, cy);
      Interfere(StepsOf(cy.during, cand.0));
      FinishSettles(State(), cy.end, cand.0, cand.0 in cy.ok);
      var r := TerminateSession(cand.0, cand.0 in cy.ok, cy.end);
      reaped := r.Ok?;
    }

    method JobTurn(cand: Candidate, cy: JobCycle) returns (reaped: bool)
      modifies this
      ensures State() == Turn(old(State()), cand, cy)
      ensures reaped <==> Reaps(old(State()), cand, cy)
    {
      Interfere(StepsOf(cy.before, cand.0));
      reaped := ClaimAndTerminate(cand, cy);
    }

    /** The loop both jobs share. */
    method RunCycle(cands: seq<Candidate>, cy: JobCycle) returns (reaped: nat, ghost states: seq<Db>)
      modifies this
      ensures CycleTo(states, cands, cy, reaped, old(State()), State())
    {
      reaped, states := 0, [State()];
      for n := 0 to |cands|
        invariant CycleTo(states, cands[..n], cy, reaped, old(State()), State())
      {
        ExtendCycle(states, cands[..n], cy, reaped, old(State()), State(), cands[n]);
        assert cands[..n] + [cands[n]] == cands[..n + 1];
        var gone := JobTurn(cands[n], cy);
        states := states + [State()];
        if gone {
          reaped := reaped + 1;
        }
      }
      assert cands[..|cands|] == cands;
    }

    method ReapOnce(now: Time, timeout: Time, cy: JobCycle) returns (reaped: nat, cands: seq<Candidate>, ghost states: seq<Db>)
      requires cy.job == Reaper && cy.cutoff == now - timeout
      modifies this
      ensures timeout <= 0 ==> cands == []
      ensures timeout > 0 ==> IsSelection(old(State()), now - timeout, cands)
      ensures CycleTo(states, cands, cy, reaped, old(State()), State())
    {
      cands := [];
      if timeout <= 0 {
        reaped, states := 0, [State()];
        return;
      }
      cands := SelectUnattended(cy.cutoff);
      reaped, states := RunCycle(cands, cy);
    }

    /** `updated` are the last changes of the rows at the SELECT, those of the cycle at the claims. */
    method RecoverStuckOnce(now: Time, timeout: Time, updated: map<SessionId, Time>, cy: JobCycle)
        returns (recovered: nat, cands: seq<Candidate>, ghost states: seq<Db>)
      requires cy.job.Recovery? && cy.cutoff == now - timeout
      modifies this
      ensures timeout <= 0 ==> cands == []
      ensures timeout > 0 ==> IsStuckSelection(old(State()), updated, now - timeout, cands)
      ensures CycleTo(states, cands, cy, recovered, old(State()), State())
    {
      cands := [];
      if timeout <= 0 {
        recovered, states := 0, [State()];
        return;
      }
      cands := SelectStuck(updated, cy.cutoff);
      recovered, states := RunCycle(cands, cy);
    }
  }
}
