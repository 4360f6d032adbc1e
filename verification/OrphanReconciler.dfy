/** The reconciler job as it runs: loops over ids that update two counter maps, the rows and the inventories. */
module OrphanReconciler {
  import opened Wrappers
  import opened Sessions
  import opened Enrolling
  import opened Reconciler

  /** Drops the counters of what was seen to be fine. */
  method Forget(counters: map<SessionId, nat>, seen: set<SessionId>, bad: set<SessionId>) returns (kept: map<SessionId, nat>)
    ensures kept == counters - (seen - bad)
  {
    kept := counters;
    var todo := counters.Keys;
    while todo != {}
      invariant todo <= counters.Keys
      invariant kept == counters - ((seen - bad) - todo)
      decreases |todo|
    {
      var id :| id in todo;
      todo := todo - {id};
      if id in seen && id !in bad {
        kept := kept - {id};
      }
    }
  }

  /** Counts what was not fine, and collects what has reached the threshold. */
  method CountObservations(counters: map<SessionId, nat>, seen: set<SessionId>, bad: set<SessionId>, grace: int)
      returns (counted: map<SessionId, nat>, due: set<SessionId>)
    ensures counted == Counted(counters, seen, bad, {})
    ensures due == Due(counters, bad, grace)
  {
    var kept := Forget(counters, seen, bad);
    counted, due := CountBad(counters, kept, bad, grace);
    CountedIs(counters, seen, bad, counted);
  }

  method CountBad(ghost counters: map<SessionId, nat>, kept: map<SessionId, nat>, bad: set<SessionId>, grace: int)
      returns (counted: map<SessionId, nat>, due: set<SessionId>)
    requires forall id | id in kept :: id in counters && kept[id] == counters[id]
    requires forall id | id in counters && id in bad :: id in kept
    ensures CountedSoFar(counters, kept, bad, counted)
    ensures due == Due(counters, bad, grace)
  {
    counted, due := kept, {};
    var todo := bad;
    ghost var done := {};
    NothingObserved(counters, kept, bad, grace);
    while todo != {}
      invariant todo <= bad && done == bad - todo
      invariant CountedSoFar(counters, kept, done, counted)
      invariant due == Due(counters, done, grace)
      decreases |todo|
    {
      var id :| id in todo;
      OneMoreDone(bad, todo, id, {});
      counted, due := CountOne(counters, kept, done, counted, due, id, grace);
      todo := todo - {id};
      done := done + {id};
    }
    assert done == bad;
  }

  /** The counter of one id goes up, and the id is due when it reaches the threshold. */
  method CountOne(ghost counters: map<SessionId, nat>, ghost kept: map<SessionId, nat>, ghost done: set<SessionId>,
                  before: map<SessionId, nat>, dueBefore: set<SessionId>, id: SessionId, grace: int)
      returns (counted: map<SessionId, nat>, due: set<SessionId>)
    requires id !in done && CountedSoFar(counters, kept, done, before)
    requires id in counters ==> id in kept
    requires dueBefore == Due(counters, done, grace)
    ensures CountedSoFar(counters, kept, done + {id}, counted)
    ensures due == Due(counters, done + {id}, grace)
  {
    ObserveOne(counters, kept, done, before, id, grace);
    var count := (if id in before then before[id] else 0) + 1;
    counted := before[id := count];
    due := dueBefore + if count >= grace then {id} else {};
  }

  lemma NothingObserved(counters: map<SessionId, nat>, kept: map<SessionId, nat>, bad: set<SessionId>, grace: int)
    requires forall id | id in kept :: id in counters && kept[id] == counters[id]
    ensures CountedSoFar(counters, kept, {}, kept) && Due(counters, {}, grace) == {} && bad - bad == {}
  {
  }

  lemma ObserveOne(counters: map<SessionId, nat>, kept: map<SessionId, nat>, done: set<SessionId>,
                   counted: map<SessionId, nat>, id: SessionId, grace: int)
    requires id !in done && CountedSoFar(counters, kept, done, counted)
    requires id in counters ==> id in kept
    ensures var count := (if id in counted then counted[id] else 0) + 1;
            && CountedSoFar(counters, kept, done + {id}, counted[id := count])
            && Due(counters, done + {id}, grace) == Due(counters, done, grace) + if count >= grace then {id} else {}
  {
    DueMore(counters, done, id, grace);
    Entered(counters, kept, done, counted, id);
  }

  /** The counters when the observations in `done` have been entered. */
  ghost predicate CountedSoFar(counters: map<SessionId, nat>, kept: map<SessionId, nat>, done: set<SessionId>, counted: map<SessionId, nat>) {
    && counted.Keys == kept.Keys + done
    && forall id | id in counted :: counted[id] == Count(counters, id) + if id in done then 1 else 0
  }

  lemma Entered(counters: map<SessionId, nat>, kept: map<SessionId, nat>, done: set<SessionId>, counted: map<SessionId, nat>, id: SessionId)
    requires CountedSoFar(counters, kept, done, counted) && id !in done
    requires id in counters ==> id in kept
    ensures var count := (if id in counted then counted[id] else 0) + 1;
            && count == Count(counters, id) + 1
            && CountedSoFar(counters, kept, done + {id}, counted[id := count])
  {
  }

  lemma DueMore(counters: map<SessionId, nat>, done: set<SessionId>, id: SessionId, grace: int)
    ensures Due(counters, done + {id}, grace) ==
              Due(counters, done, grace) + if Count(counters, id) + 1 >= grace then {id} else {}
  {
  }

  lemma MinusMore<T>(m: map<SessionId, T>, gone: set<SessionId>, id: SessionId)
    ensures m - gone - {id} == m - (gone + {id})
  {
  }

  /** Those of `all` no longer in `todo`, except the refused ones. */
  function DoneBut(all: set<SessionId>, todo: set<SessionId>, refused: set<SessionId>): set<SessionId> {
    all - todo - refused
  }

  /** Moving one element from `todo` to the part of `all` already done. */
  lemma OneMoreDone(all: set<SessionId>, todo: set<SessionId>, id: SessionId, refused: set<SessionId>)
    requires todo <= all && id in todo
    ensures all - (todo - {id}) == all - todo + {id}
    ensures DoneBut(all, todo - {id}, refused) == DoneBut(all, todo, refused) + if id !in refused then {id} else {}
    ensures id !in DoneBut(all, todo, refused)
  {
  }

  lemma NothingDone(all: set<SessionId>, todo: set<SessionId>, refused: set<SessionId>)
    ensures DoneBut(all, all, refused) == {} && (todo == {} ==> DoneBut(all, todo, refused) == all - refused)
  {
  }

  lemma CountedIs(counters: map<SessionId, nat>, seen: set<SessionId>, bad: set<SessionId>, counted: map<SessionId, nat>)
    requires counted.Keys == (counters - (seen - bad)).Keys + bad
    requires forall id | id in counted :: counted[id] == Count(counters, id) + if id in bad then 1 else 0
    ensures counted == Counted(counters, seen, bad, {})
  {
  }

  lemma CountedWithout(counters: map<SessionId, nat>, seen: set<SessionId>, bad: set<SessionId>, drop: set<SessionId>)
    ensures Counted(counters, seen, bad, {}) - drop == Counted(counters, seen, bad, drop)
  {
  }

  lemma RemoveMore(node: Node, gone: set<SessionId>, id: SessionId)
    ensures Reconciler.Remove(Reconciler.Remove(node, gone), {id}) == Reconciler.Remove(node, gone + {id})
  {
    assert node.managed - gone - {id} == node.managed - (gone + {id});
    assert node.running - gone - {id} == node.running - (gone + {id});
  }

  /** The rows a failed cleanup keeps from being finished. */
  function Keeps(nodeAnswers: bool, env: Env): set<SessionId> {
    if nodeAnswers then env.refused else {}
  }

  function Failing(rows: map<SessionId, Row>, failed: set<SessionId>, now: Time): map<SessionId, Row> {
    map id | id in rows :: if id in failed then Lost(rows[id], now) else rows[id]
  }

  /** The world once the sessions in `failed` have been finished. */
  function Finished(w: World, n: NodeId, failed: set<SessionId>, nodeAnswers: bool, now: Time): World
    requires n in w.nodes
  {
    World(Failing(w.rows, failed, now), if nodeAnswers then w.nodes[n := Reconciler.Remove(w.nodes[n], failed)] else w.nodes,
          w.candidates, w.lostCandidates - failed)
  }

  lemma NobodyFailed(w: World, n: NodeId, nodeAnswers: bool, now: Time)
    requires n in w.nodes
    ensures w == Finished(w, n, {}, nodeAnswers, now)
  {
    RemoveNone(w.nodes, n);
    assert w.lostCandidates - {} == w.lostCandidates;
    assert Failing(w.rows, {}, now) == w.rows;
  }

  lemma FailingMore(rows: map<SessionId, Row>, failed: set<SessionId>, id: SessionId, now: Time)
    requires id in rows && id !in failed
    ensures Failing(rows, failed, now)[id := Lost(rows[id], now)] == Failing(rows, failed + {id}, now)
    ensures Failing(rows, failed, now)[id] == rows[id]
  {
  }

  class OrphanReconciler {
    var rows: map<SessionId, Row>
    var nodes: map<NodeId, Node>
    var candidates: map<SessionId, nat>
    var lostCandidates: map<SessionId, nat>

    function State(): World
      reads this
    {
      World(rows, nodes, candidates, lostCandidates)
    }

    /** The agent's terminate call: it removes the container, running or stopped, unless it fails. */
    method TerminateSandbox(n: NodeId, id: SessionId, env: Env) returns (ok: bool)
      requires n in nodes
      modifies this`nodes
      ensures ok <==> id !in env.refused
      ensures nodes == if ok then old(nodes)[n := Reconciler.Remove(old(nodes)[n], {id})] else old(nodes)
    {
      ok := id !in env.refused;
      if ok {
        nodes := nodes[n := Reconciler.Remove(nodes[n], {id})];
      }
    }

    method TerminateOne(ghost nodesWas: map<NodeId, Node>, ghost candidatesWere: map<SessionId, nat>,
                        ghost gone: set<SessionId>, ghost done: set<SessionId>, n: NodeId, id: SessionId, env: Env) returns (ok: bool)
      requires n in nodesWas && nodes == nodesWas[n := Reconciler.Remove(nodesWas[n], gone)]
      requires candidates == candidatesWere - done
      modifies this`candidates, this`nodes
      ensures ok <==> id !in env.refused
      ensures candidates == candidatesWere - (done + {id})
      ensures nodes == nodesWas[n := Reconciler.Remove(nodesWas[n], if ok then gone + {id} else gone)]
    {
      RemoveMore(nodesWas[n], gone, id);
      MinusMore(candidatesWere, done, id);
      candidates := candidates - {id};
      ok := TerminateSandbox(n, id, env);
    }

    /** The termination loop of the forward direction. */
    method TerminateDue(n: NodeId, due: set<SessionId>, env: Env) returns (changed: bool)
      requires n in nodes
      modifies this`candidates, this`nodes
      ensures candidates == old(candidates) - due
      ensures nodes == old(nodes)[n := Reconciler.Remove(old(nodes)[n], due - env.refused)]
      ensures changed <==> due - env.refused != {}
    {
      changed := false;
      var todo := due;
      ghost var done, gone := {}, {};
      RemoveNone(nodes, n);
      while todo != {}
        invariant todo <= due && done == due - todo && gone == done - env.refused
        invariant candidates == old(candidates) - done
        invariant nodes == old(nodes)[n := Reconciler.Remove(old(nodes)[n], gone)]
        invariant changed <==> gone != {}
        decreases |todo|
      {
        var id :| id in todo;
        var ok := TerminateOne(old(nodes), old(candidates), gone, done, n, id, env);
        OneMoreDone(due, todo, id, env.refused);
        done := done + {id};
        if ok {
          changed := true;
          gone := gone + {id};
        }
        todo := todo - {id};
      }
    }

    method ForwardPass(n: NodeId, env: Env, grace: int) returns (changed: bool)
      requires n in nodes
      modifies this`candidates, this`nodes
      ensures State() == Forward(old(State()), n, env, grace)
      ensures changed <==> Due(old(candidates), Orphans(old(State()), n), grace) - env.refused != {}
    {
      var managed := nodes[n].managed;
      var orphans := set id | id in managed && !Backed(rows, id);
      var due;
      candidates, due := CountObservations(candidates, managed, orphans, grace);
      CountedWithout(old(candidates), managed, orphans, due);
      changed := TerminateDue(n, due, env);
    }

    method FailOne(ghost was: World, ghost failed: set<SessionId>, n: NodeId, id: SessionId, nodeAnswers: bool, env: Env)
        returns (ok: bool)
      requires n in was.nodes && id in was.rows && id !in failed
      requires State() == Finished(was, n, failed, nodeAnswers, env.now)
      modifies this`rows, this`lostCandidates, this`nodes
      ensures ok <==> id !in Keeps(nodeAnswers, env)
      ensures State() == Finished(was, n, failed + if ok then {id} else {}, nodeAnswers, env.now)
    {
      RemoveMore(was.nodes[n], failed, id);
      MinusMore(was.lostCandidates, failed, id);
      FailingMore(was.rows, failed, id, env.now);
      assert failed + {} == failed;
      ok := true;
      if nodeAnswers {
        ok := TerminateSandbox(n, id, env);
      }
      if ok {
        lostCandidates := lostCandidates - {id};
        rows := rows[id := Lost(rows[id], env.now)];
      }
    }

    /** The finishing loop of the reverse direction: clean up where the node answers, then fail the row. */
    method FailDue(n: NodeId, due: set<SessionId>, nodeAnswers: bool, env: Env) returns (changed: bool)
      requires n in nodes && due <= rows.Keys
      modifies this`rows, this`lostCandidates, this`nodes
      ensures State() == Finished(old(State()), n, due - Keeps(nodeAnswers, env), nodeAnswers, env.now)
      ensures changed <==> due - Keeps(nodeAnswers, env) != {}
    {
      changed := false;
      var todo := due;
      ghost var was := State();
      ghost var keeps := Keeps(nodeAnswers, env);
      NobodyFailed(was, n, nodeAnswers, env.now);
      NothingDone(due, {}, keeps);
      while todo != {}
        invariant todo <= due
        invariant State() == Finished(was, n, DoneBut(due, todo, keeps), nodeAnswers, env.now)
        invariant changed <==> DoneBut(due, todo, keeps) != {}
        decreases |todo|
      {
        var id :| id in todo;
        var ok := FailOne(was, DoneBut(due, todo, keeps), n, id, nodeAnswers, env);
        OneMoreDone(due, todo, id, keeps);
        changed := changed || ok;
        todo := todo - {id};
      }
      NothingDone(due, todo, keeps);
    }

    method ReversePass(n: NodeId, running: Option<set<SessionId>>, env: Env, grace: int) returns (changed: bool)
      requires n in nodes
      modifies this`rows, this`lostCandidates, this`nodes
      ensures State() == Reverse(old(State()), n, running, env, grace)
    {
      var live := set id | id in rows && rows[id].node == Some(n) && LostCandidateStatus(rows[id].status);
      var lost := if running.None? then live else live - running.value;
      var due;
      lostCandidates, due := CountObservations(lostCandidates, live, lost, grace);
      CountedWithout(old(lostCandidates), live, lost, if running.Some? then due - env.refused else due);
      changed := FailDue(n, due, running.Some?, env);
    }

    method ReconcileNode(n: NodeId, env: Env, grace: int) returns (changed: bool)
      requires n in nodes
      modifies this
      ensures State() == Visit(old(State()), n, env, grace)
    {
      changed := false;
      var running: Option<set<SessionId>> := None;
      if nodes[n].enrollment != REVOKED && n in env.reachable {
        running := Some(nodes[n].running);
        changed := ForwardPass(n, env, grace);
      }
      var lost := ReversePass(n, running, env, grace);
      changed := changed || lost;
    }

    method SelectNodes() returns (order: seq<NodeId>)
      ensures IsNodeQuery(State(), order)
    {
      order := [];
      var todo := nodes.Keys;
      while todo != {}
        invariant todo <= nodes.Keys
        invariant forall n <- order :: Selected(State(), n) && n !in todo
        invariant forall n | Selected(State(), n) :: n in todo || n in order
        invariant Distinct(order)
        decreases |todo|
      {
        var n :| n in todo;
        todo := todo - {n};
        var live := set id | id in rows && rows[id].node == Some(n) && LostCandidateStatus(rows[id].status);
        if nodes[n].enrollment == APPROVED || (nodes[n].enrollment == REVOKED && live != {}) {
          order := order + [n];
        }
      }
    }

    method ReconcileOnce(env: Env, grace: int) returns (order: seq<NodeId>)
      modifies this
      ensures IsNodeQuery(old(State()), order)
      ensures State() == Cycle(old(State()), order, env, grace)
    {
      order := SelectNodes();
      assert order[0..] == order;
      CycleNodes(State(), order, env, grace);
      for i := 0 to |order|
        invariant nodes.Keys == old(nodes).Keys
        invariant Cycle(State(), order[i..], env, grace) == Cycle(old(State()), order, env, grace)
      {
        assert order[i..][0] == order[i] && order[i..][1..] == order[i + 1..];
        ghost var was := State();
        var changed := ReconcileNode(order[i], env, grace);
      }
    }

    /** The polling loop, as many ticks as there are circumstances given. */
    method PollLoop(envs: seq<Env>, grace: int) returns (ghost rounds: seq<Round>)
      modifies this
      ensures |rounds| == |envs| && forall i | 0 <= i < |envs| :: rounds[i].env == envs[i]
      ensures (forall r <- rounds, n <- r.order :: n in old(nodes)) && State() == Cycles(old(State()), rounds, grace)
      ensures (forall env <- envs :: Healthy(old(State()), env)) ==> Queried(old(State()), rounds, grace)
      ensures (&& AllApproved(old(State())) && Apart(old(State())) && Stopped(old(State())) && Placed(old(State()))
               && |envs| >= 1 && |envs| >= grace && forall env <- envs :: Healthy(old(State()), env))
              ==> Converged(State())
    {
      rounds := [];
      ghost var was := State();
      ghost var healthy := forall env <- envs :: Healthy(was, env);
      for i := 0 to |envs|
        invariant |rounds| == i && forall j | 0 <= j < i :: rounds[j].env == envs[j]
        invariant forall r <- rounds, n <- r.order :: n in was.nodes
        invariant nodes.Keys == was.nodes.Keys && State() == Cycles(was, rounds, grace)
        invariant healthy ==> Queried(was, rounds, grace)
      {
        ghost var before := State();
        var order := ReconcileOnce(envs[i], grace);
        Extended(was, rounds, before, Round(order, envs[i]), grace);
        rounds := rounds + [Round(order, envs[i])];
      }
      if healthy && AllApproved(was) && Apart(was) && Stopped(was) && Placed(was) && |envs| >= 1 && |envs| >= grace {
        QueriedConverges(was, rounds, grace);
      }
    }
  }

  lemma Extended(w: World, rounds: seq<Round>, before: World, r: Round, grace: int)
    requires forall q <- rounds, n <- q.order :: n in w.nodes
    requires before == Cycles(w, rounds, grace) && before.nodes.Keys == w.nodes.Keys && IsNodeQuery(before, r.order)
    ensures forall q <- rounds + [r], n <- q.order :: n in w.nodes
    ensures Cycle(before, r.order, r.env, grace) == Cycles(w, rounds + [r], grace)
    ensures Cycle(before, r.order, r.env, grace).nodes.Keys == w.nodes.Keys
    ensures Queried(w, rounds, grace) && Healthy(w, r.env) ==> Queried(w, rounds + [r], grace)
  {
    CyclesAppend(w, rounds, r, grace);
    CycleNodes(before, r.order, r.env, grace);
    if Queried(w, rounds, grace) && Healthy(w, r.env) {
      QueriedAppend(w, rounds, r, grace);
    }
  }
}
