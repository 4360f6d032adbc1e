/**
 Orphan reconciliation: what one visit to a node and one cycle over all nodes do to the rows, the containers
 and the two grace counters, and where repeated cycles lead.
 */
module Reconciler {
  import opened Wrappers
  import opened Sessions
  import opened Enrolling

  /** `managed` counts stopped containers too, `running` only live ones. */
  datatype Node = Node(enrollment: Enrollment, managed: set<SessionId>, running: set<SessionId>)

  datatype World = World(
    rows: map<SessionId, Row>,
    nodes: map<NodeId, Node>,
    candidates: map<SessionId, nat>,
    lostCandidates: map<SessionId, nat>)

  /** One cycle's circumstances: which agents answer, and which containers they fail to remove. */
  datatype Env = Env(now: Time, reachable: set<NodeId>, refused: set<SessionId>)

  predicate NotOrphanStatus(s: Status) {
    s in {QUEUED, STARTING, ACTIVE, DISCONNECTED, ISOLATING, ISOLATED, TERMINATING}
  }

  predicate LostCandidateStatus(s: Status) {
    s in {ACTIVE, DISCONNECTED, ISOLATING, ISOLATED}
  }

  /** A container that the rows account for. */
  predicate Backed(rows: map<SessionId, Row>, id: SessionId) {
    id in rows && NotOrphanStatus(rows[id].status)
  }

  /** All statuses but the two final ones. */
  lemma BackedPlainly(rows: map<SessionId, Row>, id: SessionId)
    ensures Backed(rows, id) <==> id in rows && rows[id].status !in {TERMINATED, FAILED}
  {
    if id in rows {
      match rows[id].status
      case QUEUED | STARTING | ACTIVE | DISCONNECTED | ISOLATING | ISOLATED | TERMINATING => assert Backed(rows, id);
      case TERMINATED | FAILED => assert !Backed(rows, id);
    }
  }

  function Count(counters: map<SessionId, nat>, id: SessionId): nat {
    if id in counters then counters[id] else 0
  }

  /** The counters after one reachable visit to a node with these containers and these orphans among them. */
  function Counted(counters: map<SessionId, nat>, seen: set<SessionId>, bad: set<SessionId>, drop: set<SessionId>): map<SessionId, nat> {
    map id | id in counters.Keys + bad && id !in drop && (id in seen ==> id in bad) ::
      Count(counters, id) + if id in bad then 1 else 0
  }

  /** Those of `bad` that reach the grace threshold with this observation. */
  function Due(counters: map<SessionId, nat>, bad: set<SessionId>, grace: int): set<SessionId> {
    set id | id in bad && Count(counters, id) + 1 >= grace
  }

  // -- One visit ---------------------------------------------------------------------------------------

  function Orphans(w: World, n: NodeId): set<SessionId>
    requires n in w.nodes
  {
    set id | id in w.nodes[n].managed && !Backed(w.rows, id)
  }

  function Remove(node: Node, gone: set<SessionId>): Node {
    node.(managed := node.managed - gone, running := node.running - gone)
  }

  /** Containers without a live row. */
  function Forward(w: World, n: NodeId, env: Env, grace: int): World
    requires n in w.nodes
  {
    var due := Due(w.candidates, Orphans(w, n), grace);
    w.(candidates := Counted(w.candidates, w.nodes[n].managed, Orphans(w, n), due),
       nodes := w.nodes[n := Remove(w.nodes[n], due - env.refused)])
  }

  function LiveRows(w: World, n: NodeId): set<SessionId> {
    set id | id in w.rows && w.rows[id].node == Some(n) && LostCandidateStatus(w.rows[id].status)
  }

  /** Rows without a running container; `running` is None when the node could not be asked. */
  function LostRows(w: World, n: NodeId, running: Option<set<SessionId>>): set<SessionId> {
    if running.None? then LiveRows(w, n) else LiveRows(w, n) - running.value
  }

  function Reverse(w: World, n: NodeId, running: Option<set<SessionId>>, env: Env, grace: int): World
    requires n in w.nodes
  {
    var lost := LostRows(w, n, running);
    var due := Due(w.lostCandidates, lost, grace);
    var failed := if running.None? then due else due - env.refused;
    World(map id | id in w.rows :: if id in failed then Lost(w.rows[id], env.now) else w.rows[id],
          if running.None? then w.nodes else w.nodes[n := Remove(w.nodes[n], failed)],
          w.candidates,
          Counted(w.lostCandidates, LiveRows(w, n), lost, failed))
  }

  function Answers(w: World, n: NodeId, env: Env): bool
    requires n in w.nodes
  {
    w.nodes[n].enrollment != REVOKED && n in env.reachable
  }

  /** `_reconcile_node`: both directions work from the inventory read at the start. */
  function Visit(w: World, n: NodeId, env: Env, grace: int): World
    requires n in w.nodes
  {
    if Answers(w, n, env) then Reverse(Forward(w, n, env, grace), n, Some(w.nodes[n].running), env, grace)
    else Reverse(w, n, None, env, grace)
  }

  /** `_reconcile_once` over the nodes its query returned, in that order. */
  function Cycle(w: World, order: seq<NodeId>, env: Env, grace: int): World
    requires forall n <- order :: n in w.nodes
    decreases |order|
  {
    if order == [] then w else Cycle(Visit(w, order[0], env, grace), order[1..], env, grace)
  }

  predicate Selected(w: World, n: NodeId) {
    n in w.nodes && (w.nodes[n].enrollment == APPROVED || (w.nodes[n].enrollment == REVOKED && LiveRows(w, n) != {}))
  }

  /** The order lists the nodes the query selects, once each. */
  ghost predicate IsNodeQuery(w: World, order: seq<NodeId>) {
    && (forall n <- order :: Selected(w, n))
    && (forall n | Selected(w, n) :: n in order)
    && Distinct(order)
  }

  /** The rows change only as the session state machine's `LostFail` step allows. */
  lemma VisitChangesRowsByLostFail(w: World, n: NodeId, env: Env, grace: int, id: SessionId)
    requires n in w.nodes && id in w.rows
    ensures var w' := Visit(w, n, env, grace);
            var db := Db(w.rows, map[], map[]);
            && w'.rows.Keys == w.rows.Keys
            && (w'.rows[id] == w.rows[id] ||
                (Accepts(db, LostFail(id)) && w.rows[id].node == Some(n)
                 && w'.rows[id] == Apply(db, At(env.now, LostFail(id))).rows[id]))
  {
  }

  // -- Convergence -------------------------------------------------------------------------------------

  /** No container name is in use on two nodes. */
  ghost predicate Apart(w: World) {
    forall n, m, id | n in w.nodes && m in w.nodes && id in w.nodes[n].managed && id in w.nodes[m].managed :: n == m
  }

  ghost predicate Stopped(w: World) {
    forall n | n in w.nodes :: w.nodes[n].running <= w.nodes[n].managed
  }

  function Missing(w: World, n: NodeId): set<SessionId>
    requires n in w.nodes
  {
    LiveRows(w, n) - w.nodes[n].running
  }

  /** A container of a row that is about to fail is on that row's node. */
  ghost predicate Placed(w: World) {
    forall n, m, id | n in w.nodes && m in w.nodes && id in w.nodes[n].managed && id in Missing(w, m) :: n == m
  }

  ghost predicate AllApproved(w: World) {
    forall n | n in w.nodes :: w.nodes[n].enrollment == APPROVED
  }

  ghost predicate Healthy(w: World, env: Env) {
    w.nodes.Keys <= env.reachable && env.refused == {}
  }

  ghost predicate Converged(w: World) {
    forall n | n in w.nodes :: Orphans(w, n) == {} && Missing(w, n) == {}
  }

  /** Every orphan on `n` was counted at least `k` times, and at the threshold there is none left. */
  ghost predicate OrphansAged(w: World, n: NodeId, k: nat, grace: int)
    requires n in w.nodes
  {
    (forall id <- Orphans(w, n) :: Count(w.candidates, id) >= k) && (0 < k && k >= grace ==> Orphans(w, n) == {})
  }

  ghost predicate MissingAged(w: World, n: NodeId, k: nat, grace: int)
    requires n in w.nodes
  {
    (forall id <- Missing(w, n) :: Count(w.lostCandidates, id) >= k) && (0 < k && k >= grace ==> Missing(w, n) == {})
  }

  lemma VisitOwnOrphans(w: World, n: NodeId, env: Env, grace: int, k: nat)
    requires n in w.nodes && AllApproved(w) && Healthy(w, env) && Stopped(w)
    requires OrphansAged(w, n, k, grace)
    ensures OrphansAged(Visit(w, n, env, grace), n, k + 1, grace)
  {
    var w' := Visit(w, n, env, grace);
    forall id <- Orphans(w', n) ensures Count(w'.candidates, id) >= k + 1 && k + 1 < grace {
      assert id in w.nodes[n].managed;
      assert id in Orphans(w, n);
    }
  }

  lemma VisitOwnMissing(w: World, n: NodeId, env: Env, grace: int, k: nat)
    requires n in w.nodes && AllApproved(w) && Healthy(w, env)
    requires MissingAged(w, n, k, grace)
    ensures MissingAged(Visit(w, n, env, grace), n, k + 1, grace)
  {
    var w' := Visit(w, n, env, grace);
    forall id <- Missing(w', n) ensures id in Missing(w, n) && Count(w'.lostCandidates, id) >= k + 1 && k + 1 < grace {
    }
  }

  /** A visit to one node leaves the inventory of every other alone. */
  lemma VisitOther(w: World, n: NodeId, m: NodeId, env: Env, grace: int)
    requires n in w.nodes && m in w.nodes && n != m && AllApproved(w) && Healthy(w, env)
    ensures var w' := Visit(w, n, env, grace);
            && w'.nodes[m] == w.nodes[m]
            && LiveRows(w', m) == LiveRows(w, m) && Missing(w', m) == Missing(w, m)
            && (forall id <- Missing(w, m) :: Count(w'.lostCandidates, id) == Count(w.lostCandidates, id))
  {
    var w' := Visit(w, n, env, grace);
    forall id ensures id in LiveRows(w', m) <==> id in LiveRows(w, m) {
    }
  }

  lemma VisitOtherOrphans(w: World, n: NodeId, m: NodeId, env: Env, grace: int)
    requires n in w.nodes && m in w.nodes && n != m && AllApproved(w) && Healthy(w, env)
    requires Apart(w) && Placed(w)
    ensures var w' := Visit(w, n, env, grace);
            && Orphans(w', m) == Orphans(w, m)
            && (forall id <- Orphans(w, m) :: Count(w'.candidates, id) == Count(w.candidates, id))
  {
    var w' := Visit(w, n, env, grace);
    VisitOther(w, n, m, env, grace);
    forall id <- w.nodes[m].managed
      ensures w'.rows.Keys == w.rows.Keys && (id in w.rows ==> w'.rows[id] == w.rows[id])
      ensures id !in w.nodes[n].managed
    {
    }
  }

  /** A visit, whatever the circumstances, makes no session miss a container it had. */
  lemma MissingShrinks(w: World, n: NodeId, m: NodeId, env: Env, grace: int)
    requires n in w.nodes && m in w.nodes
    ensures var w' := Visit(w, n, env, grace); m in w'.nodes && Missing(w', m) <= Missing(w, m)
  {
    var w' := Visit(w, n, env, grace);
    forall id <- Missing(w', m) ensures id in Missing(w, m) {
      assert id in w.rows && w.rows[id] == w'.rows[id];
    }
  }

  /** The layout assumptions outlast any visit, also one that gets no answer or whose removals are refused. */
  lemma VisitKeeps(w: World, n: NodeId, env: Env, grace: int)
    requires n in w.nodes
    ensures var w' := Visit(w, n, env, grace);
            && w'.nodes.Keys == w.nodes.Keys && (AllApproved(w) ==> AllApproved(w'))
            && (forall m <- w.nodes :: w'.nodes[m].managed <= w.nodes[m].managed)
            && (Apart(w) ==> Apart(w')) && (Stopped(w) ==> Stopped(w'))
            && (Placed(w) ==> Placed(w'))
  {
    forall m <- w.nodes ensures Missing(Visit(w, n, env, grace), m) <= Missing(w, m) {
      MissingShrinks(w, n, m, env, grace);
    }
  }

  // -- Cycles ------------------------------------------------------------------------------------------

  /** `order` has no node twice, and lists every node of `w`. */
  ghost predicate ListsAll(w: World, order: seq<NodeId>) {
    (forall n <- order :: n in w.nodes) && (forall n <- w.nodes :: n in order) && Distinct(order)
  }

  /** With every node approved the query returns every node. */
  lemma QueryListsAll(w: World, order: seq<NodeId>)
    requires AllApproved(w) && IsNodeQuery(w, order)
    ensures ListsAll(w, order)
  {
    assert forall n <- w.nodes :: Selected(w, n);
  }

  lemma {:induction false} CycleKeeps(w: World, order: seq<NodeId>, env: Env, grace: int)
    requires forall n <- order :: n in w.nodes
    ensures var w' := Cycle(w, order, env, grace);
            && w'.nodes.Keys == w.nodes.Keys && (AllApproved(w) ==> AllApproved(w'))
            && (Apart(w) ==> Apart(w')) && (Stopped(w) ==> Stopped(w')) && (Placed(w) ==> Placed(w'))
    decreases |order|
  {
    if order != [] {
      VisitKeeps(w, order[0], env, grace);
      CycleKeeps(Visit(w, order[0], env, grace), order[1..], env, grace);
    }
  }

  lemma VisitAgesMissing(w: World, order: seq<NodeId>, n: NodeId, env: Env, grace: int, k: nat)
    requires AllApproved(w) && Healthy(w, env) && Distinct(order) && order != [] && order[0] in w.nodes && n in w.nodes
    requires MissingAged(w, n, if n in order then k else k + 1, grace)
    ensures MissingAged(Visit(w, order[0], env, grace), n, if n in order[1..] then k else k + 1, grace)
  {
    if n == order[0] {
      VisitOwnMissing(w, n, env, grace, k);
      assert n !in order[1..];
    } else {
      VisitOther(w, order[0], n, env, grace);
      assert n in order <==> n in order[1..];
    }
  }

  /** Every missing session counted at least `k` times, on the nodes already visited once more. */
  ghost predicate MissingAgedInTurn(w: World, order: seq<NodeId>, k: nat, grace: int) {
    forall n <- w.nodes :: MissingAged(w, n, if n in order then k else k + 1, grace)
  }

  lemma VisitAgesAllMissing(w: World, order: seq<NodeId>, env: Env, grace: int, k: nat)
    requires AllApproved(w) && Healthy(w, env) && Distinct(order) && order != [] && order[0] in w.nodes
    requires MissingAgedInTurn(w, order, k, grace)
    ensures MissingAgedInTurn(Visit(w, order[0], env, grace), order[1..], k, grace)
  {
    var v := Visit(w, order[0], env, grace);
    assert v.nodes.Keys == w.nodes.Keys;
    forall n <- v.nodes ensures MissingAged(v, n, if n in order[1..] then k else k + 1, grace) {
      VisitAgesMissing(w, order, n, env, grace, k);
    }
  }

  lemma FirstVisit(w: World, order: seq<NodeId>, env: Env, grace: int, k: nat) returns (v: World)
    requires AllApproved(w) && Healthy(w, env) && Distinct(order) && order != [] && forall n <- order :: n in w.nodes
    requires MissingAgedInTurn(w, order, k, grace)
    ensures (forall n <- order[1..] :: n in v.nodes) && Cycle(w, order, env, grace) == Cycle(v, order[1..], env, grace)
    ensures AllApproved(v) && Healthy(v, env) && Distinct(order[1..]) && MissingAgedInTurn(v, order[1..], k, grace)
  {
    v := Visit(w, order[0], env, grace);
    VisitKeeps(w, order[0], env, grace);
    VisitAgesAllMissing(w, order, env, grace, k);
  }

  /** One cycle makes every missing session one observation older: those still to be visited, and those done. */
  lemma {:induction false} CycleAgesMissing(w: World, order: seq<NodeId>, env: Env, grace: int, k: nat)
    requires AllApproved(w) && Healthy(w, env) && Distinct(order) && forall n <- order :: n in w.nodes
    requires MissingAgedInTurn(w, order, k, grace)
    ensures MissingAgedInTurn(Cycle(w, order, env, grace), [], k, grace)
    decreases |order|
  {
    if order == [] {
      assert Cycle(w, order, env, grace) == w;
    } else {
      var v := FirstVisit(w, order, env, grace, k);
      CycleAgesMissing(v, order[1..], env, grace, k);
    }
  }

  lemma {:induction false} CycleAgesOrphans(w: World, order: seq<NodeId>, env: Env, grace: int, k: nat)
    requires AllApproved(w) && Healthy(w, env) && Distinct(order) && forall n <- order :: n in w.nodes
    requires Apart(w) && Stopped(w) && Placed(w)
    requires forall n <- w.nodes :: OrphansAged(w, n, if n in order then k else k + 1, grace)
    ensures var w' := Cycle(w, order, env, grace);
            w'.nodes.Keys == w.nodes.Keys && forall n <- w'.nodes :: OrphansAged(w', n, k + 1, grace)
    decreases |order|
  {
    if order != [] {
      var v := Visit(w, order[0], env, grace);
      VisitKeeps(w, order[0], env, grace);
      VisitOwnOrphans(w, order[0], env, grace, k);
      forall n <- v.nodes ensures OrphansAged(v, n, if n in order[1..] then k else k + 1, grace) {
        if n != order[0] {
          VisitOtherOrphans(w, order[0], n, env, grace);
          assert n in order <==> n in order[1..];
        }
      }
      CycleAgesOrphans(v, order[1..], env, grace, k);
    }
  }

  // -- Runs of cycles ----------------------------------------------------------------------------------

  datatype Round = Round(order: seq<NodeId>, env: Env)

  ghost predicate HealthyRounds(w: World, rounds: seq<Round>) {
    forall r <- rounds :: ListsAll(w, r.order) && Healthy(w, r.env)
  }

  function Cycles(w: World, rounds: seq<Round>, grace: int): World
    requires forall r <- rounds, n <- r.order :: n in w.nodes
    decreases |rounds|
  {
    if rounds == [] then w else
    var w' := Cycle(w, rounds[0].order, rounds[0].env, grace);
    CycleNodes(w, rounds[0].order, rounds[0].env, grace);
    Cycles(w', rounds[1..], grace)
  }

  lemma {:induction false} CycleNodes(w: World, order: seq<NodeId>, env: Env, grace: int)
    requires forall n <- order :: n in w.nodes
    ensures Cycle(w, order, env, grace).nodes.Keys == w.nodes.Keys
    decreases |order|
  {
    if order != [] {
      CycleNodes(Visit(w, order[0], env, grace), order[1..], env, grace);
    }
  }

  lemma {:induction false} CyclesKeep(w: World, rounds: seq<Round>, grace: int)
    requires forall r <- rounds, n <- r.order :: n in w.nodes
    ensures var w' := Cycles(w, rounds, grace);
            && w'.nodes.Keys == w.nodes.Keys && (AllApproved(w) ==> AllApproved(w'))
            && (Apart(w) ==> Apart(w')) && (Stopped(w) ==> Stopped(w')) && (Placed(w) ==> Placed(w'))
    decreases |rounds|
  {
    if rounds != [] {
      var r := rounds[0];
      CycleKeeps(w, r.order, r.env, grace);
      CyclesKeep(Cycle(w, r.order, r.env, grace), rounds[1..], grace);
    }
  }

  ghost predicate AllMissingAged(w: World, k: nat, grace: int) {
    forall n <- w.nodes :: MissingAged(w, n, k, grace)
  }

  lemma {:induction false} MissingAfter(w: World, rounds: seq<Round>, grace: int, k: nat)
    requires AllApproved(w) && HealthyRounds(w, rounds) && AllMissingAged(w, k, grace)
    ensures AllMissingAged(Cycles(w, rounds, grace), k + |rounds|, grace)
    decreases |rounds|
  {
    if rounds != [] {
      var r := rounds[0];
      CycleKeeps(w, r.order, r.env, grace);
      CycleAgesMissing(w, r.order, r.env, grace, k);
      MissingAfter(Cycle(w, r.order, r.env, grace), rounds[1..], grace, k + 1);
    }
  }

  lemma {:induction false} OrphansAfter(w: World, rounds: seq<Round>, grace: int, k: nat)
    requires AllApproved(w) && HealthyRounds(w, rounds) && Apart(w) && Stopped(w) && Placed(w)
    requires forall n <- w.nodes :: OrphansAged(w, n, k, grace)
    ensures var w' := Cycles(w, rounds, grace);
            w'.nodes.Keys == w.nodes.Keys && forall n <- w'.nodes :: OrphansAged(w', n, k + |rounds|, grace)
    decreases |rounds|
  {
    if rounds != [] {
      var r := rounds[0];
      CycleKeeps(w, r.order, r.env, grace);
      CycleAgesOrphans(w, r.order, r.env, grace, k);
      OrphansAfter(Cycle(w, r.order, r.env, grace), rounds[1..], grace, k + 1);
    }
  }

  /**
   Convergence: from any state whose containers are where their rows say, the grace number of cycles with
   answering agents leaves no container without a live row and no live row without a container.
   */
  lemma ConvergesInGrace(w: World, rounds: seq<Round>, grace: int)
    requires AllApproved(w) && Apart(w) && Stopped(w) && Placed(w) && HealthyRounds(w, rounds)
    requires |rounds| >= 1 && |rounds| >= grace
    ensures Converged(Cycles(w, rounds, grace))
  {
    MissingAfter(w, rounds, grace, 0);
    OrphansAfter(w, rounds, grace, 0);
  }

  lemma NothingMissingIsPlaced(w: World, k: nat, grace: int)
    requires AllMissingAged(w, k, grace) && k >= 1 && k >= grace
    ensures Placed(w)
  {
    assert forall n <- w.nodes :: MissingAged(w, n, k, grace) && Missing(w, n) == {};
  }

  /** Without that placement, twice as many: the rows first, then the containers they leave behind. */
  lemma ConvergesInTwiceGrace(w: World, first: seq<Round>, second: seq<Round>, grace: int)
    requires AllApproved(w) && Apart(w) && Stopped(w) && HealthyRounds(w, first) && HealthyRounds(w, second)
    requires |first| >= 1 && |second| >= 1 && |first| >= grace && |second| >= grace
    ensures Cycles(w, first, grace).nodes.Keys == w.nodes.Keys
    ensures Converged(Cycles(Cycles(w, first, grace), second, grace))
  {
    MissingAfter(w, first, grace, 0);
    CyclesKeep(w, first, grace);
    var mid := Cycles(w, first, grace);
    NothingMissingIsPlaced(mid, |first|, grace);
    ConvergesInGrace(mid, second, grace);
  }

  lemma RemoveNone(nodes: map<NodeId, Node>, n: NodeId)
    requires n in nodes
    ensures nodes[n := Remove(nodes[n], {})] == nodes
  {
    assert nodes[n].managed - {} == nodes[n].managed && nodes[n].running - {} == nodes[n].running;
  }

  // -- Placement decides -------------------------------------------------------------------------------

  /** A container on `n` whose row, pinned to `m`, is about to fail, or has failed with fewer than `k` sightings. */
  ghost predicate Lingers(w: World, n: NodeId, m: NodeId, id: SessionId, k: nat) {
    && n in w.nodes && m in w.nodes && id in w.nodes[n].managed
    && (id in Missing(w, m) || (!Backed(w.rows, id) && Count(w.candidates, id) < k))
  }

  /** The same once this cycle has visited `n`, which forgets the sightings of a container with a live row. */
  ghost predicate LingersSeen(w: World, n: NodeId, m: NodeId, id: SessionId, k: nat) {
    Lingers(w, n, m, id, k) && (id in Missing(w, m) ==> Count(w.candidates, id) == 0)
  }

  lemma VisitOfContainer(w: World, n: NodeId, m: NodeId, id: SessionId, env: Env, grace: int, k: nat)
    requires AllApproved(w) && Healthy(w, env) && n != m && Lingers(w, n, m, id, k) && k < grace
    ensures LingersSeen(Visit(w, n, env, grace), n, m, id, k + 1)
  {
    VisitOther(w, n, m, env, grace);
  }

  lemma VisitElsewhere(w: World, q: NodeId, n: NodeId, m: NodeId, id: SessionId, env: Env, grace: int, k: nat)
    requires AllApproved(w) && Healthy(w, env) && Apart(w) && q in w.nodes && q != n && k > 0
    requires LingersSeen(w, n, m, id, k)
    ensures LingersSeen(Visit(w, q, env, grace), n, m, id, k)
  {
    assert id !in w.nodes[q].managed;
    VisitOther(w, q, n, env, grace);
    var w' := Visit(w, q, env, grace);
    assert Count(w'.candidates, id) == Count(w.candidates, id);
    if q == m {
      assert id in Missing(w, m) && w'.rows[id] == w.rows[id] ==> id in Missing(w', m);
    } else {
      VisitOther(w, q, m, env, grace);
    }
  }

  lemma {:induction false} LaterVisitsElsewhere(w: World, order: seq<NodeId>, n: NodeId, m: NodeId, id: SessionId, env: Env, grace: int, k: nat)
    requires AllApproved(w) && Healthy(w, env) && Apart(w) && k > 0 && LingersSeen(w, n, m, id, k)
    requires n !in order && forall q <- order :: q in w.nodes
    ensures LingersSeen(Cycle(w, order, env, grace), n, m, id, k)
    decreases |order|
  {
    if order != [] {
      VisitElsewhere(w, order[0], n, m, id, env, grace, k);
      VisitKeeps(w, order[0], env, grace);
      LaterVisitsElsewhere(Visit(w, order[0], env, grace), order[1..], n, m, id, env, grace, k);
    }
  }

  /** Rounds that visit `n` before `m`. */
  ghost predicate ContainerFirst(rounds: seq<Round>, n: NodeId) {
    forall r <- rounds :: r.order != [] && r.order[0] == n
  }

  /** Visiting the container before its row wastes the cycle in which the row fails. */
  lemma CycleLingers(w: World, order: seq<NodeId>, n: NodeId, m: NodeId, id: SessionId, env: Env, grace: int, k: nat)
    requires AllApproved(w) && Apart(w) && Healthy(w, env) && order != [] && order[0] == n && Distinct(order)
    requires (forall q <- order :: q in w.nodes) && n != m && Lingers(w, n, m, id, k) && k < grace
    ensures Lingers(Cycle(w, order, env, grace), n, m, id, k + 1)
  {
    VisitOfContainer(w, n, m, id, env, grace, k);
    VisitKeeps(w, n, env, grace);
    LaterVisitsElsewhere(Visit(w, n, env, grace), order[1..], n, m, id, env, grace, k + 1);
  }

  lemma HealthyTail(w: World, w': World, rounds: seq<Round>)
    requires rounds != [] && HealthyRounds(w, rounds) && w'.nodes.Keys == w.nodes.Keys
    ensures HealthyRounds(w', rounds[1..]) && ListsAll(w, rounds[0].order) && Healthy(w, rounds[0].env)
  {
  }

  lemma {:induction false} MisplacedLingers(w: World, rounds: seq<Round>, n: NodeId, m: NodeId, id: SessionId, grace: int, k: nat)
    requires AllApproved(w) && Apart(w) && HealthyRounds(w, rounds) && ContainerFirst(rounds, n)
    requires n != m && Lingers(w, n, m, id, k) && k + |rounds| <= grace
    ensures Lingers(Cycles(w, rounds, grace), n, m, id, k + |rounds|)
    decreases |rounds|
  {
    if rounds != [] {
      var r := rounds[0];
      CycleLingers(w, r.order, n, m, id, r.env, grace, k);
      CycleKeeps(w, r.order, r.env, grace);
      HealthyTail(w, Cycle(w, r.order, r.env, grace), rounds);
      MisplacedLingers(Cycle(w, r.order, r.env, grace), rounds[1..], n, m, id, grace, k + 1);
    }
  }

  lemma LingeringIsNotConverged(w: World, n: NodeId, m: NodeId, id: SessionId, k: nat)
    requires Lingers(w, n, m, id, k)
    ensures !Converged(w)
  {
    if !Backed(w.rows, id) {
      assert id in Orphans(w, n);
    } else {
      assert id in Missing(w, m);
    }
  }

  /** Some order lists every node once, this one first. */
  lemma {:induction false} OrderStarting(nodes: set<NodeId>, first: NodeId) returns (order: seq<NodeId>)
    requires first in nodes
    ensures order != [] && order[0] == first && Distinct(order) && forall n :: n in order <==> n in nodes
    decreases |nodes|
  {
    var others := nodes - {first};
    if others == {} {
      order := [first];
    } else {
      var next :| next in others;
      var later := OrderStarting(others, next);
      order := [first] + later;
    }
  }

  lemma MisplacedNeedsLonger(w: World, n: NodeId, m: NodeId, id: SessionId, grace: int) returns (rounds: seq<Round>)
    requires AllApproved(w) && Apart(w) && grace >= 1
    requires n in w.nodes && m in w.nodes && n != m && id in w.nodes[n].managed && id in Missing(w, m)
    ensures HealthyRounds(w, rounds) && |rounds| == grace && !Converged(Cycles(w, rounds, grace))
  {
    var order := OrderStarting(w.nodes.Keys, n);
    rounds := seq(grace, _ => Round(order, Env(0, w.nodes.Keys, {})));
    MisplacedLingers(w, rounds, n, m, id, grace, 0);
    LingeringIsNotConverged(Cycles(w, rounds, grace), n, m, id, grace);
  }

  const STRAY: Row := Row(7, Some(0), ACTIVE, 0, Some(0), Some(0), None, None)

  /** One session pinned to node 0 whose container runs on node 1. */
  const STRAYED: World :=
    World(map[5 := STRAY], map[0 := Node(APPROVED, {}, {}), 1 := Node(APPROVED, {5}, {5})], map[], map[])

  /** A state from which one grace period is not enough, for any grace number. */
  lemma PlacementMatters(grace: int) returns (rounds: seq<Round>)
    requires grace >= 1
    ensures AllApproved(STRAYED) && Apart(STRAYED) && Stopped(STRAYED)
    ensures HealthyRounds(STRAYED, rounds) && |rounds| == grace && !Converged(Cycles(STRAYED, rounds, grace))
  {
    assert 5 in Missing(STRAYED, 0);
    rounds := MisplacedNeedsLonger(STRAYED, 1, 0, 5, grace);
  }

  /**
   Exactly when one grace period is enough, whatever order the nodes are visited in: iff the containers of
   rows about to fail are on those rows' nodes.
   */
  lemma PlacementDecides(w: World, grace: int)
    requires AllApproved(w) && Apart(w) && Stopped(w) && grace >= 1
    ensures Placed(w) <==>
              forall rounds | HealthyRounds(w, rounds) && |rounds| == grace :: Converged(Cycles(w, rounds, grace))
  {
    if Placed(w) {
      forall rounds | HealthyRounds(w, rounds) && |rounds| == grace ensures Converged(Cycles(w, rounds, grace)) {
        ConvergesInGrace(w, rounds, grace);
      }
    } else {
      var n, m, id :| n in w.nodes && m in w.nodes && id in w.nodes[n].managed && id in Missing(w, m) && n != m;
      var rounds := MisplacedNeedsLonger(w, n, m, id, grace);
      assert HealthyRounds(w, rounds);
    }
  }

  // -- The orders the job really takes -----------------------------------------------------------------

  /** Each round visits the nodes its own query returned, and all agents answer. */
  ghost predicate Queried(w: World, rounds: seq<Round>, grace: int)
    decreases |rounds|
  {
    rounds == [] ||
    var r := rounds[0];
    IsNodeQuery(w, r.order) && Healthy(w, r.env) && Queried(Cycle(w, r.order, r.env, grace), rounds[1..], grace)
  }

  lemma {:induction false} QueriedIsHealthy(w: World, rounds: seq<Round>, grace: int)
    requires AllApproved(w) && Queried(w, rounds, grace)
    ensures HealthyRounds(w, rounds)
    decreases |rounds|
  {
    if rounds != [] {
      var r := rounds[0];
      var w' := Cycle(w, r.order, r.env, grace);
      QueryListsAll(w, r.order);
      CycleKeeps(w, r.order, r.env, grace);
      QueriedIsHealthy(w', rounds[1..], grace);
      forall s <- rounds ensures ListsAll(w, s.order) && Healthy(w, s.env) {
        assert s == r || s in rounds[1..];
        assert s in rounds[1..] ==> ListsAll(w', s.order) && Healthy(w', s.env);
      }
    }
  }

  /** So repeating the job converges, in the same number of cycles. */
  lemma QueriedConverges(w: World, rounds: seq<Round>, grace: int)
    requires AllApproved(w) && Apart(w) && Stopped(w) && Placed(w) && Queried(w, rounds, grace)
    requires |rounds| >= 1 && |rounds| >= grace
    ensures HealthyRounds(w, rounds) && Converged(Cycles(w, rounds, grace))
  {
    QueriedIsHealthy(w, rounds, grace);
    ConvergesInGrace(w, rounds, grace);
  }

  lemma {:induction false} CyclesAppend(w: World, rounds: seq<Round>, r: Round, grace: int)
    requires forall q <- rounds, n <- q.order :: n in w.nodes
    requires forall n <- r.order :: n in w.nodes
    ensures Cycles(w, rounds, grace).nodes.Keys == w.nodes.Keys
    ensures (forall q <- rounds + [r], n <- q.order :: n in w.nodes)
            && Cycles(w, rounds + [r], grace) == Cycle(Cycles(w, rounds, grace), r.order, r.env, grace)
    decreases |rounds|
  {
    CycleNodes(w, r.order, r.env, grace);
    if rounds == [] {
      assert rounds + [r] == [r] && [r][1..] == [];
      assert Cycles(w, [r], grace) == Cycles(Cycle(w, r.order, r.env, grace), [], grace);
    } else {
      assert (rounds + [r])[1..] == rounds[1..] + [r];
      CycleNodes(w, rounds[0].order, rounds[0].env, grace);
      CyclesAppend(Cycle(w, rounds[0].order, rounds[0].env, grace), rounds[1..], r, grace);
    }
  }

  lemma {:induction false} QueriedAppend(w: World, rounds: seq<Round>, r: Round, grace: int)
    requires Queried(w, rounds, grace) && forall q <- rounds, n <- q.order :: n in w.nodes
    requires IsNodeQuery(Cycles(w, rounds, grace), r.order) && Healthy(Cycles(w, rounds, grace), r.env)
    ensures Queried(w, rounds + [r], grace)
    decreases |rounds|
  {
    if rounds == [] {
      assert rounds + [r] == [r] && [r][1..] == [];
    } else {
      assert (rounds + [r])[1..] == rounds[1..] + [r];
      CycleNodes(w, rounds[0].order, rounds[0].env, grace);
      QueriedAppend(Cycle(w, rounds[0].order, rounds[0].env, grace), rounds[1..], r, grace);
    }
  }

  // -- Outage ------------------------------------------------------------------------------------------

  ghost predicate Silent(w: World, n: NodeId, env: Env)
    requires n in w.nodes
  {
    !Answers(w, n, env)
  }

  ghost predicate LiveAged(w: World, n: NodeId, k: nat, grace: int) {
    (forall id <- LiveRows(w, n) :: Count(w.lostCandidates, id) >= k) && (0 < k && k >= grace ==> LiveRows(w, n) == {})
  }

  /** A visit to any node, under any circumstances, does not rejuvenate the sessions of a silent one. */
  lemma VisitInOutage(w: World, m: NodeId, n: NodeId, env: Env, grace: int, k: nat)
    requires n in w.nodes && m in w.nodes && Silent(w, n, env) && LiveAged(w, n, k, grace)
    ensures var w' := Visit(w, m, env, grace);
            && n in w'.nodes && w'.nodes[n].enrollment == w.nodes[n].enrollment && w'.nodes.Keys == w.nodes.Keys
            && (forall o <- w.nodes :: w'.nodes[o].enrollment == w.nodes[o].enrollment)
            && LiveAged(w', n, if m == n then k + 1 else k, grace)
  {
    var w' := Visit(w, m, env, grace);
    forall id <- LiveRows(w', n)
      ensures id in LiveRows(w, n)
      ensures Count(w'.lostCandidates, id) >= Count(w.lostCandidates, id) + if m == n then 1 else 0
    {
    }
    if m == n && k + 1 >= grace {
      assert forall id <- LiveRows(w, n) :: id in Due(w.lostCandidates, LostRows(w, n, None), grace);
    }
  }

  lemma {:induction false} CycleInOutage(w: World, order: seq<NodeId>, n: NodeId, env: Env, grace: int, k: nat, visited: bool)
    requires forall m <- order :: m in w.nodes
    requires n in w.nodes && Silent(w, n, env) && LiveAged(w, n, k, grace)
    requires Distinct(order) && (n in order || visited || LiveRows(w, n) == {})
    requires visited ==> n !in order && LiveAged(w, n, k + 1, grace)
    ensures var w' := Cycle(w, order, env, grace);
            n in w'.nodes && w'.nodes[n].enrollment == w.nodes[n].enrollment && LiveAged(w', n, k + 1, grace)
    decreases |order|
  {
    if order != [] {
      var m := order[0];
      var v := Visit(w, m, env, grace);
      VisitInOutage(w, m, n, env, grace, k);
      if visited {
        VisitInOutage(w, m, n, env, grace, k + 1);
      }
      if m == n || n in order[1..] || visited {
        CycleInOutage(v, order[1..], n, env, grace, k, visited || m == n);
      } else {
        NoLiveRowsStay(w, m, n, env, grace);
        CycleInOutage(v, order[1..], n, env, grace, k, false);
      }
    }
  }

  lemma NoLiveRowsStay(w: World, m: NodeId, n: NodeId, env: Env, grace: int)
    requires m in w.nodes && LiveRows(w, n) == {}
    ensures LiveRows(Visit(w, m, env, grace), n) == {}
  {
    forall id <- LiveRows(Visit(w, m, env, grace), n) ensures id in LiveRows(w, n) {
    }
  }

  /**
   A node that answers in none of a grace number of cycles (down, or revoked) ends with no live session on
   it, whatever happens to the other nodes meanwhile; `ConvergesAfterOutage` covers its return.
   */
  lemma {:induction false} OutageFailsSessions(w: World, rounds: seq<Round>, n: NodeId, grace: int, k: nat)
    requires n in w.nodes && w.nodes[n].enrollment != PENDING && LiveAged(w, n, k, grace)
    requires forall r <- rounds, m <- r.order :: m in w.nodes
    requires forall r <- rounds :: Distinct(r.order) && Silent(w, n, r.env)
    requires QueriesInTurn(w, rounds, n, grace)
    ensures LiveAged(Cycles(w, rounds, grace), n, k + |rounds|, grace)
    decreases |rounds|
  {
    if rounds != [] {
      var r := rounds[0];
      CycleInOutage(w, r.order, n, r.env, grace, k, false);
      CycleNodes(w, r.order, r.env, grace);
      OutageFailsSessions(Cycle(w, r.order, r.env, grace), rounds[1..], n, grace, k + 1);
    }
  }

  /** Each cycle of the run visits `n` unless the query leaves it out, having no live session. */
  ghost predicate QueriesInTurn(w: World, rounds: seq<Round>, n: NodeId, grace: int)
    requires forall r <- rounds, m <- r.order :: m in w.nodes
    decreases |rounds|
  {
    rounds == [] ||
    var r := rounds[0];
    CycleNodes(w, r.order, r.env, grace);
    (Selected(w, n) ==> n in r.order) && QueriesInTurn(Cycle(w, r.order, r.env, grace), rounds[1..], n, grace)
  }

  /**
   After any outage, nodes silent and removals refused for any number of rounds, one further grace period of
   answering agents removes the containers that failed sessions left behind.
   */
  lemma ConvergesAfterOutage(w: World, outage: seq<Round>, healthy: seq<Round>, grace: int)
    requires AllApproved(w) && Apart(w) && Stopped(w) && Placed(w)
    requires forall r <- outage, n <- r.order :: n in w.nodes
    requires HealthyRounds(w, healthy) && |healthy| >= 1 && |healthy| >= grace
    ensures Cycles(w, outage, grace).nodes.Keys == w.nodes.Keys
    ensures Converged(Cycles(Cycles(w, outage, grace), healthy, grace))
  {
    CyclesKeep(w, outage, grace);
    ConvergesInGrace(Cycles(w, outage, grace), healthy, grace);
  }

  // -- Safety of the forward direction -----------------------------------------------------------------

  /** What one visit sees of the containers, or a restart of the process, which loses the counters. */
  datatype Sight = Unreachable | Inventory(managed: set<SessionId>, backed: set<SessionId>) | Restart

  predicate OrphanAt(s: Sight, id: SessionId) {
    s.Inventory? && id in s.managed && id !in s.backed
  }

  /** The container was seen with a live row, or the counters were lost. */
  predicate ResetAt(s: Sight, id: SessionId) {
    s.Restart? || (s.Inventory? && id in s.managed && id in s.backed)
  }

  function CandidatesAfter(c: map<SessionId, nat>, s: Sight, grace: int): map<SessionId, nat> {
    match s
    case Unreachable => c
    case Restart => map[]
    case Inventory(managed, backed) =>
      Counted(c, managed, managed - backed, Due(c, managed - backed, grace))
  }

  /** The containers a visit tries to tear down. */
  function TornDown(c: map<SessionId, nat>, s: Sight, grace: int): set<SessionId> {
    if s.Inventory? then Due(c, s.managed - s.backed, grace) else {}
  }

  function CandidatesOver(c: map<SessionId, nat>, sights: seq<Sight>, grace: int): map<SessionId, nat> {
    if sights == [] then c else CandidatesAfter(CandidatesOver(c, sights[..|sights| - 1], grace), sights[|sights| - 1], grace)
  }

  /** How a visit looks to the forward direction, and that it acts on exactly the due containers. */
  lemma VisitIsSight(w: World, n: NodeId, env: Env, grace: int)
    requires n in w.nodes
    ensures var s := if Answers(w, n, env) then Inventory(w.nodes[n].managed, set id | id in w.nodes[n].managed && Backed(w.rows, id))
                     else Unreachable;
            && Visit(w, n, env, grace).candidates == CandidatesAfter(w.candidates, s, grace)
            && (Answers(w, n, env) ==>
                  Forward(w, n, env, grace).nodes[n].managed == w.nodes[n].managed - (TornDown(w.candidates, s, grace) - env.refused))
  {
    assert Orphans(w, n) == w.nodes[n].managed - (set id | id in w.nodes[n].managed && Backed(w.rows, id));
  }

  function OrphanSightings(sights: seq<Sight>, id: SessionId): nat {
    if sights == [] then 0 else OrphanSightings(sights[1..], id) + if OrphanAt(sights[0], id) then 1 else 0
  }

  lemma {:induction false} OrphanSightingsAppend(a: seq<Sight>, b: seq<Sight>, id: SessionId)
    ensures OrphanSightings(a + b, id) == OrphanSightings(a, id) + OrphanSightings(b, id)
  {
    if a == [] {
      assert a + b == b;
    } else {
      assert (a + b)[1..] == a[1..] + b;
      OrphanSightingsAppend(a[1..], b, id);
    }
  }

  ghost predicate NoReset(sights: seq<Sight>, id: SessionId) {
    forall s <- sights :: !ResetAt(s, id)
  }

  /** The counter is the number of orphan sightings since some point after the last reset. */
  lemma {:induction false} CounterCountsSightings(sights: seq<Sight>, id: SessionId, grace: int) returns (since: nat)
    ensures since <= |sights| && NoReset(sights[since..], id)
    ensures Count(CandidatesOver(map[], sights, grace), id) == OrphanSightings(sights[since..], id)
    decreases |sights|
  {
    since := 0;
    if sights != [] {
      var last := |sights| - 1;
      var before := sights[..last];
      var c := CandidatesOver(map[], before, grace);
      since := CounterCountsSightings(before, id, grace);
      if ResetAt(sights[last], id) || id in TornDown(c, sights[last], grace) {
        since := |sights|;
      } else {
        assert sights[since..] == before[since..] + [sights[last]];
        OrphanSightingsAppend(before[since..], [sights[last]], id);
      }
    }
  }

  /**
   Safety over any run: a container is torn down only when this visit sees it without a live row, and only
   after at least the grace number of such sightings with no reset in between.
   */
  lemma TornDownOnlyAfterGrace(sights: seq<Sight>, i: nat, id: SessionId, grace: int) returns (since: nat)
    requires i < |sights| && id in TornDown(CandidatesOver(map[], sights[..i], grace), sights[i], grace)
    ensures OrphanAt(sights[i], id)
    ensures since <= i && NoReset(sights[since..i + 1], id) && OrphanSightings(sights[since..i + 1], id) >= grace
  {
    since := CounterCountsSightings(sights[..i], id, grace);
    assert sights[since..i + 1] == sights[..i][since..] + [sights[i]];
    OrphanSightingsAppend(sights[..i][since..], [sights[i]], id);
  }

  lemma {:induction false} SightingsGrow(sights: seq<Sight>, from: nat, id: SessionId)
    requires from <= |sights|
    ensures OrphanSightings(sights[from..], id) <= OrphanSightings(sights, id)
  {
    assert sights == sights[..from] + sights[from..];
    OrphanSightingsAppend(sights[..from], sights[from..], id);
  }

  /**
   A sandbox whose creating transaction commits before the grace-th sighting is never torn down: before the
   commit it was seen orphaned fewer times than that, afterwards whenever it is seen it has a live row.
   */
  lemma CommittedInTimeIsSafe(sights: seq<Sight>, commit: nat, id: SessionId, grace: int, i: nat)
    requires commit <= |sights| && OrphanSightings(sights[..commit], id) < grace
    requires forall j | commit <= j < |sights| :: !OrphanAt(sights[j], id)
    requires i < |sights|
    ensures id !in TornDown(CandidatesOver(map[], sights[..i], grace), sights[i], grace)
  {
    if id in TornDown(CandidatesOver(map[], sights[..i], grace), sights[i], grace) {
      var since := TornDownOnlyAfterGrace(sights, i, id, grace);
      var seen := sights[..i + 1];
      assert seen[since..] == sights[since..i + 1];
      SightingsGrow(seen, since, id);
      assert sights[..commit] == seen + sights[i + 1..commit];
      OrphanSightingsAppend(seen, sights[i + 1..commit], id);
    }
  }

  // -- Sightings need not be consecutive -----------------------------------------------------------------

  /** A teardown after these sights rests on the latest `grace` of them in a row, or at least on the last. */
  predicate InARow(sights: seq<Sight>, id: SessionId, grace: int) {
    var n := if grace >= 1 then grace else 1;
    n <= |sights| && forall i | |sights| - n <= i < |sights| :: OrphanAt(sights[i], id)
  }

  predicate TornDownLast(sights: seq<Sight>, id: SessionId, grace: int) {
    sights != [] && id in TornDown(CandidatesOver(map[], sights[..|sights| - 1], grace), sights[|sights| - 1], grace)
  }

  function OrphanSights(id: SessionId, k: nat): seq<Sight> {
    seq(k, _ => Inventory({id}, {}))
  }

  lemma {:induction false} OrphanSightsCount(id: SessionId, k: nat, grace: int)
    requires k < grace
    ensures Count(CandidatesOver(map[], OrphanSights(id, k), grace), id) == k
  {
    if k > 0 {
      var sights := OrphanSights(id, k);
      assert sights[..k - 1] == OrphanSights(id, k - 1);
      OrphanSightsCount(id, k - 1, grace);
    }
  }

  /** The sightings before a gap, which is a cycle without an answer or one that finds the container gone, still count. */
  lemma GapIsNoReset(id: SessionId, grace: int, gap: Sight) returns (sights: seq<Sight>)
    requires grace >= 2 && (gap == Unreachable || gap == Inventory({}, {}))
    ensures sights == OrphanSights(id, grace - 1) + [gap, Inventory({id}, {})]
    ensures TornDownLast(sights, id, grace) && !InARow(sights, id, grace)
  {
    var first := OrphanSights(id, grace - 1);
    sights := first + [gap, Inventory({id}, {})];
    OrphanSightsCount(id, grace - 1, grace);
    var before := first + [gap];
    assert sights[..grace] == before && before[..grace - 1] == first;
    assert Count(CandidatesOver(map[], before, grace), id) == grace - 1;
    assert sights[grace - 1] == gap && !OrphanAt(gap, id);
  }

  /** Torn down at the second sighting with a cycle without an answer in between, where two in a row were asked for. */
  lemma NotInARow()
    ensures TornDownLast([Inventory({7}, {}), Unreachable, Inventory({7}, {})], 7, 2)
    ensures !InARow([Inventory({7}, {}), Unreachable, Inventory({7}, {})], 7, 2)
  {
    var sights := GapIsNoReset(7, 2, Unreachable);
    assert sights == [Inventory({7}, {}), Unreachable, Inventory({7}, {})];
  }

  /** Exactly when every teardown rests on the grace number of sightings in a row: iff that number is at most one. */
  lemma InARowIff(id: SessionId, grace: int)
    ensures (forall sights | TornDownLast(sights, id, grace) :: InARow(sights, id, grace)) <==> grace <= 1
  {
    if grace >= 2 {
      var sights := GapIsNoReset(id, grace, Unreachable);
    }
  }

  // -- Runs of worlds ----------------------------------------------------------------------------------

  /** Visits in any order, anything anybody else does to rows and containers, and restarts of the process. */
  datatype Move =
    | Visits(n: NodeId, env: Env)
    | Changes(rows: map<SessionId, Row>, nodes: map<NodeId, Node>)
    | Restarts

  function AfterMove(w: World, mv: Move, grace: int): World {
    match mv
    case Visits(n, env) => if n in w.nodes then Visit(w, n, env, grace) else w
    case Changes(rows, nodes) => w.(rows := rows, nodes := nodes)
    case Restarts => w.(candidates := map[], lostCandidates := map[])
  }

  function After(w: World, moves: seq<Move>, grace: int): World {
    if moves == [] then w else AfterMove(After(w, moves[..|moves| - 1], grace), moves[|moves| - 1], grace)
  }

  /** What a move shows of the containers. */
  function SightOf(w: World, mv: Move): Sight {
    match mv
    case Visits(n, env) =>
      if n in w.nodes && Answers(w, n, env)
      then Inventory(w.nodes[n].managed, set id | id in w.nodes[n].managed && Backed(w.rows, id)) else Unreachable
    case Changes(_, _) => Unreachable
    case Restarts => Restart
  }

  function Sights(w: World, moves: seq<Move>, grace: int): (sights: seq<Sight>)
    ensures |sights| == |moves|
  {
    if moves == [] then []
    else Sights(w, moves[..|moves| - 1], grace) + [SightOf(After(w, moves[..|moves| - 1], grace), moves[|moves| - 1])]
  }

  lemma {:induction false} SightsAt(w: World, moves: seq<Move>, grace: int, i: nat)
    requires i <= |moves|
    ensures Sights(w, moves, grace)[..i] == Sights(w, moves[..i], grace)
    ensures i < |moves| ==> Sights(w, moves, grace)[i] == SightOf(After(w, moves[..i], grace), moves[i])
    decreases |moves|
  {
    if i < |moves| {
      var before := moves[..|moves| - 1];
      SightsAt(w, before, grace, i);
      assert before[..i] == moves[..i];
    } else {
      assert moves[..i] == moves;
    }
  }

  /** The counters of a run are those of the sights it shows. */
  lemma {:induction false} RunIsSights(w: World, moves: seq<Move>, grace: int)
    requires w.candidates == map[]
    ensures After(w, moves, grace).candidates == CandidatesOver(map[], Sights(w, moves, grace), grace)
  {
    if moves != [] {
      var before := moves[..|moves| - 1];
      var last := moves[|moves| - 1];
      RunIsSights(w, before, grace);
      assert Sights(w, moves, grace)[..|moves| - 1] == Sights(w, before, grace);
      if last.Visits? && last.n in After(w, before, grace).nodes {
        VisitIsSight(After(w, before, grace), last.n, last.env, grace);
      }
    }
  }

  /** The move is a visit that removes the container for want of a live row. */
  ghost predicate ForwardRemoves(w: World, mv: Move, id: SessionId, grace: int) {
    && mv.Visits? && mv.n in w.nodes && Answers(w, mv.n, mv.env) && id in w.nodes[mv.n].managed
    && id !in Forward(w, mv.n, mv.env, grace).nodes[mv.n].managed
  }

  /** The move is a visit that cleans up after a live row of its node whose container has stopped. */
  ghost predicate ReverseRemoves(w: World, mv: Move, id: SessionId, grace: int) {
    && mv.Visits? && mv.n in w.nodes && Answers(w, mv.n, mv.env) && id in w.nodes[mv.n].managed
    && id in Missing(w, mv.n) && Count(w.lostCandidates, id) + 1 >= grace
  }

  /** A visit removes a container only in one of these two ways, and from the visited node only. */
  lemma RemovedHow(w: World, mv: Move, q: NodeId, id: SessionId, grace: int)
    requires mv.Visits? && q in w.nodes && id in w.nodes[q].managed
    requires q !in AfterMove(w, mv, grace).nodes || id !in AfterMove(w, mv, grace).nodes[q].managed
    ensures q == mv.n && (ForwardRemoves(w, mv, id, grace) || ReverseRemoves(w, mv, id, grace))
  {
  }

  /**
   Safety over any run: the forward direction removes a container only when it then has no live row, and was
   seen without one at least the grace number of times with no sighting of a live row and no restart between.
   */
  lemma RemovedOnlyAfterGrace(w: World, moves: seq<Move>, i: nat, id: SessionId, grace: int) returns (since: nat)
    requires w.candidates == map[] && i < |moves| && ForwardRemoves(After(w, moves[..i], grace), moves[i], id, grace)
    ensures var rows := After(w, moves[..i], grace).rows; id !in rows || rows[id].status in {TERMINATED, FAILED}
    ensures since <= i && NoReset(Sights(w, moves, grace)[since..i + 1], id)
    ensures OrphanSightings(Sights(w, moves, grace)[since..i + 1], id) >= grace
  {
    var before := After(w, moves[..i], grace);
    RunIsSights(w, moves[..i], grace);
    SightsAt(w, moves, grace, i);
    BackedPlainly(before.rows, id);
    VisitIsSight(before, moves[i].n, moves[i].env, grace);
    since := TornDownOnlyAfterGrace(Sights(w, moves, grace), i, id, grace);
  }

  /**
   A container whose creating transaction commits before the grace-th sighting, and whose row stays live, is
   never removed by the forward direction; any removal is a cleanup after it stopped.
   */
  lemma CommittedIsRemovedOnlyStopped(w: World, moves: seq<Move>, commit: nat, q: NodeId, id: SessionId, grace: int, i: nat)
    requires w.candidates == map[] && commit <= |moves| && OrphanSightings(Sights(w, moves[..commit], grace), id) < grace
    requires forall j | commit <= j < |moves| ::
               id in After(w, moves[..j], grace).rows && After(w, moves[..j], grace).rows[id].status !in {TERMINATED, FAILED}
    requires i < |moves| && moves[i].Visits?
    ensures !ForwardRemoves(After(w, moves[..i], grace), moves[i], id, grace)
    ensures var before, after := After(w, moves[..i], grace), After(w, moves[..i + 1], grace);
            q in before.nodes && id in before.nodes[q].managed && (q !in after.nodes || id !in after.nodes[q].managed) ==>
              q == moves[i].n && ReverseRemoves(before, moves[i], id, grace)
  {
    var before := After(w, moves[..i], grace);
    var sights := Sights(w, moves, grace);
    SightsAt(w, moves, grace, commit);
    forall j | commit <= j < |sights| ensures !OrphanAt(sights[j], id) {
      SightsAt(w, moves, grace, j);
      BackedPlainly(After(w, moves[..j], grace).rows, id);
    }
    if ForwardRemoves(before, moves[i], id, grace) {
      RunIsSights(w, moves[..i], grace);
      SightsAt(w, moves, grace, i);
      VisitIsSight(before, moves[i].n, moves[i].env, grace);
      CommittedInTimeIsSafe(sights, commit, id, grace, i);
    }
    assert moves[..i + 1][..i] == moves[..i];
    if q in before.nodes && id in before.nodes[q].managed {
      var after := AfterMove(before, moves[i], grace);
      if q !in after.nodes || id !in after.nodes[q].managed {
        RemovedHow(before, moves[i], q, id, grace);
      }
    }
  }

  // -- In plain statuses -------------------------------------------------------------------------------

  /** Every container has a session that is neither over nor failed, every session that should run has its container. */
  ghost predicate Consistent(w: World) {
    && (forall n, id | n in w.nodes && id in w.nodes[n].managed :: id in w.rows && w.rows[id].status !in {TERMINATED, FAILED})
    && (forall n, id | n in w.nodes && id in w.rows && w.rows[id].node == Some(n)
                       && w.rows[id].status in {ACTIVE, DISCONNECTED, ISOLATING, ISOLATED} :: id in w.nodes[n].running)
  }

  /** A container whose session should run on a node where it does not is on that node, stopped. */
  ghost predicate Colocated(w: World) {
    forall n, m, id | n in w.nodes && m in w.nodes && id in w.nodes[n].managed && id in w.rows && w.rows[id].node == Some(m)
                      && w.rows[id].status in {ACTIVE, DISCONNECTED, ISOLATING, ISOLATED} && id !in w.nodes[m].running :: n == m
  }

  lemma ConvergedIsConsistent(w: World)
    ensures Converged(w) <==> Consistent(w)
  {
    if Converged(w) {
      forall n, id | n in w.nodes && id in w.nodes[n].managed ensures id in w.rows && w.rows[id].status !in {TERMINATED, FAILED} {
        assert id !in Orphans(w, n);
        BackedPlainly(w.rows, id);
      }
      forall n, id | n in w.nodes && id in w.rows && w.rows[id].node == Some(n)
                     && w.rows[id].status in {ACTIVE, DISCONNECTED, ISOLATING, ISOLATED}
        ensures id in w.nodes[n].running
      {
        assert id !in Missing(w, n);
      }
    }
    if Consistent(w) {
      forall n <- w.nodes ensures Orphans(w, n) == {} && Missing(w, n) == {} {
        forall id <- Orphans(w, n) ensures false {
          BackedPlainly(w.rows, id);
        }
      }
    }
  }

  lemma PlacedIsColocated(w: World)
    ensures Placed(w) <==> Colocated(w)
  {
    if Placed(w) {
      forall n, m, id | n in w.nodes && m in w.nodes && id in w.nodes[n].managed && id in w.rows && w.rows[id].node == Some(m)
                        && w.rows[id].status in {ACTIVE, DISCONNECTED, ISOLATING, ISOLATED} && id !in w.nodes[m].running
        ensures n == m
      {
        assert id in Missing(w, m);
      }
    }
    if Colocated(w) {
      forall n, m, id | n in w.nodes && m in w.nodes && id in w.nodes[n].managed && id in Missing(w, m) ensures n == m {
        assert id in LiveRows(w, m);
      }
    }
  }

  /** One grace period leads to consistency, whatever order nodes are visited in, exactly from colocated states. */
  lemma ColocationDecides(w: World, grace: int)
    requires AllApproved(w) && Apart(w) && Stopped(w) && grace >= 1
    ensures Colocated(w) <==>
              forall rounds | HealthyRounds(w, rounds) && |rounds| == grace :: Consistent(Cycles(w, rounds, grace))
  {
    PlacedIsColocated(w);
    PlacementDecides(w, grace);
    forall rounds | HealthyRounds(w, rounds) && |rounds| == grace
      ensures Converged(Cycles(w, rounds, grace)) <==> Consistent(Cycles(w, rounds, grace))
    {
      ConvergedIsConsistent(Cycles(w, rounds, grace));
    }
  }

  /** The session is missing, over or failed. */
  predicate HasNoSession(w: World, id: SessionId) {
    id !in w.rows || w.rows[id].status in {TERMINATED, FAILED}
  }

  /** A session of this node that should run. */
  predicate ShouldRun(w: World, n: NodeId, id: SessionId) {
    id in w.rows && w.rows[id].node == Some(n) && w.rows[id].status in {ACTIVE, DISCONNECTED, ISOLATING, ISOLATED}
  }

  /** Only the visited node may have changed. */
  ghost predicate OthersUntouched(w: World, w': World, n: NodeId) {
    w'.nodes.Keys == w.nodes.Keys && forall m <- w.nodes | m != n :: w'.nodes[m] == w.nodes[m]
  }

  /**
   What a visit does to a node's containers, exactly: an answering node loses those whose removal does not fail
   and which complete the grace number of sightings, without a session, or stopped although they should run.
   */
  lemma VisitRemovesExactly(w: World, n: NodeId, env: Env, grace: int, id: SessionId)
    requires n in w.nodes && w.nodes[n].running <= w.nodes[n].managed
    ensures var node, w' := w.nodes[n], Visit(w, n, env, grace);
            n in w'.nodes &&
            (id in node.managed && id !in w'.nodes[n].managed <==>
               && node.enrollment != REVOKED && n in env.reachable && id in node.managed && id !in env.refused
               && ((HasNoSession(w, id) && Count(w.candidates, id) + 1 >= grace)
                   || (ShouldRun(w, n, id) && id !in node.running && Count(w.lostCandidates, id) + 1 >= grace)))
    ensures OthersUntouched(w, Visit(w, n, env, grace), n)
  {
    BackedPlainly(w.rows, id);
  }

  /**
   And to the rows: a session of the node that should run fails exactly if it completes the grace number of
   visits that did not find its container running, and the container's removal, where one is tried, does not fail.
   */
  lemma VisitFailsExactly(w: World, n: NodeId, env: Env, grace: int, id: SessionId)
    requires n in w.nodes && id in w.rows
    ensures var node, w' := w.nodes[n], Visit(w, n, env, grace);
            var answers := node.enrollment != REVOKED && n in env.reachable;
            id in w'.rows &&
            w'.rows[id] ==
              if ShouldRun(w, n, id) && (answers ==> id !in node.running && id !in env.refused)
                 && Count(w.lostCandidates, id) + 1 >= grace
              then w.rows[id].(status := FAILED, endedAt := Some(env.now)) else w.rows[id]
  {
  }

  /** And to the counters. */
  lemma VisitCountsExactly(w: World, n: NodeId, env: Env, grace: int, id: SessionId)
    requires n in w.nodes
    ensures var node, w' := w.nodes[n], Visit(w, n, env, grace);
            var answers := node.enrollment != REVOKED && n in env.reachable;
            var seen := Count(w.candidates, id);
            var missed := Count(w.lostCandidates, id);
            && Count(w'.candidates, id) ==
                 (if !answers || id !in node.managed then seen
                  else if HasNoSession(w, id) && seen + 1 < grace then seen + 1 else 0)
            && Count(w'.lostCandidates, id) ==
                 (if !ShouldRun(w, n, id) then missed
                  else if answers && id in node.running then 0
                  else if missed + 1 >= grace && (answers ==> id !in env.refused) then 0 else missed + 1)
  {
    BackedPlainly(w.rows, id);
  }

  /** The nodes a cycle visits: the approved ones, and revoked ones on which some session should still run. */
  lemma NodeQueryExactly(w: World, order: seq<NodeId>, n: NodeId)
    requires IsNodeQuery(w, order)
    ensures n in order <==>
              n in w.nodes && (w.nodes[n].enrollment == APPROVED
                               || (w.nodes[n].enrollment == REVOKED && exists id <- w.rows :: ShouldRun(w, n, id)))
  {
    assert n in order <==> Selected(w, n);
    if id :| id in w.rows && ShouldRun(w, n, id) {
      assert id in LiveRows(w, n);
    }
    if id :| id in LiveRows(w, n) {
      assert ShouldRun(w, n, id);
    }
  }
}
