/** Node rows: the trust gate, the scheduling status, which agent a row is reached through, and node selection. */
module Scheduling {
  import opened Wrappers
  import opened Enrolling
  import C = Capacity

  type Hostname = string

  datatype NodeStatus = ONLINE | DRAINING | OFFLINE | DEGRADED | MAINTENANCE

  /** The token stands for the decrypted one; an absent endpoint counts as empty. */
  datatype NodeRow = NodeRow(
    hostname: Hostname,
    enrollment: Enrollment,
    status: NodeStatus,
    endpoint: string,
    token: Option<string>,
    capacity: int,
    active: int)

  /** An agent's self-report, as far as scheduling uses it. */
  datatype Report = Report(status: NodeStatus, capacity: int, active: int)

  // -- One node over its life --------------------------------------------------------------------------

  datatype NodeOp =
    | Drain
    | Undrain
    | Maintain
    | Unmaintain
    | Enroll(token: string)
    | Approve(endpoint: string)
    | Revoke
    | Heartbeat(report: Report)

  predicate Raises(n: NodeRow, op: NodeOp) {
    match op
    case Drain => n.status == MAINTENANCE
    case Undrain => n.status != DRAINING
    case Maintain => false
    case Unmaintain => n.status != MAINTENANCE
    case Enroll(_) => n.enrollment != REVOKED
    case Approve(_) => n.enrollment == REVOKED
    case Revoke => false
    case Heartbeat(_) => false
  }

  /** The heartbeat never undoes an admin's drain or maintenance hold. */
  function Beat(n: NodeRow, r: Report): NodeRow {
    n.(status := if n.status in {DRAINING, MAINTENANCE} then n.status else r.status, capacity := r.capacity, active := r.active)
  }

  function Step(n: NodeRow, op: NodeOp): NodeRow {
    if Raises(n, op) then n
    else
      match op
      case Drain => n.(status := DRAINING)
      case Undrain => n.(status := ONLINE)
      case Maintain => n.(status := MAINTENANCE)
      case Unmaintain => n.(status := ONLINE)
      case Enroll(token) => n.(status := OFFLINE, enrollment := PENDING, endpoint := "", token := Some(token))
      case Approve(endpoint) => n.(enrollment := APPROVED, endpoint := endpoint)
      case Revoke => if n.enrollment == REVOKED then n else n.(enrollment := REVOKED, status := OFFLINE, token := None)
      case Heartbeat(report) => Beat(n, report)
  }

  function Enrolled(hostname: Hostname, token: string): NodeRow {
    NodeRow(hostname, PENDING, OFFLINE, "", Some(token), 0, 0)
  }

  function Life(hostname: Hostname, token: string, ops: seq<NodeOp>): NodeRow {
    if ops == [] then Enrolled(hostname, token) else Step(Life(hostname, token, ops[..|ops| - 1]), ops[|ops| - 1])
  }

  datatype Connection = Own(endpoint: string, token: string) | DefaultAgent

  /** `connection_for_node` for an existing row. */
  function ConnectionFor(n: NodeRow): Connection {
    if n.endpoint != "" && n.token.Some? then Own(n.endpoint, n.token.value)
    else if n.endpoint != "" then Own(n.endpoint, "")
    else DefaultAgent
  }

  predicate NodeSound(n: NodeRow) {
    && (n.token.None? <==> n.enrollment == REVOKED)
    && (n.enrollment == PENDING ==> n.endpoint == "")
  }

  /** The last accepted enrolment or approval, if there was one, is an approval that names an endpoint. */
  predicate EndpointGiven(hostname: Hostname, token: string, ops: seq<NodeOp>) {
    ops != [] &&
    var last := ops[|ops| - 1];
    if (last.Approve? || last.Enroll?) && !Raises(Life(hostname, token, ops[..|ops| - 1]), last)
    then last.Approve? && last.endpoint != ""
    else EndpointGiven(hostname, token, ops[..|ops| - 1])
  }

  /**
   Over any run of an enrolled node: it is reached at its own endpoint exactly when the last enrolment or
   approval the service accepted is an approval with an endpoint, with its token unless revoked, when the
   token is empty and no call can succeed.  In every other case calls for its sessions go to the default agent.
   */
  lemma {:induction false} ReachedThrough(hostname: Hostname, token: string, ops: seq<NodeOp>)
    ensures var n := Life(hostname, token, ops);
            && NodeSound(n)
            && (n.endpoint != "" <==> EndpointGiven(hostname, token, ops))
            && ConnectionFor(n) ==
                 if !EndpointGiven(hostname, token, ops) then DefaultAgent
                 else Own(n.endpoint, if n.enrollment == REVOKED then "" else n.token.value)
  {
    if ops != [] {
      ReachedThrough(hostname, token, ops[..|ops| - 1]);
    }
  }

  /** An approved node, usable by the scheduler, whose approval named no endpoint. */
  lemma ApprovedWithoutEndpoint(hostname: Hostname, token: string)
    ensures var n := Life(hostname, token, [Approve("")]);
            n.enrollment == APPROVED && n.token == Some(token) && ConnectionFor(n) == DefaultAgent
  {
    assert [Approve("")][..0] == [];
  }

  /** A node that had its own endpoint, was revoked and enrolled again. */
  lemma EnrolledAgain(hostname: Hostname, token: string, newToken: string)
    ensures var before := Life(hostname, token, [Approve("https://a")]);
            var n := Life(hostname, token, [Approve("https://a"), Revoke, Enroll(newToken)]);
            && ConnectionFor(before) == Own("https://a", token)
            && n.enrollment == PENDING && n.token == Some(newToken) && ConnectionFor(n) == DefaultAgent
  {
    var a, b, c := [Approve("https://a")], [Approve("https://a"), Revoke], [Approve("https://a"), Revoke, Enroll(newToken)];
    assert a[..0] == [] && b[..1] == a && c[..2] == b;
    assert Life(hostname, token, b) == Step(Life(hostname, token, a), Revoke);
  }

  /** A revoked node is trusted again only after a new enrolment and an approval that follows it. */
  lemma {:induction false} TrustGate(hostname: Hostname, token: string, ops: seq<NodeOp>, m: nat) returns (i: nat, j: nat)
    requires m <= |ops| && Life(hostname, token, ops[..m]).enrollment == REVOKED
    requires Life(hostname, token, ops).enrollment != REVOKED
    ensures m <= i < |ops| && ops[i].Enroll?
    ensures Life(hostname, token, ops).enrollment == APPROVED ==> i < j < |ops| && ops[j].Approve?
    decreases |ops|
  {
    var last := |ops| - 1;
    assert m < |ops| by {
      assert ops[..|ops|] == ops;
    }
    assert ops[..last][..m] == ops[..m];
    if Life(hostname, token, ops[..last]).enrollment == REVOKED {
      i, j := last, 0;
    } else {
      i, j := TrustGate(hostname, token, ops[..last], m);
      if ops[last].Approve? {
        j := last;
      }
    }
  }

  /** A hold an admin put on a node outlives any number of heartbeats and approvals. */
  lemma {:induction false} HoldSurvivesHeartbeats(n: NodeRow, ops: seq<NodeOp>)
    requires n.status in {DRAINING, MAINTENANCE} && forall op <- ops :: op.Heartbeat? || op.Approve?
    ensures StepAll(n, ops).status == n.status
  {
    if ops != [] {
      HoldSurvivesHeartbeats(n, ops[..|ops| - 1]);
      assert ops[|ops| - 1].Heartbeat? || ops[|ops| - 1].Approve?;
    }
  }

  function StepAll(n: NodeRow, ops: seq<NodeOp>): NodeRow {
    if ops == [] then n else Step(StepAll(n, ops[..|ops| - 1]), ops[|ops| - 1])
  }

  // -- Selection ---------------------------------------------------------------------------------------

  /** Lexicographic order by code point. */
  predicate Before(a: string, b: string) {
    b != "" && (a == "" || a[0] < b[0] || (a[0] == b[0] && Before(a[1..], b[1..])))
  }

  lemma {:induction false} BeforeIsTotal(a: string, b: string)
    ensures Before(a, b) || a == b || Before(b, a)
    ensures !(Before(a, b) && Before(b, a)) && !Before(a, a)
  {
    if a != "" && b != "" && a[0] == b[0] {
      BeforeIsTotal(a[1..], b[1..]);
      assert a == [a[0]] + a[1..] && b == [b[0]] + b[1..];
    }
    if a != "" {
      BeforeIsTotal(a[1..], a[1..]);
    }
  }

  lemma {:induction false} BeforeIsTransitive(a: string, b: string, c: string)
    requires Before(a, b) && Before(b, c)
    ensures Before(a, c)
  {
    if a != "" && a[0] == b[0] && b[0] == c[0] {
      BeforeIsTransitive(a[1..], b[1..], c[1..]);
    }
  }

  function Free(n: NodeRow): int {
    n.capacity - n.active
  }

  /** The sort key: most free slots first, then the lower hostname. */
  predicate Better(a: NodeRow, b: NodeRow) {
    Free(a) > Free(b) || (Free(a) == Free(b) && Before(a.hostname, b.hostname))
  }

  predicate Usable(n: NodeRow) {
    n.status == ONLINE && n.active < n.capacity
  }

  function Approved(nodes: map<Hostname, NodeRow>): set<Hostname> {
    set h | h in nodes && nodes[h].enrollment == APPROVED
  }

  /** `reports` holds the agents that answered this round. */
  function Refreshed(nodes: map<Hostname, NodeRow>, reports: map<Hostname, Report>): map<Hostname, NodeRow> {
    map h | h in nodes :: if nodes[h].enrollment == APPROVED && h in reports then Beat(nodes[h], reports[h]) else nodes[h]
  }

  /** The best of the approved nodes that answered, are online and have a free slot. */
  ghost predicate IsPick(nodes: map<Hostname, NodeRow>, reports: map<Hostname, Report>, picked: Option<Hostname>) {
    var now := Refreshed(nodes, reports);
    match picked
    case None => forall h | h in Approved(nodes) && h in reports :: !Usable(now[h])
    case Some(p) =>
      && p in Approved(nodes) && p in reports && Usable(now[p])
      && forall h | h in Approved(nodes) && h in reports && h != p && Usable(now[h]) :: Better(now[p], now[h])
  }

  ghost predicate Keyed(nodes: map<Hostname, NodeRow>) {
    forall h <- nodes :: nodes[h].hostname == h
  }

  /** With no approved row the default agent is asked; its row is created if missing, else only refreshed. */
  function Bootstrapped(nodes: map<Hostname, NodeRow>, h: Hostname, r: Report): map<Hostname, NodeRow> {
    nodes[h := Beat(if h in nodes then nodes[h] else NodeRow(h, APPROVED, OFFLINE, "", None, 0, 0), r)]
  }

  class NodeRegistry {
    var nodes: map<Hostname, NodeRow>

    method DrainNode(h: Hostname) returns (raised: bool)
      requires h in nodes
      modifies this
      ensures raised == Raises(old(nodes)[h], Drain) && nodes == old(nodes)[h := Step(old(nodes)[h], Drain)]
    {
      if nodes[h].status == DRAINING {
        return false;
      }
      if nodes[h].status == MAINTENANCE {
        return true;
      }
      nodes := nodes[h := nodes[h].(status := DRAINING)];
      return false;
    }

    method UndrainNode(h: Hostname) returns (raised: bool)
      requires h in nodes
      modifies this
      ensures raised == Raises(old(nodes)[h], Undrain) && nodes == old(nodes)[h := Step(old(nodes)[h], Undrain)]
    {
      if nodes[h].status != DRAINING {
        return true;
      }
      nodes := nodes[h := nodes[h].(status := ONLINE)];
      return false;
    }

    method MaintenanceNode(h: Hostname)
      requires h in nodes
      modifies this
      ensures nodes == old(nodes)[h := Step(old(nodes)[h], Maintain)]
    {
      if nodes[h].status != MAINTENANCE {
        nodes := nodes[h := nodes[h].(status := MAINTENANCE)];
      }
    }

    method UnmaintenanceNode(h: Hostname) returns (raised: bool)
      requires h in nodes
      modifies this
      ensures raised == Raises(old(nodes)[h], Unmaintain) && nodes == old(nodes)[h := Step(old(nodes)[h], Unmaintain)]
    {
      if nodes[h].status != MAINTENANCE {
        return true;
      }
      nodes := nodes[h := nodes[h].(status := ONLINE)];
      return false;
    }

    /** A revoked host starts over as pending; any other existing host is refused. */
    method EnrollNode(h: Hostname, token: string) returns (raised: bool)
      modifies this
      ensures raised == (h in old(nodes) && Raises(old(nodes)[h], Enroll(token)))
      ensures nodes == old(nodes)[h := if h in old(nodes) then Step(old(nodes)[h], Enroll(token)) else Enrolled(h, token)]
      ensures h !in old(nodes) ==> nodes[h] == NodeRow(h, PENDING, OFFLINE, "", Some(token), 0, 0)
    {
      if h in nodes && nodes[h].enrollment != REVOKED {
        return true;
      }
      if h in nodes {
        nodes := nodes[h := nodes[h].(status := OFFLINE)];
        nodes := nodes[h := nodes[h].(enrollment := PENDING)];
        nodes := nodes[h := nodes[h].(endpoint := "")];
        nodes := nodes[h := nodes[h].(token := Some(token))];
        assert nodes == old(nodes)[h := Step(old(nodes)[h], Enroll(token))];
      } else {
        nodes := nodes[h := NodeRow(h, PENDING, OFFLINE, "", Some(token), 0, 0)];
      }
      return false;
    }

    method ApproveNode(h: Hostname, endpoint: string) returns (raised: bool)
      requires h in nodes
      modifies this
      ensures raised == Raises(old(nodes)[h], Approve(endpoint))
      ensures nodes == old(nodes)[h := Step(old(nodes)[h], Approve(endpoint))]
    {
      if nodes[h].enrollment == REVOKED {
        return true;
      }
      if nodes[h].enrollment == APPROVED && nodes[h].endpoint == endpoint {
        return false;
      }
      nodes := nodes[h := nodes[h].(enrollment := APPROVED)];
      nodes := nodes[h := nodes[h].(endpoint := endpoint)];
      return false;
    }

    method RevokeNode(h: Hostname)
      requires h in nodes
      modifies this
      ensures nodes == old(nodes)[h := Step(old(nodes)[h], Revoke)]
    {
      if nodes[h].enrollment == REVOKED {
        return;
      }
      nodes := nodes[h := nodes[h].(enrollment := REVOKED)];
      nodes := nodes[h := nodes[h].(status := OFFLINE)];
      nodes := nodes[h := nodes[h].(token := None)];
      assert nodes == old(nodes)[h := Step(old(nodes)[h], Revoke)];
    }

    /** Refreshes in the query's order; unreachable nodes are skipped. */
    method RefreshAll(order: seq<Hostname>, reports: map<Hostname, Report>) returns (refreshed: seq<Hostname>)
      requires forall h :: h in order <==> h in Approved(nodes)
      modifies this
      ensures nodes == Refreshed(old(nodes), reports)
      ensures forall h :: h in refreshed <==> h in Approved(old(nodes)) && h in reports
    {
      refreshed := [];
      ghost var was := nodes;
      for i := 0 to |order|
        invariant nodes.Keys == was.Keys
        invariant forall h <- was ::
                    nodes[h] == if h in order[..i] && h in reports then Beat(was[h], reports[h]) else was[h]
        invariant forall h :: h in refreshed <==> h in order[..i] && h in reports
      {
        assert order[..i + 1] == order[..i] + [order[i]];
        var h := order[i];
        assert h in Approved(was);
        if h in reports {
          BeatTwice(was[h], reports[h]);
          nodes := nodes[h := Beat(nodes[h], reports[h])];
          refreshed := refreshed + [h];
        }
      }
      assert order[..|order|] == order;
    }

    /** The first of the candidates in sort order. */
    method PickBest(refreshed: seq<Hostname>) returns (picked: Option<Hostname>)
      requires Keyed(nodes) && forall h <- refreshed :: h in nodes
      ensures picked.None? ==> forall h <- refreshed :: !Usable(nodes[h])
      ensures picked.Some? ==>
                && picked.value in refreshed && Usable(nodes[picked.value])
                && forall h <- refreshed | h != picked.value && Usable(nodes[h]) :: Better(nodes[picked.value], nodes[h])
    {
      picked := None;
      for i := 0 to |refreshed|
        invariant picked.None? ==> forall h <- refreshed[..i] :: !Usable(nodes[h])
        invariant picked.Some? ==>
                    && picked.value in refreshed[..i] && Usable(nodes[picked.value])
                    && forall h <- refreshed[..i] | h != picked.value && Usable(nodes[h]) :: Better(nodes[picked.value], nodes[h])
      {
        assert refreshed[..i + 1] == refreshed[..i] + [refreshed[i]];
        var h := refreshed[i];
        if Usable(nodes[h]) {
          if picked.None? {
            picked := Some(h);
          } else if Better(nodes[h], nodes[picked.value]) {
            BetterOrder(nodes, picked.value, h);
            picked := Some(h);
          } else {
            BeforeIsTotal(h, picked.value);
          }
        }
      }
      assert refreshed[..|refreshed|] == refreshed;
    }

    /** `select_node`; `bootstrap` is what the default agent reports, None if it does not answer. */
    method SelectNode(order: seq<Hostname>, reports: map<Hostname, Report>, bootstrap: Option<(Hostname, Report)>)
        returns (picked: Option<Hostname>)
      requires Keyed(nodes) && forall h :: h in order <==> h in Approved(nodes)
      modifies this
      ensures Approved(old(nodes)) != {} ==> nodes == Refreshed(old(nodes), reports) && IsPick(old(nodes), reports, picked)
      ensures Approved(old(nodes)) == {} ==>
                && nodes == (if bootstrap.None? then old(nodes) else Bootstrapped(old(nodes), bootstrap.value.0, bootstrap.value.1))
                && picked == if bootstrap.Some? && Usable(nodes[bootstrap.value.0]) then Some(bootstrap.value.0) else None
      ensures picked.Some? ==> picked.value in nodes && Usable(nodes[picked.value])
    {
      if order == [] {
        assert Approved(nodes) == {};
        if bootstrap.None? {
          return None;
        }
        var (h, r) := bootstrap.value;
        nodes := Bootstrapped(nodes, h, r);
        return if Usable(nodes[h]) then Some(h) else None;
      }
      assert order[0] in Approved(nodes);
      var refreshed := RefreshAll(order, reports);
      picked := PickBest(refreshed);
    }
  }

  lemma BeatTwice(n: NodeRow, r: Report)
    ensures Beat(Beat(n, r), r) == Beat(n, r)
  {
  }

  lemma BetterOrder(nodes: map<Hostname, NodeRow>, a: Hostname, b: Hostname)
    requires Keyed(nodes) && a in nodes && b in nodes && Better(nodes[b], nodes[a])
    ensures forall h | h in nodes && Better(nodes[a], nodes[h]) :: Better(nodes[b], nodes[h])
  {
    forall h | h in nodes && Better(nodes[a], nodes[h]) ensures Better(nodes[b], nodes[h]) {
      if Free(nodes[b]) == Free(nodes[h]) {
        BeforeIsTransitive(nodes[b].hostname, nodes[a].hostname, nodes[h].hostname);
      }
    }
  }

  /**
   Trust: with an approved row in the store a pick is approved; without one, exactly if the default agent's
   host has no row yet, since the fallback refreshes an existing row whatever its enrolment.
   */
  lemma PickIsTrusted(nodes: map<Hostname, NodeRow>, reports: map<Hostname, Report>, h: Hostname, r: Report, p: Hostname)
    ensures IsPick(nodes, reports, Some(p)) ==> p in Approved(Refreshed(nodes, reports))
    ensures Approved(nodes) == {} ==> (Bootstrapped(nodes, h, r)[h].enrollment == APPROVED <==> h !in nodes)
  {
    if h in nodes && nodes[h].enrollment == APPROVED {
      assert h in Approved(nodes);
    }
  }

  /** With no approved row, a revoked node on whose host the default agent runs is picked. */
  lemma FallbackPicksRevoked(token: Option<string>)
    ensures var nodes := map["h" := NodeRow("h", REVOKED, OFFLINE, "https://h", token, 0, 0)];
            var now := Bootstrapped(nodes, "h", Report(ONLINE, 5, 0));
            Approved(nodes) == {} && Usable(now["h"]) && now["h"].enrollment == REVOKED
  {
  }

  // -- The same in plain fields ------------------------------------------------------------------------

  /** The holds: what each of the four operations leaves, and when it is refused. */
  lemma HoldsExactly(n: NodeRow, op: NodeOp)
    requires op in {Drain, Undrain, Maintain, Unmaintain}
    ensures var after := NodeRow(n.hostname, n.enrollment, Step(n, op).status, n.endpoint, n.token, n.capacity, n.active);
            && Step(n, op) == after
            && match (op, n.status)
               case (Drain, MAINTENANCE) => Raises(n, op) && after.status == MAINTENANCE
               case (Drain, _) => !Raises(n, op) && after.status == DRAINING
               case (Undrain, DRAINING) => !Raises(n, op) && after.status == ONLINE
               case (Undrain, _) => Raises(n, op) && after.status == n.status
               case (Maintain, _) => !Raises(n, op) && after.status == MAINTENANCE
               case (Unmaintain, MAINTENANCE) => !Raises(n, op) && after.status == ONLINE
               case (_, _) => Raises(n, op) && after.status == n.status
  {
  }

  /** The trust gate: a revoked host enrols again and nothing else does; only approval of an unrevoked one approves. */
  lemma TrustExactly(n: NodeRow, token: string, endpoint: string)
    ensures Raises(n, Enroll(token)) <==> n.enrollment == PENDING || n.enrollment == APPROVED
    ensures Raises(n, Approve(endpoint)) <==> n.enrollment == REVOKED
    ensures n.enrollment == REVOKED ==>
              && Step(n, Enroll(token)) == NodeRow(n.hostname, PENDING, OFFLINE, "", Some(token), n.capacity, n.active)
              && Step(n, Approve(endpoint)) == n && Step(n, Revoke) == n
    ensures n.enrollment == PENDING || n.enrollment == APPROVED ==>
              && Step(n, Enroll(token)) == n
              && Step(n, Approve(endpoint)) == NodeRow(n.hostname, APPROVED, n.status, endpoint, n.token, n.capacity, n.active)
              && Step(n, Revoke) == NodeRow(n.hostname, REVOKED, OFFLINE, n.endpoint, None, n.capacity, n.active)
  {
  }

  /** A refresh takes over what the agents report, except the status of a node an administrator holds. */
  lemma RefreshedExactly(nodes: map<Hostname, NodeRow>, reports: map<Hostname, Report>, h: Hostname)
    requires h in nodes
    ensures var n := nodes[h];
            && Refreshed(nodes, reports).Keys == nodes.Keys
            && Refreshed(nodes, reports)[h] ==
                 if h !in reports || n.enrollment == PENDING || n.enrollment == REVOKED then n
                 else match n.status
                      case DRAINING | MAINTENANCE =>
                        NodeRow(n.hostname, APPROVED, n.status, n.endpoint, n.token, reports[h].capacity, reports[h].active)
                      case ONLINE | OFFLINE | DEGRADED =>
                        NodeRow(n.hostname, APPROVED, reports[h].status, n.endpoint, n.token, reports[h].capacity, reports[h].active)
  {
    match nodes[h].status
    case ONLINE | DRAINING | OFFLINE | DEGRADED | MAINTENANCE =>
  }

  /** An approved node nobody holds whose agent answers, says it is online and has a free slot. */
  predicate Eligible(nodes: map<Hostname, NodeRow>, reports: map<Hostname, Report>, h: Hostname) {
    && h in nodes && nodes[h].enrollment == APPROVED && nodes[h].status in {ONLINE, OFFLINE, DEGRADED}
    && h in reports && reports[h].status == ONLINE && reports[h].active < reports[h].capacity
  }

  /** Where the two differ first, `a` ends or has the lower character. */
  ghost predicate LowerAt(a: string, b: string, k: nat) {
    k <= |a| && k < |b| && a[..k] == b[..k] && (k == |a| || a[k] < b[k])
  }

  lemma {:induction false} BeforeExactly(a: string, b: string)
    ensures Before(a, b) <==> exists k: nat :: LowerAt(a, b, k)
  {
    if Before(a, b) {
      if a == "" || a[0] < b[0] {
        assert LowerAt(a, b, 0);
      } else {
        BeforeExactly(a[1..], b[1..]);
        var k: nat :| LowerAt(a[1..], b[1..], k);
        assert a[..k + 1] == [a[0]] + a[1..][..k] && b[..k + 1] == [b[0]] + b[1..][..k];
        assert LowerAt(a, b, k + 1);
      }
    }
    if k: nat :| LowerAt(a, b, k) {
      if k > 0 {
        assert a[0] == a[..k][0] && b[0] == b[..k][0];
        assert a[1..][..k - 1] == a[..k][1..] && b[1..][..k - 1] == b[..k][1..];
        assert LowerAt(a[1..], b[1..], k - 1);
        BeforeExactly(a[1..], b[1..]);
      }
    }
  }

  /**
   The pick, in what the store held before and what the agents said: the eligible node with the most free
   slots, of several the one with the lowest hostname; none exactly if no node is eligible.
   */
  lemma PickedExactly(nodes: map<Hostname, NodeRow>, reports: map<Hostname, Report>, p: Hostname)
    requires Keyed(nodes)
    ensures IsPick(nodes, reports, None) <==> forall h <- nodes :: !Eligible(nodes, reports, h)
    ensures IsPick(nodes, reports, Some(p)) <==>
              && Eligible(nodes, reports, p)
              && forall h | h != p && Eligible(nodes, reports, h) ::
                   var more, others := reports[p].capacity - reports[p].active, reports[h].capacity - reports[h].active;
                   more > others || (more == others && exists k: nat :: LowerAt(p, h, k))
  {
    forall h ensures h in Approved(nodes) && h in reports && Usable(Refreshed(nodes, reports)[h]) <==> Eligible(nodes, reports, h) {
      if h in nodes {
        RefreshedExactly(nodes, reports, h);
      }
    }
    forall h | h in nodes && Eligible(nodes, reports, h) && Eligible(nodes, reports, p)
      ensures Better(Refreshed(nodes, reports)[p], Refreshed(nodes, reports)[h]) <==>
                var more, others := reports[p].capacity - reports[p].active, reports[h].capacity - reports[h].active;
                more > others || (more == others && exists k: nat :: LowerAt(p, h, k))
    {
      RefreshedExactly(nodes, reports, h);
      RefreshedExactly(nodes, reports, p);
      BeforeExactly(p, h);
    }
  }

  /** A drained or maintained node is not picked, whatever its agent reports meanwhile, nor one reported other than online. */
  lemma HeldIsNotPicked(nodes: map<Hostname, NodeRow>, reports: map<Hostname, Report>, p: Hostname, n: NodeRow, ops: seq<NodeOp>)
    requires Keyed(nodes) && p in nodes
    requires nodes[p] == StepAll(Step(n, Drain), ops) && forall op <- ops :: op.Heartbeat? || op.Approve?
    ensures !IsPick(nodes, reports, Some(p))
  {
    HoldsExactly(n, Drain);
    HoldSurvivesHeartbeats(Step(n, Drain), ops);
    PickedExactly(nodes, reports, p);
  }

  /** The default agent's row when it stands in for an empty registry. */
  lemma BootstrappedExactly(nodes: map<Hostname, NodeRow>, h: Hostname, r: Report)
    ensures var now := Bootstrapped(nodes, h, r);
            && now.Keys == nodes.Keys + {h} && (forall i <- nodes | i != h :: now[i] == nodes[i])
            && (h !in nodes ==> now[h] == NodeRow(h, APPROVED, r.status, "", None, r.capacity, r.active))
            && (h in nodes ==>
                  && now[h].enrollment == nodes[h].enrollment && now[h].capacity == r.capacity && now[h].active == r.active
                  && (now[h].status == if nodes[h].status == DRAINING || nodes[h].status == MAINTENANCE then nodes[h].status else r.status))
  {
  }

  // -- From the host's memory to the pick --------------------------------------------------------------

  /** What an agent reports after these readings: the smoothed capacity, and the sessions running now. */
  function AgentReport(s: C.Settings, readings: seq<C.Reading>): Report
    requires s.Valid() && readings != []
  {
    var raws := seq(|readings|, i requires 0 <= i < |readings| => C.ComputeCapacity(s, readings[i]).capacity);
    Report(ONLINE, C.Reported(raws, s.recoveryPolls), readings[|readings| - 1].active)
  }

  /**
   The bound carried through: whatever its earlier readings were, a picked node had, at the reading it
   reported from, memory after the reserve and CPU for every slot it was ranked by.
   */
  lemma PickHasRoom(nodes: map<Hostname, NodeRow>, reports: map<Hostname, Report>, p: Hostname,
                    s: C.Settings, readings: seq<C.Reading>, k: nat)
    requires IsPick(nodes, reports, Some(p))
    requires s.Valid() && readings != [] && reports[p] == AgentReport(s, readings)
    requires 1 <= k <= reports[p].capacity - reports[p].active
    ensures reports[p].capacity - reports[p].active >= 1
    ensures var r := readings[|readings| - 1];
            && k as real * s.ramLimit + s.reservedRam <= r.availableRam
            && k as real * s.cpuLimit * 100.0 <= r.cpuCount as real * (100.0 - r.cpuPercent)
  {
    var raws := seq(|readings|, i requires 0 <= i < |readings| => C.ComputeCapacity(s, readings[i]).capacity);
    C.NeverAboveRaw(raws, s.recoveryPolls);
    C.CapacityInFields(s, readings[|readings| - 1], k);
  }
}
