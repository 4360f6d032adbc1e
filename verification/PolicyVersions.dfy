/**
 The versioned policy store: drafts, publication, rollback, archiving and attachment to groups, and what of
 it is live for a user.
 */
module PolicyVersions {
  import opened Wrappers
  import opened Clipboard
  import opened PolicyEngine

  type PolicyId = nat
  type GroupId = nat
  type Time = int

  datatype PolicyType = NETWORK | DOWNLOADS | UPLOADS | CLIPBOARD | BROWSER | SESSION | MIME | SOURCE

  datatype VersionStatus = DRAFT | PUBLISHED | SUPERSEDED

  datatype Policy = Policy(kind: PolicyType, current: Option<VersionId>, archivedAt: Option<Time>)

  datatype Version = Version(policy: PolicyId, status: VersionStatus, content: Content, rules: seq<FileRule>)

  datatype Store = Store(policies: map<PolicyId, Policy>, versions: map<VersionId, Version>, attached: set<(GroupId, PolicyId)>)

  const EMPTY: Store := Store(map[], map[], {})

  datatype Op =
    | Create(p: PolicyId, kind: PolicyType)
    | CreateDraft(p: PolicyId, v: VersionId, content: Content, rules: seq<FileRule>)
    | UpdateDraft(v: VersionId, content: Content, rules: seq<FileRule>)
    | Publish(p: PolicyId, v: VersionId)
    | Rollback(p: PolicyId, v: VersionId)
    | Archive(p: PolicyId, now: Time)
    | Restore(p: PolicyId)
    | Attach(g: GroupId, p: PolicyId)
    | Detach(g: GroupId, p: PolicyId)

  /** `NotFound` is the caller's: the row is not there, or an id meant to be fresh is taken. */
  datatype Refusal = NotFound | ServiceError | RuleError

  predicate AllGood(rules: seq<FileRule>) {
    forall r <- rules :: !IsDeadRule(r)
  }

  predicate IsAttached(s: Store, p: PolicyId) {
    exists a <- s.attached :: a.1 == p
  }

  /** Why the service raises, if it does. */
  function Refused(s: Store, op: Op): Option<Refusal> {
    match op
    case Create(p, _) => if p in s.policies then Some(NotFound) else None
    case CreateDraft(p, v, _, rules) =>
      if p !in s.policies || v in s.versions then Some(NotFound)
      else if !AllGood(rules) then Some(RuleError) else None
    case UpdateDraft(v, _, rules) =>
      if v !in s.versions then Some(NotFound)
      else if s.versions[v].status != DRAFT then Some(ServiceError)
      else if !AllGood(rules) then Some(RuleError) else None
    case Publish(p, v) =>
      if p !in s.policies || v !in s.versions then Some(NotFound)
      else if s.versions[v].policy != p || s.versions[v].status != DRAFT then Some(ServiceError) else None
    case Rollback(p, v) =>
      if p !in s.policies || v !in s.versions then Some(NotFound)
      else if s.versions[v].policy != p || s.versions[v].status == DRAFT || s.policies[p].current == Some(v) then Some(ServiceError)
      else None
    case Archive(p, _) =>
      if p !in s.policies then Some(NotFound)
      else if s.policies[p].archivedAt.Some? || IsAttached(s, p) then Some(ServiceError) else None
    case Restore(p) =>
      if p !in s.policies then Some(NotFound) else if s.policies[p].archivedAt.None? then Some(ServiceError) else None
    case Attach(_, p) =>
      if p !in s.policies then Some(NotFound) else if s.policies[p].archivedAt.Some? then Some(ServiceError) else None
    case Detach(_, _) => None
  }

  /** The previously current version steps back, `v` becomes the published and current one. */
  function Activated(s: Store, p: PolicyId, v: VersionId): Store
    requires p in s.policies && v in s.versions
  {
    var current := s.policies[p].current;
    var versions := if current.Some? && current.value in s.versions
                    then s.versions[current.value := s.versions[current.value].(status := SUPERSEDED)] else s.versions;
    s.(versions := versions[v := versions[v].(status := PUBLISHED)],
       policies := s.policies[p := s.policies[p].(current := Some(v))])
  }

  /**
   An accepted call's effect.  A draft whose rules are refused has by then been added, without rules; it stays
   if the caller commits all the same, which the HTTP route does not.
   */
  function Apply(s: Store, op: Op): Store {
    if op.CreateDraft? && Refused(s, op) == Some(RuleError) then s.(versions := s.versions[op.v := Version(op.p, DRAFT, op.content, [])])
    else if Refused(s, op).Some? then s
    else
      match op
      case Create(p, kind) => s.(policies := s.policies[p := Policy(kind, None, None)])
      case CreateDraft(p, v, content, rules) => s.(versions := s.versions[v := Version(p, DRAFT, content, rules)])
      case UpdateDraft(v, content, rules) => s.(versions := s.versions[v := s.versions[v].(content := content, rules := rules)])
      case Publish(p, v) => Activated(s, p, v)
      case Rollback(p, v) => Activated(s, p, v)
      case Archive(p, now) => s.(policies := s.policies[p := s.policies[p].(archivedAt := Some(now))])
      case Restore(p) => s.(policies := s.policies[p := s.policies[p].(archivedAt := None)])
      case Attach(g, p) => s.(attached := s.attached + {(g, p)})
      case Detach(g, p) => s.(attached := s.attached - {(g, p)})
  }

  function Run(s: Store, ops: seq<Op>): Store
    decreases |ops|
  {
    if ops == [] then s else Run(Apply(s, ops[0]), ops[1..])
  }

  // -- The invariant -----------------------------------------------------------------------------------

  /** The published versions are exactly the current ones, archived policies are attached to no group. */
  ghost predicate Sound(s: Store) {
    && (forall p <- s.policies :: s.policies[p].current.Some? ==>
          var v := s.policies[p].current.value;
          v in s.versions && s.versions[v].policy == p && s.versions[v].status == PUBLISHED)
    && (forall v <- s.versions :: s.versions[v].policy in s.policies && AllGood(s.versions[v].rules))
    && (forall v <- s.versions :: s.versions[v].status == PUBLISHED ==> s.policies[s.versions[v].policy].current == Some(v))
    && (forall a <- s.attached :: a.1 in s.policies && s.policies[a.1].archivedAt.None?)
  }

  lemma ActivatedIsSound(s: Store, p: PolicyId, v: VersionId)
    requires Sound(s) && p in s.policies && v in s.versions && s.versions[v].policy == p && s.policies[p].current != Some(v)
    ensures Sound(Activated(s, p, v))
  {
  }

  lemma StepIsSound(s: Store, op: Op)
    requires Sound(s)
    ensures Sound(Apply(s, op))
  {
    if (op.Publish? || op.Rollback?) && Refused(s, op).None? {
      ActivatedIsSound(s, op.p, op.v);
    } else if op.CreateDraft? || op.UpdateDraft? {
      DraftingIsSound(s, op);
    }
  }

  lemma DraftingIsSound(s: Store, op: Op)
    requires Sound(s) && (op.CreateDraft? || op.UpdateDraft?)
    ensures Sound(Apply(s, op))
  {
  }

  lemma {:induction false} RunIsSound(s: Store, ops: seq<Op>)
    requires Sound(s)
    ensures Sound(Run(s, ops))
    decreases |ops|
  {
    if ops != [] {
      StepIsSound(s, ops[0]);
      RunIsSound(Apply(s, ops[0]), ops[1..]);
    }
  }

  /** In every reachable store each policy has at most one published version, and it is the current one. */
  lemma PublishedIsCurrent(ops: seq<Op>, v: VersionId, w: VersionId)
    ensures var s := Run(EMPTY, ops);
            && (v in s.versions && s.versions[v].status == PUBLISHED ==>
                  s.versions[v].policy in s.policies && s.policies[s.versions[v].policy].current == Some(v))
            && (v in s.versions && w in s.versions && v != w && s.versions[v].policy == s.versions[w].policy ==>
                  s.versions[v].status != PUBLISHED || s.versions[w].status != PUBLISHED)
  {
    RunIsSound(EMPTY, ops);
  }

  /** Nor is any archived policy attached to a group. */
  lemma ArchivedIsDetached(ops: seq<Op>, g: GroupId, p: PolicyId)
    requires p in Run(EMPTY, ops).policies && Run(EMPTY, ops).policies[p].archivedAt.Some?
    ensures (g, p) !in Run(EMPTY, ops).attached
  {
    RunIsSound(EMPTY, ops);
  }

  /** Everything about a version but its status. */
  predicate SameText(a: Version, b: Version) {
    a.policy == b.policy && a.content == b.content && a.rules == b.rules
  }

  lemma StepKeepsPublishedText(s: Store, op: Op, v: VersionId)
    requires Sound(s) && v in s.versions && s.versions[v].status != DRAFT
    ensures var s' := Apply(s, op);
            v in s'.versions && SameText(s.versions[v], s'.versions[v]) && s'.versions[v].status != DRAFT
  {
  }

  /** A version that has left DRAFT never changes its rules or content, and is never a draft again. */
  lemma {:induction false} PublishedTextIsFinal(s: Store, ops: seq<Op>, v: VersionId)
    requires Sound(s) && v in s.versions && s.versions[v].status != DRAFT
    ensures var s' := Run(s, ops);
            v in s'.versions && SameText(s.versions[v], s'.versions[v]) && s'.versions[v].status != DRAFT
    decreases |ops|
  {
    if ops != [] {
      StepKeepsPublishedText(s, ops[0], v);
      StepIsSound(s, ops[0]);
      PublishedTextIsFinal(Apply(s, ops[0]), ops[1..], v);
    }
  }

  lemma {:induction false} PoliciesStay(s: Store, ops: seq<Op>, p: PolicyId)
    requires p in s.policies
    ensures var s' := Run(s, ops); p in s'.policies && s'.policies[p].kind == s.policies[p].kind
    decreases |ops|
  {
    if ops != [] {
      PoliciesStay(Apply(s, ops[0]), ops[1..], p);
    }
  }

  // -- What is live ------------------------------------------------------------------------------------

  datatype LiveVersion = LiveVersion(kind: PolicyType, content: Content, rules: seq<FileRule>)

  /** The joins every policy query makes, for a user in these groups. */
  predicate IsLive(s: Store, groups: set<GroupId>, v: VersionId) {
    && v in s.versions && s.versions[v].policy in s.policies
    && s.policies[s.versions[v].policy].current == Some(v) && s.versions[v].status == PUBLISHED
    && exists g <- groups :: (g, s.versions[v].policy) in s.attached
  }

  /** All that decisions for a user in these groups can depend on. */
  function View(s: Store, groups: set<GroupId>): map<VersionId, LiveVersion> {
    map v | v in s.versions && IsLive(s, groups, v) ::
      LiveVersion(s.policies[s.versions[v].policy].kind, s.versions[v].content, s.versions[v].rules)
  }

  function RulesOf(view: map<VersionId, LiveVersion>): set<LiveRule> {
    set v, r | v in view && r in view[v].rules :: LiveRule(r, v)
  }

  function ContentsOf(view: map<VersionId, LiveVersion>, kind: PolicyType): set<Content> {
    set v | v in view && view[v].kind == kind :: view[v].content
  }

  /** Only drafts were written or added, and nothing became current or attached. */
  ghost predicate Quiet(s: Store, t: Store) {
    && t.attached == s.attached && s.policies.Keys <= t.policies.Keys && s.versions.Keys <= t.versions.Keys
    && (forall p <- s.policies :: t.policies[p].kind == s.policies[p].kind && t.policies[p].current == s.policies[p].current)
    && (forall v <- s.versions :: t.versions[v].status == s.versions[v].status && t.versions[v].policy == s.versions[v].policy)
    && (forall v <- s.versions :: s.versions[v].status != DRAFT ==> SameText(s.versions[v], t.versions[v]))
    && (forall v <- t.versions :: v !in s.versions ==> t.versions[v].status == DRAFT)
  }

  lemma QuietChangesNothing(s: Store, t: Store, groups: set<GroupId>)
    requires Sound(s) && Quiet(s, t)
    ensures View(t, groups) == View(s, groups)
  {
    forall v ensures IsLive(t, groups, v) <==> IsLive(s, groups, v) {
    }
  }

  predicate IsQuiet(op: Op) {
    op.Create? || op.CreateDraft? || op.UpdateDraft? || op.Archive? || op.Restore?
  }

  lemma QuietSteps(s: Store, op: Op)
    requires IsQuiet(op) || Refused(s, op).Some?
    ensures Quiet(s, Apply(s, op))
  {
  }

  /** Writing drafts, archiving and restoring change no decision of any user; neither does a refused call. */
  lemma QuietStepsChangeNothing(s: Store, op: Op, groups: set<GroupId>)
    requires Sound(s) && (IsQuiet(op) || Refused(s, op).Some?)
    ensures View(Apply(s, op), groups) == View(s, groups)
  {
    QuietSteps(s, op);
    QuietChangesNothing(s, Apply(s, op), groups);
  }

  /** Publishing in a policy leaves the live versions of every other policy alone, and makes `v` live wherever it is attached. */
  lemma ActivationIsLocal(s: Store, p: PolicyId, v: VersionId, groups: set<GroupId>, w: VersionId)
    requires Sound(s) && p in s.policies && v in s.versions && s.versions[v].policy == p && s.policies[p].current != Some(v)
    ensures var s' := Activated(s, p, v);
            && (w in s.versions && s.versions[w].policy != p ==> (IsLive(s', groups, w) <==> IsLive(s, groups, w)))
            && (w in s.versions && s.versions[w].policy == p ==>
                  (IsLive(s', groups, w) <==> w == v && exists g <- groups :: (g, p) in s.attached))
  {
  }

  /** The two stores agree on what is current in every attached policy but `p`. */
  ghost predicate SameElsewhere(s: Store, t: Store, p: PolicyId) {
    s.attached == t.attached
    && forall a <- s.attached :: a.1 != p ==>
         a.1 in s.policies && a.1 in t.policies && s.policies[a.1].current == t.policies[a.1].current
  }

  /** What has been current or superseded is still there, unedited. */
  ghost predicate TextKept(s: Store, t: Store) {
    && (forall w <- s.versions :: s.versions[w].status != DRAFT ==> w in t.versions && SameText(s.versions[w], t.versions[w]))
    && (forall q <- s.policies :: q in t.policies && t.policies[q].kind == s.policies[q].kind)
  }

  lemma RunKeepsText(s: Store, ops: seq<Op>)
    requires Sound(s)
    ensures TextKept(s, Run(s, ops))
  {
    forall w <- s.versions | s.versions[w].status != DRAFT ensures w in Run(s, ops).versions && SameText(s.versions[w], Run(s, ops).versions[w]) {
      PublishedTextIsFinal(s, ops, w);
    }
    forall q <- s.policies ensures q in Run(s, ops).policies && Run(s, ops).policies[q].kind == s.policies[q].kind {
      PoliciesStay(s, ops, q);
    }
  }

  /** With the same versions current and the same attachments, the same is live. */
  lemma LiveAgain(s: Store, t: Store, p: PolicyId, groups: set<GroupId>)
    requires Sound(s) && Sound(t) && SameElsewhere(s, t, p) && TextKept(s, t)
    requires p in s.policies && s.policies[p].current == t.policies[p].current
    ensures View(t, groups) == View(s, groups)
  {
    forall w | IsLive(s, groups, w) ensures IsLive(t, groups, w) && View(t, groups)[w] == View(s, groups)[w] {
      LiveThere(s, t, p, groups, w);
    }
    forall w | IsLive(t, groups, w) ensures IsLive(s, groups, w) {
      LiveThere(t, s, p, groups, w);
    }
  }

  lemma LiveThere(s: Store, t: Store, p: PolicyId, groups: set<GroupId>, w: VersionId)
    requires Sound(s) && Sound(t) && SameElsewhere(s, t, p) && IsLive(s, groups, w)
    requires p in s.policies && p in t.policies && s.policies[p].current == t.policies[p].current
    ensures IsLive(t, groups, w)
  {
    var q := s.versions[w].policy;
    var g :| g in groups && (g, q) in s.attached;
    assert (g, q) in t.attached;
    assert q in t.policies && t.policies[q].current == Some(w);
  }

  /**
   Rolling back to `v` gives every user the decisions they had while `v` was current, whatever was drafted,
   published or archived in between, with the same attachments and nothing else published elsewhere.  It is
   refused exactly when `v` is still current.
   */
  lemma RollbackRestores(s: Store, ops: seq<Op>, p: PolicyId, v: VersionId, groups: set<GroupId>)
    requires Sound(s) && p in s.policies && s.policies[p].current == Some(v)
    requires SameElsewhere(s, Run(s, ops), p)
    ensures var t := Run(s, ops);
            && p in t.policies && (Refused(t, Rollback(p, v)).Some? <==> t.policies[p].current == Some(v))
            && View(Apply(t, Rollback(p, v)), groups) == View(s, groups)
  {
    var t := Run(s, ops);
    RunIsSound(s, ops);
    StepIsSound(t, Rollback(p, v));
    RunKeepsText(s, ops);
    PublishedTextIsFinal(s, ops, v);
    RollbackKeepsText(t, p, v);
    LiveAgain(s, Apply(t, Rollback(p, v)), p, groups);
  }

  function Members(contents: seq<Content>): set<Content> {
    set c | c in contents
  }

  /** A result of a settings query: each live content of the kind at least once, in any order. */
  ghost predicate IsContentQuery(s: Store, groups: set<GroupId>, kind: PolicyType, contents: seq<Content>) {
    Members(contents) == ContentsOf(View(s, groups), kind)
  }

  /** So a rollback also gives back the clipboard mode and the screen area, in whatever order the queries answer. */
  lemma RollbackRestoresSettings(s: Store, ops: seq<Op>, p: PolicyId, v: VersionId, groups: set<GroupId>, kind: PolicyType,
                                 before: seq<Content>, after: seq<Content>)
    requires Sound(s) && p in s.policies && s.policies[p].current == Some(v)
    requires SameElsewhere(s, Run(s, ops), p)
    requires IsContentQuery(s, groups, kind, before)
    requires IsContentQuery(Apply(Run(s, ops), Rollback(p, v)), groups, kind, after)
    ensures forall m, n :: Resolves(before, m) && Resolves(after, n) ==> m == n
    ensures forall r, q :: IsResolution(before, r) && IsResolution(after, q) ==> Area(r) == Area(q)
  {
    RollbackRestores(s, ops, p, v, groups);
    SameMembers(before, after);
    forall m, n | Resolves(before, m) && Resolves(after, n) ensures m == n {
      ModeIgnoresOrder(before, after, m, n);
    }
    forall r, q | IsResolution(before, r) && IsResolution(after, q) ensures Area(r) == Area(q) {
      AreaIgnoresOrder(before, after, r, q);
    }
  }

  lemma SameMembers(a: seq<Content>, b: seq<Content>)
    requires Members(a) == Members(b)
    ensures forall c :: c in a <==> c in b
  {
    forall c ensures c in a <==> c in b {
      assert c in Members(a) <==> c in Members(b);
    }
  }

  lemma RollbackKeepsText(t: Store, p: PolicyId, v: VersionId)
    requires p in t.policies && v in t.versions && t.versions[v].policy == p && t.versions[v].status != DRAFT
    ensures var u := Apply(t, Rollback(p, v));
            && u.attached == t.attached && u.policies.Keys == t.policies.Keys && u.policies[p].current == Some(v)
            && (forall w <- t.versions :: w in u.versions && SameText(t.versions[w], u.versions[w]))
            && (forall q <- t.policies :: u.policies[q].kind == t.policies[q].kind
                                          && (q != p ==> u.policies[q].current == t.policies[q].current))
  {
  }

  // -- Decisions over the store ------------------------------------------------------------------------

  /** A result of the rule query: each live rule at least once, in any order. */
  ghost predicate IsRuleQuery(s: Store, groups: set<GroupId>, rules: seq<LiveRule>) {
    Listed(rules) == RulesOf(View(s, groups))
  }

  /**
   A file with a detected MIME type is released only by a live rule that names that type or the host the
   file came from, never by an extension or by what the sender declares.
   */
  lemma ReleaseNeedsTypeOrSource(s: Store, groups: set<GroupId>, input: FileInput, urlHost: string -> string)
    requires Sound(s) && DecidedAction(RulesOf(View(s, groups)), input, urlHost) == AUTO_RELEASE
    ensures exists r <- RulesOf(View(s, groups)) ::
              && r.rule.action == AUTO_RELEASE && !IsDeadRule(r.rule)
              && Matches(r.rule, input.(declaredMime := None, extension := None), urlHost)
    ensures forall r <- RulesOf(View(s, groups)) :: Matches(r.rule, input, urlHost) ==> r.rule.action == AUTO_RELEASE
  {
    var live := RulesOf(View(s, groups));
    var r := ReleasingRule(live, input, urlHost);
    LiveRulesAreGood(s, groups, r);
    AutoReleaseExactly(live, input, urlHost);
  }

  lemma LiveRulesAreGood(s: Store, groups: set<GroupId>, r: LiveRule)
    requires Sound(s) && r in RulesOf(View(s, groups))
    ensures !IsDeadRule(r.rule)
  {
    var v := r.version;
    assert v in s.versions && r.rule in s.versions[v].rules;
  }

  // -- What each call does, and what is live, in plain terms ---------------------------------------------

  /** When a call on existing rows is accepted. */
  lemma AcceptedExactly(s: Store, op: Op)
    requires op.UpdateDraft? || op.Publish? || op.Rollback? ==> op.v in s.versions
    requires op.Publish? || op.Rollback? || op.Archive? || op.Restore? || op.Attach? ==> op.p in s.policies
    ensures Refused(s, op).None? <==>
              match op
              case Create(p, _) => p !in s.policies
              case CreateDraft(p, v, _, rules) => p in s.policies && v !in s.versions && forall r <- rules :: !IsDeadRule(r)
              case UpdateDraft(v, _, rules) => s.versions[v].status == DRAFT && forall r <- rules :: !IsDeadRule(r)
              case Publish(p, v) => s.versions[v].policy == p && s.versions[v].status == DRAFT
              case Rollback(p, v) =>
                s.versions[v].policy == p && s.versions[v].status in {PUBLISHED, SUPERSEDED} && s.policies[p].current != Some(v)
              case Archive(p, _) => s.policies[p].archivedAt == None && forall g :: (g, p) !in s.attached
              case Restore(p) => s.policies[p].archivedAt != None
              case Attach(_, p) => s.policies[p].archivedAt == None
              case Detach(_, _) => true
  {
    if op.Archive? {
      assert IsAttached(s, op.p) <==> exists g :: (g, op.p) in s.attached by {
        if g :| (g, op.p) in s.attached {
          assert (g, op.p).1 == op.p;
        }
      }
    }
  }

  /** What accepted calls on drafts and policies write. */
  lemma WritesExactly(s: Store, op: Op)
    requires Refused(s, op).None?
    ensures var t := Apply(s, op);
            match op
            case Create(p, kind) =>
              t.policies == s.policies[p := Policy(kind, None, None)] && t.versions == s.versions && t.attached == s.attached
            case CreateDraft(p, v, content, rules) =>
              t.versions == s.versions[v := Version(p, DRAFT, content, rules)] && t.policies == s.policies && t.attached == s.attached
            case UpdateDraft(v, content, rules) =>
              && t.versions == s.versions[v := Version(s.versions[v].policy, DRAFT, content, rules)]
              && t.policies == s.policies && t.attached == s.attached
            case Archive(p, now) =>
              && t.policies == s.policies[p := Policy(s.policies[p].kind, s.policies[p].current, Some(now))]
              && t.versions == s.versions && t.attached == s.attached
            case Restore(p) =>
              && t.policies == s.policies[p := Policy(s.policies[p].kind, s.policies[p].current, None)]
              && t.versions == s.versions && t.attached == s.attached
            case Attach(g, p) => t.attached == s.attached + {(g, p)} && t.policies == s.policies && t.versions == s.versions
            case Detach(g, p) => t.attached == s.attached - {(g, p)} && t.policies == s.policies && t.versions == s.versions
            case Publish(p, _) => t.attached == s.attached
            case Rollback(p, _) => t.attached == s.attached
  {
  }

  /** Publishing and rolling back: the version becomes current and published, the one before superseded, nothing else changes. */
  lemma ActivationExactly(s: Store, op: Op, w: VersionId)
    requires Sound(s) && (op.Publish? || op.Rollback?) && Refused(s, op).None?
    ensures var t := Apply(s, op);
            && t.policies == s.policies[op.p := Policy(s.policies[op.p].kind, Some(op.v), s.policies[op.p].archivedAt)]
            && t.versions.Keys == s.versions.Keys
            && (w in s.versions ==>
                  t.versions[w] == s.versions[w].(status := if w == op.v then PUBLISHED
                                                            else if s.policies[op.p].current == Some(w) then SUPERSEDED
                                                            else s.versions[w].status))
  {
  }

  /** After a detachment nothing of the policy is live for the group alone. */
  lemma DetachedIsNotLive(s: Store, g: GroupId, p: PolicyId, v: VersionId)
    requires v in s.versions && s.versions[v].policy == p
    ensures v !in View(Apply(s, Detach(g, p)), {g})
  {
  }

  /** After an attachment the policy's current version is live for the group, also if it was archived and restored before. */
  lemma AttachedIsLive(s: Store, g: GroupId, p: PolicyId, v: VersionId)
    requires Sound(s) && p in s.policies && s.policies[p].archivedAt == None && s.policies[p].current == Some(v)
    ensures v in View(Apply(s, Attach(g, p)), {g})
    ensures View(Apply(s, Attach(g, p)), {g})[v].rules == s.versions[v].rules
  {
    var t := Apply(s, Attach(g, p));
    assert (g, p) in t.attached && g in {g};
    assert IsLive(t, {g}, v);
  }

  lemma RestoredCanBeAttached(s: Store, g: GroupId, p: PolicyId)
    requires p in s.policies && s.policies[p].archivedAt.Some?
    ensures Refused(s, Attach(g, p)).Some?
    ensures Refused(Apply(s, Restore(p)), Attach(g, p)).None?
  {
  }

  /** The rules that govern a user: those of the current, published versions of policies attached to one of the groups. */
  lemma LiveRulesExactly(s: Store, groups: set<GroupId>, r: LiveRule)
    ensures r in RulesOf(View(s, groups)) <==>
              && r.version in s.versions && r.rule in s.versions[r.version].rules
              && s.versions[r.version].status == PUBLISHED
              && s.versions[r.version].policy in s.policies
              && s.policies[s.versions[r.version].policy].current == Some(r.version)
              && exists g :: g in groups && (g, s.versions[r.version].policy) in s.attached
  {
    if r.version in s.versions {
      assert IsLive(s, groups, r.version) ==> View(s, groups)[r.version].rules == s.versions[r.version].rules;
    }
  }

  /** Likewise the contents a settings query of one kind ranges over. */
  lemma LiveContentsExactly(s: Store, groups: set<GroupId>, kind: PolicyType, c: Content)
    ensures c in ContentsOf(View(s, groups), kind) <==>
              exists v | v in s.versions ::
                && s.versions[v].content == c && s.versions[v].status == PUBLISHED
                && s.versions[v].policy in s.policies && s.policies[s.versions[v].policy].kind == kind
                && s.policies[s.versions[v].policy].current == Some(v)
                && exists g :: g in groups && (g, s.versions[v].policy) in s.attached
  {
    forall v | v in s.versions
      ensures IsLive(s, groups, v) && s.versions[v].content == c && s.policies[s.versions[v].policy].kind == kind <==>
                v in View(s, groups) && View(s, groups)[v].kind == kind && View(s, groups)[v].content == c
    {
    }
  }
}
