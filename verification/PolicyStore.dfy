/** The policy service as it runs: methods that update the policy, version and attachment rows in place. */
module PolicyStore {
  import opened Wrappers
  import opened Clipboard
  import opened PolicyEngine
  import opened PolicyVersions

  /** Refuses the first rule that could never take effect. */
  method BuildFileRules(rules: seq<FileRule>) returns (r: Result<seq<FileRule>, Refusal>)
    ensures r == if AllGood(rules) then Ok(rules) else Err(RuleError)
  {
    var built: seq<FileRule> := [];
    for i := 0 to |rules|
      invariant built == rules[..i] && AllGood(built)
    {
      if IsDeadRule(rules[i]) {
        return Err(RuleError);
      }
      built := built + [rules[i]];
    }
    assert rules[..|rules|] == rules;
    return Ok(built);
  }

  class PolicyStore {
    var policies: map<PolicyId, Policy>
    var versions: map<VersionId, Version>
    var attached: set<(GroupId, PolicyId)>

    function State(): Store
      reads this
    {
      Store(policies, versions, attached)
    }

    constructor ()
      ensures State() == EMPTY
    {
      policies, versions, attached := map[], map[], {};
    }

    method CreatePolicy(p: PolicyId, kind: PolicyType) returns (refused: Option<Refusal>)
      modifies this`policies
      ensures refused == Refused(old(State()), Create(p, kind))
      ensures State() == Apply(old(State()), Create(p, kind))
    {
      if p in policies {
        return Some(NotFound);
      }
      policies := policies[p := Policy(kind, None, None)];
      return None;
    }

    /** Adds the rule rows of a version that has none. */
    method AddRules(v: VersionId, rules: seq<FileRule>)
      requires v in versions && versions[v].rules == []
      modifies this`versions
      ensures versions == old(versions)[v := old(versions)[v].(rules := rules)]
    {
      ghost var was := versions;
      assert was == was[v := was[v].(rules := [])];
      for i := 0 to |rules|
        invariant versions == was[v := was[v].(rules := rules[..i])]
      {
        assert rules[..i + 1] == rules[..i] + [rules[i]];
        versions := versions[v := versions[v].(rules := versions[v].rules + [rules[i]])];
      }
      assert rules[..|rules|] == rules;
    }

    /** The version row is added first, so a refused rule leaves an empty draft in the transaction, for the caller to roll back. */
    method CreateDraftVersion(p: PolicyId, v: VersionId, content: Content, fileRules: seq<FileRule>) returns (refused: Option<Refusal>)
      modifies this`versions
      ensures refused == Refused(old(State()), CreateDraft(p, v, content, fileRules))
      ensures State() == Apply(old(State()), CreateDraft(p, v, content, fileRules))
    {
      if p !in policies || v in versions {
        return Some(NotFound);
      }
      versions := versions[v := Version(p, DRAFT, content, [])];
      var built := BuildFileRules(fileRules);
      if built.Err? {
        return Some(built.error);
      }
      AddRules(v, built.value);
      assert versions == old(versions)[v := Version(p, DRAFT, content, fileRules)];
      return None;
    }

    /** Here the rules are checked before anything changes. */
    method UpdateDraftVersion(v: VersionId, content: Content, fileRules: seq<FileRule>) returns (refused: Option<Refusal>)
      modifies this`versions
      ensures refused == Refused(old(State()), UpdateDraft(v, content, fileRules))
      ensures State() == Apply(old(State()), UpdateDraft(v, content, fileRules))
    {
      if v !in versions {
        return Some(NotFound);
      }
      if versions[v].status != DRAFT {
        return Some(ServiceError);
      }
      var built := BuildFileRules(fileRules);
      if built.Err? {
        return Some(built.error);
      }
      ghost var was := versions;
      versions := versions[v := versions[v].(content := content)];
      versions := versions[v := versions[v].(rules := [])];
      AddRules(v, built.value);
      assert versions == was[v := was[v].(content := content, rules := fileRules)];
      return None;
    }

    /** The shared part of publishing and rolling back. */
    method Activate(p: PolicyId, v: VersionId)
      requires p in policies && v in versions
      modifies this`policies, this`versions
      ensures State() == Activated(old(State()), p, v)
    {
      var current := policies[p].current;
      if current.Some? && current.value in versions {
        versions := versions[current.value := versions[current.value].(status := SUPERSEDED)];
      }
      versions := versions[v := versions[v].(status := PUBLISHED)];
      policies := policies[p := policies[p].(current := Some(v))];
    }

    method PublishVersion(p: PolicyId, v: VersionId) returns (refused: Option<Refusal>)
      modifies this`policies, this`versions
      ensures refused == Refused(old(State()), Publish(p, v))
      ensures State() == Apply(old(State()), Publish(p, v))
    {
      if p !in policies || v !in versions {
        return Some(NotFound);
      }
      if versions[v].policy != p {
        return Some(ServiceError);
      }
      if versions[v].status != DRAFT {
        return Some(ServiceError);
      }
      Activate(p, v);
      return None;
    }

    method RollBack(p: PolicyId, target: VersionId) returns (refused: Option<Refusal>)
      modifies this`policies, this`versions
      ensures refused == Refused(old(State()), Rollback(p, target))
      ensures State() == Apply(old(State()), Rollback(p, target))
    {
      if p !in policies || target !in versions {
        return Some(NotFound);
      }
      if versions[target].policy != p {
        return Some(ServiceError);
      }
      if versions[target].status !in {PUBLISHED, SUPERSEDED} {
        return Some(ServiceError);
      }
      if policies[p].current == Some(target) {
        return Some(ServiceError);
      }
      Activate(p, target);
      return None;
    }

    method ArchivePolicy(p: PolicyId, now: Time) returns (refused: Option<Refusal>)
      modifies this`policies
      ensures refused == Refused(old(State()), Archive(p, now))
      ensures State() == Apply(old(State()), Archive(p, now))
    {
      if p !in policies {
        return Some(NotFound);
      }
      if policies[p].archivedAt.Some? {
        return Some(ServiceError);
      }
      if exists a <- attached :: a.1 == p {
        return Some(ServiceError);
      }
      policies := policies[p := policies[p].(archivedAt := Some(now))];
      return None;
    }

    method RestorePolicy(p: PolicyId) returns (refused: Option<Refusal>)
      modifies this`policies
      ensures refused == Refused(old(State()), Restore(p))
      ensures State() == Apply(old(State()), Restore(p))
    {
      if p !in policies {
        return Some(NotFound);
      }
      if policies[p].archivedAt.None? {
        return Some(ServiceError);
      }
      policies := policies[p := policies[p].(archivedAt := None)];
      return None;
    }

    /** Idempotent; an unknown policy is refused by the foreign key, not by the service. */
    method AttachPolicyToGroup(g: GroupId, p: PolicyId) returns (refused: Option<Refusal>)
      modifies this`attached
      ensures refused == Refused(old(State()), Attach(g, p))
      ensures State() == Apply(old(State()), Attach(g, p))
    {
      if p in policies && policies[p].archivedAt.Some? {
        return Some(ServiceError);
      }
      if p !in policies {
        return Some(NotFound);
      }
      if (g, p) in attached {
        assert attached == attached + {(g, p)};
        return None;
      }
      attached := attached + {(g, p)};
      return None;
    }

    method DetachPolicyFromGroup(g: GroupId, p: PolicyId)
      modifies this`attached
      ensures State() == Apply(old(State()), Detach(g, p))
    {
      attached := attached - {(g, p)};
    }

    /** The file decision for a user in these groups, given what the rule query returned. */
    method EvaluateFileActionFor(groups: set<GroupId>, rules: seq<LiveRule>, input: FileInput, urlHost: string -> string)
        returns (d: FileDecision)
      requires IsRuleQuery(State(), groups, rules)
      ensures d.action == DecidedAction(RulesOf(View(State(), groups)), input, urlHost)
      ensures d == FAIL_CLOSED || exists r <- RulesOf(View(State(), groups)) :: d == DecisionOf(r)
    {
      d := EvaluateFileAction(rules, input, urlHost);
      if d != FAIL_CLOSED {
        DecidingRule(rules, Hits(rules, input, urlHost), d);
      }
    }
  }
}
