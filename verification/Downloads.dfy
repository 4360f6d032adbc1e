/** The quarantine beside the policy store: what a release says about the policies published when the file was staged. */
module Downloads {
  import opened Wrappers
  import opened PolicyEngine
  import PolicyVersions
  import Quarantine

  type GroupSet = set<PolicyVersions.GroupId>

  /** One step of either; staging names the groups of the file's user. */
  datatype Act =
    | OnPolicies(op: PolicyVersions.Op)
    | OnFiles(event: Quarantine.Event, groups: GroupSet)

  datatype System = System(store: PolicyVersions.Store, vault: Quarantine.Vault)

  ghost function AfterAct(s: System, a: Act, urlHost: string -> string): System {
    match a
    case OnPolicies(op) => s.(store := PolicyVersions.Apply(s.store, op))
    case OnFiles(event, _) => s.(vault := Quarantine.Apply(s.vault, event, urlHost))
  }

  ghost function Run(acts: seq<Act>, urlHost: string -> string): System {
    if acts == [] then System(PolicyVersions.EMPTY, Quarantine.EMPTY)
    else AfterAct(Run(acts[..|acts| - 1], urlHost), acts[|acts| - 1], urlHost)
  }

  /** A file is staged with the rules its user's rule query returns at that moment. */
  ghost predicate AsksPolicies(s: System, a: Act) {
    a.OnFiles? && a.event.Stage? ==> PolicyVersions.IsRuleQuery(s.store, a.groups, a.event.rules)
  }

  ghost predicate Faithful(acts: seq<Act>, urlHost: string -> string) {
    forall i | 0 <= i < |acts| :: AsksPolicies(Run(acts[..i], urlHost), acts[i])
  }

  lemma {:induction false} RunIsSound(acts: seq<Act>, urlHost: string -> string)
    ensures PolicyVersions.Sound(Run(acts, urlHost).store) && Quarantine.Settled(Run(acts, urlHost).vault)
  {
    if acts != [] {
      var before := Run(acts[..|acts| - 1], urlHost);
      var last := acts[|acts| - 1];
      RunIsSound(acts[..|acts| - 1], urlHost);
      match last
      case OnPolicies(op) => PolicyVersions.StepIsSound(before.store, op);
      case OnFiles(event, _) => Quarantine.StepKeepsSettled(before.vault, event, urlHost);
    }
  }

  /** Over any run of both, a released file was released at some act: by staging it, or by a reviewer. */
  lemma {:induction false} ReleasedAt(acts: seq<Act>, urlHost: string -> string, f: Quarantine.FileId) returns (n: nat)
    requires var v := Run(acts, urlHost).vault; f in v.files && v.files[f].status == Quarantine.RELEASED
    ensures n < |acts| && acts[n].OnFiles? && Quarantine.Releases(Run(acts[..n], urlHost).vault, acts[n].event, urlHost, f)
  {
    var last := |acts| - 1;
    var before := Run(acts[..last], urlHost);
    RunIsSound(acts[..last], urlHost);
    if acts[last].OnFiles? {
      Quarantine.NewRelease(before.vault, acts[last].event, urlHost, f);
    }
    if acts[last].OnFiles? && Quarantine.Releases(before.vault, acts[last].event, urlHost, f) {
      n := last;
    } else {
      n := ReleasedAt(acts[..last], urlHost, f);
      assert acts[..last][..n] == acts[..n];
    }
  }

  /** No reviewer released the file in this run. */
  ghost predicate NeverReviewed(acts: seq<Act>, f: Quarantine.FileId) {
    forall a <- acts :: a.OnFiles? && a.event.Release? ==> a.event.f != f
  }

  /**
   An automatic release rests on the policies: at the moment the file was staged, some version then published
   and attached to a group of its user had an AUTO_RELEASE rule that matched the file's detected type or
   origin, whatever the sender said, and every rule published for the user that matched was one; and the scan
   was clean.
   */
  lemma AutomaticRelease(acts: seq<Act>, urlHost: string -> string, f: Quarantine.FileId) returns (n: nat)
    requires Faithful(acts, urlHost) && NeverReviewed(acts, f)
    requires var v := Run(acts, urlHost).vault; f in v.files && v.files[f].status == Quarantine.RELEASED
    ensures n < |acts| && acts[n].OnFiles? && acts[n].event.Stage? && acts[n].event.f == f && acts[n].event.scan == Quarantine.Clean
    ensures var store, e := Run(acts[..n], urlHost).store, acts[n].event;
            var live := PolicyVersions.RulesOf(PolicyVersions.View(store, acts[n].groups));
            && (exists r <- live ::
                  && r.rule.action == AUTO_RELEASE && !IsDeadRule(r.rule)
                  && Matches(r.rule, e.input.(declaredMime := None, extension := None), urlHost))
            && (forall r <- live :: Matches(r.rule, e.input, urlHost) ==> r.rule.action == AUTO_RELEASE)
  {
    n := ReleasedAt(acts, urlHost, f);
    assert acts[n] in acts;
    var before := Run(acts[..n], urlHost);
    RunIsSound(acts[..n], urlHost);
    assert AsksPolicies(before, acts[n]);
    PolicyVersions.ReleaseNeedsTypeOrSource(before.store, acts[n].groups, acts[n].event.input, urlHost);
  }
}
