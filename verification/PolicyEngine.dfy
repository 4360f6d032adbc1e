/** The decision procedure over live policy rules: what happens to a file, and which screen size a session gets. */
module PolicyEngine {
  import opened Wrappers
  import opened Clipboard
  import opened MimeMatching
  import opened Text
  import opened SourceMatching

  type RuleId = nat
  type VersionId = nat

  datatype FileAction = AUTO_RELEASE | QUARANTINE | DENY

  datatype FileRuleType = MIME | SOURCE

  /** `priority` is stored but plays no part in a decision. */
  datatype FileRule = FileRule(id: RuleId, ruleType: FileRuleType, pattern: string, action: FileAction, priority: int)

  datatype LiveRule = LiveRule(rule: FileRule, version: VersionId)

  datatype FileInput = FileInput(
    declaredMime: Option<string>,
    detectedMime: Option<string>,
    extension: Option<string>,
    sizeBytes: nat,
    sourceHostname: Option<string>)

  datatype FileDecision = FileDecision(action: FileAction, version: Option<VersionId>, rule: Option<RuleId>)

  const FAIL_CLOSED: FileDecision := FileDecision(QUARANTINE, None, None)

  function Strictness(a: FileAction): nat {
    match a
    case DENY => 3
    case QUARANTINE => 2
    case AUTO_RELEASE => 1
  }

  /** An AUTO_RELEASE rule looks at the detected type only; the sender chooses the other two. */
  predicate Matches(rule: FileRule, input: FileInput, urlHost: string -> string) {
    match rule.ruleType
    case MIME =>
      || MatchesMimePattern(input.detectedMime, rule.pattern)
      || (rule.action != AUTO_RELEASE
          && (MatchesMimePattern(input.declaredMime, rule.pattern) || MatchesMimePattern(input.extension, rule.pattern)))
    case SOURCE =>
      && input.sourceHostname.Some? && input.sourceHostname.value != ""
      && MatchesSourcePattern(input.sourceHostname.value, rule.pattern, urlHost)
  }

  /** Which of the rules match. */
  function Hits(rules: seq<LiveRule>, input: FileInput, urlHost: string -> string): seq<bool> {
    seq(|rules|, i requires 0 <= i < |rules| => Matches(rules[i].rule, input, urlHost))
  }

  function DecisionOf(r: LiveRule): FileDecision {
    FileDecision(r.rule.action, Some(r.version), Some(r.rule.id))
  }

  /** Rule `i` is the first of the strictest rules that match, among the first `n`. */
  ghost predicate IsFirstStrictest(rules: seq<LiveRule>, hits: seq<bool>, n: nat, i: nat)
    requires i < n <= |rules| == |hits|
  {
    && hits[i]
    && (forall j: nat | j < n && hits[j] :: Strictness(rules[j].rule.action) <= Strictness(rules[i].rule.action))
    && (forall j: nat | j < i && hits[j] :: Strictness(rules[j].rule.action) < Strictness(rules[i].rule.action))
  }

  /** What the first `n` rules come to. */
  ghost predicate IsBest(rules: seq<LiveRule>, hits: seq<bool>, n: nat, best: Option<FileDecision>)
    requires n <= |rules| == |hits|
  {
    match best
    case None => forall i: nat | i < n :: !hits[i]
    case Some(d) => exists i: nat | i < n :: IsFirstStrictest(rules, hits, n, i) && d == DecisionOf(rules[i])
  }

  ghost predicate IsDecision(rules: seq<LiveRule>, hits: seq<bool>, d: FileDecision)
    requires |rules| == |hits|
  {
    IsBest(rules, hits, |rules|, if d == FAIL_CLOSED then None else Some(d))
  }

  function Stricter(best: Option<FileDecision>, candidate: FileDecision): Option<FileDecision> {
    if best.None? || Strictness(candidate.action) > Strictness(best.value.action) then Some(candidate) else best
  }

  lemma BestAdvances(rules: seq<LiveRule>, hits: seq<bool>, n: nat, best: Option<FileDecision>)
    requires n < |rules| == |hits| && IsBest(rules, hits, n, best)
    ensures IsBest(rules, hits, n + 1, if hits[n] then Stricter(best, DecisionOf(rules[n])) else best)
  {
    if best.None? {
      assert hits[n] ==> IsFirstStrictest(rules, hits, n + 1, n);
    } else {
      var i: nat :| i < n && IsFirstStrictest(rules, hits, n, i) && best.value == DecisionOf(rules[i]);
      if hits[n] && Stricter(best, DecisionOf(rules[n])) != best {
        assert IsFirstStrictest(rules, hits, n + 1, n);
      } else {
        assert IsFirstStrictest(rules, hits, n + 1, i);
      }
    }
  }

  /** `evaluate_file_action` over the rows its query returned. */
  method EvaluateFileAction(rules: seq<LiveRule>, input: FileInput, urlHost: string -> string) returns (d: FileDecision)
    ensures IsDecision(rules, Hits(rules, input, urlHost), d)
    ensures d.action == DecidedAction(Listed(rules), input, urlHost)
  {
    var best: Option<FileDecision> := None;
    ghost var hits := Hits(rules, input, urlHost);
    for i := 0 to |rules|
      invariant IsBest(rules, hits, i, best)
    {
      BestAdvances(rules, hits, i, best);
      if Matches(rules[i].rule, input, urlHost) {
        var candidate := DecisionOf(rules[i]);
        if best.None? || Strictness(candidate.action) > Strictness(best.value.action) {
          best := Some(candidate);
        }
      }
    }
    d := if best.Some? then best.value else FAIL_CLOSED;
    ActionOfDecision(rules, input, urlHost, d);
  }

  // -- What the decision means -------------------------------------------------------------------------

  ghost predicate SomeMatch(live: set<LiveRule>, action: FileAction, input: FileInput, urlHost: string -> string) {
    exists r <- live :: r.rule.action == action && Matches(r.rule, input, urlHost)
  }

  /** The action in terms of the set of live rules alone. */
  ghost function DecidedAction(live: set<LiveRule>, input: FileInput, urlHost: string -> string): FileAction {
    if SomeMatch(live, DENY, input, urlHost) then DENY
    else if SomeMatch(live, QUARANTINE, input, urlHost) then QUARANTINE
    else if SomeMatch(live, AUTO_RELEASE, input, urlHost) then AUTO_RELEASE
    else QUARANTINE
  }

  /** The live rules as a set. */
  function Listed(rules: seq<LiveRule>): set<LiveRule> {
    set r | r in rules
  }

  lemma SomeMatchIsHit(rules: seq<LiveRule>, action: FileAction, input: FileInput, urlHost: string -> string)
    ensures SomeMatch(Listed(rules), action, input, urlHost) <==>
              exists i: nat | i < |rules| :: Hits(rules, input, urlHost)[i] && rules[i].rule.action == action
  {
    var hits := Hits(rules, input, urlHost);
    if SomeMatch(Listed(rules), action, input, urlHost) {
      var r :| r in Listed(rules) && r.rule.action == action && Matches(r.rule, input, urlHost);
      var i: nat :| i < |rules| && rules[i] == r;
      assert hits[i];
    }
    if i: nat :| i < |rules| && hits[i] && rules[i].rule.action == action {
      assert rules[i] in Listed(rules);
    }
  }

  lemma ActionOfDecision(rules: seq<LiveRule>, input: FileInput, urlHost: string -> string, d: FileDecision)
    requires IsDecision(rules, Hits(rules, input, urlHost), d)
    ensures d.action == DecidedAction(Listed(rules), input, urlHost)
  {
    var hits := Hits(rules, input, urlHost);
    SomeMatchIsHit(rules, DENY, input, urlHost);
    SomeMatchIsHit(rules, QUARANTINE, input, urlHost);
    SomeMatchIsHit(rules, AUTO_RELEASE, input, urlHost);
    if d != FAIL_CLOSED {
      var i: nat :| i < |rules| && IsFirstStrictest(rules, hits, |rules|, i) && d == DecisionOf(rules[i]);
      SomeMatchIsHit(rules, rules[i].rule.action, input, urlHost);
    }
  }

  lemma DecidingRule(rules: seq<LiveRule>, hits: seq<bool>, d: FileDecision)
    requires |rules| == |hits| && IsDecision(rules, hits, d) && d != FAIL_CLOSED
    ensures exists r <- Listed(rules) :: d == DecisionOf(r)
  {
    var i: nat :| i < |rules| && IsFirstStrictest(rules, hits, |rules|, i) && d == DecisionOf(rules[i]);
    assert rules[i] in Listed(rules);
  }

  /** Neither the order in which the query lists the rules nor how often it lists one matters. */
  lemma ActionIgnoresOrder(a: seq<LiveRule>, b: seq<LiveRule>, input: FileInput, urlHost: string -> string, d: FileDecision, e: FileDecision)
    requires forall r :: r in a <==> r in b
    requires IsDecision(a, Hits(a, input, urlHost), d) && IsDecision(b, Hits(b, input, urlHost), e)
    ensures d.action == e.action
  {
    ActionOfDecision(a, input, urlHost, d);
    ActionOfDecision(b, input, urlHost, e);
    assert Listed(a) == Listed(b);
  }

  /** A release needs a rule that asks for it, and no stricter rule that matches. */
  lemma AutoReleaseExactly(live: set<LiveRule>, input: FileInput, urlHost: string -> string)
    ensures DecidedAction(live, input, urlHost) == AUTO_RELEASE <==>
              && (exists r <- live :: r.rule.action == AUTO_RELEASE && Matches(r.rule, input, urlHost))
              && (forall r <- live :: Matches(r.rule, input, urlHost) ==> r.rule.action == AUTO_RELEASE)
  {
    if forall r <- live :: Matches(r.rule, input, urlHost) ==> r.rule.action == AUTO_RELEASE {
      assert !SomeMatch(live, DENY, input, urlHost) && !SomeMatch(live, QUARANTINE, input, urlHost);
    }
    forall r <- live | Matches(r.rule, input, urlHost) ensures SomeMatch(live, r.rule.action, input, urlHost) {
    }
  }

  // -- Which rules apply, in terms of the file ----------------------------------------------------------

  /** The pattern fits the value that is there. */
  predicate Fits(value: Option<string>, pattern: string) {
    value.Some? && MatchesMimePattern(value, pattern)
  }

  /** The host has a name, and its labels are those of the pattern, or end with those after its star. */
  predicate ComesFrom(source: Option<string>, pattern: string, urlHost: string -> string) {
    source.Some? && source.value != "" &&
    var host, pat := NormalizeHostname(source.value, urlHost), NormalizePattern(pattern);
    && host != "" && pat != ""
    && (if Labels(pat)[0] == "*" && |Labels(pat)| > 1 then IsLabelSuffix(Labels(pat)[1..], Labels(host))
        else Labels(host) == Labels(pat))
  }

  /** A MIME rule that denies or quarantines applies to the detected type, the declared type or the extension. */
  lemma StrictMimeRuleApplies(rule: FileRule, input: FileInput, urlHost: string -> string)
    requires rule.ruleType == MIME && rule.action in {DENY, QUARANTINE}
    ensures Matches(rule, input, urlHost) <==>
              Fits(input.detectedMime, rule.pattern) || Fits(input.declaredMime, rule.pattern) || Fits(input.extension, rule.pattern)
  {
  }

  /** A MIME rule that releases applies to the detected type only. */
  lemma ReleasingMimeRuleApplies(rule: FileRule, input: FileInput, urlHost: string -> string)
    requires rule.ruleType == MIME && rule.action == AUTO_RELEASE
    ensures Matches(rule, input, urlHost) <==> Fits(input.detectedMime, rule.pattern)
  {
  }

  /** A SOURCE rule applies to the host the file came from, whatever its action. */
  lemma SourceRuleApplies(rule: FileRule, input: FileInput, urlHost: string -> string)
    requires rule.ruleType == SOURCE
    ensures Matches(rule, input, urlHost) <==> ComesFrom(input.sourceHostname, rule.pattern, urlHost)
  {
    if input.sourceHostname.Some? {
      MatchesWholeLabels(input.sourceHostname.value, rule.pattern, urlHost);
    }
  }

  predicate Applies(rule: FileRule, input: FileInput, urlHost: string -> string) {
    match rule.ruleType
    case SOURCE => ComesFrom(input.sourceHostname, rule.pattern, urlHost)
    case MIME =>
      match rule.action
      case AUTO_RELEASE => Fits(input.detectedMime, rule.pattern)
      case DENY | QUARANTINE =>
        Fits(input.detectedMime, rule.pattern) || Fits(input.declaredMime, rule.pattern) || Fits(input.extension, rule.pattern)
  }

  lemma MatchesIffApplies(rule: FileRule, input: FileInput, urlHost: string -> string)
    ensures Matches(rule, input, urlHost) <==> Applies(rule, input, urlHost)
  {
    if rule.ruleType == SOURCE {
      SourceRuleApplies(rule, input, urlHost);
    } else if rule.action == AUTO_RELEASE {
      ReleasingMimeRuleApplies(rule, input, urlHost);
    } else {
      StrictMimeRuleApplies(rule, input, urlHost);
    }
  }

  ghost predicate SomeApplies(live: set<LiveRule>, action: FileAction, input: FileInput, urlHost: string -> string) {
    exists r <- live :: r.rule.action == action && Applies(r.rule, input, urlHost)
  }

  lemma SomeMatchIffSomeApplies(live: set<LiveRule>, action: FileAction, input: FileInput, urlHost: string -> string)
    ensures SomeMatch(live, action, input, urlHost) <==> SomeApplies(live, action, input, urlHost)
  {
    forall r <- live ensures Matches(r.rule, input, urlHost) <==> Applies(r.rule, input, urlHost) {
      MatchesIffApplies(r.rule, input, urlHost);
    }
  }

  /**
   The decision in terms of which rules apply: denied iff some DENY rule does, released iff some AUTO_RELEASE
   rule does and no other, and quarantined in every remaining case.
   */
  lemma DecidedExactly(live: set<LiveRule>, input: FileInput, urlHost: string -> string)
    ensures var action := DecidedAction(live, input, urlHost);
            var denied, held := SomeApplies(live, DENY, input, urlHost), SomeApplies(live, QUARANTINE, input, urlHost);
            && (action == DENY <==> denied)
            && (action == AUTO_RELEASE <==> SomeApplies(live, AUTO_RELEASE, input, urlHost) && !denied && !held)
            && (action == QUARANTINE <==> !denied && (held || !SomeApplies(live, AUTO_RELEASE, input, urlHost)))
  {
    SomeMatchIffSomeApplies(live, DENY, input, urlHost);
    SomeMatchIffSomeApplies(live, QUARANTINE, input, urlHost);
    SomeMatchIffSomeApplies(live, AUTO_RELEASE, input, urlHost);
  }

  /** `more` tells what `less` tells, and may add an extension or a declared type where there was none. */
  predicate Discloses(less: FileInput, more: FileInput) {
    && more.detectedMime == less.detectedMime && more.sourceHostname == less.sourceHostname
    && (less.declaredMime.Some? ==> more.declaredMime == less.declaredMime)
    && (less.extension.Some? ==> more.extension == less.extension)
  }

  /** What the sender controls can only keep or raise the strictness; in particular it never releases. */
  lemma SenderFieldsNeverLoosen(live: set<LiveRule>, less: FileInput, more: FileInput, urlHost: string -> string)
    requires Discloses(less, more)
    ensures Strictness(DecidedAction(live, less, urlHost)) <= Strictness(DecidedAction(live, more, urlHost))
    ensures DecidedAction(live, more, urlHost) == AUTO_RELEASE ==> DecidedAction(live, less, urlHost) == AUTO_RELEASE
  {
    forall r <- live
      ensures Matches(r.rule, less, urlHost) ==> Matches(r.rule, more, urlHost)
      ensures r.rule.action == AUTO_RELEASE ==> (Matches(r.rule, less, urlHost) <==> Matches(r.rule, more, urlHost))
    {
    }
    SomeMatchGrows(live, DENY, less, more, urlHost);
    SomeMatchGrows(live, QUARANTINE, less, more, urlHost);
    assert SomeMatch(live, AUTO_RELEASE, less, urlHost) <==> SomeMatch(live, AUTO_RELEASE, more, urlHost);
  }

  lemma SomeMatchGrows(live: set<LiveRule>, action: FileAction, less: FileInput, more: FileInput, urlHost: string -> string)
    requires forall r <- live :: Matches(r.rule, less, urlHost) ==> Matches(r.rule, more, urlHost)
    ensures SomeMatch(live, action, less, urlHost) ==> SomeMatch(live, action, more, urlHost)
  {
  }

  /** The rule behind a release matches whatever the sender says. */
  lemma ReleasingRule(live: set<LiveRule>, input: FileInput, urlHost: string -> string) returns (r: LiveRule)
    requires DecidedAction(live, input, urlHost) == AUTO_RELEASE
    ensures r in live && r.rule.action == AUTO_RELEASE
    ensures Matches(r.rule, input.(declaredMime := None, extension := None), urlHost)
  {
    r :| r in live && r.rule.action == AUTO_RELEASE && Matches(r.rule, input, urlHost);
  }

  ghost predicate AnyMatch(live: set<LiveRule>, input: FileInput, urlHost: string -> string) {
    exists r <- live :: Matches(r.rule, input, urlHost)
  }

  /** Groups combine conservatively: of two groups with a say, the stricter one decides; a silent one changes nothing. */
  lemma GroupsCombine(a: set<LiveRule>, b: set<LiveRule>, input: FileInput, urlHost: string -> string)
    ensures AnyMatch(a, input, urlHost) && AnyMatch(b, input, urlHost) ==>
              Strictness(DecidedAction(a + b, input, urlHost)) ==
                if Strictness(DecidedAction(a, input, urlHost)) >= Strictness(DecidedAction(b, input, urlHost))
                then Strictness(DecidedAction(a, input, urlHost)) else Strictness(DecidedAction(b, input, urlHost))
    ensures !AnyMatch(b, input, urlHost) ==> DecidedAction(a + b, input, urlHost) == DecidedAction(a, input, urlHost)
  {
    forall x: FileAction
      ensures SomeMatch(a + b, x, input, urlHost) <==> SomeMatch(a, x, input, urlHost) || SomeMatch(b, x, input, urlHost)
    {
      if SomeMatch(a, x, input, urlHost) {
        var r :| r in a && r.rule.action == x && Matches(r.rule, input, urlHost);
        assert r in a + b;
      }
      if SomeMatch(b, x, input, urlHost) {
        var r :| r in b && r.rule.action == x && Matches(r.rule, input, urlHost);
        assert r in a + b;
      }
    }
    SomeMatchAny(a, input, urlHost);
    SomeMatchAny(b, input, urlHost);
  }

  lemma SomeMatchAny(live: set<LiveRule>, input: FileInput, urlHost: string -> string)
    ensures AnyMatch(live, input, urlHost) <==>
              SomeMatch(live, DENY, input, urlHost) || SomeMatch(live, QUARANTINE, input, urlHost) || SomeMatch(live, AUTO_RELEASE, input, urlHost)
  {
    if AnyMatch(live, input, urlHost) {
      var r :| r in live && Matches(r.rule, input, urlHost);
      assert SomeMatch(live, r.rule.action, input, urlHost);
    }
  }

  /** The rules the validator refuses: an extension pattern that asks for a release. */
  predicate IsDeadRule(rule: FileRule) {
    rule.ruleType == MIME && rule.action == AUTO_RELEASE && IsExtensionPattern(rule.pattern)
  }

  /** Such a rule matches exactly the files whose detected type is its pattern but for case, blanks and dots. */
  lemma DeadRuleMatchesExactly(rule: FileRule, input: FileInput, urlHost: string -> string)
    requires IsDeadRule(rule)
    ensures Matches(rule, input, urlHost) <==>
              input.detectedMime.Some? && BareName(input.detectedMime.value) == BareName(rule.pattern)
  {
    if input.detectedMime.Some? {
      ExtensionMatchesExactly(input.detectedMime.value, rule.pattern);
    }
  }

  /** It does nothing to files with a detected MIME type iff its pattern has no slash. */
  lemma DeadRulesNeverMatch(rule: FileRule, urlHost: string -> string)
    requires IsDeadRule(rule)
    ensures (forall input: FileInput | input.detectedMime.Some? && '/' in input.detectedMime.value :: !Matches(rule, input, urlHost))
              <==> '/' !in rule.pattern
  {
    ExtensionMatchesMimeTypeIff(rule.pattern);
    if '/' in rule.pattern {
      var value :| '/' in value && MatchesMimePattern(Some(value), rule.pattern);
      assert Matches(rule, FileInput(None, Some(value), None, 0, None), urlHost);
    }
  }

  /** A refused rule that would have released a file. */
  lemma DeadRuleReleases(urlHost: string -> string)
    ensures var rule := FileRule(0, MIME, ".a/b", AUTO_RELEASE, 100);
            var input := FileInput(None, Some("a/b"), None, 0, None);
            IsDeadRule(rule) && DecidedAction({LiveRule(rule, 0)}, input, urlHost) == AUTO_RELEASE
  {
    DottedMimeTypeMatches();
    var rule := LiveRule(FileRule(0, MIME, ".a/b", AUTO_RELEASE, 100), 0);
    assert Matches(rule.rule, FileInput(None, Some("a/b"), None, 0, None), urlHost);
    assert rule in {rule};
  }

  /** A refused rule is a MIME rule that releases and whose first character that is not blank is a dot. */
  lemma DeadRuleExactly(rule: FileRule) returns (from: nat)
    ensures from <= |rule.pattern| && (forall i | 0 <= i < from :: IsSpace(rule.pattern[i]))
            && (from < |rule.pattern| ==> !IsSpace(rule.pattern[from]))
    ensures IsDeadRule(rule) <==>
              rule.ruleType == MIME && rule.action == AUTO_RELEASE && from < |rule.pattern| && rule.pattern[from] == '.'
  {
    from := ExtensionPatternExactly(rule.pattern);
  }

  // -- Screen size -------------------------------------------------------------------------------------

  datatype Resolution = Resolution(width: int, height: int)

  const DEFAULT_RESOLUTION: Resolution := Resolution(1280, 800)

  function Asked(c: Content): Option<Resolution> {
    if c.Object? && c.screenWidth.Some? && c.screenHeight.Some? && c.screenWidth.value > 0 && c.screenHeight.value > 0
    then Some(Resolution(c.screenWidth.value, c.screenHeight.value)) else None
  }

  function Area(r: Resolution): int {
    r.width * r.height
  }

  /** Content `i` is the first of those with the smallest area. */
  ghost predicate IsFirstSmallest(contents: seq<Content>, i: nat)
    requires i < |contents|
  {
    && Asked(contents[i]).Some?
    && (forall j: nat | j < |contents| && Asked(contents[j]).Some? :: Area(Asked(contents[i]).value) <= Area(Asked(contents[j]).value))
    && (forall j: nat | j < i && Asked(contents[j]).Some? :: Area(Asked(contents[i]).value) < Area(Asked(contents[j]).value))
  }

  ghost predicate IsResolution(contents: seq<Content>, r: Resolution) {
    || (r == DEFAULT_RESOLUTION && forall c <- contents :: Asked(c).None?)
    || (exists i: nat | i < |contents| :: IsFirstSmallest(contents, i) && Asked(contents[i]) == Some(r))
  }

  /** `resolve_session_resolution`: the first of the smallest areas any valid policy asks for. */
  method ResolveSessionResolution(contents: seq<Content>) returns (r: Resolution)
    ensures IsResolution(contents, r)
  {
    var best: Option<Resolution> := None;
    ghost var at: nat := 0;
    for i := 0 to |contents|
      invariant best.None? ==> forall j: nat | j < i :: Asked(contents[j]).None?
      invariant best.Some? ==> at < i && IsFirstSmallest(contents[..i], at) && Asked(contents[at]) == best
    {
      var asked := Asked(contents[i]);
      if asked.Some? && (best.None? || Area(asked.value) < Area(best.value)) {
        best := asked;
        at := i;
      }
    }
    assert contents[..|contents|] == contents;
    r := if best.Some? then best.value else DEFAULT_RESOLUTION;
  }

  /** The area, unlike the shape, does not depend on the order in which the policies are listed. */
  lemma AreaIgnoresOrder(a: seq<Content>, b: seq<Content>, r: Resolution, q: Resolution)
    requires (forall c :: c in a <==> c in b) && IsResolution(a, r) && IsResolution(b, q)
    ensures Area(r) == Area(q)
  {
    if i: nat :| i < |a| && IsFirstSmallest(a, i) && Asked(a[i]) == Some(r) {
      assert a[i] in b;
      var j: nat :| j < |b| && IsFirstSmallest(b, j) && Asked(b[j]) == Some(q);
      assert b[j] in a;
    } else if j: nat :| j < |b| && IsFirstSmallest(b, j) && Asked(b[j]) == Some(q) {
      assert b[j] in a;
    }
  }

  /** The resolved size in terms of the settings: of those with both sides positive, one with the least area. */
  lemma ResolutionExactly(contents: seq<Content>, r: Resolution)
    requires IsResolution(contents, r)
    ensures r.width > 0 && r.height > 0
    ensures || (exists c <- contents :: c.Object? && c.screenWidth == Some(r.width) && c.screenHeight == Some(r.height))
            || (r == Resolution(1280, 800)
                && forall c <- contents :: c.Object? && c.screenWidth.Some? && c.screenHeight.Some?
                                           ==> c.screenWidth.value <= 0 || c.screenHeight.value <= 0)
    ensures forall c <- contents | c.Object? && c.screenWidth.Some? && c.screenHeight.Some?
                                   && c.screenWidth.value > 0 && c.screenHeight.value > 0 ::
              r.width * r.height <= c.screenWidth.value * c.screenHeight.value
  {
    if i: nat :| i < |contents| && IsFirstSmallest(contents, i) && Asked(contents[i]) == Some(r) {
      assert contents[i] in contents;
      forall c <- contents | Asked(c).Some? ensures Area(r) <= Area(Asked(c).value) {
        var j: nat :| j < |contents| && contents[j] == c;
      }
    }
  }
}
