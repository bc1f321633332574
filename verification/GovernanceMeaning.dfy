/** What an observation of branch protection says, in terms of the JSON it was made from
    (src/researchctl/adapters/github_governance.py). */
module GovernanceMeaning {
  import opened Wrappers
  import opened Ordering
  import opened GovernanceFold

  // ----- Membership in what is read -----

  lemma {:induction false} InFlatten(items: seq<Json>, read: Json -> seq<Signal>, x: Signal)
    ensures x in Flatten(items, read) <==> exists j <- items :: x in read(j)
  {
    if items != [] {
      InFlatten(items[1..], read, x);
      assert items == [items[0]] + items[1..];
    }
  }

  /** The items of a JSON array that a field holds; none when it holds something else. */
  function Items(fields: map<string, Json>, name: string): seq<Json> {
    if name in fields && fields[name].Array? then fields[name].items else []
  }

  lemma InEach(fields: map<string, Json>, name: string, read: Json -> seq<Signal>, x: Signal)
    requires !x.Bad?
    ensures x in Each(Field(fields, name, Array([])), read) <==> exists j <- Items(fields, name) :: x in read(j)
  {
    InFlatten(Items(fields, name), read, x);
  }

  lemma {:induction false} InRulesets(rulesets: seq<Ruleset>, x: Signal)
    ensures x in ReadRulesets(rulesets) <==> exists r <- rulesets :: x in ReadRuleset(r)
  {
    hide ReadRuleset;
    if rulesets != [] {
      InRulesets(rulesets[..|rulesets| - 1], x);
      assert rulesets == rulesets[..|rulesets| - 1] + [rulesets[|rulesets| - 1]];
    }
  }

  /** A label for an actor that bypasses a ruleset. */
  ghost predicate ActorIs(j: Json, shown: string) {
    j.Object? && exists kind: string, id: int, mode: string ::
      && shown == kind + ":" + Decimal(id) + ":" + mode
      && kind != "" && id >= 1 && mode != ""
      && Field(j.fields, "actor_type", Null) == Text(kind) && Field(j.fields, "actor_id", Null) == Int(id)
      && Field(j.fields, "bypass_mode", Null) == Text(mode)
  }

  lemma ActorReads(j: Json, x: Signal)
    requires !x.Bad?
    ensures x in ReadActor(j) <==> x.Bypass? && ActorIs(j, x.actor)
  {
    hide Decimal;
    if x in ReadActor(j) {
      var kind, id, mode := Field(j.fields, "actor_type", Null), Field(j.fields, "actor_id", Null),
        Field(j.fields, "bypass_mode", Null);
      assert x.actor == kind.s + ":" + Decimal(id.n) + ":" + mode.s;
    }
  }

  ghost predicate ContextIs(j: Json, context: string) {
    j == Text(context) && context != ""
  }

  ghost predicate CheckIs(j: Json, context: string) {
    j.Object? && Field(j.fields, "context", Null) == Text(context) && context != ""
  }

  lemma CheckReads(j: Json, x: Signal)
    requires !x.Bad?
    ensures x in ReadContext(j) <==> x.Check? && ContextIs(j, x.context)
    ensures x in ReadCheck(j) <==> x.Check? && CheckIs(j, x.context)
  {
  }

  /** A rule requires a check exactly when it is a rule of that type that lists it. */
  lemma RuleChecks(rule: Json, context: string)
    ensures Check(context) in ReadRule(rule) <==>
      HasRule(rule, "required_status_checks")
      && exists j <- Items(Parameters(rule), "required_status_checks") :: CheckIs(j, context)
  {
    InEach(Parameters(rule), "required_status_checks", ReadCheck, Check(context));
    forall j ensures Check(context) in ReadCheck(j) <==> CheckIs(j, context) {
      CheckReads(j, Check(context));
    }
    hide Each, ReadCheck, CheckIs;
  }

  /** Nothing but its own type makes a rule name sources or actors. */
  lemma RuleNamesNobody(rule: Json, x: Signal)
    requires x.Source? || x.Bypass?
    ensures x !in ReadRule(rule)
  {
    InEach(Parameters(rule), "required_status_checks", ReadCheck, x);
    forall j ensures x !in ReadCheck(j) {
      CheckReads(j, x);
    }
    hide Each, ReadCheck;
  }

  function RulesOf(r: Ruleset): seq<Json> {
    Items(r, "rules")
  }

  /** What a ruleset says, its rules, actors and id apart. */
  lemma RulesetReads(r: Ruleset, x: Signal)
    requires !x.Bad?
    ensures x in ReadRuleset(r) <==>
      || (x.Source? && Field(r, "id", Null).Int? && r["id"].n >= 1 && x.source == "ruleset:" + Decimal(r["id"].n))
      || (x.Bypass? && exists j <- Items(r, "bypass_actors") :: ActorIs(j, x.actor))
      || (!x.Source? && !x.Bypass? && exists rule <- RulesOf(r) :: x in ReadRule(rule))
  {
    InEach(r, "bypass_actors", ReadActor, x);
    InEach(r, "rules", ReadRule, x);
    forall j ensures x in ReadActor(j) <==> x.Bypass? && ActorIs(j, x.actor) {
      ActorReads(j, x);
    }
    if x.Source? || x.Bypass? {
      forall j ensures x !in ReadRule(j) {
        RuleNamesNobody(j, x);
      }
    }
    hide Each, ReadActor, ReadRule, ActorIs, Decimal;
  }

  // ----- Classic protection -----

  /** A switch that is on: true, or an object that says so. */
  ghost predicate IsOn(j: Json) {
    j == Bool(true) || (j.Object? && Field(j.fields, "enabled", Null) == Bool(true))
  }

  /** A switch that is off: absent, false, or an object that says so. */
  ghost predicate IsOff(j: Json) {
    j.Null? || j == Bool(false) || (j.Object? && Field(j.fields, "enabled", Null) == Bool(false))
  }

  lemma SwitchReads(j: Json)
    ensures Enabled(j) == Some(true) <==> IsOn(j)
    ensures Enabled(j) == Some(false) <==> IsOff(j)
  {
  }

  /** The values Python holds for false. */
  ghost predicate IsNothing(j: Json) {
    j in {Null, Bool(false), Int(0), Float(true), Text(""), Array([]), Object(map[])}
  }

  lemma NothingIsFalse(j: Json)
    ensures IsNothing(j) <==> !Truthy(j)
  {
  }

  /** A label for an actor that bypasses classic protection: by slug, login or name, the first
      that is not empty, or by number. */
  ghost predicate AllowanceIs(kind: string, j: Json, shown: string) {
    && j.Object?
    && var slug, login, name, id := Field(j.fields, "slug", Null), Field(j.fields, "login", Null),
         Field(j.fields, "name", Null), Field(j.fields, "id", Null);
       var identity := if !IsNothing(slug) then slug else if !IsNothing(login) then login else name;
       if identity.Text? && identity.s != "" then shown == "classic-" + kind + ":" + identity.s + ":always"
       else id.Int? && shown == "classic-" + kind + ":" + Decimal(id.n) + ":always"
  }

  lemma AllowanceReads(kind: string, j: Json, x: Signal)
    requires !x.Bad?
    ensures x in AllowanceOf(kind)(j) <==> x.Bypass? && AllowanceIs(kind, j, x.actor)
  {
    if j.Object? {
      NothingIsFalse(Field(j.fields, "slug", Null));
      NothingIsFalse(Field(j.fields, "login", Null));
    }
    hide Decimal, Truthy, IsNothing;
  }

  ghost predicate Allowed(allowances: Json, shown: string) {
    && allowances.Object?
    && ((exists j <- Items(allowances.fields, "apps") :: AllowanceIs("app", j, shown))
        || (exists j <- Items(allowances.fields, "teams") :: AllowanceIs("team", j, shown))
        || (exists j <- Items(allowances.fields, "users") :: AllowanceIs("user", j, shown)))
  }

  lemma AllowancesOfKind(fields: map<string, Json>, name: string, kind: string, x: Signal)
    requires !x.Bad?
    ensures x in Each(Field(fields, name, Array([])), AllowanceOf(kind)) <==>
      x.Bypass? && exists j <- Items(fields, name) :: AllowanceIs(kind, j, x.actor)
  {
    InEach(fields, name, AllowanceOf(kind), x);
    forall j ensures x in AllowanceOf(kind)(j) <==> x.Bypass? && AllowanceIs(kind, j, x.actor) {
      AllowanceReads(kind, j, x);
    }
    hide AllowanceIs, AllowanceOf, Each;
  }

  lemma AllowancesRead(j: Json, x: Signal)
    requires !x.Bad?
    ensures x in ReadAllowances(j) <==> x.Bypass? && Allowed(j, x.actor)
  {
    if j.Object? {
      AllowancesOfKind(j.fields, "apps", "app", x);
      AllowancesOfKind(j.fields, "teams", "team", x);
      AllowancesOfKind(j.fields, "users", "user", x);
    }
    hide Each, AllowanceIs, AllowanceOf;
  }

  const REVIEWS := "required_pull_request_reviews"
  const STATUSES := "required_status_checks"

  /** What the reviews section says beside its flags. */
  lemma ReviewsRead(classic: Json, x: Signal)
    requires classic.Object? && !x.Bad? && !x.Raised?
    ensures var reviews := Section(classic, REVIEWS);
      x in ReadReviews(Field(classic.fields, REVIEWS, Null)) <==>
        && Field(classic.fields, REVIEWS, Null).Object?
        && (x.Required?
            || (x.Approvals? && Field(reviews, "required_approving_review_count", Int(0)) == Int(x.count))
            || (x.Bypass? && Allowed(Field(reviews, "bypass_pull_request_allowances", Null), x.actor)))
  {
    AllowancesRead(Field(Section(classic, REVIEWS), "bypass_pull_request_allowances", Null), x);
    hide ReadAllowances, Allowed;
  }

  /** What the status section says beside its flag. */
  lemma StatusesRead(classic: Json, x: Signal)
    requires classic.Object? && !x.Bad? && !x.Raised?
    ensures var statuses := Section(classic, STATUSES);
      x in ReadStatuses(Field(classic.fields, STATUSES, Null)) <==>
        x.Check?
        && ((exists j <- Items(statuses, "contexts") :: ContextIs(j, x.context))
            || (exists j <- Items(statuses, "checks") :: CheckIs(j, x.context)))
  {
    var statuses := Section(classic, STATUSES);
    InEach(statuses, "contexts", ReadContext, x);
    InEach(statuses, "checks", ReadCheck, x);
    forall j
      ensures x in ReadContext(j) <==> x.Check? && ContextIs(j, x.context)
      ensures x in ReadCheck(j) <==> x.Check? && CheckIs(j, x.context)
    {
      CheckReads(j, x);
    }
    hide Each, ReadCheck, ReadContext, CheckIs, ContextIs;
  }

  lemma ClassicReads(classic: Json, x: Signal)
    requires classic.Object? && !x.Bad? && !x.Raised?
    ensures x in ReadClassic(classic) <==>
      || x == Source("classic")
      || x in ReadReviews(Field(classic.fields, REVIEWS, Null))
      || x in ReadStatuses(Field(classic.fields, STATUSES, Null))
      || (x == BlocksForcePush && IsOff(Field(classic.fields, "allow_force_pushes", Null)))
      || (x == BlocksDeletion && IsOff(Field(classic.fields, "allow_deletions", Null)))
  {
    SwitchReads(Field(classic.fields, "allow_force_pushes", Null));
    SwitchReads(Field(classic.fields, "allow_deletions", Null));
    hide ReadReviews, ReadStatuses, Enabled, IsOff;
  }

  // ----- From the JSON to the fields -----

  /** The fields of the classic protection; none when there is none. */
  function Classic(protection: Option<Json>): map<string, Json> {
    if protection.Some? && protection.value.Object? then protection.value.fields else map[]
  }

  function Reviews(protection: Option<Json>): map<string, Json> {
    if Field(Classic(protection), REVIEWS, Null).Object? then Classic(protection)[REVIEWS].fields else map[]
  }

  function Statuses(protection: Option<Json>): map<string, Json> {
    if Field(Classic(protection), STATUSES, Null).Object? then Classic(protection)[STATUSES].fields else map[]
  }

  /** Some ruleset has a rule of the type. */
  ghost predicate SomeRule(rulesets: seq<Ruleset>, kind: string) {
    exists r <- rulesets, rule <- RulesOf(r) :: HasRule(rule, kind)
  }

  ghost predicate SomeParameter(rulesets: seq<Ruleset>, kind: string, name: string, value: Json) {
    exists r <- rulesets, rule <- RulesOf(r) :: HasRule(rule, kind) && Field(Parameters(rule), name, Null) == value
  }

  ghost predicate ClassicFlagged(protection: Option<Json>, f: Flag) {
    Field(if f.Strict? then Statuses(protection) else Reviews(protection), ClassicField(f).1, Null) == Bool(true)
  }

  ghost predicate Flagged(protection: Option<Json>, rulesets: seq<Ruleset>, f: Flag) {
    ClassicFlagged(protection, f) || SomeParameter(rulesets, RuleField(f).0, RuleField(f).1, Bool(true))
  }

  ghost predicate ReviewsRequired(protection: Option<Json>) {
    Field(Classic(protection), REVIEWS, Null).Object?
  }

  ghost predicate PullRequestsRequired(protection: Option<Json>, rulesets: seq<Ruleset>) {
    ReviewsRequired(protection) || SomeRule(rulesets, "pull_request")
  }

  ghost predicate ClassicAsks(protection: Option<Json>, n: nat) {
    Field(Reviews(protection), "required_approving_review_count", Null) == Int(n)
  }

  ghost predicate ApprovalsAsked(protection: Option<Json>, rulesets: seq<Ruleset>, n: nat) {
    || ClassicAsks(protection, n)
    || SomeParameter(rulesets, "pull_request", "required_approving_review_count", Int(n))
  }

  ghost predicate ClassicLists(protection: Option<Json>, context: string) {
    || (exists j <- Items(Statuses(protection), "contexts") :: ContextIs(j, context))
    || (exists j <- Items(Statuses(protection), "checks") :: CheckIs(j, context))
  }

  ghost predicate SomeRuleLists(rulesets: seq<Ruleset>, context: string) {
    exists r <- rulesets, rule <- RulesOf(r) :: RuleLists(rule, context)
  }

  ghost predicate CheckListed(protection: Option<Json>, rulesets: seq<Ruleset>, context: string) {
    ClassicLists(protection, context) || SomeRuleLists(rulesets, context)
  }

  ghost predicate RuleLists(rule: Json, context: string) {
    HasRule(rule, "required_status_checks")
    && exists j <- Items(Parameters(rule), "required_status_checks") :: CheckIs(j, context)
  }

  ghost predicate ClassicAllows(protection: Option<Json>, shown: string) {
    Allowed(Field(Reviews(protection), "bypass_pull_request_allowances", Null), shown)
  }

  ghost predicate SomeActorIs(rulesets: seq<Ruleset>, shown: string) {
    exists r <- rulesets, j <- Items(r, "bypass_actors") :: ActorIs(j, shown)
  }

  ghost predicate BypassListed(protection: Option<Json>, rulesets: seq<Ruleset>, shown: string) {
    ClassicAllows(protection, shown) || SomeActorIs(rulesets, shown)
  }

  ghost predicate SourceListed(protection: Option<Json>, rulesets: seq<Ruleset>, shown: string) {
    || (protection.Some? && shown == "classic")
    || exists r <- rulesets :: RulesetIs(r, shown)
  }

  ghost predicate RulesetIs(r: Ruleset, shown: string) {
    Field(r, "id", Null).Int? && r["id"].n >= 1 && shown == "ruleset:" + Decimal(r["id"].n)
  }

  ghost predicate ClassicBlocks(protection: Option<Json>, field: string) {
    protection.Some? && IsOff(Field(Classic(protection), field, Null))
  }

  ghost predicate Blocked(protection: Option<Json>, rulesets: seq<Ruleset>, field: string, kind: string) {
    ClassicBlocks(protection, field) || SomeRule(rulesets, kind)
  }

  /** What every field of an observation means for the JSON it was made from. */
  ghost predicate Describes(o: Observation, protection: Option<Json>, rulesets: seq<Ruleset>) {
    && (o.required <==> PullRequestsRequired(protection, rulesets))
    && (forall n: nat :: ApprovalsAsked(protection, rulesets, n) ==> n <= o.approvals)
    && (o.approvals == 0 || ApprovalsAsked(protection, rulesets, o.approvals))
    && (o.codeOwner <==> Flagged(protection, rulesets, CodeOwner))
    && (o.dismissStale <==> Flagged(protection, rulesets, DismissStale))
    && (o.lastPush <==> Flagged(protection, rulesets, LastPush))
    && (o.strict <==> Flagged(protection, rulesets, Strict))
    && (o.forcePushBlocked <==> Blocked(protection, rulesets, "allow_force_pushes", "non_fast_forward"))
    && (o.deletionBlocked <==> Blocked(protection, rulesets, "allow_deletions", "deletion"))
    && Ascending(o.sources) && (forall x :: x in o.sources <==> SourceListed(protection, rulesets, x))
    && Ascending(o.checks) && (forall x :: x in o.checks <==> CheckListed(protection, rulesets, x))
    && Ascending(o.bypass) && (forall x :: x in o.bypass <==> BypassListed(protection, rulesets, x))
    && AdminsMean(o.adminsEnforced, protection)
  }

  /** Known exactly with classic protection, and true exactly when its switch is on. */
  ghost predicate AdminsMean(admins: Option<bool>, protection: Option<Json>) {
    && (admins.Some? <==> protection.Some?)
    && (protection.Some? ==> (admins == Some(true) <==> IsOn(Field(Classic(protection), "enforce_admins", Null))))
  }

  // ----- What is accepted is well-formed -----

  lemma NothingBad(protection: Option<Json>, rulesets: seq<Ruleset>)
    requires Merged(protection, rulesets).Some?
    ensures Bad !in ReadProtection(protection) && Bad !in ReadRulesets(rulesets)
  {
    var signals := ReadProtection(protection) + ReadRulesets(rulesets);
    FoldSucceedsIff(NOTHING, signals);
    hide Fold, ReadProtection, ReadRulesets;
    forall i | 0 <= i < |signals| ensures signals[i] != Bad {
      assert ReadAt(NOTHING, signals, i);
    }
    assert Bad !in signals;
  }

  lemma GoodRules(rulesets: seq<Ruleset>, r: Ruleset, rule: Json)
    requires Bad !in ReadRulesets(rulesets) && r in rulesets && rule in RulesOf(r)
    ensures Bad !in ReadRule(rule)
  {
    InRulesets(rulesets, Bad);
    InFlatten(RulesOf(r), ReadRule, Bad);
    assert Bad !in ReadRuleset(r);
    hide ReadRule, ReadActor;
    assert Each(Field(r, "rules", Array([])), ReadRule) == Flatten(RulesOf(r), ReadRule);
  }

  lemma GoodClassic(classic: Json)
    requires Bad !in ReadClassic(classic)
    ensures classic.Object?
    ensures var reviews, statuses := Field(classic.fields, REVIEWS, Null), Field(classic.fields, STATUSES, Null);
      (reviews.Null? || reviews.Object?) && (statuses.Null? || statuses.Object?)
    ensures Enabled(Field(classic.fields, "enforce_admins", Null)).Some?
  {
    hide ReadAllowances, Each, Enabled;
  }

  ghost predicate ClassicGives(protection: Option<Json>, x: Signal) {
    protection.Some? && x in ReadClassic(protection.value)
  }

  ghost predicate RulesetsGive(rulesets: seq<Ruleset>, x: Signal) {
    exists r <- rulesets :: x in ReadRuleset(r)
  }

  ghost predicate SomeRuleGives(rulesets: seq<Ruleset>, x: Signal) {
    exists r <- rulesets, rule <- RulesOf(r) :: x in ReadRule(rule)
  }

  lemma InSignals(protection: Option<Json>, rulesets: seq<Ruleset>, x: Signal)
    ensures x in ReadProtection(protection) + ReadRulesets(rulesets) <==>
      ClassicGives(protection, x) || RulesetsGive(rulesets, x)
  {
    InRulesets(rulesets, x);
    hide ReadClassic, ReadRulesets;
  }

  /** Signals that rules give. */
  lemma InRules(rulesets: seq<Ruleset>, x: Signal)
    requires !x.Bad? && !x.Source? && !x.Bypass?
    ensures RulesetsGive(rulesets, x) <==> SomeRuleGives(rulesets, x)
  {
    forall r <- rulesets
      ensures x in ReadRuleset(r) <==> exists rule <- RulesOf(r) :: x in ReadRule(rule)
    {
      RulesetReads(r, x);
    }
    hide ReadRuleset, ReadRule, RulesOf;
  }

  /** What classic protection gives beside its flags. */
  lemma InClassic(protection: Option<Json>, x: Signal)
    requires !x.Bad? && !x.Raised? && Bad !in ReadProtection(protection)
    ensures ClassicGives(protection, x) <==>
      || (protection.Some? && x == Source("classic"))
      || (ReviewsRequired(protection) && x.Required?)
      || (x.Approvals? && ReviewsRequired(protection)
          && Field(Reviews(protection), "required_approving_review_count", Int(0)) == Int(x.count))
      || (x.Bypass? && ClassicAllows(protection, x.actor))
      || (x.Check? && ClassicLists(protection, x.context))
      || (x == BlocksForcePush && ClassicBlocks(protection, "allow_force_pushes"))
      || (x == BlocksDeletion && ClassicBlocks(protection, "allow_deletions"))
  {
    if protection.Some? {
      var classic := protection.value;
      GoodClassic(classic);
      ClassicReads(classic, x);
      ReviewsRead(classic, x);
      StatusesRead(classic, x);
    }
    hide ReadReviews, ReadStatuses, ReadClassic, IsOff, Allowed, ContextIs, CheckIs, Enabled;
  }

  lemma ClassicFlags(protection: Option<Json>, f: Flag)
    requires Bad !in ReadProtection(protection)
    ensures ClassicGives(protection, Raised(f, Some(true))) <==> ClassicFlagged(protection, f)
  {
    if protection.Some? {
      assert Bad !in ReadClassic(protection.value);
      hide ReadClassic, Enabled;
      GoodClassic(protection.value);
      ClassicMeans(protection.value, f);
      FlagField(protection, f);
      hide Section, ClassicField, Reviews, Statuses;
    }
  }

  lemma FlagField(protection: Option<Json>, f: Flag)
    requires protection.Some? && protection.value.Object?
    ensures Section(protection.value, ClassicField(f).0) ==
      if f.Strict? then Statuses(protection) else Reviews(protection)
  {
  }

  lemma RuleFlags(rulesets: seq<Ruleset>, f: Flag)
    ensures RulesetsGive(rulesets, Raised(f, Some(true))) <==>
      SomeParameter(rulesets, RuleField(f).0, RuleField(f).1, Bool(true))
  {
    var x := Raised(f, Some(true));
    InRules(rulesets, x);
    hide RulesetsGive, ReadRule, RulesOf, Parameters, HasRule, RuleField;
    forall rule
      ensures x in ReadRule(rule) <==>
        HasRule(rule, RuleField(f).0) && Field(Parameters(rule), RuleField(f).1, Null) == Bool(true)
    {
      RuleRaises(rule, f);
    }
  }

  lemma FlagsDescribed(protection: Option<Json>, rulesets: seq<Ruleset>, f: Flag)
    requires Merged(protection, rulesets).Some?
    ensures Raised(f, Some(true)) in ReadProtection(protection) + ReadRulesets(rulesets) <==>
      Flagged(protection, rulesets, f)
  {
    hide Merged, ReadProtection, ReadRulesets, ClassicGives, RulesetsGive, ClassicFlagged, SomeParameter, RuleField;
    NothingBad(protection, rulesets);
    InSignals(protection, rulesets, Raised(f, Some(true)));
    ClassicFlags(protection, f);
    RuleFlags(rulesets, f);
  }

  lemma RulesRequire(rulesets: seq<Ruleset>)
    requires Bad !in ReadRulesets(rulesets)
    ensures RulesetsGive(rulesets, Required) <==> SomeRule(rulesets, "pull_request")
  {
    hide *;
    InRules(rulesets, Required);
    if SomeRuleGives(rulesets, Required) {
      var r, rule := GivingRule(rulesets, Required);
      RuleRequires(rulesets, r, rule);
      RuleOfKind(rulesets, r, rule, "pull_request");
    }
    if SomeRule(rulesets, "pull_request") {
      var r, rule := KindOfRule(rulesets, "pull_request");
      RuleRequires(rulesets, r, rule);
      RuleGives(rulesets, r, rule, Required);
    }
  }

  lemma GivingRule(rulesets: seq<Ruleset>, x: Signal) returns (r: Ruleset, rule: Json)
    requires SomeRuleGives(rulesets, x)
    ensures r in rulesets && rule in RulesOf(r) && x in ReadRule(rule)
  {
    hide ReadRule, RulesOf;
    r, rule :| r in rulesets && rule in RulesOf(r) && x in ReadRule(rule);
  }

  lemma RuleGives(rulesets: seq<Ruleset>, r: Ruleset, rule: Json, x: Signal)
    requires r in rulesets && rule in RulesOf(r) && x in ReadRule(rule)
    ensures SomeRuleGives(rulesets, x)
  {
    hide ReadRule, RulesOf;
  }

  lemma KindOfRule(rulesets: seq<Ruleset>, kind: string) returns (r: Ruleset, rule: Json)
    requires SomeRule(rulesets, kind)
    ensures r in rulesets && rule in RulesOf(r) && HasRule(rule, kind)
  {
    hide HasRule, RulesOf;
    r, rule :| r in rulesets && rule in RulesOf(r) && HasRule(rule, kind);
  }

  lemma RuleOfKind(rulesets: seq<Ruleset>, r: Ruleset, rule: Json, kind: string)
    requires r in rulesets && rule in RulesOf(r) && HasRule(rule, kind)
    ensures SomeRule(rulesets, kind)
  {
    hide HasRule, RulesOf;
  }

  /** A rule of an accepted listing asks for pull requests exactly by its type. */
  lemma RuleRequires(rulesets: seq<Ruleset>, r: Ruleset, rule: Json)
    requires Bad !in ReadRulesets(rulesets) && r in rulesets && rule in RulesOf(r)
    ensures Required in ReadRule(rule) <==> HasRule(rule, "pull_request")
  {
    hide *;
    GoodRules(rulesets, r, rule);
    RuleBlocks(rule);
  }

  lemma RulesBlock(rulesets: seq<Ruleset>)
    ensures RulesetsGive(rulesets, BlocksForcePush) <==> SomeRule(rulesets, "non_fast_forward")
    ensures RulesetsGive(rulesets, BlocksDeletion) <==> SomeRule(rulesets, "deletion")
  {
    InRules(rulesets, BlocksForcePush);
    InRules(rulesets, BlocksDeletion);
    hide RulesetsGive, ReadRule, RulesOf, HasRule;
    forall rule
      ensures BlocksForcePush in ReadRule(rule) <==> HasRule(rule, "non_fast_forward")
      ensures BlocksDeletion in ReadRule(rule) <==> HasRule(rule, "deletion")
    {
      RuleBlocks(rule);
    }
  }

  lemma PlainDescribed(protection: Option<Json>, rulesets: seq<Ruleset>)
    requires Merged(protection, rulesets).Some?
    ensures var signals := ReadProtection(protection) + ReadRulesets(rulesets);
      && (Required in signals <==> PullRequestsRequired(protection, rulesets))
      && (BlocksForcePush in signals <==> Blocked(protection, rulesets, "allow_force_pushes", "non_fast_forward"))
      && (BlocksDeletion in signals <==> Blocked(protection, rulesets, "allow_deletions", "deletion"))
  {
    hide Merged, ReadProtection, ReadRulesets, ClassicGives, RulesetsGive, ReviewsRequired, ClassicBlocks, SomeRule;
    NothingBad(protection, rulesets);
    InSignals(protection, rulesets, Required);
    InSignals(protection, rulesets, BlocksForcePush);
    InSignals(protection, rulesets, BlocksDeletion);
    InClassic(protection, Required);
    InClassic(protection, BlocksForcePush);
    InClassic(protection, BlocksDeletion);
    RulesRequire(rulesets);
    RulesBlock(rulesets);
  }

  lemma RulesAsk(rulesets: seq<Ruleset>, n: nat)
    requires n > 0
    ensures RulesetsGive(rulesets, Approvals(n)) <==>
      SomeParameter(rulesets, "pull_request", "required_approving_review_count", Int(n))
  {
    InRules(rulesets, Approvals(n));
    hide RulesetsGive, ReadRule, RulesOf, HasRule, Parameters;
    forall rule
      ensures Approvals(n) in ReadRule(rule) <==>
        HasRule(rule, "pull_request") && Field(Parameters(rule), "required_approving_review_count", Null) == Int(n)
    {
      RuleCounts(rule, n);
    }
  }

  lemma ApprovalsDescribed(protection: Option<Json>, rulesets: seq<Ruleset>, n: nat)
    requires Merged(protection, rulesets).Some? && n > 0
    ensures Approvals(n) in ReadProtection(protection) + ReadRulesets(rulesets) <==>
      ApprovalsAsked(protection, rulesets, n)
  {
    hide Merged, ReadProtection, ReadRulesets, ClassicGives, RulesetsGive, SomeParameter;
    NothingBad(protection, rulesets);
    InSignals(protection, rulesets, Approvals(n));
    InClassic(protection, Approvals(n));
    RulesAsk(rulesets, n);
  }

  lemma RulesList(rulesets: seq<Ruleset>, context: string)
    ensures RulesetsGive(rulesets, Check(context)) <==> SomeRuleLists(rulesets, context)
  {
    InRules(rulesets, Check(context));
    hide RulesetsGive, ReadRule, RulesOf, RuleLists;
    forall rule ensures Check(context) in ReadRule(rule) <==> RuleLists(rule, context) {
      RuleListed(rule, context);
    }
  }

  lemma RuleListed(rule: Json, context: string)
    ensures Check(context) in ReadRule(rule) <==> RuleLists(rule, context)
  {
    RuleChecks(rule, context);
    hide ReadRule, HasRule, Items, Parameters, CheckIs;
  }

  lemma ChecksDescribed(protection: Option<Json>, rulesets: seq<Ruleset>, context: string)
    requires Merged(protection, rulesets).Some?
    ensures Check(context) in ReadProtection(protection) + ReadRulesets(rulesets) <==>
      CheckListed(protection, rulesets, context)
  {
    hide Merged, ReadProtection, ReadRulesets, ClassicGives, RulesetsGive, ClassicLists, SomeRuleLists;
    NothingBad(protection, rulesets);
    InSignals(protection, rulesets, Check(context));
    InClassic(protection, Check(context));
    RulesList(rulesets, context);
  }

  lemma RulesetsName(rulesets: seq<Ruleset>, shown: string)
    ensures RulesetsGive(rulesets, Bypass(shown)) <==> SomeActorIs(rulesets, shown)
    ensures RulesetsGive(rulesets, Source(shown)) <==> exists r <- rulesets :: RulesetIs(r, shown)
  {
    hide ReadRuleset, Items, ActorIs, RulesetIs;
    forall r
      ensures Bypass(shown) in ReadRuleset(r) <==> exists j <- Items(r, "bypass_actors") :: ActorIs(j, shown)
      ensures Source(shown) in ReadRuleset(r) <==> RulesetIs(r, shown)
    {
      RulesetReads(r, Bypass(shown));
      RulesetReads(r, Source(shown));
      RulesetNamed(r, shown);
    }
  }

  lemma RulesetNamed(r: Ruleset, shown: string)
    ensures RulesetIs(r, shown) <==>
      Field(r, "id", Null).Int? && r["id"].n >= 1 && shown == "ruleset:" + Decimal(r["id"].n)
  {
  }

  lemma LabelsDescribed(protection: Option<Json>, rulesets: seq<Ruleset>, shown: string)
    requires Merged(protection, rulesets).Some?
    ensures var signals := ReadProtection(protection) + ReadRulesets(rulesets);
      && (Bypass(shown) in signals <==> BypassListed(protection, rulesets, shown))
      && (Source(shown) in signals <==> SourceListed(protection, rulesets, shown))
  {
    hide Merged, ReadProtection, ReadRulesets, ClassicGives, RulesetsGive, ClassicAllows, SomeActorIs, RulesetIs;
    NothingBad(protection, rulesets);
    InSignals(protection, rulesets, Bypass(shown));
    InSignals(protection, rulesets, Source(shown));
    InClassic(protection, Bypass(shown));
    InClassic(protection, Source(shown));
    RulesetsName(rulesets, shown);
  }

  /** MAIN: every field of an observation, down to the JSON it was made from. */
  lemma ObservationDescribes(protection: Option<Json>, rulesets: seq<Ruleset>)
    requires Merged(protection, rulesets).Some?
    ensures Describes(Observed(Merged(protection, rulesets).value, Admins(protection)), protection, rulesets)
  {
    hide *;
    var o := Observed(Merged(protection, rulesets).value, Admins(protection));
    ObservedReports(protection, rulesets);
    AdminsObserved(Merged(protection, rulesets).value, Admins(protection));
    AdminsDescribed(protection, rulesets);
    ReportsDescribe(o, protection, rulesets);
  }

  lemma AdminsObserved(st: State, admins: Option<bool>)
    ensures Observed(st, admins).adminsEnforced == admins
  {
  }

  lemma AdminsDescribed(protection: Option<Json>, rulesets: seq<Ruleset>)
    requires Merged(protection, rulesets).Some?
    ensures AdminsMean(Admins(protection), protection)
  {
    NothingBad(protection, rulesets);
    if protection.Some? {
      assert Bad !in ReadClassic(protection.value);
      GoodClassic(protection.value);
      SwitchReads(Field(protection.value.fields, "enforce_admins", Null));
    }
    hide ReadClassic, Merged, Enabled, ReadRulesets, IsOn;
  }

  lemma ReportsDescribe(o: Observation, protection: Option<Json>, rulesets: seq<Ruleset>)
    requires Merged(protection, rulesets).Some?
    requires Reports(o, ReadProtection(protection) + ReadRulesets(rulesets)) && AdminsMean(o.adminsEnforced, protection)
    ensures Describes(o, protection, rulesets)
  {
    hide Merged, ReadProtection, ReadRulesets, PullRequestsRequired, Flagged, Blocked, ApprovalsAsked, CheckListed,
      SourceListed, BypassListed, Ascending, AdminsMean, ClassicAsks, SomeParameter;
    PlainDescribed(protection, rulesets);
    FlagsDescribed(protection, rulesets, CodeOwner);
    FlagsDescribed(protection, rulesets, DismissStale);
    FlagsDescribed(protection, rulesets, LastPush);
    FlagsDescribed(protection, rulesets, Strict);
    forall n: nat | ApprovalsAsked(protection, rulesets, n) ensures n <= o.approvals {
      if n > 0 {
        ApprovalsDescribed(protection, rulesets, n);
      }
    }
    if o.approvals > 0 {
      ApprovalsDescribed(protection, rulesets, o.approvals);
    }
    ListsDescribed(o, protection, rulesets);
  }

  lemma ListsDescribed(o: Observation, protection: Option<Json>, rulesets: seq<Ruleset>)
    requires Merged(protection, rulesets).Some?
    requires Reports(o, ReadProtection(protection) + ReadRulesets(rulesets))
    ensures forall c :: c in o.checks <==> CheckListed(protection, rulesets, c)
    ensures forall x :: x in o.bypass <==> BypassListed(protection, rulesets, x)
    ensures forall x :: x in o.sources <==> SourceListed(protection, rulesets, x)
  {
    hide Merged, ReadProtection, ReadRulesets, CheckListed, SourceListed, BypassListed, Ascending;
    forall c ensures c in o.checks <==> CheckListed(protection, rulesets, c) {
      ChecksDescribed(protection, rulesets, c);
    }
    forall x
      ensures x in o.bypass <==> BypassListed(protection, rulesets, x)
      ensures x in o.sources <==> SourceListed(protection, rulesets, x)
    {
      LabelsDescribed(protection, rulesets, x);
    }
  }

  // ----- What is well-formed -----

  /** A field that holds an array or is not there. */
  predicate IsList(fields: map<string, Json>, name: string) {
    name in fields ==> fields[name].Array?
  }

  predicate IsCount(fields: map<string, Json>, name: string) {
    name in fields ==> fields[name].Int? && fields[name].n >= 0
  }

  ghost predicate IsActor(j: Json) {
    exists shown :: ActorIs(j, shown)
  }

  ghost predicate IsCheck(j: Json) {
    exists context :: CheckIs(j, context)
  }

  /** A rule of a known type has the parameters that belong to it. */
  ghost predicate WellFormedRule(rule: Json) {
    && rule.Object?
    && (HasRule(rule, "pull_request") ==>
        Field(rule.fields, "parameters", Null).Object?
        && IsCount(Parameters(rule), "required_approving_review_count"))
    && (HasRule(rule, "required_status_checks") ==>
        Field(rule.fields, "parameters", Null).Object?
        && IsList(Parameters(rule), "required_status_checks")
        && forall j <- Items(Parameters(rule), "required_status_checks") :: IsCheck(j))
  }

  ghost predicate WellFormedRuleset(r: Ruleset) {
    && Field(r, "id", Null).Int? && r["id"].n >= 1
    && IsList(r, "bypass_actors") && (forall j <- Items(r, "bypass_actors") :: IsActor(j))
    && IsList(r, "rules") && forall rule <- RulesOf(r) :: WellFormedRule(rule)
  }

  lemma BadInEach(fields: map<string, Json>, name: string, read: Json -> seq<Signal>)
    ensures Bad in Each(Field(fields, name, Array([])), read) <==>
      !IsList(fields, name) || exists j <- Items(fields, name) :: Bad in read(j)
  {
    InFlatten(Items(fields, name), read, Bad);
  }

  lemma BadActor(j: Json)
    ensures Bad in ReadActor(j) <==> !IsActor(j)
  {
    hide Decimal;
    if Bad !in ReadActor(j) {
      var shown := ReadActor(j)[0].actor;
      ActorReads(j, Bypass(shown));
    }
    if shown :| ActorIs(j, shown) {
      ActorReads(j, Bypass(shown));
    }
  }

  lemma BadCheck(j: Json)
    ensures Bad in ReadCheck(j) <==> !IsCheck(j)
    ensures Bad in ReadContext(j) <==> !exists context :: ContextIs(j, context)
  {
    if Bad !in ReadCheck(j) {
      CheckReads(j, Check(ReadCheck(j)[0].context));
    }
    if Bad !in ReadContext(j) {
      CheckReads(j, Check(ReadContext(j)[0].context));
    }
  }

  lemma BadRule(rule: Json)
    ensures Bad in ReadRule(rule) <==> !WellFormedRule(rule)
  {
    BadInEach(Parameters(rule), "required_status_checks", ReadCheck);
    forall j ensures Bad in ReadCheck(j) <==> !IsCheck(j) {
      BadCheck(j);
    }
    hide Each, ReadCheck, IsCheck;
  }

  /** MAIN: a ruleset holds something malformed, but for flags, exactly when its form is not this
      one. */
  lemma MalformedRulesetIff(r: Ruleset)
    ensures Bad in ReadRuleset(r) <==> !WellFormedRuleset(r)
  {
    BadInEach(r, "bypass_actors", ReadActor);
    BadInEach(r, "rules", ReadRule);
    forall j ensures Bad in ReadActor(j) <==> !IsActor(j) {
      BadActor(j);
    }
    forall j ensures Bad in ReadRule(j) <==> !WellFormedRule(j) {
      BadRule(j);
    }
    hide Each, ReadActor, ReadRule, IsActor, WellFormedRule, Decimal;
  }

  /** A flag is malformed exactly where its own parameter is there and no boolean. */
  lemma MalformedFlagIff(rule: Json, f: Flag)
    ensures Raised(f, None) in ReadRule(rule) <==>
      HasRule(rule, RuleField(f).0) && RuleField(f).1 in Parameters(rule) && !Parameters(rule)[RuleField(f).1].Bool?
  {
    InEach(Parameters(rule), "required_status_checks", ReadCheck, Raised(f, None));
    forall j ensures Raised(f, None) !in ReadCheck(j) {
      CheckReads(j, Raised(f, None));
    }
    hide Each, ReadCheck;
  }

  ghost predicate IsAllowance(kind: string, j: Json) {
    exists shown :: AllowanceIs(kind, j, shown)
  }

  ghost predicate WellFormedAllowances(j: Json) {
    j.Null?
    || (j.Object?
        && IsList(j.fields, "apps") && (forall i <- Items(j.fields, "apps") :: IsAllowance("app", i))
        && IsList(j.fields, "teams") && (forall i <- Items(j.fields, "teams") :: IsAllowance("team", i))
        && IsList(j.fields, "users") && (forall i <- Items(j.fields, "users") :: IsAllowance("user", i)))
  }

  ghost predicate WellFormedReviews(j: Json) {
    j.Null?
    || (j.Object?
        && IsCount(j.fields, "required_approving_review_count")
        && WellFormedAllowances(Field(j.fields, "bypass_pull_request_allowances", Null)))
  }

  ghost predicate WellFormedStatuses(j: Json) {
    j.Null?
    || (j.Object?
        && IsList(j.fields, "contexts")
        && (forall i <- Items(j.fields, "contexts") :: exists context :: ContextIs(i, context))
        && IsList(j.fields, "checks") && forall i <- Items(j.fields, "checks") :: IsCheck(i))
  }

  ghost predicate IsSwitch(j: Json) {
    IsOn(j) || IsOff(j)
  }

  ghost predicate WellFormedClassic(classic: Json) {
    && classic.Object?
    && WellFormedReviews(Field(classic.fields, REVIEWS, Null))
    && WellFormedStatuses(Field(classic.fields, STATUSES, Null))
    && IsSwitch(Field(classic.fields, "allow_force_pushes", Null))
    && IsSwitch(Field(classic.fields, "allow_deletions", Null))
    && IsSwitch(Field(classic.fields, "enforce_admins", Null))
  }

  lemma BadAllowance(kind: string, j: Json)
    ensures Bad in AllowanceOf(kind)(j) <==> !IsAllowance(kind, j)
  {
    if j.Object? {
      NothingIsFalse(Field(j.fields, "slug", Null));
      NothingIsFalse(Field(j.fields, "login", Null));
    }
    hide Decimal, Truthy, IsNothing;
    var read := AllowanceOf(kind)(j);
    if Bad !in read {
      AllowanceReads(kind, j, Bypass(read[0].actor));
    }
    if shown :| AllowanceIs(kind, j, shown) {
      AllowanceReads(kind, j, Bypass(shown));
    }
  }

  lemma BadAllowancesOfKind(fields: map<string, Json>, name: string, kind: string)
    ensures Bad in Each(Field(fields, name, Array([])), AllowanceOf(kind)) <==>
      !(IsList(fields, name) && forall i <- Items(fields, name) :: IsAllowance(kind, i))
  {
    BadInEach(fields, name, AllowanceOf(kind));
    forall j ensures Bad in AllowanceOf(kind)(j) <==> !IsAllowance(kind, j) {
      BadAllowance(kind, j);
    }
    hide AllowanceOf, Each, IsAllowance;
  }

  lemma BadAllowances(j: Json)
    ensures Bad in ReadAllowances(j) <==> !WellFormedAllowances(j)
  {
    if j.Object? {
      BadAllowancesOfKind(j.fields, "apps", "app");
      BadAllowancesOfKind(j.fields, "teams", "team");
      BadAllowancesOfKind(j.fields, "users", "user");
    }
    hide Each, AllowanceOf, IsAllowance;
  }

  lemma BadReviews(j: Json)
    ensures Bad in ReadReviews(j) <==> !WellFormedReviews(j)
  {
    if j.Object? {
      BadAllowances(Field(j.fields, "bypass_pull_request_allowances", Null));
    }
    hide ReadAllowances, WellFormedAllowances;
  }

  lemma BadStatuses(j: Json)
    ensures Bad in ReadStatuses(j) <==> !WellFormedStatuses(j)
  {
    if j.Object? {
      BadInEach(j.fields, "contexts", ReadContext);
      BadInEach(j.fields, "checks", ReadCheck);
    }
    forall i
      ensures Bad in ReadContext(i) <==> !exists context :: ContextIs(i, context)
      ensures Bad in ReadCheck(i) <==> !IsCheck(i)
    {
      BadCheck(i);
    }
    hide Each, ReadContext, ReadCheck, IsCheck, ContextIs;
  }

  /** MAIN: and so does classic protection. */
  lemma MalformedClassicIff(classic: Json)
    ensures Bad in ReadClassic(classic) <==> !WellFormedClassic(classic)
  {
    if classic.Object? {
      BadReviews(Field(classic.fields, REVIEWS, Null));
      BadStatuses(Field(classic.fields, STATUSES, Null));
      SwitchReads(Field(classic.fields, "allow_force_pushes", Null));
      SwitchReads(Field(classic.fields, "allow_deletions", Null));
      SwitchReads(Field(classic.fields, "enforce_admins", Null));
    }
    hide ReadReviews, ReadStatuses, Enabled, IsOn, IsOff, WellFormedReviews, WellFormedStatuses;
  }

  // ----- Numbers in labels -----

  function Value(s: string): int {
    if s == "" then 0 else 10 * Value(s[..|s| - 1]) + (s[|s| - 1] as int - '0' as int)
  }

  /** The decimal numeral of a number has its value, is made of digits and starts with no zero. */
  lemma {:induction false} DigitsMean(n: nat)
    ensures Value(Digits(n)) == n && Digits(n) != "" && forall i :: 0 <= i < |Digits(n)| ==> '0' <= Digits(n)[i] <= '9'
    ensures Digits(n)[0] == '0' ==> n == 0 && |Digits(n)| == 1
  {
    if n >= 10 {
      DigitsMean(n / 10);
      assert Digits(n)[..|Digits(n)| - 1] == Digits(n / 10);
    }
  }
}
