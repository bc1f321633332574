/** Merging classic branch protection and any number of rulesets into one observation
    (src/researchctl/adapters/github_governance.py). */
module GovernanceFold {
  import opened Wrappers
  import opened Ordering

  /** Decoded JSON; a number that is no integer is only told from zero. */
  datatype Json =
    | Null | Bool(b: bool) | Int(n: int) | Float(zero: bool) | Text(s: string)
    | Array(items: seq<Json>) | Object(fields: map<string, Json>)

  function Field(fields: map<string, Json>, name: string, default: Json): Json {
    if name in fields then fields[name] else default
  }

  /** Python's truth value. */
  predicate Truthy(j: Json) {
    match j
    case Null => false
    case Bool(b) => b
    case Int(n) => n != 0
    case Float(zero) => !zero
    case Text(s) => s != ""
    case Array(items) => items != []
    case Object(fields) => fields != map[]
  }

  function Digits(n: nat): string {
    (if n < 10 then "" else Digits(n / 10)) + [('0' as int + n % 10) as char]
  }

  function Decimal(n: int): string {
    if n < 0 then "-" + Digits(-n) else Digits(n)
  }

  // ----- What is collected -----

  datatype Flag = CodeOwner | DismissStale | LastPush | Strict

  datatype State = State(
    sources: set<string>, required: bool, approvals: nat, flags: set<Flag>, checks: set<string>,
    forcePushBlocked: bool, deletionBlocked: bool, bypass: set<string>)

  const NOTHING := State({}, false, 0, {}, {}, false, false, {})

  function Join(a: State, b: State): State {
    State(a.sources + b.sources, a.required || b.required,
          if a.approvals >= b.approvals then a.approvals else b.approvals,
          a.flags + b.flags, a.checks + b.checks, a.forcePushBlocked || b.forcePushBlocked,
          a.deletionBlocked || b.deletionBlocked, a.bypass + b.bypass)
  }

  /** b protects at least as much and names at least the same sources, checks and bypasses. */
  predicate Within(a: State, b: State) {
    Join(a, b) == b
  }

  /** One thing read from the responses. A flag of None is present but no boolean; Bad is any
      other malformed value. */
  datatype Signal =
    | Source(source: string) | Bypass(actor: string) | Required | Approvals(count: nat)
    | Raised(flag: Flag, value: Option<bool>) | Check(context: string) | BlocksForcePush | BlocksDeletion | Bad

  /** A malformed flag goes unnoticed once the flag is set. */
  predicate Fails(st: State, signal: Signal) {
    signal.Bad? || (signal.Raised? && signal.value.None? && signal.flag !in st.flags)
  }

  function Meaning(signal: Signal): State {
    match signal
    case Source(s) => NOTHING.(sources := {s})
    case Bypass(a) => NOTHING.(bypass := {a})
    case Required => NOTHING.(required := true)
    case Approvals(n) => NOTHING.(approvals := n)
    case Raised(f, v) => if v == Some(true) then NOTHING.(flags := {f}) else NOTHING
    case Check(c) => NOTHING.(checks := {c})
    case BlocksForcePush => NOTHING.(forcePushBlocked := true)
    case BlocksDeletion => NOTHING.(deletionBlocked := true)
    case Bad => NOTHING
  }

  /** Reading the signals in order. */
  function Fold(st: State, signals: seq<Signal>): Option<State>
    decreases |signals|
  {
    if signals == [] then Some(st)
    else if Fails(st, signals[0]) then None
    else Fold(Join(st, Meaning(signals[0])), signals[1..])
  }

  // ----- What is read, response by response -----

  function Positive(j: Json): Signal {
    if j.Int? && j.n >= 0 then Approvals(j.n) else Bad
  }

  function FlagIn(fields: map<string, Json>, name: string, flag: Flag): Signal {
    if name !in fields then Raised(flag, Some(false))
    else Raised(flag, if fields[name].Bool? then Some(fields[name].b) else None)
  }

  /** `_array` of a field, each item read on its own. */
  function Each(j: Json, read: Json -> seq<Signal>): seq<Signal> {
    if j.Array? then Flatten(j.items, read) else [Bad]
  }

  function Flatten(items: seq<Json>, read: Json -> seq<Signal>): seq<Signal> {
    if items == [] then [] else read(items[0]) + Flatten(items[1..], read)
  }

  function ReadActor(j: Json): seq<Signal> {
    if !j.Object? then [Bad]
    else
      var kind, id, mode := Field(j.fields, "actor_type", Null), Field(j.fields, "actor_id", Null),
        Field(j.fields, "bypass_mode", Null);
      if kind.Text? && kind.s != "" && id.Int? && id.n >= 1 && mode.Text? && mode.s != ""
      then [Bypass(kind.s + ":" + Decimal(id.n) + ":" + mode.s)] else [Bad]
  }

  function ReadContext(j: Json): seq<Signal> {
    if j.Text? && j.s != "" then [Check(j.s)] else [Bad]
  }

  function ReadCheck(j: Json): seq<Signal> {
    if j.Object? then ReadContext(Field(j.fields, "context", Null)) else [Bad]
  }

  function ReadRule(j: Json): seq<Signal> {
    if !j.Object? then [Bad]
    else
      var kind, parameters := Field(j.fields, "type", Null), Field(j.fields, "parameters", Null);
      if kind == Text("pull_request") then
        if !parameters.Object? then [Bad]
        else
          var p := parameters.fields;
          [Required, Positive(Field(p, "required_approving_review_count", Int(0))),
           FlagIn(p, "require_code_owner_review", CodeOwner),
           FlagIn(p, "dismiss_stale_reviews_on_push", DismissStale),
           FlagIn(p, "require_last_push_approval", LastPush)]
      else if kind == Text("required_status_checks") then
        if !parameters.Object? then [Bad]
        else
          var p := parameters.fields;
          [FlagIn(p, "strict_required_status_checks_policy", Strict)]
          + Each(Field(p, "required_status_checks", Array([])), ReadCheck)
      else if kind == Text("non_fast_forward") then [BlocksForcePush]
      else if kind == Text("deletion") then [BlocksDeletion]
      else []
  }

  function ReadRuleset(r: map<string, Json>): seq<Signal> {
    var id := Field(r, "id", Null);
    [if id.Int? && id.n >= 1 then Source("ruleset:" + Decimal(id.n)) else Bad]
    + Each(Field(r, "bypass_actors", Array([])), ReadActor)
    + Each(Field(r, "rules", Array([])), ReadRule)
  }

  /** An entry of the classic bypass allowances of a kind. */
  function ReadAllowance(kind: string, j: Json): seq<Signal> {
    if !j.Object? then [Bad]
    else
      var slug, login, name := Field(j.fields, "slug", Null), Field(j.fields, "login", Null),
        Field(j.fields, "name", Null);
      var identity := if Truthy(slug) then slug else if Truthy(login) then login else name;
      var id := Field(j.fields, "id", Null);
      if identity.Text? && identity.s != "" then [Bypass("classic-" + kind + ":" + identity.s + ":always")]
      else if id.Int? then [Bypass("classic-" + kind + ":" + Decimal(id.n) + ":always")]
      else [Bad]
  }

  function AllowanceOf(kind: string): Json -> seq<Signal> {
    j => ReadAllowance(kind, j)
  }

  function ReadAllowances(j: Json): seq<Signal> {
    if j.Null? then []
    else if !j.Object? then [Bad]
    else
      Each(Field(j.fields, "apps", Array([])), AllowanceOf("app"))
      + Each(Field(j.fields, "teams", Array([])), AllowanceOf("team"))
      + Each(Field(j.fields, "users", Array([])), AllowanceOf("user"))
  }

  function Enabled(j: Json): Option<bool> {
    match j
    case Null => Some(false)
    case Bool(b) => Some(b)
    case Object(fields) =>
      var e := Field(fields, "enabled", Null);
      if e.Bool? then Some(e.b) else None
    case _ => None
  }

  function Unless(allowed: Option<bool>, blocked: Signal): seq<Signal> {
    match allowed
    case None => [Bad]
    case Some(b) => if b then [] else [blocked]
  }

  function ReadReviews(j: Json): seq<Signal> {
    if j.Null? then []
    else if !j.Object? then [Bad]
    else
      [Required, Positive(Field(j.fields, "required_approving_review_count", Int(0))),
       FlagIn(j.fields, "require_code_owner_reviews", CodeOwner),
       FlagIn(j.fields, "dismiss_stale_reviews", DismissStale),
       FlagIn(j.fields, "require_last_push_approval", LastPush)]
      + ReadAllowances(Field(j.fields, "bypass_pull_request_allowances", Null))
  }

  function ReadStatuses(j: Json): seq<Signal> {
    if j.Null? then []
    else if !j.Object? then [Bad]
    else
      [FlagIn(j.fields, "strict", Strict)]
      + Each(Field(j.fields, "contexts", Array([])), ReadContext)
      + Each(Field(j.fields, "checks", Array([])), ReadCheck)
  }

  function ReadClassic(j: Json): seq<Signal> {
    if !j.Object? then [Bad]
    else
      var c := j.fields;
      [Source("classic")]
      + ReadReviews(Field(c, "required_pull_request_reviews", Null))
      + ReadStatuses(Field(c, "required_status_checks", Null))
      + Unless(Enabled(Field(c, "allow_force_pushes", Null)), BlocksForcePush)
      + Unless(Enabled(Field(c, "allow_deletions", Null)), BlocksDeletion)
      + (if Enabled(Field(c, "enforce_admins", Null)).None? then [Bad] else [])
  }

  type Ruleset = map<string, Json>

  function ReadRulesets(rulesets: seq<Ruleset>): seq<Signal> {
    if rulesets == [] then [] else ReadRulesets(rulesets[..|rulesets| - 1]) + ReadRuleset(rulesets[|rulesets| - 1])
  }

  datatype Observation = Observation(
    sources: seq<string>, required: bool, approvals: nat, codeOwner: bool, dismissStale: bool, lastPush: bool,
    checks: seq<string>, strict: bool, forcePushBlocked: bool, deletionBlocked: bool,
    adminsEnforced: Option<bool>, bypass: seq<string>)

  function Observed(st: State, adminsEnforced: Option<bool>): Observation {
    Observation(Sorted(st.sources), st.required, st.approvals, CodeOwner in st.flags, DismissStale in st.flags,
                LastPush in st.flags, Sorted(st.checks), Strict in st.flags, st.forcePushBlocked, st.deletionBlocked,
                adminsEnforced, Sorted(st.bypass))
  }

  function Admins(protection: Option<Json>): Option<bool> {
    if protection.Some? && protection.value.Object?
    then Enabled(Field(protection.value.fields, "enforce_admins", Null)) else None
  }

  function ReadProtection(protection: Option<Json>): seq<Signal> {
    if protection.None? then [] else ReadClassic(protection.value)
  }

  function Merged(protection: Option<Json>, rulesets: seq<Ruleset>): Option<State> {
    Fold(NOTHING, ReadProtection(protection) + ReadRulesets(rulesets))
  }

  // ----- The merge as it executes -----

  method Absorb(start: State, signals: seq<Signal>) returns (o: Option<State>)
    ensures o == Fold(start, signals)
  {
    var st := start;
    var i := 0;
    while i < |signals|
      invariant 0 <= i <= |signals|
      invariant Fold(start, signals) == Fold(st, signals[i..])
      decreases |signals| - i
    {
      assert signals[i..][1..] == signals[i + 1..];
      JoinOne(st, signals[i]);
      match signals[i] {
        case Source(s) => st := st.(sources := st.sources + {s});
        case Bypass(a) => st := st.(bypass := st.bypass + {a});
        case Required => st := st.(required := true);
        case Approvals(n) => if n > st.approvals { st := st.(approvals := n); }
        case Raised(f, v) =>
        if f !in st.flags {
          if v.None? {
            return None;
          }
          if v.value {
            st := st.(flags := st.flags + {f});
          }
        }
        case Check(c) => st := st.(checks := st.checks + {c});
        case BlocksForcePush => st := st.(forcePushBlocked := true);
        case BlocksDeletion => st := st.(deletionBlocked := true);
        case Bad => return None;
      }
      i := i + 1;
    }
    return Some(st);
  }

  /** What one signal changes. */
  lemma JoinOne(st: State, signal: Signal)
    ensures var next := Join(st, Meaning(signal));
      match signal
      case Source(s) => next == st.(sources := st.sources + {s})
      case Bypass(a) => next == st.(bypass := st.bypass + {a})
      case Required => next == st.(required := true)
      case Approvals(n) => next == st.(approvals := if n > st.approvals then n else st.approvals)
      case Raised(f, v) => next == if v == Some(true) && f !in st.flags then st.(flags := st.flags + {f}) else st
      case Check(c) => next == st.(checks := st.checks + {c})
      case BlocksForcePush => next == st.(forcePushBlocked := true)
      case BlocksDeletion => next == st.(deletionBlocked := true)
      case Bad => next == st
  {
    if signal.Raised? && signal.flag in st.flags {
      assert st.flags + {signal.flag} == st.flags;
    }
  }

  /** `_normalize`. */
  method Normalize(protection: Option<Json>, rulesets: seq<Ruleset>) returns (o: Option<Observation>)
    ensures o ==
      match Merged(protection, rulesets) case None => None case Some(st) => Some(Observed(st, Admins(protection)))
    ensures o.Some? ==> Reports(o.value, ReadProtection(protection) + ReadRulesets(rulesets))
  {
    hide Fold, ReadClassic, ReadRuleset, Observed, Reports;
    FoldNothing(NOTHING);
    var st := NOTHING;
    if protection.Some? {
      var classic := Absorb(st, ReadClassic(protection.value));
      FoldSplits(NOTHING, ReadProtection(protection), ReadRulesets(rulesets));
      if classic.None? {
        return None;
      }
      st := classic.value;
    }
    assert [] + ReadRulesets(rulesets) == ReadRulesets(rulesets);
    ghost var first := st;
    FoldNothing(first);
    for i := 0 to |rulesets|
      invariant Fold(first, ReadRulesets(rulesets[..i])) == Some(st)
    {
      assert rulesets[..i + 1][..i] == rulesets[..i];
      FoldSplits(first, ReadRulesets(rulesets[..i]), ReadRuleset(rulesets[i]));
      var next := Absorb(st, ReadRuleset(rulesets[i]));
      if next.None? {
        PrefixFails(first, rulesets, i + 1);
        return None;
      }
      st := next.value;
    }
    assert rulesets[..|rulesets|] == rulesets;
    ObservedReports(protection, rulesets);
    return Some(Observed(st, Admins(protection)));
  }

  lemma FoldNothing(st: State)
    ensures Fold(st, []) == Some(st)
  {
  }

  lemma {:induction false} FoldSplits(st: State, a: seq<Signal>, b: seq<Signal>)
    ensures Fold(st, a + b) == match Fold(st, a) case None => None case Some(t) => Fold(t, b)
    decreases |a|
  {
    if a == [] {
      assert a + b == b;
    } else {
      assert (a + b)[1..] == a[1..] + b;
      if !Fails(st, a[0]) {
        FoldSplits(Join(st, Meaning(a[0])), a[1..], b);
      }
    }
  }

  lemma {:induction false} ReadJoins(a: seq<Ruleset>, b: seq<Ruleset>)
    ensures ReadRulesets(a + b) == ReadRulesets(a) + ReadRulesets(b)
  {
    hide ReadRuleset;
    if b == [] {
      assert a + b == a;
    } else {
      assert (a + b)[..|a + b| - 1] == a + b[..|b| - 1];
      ReadJoins(a, b[..|b| - 1]);
    }
  }

  lemma PrefixFails(st: State, rulesets: seq<Ruleset>, i: nat)
    requires i <= |rulesets| && Fold(st, ReadRulesets(rulesets[..i])).None?
    ensures Fold(st, ReadRulesets(rulesets)).None?
  {
    hide Fold, ReadRuleset, ReadRulesets;
    assert rulesets == rulesets[..i] + rulesets[i..];
    ReadJoins(rulesets[..i], rulesets[i..]);
    FoldSplits(st, ReadRulesets(rulesets[..i]), ReadRulesets(rulesets[i..]));
  }

  // ----- The merge is a join -----

  function All(signals: seq<Signal>): State {
    if signals == [] then NOTHING else Join(Meaning(signals[0]), All(signals[1..]))
  }

  lemma {:induction false} FoldIsJoin(st: State, signals: seq<Signal>)
    requires Fold(st, signals).Some?
    ensures Fold(st, signals).value == Join(st, All(signals))
    decreases |signals|
  {
    hide Meaning, Fails;
    if signals != [] {
      FoldIsJoin(Join(st, Meaning(signals[0])), signals[1..]);
    }
  }

  /** What can be read from a state can be read from any state that protects more. */
  lemma {:induction false} FoldIsMonotone(s: State, t: State, signals: seq<Signal>)
    requires Within(s, t) && Fold(s, signals).Some?
    ensures Fold(t, signals).Some?
    decreases |signals|
  {
    if signals != [] {
      var m := Meaning(signals[0]);
      assert s.flags + t.flags == t.flags;
      assert Within(Join(s, m), Join(t, m)) by {
        JoinIsMonotone(s, t, m);
      }
      FoldIsMonotone(Join(s, m), Join(t, m), signals[1..]);
    }
  }

  lemma JoinIsMonotone(s: State, t: State, m: State)
    requires Within(s, t)
    ensures Within(Join(s, m), Join(t, m))
  {
  }

  lemma {:induction false} AllJoins(a: seq<Signal>, b: seq<Signal>)
    ensures All(a + b) == Join(All(a), All(b))
  {
    hide Meaning;
    if a == [] {
      assert a + b == b;
    } else {
      assert (a + b)[1..] == a[1..] + b;
      AllJoins(a[1..], b);
    }
  }

  function Total(rulesets: seq<Ruleset>): State {
    All(ReadRulesets(rulesets))
  }

  lemma MergedIsJoin(protection: Option<Json>, rulesets: seq<Ruleset>)
    requires Merged(protection, rulesets).Some?
    ensures Merged(protection, []).Some?
    ensures Merged(protection, rulesets).value == Join(Merged(protection, []).value, Total(rulesets))
  {
    hide Join, ReadProtection, ReadRuleset;
    MergedFromBase(protection, rulesets);
    FoldIsJoin(Merged(protection, []).value, ReadRulesets(rulesets));
  }

  lemma MergedFromBase(protection: Option<Json>, rulesets: seq<Ruleset>)
    ensures var base := Merged(protection, []);
      Merged(protection, rulesets) == if base.None? then None else Fold(base.value, ReadRulesets(rulesets))
  {
    hide Join, ReadProtection, ReadRuleset;
    FoldSplits(NOTHING, ReadProtection(protection), ReadRulesets(rulesets));
    assert ReadProtection(protection) + ReadRulesets([]) == ReadProtection(protection);
  }

  /** A ruleset's share is part of the total. */
  lemma {:induction false} ShareIsWithin(r: Ruleset, rulesets: seq<Ruleset>)
    requires r in rulesets
    ensures Within(All(ReadRuleset(r)), Total(rulesets))
  {
    hide ReadRuleset, All;
    var before, last := rulesets[..|rulesets| - 1], rulesets[|rulesets| - 1];
    assert rulesets == before + [last];
    AllJoins(ReadRulesets(before), ReadRuleset(last));
    if r != last {
      ShareIsWithin(r, before);
    }
  }

  lemma {:induction false} TotalIsLeast(rulesets: seq<Ruleset>, bound: State)
    requires forall r <- rulesets :: Within(All(ReadRuleset(r)), bound)
    ensures Within(Total(rulesets), bound)
  {
    hide ReadRuleset, All;
    if rulesets == [] {
      AllOfNothing();
    } else {
      var before, last := rulesets[..|rulesets| - 1], rulesets[|rulesets| - 1];
      assert rulesets == before + [last] && last in rulesets && forall r <- before :: r in rulesets;
      TotalIsLeast(before, bound);
      AllJoins(ReadRulesets(before), ReadRuleset(last));
    }
  }

  lemma AllOfNothing()
    ensures All([]) == NOTHING
  {
  }

  /** The total depends on which rulesets there are, not on their order or number. */
  lemma TotalOfSet(a: seq<Ruleset>, b: seq<Ruleset>)
    requires forall r :: r in a ==> r in b
    ensures Within(Total(a), Total(b))
  {
    hide ReadRuleset, All, Within;
    forall r <- a ensures Within(All(ReadRuleset(r)), Total(b)) {
      ShareIsWithin(r, b);
    }
    TotalIsLeast(a, Total(b));
  }

  /** MAIN: two listings of the same rulesets, in any order and with any repetitions, give the
      same observation whenever both are accepted. */
  lemma SameRulesetsSameObservation(protection: Option<Json>, a: seq<Ruleset>, b: seq<Ruleset>)
    requires forall r :: r in a <==> r in b
    requires Merged(protection, a).Some? && Merged(protection, b).Some?
    ensures Merged(protection, a) == Merged(protection, b)
  {
    hide ReadRulesets, All, Merged;
    TotalOfSet(a, b);
    TotalOfSet(b, a);
    assert Total(a) == Total(b);
    MergedIsJoin(protection, a);
    MergedIsJoin(protection, b);
  }

  /** Accepted on its own, accepted behind others. */
  lemma AcceptedBehindOthers(protection: Option<Json>, rulesets: seq<Ruleset>, r: Ruleset)
    requires Merged(protection, rulesets).Some? && Merged(protection, [r]).Some?
    ensures Merged(protection, rulesets + [r]).Some?
  {
    hide All, ReadRuleset, ReadProtection, Join;
    MergedFromBase(protection, rulesets);
    var base := Merged(protection, []).value;
    MergedFromBase(protection, [r]);
    MergedFromBase(protection, rulesets + [r]);
    MergedIsJoin(protection, rulesets);
    assert (rulesets + [r])[..|rulesets|] == rulesets && [r][..0] == [] && [] + ReadRuleset(r) == ReadRuleset(r);
    FoldSplits(base, ReadRulesets(rulesets), ReadRuleset(r));
    JoinIsAbove(base, Total(rulesets));
    FoldIsMonotone(base, Merged(protection, rulesets).value, ReadRuleset(r));
  }

  lemma JoinIsAbove(a: State, b: State)
    ensures Within(a, Join(a, b))
  {
  }

  lemma {:induction false} AllAloneAccepted(protection: Option<Json>, rulesets: seq<Ruleset>)
    requires Merged(protection, []).Some? && forall r <- rulesets :: Merged(protection, [r]).Some?
    ensures Merged(protection, rulesets).Some?
  {
    hide Merged;
    if rulesets != [] {
      var before, last := rulesets[..|rulesets| - 1], rulesets[|rulesets| - 1];
      assert rulesets == before + [last] && last in rulesets && forall r <- before :: r in rulesets;
      AllAloneAccepted(protection, before);
      AcceptedBehindOthers(protection, before, last);
    }
  }

  /** The first ruleset is read as if it were alone. */
  lemma FirstIsAlone(protection: Option<Json>, r: Ruleset, rest: seq<Ruleset>)
    requires Merged(protection, [r] + rest).Some?
    ensures Merged(protection, [r]).Some?
  {
    hide ReadRuleset, ReadProtection, Join;
    MergedFromBase(protection, [r] + rest);
    MergedFromBase(protection, [r]);
    ReadJoins([r], rest);
    FoldSplits(Merged(protection, []).value, ReadRulesets([r]), ReadRulesets(rest));
  }

  /** MAIN: the rulesets are accepted in every order exactly when each is accepted alone. A flag
      that is set already hides a malformed value of the same flag, so acceptance of one order
      does not imply acceptance of another. */
  lemma AcceptedInEveryOrder(protection: Option<Json>, rulesets: seq<Ruleset>)
    requires Merged(protection, []).Some?
    ensures (forall order: seq<Ruleset> :: multiset(order) == multiset(rulesets) ==> Merged(protection, order).Some?)
      <==> forall r <- rulesets :: Merged(protection, [r]).Some?
  {
    hide Merged;
    if forall r <- rulesets :: Merged(protection, [r]).Some? {
      forall order: seq<Ruleset> | multiset(order) == multiset(rulesets) ensures Merged(protection, order).Some? {
        OrderAccepted(protection, rulesets, order);
      }
    }
    if forall order: seq<Ruleset> :: multiset(order) == multiset(rulesets) ==> Merged(protection, order).Some? {
      forall r <- rulesets ensures Merged(protection, [r]).Some? {
        var rest := Others(rulesets, r);
        FirstIsAlone(protection, r, rest);
      }
    }
  }

  lemma OrderAccepted(protection: Option<Json>, rulesets: seq<Ruleset>, order: seq<Ruleset>)
    requires Merged(protection, []).Some? && forall r <- rulesets :: Merged(protection, [r]).Some?
    requires multiset(order) == multiset(rulesets)
    ensures Merged(protection, order).Some?
  {
    hide Merged;
    forall r <- order ensures Merged(protection, [r]).Some? {
      assert r in multiset(order);
    }
    AllAloneAccepted(protection, order);
  }

  /** Everything but one occurrence of r. */
  lemma Others(rulesets: seq<Ruleset>, r: Ruleset) returns (rest: seq<Ruleset>)
    requires r in rulesets
    ensures multiset([r] + rest) == multiset(rulesets)
  {
    var i :| 0 <= i < |rulesets| && rulesets[i] == r;
    rest := rulesets[..i] + rulesets[i + 1..];
    assert rulesets == rulesets[..i] + [r] + rulesets[i + 1..];
  }

  // ----- When a ruleset is accepted alone -----

  /** A signal that is read: not malformed, or a malformed flag that was raised before. */
  ghost predicate ReadAt(st: State, signals: seq<Signal>, i: nat)
    requires i < |signals|
  {
    && !signals[i].Bad?
    && (signals[i].Raised? && signals[i].value.None? ==>
        signals[i].flag in st.flags
        || exists j :: 0 <= j < i && signals[j] == Raised(signals[i].flag, Some(true)))
  }

  lemma {:induction false} FoldSucceedsIff(st: State, signals: seq<Signal>)
    ensures Fold(st, signals).Some? <==> forall i :: 0 <= i < |signals| ==> ReadAt(st, signals, i)
    decreases |signals|
  {
    hide ReadAt;
    if signals != [] {
      FirstReadAt(st, signals);
      if !Fails(st, signals[0]) {
        var next := Join(st, Meaning(signals[0]));
        FoldSucceedsIff(next, signals[1..]);
        forall i | 0 <= i < |signals[1..]| ensures ReadAt(next, signals[1..], i) <==> ReadAt(st, signals, i + 1) {
          LaterReadAt(st, signals, i);
        }
        hide Fold, Fails;
        if forall i :: 0 <= i < |signals[1..]| ==> ReadAt(next, signals[1..], i) {
          forall i | 0 <= i < |signals| ensures ReadAt(st, signals, i) {
            if i > 0 {
              assert ReadAt(next, signals[1..], i - 1);
            }
          }
        }
        if forall i :: 0 <= i < |signals| ==> ReadAt(st, signals, i) {
          forall i | 0 <= i < |signals[1..]| ensures ReadAt(next, signals[1..], i) {
            assert ReadAt(st, signals, i + 1);
          }
        }
      }
    }
  }

  lemma FirstReadAt(st: State, signals: seq<Signal>)
    requires signals != []
    ensures ReadAt(st, signals, 0) <==> !Fails(st, signals[0])
  {
  }

  lemma LaterReadAt(st: State, signals: seq<Signal>, i: nat)
    requires i + 1 < |signals| && !Fails(st, signals[0])
    ensures ReadAt(Join(st, Meaning(signals[0])), signals[1..], i) <==> ReadAt(st, signals, i + 1)
  {
    JoinOne(st, signals[0]);
    var next, rest := Join(st, Meaning(signals[0])), signals[1..];
    hide Join, Meaning;
    assert forall j :: 0 <= j < i ==> rest[j] == signals[j + 1];
    if signals[i + 1].Raised? {
      var raised := Raised(signals[i + 1].flag, Some(true));
      if j :| 0 <= j < i + 1 && signals[j] == raised {
        assert j > 0 ==> rest[j - 1] == raised;
      }
    }
  }

  /** MAIN: a ruleset is accepted alone exactly when it holds nothing malformed but flags that
      classic protection, or an earlier part of the same ruleset, has raised. */
  lemma AcceptedAloneIff(protection: Option<Json>, r: Ruleset)
    requires Merged(protection, []).Some?
    ensures Merged(protection, [r]).Some? <==>
      forall i :: 0 <= i < |ReadRuleset(r)| ==>
        && !ReadRuleset(r)[i].Bad?
        && (ReadRuleset(r)[i].Raised? && ReadRuleset(r)[i].value.None? ==>
            Raised(ReadRuleset(r)[i].flag, Some(true)) in ReadProtection(protection) + ReadRuleset(r)[..i])
  {
    var base, classic, own := Merged(protection, []).value, ReadProtection(protection), ReadRuleset(r);
    hide ReadRuleset, ReadProtection;
    MergedFromBase(protection, [r]);
    ReadOne(r);
    FoldSucceedsIff(base, own);
    assert ReadRulesets([]) == [] && classic + [] == classic;
    FoldIsJoin(NOTHING, classic);
    FlagsOfClassic(classic);
    hide Fold, ReadRulesets, Merged, All, Join;
    forall i | 0 <= i < |own|
      ensures ReadAt(base, own, i) <==>
        && !own[i].Bad?
        && (own[i].Raised? && own[i].value.None? ==> Raised(own[i].flag, Some(true)) in classic + own[..i])
    {
      if own[i].Raised? {
        EarlierIn(own, i, Raised(own[i].flag, Some(true)));
      }
    }
  }

  lemma FlagsOfClassic(signals: seq<Signal>)
    ensures forall f :: f in Join(NOTHING, All(signals)).flags <==> Raised(f, Some(true)) in signals
  {
    TotalMeans(signals);
    hide All;
  }

  lemma EarlierIn(signals: seq<Signal>, i: nat, x: Signal)
    requires i < |signals|
    ensures x in signals[..i] <==> exists j :: 0 <= j < i && signals[j] == x
  {
    if x in signals[..i] {
      var j :| 0 <= j < |signals[..i]| && signals[..i][j] == x;
      assert signals[j] == x;
    }
    if j :| 0 <= j < i && signals[j] == x {
      assert signals[..i][j] == x;
    }
  }

  // ----- When the order decides -----

  /** The place of the first ruleset that can be read from a state, or the number of them all. */
  function FirstReadable(st: State, left: seq<Ruleset>): nat {
    if left == [] || Fold(st, ReadRuleset(left[0])).Some? then 0 else 1 + FirstReadable(st, left[1..])
  }

  lemma {:induction false} FirstReadableMeans(st: State, left: seq<Ruleset>)
    ensures var i := FirstReadable(st, left);
      && i <= |left|
      && (i < |left| ==> Fold(st, ReadRuleset(left[i])).Some?)
      && forall k :: 0 <= k < i ==> Fold(st, ReadRuleset(left[k])).None?
  {
    hide Fold, ReadRuleset;
    if left != [] && Fold(st, ReadRuleset(left[0])).None? {
      FirstReadableMeans(st, left[1..]);
      assert forall k :: 0 < k < |left| ==> left[k] == left[1..][k - 1];
    }
  }

  function Without(left: seq<Ruleset>, i: nat): (rest: seq<Ruleset>)
    requires i < |left|
    ensures |rest| == |left| - 1
  {
    left[..i] + left[i + 1..]
  }

  /** Reading whichever ruleset can be read next never gets stuck. */
  predicate NeverStuck(st: State, left: seq<Ruleset>)
    decreases |left|
  {
    left == []
    || (var i := FirstReadable(st, left);
        i < |left|
        && match Fold(st, ReadRuleset(left[i]))
           case None => false
           case Some(next) => NeverStuck(next, Without(left, i)))
  }

  /** Classic protection is read, and then the rulesets in some order. */
  predicate Readable(protection: Option<Json>, rulesets: seq<Ruleset>) {
    Merged(protection, []).Some? && NeverStuck(Merged(protection, []).value, rulesets)
  }

  ghost predicate SomeOrderAccepted(protection: Option<Json>, rulesets: seq<Ruleset>) {
    exists order: seq<Ruleset> :: multiset(order) == multiset(rulesets) && Merged(protection, order).Some?
  }

  ghost predicate SameRulesets(a: seq<Ruleset>, b: seq<Ruleset>) {
    forall r :: r in a <==> r in b
  }

  /** The same with any repetitions. */
  ghost predicate SomeListingAccepted(protection: Option<Json>, rulesets: seq<Ruleset>) {
    exists listing: seq<Ruleset> :: SameRulesets(listing, rulesets) && Merged(protection, listing).Some?
  }

  lemma TakenOut(left: seq<Ruleset>, i: nat)
    requires i < |left|
    ensures multiset(left) == multiset([left[i]] + Without(left, i))
    ensures forall r :: r in left <==> r == left[i] || r in Without(left, i)
  {
    assert left == left[..i] + [left[i]] + left[i + 1..];
    assert forall r :: r in left <==> r in left[..i] + [left[i]] + left[i + 1..];
  }

  /** A reading that never gets stuck is an order in which everything is read. */
  lemma {:induction false} OrderOfReading(st: State, left: seq<Ruleset>) returns (order: seq<Ruleset>)
    requires NeverStuck(st, left)
    ensures multiset(order) == multiset(left) && Fold(st, ReadRulesets(order)).Some?
    decreases |left|
  {
    hide Fold, ReadRuleset;
    if left == [] {
      order := [];
      FoldNothing(st);
    } else {
      var i := FirstReadable(st, left);
      FirstReadableMeans(st, left);
      var rest := OrderOfReading(Fold(st, ReadRuleset(left[i])).value, Without(left, i));
      order := [left[i]] + rest;
      TakenOut(left, i);
      ReadJoins([left[i]], rest);
      ReadOne(left[i]);
      FoldSplits(st, ReadRuleset(left[i]), ReadRulesets(rest));
    }
  }

  lemma ReadOne(r: Ruleset)
    ensures ReadRulesets([r]) == ReadRuleset(r)
  {
    hide ReadRuleset;
    assert [r][..0] == [] && [] + ReadRuleset(r) == ReadRuleset(r);
  }

  /** The rulesets of a listing that are not left are part of a state already. */
  ghost predicate TakenIn(t: State, listing: seq<Ruleset>, left: seq<Ruleset>) {
    forall r <- listing :: r in left || Within(All(ReadRuleset(r)), t)
  }

  /** Where some listing can be read, reading greedily does not get stuck, whatever it reads first. */
  lemma {:induction false} ListingIsRead(s: State, listing: seq<Ruleset>, t: State, left: seq<Ruleset>)
    requires Fold(s, ReadRulesets(listing)).Some? && Within(s, t)
    requires (forall r <- left :: r in listing) && TakenIn(t, listing, left)
    ensures NeverStuck(t, left)
    decreases |left|
  {
    hide Fold, ReadRuleset, Join, All, Within;
    if left != [] {
      SomeReadable(s, listing, t, left);
      FirstReadableMeans(t, left);
      var i := FirstReadable(t, left);
      var r := left[i];
      var next := Fold(t, ReadRuleset(r)).value;
      FoldIsJoin(t, ReadRuleset(r));
      JoinHoldsBoth(s, t, All(ReadRuleset(r)));
      TakenOut(left, i);
      forall q <- listing ensures q in Without(left, i) || Within(All(ReadRuleset(q)), next) {
        if q !in left {
          JoinHoldsBoth(All(ReadRuleset(q)), t, All(ReadRuleset(r)));
        }
      }
      ListingIsRead(s, listing, next, Without(left, i));
    }
  }

  lemma JoinHoldsBoth(s: State, t: State, share: State)
    requires Within(s, t)
    ensures Within(s, Join(t, share)) && Within(share, Join(t, share))
  {
  }

  lemma SomeReadable(s: State, listing: seq<Ruleset>, t: State, left: seq<Ruleset>)
    requires Fold(s, ReadRulesets(listing)).Some? && Within(s, t)
    requires left != [] && (forall r <- left :: r in listing) && TakenIn(t, listing, left)
    ensures FirstReadable(t, left) < |left|
  {
    hide Fold, ReadRuleset, ReadRulesets, All, Join, Within, FirstReadable;
    var before, r, after := FirstLeft(listing, left, left[0]);
    ReadBehind(s, before, r, after, t);
    ReadableFound(t, left, r);
  }

  lemma ReadableFound(t: State, left: seq<Ruleset>, r: Ruleset)
    requires r in left && Fold(t, ReadRuleset(r)).Some?
    ensures FirstReadable(t, left) < |left|
  {
    hide Fold, ReadRuleset;
    FirstReadableMeans(t, left);
    var k :| 0 <= k < |left| && left[k] == r;
  }

  /** What a listing reads behind some rulesets can be read wherever these are part of the state. */
  lemma ReadBehind(s: State, before: seq<Ruleset>, r: Ruleset, after: seq<Ruleset>, t: State)
    requires Fold(s, ReadRulesets(before + [r] + after)).Some? && Within(s, t)
    requires forall q <- before :: Within(All(ReadRuleset(q)), t)
    ensures Fold(t, ReadRuleset(r)).Some?
  {
    hide Fold, ReadRuleset, ReadRulesets, All, Join, Within, Total;
    ReadJoins(before + [r], after);
    ReadJoins(before, [r]);
    ReadOne(r);
    FoldSplits(s, ReadRulesets(before + [r]), ReadRulesets(after));
    FoldSplits(s, ReadRulesets(before), ReadRuleset(r));
    var mid := Fold(s, ReadRulesets(before)).value;
    FoldIsJoin(s, ReadRulesets(before));
    TotalIsLeast(before, t);
    TotalIsAll(before);
    JoinIsLeast(s, Total(before), t);
    FoldIsMonotone(mid, t, ReadRuleset(r));
  }

  lemma TotalIsAll(rulesets: seq<Ruleset>)
    ensures Total(rulesets) == All(ReadRulesets(rulesets))
  {
    hide All, ReadRulesets;
  }

  lemma JoinIsLeast(a: State, b: State, bound: State)
    requires Within(a, bound) && Within(b, bound)
    ensures Within(Join(a, b), bound)
  {
  }

  /** A listing up to its first ruleset that is left. */
  lemma {:induction false} FirstLeft(listing: seq<Ruleset>, left: seq<Ruleset>, some: Ruleset)
    returns (before: seq<Ruleset>, r: Ruleset, after: seq<Ruleset>)
    requires some in listing && some in left
    ensures listing == before + [r] + after && r in left
    ensures forall q <- before :: q in listing && q !in left
  {
    if listing[0] in left {
      before, r, after := [], listing[0], listing[1..];
    } else {
      assert listing == [listing[0]] + listing[1..];
      before, r, after := FirstLeft(listing[1..], left, some);
      before := [listing[0]] + before;
    }
  }

  /** MAIN: some order of the rulesets is accepted exactly when reading whichever ruleset can be
      read next never gets stuck, and repeating rulesets does not help. */
  lemma SomeOrderIff(protection: Option<Json>, rulesets: seq<Ruleset>)
    ensures SomeOrderAccepted(protection, rulesets) <==> Readable(protection, rulesets)
    ensures SomeListingAccepted(protection, rulesets) <==> Readable(protection, rulesets)
  {
    hide Fold, ReadRuleset, ReadProtection, NeverStuck;
    if Readable(protection, rulesets) {
      var order := OrderOfReading(Merged(protection, []).value, rulesets);
      MergedFromBase(protection, order);
      assert Merged(protection, order).Some?;
      SameElements(order, rulesets);
    }
    if listing: seq<Ruleset> :| SameRulesets(listing, rulesets) && Merged(protection, listing).Some? {
      MergedFromBase(protection, listing);
      WithinItself(Merged(protection, []).value);
      ListingIsRead(Merged(protection, []).value, listing, Merged(protection, []).value, rulesets);
    }
    if order: seq<Ruleset> :| multiset(order) == multiset(rulesets) && Merged(protection, order).Some? {
      SameElements(order, rulesets);
    }
  }

  lemma WithinItself(s: State)
    ensures Within(s, s)
  {
  }

  lemma SameElements(a: seq<Ruleset>, b: seq<Ruleset>)
    requires multiset(a) == multiset(b)
    ensures SameRulesets(a, b)
  {
    forall r ensures r in a <==> r in b {
      assert r in a <==> r in multiset(a);
      assert r in b <==> r in multiset(b);
    }
  }

  /** Whether the listing is accepted hangs on the order of the rulesets. */
  ghost predicate OrderDecides(protection: Option<Json>, rulesets: seq<Ruleset>) {
    exists x: seq<Ruleset>, y: seq<Ruleset> ::
      && multiset(x) == multiset(rulesets) && Merged(protection, x).Some?
      && multiset(y) == multiset(rulesets) && Merged(protection, y).None?
  }

  /** Or on their order and repetitions. */
  ghost predicate ListingDecides(protection: Option<Json>, rulesets: seq<Ruleset>) {
    exists x: seq<Ruleset>, y: seq<Ruleset> ::
      && SameRulesets(x, rulesets) && Merged(protection, x).Some?
      && SameRulesets(y, rulesets) && Merged(protection, y).None?
  }

  /** MAIN: the order decides, and so do order and repetitions, exactly when reading whichever
      ruleset can be read next never gets stuck and some ruleset is not accepted alone. */
  lemma OrderDecidesIff(protection: Option<Json>, rulesets: seq<Ruleset>)
    ensures OrderDecides(protection, rulesets) <==>
      Readable(protection, rulesets) && exists r <- rulesets :: Merged(protection, [r]).None?
    ensures ListingDecides(protection, rulesets) <==> OrderDecides(protection, rulesets)
  {
    hide Merged, NeverStuck;
    SomeOrderIff(protection, rulesets);
    if ListingDecides(protection, rulesets) {
      var x, y :| && SameRulesets(x, rulesets) && Merged(protection, x).Some?
                  && SameRulesets(y, rulesets) && Merged(protection, y).None?;
      if forall r <- rulesets :: Merged(protection, [r]).Some? {
        AllAloneAccepted(protection, y);
      }
    }
    if x: seq<Ruleset>, y: seq<Ruleset> :|
      && multiset(x) == multiset(rulesets) && Merged(protection, x).Some?
      && multiset(y) == multiset(rulesets) && Merged(protection, y).None?
    {
      SameElements(x, rulesets);
      SameElements(y, rulesets);
    }
    if Readable(protection, rulesets) && exists r <- rulesets :: Merged(protection, [r]).None? {
      AcceptedInEveryOrder(protection, rulesets);
    }
  }

  /** MAIN: putting an accepted ruleset anywhere into an accepted listing is accepted, never
      lowers the approvals, clears a protection or drops a source, check or bypass, and changes
      nothing when the ruleset is there already. */
  lemma AddingProtectsMore(protection: Option<Json>, a: seq<Ruleset>, r: Ruleset, b: seq<Ruleset>)
    requires Merged(protection, a + b).Some? && Merged(protection, [r]).Some?
    ensures Merged(protection, a + [r] + b).Some?
    ensures var before, after := Merged(protection, a + b).value, Merged(protection, a + [r] + b).value;
      && Within(before, after)
      && after == Join(before, All(ReadRuleset(r)))
      && (r in a + b ==> after == before)
  {
    hide *;
    AcceptedInside(protection, a, r, b);
    MergedIsJoin(protection, a + b);
    MergedIsJoin(protection, a + [r] + b);
    var base, share := Merged(protection, []).value, All(ReadRuleset(r));
    TotalWith(a, r, b);
    JoinLaws(base, All(ReadRulesets(a)), share, All(ReadRulesets(b)));
    if r in a + b {
      ShareIsWithin(r, a + b);
      JoinAbsorbs(base, Total(a + b), share);
    }
  }

  /** The total with a ruleset put in, and without it. */
  lemma TotalWith(a: seq<Ruleset>, r: Ruleset, b: seq<Ruleset>)
    ensures Total(a + b) == Join(All(ReadRulesets(a)), All(ReadRulesets(b)))
    ensures Total(a + [r] + b) == Join(All(ReadRulesets(a)), Join(All(ReadRuleset(r)), All(ReadRulesets(b))))
  {
    hide ReadRuleset, ReadRulesets, All, Join;
    assert a + [r] + b == a + ([r] + b);
    ReadJoins(a, [r] + b);
    ReadJoins([r], b);
    ReadJoins(a, b);
    ReadOne(r);
    AllJoins(ReadRulesets(a), ReadRuleset(r) + ReadRulesets(b));
    AllJoins(ReadRuleset(r), ReadRulesets(b));
    AllJoins(ReadRulesets(a), ReadRulesets(b));
  }

  /** What a state within another means for the two observations. */
  lemma ObservationGrows(a: State, b: State, admins: Option<bool>)
    requires Within(a, b)
    ensures var before, after := Observed(a, admins), Observed(b, admins);
      && before.approvals <= after.approvals
      && (before.required ==> after.required) && (before.codeOwner ==> after.codeOwner)
      && (before.dismissStale ==> after.dismissStale) && (before.lastPush ==> after.lastPush)
      && (before.strict ==> after.strict)
      && (before.forcePushBlocked ==> after.forcePushBlocked) && (before.deletionBlocked ==> after.deletionBlocked)
      && (forall x <- before.sources :: x in after.sources) && (forall x <- before.checks :: x in after.checks)
      && (forall x <- before.bypass :: x in after.bypass)
  {
    assert a.flags <= b.flags && a.sources <= b.sources && a.checks <= b.checks && a.bypass <= b.bypass by {
      assert a.flags <= a.flags + b.flags && a.sources <= a.sources + b.sources;
      assert a.checks <= a.checks + b.checks && a.bypass <= a.bypass + b.bypass;
    }
  }

  lemma JoinLaws(base: State, a: State, share: State, b: State)
    ensures Join(base, Join(a, Join(share, b))) == Join(Join(base, Join(a, b)), share)
    ensures Within(Join(base, Join(a, b)), Join(Join(base, Join(a, b)), share))
  {
  }

  lemma JoinAbsorbs(base: State, total: State, share: State)
    requires Within(share, total)
    ensures Join(Join(base, total), share) == Join(base, total)
  {
  }

  lemma AcceptedInside(protection: Option<Json>, a: seq<Ruleset>, r: Ruleset, b: seq<Ruleset>)
    requires Merged(protection, a + b).Some? && Merged(protection, [r]).Some?
    ensures Merged(protection, a + [r] + b).Some?
  {
    hide ReadRuleset, ReadProtection, Join, Within;
    MergedFromBase(protection, a + b);
    var base := Merged(protection, []).value;
    MergedFromBase(protection, a + [r] + b);
    MergedFromBase(protection, a);
    MergedFromBase(protection, a + [r]);
    ReadJoins(a, b);
    ReadJoins(a + [r], b);
    FoldSplits(base, ReadRulesets(a), ReadRulesets(b));
    FoldSplits(base, ReadRulesets(a + [r]), ReadRulesets(b));
    AcceptedBehindOthers(protection, a, r);
    assert (a + [r])[..|a|] == a;
    FoldSplits(base, ReadRulesets(a), ReadRuleset(r));
    var mid := Fold(base, ReadRulesets(a)).value;
    FoldIsJoin(mid, ReadRuleset(r));
    JoinIsAbove(mid, All(ReadRuleset(r)));
    FoldIsMonotone(mid, Fold(mid, ReadRuleset(r)).value, ReadRulesets(b));
  }

  // ----- What the observation says -----

  /** MAIN: what is observed is what was read, no more and no less: a flag is set when some
      response raised it, a source, check or bypass is listed when some response named it, and
      the approvals are the highest count that was asked for. */
  lemma {:induction false} TotalMeans(signals: seq<Signal>)
    ensures var t := All(signals);
      && (forall f :: f in t.flags <==> Raised(f, Some(true)) in signals)
      && (forall s :: s in t.sources <==> Source(s) in signals)
      && (forall c :: c in t.checks <==> Check(c) in signals)
      && (forall a :: a in t.bypass <==> Bypass(a) in signals)
      && (t.required <==> Required in signals)
      && (t.forcePushBlocked <==> BlocksForcePush in signals)
      && (t.deletionBlocked <==> BlocksDeletion in signals)
      && (forall n: nat :: Approvals(n) in signals ==> n <= t.approvals)
      && (t.approvals == 0 || Approvals(t.approvals) in signals)
  {
    if signals != [] {
      TotalMeans(signals[1..]);
      MeaningAdds(signals[0], All(signals[1..]));
      assert signals == [signals[0]] + signals[1..];
      assert forall x :: x in signals <==> x == signals[0] || x in signals[1..];
    }
  }

  lemma MeaningAdds(signal: Signal, rest: State)
    ensures var t := Join(Meaning(signal), rest);
      && (forall f :: f in t.flags <==> signal == Raised(f, Some(true)) || f in rest.flags)
      && (forall s :: s in t.sources <==> signal == Source(s) || s in rest.sources)
      && (forall c :: c in t.checks <==> signal == Check(c) || c in rest.checks)
      && (forall a :: a in t.bypass <==> signal == Bypass(a) || a in rest.bypass)
      && (t.required <==> signal == Required || rest.required)
      && (t.forcePushBlocked <==> signal == BlocksForcePush || rest.forcePushBlocked)
      && (t.deletionBlocked <==> signal == BlocksDeletion || rest.deletionBlocked)
      && t.approvals == (if signal.Approvals? && signal.count > rest.approvals then signal.count else rest.approvals)
  {
  }

  // ----- The fields of the observation -----

  /** Each field of the observation, told by the signals that were read. */
  ghost predicate Reports(o: Observation, signals: seq<Signal>) {
    && (o.required <==> Required in signals)
    && (forall n: nat :: Approvals(n) in signals ==> n <= o.approvals)
    && (o.approvals == 0 || Approvals(o.approvals) in signals)
    && (o.codeOwner <==> Raised(CodeOwner, Some(true)) in signals)
    && (o.dismissStale <==> Raised(DismissStale, Some(true)) in signals)
    && (o.lastPush <==> Raised(LastPush, Some(true)) in signals)
    && (o.strict <==> Raised(Strict, Some(true)) in signals)
    && (o.forcePushBlocked <==> BlocksForcePush in signals)
    && (o.deletionBlocked <==> BlocksDeletion in signals)
    && Ascending(o.sources) && (forall x :: x in o.sources <==> Source(x) in signals)
    && Ascending(o.checks) && (forall x :: x in o.checks <==> Check(x) in signals)
    && Ascending(o.bypass) && (forall x :: x in o.bypass <==> Bypass(x) in signals)
  }

  ghost predicate ReportsState(o: Observation, st: State) {
    && o.required == st.required && o.approvals == st.approvals
    && (o.codeOwner <==> CodeOwner in st.flags) && (o.dismissStale <==> DismissStale in st.flags)
    && (o.lastPush <==> LastPush in st.flags) && (o.strict <==> Strict in st.flags)
    && o.forcePushBlocked == st.forcePushBlocked && o.deletionBlocked == st.deletionBlocked
    && Ascending(o.sources) && (forall x :: x in o.sources <==> x in st.sources)
    && Ascending(o.checks) && (forall x :: x in o.checks <==> x in st.checks)
    && Ascending(o.bypass) && (forall x :: x in o.bypass <==> x in st.bypass)
  }

  lemma ObservedState(st: State, admins: Option<bool>)
    ensures ReportsState(Observed(st, admins), st)
  {
    hide Ascending;
  }

  lemma StateReports(o: Observation, signals: seq<Signal>)
    requires ReportsState(o, All(signals))
    ensures Reports(o, signals)
  {
    hide All, Ascending;
    TotalMeans(signals);
  }

  /** An observation reports what was read, field by field. */
  lemma ObservedReports(protection: Option<Json>, rulesets: seq<Ruleset>)
    requires Merged(protection, rulesets).Some?
    ensures Reports(Observed(Merged(protection, rulesets).value, Admins(protection)),
                    ReadProtection(protection) + ReadRulesets(rulesets))
  {
    var signals := ReadProtection(protection) + ReadRulesets(rulesets);
    FoldIsJoin(NOTHING, signals);
    hide *;
    NothingJoined(All(signals));
    ObservedState(All(signals), Admins(protection));
    StateReports(Observed(All(signals), Admins(protection)), signals);
  }

  lemma NothingJoined(s: State)
    ensures Join(NOTHING, s) == s
  {
  }

  /** The rule type and the parameter by which a ruleset raises a flag. */
  function RuleField(f: Flag): (string, string) {
    match f
    case CodeOwner => ("pull_request", "require_code_owner_review")
    case DismissStale => ("pull_request", "dismiss_stale_reviews_on_push")
    case LastPush => ("pull_request", "require_last_push_approval")
    case Strict => ("required_status_checks", "strict_required_status_checks_policy")
  }

  predicate HasRule(rule: Json, kind: string) {
    rule.Object? && Field(rule.fields, "type", Null) == Text(kind)
  }

  function Parameters(rule: Json): map<string, Json> {
    if rule.Object? && Field(rule.fields, "parameters", Null).Object?
    then Field(rule.fields, "parameters", Null).fields else map[]
  }

  /** Signals of things that are only listed. */
  predicate IsListing(x: Signal) {
    x.Check? || x.Bypass? || x.Bad?
  }

  ghost predicate OnlyLists(signals: seq<Signal>) {
    forall x <- signals :: IsListing(x)
  }

  lemma {:induction false} FlattenedLists(items: seq<Json>, read: Json -> seq<Signal>)
    requires forall j :: OnlyLists(read(j))
    ensures OnlyLists(Flatten(items, read))
  {
    if items != [] {
      FlattenedLists(items[1..], read);
      assert OnlyLists(read(items[0]));
    }
  }

  lemma EachLists(j: Json, read: Json -> seq<Signal>)
    requires forall i :: OnlyLists(read(i))
    ensures OnlyLists(Each(j, read))
  {
    if j.Array? {
      FlattenedLists(j.items, read);
    }
  }

  /** A rule raises a flag exactly by the parameter that belongs to it. */
  lemma RuleRaises(rule: Json, f: Flag)
    ensures Raised(f, Some(true)) in ReadRule(rule) <==>
      HasRule(rule, RuleField(f).0) && Field(Parameters(rule), RuleField(f).1, Null) == Bool(true)
  {
    hide Each;
    EachLists(Field(Parameters(rule), "required_status_checks", Array([])), ReadCheck);
  }

  /** A rule asks for as many approvals as its own count says. */
  lemma RuleCounts(rule: Json, n: nat)
    requires n > 0
    ensures Approvals(n) in ReadRule(rule) <==>
      HasRule(rule, "pull_request") && Field(Parameters(rule), "required_approving_review_count", Null) == Int(n)
  {
    hide Each;
    EachLists(Field(Parameters(rule), "required_status_checks", Array([])), ReadCheck);
  }

  /** A rule requires pull requests, blocks force pushes or blocks deletions exactly by its type. */
  lemma RuleBlocks(rule: Json)
    ensures BlocksForcePush in ReadRule(rule) <==> HasRule(rule, "non_fast_forward")
    ensures BlocksDeletion in ReadRule(rule) <==> HasRule(rule, "deletion")
    ensures Bad !in ReadRule(rule) ==> (Required in ReadRule(rule) <==> HasRule(rule, "pull_request"))
  {
    hide Each;
    EachLists(Field(Parameters(rule), "required_status_checks", Array([])), ReadCheck);
  }

  /** The section and the field by which classic protection raises a flag. */
  function ClassicField(f: Flag): (string, string) {
    match f
    case CodeOwner => ("required_pull_request_reviews", "require_code_owner_reviews")
    case DismissStale => ("required_pull_request_reviews", "dismiss_stale_reviews")
    case LastPush => ("required_pull_request_reviews", "require_last_push_approval")
    case Strict => ("required_status_checks", "strict")
  }

  function Section(classic: Json, name: string): map<string, Json> {
    if classic.Object? && Field(classic.fields, name, Null).Object?
    then Field(classic.fields, name, Null).fields else map[]
  }

  lemma AllowancesList(j: Json)
    ensures OnlyLists(ReadAllowances(j))
  {
    hide Each;
    if j.Object? {
      EachLists(Field(j.fields, "apps", Array([])), AllowanceOf("app"));
      EachLists(Field(j.fields, "teams", Array([])), AllowanceOf("team"));
      EachLists(Field(j.fields, "users", Array([])), AllowanceOf("user"));
    }
  }

  /** The reviews section raises a flag exactly by the field that belongs to it. */
  lemma ReviewsMean(classic: Json, f: Flag)
    requires classic.Object?
    ensures var read := ReadReviews(Field(classic.fields, "required_pull_request_reviews", Null));
      && (Raised(f, Some(true)) in read <==>
          !f.Strict? && Field(Section(classic, ClassicField(f).0), ClassicField(f).1, Null) == Bool(true))
      && BlocksForcePush !in read && BlocksDeletion !in read
  {
    hide ReadAllowances;
    AllowancesList(Field(Section(classic, "required_pull_request_reviews"), "bypass_pull_request_allowances", Null));
  }

  lemma StatusesMean(classic: Json, f: Flag)
    requires classic.Object?
    ensures var read := ReadStatuses(Field(classic.fields, "required_status_checks", Null));
      && (Raised(f, Some(true)) in read <==>
          f.Strict? && Field(Section(classic, ClassicField(f).0), ClassicField(f).1, Null) == Bool(true))
      && BlocksForcePush !in read && BlocksDeletion !in read
  {
    var statuses := Section(classic, "required_status_checks");
    EachLists(Field(statuses, "contexts", Array([])), ReadContext);
    EachLists(Field(statuses, "checks", Array([])), ReadCheck);
    hide Each;
  }

  /** Classic protection raises a flag exactly by the field that belongs to it, and blocks force
      pushes and deletions exactly when they are not allowed. */
  lemma ClassicMeans(classic: Json, f: Flag)
    requires classic.Object?
    ensures Raised(f, Some(true)) in ReadClassic(classic) <==>
      Field(Section(classic, ClassicField(f).0), ClassicField(f).1, Null) == Bool(true)
    ensures BlocksForcePush in ReadClassic(classic) <==>
      Enabled(Field(classic.fields, "allow_force_pushes", Null)) == Some(false)
    ensures BlocksDeletion in ReadClassic(classic) <==>
      Enabled(Field(classic.fields, "allow_deletions", Null)) == Some(false)
  {
    hide ReadReviews, ReadStatuses, Enabled, Section, ClassicField;
    ReviewsMean(classic, f);
    StatusesMean(classic, f);
  }

  // ----- Order can decide -----

  /** A ruleset with one pull-request rule whose code-owner flag is the given value. */
  function WithCodeOwner(id: int, value: Json): Ruleset {
    map["id" := Int(id),
        "rules" := Array([Object(map["type" := Text("pull_request"),
                                     "parameters" := Object(map["require_code_owner_review" := value])])])]
  }

  lemma WithCodeOwnerReads(id: int, value: Json)
    requires id >= 1
    ensures ReadRuleset(WithCodeOwner(id, value)) ==
      [Source("ruleset:" + Decimal(id)), Required, Approvals(0),
        Raised(CodeOwner, if value.Bool? then Some(value.b) else None),
       Raised(DismissStale, Some(false)), Raised(LastPush, Some(false))]
  {
    hide Decimal;
    var rule := WithCodeOwner(id, value)["rules"].items[0];
    assert rule.fields["type"] == Text("pull_request");
    assert Flatten([rule], ReadRule) == ReadRule(rule) + [];
    assert Flatten([], ReadActor) == [];
  }

  /** Two rulesets that are accepted in one order and refused in the other. */
  lemma OrderCanDecide()
    ensures var raising, malformed := WithCodeOwner(1, Bool(true)), WithCodeOwner(2, Text("x"));
      Merged(None, [raising, malformed]).Some? && Merged(None, [malformed, raising]).None?
  {
    hide ReadRuleset, WithCodeOwner, Decimal;
    var raising, malformed := WithCodeOwner(1, Bool(true)), WithCodeOwner(2, Text("x"));
    WithCodeOwnerReads(1, Bool(true));
    WithCodeOwnerReads(2, Text("x"));
    MergedPair(raising, malformed);
    MergedPair(malformed, raising);
    FoldPullRequest(NOTHING, ReadRuleset(raising));
    FoldPullRequest(NOTHING, ReadRuleset(malformed));
    FoldPullRequest(Fold(NOTHING, ReadRuleset(raising)).value, ReadRuleset(malformed));
  }

  lemma MergedPair(a: Ruleset, b: Ruleset)
    ensures Merged(None, [a, b]) ==
      match Fold(NOTHING, ReadRuleset(a)) case None => None case Some(t) => Fold(t, ReadRuleset(b))
  {
    hide ReadRuleset, Fold;
    assert [a, b][..1] == [a] && [a][..0] == [] && ReadRulesets([a]) == [] + ReadRuleset(a) == ReadRuleset(a);
    assert ReadProtection(None) + ReadRulesets([a, b]) == ReadRuleset(a) + ReadRuleset(b);
    FoldSplits(NOTHING, ReadRuleset(a), ReadRuleset(b));
  }

  /** Reading a pull-request rule hangs on its code-owner flag alone. */
  lemma FoldPullRequest(st: State, signals: seq<Signal>)
    requires |signals| == 6 && signals[0].Source? && signals[1].Required? && signals[2].Approvals?
    requires signals[3].Raised? && signals[3].flag.CodeOwner?
    requires signals[4] == Raised(DismissStale, Some(false)) && signals[5] == Raised(LastPush, Some(false))
    ensures Fold(st, signals).None? <==> signals[3].value.None? && CodeOwner !in st.flags
    ensures Fold(st, signals).Some? ==>
      (CodeOwner in Fold(st, signals).value.flags <==> CodeOwner in st.flags || signals[3].value == Some(true))
  {
    hide Meaning;
    var s := FoldPlain(st, signals);
    s := FoldPlain(s, signals[1..]);
    s := FoldPlain(s, signals[2..]);
    assert signals[2..][1..] == signals[3..] && signals[3..][1..] == signals[4..];
    JoinOne(s, signals[3]);
    if !Fails(s, signals[3]) {
      var t := FoldPlain(Join(s, Meaning(signals[3])), signals[4..]);
      t := FoldPlain(t, signals[5..]);
      assert signals[5..][1..] == [];
    }
  }

  /** Reading a signal that raises no flag and is not malformed. */
  lemma FoldPlain(st: State, signals: seq<Signal>) returns (t: State)
    requires signals != [] && !signals[0].Bad? && (signals[0].Raised? ==> signals[0].value == Some(false))
    ensures Fold(st, signals) == Fold(t, signals[1..]) && t.flags == st.flags
    ensures forall i: nat :: i + 1 <= |signals| ==> signals[1..][i..] == signals[i + 1..]
  {
    t := Join(st, Meaning(signals[0]));
    JoinOne(st, signals[0]);
  }
}
