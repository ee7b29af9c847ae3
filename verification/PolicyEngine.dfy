// The policy engine: matching the loaded policies against a request, resolving conflicts, and rate limits.
module PolicyEngine {
  import opened Collections
  import opened Conflicts
  import opened Options
  import Expressions
  import RL = RateLimits

  /** The truth of every atom in the request's context. */
  type Facts = string -> bool

  /** A rule; an empty condition stands for none. */
  datatype Rule = Rule(
    name: Option<string>, ruleAction: Option<Action>, effect: Option<string>, condition: string,
    limit: Option<RL.Limit>, priority: Option<int>, enabled: Option<bool>)

  /** A policy; an empty agent or an empty list of agents stands for none. */
  datatype Policy = Policy(
    name: string, agent: string, agents: seq<string>, scope: Option<string>, rules: seq<Rule>,
    defaultAction: Option<Action>)

  type Windows = map<string, RL.Window>

  datatype Decision = Decision(allowed: bool, action: Action, matched: Option<(string, string)>, rateLimited: bool)

  // ---------------------------------------------------------------- matching

  function AsPolicyAction(text: string): Option<Action> {
    if text == "allow" then Some(Allow)
    else if text == "deny" then Some(Deny)
    else if text == "warn" then Some(Warn)
    else if text == "require_approval" then Some(RequireApproval)
    else if text == "log" then Some(Log)
    else None
  }

  function ParseScope(text: string): Option<Scope> {
    if text == "global" then Some(Global)
    else if text == "tenant" then Some(Tenant)
    else if text == "organization" then Some(Organization)
    else if text == "agent" then Some(Agent)
    else None
  }

  /** An unknown scope ranks as the most specific one. */
  function ScopeOf(policy: Policy): Scope {
    if policy.scope.None? then Global
    else if ParseScope(policy.scope.value).Some? then ParseScope(policy.scope.value).value
    else Agent
  }

  function ActionOf(rule: Rule): Action {
    if rule.ruleAction.Some? then rule.ruleAction.value
    else if rule.effect.Some? && AsPolicyAction(rule.effect.value).Some? then AsPolicyAction(rule.effect.value).value
    else Deny
  }

  predicate AppliesTo(policy: Policy, agentDid: string) {
    || (policy.agent != "" && policy.agent == agentDid)
    || agentDid in policy.agents
    || "*" in policy.agents
    || (policy.agent == "" && policy.agents == [])
  }

  predicate ConditionHolds(rule: Rule, facts: Facts) {
    rule.condition == "" || Expressions.Evaluate(rule.condition, facts)
  }

  /** The rule takes part in the decision. */
  predicate Fires(rule: Rule, facts: Facts) {
    rule.enabled != Some(false) && ConditionHolds(rule, facts)
  }

  function NameOf(rule: Rule): string {
    if rule.name.Some? then rule.name.value else "unnamed"
  }

  function CandidateFor(policy: Policy, rule: Rule): Candidate {
    var priority := if rule.priority.Some? then rule.priority.value else 0;
    Candidate(ActionOf(rule), priority, ScopeOf(policy), policy.name, NameOf(rule))
  }

  function RuleCandidates(policy: Policy, rules: seq<Rule>, facts: Facts): seq<Candidate> {
    if rules == [] then []
    else
      var last := rules[|rules| - 1];
      RuleCandidates(policy, rules[..|rules| - 1], facts)
      + if Fires(last, facts) then [CandidateFor(policy, last)] else []
  }

  function PolicyCandidates(policy: Policy, agentDid: string, facts: Facts): seq<Candidate> {
    if AppliesTo(policy, agentDid) then RuleCandidates(policy, policy.rules, facts) else []
  }

  /** The candidates of all applicable policies, in the order of loading and then of the rules. */
  function Candidates(policies: seq<Policy>, agentDid: string, facts: Facts): seq<Candidate> {
    if policies == [] then []
    else
      Candidates(policies[..|policies| - 1], agentDid, facts)
      + PolicyCandidates(policies[|policies| - 1], agentDid, facts)
  }

  /** The default action of the first applicable policy, or else a denial. */
  function DefaultFor(policies: seq<Policy>, agentDid: string): Action {
    if policies == [] then Deny
    else if AppliesTo(policies[0], agentDid) then
      if policies[0].defaultAction.Some? then policies[0].defaultAction.value else Deny
    else DefaultFor(policies[1..], agentDid)
  }

  // ---------------------------------------------------------------- one evaluation

  /** Lookup by name alone: neither whether a rule is enabled nor whether it matched plays a part. */
  function FindRule(rules: seq<Rule>, name: string): Option<Rule> {
    if rules == [] then None
    else if rules[0].name == Some(name) then Some(rules[0])
    else FindRule(rules[1..], name)
  }

  function FindInPolicies(policies: seq<Policy>, policyName: string, ruleName: string): Option<Rule> {
    if policies == [] then None
    else if policies[0].name == policyName then FindRule(policies[0].rules, ruleName)
    else FindInPolicies(policies[1..], policyName, ruleName)
  }

  /** The name and the limit that the winner's window goes by, when it is limited at all. */
  function LimitFor(policies: seq<Policy>, winner: Candidate): Option<RL.Limit> {
    var rule := FindInPolicies(policies, winner.policyName, winner.ruleName);
    if rule.Some? && winner.ruleName != "" then rule.value.limit else None
  }

  function WindowAt(windows: Windows, name: string): Option<RL.Window> {
    if name in windows then Some(windows[name]) else None
  }

  function WithWindow(windows: Windows, name: string, w: Option<RL.Window>): Windows {
    if w.Some? then windows[name := w.value] else windows - {name}
  }

  predicate Permits(action: Action) {
    action == Allow || action == Warn || action == Log
  }

  /** Asking a window for admission: the answer, and the windows afterwards. */
  function Charged(windows: Windows, name: string, limit: RL.Limit, now: int): (bool, Windows) {
    var (admitted, next) := RL.Check(limit, WindowAt(windows, name), now);
    (admitted, WithWindow(windows, name, next))
  }

  function Decide(winner: Candidate, limit: Option<RL.Limit>, windows: Windows, now: int): (Decision, Windows) {
    var matched := Some((winner.policyName, winner.ruleName));
    var plain := Decision(Permits(winner.action), winner.action, matched, false);
    if limit.None? then (plain, windows)
    else
      var (admitted, after) := Charged(windows, winner.ruleName, limit.value, now);
      (if admitted then plain else Decision(false, Deny, matched, true), after)
  }

  function Evaluate(strategy: Strategy, policies: seq<Policy>, windows: Windows, agentDid: string, facts: Facts,
                    now: int)
    : (Decision, Windows)
  {
    var cs := Candidates(policies, agentDid, facts);
    if cs == [] then
      var action := DefaultFor(policies, agentDid);
      (Decision(action == Allow, action, None, false), windows)
    else
      var winner := Winner(strategy, cs);
      Decide(winner, LimitFor(policies, winner), windows, now)
  }

  // ---------------------------------------------------------------- the engine

  predicate DistinctNames(policies: seq<Policy>) {
    forall i, j :: 0 <= i < j < |policies| ==> policies[i].name != policies[j].name
  }

  predicate KnownScope(policy: Policy) {
    policy.scope.Some? ==> ParseScope(policy.scope.value).Some?
  }

  /** Loading replaces the policy of the same name where it stands. */
  function Loaded(policies: seq<Policy>, policy: Policy): seq<Policy> {
    if policies == [] then [policy]
    else if policies[0].name == policy.name then [policy] + policies[1..]
    else [policies[0]] + Loaded(policies[1..], policy)
  }

  function Removed(policies: seq<Policy>, name: string): seq<Policy> {
    if policies == [] then []
    else if policies[0].name == name then policies[1..]
    else [policies[0]] + Removed(policies[1..], name)
  }

  /** The first policy's name is not used again. */
  lemma {:induction false} FirstIsApart(policies: seq<Policy>)
    requires DistinctNames(policies) && policies != []
    ensures DistinctNames(policies[1..]) && forall p :: p in policies[1..] ==> p.name != policies[0].name
  {
    var rest := policies[1..];
    forall p | p in rest ensures p.name != policies[0].name {
      var i :| 0 <= i < |rest| && rest[i] == p;
      assert policies[i + 1] == p;
    }
  }

  lemma {:induction false} DistinctCons(first: Policy, rest: seq<Policy>)
    requires DistinctNames(rest) && forall p :: p in rest ==> p.name != first.name
    ensures DistinctNames([first] + rest)
  {
    forall j | 0 <= j < |rest| ensures rest[j].name != first.name {
      assert rest[j] in rest;
    }
  }

  lemma {:induction false} LoadedMeaning(policies: seq<Policy>, policy: Policy)
    requires DistinctNames(policies)
    ensures DistinctNames(Loaded(policies, policy))
    ensures forall p :: p in Loaded(policies, policy) <==> p == policy || (p in policies && p.name != policy.name)
  {
    if policies != [] {
      HeadOrTail(policies);
      FirstIsApart(policies);
      if policies[0].name != policy.name {
        LoadedMeaning(policies[1..], policy);
        DistinctCons(policies[0], Loaded(policies[1..], policy));
      } else {
        DistinctCons(policy, policies[1..]);
      }
    }
  }

  lemma {:induction false} RemovedMeaning(policies: seq<Policy>, name: string)
    requires DistinctNames(policies)
    ensures DistinctNames(Removed(policies, name))
    ensures forall p :: p in Removed(policies, name) <==> p in policies && p.name != name
  {
    if policies != [] {
      HeadOrTail(policies);
      FirstIsApart(policies);
      if policies[0].name != name {
        RemovedMeaning(policies[1..], name);
        DistinctCons(policies[0], Removed(policies[1..], name));
      }
    }
  }

  datatype LoadError = InvalidScope(scope: string)

  class PolicyEngine {
    const strategy: Strategy
    const resolver: ConflictResolver
    var policies: seq<Policy>
    var windows: Windows

    ghost predicate Valid()
      reads this
    {
      && resolver.strategy == strategy
      && DistinctNames(policies)
      && forall p :: p in policies ==> KnownScope(p)
    }

    constructor (conflictStrategy: Option<Strategy>)
      ensures Valid() && policies == [] && windows == map[]
      ensures strategy == if conflictStrategy.Some? then conflictStrategy.value else PriorityFirstMatch
    {
      var chosen := if conflictStrategy.Some? then conflictStrategy.value else PriorityFirstMatch;
      var r := new ConflictResolver(chosen);
      strategy, resolver := chosen, r;
      policies, windows := [], map[];
    }

    method LoadPolicy(policy: Policy) returns (refusal: Option<LoadError>)
      requires Valid()
      modifies this`policies
      ensures Valid() && (refusal.None? <==> KnownScope(policy))
      ensures policies == if refusal.None? then Loaded(old(policies), policy) else old(policies)
    {
      if policy.scope.Some? && ParseScope(policy.scope.value).None? {
        return Some(InvalidScope(policy.scope.value));
      }
      LoadedMeaning(policies, policy);
      policies := Loaded(policies, policy);
      refusal := None;
    }

    method RemovePolicy(name: string) returns (found: bool)
      requires Valid()
      modifies this`policies
      ensures Valid() && policies == Removed(old(policies), name)
      ensures found <==> exists p :: p in old(policies) && p.name == name
    {
      RemovedMeaning(policies, name);
      found := exists p :: p in policies && p.name == name;
      policies := Removed(policies, name);
    }

    method ClearPolicies()
      requires Valid()
      modifies this`policies, this`windows
      ensures Valid() && policies == [] && windows == map[]
    {
      policies, windows := [], map[];
    }

    method CollectCandidates(agentDid: string, facts: Facts) returns (cs: seq<Candidate>)
      ensures cs == Candidates(policies, agentDid, facts)
    {
      cs := [];
      for i := 0 to |policies|
        invariant cs == Candidates(policies[..i], agentDid, facts)
      {
        var policy := policies[i];
        assert policies[..i + 1][..i] == policies[..i];
        if AppliesTo(policy, agentDid) {
          ghost var before := cs;
          for k := 0 to |policy.rules|
            invariant cs == before + RuleCandidates(policy, policy.rules[..k], facts)
          {
            var rule := policy.rules[k];
            assert policy.rules[..k + 1][..k] == policy.rules[..k];
            if rule.enabled != Some(false) && ConditionHolds(rule, facts) {
              cs := cs + [CandidateFor(policy, rule)];
            }
          }
          assert policy.rules[..|policy.rules|] == policy.rules;
        }
      }
      assert policies[..|policies|] == policies;
    }

    method IsRateLimited(name: string, limit: RL.Limit, now: int) returns (limited: bool)
      modifies this`windows
      ensures limited <==> RL.Exhausted(RL.Live(WindowAt(old(windows), name), now), limit)
      ensures windows == WithWindow(old(windows), name, RL.Live(WindowAt(old(windows), name), now))
    {
      if name !in windows {
        assert windows - {name} == windows;
        return false;
      }
      if now > windows[name].resetAt {
        windows := windows - {name};
        return false;
      }
      assert windows[name := windows[name]] == windows;
      limited := limit.count.Some? && windows[name].count >= limit.count.value;
    }

    method IncrementRateLimit(name: string, limit: RL.Limit, now: int)
      modifies this`windows
      ensures windows == old(windows)[name := RL.Counted(WindowAt(old(windows), name), limit, now)]
    {
      var w := if name in windows then windows[name] else RL.Window(0, now + limit.periodMs);
      windows := windows[name := w.(count := w.count + 1)];
    }

    method Charge(name: string, limit: RL.Limit, now: int) returns (admitted: bool)
      modifies this`windows
      ensures (admitted, windows) == Charged(old(windows), name, limit, now)
    {
      ghost var live := RL.Live(WindowAt(windows, name), now);
      var limited := IsRateLimited(name, limit, now);
      if limited {
        return false;
      }
      assert WindowAt(windows, name) == live;
      assert windows[name := RL.Counted(live, limit, now)] == old(windows)[name := RL.Counted(live, limit, now)];
      IncrementRateLimit(name, limit, now);
      admitted := true;
    }

    method EvaluatePolicy(agentDid: string, facts: Facts, now: int) returns (d: Decision)
      requires Valid()
      modifies this`windows
      ensures (d, windows) == Evaluate(strategy, policies, old(windows), agentDid, facts, now)
    {
      var cs := CollectCandidates(agentDid, facts);
      if |cs| > 0 {
        var r := resolver.Resolve(cs);
        var winner := r.value.winner;
        var limit := LimitFor(policies, winner);
        if limit.Some? {
          var admitted := Charge(winner.ruleName, limit.value, now);
          if !admitted {
            return Decision(false, Deny, Some((winner.policyName, winner.ruleName)), true);
          }
        }
        return Decision(Permits(winner.action), winner.action, Some((winner.policyName, winner.ruleName)), false);
      }
      var action := DefaultFor(policies, agentDid);
      d := Decision(action == Allow, action, None, false);
    }
  }

  // ---------------------------------------------------------------- one more deny rule

  /** The policies with one more rule at the end of the policy at `k`. */
  function WithRule(policies: seq<Policy>, k: nat, rule: Rule): seq<Policy>
    requires k < |policies|
  {
    policies[k := policies[k].(rules := policies[k].rules + [rule])]
  }

  /** The candidates of the policies with one more rule: the same ones, or one more at some place. */
  ghost predicate OneMoreOrSame(cs: seq<Candidate>, more: seq<Candidate>, d: Candidate) {
    cs == more || exists at :: IsInsertion(cs, more, at, d)
  }

  lemma {:induction false} InsertionJoin(cs: seq<Candidate>, more: seq<Candidate>, d: Candidate, rest: seq<Candidate>)
    requires OneMoreOrSame(cs, more, d)
    ensures OneMoreOrSame(cs + rest, more + rest, d)
  {
    if cs != more {
      var at :| IsInsertion(cs, more, at, d);
      assert IsInsertion(cs + rest, more + rest, at, d);
    }
  }

  lemma {:induction false} RuleAddsOne(policies: seq<Policy>, k: nat, rule: Rule, agentDid: string, facts: Facts)
    requires k < |policies|
    ensures OneMoreOrSame(Candidates(policies, agentDid, facts),
                          Candidates(WithRule(policies, k, rule), agentDid, facts),
                          CandidateFor(policies[k], rule))
  {
    var n := |policies| - 1;
    var d, more := CandidateFor(policies[k], rule), WithRule(policies, k, rule);
    if k < n {
      RuleAddsOne(policies[..n], k, rule, agentDid, facts);
      assert more[..n] == WithRule(policies[..n], k, rule);
      InsertionJoin(Candidates(policies[..n], agentDid, facts), Candidates(more[..n], agentDid, facts), d,
                    PolicyCandidates(policies[n], agentDid, facts));
    } else {
      assert more[..n] == policies[..n];
      LastRuleAddsOne(Candidates(policies[..n], agentDid, facts), policies[n], rule, agentDid, facts);
    }
  }

  lemma {:induction false} LastRuleAddsOne(cs: seq<Candidate>, policy: Policy, rule: Rule, agentDid: string,
                                           facts: Facts)
    ensures OneMoreOrSame(cs + PolicyCandidates(policy, agentDid, facts),
                          cs + PolicyCandidates(policy.(rules := policy.rules + [rule]), agentDid, facts),
                          CandidateFor(policy, rule))
  {
    var longer := policy.(rules := policy.rules + [rule]);
    var now, longerCs := PolicyCandidates(policy, agentDid, facts), PolicyCandidates(longer, agentDid, facts);
    assert longer.rules[..|policy.rules|] == policy.rules;
    SameCandidates(policy, longer, policy.rules, facts);
    if AppliesTo(policy, agentDid) && Fires(rule, facts) {
      assert longerCs == now + [CandidateFor(policy, rule)];
      assert IsInsertion(cs + now, cs + longerCs, |cs + now|, CandidateFor(policy, rule));
    } else {
      assert longerCs == now;
    }
  }

  lemma {:induction false} SameCandidates(policy: Policy, other: Policy, rules: seq<Rule>, facts: Facts)
    requires policy.name == other.name && policy.scope == other.scope
    ensures RuleCandidates(policy, rules, facts) == RuleCandidates(other, rules, facts)
  {
    if rules != [] {
      SameCandidates(policy, other, rules[..|rules| - 1], facts);
    }
  }

  lemma {:induction false} FindRuleAppended(rules: seq<Rule>, rule: Rule, name: string)
    ensures FindRule(rules, name).Some? ==> FindRule(rules + [rule], name) == FindRule(rules, name)
  {
    if rules != [] {
      assert (rules + [rule])[1..] == rules[1..] + [rule];
      FindRuleAppended(rules[1..], rule, name);
    }
  }

  /** A rule that could be looked up before is still the one that is found. */
  lemma {:induction false} FindAppended(policies: seq<Policy>, k: nat, rule: Rule, policyName: string, ruleName: string)
    requires k < |policies|
    ensures var before := FindInPolicies(policies, policyName, ruleName);
            before.Some? ==> FindInPolicies(WithRule(policies, k, rule), policyName, ruleName) == before
  {
    var more := WithRule(policies, k, rule);
    if k == 0 {
      FindRuleAppended(policies[0].rules, rule, ruleName);
      assert more[1..] == policies[1..];
    } else {
      assert more[1..] == WithRule(policies[1..], k - 1, rule);
      FindAppended(policies[1..], k - 1, rule, policyName, ruleName);
    }
  }

  lemma {:induction false} SameDefault(policies: seq<Policy>, k: nat, rule: Rule, agentDid: string)
    requires k < |policies|
    ensures DefaultFor(WithRule(policies, k, rule), agentDid) == DefaultFor(policies, agentDid)
  {
    var more := WithRule(policies, k, rule);
    if k == 0 {
      assert more[1..] == policies[1..];
    } else {
      assert more[1..] == WithRule(policies[1..], k - 1, rule);
      SameDefault(policies[1..], k - 1, rule, agentDid);
    }
  }

  /**
   * Appending a denying rule to a loaded policy never turns a refused evaluation into an allowed one. It holds under
   * every strategy, for rules of any priority, name and limit, and whatever the windows are.
   */
  lemma {:induction false} DenyRuleNeverLoosens(strategy: Strategy, policies: seq<Policy>, k: nat, rule: Rule,
                                                windows: Windows, agentDid: string, facts: Facts, now: int)
    requires k < |policies| && ActionOf(rule) == Deny
    ensures Evaluate(strategy, WithRule(policies, k, rule), windows, agentDid, facts, now).0.allowed
        ==> Evaluate(strategy, policies, windows, agentDid, facts, now).0.allowed
  {
    var more := WithRule(policies, k, rule);
    var cs, cs' := Candidates(policies, agentDid, facts), Candidates(more, agentDid, facts);
    var d := CandidateFor(policies[k], rule);
    RuleAddsOne(policies, k, rule, agentDid, facts);
    SameDefault(policies, k, rule, agentDid);
    if cs != cs' {
      var at :| IsInsertion(cs, cs', at, d);
      OneMoreDeny(strategy, cs, cs', at, d);
    }
    if cs != [] {
      var winner := Winner(strategy, cs);
      FindAppended(policies, k, rule, winner.policyName, winner.ruleName);
      LimitOnlyTightens(winner, LimitFor(policies, winner), LimitFor(more, winner), windows, now);
    }
    if cs' != [] {
      DenyIsRefused(Winner(strategy, cs'), LimitFor(more, Winner(strategy, cs')), windows, now);
    }
  }

  lemma {:induction false} LimitOnlyTightens(winner: Candidate, limit: Option<RL.Limit>, other: Option<RL.Limit>,
                                             windows: Windows, now: int)
    requires limit == other || limit.None?
    ensures Decide(winner, other, windows, now).0.allowed ==> Decide(winner, limit, windows, now).0.allowed
  {
  }

  lemma {:induction false} DenyIsRefused(winner: Candidate, limit: Option<RL.Limit>, windows: Windows, now: int)
    ensures winner.action == Deny ==> !Decide(winner, limit, windows, now).0.allowed
  {
  }

  /** Under deny-overrides, a denying rule that fires in an applicable policy refuses the request. */
  lemma {:induction false} FiringDenyRefuses(policies: seq<Policy>, k: nat, m: nat, windows: Windows, agentDid: string,
                                             facts: Facts, now: int)
    requires k < |policies| && m < |policies[k].rules| && AppliesTo(policies[k], agentDid)
    requires Fires(policies[k].rules[m], facts) && ActionOf(policies[k].rules[m]) == Deny
    ensures !Evaluate(DenyOverrides, policies, windows, agentDid, facts, now).0.allowed
  {
    FiringIsCandidate(policies, k, m, agentDid, facts);
    DenyOverridesAll(Candidates(policies, agentDid, facts));
  }

  lemma {:induction false} FiringIsCandidate(policies: seq<Policy>, k: nat, m: nat, agentDid: string, facts: Facts)
    requires k < |policies| && m < |policies[k].rules| && AppliesTo(policies[k], agentDid)
    requires Fires(policies[k].rules[m], facts)
    ensures HasAction(Candidates(policies, agentDid, facts), ActionOf(policies[k].rules[m]))
  {
    var n := |policies| - 1;
    var before, last := Candidates(policies[..n], agentDid, facts), PolicyCandidates(policies[n], agentDid, facts);
    var all := Candidates(policies, agentDid, facts);
    assert all == before + last;
    var action := ActionOf(policies[k].rules[m]);
    if k < n {
      FiringIsCandidate(policies[..n], k, m, agentDid, facts);
      var i :| 0 <= i < |before| && before[i].action == action;
      assert all[i].action == action;
    } else {
      var i := FiringAmongRules(policies[n], policies[n].rules, m, facts);
      assert all[|before| + i].action == action;
    }
  }

  lemma {:induction false} FiringAmongRules(policy: Policy, rules: seq<Rule>, m: nat, facts: Facts) returns (i: nat)
    requires m < |rules| && Fires(rules[m], facts)
    ensures i < |RuleCandidates(policy, rules, facts)|
      && RuleCandidates(policy, rules, facts)[i].action == ActionOf(rules[m])
  {
    var n := |rules| - 1;
    if m < n {
      i := FiringAmongRules(policy, rules[..n], m, facts);
    } else {
      i := |RuleCandidates(policy, rules[..n], facts)|;
    }
  }

  /**
   * Over two evaluations the same addition can loosen: a request that the new rule turns away no longer uses up the
   * limit of the rule it overrides, so that the next request is admitted where it was refused.
   */
  lemma {:induction false} RunsCanLoosen(p: Policy, allow: Rule, deny: Rule, agentDid: string, first: Facts,
                                         second: Facts,
                                         period: RL.Period, now: int)
    requires p.rules == [allow] && AppliesTo(p, agentDid)
    requires allow.name.Some? && deny.name.Some? && allow.name != deny.name && allow.name.value != ""
    requires ActionOf(allow) == Allow && allow.priority == Some(0) && allow.limit == Some(RL.Limit(Some(1), period))
    requires ActionOf(deny) == Deny && deny.priority == Some(1) && deny.limit == None
    requires Fires(allow, first) && Fires(allow, second) && Fires(deny, first) && !Fires(deny, second)
    ensures var more := WithRule([p], 0, deny);
            var w := Evaluate(PriorityFirstMatch, [p], map[], agentDid, first, now).1;
            var w' := Evaluate(PriorityFirstMatch, more, map[], agentDid, first, now).1;
            && !Evaluate(PriorityFirstMatch, [p], w, agentDid, second, now + period).0.allowed
            && Evaluate(PriorityFirstMatch, more, w', agentDid, second, now + period).0.allowed
  {
    var q := p.(rules := [allow, deny]);
    assert [allow] + [deny] == [allow, deny];
    assert WithRule([p], 0, deny) == [q];
    WithoutDeny(p, allow, deny, agentDid, first);
    WithoutDeny(p, allow, deny, agentDid, second);
    WithDeny(q, allow, deny, agentDid, first);
    WithDeny(q, allow, deny, agentDid, second);
    Lookup(p, allow, deny);
    Lookup(q, allow, deny);
    OneCallPerWindow(CandidateFor(p, allow), period, now);
  }

  /** One call uses up a limit of one, until the window has run out. */
  lemma {:induction false} OneCallPerWindow(winner: Candidate, period: RL.Period, now: int)
    requires winner.action == Allow
    ensures var limit := Some(RL.Limit(Some(1), period));
            && Decide(winner, limit, map[], now + period).0.allowed
            && !Decide(winner, limit, Decide(winner, limit, map[], now).1, now + period).0.allowed
  {
  }

  lemma {:induction false} WithoutDeny(p: Policy, allow: Rule, deny: Rule, agentDid: string, facts: Facts)
    requires p.rules == [allow] && AppliesTo(p, agentDid) && Fires(allow, facts)
    ensures Candidates([p], agentDid, facts) == [CandidateFor(p, allow)]
    ensures Winner(PriorityFirstMatch, Candidates([p], agentDid, facts)) == CandidateFor(p, allow)
  {
    TwoRules(p, allow, deny, facts);
    OnePolicy(p, agentDid, facts);
    var i := WinnerIsFirstMaximal(PriorityFirstMatch, [CandidateFor(p, allow)]);
  }

  lemma {:induction false} WithDeny(q: Policy, allow: Rule, deny: Rule, agentDid: string, facts: Facts)
    requires q.rules == [allow, deny] && AppliesTo(q, agentDid) && Fires(allow, facts)
    requires allow.priority == Some(0) && deny.priority == Some(1)
    ensures Candidates([q], agentDid, facts) != []
    ensures Winner(PriorityFirstMatch, Candidates([q], agentDid, facts))
      == CandidateFor(q, if Fires(deny, facts) then deny else allow)
  {
    TwoRules(q, allow, deny, facts);
    OnePolicy(q, agentDid, facts);
    var a, d := CandidateFor(q, allow), CandidateFor(q, deny);
    var i := WinnerIsFirstMaximal(PriorityFirstMatch, Candidates([q], agentDid, facts));
    if Fires(deny, facts) {
      assert Beats(PriorityFirstMatch, d, a) && [a, d][1] == d;
    }
  }

  lemma {:induction false} TwoRules(policy: Policy, r: Rule, s: Rule, facts: Facts)
    requires Fires(r, facts)
    ensures RuleCandidates(policy, [r], facts) == [CandidateFor(policy, r)]
    ensures RuleCandidates(policy, [r, s], facts)
         == if Fires(s, facts) then [CandidateFor(policy, r), CandidateFor(policy, s)] else [CandidateFor(policy, r)]
  {
    assert [r][..0] == [] && [r, s][..1] == [r];
    assert RuleCandidates(policy, [], facts) + [CandidateFor(policy, r)] == [CandidateFor(policy, r)];
  }

  lemma {:induction false} OnePolicy(policy: Policy, agentDid: string, facts: Facts)
    ensures Candidates([policy], agentDid, facts) == PolicyCandidates(policy, agentDid, facts)
  {
    assert [policy][..0] == [];
    assert Candidates([], agentDid, facts) + PolicyCandidates(policy, agentDid, facts)
      == PolicyCandidates(policy, agentDid, facts);
  }

  lemma {:induction false} Lookup(policy: Policy, r: Rule, s: Rule)
    requires (policy.rules == [r] || policy.rules == [r, s]) && r.name.Some? && s.name.Some? && r.name != s.name
    ensures FindInPolicies([policy], policy.name, r.name.value) == Some(r)
    ensures policy.rules == [r, s] ==> FindInPolicies([policy], policy.name, s.name.value) == Some(s)
  {
    assert [r, s][1..] == [s];
    assert FindRule([s], s.name.value) == Some(s);
  }

  // ---------------------------------------------------------------- whose limit is charged

  /** The rule at `j` is the first one of that name. */
  predicate FirstNamed(rules: seq<Rule>, j: int, name: string) {
    0 <= j < |rules| && rules[j].name == Some(name) && forall l :: 0 <= l < j ==> rules[l].name != Some(name)
  }

  lemma {:induction false} FindRuleMeaning(rules: seq<Rule>, name: string)
    ensures var found := FindRule(rules, name);
            if found.None? then forall j :: !FirstNamed(rules, j, name)
            else exists j :: FirstNamed(rules, j, name) && rules[j] == found.value
  {
    if rules != [] && rules[0].name != Some(name) {
      var rest := rules[1..];
      FindRuleMeaning(rest, name);
      if FindRule(rest, name).Some? {
        var j :| FirstNamed(rest, j, name) && rest[j] == FindRule(rest, name).value;
        assert FirstNamed(rules, j + 1, name);
      } else {
        forall j ensures !FirstNamed(rules, j, name) {
          assert FirstNamed(rules, j, name) ==> FirstNamed(rest, j - 1, name);
        }
      }
    } else if rules != [] {
      assert FirstNamed(rules, 0, name);
    }
  }

  lemma {:induction false} OnlyOneIsFirst(rules: seq<Rule>, j: int, l: int, name: string)
    requires FirstNamed(rules, j, name) && FirstNamed(rules, l, name)
    ensures j == l
  {
  }

  lemma {:induction false} FindOwnPolicy(policies: seq<Policy>, k: nat, ruleName: string)
    requires DistinctNames(policies) && k < |policies|
    ensures FindInPolicies(policies, policies[k].name, ruleName) == FindRule(policies[k].rules, ruleName)
  {
    if k > 0 {
      FirstIsApart(policies);
      FindOwnPolicy(policies[1..], k - 1, ruleName);
    }
  }

  /**
   * A winning rule is charged by its own limit if and only if the first rule of its name in its policy has that limit,
   * be it the rule itself or another one; a rule that goes by no name or an empty one is never limited by its own, only
   * by that of a rule which is really called so. In particular a rule keeps its own when it is the first of its name.
   */
  lemma {:induction false} OwnLimitExactlyWhen(policies: seq<Policy>, k: nat, m: nat)
    requires DistinctNames(policies) && k < |policies| && m < |policies[k].rules|
    ensures var rules, rule := policies[k].rules, policies[k].rules[m];
            var charged := LimitFor(policies, CandidateFor(policies[k], rule));
            var name := NameOf(rule);
            && (rule.limit.Some? ==>
                  (charged == rule.limit <==>
                     name != "" && exists j :: FirstNamed(rules, j, name) && rules[j].limit == rule.limit))
            && (rule.limit.None? ==>
                  (charged.None? <==> name == "" || forall j :: FirstNamed(rules, j, name) ==> rules[j].limit.None?))
            && (FirstNamed(rules, m, name) && name != "" ==> charged == rule.limit)
  {
    var rules, rule := policies[k].rules, policies[k].rules[m];
    FindOwnPolicy(policies, k, NameOf(rule));
    FindRuleMeaning(rules, NameOf(rule));
    forall j, l | FirstNamed(rules, j, NameOf(rule)) && FirstNamed(rules, l, NameOf(rule)) ensures j == l {
      OnlyOneIsFirst(rules, j, l, NameOf(rule));
    }
  }

  lemma {:induction false} CandidateIsRule(policy: Policy, rules: seq<Rule>, facts: Facts, i: nat) returns (m: nat)
    requires i < |RuleCandidates(policy, rules, facts)|
    ensures m < |rules| && Fires(rules[m], facts)
      && RuleCandidates(policy, rules, facts)[i] == CandidateFor(policy, rules[m])
  {
    var init := rules[..|rules| - 1];
    if i < |RuleCandidates(policy, init, facts)| {
      m := CandidateIsRule(policy, init, facts, i);
    } else {
      m := |rules| - 1;
    }
  }

  /** Every candidate, the winner among them, is a firing rule of an applicable policy. */
  lemma {:induction false} CandidateIsFiring(policies: seq<Policy>, agentDid: string, facts: Facts, i: nat)
    returns (k: nat, m: nat)
    requires i < |Candidates(policies, agentDid, facts)|
    ensures k < |policies| && m < |policies[k].rules| && AppliesTo(policies[k], agentDid)
    ensures Fires(policies[k].rules[m], facts)
    ensures Candidates(policies, agentDid, facts)[i] == CandidateFor(policies[k], policies[k].rules[m])
  {
    var init, last := policies[..|policies| - 1], policies[|policies| - 1];
    var before := Candidates(init, agentDid, facts);
    if i < |before| {
      k, m := CandidateIsFiring(init, agentDid, facts, i);
    } else {
      k := |policies| - 1;
      m := CandidateIsRule(last, last.rules, facts, i - |before|);
    }
  }

  /**
   * An evaluation's winner is charged by its own limit, under all strategies, where every rule is the first of its
   * name.
   */
  lemma {:induction false} WinnerKeepsLimit(strategy: Strategy, policies: seq<Policy>, agentDid: string, facts: Facts)
    returns (k: nat, m: nat)
    requires DistinctNames(policies) && Candidates(policies, agentDid, facts) != []
    ensures k < |policies| && m < |policies[k].rules| && Fires(policies[k].rules[m], facts)
    ensures var winner := Winner(strategy, Candidates(policies, agentDid, facts));
            winner == CandidateFor(policies[k], policies[k].rules[m])
            && (FirstNamed(policies[k].rules, m, NameOf(policies[k].rules[m])) && NameOf(policies[k].rules[m]) != "" ==>
                  LimitFor(policies, winner) == policies[k].rules[m].limit)
  {
    var i := WinnerIsFirstMaximal(strategy, Candidates(policies, agentDid, facts));
    k, m := CandidateIsFiring(policies, agentDid, facts, i);
    OwnLimitExactlyWhen(policies, k, m);
  }
}
