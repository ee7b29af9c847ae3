// What one evaluation of the policy engine answers, case by case: when a policy applies, when a rule fires and with
// which action, the default when none does, and what a limit does to a rule that wins.
module PolicyAnswers {
  import opened Conflicts
  import opened Options
  import opened PolicyEngine
  import Expressions
  import RL = RateLimits

  // ---------------------------------------------------------------- policies and rules

  /**
   * A policy without agents applies to everybody; otherwise to its agent, to those listed, and with "*" to everybody.
   */
  lemma {:induction false} AppliesWhen(policy: Policy, agentDid: string)
    ensures policy.agent == "" && policy.agents == [] ==> AppliesTo(policy, agentDid)
    ensures policy.agent != "" && policy.agents == [] ==> (AppliesTo(policy, agentDid) <==> agentDid == policy.agent)
    ensures policy.agents != [] ==>
              (AppliesTo(policy, agentDid) <==>
                 (policy.agent != "" && agentDid == policy.agent)
                 || exists i :: 0 <= i < |policy.agents| && (policy.agents[i] == agentDid || policy.agents[i] == "*"))
  {
  }

  /** A disabled rule never fires, one without a condition always, and any other one when its condition holds. */
  lemma {:induction false} FiresWhen(rule: Rule, facts: Facts)
    ensures rule.enabled == Some(false) ==> !Fires(rule, facts)
    ensures rule.enabled != Some(false) && rule.condition == "" ==> Fires(rule, facts)
    ensures rule.enabled != Some(false) && rule.condition != "" ==>
              (Fires(rule, facts) <==> Expressions.Evaluate(rule.condition, facts))
  {
  }

  /** A rule's action is the one it states, or the one its effect names, or a denial. */
  lemma {:induction false} ActionWhen(rule: Rule)
    ensures rule.ruleAction.Some? ==> ActionOf(rule) == rule.ruleAction.value
    ensures rule.ruleAction.None? && rule.effect.None? ==> ActionOf(rule) == Deny
    ensures rule.ruleAction.None? && rule.effect == Some("allow") ==> ActionOf(rule) == Allow
    ensures rule.ruleAction.None? && rule.effect == Some("deny") ==> ActionOf(rule) == Deny
    ensures rule.ruleAction.None? && rule.effect == Some("warn") ==> ActionOf(rule) == Warn
    ensures rule.ruleAction.None? && rule.effect == Some("require_approval") ==> ActionOf(rule) == RequireApproval
    ensures rule.ruleAction.None? && rule.effect == Some("log") ==> ActionOf(rule) == Log
    ensures (rule.ruleAction.None? && rule.effect.Some?
             && rule.effect.value !in {"allow", "deny", "warn", "require_approval", "log"}) ==> ActionOf(rule) == Deny
  {
  }

  /** Scopes by their names; none is global, and an unknown one is refused at loading and ranks as an agent's. */
  lemma {:induction false} ScopeWhen(policy: Policy)
    ensures policy.scope.None? ==> ScopeOf(policy) == Global && KnownScope(policy)
    ensures policy.scope == Some("global") ==> ScopeOf(policy) == Global && KnownScope(policy)
    ensures policy.scope == Some("tenant") ==> ScopeOf(policy) == Tenant && KnownScope(policy)
    ensures policy.scope == Some("organization") ==> ScopeOf(policy) == Organization && KnownScope(policy)
    ensures policy.scope == Some("agent") ==> ScopeOf(policy) == Agent && KnownScope(policy)
    ensures policy.scope.Some? && policy.scope.value !in {"global", "tenant", "organization", "agent"} ==>
              ScopeOf(policy) == Agent && !KnownScope(policy)
  {
  }

  /** What a rule that fires puts forward. */
  lemma {:induction false} PutForward(policy: Policy, rule: Rule)
    ensures var c := CandidateFor(policy, rule);
            && c.action == ActionOf(rule) && c.scope == ScopeOf(policy) && c.policyName == policy.name
            && c.priority == (match rule.priority case Some(n) => n case None => 0)
            && c.ruleName == (match rule.name case Some(n) => n case None => "unnamed")
  {
  }

  // ---------------------------------------------------------------- no rule fires

  /** The rule at `m` of the policy at `k` takes part in the decision. */
  predicate TakesPart(policies: seq<Policy>, agentDid: string, facts: Facts, k: int, m: int) {
    && 0 <= k < |policies| && 0 <= m < |policies[k].rules|
    && AppliesTo(policies[k], agentDid) && Fires(policies[k].rules[m], facts)
  }

  lemma {:induction false} CandidatesWhen(policies: seq<Policy>, agentDid: string, facts: Facts)
    ensures Candidates(policies, agentDid, facts) == [] <==> forall k, m :: !TakesPart(policies, agentDid, facts, k, m)
  {
    if k, m :| TakesPart(policies, agentDid, facts, k, m) {
      FiringIsCandidate(policies, k, m, agentDid, facts);
    }
    if Candidates(policies, agentDid, facts) != [] {
      var k, m := CandidateIsFiring(policies, agentDid, facts, 0);
      assert TakesPart(policies, agentDid, facts, k, m);
    }
  }

  predicate FirstApplicable(policies: seq<Policy>, agentDid: string, k: int) {
    && 0 <= k < |policies| && AppliesTo(policies[k], agentDid)
    && forall j :: 0 <= j < k ==> !AppliesTo(policies[j], agentDid)
  }

  lemma {:induction false} DefaultWhen(policies: seq<Policy>, agentDid: string)
    ensures (forall j :: 0 <= j < |policies| ==> !AppliesTo(policies[j], agentDid)) ==>
              DefaultFor(policies, agentDid) == Deny
    ensures forall k :: FirstApplicable(policies, agentDid, k) ==>
              DefaultFor(policies, agentDid) == match policies[k].defaultAction case Some(a) => a case None => Deny
  {
    if policies != [] {
      var rest := policies[1..];
      DefaultWhen(rest, agentDid);
      if AppliesTo(policies[0], agentDid) {
        assert forall k :: FirstApplicable(policies, agentDid, k) ==> k == 0;
      } else {
        forall k | FirstApplicable(policies, agentDid, k) ensures FirstApplicable(rest, agentDid, k - 1) {
          forall j | 0 <= j < k - 1 ensures !AppliesTo(rest[j], agentDid) {
            assert rest[j] == policies[j + 1];
          }
        }
        if forall j :: 0 <= j < |policies| ==> !AppliesTo(policies[j], agentDid) {
          forall j | 0 <= j < |rest| ensures !AppliesTo(rest[j], agentDid) {
            assert rest[j] == policies[j + 1];
          }
        }
      }
    }
  }

  /**
   * When no rule fires the engine answers with the default action of the first applicable policy, and with a denial
   * when it has none or no policy applies. Only the action Allow lets the request pass, and no window changes.
   */
  lemma {:induction false} WithoutRule(strategy: Strategy, policies: seq<Policy>, windows: Windows, agentDid: string,
                                       facts: Facts, now: int)
    requires forall k, m :: !TakesPart(policies, agentDid, facts, k, m)
    ensures var (d, after) := Evaluate(strategy, policies, windows, agentDid, facts, now);
            && after == windows && d.matched == None && !d.rateLimited
            && (d.allowed <==> d.action == Allow)
            && ((forall j :: 0 <= j < |policies| ==> !AppliesTo(policies[j], agentDid)) ==> d.action == Deny)
            && forall k :: FirstApplicable(policies, agentDid, k) ==>
                 d.action == match policies[k].defaultAction case Some(a) => a case None => Deny
  {
    CandidatesWhen(policies, agentDid, facts);
    DefaultWhen(policies, agentDid);
  }

  /** A new engine denies everything. */
  lemma {:induction false} EmptyDenies(strategy: Strategy, windows: Windows, agentDid: string, facts: Facts, now: int)
    ensures Evaluate(strategy, [], windows, agentDid, facts, now) == (Decision(false, Deny, None, false), windows)
  {
    WithoutRule(strategy, [], windows, agentDid, facts, now);
  }

  // ---------------------------------------------------------------- a rule wins

  /** The window that is open under a name. */
  predicate OpenWindow(windows: Windows, name: string, now: int) {
    name in windows && now <= windows[name].resetAt
  }

  /** The window under the name is open and full. */
  predicate Full(windows: Windows, name: string, limit: RL.Limit, now: int) {
    OpenWindow(windows, name, now) && limit.count.Some? && windows[name].count >= limit.count.value
  }

  /** The windows after one more request under the name. */
  function OneMore(windows: Windows, name: string, limit: RL.Limit, now: int): Windows {
    windows[name := if OpenWindow(windows, name, now) then RL.Window(windows[name].count + 1, windows[name].resetAt)
                    else RL.Window(1, now + limit.periodMs)]
  }

  lemma {:induction false} ChargedWhen(windows: Windows, name: string, limit: RL.Limit, now: int)
    ensures Charged(windows, name, limit, now)
         == if Full(windows, name, limit, now) then (false, windows) else (true, OneMore(windows, name, limit, now))
  {
    if Full(windows, name, limit, now) {
      assert windows == windows[name := windows[name]];
    }
  }

  /** A rule's action lets the request pass. */
  predicate LetsPass(action: Action) {
    action in {Allow, Warn, Log}
  }

  /**
   * When some rule fires, one of those that do decides, under every strategy: it lets the request pass exactly with the
   * actions Allow, Warn and Log, unless it is held to a limit whose window is full; then the request is denied as rate
   * limited. Otherwise the request is counted in that window.
   */
  lemma {:induction false} WithRuleWinning(strategy: Strategy, policies: seq<Policy>, windows: Windows,
                                           agentDid: string, facts: Facts, now: int)
    returns (k: nat, m: nat)
    requires exists k, m :: TakesPart(policies, agentDid, facts, k, m)
    ensures TakesPart(policies, agentDid, facts, k, m)
    ensures var (d, after) := Evaluate(strategy, policies, windows, agentDid, facts, now);
            var winner := CandidateFor(policies[k], policies[k].rules[m]);
            var limit := LimitFor(policies, winner);
            && Candidates(policies, agentDid, facts) != []
            && winner == Winner(strategy, Candidates(policies, agentDid, facts))
            && d.matched == Some((winner.policyName, winner.ruleName))
            && if limit.Some? && Full(windows, winner.ruleName, limit.value, now) then
                 d.rateLimited && !d.allowed && d.action == Deny && after == windows
               else
                 && !d.rateLimited && d.action == ActionOf(policies[k].rules[m])
                 && (d.allowed <==> LetsPass(ActionOf(policies[k].rules[m])))
                 && after == if limit.Some? then OneMore(windows, winner.ruleName, limit.value, now) else windows
  {
    CandidatesWhen(policies, agentDid, facts);
    var i := WinnerIsFirstMaximal(strategy, Candidates(policies, agentDid, facts));
    k, m := CandidateIsFiring(policies, agentDid, facts, i);
    var winner := CandidateFor(policies[k], policies[k].rules[m]);
    if LimitFor(policies, winner).Some? {
      ChargedWhen(windows, winner.ruleName, LimitFor(policies, winner).value, now);
    }
  }
}
