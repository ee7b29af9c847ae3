// Runs of the policy engine: loading, removing, clearing and evaluating in any order, and what the rate limits admit.
module PolicyRuns {
  import opened Conflicts
  import opened Counting
  import opened Options
  import opened PolicyEngine
  import RL = RateLimits

  datatype Op =
    | Load(policy: Policy)
    | Remove(name: string)
    | Clear
    | Request(agentDid: string, facts: Facts, now: int)

  datatype State = State(policies: seq<Policy>, windows: Windows)

  function Step(strategy: Strategy, st: State, op: Op): State {
    match op
    case Load(policy) => if KnownScope(policy) then st.(policies := Loaded(st.policies, policy)) else st
    case Remove(name) => st.(policies := Removed(st.policies, name))
    case Clear => State([], map[])
    case Request(agentDid, facts, now) =>
      st.(windows := Evaluate(strategy, st.policies, st.windows, agentDid, facts, now).1)
  }

  function Run(strategy: Strategy, ops: seq<Op>): State {
    if |ops| == 0 then State([], map[]) else Step(strategy, Run(strategy, ops[..|ops| - 1]), ops[|ops| - 1])
  }

  /** The rule name that a request is charged to, and the limit; none when no limited rule wins. */
  function ChargedTo(strategy: Strategy, policies: seq<Policy>, agentDid: string, facts: Facts)
    : Option<(string, RL.Limit)>
  {
    var cs := Candidates(policies, agentDid, facts);
    if cs == [] then None
    else
      var winner := Winner(strategy, cs);
      var limit := LimitFor(policies, winner);
      if limit.None? then None else Some((winner.ruleName, limit.value))
  }

  predicate IsCharged(strategy: Strategy, st: State, op: Op, name: string) {
    op.Request? &&
    var charged := ChargedTo(strategy, st.policies, op.agentDid, op.facts);
    charged.Some? && charged.value.0 == name
  }

  /** When the requests charged to a rule name came, since the engine was last cleared. */
  function ChargedTimes(strategy: Strategy, ops: seq<Op>, name: string): seq<int> {
    if |ops| == 0 || ops[|ops| - 1].Clear? then []
    else
      var init, last := ops[..|ops| - 1], ops[|ops| - 1];
      ChargedTimes(strategy, init, name)
      + if IsCharged(strategy, Run(strategy, init), last, name) then [last.now] else []
  }

  /** When those of them came that were not turned away by the limit. */
  function AdmittedTimes(strategy: Strategy, ops: seq<Op>, name: string): seq<int> {
    if |ops| == 0 || ops[|ops| - 1].Clear? then []
    else
      var init, last := ops[..|ops| - 1], ops[|ops| - 1];
      var st := Run(strategy, init);
      AdmittedTimes(strategy, init, name)
      + if IsCharged(strategy, st, last, name)
           && !Evaluate(strategy, st.policies, st.windows, last.agentDid, last.facts, last.now).0.rateLimited
        then [last.now] else []
  }

  /** Wherever a rule of the name is limited, it has this limit: the name alone keys the windows. */
  predicate HasLimit(policy: Policy, name: string, limit: RL.Limit) {
    forall i :: 0 <= i < |policy.rules| && policy.rules[i].name == Some(name) && policy.rules[i].limit.Some? ==>
      policy.rules[i].limit == Some(limit)
  }

  predicate OneLimit(ops: seq<Op>, name: string, limit: RL.Limit) {
    forall i :: 0 <= i < |ops| && ops[i].Load? ==> HasLimit(ops[i].policy, name, limit)
  }

  predicate AllHaveLimit(policies: seq<Policy>, name: string, limit: RL.Limit) {
    forall i :: 0 <= i < |policies| ==> HasLimit(policies[i], name, limit)
  }

  lemma {:induction false} LoadedKeepsLimit(policies: seq<Policy>, policy: Policy, name: string, limit: RL.Limit)
    requires AllHaveLimit(policies, name, limit) && HasLimit(policy, name, limit)
    ensures AllHaveLimit(Loaded(policies, policy), name, limit)
  {
    if policies != [] {
      LoadedKeepsLimit(policies[1..], policy, name, limit);
    }
  }

  lemma {:induction false} RemovedKeepsLimit(policies: seq<Policy>, gone: string, name: string, limit: RL.Limit)
    requires AllHaveLimit(policies, name, limit)
    ensures AllHaveLimit(Removed(policies, gone), name, limit)
  {
    if policies != [] {
      RemovedKeepsLimit(policies[1..], gone, name, limit);
    }
  }

  lemma {:induction false} RunHasLimit(strategy: Strategy, ops: seq<Op>, name: string, limit: RL.Limit)
    requires OneLimit(ops, name, limit)
    ensures AllHaveLimit(Run(strategy, ops).policies, name, limit)
  {
    if |ops| > 0 {
      var init, last := ops[..|ops| - 1], ops[|ops| - 1];
      RunHasLimit(strategy, init, name, limit);
      var policies := Run(strategy, init).policies;
      match last
      case Load(policy) => LoadedKeepsLimit(policies, policy, name, limit);
      case Remove(gone) => RemovedKeepsLimit(policies, gone, name, limit);
      case Clear =>
      case Request(_, _, _) =>
    }
  }

  lemma {:induction false} FoundHasLimit(rules: seq<Rule>, policy: Policy, name: string, limit: RL.Limit)
    requires (forall i :: 0 <= i < |rules| ==> rules[i] in policy.rules) && HasLimit(policy, name, limit)
    ensures var r := FindRule(rules, name); r.Some? && r.value.limit.Some? ==> r.value.limit == Some(limit)
  {
    if rules != [] {
      assert rules[0] in policy.rules;
      FoundHasLimit(rules[1..], policy, name, limit);
    }
  }

  lemma {:induction false} LookupHasLimit(policies: seq<Policy>, policyName: string, name: string, limit: RL.Limit)
    requires AllHaveLimit(policies, name, limit)
    ensures var r := FindInPolicies(policies, policyName, name);
            r.Some? && r.value.limit.Some? ==> r.value.limit == Some(limit)
  {
    if policies != [] {
      FoundHasLimit(policies[0].rules, policies[0], name, limit);
      LookupHasLimit(policies[1..], policyName, name, limit);
    }
  }

  /** What one operation does to the window of a name. */
  lemma {:induction false} StepOnWindow(strategy: Strategy, st: State, op: Op, name: string, limit: RL.Limit)
    requires AllHaveLimit(st.policies, name, limit) && !op.Clear?
    ensures !IsCharged(strategy, st, op, name) ==>
      WindowAt(Step(strategy, st, op).windows, name) == WindowAt(st.windows, name)
    ensures IsCharged(strategy, st, op, name) ==>
      var (admitted, next) := RL.Check(limit, WindowAt(st.windows, name), op.now);
      && WindowAt(Step(strategy, st, op).windows, name) == next
      && Evaluate(strategy, st.policies, st.windows, op.agentDid, op.facts, op.now).0.rateLimited == !admitted
  {
    if op.Request? {
      var cs := Candidates(st.policies, op.agentDid, op.facts);
      if cs != [] {
        var winner := Winner(strategy, cs);
        LookupHasLimit(st.policies, winner.policyName, name, limit);
        DecideOnWindow(winner, LimitFor(st.policies, winner), st.windows, op.now, name);
      }
    }
  }

  lemma {:induction false} DecideOnWindow(winner: Candidate, limit: Option<RL.Limit>, windows: Windows, now: int,
                                          name: string)
    ensures var (d, after) := Decide(winner, limit, windows, now);
            if limit.None? || winner.ruleName != name then WindowAt(after, name) == WindowAt(windows, name)
            else
              var (admitted, next) := RL.Check(limit.value, WindowAt(windows, name), now);
              WindowAt(after, name) == next && d.rateLimited == !admitted
  {
  }

  /**
   * Whatever else the engine does in a run, the window of a rule name is the one its own requests lead to, and the
   * requests admitted under the name are those that its limit alone would admit.
   */
  lemma {:induction false} LimitsAreIndependent(strategy: Strategy, ops: seq<Op>, name: string, limit: RL.Limit)
    requires OneLimit(ops, name, limit)
    ensures var (log, w) := RL.Run(limit, ChargedTimes(strategy, ops, name));
            WindowAt(Run(strategy, ops).windows, name) == w && AdmittedTimes(strategy, ops, name) == RL.Times(log)
  {
    if |ops| > 0 && !ops[|ops| - 1].Clear? {
      var init, last := ops[..|ops| - 1], ops[|ops| - 1];
      var st := Run(strategy, init);
      LimitsAreIndependent(strategy, init, name, limit);
      RunHasLimit(strategy, init, name, limit);
      StepOnWindow(strategy, st, last, name, limit);
      var times := ChargedTimes(strategy, init, name);
      if IsCharged(strategy, st, last, name) {
        RL.RunStep(limit, times, last.now);
        StampedTimes(limit, RL.Run(limit, times).0, RL.Run(limit, times).1, last.now);
      } else {
        assert times + [] == times;
        assert AdmittedTimes(strategy, init, name) + [] == AdmittedTimes(strategy, init, name);
      }
    }
  }

  lemma {:induction false} StampedTimes(limit: RL.Limit, log: seq<RL.Stamp>, w: Option<RL.Window>, now: int)
    ensures var (admitted, next) := RL.Check(limit, w, now);
            RL.Times(RL.Stamped(log, limit, admitted, next, now)) == RL.Times(log) + if admitted then [now] else []
  {
  }

  predicate ClockNeverGoesBack(ops: seq<Op>) {
    forall i, j :: 0 <= i < j < |ops| && ops[i].Request? && ops[j].Request? ==> ops[i].now <= ops[j].now
  }

  predicate HasRequestAt(ops: seq<Op>, now: int) {
    exists i :: 0 <= i < |ops| && ops[i].Request? && ops[i].now == now
  }

  lemma {:induction false} ChargedInOrder(strategy: Strategy, ops: seq<Op>, name: string)
    requires ClockNeverGoesBack(ops)
    ensures RL.NonDecreasing(ChargedTimes(strategy, ops, name))
    ensures forall t :: t in ChargedTimes(strategy, ops, name) ==> HasRequestAt(ops, t)
  {
    if |ops| > 0 && !ops[|ops| - 1].Clear? {
      var init, last := ops[..|ops| - 1], ops[|ops| - 1];
      ChargedInOrder(strategy, init, name);
      var before, times := ChargedTimes(strategy, init, name), ChargedTimes(strategy, ops, name);
      forall t | t in before ensures HasRequestAt(ops, t) && (last.Request? ==> t <= last.now) {
        var i :| 0 <= i < |init| && init[i].Request? && init[i].now == t;
        assert ops[i] == init[i];
      }
      forall t | t in times ensures HasRequestAt(ops, t) {
        assert t !in before ==> last.Request? && t == last.now && ops[|ops| - 1].now == t;
      }
      forall j, k | 0 <= j < k < |times| ensures times[j] <= times[k] {
        assert times[j] in before;
      }
    }
  }

  /**
   * In every run of the engine with a clock that never goes back and one limit per rule name, counted from the last
   * time the engine was cleared: no fixed window admits more than the allowance, and no interval as long as the period
   * admits more than twice the allowance less one.
   */
  lemma {:induction false} AdmissionsAreBounded(strategy: Strategy, ops: seq<Op>, name: string, limit: RL.Limit,
                                                from: int)
    requires ClockNeverGoesBack(ops) && OneLimit(ops, name, limit) && limit.count.Some?
    ensures Count(AdmittedTimes(strategy, ops, name), from, from + limit.periodMs)
         <= 2 * RL.Allowance(limit.count.value) - 1
    ensures Count(RL.Starts(RL.Run(limit, ChargedTimes(strategy, ops, name)).0), from, from)
         <= RL.Allowance(limit.count.value)
  {
    ChargedInOrder(strategy, ops, name);
    LimitsAreIndependent(strategy, ops, name, limit);
    RL.EachIntervalIsBounded(limit, ChargedTimes(strategy, ops, name), from);
    RL.EachWindowIsBounded(limit, ChargedTimes(strategy, ops, name), from);
  }
}
