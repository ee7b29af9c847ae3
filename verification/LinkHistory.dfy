// What the manager's answer to "may this call be made?" means over whole runs: every breaker follows the calls recorded
// under its key, whatever else happens to the graph, and these are the calls on one link unless agents' ids clash.
module LinkHistory {
  import opened AgentGraph
  import opened Cascade
  import opened Collections
  import opened Options
  import CB = CircuitBreakers

  /** The clock reading of an operation, for those that take one. */
  function Timed(op: Op): Option<int> {
    match op
    case Failed(_, _, _, now) => Some(now)
    case ReadBreaker(_, _, now) => Some(now)
    case _ => None
  }

  /** The last clock reading of a run; clocks start at 1. */
  function Clock(ops: seq<Op>): int {
    if ops == [] then 1
    else
      var last := Timed(ops[|ops| - 1]);
      if last.Some? then last.value else Clock(ops[..|ops| - 1])
  }

  /** A positive clock that never goes back. */
  predicate ClockRuns(ops: seq<Op>) {
    ops != [] ==>
      ClockRuns(ops[..|ops| - 1]) && Clock(ops[..|ops| - 1]) <= Clock(ops)
  }

  /** The calls recorded under a key since it got its breaker: successes and failures, nothing else. */
  ghost function CallsOn(c: Config, ops: seq<Op>, key: string): seq<CB.Event> {
    if ops == [] then []
    else
      var init := ops[..|ops| - 1];
      if key !in Run(c, init).breakers then []
      else CallsOn(c, init, key) + CallIn(ops[|ops| - 1], key, Clock(init))
  }

  function CallIn(op: Op, key: string, clock: int): seq<CB.Event> {
    match op
    case Succeeded(from, to) => if LinkKey(from, to) == key then [CB.Success(clock)] else []
    case Failed(from, to, _, now) => if LinkKey(from, to) == key then [CB.Failure(now)] else []
    case _ => []
  }

  /** The breaker is the one that the calls lead to, except that it may already have been seen half open. */
  predicate Follows(b: CB.Breaker, r: CB.Breaker, c: CB.Config, clock: int) {
    b == r || b == CB.Observe(r, c, clock)
  }

  /** An open breaker has seen enough failures to be open. */
  predicate Sane(r: CB.Breaker, c: CB.Config) {
    r.state == CB.Open ==> r.failures >= c.failureThreshold
  }

  lemma {:induction false} ReplayIsSane(events: seq<CB.Event>, c: CB.Config)
    ensures Sane(CB.Replay(events, c), c)
  {
    if events != [] {
      ReplayIsSane(events[..|events| - 1], c);
    }
  }

  lemma {:induction false} ReplaySnoc(events: seq<CB.Event>, c: CB.Config, e: CB.Event)
    ensures CB.Replay(events + [e], c) == CB.Step(CB.Replay(events, c), c, e)
  {
    assert (events + [e])[..|events|] == events;
  }

  /** Reading keeps a breaker in step with its calls, and so does the passing of time. */
  lemma {:induction false} ReadFollows(b: CB.Breaker, r: CB.Breaker, c: CB.Config, clock: int, now: int)
    requires Follows(b, r, c, clock) && clock <= now
    ensures Follows(CB.Observe(b, c, now), r, c, now)
    ensures CB.Observe(b, c, now) == CB.Observe(r, c, now)
    ensures b == r || b == CB.Observe(r, c, now)
  {
  }

  lemma {:induction false} FailFollows(b: CB.Breaker, r: CB.Breaker, c: CB.Config, clock: int, now: int)
    requires Follows(b, r, c, clock) && Sane(r, c)
    ensures CB.Fail(b, c, now) == CB.Fail(r, c, now)
  {
  }

  // ---------------------------------------------------------------- what each operation does to one breaker

  /** The link's breaker was read at the given time, or left alone. */
  predicate ReadOrKept(link: Link, after: Link, now: int) {
    after.config == link.config && (after == link || after.breaker == CB.Observe(link.breaker, link.config, now))
  }

  lemma {:induction false} ReadIntoReads(breakers: map<string, Link>, dependents: seq<string>, agentId: string,
                                         now: int, key: string)
    requires key in breakers
    ensures key in ReadInto(breakers, dependents, agentId, now).0
    ensures ReadOrKept(breakers[key], ReadInto(breakers, dependents, agentId, now).0[key], now)
  {
    if dependents != [] {
      ReadIntoReads(breakers, dependents[..|dependents| - 1], agentId, now, key);
    }
  }

  lemma {:induction false} ContainmentKeepsBreakers(c: Config, st: State, agentId: string, reason: string)
    ensures Containment(c, st, agentId, reason).0.breakers == st.breakers
  {
  }

  lemma {:induction false} FailureOnLink(c: Config, st: State, from: string, to: string, reason: string, now: int,
                                         key: string)
    requires key in st.breakers
    ensures var b := st.breakers[key];
            var failed := if LinkKey(from, to) == key then
                            b.(breaker := CB.Observe(CB.Fail(b.breaker, b.config, now), b.config, now))
                          else b;
            var after := RecordedFailure(c, st, from, to, reason, now).0.breakers;
            key in after && ReadOrKept(failed, after[key], now)
  {
    var a := FailLink(st, from, to, reason, now).0;
    ContainmentKeepsBreakers(c, AssessTarget(c, a, to, now), to, reason);
    if to in a.nodes {
      ReadIntoReads(a.breakers, a.nodes[to].dependents, to, now, key);
    }
  }

  /** A breaker once made is never replaced, and its thresholds stay. */
  lemma {:induction false} StepOnLink(c: Config, st: State, op: Op, key: string, r: CB.Breaker, clock: int, next: int)
    requires key in st.breakers && clock <= next && (Timed(op).Some? ==> Timed(op).value == next)
    requires Follows(st.breakers[key].breaker, r, st.breakers[key].config, clock) && Sane(r, st.breakers[key].config)
    ensures var after := Step(c, st, op).breakers;
            var config := st.breakers[key].config;
            var call := CallIn(op, key, clock);
            && key in after && after[key].config == config
            && Follows(after[key].breaker, if call == [] then r else CB.Step(r, config, call[0]), config, next)
  {
    var link := st.breakers[key];
    ReadFollows(link.breaker, r, link.config, clock, next);
    match op
    case Failed(from, to, reason, now) =>
      FailureOnLink(c, st, from, to, reason, now, key);
      FailFollows(link.breaker, r, link.config, clock, now);
    case PropagateHealth(agentId) => PropagateReports(st, agentId);
    case _ =>
  }

  /** In every run, each breaker is the one that the calls under its key lead to. */
  lemma {:induction false} BreakerFollowsCalls(c: Config, ops: seq<Op>, key: string)
    requires ClockRuns(ops) && key in Run(c, ops).breakers
    ensures var link := Run(c, ops).breakers[key];
            Follows(link.breaker, CB.Replay(CallsOn(c, ops, key), link.config), link.config, Clock(ops))
  {
    if ops != [] {
      var init, last := ops[..|ops| - 1], ops[|ops| - 1];
      var st := Run(c, init);
      if key in st.breakers {
        var config := st.breakers[key].config;
        var calls := CallsOn(c, init, key);
        BreakerFollowsCalls(c, init, key);
        ReplayIsSane(calls, config);
        StepOnLink(c, st, last, key, CB.Replay(calls, config), Clock(init), Clock(ops));
        var call := CallIn(last, key, Clock(init));
        if call == [] {
          assert calls + call == calls;
        } else {
          ReplaySnoc(calls, config, call[0]);
          assert call == [call[0]];
        }
      } else {
        NewBreaker(c, st, last, key);
      }
    }
  }

  /** Breakers are made by adding a dependency only, and start closed. */
  lemma {:induction false} NewBreaker(c: Config, st: State, op: Op, key: string)
    requires key !in st.breakers && key in Step(c, st, op).breakers
    ensures Step(c, st, op).breakers[key].breaker == CB.NEW_BREAKER
  {
    match op
    case Failed(from, to, reason, now) => RecordFailureReports(c, st, from, to, reason, now);
    case PropagateHealth(agentId) => PropagateReports(st, agentId);
    case _ =>
  }

  lemma {:induction false} ClockIsPositive(ops: seq<Op>)
    requires ClockRuns(ops)
    ensures Clock(ops) >= 1
  {
    if ops != [] {
      ClockIsPositive(ops[..|ops| - 1]);
    }
  }

  lemma {:induction false} CallsInOrder(c: Config, ops: seq<Op>, key: string, now: int)
    requires ClockRuns(ops) && Clock(ops) <= now
    ensures CB.ClockRuns(CallsOn(c, ops, key), now)
    ensures forall i :: 0 <= i < |CallsOn(c, ops, key)| ==> CallsOn(c, ops, key)[i].at > 0
  {
    if ops != [] {
      var init, last := ops[..|ops| - 1], ops[|ops| - 1];
      CallsInOrder(c, init, key, Clock(init));
      ClockIsPositive(init);
      assert forall i :: 0 <= i < |CallIn(last, key, Clock(init))| ==>
          Clock(init) <= CallIn(last, key, Clock(init))[i].at <= Clock(ops);
    }
  }

  /**
   * After any run under a positive clock that never goes back, whether a call may be made depends on the calls recorded
   * under the link's key only: it is refused exactly when the failures since the last success have reached the
   * breaker's threshold and the last of them is less than the reset time ago.
   */
  lemma {:induction false} CallIsRefusedWhen(c: Config, ops: seq<Op>, from: string, to: string, now: int)
    requires ClockRuns(ops) && Clock(ops) <= now && LinkKey(from, to) in Run(c, ops).breakers
    ensures var key := LinkKey(from, to);
            var config := Run(c, ops).breakers[key].config;
            var calls := CallsOn(c, ops, key);
            IsOpen(ReadLink(Run(c, ops).breakers, key, now), key) <==>
              && CB.Trailing(calls) >= config.failureThreshold
              && CB.LastFailure(calls).Some? && now - CB.LastFailure(calls).value < config.resetTimeoutMs
  {
    var key := LinkKey(from, to);
    var link := Run(c, ops).breakers[key];
    var calls := CallsOn(c, ops, key);
    BreakerFollowsCalls(c, ops, key);
    ReadFollows(link.breaker, CB.Replay(calls, link.config), link.config, Clock(ops), now);
    CallsInOrder(c, ops, key, now);
    CB.OpenExactlyWhen(calls, link.config, now);
  }

  // ---------------------------------------------------------------- the calls on one link

  /** The calls made from one agent to another since the dependency was added. */
  ghost function CallsBetween(c: Config, ops: seq<Op>, from: string, to: string): seq<CB.Event> {
    if ops == [] then []
    else
      var init := ops[..|ops| - 1];
      if !DependsOn(Run(c, init).nodes, from, to) then []
      else CallsBetween(c, init, from, to) + CallBetween(ops[|ops| - 1], from, to, Clock(init))
  }

  function CallBetween(op: Op, from: string, to: string, clock: int): seq<CB.Event> {
    match op
    case Succeeded(a, b) => if a == from && b == to then [CB.Success(clock)] else []
    case Failed(a, b, _, now) => if a == from && b == to then [CB.Failure(now)] else []
    case _ => []
  }

  function CallerOf(op: Op): Option<string> {
    match op
    case AddLink(from, _) => Some(from)
    case Succeeded(from, _) => Some(from)
    case Failed(from, _, _, _) => Some(from)
    case _ => None
  }

  /** No calling agent of the run has an id that clashes with the given one. */
  predicate CallersApart(ops: seq<Op>, from: string) {
    forall i :: 0 <= i < |ops| && CallerOf(ops[i]).Some? ==> !Clash(CallerOf(ops[i]).value, from)
  }

  /** Only adding a dependency makes an edge. */
  lemma {:induction false} StepEdges(c: Config, st: State, op: Op, a: string, b: string)
    requires Consistent(c, st) && DependsOn(Step(c, st, op).nodes, a, b)
    ensures DependsOn(st.nodes, a, b) || op == AddLink(a, b)
  {
    match op
    case RegisterAgent(agentId, tier) => RegisterEdges(st.nodes, agentId, tier);
    case AddLink(from, to) => AddDependencyKeeps(c, st, from, to);
    case Failed(from, to, reason, now) =>
      RecordFailureReports(c, st, from, to, reason, now);
      SameShapeSameEdges(st.nodes, Step(c, st, op).nodes);
    case PropagateHealth(agentId) =>
      PropagateReports(st, agentId);
      SameShapeSameEdges(st.nodes, Step(c, st, op).nodes);
    case _ =>
  }

  lemma {:induction false} EdgesAreApart(c: Config, ops: seq<Op>, from: string, a: string, b: string)
    requires CallersApart(ops, from) && DependsOn(Run(c, ops).nodes, a, b)
    ensures !Clash(a, from)
  {
    if ops != [] {
      var init, last := ops[..|ops| - 1], ops[|ops| - 1];
      RunKeeps(c, init);
      StepEdges(c, Run(c, init), last, a, b);
      if DependsOn(Run(c, init).nodes, a, b) {
        EdgesAreApart(c, init, from, a, b);
      } else {
        assert CallerOf(ops[|ops| - 1]) == Some(a);
      }
    }
  }

  /** Then the key has a breaker exactly when the link itself is there. */
  lemma {:induction false} BreakerIsOwn(c: Config, ops: seq<Op>, from: string, to: string)
    requires CallersApart(ops, from)
    ensures LinkKey(from, to) in Run(c, ops).breakers <==> DependsOn(Run(c, ops).nodes, from, to)
  {
    var st := Run(c, ops);
    RunKeeps(c, ops);
    if LinkKey(from, to) in st.breakers {
      var a, b :| DependsOn(st.nodes, a, b) && LinkKey(a, b) == LinkKey(from, to);
      EdgesAreApart(c, ops, from, a, b);
      LinkKeyIsInjective(a, b, from, to);
    }
  }

  lemma {:induction false} CallIsBetween(op: Op, from: string, to: string, clock: int)
    requires CallerOf(op).Some? ==> !Clash(CallerOf(op).value, from)
    ensures CallIn(op, LinkKey(from, to), clock) == CallBetween(op, from, to, clock)
  {
    match op
    case Succeeded(a, b) =>
      if LinkKey(a, b) == LinkKey(from, to) {
        LinkKeyIsInjective(a, b, from, to);
      }
    case Failed(a, b, _, _) =>
      if LinkKey(a, b) == LinkKey(from, to) {
        LinkKeyIsInjective(a, b, from, to);
      }
    case _ =>
  }

  /**
   * Where no calling agent's id clashes with the caller's, the calls under the link's key are the calls on the link.
   */
  lemma {:induction false} CallsAreBetween(c: Config, ops: seq<Op>, from: string, to: string)
    requires CallersApart(ops, from)
    ensures CallsOn(c, ops, LinkKey(from, to)) == CallsBetween(c, ops, from, to)
  {
    if ops != [] {
      var init, last := ops[..|ops| - 1], ops[|ops| - 1];
      BreakerIsOwn(c, init, from, to);
      CallsAreBetween(c, init, from, to);
      assert CallerOf(ops[|ops| - 1]).Some? ==> !Clash(CallerOf(ops[|ops| - 1]).value, from);
      CallIsBetween(last, from, to, Clock(init));
    }
  }

  /**
   * Where no calling agent's id clashes with the caller's, whether a call may be made depends on the calls made on that
   * very link only. (Where ids clash, calls on another link count as well: see `OthersRefuseExactlyWhen`.)
   */
  lemma {:induction false} LinkIsRefusedWhen(c: Config, ops: seq<Op>, from: string, to: string, now: int)
    requires ClockRuns(ops) && Clock(ops) <= now && CallersApart(ops, from)
    requires DependsOn(Run(c, ops).nodes, from, to)
    ensures LinkKey(from, to) in Run(c, ops).breakers
    ensures var key := LinkKey(from, to);
            var config := Run(c, ops).breakers[key].config;
            var calls := CallsBetween(c, ops, from, to);
            IsOpen(ReadLink(Run(c, ops).breakers, key, now), key) <==>
              && CB.Trailing(calls) >= config.failureThreshold
              && CB.LastFailure(calls).Some? && now - CB.LastFailure(calls).value < config.resetTimeoutMs
  {
    BreakerIsOwn(c, ops, from, to);
    CallsAreBetween(c, ops, from, to);
    CallIsRefusedWhen(c, ops, from, to, now);
  }

  /** A call is refused on a link none of whose own calls failed. */
  ghost predicate RefusedForOthers(c: Config, ops: seq<Op>, from: string, to: string, now: int) {
    && ClockRuns(ops) && Clock(ops) <= now && DependsOn(Run(c, ops).nodes, from, to)
    && CallsBetween(c, ops, from, to) == []
    && IsOpen(ReadLink(Run(c, ops).breakers, LinkKey(from, to), now), LinkKey(from, to))
  }

  predicate OnlyCallers(ops: seq<Op>, a: string, from: string) {
    forall i :: 0 <= i < |ops| && CallerOf(ops[i]).Some? ==> CallerOf(ops[i]).value in {a, from}
  }

  /** One link, `k` failures under its key, all of them at the given time, and no call of its own. */
  ghost predicate OthersFailed(c: Config, ops: seq<Op>, from: string, to: string, config: CB.Config, now: int, k: nat) {
    && ClockRuns(ops) && Clock(ops) <= now && DependsOn(Run(c, ops).nodes, from, to)
    && LinkKey(from, to) in Run(c, ops).breakers && Run(c, ops).breakers[LinkKey(from, to)].config == config
    && CallsBetween(c, ops, from, to) == []
    && CB.Trailing(CallsOn(c, ops, LinkKey(from, to))) == k
    && (k > 0 ==> CB.LastFailure(CallsOn(c, ops, LinkKey(from, to))) == Some(now))
  }

  lemma {:induction false} OneLinkState(c: Config, tier: TrustTier, from: string, to: string)
    requires PolicyForTier(c, tier).maxFanout >= 1 && PolicyForTier(c, tier).maxDependencyDepth >= 1
    ensures var policy := PolicyForTier(c, tier);
            var after := Step(c, Step(c, EMPTY, RegisterAgent(from, tier)), AddLink(from, to));
            && DependsOn(after.nodes, from, to) && LinkKey(from, to) in after.breakers
            && after.breakers[LinkKey(from, to)].config
               == CB.Config(policy.circuitBreakerThreshold, policy.circuitBreakerResetMs)
  {
    var first := Step(c, EMPTY, RegisterAgent(from, tier));
    assert first.nodes == map[from := AgentNode(tier, Healthy, [], [])] && first.breakers == map[];
    var nodes := EnsureBoth(first.nodes, from, to);
    assert nodes[to].dependencies == [] && DepthTo(nodes, to, {}).0 == 0;
    AddDependencyOutcome(c, first, from, to);
    assert AddEdge(nodes, from, to)[from].dependencies == [] + [to];
  }

  lemma {:induction false} OneLinkMade(c: Config, tier: TrustTier, from: string, to: string)
    requires PolicyForTier(c, tier).maxFanout >= 1 && PolicyForTier(c, tier).maxDependencyDepth >= 1
    ensures var policy := PolicyForTier(c, tier);
            OthersFailed(c, [RegisterAgent(from, tier)] + [AddLink(from, to)], from, to,
                         CB.Config(policy.circuitBreakerThreshold, policy.circuitBreakerResetMs), 1, 0)
  {
    var first := [RegisterAgent(from, tier)];
    var ops := first + [AddLink(from, to)];
    assert [] + first == first && ops[..1] == first && first[..0] == [];
    RunSnoc(c, [], first[0]);
    RunSnoc(c, first, AddLink(from, to));
    OneLinkState(c, tier, from, to);
    NoCallYet(c, first, from, to);
  }

  /** Adding the dependency is no call. */
  lemma {:induction false} NoCallYet(c: Config, ops: seq<Op>, from: string, to: string)
    requires |ops| == 1 && ops[0].RegisterAgent?
    ensures CallsOn(c, ops + [AddLink(from, to)], LinkKey(from, to)) == []
    ensures CallsBetween(c, ops + [AddLink(from, to)], from, to) == []
    ensures ClockRuns(ops + [AddLink(from, to)]) && Clock(ops + [AddLink(from, to)]) == 1
  {
    var all := ops + [AddLink(from, to)];
    assert |all| == |ops| + 1 && all[|ops|] == AddLink(from, to);
    assert all[..|ops|] == ops && ops[..|ops| - 1] == [];
    assert CallsOn(c, ops, LinkKey(from, to)) == [] && CallsBetween(c, ops, from, to) == [];
    assert ClockRuns(ops) && Clock(ops) == 1;
  }

  /** A failure is one more call under its key. */
  lemma {:induction false} FailureIsHeard(c: Config, ops: seq<Op>, a: string, b: string, reason: string, now: int)
    requires LinkKey(a, b) in Run(c, ops).breakers
    ensures var calls := CallsOn(c, ops + [Failed(a, b, reason, now)], LinkKey(a, b));
            CB.Trailing(calls) == CB.Trailing(CallsOn(c, ops, LinkKey(a, b))) + 1 && CB.LastFailure(calls) == Some(now)
  {
    var more := ops + [Failed(a, b, reason, now)];
    assert more[..|ops|] == ops;
    var calls := CallsOn(c, ops, LinkKey(a, b));
    assert (calls + [CB.Failure(now)])[..|calls|] == calls;
    assert CallsOn(c, more, LinkKey(a, b)) == calls + [CB.Failure(now)];
  }

  /** But none on the link of another caller. */
  lemma {:induction false} FailureIsNotOwn(c: Config, ops: seq<Op>, a: string, b: string, reason: string, now: int,
                                           from: string, to: string)
    requires DependsOn(Run(c, ops).nodes, from, to) && a != from
    ensures CallsBetween(c, ops + [Failed(a, b, reason, now)], from, to) == CallsBetween(c, ops, from, to)
  {
    assert (ops + [Failed(a, b, reason, now)])[..|ops|] == ops;
  }

  lemma {:induction false} FailureKeepsLink(c: Config, st: State, a: string, b: string, reason: string, now: int,
                                            from: string, to: string)
    requires DependsOn(st.nodes, from, to) && LinkKey(from, to) in st.breakers
    ensures var after := RecordedFailure(c, st, a, b, reason, now).0;
            && DependsOn(after.nodes, from, to) && LinkKey(from, to) in after.breakers
            && after.breakers[LinkKey(from, to)].config == st.breakers[LinkKey(from, to)].config
  {
    RecordFailureReports(c, st, a, b, reason, now);
    FailureOnLink(c, st, a, b, reason, now, LinkKey(from, to));
  }

  lemma {:induction false} OneMoreFails(c: Config, ops: seq<Op>, a: string, b: string, reason: string, from: string,
                                        to: string, config: CB.Config, now: int, k: nat)
    requires OthersFailed(c, ops, from, to, config, now, k) && a != from && LinkKey(a, b) == LinkKey(from, to)
    ensures OthersFailed(c, ops + [Failed(a, b, reason, now)], from, to, config, now, k + 1)
  {
    RunSnoc(c, ops, Failed(a, b, reason, now));
    FailureKeepsLink(c, Run(c, ops), a, b, reason, now, from, to);
    FailureIsHeard(c, ops, a, b, reason, now);
    FailureIsNotOwn(c, ops, a, b, reason, now, from, to);
    assert (ops + [Failed(a, b, reason, now)])[..|ops|] == ops;
  }

  lemma {:induction false} ManyMoreFail(c: Config, ops: seq<Op>, a: string, b: string, reason: string, from: string,
                                        to: string, config: CB.Config, now: int, k: nat)
    returns (more: seq<Op>)
    requires OthersFailed(c, ops, from, to, config, now, 0) && a != from && LinkKey(a, b) == LinkKey(from, to)
    requires OnlyCallers(ops, a, from)
    ensures OthersFailed(c, more, from, to, config, now, k) && OnlyCallers(more, a, from)
  {
    if k == 0 {
      more := ops;
    } else {
      var fewer := ManyMoreFail(c, ops, a, b, reason, from, to, config, now, k - 1);
      OneMoreFails(c, fewer, a, b, reason, from, to, config, now, k - 1);
      more := fewer + [Failed(a, b, reason, now)];
    }
  }

  lemma {:induction false} ClashRefuses(c: Config, tier: TrustTier, a: string, from: string)
    returns (ops: seq<Op>, to: string)
    requires PolicyForTier(c, tier).maxFanout >= 1 && PolicyForTier(c, tier).maxDependencyDepth >= 1
    requires PolicyForTier(c, tier).circuitBreakerResetMs > 0 && a != from && Clash(a, from)
    ensures OnlyCallers(ops, a, from) && RefusedForOthers(c, ops, from, to, 1)
  {
    var b;
    LinkKeysCanCollide(a, from);
    b, to :| LinkKey(a, b) == LinkKey(from, to);
    var policy := PolicyForTier(c, tier);
    var config := CB.Config(policy.circuitBreakerThreshold, policy.circuitBreakerResetMs);
    OneLinkMade(c, tier, from, to);
    var k: nat := if config.failureThreshold >= 1 then config.failureThreshold else 1;
    ops := ManyMoreFail(c, [RegisterAgent(from, tier)] + [AddLink(from, to)], a, b, "", from, to, config, 1, k);
    CallIsRefusedWhen(c, ops, from, to, 1);
  }

  /**
   * Another agent's failures can cut off a link none of whose own calls failed, in some run in which no third agent
   * calls, if and only if the two callers' ids clash.
   */
  lemma {:induction false} OthersRefuseExactlyWhen(c: Config, tier: TrustTier, a: string, from: string)
    requires PolicyForTier(c, tier).maxFanout >= 1 && PolicyForTier(c, tier).maxDependencyDepth >= 1
    requires PolicyForTier(c, tier).circuitBreakerResetMs > 0 && a != from
    ensures (exists ops, to, now :: OnlyCallers(ops, a, from) && RefusedForOthers(c, ops, from, to, now))
      <==> Clash(a, from)
  {
    if Clash(a, from) {
      var ops, to := ClashRefuses(c, tier, a, from);
    } else if ops, to, now :| OnlyCallers(ops, a, from) && RefusedForOthers(c, ops, from, to, now) {
      assert CallersApart(ops, from);
      LinkIsRefusedWhen(c, ops, from, to, now);
    }
  }

  // ---------------------------------------------------------------- the health of a failed agent

  /** The breaker is open when it is read at the given time. */
  predicate OpenAt(breakers: map<string, Link>, key: string, now: int) {
    key in breakers && CB.Observe(breakers[key].breaker, breakers[key].config, now).state == CB.Open
  }

  /** The agents whose calls to the agent are cut off. */
  function CutOff(breakers: map<string, Link>, dependents: seq<string>, agentId: string, now: int): set<string> {
    set d | d in dependents && OpenAt(breakers, LinkKey(d, agentId), now)
  }

  lemma {:induction false} ReadIntoAdds(breakers: map<string, Link>, dependents: seq<string>, agentId: string,
                                        now: int, key: string)
    requires key !in breakers
    ensures key !in ReadInto(breakers, dependents, agentId, now).0
  {
    ReadIntoKeepsKeys(breakers, dependents, agentId, now);
    assert key !in ReadInto(breakers, dependents, agentId, now).0.Keys;
  }

  /** After the breakers of other links into the agent were read, a breaker still reads the same. */
  lemma {:induction false} ReadIntoIsTransparent(breakers: map<string, Link>, dependents: seq<string>,
                                                 agentId: string, now: int,
                                                 key: string)
    ensures IsOpen(ReadLink(ReadInto(breakers, dependents, agentId, now).0, key, now), key)
      <==> OpenAt(breakers, key, now)
  {
    if key in breakers {
      ReadIntoReads(breakers, dependents, agentId, now, key);
    } else {
      ReadIntoAdds(breakers, dependents, agentId, now, key);
    }
  }

  lemma {:induction false} CutOffSnoc(breakers: map<string, Link>, dependents: seq<string>, last: string,
                                      agentId: string, now: int)
    requires last !in dependents
    ensures CutOff(breakers, dependents + [last], agentId, now)
         == CutOff(breakers, dependents, agentId, now)
            + if OpenAt(breakers, LinkKey(last, agentId), now) then {last} else {}
  {
  }

  /** Reading one breaker after the other counts the agents that are cut off, although each reading may change one. */
  lemma {:induction false} ReadIntoCounts(breakers: map<string, Link>, dependents: seq<string>, agentId: string,
                                          now: int)
    requires NoDuplicates(dependents)
    ensures ReadInto(breakers, dependents, agentId, now).1 == |CutOff(breakers, dependents, agentId, now)|
  {
    if dependents == [] {
      assert CutOff(breakers, dependents, agentId, now) == {};
    } else {
      var init, last := dependents[..|dependents| - 1], dependents[|dependents| - 1];
      ReadIntoCounts(breakers, init, agentId, now);
      ReadIntoIsTransparent(breakers, init, agentId, now, LinkKey(last, agentId));
      CutOffSnoc(breakers, init, last, agentId, now);
      assert dependents == init + [last];
    }
  }

  /** What the number of agents cut off makes of an agent's health. */
  function Assessed(c: Config, cutOff: nat, health: Health): Health {
    if cutOff >= c.cascadeThreshold then Failing else if cutOff > 0 then Degraded else health
  }

  /**
   * The health of the target after a failure is recorded: it follows the number of agents cut off from it, and a
   * failing agent under a policy with automatic quarantine ends up unreachable.
   */
  lemma {:induction false} TargetHealth(c: Config, st: State, from: string, to: string, reason: string, now: int)
    requires Consistent(c, st) && to in st.nodes
    ensures var breakers := FailLink(st, from, to, reason, now).0.breakers;
            var health := Assessed(c, |CutOff(breakers, st.nodes[to].dependents, to, now)|, st.nodes[to].healthStatus);
            var after := RecordedFailure(c, st, from, to, reason, now).0.nodes;
            && to in after
            && after[to].healthStatus ==
                 if health == Failing && PolicyForTier(c, st.nodes[to].trustTier).autoQuarantine
                 then Unreachable else health
  {
    var a := FailLink(st, from, to, reason, now).0;
    FailLinkKeepsNodes(st, from, to, reason, now);
    AssessedHealth(c, a, to, now);
    ContainedHealth(c, AssessTarget(c, a, to, now), to, reason);
  }

  lemma {:induction false} FailLinkKeepsNodes(st: State, from: string, to: string, reason: string, now: int)
    ensures FailLink(st, from, to, reason, now).0.nodes == st.nodes
  {
  }

  lemma {:induction false} AssessedHealth(c: Config, st: State, to: string, now: int)
    requires to in st.nodes && NoDuplicates(st.nodes[to].dependents)
    ensures var node := st.nodes[to];
            var after := AssessTarget(c, st, to, now).nodes;
            && to in after && after[to].trustTier == node.trustTier
            && after[to].healthStatus == Assessed(c, |CutOff(st.breakers, node.dependents, to, now)|, node.healthStatus)
  {
    ReadIntoCounts(st.breakers, st.nodes[to].dependents, to, now);
  }

  lemma {:induction false} ContainedHealth(c: Config, st: State, agentId: string, reason: string)
    requires agentId in st.nodes
    ensures var after := Containment(c, st, agentId, reason).0.nodes;
            && agentId in after
            && after[agentId].healthStatus ==
                 if st.nodes[agentId].healthStatus == Failing
                   && PolicyForTier(c, st.nodes[agentId].trustTier).autoQuarantine
                 then Unreachable else st.nodes[agentId].healthStatus
  {
    if st.nodes[agentId].healthStatus == Failing && PolicyForAgent(c, st.nodes, agentId).autoQuarantine {
      var cut := st.(nodes := SetHealth(st.nodes, agentId, Unreachable));
      var noted := Emit(cut, agentId, [agentId], AgentQuarantined, "Auto-quarantined: " + reason).0;
      var affected := HealthyAmong(noted.nodes, noted.nodes[agentId].dependents);
      HealthyAmongMeaning(noted.nodes, noted.nodes[agentId].dependents);
      DegradeAllMeaning(noted.nodes, affected);
    }
  }
}
