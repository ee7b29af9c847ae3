// The cascade-containment manager: a dependency graph of agents, one circuit breaker per link, tiered
// policies, and an append-only log of containment events.
module Cascade {
  import opened AgentGraph
  import opened Collections
  import opened Options
  import opened Reachability
  import CB = CircuitBreakers

  datatype Action = CircuitOpened | HealthPropagated | AgentQuarantined | RollbackTriggered

  datatype CascadeEvent = CascadeEvent(
    source: string, affected: seq<string>, action: Action, reason: string, blastRadius: nat, containedAt: nat)

  // ---------------------------------------------------------------- policies

  datatype Policy = Policy(
    maxDependencyDepth: int, maxFanout: int, circuitBreakerThreshold: int, circuitBreakerResetMs: int,
    autoQuarantine: bool, autoRollback: bool)

  /** A policy with fields left out. */
  datatype Overrides = Overrides(
    maxDependencyDepth: Option<int>, maxFanout: Option<int>, circuitBreakerThreshold: Option<int>,
    circuitBreakerResetMs: Option<int>, autoQuarantine: Option<bool>, autoRollback: Option<bool>)

  datatype Config = Config(defaultPolicy: Policy, tierPolicies: map<TrustTier, Overrides>, cascadeThreshold: int)

  const DEFAULT_BLAST_RADIUS_POLICY := Policy(5, 10, 5, 30_000, true, false)
  const DEFAULT_CASCADE_THRESHOLD := 3

  function TierDefaults(tier: TrustTier): Overrides {
    match tier
    case Untrusted => Overrides(Some(2), Some(3), Some(3), None, Some(true), Some(true))
    case Provisional => Overrides(Some(3), Some(5), Some(4), None, Some(true), Some(false))
    case Trusted => Overrides(Some(5), Some(10), Some(5), None, Some(false), Some(false))
    case Verified => Overrides(Some(8), Some(20), Some(8), None, Some(false), Some(false))
  }

  function OrElse<T>(o: Option<T>, other: T): T {
    if o.Some? then o.value else other
  }

  function Merge(d: Policy, o: Overrides): Policy {
    Policy(
      OrElse(o.maxDependencyDepth, d.maxDependencyDepth), OrElse(o.maxFanout, d.maxFanout),
      OrElse(o.circuitBreakerThreshold, d.circuitBreakerThreshold),
      OrElse(o.circuitBreakerResetMs, d.circuitBreakerResetMs),
      OrElse(o.autoQuarantine, d.autoQuarantine), OrElse(o.autoRollback, d.autoRollback))
  }

  function PolicyForTier(c: Config, tier: TrustTier): Policy {
    Merge(c.defaultPolicy, if tier in c.tierPolicies then c.tierPolicies[tier] else TierDefaults(tier))
  }

  function PolicyForAgent(c: Config, nodes: Nodes, agentId: string): Policy {
    PolicyForTier(c, if agentId in nodes then nodes[agentId].trustTier else Provisional)
  }

  // ---------------------------------------------------------------- the manager's state as a value

  /** A circuit breaker with the thresholds it was built with. */
  datatype Link = Link(breaker: CB.Breaker, config: CB.Config)

  datatype State = State(nodes: Nodes, breakers: map<string, Link>, events: seq<CascadeEvent>)

  datatype Refusal = FanoutExceeded | DepthExceeded(depth: nat)

  function LinkKey(from: string, to: string): string {
    from + "->" + to
  }

  function Register(nodes: Nodes, agentId: string, tier: TrustTier): Nodes {
    if agentId in nodes then nodes else nodes[agentId := AgentNode(tier, Healthy, [], [])]
  }

  function EnsureBoth(nodes: Nodes, from: string, to: string): Nodes {
    Register(Register(nodes, from, Provisional), to, Provisional)
  }

  /** Both edge lists, updated one after the other; the two agents may be the same one. */
  function AddEdge(nodes: Nodes, from: string, to: string): Nodes
    requires from in nodes && to in nodes
  {
    var half := nodes[from := nodes[from].(dependencies := nodes[from].dependencies + [to])];
    half[to := half[to].(dependents := half[to].dependents + [from])]
  }

  /** A link keeps the breaker it has and otherwise gets a new one. */
  function WithBreaker(breakers: map<string, Link>, key: string, policy: Policy): map<string, Link> {
    if key in breakers then breakers
    else breakers[key := Link(CB.NEW_BREAKER, CB.Config(policy.circuitBreakerThreshold, policy.circuitBreakerResetMs))]
  }

  function AddedDependency(c: Config, st: State, from: string, to: string): (State, Option<Refusal>) {
    var nodes := EnsureBoth(st.nodes, from, to);
    var known := st.(nodes := nodes);
    if to in nodes[from].dependencies then (known, None)
    else
      var policy := PolicyForAgent(c, nodes, from);
      var depth := DepthTo(nodes, to, {}).0 + 1;
      if |nodes[from].dependencies| >= policy.maxFanout then (known, Some(FanoutExceeded))
      else if depth > policy.maxDependencyDepth then (known, Some(DepthExceeded(depth)))
      else
        (State(AddEdge(nodes, from, to), WithBreaker(st.breakers, LinkKey(from, to), policy), st.events), None)
  }

  /** Reading a breaker's state may turn it half open. */
  function ReadLink(breakers: map<string, Link>, key: string, now: int): map<string, Link> {
    if key in breakers
    then breakers[key := breakers[key].(breaker := CB.Observe(breakers[key].breaker, breakers[key].config, now))]
    else breakers
  }

  predicate IsOpen(breakers: map<string, Link>, key: string) {
    key in breakers && breakers[key].breaker.state == CB.Open
  }

  function SetHealth(nodes: Nodes, agentId: string, health: Health): Nodes {
    if agentId in nodes then nodes[agentId := nodes[agentId].(healthStatus := health)] else nodes
  }

  function RecordedSuccess(st: State, from: string, to: string): State {
    var key := LinkKey(from, to);
    State(
      SetHealth(st.nodes, to, Healthy),
      if key in st.breakers then st.breakers[key := st.breakers[key].(breaker := CB.Succeed(st.breakers[key].breaker))]
      else st.breakers,
      st.events)
  }

  ghost function Emit(st: State, source: string, affected: seq<string>, action: Action, reason: string)
    : (State, CascadeEvent)
  {
    var e := CascadeEvent(source, affected, action, reason, |Affected(st.nodes, source)|, |st.events|);
    (st.(events := st.events + [e]), e)
  }

  /** Reading the breakers of every link into an agent, and how many of them are open. */
  function ReadInto(breakers: map<string, Link>, dependents: seq<string>, agentId: string, now: int)
    : (map<string, Link>, nat)
  {
    if dependents == [] then (breakers, 0)
    else
      var (before, n) := ReadInto(breakers, dependents[..|dependents| - 1], agentId, now);
      var key := LinkKey(dependents[|dependents| - 1], agentId);
      var after := ReadLink(before, key, now);
      (after, if IsOpen(after, key) then n + 1 else n)
  }

  /** The healthy agents among the ids, in order. */
  function HealthyAmong(nodes: Nodes, ids: seq<string>): seq<string> {
    if ids == [] then []
    else
      var last := ids[|ids| - 1];
      HealthyAmong(nodes, ids[..|ids| - 1])
      + if last in nodes && nodes[last].healthStatus == Healthy then [last] else []
  }

  function DegradeAll(nodes: Nodes, ids: seq<string>): Nodes {
    if ids == [] then nodes else SetHealth(DegradeAll(nodes, ids[..|ids| - 1]), ids[|ids| - 1], Degraded)
  }

  /** Propagation as it takes effect: the healthy direct dependents of a failed agent degrade, and nobody else. */
  ghost function Propagate(st: State, agentId: string): (State, seq<CascadeEvent>) {
    if agentId !in st.nodes
       || (st.nodes[agentId].healthStatus != Failing && st.nodes[agentId].healthStatus != Unreachable)
    then (st, [])
    else
      var affected := HealthyAmong(st.nodes, st.nodes[agentId].dependents);
      var degraded := st.(nodes := DegradeAll(st.nodes, affected));
      if affected == [] then (degraded, [])
      else
        var (after, e) :=
          Emit(degraded, agentId, affected, HealthPropagated, "Health degradation propagated from " + agentId);
        (after, [e])
  }

  ghost function Quarantine(c: Config, st: State, agentId: string, reason: string): (State, seq<CascadeEvent>)
    requires agentId in st.nodes
  {
    if st.nodes[agentId].healthStatus == Failing && PolicyForAgent(c, st.nodes, agentId).autoQuarantine then
      var cut := st.(nodes := SetHealth(st.nodes, agentId, Unreachable));
      var (noted, e) := Emit(cut, agentId, [agentId], AgentQuarantined, "Auto-quarantined: " + reason);
      var (after, more) := Propagate(noted, agentId);
      (after, [e] + more)
    else (st, [])
  }

  ghost function Containment(c: Config, st: State, agentId: string, reason: string): (State, seq<CascadeEvent>) {
    if agentId !in st.nodes then (st, [])
    else
      var policy := PolicyForAgent(c, st.nodes, agentId);
      var (mid, triggered) := Quarantine(c, st, agentId, reason);
      if agentId in mid.nodes && mid.nodes[agentId].healthStatus == Unreachable && policy.autoRollback then
        var (after, e) := Emit(mid, agentId, [agentId], RollbackTriggered, "Auto-rollback triggered: " + reason);
        (after, triggered + [e])
      else (mid, triggered)
  }

  /** The failed link's breaker: count the failure, read it at once, and note when it is open. */
  ghost function FailLink(st: State, from: string, to: string, reason: string, now: int): (State, seq<CascadeEvent>) {
    var key := LinkKey(from, to);
    if key !in st.breakers then (st, [])
    else
      var failed := CB.Fail(st.breakers[key].breaker, st.breakers[key].config, now);
      var noted := st.(breakers := ReadLink(st.breakers[key := st.breakers[key].(breaker := failed)], key, now));
      if IsOpen(noted.breakers, key) then
        var (after, e) := Emit(noted, to, [from], CircuitOpened, reason);
        (after, [e])
      else (noted, [])
  }

  /** The target's health follows the number of open breakers into it. */
  function AssessTarget(c: Config, st: State, to: string, now: int): State {
    if to !in st.nodes then st
    else
      var (breakers, open) := ReadInto(st.breakers, st.nodes[to].dependents, to, now);
      var nodes :=
        if open >= c.cascadeThreshold then SetHealth(st.nodes, to, Failing)
        else if open > 0 then SetHealth(st.nodes, to, Degraded)
        else st.nodes;
      State(nodes, breakers, st.events)
  }

  ghost function RecordedFailure(c: Config, st: State, from: string, to: string, reason: string, now: int)
    : (State, seq<CascadeEvent>)
  {
    var (a, raised) := FailLink(st, from, to, reason, now);
    var (b, contained) := Containment(c, AssessTarget(c, a, to, now), to, reason);
    (b, raised + contained)
  }

  // ---------------------------------------------------------------- what every run keeps

  ghost predicate EventsIndexed(events: seq<CascadeEvent>) {
    forall i :: 0 <= i < |events| ==> events[i].containedAt == i
  }

  ghost predicate WithinFanout(c: Config, nodes: Nodes) {
    forall a :: a in nodes ==>
      |nodes[a].dependencies| <= if PolicyForTier(c, nodes[a].trustTier).maxFanout < 0 then 0
                                 else PolicyForTier(c, nodes[a].trustTier).maxFanout
  }

  /** There is a breaker for every edge, and no other. */
  ghost predicate BreakersMatch(nodes: Nodes, breakers: map<string, Link>) {
    && (forall a, b :: DependsOn(nodes, a, b) ==> LinkKey(a, b) in breakers)
    && (forall key :: key in breakers ==> exists a, b :: DependsOn(nodes, a, b) && LinkKey(a, b) == key)
  }

  ghost predicate Consistent(c: Config, st: State) {
    && Mirrored(st.nodes) && WithoutDuplicates(st.nodes) && WithinFanout(c, st.nodes)
    && BreakersMatch(st.nodes, st.breakers) && EventsIndexed(st.events)
  }

  /** Same agents, tiers and edges; health may differ. */
  predicate SameShape(nodes: Nodes, other: Nodes) {
    && nodes.Keys == other.Keys
    && forall a :: a in nodes ==> other[a].(healthStatus := nodes[a].healthStatus) == nodes[a]
  }

  /** The step changed health, breaker states and the end of the log only. */
  ghost predicate Quiet(st: State, after: State) {
    && SameShape(st.nodes, after.nodes) && st.breakers.Keys == after.breakers.Keys
    && st.events <= after.events
    && forall i :: |st.events| <= i < |after.events| ==> after.events[i].containedAt == i
  }

  /** A quiet step that returns exactly the events it appended, in order. */
  ghost predicate Reports(st: State, r: (State, seq<CascadeEvent>)) {
    Quiet(st, r.0) && r.0.events == st.events + r.1
  }

  lemma {:induction false} QuietKeepsConsistent(c: Config, st: State, after: State)
    requires Consistent(c, st) && Quiet(st, after)
    ensures Consistent(c, after)
  {
    SameShapeSameEdges(st.nodes, after.nodes);
    forall i | 0 <= i < |after.events| ensures after.events[i].containedAt == i {
      if i < |st.events| {
        assert after.events[i] == st.events[i];
      }
    }
    forall key | key in after.breakers ensures exists a, b :: DependsOn(after.nodes, a, b) && LinkKey(a, b) == key {
      var a, b :| DependsOn(st.nodes, a, b) && LinkKey(a, b) == key;
      assert DependsOn(after.nodes, a, b);
    }
  }

  lemma {:induction false} SameShapeSameEdges(nodes: Nodes, other: Nodes)
    requires SameShape(nodes, other)
    ensures forall a, b :: DependsOn(nodes, a, b) <==> DependsOn(other, a, b)
    ensures forall a :: a in nodes ==>
      && nodes[a].dependencies == other[a].dependencies && nodes[a].dependents == other[a].dependents
      && nodes[a].trustTier == other[a].trustTier
  {
    forall a | a in nodes
      ensures nodes[a].dependencies == other[a].dependencies && nodes[a].dependents == other[a].dependents
              && nodes[a].trustTier == other[a].trustTier
    {
      assert other[a].(healthStatus := nodes[a].healthStatus) == nodes[a];
    }
  }

  lemma {:induction false} QuietThen(a: State, b: State, c: State)
    requires Quiet(a, b) && Quiet(b, c)
    ensures Quiet(a, c)
  {
    SameShapeSameEdges(a.nodes, b.nodes);
    SameShapeSameEdges(b.nodes, c.nodes);
    forall i | |a.events| <= i < |c.events| ensures c.events[i].containedAt == i {
      if i < |b.events| {
        assert c.events[i] == b.events[i];
      }
    }
  }

  lemma {:induction false} ReportsThen(a: State, r: (State, seq<CascadeEvent>), s: (State, seq<CascadeEvent>))
    requires Reports(a, r) && Reports(r.0, s)
    ensures Reports(a, (s.0, r.1 + s.1))
  {
    QuietThen(a, r.0, s.0);
  }

  lemma {:induction false} EmitReports(st: State, source: string, affected: seq<string>, action: Action, reason: string)
    ensures var (after, e) := Emit(st, source, affected, action, reason); Reports(st, (after, [e]))
  {
  }

  lemma {:induction false} SetHealthIsQuiet(nodes: Nodes, agentId: string, health: Health)
    ensures SameShape(nodes, SetHealth(nodes, agentId, health))
  {
  }

  lemma {:induction false} DegradeAllIsQuiet(nodes: Nodes, ids: seq<string>)
    ensures SameShape(nodes, DegradeAll(nodes, ids))
  {
    if ids != [] {
      var prior := DegradeAll(nodes, ids[..|ids| - 1]);
      DegradeAllIsQuiet(nodes, ids[..|ids| - 1]);
      SetHealthIsQuiet(prior, ids[|ids| - 1], Degraded);
      SameShapeSameEdges(nodes, prior);
      SameShapeSameEdges(prior, DegradeAll(nodes, ids));
    }
  }

  lemma {:induction false} ReadIntoKeepsKeys(breakers: map<string, Link>, dependents: seq<string>, agentId: string,
                                             now: int)
    ensures ReadInto(breakers, dependents, agentId, now).0.Keys == breakers.Keys
  {
    if dependents != [] {
      ReadIntoKeepsKeys(breakers, dependents[..|dependents| - 1], agentId, now);
    }
  }

  lemma {:induction false} PropagateReports(st: State, agentId: string)
    ensures Reports(st, Propagate(st, agentId))
  {
    if agentId in st.nodes {
      var affected := HealthyAmong(st.nodes, st.nodes[agentId].dependents);
      DegradeAllIsQuiet(st.nodes, affected);
      var degraded := st.(nodes := DegradeAll(st.nodes, affected));
      assert Reports(st, (degraded, []));
      var reason := "Health degradation propagated from " + agentId;
      EmitReports(degraded, agentId, affected, HealthPropagated, reason);
      var (after, e) := Emit(degraded, agentId, affected, HealthPropagated, reason);
      ReportsThen(st, (degraded, []), (after, [e]));
      assert [] + [e] == [e];
    }
  }

  lemma {:induction false} QuarantineReports(c: Config, st: State, agentId: string, reason: string)
    requires agentId in st.nodes
    ensures Reports(st, Quarantine(c, st, agentId, reason))
  {
    SetHealthIsQuiet(st.nodes, agentId, Unreachable);
    var cut := st.(nodes := SetHealth(st.nodes, agentId, Unreachable));
    assert Reports(st, (cut, []));
    var why := "Auto-quarantined: " + reason;
    EmitReports(cut, agentId, [agentId], AgentQuarantined, why);
    var (noted, e) := Emit(cut, agentId, [agentId], AgentQuarantined, why);
    ReportsThen(st, (cut, []), (noted, [e]));
    assert [] + [e] == [e];
    PropagateReports(noted, agentId);
    ReportsThen(st, (noted, [e]), Propagate(noted, agentId));
  }

  lemma {:induction false} ApplyContainmentReports(c: Config, st: State, agentId: string, reason: string)
    ensures Reports(st, Containment(c, st, agentId, reason))
  {
    if agentId in st.nodes {
      QuarantineReports(c, st, agentId, reason);
      var (mid, triggered) := Quarantine(c, st, agentId, reason);
      var why := "Auto-rollback triggered: " + reason;
      EmitReports(mid, agentId, [agentId], RollbackTriggered, why);
      var (after, e) := Emit(mid, agentId, [agentId], RollbackTriggered, why);
      ReportsThen(st, (mid, triggered), (after, [e]));
    }
  }

  lemma {:induction false} FailLinkReports(st: State, from: string, to: string, reason: string, now: int)
    ensures Reports(st, FailLink(st, from, to, reason, now))
  {
    var key := LinkKey(from, to);
    if key in st.breakers {
      var failed := CB.Fail(st.breakers[key].breaker, st.breakers[key].config, now);
      var noted := st.(breakers := ReadLink(st.breakers[key := st.breakers[key].(breaker := failed)], key, now));
      assert Reports(st, (noted, []));
      EmitReports(noted, to, [from], CircuitOpened, reason);
      var (after, e) := Emit(noted, to, [from], CircuitOpened, reason);
      ReportsThen(st, (noted, []), (after, [e]));
      assert [] + [e] == [e];
    }
  }

  lemma {:induction false} AssessTargetIsQuiet(c: Config, st: State, to: string, now: int)
    ensures Reports(st, (AssessTarget(c, st, to, now), []))
  {
    if to in st.nodes {
      ReadIntoKeepsKeys(st.breakers, st.nodes[to].dependents, to, now);
      SetHealthIsQuiet(st.nodes, to, Failing);
      SetHealthIsQuiet(st.nodes, to, Degraded);
    }
  }

  /** Recording a failure returns exactly the events it appends to the log, in order, and keeps the graph. */
  lemma {:induction false} RecordFailureReports(c: Config, st: State, from: string, to: string, reason: string,
                                                now: int)
    ensures Reports(st, RecordedFailure(c, st, from, to, reason, now))
  {
    FailLinkReports(st, from, to, reason, now);
    var (a, raised) := FailLink(st, from, to, reason, now);
    var b := AssessTarget(c, a, to, now);
    AssessTargetIsQuiet(c, a, to, now);
    ReportsThen(st, (a, raised), (b, []));
    assert raised + [] == raised;
    ApplyContainmentReports(c, b, to, reason);
    ReportsThen(st, (b, raised), Containment(c, b, to, reason));
  }

  // ---------------------------------------------------------------- growing the graph

  lemma {:induction false} RegisterEdges(nodes: Nodes, agentId: string, tier: TrustTier)
    ensures forall a, b :: DependsOn(nodes, a, b) <==> DependsOn(Register(nodes, agentId, tier), a, b)
  {
  }

  lemma {:induction false} RegisterIsMirrored(nodes: Nodes, agentId: string, tier: TrustTier)
    requires Mirrored(nodes)
    ensures Mirrored(Register(nodes, agentId, tier))
  {
    var after := Register(nodes, agentId, tier);
    forall a, b ensures DependsOn(after, a, b) <==> b in after && a in after[b].dependents {
      assert DependsOn(nodes, a, b) <==> b in nodes && a in nodes[b].dependents;
    }
  }

  lemma {:induction false} RegisterKeeps(c: Config, st: State, agentId: string, tier: TrustTier)
    requires Consistent(c, st)
    ensures var after := st.(nodes := Register(st.nodes, agentId, tier));
            Consistent(c, after) && forall a, b :: DependsOn(st.nodes, a, b) <==> DependsOn(after.nodes, a, b)
  {
    var after := Register(st.nodes, agentId, tier);
    if agentId in st.nodes {
      assert after == st.nodes;
    } else {
      RegisterIsMirrored(st.nodes, agentId, tier);
      RegisterEdges(st.nodes, agentId, tier);
      KeysStillMatch(st.nodes, after, st.breakers);
    }
  }

  lemma {:induction false} KeysStillMatch(nodes: Nodes, other: Nodes, breakers: map<string, Link>)
    requires BreakersMatch(nodes, breakers) && forall a, b :: DependsOn(nodes, a, b) <==> DependsOn(other, a, b)
    ensures BreakersMatch(other, breakers)
  {
    forall key | key in breakers ensures exists a, b :: DependsOn(other, a, b) && LinkKey(a, b) == key {
      var a, b :| DependsOn(nodes, a, b) && LinkKey(a, b) == key;
      assert DependsOn(other, a, b);
    }
  }

  lemma {:induction false} AddEdgeEdges(nodes: Nodes, from: string, to: string)
    requires from in nodes && to in nodes && Mirrored(nodes) && WithoutDuplicates(nodes) && !DependsOn(nodes, from, to)
    ensures var after := AddEdge(nodes, from, to);
            && after.Keys == nodes.Keys
            && (forall a, b :: DependsOn(after, a, b) <==> DependsOn(nodes, a, b) || (a == from && b == to))
            && Mirrored(after) && WithoutDuplicates(after)
            && (forall a :: a in nodes ==>
                  && after[a].trustTier == nodes[a].trustTier
                  && |after[a].dependencies| == |nodes[a].dependencies| + if a == from then 1 else 0)
  {
    var after := AddEdge(nodes, from, to);
    assert after[from].dependencies == nodes[from].dependencies + [to];
    assert after[to].dependents == nodes[to].dependents + [from];
    forall a, b ensures DependsOn(after, a, b) <==> DependsOn(nodes, a, b) || (a == from && b == to) {
    }
    forall a, b ensures DependsOn(after, a, b) <==> b in after && a in after[b].dependents {
      assert DependsOn(nodes, a, b) <==> b in nodes && a in nodes[b].dependents;
    }
    assert from !in nodes[to].dependents by {
      assert !DependsOn(nodes, from, to);
    }
    forall a | a in after ensures NoDuplicates(after[a].dependencies) && NoDuplicates(after[a].dependents) {
    }
  }

  /** What a call leaves behind: the two agents registered, and one edge with its breaker unless known or refused. */
  lemma {:induction false} AddDependencyOutcome(c: Config, st: State, from: string, to: string)
    ensures var known := st.(nodes := EnsureBoth(st.nodes, from, to));
            var (after, refusal) := AddedDependency(c, st, from, to);
            && from in known.nodes && to in known.nodes
            && (DependsOn(known.nodes, from, to) || refusal.Some? ==> after == known)
            && (!DependsOn(known.nodes, from, to) && refusal.None? ==>
                  && after.nodes == AddEdge(known.nodes, from, to) && after.events == known.events
                  && after.breakers.Keys == known.breakers.Keys + {LinkKey(from, to)}
                  && |known.nodes[from].dependencies| < PolicyForTier(c, known.nodes[from].trustTier).maxFanout)
  {
  }

  /** The edges are those of before and, unless the call is refused, the new one. */
  ghost predicate EdgesGrow(nodes: Nodes, more: Nodes, added: bool, from: string, to: string) {
    forall a, b :: DependsOn(more, a, b) <==> DependsOn(nodes, a, b) || (added && a == from && b == to)
  }

  /** Adding a dependency keeps the graph consistent, refused or not, and a refusal leaves every edge as it was. */
  lemma {:induction false} AddDependencyKeeps(c: Config, st: State, from: string, to: string)
    requires Consistent(c, st)
    ensures var (after, refusal) := AddedDependency(c, st, from, to);
            && Consistent(c, after) && after.events == st.events
            && EdgesGrow(st.nodes, after.nodes, refusal.None?, from, to)
  {
    var known := st.(nodes := EnsureBoth(st.nodes, from, to));
    var (after, refusal) := AddedDependency(c, st, from, to);
    AddDependencyOutcome(c, st, from, to);
    EnsureBothKeeps(c, st, from, to);
    if !DependsOn(known.nodes, from, to) && refusal.None? {
      AcceptedKeeps(c, known, after, from, to);
    }
  }

  lemma {:induction false} EnsureBothKeeps(c: Config, st: State, from: string, to: string)
    requires Consistent(c, st)
    ensures var known := st.(nodes := EnsureBoth(st.nodes, from, to));
            && Consistent(c, known) && from in known.nodes && to in known.nodes
            && forall a, b :: DependsOn(known.nodes, a, b) <==> DependsOn(st.nodes, a, b)
  {
    RegisterKeeps(c, st, from, Provisional);
    RegisterKeeps(c, st.(nodes := Register(st.nodes, from, Provisional)), to, Provisional);
  }

  lemma {:induction false} AcceptedKeeps(c: Config, known: State, after: State, from: string, to: string)
    requires Consistent(c, known) && from in known.nodes && to in known.nodes && !DependsOn(known.nodes, from, to)
    requires |known.nodes[from].dependencies| < PolicyForTier(c, known.nodes[from].trustTier).maxFanout
    requires after.nodes == AddEdge(known.nodes, from, to) && after.events == known.events
    requires after.breakers.Keys == known.breakers.Keys + {LinkKey(from, to)}
    ensures Consistent(c, after)
    ensures forall a, b :: DependsOn(after.nodes, a, b) <==> DependsOn(known.nodes, a, b) || (a == from && b == to)
  {
    AddEdgeEdges(known.nodes, from, to);
    EdgeGetsBreaker(known.nodes, after.nodes, known.breakers, after.breakers, from, to);
    EdgeKeepsFanout(c, known.nodes, after.nodes, from);
  }

  lemma {:induction false} EdgeKeepsFanout(c: Config, nodes: Nodes, more: Nodes, from: string)
    requires WithinFanout(c, nodes) && more.Keys == nodes.Keys && from in nodes
    requires |nodes[from].dependencies| < PolicyForTier(c, nodes[from].trustTier).maxFanout
    requires forall a :: a in nodes ==>
      && more[a].trustTier == nodes[a].trustTier
      && |more[a].dependencies| == |nodes[a].dependencies| + if a == from then 1 else 0
    ensures WithinFanout(c, more)
  {
  }

  lemma {:induction false} EdgeGetsBreaker(nodes: Nodes, more: Nodes, breakers: map<string, Link>,
                                           after: map<string, Link>,
                                           from: string, to: string)
    requires BreakersMatch(nodes, breakers) && after.Keys == breakers.Keys + {LinkKey(from, to)}
    requires forall a, b :: DependsOn(more, a, b) <==> DependsOn(nodes, a, b) || (a == from && b == to)
    ensures BreakersMatch(more, after)
  {
    forall key | key in after ensures exists a, b :: DependsOn(more, a, b) && LinkKey(a, b) == key {
      if key in breakers {
        var a, b :| DependsOn(nodes, a, b) && LinkKey(a, b) == key;
        assert DependsOn(more, a, b);
      } else {
        assert DependsOn(more, from, to);
      }
    }
  }

  /** Adding a dependency, accepted or not, never lowers any agent's blast radius. */
  lemma {:induction false} AddDependencyNeverShrinks(c: Config, st: State, from: string, to: string, agentId: string)
    requires Consistent(c, st)
    ensures |Affected(st.nodes, agentId)| <= |Affected(AddedDependency(c, st, from, to).0.nodes, agentId)|
  {
    var after := AddedDependency(c, st, from, to).0;
    AddDependencyKeeps(c, st, from, to);
    AddDependencyOutcome(c, st, from, to);
    EnsureBothKeeps(c, st, from, to);
    assert forall a :: a in st.nodes ==> a in after.nodes;
    BlastRadiusGrows(st.nodes, after.nodes, agentId);
  }

  /**
   * What the depth check buys: once a new dependency is accepted, whatever it leads to is within as many steps of the
   * agent as its tier's policy allows.
   */
  lemma {:induction false} AcceptedIsShallow(c: Config, st: State, from: string, to: string, b: string)
    requires Consistent(c, st) && !DependsOn(st.nodes, from, to) && AddedDependency(c, st, from, to).1.None?
    requires Reaches(DependencyGraph(AddedDependency(c, st, from, to).0.nodes), to, b)
    ensures var after := AddedDependency(c, st, from, to).0.nodes;
            from in after && exists d: nat ::
              d <= PolicyForTier(c, after[from].trustTier).maxDependencyDepth && WithinSteps(after, from, b, d)
  {
    var nodes := EnsureBoth(st.nodes, from, to);
    var after := AddedDependency(c, st, from, to).0.nodes;
    AddDependencyOutcome(c, st, from, to);
    EnsureBothKeeps(c, st, from, to);
    AddEdgeEdges(nodes, from, to);
    NewEdgeIsShallow(nodes, after, from, to, b);
  }

  lemma {:induction false} RefusalMeaning(c: Config, st: State, from: string, to: string)
    ensures var nodes := EnsureBoth(st.nodes, from, to);
            var refusal := AddedDependency(c, st, from, to).1;
            from in nodes && to in nodes && (refusal.Some? && refusal.value.DepthExceeded? ==>
              && !DependsOn(nodes, from, to) && refusal.value.depth == DepthTo(nodes, to, {}).0 + 1
              && refusal.value.depth > PolicyForTier(c, nodes[from].trustTier).maxDependencyDepth)
  {
  }

  /** And it refuses only what would be too deep: over the refused dependency a walk exceeds the limit. */
  lemma {:induction false} RefusedIsDeep(c: Config, st: State, from: string, to: string, depth: nat)
    requires Consistent(c, st) && AddedDependency(c, st, from, to).1 == Some(DepthExceeded(depth))
    ensures var nodes := EnsureBoth(st.nodes, from, to);
            && from in nodes && to in nodes && HasWalk(AddEdge(nodes, from, to), from, depth)
            && depth > PolicyForTier(c, nodes[from].trustTier).maxDependencyDepth
  {
    var nodes := EnsureBoth(st.nodes, from, to);
    RefusalMeaning(c, st, from, to);
    EnsureBothKeeps(c, st, from, to);
    AddEdgeEdges(nodes, from, to);
    DepthIsWalk(nodes, to, {});
    LongerWalkAfter(nodes, AddEdge(nodes, from, to), from, to, DepthTo(nodes, to, {}).0);
  }

  // ---------------------------------------------------------------- runs

  datatype Op =
    | RegisterAgent(agentId: string, tier: TrustTier)
    | AddLink(from: string, to: string)
    | Succeeded(from: string, to: string)
    | Failed(from: string, to: string, reason: string, now: int)
    | ReadBreaker(from: string, to: string, now: int)
    | PropagateHealth(agentId: string)
    | ResetAgent(agentId: string)

  ghost function Step(c: Config, st: State, op: Op): State {
    match op
    case RegisterAgent(agentId, tier) => st.(nodes := Register(st.nodes, agentId, tier))
    case AddLink(from, to) => AddedDependency(c, st, from, to).0
    case Succeeded(from, to) => RecordedSuccess(st, from, to)
    case Failed(from, to, reason, now) => RecordedFailure(c, st, from, to, reason, now).0
    case ReadBreaker(from, to, now) => st.(breakers := ReadLink(st.breakers, LinkKey(from, to), now))
    case PropagateHealth(agentId) => Propagate(st, agentId).0
    case ResetAgent(agentId) => st.(nodes := SetHealth(st.nodes, agentId, Healthy))
  }

  const EMPTY := State(map[], map[], [])

  ghost function Run(c: Config, ops: seq<Op>): State {
    if ops == [] then EMPTY else Step(c, Run(c, ops[..|ops| - 1]), ops[|ops| - 1])
  }

  lemma {:induction false} StepKeeps(c: Config, st: State, op: Op)
    requires Consistent(c, st)
    ensures Consistent(c, Step(c, st, op)) && st.events <= Step(c, st, op).events
  {
    match op
    case RegisterAgent(agentId, tier) => RegisterKeeps(c, st, agentId, tier);
    case AddLink(from, to) => AddDependencyKeeps(c, st, from, to);
    case Succeeded(from, to) =>
      SetHealthIsQuiet(st.nodes, to, Healthy);
      QuietKeepsConsistent(c, st, RecordedSuccess(st, from, to));
    case Failed(from, to, reason, now) =>
      RecordFailureReports(c, st, from, to, reason, now);
      QuietKeepsConsistent(c, st, Step(c, st, op));
    case ReadBreaker(from, to, now) => QuietKeepsConsistent(c, st, Step(c, st, op));
    case PropagateHealth(agentId) =>
      PropagateReports(st, agentId);
      QuietKeepsConsistent(c, st, Step(c, st, op));
    case ResetAgent(agentId) =>
      SetHealthIsQuiet(st.nodes, agentId, Healthy);
      QuietKeepsConsistent(c, st, Step(c, st, op));
  }

  /** Every run of manager operations keeps the graph consistent, and the log only grows. */
  lemma {:induction false} RunKeeps(c: Config, ops: seq<Op>)
    ensures Consistent(c, Run(c, ops))
    ensures forall n :: 0 <= n <= |ops| ==> Run(c, ops[..n]).events <= Run(c, ops).events
  {
    if ops != [] {
      var init := ops[..|ops| - 1];
      RunKeeps(c, init);
      StepKeeps(c, Run(c, init), ops[|ops| - 1]);
      forall n | 0 <= n <= |ops| ensures Run(c, ops[..n]).events <= Run(c, ops).events {
        if n < |ops| {
          assert ops[..n] == init[..n];
        } else {
          assert ops[..n] == ops;
        }
      }
    }
  }

  // ---------------------------------------------------------------- link keys

  /** One of the two ids is the other one followed by an arrow and anything. */
  predicate Clash(a: string, c: string) {
    a + "->" <= c || c + "->" <= a
  }

  lemma {:induction false} ShorterIsExtended(a: string, b: string, c: string, d: string)
    requires LinkKey(a, b) == LinkKey(c, d) && |a| < |c|
    ensures a + "->" <= c
  {
    var k := LinkKey(a, b);
    assert k[|a|] == '-' && k[|a| + 1] == '>' && LinkKey(c, d)[|c|] == '-';
    assert k[..|a| + 2] == a + "->";
    assert |a| + 2 <= |c|;
    assert c[..|a| + 2] == LinkKey(c, d)[..|a| + 2];
  }

  /** Two links share a key only if they are the same link or their calling agents' ids clash. */
  lemma {:induction false} SharedKeyMeansClash(a: string, b: string, c: string, d: string)
    requires LinkKey(a, b) == LinkKey(c, d)
    ensures (a == c && b == d) || Clash(a, c)
  {
    var k := LinkKey(a, b);
    if |a| < |c| {
      ShorterIsExtended(a, b, c, d);
    } else if |c| < |a| {
      ShorterIsExtended(c, d, a, b);
    } else {
      assert a == k[..|a|] && c == LinkKey(c, d)[..|a|];
      assert b == k[|a| + 2..] && d == LinkKey(c, d)[|a| + 2..];
    }
  }

  /** Calling agents whose ids do not clash never share a key for two links. */
  lemma {:induction false} LinkKeyIsInjective(a: string, b: string, c: string, d: string)
    requires !Clash(a, c) && LinkKey(a, b) == LinkKey(c, d)
    ensures a == c && b == d
  {
    SharedKeyMeansClash(a, b, c, d);
  }

  lemma {:induction false} ExtendedSharesKey(a: string, c: string) returns (b: string, d: string)
    requires a + "->" <= c
    ensures LinkKey(a, b) == LinkKey(c, d)
  {
    var rest := c[|a| + 2..];
    assert c == a + "->" + rest;
    b, d := rest + "->", "";
  }

  /**
   * Two different agents can share a key, and so a breaker, for some two of their links exactly when their ids clash.
   */
  lemma {:induction false} LinkKeysCanCollide(a: string, c: string)
    requires a != c
    ensures (exists b, d :: LinkKey(a, b) == LinkKey(c, d)) <==> Clash(a, c)
  {
    if b, d :| LinkKey(a, b) == LinkKey(c, d) {
      SharedKeyMeansClash(a, b, c, d);
    }
    if a + "->" <= c {
      var b, d := ExtendedSharesKey(a, c);
    } else if c + "->" <= a {
      var d, b := ExtendedSharesKey(c, a);
    }
  }

  predicate HasArrow(id: string) {
    exists i :: 0 <= i < |id| - 1 && id[i] == '-' && id[i + 1] == '>'
  }

  lemma {:induction false} ExtendedHasArrow(a: string, c: string)
    requires a + "->" <= c
    ensures HasArrow(c)
  {
    assert (a + "->")[|a|] == '-' && (a + "->")[|a| + 1] == '>';
    assert c[|a|] == '-' && c[|a| + 1] == '>';
  }

  /** Ids can only clash when one of them has an arrow in it. */
  lemma {:induction false} ClashNeedsArrow(a: string, c: string)
    requires Clash(a, c)
    ensures HasArrow(a) || HasArrow(c)
  {
    if a + "->" <= c {
      ExtendedHasArrow(a, c);
    } else {
      ExtendedHasArrow(c, a);
    }
  }

  ghost function Links(nodes: Nodes): set<(string, string)> {
    set a, b | a in nodes && b in nodes[a].dependencies :: (a, b)
  }

  /** The keys are those of the links. */
  ghost predicate KeysOf(links: set<(string, string)>, keys: set<string>) {
    && (forall l :: l in links ==> LinkKey(l.0, l.1) in keys)
    && forall k :: k in keys ==> HasKey(links, k)
  }

  ghost predicate HasKey(links: set<(string, string)>, k: string) {
    exists l :: l in links && LinkKey(l.0, l.1) == k
  }

  /** No two links share a key. */
  ghost predicate KeysAreApart(links: set<(string, string)>) {
    forall l, m :: l in links && m in links && LinkKey(l.0, l.1) == LinkKey(m.0, m.1) ==> l == m
  }

  lemma {:induction false} InjectiveCount(links: set<(string, string)>, keys: set<string>)
    requires KeysOf(links, keys) && KeysAreApart(links)
    ensures |links| == |keys|
    decreases links
  {
    if l :| l in links {
      var rest, others := links - {l}, keys - {LinkKey(l.0, l.1)};
      forall k | k in others ensures HasKey(rest, k) {
        assert HasKey(links, k);
        var m :| m in links && LinkKey(m.0, m.1) == k;
        assert m in rest;
      }
      InjectiveCount(rest, others);
    } else {
      assert forall k :: k in keys ==> HasKey(links, k);
      assert links == {} && keys == {};
    }
  }

  lemma {:induction false} OntoCount(links: set<(string, string)>, keys: set<string>)
    requires forall k :: k in keys ==> HasKey(links, k)
    ensures |keys| <= |links|
    decreases links
  {
    if l :| l in links {
      var rest, others := links - {l}, keys - {LinkKey(l.0, l.1)};
      forall k | k in others ensures HasKey(rest, k) {
        assert HasKey(links, k);
        var m :| m in links && LinkKey(m.0, m.1) == k;
        assert m in rest;
      }
      OntoCount(rest, others);
    } else {
      assert keys == {};
    }
  }

  lemma {:induction false} SharedKeysAreFewer(links: set<(string, string)>, keys: set<string>,
                                              l: (string, string), m: (string, string))
    requires KeysOf(links, keys) && l in links && m in links && l != m && LinkKey(l.0, l.1) == LinkKey(m.0, m.1)
    ensures |keys| < |links|
  {
    forall k | k in keys ensures HasKey(links - {l}, k) {
      assert HasKey(links, k);
      var n :| n in links && LinkKey(n.0, n.1) == k;
      assert (if n == l then m else n) in links - {l};
    }
    OntoCount(links - {l}, keys);
  }

  lemma {:induction false} CountExactlyWhen(links: set<(string, string)>, keys: set<string>)
    requires KeysOf(links, keys)
    ensures |keys| == |links| <==> KeysAreApart(links)
  {
    if KeysAreApart(links) {
      InjectiveCount(links, keys);
    } else {
      var l, m :| l in links && m in links && LinkKey(l.0, l.1) == LinkKey(m.0, m.1) && l != m;
      SharedKeysAreFewer(links, keys, l, m);
    }
  }

  lemma {:induction false} BreakersAreKeys(c: Config, st: State)
    requires Consistent(c, st)
    ensures KeysOf(Links(st.nodes), st.breakers.Keys)
  {
    var links := Links(st.nodes);
    forall l | l in links ensures LinkKey(l.0, l.1) in st.breakers.Keys {
      assert DependsOn(st.nodes, l.0, l.1);
    }
    forall k | k in st.breakers.Keys ensures HasKey(links, k) {
      var a, b :| DependsOn(st.nodes, a, b) && LinkKey(a, b) == k;
      assert (a, b) in links;
      assert LinkKey((a, b).0, (a, b).1) == k;
    }
  }

  /** The ids of no two calling agents clash. */
  ghost predicate CallersNeverClash(nodes: Nodes) {
    forall l, m :: l in Links(nodes) && m in Links(nodes) ==> !Clash(l.0, m.0)
  }

  /**
   * There are as many breakers as links exactly when no two links share a key; that is so when the ids of no two
   * calling agents clash.
   */
  lemma {:induction false} OneBreakerPerLink(c: Config, st: State)
    requires Consistent(c, st)
    ensures |st.breakers| == |Links(st.nodes)| <==> KeysAreApart(Links(st.nodes))
    ensures CallersNeverClash(st.nodes) ==> KeysAreApart(Links(st.nodes))
  {
    var links := Links(st.nodes);
    BreakersAreKeys(c, st);
    CountExactlyWhen(links, st.breakers.Keys);
    if CallersNeverClash(st.nodes) {
      forall l, m | l in links && m in links && LinkKey(l.0, l.1) == LinkKey(m.0, m.1) ensures l == m {
        LinkKeyIsInjective(l.0, l.1, m.0, m.1);
      }
    }
  }

  // ---------------------------------------------------------------- containment

  lemma {:induction false} HealthyAmongMeaning(nodes: Nodes, ids: seq<string>)
    ensures forall b :: b in HealthyAmong(nodes, ids) <==> b in ids && b in nodes && nodes[b].healthStatus == Healthy
  {
    if ids != [] {
      var init := ids[..|ids| - 1];
      HealthyAmongMeaning(nodes, init);
      assert ids == init + [ids[|ids| - 1]];
    }
  }

  lemma {:induction false} DegradeAllMeaning(nodes: Nodes, ids: seq<string>)
    ensures DegradeAll(nodes, ids).Keys == nodes.Keys
    ensures forall b :: b in nodes ==>
      DegradeAll(nodes, ids)[b] == if b in ids then nodes[b].(healthStatus := Degraded) else nodes[b]
  {
    if ids != [] {
      var init := ids[..|ids| - 1];
      DegradeAllMeaning(nodes, init);
      assert ids == init + [ids[|ids| - 1]];
    }
  }

  /** The agent's health is as before or, when it depends directly on the target, moved from healthy to degraded. */
  predicate OnlyNeighbour(before: Nodes, after: Nodes, b: string, target: string)
  {
    && b in before && b in after
    && (|| after[b].healthStatus == before[b].healthStatus
        || (DependsOn(before, b, target) && before[b].healthStatus == Healthy && after[b].healthStatus == Degraded))
  }

  lemma {:induction false} PropagateIsLocal(st: State, agentId: string, b: string)
    requires Mirrored(st.nodes) && b in st.nodes
    ensures OnlyNeighbour(st.nodes, Propagate(st, agentId).0.nodes, b, agentId)
  {
    if agentId in st.nodes {
      var dependents := st.nodes[agentId].dependents;
      HealthyAmongMeaning(st.nodes, dependents);
      DegradeAllMeaning(st.nodes, HealthyAmong(st.nodes, dependents));
      assert DependsOn(st.nodes, b, agentId) <==> b in dependents;
    }
  }

  lemma {:induction false} SetHealthIsMirrored(nodes: Nodes, agentId: string, health: Health)
    requires Mirrored(nodes)
    ensures Mirrored(SetHealth(nodes, agentId, health))
    ensures forall a, b :: DependsOn(nodes, a, b) <==> DependsOn(SetHealth(nodes, agentId, health), a, b)
  {
    var after := SetHealth(nodes, agentId, health);
    forall a, b ensures DependsOn(after, a, b) <==> b in after && a in after[b].dependents {
      assert DependsOn(nodes, a, b) <==> b in nodes && a in nodes[b].dependents;
    }
  }

  lemma {:induction false} ContainmentIsLocal(c: Config, st: State, agentId: string, reason: string, b: string)
    requires Mirrored(st.nodes) && b in st.nodes && b != agentId
    ensures OnlyNeighbour(st.nodes, Containment(c, st, agentId, reason).0.nodes, b, agentId)
  {
    if agentId in st.nodes {
      var cut := st.(nodes := SetHealth(st.nodes, agentId, Unreachable));
      SetHealthIsMirrored(st.nodes, agentId, Unreachable);
      var noted := Emit(cut, agentId, [agentId], AgentQuarantined, "Auto-quarantined: " + reason).0;
      PropagateIsLocal(noted, agentId, b);
    }
  }

  /**
   * Recording a failed call contains the damage: besides the target itself only its healthy direct dependents can
   * change health, and they degrade.
   */
  lemma {:induction false} FailureIsContained(c: Config, st: State, from: string, to: string, reason: string,
                                              now: int, b: string)
    requires Mirrored(st.nodes) && b in st.nodes && b != to
    ensures OnlyNeighbour(st.nodes, RecordedFailure(c, st, from, to, reason, now).0.nodes, b, to)
  {
    var a := FailLink(st, from, to, reason, now).0;
    var mid := AssessTarget(c, a, to, now);
    AssessIsLocal(c, a, to, now, b);
    ContainmentIsLocal(c, mid, to, reason, b);
    NeighbourFrom(st.nodes, mid.nodes, Containment(c, mid, to, reason).0.nodes, b, to);
  }

  lemma {:induction false} AssessIsLocal(c: Config, st: State, to: string, now: int, b: string)
    requires Mirrored(st.nodes) && b in st.nodes && b != to
    ensures var mid := AssessTarget(c, st, to, now).nodes; Mirrored(mid) && b in mid && mid[b] == st.nodes[b]
  {
    SetHealthIsMirrored(st.nodes, to, Failing);
    SetHealthIsMirrored(st.nodes, to, Degraded);
  }

  lemma {:induction false} NeighbourFrom(before: Nodes, mid: Nodes, after: Nodes, b: string, target: string)
    requires b in before && b in mid && mid[b] == before[b] && OnlyNeighbour(mid, after, b, target)
    ensures OnlyNeighbour(before, after, b, target)
  {
  }

  // ---------------------------------------------------------------- the manager

  function HealthyIds(nodes: Nodes): set<string> {
    set a | a in nodes && nodes[a].healthStatus == Healthy
  }

  lemma {:induction false} FewerHealthy(nodes: Nodes, ids: seq<string>)
    requires ids != [] && forall i :: 0 <= i < |ids| ==> ids[i] in nodes && nodes[ids[i]].healthStatus == Healthy
    ensures |HealthyIds(DegradeAll(nodes, ids))| < |HealthyIds(nodes)|
  {
    DegradeAllMeaning(nodes, ids);
    var few, all := HealthyIds(DegradeAll(nodes, ids)), HealthyIds(nodes);
    assert few <= all - {ids[0]};
    SubsetIsSmaller(few, all - {ids[0]});
  }

  /** What the graph walks rely on. */
  ghost predicate Sound(nodes: Nodes) {
    Mirrored(nodes) && WithoutDuplicates(nodes)
  }

  lemma {:induction false} SameShapeKeepsSound(nodes: Nodes, other: Nodes)
    requires Sound(nodes) && SameShape(nodes, other)
    ensures Sound(other)
  {
    SameShapeSameEdges(nodes, other);
    forall a, b ensures DependsOn(other, a, b) <==> b in other && a in other[b].dependents {
      assert DependsOn(nodes, a, b) <==> b in nodes && a in nodes[b].dependents;
    }
  }

  predicate AllDegraded(nodes: Nodes, ids: seq<string>) {
    forall i :: 0 <= i < |ids| ==> ids[i] in nodes && nodes[ids[i]].healthStatus == Degraded
  }

  /** After degrading the healthy dependents the graph is as sound as before and fewer agents are healthy. */
  lemma {:induction false} DegradedStep(nodes: Nodes, dependents: seq<string>)
    requires Sound(nodes)
    ensures var affected := HealthyAmong(nodes, dependents);
            var after := DegradeAll(nodes, affected);
            && Sound(after) && AllDegraded(after, affected)
            && (affected != [] ==> |HealthyIds(after)| < |HealthyIds(nodes)|)
  {
    var affected := HealthyAmong(nodes, dependents);
    HealthyAmongMeaning(nodes, dependents);
    forall i | 0 <= i < |affected| ensures affected[i] in nodes && nodes[affected[i]].healthStatus == Healthy {
      assert affected[i] in affected;
    }
    DegradeAllMeaning(nodes, affected);
    DegradeAllIsQuiet(nodes, affected);
    SameShapeKeepsSound(nodes, DegradeAll(nodes, affected));
    if affected != [] {
      FewerHealthy(nodes, affected);
    }
  }

  /** One turn of the degrading loop: an agent not yet met is still as healthy as it was. */
  lemma {:induction false} DegradeTurn(nodes: Nodes, dependents: seq<string>, i: nat)
    requires NoDuplicates(dependents) && i < |dependents|
    ensures var affected := HealthyAmong(nodes, dependents[..i]);
            var now := DegradeAll(nodes, affected);
            var id := dependents[i];
            var healthy := id in now && now[id].healthStatus == Healthy;
            && HealthyAmong(nodes, dependents[..i + 1]) == affected + (if healthy then [id] else [])
            && DegradeAll(nodes, affected + [id]) == SetHealth(now, id, Degraded)
  {
    var affected := HealthyAmong(nodes, dependents[..i]);
    HealthyAmongMeaning(nodes, dependents[..i]);
    DegradeAllMeaning(nodes, affected);
    assert dependents[i] !in dependents[..i];
    assert dependents[..i + 1][..i] == dependents[..i];
    assert (affected + [dependents[i]])[..|affected|] == affected;
  }

  lemma {:induction false} RunIsSound(c: Config, ops: seq<Op>)
    ensures Sound(Run(c, ops).nodes)
  {
    RunKeeps(c, ops);
  }

  lemma {:induction false} RunSnoc(c: Config, ops: seq<Op>, op: Op)
    ensures Run(c, ops + [op]) == Step(c, Run(c, ops), op)
  {
    assert (ops + [op])[..|ops|] == ops;
  }

  class CascadeContainmentManager {
    const config: Config
    var nodes: Nodes
    var breakers: map<string, Link>
    var events: seq<CascadeEvent>
    ghost var history: seq<Op>

    function Current(): State
      reads this
    {
      State(nodes, breakers, events)
    }

    /** The state is the one that the calls made so far lead to. */
    ghost predicate Valid()
      reads this
    {
      Current() == Run(config, history)
    }

    constructor (defaults: Overrides, tierPolicies: map<TrustTier, Overrides>, cascadeThreshold: Option<int>)
      ensures Valid() && history == []
      ensures config == Config(Merge(DEFAULT_BLAST_RADIUS_POLICY, defaults), tierPolicies,
                               OrElse(cascadeThreshold, DEFAULT_CASCADE_THRESHOLD))
    {
      config := Config(Merge(DEFAULT_BLAST_RADIUS_POLICY, defaults), tierPolicies,
                       OrElse(cascadeThreshold, DEFAULT_CASCADE_THRESHOLD));
      nodes, breakers, events := map[], map[], [];
      history := [];
    }

    method RegisterAgent(agentId: string, tier: TrustTier)
      requires Valid()
      modifies this
      ensures Valid() && history == old(history) + [Op.RegisterAgent(agentId, tier)]
    {
      RunSnoc(config, history, Op.RegisterAgent(agentId, tier));
      EnsureAgent(agentId, tier);
      history := history + [Op.RegisterAgent(agentId, tier)];
    }

    method EnsureAgent(agentId: string, tier: TrustTier)
      modifies this`nodes
      ensures nodes == Register(old(nodes), agentId, tier)
    {
      if agentId !in nodes {
        nodes := nodes[agentId := AgentNode(tier, Healthy, [], [])];
      }
    }

    method AddDependency(from: string, to: string) returns (refusal: Option<Refusal>)
      requires Valid()
      modifies this
      ensures Valid() && history == old(history) + [AddLink(from, to)]
      ensures refusal == AddedDependency(config, old(Current()), from, to).1
    {
      RunSnoc(config, history, AddLink(from, to));
      history := history + [AddLink(from, to)];
      EnsureAgent(from, Provisional);
      EnsureAgent(to, Provisional);
      if to in nodes[from].dependencies {
        return None;
      }
      var policy := PolicyForAgent(config, nodes, from);
      if |nodes[from].dependencies| >= policy.maxFanout {
        return Some(FanoutExceeded);
      }
      var depth, _ := GetDepthTo(nodes, to, {});
      depth := depth + 1;
      if depth > policy.maxDependencyDepth {
        return Some(DepthExceeded(depth));
      }
      Connect(from, to, policy);
      refusal := None;
    }

    method Connect(from: string, to: string, policy: Policy)
      requires from in nodes && to in nodes
      modifies this`nodes, this`breakers
      ensures nodes == AddEdge(old(nodes), from, to)
      ensures breakers == WithBreaker(old(breakers), LinkKey(from, to), policy)
    {
      nodes := nodes[from := nodes[from].(dependencies := nodes[from].dependencies + [to])];
      nodes := nodes[to := nodes[to].(dependents := nodes[to].dependents + [from])];
      var key := LinkKey(from, to);
      if key !in breakers {
        breakers := breakers[key := Link(CB.NEW_BREAKER,
          CB.Config(policy.circuitBreakerThreshold, policy.circuitBreakerResetMs))];
      }
    }

    method CanCall(from: string, to: string, now: int) returns (ok: bool)
      requires Valid()
      modifies this
      ensures Valid() && history == old(history) + [ReadBreaker(from, to, now)]
      ensures ok <==> !IsOpen(breakers, LinkKey(from, to))
    {
      RunSnoc(config, history, ReadBreaker(from, to, now));
      history := history + [ReadBreaker(from, to, now)];
      breakers := ReadLink(breakers, LinkKey(from, to), now);
      ok := !IsOpen(breakers, LinkKey(from, to));
    }

    method RecordSuccess(from: string, to: string)
      requires Valid()
      modifies this
      ensures Valid() && history == old(history) + [Succeeded(from, to)]
    {
      RunSnoc(config, history, Succeeded(from, to));
      history := history + [Succeeded(from, to)];
      var key := LinkKey(from, to);
      if key in breakers {
        breakers := breakers[key := breakers[key].(breaker := CB.Succeed(breakers[key].breaker))];
      }
      if to in nodes && nodes[to].healthStatus != Healthy {
        nodes := nodes[to := nodes[to].(healthStatus := Healthy)];
      }
    }

    method ResetAgent(agentId: string)
      requires Valid()
      modifies this
      ensures Valid() && history == old(history) + [Op.ResetAgent(agentId)]
    {
      RunSnoc(config, history, Op.ResetAgent(agentId));
      history := history + [Op.ResetAgent(agentId)];
      nodes := SetHealth(nodes, agentId, Healthy);
    }

    method EmitEvent(source: string, affected: seq<string>, action: Action, reason: string) returns (e: CascadeEvent)
      requires Mirrored(nodes)
      modifies this`events
      ensures (Current(), e) == Emit(old(Current()), source, affected, action, reason)
    {
      var blastRadius := ComputeBlastRadius(nodes, source);
      e := CascadeEvent(source, affected, action, reason, blastRadius, |events|);
      events := events + [e];
    }

    method PropagateHealth(agentId: string) returns (triggered: seq<CascadeEvent>)
      requires Valid()
      modifies this
      ensures Valid() && history == old(history) + [Op.PropagateHealth(agentId)]
      ensures triggered == Propagate(old(Current()), agentId).1
    {
      RunSnoc(config, history, Op.PropagateHealth(agentId));
      RunIsSound(config, history);
      history := history + [Op.PropagateHealth(agentId)];
      triggered := PropagateFrom(agentId);
    }

    /** The recursion into the agents just degraded ends at once: its effect is one hop. */
    method PropagateFrom(agentId: string) returns (triggered: seq<CascadeEvent>)
      requires Sound(nodes)
      modifies this`nodes, this`events
      ensures (Current(), triggered) == Propagate(old(Current()), agentId)
      decreases |HealthyIds(nodes)|, 0
    {
      triggered := [];
      if agentId !in nodes || (nodes[agentId].healthStatus != Failing && nodes[agentId].healthStatus != Unreachable) {
        return;
      }
      ghost var before := nodes;
      var affected := DegradeDependents(agentId);
      DegradedStep(before, before[agentId].dependents);
      if |affected| > 0 {
        var e := EmitEvent(agentId, affected, HealthPropagated, "Health degradation propagated from " + agentId);
        var deeper := PropagateFromEach(affected);
        triggered := [e] + deeper;
        assert triggered == [e];
      }
    }

    /** The recursion: every agent in it is degraded, neither failing nor unreachable, so each call returns at once. */
    method PropagateFromEach(ids: seq<string>) returns (triggered: seq<CascadeEvent>)
      requires Sound(nodes) && AllDegraded(nodes, ids)
      modifies this`nodes, this`events
      ensures Current() == old(Current()) && triggered == []
      decreases |HealthyIds(nodes)|, 1
    {
      triggered := [];
      for i := 0 to |ids|
        invariant Current() == old(Current()) && triggered == []
      {
        var deeper := PropagateFrom(ids[i]);
        triggered := triggered + deeper;
      }
    }

    /** The loop that degrades the healthy dependents of a failed agent. */
    method DegradeDependents(agentId: string) returns (affected: seq<string>)
      requires agentId in nodes && NoDuplicates(nodes[agentId].dependents)
      modifies this`nodes
      ensures affected == HealthyAmong(old(nodes), old(nodes)[agentId].dependents)
      ensures nodes == DegradeAll(old(nodes), affected)
    {
      var dependents := nodes[agentId].dependents;
      ghost var before := nodes;
      affected := [];
      for i := 0 to |dependents|
        invariant affected == HealthyAmong(before, dependents[..i])
        invariant nodes == DegradeAll(before, affected)
      {
        var dependentId := dependents[i];
        DegradeTurn(before, dependents, i);
        if dependentId in nodes && nodes[dependentId].healthStatus == Healthy {
          nodes := nodes[dependentId := nodes[dependentId].(healthStatus := Degraded)];
          affected := affected + [dependentId];
        }
      }
      assert dependents[..|dependents|] == dependents;
    }

    /** Counting reads every breaker on the way. */
    method CountOpenBreakersTo(agentId: string, now: int) returns (count: nat)
      modifies this`breakers
      ensures agentId in nodes ==> (breakers, count) == ReadInto(old(breakers), nodes[agentId].dependents, agentId, now)
      ensures agentId !in nodes ==> breakers == old(breakers) && count == 0
    {
      count := 0;
      if agentId !in nodes {
        return;
      }
      ghost var before := breakers;
      var dependents := nodes[agentId].dependents;
      for i := 0 to |dependents|
        invariant (breakers, count) == ReadInto(before, dependents[..i], agentId, now)
      {
        var key := LinkKey(dependents[i], agentId);
        assert dependents[..i + 1][..i] == dependents[..i];
        breakers := ReadLink(breakers, key, now);
        if IsOpen(breakers, key) {
          count := count + 1;
        }
      }
      assert dependents[..|dependents|] == dependents;
    }

    method ApplyContainment(agentId: string, reason: string) returns (triggered: seq<CascadeEvent>)
      requires Sound(nodes)
      modifies this`nodes, this`events
      ensures (Current(), triggered) == Containment(config, old(Current()), agentId, reason)
    {
      triggered := [];
      if agentId !in nodes {
        return;
      }
      ghost var before := Current();
      var policy := PolicyForAgent(config, nodes, agentId);
      if nodes[agentId].healthStatus == Failing && policy.autoQuarantine {
        SetHealthIsQuiet(nodes, agentId, Unreachable);
        SameShapeKeepsSound(nodes, SetHealth(nodes, agentId, Unreachable));
        nodes := nodes[agentId := nodes[agentId].(healthStatus := Unreachable)];
        var e := EmitEvent(agentId, [agentId], AgentQuarantined, "Auto-quarantined: " + reason);
        var propagated := PropagateFrom(agentId);
        triggered := [e] + propagated;
      }
      assert (Current(), triggered) == Quarantine(config, before, agentId, reason);
      QuarantineReports(config, before, agentId, reason);
      SameShapeKeepsSound(before.nodes, nodes);
      if nodes[agentId].healthStatus == Unreachable && policy.autoRollback {
        var e := EmitEvent(agentId, [agentId], RollbackTriggered, "Auto-rollback triggered: " + reason);
        triggered := triggered + [e];
      }
    }

    method RecordFailure(from: string, to: string, reason: string, now: int) returns (triggered: seq<CascadeEvent>)
      requires Valid()
      modifies this
      ensures Valid() && history == old(history) + [Failed(from, to, reason, now)]
      ensures triggered == RecordedFailure(config, old(Current()), from, to, reason, now).1
      ensures events == old(events) + triggered
    {
      ghost var before := Current();
      RunSnoc(config, history, Failed(from, to, reason, now));
      RunIsSound(config, history);
      RecordFailureReports(config, before, from, to, reason, now);
      history := history + [Failed(from, to, reason, now)];
      triggered := FailBreaker(from, to, reason, now);
      AssessHealth(to, now);
      var contained := ApplyContainment(to, reason);
      triggered := triggered + contained;
    }

    /** The first part of recording a failure: the link's own breaker. */
    method FailBreaker(from: string, to: string, reason: string, now: int) returns (triggered: seq<CascadeEvent>)
      requires Mirrored(nodes)
      modifies this`breakers, this`events
      ensures (Current(), triggered) == FailLink(old(Current()), from, to, reason, now)
    {
      triggered := [];
      var key := LinkKey(from, to);
      if key in breakers {
        var failed := CB.Fail(breakers[key].breaker, breakers[key].config, now);
        breakers := breakers[key := breakers[key].(breaker := failed)];
        breakers := ReadLink(breakers, key, now);
        if IsOpen(breakers, key) {
          var e := EmitEvent(to, [from], CircuitOpened, reason);
          triggered := [e];
        }
      }
    }

    /** The second part: the target's health. */
    method AssessHealth(to: string, now: int)
      requires Sound(nodes)
      modifies this`breakers, this`nodes
      ensures Current() == AssessTarget(config, old(Current()), to, now)
      ensures Sound(nodes)
    {
      ghost var before := Current();
      AssessTargetIsQuiet(config, before, to, now);
      SameShapeKeepsSound(nodes, AssessTarget(config, before, to, now).nodes);
      if to in nodes {
        var count := CountOpenBreakersTo(to, now);
        if count >= config.cascadeThreshold {
          nodes := nodes[to := nodes[to].(healthStatus := Failing)];
        } else if count > 0 {
          nodes := nodes[to := nodes[to].(healthStatus := Degraded)];
        }
      }
    }
  }
}
