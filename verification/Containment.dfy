// What the manager's calls answer and change, in terms of the state before them: what a failure does to the target, to
// the agents that depend on it and to the log, what a success and a reset do, and which limits apply.
module Containment {
  import opened AgentGraph
  import opened Cascade
  import opened Collections
  import opened LinkHistory
  import opened Options
  import CB = CircuitBreakers

  // ---------------------------------------------------------------- a failed call and its link

  /** The failed link's breaker is open when it is read at once after the failure. */
  predicate Opens(st: State, from: string, to: string, now: int) {
    var key := from + "->" + to;
    && key in st.breakers
    && var (b, config) := (st.breakers[key].breaker, st.breakers[key].config);
       if b.failures + 1 >= config.failureThreshold then now == 0 || config.resetTimeoutMs > 0
       else
         && b.state == CB.Open
         && (b.openedAt.Some? && b.openedAt.value != 0 ==> now - b.openedAt.value < config.resetTimeoutMs)
  }

  /** The agents whose breaker towards the target is open. */
  function OpenInto(breakers: map<string, Link>, dependents: seq<string>, to: string): set<string> {
    set d | d in dependents && (d + "->" + to) in breakers && breakers[d + "->" + to].breaker.state == CB.Open
  }

  lemma {:induction false} LinkFails(st: State, from: string, to: string, reason: string, now: int)
    ensures var (a, raised) := FailLink(st, from, to, reason, now);
            && a.nodes == st.nodes && a.breakers.Keys == st.breakers.Keys && a.events == st.events + raised
            && raised == if Opens(st, from, to, now)
                         then [CascadeEvent(to, [from], CircuitOpened, reason, |Affected(st.nodes, to)|, |st.events|)]
                         else []
  {
  }

  lemma {:induction false} ReadingIsSettled(breakers: map<string, Link>, dependents: seq<string>, to: string, now: int,
                                            key: string)
    requires key in breakers
    ensures var after := ReadInto(breakers, dependents, to, now).0;
            var read := CB.Observe(breakers[key].breaker, breakers[key].config, now);
            && key in after && after[key].config == breakers[key].config
            && (after[key].breaker == breakers[key].breaker || after[key].breaker == read)
            && ((exists d :: d in dependents && key == LinkKey(d, to)) ==> after[key].breaker == read)
  {
    if dependents != [] {
      var init, last := dependents[..|dependents| - 1], dependents[|dependents| - 1];
      ReadingIsSettled(breakers, init, to, now, key);
      assert dependents == init + [last];
    }
  }

  /** The dependents cut off are those whose breakers are open in the end. */
  lemma {:induction false} CutOffIsOpen(breakers: map<string, Link>, dependents: seq<string>, to: string, now: int)
    ensures CutOff(breakers, dependents, to, now)
         == OpenInto(ReadInto(breakers, dependents, to, now).0, dependents, to)
  {
    var after := ReadInto(breakers, dependents, to, now).0;
    ReadIntoKeepsKeys(breakers, dependents, to, now);
    forall d | d in dependents
      ensures d in CutOff(breakers, dependents, to, now) <==> d in OpenInto(after, dependents, to)
    {
      var key := LinkKey(d, to);
      if key in breakers {
        ReadingIsSettled(breakers, dependents, to, now, key);
      } else {
        assert key !in after.Keys;
      }
    }
  }

  // ---------------------------------------------------------------- the target and its dependents

  /** The target's health by the number of agents cut off from it. */
  function HealthFor(c: Config, cutOff: nat, health: Health): Health {
    if cutOff >= c.cascadeThreshold then Failing else if cutOff >= 1 then Degraded else health
  }

  function HealthyOne(nodes: Nodes, a: string): seq<string> {
    if a in nodes && nodes[a].healthStatus == Healthy then [a] else []
  }

  /** The healthy ones among the ids, in order. */
  function HealthyOnes(nodes: Nodes, ids: seq<string>): seq<string> {
    if ids == [] then []
    else HealthyOne(nodes, ids[0]) + HealthyOnes(nodes, ids[1..])
  }

  lemma {:induction false} HealthyOnesSnoc(nodes: Nodes, ids: seq<string>, last: string)
    ensures HealthyOnes(nodes, ids + [last]) == HealthyOnes(nodes, ids) + HealthyOne(nodes, last)
  {
    if ids == [] {
      assert [] + [last] == [last] && [last][1..] == [];
    } else {
      Uncons(ids, [last]);
      assert (ids + [last])[1..] == ids[1..] + [last];
      HealthyOnesSnoc(nodes, ids[1..], last);
      Regroup(HealthyOne(nodes, ids[0]), HealthyOnes(nodes, ids[1..]), HealthyOne(nodes, last));
    }
  }

  lemma {:induction false} SameHealthyOnes(nodes: Nodes, ids: seq<string>)
    ensures HealthyAmong(nodes, ids) == HealthyOnes(nodes, ids)
  {
    if ids != [] {
      var init, last := ids[..|ids| - 1], ids[|ids| - 1];
      SameHealthyOnes(nodes, init);
      HealthyOnesSnoc(nodes, init, last);
      assert ids == init + [last];
    }
  }

  /** Everything about an agent but its health decides who depends on it. */
  lemma {:induction false} RadiusIsKept(nodes: Nodes, other: Nodes, agentId: string)
    requires SameShape(nodes, other)
    ensures |Affected(nodes, agentId)| == |Affected(other, agentId)|
  {
    SameShapeSameEdges(nodes, other);
    BlastRadiusGrows(nodes, other, agentId);
    BlastRadiusGrows(other, nodes, agentId);
  }

  /** The agents after a quarantine: the target unreachable, its healthy dependents degraded, all others as before. */
  function AfterQuarantine(nodes: Nodes, to: string): Nodes {
    map b | b in nodes ::
      if b == to then nodes[b].(healthStatus := Unreachable)
      else if to in nodes && b in nodes[to].dependents && nodes[b].healthStatus == Healthy then
        nodes[b].(healthStatus := Degraded)
      else nodes[b]
  }

  /** The dependents that degrade with the target. */
  function Degrading(nodes: Nodes, to: string): seq<string> {
    if to !in nodes then [] else HealthyOnes(SetHealth(nodes, to, Unreachable), nodes[to].dependents)
  }

  lemma {:induction false} PropagateEffect(st: State, to: string)
    requires to in st.nodes && st.nodes[to].healthStatus in {Failing, Unreachable}
    ensures var (after, events) := Propagate(st, to);
            var ids := HealthyOnes(st.nodes, st.nodes[to].dependents);
            && after.nodes.Keys == st.nodes.Keys && after.breakers == st.breakers && after.events == st.events + events
            && (forall b :: b in st.nodes ==>
                  after.nodes[b] == if b in st.nodes[to].dependents && st.nodes[b].healthStatus == Healthy
                                    then st.nodes[b].(healthStatus := Degraded) else st.nodes[b])
            && events == if ids == [] then []
                         else [CascadeEvent(to, ids, HealthPropagated, "Health degradation propagated from " + to,
                                            |Affected(st.nodes, to)|, |st.events|)]
  {
    var ids := HealthyAmong(st.nodes, st.nodes[to].dependents);
    SameHealthyOnes(st.nodes, st.nodes[to].dependents);
    HealthyAmongMeaning(st.nodes, st.nodes[to].dependents);
    DegradeAllMeaning(st.nodes, ids);
    DegradeAllIsQuiet(st.nodes, ids);
    RadiusIsKept(st.nodes, DegradeAll(st.nodes, ids), to);
  }

  /** The event with which a step's own agent is the source, at the given place of the log. */
  ghost function EventAt(nodes: Nodes, to: string, affected: seq<string>, action: Action, reason: string, place: nat)
    : CascadeEvent
  {
    CascadeEvent(to, affected, action, reason, |Affected(nodes, to)|, place)
  }

  /** What a quarantine reports. */
  ghost function QuarantineEvents(nodes: Nodes, to: string, reason: string, place: nat): seq<CascadeEvent> {
    [EventAt(nodes, to, [to], AgentQuarantined, "Auto-quarantined: " + reason, place)]
    + if Degrading(nodes, to) == [] then []
      else [EventAt(nodes, to, Degrading(nodes, to), HealthPropagated,
                    "Health degradation propagated from " + to, place + 1)]
  }

  lemma {:induction false} DegradedNodes(nodes: Nodes, after: Nodes, to: string)
    requires to in nodes && after.Keys == nodes.Keys
    requires var cut := SetHealth(nodes, to, Unreachable);
             forall b :: b in cut ==>
               after[b] == if b in cut[to].dependents && cut[b].healthStatus == Healthy
                           then cut[b].(healthStatus := Degraded) else cut[b]
    ensures after == AfterQuarantine(nodes, to)
  {
    forall b | b in nodes ensures after[b] == AfterQuarantine(nodes, to)[b] {
      assert b in SetHealth(nodes, to, Unreachable);
    }
  }

  /** The quarantined agent noted in the log, before its dependents degrade. */
  ghost function Noted(st: State, to: string, reason: string): State {
    State(SetHealth(st.nodes, to, Unreachable), st.breakers,
          st.events + [EventAt(st.nodes, to, [to], AgentQuarantined, "Auto-quarantined: " + reason, |st.events|)])
  }

  lemma {:induction false} QuarantineIsNoted(c: Config, st: State, to: string, reason: string)
    requires to in st.nodes && st.nodes[to].healthStatus == Failing && PolicyForAgent(c, st.nodes, to).autoQuarantine
    ensures var (after, more) := Propagate(Noted(st, to, reason), to);
            var e := EventAt(st.nodes, to, [to], AgentQuarantined, "Auto-quarantined: " + reason, |st.events|);
            Quarantine(c, st, to, reason) == (after, [e] + more)
  {
    SetHealthIsQuiet(st.nodes, to, Unreachable);
    RadiusIsKept(st.nodes, SetHealth(st.nodes, to, Unreachable), to);
  }

  /** A quarantine without the function that makes it: the agents, and the events. */
  lemma {:induction false} NotedPropagates(st: State, to: string, reason: string)
    requires to in st.nodes
    ensures var (after, more) := Propagate(Noted(st, to, reason), to);
            && after.nodes == AfterQuarantine(st.nodes, to) && after.breakers == st.breakers
            && after.events == Noted(st, to, reason).events + more
            && more == QuarantineEvents(st.nodes, to, reason, |st.events|)[1..]
  {
    var noted := Noted(st, to, reason);
    PropagateEffect(noted, to);
    SetHealthIsQuiet(st.nodes, to, Unreachable);
    RadiusIsKept(st.nodes, noted.nodes, to);
    DegradedNodes(st.nodes, Propagate(noted, to).0.nodes, to);
  }

  lemma {:induction false} QuarantineEffect(c: Config, st: State, to: string, reason: string)
    requires to in st.nodes && st.nodes[to].healthStatus == Failing && PolicyForAgent(c, st.nodes, to).autoQuarantine
    ensures var (after, events) := Quarantine(c, st, to, reason);
            && after.nodes == AfterQuarantine(st.nodes, to) && after.breakers == st.breakers
            && after.events == st.events + events && events == QuarantineEvents(st.nodes, to, reason, |st.events|)
  {
    QuarantineIsNoted(c, st, to, reason);
    NotedPropagates(st, to, reason);
    var e := EventAt(st.nodes, to, [to], AgentQuarantined, "Auto-quarantined: " + reason, |st.events|);
    Regroup(st.events, [e], Propagate(Noted(st, to, reason), to).1);
  }

  lemma {:induction false} QuarantineKeepsRadius(nodes: Nodes, to: string)
    requires to in nodes
    ensures |Affected(AfterQuarantine(nodes, to), to)| == |Affected(nodes, to)|
  {
    RadiusIsKept(nodes, AfterQuarantine(nodes, to), to);
  }

  // ---------------------------------------------------------------- the whole step

  /** The target's health once the breakers towards it have been read. */
  function HealthAfterReading(c: Config, st: State, after: State, to: string): Health {
    if to !in st.nodes then Healthy
    else HealthFor(c, |OpenInto(after.breakers, st.nodes[to].dependents, to)|, st.nodes[to].healthStatus)
  }

  lemma {:induction false} AssessEffect(c: Config, st: State, to: string, now: int)
    requires to in st.nodes && NoDuplicates(st.nodes[to].dependents)
    ensures var after := AssessTarget(c, st, to, now);
            && after.events == st.events && after.breakers.Keys == st.breakers.Keys
            && after.nodes == st.nodes[to := st.nodes[to].(healthStatus := HealthAfterReading(c, st, after, to))]
  {
    ReadIntoCounts(st.breakers, st.nodes[to].dependents, to, now);
    CutOffIsOpen(st.breakers, st.nodes[to].dependents, to, now);
    ReadIntoKeepsKeys(st.breakers, st.nodes[to].dependents, to, now);
    assert st.nodes == st.nodes[to := st.nodes[to]];
  }

  /** The target goes from the health that its open breakers make to quarantine. */
  predicate Quarantined(c: Config, st: State, after: State, to: string) {
    to in st.nodes && HealthAfterReading(c, st, after, to) == Failing
    && PolicyForTier(c, st.nodes[to].trustTier).autoQuarantine
  }

  /** The state before containment: the link failed and read, and the target's health assessed. */
  function Before(c: Config, st: State, after: State, to: string): Nodes {
    SetHealth(st.nodes, to, HealthAfterReading(c, st, after, to))
  }

  /** The events of the containment. */
  ghost function ContainmentEvents(c: Config, nodes: Nodes, to: string, reason: string, place: nat): seq<CascadeEvent> {
    if to !in nodes then []
    else
      var policy := PolicyForTier(c, nodes[to].trustTier);
      var quarantined := nodes[to].healthStatus == Failing && policy.autoQuarantine;
      var cut := if quarantined then QuarantineEvents(nodes, to, reason, place) else [];
      cut + if (quarantined || nodes[to].healthStatus == Unreachable) && policy.autoRollback
            then [RollbackAt(nodes, to, reason, place + |cut|)] else []
  }

  ghost function RollbackAt(nodes: Nodes, to: string, reason: string, place: nat): CascadeEvent {
    EventAt(nodes, to, [to], RollbackTriggered, "Auto-rollback triggered: " + reason, place)
  }

  predicate IsCut(c: Config, nodes: Nodes, to: string) {
    to in nodes && nodes[to].healthStatus == Failing && PolicyForTier(c, nodes[to].trustTier).autoQuarantine
  }

  /** The state once the quarantine, if any, is done, and its events. */
  lemma {:induction false} CutOrKept(c: Config, st: State, to: string, reason: string)
    requires to in st.nodes
    ensures var (after, events) := Quarantine(c, st, to, reason);
            && after.nodes == (if IsCut(c, st.nodes, to) then AfterQuarantine(st.nodes, to) else st.nodes)
            && after.breakers == st.breakers && after.events == st.events + events
            && events == if IsCut(c, st.nodes, to) then QuarantineEvents(st.nodes, to, reason, |st.events|) else []
  {
    if IsCut(c, st.nodes, to) {
      QuarantineEffect(c, st, to, reason);
    }
  }

  lemma {:induction false} RollbackIsLast(c: Config, st: State, to: string, reason: string, mid: State,
                                          triggered: seq<CascadeEvent>)
    requires to in st.nodes && (mid, triggered) == Quarantine(c, st, to, reason)
    ensures var (after, events) := Cascade.Containment(c, st, to, reason);
            if to in mid.nodes && mid.nodes[to].healthStatus == Unreachable
               && PolicyForTier(c, st.nodes[to].trustTier).autoRollback
            then
              var e := RollbackAt(mid.nodes, to, reason, |mid.events|);
              after == mid.(events := mid.events + [e]) && events == triggered + [e]
            else after == mid && events == triggered
  {
  }

  /** What follows from the target's health: the agents and the events of the containment. */
  lemma {:induction false} ContainmentEffect(c: Config, st: State, to: string, reason: string)
    requires to in st.nodes
    ensures var (after, events) := Cascade.Containment(c, st, to, reason);
            && after.nodes == (if IsCut(c, st.nodes, to) then AfterQuarantine(st.nodes, to) else st.nodes)
            && after.breakers == st.breakers && events == ContainmentEvents(c, st.nodes, to, reason, |st.events|)
  {
    var mid, triggered := Quarantine(c, st, to, reason).0, Quarantine(c, st, to, reason).1;
    CutOrKept(c, st, to, reason);
    assert |mid.events| == |st.events| + |triggered|;
    RollbackIsLast(c, st, to, reason, mid, triggered);
    QuarantineKeepsRadius(st.nodes, to);
  }

  lemma {:induction false} FailureInSteps(c: Config, st: State, from: string, to: string, reason: string, now: int)
    ensures var (a, raised) := FailLink(st, from, to, reason, now);
            var (b, contained) := Cascade.Containment(c, AssessTarget(c, a, to, now), to, reason);
            RecordedFailure(c, st, from, to, reason, now) == (b, raised + contained)
  {
  }

  /** The states between the steps do not show in the end. */
  lemma {:induction false} StepsCompose(c: Config, st: State, a: State, b: State, after: State, to: string)
    requires to in st.nodes && a.nodes == st.nodes && after.breakers == b.breakers
    requires b.nodes == a.nodes[to := a.nodes[to].(healthStatus := HealthAfterReading(c, a, b, to))]
    requires after.nodes == if IsCut(c, b.nodes, to) then AfterQuarantine(b.nodes, to) else b.nodes
    ensures b.nodes == Before(c, st, after, to)
    ensures after.nodes == if Quarantined(c, st, after, to) then AfterQuarantine(Before(c, st, after, to), to)
                           else Before(c, st, after, to)
  {
  }

  lemma {:induction false} FailureInPhases(c: Config, st: State, from: string, to: string, reason: string, now: int)
    requires Consistent(c, st) && to in st.nodes
    ensures var (after, events) := RecordedFailure(c, st, from, to, reason, now);
            var (failed, raised) := FailLink(st, from, to, reason, now);
            && after.nodes == (if Quarantined(c, st, after, to) then AfterQuarantine(Before(c, st, after, to), to)
                               else Before(c, st, after, to))
            && events == raised + ContainmentEvents(c, Before(c, st, after, to), to, reason, |failed.events|)
  {
    var a := FailLink(st, from, to, reason, now).0;
    var b := AssessTarget(c, a, to, now);
    LinkFails(st, from, to, reason, now);
    AssessEffect(c, a, to, now);
    ContainmentEffect(c, b, to, reason);
    StepsCompose(c, st, a, b, Cascade.Containment(c, b, to, reason).0, to);
    FailureInSteps(c, st, from, to, reason, now);
  }

  /**
   * What recording a failure does to the agents. The target's health follows the number of open breakers towards it;
   * when it is failing and its tier is quarantined automatically it becomes unreachable, and every other healthy
   * agent that depends on it directly degrades. Nobody else changes.
   */
  lemma {:induction false} FailureChangesAgents(c: Config, st: State, from: string, to: string, reason: string,
                                                now: int)
    requires Consistent(c, st)
    ensures var after := RecordedFailure(c, st, from, to, reason, now).0;
            && after.nodes.Keys == st.nodes.Keys
            && forall b :: b in st.nodes ==>
                 after.nodes[b] ==
                   if b == to then
                     st.nodes[b].(healthStatus := if Quarantined(c, st, after, to) then Unreachable
                                                  else HealthAfterReading(c, st, after, to))
                   else if Quarantined(c, st, after, to) && b in st.nodes[to].dependents
                           && st.nodes[b].healthStatus == Healthy
                   then st.nodes[b].(healthStatus := Degraded)
                   else st.nodes[b]
  {
    LinkFails(st, from, to, reason, now);
    if to in st.nodes {
      FailureInPhases(c, st, from, to, reason, now);
      var after := RecordedFailure(c, st, from, to, reason, now).0;
      forall b | b in st.nodes && b != to ensures Before(c, st, after, to)[b] == st.nodes[b] {
      }
    }
  }

  /**
   * What recording a failure reports, in order: the circuit opened, if the failed link reads as open; the quarantine,
   * if there is one, and with it the dependents that degrade, if any; and the rollback, if the target ends up
   * unreachable and its tier is rolled back automatically. Every event names the target and the number of agents that
   * depend on it.
   */
  ghost function EventsOf(c: Config, st: State, after: State, from: string, to: string, reason: string, now: int)
    : seq<CascadeEvent>
  {
    var n := |st.events|;
    var circuit := if Opens(st, from, to, now)
                   then [EventAt(st.nodes, to, [from], CircuitOpened, reason, n)] else [];
    circuit + CutAndRolled(c, st, after, to, reason, n + |circuit|)
  }

  ghost function CutAndRolled(c: Config, st: State, after: State, to: string, reason: string, place: nat)
    : seq<CascadeEvent>
  {
    var cut := if Quarantined(c, st, after, to) then QuarantineEvents(st.nodes, to, reason, place) else [];
    var rolled := if to in st.nodes && to in after.nodes && after.nodes[to].healthStatus == Unreachable
                     && PolicyForTier(c, st.nodes[to].trustTier).autoRollback
                  then [RollbackAt(st.nodes, to, reason, place + |cut|)] else [];
    cut + rolled
  }

  lemma {:induction false} FailureReports(c: Config, st: State, from: string, to: string, reason: string, now: int)
    requires Consistent(c, st)
    ensures RecordedFailure(c, st, from, to, reason, now).1
         == EventsOf(c, st, RecordedFailure(c, st, from, to, reason, now).0, from, to, reason, now)
  {
    if to in st.nodes {
      var after := RecordedFailure(c, st, from, to, reason, now).0;
      var place, raised := |FailLink(st, from, to, reason, now).0.events|, FailLink(st, from, to, reason, now).1;
      LinkFails(st, from, to, reason, now);
      FailureInPhases(c, st, from, to, reason, now);
      ReportsInPhases(c, st, after, raised, place, from, to, reason, now);
    } else {
      UnknownReports(c, st, from, to, reason, now);
    }
  }

  lemma {:induction false} UnknownReports(c: Config, st: State, from: string, to: string, reason: string, now: int)
    requires to !in st.nodes
    ensures var (after, events) := RecordedFailure(c, st, from, to, reason, now);
            events == FailLink(st, from, to, reason, now).1 && events == EventsOf(c, st, after, from, to, reason, now)
  {
    LinkFails(st, from, to, reason, now);
    FailureInSteps(c, st, from, to, reason, now);
  }

  lemma {:induction false} ReportsInPhases(c: Config, st: State, after: State, raised: seq<CascadeEvent>, place: nat,
                                           from: string, to: string, reason: string, now: int)
    requires to in st.nodes && place == |st.events| + |raised|
    requires after.nodes == if Quarantined(c, st, after, to) then AfterQuarantine(Before(c, st, after, to), to)
                            else Before(c, st, after, to)
    requires raised == if Opens(st, from, to, now)
                       then [EventAt(st.nodes, to, [from], CircuitOpened, reason, |st.events|)] else []
    ensures raised + ContainmentEvents(c, Before(c, st, after, to), to, reason, place)
         == EventsOf(c, st, after, from, to, reason, now)
  {
    SameContainment(c, st, after, to, reason, place);
  }

  /** The target's own health plays no part in what its quarantine reports. */
  lemma {:induction false} SameQuarantine(nodes: Nodes, to: string, health: Health)
    requires to in nodes
    ensures var other := SetHealth(nodes, to, health);
            Degrading(nodes, to) == Degrading(other, to) && |Affected(nodes, to)| == |Affected(other, to)|
  {
    var other := SetHealth(nodes, to, health);
    assert SetHealth(nodes, to, Unreachable) == SetHealth(other, to, Unreachable);
    SetHealthIsQuiet(nodes, to, health);
    RadiusIsKept(nodes, other, to);
  }

  lemma {:induction false} SameContainment(c: Config, st: State, after: State, to: string, reason: string, place: nat)
    requires to in st.nodes
    requires after.nodes == if Quarantined(c, st, after, to) then AfterQuarantine(Before(c, st, after, to), to)
                            else Before(c, st, after, to)
    ensures ContainmentEvents(c, Before(c, st, after, to), to, reason, place)
         == CutAndRolled(c, st, after, to, reason, place)
  {
    SameQuarantine(st.nodes, to, HealthAfterReading(c, st, after, to));
  }

  /** The dependents reported are those that degrade. */
  lemma {:induction false} DegradingMeaning(nodes: Nodes, to: string)
    requires to in nodes
    ensures forall b :: b in Degrading(nodes, to) <==>
              b != to && b in nodes[to].dependents && b in nodes && nodes[b].healthStatus == Healthy
  {
    var cut := SetHealth(nodes, to, Unreachable);
    SameHealthyOnes(cut, nodes[to].dependents);
    HealthyAmongMeaning(cut, nodes[to].dependents);
  }

  /** A success makes the target healthy and the link's breaker as new; a reset makes the agent healthy. */
  lemma {:induction false} SuccessAndReset(c: Config, st: State, from: string, to: string, agentId: string)
    ensures var after := RecordedSuccess(st, from, to);
            && after.events == st.events
            && after.nodes.Keys == st.nodes.Keys && after.breakers.Keys == st.breakers.Keys
            && (forall b :: b in st.nodes ==>
                  after.nodes[b] == if b == to then st.nodes[b].(healthStatus := Healthy) else st.nodes[b])
            && (forall k :: k in st.breakers ==>
                  after.breakers[k] == if k == from + "->" + to
                                       then st.breakers[k].(breaker := CB.Breaker(0, None, CB.Closed))
                                       else st.breakers[k])
    ensures var after := Step(c, st, Op.ResetAgent(agentId));
            && after.events == st.events && after.breakers == st.breakers && after.nodes.Keys == st.nodes.Keys
            && forall b :: b in st.nodes ==>
                 after.nodes[b] == if b == agentId then st.nodes[b].(healthStatus := Healthy) else st.nodes[b]
  {
  }

  /** Propagation on its own: only from a failing or unreachable agent, and as with a quarantine. */
  lemma {:induction false} PropagationEffect(st: State, agentId: string)
    ensures agentId !in st.nodes || st.nodes[agentId].healthStatus in {Healthy, Degraded} ==>
              Propagate(st, agentId) == (st, [])
    ensures agentId in st.nodes && st.nodes[agentId].healthStatus in {Failing, Unreachable} ==>
              var (after, events) := Propagate(st, agentId);
              var ids := HealthyOnes(st.nodes, st.nodes[agentId].dependents);
              && after.nodes.Keys == st.nodes.Keys && after.breakers == st.breakers
              && (forall b :: b in st.nodes ==>
                    after.nodes[b] == if b in st.nodes[agentId].dependents && st.nodes[b].healthStatus == Healthy
                                      then st.nodes[b].(healthStatus := Degraded) else st.nodes[b])
              && events == if ids == [] then []
                           else [EventAt(st.nodes, agentId, ids, HealthPropagated,
                                         "Health degradation propagated from " + agentId, |st.events|)]
  {
    if agentId in st.nodes && st.nodes[agentId].healthStatus in {Failing, Unreachable} {
      PropagateEffect(st, agentId);
    }
  }

  // ---------------------------------------------------------------- limits

  /** What a field of a policy is: what the tier's own entry says, or else what the manager's default says. */
  lemma {:induction false} EntryOverDefault(c: Config, tier: TrustTier)
    requires tier in c.tierPolicies
    ensures var (p, o, d) := (PolicyForTier(c, tier), c.tierPolicies[tier], c.defaultPolicy);
            && p.maxDependencyDepth == (match o.maxDependencyDepth case Some(n) => n case None => d.maxDependencyDepth)
            && p.maxFanout == (match o.maxFanout case Some(n) => n case None => d.maxFanout)
            && p.circuitBreakerThreshold ==
                 (match o.circuitBreakerThreshold case Some(n) => n case None => d.circuitBreakerThreshold)
            && p.circuitBreakerResetMs ==
                 (match o.circuitBreakerResetMs case Some(n) => n case None => d.circuitBreakerResetMs)
            && p.autoQuarantine == (match o.autoQuarantine case Some(b) => b case None => d.autoQuarantine)
            && p.autoRollback == (match o.autoRollback case Some(b) => b case None => d.autoRollback)
  {
  }

  /** Tiers without an entry have limits of their own; only the reset time is the default's. */
  lemma {:induction false} LimitsPerTier(c: Config)
    ensures var r := c.defaultPolicy.circuitBreakerResetMs;
            && (Untrusted !in c.tierPolicies ==> PolicyForTier(c, Untrusted) == Policy(2, 3, 3, r, true, true))
            && (Provisional !in c.tierPolicies ==> PolicyForTier(c, Provisional) == Policy(3, 5, 4, r, true, false))
            && (Trusted !in c.tierPolicies ==> PolicyForTier(c, Trusted) == Policy(5, 10, 5, r, false, false))
            && (Verified !in c.tierPolicies ==> PolicyForTier(c, Verified) == Policy(8, 20, 8, r, false, false))
    ensures forall nodes: Nodes, a: string :: a !in nodes ==>
              PolicyForAgent(c, nodes, a) == PolicyForTier(c, Provisional)
  {
  }

  /** The manager's defaults, and what its caller may set instead. */
  lemma {:induction false} ManagerDefaults(o: Overrides)
    ensures DEFAULT_CASCADE_THRESHOLD == 3
    ensures Merge(DEFAULT_BLAST_RADIUS_POLICY, o) ==
              Policy(match o.maxDependencyDepth case Some(n) => n case None => 5,
                     match o.maxFanout case Some(n) => n case None => 10,
                     match o.circuitBreakerThreshold case Some(n) => n case None => 5,
                     match o.circuitBreakerResetMs case Some(n) => n case None => 30_000,
                     match o.autoQuarantine case Some(b) => b case None => true,
                     match o.autoRollback case Some(b) => b case None => false)
  {
  }

  /**
   * A new dependency is refused when the agent has as many as its tier allows, then when the dependency's own depth,
   * one step further, exceeds what its tier allows; otherwise the two agents list each other last, and the link has
   * the breaker it had or a new one with the tier's limits.
   */
  lemma {:induction false} LinkIsAddedWhen(c: Config, st: State, from: string, to: string)
    requires from in st.nodes && to in st.nodes && !DependsOn(st.nodes, from, to)
    ensures var (after, refusal) := AddedDependency(c, st, from, to);
            var policy, key := PolicyForTier(c, st.nodes[from].trustTier), from + "->" + to;
            var depth := DepthTo(st.nodes, to, {}).0 + 1;
            if |st.nodes[from].dependencies| >= policy.maxFanout then after == st && refusal == Some(FanoutExceeded)
            else if depth > policy.maxDependencyDepth then after == st && refusal == Some(DepthExceeded(depth))
            else
              && refusal == None && after.events == st.events && after.nodes.Keys == st.nodes.Keys
              && (forall b :: b in st.nodes ==>
                    && after.nodes[b].dependencies == st.nodes[b].dependencies + (if b == from then [to] else [])
                    && after.nodes[b].dependents == st.nodes[b].dependents + (if b == to then [from] else [])
                    && after.nodes[b].trustTier == st.nodes[b].trustTier
                    && after.nodes[b].healthStatus == st.nodes[b].healthStatus)
              && after.breakers == (if key in st.breakers then st.breakers
                                    else st.breakers[key := Link(CB.Breaker(0, None, CB.Closed),
                                                                 CB.Config(policy.circuitBreakerThreshold,
                                                                           policy.circuitBreakerResetMs))])
  {
  }

  /** Unknown agents are registered first, healthy, provisional and without links; known dependencies change nothing. */
  lemma {:induction false} UnknownAgents(c: Config, st: State, from: string, to: string, tier: TrustTier)
    ensures var known := EnsureBoth(st.nodes, from, to);
            && known.Keys == st.nodes.Keys + {from, to}
            && (forall b :: b in known ==>
                  known[b] == if b in st.nodes then st.nodes[b] else AgentNode(Provisional, Healthy, [], []))
            && AddedDependency(c, st, from, to) == AddedDependency(c, st.(nodes := known), from, to)
            && (DependsOn(st.nodes, from, to) ==> AddedDependency(c, st, from, to) == (st.(nodes := known), None))
    ensures Register(st.nodes, from, tier) ==
              if from in st.nodes then st.nodes else st.nodes[from := AgentNode(tier, Healthy, [], [])]
  {
  }
}
