// The dependency graph of the cascade-containment manager: mirrored edge lists, the blast radius and
// the depth walk.
module AgentGraph {
  import opened Collections
  import opened Reachability

  datatype TrustTier = Untrusted | Provisional | Trusted | Verified

  datatype Health = Healthy | Degraded | Failing | Unreachable

  datatype AgentNode = AgentNode(
    trustTier: TrustTier, healthStatus: Health, dependencies: seq<string>, dependents: seq<string>)

  type Nodes = map<string, AgentNode>

  function DependencyGraph(nodes: Nodes): Graph {
    map a | a in nodes :: set b | b in nodes[a].dependencies
  }

  function DependentGraph(nodes: Nodes): Graph {
    map a | a in nodes :: set b | b in nodes[a].dependents
  }

  predicate DependsOn(nodes: Nodes, a: string, b: string) {
    a in nodes && b in nodes[a].dependencies
  }

  /** The two edge lists are mirror images, over registered agents. */
  ghost predicate Mirrored(nodes: Nodes) {
    forall a, b :: DependsOn(nodes, a, b) <==> b in nodes && a in nodes[b].dependents
  }

  ghost predicate WithoutDuplicates(nodes: Nodes) {
    forall a :: a in nodes ==> NoDuplicates(nodes[a].dependencies) && NoDuplicates(nodes[a].dependents)
  }

  // ---------------------------------------------------------------- blast radius

  /** The other agents that depend on the agent, directly or through others. */
  ghost function Affected(nodes: Nodes, agentId: string): set<string> {
    set b | b in nodes && b != agentId && Reaches(DependencyGraph(nodes), b, agentId)
  }

  method CollectDependents(nodes: Nodes, agentId: string, visited: set<string>) returns (seen: set<string>)
    requires Mirrored(nodes)
    ensures visited <= seen && agentId in seen && seen - visited <= nodes.Keys + {agentId}
    ensures forall b :: b in seen - visited ==> Reaches(DependentGraph(nodes), agentId, b)
    ensures forall a, b :: a in seen - visited && Edge(DependentGraph(nodes), a, b) ==> b in seen
    decreases nodes.Keys - visited
  {
    ghost var g := DependentGraph(nodes);
    if agentId in visited {
      return visited;
    }
    seen := visited + {agentId};
    ReachesSelf(g, agentId);
    if agentId !in nodes {
      return;
    }
    var dependents := nodes[agentId].dependents;
    for i := 0 to |dependents|
      invariant visited + {agentId} <= seen && seen - visited <= nodes.Keys + {agentId}
      invariant forall b :: b in seen - visited ==> Reaches(g, agentId, b)
      invariant forall a, b :: a in seen - visited - {agentId} && Edge(g, a, b) ==> b in seen
      invariant forall k :: 0 <= k < i ==> dependents[k] in seen
    {
      var before := seen;
      assert Edge(g, agentId, dependents[i]);
      assert DependsOn(nodes, dependents[i], agentId) && dependents[i] in nodes;
      seen := CollectDependents(nodes, dependents[i], seen);
      forall b | b in seen && b !in before ensures Reaches(g, agentId, b) && b in nodes.Keys {
        assert b in seen - before;
        EdgeThenReaches(g, agentId, dependents[i], b);
      }
      forall b | b in seen - visited ensures b in nodes.Keys + {agentId} {
        assert b in before ==> b in before - visited;
      }
    }
  }

  lemma {:induction false} MirrorReverses(nodes: Nodes)
    requires Mirrored(nodes)
    ensures Reverses(DependencyGraph(nodes), DependentGraph(nodes))
    ensures Reverses(DependentGraph(nodes), DependencyGraph(nodes))
  {
    var g, r := DependencyGraph(nodes), DependentGraph(nodes);
    forall a, b | Edge(g, a, b) ensures Edge(r, b, a) {
      assert DependsOn(nodes, a, b);
    }
    forall a, b | Edge(r, a, b) ensures Edge(g, b, a) {
      assert DependsOn(nodes, b, a);
    }
  }

  /** On every graph, cyclic ones included, the count is the number of other agents that transitively depend on it. */
  method ComputeBlastRadius(nodes: Nodes, agentId: string) returns (radius: nat)
    requires Mirrored(nodes)
    ensures radius == |Affected(nodes, agentId)|
  {
    var visited := CollectDependents(nodes, agentId, {});
    ghost var g := DependentGraph(nodes);
    ClosedIsReachable(g, agentId, visited);
    MirrorReverses(nodes);
    forall b ensures Reaches(DependencyGraph(nodes), b, agentId) <==> b in visited {
      ReverseReaches(DependencyGraph(nodes), g, b, agentId);
    }
    forall b ensures b in visited - {agentId} <==> b in Affected(nodes, agentId) {
      assert b in visited ==> b in visited - {};
    }
    assert visited - {agentId} == Affected(nodes, agentId);
    radius := |visited - {agentId}|;
  }

  /** Adding agents or dependencies never lowers a blast radius. */
  lemma {:induction false} BlastRadiusGrows(nodes: Nodes, more: Nodes, agentId: string)
    requires forall a :: a in nodes ==> a in more
    requires forall a, b :: DependsOn(nodes, a, b) ==> DependsOn(more, a, b)
    ensures |Affected(nodes, agentId)| <= |Affected(more, agentId)|
  {
    var g, h := DependencyGraph(nodes), DependencyGraph(more);
    forall a, b | Edge(g, a, b) ensures Edge(h, a, b) {
      assert DependsOn(nodes, a, b);
    }
    forall b | b in Affected(nodes, agentId) ensures b in Affected(more, agentId) {
      ReachesGrows(g, h, b, agentId);
    }
    SubsetIsSmaller(Affected(nodes, agentId), Affected(more, agentId));
  }

  // ---------------------------------------------------------------- depth

  function Max(x: nat, y: nat): nat {
    if x >= y then x else y
  }

  /** The depth walk, with the visited set it shares between branches. */
  function DepthTo(nodes: Nodes, agentId: string, visited: set<string>): (r: (nat, set<string>))
    ensures visited <= r.1
    decreases nodes.Keys - visited, 0
  {
    if agentId in visited then (0, visited)
    else if agentId !in nodes || nodes[agentId].dependencies == [] then (0, visited + {agentId})
    else DepthOver(nodes, nodes[agentId].dependencies, visited + {agentId}, 0)
  }

  function DepthOver(nodes: Nodes, deps: seq<string>, visited: set<string>, best: nat): (r: (nat, set<string>))
    ensures visited <= r.1
    decreases nodes.Keys - visited, 1 + |deps|
  {
    if deps == [] then (best, visited)
    else
      var (d, seen) := DepthTo(nodes, deps[0], visited);
      DepthOver(nodes, deps[1..], seen, Max(best, 1 + d))
  }

  method GetDepthTo(nodes: Nodes, agentId: string, visited: set<string>) returns (depth: nat, seen: set<string>)
    ensures (depth, seen) == DepthTo(nodes, agentId, visited)
    decreases nodes.Keys - visited
  {
    if agentId in visited {
      return 0, visited;
    }
    seen := visited + {agentId};
    depth := 0;
    if agentId !in nodes || |nodes[agentId].dependencies| == 0 {
      return;
    }
    var deps := nodes[agentId].dependencies;
    var i := 0;
    while i < |deps|
      invariant 0 <= i <= |deps| && visited + {agentId} <= seen
      invariant DepthOver(nodes, deps[i..], seen, depth) == DepthTo(nodes, agentId, visited)
    {
      assert deps[i..][1..] == deps[i + 1..];
      var d;
      d, seen := GetDepthTo(nodes, deps[i], seen);
      depth := Max(depth, 1 + d);
      i := i + 1;
    }
  }

  /** A walk along dependencies; its length is the number of edges. */
  ghost predicate HasWalk(nodes: Nodes, from: string, edges: nat) {
    exists walk :: IsWalk(DependencyGraph(nodes), walk) && walk[0] == from && |walk| == edges + 1
  }

  lemma {:induction false} NoEdges(nodes: Nodes, from: string)
    ensures HasWalk(nodes, from, 0)
  {
    assert IsWalk(DependencyGraph(nodes), [from]);
  }

  lemma {:induction false} LongerWalk(nodes: Nodes, from: string, next: string, edges: nat)
    requires DependsOn(nodes, from, next) && HasWalk(nodes, next, edges)
    ensures HasWalk(nodes, from, edges + 1)
  {
    var g := DependencyGraph(nodes);
    var walk :| IsWalk(g, walk) && walk[0] == next && |walk| == edges + 1;
    assert Edge(g, from, next);
    WalkCons(g, from, walk);
    var longer := [from] + walk;
    assert longer[0] == from && |longer| == edges + 2;
  }

  lemma {:induction false} LongerWalkAfter(nodes: Nodes, more: Nodes, from: string, to: string, edges: nat)
    requires forall x, y :: DependsOn(nodes, x, y) ==> DependsOn(more, x, y)
    requires DependsOn(more, from, to) && HasWalk(nodes, to, edges)
    ensures HasWalk(more, from, edges + 1)
  {
    var g := DependencyGraph(nodes);
    var walk :| IsWalk(g, walk) && walk[0] == to && |walk| == edges + 1;
    forall i: nat | i < |walk| - 1 ensures StepAt(DependencyGraph(more), walk, i) {
      assert StepAt(g, walk, i) && DependsOn(nodes, walk[i], walk[i + 1]);
    }
    LongerWalk(more, from, to, edges);
  }

  /** The depth is the length of a real walk and is bounded by the number of agents newly visited. */
  lemma {:induction false} DepthIsWalk(nodes: Nodes, agentId: string, visited: set<string>)
    ensures var (d, seen) := DepthTo(nodes, agentId, visited);
            HasWalk(nodes, agentId, d) && d + |visited| <= |seen|
    decreases nodes.Keys - visited, 0
  {
    NoEdges(nodes, agentId);
    if agentId !in visited && agentId in nodes && nodes[agentId].dependencies != [] {
      DepthOverIsWalk(nodes, agentId, nodes[agentId].dependencies, visited + {agentId}, 0);
    }
  }

  lemma {:induction false} DepthOverIsWalk(nodes: Nodes, from: string, deps: seq<string>, visited: set<string>,
                                           best: nat)
    requires (forall i :: 0 <= i < |deps| ==> DependsOn(nodes, from, deps[i])) && HasWalk(nodes, from, best)
    ensures var (d, seen) := DepthOver(nodes, deps, visited, best);
            HasWalk(nodes, from, d) && d + |visited| <= Max(best + |visited|, 1 + |seen|) && |visited| <= |seen|
    decreases nodes.Keys - visited, 1 + |deps|
  {
    if deps != [] {
      var (d, seen) := DepthTo(nodes, deps[0], visited);
      DepthIsWalk(nodes, deps[0], visited);
      LongerWalk(nodes, from, deps[0], d);
      DepthOverIsWalk(nodes, from, deps[1..], seen, Max(best, 1 + d));
    }
  }

  lemma {:induction false} SeenIsKnown(nodes: Nodes, agentId: string, visited: set<string>, known: set<string>)
    requires visited <= known && agentId in known
    requires forall a, b :: a in known && DependsOn(nodes, a, b) ==> b in known
    ensures DepthTo(nodes, agentId, visited).1 <= known
    decreases nodes.Keys - visited, 0
  {
    if agentId !in visited && agentId in nodes && nodes[agentId].dependencies != [] {
      forall i | 0 <= i < |nodes[agentId].dependencies| ensures nodes[agentId].dependencies[i] in known {
        assert DependsOn(nodes, agentId, nodes[agentId].dependencies[i]);
      }
      SeenOverIsKnown(nodes, nodes[agentId].dependencies, visited + {agentId}, 0, known);
    }
  }

  lemma {:induction false} SeenOverIsKnown(nodes: Nodes, deps: seq<string>, visited: set<string>, best: nat,
                                           known: set<string>)
    requires visited <= known && forall i :: 0 <= i < |deps| ==> deps[i] in known
    requires forall a, b :: a in known && DependsOn(nodes, a, b) ==> b in known
    ensures DepthOver(nodes, deps, visited, best).1 <= known
    decreases nodes.Keys - visited, 1 + |deps|
  {
    if deps != [] {
      var (d, seen) := DepthTo(nodes, deps[0], visited);
      SeenIsKnown(nodes, deps[0], visited, known);
      SeenOverIsKnown(nodes, deps[1..], seen, Max(best, 1 + d), known);
    }
  }

  /** For a registered agent the depth never exceeds the number of agents. */
  lemma {:induction false} DepthIsBounded(nodes: Nodes, agentId: string)
    requires Mirrored(nodes) && agentId in nodes
    ensures DepthTo(nodes, agentId, {}).0 <= |nodes|
    ensures HasWalk(nodes, agentId, DepthTo(nodes, agentId, {}).0)
  {
    DepthIsWalk(nodes, agentId, {});
    SeenIsKnown(nodes, agentId, {}, nodes.Keys);
    SubsetIsSmaller(DepthTo(nodes, agentId, {}).1, nodes.Keys);
  }

  // ---------------------------------------------------------------- where the depth is exact

  /** Some walk leads from `a` to `b` in `d` steps or fewer. */
  ghost predicate WithinSteps(nodes: Nodes, a: string, b: string, d: nat) {
    exists walk :: WalkFrom(DependencyGraph(nodes), a, b, walk) && |walk| <= d + 1
  }

  lemma {:induction false} StepFurther(nodes: Nodes, a: string, b: string, c: string, d: nat, e: nat)
    requires DependsOn(nodes, a, b) && WithinSteps(nodes, b, c, d) && 1 + d <= e
    ensures WithinSteps(nodes, a, c, e)
  {
    var g := DependencyGraph(nodes);
    var walk :| WalkFrom(g, b, c, walk) && |walk| <= d + 1;
    assert Edge(g, a, b);
    WalkCons(g, a, walk);
    assert WalkFrom(g, a, c, [a] + walk);
  }

  /** What is newly visited is within as many steps as the depth says. */
  ghost predicate SeenWithin(nodes: Nodes, a: string, visited: set<string>, seen: set<string>, d: nat) {
    forall b :: b in seen && b !in visited ==> WithinSteps(nodes, a, b, d)
  }

  /** Whatever depends on anything newly visited, save for the node itself, has it visited too. */
  ghost predicate SeenClosed(nodes: Nodes, visited: set<string>, seen: set<string>) {
    forall x, y :: x in seen && x !in visited && DependsOn(nodes, x, y) ==> y in seen
  }

  lemma {:induction false} SeenIsWithin(nodes: Nodes, a: string, visited: set<string>)
    ensures var (d, seen) := DepthTo(nodes, a, visited);
            a in seen && SeenWithin(nodes, a, visited, seen, d) && SeenClosed(nodes, visited, seen)
    decreases nodes.Keys - visited, 0
  {
    assert WalkFrom(DependencyGraph(nodes), a, a, [a]);
    if a !in visited && a in nodes && nodes[a].dependencies != [] {
      SeenOverIsWithin(nodes, a, nodes[a].dependencies, visited + {a}, 0);
    }
  }

  lemma {:induction false} SeenOverIsWithin(nodes: Nodes, from: string, deps: seq<string>, visited: set<string>,
                                            best: nat)
    requires forall i :: 0 <= i < |deps| ==> DependsOn(nodes, from, deps[i])
    ensures var (d, seen) := DepthOver(nodes, deps, visited, best);
            && best <= d && (forall i :: 0 <= i < |deps| ==> deps[i] in seen)
            && SeenWithin(nodes, from, visited, seen, d) && SeenClosed(nodes, visited, seen)
    decreases nodes.Keys - visited, 1 + |deps|
  {
    if deps != [] {
      var (d, seen) := DepthTo(nodes, deps[0], visited);
      var (e, all) := DepthOver(nodes, deps[1..], seen, Max(best, 1 + d));
      SeenIsWithin(nodes, deps[0], visited);
      SeenOverIsWithin(nodes, from, deps[1..], seen, Max(best, 1 + d));
      forall b | b in seen && b !in visited ensures WithinSteps(nodes, from, b, e) {
        StepFurther(nodes, from, deps[0], b, d, e);
      }
      forall i | 0 <= i < |deps| ensures deps[i] in all {
        assert i > 0 ==> deps[i] == deps[1..][i - 1];
      }
    }
  }

  /** On every graph, whatever the agent depends on, directly or not, is within as many steps as the depth says. */
  lemma {:induction false} DepthCoversDistances(nodes: Nodes, agentId: string, b: string)
    requires Reaches(DependencyGraph(nodes), agentId, b)
    ensures WithinSteps(nodes, agentId, b, DepthTo(nodes, agentId, {}).0)
  {
    var g := DependencyGraph(nodes);
    var (d, seen) := DepthTo(nodes, agentId, {});
    SeenIsWithin(nodes, agentId, {});
    forall x, y | x in seen && Edge(g, x, y) ensures y in seen {
      assert DependsOn(nodes, x, y);
    }
    var walk :| WalkFrom(g, agentId, b, walk);
    WalkStaysInside(g, seen, walk);
  }

  /** After an edge is added, whatever its target reaches is within one step more than the target's depth was. */
  lemma {:induction false} NewEdgeIsShallow(nodes: Nodes, more: Nodes, from: string, to: string, b: string)
    requires forall x, y :: DependsOn(more, x, y) <==> DependsOn(nodes, x, y) || (x == from && y == to)
    requires Reaches(DependencyGraph(more), to, b)
    ensures WithinSteps(more, from, b, 1 + DepthTo(nodes, to, {}).0)
  {
    var g, h := DependencyGraph(nodes), DependencyGraph(more);
    var (d, seen) := DepthTo(nodes, to, {});
    SeenIsWithin(nodes, to, {});
    forall x, y | x in seen && Edge(h, x, y) ensures y in seen {
      assert DependsOn(more, x, y);
    }
    var walk :| WalkFrom(h, to, b, walk);
    WalkStaysInside(h, seen, walk);
    var short :| WalkFrom(g, to, b, short) && |short| <= d + 1;
    forall i: nat | i < |short| - 1 ensures StepAt(h, short, i) {
      assert StepAt(g, short, i) && DependsOn(nodes, short[i], short[i + 1]);
    }
    assert WalkFrom(h, to, b, short);
    assert DependsOn(more, from, to);
    StepFurther(more, from, to, b, d, 1 + d);
  }

  /** No walk from `a` has more edges than `d`. */
  ghost predicate WalksWithin(nodes: Nodes, a: string, d: nat) {
    forall walk :: IsWalk(DependencyGraph(nodes), walk) && walk[0] == a ==> |walk| <= d + 1
  }

  /** Four agents: a depends on c and b, b on c, and c on d. */
  function Diamond(): Nodes {
    map[
      "a" := AgentNode(Trusted, Healthy, ["c", "b"], []),
      "b" := AgentNode(Trusted, Healthy, ["c"], ["a"]),
      "c" := AgentNode(Trusted, Healthy, ["d"], ["a", "b"]),
      "d" := AgentNode(Trusted, Healthy, [], ["c"])
    ]
  }

  lemma {:induction false} DepthOfOne(nodes: Nodes, a: string, b: string, visited: set<string>)
    requires a in nodes && nodes[a].dependencies == [b] && a !in visited
    ensures var (d, seen) := DepthTo(nodes, b, visited + {a}); DepthTo(nodes, a, visited) == (1 + d, seen)
  {
    var (d, seen) := DepthTo(nodes, b, visited + {a});
    assert [b][1..] == [];
    assert DepthOver(nodes, [b], visited + {a}, 0) == DepthOver(nodes, [], seen, Max(0, 1 + d));
  }

  lemma {:induction false} DepthOfTwo(nodes: Nodes, a: string, b: string, c: string)
    requires a in nodes && nodes[a].dependencies == [b, c]
    ensures var (d, seen) := DepthTo(nodes, b, {a});
            DepthTo(nodes, a, {}).0 == Max(1 + d, 1 + DepthTo(nodes, c, seen).0)
  {
    var (d, seen) := DepthTo(nodes, b, {a});
    var (e, all) := DepthTo(nodes, c, seen);
    assert [b, c][1..] == [c] && [c][1..] == [] && {} + {a} == {a};
    assert DepthOver(nodes, [b, c], {a}, 0) == DepthOver(nodes, [c], seen, Max(0, 1 + d));
    assert DepthOver(nodes, [c], seen, 1 + d) == DepthOver(nodes, [], all, Max(1 + d, 1 + e));
  }

  /** Where branches meet the depth can fall short of the longest walk, because they share the visited set. */
  lemma {:induction false} DepthCanFallShort()
    ensures DepthTo(Diamond(), "a", {}).0 == 2 && HasWalk(Diamond(), "a", 3)
  {
    var nodes := Diamond();
    DepthOfTwo(nodes, "a", "c", "b");
    DepthOfOne(nodes, "c", "d", {"a"});
    var seen := DepthTo(nodes, "c", {"a"}).1;
    assert "c" in seen && "b" !in seen;
    DepthOfOne(nodes, "b", "c", seen);
    DiamondWalk();
  }

  lemma {:induction false} DiamondWalk()
    ensures HasWalk(Diamond(), "a", 3)
  {
    var nodes := Diamond();
    NoEdges(nodes, "d");
    assert DependsOn(nodes, "c", "d") && DependsOn(nodes, "b", "c") && DependsOn(nodes, "a", "b");
    LongerWalk(nodes, "c", "d", 0);
    LongerWalk(nodes, "b", "c", 1);
    LongerWalk(nodes, "a", "b", 2);
  }

  /** A chain of dependencies from one agent to another. */
  predicate IsDependencyChain(nodes: Nodes, walk: seq<string>, a: string, b: string) {
    && |walk| >= 1 && walk[0] == a && walk[|walk| - 1] == b
    && forall i :: 0 <= i < |walk| - 1 ==> walk[i] in nodes && walk[i + 1] in nodes[walk[i]].dependencies
  }

  /** The agents counted by the blast radius: all others from which a chain of dependencies leads to the agent. */
  lemma {:induction false} AffectedWhen(nodes: Nodes, agentId: string, b: string)
    ensures b in Affected(nodes, agentId) <==>
              b in nodes && b != agentId && exists walk :: IsDependencyChain(nodes, walk, b, agentId)
  {
    var g := DependencyGraph(nodes);
    if walk :| IsDependencyChain(nodes, walk, b, agentId) {
      forall i: nat | i < |walk| - 1 ensures StepAt(g, walk, i) {
      }
      assert WalkFrom(g, b, agentId, walk);
    }
    if Reaches(g, b, agentId) {
      var walk :| WalkFrom(g, b, agentId, walk);
      forall i | 0 <= i < |walk| - 1 ensures walk[i] in nodes && walk[i + 1] in nodes[walk[i]].dependencies {
        assert StepAt(g, walk, i);
      }
      assert IsDependencyChain(nodes, walk, b, agentId);
    }
  }
}
