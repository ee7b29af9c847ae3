// What the dependency depth is: every agent counts along the first path that leads to it, in the order of the lists.
module DepthPaths {
  import opened Collections
  import opened Reachability
  import opened AgentGraph

  predicate HasDependencies(nodes: Nodes, a: string) {
    a in nodes && nodes[a].dependencies != []
  }

  /** The dependency graph without some of its agents. */
  function Without(nodes: Nodes, avoid: set<string>): Graph {
    map a | a in nodes && a !in avoid :: set b | b in nodes[a].dependencies && b !in avoid
  }

  /** Some walk leads from `a` to `b` around the agents to avoid. */
  ghost predicate Leads(nodes: Nodes, a: string, b: string, avoid: set<string>) {
    a !in avoid && Reaches(Without(nodes, avoid), a, b)
  }

  lemma {:induction false} EdgeAround(nodes: Nodes, avoid: set<string>, a: string, b: string)
    ensures Edge(Without(nodes, avoid), a, b) <==> DependsOn(nodes, a, b) && a !in avoid && b !in avoid
  {
  }

  lemma {:induction false} LeadsToSelf(nodes: Nodes, a: string, avoid: set<string>)
    requires a !in avoid
    ensures Leads(nodes, a, a, avoid)
  {
    ReachesSelf(Without(nodes, avoid), a);
  }

  lemma {:induction false} LeadsFrom(nodes: Nodes, a: string, b: string, c: string, avoid: set<string>)
    requires DependsOn(nodes, a, b) && a !in avoid && Leads(nodes, b, c, avoid)
    ensures Leads(nodes, a, c, avoid)
  {
    EdgeAround(nodes, avoid, a, b);
    EdgeThenReaches(Without(nodes, avoid), a, b, c);
  }

  /** Fewer agents to avoid, more walks. */
  lemma {:induction false} LeadsMore(nodes: Nodes, a: string, b: string, avoid: set<string>, fewer: set<string>)
    requires fewer <= avoid && Leads(nodes, a, b, avoid)
    ensures Leads(nodes, a, b, fewer)
  {
    forall x, y | Edge(Without(nodes, avoid), x, y) ensures Edge(Without(nodes, fewer), x, y) {
      EdgeAround(nodes, avoid, x, y);
      EdgeAround(nodes, fewer, x, y);
    }
    ReachesGrows(Without(nodes, avoid), Without(nodes, fewer), a, b);
  }

  lemma {:induction false} LeadsOn(nodes: Nodes, a: string, b: string, c: string, avoid: set<string>)
    requires Leads(nodes, a, b, avoid) && DependsOn(nodes, b, c) && c !in avoid
    ensures Leads(nodes, a, c, avoid)
  {
    var g := Without(nodes, avoid);
    var walk :| WalkFrom(g, a, b, walk);
    LeadsOnBy(nodes, walk, c, avoid);
  }

  lemma {:induction false} LeadsOnBy(nodes: Nodes, walk: seq<string>, c: string, avoid: set<string>)
    requires IsWalk(Without(nodes, avoid), walk) && walk[0] !in avoid && c !in avoid
    requires DependsOn(nodes, walk[|walk| - 1], c)
    ensures Leads(nodes, walk[0], c, avoid)
    decreases |walk|
  {
    if |walk| == 1 {
      LeadsToSelf(nodes, c, avoid);
      LeadsFrom(nodes, walk[0], c, c, avoid);
    } else {
      WalkTail(Without(nodes, avoid), walk);
      EdgeAround(nodes, avoid, walk[0], walk[1]);
      LeadsOnBy(nodes, walk[1..], c, avoid);
      LeadsFrom(nodes, walk[0], walk[1], c, avoid);
    }
  }

  /** A walk to `b` either keeps away from `a` or can be taken up behind its last visit to `a`. */
  lemma {:induction false} LastVisit(nodes: Nodes, walk: seq<string>, a: string, avoid: set<string>)
    requires IsWalk(Without(nodes, avoid), walk) && walk[0] !in avoid && a !in avoid && walk[|walk| - 1] != a
    ensures Leads(nodes, walk[0], walk[|walk| - 1], avoid + {a})
         || exists d :: DependsOn(nodes, a, d) && Leads(nodes, d, walk[|walk| - 1], avoid + {a})
    decreases |walk|
  {
    if |walk| == 1 {
      LeadsToSelf(nodes, walk[0], avoid + {a});
    } else {
      WalkTail(Without(nodes, avoid), walk);
      EdgeAround(nodes, avoid, walk[0], walk[1]);
      LastVisit(nodes, walk[1..], a, avoid);
      if Leads(nodes, walk[1], walk[|walk| - 1], avoid + {a}) && walk[0] != a {
        LeadsFrom(nodes, walk[0], walk[1], walk[|walk| - 1], avoid + {a});
      }
    }
  }

  /** Another agent is reached exactly through some dependency, without coming back. */
  lemma {:induction false} LeadsThrough(nodes: Nodes, a: string, b: string, avoid: set<string>)
    requires a !in avoid && a != b
    ensures Leads(nodes, a, b, avoid) <==> exists d :: DependsOn(nodes, a, d) && Leads(nodes, d, b, avoid + {a})
  {
    if Leads(nodes, a, b, avoid) {
      var walk :| WalkFrom(Without(nodes, avoid), a, b, walk);
      LastVisit(nodes, walk, a, avoid);
    }
    if d :| DependsOn(nodes, a, d) && Leads(nodes, d, b, avoid + {a}) {
      LeadsMore(nodes, d, b, avoid + {a}, avoid);
      LeadsFrom(nodes, a, d, b, avoid);
    }
  }

  // ---------------------------------------------------------------- the first path

  /** The position of the first dependency that leads to `b`. */
  ghost function FirstVia(nodes: Nodes, deps: seq<string>, b: string, avoid: set<string>): (i: nat)
    ensures i <= |deps| && forall j :: 0 <= j < i ==> !Leads(nodes, deps[j], b, avoid)
    ensures i < |deps| ==> Leads(nodes, deps[i], b, avoid)
    decreases |deps|
  {
    if deps == [] || Leads(nodes, deps[0], b, avoid) then 0 else 1 + FirstVia(nodes, deps[1..], b, avoid)
  }

  lemma {:induction false} ViaExists(nodes: Nodes, a: string, b: string, avoid: set<string>)
    requires Leads(nodes, a, b, avoid) && a != b
    ensures a in nodes && FirstVia(nodes, nodes[a].dependencies, b, avoid + {a}) < |nodes[a].dependencies|
  {
    LeadsThrough(nodes, a, b, avoid);
    var d :| DependsOn(nodes, a, d) && Leads(nodes, d, b, avoid + {a});
    var j :| 0 <= j < |nodes[a].dependencies| && nodes[a].dependencies[j] == d;
  }

  /** From every agent on, the first dependency that still leads to `b` around the agents already passed. */
  ghost function FirstPath(nodes: Nodes, a: string, b: string, avoid: set<string>): (path: seq<string>)
    requires Leads(nodes, a, b, avoid)
    ensures |path| >= 1
    decreases nodes.Keys - avoid
  {
    if a == b then [a]
    else
      ViaExists(nodes, a, b, avoid);
      var deps := nodes[a].dependencies;
      [a] + FirstPath(nodes, deps[FirstVia(nodes, deps, b, avoid + {a})], b, avoid + {a})
  }

  lemma {:induction false} FirstPathStep(nodes: Nodes, a: string, b: string, avoid: set<string>, i: nat)
    requires a !in avoid && a != b && a in nodes && i < |nodes[a].dependencies|
    requires i == FirstVia(nodes, nodes[a].dependencies, b, avoid + {a})
    ensures Leads(nodes, a, b, avoid)
    ensures FirstPath(nodes, a, b, avoid) == [a] + FirstPath(nodes, nodes[a].dependencies[i], b, avoid + {a})
  {
    assert DependsOn(nodes, a, nodes[a].dependencies[i]);
    LeadsThrough(nodes, a, b, avoid);
  }

  /** The first path is a walk around the agents to avoid, and passes no agent twice. */
  lemma {:induction false} FirstPathIsWalk(nodes: Nodes, a: string, b: string, avoid: set<string>)
    requires Leads(nodes, a, b, avoid)
    ensures var p := FirstPath(nodes, a, b, avoid);
            WalkFrom(Without(nodes, avoid), a, b, p) && NoDuplicates(p) && forall x :: x in p ==> x !in avoid
    decreases nodes.Keys - avoid
  {
    if a != b {
      ViaExists(nodes, a, b, avoid);
      var deps := nodes[a].dependencies;
      var d := deps[FirstVia(nodes, deps, b, avoid + {a})];
      var tail := FirstPath(nodes, d, b, avoid + {a});
      FirstPathIsWalk(nodes, d, b, avoid + {a});
      forall i: nat | i < |tail| - 1 ensures StepAt(Without(nodes, avoid), tail, i) {
        assert StepAt(Without(nodes, avoid + {a}), tail, i);
        EdgeAround(nodes, avoid + {a}, tail[i], tail[i + 1]);
        EdgeAround(nodes, avoid, tail[i], tail[i + 1]);
      }
      assert DependsOn(nodes, a, d);
      EdgeAround(nodes, avoid, a, d);
      WalkCons(Without(nodes, avoid), a, tail);
      NewIsDistinct(a, tail);
    }
  }

  lemma {:induction false} NewIsDistinct(a: string, s: seq<string>)
    requires a !in s && NoDuplicates(s)
    ensures NoDuplicates([a] + s)
  {
  }

  /** Where the paths part, the first one takes a dependency that stands before the other's. */
  predicate ComesFirst(nodes: Nodes, p: seq<string>, q: seq<string>) {
    p == q || (|p| > 1 && |q| > 1 && p[0] == q[0] && p[0] in nodes &&
      if p[1] == q[1] then ComesFirst(nodes, p[1..], q[1..])
      else exists i :: 0 <= i < |nodes[p[0]].dependencies|
             && nodes[p[0]].dependencies[i] == p[1] && q[1] !in nodes[p[0]].dependencies[..i])
  }

  lemma {:induction false} TailAvoidsHead(nodes: Nodes, q: seq<string>, avoid: set<string>)
    requires IsWalk(Without(nodes, avoid), q) && |q| > 1 && NoDuplicates(q) && q[0] !in avoid
    ensures IsWalk(Without(nodes, avoid + {q[0]}), q[1..]) && q[1] !in avoid + {q[0]} && NoDuplicates(q[1..])
    ensures DependsOn(nodes, q[0], q[1])
  {
    var w := q[1..];
    assert StepAt(Without(nodes, avoid), q, 0);
    EdgeAround(nodes, avoid, q[0], q[1]);
    forall i: nat | i < |w| - 1 ensures StepAt(Without(nodes, avoid + {q[0]}), w, i) {
      assert StepAt(Without(nodes, avoid), q, i + 1);
      EdgeAround(nodes, avoid, q[i + 1], q[i + 2]);
      EdgeAround(nodes, avoid + {q[0]}, q[i + 1], q[i + 2]);
    }
  }

  lemma {:induction false} HeadComesFirst(nodes: Nodes, a: string, p: seq<string>, q: seq<string>, i: nat)
    requires a in nodes && i < |nodes[a].dependencies| && p != [] && q != []
    requires p[0] == nodes[a].dependencies[i] && q[0] !in nodes[a].dependencies[..i]
    requires p[0] == q[0] ==> ComesFirst(nodes, p, q)
    ensures ComesFirst(nodes, [a] + p, [a] + q)
  {
    assert ([a] + p)[1..] == p && ([a] + q)[1..] == q;
  }

  lemma {:induction false} TailLeads(nodes: Nodes, a: string, b: string, q: seq<string>, avoid: set<string>)
    requires IsWalk(Without(nodes, avoid), q) && NoDuplicates(q) && |q| > 1
    requires a == q[0] && b == q[|q| - 1] && a !in avoid
    ensures Leads(nodes, a, b, avoid) && a != b && a in nodes
    ensures FirstVia(nodes, nodes[a].dependencies, b, avoid + {a}) < |nodes[a].dependencies|
  {
    assert WalkFrom(Without(nodes, avoid), a, b, q);
    ViaExists(nodes, a, b, avoid);
  }

  /** Among all paths that pass no agent twice it comes first in the order of the dependency lists. */
  lemma {:induction false} FirstPathIsFirst(nodes: Nodes, q: seq<string>, avoid: set<string>)
    requires IsWalk(Without(nodes, avoid), q) && NoDuplicates(q) && q[0] !in avoid
    ensures Leads(nodes, q[0], q[|q| - 1], avoid)
    ensures ComesFirst(nodes, FirstPath(nodes, q[0], q[|q| - 1], avoid), q)
    decreases |q|
  {
    var a, b := q[0], q[|q| - 1];
    if |q| == 1 {
      assert q == [a];
      assert WalkFrom(Without(nodes, avoid), a, b, q);
    } else {
      TailAvoidsHead(nodes, q, avoid);
      TailLeads(nodes, a, b, q, avoid);
      var rest, deps := q[1..], nodes[a].dependencies;
      var i := FirstVia(nodes, deps, b, avoid + {a});
      FirstPathStep(nodes, a, b, avoid, i);
      FirstPathIsFirst(nodes, rest, avoid + {a});
      FirstPathIsWalk(nodes, deps[i], b, avoid + {a});
      HeadComesFirst(nodes, a, FirstPath(nodes, deps[i], b, avoid + {a}), rest, i);
      assert q == [a] + rest;
    }
  }

  // ---------------------------------------------------------------- more agents to avoid

  /** What is avoided in addition cannot be left. */
  ghost predicate NoWayBack(nodes: Nodes, avoid: set<string>, more: set<string>) {
    avoid <= more && forall x, y :: x in more && x !in avoid && DependsOn(nodes, x, y) ==> y in more
  }

  lemma {:induction false} WalkCannotLeave(nodes: Nodes, avoid: set<string>, more: set<string>, walk: seq<string>)
    requires NoWayBack(nodes, avoid, more) && IsWalk(Without(nodes, avoid), walk) && walk[0] !in avoid
    requires walk[|walk| - 1] !in more
    ensures walk[0] !in more && Leads(nodes, walk[0], walk[|walk| - 1], more)
    decreases |walk|
  {
    if |walk| == 1 {
      LeadsToSelf(nodes, walk[0], more);
    } else {
      WalkTail(Without(nodes, avoid), walk);
      EdgeAround(nodes, avoid, walk[0], walk[1]);
      WalkCannotLeave(nodes, avoid, more, walk[1..]);
      LeadsFrom(nodes, walk[0], walk[1], walk[|walk| - 1], more);
    }
  }

  lemma {:induction false} LeadsAlike(nodes: Nodes, avoid: set<string>, more: set<string>, a: string, b: string)
    requires NoWayBack(nodes, avoid, more) && b !in more
    ensures Leads(nodes, a, b, avoid) <==> Leads(nodes, a, b, more)
  {
    if Leads(nodes, a, b, avoid) {
      var walk :| WalkFrom(Without(nodes, avoid), a, b, walk);
      WalkCannotLeave(nodes, avoid, more, walk);
    }
    if Leads(nodes, a, b, more) {
      LeadsMore(nodes, a, b, more, avoid);
    }
  }

  lemma {:induction false} ViaAlike(nodes: Nodes, deps: seq<string>, b: string, avoid: set<string>, more: set<string>)
    requires NoWayBack(nodes, avoid, more) && b !in more
    ensures FirstVia(nodes, deps, b, avoid) == FirstVia(nodes, deps, b, more)
    decreases |deps|
  {
    if deps != [] {
      LeadsAlike(nodes, avoid, more, deps[0], b);
      ViaAlike(nodes, deps[1..], b, avoid, more);
    }
  }

  lemma {:induction false} FirstPathAlike(nodes: Nodes, a: string, b: string, avoid: set<string>, more: set<string>)
    requires NoWayBack(nodes, avoid, more) && b !in more && Leads(nodes, a, b, avoid)
    ensures Leads(nodes, a, b, more) && FirstPath(nodes, a, b, more) == FirstPath(nodes, a, b, avoid)
    decreases nodes.Keys - avoid
  {
    LeadsAlike(nodes, avoid, more, a, b);
    if a != b {
      ViaExists(nodes, a, b, avoid);
      var deps := nodes[a].dependencies;
      var i := FirstVia(nodes, deps, b, avoid + {a});
      ViaAlike(nodes, deps, b, avoid + {a}, more + {a});
      FirstPathAlike(nodes, deps[i], b, avoid + {a}, more + {a});
      FirstPathStep(nodes, a, b, avoid, i);
      FirstPathStep(nodes, a, b, more, i);
    }
  }

  // ---------------------------------------------------------------- the depth walk

  /** The agents seen before the dependency at `i`: those avoided from the start and all that earlier ones lead to. */
  ghost predicate SeenUpTo(nodes: Nodes, deps: seq<string>, i: nat, avoid: set<string>, seen: set<string>)
    requires i <= |deps|
  {
    forall b :: b in seen <==> b in avoid || exists j :: 0 <= j < i && Leads(nodes, deps[j], b, avoid)
  }

  /** No path to a seen agent with dependencies has more agents than `d`. */
  ghost predicate PathsWithin(nodes: Nodes, a: string, avoid: set<string>, seen: set<string>, d: nat) {
    forall b :: b in seen && b !in avoid && HasDependencies(nodes, b) && Leads(nodes, a, b, avoid) ==>
      |FirstPath(nodes, a, b, avoid)| <= d
  }

  ghost predicate PathOf(nodes: Nodes, a: string, avoid: set<string>, d: nat) {
    exists b :: HasDependencies(nodes, b) && Leads(nodes, a, b, avoid) && |FirstPath(nodes, a, b, avoid)| == d
  }

  lemma {:induction false} SeenHasNoWayBack(nodes: Nodes, deps: seq<string>, i: nat, avoid: set<string>,
                                            seen: set<string>)
    requires i <= |deps| && SeenUpTo(nodes, deps, i, avoid, seen)
    ensures NoWayBack(nodes, avoid, seen)
  {
    forall x, y | x in seen && x !in avoid && DependsOn(nodes, x, y) ensures y in seen {
      if y !in avoid {
        var j :| 0 <= j < i && Leads(nodes, deps[j], x, avoid);
        LeadsOn(nodes, deps[j], x, y, avoid);
      }
    }
  }

  /** What the walk from the dependency at `i` sees is what it leads to. */
  lemma {:induction false} SeenNext(nodes: Nodes, deps: seq<string>, i: nat, avoid: set<string>, seen: set<string>,
                                    all: set<string>)
    requires i < |deps| && SeenUpTo(nodes, deps, i, avoid, seen)
    requires forall b :: b in all <==> b in seen || Leads(nodes, deps[i], b, seen)
    ensures SeenUpTo(nodes, deps, i + 1, avoid, all)
  {
    SeenHasNoWayBack(nodes, deps, i, avoid, seen);
    forall b ensures b in all <==> b in avoid || exists j :: 0 <= j < i + 1 && Leads(nodes, deps[j], b, avoid) {
      if b !in seen {
        LeadsAlike(nodes, avoid, seen, deps[i], b);
      }
    }
  }

  /** A new agent's first path goes through the dependency that leads to it, and on as if nothing had been seen. */
  lemma {:induction false} PathOfNew(nodes: Nodes, a: string, i: nat, avoid: set<string>, seen: set<string>, b: string)
    requires a in nodes && a !in avoid && i < |nodes[a].dependencies|
    requires SeenUpTo(nodes, nodes[a].dependencies, i, avoid + {a}, seen)
    requires b !in seen && Leads(nodes, nodes[a].dependencies[i], b, seen)
    ensures Leads(nodes, a, b, avoid)
    ensures |FirstPath(nodes, a, b, avoid)| == 1 + |FirstPath(nodes, nodes[a].dependencies[i], b, seen)|
  {
    var deps := nodes[a].dependencies;
    SeenHasNoWayBack(nodes, deps, i, avoid + {a}, seen);
    LeadsAlike(nodes, avoid + {a}, seen, deps[i], b);
    assert i == FirstVia(nodes, deps, b, avoid + {a});
    FirstPathStep(nodes, a, b, avoid, i);
    FirstPathAlike(nodes, deps[i], b, avoid + {a}, seen);
  }

  ghost predicate ByPaths(nodes: Nodes, a: string, avoid: set<string>, d: nat, seen: set<string>) {
    && (forall b :: b in seen <==> b in avoid || Leads(nodes, a, b, avoid))
    && PathsWithin(nodes, a, avoid, seen, d)
    && if HasDependencies(nodes, a) then PathOf(nodes, a, avoid, d) else d == 0
  }

  /** The depth walk sees everything it leads to, and its depth is that of the longest first path, one step further. */
  lemma {:induction false} DepthByPaths(nodes: Nodes, a: string, avoid: set<string>)
    requires a !in avoid
    ensures var (d, seen) := DepthTo(nodes, a, avoid);
            ByPaths(nodes, a, avoid, d, seen)
    decreases nodes.Keys - avoid, 1, 0
  {
    LeadsToSelf(nodes, a, avoid);
    forall b | b != a ensures Leads(nodes, a, b, avoid) <==>
      exists d :: DependsOn(nodes, a, d) && Leads(nodes, d, b, avoid + {a})
    {
      LeadsThrough(nodes, a, b, avoid);
    }
    if HasDependencies(nodes, a) {
      var d, seen := DepthOverByPaths(nodes, a, 0, avoid, avoid + {a}, 0);
      assert nodes[a].dependencies[0..] == nodes[a].dependencies;
      forall b | b in seen && b !in avoid && HasDependencies(nodes, b) && Leads(nodes, a, b, avoid)
        ensures |FirstPath(nodes, a, b, avoid)| <= d
      {
        assert b != a ==> b in seen - {a};
      }
    }
  }

  lemma {:induction false} LeadsAround(nodes: Nodes, a: string, b: string, avoid: set<string>)
    requires Leads(nodes, a, b, avoid)
    ensures b !in avoid
  {
    FirstPathIsWalk(nodes, a, b, avoid);
    var p := FirstPath(nodes, a, b, avoid);
    assert p[|p| - 1] in p;
  }

  lemma {:induction false} OwnPath(nodes: Nodes, a: string, avoid: set<string>)
    requires HasDependencies(nodes, a) && a !in avoid
    ensures PathOf(nodes, a, avoid, 1)
  {
    LeadsToSelf(nodes, a, avoid);
    assert |FirstPath(nodes, a, a, avoid)| == 1;
  }

  /** The agents seen and the depth so far, before the dependency at `i`. */
  ghost predicate SoFar(nodes: Nodes, a: string, i: nat, avoid: set<string>, visited: set<string>, best: nat)
    requires HasDependencies(nodes, a) && i <= |nodes[a].dependencies|
  {
    && a !in avoid && avoid + {a} <= visited && SeenUpTo(nodes, nodes[a].dependencies, i, avoid + {a}, visited)
    && PathsWithin(nodes, a, avoid, visited - {a}, best)
    && if i == 0 then best == 0 else PathOf(nodes, a, avoid, best)
  }

  /** One more dependency: what it adds to the agents seen and to the depth so far. */
  lemma {:induction false} DependencyByPaths(nodes: Nodes, a: string, i: nat, avoid: set<string>, visited: set<string>,
                                             best: nat, d: nat, all: set<string>)
    requires HasDependencies(nodes, a) && i < |nodes[a].dependencies| && SoFar(nodes, a, i, avoid, visited, best)
    requires var dep := nodes[a].dependencies[i];
             if dep in visited then d == 0 && all == visited else ByPaths(nodes, dep, visited, d, all)
    ensures SoFar(nodes, a, i + 1, avoid, all, Max(best, 1 + d))
  {
    var deps := nodes[a].dependencies;
    SeenNext(nodes, deps, i, avoid + {a}, visited, all);
    forall b | b in all - {a} && b !in avoid && HasDependencies(nodes, b) && Leads(nodes, a, b, avoid)
      ensures |FirstPath(nodes, a, b, avoid)| <= Max(best, 1 + d)
    {
      if b in visited {
        assert b in visited - {a};
      } else {
        PathOfNew(nodes, a, i, avoid, visited, b);
      }
    }
    OwnPath(nodes, a, avoid);
    if 1 + d > best && d > 0 {
      var b :| HasDependencies(nodes, b) && Leads(nodes, deps[i], b, visited)
        && |FirstPath(nodes, deps[i], b, visited)| == d;
      LeadsAround(nodes, deps[i], b, visited);
      PathOfNew(nodes, a, i, avoid, visited, b);
    } else if i > 0 {
      var b :| HasDependencies(nodes, b) && Leads(nodes, a, b, avoid) && |FirstPath(nodes, a, b, avoid)| == best;
    }
  }

  lemma {:induction false} NextByPaths(nodes: Nodes, a: string, i: nat, avoid: set<string>, visited: set<string>,
                                       best: nat,
                                       d: nat, all: set<string>)
    requires HasDependencies(nodes, a) && i < |nodes[a].dependencies| && SoFar(nodes, a, i, avoid, visited, best)
    requires DepthTo(nodes, nodes[a].dependencies[i], visited) == (d, all)
    ensures SoFar(nodes, a, i + 1, avoid, all, Max(best, 1 + d))
    decreases nodes.Keys - avoid, 0, |nodes[a].dependencies| - i
  {
    var dep := nodes[a].dependencies[i];
    if dep !in visited {
      assert a in nodes.Keys - avoid && a !in nodes.Keys - visited;
      DepthByPaths(nodes, dep, visited);
    }
    DependencyByPaths(nodes, a, i, avoid, visited, best, d, all);
  }

  lemma {:induction false} DepthOverStep(nodes: Nodes, deps: seq<string>, i: nat, visited: set<string>, best: nat)
    requires i < |deps|
    ensures var (d, all) := DepthTo(nodes, deps[i], visited);
            DepthOver(nodes, deps[i..], visited, best) == DepthOver(nodes, deps[i + 1..], all, Max(best, 1 + d))
  {
    assert deps[i..][0] == deps[i] && deps[i..][1..] == deps[i + 1..];
  }

  lemma {:induction false} NextSoFar(nodes: Nodes, a: string, i: nat, avoid: set<string>, visited: set<string>,
                                     best: nat)
    returns (all: set<string>, more: nat)
    requires HasDependencies(nodes, a) && i < |nodes[a].dependencies| && SoFar(nodes, a, i, avoid, visited, best)
    ensures SoFar(nodes, a, i + 1, avoid, all, more)
    ensures DepthOver(nodes, nodes[a].dependencies[i..], visited, best)
         == DepthOver(nodes, nodes[a].dependencies[i + 1..], all, more)
    decreases nodes.Keys - avoid, 0, 1 + |nodes[a].dependencies| - i, 0
  {
    var (d, seen) := DepthTo(nodes, nodes[a].dependencies[i], visited);
    DepthOverStep(nodes, nodes[a].dependencies, i, visited, best);
    NextByPaths(nodes, a, i, avoid, visited, best, d, seen);
    all, more := seen, Max(best, 1 + d);
  }

  lemma {:induction false} DepthOverByPaths(nodes: Nodes, a: string, i: nat, avoid: set<string>, visited: set<string>,
                                            best: nat)
    returns (d: nat, seen: set<string>)
    requires HasDependencies(nodes, a) && i <= |nodes[a].dependencies| && SoFar(nodes, a, i, avoid, visited, best)
    ensures (d, seen) == DepthOver(nodes, nodes[a].dependencies[i..], visited, best)
    ensures SoFar(nodes, a, |nodes[a].dependencies|, avoid, seen, d)
    decreases nodes.Keys - avoid, 0, 1 + |nodes[a].dependencies| - i, 1
  {
    if i < |nodes[a].dependencies| {
      var all, more := NextSoFar(nodes, a, i, avoid, visited, best);
      d, seen := DepthOverByPaths(nodes, a, i + 1, avoid, all, more);
    } else {
      d, seen := best, visited;
      assert nodes[a].dependencies[i..] == [] && SoFar(nodes, a, |nodes[a].dependencies|, avoid, seen, d);
    }
  }

  // ---------------------------------------------------------------- when the depth is exact

  lemma {:induction false} AvoidingNone(nodes: Nodes)
    ensures Without(nodes, {}) == DependencyGraph(nodes)
  {
    forall a | a in nodes ensures Without(nodes, {})[a] == DependencyGraph(nodes)[a] {
    }
  }

  /**
   * The depth is zero for an agent without dependencies. Otherwise it is the greatest number of agents on the first
   * path to an agent that has dependencies, which is one more than that path's length.
   */
  lemma {:induction false} DepthIsLongestFirstPath(nodes: Nodes, a: string)
    ensures forall b :: Leads(nodes, a, b, {}) <==> Reaches(DependencyGraph(nodes), a, b)
    ensures var d := DepthTo(nodes, a, {}).0;
            if HasDependencies(nodes, a) then PathOf(nodes, a, {}, d) else d == 0
    ensures forall b :: HasDependencies(nodes, b) && Leads(nodes, a, b, {}) ==>
              |FirstPath(nodes, a, b, {})| <= DepthTo(nodes, a, {}).0
  {
    AvoidingNone(nodes);
    DepthByPaths(nodes, a, {});
  }

  lemma {:induction false} WalkHasDependencies(nodes: Nodes, walk: seq<string>)
    requires IsWalk(DependencyGraph(nodes), walk) && |walk| > 1
    ensures HasDependencies(nodes, walk[|walk| - 2])
    ensures WalkFrom(DependencyGraph(nodes), walk[0], walk[|walk| - 2], walk[..|walk| - 1])
  {
    var g, w := DependencyGraph(nodes), walk[..|walk| - 1];
    assert StepAt(g, walk, |walk| - 2);
    forall i: nat | i < |w| - 1 ensures StepAt(g, w, i) {
      assert StepAt(g, walk, i);
    }
  }

  /**
   * The depth is the length of a longest walk if and only if there is nothing below the agent, or the first path to
   * some agent with dependencies is so long that no walk goes further than one step beyond.
   */
  lemma {:induction false} DepthExactlyWhen(nodes: Nodes, a: string)
    ensures var d := DepthTo(nodes, a, {}).0;
            HasWalk(nodes, a, d) && WalksWithin(nodes, a, d) <==>
              !HasDependencies(nodes, a)
              || exists b :: HasDependencies(nodes, b) && Leads(nodes, a, b, {})
                   && WalksWithin(nodes, a, |FirstPath(nodes, a, b, {})|)
  {
    var d := DepthTo(nodes, a, {}).0;
    DepthIsLongestFirstPath(nodes, a);
    DepthIsWalk(nodes, a, {});
    if HasDependencies(nodes, a) {
      var b :| HasDependencies(nodes, b) && Leads(nodes, a, b, {}) && |FirstPath(nodes, a, b, {})| == d;
    } else {
      forall walk | IsWalk(DependencyGraph(nodes), walk) && walk[0] == a ensures |walk| <= 1 {
        assert |walk| > 1 ==> StepAt(DependencyGraph(nodes), walk, 0);
      }
    }
  }

  /** Two walks from `a` to the same agent. */
  ghost predicate Twins(g: Graph, a: string, v: seq<string>, w: seq<string>) {
    IsWalk(g, v) && IsWalk(g, w) && v[0] == a && w[0] == a && v[|v| - 1] == w[|w| - 1]
  }

  /**
   * All walks from `a` to any one agent with dependencies are equally long: trees, but also diamonds with equal sides.
   */
  ghost predicate GradedFrom(nodes: Nodes, a: string) {
    forall v, w :: Twins(DependencyGraph(nodes), a, v, w) && HasDependencies(nodes, v[|v| - 1]) ==> |v| == |w|
  }

  /** Every agent is reached from `a` along one walk only: the reachable part is a tree. */
  ghost predicate TreeFrom(nodes: Nodes, a: string) {
    forall v, w :: Twins(DependencyGraph(nodes), a, v, w) ==> v == w
  }

  lemma {:induction false} DepthIsExactWhenGraded(nodes: Nodes, a: string)
    requires GradedFrom(nodes, a)
    ensures var d := DepthTo(nodes, a, {}).0; HasWalk(nodes, a, d) && WalksWithin(nodes, a, d)
  {
    var g, d := DependencyGraph(nodes), DepthTo(nodes, a, {}).0;
    DepthIsLongestFirstPath(nodes, a);
    DepthIsWalk(nodes, a, {});
    AvoidingNone(nodes);
    forall walk | IsWalk(g, walk) && walk[0] == a ensures |walk| <= d + 1 {
      if |walk| > 1 {
        WalkHasDependencies(nodes, walk);
        var b := walk[|walk| - 2];
        FirstPathIsWalk(nodes, a, b, {});
        assert Twins(g, a, walk[..|walk| - 1], FirstPath(nodes, a, b, {}));
      }
    }
  }

  /** In particular when the reachable part is a tree. */
  lemma {:induction false} DepthIsExactOnTrees(nodes: Nodes, a: string)
    requires TreeFrom(nodes, a)
    ensures var d := DepthTo(nodes, a, {}).0; HasWalk(nodes, a, d) && WalksWithin(nodes, a, d)
  {
    forall v, w | Twins(DependencyGraph(nodes), a, v, w) ensures |v| == |w| {
      assert v == w;
    }
    DepthIsExactWhenGraded(nodes, a);
  }
}
