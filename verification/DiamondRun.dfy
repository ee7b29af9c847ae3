// A run of the manager whose graph is the diamond on which the dependency depth falls short.
module DiamondRun {
  import opened AgentGraph
  import opened Cascade

  function Agent(dependencies: seq<string>, dependents: seq<string>): AgentNode {
    AgentNode(Trusted, Healthy, dependencies, dependents)
  }

  /**
   * A new dependency of a known, trusted agent is accepted when neither the fan-out nor the number of agents is too
   * large.
   */
  lemma {:induction false} LinkIsAccepted(c: Config, ops: seq<Op>, nodes: Nodes, from: string, to: string)
    requires Run(c, ops).nodes == nodes && from in nodes && to in nodes && to !in nodes[from].dependencies
    requires nodes[from].trustTier == Trusted && |nodes[from].dependencies| < PolicyForTier(c, Trusted).maxFanout
    requires |nodes| < PolicyForTier(c, Trusted).maxDependencyDepth
    ensures Run(c, ops + [AddLink(from, to)]).nodes == AddEdge(nodes, from, to)
  {
    RunKeeps(c, ops);
    RunSnoc(c, ops, AddLink(from, to));
    DepthIsBounded(nodes, to);
  }

  function NoLinks(): Nodes {
    map["a" := Agent([], []), "b" := Agent([], []), "c" := Agent([], []), "d" := Agent([], [])]
  }

  function OneLink(): Nodes {
    map["a" := Agent(["c"], []), "b" := Agent([], []), "c" := Agent([], ["a"]), "d" := Agent([], [])]
  }

  function TwoLinks(): Nodes {
    map["a" := Agent(["c"], []), "b" := Agent(["c"], []), "c" := Agent([], ["a", "b"]), "d" := Agent([], [])]
  }

  function ThreeLinks(): Nodes {
    map["a" := Agent(["c", "b"], []), "b" := Agent(["c"], ["a"]), "c" := Agent([], ["a", "b"]), "d" := Agent([], [])]
  }

  lemma {:induction false} FourKeys(nodes: Nodes)
    requires nodes.Keys == {"a", "b", "c", "d"}
    ensures |nodes| == 4
  {
    assert |nodes.Keys| == 4;
  }

  /** Trusted agents may have two dependencies, and depth is no obstacle for four agents. */
  predicate RoomForFour(c: Config) {
    PolicyForTier(c, Trusted).maxFanout >= 2 && PolicyForTier(c, Trusted).maxDependencyDepth >= 5
  }

  lemma {:induction false} FirstEdge()
    ensures AddEdge(NoLinks(), "a", "c") == OneLink()
  {
    assert [] + ["c"] == ["c"] && [] + ["a"] == ["a"];
  }

  lemma {:induction false} FirstLink(c: Config, ops: seq<Op>)
    requires RoomForFour(c) && Run(c, ops).nodes == NoLinks()
    ensures Run(c, ops + [AddLink("a", "c")]).nodes == OneLink()
  {
    FourKeys(NoLinks());
    LinkIsAccepted(c, ops, NoLinks(), "a", "c");
    FirstEdge();
  }

  lemma {:induction false} SecondEdge()
    ensures AddEdge(OneLink(), "b", "c") == TwoLinks()
  {
    assert [] + ["c"] == ["c"] && ["a"] + ["b"] == ["a", "b"];
  }

  lemma {:induction false} SecondLink(c: Config, ops: seq<Op>)
    requires RoomForFour(c) && Run(c, ops).nodes == OneLink()
    ensures Run(c, ops + [AddLink("b", "c")]).nodes == TwoLinks()
  {
    FourKeys(OneLink());
    LinkIsAccepted(c, ops, OneLink(), "b", "c");
    SecondEdge();
  }

  lemma {:induction false} ThirdEdge()
    ensures AddEdge(TwoLinks(), "a", "b") == ThreeLinks()
  {
    assert ["c"] + ["b"] == ["c", "b"] && [] + ["a"] == ["a"];
  }

  lemma {:induction false} ThirdLink(c: Config, ops: seq<Op>)
    requires RoomForFour(c) && Run(c, ops).nodes == TwoLinks()
    ensures Run(c, ops + [AddLink("a", "b")]).nodes == ThreeLinks()
  {
    FourKeys(TwoLinks());
    LinkIsAccepted(c, ops, TwoLinks(), "a", "b");
    ThirdEdge();
  }

  lemma {:induction false} FourthEdge()
    ensures AddEdge(ThreeLinks(), "c", "d") == Diamond()
  {
    assert [] + ["d"] == ["d"] && [] + ["c"] == ["c"];
  }

  lemma {:induction false} FourthLink(c: Config, ops: seq<Op>)
    requires RoomForFour(c) && Run(c, ops).nodes == ThreeLinks()
    ensures Run(c, ops + [AddLink("c", "d")]).nodes == Diamond()
  {
    FourKeys(ThreeLinks());
    LinkIsAccepted(c, ops, ThreeLinks(), "c", "d");
    FourthEdge();
  }

  function FourAgents(): seq<Op> {
    [RegisterAgent("a", Trusted)] + [RegisterAgent("b", Trusted)] + [RegisterAgent("c", Trusted)]
      + [RegisterAgent("d", Trusted)]
  }

  lemma {:induction false} FourAgentsRegistered(c: Config)
    ensures Run(c, FourAgents()).nodes == NoLinks()
  {
    assert [] + [RegisterAgent("a", Trusted)] == [RegisterAgent("a", Trusted)];
    RunSnoc(c, [], RegisterAgent("a", Trusted));
    RunSnoc(c, [RegisterAgent("a", Trusted)], RegisterAgent("b", Trusted));
    RunSnoc(c, [RegisterAgent("a", Trusted)] + [RegisterAgent("b", Trusted)], RegisterAgent("c", Trusted));
    RunSnoc(c, [RegisterAgent("a", Trusted)] + [RegisterAgent("b", Trusted)] + [RegisterAgent("c", Trusted)],
            RegisterAgent("d", Trusted));
  }

  /**
   * The diamond on which the depth falls short is the graph of a run, under the default policy for trusted agents too.
   */
  lemma {:induction false} DiamondIsReached(c: Config)
    requires RoomForFour(c)
    ensures Run(c, FourAgents() + [AddLink("a", "c")] + [AddLink("b", "c")]
                   + [AddLink("a", "b")] + [AddLink("c", "d")]).nodes
         == Diamond()
  {
    FourAgentsRegistered(c);
    FirstLink(c, FourAgents());
    SecondLink(c, FourAgents() + [AddLink("a", "c")]);
    ThirdLink(c, FourAgents() + [AddLink("a", "c")] + [AddLink("b", "c")]);
    FourthLink(c, FourAgents() + [AddLink("a", "c")] + [AddLink("b", "c")] + [AddLink("a", "b")]);
  }
}
