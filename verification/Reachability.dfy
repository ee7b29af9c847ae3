// Walks in finite directed graphs, possibly cyclic: what the recursive traversals of the repository
// are specified by.
module Reachability {

  /** Every node with its successors. */
  type Graph = map<string, set<string>>

  predicate Edge(g: Graph, a: string, b: string) {
    a in g && b in g[a]
  }

  /** A walk: at least one node, each one a successor of the one before it. */
  predicate IsWalk(g: Graph, walk: seq<string>) {
    |walk| >= 1 && forall i: nat :: i < |walk| - 1 ==> StepAt(g, walk, i)
  }

  predicate StepAt(g: Graph, walk: seq<string>, i: nat)
    requires i + 1 < |walk|
  {
    Edge(g, walk[i], walk[i + 1])
  }

  ghost predicate WalkFrom(g: Graph, a: string, b: string, walk: seq<string>) {
    IsWalk(g, walk) && walk[0] == a && walk[|walk| - 1] == b
  }

  ghost predicate Reaches(g: Graph, a: string, b: string) {
    exists walk :: WalkFrom(g, a, b, walk)
  }

  /** No edge leaves the set. */
  ghost predicate Closed(g: Graph, s: set<string>) {
    forall a, b :: a in s && Edge(g, a, b) ==> b in s
  }

  lemma {:induction false} ReachesSelf(g: Graph, a: string)
    ensures Reaches(g, a, a)
  {
    assert WalkFrom(g, a, a, [a]);
  }

  lemma {:induction false} EdgeThenReaches(g: Graph, a: string, b: string, c: string)
    requires Edge(g, a, b) && Reaches(g, b, c)
    ensures Reaches(g, a, c)
  {
    var walk :| WalkFrom(g, b, c, walk);
    WalkCons(g, a, walk);
    assert WalkFrom(g, a, c, [a] + walk);
  }

  lemma {:induction false} WalkCons(g: Graph, a: string, walk: seq<string>)
    requires IsWalk(g, walk) && Edge(g, a, walk[0])
    ensures IsWalk(g, [a] + walk)
  {
    var w := [a] + walk;
    forall i: nat | i < |w| - 1 ensures StepAt(g, w, i) {
      if i > 0 {
        assert StepAt(g, walk, i - 1);
      }
    }
  }

  lemma {:induction false} WalkTail(g: Graph, walk: seq<string>)
    requires IsWalk(g, walk) && |walk| > 1
    ensures IsWalk(g, walk[1..]) && Edge(g, walk[0], walk[1])
  {
    var w := walk[1..];
    assert StepAt(g, walk, 0);
    forall i: nat | i < |w| - 1 ensures StepAt(g, w, i) {
      assert StepAt(g, walk, i + 1);
    }
  }

  /** A walk that starts in a closed set stays in it. */
  lemma {:induction false} WalkStaysInside(g: Graph, s: set<string>, walk: seq<string>)
    requires Closed(g, s) && IsWalk(g, walk) && walk[0] in s
    ensures walk[|walk| - 1] in s
    decreases |walk|
  {
    if |walk| > 1 {
      WalkTail(g, walk);
      WalkStaysInside(g, s, walk[1..]);
    }
  }

  /**
   * A closed set that holds `a` and holds nothing but nodes reachable from `a` is the set of nodes reachable from `a`.
   */
  lemma {:induction false} ClosedIsReachable(g: Graph, a: string, s: set<string>)
    requires Closed(g, s) && a in s && forall b :: b in s ==> Reaches(g, a, b)
    ensures forall b :: b in s <==> Reaches(g, a, b)
  {
    forall b | Reaches(g, a, b) ensures b in s {
      var walk :| WalkFrom(g, a, b, walk);
      WalkStaysInside(g, s, walk);
    }
  }

  /** The second graph holds every edge of the first one backwards. */
  ghost predicate Reverses(g: Graph, r: Graph) {
    forall a, b :: Edge(g, a, b) ==> Edge(r, b, a)
  }

  lemma {:induction false} ReverseWalk(g: Graph, r: Graph, walk: seq<string>) returns (back: seq<string>)
    requires Reverses(g, r) && IsWalk(g, walk)
    ensures WalkFrom(r, walk[|walk| - 1], walk[0], back)
    decreases |walk|
  {
    if |walk| == 1 {
      back := walk;
    } else {
      WalkTail(g, walk);
      var tail := ReverseWalk(g, r, walk[1..]);
      back := tail + [walk[0]];
      forall i: nat | i < |back| - 1 ensures StepAt(r, back, i) {
        if i < |tail| - 1 {
          assert StepAt(r, tail, i);
        }
      }
    }
  }

  lemma {:induction false} ReverseReaches(g: Graph, r: Graph, a: string, b: string)
    requires Reverses(g, r) && Reverses(r, g)
    ensures Reaches(g, a, b) <==> Reaches(r, b, a)
  {
    if Reaches(g, a, b) {
      var walk :| WalkFrom(g, a, b, walk);
      var back := ReverseWalk(g, r, walk);
    }
    if Reaches(r, b, a) {
      var walk :| WalkFrom(r, b, a, walk);
      var back := ReverseWalk(r, g, walk);
    }
  }

  /** More edges, more walks. */
  lemma {:induction false} ReachesGrows(g: Graph, h: Graph, a: string, b: string)
    requires (forall x, y :: Edge(g, x, y) ==> Edge(h, x, y)) && Reaches(g, a, b)
    ensures Reaches(h, a, b)
  {
    var walk :| WalkFrom(g, a, b, walk);
    forall i: nat | i < |walk| - 1 ensures StepAt(h, walk, i) {
      assert StepAt(g, walk, i);
    }
    assert WalkFrom(h, a, b, walk);
  }
}
