// Agent identities: capability wildcards, delegation chains, the lifecycle of one identity, and the
// registry's recursive revocation.
module Identity {
  import opened Collections
  import opened Options
  import opened Reachability

  // ---------------------------------------------------------------- capabilities

  /** What one granted capability covers: everything, itself, or everything under a prefix. */
  predicate Grants(granted: string, wanted: string) {
    || granted == "*"
    || granted == wanted
    || (IsPrefixWildcard(granted) && granted[..|granted| - 2] + ":" <= wanted)
  }

  predicate IsPrefixWildcard(granted: string) {
    |granted| >= 2 && granted[|granted| - 2..] == ":*"
  }

  ghost predicate Accepts(capabilities: seq<string>, wanted: string) {
    exists i :: 0 <= i < |capabilities| && Grants(capabilities[i], wanted)
  }

  /** The wildcard's prefix includes its colon. */
  lemma {:induction false} PrefixOf(granted: string)
    requires IsPrefixWildcard(granted)
    ensures granted[..|granted| - 2] + ":" == granted[..|granted| - 1]
    ensures granted[|granted| - 1] == '*'
  {
    assert granted[|granted| - 2..][0] == ':' && granted[|granted| - 2..][1] == '*';
  }

  /**
   * What one grant covers, spelled out: everything for "*"; itself; and, for a grant that ends in ":*", what goes on
   * behind its colon.
   */
  lemma {:induction false} GrantsExactlyWhen(granted: string, wanted: string)
    ensures Grants(granted, wanted) <==>
              || granted == "*" || granted == wanted
              || exists p: string, rest: string :: granted == p + ":*" && wanted == p + ":" + rest
  {
    if IsPrefixWildcard(granted) && granted[..|granted| - 2] + ":" <= wanted {
      var p := granted[..|granted| - 2];
      var rest := wanted[|p| + 1..];
      assert granted == p + ":*" && wanted == p + ":" + rest;
    }
    if p: string, rest: string :| granted == p + ":*" && wanted == p + ":" + rest {
      assert granted[|granted| - 2..] == ":*" && granted[..|granted| - 2] == p;
    }
  }

  /** One of the capabilities held covers the one wanted. */
  ghost predicate IsHeld(capabilities: seq<string>, wanted: string) {
    exists i :: 0 <= i < |capabilities| && Covers(capabilities[i], wanted)
  }

  ghost predicate Covers(held: string, wanted: string) {
    held == "*" || held == wanted || exists p: string, rest: string :: held == p + ":*" && wanted == p + ":" + rest
  }

  lemma {:induction false} AcceptsExactlyWhen(capabilities: seq<string>, wanted: string)
    ensures Accepts(capabilities, wanted) <==> IsHeld(capabilities, wanted)
  {
    forall i | 0 <= i < |capabilities| ensures Grants(capabilities[i], wanted) <==> Covers(capabilities[i], wanted) {
      GrantsExactlyWhen(capabilities[i], wanted);
    }
  }

  lemma {:induction false} AllAcceptExactlyWhen(capabilities: seq<string>, wanted: seq<string>)
    ensures forall i :: 0 <= i < |wanted| ==> (Accepts(capabilities, wanted[i]) <==> IsHeld(capabilities, wanted[i]))
  {
    forall i | 0 <= i < |wanted| ensures Accepts(capabilities, wanted[i]) <==> IsHeld(capabilities, wanted[i]) {
      AcceptsExactlyWhen(capabilities, wanted[i]);
    }
  }

  lemma {:induction false} SamePrefix(p: string, q: string)
    requires p + ":*" == q + ":*"
    ensures p == q
  {
    assert p == (p + ":*")[..|p + ":*"| - 2] && q == (q + ":*")[..|q + ":*"| - 2];
  }

  /** A prefix wildcard alone never covers what neither equals it nor goes on behind its colon. */
  lemma {:induction false} PrefixIsAll(p: string, wanted: string)
    requires wanted != p + ":*" && !(p + ":" <= wanted)
    ensures !Accepts([p + ":*"], wanted)
  {
    var held := p + ":*";
    assert |held| >= 2;
    GrantsExactlyWhen(held, wanted);
    if q: string, rest: string :| held == q + ":*" && wanted == q + ":" + rest {
      SamePrefix(p, q);
    }
  }

  /** A grant covers whatever is covered by anything it covers: a wildcard cannot be widened by delegating it. */
  lemma {:induction false} GrantsIsTransitive(granted: string, middle: string, wanted: string)
    requires Grants(granted, middle) && Grants(middle, wanted)
    ensures Grants(granted, wanted)
  {
    if granted != "*" && granted != middle {
      PrefixOf(granted);
      var outer := granted[..|granted| - 1];
      assert outer <= middle && outer[|outer| - 1] == ':';
      if middle != wanted && middle != "*" {
        PrefixOf(middle);
        assert |outer| != |middle|;
        assert outer <= middle[..|middle| - 1] <= wanted;
      }
    }
  }

  /** A child's capabilities are accepted one by one exactly when the child accepts nothing its parent does not. */
  lemma {:induction false} SubsetIsContainment(parent: seq<string>, child: seq<string>)
    ensures (forall i :: 0 <= i < |child| ==> Accepts(parent, child[i]))
       <==> (forall wanted :: Accepts(child, wanted) ==> Accepts(parent, wanted))
  {
    if forall i :: 0 <= i < |child| ==> Accepts(parent, child[i]) {
      forall wanted | Accepts(child, wanted) ensures Accepts(parent, wanted) {
        var i :| 0 <= i < |child| && Grants(child[i], wanted);
        assert Accepts(parent, child[i]);
        var j :| 0 <= j < |parent| && Grants(parent[j], child[i]);
        GrantsIsTransitive(parent[j], child[i], wanted);
      }
    }
    forall i | 0 <= i < |child| ensures Accepts(child, child[i]) {
      assert Grants(child[i], child[i]);
    }
  }

  // ---------------------------------------------------------------- one identity

  datatype Status = Active | Suspended | Revoked

  datatype StatusOp = Suspend | Revoke | Reactivate

  datatype Refusal = AlreadyRevoked | NotHeld(capability: string) | AlreadyRegistered(did: string)

  /** The status after an operation, refused or not. */
  function After(status: Status, op: StatusOp): Status {
    match op
    case Revoke => Revoked
    case Suspend => if status == Revoked then Revoked else Suspended
    case Reactivate => if status == Revoked then Revoked else Active
  }

  class AgentIdentity {
    const did: string
    const capabilities: seq<string>
    const parentDid: Option<string>
    const delegationDepth: nat
    const expiresAt: Option<int>
    var status: Status

    constructor (did: string, capabilities: seq<string>, parentDid: Option<string>, delegationDepth: nat,
                 expiresAt: Option<int>, status: Status)
      ensures this.did == did && this.capabilities == capabilities && this.parentDid == parentDid
      ensures this.delegationDepth == delegationDepth && this.expiresAt == expiresAt && this.status == status
    {
      this.did, this.capabilities, this.parentDid := did, capabilities, parentDid;
      this.delegationDepth, this.expiresAt, this.status := delegationDepth, expiresAt, status;
    }

    method SuspendIdentity() returns (refusal: Option<Refusal>)
      modifies this`status
      ensures status == (if old(status) == Revoked then Revoked else Suspended) == After(old(status), Suspend)
      ensures refusal == if old(status) == Revoked then Some(AlreadyRevoked) else None
    {
      if status == Revoked {
        return Some(AlreadyRevoked);
      }
      status := Suspended;
      refusal := None;
    }

    method RevokeIdentity()
      modifies this`status
      ensures status == Revoked == After(old(status), Revoke)
    {
      status := Revoked;
    }

    method ReactivateIdentity() returns (refusal: Option<Refusal>)
      modifies this`status
      ensures status == (if old(status) == Revoked then Revoked else Active) == After(old(status), Reactivate)
      ensures refusal == if old(status) == Revoked then Some(AlreadyRevoked) else None
    {
      if status == Revoked {
        return Some(AlreadyRevoked);
      }
      status := Active;
      refusal := None;
    }

    method HasCapability(wanted: string) returns (held: bool)
      ensures held <==> IsHeld(capabilities, wanted)
      ensures held <==> Accepts(capabilities, wanted)
    {
      AcceptsExactlyWhen(capabilities, wanted);
      for i := 0 to |capabilities|
        invariant forall j :: 0 <= j < i ==> !Grants(capabilities[j], wanted)
      {
        var granted := capabilities[i];
        if granted == "*" {
          return true;
        }
        if granted == wanted {
          return true;
        }
        if IsPrefixWildcard(granted) {
          var prefix := granted[..|granted| - 2];
          if prefix + ":" <= wanted {
            return true;
          }
        }
      }
      held := false;
    }

    /**
     * The child accepts nothing this identity does not; a refusal names the first capability that is not held. The
     * status of the delegating identity plays no part, and the child starts active.
     */
    method Delegate(childDid: string, wanted: seq<string>, expiry: Option<int>)
      returns (r: Result<AgentIdentity, Refusal>)
      ensures r.Ok? <==> forall i :: 0 <= i < |wanted| ==> IsHeld(capabilities, wanted[i])
      ensures r.Ok? ==> fresh(r.value) && DelegatedBy(this, r.value) && r.value.status == Active
      ensures r.Ok? ==> r.value.parentDid == Some(did) && r.value.delegationDepth == delegationDepth + 1
      ensures r.Ok? ==> r.value.did == childDid && r.value.capabilities == wanted && r.value.expiresAt == expiry
      ensures r.Err? ==> r.error.NotHeld? && !IsHeld(capabilities, r.error.capability)
      ensures r.Err? ==> exists k :: 0 <= k < |wanted| && wanted[k] == r.error.capability
                                     && forall i :: 0 <= i < k ==> IsHeld(capabilities, wanted[i])
    {
      AllAcceptExactlyWhen(capabilities, wanted);
      for i := 0 to |wanted|
        invariant forall j :: 0 <= j < i ==> Accepts(capabilities, wanted[j])
      {
        var held := HasCapability(wanted[i]);
        if !held {
          return Err(NotHeld(wanted[i]));
        }
      }
      var child := new AgentIdentity(childDid, wanted, Some(did), delegationDepth + 1, expiry, Active);
      r := Ok(child);
    }
  }

  // ---------------------------------------------------------------- delegation chains

  /** What a successful delegation establishes. */
  ghost predicate DelegatedBy(parent: AgentIdentity, child: AgentIdentity) {
    && child.parentDid == Some(parent.did)
    && child.delegationDepth == parent.delegationDepth + 1
    && forall i :: 0 <= i < |child.capabilities| ==> Accepts(parent.capabilities, child.capabilities[i])
  }

  ghost predicate IsChain(chain: seq<AgentIdentity>) {
    forall i :: 0 < i < |chain| ==> DelegatedBy(chain[i - 1], chain[i])
  }

  /** Along any chain of delegations authority never grows, and the recorded depth counts the delegations. */
  lemma {:induction false} AuthorityNeverGrows(chain: seq<AgentIdentity>, i: nat, j: nat, wanted: string)
    requires IsChain(chain) && i <= j < |chain|
    ensures Accepts(chain[j].capabilities, wanted) ==> Accepts(chain[i].capabilities, wanted)
    ensures chain[j].delegationDepth == chain[i].delegationDepth + (j - i)
    decreases j
  {
    if i < j {
      assert DelegatedBy(chain[j - 1], chain[j]);
      SubsetIsContainment(chain[j - 1].capabilities, chain[j].capabilities);
      AuthorityNeverGrows(chain, i, j - 1, wanted);
    }
  }

  // ---------------------------------------------------------------- the registry's members as values

  datatype Member = Member(status: Status, parentDid: Option<string>)

  type Members = map<string, Member>

  /** From every registered identity to the registered ones that name it as their parent. */
  function ChildGraph(members: Members): Graph {
    map a | a in members :: set b | b in members && members[b].parentDid == Some(a)
  }

  /** A registered identity and everything below it through registered children becomes revoked, and nothing else. */
  ghost function RevokedFrom(members: Members, did: string): Members {
    if did !in members then members
    else map d | d in members ::
           if Reaches(ChildGraph(members), did, d) then members[d].(status := Revoked) else members[d]
  }

  datatype RegistryOp =
    | Register(did: string, member: Member)
    | RevokeAll(did: string)
    | ChangeStatus(did: string, op: StatusOp)

  ghost function Step(members: Members, op: RegistryOp): Members {
    match op
    case Register(did, member) => if did in members then members else members[did := member]
    case RevokeAll(did) => RevokedFrom(members, did)
    case ChangeStatus(did, op) =>
      if did in members then members[did := members[did].(status := After(members[did].status, op))] else members
  }

  ghost function Run(members: Members, ops: seq<RegistryOp>): Members {
    if ops == [] then members else Step(Run(members, ops[..|ops| - 1]), ops[|ops| - 1])
  }

  predicate IsRevoked(members: Members, did: string) {
    did in members && members[did].status == Revoked
  }

  lemma {:induction false} StepKeepsRevoked(members: Members, op: RegistryOp, did: string)
    requires IsRevoked(members, did)
    ensures IsRevoked(Step(members, op), did)
  {
  }

  /** Nothing makes a revoked identity active again: not later registrations, revocations or status changes. */
  lemma {:induction false} RevocationIsFinal(members: Members, ops: seq<RegistryOp>, did: string)
    requires IsRevoked(members, did)
    ensures IsRevoked(Run(members, ops), did)
  {
    if ops != [] {
      RevocationIsFinal(members, ops[..|ops| - 1], did);
      StepKeepsRevoked(Run(members, ops[..|ops| - 1]), ops[|ops| - 1], did);
    }
  }

  /** Every link of the chain is registered under the one before it. */
  predicate RegisteredChain(members: Members, chain: seq<string>) {
    && |chain| > 0
    && (forall i :: 0 <= i < |chain| ==> chain[i] in members)
    && forall i :: 0 < i < |chain| ==> members[chain[i]].parentDid == Some(chain[i - 1])
  }

  /** Revoking the head of a registered delegation chain revokes the whole chain, for good. */
  lemma {:induction false} ChainIsRevoked(members: Members, chain: seq<string>, i: nat, ops: seq<RegistryOp>)
    requires RegisteredChain(members, chain) && i < |chain|
    ensures IsRevoked(Run(RevokedFrom(members, chain[0]), ops), chain[i])
  {
    var g, walk := ChildGraph(members), chain[..i + 1];
    forall k: nat | k < |walk| - 1 ensures StepAt(g, walk, k) {
      assert members[chain[k + 1]].parentDid == Some(chain[k]);
    }
    assert WalkFrom(g, chain[0], chain[i], walk);
    RevocationIsFinal(RevokedFrom(members, chain[0]), ops, chain[i]);
  }

  /** Distinct identities, each of which, when registered, names the one before it as its parent. */
  predicate DelegationChain(members: Members, chain: seq<string>) {
    && NoDuplicates(chain)
    && forall i :: 0 < i < |chain| && chain[i] in members ==> members[chain[i]].parentDid == Some(chain[i - 1])
  }

  /** Every link of the chain up to the `i`-th is registered. */
  predicate RegisteredUpTo(members: Members, chain: seq<string>, i: nat)
    requires i < |chain|
  {
    forall j :: 0 <= j <= i ==> chain[j] in members
  }

  lemma {:induction false} WalkComesDownChain(members: Members, chain: seq<string>, i: nat, walk: seq<string>)
    requires DelegationChain(members, chain) && i < |chain| && chain[i] in members && chain[0] in members
    requires WalkFrom(ChildGraph(members), chain[0], chain[i], walk)
    ensures RegisteredUpTo(members, chain, i)
    decreases i
  {
    var g, n := ChildGraph(members), |walk| - 1;
    if i > 0 {
      assert chain[0] != chain[i];
      assert StepAt(g, walk, n - 1);
      assert walk[n - 1] == chain[i - 1];
      var before := walk[..n];
      forall k: nat | k < |before| - 1 ensures StepAt(g, before, k) {
        assert StepAt(g, walk, k);
      }
      WalkComesDownChain(members, chain, i - 1, before);
    }
  }

  /**
   * In a delegation chain of distinct identities, revoking the head reaches a registered link if and only if every link
   * up to it is registered: an identity that never was cuts off everything below it.
   */
  lemma {:induction false} GapStopsRevocation(members: Members, chain: seq<string>, i: nat)
    requires DelegationChain(members, chain) && i < |chain| && chain[i] in members
      && members[chain[i]].status != Revoked
    ensures IsRevoked(RevokedFrom(members, chain[0]), chain[i]) <==> RegisteredUpTo(members, chain, i)
  {
    if RegisteredUpTo(members, chain, i) {
      ChainIsRevoked(members, chain[..i + 1], i, []);
      assert Run(RevokedFrom(members, chain[0]), []) == RevokedFrom(members, chain[0]);
    }
    if chain[0] in members && Reaches(ChildGraph(members), chain[0], chain[i]) {
      var walk :| WalkFrom(ChildGraph(members), chain[0], chain[i], walk);
      WalkComesDownChain(members, chain, i, walk);
    }
  }

  // ---------------------------------------------------------------- the registry

  class IdentityRegistry {
    var identities: map<string, AgentIdentity>
    var order: seq<string>

    /** Every identity is filed under its own identifier, and the order lists the identifiers. */
    ghost predicate Valid()
      reads this
    {
      && (forall d :: d in identities ==> identities[d].did == d)
      && (forall d :: d in identities <==> d in order)
    }

    ghost function Objects(): set<AgentIdentity>
      reads this
    {
      set d | d in identities :: identities[d]
    }

    ghost function Members(): Members
      reads this, Objects()
    {
      map d | d in identities :: Member(identities[d].status, identities[d].parentDid)
    }

    constructor ()
      ensures Valid() && identities == map[] && Members() == map[]
    {
      identities, order := map[], [];
    }

    method RegisterIdentity(identity: AgentIdentity) returns (refusal: Option<Refusal>)
      requires Valid()
      modifies this
      ensures Valid()
      ensures refusal == if identity.did in old(identities) then Some(AlreadyRegistered(identity.did)) else None
      ensures identities == if refusal.None? then old(identities)[identity.did := identity] else old(identities)
      ensures Members() == Step(old(Members()), Register(identity.did, Member(identity.status, identity.parentDid)))
    {
      if identity.did in identities {
        return Some(AlreadyRegistered(identity.did));
      }
      identities := identities[identity.did := identity];
      order := order + [identity.did];
      refusal := None;
    }

    /** The graph's edges are the links between registered identities, which never change. */
    ghost predicate LinkedBy(g: Graph)
      reads this
    {
      forall a, b {:trigger Edge(g, a, b)} ::
        Edge(g, a, b) <==> a in identities && b in identities && identities[b].parentDid == Some(a)
    }

    /** Terminates on every parent relation, cyclic ones included. */
    method RevokeWithDelegates(did: string) returns (known: bool)
      requires Valid()
      modifies Objects()
      ensures known <==> did in identities
      ensures Members() == Step(old(Members()), RevokeAll(did))
    {
      ghost var before := Members();
      ghost var g := ChildGraph(before);
      var seen;
      known, seen := RevokeRecursive(did, {}, g);
      MarkedIsRevoked(before, Members(), did, seen);
    }

    method RevokeRecursive(did: string, visited: set<string>, ghost g: Graph) returns (known: bool, seen: set<string>)
      requires Valid() && LinkedBy(g)
      modifies Objects()
      ensures known <==> did !in visited && did in identities
      ensures Explored(g, identities.Keys, did, visited, seen)
      ensures Marked(old(Members()), Members(), visited, seen)
      decreases identities.Keys - visited, 0
    {
      if did in visited {
        return false, visited;
      }
      seen := visited + {did};
      ReachesSelf(g, did);
      if did !in identities {
        return false, seen;
      }
      ghost var before := Members();
      identities[did].RevokeIdentity();
      ghost var mid := Members();
      assert Marked(before, mid, visited, seen);
      seen := RevokeChildren(did, visited, g);
      MarkedFurther(before, mid, Members(), visited, visited + {did}, seen);
      known := true;
    }

    /** Every registered identity is asked for its parent, in the order of registration. */
    method RevokeChildren(did: string, visited: set<string>, ghost g: Graph) returns (seen: set<string>)
      requires Valid() && LinkedBy(g) && did in identities && did !in visited
      modifies Objects()
      ensures Explored(g, identities.Keys, did, visited, seen)
      ensures Marked(old(Members()), Members(), visited + {did}, seen)
      decreases identities.Keys - visited - {did}, 1
    {
      seen := visited + {did};
      ReachesSelf(g, did);
      ghost var before := Members();
      var table, dids := identities, order;
      for i := 0 to |dids|
        invariant Exploring(g, identities.Keys, did, visited, seen)
        invariant forall k :: 0 <= k < i && table[dids[k]].parentDid == Some(did) ==> dids[k] in seen
        invariant Marked(before, Members(), visited + {did}, seen)
      {
        var childDid := dids[i];
        if table[childDid].parentDid == Some(did) {
          ghost var soFar, mid := seen, Members();
          var childKnown;
          childKnown, seen := RevokeRecursive(childDid, seen, g);
          MarkedFurther(before, mid, Members(), visited + {did}, soFar, seen);
          ExploredFurther(g, identities.Keys, did, childDid, visited, soFar, seen);
        }
      }
      forall b | Edge(g, did, b) ensures b in seen {
        var k :| 0 <= k < |dids| && dids[k] == b;
      }
    }
  }

  /** The identities newly seen are revoked; every other one is as before. */
  ghost predicate Marked(before: Members, after: Members, visited: set<string>, seen: set<string>) {
    && before.Keys == after.Keys
    && forall d :: d in before ==>
         after[d] == if d in seen && d !in visited then before[d].(status := Revoked) else before[d]
  }

  lemma {:induction false} MarkedFurther(before: Members, mid: Members, after: Members, visited: set<string>,
                                         soFar: set<string>, seen: set<string>)
    requires Marked(before, mid, visited, soFar) && Marked(mid, after, soFar, seen) && visited <= soFar <= seen
    ensures Marked(before, after, visited, seen)
  {
  }

  lemma {:induction false} MarkedIsRevoked(before: Members, after: Members, did: string, seen: set<string>)
    requires Marked(before, after, {}, seen) && Explored(ChildGraph(before), before.Keys, did, {}, seen)
    ensures after == RevokedFrom(before, did)
  {
    var g := ChildGraph(before);
    if did in before {
      ClosedIsReachable(g, did, seen);
      forall d | d in before ensures RevokedFrom(before, did)[d] == after[d] {
      }
    } else {
      forall d | d in before ensures d !in seen {
        if d in seen {
          var walk :| WalkFrom(g, did, d, walk);
          WalkStaysInside(g, {did}, walk);
        }
      }
      forall d | d in before ensures before[d] == after[d] {
      }
    }
  }

  /** What was newly seen hangs below the node, and only the node itself may still have unseen children. */
  ghost predicate Exploring(g: Graph, all: set<string>, a: string, visited: set<string>, seen: set<string>) {
    && visited + {a} <= seen
    && (forall b :: b in seen && b !in visited ==> (b == a || b in all) && Reaches(g, a, b))
    && (forall b, c :: b in seen && b !in visited && b != a && Edge(g, b, c) ==> c in seen)
  }

  /** What was newly seen hangs below the node, and all its children have been seen. */
  ghost predicate Explored(g: Graph, all: set<string>, a: string, visited: set<string>, seen: set<string>) {
    && visited + {a} <= seen
    && (forall b :: b in seen && b !in visited ==> (b == a || b in all) && Reaches(g, a, b))
    && (forall b, c :: b in seen && b !in visited && Edge(g, b, c) ==> c in seen)
  }

  lemma {:induction false} ExploredFurther(g: Graph, all: set<string>, a: string, child: string,
                        visited: set<string>, soFar: set<string>, seen: set<string>)
    requires Exploring(g, all, a, visited, soFar) && Explored(g, all, child, soFar, seen)
    requires Edge(g, a, child) && child in all
    ensures soFar + {child} <= seen && Exploring(g, all, a, visited, seen)
  {
    forall b | b in seen && b !in soFar ensures Reaches(g, a, b) {
      EdgeThenReaches(g, a, child, b);
    }
  }

  /** Who goes with a revoked identity: the registered ones below it, along registered children, itself included. */
  predicate IsLineOfDescent(members: Members, line: seq<string>, a: string, b: string) {
    && |line| >= 1 && line[0] == a && line[|line| - 1] == b
    && forall i :: 0 <= i < |line| - 1 ==> IsChildAt(members, line, i)
  }

  predicate IsChildAt(members: Members, line: seq<string>, i: nat)
    requires i + 1 < |line|
  {
    line[i] in members && line[i + 1] in members && members[line[i + 1]].parentDid == Some(line[i])
  }

  lemma {:induction false} RevokedWith(members: Members, did: string, d: string)
    requires did in members && d in members
    ensures RevokedFrom(members, did).Keys == members.Keys
    ensures (exists line :: IsLineOfDescent(members, line, did, d)) ==>
              RevokedFrom(members, did)[d] == Member(Revoked, members[d].parentDid)
    ensures !(exists line :: IsLineOfDescent(members, line, did, d)) ==> RevokedFrom(members, did)[d] == members[d]
  {
    var g := ChildGraph(members);
    if line :| IsLineOfDescent(members, line, did, d) {
      forall i: nat | i < |line| - 1 ensures StepAt(g, line, i) {
        assert IsChildAt(members, line, i);
      }
      assert WalkFrom(g, did, d, line);
    }
    if Reaches(g, did, d) {
      var line :| WalkFrom(g, did, d, line);
      forall i | 0 <= i < |line| - 1 ensures IsChildAt(members, line, i) {
        assert StepAt(g, line, i);
      }
      assert IsLineOfDescent(members, line, did, d);
    }
  }
}
