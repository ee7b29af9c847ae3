// Conflict resolution between the rules that match one request.
module Conflicts {
  import opened Options

  datatype Action = Allow | Deny | Warn | RequireApproval | Log

  datatype Scope = Global | Tenant | Organization | Agent

  datatype Strategy = DenyOverrides | AllowOverrides | PriorityFirstMatch | MostSpecificWins

  datatype Candidate = Candidate(action: Action, priority: int, scope: Scope, policyName: string, ruleName: string)

  datatype Resolution = Resolution(winner: Candidate, candidatesEvaluated: nat, conflictDetected: bool)

  datatype ResolutionError = NoCandidates

  function Specificity(scope: Scope): nat {
    match scope
    case Global => 0
    case Tenant => 1
    case Organization => 2
    case Agent => 3
  }

  /** The comparison that a strategy sorts by. */
  predicate Beats(strategy: Strategy, a: Candidate, b: Candidate) {
    if strategy.MostSpecificWins? && a.scope != b.scope then Specificity(a.scope) > Specificity(b.scope)
    else a.priority > b.priority
  }

  // ---------------------------------------------------------------- sorting

  /** A candidate goes before those that do not beat it. */
  function SortedInsert(strategy: Strategy, c: Candidate, cs: seq<Candidate>): (r: seq<Candidate>)
    ensures |r| == |cs| + 1
  {
    if cs == [] || !Beats(strategy, cs[0], c) then [c] + cs else [cs[0]] + SortedInsert(strategy, c, cs[1..])
  }

  /** The stable sort of the standard library, in descending order. */
  function StableSort(strategy: Strategy, cs: seq<Candidate>): (r: seq<Candidate>)
    ensures |r| == |cs|
  {
    if cs == [] then [] else SortedInsert(strategy, cs[0], StableSort(strategy, cs[1..]))
  }

  predicate InOrder(strategy: Strategy, cs: seq<Candidate>) {
    forall i, j :: 0 <= i < j < |cs| ==> !Beats(strategy, cs[j], cs[i])
  }

  predicate Tied(strategy: Strategy, a: Candidate, b: Candidate) {
    !Beats(strategy, a, b) && !Beats(strategy, b, a)
  }

  /** The candidates that tie with `x`, in the order in which they come. */
  function TiedWith(strategy: Strategy, x: Candidate, cs: seq<Candidate>): seq<Candidate> {
    if cs == [] then []
    else (if Tied(strategy, cs[0], x) then [cs[0]] else []) + TiedWith(strategy, x, cs[1..])
  }

  lemma {:induction false} InsertIsPermutation(strategy: Strategy, c: Candidate, cs: seq<Candidate>)
    ensures multiset(SortedInsert(strategy, c, cs)) == multiset{c} + multiset(cs)
  {
    if cs != [] && Beats(strategy, cs[0], c) {
      InsertIsPermutation(strategy, c, cs[1..]);
      assert cs == [cs[0]] + cs[1..];
    }
  }

  /** Nothing in the list beats `top`. */
  predicate NoneBeats(strategy: Strategy, cs: seq<Candidate>, top: Candidate) {
    forall k :: 0 <= k < |cs| ==> !Beats(strategy, cs[k], top)
  }

  lemma {:induction false} InsertStaysBelow(strategy: Strategy, c: Candidate, cs: seq<Candidate>, top: Candidate)
    requires !Beats(strategy, c, top) && NoneBeats(strategy, cs, top)
    ensures NoneBeats(strategy, SortedInsert(strategy, c, cs), top)
  {
    if cs != [] && Beats(strategy, cs[0], c) {
      InsertStaysBelow(strategy, c, cs[1..], top);
    }
  }

  lemma {:induction false} ConsInOrder(strategy: Strategy, top: Candidate, cs: seq<Candidate>)
    requires NoneBeats(strategy, cs, top) && InOrder(strategy, cs)
    ensures InOrder(strategy, [top] + cs)
  {
  }

  lemma {:induction false} BelowAll(strategy: Strategy, c: Candidate, cs: seq<Candidate>)
    requires InOrder(strategy, cs) && (cs != [] ==> !Beats(strategy, cs[0], c))
    ensures NoneBeats(strategy, cs, c)
  {
    forall k | 0 <= k < |cs| ensures !Beats(strategy, cs[k], c) {
      assert k > 0 ==> !Beats(strategy, cs[k], cs[0]);
    }
  }

  lemma {:induction false} InsertIsOrdered(strategy: Strategy, c: Candidate, cs: seq<Candidate>)
    requires InOrder(strategy, cs)
    ensures InOrder(strategy, SortedInsert(strategy, c, cs))
  {
    if cs == [] || !Beats(strategy, cs[0], c) {
      BelowAll(strategy, c, cs);
      ConsInOrder(strategy, c, cs);
    } else {
      InsertIsOrdered(strategy, c, cs[1..]);
      InsertStaysBelow(strategy, c, cs[1..], cs[0]);
      ConsInOrder(strategy, cs[0], SortedInsert(strategy, c, cs[1..]));
    }
  }

  lemma {:induction false} TiedCons(strategy: Strategy, x: Candidate, c: Candidate, cs: seq<Candidate>)
    ensures TiedWith(strategy, x, [c] + cs) == (if Tied(strategy, c, x) then [c] else []) + TiedWith(strategy, x, cs)
  {
    assert ([c] + cs)[1..] == cs;
  }

  lemma {:induction false} InsertKeepsTies(strategy: Strategy, c: Candidate, cs: seq<Candidate>, x: Candidate)
    ensures TiedWith(strategy, x, SortedInsert(strategy, c, cs))
         == (if Tied(strategy, c, x) then [c] else []) + TiedWith(strategy, x, cs)
  {
    if cs == [] || !Beats(strategy, cs[0], c) {
      TiedCons(strategy, x, c, cs);
    } else {
      InsertKeepsTies(strategy, c, cs[1..], x);
      TiedCons(strategy, x, cs[0], SortedInsert(strategy, c, cs[1..]));
    }
  }

  /** The model of the sort is a stable sort: a permutation, in order, that leaves ties as they came. */
  lemma {:induction false} SortIsStable(strategy: Strategy, cs: seq<Candidate>, x: Candidate)
    ensures multiset(StableSort(strategy, cs)) == multiset(cs)
    ensures InOrder(strategy, StableSort(strategy, cs))
    ensures TiedWith(strategy, x, StableSort(strategy, cs)) == TiedWith(strategy, x, cs)
  {
    if cs != [] {
      var rest := StableSort(strategy, cs[1..]);
      SortIsStable(strategy, cs[1..], x);
      InsertIsPermutation(strategy, cs[0], rest);
      InsertIsOrdered(strategy, cs[0], rest);
      InsertKeepsTies(strategy, cs[0], rest, x);
      assert cs == [cs[0]] + cs[1..];
    }
  }

  // ---------------------------------------------------------------- the strategies

  predicate Passes(filter: Option<Action>, c: Candidate) {
    filter.None? || c.action == filter.value
  }

  function Kept(filter: Option<Action>, cs: seq<Candidate>): seq<Candidate> {
    if cs == [] then [] else (if Passes(filter, cs[0]) then [cs[0]] else []) + Kept(filter, cs[1..])
  }

  /** The action that overrides the others under a strategy, when some candidate has it. */
  function Overriding(strategy: Strategy, cs: seq<Candidate>): Option<Action> {
    match strategy
    case DenyOverrides => if Kept(Some(Deny), cs) != [] then Some(Deny) else None
    case AllowOverrides => if Kept(Some(Allow), cs) != [] then Some(Allow) else None
    case _ => None
  }

  function Winner(strategy: Strategy, cs: seq<Candidate>): Candidate
    requires cs != []
  {
    KeptIsEmpty(Overriding(strategy, cs), cs);
    KeptIsEmpty(Some(Deny), cs);
    KeptIsEmpty(Some(Allow), cs);
    StableSort(strategy, Kept(Overriding(strategy, cs), cs))[0]
  }

  predicate HasAction(cs: seq<Candidate>, action: Action) {
    exists i :: 0 <= i < |cs| && cs[i].action == action
  }

  lemma {:induction false} KeptIsEmpty(filter: Option<Action>, cs: seq<Candidate>)
    ensures Kept(filter, cs) == [] <==> forall i :: 0 <= i < |cs| ==> !Passes(filter, cs[i])
  {
    if cs != [] {
      KeptIsEmpty(filter, cs[1..]);
      assert forall i :: 0 < i < |cs| ==> cs[i] == cs[1..][i - 1];
    }
  }

  class ConflictResolver {
    const strategy: Strategy

    constructor (strategy: Strategy)
      ensures this.strategy == strategy
    {
      this.strategy := strategy;
    }

    /** A single candidate wins unopposed; otherwise a conflict is an allow beside a deny. */
    method Resolve(candidates: seq<Candidate>) returns (r: Result<Resolution, ResolutionError>)
      ensures r.Err? <==> candidates == []
      ensures r.Ok? ==> r.value == Resolution(Winner(strategy, candidates), |candidates|,
                                              HasAction(candidates, Allow) && HasAction(candidates, Deny))
    {
      if |candidates| == 0 {
        return Err(NoCandidates);
      }
      if |candidates| == 1 {
        ghost var i := WinnerIsFirstMaximal(strategy, candidates);
        return Ok(Resolution(candidates[0], 1, false));
      }
      var allows, denies := Kept(Some(Allow), candidates), Kept(Some(Deny), candidates);
      KeptIsEmpty(Some(Allow), candidates);
      KeptIsEmpty(Some(Deny), candidates);
      var pool := candidates;
      KeptAll(candidates);
      if strategy.DenyOverrides? && |denies| > 0 {
        pool := denies;
      } else if strategy.AllowOverrides? && |allows| > 0 {
        pool := allows;
      }
      r := Ok(Resolution(StableSort(strategy, pool)[0], |candidates|, |allows| > 0 && |denies| > 0));
    }
  }

  lemma {:induction false} KeptAll(cs: seq<Candidate>)
    ensures Kept(None, cs) == cs
  {
    if cs != [] {
      KeptAll(cs[1..]);
    }
  }

  // ---------------------------------------------------------------- who wins

  /** No eligible candidate beats the one at `i`, and it beats every eligible one before it. */
  predicate FirstMaximal(strategy: Strategy, filter: Option<Action>, cs: seq<Candidate>, i: nat) {
    && i < |cs| && Passes(filter, cs[i])
    && (forall j :: 0 <= j < |cs| && Passes(filter, cs[j]) ==> !Beats(strategy, cs[j], cs[i]))
    && (forall j :: 0 <= j < i && Passes(filter, cs[j]) ==> Beats(strategy, cs[i], cs[j]))
  }

  lemma {:induction false} HeadIsFirstMaximal(strategy: Strategy, filter: Option<Action>,
                                              cs: seq<Candidate>)
    returns (i: nat)
    requires Kept(filter, cs) != []
    ensures FirstMaximal(strategy, filter, cs, i) && StableSort(strategy, Kept(filter, cs))[0] == cs[i]
  {
    var rest := cs[1..];
    if Kept(filter, rest) == [] {
      KeptIsEmpty(filter, rest);
      i := 0;
      assert Kept(filter, cs) == [cs[0]] && [cs[0]][1..] == [];
      AloneIsFirstMaximal(strategy, filter, cs);
    } else {
      var k := HeadIsFirstMaximal(strategy, filter, rest);
      i := if Passes(filter, cs[0]) && !Beats(strategy, rest[k], cs[0]) then 0 else k + 1;
      ConsFirstMaximal(strategy, filter, cs, k);
      if Passes(filter, cs[0]) {
        assert ([cs[0]] + Kept(filter, rest))[1..] == Kept(filter, rest);
      } else {
        assert [] + Kept(filter, rest) == Kept(filter, rest);
      }
    }
  }

  lemma {:induction false} AloneIsFirstMaximal(strategy: Strategy, filter: Option<Action>, cs: seq<Candidate>)
    requires cs != [] && Passes(filter, cs[0]) && forall j :: 0 <= j < |cs[1..]| ==> !Passes(filter, cs[1..][j])
    ensures FirstMaximal(strategy, filter, cs, 0)
  {
    forall j | 0 < j < |cs| ensures !Passes(filter, cs[j]) {
      assert cs[j] == cs[1..][j - 1];
    }
  }

  lemma {:induction false} ConsFirstMaximal(strategy: Strategy, filter: Option<Action>, cs: seq<Candidate>, k: nat)
    requires cs != [] && FirstMaximal(strategy, filter, cs[1..], k)
    ensures FirstMaximal(strategy, filter, cs,
                         if Passes(filter, cs[0]) && !Beats(strategy, cs[k + 1], cs[0]) then 0 else k + 1)
  {
    forall j | 0 < j < |cs| && Passes(filter, cs[j])
      ensures !Beats(strategy, cs[j], cs[k + 1]) && (j < k + 1 ==> Beats(strategy, cs[k + 1], cs[j]))
    {
      assert cs[j] == cs[1..][j - 1];
    }
  }

  lemma {:induction false} FirstMaximalIsUnique(strategy: Strategy, filter: Option<Action>, cs: seq<Candidate>,
                                                i: nat, j: nat)
    requires FirstMaximal(strategy, filter, cs, i) && FirstMaximal(strategy, filter, cs, j)
    ensures i == j
  {
  }

  /** What a strategy lets compete, said without its code: the overriding action where some candidate has it. */
  predicate Eligible(strategy: Strategy, cs: seq<Candidate>, c: Candidate) {
    match strategy
    case DenyOverrides => HasAction(cs, Deny) ==> c.action == Deny
    case AllowOverrides => HasAction(cs, Allow) ==> c.action == Allow
    case _ => true
  }

  lemma {:induction false} EligibleIsPassing(strategy: Strategy, cs: seq<Candidate>, c: Candidate)
    ensures Eligible(strategy, cs, c) <==> Passes(Overriding(strategy, cs), c)
  {
    KeptIsEmpty(Some(Deny), cs);
    KeptIsEmpty(Some(Allow), cs);
  }

  /** The winner is the first of the strongest eligible candidates, and there is only one such place in the list. */
  lemma {:induction false} WinnerIsFirstMaximal(strategy: Strategy, cs: seq<Candidate>) returns (i: nat)
    requires cs != []
    ensures i < |cs| && cs[i] == Winner(strategy, cs) && Eligible(strategy, cs, cs[i])
    ensures forall j :: 0 <= j < |cs| && Eligible(strategy, cs, cs[j]) ==> !Beats(strategy, cs[j], cs[i])
    ensures forall j :: 0 <= j < i && Eligible(strategy, cs, cs[j]) ==> Beats(strategy, cs[i], cs[j])
    ensures FirstMaximal(strategy, Overriding(strategy, cs), cs, i)
    ensures forall k: nat :: FirstMaximal(strategy, Overriding(strategy, cs), cs, k) ==> k == i
  {
    var filter := Overriding(strategy, cs);
    KeptIsEmpty(filter, cs);
    KeptIsEmpty(Some(Deny), cs);
    KeptIsEmpty(Some(Allow), cs);
    i := HeadIsFirstMaximal(strategy, filter, cs);
    forall c ensures Eligible(strategy, cs, c) <==> Passes(filter, c) {
      EligibleIsPassing(strategy, cs, c);
    }
  }

  // ---------------------------------------------------------------- one more deny

  predicate IsInsertion(cs: seq<Candidate>, more: seq<Candidate>, at: nat, d: Candidate) {
    && at <= |cs| && |more| == |cs| + 1 && more[at] == d
    && (forall j :: 0 <= j < at ==> more[j] == cs[j])
    && (forall j {:trigger cs[j]} :: at <= j < |cs| ==> more[j + 1] == cs[j])
  }

  lemma {:induction false} InsertionKeepsFilter(strategy: Strategy, cs: seq<Candidate>, more: seq<Candidate>, at: nat,
                                                d: Candidate)
    requires IsInsertion(cs, more, at, d) && d.action == Deny
    ensures HasAction(more, Allow) <==> HasAction(cs, Allow)
    ensures HasAction(cs, Deny) ==> HasAction(more, Deny)
  {
    if HasAction(more, Allow) {
      var j :| 0 <= j < |more| && more[j].action == Allow;
      assert cs[if j < at then j else j - 1].action == Allow;
    }
    if HasAction(cs, Allow) {
      var j :| 0 <= j < |cs| && cs[j].action == Allow;
      assert more[if j < at then j else j + 1].action == Allow;
    }
    if HasAction(cs, Deny) {
      var j :| 0 <= j < |cs| && cs[j].action == Deny;
      assert more[if j < at then j else j + 1].action == Deny;
    }
  }

  /** Under every strategy, one more denying candidate either wins itself or changes nothing. */
  lemma {:induction false} OneMoreDeny(strategy: Strategy, cs: seq<Candidate>, more: seq<Candidate>, at: nat,
                                       d: Candidate)
    requires IsInsertion(cs, more, at, d) && d.action == Deny
    ensures Winner(strategy, more) == d || (cs != [] && Winner(strategy, more) == Winner(strategy, cs))
  {
    var i := WinnerIsFirstMaximal(strategy, more);
    if i != at {
      var k := if i < at then i else i - 1;
      assert cs[k] == more[i];
      InsertionKeepsFilter(strategy, cs, more, at, d);
      SameFilter(strategy, cs, more, k);
      assert Overriding(strategy, cs) == Overriding(strategy, more);
      StaysFirstMaximal(strategy, Overriding(strategy, cs), cs, more, at, d, i);
      var w := WinnerIsFirstMaximal(strategy, cs);
      FirstMaximalIsUnique(strategy, Overriding(strategy, cs), cs, k, w);
    }
  }

  lemma {:induction false} SameFilter(strategy: Strategy, cs: seq<Candidate>, more: seq<Candidate>, k: nat)
    requires k < |cs| && Passes(Overriding(strategy, more), cs[k])
    requires HasAction(more, Allow) <==> HasAction(cs, Allow)
    requires HasAction(cs, Deny) ==> HasAction(more, Deny)
    ensures Overriding(strategy, cs) == Overriding(strategy, more)
  {
    KeptIsEmpty(Some(Deny), cs);
    KeptIsEmpty(Some(Allow), cs);
    KeptIsEmpty(Some(Deny), more);
    KeptIsEmpty(Some(Allow), more);
  }

  lemma {:induction false} StaysFirstMaximal(strategy: Strategy, filter: Option<Action>, cs: seq<Candidate>,
                                             more: seq<Candidate>,
                                             at: nat, d: Candidate, i: nat)
    requires IsInsertion(cs, more, at, d) && FirstMaximal(strategy, filter, more, i) && i != at
    ensures FirstMaximal(strategy, filter, cs, if i < at then i else i - 1)
  {
    var k := if i < at then i else i - 1;
    assert cs[k] == more[i];
    forall j | 0 <= j < |cs| && Passes(filter, cs[j])
      ensures !Beats(strategy, cs[j], cs[k]) && (j < k ==> Beats(strategy, cs[k], cs[j]))
    {
      var m := if j < at then j else j + 1;
      assert more[m] == cs[j];
    }
  }

  /** Under deny-overrides a denying candidate is never outvoted. */
  lemma {:induction false} DenyOverridesAll(cs: seq<Candidate>)
    requires HasAction(cs, Deny)
    ensures Winner(DenyOverrides, cs).action == Deny
  {
    var i := WinnerIsFirstMaximal(DenyOverrides, cs);
  }

  // ---------------------------------------------------------------- the strategies, one by one

  /** An agent's policy before an organization's, that before a tenant's, and that before a global one. */
  predicate MoreSpecific(a: Scope, b: Scope) {
    match a
    case Agent => b != Agent
    case Organization => b == Tenant || b == Global
    case Tenant => b == Global
    case Global => false
  }

  /** The candidate at `i` has the highest priority of those that the filter lets through, and is the first of them. */
  predicate FirstHighest(cs: seq<Candidate>, only: Option<Action>, i: nat) {
    && i < |cs| && (only.Some? ==> cs[i].action == only.value)
    && (forall j :: 0 <= j < |cs| && (only.Some? ==> cs[j].action == only.value) ==> cs[j].priority <= cs[i].priority)
    && (forall j :: 0 <= j < i && (only.Some? ==> cs[j].action == only.value) ==> cs[j].priority < cs[i].priority)
  }

  /** The candidate at `i` is the first of highest priority among those of the most specific scope. */
  predicate FirstMostSpecific(cs: seq<Candidate>, i: nat) {
    && i < |cs|
    && (forall j :: 0 <= j < |cs| ==>
          !MoreSpecific(cs[j].scope, cs[i].scope)
          && (cs[j].scope == cs[i].scope ==> cs[j].priority <= cs[i].priority))
    && (forall j :: 0 <= j < i && cs[j].scope == cs[i].scope ==> cs[j].priority < cs[i].priority)
  }

  lemma {:induction false} BeatsWhen(a: Candidate, b: Candidate)
    ensures forall strategy :: strategy != MostSpecificWins ==> (Beats(strategy, a, b) <==> a.priority > b.priority)
    ensures Beats(MostSpecificWins, a, b) <==>
              MoreSpecific(a.scope, b.scope) || (a.scope == b.scope && a.priority > b.priority)
  {
  }

  /**
   * Who wins: under deny-overrides the first denial of highest priority, if there is a denial; under allow-overrides
   * the first such permission; and otherwise, as under priority-first-match, the first candidate of highest priority.
   * Under most-specific-wins the scope goes before the priority.
   */
  lemma {:induction false} WinnerByStrategy(strategy: Strategy, cs: seq<Candidate>) returns (i: nat)
    requires cs != []
    ensures i < |cs| && cs[i] == Winner(strategy, cs)
    ensures match strategy
            case DenyOverrides =>
              FirstHighest(cs, if exists j :: 0 <= j < |cs| && cs[j].action == Deny then Some(Deny) else None, i)
            case AllowOverrides =>
              FirstHighest(cs, if exists j :: 0 <= j < |cs| && cs[j].action == Allow then Some(Allow) else None, i)
            case PriorityFirstMatch => FirstHighest(cs, None, i)
            case MostSpecificWins => FirstMostSpecific(cs, i)
  {
    i := WinnerIsFirstMaximal(strategy, cs);
    forall j | 0 <= j < |cs|
      ensures strategy != MostSpecificWins ==>
                (Beats(strategy, cs[j], cs[i]) <==> cs[j].priority > cs[i].priority)
                && (Beats(strategy, cs[i], cs[j]) <==> cs[i].priority > cs[j].priority)
    {
      BeatsWhen(cs[j], cs[i]);
      BeatsWhen(cs[i], cs[j]);
    }
    forall j | 0 <= j < |cs|
      ensures Beats(MostSpecificWins, cs[j], cs[i]) <==>
                || MoreSpecific(cs[j].scope, cs[i].scope)
                || (cs[j].scope == cs[i].scope && cs[j].priority > cs[i].priority)
      ensures Beats(MostSpecificWins, cs[i], cs[j]) <==>
                || MoreSpecific(cs[i].scope, cs[j].scope)
                || (cs[j].scope == cs[i].scope && cs[i].priority > cs[j].priority)
    {
      BeatsWhen(cs[j], cs[i]);
      BeatsWhen(cs[i], cs[j]);
    }
    EligibleIsPassing(strategy, cs, cs[i]);
    assert HasAction(cs, Deny) <==> exists j :: 0 <= j < |cs| && cs[j].action == Deny;
    assert HasAction(cs, Allow) <==> exists j :: 0 <= j < |cs| && cs[j].action == Allow;
  }
}
