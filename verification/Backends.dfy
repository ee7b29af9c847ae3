// Combining the engine's own decision with the verdicts of external policy backends.
module Backends {
  import opened Collections
  import C = Conflicts
  import P = PolicyEngine

  datatype Verdict = Allow | Review | Deny

  /** A backend's outcome; an empty error stands for none. */
  datatype Outcome = Outcome(backend: string, decision: Verdict, error: string)

  /**
   * What a backend may do when asked: lack an evaluator, throw, name a verdict, return an outcome or a policy result.
   */
  datatype Reply =
    | NoEvaluator
    | Throws(message: string)
    | Says(decision: Verdict)
    | Answers(backend: string, decision: Verdict, error: string)
    | Judges(allowed: bool)

  function Normalized(name: string, reply: Reply): Outcome {
    match reply
    case NoEvaluator => Outcome(name, Allow, "")
    case Throws(message) => Outcome(name, Deny, message)
    case Says(decision) => Outcome(name, decision, "")
    case Answers(backend, decision, error) => Outcome(if backend != "" then backend else name, decision, error)
    case Judges(allowed) => Outcome(name, if allowed then Allow else Deny, "")
  }

  predicate Denies(o: Outcome) {
    o.decision == Deny || o.error != ""
  }

  function EffectiveDecision(local: Verdict, outcomes: seq<Outcome>): Verdict {
    if local == Deny then Deny
    else if exists o :: o in outcomes && Denies(o) then Deny
    else if local == Review || exists o :: o in outcomes && o.decision == Review then Review
    else Allow
  }

  function DeniedBy(outcomes: seq<Outcome>, includeBackends: bool): seq<string> {
    if !includeBackends || outcomes == [] then []
    else (if Denies(outcomes[0]) then [outcomes[0].backend] else []) + DeniedBy(outcomes[1..], includeBackends)
  }

  // ---------------------------------------------------------------- the strictest verdict

  function Severity(v: Verdict): nat {
    match v
    case Allow => 0
    case Review => 1
    case Deny => 2
  }

  /** An outcome counts as a denial when the backend failed. */
  function Counted(o: Outcome): Verdict {
    if Denies(o) then Deny else o.decision
  }

  /** The combination is the strictest of the engine's own decision and every backend's. */
  lemma {:induction false} EffectiveIsStrictest(local: Verdict, outcomes: seq<Outcome>)
    ensures var e := EffectiveDecision(local, outcomes);
            && Severity(local) <= Severity(e)
            && (forall o :: o in outcomes ==> Severity(Counted(o)) <= Severity(e))
            && (e == local || exists o :: o in outcomes && Counted(o) == e)
  {
    var e := EffectiveDecision(local, outcomes);
    if e != local {
      var o :| o in outcomes && (if e == Deny then Denies(o) else o.decision == Review);
      assert Counted(o) == e;
    }
  }

  /** More verdicts, and a stricter decision of the engine itself, never loosen the combination. */
  lemma {:induction false} MoreVerdictsNeverLoosen(local: Verdict, stricter: Verdict, outcomes: seq<Outcome>,
                                                   more: seq<Outcome>)
    requires Severity(local) <= Severity(stricter) && forall o :: o in outcomes ==> o in more
    ensures Severity(EffectiveDecision(local, outcomes)) <= Severity(EffectiveDecision(stricter, more))
  {
    EffectiveIsStrictest(local, outcomes);
    EffectiveIsStrictest(stricter, more);
  }

  /** The order in which the backends answer, and repeated answers, make no difference. */
  lemma {:induction false} OrderIsIrrelevant(local: Verdict, outcomes: seq<Outcome>, others: seq<Outcome>)
    requires forall o :: o in outcomes <==> o in others
    ensures EffectiveDecision(local, outcomes) == EffectiveDecision(local, others)
  {
    MoreVerdictsNeverLoosen(local, local, outcomes, others);
    MoreVerdictsNeverLoosen(local, local, others, outcomes);
  }

  /** A backend that throws denies, whatever the error says; one without an evaluator changes nothing. */
  lemma {:induction false} FailuresDeny(local: Verdict, outcomes: seq<Outcome>, name: string, message: string)
    ensures EffectiveDecision(local, outcomes + [Normalized(name, Throws(message))]) == Deny
    ensures EffectiveDecision(local, outcomes + [Normalized(name, NoEvaluator)]) == EffectiveDecision(local, outcomes)
  {
    var failed, absent := Normalized(name, Throws(message)), Normalized(name, NoEvaluator);
    assert failed in outcomes + [failed];
    EffectiveIsStrictest(local, outcomes + [failed]);
    EffectiveIsStrictest(local, outcomes + [absent]);
    MoreVerdictsNeverLoosen(local, local, outcomes, outcomes + [absent]);
    EffectiveIsStrictest(local, outcomes);
  }

  lemma {:induction false} SomebodyDenies(outcomes: seq<Outcome>)
    ensures DeniedBy(outcomes, true) != [] <==> exists o :: o in outcomes && Denies(o)
    ensures forall name ::
              name in DeniedBy(outcomes, true) <==> exists o :: o in outcomes && Denies(o) && o.backend == name
  {
    if outcomes != [] {
      SomebodyDenies(outcomes[1..]);
      HeadOrTail(outcomes);
      if DeniedBy(outcomes[1..], true) != [] {
        var o :| o in outcomes[1..] && Denies(o);
        assert o in outcomes;
      }
      if Denies(outcomes[0]) {
        assert outcomes[0] in outcomes;
      }
    }
  }

  // ---------------------------------------------------------------- policies with backends

  datatype Combined = Combined(effective: Verdict, allowed: bool, action: C.Action, deniedBy: seq<string>)

  /** A refusal of the engine stands without the backends; otherwise the strictest verdict decides. */
  function Combine(local: P.Decision, outcomes: seq<Outcome>): Combined {
    if !local.allowed then
      var effective := if local.action == C.RequireApproval then Review else Deny;
      Combined(effective, false, local.action, if effective == Deny then ["local"] else [])
    else
      var effective := EffectiveDecision(Allow, outcomes);
      var deniedBy := DeniedBy(outcomes, effective == Deny);
      match effective
      case Deny => Combined(Deny, false, C.Deny, deniedBy)
      case Review => Combined(Review, false, C.RequireApproval, deniedBy)
      case Allow => Combined(Allow, local.allowed, local.action, deniedBy)
  }

  /** A request passes exactly when the engine permits it and no backend denies, fails or asks for review. */
  lemma {:induction false} AllMustAgree(local: P.Decision, outcomes: seq<Outcome>)
    ensures var c := Combine(local, outcomes);
            && (c.allowed <==> local.allowed && forall o :: o in outcomes ==> Counted(o) == Allow)
            && (c.allowed <==> c.effective == Allow)
            && (c.allowed ==> c.action == local.action)
            && (c.deniedBy != [] <==> c.effective == Deny)
  {
    EffectiveIsStrictest(Allow, outcomes);
    SomebodyDenies(outcomes);
  }

  /** Further backends only tighten the result, and their order and repetitions make no difference to it. */
  lemma {:induction false} BackendsOnlyTighten(local: P.Decision, outcomes: seq<Outcome>, more: seq<Outcome>)
    requires forall o :: o in outcomes ==> o in more
    ensures var c, d := Combine(local, outcomes), Combine(local, more);
            && Severity(c.effective) <= Severity(d.effective)
            && (d.allowed ==> c.allowed)
            && ((forall o :: o in more ==> o in outcomes) ==>
                  c.effective == d.effective && c.allowed == d.allowed && c.action == d.action)
  {
    MoreVerdictsNeverLoosen(Allow, Allow, outcomes, more);
    AllMustAgree(local, outcomes);
    AllMustAgree(local, more);
    if forall o :: o in more ==> o in outcomes {
      OrderIsIrrelevant(Allow, outcomes, more);
    }
  }

  // ---------------------------------------------------------------- case by case

  /** What an answer counts as: the verdict it names, or the one an outcome or a decision brings along. */
  lemma {:induction false} AnswersCount(name: string, backend: string, verdict: Verdict, error: string, allowed: bool)
    ensures Normalized(name, Says(verdict)) == Outcome(name, verdict, "")
    ensures Normalized(name, Judges(allowed)) == Outcome(name, if allowed then Allow else Deny, "")
    ensures Normalized(name, Answers(backend, verdict, error))
         == Outcome(if backend == "" then name else backend, verdict, error)
    ensures Normalized(name, NoEvaluator) == Outcome(name, Allow, "")
    ensures Normalized(name, Throws(error)) == Outcome(name, Deny, error)
    ensures Severity(Allow) < Severity(Review) < Severity(Deny)
  {
  }

  /** Some backend denies, or reports an error whatever its verdict. */
  predicate Denied(outcomes: seq<Outcome>) {
    exists o :: o in outcomes && (o.decision == Deny || o.error != "")
  }

  /** Some backend asks for review. */
  predicate ToReview(outcomes: seq<Outcome>) {
    exists o :: o in outcomes && o.decision == Review
  }

  /**
   * What comes of an evaluation with backends: the engine's own refusal stands, as a review when it asks for approval
   * and as a denial otherwise; what it permits is denied if a backend denies or fails, held for approval if one asks
   * for review, and passes as the engine decided if none does either.
   */
  lemma {:induction false} CombinedWhen(local: P.Decision, outcomes: seq<Outcome>)
    ensures var c := Combine(local, outcomes);
            && (!local.allowed ==>
                  !c.allowed && c.action == local.action
                  && c.effective == (if local.action == C.RequireApproval then Review else Deny)
                  && c.deniedBy == (if local.action == C.RequireApproval then [] else ["local"]))
            && (local.allowed && Denied(outcomes) ==>
                  !c.allowed && c.action == C.Deny && c.effective == Deny
                  && forall name :: name in c.deniedBy <==>
                       exists o :: o in outcomes && (o.decision == Deny || o.error != "") && o.backend == name)
            && (local.allowed && !Denied(outcomes) && ToReview(outcomes) ==>
                  !c.allowed && c.action == C.RequireApproval && c.effective == Review && c.deniedBy == [])
            && (local.allowed && !Denied(outcomes) && !ToReview(outcomes) ==>
                  c.allowed && c.action == local.action && c.effective == Allow && c.deniedBy == [])
  {
    SomebodyDenies(outcomes);
    if o :| o in outcomes && (o.decision == Deny || o.error != "") {
      assert Denies(o);
    }
    if o :| o in outcomes && Denies(o) {
      assert o.decision == Deny || o.error != "";
    }
  }
}
