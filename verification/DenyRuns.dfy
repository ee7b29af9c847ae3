// When an appended denying rule can let a later request pass: two engines, one with the rule and one without it, run
// side by side on the same requests.
module DenyRuns {
  import opened Conflicts
  import opened Options
  import opened PolicyEngine
  import opened PolicyRuns
  import RL = RateLimits

  datatype Ask = Ask(agentDid: string, facts: Facts, now: int)

  function Answer(strategy: Strategy, policies: seq<Policy>, windows: Windows, a: Ask): Decision {
    Evaluate(strategy, policies, windows, a.agentDid, a.facts, a.now).0
  }

  /** The windows that a run of requests leaves. */
  function AfterAll(strategy: Strategy, policies: seq<Policy>, windows: Windows, asks: seq<Ask>): Windows {
    if |asks| == 0 then windows
    else
      var last := asks[|asks| - 1];
      Evaluate(strategy, policies, AfterAll(strategy, policies, windows, asks[..|asks| - 1]),
               last.agentDid, last.facts, last.now).1
  }

  /** The limit that a request is charged to under the given name, if any. Policies and request alone decide it. */
  function ChargeAt(strategy: Strategy, policies: seq<Policy>, a: Ask, name: string): Option<RL.Limit> {
    var charged := ChargedTo(strategy, policies, a.agentDid, a.facts);
    if charged.Some? && charged.value.0 == name then Some(charged.value.1) else None
  }

  /** Some rule fires, and the winner's action lets the request pass as far as limits do. */
  predicate Permitted(strategy: Strategy, policies: seq<Policy>, a: Ask) {
    var cs := Candidates(policies, a.agentDid, a.facts);
    cs != [] && Permits(Winner(strategy, cs).action)
  }

  // ---------------------------------------------------------------- one name's window

  /** What a request does to a window: nothing, or one check against the limit it is charged to. */
  function Pass(w: Option<RL.Window>, limit: Option<RL.Limit>, now: int): Option<RL.Window> {
    if limit.None? then w else RL.Check(limit.value, w, now).1
  }

  lemma {:induction false} AskOnWindow(strategy: Strategy, policies: seq<Policy>, windows: Windows, a: Ask,
                                       name: string)
    ensures WindowAt(Evaluate(strategy, policies, windows, a.agentDid, a.facts, a.now).1, name)
         == Pass(WindowAt(windows, name), ChargeAt(strategy, policies, a, name), a.now)
  {
    var cs := Candidates(policies, a.agentDid, a.facts);
    if cs != [] {
      var winner := Winner(strategy, cs);
      DecideOnWindow(winner, LimitFor(policies, winner), windows, a.now, name);
    }
  }

  /** A request that some rule decides passes exactly when it is permitted and its own window admits it. */
  lemma {:induction false} AnswerMeaning(strategy: Strategy, policies: seq<Policy>, windows: Windows, a: Ask)
    requires Candidates(policies, a.agentDid, a.facts) != []
    ensures var charged := ChargedTo(strategy, policies, a.agentDid, a.facts);
            Answer(strategy, policies, windows, a).allowed <==>
              && Permitted(strategy, policies, a)
              && (charged.Some? ==> RL.Check(charged.value.1, WindowAt(windows, charged.value.0), a.now).0)
  {
  }

  // ---------------------------------------------------------------- one request under both policy lists

  lemma {:induction false} SameWinner(strategy: Strategy, policies: seq<Policy>, k: nat, rule: Rule, a: Ask)
    requires k < |policies| && ActionOf(rule) == Deny && Permitted(strategy, WithRule(policies, k, rule), a)
    ensures var cs := Candidates(policies, a.agentDid, a.facts);
            && cs != []
            && Winner(strategy, cs) == Winner(strategy, Candidates(WithRule(policies, k, rule), a.agentDid, a.facts))
  {
    var cs := Candidates(policies, a.agentDid, a.facts);
    var cs' := Candidates(WithRule(policies, k, rule), a.agentDid, a.facts);
    var d := CandidateFor(policies[k], rule);
    RuleAddsOne(policies, k, rule, a.agentDid, a.facts);
    if cs != cs' {
      var at :| IsInsertion(cs, cs', at, d);
      OneMoreDeny(strategy, cs, cs', at, d);
    }
  }

  /** A request that is still permitted with the rule has the same winner without it, found under the same limit. */
  lemma {:induction false} PermittedIsUntouched(strategy: Strategy, policies: seq<Policy>, k: nat, rule: Rule, a: Ask)
    requires k < |policies| && ActionOf(rule) == Deny && Permitted(strategy, WithRule(policies, k, rule), a)
    ensures Permitted(strategy, policies, a)
    ensures var charged := ChargedTo(strategy, policies, a.agentDid, a.facts);
            charged.Some? ==> ChargedTo(strategy, WithRule(policies, k, rule), a.agentDid, a.facts) == charged
  {
    SameWinner(strategy, policies, k, rule, a);
    var winner := Winner(strategy, Candidates(policies, a.agentDid, a.facts));
    FindAppended(policies, k, rule, winner.policyName, winner.ruleName);
  }

  /** Without any rule that fires with the new rule, none fires without it, and the default is the same. */
  lemma {:induction false} DefaultIsUntouched(strategy: Strategy, policies: seq<Policy>, k: nat, rule: Rule,
                                              windows: Windows, others: Windows, a: Ask)
    requires k < |policies| && Candidates(WithRule(policies, k, rule), a.agentDid, a.facts) == []
    ensures Answer(strategy, WithRule(policies, k, rule), others, a) == Answer(strategy, policies, windows, a)
  {
    RuleAddsOne(policies, k, rule, a.agentDid, a.facts);
    SameDefault(policies, k, rule, a.agentDid);
  }

  /** The request can be turned away without the rule, and with it only for want of room in its window. */
  predicate Exposed(strategy: Strategy, policies: seq<Policy>, more: seq<Policy>, a: Ask, name: string, count: int) {
    var limit := ChargeAt(strategy, policies, a, name);
    limit.Some? && limit.value.count == Some(count) && Permitted(strategy, more, a)
  }

  /**
   * A request passes with the rule and not without it exactly when it is exposed and the windows of its name differ so.
   */
  lemma {:induction false} OnlyWindowsLoosen(strategy: Strategy, policies: seq<Policy>, k: nat, rule: Rule,
                                             windows: Windows, others: Windows, a: Ask)
    returns (name: string, count: int)
    requires k < |policies| && ActionOf(rule) == Deny
    requires Answer(strategy, WithRule(policies, k, rule), others, a).allowed
      && !Answer(strategy, policies, windows, a).allowed
    ensures Exposed(strategy, policies, WithRule(policies, k, rule), a, name, count)
    ensures var limit := ChargeAt(strategy, policies, a, name).value;
            RL.Check(limit, WindowAt(others, name), a.now).0 && !RL.Check(limit, WindowAt(windows, name), a.now).0
  {
    var more := WithRule(policies, k, rule);
    if Candidates(more, a.agentDid, a.facts) == [] {
      DefaultIsUntouched(strategy, policies, k, rule, windows, others, a);
    }
    AnswerMeaning(strategy, more, others, a);
    PermittedIsUntouched(strategy, policies, k, rule, a);
    AnswerMeaning(strategy, policies, windows, a);
    var charged := ChargedTo(strategy, policies, a.agentDid, a.facts);
    name, count := charged.value.0, charged.value.1.count.value;
  }

  lemma {:induction false} WindowsLoosen(strategy: Strategy, policies: seq<Policy>, k: nat, rule: Rule,
                                         windows: Windows, others: Windows, a: Ask, name: string, count: int)
    requires k < |policies| && ActionOf(rule) == Deny
    requires Exposed(strategy, policies, WithRule(policies, k, rule), a, name, count)
    requires var limit := ChargeAt(strategy, policies, a, name).value;
             RL.Check(limit, WindowAt(others, name), a.now).0 && !RL.Check(limit, WindowAt(windows, name), a.now).0
    ensures Answer(strategy, WithRule(policies, k, rule), others, a).allowed
      && !Answer(strategy, policies, windows, a).allowed
  {
    PermittedIsUntouched(strategy, policies, k, rule, a);
    AnswerMeaning(strategy, WithRule(policies, k, rule), others, a);
    AnswerMeaning(strategy, policies, windows, a);
  }

  // ---------------------------------------------------------------- which requests do harm

  /** The limit fills a window up to at least `n`. */
  predicate FillsTo(limit: RL.Limit, n: int) {
    limit.count.Some? ==> RL.Allowance(limit.count.value) >= n
  }

  /**
   * A request charged to `x` without the rule and to `y` with it does no harm to a request with the given count: both
   * or neither are charged, the periods agree, and with the rule the window fills as far, or as far as the count.
   */
  predicate Harmless(x: Option<RL.Limit>, y: Option<RL.Limit>, count: int) {
    if x.None? || y.None? then x.None? && y.None?
    else
      && x.value.periodMs == y.value.periodMs
      && (FillsTo(y.value, count) || (x.value.count.Some? && FillsTo(y.value, RL.Allowance(x.value.count.value))))
  }

  /** One request, `q`, keeps the window of another one, `r`, emptier or open at other times with the rule. */
  ghost predicate Disturbs(strategy: Strategy, policies: seq<Policy>, more: seq<Policy>, q: Ask, r: Ask) {
    exists name, count :: Exposed(strategy, policies, more, r, name, count)
      && !Harmless(ChargeAt(strategy, policies, q, name), ChargeAt(strategy, more, q, name), count)
  }

  /** Open over the same time, and with the rule as full, or full as far as the count goes. */
  predicate Covers(w: Option<RL.Window>, w': Option<RL.Window>, count: int) {
    if w.None? || w'.None? then w.None? && w'.None?
    else
      && 1 <= w.value.count && 1 <= w'.value.count && w.value.resetAt == w'.value.resetAt
      && (w.value.count <= w'.value.count || count <= w'.value.count)
  }

  lemma {:induction false} PassCovers(w: Option<RL.Window>, w': Option<RL.Window>, x: Option<RL.Limit>,
                                      y: Option<RL.Limit>,
                                      count: int, now: int)
    requires Covers(w, w', count) && Harmless(x, y, count)
    ensures Covers(Pass(w, x, now), Pass(w', y, now), count)
  {
  }

  lemma {:induction false} CoveredAdmits(w: Option<RL.Window>, w': Option<RL.Window>, limit: RL.Limit, now: int)
    requires limit.count.Some? && Covers(w, w', limit.count.value)
    ensures RL.Check(limit, w', now).0 ==> RL.Check(limit, w, now).0
  {
  }

  lemma {:induction false} RunCovers(strategy: Strategy, policies: seq<Policy>, more: seq<Policy>, windows: Windows,
                                     asks: seq<Ask>, name: string, count: int)
    requires Covers(WindowAt(windows, name), WindowAt(windows, name), count)
    requires forall i :: 0 <= i < |asks| ==>
      Harmless(ChargeAt(strategy, policies, asks[i], name), ChargeAt(strategy, more, asks[i], name), count)
    ensures Covers(WindowAt(AfterAll(strategy, policies, windows, asks), name),
                   WindowAt(AfterAll(strategy, more, windows, asks), name), count)
  {
    if |asks| > 0 {
      var init, last := asks[..|asks| - 1], asks[|asks| - 1];
      RunCovers(strategy, policies, more, windows, init, name, count);
      var before, before' := AfterAll(strategy, policies, windows, init), AfterAll(strategy, more, windows, init);
      AskOnWindow(strategy, policies, before, last, name);
      AskOnWindow(strategy, more, before', last, name);
      PassCovers(WindowAt(before, name), WindowAt(before', name), ChargeAt(strategy, policies, last, name),
                 ChargeAt(strategy, more, last, name), count, last.now);
    }
  }

  /** Windows come with a first request counted. */
  predicate Started(windows: Windows) {
    forall name :: name in windows ==> windows[name].count >= 1
  }

  /**
   * When no earlier request disturbs it, a request that passes with the rule passes without it: whatever the windows
   * were at the start, for runs of any length, under every strategy. The condition reads policies and requests only.
   */
  lemma {:induction false} UndisturbedIsSafe(strategy: Strategy, policies: seq<Policy>, k: nat, rule: Rule,
                                             windows: Windows, asks: seq<Ask>, last: Ask)
    requires k < |policies| && ActionOf(rule) == Deny && Started(windows)
    requires forall i :: 0 <= i < |asks| ==> !Disturbs(strategy, policies, WithRule(policies, k, rule), asks[i], last)
    ensures var more := WithRule(policies, k, rule);
            Answer(strategy, more, AfterAll(strategy, more, windows, asks), last).allowed ==>
              Answer(strategy, policies, AfterAll(strategy, policies, windows, asks), last).allowed
  {
    var more := WithRule(policies, k, rule);
    var w, w' := AfterAll(strategy, policies, windows, asks), AfterAll(strategy, more, windows, asks);
    if Answer(strategy, more, w', last).allowed && !Answer(strategy, policies, w, last).allowed {
      var name, count := OnlyWindowsLoosen(strategy, policies, k, rule, w, w', last);
      forall i | 0 <= i < |asks|
        ensures Harmless(ChargeAt(strategy, policies, asks[i], name), ChargeAt(strategy, more, asks[i], name), count)
      {
        assert !Disturbs(strategy, policies, more, asks[i], last);
      }
      RunCovers(strategy, policies, more, windows, asks, name, count);
      CoveredAdmits(WindowAt(w, name), WindowAt(w', name), ChargeAt(strategy, policies, last, name).value, last.now);
    }
  }

  /** What a request leaves of the windows is a matter of the limit it is charged to. */
  lemma {:induction false} WindowsAfter(strategy: Strategy, policies: seq<Policy>, windows: Windows, a: Ask)
    ensures var charged := ChargedTo(strategy, policies, a.agentDid, a.facts);
            Evaluate(strategy, policies, windows, a.agentDid, a.facts, a.now).1 ==
              if charged.None? then windows else Charged(windows, charged.value.0, charged.value.1, a.now).1
  {
  }

  predicate ChargedAlike(strategy: Strategy, policies: seq<Policy>, more: seq<Policy>, a: Ask) {
    ChargedTo(strategy, policies, a.agentDid, a.facts) == ChargedTo(strategy, more, a.agentDid, a.facts)
  }

  /** Requests that are charged alike leave the very same windows. */
  lemma {:induction false} ChargedAlikeWindows(strategy: Strategy, policies: seq<Policy>, more: seq<Policy>,
                                               windows: Windows, asks: seq<Ask>)
    requires forall i :: 0 <= i < |asks| ==> ChargedAlike(strategy, policies, more, asks[i])
    ensures AfterAll(strategy, more, windows, asks) == AfterAll(strategy, policies, windows, asks)
  {
    if |asks| > 0 {
      var init, last := asks[..|asks| - 1], asks[|asks| - 1];
      ChargedAlikeWindows(strategy, policies, more, windows, init);
      WindowsAfter(strategy, policies, AfterAll(strategy, policies, windows, init), last);
      WindowsAfter(strategy, more, AfterAll(strategy, more, windows, init), last);
      assert ChargedAlike(strategy, policies, more, last);
    }
  }

  /** In particular, after requests that are charged alike nothing passes with the rule that is refused without it. */
  lemma {:induction false} ChargedAlikeIsSafe(strategy: Strategy, policies: seq<Policy>, k: nat, rule: Rule,
                                              windows: Windows, asks: seq<Ask>, last: Ask)
    requires k < |policies| && ActionOf(rule) == Deny
    requires forall i :: 0 <= i < |asks| ==> ChargedAlike(strategy, policies, WithRule(policies, k, rule), asks[i])
    ensures var more := WithRule(policies, k, rule);
            Answer(strategy, more, AfterAll(strategy, more, windows, asks), last).allowed ==>
              Answer(strategy, policies, AfterAll(strategy, policies, windows, asks), last).allowed
  {
    ChargedAlikeWindows(strategy, policies, WithRule(policies, k, rule), windows, asks);
    DenyRuleNeverLoosens(strategy, policies, k, rule, AfterAll(strategy, policies, windows, asks),
                         last.agentDid, last.facts, last.now);
  }

  // ---------------------------------------------------------------- runs that loosen

  /** The run with `n` more copies of a request at its end. */
  function Repeated(asks: seq<Ask>, a: Ask, n: nat): seq<Ask> {
    if n == 0 then asks else Repeated(asks, a, n - 1) + [a]
  }

  lemma {:induction false} RepeatedIsTimely(asks: seq<Ask>, a: Ask, n: nat)
    requires ClockNeverGoesBack(asks) && (|asks| > 0 ==> asks[|asks| - 1].now <= a.now)
    ensures var r := Repeated(asks, a, n); ClockNeverGoesBack(r) && (|r| > 0 ==> r[|r| - 1].now <= a.now)
  {
    if n > 0 {
      RepeatedIsTimely(asks, a, n - 1);
      OneMoreIsTimely(Repeated(asks, a, n - 1), a);
    }
  }

  lemma {:induction false} OneMoreIsTimely(asks: seq<Ask>, a: Ask)
    requires ClockNeverGoesBack(asks) && (|asks| > 0 ==> asks[|asks| - 1].now <= a.now)
    ensures ClockNeverGoesBack(asks + [a])
  {
    forall i | 0 <= i < |asks| ensures asks[i].now <= a.now {
      assert i < |asks| - 1 ==> asks[i].now <= asks[|asks| - 1].now;
    }
  }

  /** A window after the same request came `n` times at once. */
  function PassTimes(w: Option<RL.Window>, limit: Option<RL.Limit>, now: int, n: nat): Option<RL.Window> {
    if n == 0 then w else Pass(PassTimes(w, limit, now, n - 1), limit, now)
  }

  /** A run, seen from one window. */
  function Seen(strategy: Strategy, policies: seq<Policy>, asks: seq<Ask>, name: string): Option<RL.Window> {
    if |asks| == 0 then None
    else
      var last := asks[|asks| - 1];
      Pass(Seen(strategy, policies, asks[..|asks| - 1], name), ChargeAt(strategy, policies, last, name), last.now)
  }

  lemma {:induction false} SeenIsAfterAll(strategy: Strategy, policies: seq<Policy>, asks: seq<Ask>, name: string)
    ensures WindowAt(AfterAll(strategy, policies, map[], asks), name) == Seen(strategy, policies, asks, name)
  {
    if |asks| > 0 {
      var init, last := asks[..|asks| - 1], asks[|asks| - 1];
      SeenIsAfterAll(strategy, policies, init, name);
      AskOnWindow(strategy, policies, AfterAll(strategy, policies, map[], init), last, name);
    }
  }

  lemma {:induction false} SeenSnoc(strategy: Strategy, policies: seq<Policy>, asks: seq<Ask>, a: Ask, name: string)
    ensures Seen(strategy, policies, asks + [a], name)
         == Pass(Seen(strategy, policies, asks, name), ChargeAt(strategy, policies, a, name), a.now)
  {
    assert (asks + [a])[..|asks|] == asks;
  }

  lemma {:induction false} RepeatedOnWindow(strategy: Strategy, policies: seq<Policy>, asks: seq<Ask>, a: Ask, n: nat,
                                            name: string)
    ensures Seen(strategy, policies, Repeated(asks, a, n), name)
         == PassTimes(Seen(strategy, policies, asks, name), ChargeAt(strategy, policies, a, name), a.now, n)
  {
    if n > 0 {
      RepeatedOnWindow(strategy, policies, asks, a, n - 1, name);
      SeenSnoc(strategy, policies, Repeated(asks, a, n - 1), a, name);
    }
  }

  lemma {:induction false} Uncharged(w: Option<RL.Window>, now: int, n: nat)
    ensures PassTimes(w, None, now, n) == w
  {
    if n > 0 {
      Uncharged(w, now, n - 1);
    }
  }

  /** A new window takes as many requests as its limit fills it with. */
  lemma {:induction false} FillNew(w: Option<RL.Window>, limit: RL.Limit, now: int, n: nat)
    requires RL.Live(w, now) == None && 1 <= n && FillsTo(limit, n)
    ensures PassTimes(w, Some(limit), now, n) == Some(RL.Window(n, now + limit.periodMs))
  {
    if n > 1 {
      FillNew(w, limit, now, n - 1);
    } else {
      assert PassTimes(w, Some(limit), now, 0) == w;
    }
  }

  lemma {:induction false} FillMore(w: RL.Window, limit: RL.Limit, now: int, n: nat)
    requires now <= w.resetAt && limit.count.Some? && (n > 0 ==> w.count + n <= limit.count.value)
    ensures PassTimes(Some(w), Some(limit), now, n) == Some(w.(count := w.count + n))
  {
    if n > 0 {
      FillMore(w, limit, now, n - 1);
    }
  }

  /** A window that is open stays open until its time, however many requests come. */
  lemma {:induction false} KeepsReset(w: RL.Window, limit: Option<RL.Limit>, now: int, n: nat)
    requires now <= w.resetAt
    ensures PassTimes(Some(w), limit, now, n).Some? && PassTimes(Some(w), limit, now, n).value.resetAt == w.resetAt
  {
    if n > 0 {
      KeepsReset(w, limit, now, n - 1);
    }
  }

  /** One more request than the limit admits leaves the window as full as one less. */
  lemma {:induction false} Overfill(limit: RL.Limit, now: int, n: nat)
    requires limit.count.Some? && n == RL.Allowance(limit.count.value)
    ensures PassTimes(None, Some(limit), now, n + 1) == Some(RL.Window(n, now + limit.periodMs))
  {
    FillNew(None, limit, now, n);
  }

  /**
   * How the run goes: so many copies of the first request at time 0, then of the second one, then the second once more.
   */
  datatype Plan = Plan(first: nat, second: nat, at: int, end: int)

  /** What the plan makes of a window, for the limits that the two requests are charged to. */
  function Played(p: Plan, x: Option<RL.Limit>, limit: RL.Limit): Option<RL.Window> {
    PassTimes(PassTimes(None, x, 0, p.first), Some(limit), p.at, p.second)
  }

  /** For every pair of limits that is not harmless there is a plan by which the windows differ in the end. */
  lemma {:induction false} HarmHasPlan(x: Option<RL.Limit>, y: Option<RL.Limit>, limit: RL.Limit) returns (p: Plan)
    requires limit.count.Some? && !Harmless(x, y, limit.count.value)
    ensures 0 <= p.at <= p.end
    ensures RL.Check(limit, Played(p, y, limit), p.end).0 && !RL.Check(limit, Played(p, x, limit), p.end).0
  {
    var count := limit.count.value;
    var full := RL.Allowance(count);
    if y.None? {
      p := Plan(1, full - 1, 0, 0);
      LosesACharge(x.value, limit, full);
    } else if x.Some? && y.value.periodMs < x.value.periodMs {
      p := Plan(1, full - 1, 0, y.value.periodMs + 1);
      ClosesEarlier(x.value, y.value, limit, full);
    } else if x.None? || x.value.periodMs < y.value.periodMs {
      p := Plan(1, full, y.value.periodMs, y.value.periodMs + 1);
      OpensEarlier(x, y.value, limit, full);
    } else {
      var n := RL.Allowance(y.value.count.value);
      p := Plan(n + 1, count - n - 1, 0, 0);
      FillsLess(x.value, y.value, limit, n);
    }
  }

  lemma {:induction false} LosesACharge(x: RL.Limit, limit: RL.Limit, full: nat)
    requires limit.count.Some? && full == RL.Allowance(limit.count.value)
    ensures var p := Plan(1, full - 1, 0, 0);
            RL.Check(limit, Played(p, None, limit), 0).0 && !RL.Check(limit, Played(p, Some(x), limit), 0).0
  {
    FillNew(None, x, 0, 1);
    FillMore(RL.Window(1, x.periodMs), limit, 0, full - 1);
    Uncharged(None, 0, 1);
    if full > 1 {
      FillNew(None, limit, 0, full - 1);
    }
  }

  lemma {:induction false} ClosesEarlier(x: RL.Limit, y: RL.Limit, limit: RL.Limit, full: nat)
    requires limit.count.Some? && full == RL.Allowance(limit.count.value) && y.periodMs < x.periodMs
    ensures var p := Plan(1, full - 1, 0, y.periodMs + 1);
            RL.Check(limit, Played(p, Some(y), limit), p.end).0 && !RL.Check(limit, Played(p, Some(x), limit), p.end).0
  {
    FillNew(None, x, 0, 1);
    FillMore(RL.Window(1, x.periodMs), limit, 0, full - 1);
    FillNew(None, y, 0, 1);
    KeepsReset(RL.Window(1, y.periodMs), Some(limit), 0, full - 1);
  }

  lemma {:induction false} OpensEarlier(x: Option<RL.Limit>, y: RL.Limit, limit: RL.Limit, full: nat)
    requires limit.count.Some? && full == RL.Allowance(limit.count.value)
    requires x.None? || x.value.periodMs < y.periodMs
    ensures var p := Plan(1, full, y.periodMs, y.periodMs + 1);
            RL.Check(limit, Played(p, Some(y), limit), p.end).0 && !RL.Check(limit, Played(p, x, limit), p.end).0
  {
    if x.None? {
      Uncharged(None, 0, 1);
    } else {
      FillNew(None, x.value, 0, 1);
    }
    FillNew(PassTimes(None, x, 0, 1), limit, y.periodMs, full);
    FillNew(None, y, 0, 1);
    KeepsReset(RL.Window(1, y.periodMs), Some(limit), y.periodMs, full);
  }

  lemma {:induction false} FillsLess(x: RL.Limit, y: RL.Limit, limit: RL.Limit, n: nat)
    requires limit.count.Some? && y.count.Some? && n == RL.Allowance(y.count.value) && n < limit.count.value
    requires FillsTo(x, n + 1)
    ensures var p := Plan(n + 1, limit.count.value - n - 1, 0, 0);
            RL.Check(limit, Played(p, Some(y), limit), 0).0 && !RL.Check(limit, Played(p, Some(x), limit), 0).0
  {
    var rest := limit.count.value - n - 1;
    FillNew(None, x, 0, n + 1);
    FillMore(RL.Window(n + 1, x.periodMs), limit, 0, rest);
    Overfill(y, 0, n);
    FillMore(RL.Window(n, y.periodMs), limit, 0, rest);
  }

  predicate ClockNeverGoesBack(asks: seq<Ask>) {
    forall i, j :: 0 <= i < j < |asks| ==> asks[i].now <= asks[j].now
  }

  /**
   * A run from the start under a clock that never goes back, after which a request passes with the rule and not
   * without.
   */
  predicate Loosens(strategy: Strategy, policies: seq<Policy>, more: seq<Policy>, asks: seq<Ask>, last: Ask) {
    && ClockNeverGoesBack(asks + [last])
    && Answer(strategy, more, AfterAll(strategy, more, map[], asks), last).allowed
    && !Answer(strategy, policies, AfterAll(strategy, policies, map[], asks), last).allowed
  }

  lemma {:induction false} TimeIsNoCharge(strategy: Strategy, policies: seq<Policy>, a: Ask, now: int, name: string)
    ensures ChargeAt(strategy, policies, a.(now := now), name) == ChargeAt(strategy, policies, a, name)
    ensures Permitted(strategy, policies, a.(now := now)) == Permitted(strategy, policies, a)
  {
  }

  lemma {:induction false} PlanIsTimely(first: Ask, second: Ask, last: Ask, p: Plan)
    requires first.now == 0 && second.now == p.at && last.now == p.end && 0 <= p.at <= p.end
    ensures ClockNeverGoesBack(Repeated(Repeated([], first, p.first), second, p.second) + [last])
  {
    RepeatedIsTimely([], first, p.first);
    RepeatedIsTimely(Repeated([], first, p.first), second, p.second);
    OneMoreIsTimely(Repeated(Repeated([], first, p.first), second, p.second), last);
  }

  lemma {:induction false} DisturbanceLoosens(strategy: Strategy, policies: seq<Policy>, k: nat, rule: Rule, q: Ask,
                                              r: Ask,
                                              name: string, count: int)
    returns (asks: seq<Ask>, last: Ask)
    requires k < |policies| && ActionOf(rule) == Deny
    requires Exposed(strategy, policies, WithRule(policies, k, rule), r, name, count)
    requires !Harmless(ChargeAt(strategy, policies, q, name),
                       ChargeAt(strategy, WithRule(policies, k, rule), q, name), count)
    ensures Loosens(strategy, policies, WithRule(policies, k, rule), asks, last)
  {
    var more := WithRule(policies, k, rule);
    var limit := ChargeAt(strategy, policies, r, name).value;
    var p := HarmHasPlan(ChargeAt(strategy, policies, q, name), ChargeAt(strategy, more, q, name), limit);
    var first, second := q.(now := 0), r.(now := p.at);
    asks, last := Repeated(Repeated([], first, p.first), second, p.second), r.(now := p.end);
    PlanIsTimely(first, second, last, p);
    PlayedOut(strategy, policies, q, r, p, name);
    ExposedIsCharged(strategy, policies, k, rule, r, name, count);
    PlayedOut(strategy, more, q, r, p, name);
    TimeIsNoCharge(strategy, policies, r, p.end, name);
    TimeIsNoCharge(strategy, more, r, p.end, name);
    WindowsLoosen(strategy, policies, k, rule, AfterAll(strategy, policies, map[], asks),
                  AfterAll(strategy, more, map[], asks), last, name, count);
  }

  lemma {:induction false} ExposedIsCharged(strategy: Strategy, policies: seq<Policy>, k: nat, rule: Rule, r: Ask,
                                            name: string, count: int)
    requires k < |policies| && ActionOf(rule) == Deny
    requires Exposed(strategy, policies, WithRule(policies, k, rule), r, name, count)
    ensures ChargeAt(strategy, WithRule(policies, k, rule), r, name) == ChargeAt(strategy, policies, r, name)
  {
    PermittedIsUntouched(strategy, policies, k, rule, r);
  }

  lemma {:induction false} PlayedOut(strategy: Strategy, policies: seq<Policy>, q: Ask, r: Ask, p: Plan, name: string)
    requires ChargeAt(strategy, policies, r, name).Some?
    ensures WindowAt(AfterAll(strategy, policies, map[],
                              Repeated(Repeated([], q.(now := 0), p.first), r.(now := p.at), p.second)), name)
         == Played(p, ChargeAt(strategy, policies, q, name), ChargeAt(strategy, policies, r, name).value)
  {
    TimeIsNoCharge(strategy, policies, q, 0, name);
    TimeIsNoCharge(strategy, policies, r, p.at, name);
    PlanOnWindow(strategy, policies, q.(now := 0), r.(now := p.at), p, name);
  }

  lemma {:induction false} PlanOnWindow(strategy: Strategy, policies: seq<Policy>, first: Ask, second: Ask, p: Plan,
                                        name: string)
    requires first.now == 0 && second.now == p.at && ChargeAt(strategy, policies, second, name).Some?
    ensures WindowAt(AfterAll(strategy, policies, map[],
                              Repeated(Repeated([], first, p.first), second, p.second)), name)
         == Played(p, ChargeAt(strategy, policies, first, name), ChargeAt(strategy, policies, second, name).value)
  {
    SeenIsAfterAll(strategy, policies, Repeated(Repeated([], first, p.first), second, p.second), name);
    RepeatedOnWindow(strategy, policies, [], first, p.first, name);
    RepeatedOnWindow(strategy, policies, Repeated([], first, p.first), second, p.second, name);
  }

  /**
   * Appending a denying rule can let some request pass, in some run, that was turned away without the rule, if and only
   * if some request disturbs another one.
   */
  lemma {:induction false} LoosensExactlyWhen(strategy: Strategy, policies: seq<Policy>, k: nat, rule: Rule)
    requires k < |policies| && ActionOf(rule) == Deny
    ensures (exists asks, last :: Loosens(strategy, policies, WithRule(policies, k, rule), asks, last))
       <==> (exists q, r :: Disturbs(strategy, policies, WithRule(policies, k, rule), q, r))
  {
    var more := WithRule(policies, k, rule);
    if asks, last :| Loosens(strategy, policies, more, asks, last) {
      if forall i :: 0 <= i < |asks| ==> !Disturbs(strategy, policies, more, asks[i], last) {
        UndisturbedIsSafe(strategy, policies, k, rule, map[], asks, last);
        assert false;
      }
    }
    if q, r :| Disturbs(strategy, policies, more, q, r) {
      var name, count :| Exposed(strategy, policies, more, r, name, count)
        && !Harmless(ChargeAt(strategy, policies, q, name), ChargeAt(strategy, more, q, name), count);
      var asks, last := DisturbanceLoosens(strategy, policies, k, rule, q, r, name, count);
    }
  }
}
