// The circuit breaker of the metrics module: a lazily timed state machine, and the function of the
// call history that it computes.
module CircuitBreakers {
  import opened Options

  datatype State = Closed | Open | HalfOpen

  /** The breaker's fields. `openedAt` is a clock reading in milliseconds. */
  datatype Breaker = Breaker(failures: nat, openedAt: Option<int>, state: State)

  datatype Config = Config(failureThreshold: int, resetTimeoutMs: int)

  const NEW_BREAKER := Breaker(0, None, Closed)

  /** The state getter: an open breaker whose time is up turns half open. A reading of 0 counts as unset. */
  function Observe(b: Breaker, c: Config, now: int): Breaker {
    if b.state == Open && b.openedAt.Some? && b.openedAt.value != 0 && now - b.openedAt.value >= c.resetTimeoutMs
    then b.(state := HalfOpen)
    else b
  }

  function Succeed(b: Breaker): Breaker {
    Breaker(0, None, Closed)
  }

  function Fail(b: Breaker, c: Config, now: int): Breaker {
    var failures := b.failures + 1;
    if failures >= c.failureThreshold then Breaker(failures, Some(now), Open) else b.(failures := failures)
  }

  class CircuitBreaker {
    var failures: nat
    var openedAt: Option<int>
    var currentState: State
    const config: Config

    function Value(): Breaker
      reads this
    {
      Breaker(failures, openedAt, currentState)
    }

    constructor (failureThreshold: Option<int>, resetTimeoutMs: Option<int>)
      ensures Value() == NEW_BREAKER
      ensures config == Config(if failureThreshold.Some? then failureThreshold.value else 5,
                               if resetTimeoutMs.Some? then resetTimeoutMs.value else 30_000)
    {
      failures, openedAt, currentState := 0, None, Closed;
      config := Config(if failureThreshold.Some? then failureThreshold.value else 5,
                       if resetTimeoutMs.Some? then resetTimeoutMs.value else 30_000);
    }

    method ReadState(now: int) returns (s: State)
      modifies this
      ensures Value() == Observe(old(Value()), config, now) && s == Value().state
    {
      if currentState == Open && openedAt.Some? && openedAt.value != 0
        && now - openedAt.value >= config.resetTimeoutMs {
        currentState := HalfOpen;
      }
      s := currentState;
    }

    method CanExecute(now: int) returns (ok: bool)
      modifies this
      ensures Value() == Observe(old(Value()), config, now) && (ok <==> Value().state != Open)
    {
      var s := ReadState(now);
      ok := s != Open;
    }

    method OnSuccess()
      modifies this
      ensures Value() == Succeed(old(Value()))
    {
      failures := 0;
      currentState := Closed;
      openedAt := None;
    }

    method OnFailure(now: int)
      modifies this
      ensures Value() == Fail(old(Value()), config, now)
    {
      failures := failures + 1;
      if failures >= config.failureThreshold {
        currentState := Open;
        openedAt := Some(now);
      }
    }
  }

  // ---------------------------------------------------------------- histories

  /** A call on the breaker, with the clock reading at the time. */
  datatype Event = Success(at: int) | Failure(at: int) | Read(at: int)

  function Step(b: Breaker, c: Config, e: Event): Breaker {
    match e
    case Success(_) => Succeed(b)
    case Failure(at) => Fail(b, c, at)
    case Read(at) => Observe(b, c, at)
  }

  function Replay(history: seq<Event>, c: Config): Breaker {
    if history == [] then NEW_BREAKER
    else Step(Replay(history[..|history| - 1], c), c, history[|history| - 1])
  }

  /** The failures since the last success. */
  function Trailing(history: seq<Event>): nat {
    if history == [] then 0
    else
      var init := history[..|history| - 1];
      match history[|history| - 1]
      case Success(_) => 0
      case Failure(_) => Trailing(init) + 1
      case Read(_) => Trailing(init)
  }

  /** When the last failure since the last success happened. */
  function LastFailure(history: seq<Event>): Option<int> {
    if history == [] then None
    else
      match history[|history| - 1]
      case Success(_) => None
      case Failure(at) => Some(at)
      case Read(_) => LastFailure(history[..|history| - 1])
  }

  /** What the breaker is for: the state as a function of the calls made, with no memory of reads. */
  function StateOf(history: seq<Event>, c: Config, now: int): State {
    if Trailing(history) < c.failureThreshold then Closed
    else if LastFailure(history).Some? && now - LastFailure(history).value < c.resetTimeoutMs then Open
    else HalfOpen
  }

  /** The clock never runs backwards, up to and including `now`. */
  predicate ClockRuns(history: seq<Event>, now: int) {
    && (forall i, j :: 0 <= i < j < |history| ==> history[i].at <= history[j].at)
    && (forall i :: 0 <= i < |history| ==> history[i].at <= now)
  }

  lemma {:induction false} TrailingHasLast(history: seq<Event>)
    ensures Trailing(history) > 0 <==> LastFailure(history).Some?
  {
    if history != [] {
      TrailingHasLast(history[..|history| - 1]);
    }
  }

  /** How the stored fields relate to the history. */
  lemma {:induction false} FieldsFollowHistory(history: seq<Event>, c: Config, now: int)
    requires ClockRuns(history, now)
    ensures var b := Replay(history, c);
            && b.failures == Trailing(history)
            && (Trailing(history) == 0 || Trailing(history) < c.failureThreshold ==> b.state == Closed)
            && (Trailing(history) > 0 && Trailing(history) >= c.failureThreshold ==>
                  && b.openedAt == LastFailure(history) && b.openedAt.Some? && b.state != Closed
                  && (b.state == HalfOpen ==> b.openedAt.value != 0 && now - b.openedAt.value >= c.resetTimeoutMs))
  {
    if history != [] {
      var init := history[..|history| - 1];
      FieldsFollowHistory(init, c, history[|history| - 1].at);
    }
  }

  /** Opened at clock reading 0, which is taken for "not opened": such a breaker never turns half open. */
  predicate OpenedAtZero(history: seq<Event>, c: Config, now: int) {
    Trailing(history) >= c.failureThreshold && LastFailure(history) == Some(0) && now >= c.resetTimeoutMs
  }

  /**
   * After any interleaving of successes, failures and reads under a clock that never runs backwards, reading the
   * breaker gives the function of the history, with two exceptions: a breaker opened at clock reading 0, and, where the
   * threshold is below one, a breaker without failures since its last success.
   */
  lemma {:induction false} BreakerIsHistory(history: seq<Event>, c: Config, now: int)
    requires ClockRuns(history, now)
    ensures Observe(Replay(history, c), c, now).state == StateOf(history, c, now)
       <==> (c.failureThreshold >= 1 || Trailing(history) > 0) && !OpenedAtZero(history, c, now)
  {
    FieldsFollowHistory(history, c, now);
    TrailingHasLast(history);
  }

  /** Whatever the threshold, under a positive clock the breaker reads open exactly when it should. */
  lemma {:induction false} OpenExactlyWhen(history: seq<Event>, c: Config, now: int)
    requires ClockRuns(history, now) && forall i :: 0 <= i < |history| ==> history[i].at > 0
    ensures Observe(Replay(history, c), c, now).state == Open
       <==> && Trailing(history) >= c.failureThreshold
            && LastFailure(history).Some? && now - LastFailure(history).value < c.resetTimeoutMs
  {
    FieldsFollowHistory(history, c, now);
    TrailingHasLast(history);
    LastFailureIsInHistory(history);
  }

  /** With a positive clock, as wall clocks are, there is no exception. */
  lemma {:induction false} PositiveClock(history: seq<Event>, c: Config, now: int)
    requires c.failureThreshold >= 1 && ClockRuns(history, now)
    requires forall i :: 0 <= i < |history| ==> history[i].at > 0
    ensures Observe(Replay(history, c), c, now).state == StateOf(history, c, now)
  {
    BreakerIsHistory(history, c, now);
    LastFailureIsInHistory(history);
  }

  lemma {:induction false} LastFailureIsInHistory(history: seq<Event>)
    ensures LastFailure(history).Some? ==> exists i :: 0 <= i < |history| && history[i].at == LastFailure(history).value
  {
    if history != [] {
      var init := history[..|history| - 1];
      LastFailureIsInHistory(init);
      if history[|history| - 1].Failure? {
        assert history[|history| - 1].at == LastFailure(history).value;
      } else if history[|history| - 1].Read? && LastFailure(init).Some? {
        var i :| 0 <= i < |init| && init[i].at == LastFailure(init).value;
        assert history[i].at == LastFailure(history).value;
      }
    }
  }

  /** Reads never change what a later read sees. */
  lemma {:induction false} ReadsAreInvisible(history: seq<Event>, c: Config, at: int, now: int)
    requires at <= now
    ensures Observe(Step(Replay(history, c), c, Read(at)), c, now) == Observe(Replay(history, c), c, now)
  {
  }

  /** What the history counts: failures from the last success on, and the time of the last of them. */
  lemma {:induction false} HistoryCounts(history: seq<Event>, at: int)
    ensures Trailing([]) == 0 && LastFailure([]) == None
    ensures Trailing(history + [Success(at)]) == 0 && LastFailure(history + [Success(at)]) == None
    ensures Trailing(history + [Failure(at)]) == Trailing(history) + 1
    ensures LastFailure(history + [Failure(at)]) == Some(at)
    ensures Trailing(history + [Read(at)]) == Trailing(history)
    ensures LastFailure(history + [Read(at)]) == LastFailure(history)
  {
    forall e | e in [Success(at), Failure(at), Read(at)] ensures (history + [e])[..|history|] == history {
    }
  }

  /** As many failures at one time. */
  function Failures(at: int, k: nat): seq<Event> {
    if k == 0 then [] else Failures(at, k - 1) + [Failure(at)]
  }

  lemma {:induction false} FailuresReplay(c: Config, at: int, k: nat)
    requires c.failureThreshold >= 1
    ensures Replay(Failures(at, k), c)
         == if k >= c.failureThreshold then Breaker(k, Some(at), Open) else Breaker(k, None, Closed)
  {
    if k > 0 {
      FailuresReplay(c, at, k - 1);
      var init := Failures(at, k - 1);
      assert (init + [Failure(at)])[..|init|] == init;
    }
  }

  /**
   * The states in numbers: a breaker opens with the last of as many failures as its threshold says, not before; it
   * stays open until the reset time is up, and is half open from then on; a success closes it.
   */
  lemma {:induction false} LifeOfABreaker(c: Config, at: int, k: nat, now: int, later: int)
    requires c.failureThreshold >= 1 && 0 < at <= now
    ensures var b := Replay(Failures(at, k), c);
            && (k < c.failureThreshold ==> Observe(b, c, now).state == Closed)
            && (k >= c.failureThreshold && now < at + c.resetTimeoutMs ==> Observe(b, c, now).state == Open)
            && (k >= c.failureThreshold && now >= at + c.resetTimeoutMs ==> Observe(b, c, now).state == HalfOpen)
            && Observe(Succeed(b), c, now).state == Closed
            && (k >= c.failureThreshold ==>
                  Observe(Fail(Observe(b, c, now), c, now), c, now) == Observe(Breaker(k + 1, Some(now), Open), c, now))
  {
    FailuresReplay(c, at, k);
  }
}
