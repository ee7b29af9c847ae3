// The fixed-window rate limiter of the policy engine, one window per rule name.
module RateLimits {
  import opened Counting
  import opened Options

  /** A limit; the count is absent when the text before the slash is no number, and then nothing is ever limited. */
  datatype Limit = Limit(count: Option<int>, periodMs: Period)

  /** Limits are per second, minute, hour or day. */
  type Period = p: int | 1 <= p witness 1

  datatype Window = Window(count: nat, resetAt: int)

  /** A window that has run out is forgotten. */
  function Live(w: Option<Window>, now: int): Option<Window> {
    if w.Some? && now > w.value.resetAt then None else w
  }

  predicate Exhausted(w: Option<Window>, limit: Limit) {
    w.Some? && limit.count.Some? && w.value.count >= limit.count.value
  }

  /** Counting a call opens a window when there is none. */
  function Counted(w: Option<Window>, limit: Limit, now: int): Window {
    if w.None? then Window(1, now + limit.periodMs) else w.value.(count := w.value.count + 1)
  }

  /** One call: whether it is admitted, and the window it leaves. */
  function Check(limit: Limit, w: Option<Window>, now: int): (bool, Option<Window>) {
    if Exhausted(Live(w, now), limit) then (false, Live(w, now)) else (true, Some(Counted(Live(w, now), limit, now)))
  }

  // ---------------------------------------------------------------- runs of one limit

  /** An admitted call: its time, when its window was opened, and how many calls the window had admitted before it. */
  datatype Stamp = Stamp(time: int, start: int, index: nat)

  function Stamped(log: seq<Stamp>, limit: Limit, admitted: bool, w: Option<Window>, now: int): seq<Stamp> {
    if admitted && w.Some? && w.value.count > 0
    then log + [Stamp(now, w.value.resetAt - limit.periodMs, w.value.count - 1)]
    else log
  }

  /** The admitted calls of a run, and the window it leaves. */
  function Run(limit: Limit, times: seq<int>): (seq<Stamp>, Option<Window>) {
    if times == [] then ([], None)
    else
      var now := times[|times| - 1];
      var (log, w) := Run(limit, times[..|times| - 1]);
      var (admitted, next) := Check(limit, w, now);
      (Stamped(log, limit, admitted, next, now), next)
  }

  predicate NonDecreasing(times: seq<int>) {
    forall i, j :: 0 <= i < j < |times| ==> times[i] <= times[j]
  }

  /** The first call of a window is admitted whatever the count. */
  function Allowance(count: int): nat {
    if count > 1 then count else 1
  }

  /** A call falls into its window, and a window's first call opens it. */
  predicate InWindow(s: Stamp, period: nat) {
    s.start <= s.time <= s.start + period && (s.index == 0 ==> s.time == s.start)
  }

  /**
   * Calls `n` places apart are `n` apart within one window, or the later window opened after the earlier one ran out.
   */
  predicate InSequence(s: Stamp, t: Stamp, n: int, period: nat) {
    if s.start == t.start then t.index == s.index + n else s.start + period < t.start
  }

  predicate Regular(log: seq<Stamp>, period: nat) {
    && (forall i :: 0 <= i < |log| ==> InWindow(log[i], period))
    && (forall i, j :: 0 <= i < j < |log| ==> InSequence(log[i], log[j], j - i, period))
  }

  predicate WithinAllowance(log: seq<Stamp>, limit: Limit) {
    limit.count.Some? ==> forall i :: 0 <= i < |log| ==> log[i].index < Allowance(limit.count.value)
  }

  /** The current window is that of the last admitted call. */
  predicate Matches(log: seq<Stamp>, w: Option<Window>, period: nat) {
    if log == [] then w.None?
    else
      var last := log[|log| - 1];
      w == Some(Window(last.index + 1, last.start + period))
  }

  predicate Before(log: seq<Stamp>, now: int) {
    log != [] ==> log[|log| - 1].time <= now
  }

  lemma {:induction false} CheckKeepsRegular(limit: Limit, log: seq<Stamp>, w: Option<Window>, now: int)
    requires Regular(log, limit.periodMs) && Matches(log, w, limit.periodMs) && Before(log, now)
    requires WithinAllowance(log, limit)
    ensures var (admitted, next) := Check(limit, w, now);
            var after := Stamped(log, limit, admitted, next, now);
            && Regular(after, limit.periodMs) && Matches(after, next, limit.periodMs) && Before(after, now)
            && WithinAllowance(after, limit)
  {
    var (admitted, next) := Check(limit, w, now);
    if log != [] {
      var last := log[|log| - 1];
      assert InWindow(last, limit.periodMs);
      if admitted {
        var s := Stamp(now, next.value.resetAt - limit.periodMs, next.value.count - 1);
        assert InWindow(s, limit.periodMs) && InSequence(last, s, 1, limit.periodMs);
        forall i | 0 <= i < |log| ensures InSequence(log[i], s, |log| - i, limit.periodMs) {
          assert i < |log| - 1 ==> InSequence(log[i], last, |log| - 1 - i, limit.periodMs);
        }
      }
    }
  }

  lemma {:induction false} RunStep(limit: Limit, times: seq<int>, now: int)
    ensures var (log, w) := Run(limit, times);
            var (admitted, next) := Check(limit, w, now);
            Run(limit, times + [now]) == (Stamped(log, limit, admitted, next, now), next)
  {
    assert (times + [now])[..|times|] == times;
  }

  lemma {:induction false} RunIsRegular(limit: Limit, times: seq<int>)
    requires NonDecreasing(times)
    ensures var (log, w) := Run(limit, times);
            && Regular(log, limit.periodMs) && Matches(log, w, limit.periodMs) && WithinAllowance(log, limit)
            && (times != [] ==> Before(log, times[|times| - 1]))
  {
    if times != [] {
      var init, now := times[..|times| - 1], times[|times| - 1];
      RunIsRegular(limit, init);
      var (log, w) := Run(limit, init);
      assert init != [] ==> init[|init| - 1] <= now;
      CheckKeepsRegular(limit, log, w, now);
    }
  }

  // ---------------------------------------------------------------- how much is admitted

  function Times(log: seq<Stamp>): (r: seq<int>)
    ensures |r| == |log|
  {
    seq(|log|, i requires 0 <= i < |log| => log[i].time)
  }

  function Starts(log: seq<Stamp>): (r: seq<int>)
    ensures |r| == |log|
  {
    seq(|log|, i requires 0 <= i < |log| => log[i].start)
  }

  /** Calls as many places apart as a window may hold belong to different windows. */
  lemma {:induction false} WindowsApart(log: seq<Stamp>, n: nat, period: nat, i: nat, j: nat)
    requires Regular(log, period) && (forall k :: 0 <= k < |log| ==> log[k].index < n)
    requires i < j < |log| && i + n <= j + log[i].index
    ensures log[i].start + period < log[j].start
  {
    assert InSequence(log[i], log[j], j - i, period);
  }

  /** In every run with a clock that never goes back, no fixed window admits more than its allowance. */
  lemma {:induction false} EachWindowIsBounded(limit: Limit, times: seq<int>, start: int)
    requires NonDecreasing(times) && limit.count.Some?
    ensures Count(Starts(Run(limit, times).0), start, start) <= Allowance(limit.count.value)
  {
    RunIsRegular(limit, times);
    var log, n := Run(limit, times).0, Allowance(limit.count.value);
    forall i, j | 0 <= i && i + n <= j < |log| ensures Starts(log)[i] + 0 < Starts(log)[j] {
      WindowsApart(log, n, limit.periodMs, i, j);
    }
    SpreadCount(Starts(log), n, 0, start);
  }

  /**
   * And no interval as long as the period, wherever it starts, admits more than twice the allowance less one: it
   * cannot hold calls of two windows and also the call that opened the earlier one.
   */
  lemma {:induction false} EachIntervalIsBounded(limit: Limit, times: seq<int>, from: int)
    requires NonDecreasing(times) && limit.count.Some?
    ensures Count(Times(Run(limit, times).0), from, from + limit.periodMs) <= 2 * Allowance(limit.count.value) - 1
  {
    RunIsRegular(limit, times);
    var log, n := Run(limit, times).0, Allowance(limit.count.value);
    forall i, j | 0 <= i && i + (2 * n - 1) <= j < |log| ensures Times(log)[i] + limit.periodMs < Times(log)[j] {
      FarApart(log, n, limit.periodMs, i, j);
    }
    SpreadCount(Times(log), 2 * n - 1, limit.periodMs, from);
  }

  lemma {:induction false} FarApart(log: seq<Stamp>, n: nat, period: nat, i: nat, j: nat)
    requires n >= 1 && Regular(log, period) && (forall k :: 0 <= k < |log| ==> log[k].index < n)
    requires i + (2 * n - 1) <= j < |log|
    ensures log[i].time + period < log[j].time
  {
    assert InWindow(log[i], period) && InWindow(log[j], period);
    if log[i].index == 0 {
      WindowsApart(log, n, period, i, j);
    } else {
      WindowsApart(log, n, period, i, i + n - 1);
      WindowsApart(log, n, period, i + n - 1, j);
    }
  }

  function Repeated(times: seq<int>, now: int, n: nat): seq<int> {
    if n == 0 then times else Repeated(times, now, n - 1) + [now]
  }

  lemma {:induction false} RepeatedIsNonDecreasing(times: seq<int>, now: int, n: nat)
    requires NonDecreasing(times) && forall i :: 0 <= i < |times| ==> times[i] <= now
    ensures NonDecreasing(Repeated(times, now, n))
      && forall i :: 0 <= i < |Repeated(times, now, n)| ==> Repeated(times, now, n)[i] <= now
  {
    if n > 0 {
      RepeatedIsNonDecreasing(times, now, n - 1);
    }
  }

  /** The number of calls that a run admits in an interval as long as the period. */
  function AdmittedFrom(limit: Limit, times: seq<int>, from: int): nat {
    Count(Times(Run(limit, times).0), from, from + limit.periodMs)
  }

  /** After the run the window is `w`, and the interval holds `n` admitted calls. */
  predicate Leaves(limit: Limit, times: seq<int>, from: int, w: Option<Window>, n: nat) {
    Run(limit, times).1 == w && AdmittedFrom(limit, times, from) == n
  }

  /** How many of `k` calls at one time fall into the interval. */
  function InInterval(limit: Limit, now: int, from: int, k: nat): nat {
    if from <= now <= from + limit.periodMs then k else 0
  }

  /** One more call that is admitted. */
  lemma {:induction false} AdmittedStep(limit: Limit, times: seq<int>, now: int, from: int, w: Option<Window>, n: nat)
    requires Leaves(limit, times, from, w, n) && !Exhausted(Live(w, now), limit)
    ensures Leaves(limit, times + [now], from, Some(Counted(Live(w, now), limit, now)),
                   n + InInterval(limit, now, from, 1))
  {
    RunStep(limit, times, now);
    var log := Run(limit, times).0;
    var next := Counted(Live(w, now), limit, now);
    var s := Stamp(now, next.resetAt - limit.periodMs, next.count - 1);
    assert Times(log + [s]) == Times(log) + [now];
    CountStep(Times(log), now, from, from + limit.periodMs);
  }

  /** An open window admits as many calls at once as are left in it. */
  lemma {:induction false} WindowFills(limit: Limit, times: seq<int>, now: int, k: nat, from: int, w: Window, n: nat)
    requires Leaves(limit, times, from, Some(w), n) && now <= w.resetAt
    requires limit.count.Some? && (k > 0 ==> w.count + k <= limit.count.value)
    ensures Leaves(limit, Repeated(times, now, k), from, Some(w.(count := w.count + k)),
                   n + InInterval(limit, now, from, k))
  {
    if k > 0 {
      WindowFills(limit, times, now, k - 1, from, w, n);
      var v := w.(count := w.count + k - 1);
      assert Live(Some(v), now) == Some(v);
      AdmittedStep(limit, Repeated(times, now, k - 1), now, from, Some(v), n + InInterval(limit, now, from, k - 1));
    }
  }

  /** The first call in a new window and all others it admits, at one time. */
  lemma {:induction false} WholeWindow(limit: Limit, times: seq<int>, now: int, k: nat, from: int, w: Option<Window>,
                                       n: nat)
    requires Leaves(limit, times, from, w, n) && Live(w, now) == None
    requires limit.count.Some? && k < Allowance(limit.count.value) && from <= now <= from + limit.periodMs
    ensures Leaves(limit, Repeated(times + [now], now, k), from, Some(Window(1 + k, now + limit.periodMs)), n + 1 + k)
  {
    var first := Window(1, now + limit.periodMs);
    AdmittedStep(limit, times, now, from, w, n);
    assert Counted(Live(w, now), limit, now) == first && InInterval(limit, now, from, 1) == 1;
    WindowFills(limit, times + [now], now, k, from, first, n + 1);
    assert InInterval(limit, now, from, k) == k
      && first.(count := first.count + k) == Window(1 + k, now + limit.periodMs);
  }

  /** A first call, `k` more at the last moment of its window, and 1 + k right after it. */
  function TightTimes(p: nat, k: nat): seq<int> {
    Repeated(Repeated([0], p, k) + [p + 1], p + 1, k)
  }

  lemma {:induction false} TightIsTimely(p: nat, k: nat)
    ensures NonDecreasing(TightTimes(p, k))
  {
    RepeatedIsNonDecreasing([0], p, k);
    RepeatedIsNonDecreasing(Repeated([0], p, k) + [p + 1], p + 1, k);
  }

  lemma {:induction false} FirstCall(limit: Limit, from: int)
    requires 0 < from
    ensures Leaves(limit, [0], from, Some(Window(1, limit.periodMs)), 0)
  {
    assert Leaves(limit, [], from, None, 0);
    AdmittedStep(limit, [], 0, from, None, 0);
    assert [] + [0] == [0];
  }

  lemma {:induction false} TightRun(limit: Limit, k: nat)
    requires limit.count.Some? && 1 + k == Allowance(limit.count.value)
    ensures Leaves(limit, TightTimes(limit.periodMs, k), limit.periodMs, Some(Window(1 + k, 2 * limit.periodMs + 1)),
                   2 * k + 1)
  {
    var p := limit.periodMs;
    FirstCall(limit, p);
    WindowFills(limit, [0], p, k, p, Window(1, p), 0);
    WholeWindow(limit, Repeated([0], p, k), p + 1, k, p, Some(Window(1 + k, p)), k);
  }

  /**
   * The bound is reached for every limit: a first call, the rest of the window at its last moment, and a whole window
   * right after it.
   */
  lemma {:induction false} IntervalBoundIsTight(limit: Limit) returns (times: seq<int>, from: int)
    requires limit.count.Some?
    ensures NonDecreasing(times) && AdmittedFrom(limit, times, from) == 2 * Allowance(limit.count.value) - 1
  {
    times, from := TightTimes(limit.periodMs, Allowance(limit.count.value) - 1), limit.periodMs;
    TightIsTimely(limit.periodMs, Allowance(limit.count.value) - 1);
    TightRun(limit, Allowance(limit.count.value) - 1);
  }

  /** So an interval never admits more than one window does, in any run, if and only if the count is at most one. */
  lemma {:induction false} OneAllowanceExactlyWhen(limit: Limit)
    requires limit.count.Some?
    ensures (forall times, from ::
               NonDecreasing(times) ==> AdmittedFrom(limit, times, from) <= Allowance(limit.count.value))
       <==> limit.count.value <= 1
  {
    if limit.count.value <= 1 {
      forall times, from | NonDecreasing(times) ensures AdmittedFrom(limit, times, from) <= 1 {
        EachIntervalIsBounded(limit, times, from);
      }
    } else {
      var times, from := IntervalBoundIsTight(limit);
    }
  }
}
