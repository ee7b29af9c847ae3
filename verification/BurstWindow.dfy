// Burst detection in the contributor screening script: issues sprayed over repositories within a week, and
// forks created within 72 hours.
module BurstWindow {
  import opened Collections
  import opened Counting
  import opened Options

  /** An issue: when it was filed, in seconds, and in which repository. */
  datatype Entry = Entry(time: int, repo: string)

  datatype Signal = High(value: nat) | Medium(value: nat)

  const WEEK := 7 * 24 * 3_600

  // ---------------------------------------------------------------- sorting by time

  predicate Sorted(entries: seq<Entry>) {
    forall i, j :: 0 <= i < j < |entries| ==> entries[i].time <= entries[j].time
  }

  function InsertByTime(e: Entry, entries: seq<Entry>): seq<Entry> {
    if entries == [] || e.time <= entries[0].time then [e] + entries
    else [entries[0]] + InsertByTime(e, entries[1..])
  }

  function SortByTime(entries: seq<Entry>): seq<Entry> {
    if entries == [] then [] else InsertByTime(entries[0], SortByTime(entries[1..]))
  }

  lemma {:induction false} InsertIsPermutation(e: Entry, entries: seq<Entry>)
    ensures multiset(InsertByTime(e, entries)) == multiset{e} + multiset(entries)
  {
    if entries != [] && e.time > entries[0].time {
      InsertIsPermutation(e, entries[1..]);
      assert entries == [entries[0]] + entries[1..];
    }
  }

  predicate NotBefore(entries: seq<Entry>, time: int) {
    forall i :: 0 <= i < |entries| ==> time <= entries[i].time
  }

  lemma {:induction false} InsertNotBefore(e: Entry, entries: seq<Entry>, time: int)
    requires time <= e.time && NotBefore(entries, time)
    ensures NotBefore(InsertByTime(e, entries), time)
  {
    if entries != [] && e.time > entries[0].time {
      InsertNotBefore(e, entries[1..], time);
    }
  }

  lemma {:induction false} InsertIsSorted(e: Entry, entries: seq<Entry>)
    requires Sorted(entries)
    ensures Sorted(InsertByTime(e, entries))
  {
    if entries != [] && e.time > entries[0].time {
      InsertIsSorted(e, entries[1..]);
      InsertNotBefore(e, entries[1..], entries[0].time);
    }
  }

  lemma {:induction false} SortMeaning(entries: seq<Entry>)
    ensures Sorted(SortByTime(entries)) && multiset(SortByTime(entries)) == multiset(entries)
  {
    if entries != [] {
      SortMeaning(entries[1..]);
      InsertIsPermutation(entries[0], SortByTime(entries[1..]));
      InsertIsSorted(entries[0], SortByTime(entries[1..]));
      assert entries == [entries[0]] + entries[1..];
    }
  }

  // ---------------------------------------------------------------- repositories within a week

  function Repos(entries: seq<Entry>): set<string> {
    set i | 0 <= i < |entries| :: entries[i].repo
  }

  /** The repositories that got an issue in the seven days from a given moment. */
  function ReposFrom(entries: seq<Entry>, start: int): set<string> {
    set i | 0 <= i < |entries| && start <= entries[i].time <= start + WEEK :: entries[i].repo
  }

  /** What the search looks at: the entries from the `k`-th on that are at most a week later. */
  function ForwardWindow(entries: seq<Entry>, k: nat): set<string>
    requires k < |entries|
  {
    set i | k <= i < |entries| && entries[i].time - entries[k].time <= WEEK :: entries[i].repo
  }

  /** The first entry at or after a moment. */
  lemma {:induction false} FirstFrom(entries: seq<Entry>, start: int) returns (k: nat)
    ensures k <= |entries|
    ensures forall i :: 0 <= i < k ==> entries[i].time < start
    ensures k < |entries| ==> entries[k].time >= start
  {
    k := 0;
    while k < |entries| && entries[k].time < start
      invariant k <= |entries| && forall i :: 0 <= i < k ==> entries[i].time < start
    {
      k := k + 1;
    }
  }

  /** Every week is covered by the forward window of some entry. */
  lemma {:induction false} WeekIsCovered(entries: seq<Entry>, start: int) returns (k: nat)
    requires Sorted(entries)
    ensures k == |entries| ==> ReposFrom(entries, start) == {}
    ensures k < |entries| ==> ReposFrom(entries, start) <= ForwardWindow(entries, k) && entries[k].time >= start
    ensures k <= |entries|
  {
    k := FirstFrom(entries, start);
    forall i | 0 <= i < |entries| && start <= entries[i].time <= start + WEEK ensures k < |entries| && k <= i {
    }
  }

  lemma {:induction false} ForwardIsWithin(entries: seq<Entry>, k: nat)
    requires Sorted(entries) && k < |entries|
    ensures ForwardWindow(entries, k) <= ReposFrom(entries, entries[k].time)
  {
    forall i | k <= i < |entries| ensures entries[k].time <= entries[i].time {
    }
  }

  /** The largest forward window: at least as large as any week's set, and itself the set of some week. */
  method LargestWindow(entries: seq<Entry>) returns (best: set<string>)
    requires Sorted(entries)
    ensures forall start :: |ReposFrom(entries, start)| <= |best|
    ensures exists start :: best == ReposFrom(entries, start)
  {
    best := {};
    ghost var at := 0;
    for i := 0 to |entries|
      invariant forall k :: 0 <= k < i ==> |ForwardWindow(entries, k)| <= |best|
      invariant best == {} || (at < i && best == ForwardWindow(entries, at))
    {
      var repos := ForwardWindow(entries, i);
      if |repos| > |best| {
        best, at := repos, i;
      }
    }
    forall start ensures |ReposFrom(entries, start)| <= |best| {
      var k := WeekIsCovered(entries, start);
      if k < |entries| {
        SubsetIsSmaller(ReposFrom(entries, start), ForwardWindow(entries, k));
      }
    }
    if best == {} {
      SomeWeekIsEmpty(entries);
    } else {
      ForwardIsWithin(entries, at);
      assert |ReposFrom(entries, entries[at].time)| <= |best|;
      SubsetIsSmaller(best, ReposFrom(entries, entries[at].time));
    }
  }

  lemma {:induction false} SomeWeekIsEmpty(entries: seq<Entry>)
    requires Sorted(entries)
    ensures exists start :: {} == ReposFrom(entries, start)
  {
    if entries == [] {
      assert ReposFrom(entries, 0) == {};
    } else {
      var start := entries[|entries| - 1].time + 1;
      assert forall i :: 0 <= i < |entries| ==> entries[i].time < start;
      assert ReposFrom(entries, start) == {};
    }
  }

  lemma {:induction false} SameEntriesSameRepos(entries: seq<Entry>, others: seq<Entry>, start: int)
    requires multiset(entries) == multiset(others)
    ensures ReposFrom(entries, start) == ReposFrom(others, start)
  {
    ReposMove(entries, others, start);
    ReposMove(others, entries, start);
  }

  lemma {:induction false} ReposMove(entries: seq<Entry>, others: seq<Entry>, start: int)
    requires multiset(entries) == multiset(others)
    ensures ReposFrom(entries, start) <= ReposFrom(others, start)
  {
    forall i | 0 <= i < |entries| ensures exists j :: 0 <= j < |others| && others[j] == entries[i] {
      assert entries[i] in multiset(entries);
      assert entries[i] in others;
    }
  }

  /** Five repositories or more within some seven days. */
  ghost predicate SprayedWithinAWeek(entries: seq<Entry>) {
    exists start :: |ReposFrom(entries, start)| >= 5
  }

  /**
   * High when five repositories or more were hit within some seven days, and then with the largest number hit in any
   * seven days; otherwise medium when eight or more were hit in all.
   */
  ghost predicate IsSpray(entries: seq<Entry>, signal: Option<Signal>) {
    match signal
    case Some(High(n)) =>
      n >= 5 && (forall start :: |ReposFrom(entries, start)| <= n) && exists start :: |ReposFrom(entries, start)| == n
    case Some(Medium(n)) => !SprayedWithinAWeek(entries) && n == |Repos(entries)| >= 8
    case None => !SprayedWithinAWeek(entries) && |Repos(entries)| < 8
  }

  /**
   * The burst's signal, and behind it those for self-promotion, which are only looked for when there are issues at all.
   */
  method CheckSprayPattern(entries: seq<Entry>, promotions: seq<Signal>) returns (signals: seq<Signal>)
    ensures exists signal ::
      && IsSpray(entries, signal)
      && signals == (if signal.Some? then [signal.value] else []) + if entries == [] then [] else promotions
  {
    if entries == [] {
      assert Repos(entries) == {};
      forall start ensures ReposFrom(entries, start) == {} {
      }
      assert IsSpray(entries, None);
      return [];
    }
    var signal := FindSpray(entries);
    signals := (if signal.Some? then [signal.value] else []) + promotions;
  }

  method FindSpray(entries: seq<Entry>) returns (signal: Option<Signal>)
    ensures IsSpray(entries, signal)
  {
    var uniqueRepos := Repos(entries);
    forall start ensures |ReposFrom(entries, start)| <= |uniqueRepos| {
      SubsetIsSmaller(ReposFrom(entries, start), uniqueRepos);
    }
    signal := None;
    if |uniqueRepos| >= 5 {
      var sorted := SortByTime(entries);
      SortMeaning(entries);
      forall start ensures ReposFrom(sorted, start) == ReposFrom(entries, start) {
        SameEntriesSameRepos(sorted, entries, start);
      }
      var best := LargestWindow(sorted);
      ghost var start :| best == ReposFrom(sorted, start);
      assert best == ReposFrom(entries, start);
      if |best| >= 5 {
        signal := Some(High(|best|));
      } else if |uniqueRepos| >= 8 {
        signal := Some(Medium(|uniqueRepos|));
      }
    }
  }

  // ---------------------------------------------------------------- forks around each other

  const THREE_DAYS := 72 * 3_600

  /** The forks created within 72 hours of a moment, before or after it. */
  function Around(times: seq<int>, t: int): nat {
    Count(times, t - THREE_DAYS, t + THREE_DAYS)
  }

  /** The forks created in the 72 hours from a moment. */
  function Within(times: seq<int>, start: int): nat {
    Count(times, start, start + THREE_DAYS)
  }

  /** The most forks that any one fork has around it, itself included. */
  method MaxWindow(times: seq<int>) returns (most: nat)
    ensures forall i :: 0 <= i < |times| ==> Around(times, times[i]) <= most
    ensures times == [] ==> most == 0
    ensures times != [] ==> exists i :: 0 <= i < |times| && Around(times, times[i]) == most
  {
    most := 0;
    ghost var at := 0;
    for i := 0 to |times|
      invariant forall k :: 0 <= k < i ==> Around(times, times[k]) <= most
      invariant if i == 0 then most == 0 && at == 0 else at < i && Around(times, times[at]) == most
    {
      var n := CountAround(times, times[i]);
      if n > most {
        most, at := n, i;
      }
    }
  }

  method CountAround(times: seq<int>, t: int) returns (n: nat)
    ensures n == Around(times, t)
  {
    n := 0;
    for i := 0 to |times|
      invariant n == Count(times[..i], t - THREE_DAYS, t + THREE_DAYS)
    {
      var d := times[i] - t;
      assert times[..i + 1] == times[..i] + [times[i]];
      CountStep(times[..i], times[i], t - THREE_DAYS, t + THREE_DAYS);
      if -THREE_DAYS <= d <= THREE_DAYS {
        n := n + 1;
      }
    }
    assert times[..|times|] == times;
  }

  ghost predicate MostAround(times: seq<int>, most: nat) {
    && (forall i :: 0 <= i < |times| ==> Around(times, times[i]) <= most)
    && (times == [] ==> most == 0)
    && (times != [] ==> exists i :: 0 <= i < |times| && Around(times, times[i]) == most)
  }

  /** No 72 hours hold more forks than the number reported. */
  lemma {:induction false} NoBurstIsMissed(times: seq<int>, most: nat, start: int)
    requires MostAround(times, most)
    ensures Within(times, start) <= most
  {
    if Within(times, start) > 0 {
      var i := CountWitness(times, start, start + THREE_DAYS);
      CountWider(times, start, start + THREE_DAYS, times[i] - THREE_DAYS, times[i] + THREE_DAYS);
    }
  }

  /**
   * The window reaches 72 hours to either side, so that a number reported need not be the number within 72 hours, but
   * some 72 hours hold at least half of it, counting the middle one twice.
   */
  lemma {:induction false} HalfIsWithin(times: seq<int>, most: nat) returns (start: int)
    requires MostAround(times, most) && times != []
    ensures 2 * Within(times, start) >= most + 1
  {
    var i :| 0 <= i < |times| && Around(times, times[i]) == most;
    var t := times[i];
    CountSplit(times, t - THREE_DAYS, t, t + THREE_DAYS);
    CountOf(times, i, t, t);
    var before, after := Count(times, t - THREE_DAYS, t), Count(times, t, t + THREE_DAYS);
    start := if before >= after then t - THREE_DAYS else t;
  }

  /** The forks around the `i`-th one all lie within 72 hours of each other. */
  predicate Together(times: seq<int>, i: nat)
    requires i < |times|
  {
    forall j, k :: 0 <= j < |times| && 0 <= k < |times| && IsNear(times[i], times[j]) && IsNear(times[i], times[k]) ==>
      IsNear(times[j], times[k])
  }

  predicate IsNear(t: int, u: int) {
    -THREE_DAYS <= u - t <= THREE_DAYS
  }

  /** Some fork with the most forks around it has them all within 72 hours of each other. */
  ghost predicate TruthfullyMost(times: seq<int>, most: nat) {
    exists i :: 0 <= i < |times| && Around(times, times[i]) == most && Together(times, i)
  }

  lemma {:induction false} TogetherIsWithin(times: seq<int>, most: nat, i: nat) returns (start: int)
    requires MostAround(times, most) && i < |times| && Around(times, times[i]) == most && Together(times, i)
    ensures Within(times, start) == most
  {
    var t := times[i];
    CountOf(times, i, t - THREE_DAYS, t + THREE_DAYS);
    var first := Earliest(times, t - THREE_DAYS, t + THREE_DAYS);
    start := times[first];
    assert IsNear(t, times[first]);
    forall j | 0 <= j < |times| && t - THREE_DAYS <= times[j] <= t + THREE_DAYS
      ensures start <= times[j] <= start + THREE_DAYS
    {
      assert IsNear(t, times[j]) && IsNear(times[first], times[j]);
    }
    CountInto(times, t - THREE_DAYS, t + THREE_DAYS, start, start + THREE_DAYS);
    NoBurstIsMissed(times, most, start);
  }

  lemma {:induction false} WithinIsTogether(times: seq<int>, most: nat, start: int) returns (i: nat)
    requires MostAround(times, most) && times != [] && Within(times, start) == most
    ensures i < |times| && Around(times, times[i]) == most && Together(times, i)
  {
    CountOf(times, 0, times[0] - THREE_DAYS, times[0] + THREE_DAYS);
    assert Around(times, times[0]) <= most;
    i := CountWitness(times, start, start + THREE_DAYS);
    var t := times[i];
    CountInto(times, start, start + THREE_DAYS, t - THREE_DAYS, t + THREE_DAYS);
    assert Around(times, t) <= most;
    forall j | 0 <= j < |times| && IsNear(t, times[j]) ensures start <= times[j] <= start + THREE_DAYS {
      assert t - THREE_DAYS <= times[j] <= t + THREE_DAYS;
    }
  }

  /**
   * The number reported is the number within some 72 hours if and only if, around some fork that has as many around it,
   * no two forks are more than 72 hours apart.
   */
  lemma {:induction false} TruthfulExactlyWhen(times: seq<int>, most: nat)
    requires MostAround(times, most) && times != []
    ensures (exists start :: Within(times, start) == most) <==> TruthfullyMost(times, most)
  {
    if start :| Within(times, start) == most {
      var i := WithinIsTogether(times, most, start);
    }
    if i :| 0 <= i < |times| && Around(times, times[i]) == most && Together(times, i) {
      var start := TogetherIsWithin(times, most, i);
    }
  }

  /** Five forks are reported as created within 72 hours although no 72 hours hold more than three of them. */
  lemma {:induction false} ReportCanOverstate(start: int)
    ensures var times := [0, 0, THREE_DAYS, 2 * THREE_DAYS, 2 * THREE_DAYS];
            MostAround(times, 5) && Within(times, start) <= 3
  {
    var h := THREE_DAYS;
    var times := [0, 0, h, 2 * h, 2 * h];
    FiveCounts(0, 0, h, 2 * h, 2 * h, start, start + h);
    FiveCounts(0, 0, h, 2 * h, 2 * h, -h, h);
    FiveCounts(0, 0, h, 2 * h, 2 * h, 0, 2 * h);
    FiveCounts(0, 0, h, 2 * h, 2 * h, h, 3 * h);
    assert Around(times, times[2]) == 5;
  }

  lemma {:induction false} FiveCounts(a: int, b: int, c: int, d: int, e: int, lo: int, hi: int)
    ensures Count([a, b, c, d, e], lo, hi)
         == (if lo <= a <= hi then 1 else 0) + (if lo <= b <= hi then 1 else 0) + (if lo <= c <= hi then 1 else 0)
            + (if lo <= d <= hi then 1 else 0) + if lo <= e <= hi then 1 else 0
  {
    assert [] + [a] == [a] && [a] + [b] == [a, b] && [a, b] + [c] == [a, b, c];
    assert [a, b, c] + [d] == [a, b, c, d] && [a, b, c, d] + [e] == [a, b, c, d, e];
    CountStep([], a, lo, hi);
    CountStep([a], b, lo, hi);
    CountStep([a, b], c, lo, hi);
    CountStep([a, b, c], d, lo, hi);
    CountStep([a, b, c, d], e, lo, hi);
  }

  predicate SomeAround(times: seq<int>, n: nat) {
    exists i :: 0 <= i < |times| && Around(times, times[i]) >= n
  }

  /** That many forks from some fork on, within 72 hours. */
  ghost predicate BurstFrom(times: seq<int>, n: nat) {
    exists i :: 0 <= i < |times| && Within(times, times[i]) >= n
  }

  /** Some 72 hours hold that many forks if and only if they do from some fork on. */
  lemma {:induction false} BurstExactlyWhen(times: seq<int>, n: nat)
    requires n >= 1
    ensures (exists start :: Within(times, start) >= n) <==> BurstFrom(times, n)
  {
    if start :| Within(times, start) >= n {
      var i := Earliest(times, start, start + THREE_DAYS);
      CountInto(times, start, start + THREE_DAYS, times[i], times[i] + THREE_DAYS);
      assert Within(times, times[i]) >= n;
    }
  }

  /** Three forks 72 hours apart are a burst for the check, although no 72 hours hold more than two of them. */
  lemma {:induction false} SignalCanBeUnearned()
    ensures var times := [0, THREE_DAYS, 2 * THREE_DAYS]; SomeAround(times, 3) && !BurstFrom(times, 3)
  {
    var h := THREE_DAYS;
    var times := [0, h, 2 * h];
    ThreeCounts(0, h, 2 * h, 0, 2 * h);
    assert Around(times, times[1]) == 3;
    forall i | 0 <= i < |times| ensures Within(times, times[i]) <= 2 {
      ThreeCounts(0, h, 2 * h, times[i], times[i] + h);
    }
  }

  lemma {:induction false} ThreeCounts(a: int, b: int, c: int, lo: int, hi: int)
    ensures Count([a, b, c], lo, hi)
         == (if lo <= a <= hi then 1 else 0) + (if lo <= b <= hi then 1 else 0) + if lo <= c <= hi then 1 else 0
  {
    assert [] + [a] == [a] && [a] + [b] == [a, b] && [a, b] + [c] == [a, b, c];
    CountStep([], a, lo, hi);
    CountStep([a], b, lo, hi);
    CountStep([a, b], c, lo, hi);
  }

  /** How many forks a signal claims at least. */
  function Threshold(signal: Signal): nat {
    if signal.High? then 3 else 5
  }

  /** A repository: whether it is a fork, a curated list, and whether a pull request goes from it to its parent. */
  datatype Repo = Repo(isFork: bool, created: int, curated: bool, hasOutgoingPr: bool)

  const DAY := 24 * 3_600

  /** Forks of the last ninety days count, in whole days, and without pull requests when the user's name is known. */
  predicate CountsAsFork(r: Repo, now: int, userKnown: bool) {
    r.isFork && (now - r.created) / DAY <= 90 && !(userKnown && r.hasOutgoingPr)
  }

  /** When the forks that count were created, the curated ones only or all. */
  function ForkTimes(repos: seq<Repo>, now: int, userKnown: bool, curatedOnly: bool): seq<int> {
    if repos == [] then []
    else
      var last := repos[|repos| - 1];
      ForkTimes(repos[..|repos| - 1], now, userKnown, curatedOnly)
      + if CountsAsFork(last, now, userKnown) && (curatedOnly ==> last.curated) then [last.created] else []
  }

  /** What a signal's value was taken from. */
  function Counted(repos: seq<Repo>, now: int, userKnown: bool, signal: Signal): seq<int> {
    ForkTimes(repos, now, userKnown, signal.High?)
  }

  /**
   * High for three curated forks around one, otherwise medium for five forks around one; the value is the most that any
   * fork has around it, and some 72 hours hold that many exactly when the forks around such a fork are together. Some
   * 72 hours hold as many as the signal claims exactly when they do from some fork on; three curated forks there are
   * never missed, and with no signal no 72 hours hold three curated forks, or five.
   */
  method CheckForkBurst(repos: seq<Repo>, now: int, userKnown: bool) returns (signal: Option<Signal>)
    ensures signal.Some? && signal.value.High? <==> SomeAround(ForkTimes(repos, now, userKnown, true), 3)
    ensures signal.Some? && signal.value.Medium? <==>
      !SomeAround(ForkTimes(repos, now, userKnown, true), 3) && SomeAround(ForkTimes(repos, now, userKnown, false), 5)
    ensures signal.Some? ==> MostAround(Counted(repos, now, userKnown, signal.value), signal.value.value)
    ensures signal.Some? ==>
      ((exists start :: Within(Counted(repos, now, userKnown, signal.value), start) == signal.value.value)
       <==> TruthfullyMost(Counted(repos, now, userKnown, signal.value), signal.value.value))
    ensures signal.Some? ==>
      ((exists start :: Within(Counted(repos, now, userKnown, signal.value), start) >= Threshold(signal.value))
       <==> BurstFrom(Counted(repos, now, userKnown, signal.value), Threshold(signal.value)))
    ensures BurstFrom(ForkTimes(repos, now, userKnown, true), 3) ==> signal.Some? && signal.value.High?
    ensures BurstFrom(ForkTimes(repos, now, userKnown, false), 5) ==> signal.Some?
    ensures signal.None? ==> forall start ::
      && Within(ForkTimes(repos, now, userKnown, true), start) < 3
      && Within(ForkTimes(repos, now, userKnown, false), start) < 5
  {
    var forks, awesomeForks := CollectForks(repos, now, userKnown);
    var maxWindow := MaxWindow(forks);
    var awesomeWindow := MaxWindow(awesomeForks);
    forall start ensures Within(awesomeForks, start) <= awesomeWindow {
      NoBurstIsMissed(awesomeForks, awesomeWindow, start);
    }
    forall start ensures Within(forks, start) <= maxWindow {
      NoBurstIsMissed(forks, maxWindow, start);
    }
    signal := None;
    if awesomeWindow >= 3 {
      signal := Some(High(awesomeWindow));
      TruthfulExactlyWhen(awesomeForks, awesomeWindow);
      BurstExactlyWhen(awesomeForks, 3);
    } else if maxWindow >= 5 {
      signal := Some(Medium(maxWindow));
      TruthfulExactlyWhen(forks, maxWindow);
      BurstExactlyWhen(forks, 5);
    }
  }

  method CollectForks(repos: seq<Repo>, now: int, userKnown: bool) returns (forks: seq<int>, awesomeForks: seq<int>)
    ensures forks == ForkTimes(repos, now, userKnown, false) && awesomeForks == ForkTimes(repos, now, userKnown, true)
  {
    forks, awesomeForks := [], [];
    for i := 0 to |repos|
      invariant forks == ForkTimes(repos[..i], now, userKnown, false)
      invariant awesomeForks == ForkTimes(repos[..i], now, userKnown, true)
    {
      var repo := repos[i];
      assert repos[..i + 1][..i] == repos[..i];
      if repo.isFork {
        var days := (now - repo.created) / DAY;
        if days <= 90 && !(userKnown && repo.hasOutgoingPr) {
          forks := forks + [repo.created];
          if repo.curated {
            awesomeForks := awesomeForks + [repo.created];
          }
        }
      }
    }
    assert repos[..|repos|] == repos;
  }

  /** The spans in seconds. */
  lemma {:induction false} Spans()
    ensures WEEK == 604_800 && THREE_DAYS == 259_200 && DAY == 86_400
    ensures forall n :: Threshold(High(n)) == 3 && Threshold(Medium(n)) == 5
  {
  }

  /** Which repositories got an issue within seven days, and how many forks were created around and from a moment. */
  lemma {:induction false} WindowsInSeconds(entries: seq<Entry>, times: seq<int>, t: int)
    ensures forall r :: r in ReposFrom(entries, t) <==>
              exists i :: 0 <= i < |entries| && t <= entries[i].time <= t + 604_800 && entries[i].repo == r
    ensures forall r :: r in Repos(entries) <==> exists i :: 0 <= i < |entries| && entries[i].repo == r
    ensures Around(times, t) == |set i | 0 <= i < |times| && t - 259_200 <= times[i] <= t + 259_200|
    ensures Within(times, t) == |set i | 0 <= i < |times| && t <= times[i] <= t + 259_200|
  {
    CountIsSize(times, t - 259_200, t + 259_200);
    CountIsSize(times, t, t + 259_200);
  }

  /** Which burst signal there is, and what it says. */
  lemma {:induction false} SprayExactlyWhen(entries: seq<Entry>, signal: Option<Signal>)
    requires IsSpray(entries, signal)
    ensures (exists n :: signal == Some(High(n))) <==> exists start :: |ReposFrom(entries, start)| >= 5
    ensures (exists n :: signal == Some(Medium(n))) <==>
              (forall start :: |ReposFrom(entries, start)| < 5) && |Repos(entries)| >= 8
    ensures signal == None <==> (forall start :: |ReposFrom(entries, start)| < 5) && |Repos(entries)| < 8
    ensures forall n :: signal == Some(High(n)) ==>
              (exists start :: |ReposFrom(entries, start)| == n) && forall start :: |ReposFrom(entries, start)| <= n
    ensures forall n :: signal == Some(Medium(n)) ==> n == |Repos(entries)|
  {
  }

  /** A fork counts unless it is older than ninety days, in whole days, or has a pull request and its owner is known. */
  lemma {:induction false} ForkCountsWhen(r: Repo, now: int, userKnown: bool)
    ensures !r.isFork ==> !CountsAsFork(r, now, userKnown)
    ensures r.isFork && now - r.created >= 91 * 86_400 ==> !CountsAsFork(r, now, userKnown)
    ensures r.isFork && userKnown && r.hasOutgoingPr ==> !CountsAsFork(r, now, userKnown)
    ensures r.isFork && now - r.created < 91 * 86_400 && !(userKnown && r.hasOutgoingPr) ==>
              CountsAsFork(r, now, userKnown)
  {
  }

  /** The forks counted, one repository at a time. */
  lemma {:induction false} ForksInOrder(repos: seq<Repo>, r: Repo, now: int, userKnown: bool)
    ensures ForkTimes(repos + [r], now, userKnown, false)
         == ForkTimes(repos, now, userKnown, false) + (if CountsAsFork(r, now, userKnown) then [r.created] else [])
    ensures ForkTimes(repos + [r], now, userKnown, true)
         == ForkTimes(repos, now, userKnown, true)
            + (if CountsAsFork(r, now, userKnown) && r.curated then [r.created] else [])
  {
    assert (repos + [r])[..|repos|] == repos;
  }
}
