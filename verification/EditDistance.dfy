// The Levenshtein table of the typosquatting detector: the filled table is the length of the
// shortest sequence of single-character edits, and so a metric.
module EditDistance {
  import opened Collections

  function Min(x: nat, y: nat): nat {
    if x <= y then x else y
  }

  function Max(x: nat, y: nat): nat {
    if x >= y then x else y
  }

  function Cost(x: char, y: char): nat {
    if x == y then 0 else 1
  }

  /** The recurrence the table is filled by, on the prefixes of lengths `i` and `j`. */
  function Dist(a: string, b: string, i: nat, j: nat): nat
    requires i <= |a| && j <= |b|
  {
    if i == 0 then j
    else if j == 0 then i
    else
      Min(Dist(a, b, i - 1, j) + 1,
          Min(Dist(a, b, i, j - 1) + 1, Dist(a, b, i - 1, j - 1) + Cost(a[i - 1], b[j - 1])))
  }

  function Distance(a: string, b: string): nat {
    Dist(a, b, |a|, |b|)
  }

  method Levenshtein(a: string, b: string) returns (d: nat)
    ensures d == Distance(a, b)
  {
    var m, n := |a|, |b|;
    var dp := new nat[m + 1, n + 1]((i, j) => 0);
    for i := 0 to m + 1
      invariant forall k :: 0 <= k < i ==> dp[k, 0] == k
    {
      dp[i, 0] := i;
    }
    for j := 0 to n + 1
      invariant forall k :: 0 <= k <= m ==> dp[k, 0] == k
      invariant forall l :: 0 <= l < j ==> dp[0, l] == l
    {
      dp[0, j] := j;
    }
    assert RowFilled(dp, a, b, 0);
    for i := 1 to m + 1
      invariant forall k :: 0 <= k <= m ==> dp[k, 0] == k
      invariant RowFilled(dp, a, b, i - 1)
    {
      FillRow(dp, a, b, i);
    }
    d := dp[m, n];
  }

  ghost predicate RowFilled(dp: array2<nat>, a: string, b: string, i: nat)
    requires dp.Length0 == |a| + 1 && dp.Length1 == |b| + 1 && i <= |a|
    reads dp
  {
    forall l :: 0 <= l <= |b| ==> dp[i, l] == Dist(a, b, i, l)
  }

  /** The inner loop: one row of the table, from the row above it. */
  method FillRow(dp: array2<nat>, a: string, b: string, i: nat)
    requires dp.Length0 == |a| + 1 && dp.Length1 == |b| + 1 && 1 <= i <= |a|
    requires dp[i, 0] == i && RowFilled(dp, a, b, i - 1)
    modifies dp
    ensures RowFilled(dp, a, b, i)
    ensures forall k, l :: 0 <= k <= |a| && 0 <= l <= |b| && k != i ==> dp[k, l] == old(dp[k, l])
    ensures dp[i, 0] == old(dp[i, 0])
  {
    for j := 1 to |b| + 1
      invariant forall k, l :: 0 <= k <= |a| && 0 <= l <= |b| && k != i ==> dp[k, l] == old(dp[k, l])
      invariant forall l :: 0 <= l < j ==> dp[i, l] == Dist(a, b, i, l)
    {
      var cost := Cost(a[i - 1], b[j - 1]);
      assert dp[i - 1, j] == Dist(a, b, i - 1, j) && dp[i - 1, j - 1] == Dist(a, b, i - 1, j - 1);
      dp[i, j] := Min(dp[i - 1, j] + 1, Min(dp[i, j - 1] + 1, dp[i - 1, j - 1] + cost));
    }
  }

  // ---------------------------------------------------------------- edits

  /** A single-character edit at a position. */
  datatype Edit = Insert(at: nat, c: char) | Delete(at: nat) | Replace(at: nat, c: char)

  predicate Applies(e: Edit, s: string) {
    if e.Insert? then e.at <= |s| else e.at < |s|
  }

  function Apply(e: Edit, s: string): string
    requires Applies(e, s)
  {
    match e
    case Insert(at, c) => s[..at] + [c] + s[at..]
    case Delete(at) => s[..at] + s[at + 1..]
    case Replace(at, c) => s[..at] + [c] + s[at + 1..]
  }

  /** The edits turn `a` into `b`, one after the other. */
  predicate Turns(script: seq<Edit>, a: string, b: string)
    decreases |script|
  {
    if script == [] then a == b
    else Applies(script[0], a) && Turns(script[1..], Apply(script[0], a), b)
  }

  // ---------------------------------------------------------------- the recurrence on whole strings

  predicate Agree(a: string, c: string, i: nat) {
    i <= |a| && i <= |c| && forall k :: 0 <= k < i ==> a[k] == c[k]
  }

  lemma {:induction false} DistDependsOnPrefix(a: string, b: string, c: string, d: string, i: nat, j: nat)
    requires Agree(a, c, i) && Agree(b, d, j)
    ensures Dist(a, b, i, j) == Dist(c, d, i, j)
    decreases i + j
  {
    if i > 0 && j > 0 {
      DistDependsOnPrefix(a, b, c, d, i - 1, j);
      DistDependsOnPrefix(a, b, c, d, i, j - 1);
      DistDependsOnPrefix(a, b, c, d, i - 1, j - 1);
      assert Cost(a[i - 1], b[j - 1]) == Cost(c[i - 1], d[j - 1]);
    }
  }

  /** Appending one character to both strings. */
  lemma {:induction false} DistanceSnoc(a: string, x: char, b: string, y: char)
    ensures Distance(a + [x], b + [y])
         == Min(Distance(a, b + [y]) + 1, Min(Distance(a + [x], b) + 1, Distance(a, b) + Cost(x, y)))
  {
    var s, t := a + [x], b + [y];
    DistDependsOnPrefix(s, t, a, t, |a|, |t|);
    DistDependsOnPrefix(s, t, s, b, |s|, |b|);
    DistDependsOnPrefix(s, t, a, b, |a|, |b|);
  }

  lemma {:induction false} DistanceEmpty(a: string)
    ensures Distance(a, "") == |a| && Distance("", a) == |a|
  {
  }

  lemma {:induction false} Unsnoc(s: string) returns (t: string, x: char)
    requires s != ""
    ensures s == t + [x] && t == s[..|s| - 1] && x == s[|s| - 1]
  {
    t, x := s[..|s| - 1], s[|s| - 1];
  }

  // ---------------------------------------------------------------- metric laws

  lemma {:induction false} Symmetric(a: string, b: string)
    ensures Distance(a, b) == Distance(b, a)
    decreases |a| + |b|
  {
    if a == "" || b == "" {
      DistanceEmpty(a);
      DistanceEmpty(b);
    } else {
      var p, x := Unsnoc(a);
      var q, y := Unsnoc(b);
      DistanceSnoc(p, x, q, y);
      DistanceSnoc(q, y, p, x);
      Symmetric(p, b);
      Symmetric(a, q);
      Symmetric(p, q);
    }
  }

  /** The distance lies between the difference of the lengths and the longer length. */
  lemma {:induction false} Bounds(a: string, b: string)
    ensures |a| - |b| <= Distance(a, b) && |b| - |a| <= Distance(a, b)
    ensures Distance(a, b) <= Max(|a|, |b|)
    decreases |a| + |b|
  {
    if a != "" && b != "" {
      var p, x := Unsnoc(a);
      var q, y := Unsnoc(b);
      DistanceSnoc(p, x, q, y);
      Bounds(p, b);
      Bounds(a, q);
      Bounds(p, q);
    }
  }

  lemma {:induction false} ZeroOnlyOnEqual(a: string, b: string)
    ensures Distance(a, b) == 0 <==> a == b
    decreases |a| + |b|
  {
    if a == "" || b == "" {
      DistanceEmpty(a);
      DistanceEmpty(b);
    } else {
      var p, x := Unsnoc(a);
      var q, y := Unsnoc(b);
      DistanceSnoc(p, x, q, y);
      ZeroOnlyOnEqual(p, q);
    }
  }

  /** Appending a character to one string changes the distance by at most one. */
  lemma {:induction false} StepUp(a: string, x: char, c: string)
    ensures Distance(a + [x], c) <= Distance(a, c) + 1
    ensures Distance(c, a + [x]) <= Distance(c, a) + 1
  {
    if c == "" {
      DistanceEmpty(a);
      DistanceEmpty(a + [x]);
    } else {
      var r, z := Unsnoc(c);
      DistanceSnoc(a, x, r, z);
      DistanceSnoc(r, z, a, x);
    }
  }

  lemma {:induction false} Triangle(a: string, b: string, c: string)
    ensures Distance(a, c) <= Distance(a, b) + Distance(b, c)
    decreases |a| + |b| + |c|
  {
    if a == "" || b == "" || c == "" {
      Bounds(a, b);
      Bounds(b, c);
      Bounds(a, c);
      DistanceEmpty(a);
      DistanceEmpty(b);
      DistanceEmpty(c);
    } else {
      var p, x := Unsnoc(a);
      var q, y := Unsnoc(b);
      var r, z := Unsnoc(c);
      DistanceSnoc(p, x, q, y);
      DistanceSnoc(q, y, r, z);
      DistanceSnoc(p, x, r, z);
      Triangle(p, b, c);
      Triangle(a, b, r);
      Triangle(a, q, c);
      Triangle(a, q, r);
      Triangle(p, q, c);
      Triangle(p, q, r);
      StepUp(p, x, c);
      StepUp(r, z, a);
    }
  }

  // ---------------------------------------------------------------- the shortest edit script

  /** Appending the same text to both strings brings them no further apart. */
  lemma {:induction false} CommonSuffix(a: string, b: string, s: string)
    ensures Distance(a + s, b + s) <= Distance(a, b)
    decreases |s|
  {
    if s == "" {
      assert a + s == a && b + s == b;
    } else {
      var t, x := Unsnoc(s);
      CommonSuffix(a, b, t);
      DistanceSnoc(a + t, x, b + t, x);
      Regroup(a, t, [x]);
      Regroup(b, t, [x]);
    }
  }

  lemma {:induction false} OneEdit(e: Edit, a: string)
    requires Applies(e, a)
    ensures Distance(a, Apply(e, a)) <= 1
  {
    var p := a[..e.at];
    ZeroOnlyOnEqual(p, p);
    match e
    case Insert(at, c) =>
      StepUp(p, c, p);
      CommonSuffix(p, p + [c], a[at..]);
      assert a == p + a[at..];
    case Delete(at) =>
      StepUp(p, a[at], p);
      CommonSuffix(p + [a[at]], p, a[at + 1..]);
      assert a == (p + [a[at]]) + a[at + 1..];
    case Replace(at, c) =>
      DistanceSnoc(p, a[at], p, c);
      CommonSuffix(p + [a[at]], p + [c], a[at + 1..]);
      assert a == (p + [a[at]]) + a[at + 1..];
  }

  /** No script is shorter than the distance. */
  lemma {:induction false} NoShorterScript(script: seq<Edit>, a: string, b: string)
    requires Turns(script, a, b)
    ensures Distance(a, b) <= |script|
    decreases |script|
  {
    if script == [] {
      ZeroOnlyOnEqual(a, b);
    } else {
      var next := Apply(script[0], a);
      OneEdit(script[0], a);
      NoShorterScript(script[1..], next, b);
      Triangle(a, next, b);
    }
  }

  lemma {:induction false} ApplyWithSuffix(e: Edit, a: string, s: string)
    requires Applies(e, a)
    ensures Applies(e, a + s) && Apply(e, a + s) == Apply(e, a) + s
  {
    assert (a + s)[..e.at] == a[..e.at];
    assert (a + s)[e.at..] == a[e.at..] + s;
    assert !e.Insert? ==> (a + s)[e.at + 1..] == a[e.at + 1..] + s;
  }

  /** A script keeps working in front of a suffix it never touches. */
  lemma {:induction false} TurnsWithSuffix(script: seq<Edit>, a: string, b: string, s: string)
    requires Turns(script, a, b)
    ensures Turns(script, a + s, b + s)
    decreases |script|
  {
    if script != [] {
      TurnsWithSuffix(script[1..], Apply(script[0], a), b, s);
      ApplyWithSuffix(script[0], a, s);
    }
  }

  lemma {:induction false} TurnsThen(script: seq<Edit>, a: string, b: string, e: Edit)
    requires Turns(script, a, b) && Applies(e, b)
    ensures Turns(script + [e], a, Apply(e, b))
    decreases |script|
  {
    if script == [] {
      assert (script + [e])[1..] == [];
    } else {
      TurnsThen(script[1..], Apply(script[0], a), b, e);
      assert (script + [e])[1..] == script[1..] + [e];
    }
  }

  lemma {:induction false} DeleteLast(a: string, x: char)
    ensures Apply(Delete(|a|), a + [x]) == a
  {
  }

  lemma {:induction false} InsertLast(a: string, x: char)
    ensures Apply(Insert(|a|, x), a) == a + [x]
  {
  }

  lemma {:induction false} ReplaceLast(a: string, x: char, y: char)
    ensures Apply(Replace(|a|, y), a + [x]) == a + [y]
  {
  }

  lemma {:induction false} TurnsAfter(e: Edit, script: seq<Edit>, a: string, b: string)
    requires Applies(e, a) && Turns(script, Apply(e, a), b)
    ensures Turns([e] + script, a, b)
  {
    assert ([e] + script)[1..] == script;
  }

  /** A script as long as the distance exists. */
  lemma {:induction false} ShortestScript(a: string, b: string) returns (script: seq<Edit>)
    ensures Turns(script, a, b) && |script| == Distance(a, b)
    decreases |a| + |b|
  {
    if a == "" && b == "" {
      script := [];
    } else if b == "" {
      var p, x := Unsnoc(a);
      var rest := ShortestScript(p, b);
      DeleteLast(p, x);
      TurnsAfter(Delete(|p|), rest, a, b);
      script := [Delete(|p|)] + rest;
    } else if a == "" {
      var q, y := Unsnoc(b);
      var rest := ShortestScript(a, q);
      InsertLast(q, y);
      TurnsThen(rest, a, q, Insert(|q|, y));
      script := rest + [Insert(|q|, y)];
    } else {
      script := LastStep(a, b);
    }
  }

  lemma {:induction false} LastStep(a: string, b: string) returns (script: seq<Edit>)
    requires a != "" && b != ""
    ensures Turns(script, a, b) && |script| == Distance(a, b)
    decreases |a| + |b|, 0
  {
    var p, x := Unsnoc(a);
    var q, y := Unsnoc(b);
    DistanceSnoc(p, x, q, y);
    if Distance(a, b) == Distance(p, b) + 1 {
      var rest := ShortestScript(p, b);
      DeleteLast(p, x);
      TurnsAfter(Delete(|p|), rest, a, b);
      script := [Delete(|p|)] + rest;
    } else if Distance(a, b) == Distance(a, q) + 1 {
      var rest := ShortestScript(a, q);
      InsertLast(q, y);
      TurnsThen(rest, a, q, Insert(|q|, y));
      script := rest + [Insert(|q|, y)];
    } else {
      var rest := ShortestScript(p, q);
      TurnsWithSuffix(rest, p, q, [x]);
      if x == y {
        script := rest;
      } else {
        ReplaceLast(q, x, y);
        TurnsThen(rest, a, q + [x], Replace(|q|, y));
        script := rest + [Replace(|q|, y)];
      }
    }
  }

  /** The distance is the least length of a script that turns one string into the other. */
  lemma {:induction false} DistanceIsShortestScript(a: string, b: string)
    ensures exists script :: Turns(script, a, b) && |script| == Distance(a, b)
    ensures forall script :: Turns(script, a, b) ==> |script| >= Distance(a, b)
  {
    var script := ShortestScript(a, b);
    forall s | Turns(s, a, b) ensures |s| >= Distance(a, b) {
      NoShorterScript(s, a, b);
    }
  }

  // ---------------------------------------------------------------- typosquatting

  datatype Severity = High | Medium

  datatype Threat = Threat(known: string, severity: Severity)

  /** The tool's name is not the known one, but two single-character edits or fewer turn it into it. */
  ghost predicate Resembles(name: string, known: string) {
    known != name && exists script :: |script| <= 2 && Turns(script, name, known)
  }

  ghost predicate OneEditAway(name: string, known: string) {
    exists e :: Applies(e, name) && Apply(e, name) == known
  }

  /** One threat for every known name that the name resembles, in the order of the known names. */
  ghost function Threats(name: string, knownNames: seq<string>): seq<Threat> {
    if knownNames == [] then []
    else
      var known := knownNames[|knownNames| - 1];
      Threats(name, knownNames[..|knownNames| - 1])
      + if Resembles(name, known) then [Threat(known, if OneEditAway(name, known) then High else Medium)] else []
  }

  /** The detector; lower-casing is the language's own. */
  method DetectTyposquatting(toolName: string, knownNames: seq<string>, toLowerCase: string -> string)
    returns (threats: seq<Threat>)
    ensures threats == Threats(toLowerCase(toolName), knownNames)
  {
    var name := toLowerCase(toolName);
    threats := [];
    for i := 0 to |knownNames|
      invariant threats == Threats(name, knownNames[..i])
    {
      var known := knownNames[i];
      ThreatMeaning(name, known);
      assert knownNames[..i + 1][..i] == knownNames[..i];
      if name != known {
        var dist := Levenshtein(name, known);
        if dist > 0 && dist <= 2 {
          threats := threats + [Threat(known, if dist == 1 then High else Medium)];
        }
      }
    }
    assert knownNames[..|knownNames|] == knownNames;
  }

  lemma {:induction false} ThreatMeaning(name: string, known: string)
    ensures 0 < Distance(name, known) <==> known != name
    ensures Distance(name, known) == 1 <==> known != name && OneEditAway(name, known)
    ensures 0 < Distance(name, known) <= 2 <==> Resembles(name, known)
  {
    ZeroOnlyOnEqual(name, known);
    DistanceIsShortestScript(name, known);
    var script := ShortestScript(name, known);
    if |script| == 1 {
      assert script[1..] == [];
      assert Apply(script[0], name) == known;
    }
    if e :| Applies(e, name) && Apply(e, name) == known {
      OneEdit(e, name);
    }
  }

  /**
   * A known name is reported exactly when it lies one or two edits away: with high severity for one, medium for two.
   */
  lemma {:induction false} ReportedWhen(name: string, knownNames: seq<string>)
    ensures forall known, severity :: Threat(known, severity) in Threats(name, knownNames) <==>
              known in knownNames
              && (|| (Distance(name, known) == 1 && severity == High)
                  || (Distance(name, known) == 2 && severity == Medium))
  {
    if knownNames != [] {
      var init, last := knownNames[..|knownNames| - 1], knownNames[|knownNames| - 1];
      ReportedWhen(name, init);
      ThreatMeaning(name, last);
      assert knownNames == init + [last];
    }
  }

  /** The three kinds of single edits. */
  lemma {:induction false} EditsInCharacters(x: string, c: char, d: char, y: string)
    ensures Applies(Insert(|x|, c), x + y) && Apply(Insert(|x|, c), x + y) == x + [c] + y
    ensures Applies(Delete(|x|), x + [c] + y) && Apply(Delete(|x|), x + [c] + y) == x + y
    ensures Applies(Replace(|x|, d), x + [c] + y) && Apply(Replace(|x|, d), x + [c] + y) == x + [d] + y
    ensures !Applies(Insert(|x| + 1, c), x) && !Applies(Delete(|x|), x) && !Applies(Replace(|x|, d), x)
  {
  }
}
