// The template language of the credential injector: placeholders of the form {{cred:NAME}} in text.
module Templates {
  import opened Collections
  import opened Options
  import opened Trimming

  // ---------------------------------------------------------------- matching one placeholder

  predicate IsNameChar(c: char) {
    'A' <= c <= 'Z' || 'a' <= c <= 'z' || '0' <= c <= '9' || c == '_' || c == '.' || c == '-'
  }

  predicate ValidName(name: string) {
    1 <= |name| <= 128 && forall k :: 0 <= k < |name| ==> IsNameChar(name[k])
  }

  function SkipSpaces(s: string, i: nat): (r: nat)
    requires i <= |s|
    ensures i <= r <= |s|
    decreases |s| - i
  {
    if i < |s| && IsSpace(s[i]) then SkipSpaces(s, i + 1) else i
  }

  function NameEnd(s: string, i: nat): (r: nat)
    requires i <= |s|
    ensures i <= r <= |s|
    decreases |s| - i
  {
    if i < |s| && IsNameChar(s[i]) then NameEnd(s, i + 1) else i
  }

  predicate OpensAt(s: string, i: nat) {
    i + 2 <= |s| && s[i] == '{' && s[i + 1] == '{'
  }

  predicate TagAt(s: string, j: nat) {
    j + 5 <= |s| && s[j] == 'c' && s[j + 1] == 'r' && s[j + 2] == 'e' && s[j + 3] == 'd' && s[j + 4] == ':'
  }

  predicate ClosesAt(s: string, f: nat) {
    f + 2 <= |s| && s[f] == '}' && s[f + 1] == '}'
  }

  datatype Match = Match(name: string, end: nat)

  /** The placeholder that starts at `i`, taking every run as long as it goes: no choice is ever revised. */
  function MatchAt(s: string, i: nat): (r: Option<Match>)
    ensures r.Some? ==> i + 10 <= r.value.end <= |s|
  {
    if !OpensAt(s, i) then None
    else
      var j := SkipSpaces(s, i + 2);
      if !TagAt(s, j) then None
      else
        var e := NameEnd(s, j + 5);
        var f := SkipSpaces(s, e);
        if 1 <= e - (j + 5) <= 128 && ClosesAt(s, f) then Some(Match(Slice(s, j + 5, e), f + 2)) else None
  }

  predicate SpacesIn(s: string, lo: nat, hi: nat) {
    lo <= hi <= |s| && forall k {:trigger IsSpace(s[k])} :: lo <= k < hi ==> IsSpace(s[k])
  }

  predicate NamesIn(s: string, lo: nat, hi: nat) {
    lo <= hi <= |s| && forall k {:trigger IsNameChar(s[k])} :: lo <= k < hi ==> IsNameChar(s[k])
  }

  /** The regular expression, position by position: braces, white space, the tag, a name, white space, braces. */
  predicate PlaceholderAt(s: string, i: nat, j: nat, e: nat, f: nat) {
    && OpensAt(s, i) && SpacesIn(s, i + 2, j) && TagAt(s, j)
    && NamesIn(s, j + 5, e) && 1 <= e - (j + 5) <= 128
    && SpacesIn(s, e, f) && ClosesAt(s, f)
  }

  lemma {:induction false} SkipSpacesIs(s: string, i: nat, j: nat)
    requires SpacesIn(s, i, j) && (j < |s| ==> !IsSpace(s[j]))
    ensures SkipSpaces(s, i) == j
    decreases j - i
  {
    if i < j {
      SkipSpacesIs(s, i + 1, j);
    }
  }

  lemma {:induction false} SkipSpacesSkips(s: string, i: nat)
    requires i <= |s|
    ensures SpacesIn(s, i, SkipSpaces(s, i))
    decreases |s| - i
  {
    if i < |s| && IsSpace(s[i]) {
      SkipSpacesSkips(s, i + 1);
    }
  }

  lemma {:induction false} NameEndIs(s: string, i: nat, e: nat)
    requires NamesIn(s, i, e) && (e < |s| ==> !IsNameChar(s[e]))
    ensures NameEnd(s, i) == e
    decreases e - i
  {
    if i < e {
      NameEndIs(s, i + 1, e);
    }
  }

  lemma {:induction false} NameEndNames(s: string, i: nat)
    requires i <= |s|
    ensures NamesIn(s, i, NameEnd(s, i))
    decreases |s| - i
  {
    if i < |s| && IsNameChar(s[i]) {
      NameEndNames(s, i + 1);
    }
  }

  /** Whatever way the regular expression can match at a position, the greedy scan finds it. */
  lemma {:induction false} MatchIsComplete(s: string, i: nat, j: nat, e: nat, f: nat)
    requires PlaceholderAt(s, i, j, e, f)
    ensures MatchAt(s, i) == Some(Match(Slice(s, j + 5, e), f + 2))
  {
    SkipSpacesIs(s, i + 2, j);
    assert IsSpace(s[e]) || s[e] == '}';
    NameEndIs(s, j + 5, e);
    SkipSpacesIs(s, e, f);
  }

  lemma {:induction false} MatchIsSound(s: string, i: nat) returns (j: nat, e: nat, f: nat)
    requires MatchAt(s, i).Some?
    ensures PlaceholderAt(s, i, j, e, f) && MatchAt(s, i).value == Match(Slice(s, j + 5, e), f + 2)
  {
    j := SkipSpaces(s, i + 2);
    SkipSpacesSkips(s, i + 2);
    e := NameEnd(s, j + 5);
    NameEndNames(s, j + 5);
    f := SkipSpaces(s, e);
    SkipSpacesSkips(s, e);
  }

  /** There is a match at a position exactly when the regular expression has one, and then there is only one. */
  lemma {:induction false} MatchIsExact(s: string, i: nat)
    ensures MatchAt(s, i).Some? <==> exists j: nat, e: nat, f: nat :: PlaceholderAt(s, i, j, e, f)
    ensures forall j: nat, e: nat, f: nat :: PlaceholderAt(s, i, j, e, f) ==>
      MatchAt(s, i) == Some(Match(Slice(s, j + 5, e), f + 2))
  {
    forall j: nat, e: nat, f: nat | PlaceholderAt(s, i, j, e, f)
      ensures MatchAt(s, i) == Some(Match(Slice(s, j + 5, e), f + 2))
    {
      MatchIsComplete(s, i, j, e, f);
    }
    if MatchAt(s, i).Some? {
      var j, e, f := MatchIsSound(s, i);
    }
  }

  // ---------------------------------------------------------------- all placeholders of a text

  /** A text cut at its placeholders. */
  datatype Pieces = Done | Plain(c: char, rest: Pieces) | Hole(raw: string, name: string, rest: Pieces)

  /** The text from position `i` on, cut left to right and without overlap. */
  function PiecesFrom(s: string, i: nat): Pieces
    requires i <= |s|
    decreases |s| - i
  {
    if i == |s| then Done
    else
      var m := MatchAt(s, i);
      if m.Some? then Hole(Slice(s, i, m.value.end), m.value.name, PiecesFrom(s, m.value.end))
      else Plain(s[i], PiecesFrom(s, i + 1))
  }

  function RawText(ps: Pieces): string {
    match ps
    case Done => ""
    case Plain(c, rest) => [c] + RawText(rest)
    case Hole(raw, _, rest) => raw + RawText(rest)
  }

  function HoleNames(ps: Pieces): seq<string> {
    match ps
    case Done => []
    case Plain(_, rest) => HoleNames(rest)
    case Hole(_, name, rest) => [name] + HoleNames(rest)
  }

  /** A hole whose name has a value becomes the value, verbatim; any other stays as it was written. */
  function Rendered(ps: Pieces, values: map<string, string>): string {
    match ps
    case Done => ""
    case Plain(c, rest) => [c] + Rendered(rest, values)
    case Hole(raw, name, rest) => (if name in values then values[name] else raw) + Rendered(rest, values)
  }

  function Join(ps: Pieces, qs: Pieces): Pieces {
    match ps
    case Done => qs
    case Plain(c, rest) => Plain(c, Join(rest, qs))
    case Hole(raw, name, rest) => Hole(raw, name, Join(rest, qs))
  }

  function Placeholders(s: string): seq<string> {
    HoleNames(PiecesFrom(s, 0))
  }

  function Substitute(s: string, values: map<string, string>): string {
    Rendered(PiecesFrom(s, 0), values)
  }

  lemma {:induction false} HoleNamesJoin(ps: Pieces, qs: Pieces)
    ensures HoleNames(Join(ps, qs)) == HoleNames(ps) + HoleNames(qs)
  {
    if !ps.Done? {
      HoleNamesJoin(ps.rest, qs);
      if ps.Hole? {
        Regroup([ps.name], HoleNames(ps.rest), HoleNames(qs));
      }
    }
  }

  lemma {:induction false} RenderedJoin(ps: Pieces, qs: Pieces, values: map<string, string>)
    ensures Rendered(Join(ps, qs), values) == Rendered(ps, values) + Rendered(qs, values)
  {
    if !ps.Done? {
      RenderedJoin(ps.rest, qs, values);
      var first := if ps.Plain? then [ps.c] else if ps.name in values then values[ps.name] else ps.raw;
      Regroup(first, Rendered(ps.rest, values), Rendered(qs, values));
    }
  }

  lemma {:induction false} SliceTwice(s: string, lo: nat, mid: nat, hi: nat)
    requires lo <= mid <= hi <= |s|
    ensures Slice(s, lo, hi) == Slice(s, lo, mid) + Slice(s, mid, hi)
    decreases mid - lo
  {
    if lo < mid {
      SliceTwice(s, lo + 1, mid, hi);
    }
  }

  lemma {:induction false} SliceIsSubsequence(s: string, lo: nat, hi: nat)
    requires lo <= hi <= |s|
    ensures Slice(s, lo, hi) == s[lo..hi]
    decreases hi - lo
  {
    if lo < hi {
      SliceIsSubsequence(s, lo + 1, hi);
      assert s[lo..hi] == [s[lo]] + s[lo + 1..hi];
    }
  }

  lemma {:induction false} PiecesFromAreLossless(s: string, i: nat)
    requires i <= |s|
    ensures RawText(PiecesFrom(s, i)) == Slice(s, i, |s|)
    decreases |s| - i
  {
    if i < |s| {
      var m := MatchAt(s, i);
      var next := if m.Some? then m.value.end else i + 1;
      PiecesFromAreLossless(s, next);
      SliceTwice(s, i, next, |s|);
    }
  }

  /** Cutting loses nothing. */
  lemma {:induction false} PiecesAreLossless(s: string)
    ensures RawText(PiecesFrom(s, 0)) == s
  {
    PiecesFromAreLossless(s, 0);
    SliceIsSubsequence(s, 0, |s|);
  }

  /** With no value for any of its placeholders a text is left as it is. */
  lemma {:induction false} RenderedWithout(ps: Pieces, values: map<string, string>)
    requires forall n :: n in HoleNames(ps) ==> n !in values
    ensures Rendered(ps, values) == RawText(ps)
  {
    if !ps.Done? {
      RenderedWithout(ps.rest, values);
    }
  }

  lemma {:induction false} SubstituteWithout(s: string, values: map<string, string>)
    requires forall n :: n in Placeholders(s) ==> n !in values
    ensures Substitute(s, values) == s
  {
    RenderedWithout(PiecesFrom(s, 0), values);
    PiecesAreLossless(s);
  }

  /** The result depends on the values of the text's own placeholders only. */
  lemma {:induction false} RenderedDepends(ps: Pieces, values: map<string, string>, others: map<string, string>)
    requires forall n :: n in HoleNames(ps) ==> SameAt(values, others, n)
    ensures Rendered(ps, values) == Rendered(ps, others)
  {
    if !ps.Done? {
      if ps.Hole? {
        assert SameAt(values, others, ps.name);
      }
      RenderedDepends(ps.rest, values, others);
    }
  }

  predicate SameAt(values: map<string, string>, others: map<string, string>, name: string) {
    && (name in values <==> name in others)
    && (name in values ==> values[name] == others[name])
  }

  // ---------------------------------------------------------------- placeholders inside longer texts

  lemma {:induction false} PlaceholderMovesIn(s: string, base: nat, t: string, i: nat, j: nat, e: nat, f: nat)
    requires Embeds(t, s, base) && PlaceholderAt(t, i, j, e, f)
    ensures PlaceholderAt(s, base + i, base + j, base + e, base + f)
  {
    forall k | base + i + 2 <= k < base + j ensures IsSpace(s[k]) {
      assert IsSpace(t[k - base]);
    }
    forall k | base + j + 5 <= k < base + e ensures IsNameChar(s[k]) {
      assert IsNameChar(t[k - base]);
    }
    forall k | base + e <= k < base + f ensures IsSpace(s[k]) {
      assert IsSpace(t[k - base]);
    }
  }

  lemma {:induction false} PlaceholderMovesOut(s: string, base: nat, t: string, i: nat, j: nat, e: nat, f: nat)
    requires Embeds(t, s, base) && PlaceholderAt(s, base + i, base + j, base + e, base + f) && f + 2 <= |t|
    ensures PlaceholderAt(t, i, j, e, f)
  {
    assert s[base + i] == t[i] && s[base + i + 1] == t[i + 1];
    assert s[base + j] == t[j] && s[base + j + 1] == t[j + 1] && s[base + j + 2] == t[j + 2];
    assert s[base + j + 3] == t[j + 3] && s[base + j + 4] == t[j + 4];
    assert s[base + f] == t[f] && s[base + f + 1] == t[f + 1];
    forall k | i + 2 <= k < j ensures IsSpace(t[k]) {
      assert IsSpace(s[base + k]);
    }
    forall k | j + 5 <= k < e ensures IsNameChar(t[k]) {
      assert IsNameChar(s[base + k]);
    }
    forall k | e <= k < f ensures IsSpace(t[k]) {
      assert IsSpace(s[base + k]);
    }
  }

  function Shifted(m: Option<Match>, base: nat): Option<Match> {
    if m.Some? then Some(m.value.(end := base + m.value.end)) else None
  }

  lemma {:induction false} MovedPlaceholder(s: string, base: nat, t: string, i: nat, j: nat, e: nat, f: nat)
    requires Embeds(t, s, base) && PlaceholderAt(t, i, j, e, f)
    ensures MatchAt(s, base + i) == Some(Match(Slice(t, j + 5, e), base + f + 2))
  {
    PlaceholderMovesIn(s, base, t, i, j, e, f);
    MatchIsComplete(s, base + i, base + j, base + e, base + f);
    SliceEmbeds(t, s, base, j + 5, e);
  }

  lemma {:induction false} MatchMovesIn(s: string, base: nat, t: string, i: nat)
    requires Embeds(t, s, base) && MatchAt(t, i).Some?
    ensures MatchAt(s, base + i) == Shifted(MatchAt(t, i), base)
  {
    var j, e, f := MatchIsSound(t, i);
    MovedPlaceholder(s, base, t, i, j, e, f);
  }

  lemma {:induction false} MatchMovesOut(s: string, base: nat, t: string, i: nat)
    requires Embeds(t, s, base) && MatchAt(s, base + i).Some? && MatchAt(s, base + i).value.end <= base + |t|
    ensures MatchAt(t, i).Some?
  {
    var j, e, f := MatchIsSound(s, base + i);
    PlaceholderMovesOut(s, base, t, i, j - base, e - base, f - base);
    MatchIsComplete(t, i, j - base, e - base, f - base);
  }

  /** The matches within a text are the same where the text stands inside another one. */
  lemma {:induction false} MatchMoves(s: string, base: nat, t: string, i: nat)
    requires Embeds(t, s, base) && (MatchAt(s, base + i).Some? ==> MatchAt(s, base + i).value.end <= base + |t|)
    ensures MatchAt(s, base + i) == Shifted(MatchAt(t, i), base)
  {
    if MatchAt(s, base + i).Some? {
      MatchMovesOut(s, base, t, i);
    }
    if MatchAt(t, i).Some? {
      MatchMovesIn(s, base, t, i);
    }
  }

  /** The first piece of a text is the same where the text stands inside another one. */
  lemma {:induction false} StepMoves(s: string, base: nat, t: string, i: nat)
    requires Embeds(t, s, base) && i < |t|
    requires MatchAt(s, base + i).Some? ==> MatchAt(s, base + i).value.end <= base + |t|
    ensures var m := MatchAt(t, i);
            PiecesFrom(s, base + i) ==
              if m.Some? then Hole(Slice(t, i, m.value.end), m.value.name, PiecesFrom(s, base + m.value.end))
              else Plain(t[i], PiecesFrom(s, base + i + 1))
  {
    MatchMoves(s, base, t, i);
    var m := MatchAt(t, i);
    if m.Some? {
      SliceEmbeds(t, s, base, i, m.value.end);
    } else {
      assert s[base + i] == t[i];
    }
  }

  /** What comes after a point is cut as if it stood alone. */
  lemma {:induction false} PiecesOfSuffix(s: string, base: nat, t: string, i: nat)
    requires Embeds(t, s, base) && base + |t| == |s| && i <= |t|
    ensures PiecesFrom(s, base + i) == PiecesFrom(t, i)
    decreases |t| - i
  {
    if i < |t| {
      StepMoves(s, base, t, i);
      var m := MatchAt(t, i);
      PiecesOfSuffix(s, base, t, if m.Some? then m.value.end else i + 1);
    }
  }

  /** After its two opening braces a placeholder holds no further opening brace. */
  lemma {:induction false} NoBraceInside(s: string, i: nat, j: nat, e: nat, f: nat, p: nat)
    requires PlaceholderAt(s, i, j, e, f) && i + 2 <= p < f + 2
    ensures s[p] != '{'
  {
    if p < j || e <= p < f {
      assert IsSpace(s[p]);
    } else if j + 5 <= p < e {
      assert IsNameChar(s[p]);
    }
  }

  /** A placeholder that starts before two opening braces does not run into them. */
  lemma {:induction false} MatchStopsAtBraces(s: string, i: nat, p: nat)
    requires i < p && OpensAt(s, p) && MatchAt(s, i).Some?
    ensures MatchAt(s, i).value.end <= p
  {
    var j, e, f := MatchIsSound(s, i);
    if p < f + 2 {
      NoBraceInside(s, i, j, e, f, if p == i + 1 then p + 1 else p);
    }
  }

  /** What comes before two opening braces is cut as if it stood alone. */
  lemma {:induction false} PiecesOfPrefix(s: string, t: string, i: nat)
    requires Embeds(t, s, 0) && i <= |t| && OpensAt(s, |t|)
    ensures PiecesFrom(s, i) == Join(PiecesFrom(t, i), PiecesFrom(s, |t|))
    decreases |t| - i
  {
    if i < |t| {
      if MatchAt(s, i).Some? {
        MatchStopsAtBraces(s, i, |t|);
      }
      StepMoves(s, 0, t, i);
      var m := MatchAt(t, i);
      PiecesOfPrefix(s, t, if m.Some? then m.value.end else i + 1);
    }
  }

  /** How a handle is written into a payload. */
  function Placeholder(name: string): string {
    "{{cred:" + name + "}}"
  }

  lemma {:induction false} HandleIsPlaceholder(name: string)
    requires ValidName(name)
    ensures PlaceholderAt(Placeholder(name), 0, 2, 7 + |name|, 7 + |name|)
    ensures Slice(Placeholder(name), 7, 7 + |name|) == name
  {
    var t := Placeholder(name);
    assert t[0] == '{' && t[1] == '{' && t[2] == 'c' && t[3] == 'r' && t[4] == 'e' && t[5] == 'd' && t[6] == ':';
    forall k | 7 <= k < 7 + |name| ensures IsNameChar(t[k]) {
      assert t[k] == name[k - 7];
    }
    SliceIsSubsequence(t, 7, 7 + |name|);
    assert t[7..7 + |name|] == name;
  }

  lemma {:induction false} HandleMatches(s: string, p: nat, name: string)
    requires ValidName(name) && Embeds(Placeholder(name), s, p)
    ensures MatchAt(s, p) == Some(Match(name, p + |Placeholder(name)|))
  {
    HandleIsPlaceholder(name);
    MovedPlaceholder(s, p, Placeholder(name), 0, 2, 7 + |name|, 7 + |name|);
  }

  lemma {:induction false} PartsStand(a: string, b: string, c: string)
    ensures Embeds(a, a + b + c, 0) && Embeds(b, a + b + c, |a|) && Embeds(c, a + b + c, |a| + |b|)
  {
  }

  lemma {:induction false} HandleCut(s: string, p: nat, name: string)
    requires ValidName(name) && Embeds(Placeholder(name), s, p)
    ensures OpensAt(s, p)
    ensures PiecesFrom(s, p) == Hole(Placeholder(name), name, PiecesFrom(s, p + |Placeholder(name)|))
  {
    var handle := Placeholder(name);
    HandleMatches(s, p, name);
    SliceEmbeds(handle, s, p, 0, |handle|);
    SliceIsSubsequence(handle, 0, |handle|);
    assert handle[0..|handle|] == handle;
  }

  lemma {:induction false} SplitAround(s: string, before: string, handle: string, name: string, after: string)
    requires Embeds(before, s, 0) && Embeds(after, s, |before| + |handle|) && |s| == |before| + |handle| + |after|
    requires OpensAt(s, |before|)
    requires PiecesFrom(s, |before|) == Hole(handle, name, PiecesFrom(s, |before| + |handle|))
    ensures PiecesFrom(s, 0) == Join(PiecesFrom(before, 0), Hole(handle, name, PiecesFrom(after, 0)))
  {
    PiecesOfPrefix(s, before, 0);
    PiecesOfSuffix(s, |before| + |handle|, after, 0);
  }

  /** A written handle is found wherever it stands, and cuts the text in two parts that are cut on their own. */
  lemma {:induction false} HandleSplits(before: string, name: string, after: string)
    requires ValidName(name)
    ensures PiecesFrom(before + Placeholder(name) + after, 0)
         == Join(PiecesFrom(before, 0), Hole(Placeholder(name), name, PiecesFrom(after, 0)))
  {
    var handle := Placeholder(name);
    var s := before + handle + after;
    PartsStand(before, handle, after);
    HandleCut(s, |before|, name);
    SplitAround(s, before, handle, name, after);
  }

  // ---------------------------------------------------------------- printed templates

  /** Literal text with handles in between. */
  datatype Template = Tail(text: string) | Chunk(text: string, name: string, rest: Template)

  function Printed(t: Template): string {
    match t
    case Tail(text) => text
    case Chunk(text, name, rest) => text + Placeholder(name) + Printed(rest)
  }

  predicate ValidNames(t: Template) {
    t.Chunk? ==> ValidName(t.name) && ValidNames(t.rest)
  }

  function NamesOf(t: Template): seq<string> {
    match t
    case Tail(_) => []
    case Chunk(_, name, rest) => [name] + NamesOf(rest)
  }

  /** None of the literal texts holds a placeholder of its own. */
  predicate PlainTexts(t: Template) {
    Placeholders(t.text) == [] && (t.Chunk? ==> PlainTexts(t.rest))
  }

  /** The template with every handle replaced and every literal text as it is. */
  function Filled(t: Template, values: map<string, string>): string {
    match t
    case Tail(text) => text
    case Chunk(text, name, rest) =>
      text + (if name in values then values[name] else Placeholder(name)) + Filled(rest, values)
  }

  lemma {:induction false} ChunkNames(text: string, name: string, after: string)
    requires ValidName(name)
    ensures Placeholders(text + Placeholder(name) + after) == Placeholders(text) + [name] + Placeholders(after)
  {
    HandleSplits(text, name, after);
    HoleNamesJoin(PiecesFrom(text, 0), Hole(Placeholder(name), name, PiecesFrom(after, 0)));
  }

  lemma {:induction false} ChunkSubstitute(text: string, name: string, after: string, values: map<string, string>)
    requires ValidName(name)
    ensures Substitute(text + Placeholder(name) + after, values)
         == Substitute(text, values) + (if name in values then values[name] else Placeholder(name))
           + Substitute(after, values)
  {
    HandleSplits(text, name, after);
    RenderedJoin(PiecesFrom(text, 0), Hole(Placeholder(name), name, PiecesFrom(after, 0)), values);
    var value := if name in values then values[name] else Placeholder(name);
    Regroup(Substitute(text, values), value, Substitute(after, values));
  }

  /**
   * Exactly the handles of a printed template are found in it, in order, if and only if its literal texts are plain.
   */
  lemma {:induction false} TemplateNames(t: Template)
    requires ValidNames(t)
    ensures |Placeholders(Printed(t))| >= |NamesOf(t)|
    ensures PlainTexts(t) <==> |Placeholders(Printed(t))| == |NamesOf(t)|
    ensures PlainTexts(t) ==> Placeholders(Printed(t)) == NamesOf(t)
  {
    if t.Chunk? {
      TemplateNames(t.rest);
      ChunkNames(t.text, t.name, Printed(t.rest));
    }
  }

  /**
   * Printing and substituting fills the template: every handle is replaced once, by its value as it is, even where the
   * value holds placeholders itself.
   */
  lemma {:induction false} TemplateFills(t: Template, values: map<string, string>)
    requires ValidNames(t) && PlainTexts(t)
    ensures Substitute(Printed(t), values) == Filled(t, values)
  {
    SubstituteWithout(t.text, values);
    if t.Chunk? {
      TemplateFills(t.rest, values);
      ChunkSubstitute(t.text, t.name, Printed(t.rest), values);
    }
  }

  // ---------------------------------------------------------------- collecting names

  /** A set that remembers the order of insertion. */
  function Include(names: seq<string>, name: string): seq<string> {
    if name in names then names else names + [name]
  }

  function IncludeAll(names: seq<string>, more: seq<string>): seq<string>
    decreases more
  {
    if more == [] then names else IncludeAll(Include(names, more[0]), more[1..])
  }

  lemma {:induction false} IncludeMeaning(names: seq<string>, name: string)
    requires NoDuplicates(names)
    ensures NoDuplicates(Include(names, name))
    ensures forall n :: n in Include(names, name) <==> n in names || n == name
  {
  }

  lemma {:induction false} IncludeAllMeaning(names: seq<string>, more: seq<string>)
    requires NoDuplicates(names)
    ensures NoDuplicates(IncludeAll(names, more))
    ensures forall n :: n in IncludeAll(names, more) <==> n in names || n in more
    decreases more
  {
    if more != [] {
      IncludeMeaning(names, more[0]);
      HeadOrTail(more);
      IncludeAllMeaning(Include(names, more[0]), more[1..]);
    }
  }

  lemma {:induction false} IncludeAllJoin(names: seq<string>, more: seq<string>, last: seq<string>)
    ensures IncludeAll(names, more + last) == IncludeAll(IncludeAll(names, more), last)
    decreases more
  {
    if more == [] {
      assert more + last == last;
    } else {
      assert (more + last)[1..] == more[1..] + last;
      IncludeAllJoin(Include(names, more[0]), more[1..], last);
    }
  }

  /** The next placeholder at or after a position, as the stateful regular expression finds it. */
  method FindFrom(s: string, from: nat) returns (at: nat, m: Option<Match>)
    requires from <= |s|
    ensures from <= at <= |s|
    ensures m == if at < |s| then MatchAt(s, at) else None
    ensures m.None? ==> HoleNames(PiecesFrom(s, from)) == []
    ensures m.Some? ==> HoleNames(PiecesFrom(s, from)) == [m.value.name] + HoleNames(PiecesFrom(s, m.value.end))
  {
    at := from;
    while at < |s|
      invariant from <= at <= |s|
      invariant HoleNames(PiecesFrom(s, from)) == HoleNames(PiecesFrom(s, at))
      decreases |s| - at
    {
      m := MatchAt(s, at);
      if m.Some? {
        return;
      }
      at := at + 1;
    }
    m := None;
  }

  method CollectFrom(s: string, names: seq<string>) returns (out: seq<string>)
    ensures out == IncludeAll(names, Placeholders(s))
  {
    out := names;
    var i := 0;
    while i < |s|
      invariant i <= |s|
      invariant IncludeAll(out, HoleNames(PiecesFrom(s, i))) == IncludeAll(names, Placeholders(s))
      decreases |s| - i
    {
      var at, m := FindFrom(s, i);
      if m.None? {
        return;
      }
      ghost var rest := HoleNames(PiecesFrom(s, m.value.end));
      assert ([m.value.name] + rest)[1..] == rest;
      out := Include(out, m.value.name);
      i := m.value.end;
    }
  }

  // ---------------------------------------------------------------- in characters

  lemma {:induction false} PlaceholderCharacters(s: string, i: nat, c: char)
    ensures OpensAt(s, i) <==> i + 2 <= |s| && s[i..i + 2] == "{{"
    ensures TagAt(s, i) <==> i + 5 <= |s| && s[i..i + 5] == "cred:"
    ensures ClosesAt(s, i) <==> i + 2 <= |s| && s[i..i + 2] == "}}"
    ensures IsNameChar(c) <==>
              c in "ABCDEFGHIJKLMNOPQRSTUVWXYZ" || c in "abcdefghijklmnopqrstuvwxyz" || c in "0123456789_.-"
  {
    if i + 5 <= |s| {
      assert s[i..i + 5] == [s[i], s[i + 1], s[i + 2], s[i + 3], s[i + 4]];
    }
    if i + 2 <= |s| {
      assert s[i..i + 2] == [s[i], s[i + 1]];
    }
  }

  /** A name can be stored, and found again, with one to 128 of these characters. */
  lemma {:induction false} NamesInCharacters(name: string)
    ensures ValidName(name) <==>
              1 <= |name| <= 128
              && forall k :: 0 <= k < |name| ==>
                   name[k] in "ABCDEFGHIJKLMNOPQRSTUVWXYZ" || name[k] in "abcdefghijklmnopqrstuvwxyz"
                   || name[k] in "0123456789_.-"
  {
    forall k | 0 <= k < |name| {
      PlaceholderCharacters("", 0, name[k]);
    }
  }

  /** The placeholder in full, white space included: braces, blanks, the tag, the name, blanks, braces. */
  lemma {:induction false} SpacedPlaceholder(x: string, name: string, y: string, s: string)
    requires (forall k :: 0 <= k < |x| ==> IsSpace(x[k])) && (forall k :: 0 <= k < |y| ==> IsSpace(y[k]))
    requires ValidName(name)
    ensures var t := "{{" + x + "cred:" + name + y + "}}" + s;
            MatchAt(t, 0) == Some(Match(name, 9 + |x| + |name| + |y|))
  {
    var t := "{{" + x + "cred:" + name + y + "}}" + s;
    var j := 2 + |x|;
    var e := j + 5 + |name|;
    var f := e + |y|;
    assert forall k :: 2 <= k < j ==> t[k] == x[k - 2];
    assert forall k :: j + 5 <= k < e ==> t[k] == name[k - (j + 5)];
    assert forall k :: e <= k < f ==> t[k] == y[k - e];
    assert t[0] == '{' && t[1] == '{' && t[f] == '}' && t[f + 1] == '}';
    assert t[j] == 'c' && t[j + 1] == 'r' && t[j + 2] == 'e' && t[j + 3] == 'd' && t[j + 4] == ':';
    SkipSpacesIs(t, 2, j);
    NameEndIs(t, j + 5, e);
    SkipSpacesIs(t, e, f);
    SliceIsName(t, j + 5, name);
  }

  lemma {:induction false} SliceIsName(t: string, lo: nat, name: string)
    requires lo + |name| <= |t| && forall k :: lo <= k < lo + |name| ==> t[k] == name[k - lo]
    ensures Slice(t, lo, lo + |name|) == name
    decreases |name|
  {
    if name != "" {
      assert t[lo] == name[0];
      SliceIsName(t, lo + 1, name[1..]);
    }
  }
}
