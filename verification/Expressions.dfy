// Policy condition expressions: the quote-aware splitter, the recursive evaluator, and the flat
// or-of-ands reading that every text turns out to have.
module Expressions {
  import opened Collections
  import opened Trimming

  // ---------------------------------------------------------------- quote state and cuts

  /** The quote a scan stands in: none, single or double. The other kind of mark inside a literal is ordinary text. */
  datatype Quote = Outside | Single | Double

  function NextQuote(q: Quote, c: char): Quote {
    if c == '\'' && q != Double then (if q == Single then Outside else Single)
    else if c == '"' && q != Single then (if q == Double then Outside else Double)
    else q
  }

  /** The quote state before position `i` of a text scanned from its start. */
  function QuoteAt(s: string, i: nat): Quote
    requires i <= |s|
  {
    if i == 0 then Outside else NextQuote(QuoteAt(s, i - 1), s[i - 1])
  }

  predicate StartsAt(s: string, sep: string, i: nat) {
    i + |sep| <= |s| && forall j :: 0 <= j < |sep| ==> s[i + j] == sep[j]
  }

  /** The separator stands at position `i`, outside quotes. */
  predicate CutAt(s: string, sep: string, i: nat) {
    StartsAt(s, sep, i) && QuoteAt(s, i) == Outside
  }

  /** The first cut at or after `from`, or the text's length when there is none. */
  function NextCut(s: string, sep: string, from: nat): (i: nat)
    requires from <= |s|
    ensures from <= i <= |s|
    ensures i < |s| ==> CutAt(s, sep, i)
    ensures forall k :: from <= k < i ==> !CutAt(s, sep, k)
    decreases |s| - from
  {
    if from == |s| || CutAt(s, sep, from) then from else NextCut(s, sep, from + 1)
  }

  predicate IsMark(c: char) {
    c == '\'' || c == '"'
  }

  predicate IsSeparator(sep: string) {
    |sep| > 0 && forall j :: 0 <= j < |sep| ==> !IsMark(sep[j])
  }

  lemma {:induction false} SliceIsWindow(s: string, lo: nat, hi: nat)
    requires lo <= hi <= |s|
    ensures Embeds(Slice(s, lo, hi), s, lo)
    decreases hi - lo
  {
    if lo < hi {
      SliceIsWindow(s, lo + 1, hi);
      var t, u := Slice(s, lo, hi), Slice(s, lo + 1, hi);
      forall k | 0 <= k < |t| ensures t[k] == s[lo + k] {
        assert k > 0 ==> t[k] == u[k - 1];
      }
    }
  }

  /** The parts of the text from `start` on; the quote state is the one of the whole text. */
  function SplitFrom(s: string, sep: string, start: nat): (parts: seq<string>)
    requires |sep| > 0 && start <= |s|
    ensures |parts| >= 1
    decreases |s| - start
  {
    var i := NextCut(s, sep, start);
    if i == |s| then [Slice(s, start, i)] else [Slice(s, start, i)] + SplitFrom(s, sep, i + |sep|)
  }

  function SplitOutsideQuotes(s: string, sep: string): (parts: seq<string>)
    requires |sep| > 0
    ensures |parts| >= 1
  {
    SplitFrom(s, sep, 0)
  }

  method SplitText(expr: string, sep: string) returns (parts: seq<string>)
    requires IsSeparator(sep)
    ensures parts == SplitOutsideQuotes(expr, sep)
  {
    parts := [];
    var start: nat := 0;
    var inSingle, inDouble := false, false;
    var i: nat := 0;
    while i <= |expr| - |sep|
      invariant start <= i <= |expr| && Scanned(expr, sep, start, i, inSingle, inDouble)
      invariant Remains(expr, sep, start, parts)
      decreases |expr| - i
    {
      var ch := expr[i];
      if ch == '\'' && !inDouble {
        ScanStep(expr, sep, start, i, inSingle, inDouble, !inSingle, inDouble);
        inSingle := !inSingle;
        i := i + 1;
        continue;
      }
      if ch == '"' && !inSingle {
        ScanStep(expr, sep, start, i, inSingle, inDouble, inSingle, !inDouble);
        inDouble := !inDouble;
        i := i + 1;
        continue;
      }
      if !inSingle && !inDouble && StartsAt(expr, sep, i) {
        ScanCut(expr, sep, start, i, parts);
        parts := parts + [Slice(expr, start, i)];
        i := i + |sep|;
        start := i;
        continue;
      }
      ScanStep(expr, sep, start, i, inSingle, inDouble, inSingle, inDouble);
      i := i + 1;
    }
    ScanEnd(expr, sep, start, i, inSingle, inDouble, parts);
    parts := parts + [Slice(expr, start, |expr|)];
  }

  /** The splitter's state at position `i`: the flags are the quote state, and no cut lies between `start` and `i`. */
  ghost predicate Scanned(s: string, sep: string, start: nat, i: nat, inSingle: bool, inDouble: bool) {
    && start <= i <= |s| && !(inSingle && inDouble)
    && QuoteAt(s, i) == Flags(inSingle, inDouble) && forall k :: start <= k < i ==> !CutAt(s, sep, k)
  }

  /** A character that starts no cut moves the quote state and nothing else. */
  lemma {:induction false} ScanStep(s: string, sep: string, start: nat, i: nat, single: bool, double: bool,
                                    inSingle: bool, inDouble: bool)
    requires IsSeparator(sep) && i < |s| && Scanned(s, sep, start, i, single, double)
    requires IsMark(s[i]) || single || double || !StartsAt(s, sep, i)
    requires inSingle == if s[i] == '\'' && !double then !single else single
    requires inDouble == if s[i] == '"' && !single then !double else double
    ensures Scanned(s, sep, start, i + 1, inSingle, inDouble)
  {
    if IsMark(s[i]) {
      MarkIsNoCut(s, sep, i);
    }
    assert !CutAt(s, sep, i);
  }

  /** The parts found so far and those from `start` on are all of them. */
  ghost predicate Remains(s: string, sep: string, start: nat, parts: seq<string>) {
    |sep| > 0 && start <= |s| && parts + SplitFrom(s, sep, start) == SplitOutsideQuotes(s, sep)
  }

  lemma {:induction false} ScanCut(s: string, sep: string, start: nat, i: nat, parts: seq<string>)
    requires IsSeparator(sep) && Scanned(s, sep, start, i, false, false) && StartsAt(s, sep, i)
    requires Remains(s, sep, start, parts)
    ensures Scanned(s, sep, i + |sep|, i + |sep|, false, false)
    ensures Remains(s, sep, i + |sep|, parts + [Slice(s, start, i)])
  {
    QuoteAfterCut(s, sep, i, |sep|);
    Regroup(parts, [Slice(s, start, i)], SplitFrom(s, sep, i + |sep|));
  }

  lemma {:induction false} ScanEnd(s: string, sep: string, start: nat, i: nat, inSingle: bool, inDouble: bool,
                                   parts: seq<string>)
    requires Scanned(s, sep, start, i, inSingle, inDouble) && |s| < i + |sep| && Remains(s, sep, start, parts)
    ensures parts + [Slice(s, start, |s|)] == SplitOutsideQuotes(s, sep)
  {
    NoLateCut(s, sep, i);
  }

  /** The two flags of the splitter, as one quote state; they are never both set. */
  function Flags(inSingle: bool, inDouble: bool): Quote {
    if inSingle then Single else if inDouble then Double else Outside
  }

  lemma {:induction false} MarkIsNoCut(s: string, sep: string, i: nat)
    requires IsSeparator(sep) && i < |s| && IsMark(s[i])
    ensures !CutAt(s, sep, i)
  {
    assert !IsMark(sep[0]);
  }

  lemma {:induction false} NoLateCut(s: string, sep: string, i: nat)
    requires i <= |s| < i + |sep|
    ensures NextCut(s, sep, i) == |s|
    decreases |s| - i
  {
    if i < |s| {
      NoLateCut(s, sep, i + 1);
    }
  }

  /** A separator holds no quote marks, so the state behind it is the state before it. */
  lemma {:induction false} QuoteAfterCut(s: string, sep: string, i: nat, n: nat)
    requires IsSeparator(sep) && CutAt(s, sep, i) && n <= |sep|
    ensures QuoteAt(s, i + n) == Outside
  {
    if n > 0 {
      QuoteAfterCut(s, sep, i, n - 1);
      assert s[i + (n - 1)] == sep[n - 1] && !IsMark(sep[n - 1]);
    }
  }

  // ---------------------------------------------------------------- texts inside texts

  lemma {:induction false} QuoteEmbeds(t: string, s: string, lo: nat, k: nat)
    requires Embeds(t, s, lo) && QuoteAt(s, lo) == Outside && k <= |t|
    ensures QuoteAt(t, k) == QuoteAt(s, lo + k)
  {
    if k > 0 {
      QuoteEmbeds(t, s, lo, k - 1);
      assert t[k - 1] == s[lo + (k - 1)];
    }
  }

  lemma {:induction false} CutEmbeds(t: string, s: string, lo: nat, sep: string, k: nat)
    requires Embeds(t, s, lo) && QuoteAt(s, lo) == Outside && k + |sep| <= |t|
    ensures CutAt(t, sep, k) <==> CutAt(s, sep, lo + k)
  {
    QuoteEmbeds(t, s, lo, k);
    if StartsAt(s, sep, lo + k) {
      forall j | 0 <= j < |sep| ensures t[k + j] == sep[j] {
        assert t[k + j] == s[lo + (k + j)];
      }
    }
    if StartsAt(t, sep, k) {
      forall j | 0 <= j < |sep| ensures s[lo + k + j] == sep[j] {
        assert t[k + j] == s[lo + (k + j)];
      }
    }
  }

  /** Behind a point outside quotes, the text is cut as if it stood alone. */
  lemma {:induction false} NextCutEmbeds(t: string, s: string, lo: nat, sep: string, k: nat)
    requires Embeds(t, s, lo) && lo + |t| == |s| && QuoteAt(s, lo) == Outside && k <= |t| && |sep| > 0
    ensures NextCut(s, sep, lo + k) == lo + NextCut(t, sep, k)
    decreases |t| - k
  {
    if k < |t| {
      if k + |sep| <= |t| {
        CutEmbeds(t, s, lo, sep, k);
      }
      NextCutEmbeds(t, s, lo, sep, k + 1);
    }
  }

  lemma {:induction false} SplitsAgree(t: string, s: string, sep: string, k: nat, m: nat, i: nat, j: nat)
    requires |sep| > 0 && k <= |t| && m <= |s| && NextCut(t, sep, k) == i && NextCut(s, sep, m) == j
    requires Slice(t, k, i) == Slice(s, m, j) && (i == |t| <==> j == |s|)
    requires i < |t| ==> SplitFrom(t, sep, i + |sep|) == SplitFrom(s, sep, j + |sep|)
    ensures SplitFrom(s, sep, m) == SplitFrom(t, sep, k)
  {
  }

  lemma {:induction false} PartEmbeds(t: string, s: string, lo: nat, sep: string, k: nat, m: nat)
    requires Embeds(t, s, lo) && lo + |t| == |s| && QuoteAt(s, lo) == Outside && k <= |t| && |sep| > 0 && m == lo + k
    ensures NextCut(s, sep, m) == lo + NextCut(t, sep, k)
    ensures Slice(s, m, NextCut(s, sep, m)) == Slice(t, k, NextCut(t, sep, k))
  {
    NextCutEmbeds(t, s, lo, sep, k);
    SliceEmbeds(t, s, lo, k, NextCut(t, sep, k));
  }

  lemma {:induction false} SplitEmbeds(t: string, s: string, lo: nat, sep: string, k: nat, m: nat)
    requires Embeds(t, s, lo) && lo + |t| == |s| && QuoteAt(s, lo) == Outside && k <= |t| && |sep| > 0 && m == lo + k
    ensures SplitFrom(s, sep, m) == SplitFrom(t, sep, k)
    decreases |t| - k
  {
    var i := NextCut(t, sep, k);
    var j := NextCut(s, sep, m);
    PartEmbeds(t, s, lo, sep, k, m);
    if i < |t| {
      SplitEmbeds(t, s, lo, sep, i + |sep|, j + |sep|);
    }
    SplitsAgree(t, s, sep, k, m, i, j);
  }

  // ---------------------------------------------------------------- what the split guarantees on every text

  function Join(parts: seq<string>, sep: string): string
    requires |parts| >= 1
  {
    if |parts| == 1 then parts[0] else parts[0] + sep + Join(parts[1..], sep)
  }

  /** No separator stands outside quotes, so the text is a single part. */
  predicate Whole(s: string, sep: string) {
    forall i: nat :: i < |s| ==> !CutAt(s, sep, i)
  }

  lemma {:induction false} JoinCons(a: string, parts: seq<string>, sep: string)
    requires |parts| >= 1
    ensures Join([a] + parts, sep) == a + sep + Join(parts, sep)
  {
    assert ([a] + parts)[1..] == parts;
  }

  /** The parts rejoin to the text. */
  lemma {:induction false} SplitRejoins(s: string, sep: string, start: nat)
    requires |sep| > 0 && start <= |s|
    ensures Join(SplitFrom(s, sep, start), sep) == Slice(s, start, |s|)
    decreases |s| - start
  {
    var i := NextCut(s, sep, start);
    if i < |s| {
      SplitRejoins(s, sep, i + |sep|);
      JoinCons(Slice(s, start, i), SplitFrom(s, sep, i + |sep|), sep);
      Reassemble(s, sep, start, i);
    }
  }

  lemma {:induction false} Reassemble(s: string, sep: string, start: nat, i: nat)
    requires start <= i && StartsAt(s, sep, i)
    ensures Slice(s, start, i) + sep + Slice(s, i + |sep|, |s|) == Slice(s, start, |s|)
  {
    var x, y := Slice(s, start, i) + sep + Slice(s, i + |sep|, |s|), Slice(s, start, |s|);
    SliceIsWindow(s, start, i);
    SliceIsWindow(s, i + |sep|, |s|);
    SliceIsWindow(s, start, |s|);
    forall k | 0 <= k < |y| ensures x[k] == y[k] {
      var j := start + k;
      assert y[k] == s[j];
      if i <= j < i + |sep| {
        assert x[k] == sep[j - i];
      }
    }
  }

  lemma {:induction false} WholeIsOnePart(s: string, sep: string)
    requires |sep| > 0
    ensures Whole(s, sep) <==> |SplitOutsideQuotes(s, sep)| == 1
    ensures Whole(s, sep) ==> SplitOutsideQuotes(s, sep) == [s]
  {
    var i := NextCut(s, sep, 0);
    SliceIsWindow(s, 0, |s|);
    assert Slice(s, 0, |s|) == s;
  }

  /** A window that starts outside quotes and holds no cut is whole. */
  lemma {:induction false} WindowIsWhole(t: string, s: string, lo: nat, sep: string)
    requires Embeds(t, s, lo) && QuoteAt(s, lo) == Outside
    requires forall k: nat :: lo <= k < lo + |t| ==> !CutAt(s, sep, k)
    ensures Whole(t, sep)
  {
    forall k: nat | k < |t| ensures !CutAt(t, sep, k) {
      if k + |sep| <= |t| {
        CutEmbeds(t, s, lo, sep, k);
        assert !CutAt(s, sep, lo + k);
      }
    }
  }

  /** No part holds a separator outside quotes. */
  lemma {:induction false} PartsAreWhole(s: string, sep: string, start: nat)
    requires IsSeparator(sep) && start <= |s| && QuoteAt(s, start) == Outside
    ensures forall p :: p in SplitFrom(s, sep, start) ==> Whole(p, sep)
    decreases |s| - start
  {
    var i := NextCut(s, sep, start);
    SliceIsWindow(s, start, i);
    WindowIsWhole(Slice(s, start, i), s, start, sep);
    if i < |s| {
      QuoteAfterCut(s, sep, i, |sep|);
      PartsAreWhole(s, sep, i + |sep|);
    }
  }

  /** Cutting on one separator keeps a text free of another one. */
  lemma {:induction false} PartsKeepWhole(s: string, sep: string, other: string, start: nat)
    requires IsSeparator(sep) && Whole(s, other) && start <= |s| && QuoteAt(s, start) == Outside
    ensures forall p :: p in SplitFrom(s, sep, start) ==> Whole(p, other)
    decreases |s| - start
  {
    var i := NextCut(s, sep, start);
    SliceIsWindow(s, start, i);
    WindowIsWhole(Slice(s, start, i), s, start, other);
    if i < |s| {
      QuoteAfterCut(s, sep, i, |sep|);
      PartsKeepWhole(s, sep, other, i + |sep|);
    }
  }

  lemma {:induction false} PartsAreShorter(s: string, sep: string, start: nat)
    requires |sep| > 0 && start <= |s|
    ensures |SplitFrom(s, sep, start)| > 1 ==> forall p :: p in SplitFrom(s, sep, start) ==> |p| < |s| - start
    ensures forall p :: p in SplitFrom(s, sep, start) ==> |p| <= |s| - start
    decreases |s| - start
  {
    var i := NextCut(s, sep, start);
    if i < |s| {
      PartsAreShorter(s, sep, i + |sep|);
    }
  }

  lemma {:induction false} SpacesKeepQuote(s: string, n: nat)
    requires n <= |s| && forall i :: 0 <= i < n ==> IsSpace(s[i])
    ensures QuoteAt(s, n) == Outside
  {
    if n > 0 {
      SpacesKeepQuote(s, n - 1);
    }
  }

  lemma {:induction false} TrimKeepsWhole(s: string, sep: string)
    requires Whole(s, sep)
    ensures Whole(Trim(s), sep)
  {
    var lo := TrimIsWindow(s);
    SpacesKeepQuote(s, lo);
    WindowIsWhole(Trim(s), s, lo, sep);
  }

  // ---------------------------------------------------------------- evaluation

  const OR := " or "
  const AND := " and "

  /**
   * The evaluator. `atom` gives the truth of a trimmed text without connectives in the context at hand.
   */
  function Evaluate(expr: string, atom: string -> bool): bool
    decreases |expr|
  {
    var trimmed := Trim(expr);
    var orParts := SplitOutsideQuotes(trimmed, OR);
    var andParts := SplitOutsideQuotes(trimmed, AND);
    TrimShrinks(expr);
    PartsShrink(trimmed, OR);
    PartsShrink(trimmed, AND);
    if |orParts| > 1 then exists p :: p in orParts && Evaluate(Trim(p), atom)
    else if |andParts| > 1 then forall p :: p in andParts ==> Evaluate(Trim(p), atom)
    else atom(trimmed)
  }

  lemma {:induction false} PartsShrink(s: string, sep: string)
    requires |sep| > 0
    ensures |SplitOutsideQuotes(s, sep)| > 1 ==> forall p :: p in SplitOutsideQuotes(s, sep) ==> |Trim(p)| < |s|
  {
    PartsAreShorter(s, sep, 0);
    forall p | p in SplitOutsideQuotes(s, sep) ensures |Trim(p)| <= |p| {
      TrimShrinks(p);
    }
  }

  predicate AllAtoms(conjunction: string, atom: string -> bool) {
    forall a :: a in SplitOutsideQuotes(conjunction, AND) ==> atom(Trim(a))
  }

  /** The flat reading: an or of ands of atoms, two splits deep. */
  predicate Flat(expr: string, atom: string -> bool) {
    exists p :: p in SplitOutsideQuotes(Trim(expr), OR) && AllAtoms(Trim(p), atom)
  }

  /** A text without either connective outside quotes is an atom. */
  lemma {:induction false} EvaluateAtom(s: string, atom: string -> bool)
    requires Whole(s, OR) && Whole(s, AND)
    ensures Evaluate(Trim(s), atom) == atom(Trim(s))
  {
    TrimKeepsWhole(s, OR);
    TrimKeepsWhole(s, AND);
    TrimTwice(s);
    WholeIsOnePart(Trim(s), OR);
    WholeIsOnePart(Trim(s), AND);
  }

  lemma {:induction false} EvaluateConjunction(s: string, atom: string -> bool)
    requires Whole(s, OR)
    ensures Evaluate(Trim(s), atom) == AllAtoms(Trim(s), atom)
  {
    var t := Trim(s);
    TrimTwice(s);
    TrimKeepsWhole(s, OR);
    WholeIsOnePart(t, OR);
    PartsKeepWhole(t, AND, OR, 0);
    PartsAreWhole(t, AND, 0);
    var parts := SplitOutsideQuotes(t, AND);
    forall p | p in parts ensures Evaluate(Trim(p), atom) == atom(Trim(p)) {
      EvaluateAtom(p, atom);
    }
    WholeIsOnePart(t, AND);
  }

  /**
   * On every text, however it nests quotes and connectives, the recursive evaluator computes the flat reading:
   * it never needs more than one `or` level above one `and` level.
   */
  lemma {:induction false} EvaluateIsFlat(expr: string, atom: string -> bool)
    ensures Evaluate(expr, atom) <==> Flat(expr, atom)
  {
    var t := Trim(expr);
    var orParts := SplitOutsideQuotes(t, OR);
    PartsAreWhole(t, OR, 0);
    forall p | p in orParts ensures Evaluate(Trim(p), atom) == AllAtoms(Trim(p), atom) {
      EvaluateConjunction(p, atom);
    }
    if |orParts| == 1 {
      WholeIsOnePart(t, OR);
      TrimTwice(expr);
      assert Evaluate(expr, atom) == Evaluate(t, atom);
    }
  }

  // ---------------------------------------------------------------- printing and evaluating again

  /**
   * An atom that survives printing: visible at both ends, its quotes closed, and with no connective outside
   * quotes even when blanks are put around it.
   */
  ghost predicate IsAtom(a: string) {
    && a != "" && Trimmed(a) && QuoteAt(a, |a|) == Outside
    && Padded(a, OR) && Padded(a, AND)
  }

  function Pad(a: string): string {
    " " + a + " "
  }

  ghost predicate Padded(a: string, sep: string) {
    Whole(Pad(a), sep)
  }

  /** Followed by the separator, the text is cut at its end and nowhere before. */
  ghost predicate Sealed(p: string, sep: string) {
    QuoteAt(p, |p|) == Outside && forall k: nat :: k < |p| ==> !CutAt(p + sep, sep, k)
  }

  function PrintAll(tree: seq<seq<string>>): (texts: seq<string>)
    requires forall i :: 0 <= i < |tree| ==> |tree[i]| >= 1
    ensures |texts| == |tree| && forall i :: 0 <= i < |tree| ==> texts[i] == Join(tree[i], AND)
  {
    if tree == [] then [] else [Join(tree[0], AND)] + PrintAll(tree[1..])
  }

  /** The text of an or of ands of atoms. */
  function Print(tree: seq<seq<string>>): string
    requires |tree| >= 1 && forall i :: 0 <= i < |tree| ==> |tree[i]| >= 1
  {
    Join(PrintAll(tree), OR)
  }

  predicate Meaning(tree: seq<seq<string>>, atom: string -> bool) {
    exists i :: 0 <= i < |tree| && Holds(tree[i], atom)
  }

  predicate Holds(atoms: seq<string>, atom: string -> bool) {
    forall a :: a in atoms ==> atom(a)
  }

  ghost predicate AreAtoms(atoms: seq<string>) {
    |atoms| >= 1 && forall j :: 0 <= j < |atoms| ==> IsAtom(atoms[j])
  }

  ghost predicate IsTree(tree: seq<seq<string>>) {
    |tree| >= 1 && forall i :: 0 <= i < |tree| ==> AreAtoms(tree[i])
  }

  ghost predicate AllSealed(parts: seq<string>, sep: string) {
    forall i :: 0 <= i < |parts| ==> Sealed(parts[i], sep)
  }

  /** Splitting undoes joining. */
  lemma {:induction false} SplitJoin(parts: seq<string>, sep: string)
    requires IsSeparator(sep) && |parts| >= 1 && AllSealed(parts, sep)
    ensures SplitOutsideQuotes(Join(parts, sep), sep) == parts
    decreases |parts|
  {
    var p := parts[0];
    if |parts| == 1 {
      WindowIsWhole(p, p + sep, 0, sep);
      WholeIsOnePart(p, sep);
    } else {
      SplitJoin(parts[1..], sep);
      SplitSealed(p, sep, Join(parts[1..], sep));
    }
  }

  lemma {:induction false} ConcatEmbeds(x: string, y: string)
    ensures Embeds(x, x + y, 0) && Embeds(y, x + y, |x|)
  {
  }

  lemma {:induction false} SplitSealed(p: string, sep: string, rest: string)
    requires IsSeparator(sep) && Sealed(p, sep)
    ensures SplitOutsideQuotes(p + sep + rest, sep) == [p] + SplitOutsideQuotes(rest, sep)
  {
    var s := p + sep + rest;
    var n := |p + sep|;
    SealedCut(p, sep, rest);
    QuoteAfterCut(s, sep, |p|, |sep|);
    ConcatEmbeds(p + sep, rest);
    SplitEmbeds(rest, s, n, sep, 0, n);
    PrefixSlice(p, sep + rest);
    assert p + (sep + rest) == s;
  }

  lemma {:induction false} PrefixSlice(x: string, y: string)
    ensures Slice(x + y, 0, |x|) == x
  {
    var t := Slice(x + y, 0, |x|);
    SliceIsWindow(x + y, 0, |x|);
    forall k | 0 <= k < |x| ensures t[k] == x[k] {
      assert t[k] == (x + y)[0 + k];
    }
  }

  lemma {:induction false} SealedCut(p: string, sep: string, rest: string)
    requires IsSeparator(sep) && Sealed(p, sep)
    ensures NextCut(p + sep + rest, sep, 0) == |p| < |p + sep + rest| && CutAt(p + sep + rest, sep, |p|)
  {
    var s, t := p + sep + rest, p + sep;
    QuoteEmbeds(p, s, 0, |p|);
    assert CutAt(s, sep, |p|);
    forall k: nat | k < |p| ensures !CutAt(s, sep, k) {
      assert !CutAt(t, sep, k);
      CutEmbeds(t, s, 0, sep, k);
    }
  }

  /** A cut spells the separator. */
  lemma {:induction false} CutChar(s: string, sep: string, k: nat, j: nat)
    requires CutAt(s, sep, k) && j < |sep|
    ensures s[k + j] == sep[j]
  {
  }

  /** Both connectives have blanks at their ends only. */
  predicate IsConnective(sep: string) {
    |sep| >= 3 && sep[0] == ' ' && IsSeparator(sep) && forall j :: 1 <= j < |sep| - 1 ==> sep[j] != ' '
  }

  lemma {:induction false} Connectives()
    ensures IsConnective(OR) && IsConnective(AND)
  {
  }

  lemma {:induction false} PaddedQuote(a: string, i: nat)
    requires i <= |a|
    ensures QuoteAt(Pad(a), i + 1) == QuoteAt(a, i)
  {
    var s := Pad(a);
    assert QuoteAt(s, 0) == Outside;
    assert QuoteAt(s, 1) == Outside;
    QuoteEmbeds(a, s, 1, i);
  }

  lemma {:induction false} PaddedIsSealed(a: string, sep: string)
    requires IsConnective(sep) && Padded(a, sep) && QuoteAt(a, |a|) == Outside
    ensures Sealed(a, sep)
  {
    var t := a + sep;
    forall k: nat | k < |a| ensures !CutAt(t, sep, k) {
      if k + |sep| <= |a| + 1 {
        PaddedCut(a, sep, k);
      } else if CutAt(t, sep, k) {
        CutChar(t, sep, k, |a| - k);
      }
    }
  }

  /** Up to the blank behind it, padding a text and following it with a connective cut it alike. */
  lemma {:induction false} PaddedCut(a: string, sep: string, k: nat)
    requires IsConnective(sep) && Padded(a, sep) && k + |sep| <= |a| + 1
    ensures !CutAt(a + sep, sep, k)
  {
    var u := a + " ";
    PaddedQuote(a, 0);
    assert Pad(a) == " " + u;
    ConcatEmbeds(" ", u);
    assert Embeds(u, a + sep, 0);
    assert !CutAt(Pad(a), sep, 1 + k);
    CutEmbeds(u, Pad(a), 1, sep, k);
    CutEmbeds(u, a + sep, 0, sep, k);
  }

  /** Joining two clean texts with ` and ` brings in no ` or `. */
  lemma {:induction false} PaddedAnd(a: string, y: string)
    requires Padded(a, OR) && Padded(y, OR) && QuoteAt(a, |a|) == Outside && QuoteAt(y, |y|) == Outside
    ensures Padded(a + AND + y, OR) && QuoteAt(a + AND + y, |a + AND + y|) == Outside
  {
    var x := a + AND + y;
    var n := |a| + 5;
    QuoteOfJoin(a, y);
    ConcatEmbeds(a + AND, y);
    QuoteEmbeds(y, x, n, |y|);
    PaddedQuote(x, n - 1);
    PadOfJoin(a, y);
    forall k: nat | k < |x| + 2 ensures !CutAt(Pad(x), OR, k) {
      if k + 4 <= |a| + 2 {
        assert !CutAt(Pad(a), OR, k);
        CutEmbeds(Pad(a), Pad(x), 0, OR, k);
      } else if k >= n {
        NoCutBehind(y, Pad(x), n, k);
      } else {
        NoCutAcross(Pad(x), |a|, k);
      }
    }
  }

  lemma {:induction false} PadOfJoin(a: string, y: string)
    ensures var s := Pad(a + AND + y);
            && Embeds(Pad(a), s, 0) && Embeds(Pad(y), s, |a| + 5) && |a| + 5 + |Pad(y)| == |s|
            && s[|a| + 2] == 'a' && s[|a| + 3] == 'n' && s[|a| + 4] == 'd'
  {
  }

  lemma {:induction false} NoCutBehind(y: string, s: string, n: nat, k: nat)
    requires Padded(y, OR) && Embeds(Pad(y), s, n) && n + |Pad(y)| == |s| && QuoteAt(s, n) == Outside && n <= k
    ensures !CutAt(s, OR, k)
  {
    if k + 4 <= |s| {
      assert !CutAt(Pad(y), OR, k - n);
      CutEmbeds(Pad(y), s, n, OR, k - n);
    }
  }

  /** The word between the blanks of ` and ` shares no letter with ` or `. */
  lemma {:induction false} NoCutAcross(s: string, m: nat, k: nat)
    requires m + 4 < |s| && s[m + 2] == 'a' && s[m + 3] == 'n' && s[m + 4] == 'd' && m + 2 < k + 4 && k < m + 5
    ensures !CutAt(s, OR, k)
  {
    var j := if k <= m + 2 then m + 2 else k;
    if CutAt(s, OR, k) {
      CutChar(s, OR, k, j - k);
    }
  }

  lemma {:induction false} QuoteOfJoin(a: string, y: string)
    requires QuoteAt(a, |a|) == Outside
    ensures QuoteAt(a + AND + y, |a| + 4) == Outside && QuoteAt(a + AND + y, |a| + 5) == Outside
  {
    var x := a + AND + y;
    QuoteEmbeds(a, x, 0, |a|);
    assert CutAt(x, AND, |a|);
    QuoteAfterCut(x, AND, |a|, 4);
    QuoteAfterCut(x, AND, |a|, 5);
  }

  lemma {:induction false} ConjunctionIsPadded(atoms: seq<string>)
    requires AreAtoms(atoms)
    ensures var c := Join(atoms, AND); QuoteAt(c, |c|) == Outside && Padded(c, OR)
  {
    assert IsAtom(atoms[0]);
    if |atoms| > 1 {
      ConjunctionIsPadded(atoms[1..]);
      PaddedAnd(atoms[0], Join(atoms[1..], AND));
    }
  }

  predicate AllVisible(parts: seq<string>) {
    forall i :: 0 <= i < |parts| ==> parts[i] != "" && Trimmed(parts[i])
  }

  lemma {:induction false} JoinIsVisible(parts: seq<string>, sep: string)
    requires |parts| >= 1 && AllVisible(parts)
    ensures Join(parts, sep) != "" && Trimmed(Join(parts, sep))
  {
    if |parts| > 1 {
      JoinIsVisible(parts[1..], sep);
      var x, y := parts[0] + sep, Join(parts[1..], sep);
      assert (x + y)[|x + y| - 1] == y[|y| - 1];
    }
  }

  lemma {:induction false} AtomIsSealed(a: string)
    requires IsAtom(a)
    ensures Sealed(a, AND) && Trim(a) == a
  {
    Connectives();
    PaddedIsSealed(a, AND);
    TrimOfTrimmed(a);
  }

  lemma {:induction false} AtomsAreSealed(atoms: seq<string>)
    requires AreAtoms(atoms)
    ensures AllSealed(atoms, AND) && AllVisible(atoms)
    ensures forall i :: 0 <= i < |atoms| ==> Trim(atoms[i]) == atoms[i]
  {
    forall i | 0 <= i < |atoms| ensures Sealed(atoms[i], AND) && Trim(atoms[i]) == atoms[i] {
      assert IsAtom(atoms[i]);
      AtomIsSealed(atoms[i]);
    }
  }

  /** A printed conjunction is one part of the disjunction and means what its atoms mean. */
  lemma {:induction false} ConjunctionSurvives(atoms: seq<string>, atom: string -> bool)
    requires AreAtoms(atoms)
    ensures var c := Join(atoms, AND); Sealed(c, OR) && c != "" && Trimmed(c)
    ensures AllAtoms(Trim(Join(atoms, AND)), atom) <==> Holds(atoms, atom)
  {
    var c := Join(atoms, AND);
    Connectives();
    ConjunctionIsPadded(atoms);
    PaddedIsSealed(c, OR);
    AtomsAreSealed(atoms);
    JoinIsVisible(atoms, AND);
    TrimOfTrimmed(c);
    SplitJoin(atoms, AND);
  }

  /**
   * Printing any or of ands of atoms and evaluating the text gives the meaning of the tree, whatever text the
   * atoms' quoted literals hold.
   */
  lemma {:induction false} PrintThenEvaluate(tree: seq<seq<string>>, atom: string -> bool)
    requires IsTree(tree)
    ensures Evaluate(Print(tree), atom) <==> Meaning(tree, atom)
  {
    var texts := PrintAll(tree);
    forall i | 0 <= i < |tree|
      ensures Sealed(texts[i], OR) && texts[i] != "" && Trimmed(texts[i])
      ensures AllAtoms(Trim(texts[i]), atom) <==> Holds(tree[i], atom)
    {
      ConjunctionSurvives(tree[i], atom);
    }
    Connectives();
    SplitJoin(texts, OR);
    JoinIsVisible(texts, OR);
    TrimOfTrimmed(Print(tree));
    EvaluateIsFlat(Print(tree), atom);
    assert SplitOutsideQuotes(Trim(Print(tree)), OR) == texts;
    if Meaning(tree, atom) {
      var i :| 0 <= i < |tree| && Holds(tree[i], atom);
      assert texts[i] in texts;
    }
  }

  // ---------------------------------------------------------------- literals

  lemma {:induction false} InsideLiteral(s: string, n: nat, i: nat)
    requires n + i < |s| && QuoteAt(s, n) == Outside && IsMark(s[n])
    requires forall j :: n < j <= n + i ==> s[j] != s[n]
    ensures QuoteAt(s, n + 1 + i) == NextQuote(Outside, s[n]) != Outside
  {
    if i > 0 {
      InsideLiteral(s, n, i - 1);
    }
  }

  lemma {:induction false} NoQuotes(s: string, i: nat)
    requires i <= |s| && forall j :: 0 <= j < i ==> !IsMark(s[j])
    ensures QuoteAt(s, i) == Outside
  {
    if i > 0 {
      NoQuotes(s, i - 1);
      assert !IsMark(s[i - 1]);
    }
  }

  /** A literal in quotes of the given kind. */
  function Quoted(lit: string, mark: char): string {
    [mark] + lit + [mark]
  }

  /**
   * A comparison with a literal in single or double quotes is an atom whatever the literal holds, connectives and
   * quotes of the other kind included.
   */
  lemma {:induction false} QuotedLiteralIsAtom(lhs: string, lit: string, mark: char)
    requires lhs != "" && !IsSpace(lhs[0]) && (forall j :: 0 <= j < |lhs| ==> !IsMark(lhs[j]))
    requires IsMark(mark) && forall j :: 0 <= j < |lit| ==> lit[j] != mark
    requires Whole(" " + lhs, OR) && Whole(" " + lhs, AND)
    ensures IsAtom(lhs + Quoted(lit, mark))
  {
    var a := lhs + Quoted(lit, mark);
    assert a[|lhs|] == mark;
    NoQuotes(a, |lhs|);
    InsideLiteral(a, |lhs|, |lit|);
    assert a[|a| - 1] == mark;
    Connectives();
    PaddedLiteral(lhs, lit, mark, OR);
    PaddedLiteral(lhs, lit, mark, AND);
  }

  lemma {:induction false} PaddedLiteral(lhs: string, lit: string, mark: char, sep: string)
    requires IsConnective(sep) && forall j :: 0 <= j < |lhs| ==> !IsMark(lhs[j])
    requires IsMark(mark) && forall j :: 0 <= j < |lit| ==> lit[j] != mark
    requires Whole(" " + lhs, sep)
    ensures Padded(lhs + Quoted(lit, mark), sep)
  {
    var head := " " + lhs;
    var s, n := Pad(lhs + Quoted(lit, mark)), |head|;
    assert s[n] == mark;
    NoQuotes(s, n);
    forall k: nat | k < |s| ensures !CutAt(s, sep, k) {
      if k + |sep| <= n {
        assert !CutAt(head, sep, k);
        CutEmbeds(head, s, 0, sep, k);
      } else if k <= n {
        if CutAt(s, sep, k) {
          CutChar(s, sep, k, n - k);
        }
      } else if k <= n + 1 + |lit| {
        InsideLiteral(s, n, k - n - 1);
      }
    }
  }

  // ---------------------------------------------------------------- in characters

  lemma {:induction false} ConnectivesInCharacters(c: char)
    ensures OR == " or " && AND == " and "
    ensures IsMark(c) <==> c in "'\""
    ensures NextQuote(Outside, c) == if c == '\'' then Single else if c == '"' then Double else Outside
    ensures NextQuote(Single, c) == if c == '\'' then Outside else Single
    ensures NextQuote(Double, c) == if c == '"' then Outside else Double
  {
  }

  /** What is printed: the ands between the atoms, the ors between the conjunctions. */
  lemma {:induction false} PrintedInCharacters(a: string, b: string, c: string)
    ensures Print([[a]]) == a
    ensures Print([[a, b]]) == a + " and " + b
    ensures Print([[a], [b]]) == a + " or " + b
    ensures Print([[a, b], [c]]) == a + " and " + b + " or " + c
  {
    JoinsTwo(a, b, AND);
    JoinsTwo(a, b, OR);
    JoinsTwo(a + " and " + b, c, OR);
    assert [[a]][1..] == [] && [[a, b]][1..] == [] && PrintAll([]) == [];
    assert PrintAll([[a]]) == [a] && PrintAll([[a, b]]) == [a + " and " + b];
    assert [[a], [b]][1..] == [[b]] && [[a, b], [c]][1..] == [[c]] && PrintAll([[b]]) == [b] && PrintAll([[c]]) == [c];
    assert PrintAll([[a], [b]]) == [a, b] && PrintAll([[a, b], [c]]) == [a + " and " + b, c];
  }

  lemma {:induction false} JoinsTwo(a: string, b: string, sep: string)
    ensures Join([a], sep) == a && Join([a, b], sep) == a + sep + b
  {
    assert [a, b][1..] == [b];
  }

  /** An or holds when one of its conjunctions does, and a conjunction when all of its atoms do. */
  lemma {:induction false} MeaningOfTrees(tree: seq<seq<string>>, atom: string -> bool)
    ensures Meaning(tree, atom) <==>
              exists atoms :: atoms in tree && forall j :: 0 <= j < |atoms| ==> atom(atoms[j])
  {
    if Meaning(tree, atom) {
      var i :| 0 <= i < |tree| && Holds(tree[i], atom);
      assert tree[i] in tree;
    }
    forall atoms | atoms in tree && forall j :: 0 <= j < |atoms| ==> atom(atoms[j]) ensures Meaning(tree, atom) {
      HoldsInOrder(atoms, atom);
    }
  }

  lemma {:induction false} HoldsInOrder(atoms: seq<string>, atom: string -> bool)
    ensures Holds(atoms, atom) <==> forall j :: 0 <= j < |atoms| ==> atom(atoms[j])
  {
    forall a | a in atoms && (forall j :: 0 <= j < |atoms| ==> atom(atoms[j])) ensures atom(a) {
    }
  }

  lemma {:induction false} OneConjunction(atoms: seq<string>, atom: string -> bool)
    ensures Meaning([atoms], atom) <==> forall j :: 0 <= j < |atoms| ==> atom(atoms[j])
  {
    MeaningOfTrees([atoms], atom);
    assert atoms in [atoms];
  }

  lemma {:induction false} TwoSingles(a: string, b: string, atom: string -> bool)
    ensures Meaning([[a], [b]], atom) <==> atom(a) || atom(b)
  {
    var tree := [[a], [b]];
    MeaningOfTrees(tree, atom);
    assert tree[0] in tree && tree[1] in tree && tree[0][0] == a && tree[1][0] == b;
  }

  /** Two atoms under both connectives. */
  lemma {:induction false} TwoAtoms(a: string, b: string, atom: string -> bool)
    requires IsAtom(a) && IsAtom(b)
    ensures Evaluate(a, atom) <==> atom(a)
    ensures Evaluate(a + " and " + b, atom) <==> atom(a) && atom(b)
    ensures Evaluate(a + " or " + b, atom) <==> atom(a) || atom(b)
  {
    PrintedInCharacters(a, b, "");
    PrintThenEvaluate([[a]], atom);
    PrintThenEvaluate([[a, b]], atom);
    PrintThenEvaluate([[a], [b]], atom);
    OneConjunction([a], atom);
    OneConjunction([a, b], atom);
    TwoSingles(a, b, atom);
    assert [a][0] == a && [a, b][0] == a && [a, b][1] == b;
  }
}
