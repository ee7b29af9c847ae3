// Statements that the verb finder reads wrongly: a verb glued to a name in quotes, and an identifier that holds a verb
// and a digit.
module SqlMisreads {
  import opened Collections
  import opened Trimming
  import opened SqlLexing
  import opened SqlWords

  // ---------------------------------------------------------------- runs of a text, from left to right

  /** A text of characters that are tokens by themselves, as tokens. */
  function Others(p: string): seq<Token> {
    if p == "" then [] else [Other(p[0])] + Others(p[1..])
  }

  predicate IsInert(c: char) {
    !IsQuote(c) && c != ';' && c != '-' && c != '/'
  }

  /** An inert character is a token by itself. */
  lemma {:induction false} LexChar(c: char, s: string)
    requires IsInert(c)
    ensures Lex([c] + s) == [Other(c)] + Lex(s) && Lex([c] + s)[1..] == Lex(s)
  {
    var t := [c] + s;
    assert t[1..] == s && FirstToken(t) == Other(c);
  }

  lemma {:induction false} LexInert(p: string, s: string)
    requires forall i :: 0 <= i < |p| ==> IsInert(p[i])
    ensures Lex(p + s) == Others(p) + Lex(s)
  {
    if p == "" {
      assert p + s == s && Others(p) + Lex(s) == Lex(s);
    } else {
      LexInert(p[1..], s);
      Uncons(p, s);
      LexChar(p[0], p[1..] + s);
      Regroup([Other(p[0])], Others(p[1..]), Lex(s));
    }
  }

  lemma {:induction false} RunsOverChar(c: char, s: string, depth: nat, words: seq<string>, word: string)
    requires IsNameChar(c)
    ensures Runs(Lex([c] + s), depth, words, word) == Runs(Lex(s), depth, words, word + [c])
  {
    LexChar(c, s);
  }

  lemma {:induction false} RunsOverWord(w: string, s: string, depth: nat, words: seq<string>, word: string)
    requires forall i :: 0 <= i < |w| ==> IsNameChar(w[i])
    ensures Runs(Lex(w + s), depth, words, word) == Runs(Lex(s), depth, words, word + w)
  {
    if w == "" {
      assert w + s == s && word + w == word;
    } else {
      RunsOverChar(w[0], w[1..] + s, depth, words, word);
      RunsOverWord(w[1..], s, depth, words, word + [w[0]]);
      Uncons(w, s);
      Recons(word, w);
    }
  }

  /** A word and the character that ends it. */
  lemma {:induction false} RunsOverEnd(w: string, c: char, s: string, depth: nat, words: seq<string>)
    requires (forall i :: 0 <= i < |w| ==> IsNameChar(w[i])) && IsInert(c) && !IsNameChar(c)
    ensures Runs(Lex(w + ([c] + s)), depth, words, "")
         == EndRun(Finished(words, w), depth, !IsParenthesis(Other(c)))
           + Runs(Lex(s), DepthAfter(Other(c), depth), [], "")
  {
    RunsOverWord(w, [c] + s, depth, words, "");
    LexChar(c, s);
    assert "" + w == w;
  }

  /** A text without semicolons and comments is one statement. */
  lemma {:induction false} OneStatement(ts: seq<Token>, buf: string)
    requires forall t :: t in ts ==> t.Other? || t.Literal?
    ensures Residue(ts) == "" && StatementsWith(ts, buf, "") == Emit(buf + Spelling(ts))
  {
    if ts == [] {
      assert buf + "" == buf;
    } else {
      OneStatement(ts[1..], buf + Source(ts[0]));
      Regroup(buf, Source(ts[0]), Spelling(ts[1..]));
      assert ts[0] in ts;
    }
  }

  /** A literal without its mark inside. */
  predicate IsName(name: string) {
    |name| >= 2 && IsQuote(name[0]) && name[|name| - 1] == name[0]
      && forall i :: 0 < i < |name| - 1 ==> name[i] != name[0]
  }

  lemma {:induction false} NameLength(s: string, q: QuoteMark, n: nat)
    requires n < |s| && s[n] == q && (forall i :: 0 <= i < n ==> s[i] != q) && (n + 1 < |s| ==> s[n + 1] != q)
    ensures LiteralLength(s, q) == n + 1 && EndMode(s[..n + 1], Quoted(q)) == Plain
  {
    if n > 0 {
      NameLength(s[1..], q, n - 1);
      assert s[..n + 1][1..] == s[1..][..n];
    } else {
      assert s[..1][1..] == "";
    }
  }

  lemma {:induction false} LexName(name: string, s: string)
    requires IsName(name) && (s != "" ==> s[0] != name[0])
    ensures Lex(name + s) == [Literal(name)] + Lex(s) && !UnclosedLiteral(Literal(name))
  {
    var q, t := name[0], name + s;
    NameLength(t[1..], q, |name| - 2);
    assert t[..|name|] == name && t[|name|..] == s;
    assert t[1..][..|name| - 1] == name[1..];
  }

  /** The words, each one followed by a blank. */
  function Spaced(words: seq<string>): string {
    if words == [] then "" else words[0] + (" " + Spaced(words[1..]))
  }

  function WholeRuns(words: seq<string>): seq<WordRun> {
    if words == [] then [] else [WordRun([words[0]], true)] + WholeRuns(words[1..])
  }

  predicate IsWord(w: string) {
    w != "" && forall i :: 0 <= i < |w| ==> IsWordChar(w[i])
  }

  lemma {:induction false} PastChar(c: char, s: string, depth: nat)
    requires IsInert(c) && !IsNameChar(c)
    ensures Runs(Lex([c] + s), depth, [], "") == Runs(Lex(s), DepthAfter(Other(c), depth), [], "")
  {
    LexChar(c, s);
  }

  lemma {:induction false} PastWord(w: string, s: string)
    requires IsPiece(w)
    ensures Runs(Lex(w + (" " + s)), 0, [], "") == [WordRun([w], true)] + Runs(Lex(s), 0, [], "")
  {
    assert " " + s == [' '] + s;
    RunsOverEnd(w, ' ', s, 0, []);
    assert [] + [w] == [w];
  }

  lemma {:induction false} PastWords(words: seq<string>, s: string)
    requires forall w :: w in words ==> IsWord(w)
    ensures Runs(Lex(Spaced(words) + s), 0, [], "") == WholeRuns(words) + Runs(Lex(s), 0, [], "")
  {
    if words == [] {
      NilFirst(s);
      NilFirst(Runs(Lex(s), 0, [], ""));
    } else {
      HeadOrTail(words);
      PastWords(words[1..], s);
      assert words[0] in words;
      PastWord(words[0], Spaced(words[1..]) + s);
      Regroup(words[0], " " + Spaced(words[1..]), s);
      Regroup(" ", Spaced(words[1..]), s);
      Regroup([WordRun([words[0]], true)], WholeRuns(words[1..]), Runs(Lex(s), 0, [], ""));
    }
  }

  lemma {:induction false} InsideChar(c: char, s: string, words: seq<string>, word: string)
    requires IsInert(c) && c != '(' && c != ')'
    ensures Runs(Lex([c] + s), 1, words, word)
         == if IsNameChar(c) then Runs(Lex(s), 1, words, word + [c]) else Runs(Lex(s), 1, [], "")
  {
    LexChar(c, s);
  }

  lemma {:induction false} InsideEnd(s: string, words: seq<string>, word: string)
    ensures Runs(Lex(")" + s), 1, words, word) == Runs(Lex(s), 0, [], "")
  {
    LexChar(')', s);
    assert ")" + s == [')'] + s;
  }

  /** Inside parentheses there are no runs. */
  lemma {:induction false} PastInside(p: string, s: string, words: seq<string>, word: string)
    requires forall i :: 0 <= i < |p| ==> IsInert(p[i]) && p[i] != '(' && p[i] != ')'
    ensures Runs(Lex(p + (")" + s)), 1, words, word) == Runs(Lex(s), 0, [], "")
  {
    if p == "" {
      NilFirst(")" + s);
      InsideEnd(s, words, word);
    } else {
      Uncons(p, ")" + s);
      InsideChar(p[0], p[1..] + (")" + s), words, word);
      if IsNameChar(p[0]) {
        PastInside(p[1..], s, words, word + [p[0]]);
      } else {
        PastInside(p[1..], s, [], "");
      }
    }
  }

  lemma {:induction false} RunsOverName(word: string, name: string, s: string)
    requires IsWord(word) && IsName(name) && (s != "" ==> s[0] != name[0])
    ensures Runs(Lex(word + (name + s)), 0, [], "") == Runs(Lex(s), 0, [word], "")
  {
    RunsOverWord(word, name + s, 0, [], "");
    LexName(name, s);
    assert ([Literal(name)] + Lex(s))[1..] == Lex(s);
    NilFirst([word]);
    NilFirst(word);
  }

  /** A verb, a name in quotes and a word, with nothing between them. */
  lemma {:induction false} PastGlued(verb: string, name: string, word: string, s: string)
    requires IsWord(verb) && IsName(name) && IsWord(word)
    ensures Runs(Lex(verb + (name + (word + (" " + s)))), 0, [], "")
         == [WordRun([verb, word], true)] + Runs(Lex(s), 0, [], "")
  {
    var tail := word + (" " + s);
    assert tail[0] == word[0];
    RunsOverName(verb, name, tail);
    RunsOverEnd(word, ' ', s, 0, [verb]);
    assert Finished([verb], word) == [verb, word];
  }

  /** A WITH statement whose verb is glued to a name in quotes and the word behind it. */
  function GluedQuery(words: seq<string>, inner: string, verb: string, name: string, word: string, s: string): string {
    Spaced(words) + ("(" + (inner + (")" + (" " + (verb + (name + (word + (" " + s))))))))
  }

  lemma {:induction false} GluedQueryRuns(words: seq<string>, inner: string, verb: string, name: string, word: string,
                                          s: string)
    requires (forall w :: w in words ==> IsWord(w)) && IsWord(verb) && IsName(name) && IsWord(word)
    requires forall i :: 0 <= i < |inner| ==> IsInert(inner[i]) && inner[i] != '(' && inner[i] != ')'
    ensures RunsOf(GluedQuery(words, inner, verb, name, word, s))
         == WholeRuns(words) + ([WordRun([verb, word], true)] + RunsOf(s))
  {
    var a := verb + (name + (word + (" " + s)));
    var b := " " + a;
    var c := inner + (")" + b);
    PastGlued(verb, name, word, s);
    PastChar(' ', a, 0);
    PastInside(inner, b, [], "");
    PastChar('(', c, 0);
    PastWords(words, "(" + c);
  }

  lemma {:induction false} OneName(w: string)
    ensures Glued([w]) == w && Names([w]) == Name(w, 0)
  {
    assert [w][..0] == [];
    NilFirst(w);
    NilFirst(Name(w, 0));
  }

  lemma {:induction false} WordIsLetters(w: string)
    requires IsWord(w)
    ensures HasLetter(w) && !HasDigit(w) && Name(w, 0) == [ToUpper(w)]
  {
    assert IsWordChar(w[0]);
  }

  /** One word of letters is read as it stands. */
  lemma {:induction false} WordIsRead(w: string)
    requires IsWord(w)
    ensures Read(WordRun([w], true)) == [ToUpper(w)] && Names([w]) == [ToUpper(w)]
  {
    WordIsLetters(w);
    OneName(w);
    LettersAreRead(w);
  }

  predicate NoVerbs(words: seq<string>) {
    forall w :: w in words ==> IsWord(w) && !IsDmlVerb(ToUpper(w))
  }

  lemma {:induction false} PastNoVerb(w: string, runs: seq<WordRun>)
    requires IsWord(w) && !IsDmlVerb(ToUpper(w))
    ensures Trouble([WordRun([w], true)] + runs) == Trouble(runs)
    ensures FirstDmlVerb(AllNames([WordRun([w], true)] + runs)) == FirstDmlVerb(AllNames(runs))
    ensures FirstDmlVerb(AllRead([WordRun([w], true)] + runs)) == FirstDmlVerb(AllRead(runs))
  {
    var r := WordRun([w], true);
    WordIsRead(w);
    assert ([r] + runs)[1..] == runs;
    FirstVerbOf(Names([w]), AllNames(runs));
    FirstVerbOf(Read(r), AllRead(runs));
    assert !HasVerb([ToUpper(w)]);
  }

  lemma {:induction false} PastNoVerbs(words: seq<string>, runs: seq<WordRun>)
    requires NoVerbs(words)
    ensures Trouble(WholeRuns(words) + runs) == Trouble(runs)
  {
    if words == [] {
      NilFirst(runs);
    } else {
      HeadOrTail(words);
      PastNoVerbs(words[1..], runs);
      PastNoVerb(words[0], WholeRuns(words[1..]) + runs);
      Regroup([WordRun([words[0]], true)], WholeRuns(words[1..]), runs);
    }
  }

  // ---------------------------------------------------------------- a verb glued to a name in quotes

  predicate IsGlued(words: seq<string>, inner: string, verb: string, name: string, word: string) {
    && NoVerbs(words) && IsWord(verb) && IsName(name) && IsWord(word)
    && IsDmlVerb(ToUpper(verb)) && !IsDmlVerb(ToUpper(verb + word))
    && IsInside(inner)
  }

  predicate IsInside(inner: string) {
    forall i :: 0 <= i < |inner| ==> IsInert(inner[i]) && inner[i] != '(' && inner[i] != ')'
  }

  lemma {:induction false} TwoNames(a: string, b: string)
    ensures Glued([a, b]) == a + b && Names([a, b]) == Name(a, 0) + Name(b, 0)
  {
    assert [a, b][..1] == [a];
    OneName(a);
  }

  lemma {:induction false} GluedPair(a: string, b: string)
    requires IsWord(a) && IsWord(b)
    ensures Read(WordRun([a, b], true)) == [ToUpper(a + b)] && Names([a, b]) == [ToUpper(a), ToUpper(b)]
  {
    TwoNames(a, b);
    WordIsLetters(a);
    WordIsLetters(b);
    LettersAreRead(a + b);
  }

  lemma {:induction false} LettersAreRead(text: string)
    requires IsWord(text)
    ensures Done(text) + Word(Pending(text), 0) == [ToUpper(text)]
  {
    NilFirst(text);
    LettersPend("", text);
  }

  /** Behind WITH, for both readings of a statement's first word. */
  predicate StartsWith(q: string) {
    LeadingWord(q) == LeadingName(q) && ToUpper(LeadingWord(q)) == "WITH"
  }

  /** What trouble means for a WITH statement. */
  lemma {:induction false} TroubleDecides(raw: string, q: string, r: WordRun, rest: seq<WordRun>)
    requires q in StatementsRead(raw) && StartsWith(q) && Trouble(RunsOf(q)) == [r] + rest
    ensures StatementVerb(q) == FirstDmlVerb(if HasVerb(Read(r)) then Read(r) else AllRead(rest))
    ensures ReferenceVerb(q) == FirstDmlVerb(if HasVerb(Names(r.pieces)) then Names(r.pieces) else AllNames(rest))
  {
    WordsByRuns(raw, q);
    VerbByRuns(RunsOf(q));
    assert ([r] + rest)[1..] == rest;
  }

  /**
   * A statement whose verb is glued to a name in quotes is classified by the verbs behind it, if any, and as a query
   * otherwise, whatever its own verb is.
   */
  lemma {:induction false} GluedVerbIsMissed(raw: string, words: seq<string>, inner: string, verb: string, name: string,
                                             word: string, s: string)
    requires IsGlued(words, inner, verb, name, word)
    requires var q := GluedQuery(words, inner, verb, name, word, s); q in StatementsRead(raw) && StartsWith(q)
    ensures var q := GluedQuery(words, inner, verb, name, word, s);
            StatementVerb(q) == FirstDmlVerb(AllRead(RunsOf(s))) && ReferenceVerb(q) == ToUpper(verb)
  {
    var q := GluedQuery(words, inner, verb, name, word, s);
    var run := WordRun([verb, word], true);
    GluedQueryRuns(words, inner, verb, name, word, s);
    PastNoVerbs(words, [run] + RunsOf(s));
    GluedPair(verb, word);
    assert HasVerb(Names(run.pieces)) by { assert IsDmlVerb(Names(run.pieces)[0]); }
    assert !HasVerb(Read(run));
    TroubleDecides(raw, q, run, RunsOf(s));
  }

  // ---------------------------------------------------------------- an identifier that holds a verb and a digit

  /** A WITH statement with one table expression, whose name is free. */
  function NamedQuery(name: string, inner: string, verb: string, tail: string): string {
    "WITH" + (" " + (name + (" " + Behind(inner, verb, tail))))
  }

  function Behind(inner: string, verb: string, tail: string): string {
    "AS" + (" " + ("(" + (inner + (")" + (" " + (verb + (" " + tail)))))))
  }

  lemma {:induction false} BehindRuns(inner: string, verb: string, tail: string)
    requires IsInside(inner) && IsWord(verb)
    ensures RunsOf(Behind(inner, verb, tail))
         == [WordRun(["AS"], true)] + ([WordRun([verb], true)] + RunsOf(tail))
  {
    var a := verb + (" " + tail);
    var b := " " + a;
    var c := inner + (")" + b);
    PastWord(verb, tail);
    PastChar(' ', a, 0);
    PastInside(inner, b, [], "");
    PastChar('(', c, 0);
    PastWord("AS", "(" + c);
  }

  lemma {:induction false} BehindVerb(inner: string, verb: string, tail: string)
    requires IsInside(inner) && IsWord(verb) && IsDmlVerb(ToUpper(verb))
    ensures FirstDmlVerb(AllNames(RunsOf(Behind(inner, verb, tail)))) == ToUpper(verb)
  {
    BehindRuns(inner, verb, tail);
    var rest := [WordRun([verb], true)] + RunsOf(tail);
    assert |ToUpper("AS")| == 2;
    PastNoVerb("AS", rest);
    WordIsRead(verb);
    assert rest[1..] == RunsOf(tail);
    assert AllNames(rest)[0] == ToUpper(verb);
  }

  lemma {:induction false} DigitIsNoVerb(name: string)
    requires HasDigit(name)
    ensures !HasVerb(Names([name]))
  {
    OneName(name);
    var i :| 0 <= i < |name| && IsDigit(name[i]);
    MixedIsUnknown(name, i);
  }

  lemma {:induction false} BehindWith(name: string, s: string)
    requires IsPiece(name) && HasDigit(name) && HasVerb(Read(WordRun([name], true)))
    ensures Trouble(RunsOf("WITH" + (" " + (name + (" " + s))))) == [WordRun([name], true)] + RunsOf(s)
  {
    var rest := [WordRun([name], true)] + RunsOf(s);
    PastWord("WITH", name + (" " + s));
    PastWord(name, s);
    assert |ToUpper("WITH")| == 4;
    PastNoVerb("WITH", rest);
    DigitIsNoVerb(name);
    assert rest[0] == WordRun([name], true);
  }

  /**
   * A table expression whose name holds a digit and, cut at its digits, a verb: the statement is classified by that
   * name, whatever its own verb is.
   */
  lemma {:induction false} NameIsReadAsVerb(raw: string, name: string, inner: string, verb: string, tail: string)
    requires IsPiece(name) && HasDigit(name) && HasVerb(Read(WordRun([name], true)))
    requires IsInside(inner) && IsWord(verb) && IsDmlVerb(ToUpper(verb))
    requires var q := NamedQuery(name, inner, verb, tail); q in StatementsRead(raw) && StartsWith(q)
    ensures var q := NamedQuery(name, inner, verb, tail);
            StatementVerb(q) == FirstDmlVerb(Read(WordRun([name], true))) && ReferenceVerb(q) == ToUpper(verb)
  {
    var q, s := NamedQuery(name, inner, verb, tail), Behind(inner, verb, tail);
    var run := WordRun([name], true);
    BehindWith(name, s);
    DigitIsNoVerb(name);
    TroubleDecides(raw, q, run, RunsOf(s));
    BehindVerb(inner, verb, tail);
  }

  /** Letters and one digit behind them: the letters are read as a word of their own. */
  lemma {:induction false} LettersThenDigit(w: string, d: char)
    requires IsWord(w) && IsDigit(d)
    ensures Read(WordRun([w + [d]], true)) == [ToUpper(w)]
  {
    OneName(w + [d]);
    NilFirst(w);
    LettersPend("", w);
    OneMoreChar(w, d);
    NilFirst([ToUpper(w)]);
    assert Word("", 0) == [] && [ToUpper(w)] + [] == [ToUpper(w)];
  }

  lemma {:induction false} LetterDigitIsPiece(w: string, d: char)
    requires IsWord(w) && IsDigit(d)
    ensures IsPiece(w + [d]) && HasDigit(w + [d])
  {
    assert (w + [d])[|w|] == d;
  }

  // ---------------------------------------------------------------- two statements

  lemma {:induction false} LettersOf(w: string, s: string)
    requires (forall i :: 0 <= i < |w| ==> IsLetter(w[i])) && (s == "" || !IsLetter(s[0]))
    ensures Letters(w + s) == w
  {
    if w == "" {
      assert w + s == s;
    } else {
      LettersOf(w[1..], s);
      assert (w + s)[1..] == w[1..] + s;
    }
  }

  lemma {:induction false} OthersAreOther(p: string)
    ensures forall t :: t in Others(p) ==> t.Other?
  {
    if p != "" {
      OthersAreOther(p[1..]);
    }
  }

  lemma {:induction false} LexGlued(head: string, name: string, tail: string)
    requires IsName(name) && (tail != "" ==> tail[0] != name[0])
    requires (forall i :: 0 <= i < |head| ==> IsInert(head[i])) && (forall i :: 0 <= i < |tail| ==> IsInert(tail[i]))
    ensures Lex(head + (name + tail)) == Others(head) + ([Literal(name)] + Others(tail))
  {
    LexInert(head, name + tail);
    LexName(name, tail);
    LexInert(tail, "");
    assert tail + "" == tail && Others(tail) + [] == Others(tail);
  }

  lemma {:induction false} GluedIsStatement(q: string, head: string, name: string, tail: string)
    requires q == head + (name + tail) && Trimmed(q) && IsName(name) && (tail != "" ==> tail[0] != name[0])
    requires (forall i :: 0 <= i < |head| ==> IsInert(head[i])) && (forall i :: 0 <= i < |tail| ==> IsInert(tail[i]))
    ensures StatementsRead(q) == [q]
  {
    LexGlued(head, name, tail);
    OthersAreOther(head);
    OthersAreOther(tail);
    OneStatement(Lex(q), "");
    LexIsLossless(q);
    TrimOfTrimmed(q);
    assert "" + q == q;
  }

  lemma {:induction false} InertIsStatement(q: string)
    requires q != "" && Trimmed(q) && forall i :: 0 <= i < |q| ==> IsInert(q[i])
    ensures StatementsRead(q) == [q]
  {
    LexInert(q, "");
    assert q + "" == q && Others(q) + [] == Others(q);
    OthersAreOther(q);
    OneStatement(Lex(q), "");
    LexIsLossless(q);
    TrimOfTrimmed(q);
    NilFirst(q);
  }

  lemma {:induction false} NameCharsOf(w: string, s: string)
    requires (forall i :: 0 <= i < |w| ==> IsNameChar(w[i])) && (s == "" || !IsNameChar(s[0]))
    ensures NameChars(w + s) == w
  {
    if w == "" {
      NilFirst(s);
    } else {
      NameCharsOf(w[1..], s);
      Uncons(w, s);
      assert ([w[0]] + (w[1..] + s))[1..] == w[1..] + s;
    }
  }

  lemma {:induction false} LeadsWith(q: string)
    requires |q| > 4 && q[0] == 'W' && q[1] == 'I' && q[2] == 'T' && q[3] == 'H' && q[4] == ' '
    ensures StartsWith(q)
  {
    LettersOf(q[..4], q[4..]);
    NameCharsOf(q[..4], q[4..]);
    assert q[..4] + q[4..] == q && TrimLeft(q) == q;
  }

  lemma {:induction false} UpdateIsGlued(words: seq<string>)
    requires words == ["WITH", "x", "AS"]
    ensures IsGlued(words, "SELECT 1", "UPDATE", "\"t\"", "SET") && ToUpper("UPDATE") == "UPDATE"
  {
    assert "UPDATE" + "SET" == "UPDATESET";
    assert |ToUpper("UPDATESET")| == 9 && |ToUpper("WITH")| == 4 && |ToUpper("x")| == 1 && |ToUpper("AS")| == 2;
  }

  lemma {:induction false} UpdateIsSpaced(words: seq<string>)
    requires words == ["WITH", "x", "AS"]
    ensures Spaced(words) == "WITH x AS "
  {
    assert Spaced(words[3..]) == "";
    assert words[1..][1..] == words[2..] && words[2..][1..] == words[3..];
    assert Spaced(words[2..]) == "AS ";
    assert Spaced(words[1..]) == "x AS ";
  }

  /** A digit at the end: a number, and no word. */
  lemma {:induction false} LastDigit(d: string)
    requires |d| == 1 && IsDigit(d[0])
    ensures AllRead(RunsOf(d)) == []
  {
    var r := WordRun([d], true);
    assert d + "" == d && [] + [d] == [d];
    NilFirst(d);
    RunsOverWord(d, "", 0, [], "");
    OneName(d);
    DigitsEnd("", d);
    assert RunsOf(d) == [r] && [r][1..] == [] && Read(r) == [];
  }

  /** A word, a character and a digit: no verb. */
  lemma {:induction false} ShortRuns(w: string, c: char, d: string)
    requires IsWord(w) && !IsDmlVerb(ToUpper(w)) && IsInert(c) && !IsNameChar(c) && !IsParenthesis(Other(c))
    requires |d| == 1 && IsDigit(d[0])
    ensures FirstDmlVerb(AllRead(RunsOf(w + ([c] + d)))) == "SELECT"
  {
    NilFirst([w]);
    RunsOverEnd(w, c, d, 0, []);
    LastDigit(d);
    PastNoVerb(w, RunsOf(d));
  }

  lemma {:induction false} AssignmentRuns()
    ensures FirstDmlVerb(AllRead(RunsOf("a=1"))) == "SELECT"
  {
    assert "a" + (['='] + "1") == "a=1" && |ToUpper("a")| == 1;
    ShortRuns("a", '=', "1");
  }

  predicate IsGluedUpdate(q: string) {
    q == "WITH x AS (SELECT 1) UPDATE\"t\"SET a=1"
  }

  lemma {:induction false} GluedUpdateParts(q: string, words: seq<string>)
    requires IsGluedUpdate(q) && Spaced(words) == "WITH x AS "
    ensures q == GluedQuery(words, "SELECT 1", "UPDATE", "\"t\"", "SET", "a=1")
  {
    assert GluedQuery(words, "SELECT 1", "UPDATE", "\"t\"", "SET", "a=1")
        == "WITH x AS " + ("(" + ("SELECT 1" + (")" + (" " + ("UPDATE" + ("\"t\"" + ("SET" + (" " + "a=1"))))))));
  }

  lemma {:induction false} HeadIsInert(head: string)
    requires head == "WITH x AS (SELECT 1) UPDATE"
    ensures forall i :: 0 <= i < |head| ==> IsInert(head[i])
  {
  }

  lemma {:induction false} TailIsInert(tail: string)
    requires tail == "SET a=1"
    ensures forall i :: 0 <= i < |tail| ==> IsInert(tail[i])
  {
  }

  lemma {:induction false} GluedUpdateIsStatement(q: string)
    requires IsGluedUpdate(q)
    ensures StatementsRead(q) == [q]
  {
    HeadIsInert("WITH x AS (SELECT 1) UPDATE");
    TailIsInert("SET a=1");
    GluedIsStatement(q, "WITH x AS (SELECT 1) UPDATE", "\"t\"", "SET a=1");
  }

  lemma {:induction false} GluedUpdateLeads(q: string)
    requires IsGluedUpdate(q)
    ensures StartsWith(q)
  {
    LeadsWith(q);
  }

  /** An update that is classified as a query: the words on both sides of the table's name are read as one. */
  lemma {:induction false} UpdateIsReadAsSelect(q: string)
    requires IsGluedUpdate(q)
    ensures StatementsRead(q) == [q]
    ensures StatementVerb(q) == "SELECT" && ReferenceVerb(q) == "UPDATE"
  {
    var words := ["WITH", "x", "AS"];
    UpdateIsGlued(words);
    UpdateIsSpaced(words);
    GluedUpdateParts(q, words);
    AssignmentRuns();
    GluedUpdateIsStatement(q);
    GluedUpdateLeads(q);
    GluedVerbIsMissed(q, words, "SELECT 1", "UPDATE", "\"t\"", "SET", "a=1");
  }

  predicate IsNumberedDelete(q: string) {
    q == "WITH select1 AS (SELECT 1) DELETE FROM t"
  }

  lemma {:induction false} NumberedDeleteTail(s: string)
    requires s == Behind("SELECT 1", "DELETE", "FROM t")
    ensures s == "AS (SELECT 1) DELETE FROM t"
  {
    assert s == "AS" + (" " + ("(" + ("SELECT 1" + (")" + (" " + ("DELETE" + (" " + "FROM t")))))));
  }

  lemma {:induction false} NumberedDeleteParts(q: string, name: string, s: string)
    requires IsNumberedDelete(q) && name == "select1" && s == "AS (SELECT 1) DELETE FROM t"
    ensures q == "WITH" + (" " + (name + (" " + s)))
  {
    assert "WITH" + (" " + ("select1" + (" " + "AS (SELECT 1) DELETE FROM t"))) == q;
  }

  lemma {:induction false} NumberedDeleteIsInert(q: string)
    requires IsNumberedDelete(q)
    ensures q != "" && Trimmed(q) && forall i :: 0 <= i < |q| ==> IsInert(q[i])
  {
  }

  lemma {:induction false} NumberedDeleteLeads(q: string)
    requires IsNumberedDelete(q)
    ensures StartsWith(q)
  {
    LeadsWith(q);
  }

  lemma {:induction false} NumberedDeleteShape()
    ensures IsWord("select") && ToUpper("select") == "SELECT" && IsInside("SELECT 1")
    ensures IsWord("DELETE") && ToUpper("DELETE") == "DELETE"
  {
  }

  /** A deletion that is classified as a query: its verb is taken from a name that ends in a digit. */
  lemma {:induction false} DeleteIsReadAsSelect(q: string)
    requires IsNumberedDelete(q)
    ensures StatementsRead(q) == [q]
    ensures StatementVerb(q) == "SELECT" && ReferenceVerb(q) == "DELETE"
  {
    NumberedDeleteIsInert(q);
    InertIsStatement(q);
    NumberedDeleteLeads(q);
    NumberedDeleteShape();
    var name := "select" + ['1'];
    NumberedDeleteTail(Behind("SELECT 1", "DELETE", "FROM t"));
    NumberedDeleteParts(q, name, Behind("SELECT 1", "DELETE", "FROM t"));
    LettersThenDigit("select", '1');
    LetterDigitIsPiece("select", '1');
    var run := WordRun([name], true);
    assert IsDmlVerb(Read(run)[0]);
    NameIsReadAsVerb(q, name, "SELECT 1", "DELETE", "FROM t");
  }
}
