// SQL text in its own characters: where comments, literals and statements begin and end, which verbs there are, and
// what follows for the verb of a query.
module SqlTokens {
  import opened Collections
  import opened Trimming
  import opened SqlLexing
  import opened SqlWords

  // ---------------------------------------------------------------- single characters

  const UPPER := "ABCDEFGHIJKLMNOPQRSTUVWXYZ"
  const LOWER := "abcdefghijklmnopqrstuvwxyz"

  lemma {:induction false} CharacterClasses(c: char)
    ensures IsQuote(c) <==> c in "'\"`"
    ensures IsLineEnd(c) <==> c in "\n\r"
    ensures IsSpace(c) <==>
              c in "\t\n\U{000B}\U{000C}\r \U{00A0}\U{1680}\U{2028}\U{2029}\U{202F}\U{205F}\U{3000}\U{FEFF}"
              || c in "\U{2000}\U{2001}\U{2002}\U{2003}\U{2004}\U{2005}\U{2006}\U{2007}\U{2008}\U{2009}\U{200A}"
    ensures IsLetter(c) <==> c in UPPER || c in LOWER
    ensures IsWordChar(c) <==> c in UPPER || c in LOWER || c == '_'
  {
  }

  /** Letters are upper-cased one by one, everything else stays. */
  lemma {:induction false} UpperCase(s: string, i: nat)
    requires i < |s|
    ensures |ToUpper(s)| == |s|
    ensures forall k :: 0 <= k < 26 && s[i] == LOWER[k] ==> ToUpper(s)[i] == UPPER[k]
    ensures s[i] !in LOWER ==> ToUpper(s)[i] == s[i]
  {
  }

  // ---------------------------------------------------------------- tokens

  /** A character that is no token boundary: neither a quote, nor a semicolon, nor the start of a comment mark. */
  predicate IsCommon(c: char) {
    c !in "'\"`;-/"
  }

  predicate AllCommon(a: string) {
    forall i :: 0 <= i < |a| ==> IsCommon(a[i])
  }

  /** A line comment reaches up to the first line end. */
  lemma {:induction false} LineLengthOf(b: string, s: string)
    requires (forall i :: 0 <= i < |b| ==> b[i] !in "\n\r") && (s == "" || s[0] in "\n\r")
    ensures LineLength(b + s) == |b|
  {
    if b == "" {
      NilFirst(s);
    } else {
      LineLengthOf(b[1..], s);
      Uncons(b, s);
      assert (b + s)[1..] == b[1..] + s;
    }
  }

  lemma {:induction false} LineCommentIsToken(b: string, s: string)
    requires (forall i :: 0 <= i < |b| ==> b[i] !in "\n\r") && (s == "" || s[0] in "\n\r")
    ensures Lex("--" + (b + s)) == [Comment("--" + b)] + Lex(s)
  {
    var t := "--" + (b + s);
    LineLengthOf(b, s);
    assert t[2..] == b + s && t[..2 + |b|] == "--" + b && t[2 + |b|..] == s;
  }

  /** No end mark stands in the text, nor across its end and the one that follows. */
  predicate NoBlockEnd(b: string) {
    forall i :: 0 <= i < |b| ==> !(b[i] == '*' && i + 1 < |b| && b[i + 1] == '/')
  }

  lemma {:induction false} BlockLengthOf(b: string, s: string)
    requires NoBlockEnd(b)
    ensures BlockLength(b) == |b|
    ensures BlockLength(b + ("*/" + s)) == |b| + 2
  {
    var t := b + ("*/" + s);
    if b == "" {
      NilFirst("*/" + s);
    } else {
      assert NoBlockEnd(b[1..]) by {
        forall i | 0 <= i < |b[1..]| ensures !(b[1..][i] == '*' && i + 1 < |b[1..]| && b[1..][i + 1] == '/') {
          assert b[1..][i] == b[i + 1];
        }
      }
      BlockLengthOf(b[1..], s);
      assert t[1..] == b[1..] + ("*/" + s);
      assert |b| == 1 ==> t[1] == '*';
      assert |b| > 1 ==> t[1] == b[1];
    }
  }

  lemma {:induction false} BlockParts(b: string, s: string)
    ensures var t := "/*" + (b + ("*/" + s)); t[..4 + |b|] == "/*" + b + "*/" && t[4 + |b|..] == s
  {
  }

  /** A block comment reaches up to the first end mark behind its start mark. */
  lemma {:induction false} BlockCommentIsToken(b: string, s: string)
    requires NoBlockEnd(b)
    ensures Lex("/*" + (b + ("*/" + s))) == [Comment("/*" + b + "*/")] + Lex(s)
  {
    var t := "/*" + (b + ("*/" + s));
    BlockLengthOf(b, s);
    assert t[2..] == b + ("*/" + s);
    assert FirstToken(t) == Comment(t[..4 + |b|]);
    BlockParts(b, s);
  }

  /** Without an end mark it reaches up to the end. */
  lemma {:induction false} OpenBlockIsToken(b: string)
    requires NoBlockEnd(b)
    ensures Lex("/*" + b) == [Comment("/*" + b)]
  {
    var t := "/*" + b;
    BlockLengthOf(b, "");
    assert t[2..] == b && t[..2 + |b|] == t && t[|t|..] == "";
  }

  /** A text as it stands inside a literal: every mark doubled. */
  function Doubled(x: string, m: char): string {
    if x == "" then "" else (if x[0] == m then [m, m] else [x[0]]) + Doubled(x[1..], m)
  }

  lemma {:induction false} LiteralLengthOf(x: string, m: QuoteMark, s: string)
    requires s == "" || s[0] != m
    ensures LiteralLength(Doubled(x, m) + ([m] + s), m) == |Doubled(x, m)| + 1
    ensures LiteralLength(Doubled(x, m), m) == |Doubled(x, m)|
  {
    var t, d := Doubled(x, m) + ([m] + s), Doubled(x, m);
    if x == "" {
      NilFirst([m] + s);
    } else {
      var head := if x[0] == m then [m, m] else [x[0]];
      LiteralLengthOf(x[1..], m, s);
      assert t[|head|..] == Doubled(x[1..], m) + ([m] + s) && d[|head|..] == Doubled(x[1..], m);
      assert t[0] == d[0] == x[0];
    }
  }

  /** A text written between quotes, its marks doubled, is one token whatever it holds. */
  lemma {:induction false} QuotedIsToken(x: string, m: char, s: string)
    requires m in "'\"`" && (s == "" || s[0] != m)
    ensures Lex([m] + (Doubled(x, m) + ([m] + s))) == [Literal([m] + Doubled(x, m) + [m])] + Lex(s)
  {
    var d := Doubled(x, m);
    var t := [m] + (d + ([m] + s));
    LiteralLengthOf(x, m, s);
    assert t[1..] == d + ([m] + s) && t[..2 + |d|] == [m] + d + [m] && t[2 + |d|..] == s;
  }

  /** Without a closing mark it reaches up to the end. */
  lemma {:induction false} OpenQuoteIsToken(x: string, m: char)
    requires m in "'\"`"
    ensures Lex([m] + Doubled(x, m)) == [Literal([m] + Doubled(x, m))]
  {
    var t := [m] + Doubled(x, m);
    LiteralLengthOf(x, m, "");
    assert t[1..] == Doubled(x, m) && t[..|t|] == t && t[|t|..] == "";
  }

  lemma {:induction false} SemicolonIsToken(s: string)
    ensures Lex(";" + s) == [Semicolon] + Lex(s)
  {
    assert (";" + s)[1..] == s;
  }

  /** Any other character is a token by itself, single dashes and slashes among them. */
  lemma {:induction false} CharIsToken(c: char, s: string)
    requires c !in "'\"`;" && !(c == '-' && s != "" && s[0] == '-') && !(c == '/' && s != "" && s[0] == '*')
    ensures Lex([c] + s) == [Other(c)] + Lex(s)
  {
    assert ([c] + s)[1..] == s;
  }

  // ---------------------------------------------------------------- statements

  lemma {:induction false} StatementsCons(t: Token, ts: seq<Token>, buf: string)
    ensures Statements([t] + ts, buf)
         == if t.Semicolon? then Emit(buf) + Statements(ts, "") else Statements(ts, buf + Shown(t))
  {
    assert ([t] + ts)[1..] == ts;
  }

  /** The statements of a text whose first part has been read into the buffer. */
  function StatementsFrom(buf: string, s: string): seq<string> {
    Statements(Lex(s), buf)
  }

  /** Common characters belong to the statement. */
  lemma {:induction false} CommonIsRead(a: string, s: string, buf: string)
    requires AllCommon(a)
    ensures StatementsFrom(buf, a + s) == StatementsFrom(buf + a, s)
  {
    if a == "" {
      NilFirst(s);
      assert buf + "" == buf;
    } else {
      Uncons(a, s);
      CharIsToken(a[0], a[1..] + s);
      StatementsCons(Other(a[0]), Lex(a[1..] + s), buf);
      CommonIsRead(a[1..], s, buf + [a[0]]);
      Recons(buf, a);
    }
  }

  /** A comment counts as one blank, a literal as it stands, and a semicolon ends the statement. */
  lemma {:induction false} LineCommentIsBlank(b: string, s: string, buf: string)
    requires (forall i :: 0 <= i < |b| ==> b[i] !in "\n\r") && (s == "" || s[0] in "\n\r")
    ensures StatementsFrom(buf, "--" + (b + s)) == StatementsFrom(buf + " ", s)
  {
    LineCommentIsToken(b, s);
    StatementsCons(Comment("--" + b), Lex(s), buf);
  }

  lemma {:induction false} BlockCommentIsBlank(b: string, s: string, buf: string)
    requires NoBlockEnd(b)
    ensures StatementsFrom(buf, "/*" + (b + ("*/" + s))) == StatementsFrom(buf + " ", s)
  {
    BlockCommentIsToken(b, s);
    StatementsCons(Comment("/*" + b + "*/"), Lex(s), buf);
  }

  lemma {:induction false} QuotedIsRead(x: string, m: char, s: string, buf: string)
    requires m in "'\"`" && (s == "" || s[0] != m)
    ensures StatementsFrom(buf, [m] + (Doubled(x, m) + ([m] + s)))
         == StatementsFrom(buf + ([m] + Doubled(x, m) + [m]), s)
  {
    QuotedIsToken(x, m, s);
    StatementsCons(Literal([m] + Doubled(x, m) + [m]), Lex(s), buf);
  }

  lemma {:induction false} SemicolonEnds(s: string, buf: string)
    ensures StatementsFrom(buf, ";" + s) == Emit(buf) + ReferenceStatements(s)
  {
    SemicolonIsToken(s);
    StatementsCons(Semicolon, Lex(s), buf);
  }

  predicate IsVisible(v: string) {
    v != "" && !IsSpace(v[0]) && !IsSpace(v[|v| - 1])
  }

  predicate IsBlank(x: string) {
    forall i :: 0 <= i < |x| ==> IsSpace(x[i])
  }

  /** A statement is what is visible of its text, and there is none when nothing is. */
  lemma {:induction false} StatementIsTrimmed(x: string, v: string, y: string)
    requires IsBlank(x) && IsVisible(v) && IsBlank(y)
    ensures StatementsFrom(x + v + y, "") == [v] && StatementsFrom(x, "") == []
  {
    TrimBetween(x, v, y);
    TrimBlank(x);
  }

  lemma {:induction false} TrimBlank(x: string)
    requires IsBlank(x)
    ensures Trim(x) == "" && TrimLeft(x) == ""
  {
    if x != "" {
      TrimBlank(x[1..]);
    }
  }

  lemma {:induction false} TrimBetween(x: string, v: string, y: string)
    requires IsBlank(x) && IsVisible(v) && IsBlank(y)
    ensures Trim(x + v + y) == v
  {
    if y != "" {
      var init, c := y[..|y| - 1], y[|y| - 1];
      assert x + v + y == (x + v + init) + [c];
      TrimBetween(x, v, init);
      TrimTrailing(x + v + init, c);
    } else if x != "" {
      assert x + v + y == [x[0]] + (x[1..] + v + "");
      TrimBetween(x[1..], v, "");
      TrimLeading(x[0], x[1..] + v + "");
    } else {
      assert x + v + y == v;
      TrimOfTrimmed(v);
    }
  }

  // ---------------------------------------------------------------- the verb of a query

  const DML_VERBS := ["SELECT", "INSERT", "UPDATE", "DELETE", "MERGE"]

  const KNOWN_VERBS := DML_VERBS + ["DROP", "TRUNCATE", "ALTER", "CREATE", "GRANT", "REVOKE", "CALL", "EXECUTE",
    "EXPLAIN", "WITH", "REPLACE", "RENAME", "COMMENT"]

  lemma {:induction false} VerbClasses(w: string)
    ensures IsDmlVerb(w) <==> w in DML_VERBS
    ensures IsKnownVerb(w) <==> w in KNOWN_VERBS
  {
  }

  /** Among the words read the first DML verb counts, and SELECT when there is none. */
  lemma {:induction false} FirstVerbCounts(words: seq<string>, i: nat)
    requires i <= |words| && (i < |words| ==> words[i] in DML_VERBS)
    requires forall k :: 0 <= k < i ==> words[k] !in DML_VERBS
    ensures FirstDmlVerb(words) == if i < |words| then words[i] else "SELECT"
  {
    if words != [] && i > 0 {
      VerbClasses(words[0]);
      FirstVerbCounts(words[1..], i - 1);
    } else if words != [] {
      VerbClasses(words[0]);
    }
  }

  predicate AllLetters(w: string) {
    forall i :: 0 <= i < |w| ==> w[i] in UPPER || w[i] in LOWER
  }

  predicate NoLetterFirst(s: string) {
    s == "" || (s[0] !in UPPER && s[0] !in LOWER)
  }

  lemma {:induction false} LettersAreRead(w: string, s: string)
    requires AllLetters(w) && NoLetterFirst(s)
    ensures Letters(w + s) == w
  {
    if w == "" {
      NilFirst(s);
    } else {
      CharacterClasses(w[0]);
      LettersAreRead(w[1..], s);
      Uncons(w, s);
      assert (w + s)[1..] == w[1..] + s;
    }
  }

  /** A statement goes by its leading letters: a verb that is known, or the verb within after WITH, or nothing known. */
  lemma {:induction false} LeadingVerb(w: string, s: string)
    requires AllLetters(w) && NoLetterFirst(s) && (w == "" ==> s == "" || !IsSpace(s[0]))
    ensures ToUpper(w) in KNOWN_VERBS && ToUpper(w) != "WITH" ==> StatementVerb(w + s) == ToUpper(w)
    ensures ToUpper(w) == "WITH" ==> StatementVerb(w + s) == FirstDmlVerb(TopWords(w + s, 0, "", Plain))
    ensures ToUpper(w) !in KNOWN_VERBS ==> StatementVerb(w + s) == "UNKNOWN"
  {
    LettersAreRead(w, s);
    VerbClasses(ToUpper(w));
    VerbClasses("WITH");
    if w != "" {
      CharacterClasses(w[0]);
      LetterIsVisible(w[0]);
      assert (w + s)[0] == w[0];
    } else {
      NilFirst(s);
    }
    assert TrimLeft(w + s) == w + s;
  }

  lemma {:induction false} LetterIsVisible(c: char)
    requires IsLetter(c)
    ensures !IsSpace(c)
  {
  }

  /**
   * One statement goes by its own verb, more than one by none; the stripper's residue does no harm when it is
   * harmless.
   */
  lemma {:induction false} ClassifiedByStatements(raw: string)
    ensures |ReferenceStatements(raw)| > 1 ==> Classified(raw) == "UNKNOWN"
    ensures HarmlessResidue(raw) && |ReferenceStatements(raw)| == 1 ==>
              Classified(raw) == StatementVerb(ReferenceStatements(raw)[0])
  {
    PipelineIsReference(raw);
    Fusion(raw, "");
    SplitIgnoresTrim(Strip(raw, Plain));
    if Trim(Strip(raw, Plain)) == "" {
      assert PipelineStatements(raw) == [];
    }
  }

  lemma {:induction false} CommonHasNoResidue(a: string)
    requires AllCommon(a)
    ensures Residue(Lex(a)) == ""
  {
    if a != "" {
      assert a == [a[0]] + a[1..];
      CharIsToken(a[0], a[1..]);
      CommonHasNoResidue(a[1..]);
      if a[1..] == "" {
        assert Lex(a) == [Other(a[0])];
      }
    }
  }

  /** A statement in common characters with blanks around it has its own verb. */
  lemma {:induction false} PlainStatement(x: string, v: string, y: string)
    requires AllCommon(x + v + y) && IsBlank(x) && IsVisible(v) && IsBlank(y)
    ensures Classified(x + v + y) == StatementVerb(v)
  {
    var a := x + v + y;
    CommonHasNoResidue(a);
    assert a + "" == a;
    NilFirst(a);
    CommonIsRead(a, "", "");
    StatementIsTrimmed(x, v, y);
    ClassifiedByStatements(a);
  }

  /** Two statements are none of the known ones. */
  lemma {:induction false} SecondStatement(x: string, v: string, y: string, c: string)
    requires AllCommon(x + v + y) && IsBlank(x) && IsVisible(v) && IsBlank(y) && ReferenceStatements(c) != []
    ensures Classified((x + v + y) + (";" + c)) == "UNKNOWN"
  {
    var a := x + v + y;
    NilFirst(a);
    FirstOfTwo(x, v, y, c);
    CommonIsRead(a, ";" + c, "");
    ClassifiedByStatements(a + (";" + c));
  }

  lemma {:induction false} FirstOfTwo(x: string, v: string, y: string, c: string)
    requires IsBlank(x) && IsVisible(v) && IsBlank(y) && ReferenceStatements(c) != []
    ensures |StatementsFrom(x + v + y, ";" + c)| > 1
  {
    SemicolonEnds(c, x + v + y);
    TrimBetween(x, v, y);
  }

  lemma {:induction false} BehindLine(a: string, b: string, e: char, s: string)
    requires AllCommon(a) && (forall i :: 0 <= i < |b| ==> b[i] !in "\n\r") && e in "\n\r"
    ensures StatementsFrom("", a + ("--" + (b + ([e] + s)))) == StatementsFrom(a + " " + [e], s)
  {
    NilFirst(a);
    CommonIsRead(a, "--" + (b + ([e] + s)), "");
    LineCommentIsBlank(b, [e] + s, a);
    CommonIsRead([e], s, a + " ");
  }

  /** A line comment ends at the first line end: what stands behind it is a second statement. */
  lemma {:induction false} SecondBehindLine(x: string, v: string, y: string, b: string, e: char, c: string)
    requires AllCommon(x + v + y) && IsBlank(x) && IsVisible(v) && IsBlank(y) && ReferenceStatements(c) != []
    requires (forall i :: 0 <= i < |b| ==> b[i] !in "\n\r") && e in "\n\r"
    ensures Classified((x + v + y) + ("--" + (b + ([e] + (";" + c))))) == "UNKNOWN"
  {
    var a := x + v + y;
    BehindLine(a, b, e, ";" + c);
    MoreBlanks(x, v, y, e);
    FirstOfTwo(x, v, y + " " + [e], c);
    ClassifiedByStatements(a + ("--" + (b + ([e] + (";" + c)))));
  }

  lemma {:induction false} MoreBlanks(x: string, v: string, y: string, e: char)
    requires e in "\n\r" && IsBlank(y)
    ensures IsBlank(y + " " + [e]) && (x + v + y) + " " + [e] == x + v + (y + " " + [e])
  {
  }

  /** And a block comment ends at its end mark. */
  lemma {:induction false} SecondBehindBlock(x: string, v: string, y: string, b: string, c: string)
    requires AllCommon(x + v + y) && IsBlank(x) && IsVisible(v) && IsBlank(y) && ReferenceStatements(c) != []
    requires NoBlockEnd(b)
    ensures Classified((x + v + y) + ("/*" + (b + ("*/" + (";" + c))))) == "UNKNOWN"
  {
    var a, rest := x + v + y, ";" + c;
    NilFirst(a);
    CommonIsRead(a, "/*" + (b + ("*/" + rest)), "");
    BlockCommentIsBlank(b, rest, a);
    assert a + " " == x + v + (y + " ");
    FirstOfTwo(x, v, y + " ", c);
    ClassifiedByStatements(a + ("/*" + (b + ("*/" + rest))));
  }

  /** Semicolons inside literals end nothing. */
  lemma {:induction false} QuotedSemicolons(a: string, x: string, m: char, s: string)
    requires AllCommon(a) && AllCommon(s) && m in "'\"`" && IsVisible(a + ([m] + Doubled(x, m) + [m]) + s)
    ensures var raw := a + ([m] + (Doubled(x, m) + ([m] + s)));
            ReferenceStatements(raw) == [a + ([m] + Doubled(x, m) + [m]) + s]
  {
    var buf := a + ([m] + Doubled(x, m) + [m]);
    NilFirst(a);
    CommonIsRead(a, [m] + (Doubled(x, m) + ([m] + s)), "");
    QuotedIsRead(x, m, s, a);
    LastIsRead(s, buf);
  }

  lemma {:induction false} LastIsRead(s: string, buf: string)
    requires AllCommon(s) && IsVisible(buf + s)
    ensures StatementsFrom(buf, s) == [buf + s]
  {
    var v := buf + s;
    assert s + "" == s && "" + v + "" == v;
    CommonIsRead(s, "", buf);
    StatementIsTrimmed("", v, "");
  }

  // ---------------------------------------------------------------- the words of a query

  /** What the verb finder does with each character outside literals. */
  lemma {:induction false} ScannedCharacters(c: char, s: string, depth: nat, token: string)
    ensures var done := if token != "" && depth == 0 then [ToUpper(token)] else [];
            && TopWords("", depth, token, Plain) == done
            && TopWords("(" + s, depth, token, Plain) == TopWords(s, depth + 1, "", Plain)
            && TopWords(")" + s, depth, token, Plain) == TopWords(s, if depth == 0 then 0 else depth - 1, "", Plain)
            && (c in UPPER || c in LOWER || c == '_' ==>
                  TopWords([c] + s, depth, token, Plain) == TopWords(s, depth, token + [c], Plain))
            && (c !in UPPER && c !in LOWER && c !in "_()'\"`" ==>
                  TopWords([c] + s, depth, token, Plain) == done + TopWords(s, depth, "", Plain))
  {
    WordsFirst('(', s, depth, token);
    WordsFirst(')', s, depth, token);
    CharacterClasses(c);
    if c !in "'\"`" {
      WordsFirst(c, s, depth, token);
    }
  }

  const DIGITS := "0123456789"

  predicate NamedIn(piece: string) {
    exists i :: 0 <= i < |piece| && (piece[i] in UPPER || piece[i] in LOWER || piece[i] == '_')
  }

  lemma {:induction false} NamesHaveLetters(piece: string, depth: nat)
    ensures Name(piece, depth) == if depth == 0 && NamedIn(piece) then [ToUpper(piece)] else []
  {
    if i :| 0 <= i < |piece| && IsWordChar(piece[i]) {
      CharacterClasses(piece[i]);
    }
    if i :| 0 <= i < |piece| && (piece[i] in UPPER || piece[i] in LOWER || piece[i] == '_') {
      CharacterClasses(piece[i]);
    }
  }

  lemma {:induction false} NameCharacters(c: char)
    ensures IsNameChar(c) <==> c in UPPER || c in LOWER || c in DIGITS || c == '_'
  {
    CharacterClasses(c);
    assert IsDigit(c) <==> c in DIGITS;
  }

  /** A statement's own words are its identifiers outside parentheses: what each character outside literals does. */
  lemma {:induction false} NamedCharacters(c: char, s: string, depth: nat, piece: string)
    requires IsCommon(c)
    ensures var done := if depth == 0 && NamedIn(piece) then [ToUpper(piece)] else [];
            var behind := ReferenceWords(Lex([c] + s), depth, piece);
            && ReferenceWords(Lex(""), depth, piece) == done
            && (c == '(' ==> behind == done + ReferenceWords(Lex(s), depth + 1, ""))
            && (c == ')' ==> behind == done + ReferenceWords(Lex(s), if depth == 0 then 0 else depth - 1, ""))
            && (c in UPPER || c in LOWER || c in DIGITS || c == '_' ==>
                  behind == ReferenceWords(Lex(s), depth, piece + [c]))
            && (c !in UPPER && c !in LOWER && c !in DIGITS && c !in "_()" ==>
                  behind == done + ReferenceWords(Lex(s), depth, ""))
  {
    CharIsToken(c, s);
    NameCharacters(c);
    NamesHaveLetters(piece, depth);
    assert ([Other(c)] + Lex(s))[1..] == Lex(s);
  }

  // ---------------------------------------------------------------- stripping

  lemma {:induction false} CommonIsKept(a: string, s: string)
    requires AllCommon(a)
    ensures Strip(a + s, Plain) == a + Strip(s, Plain)
  {
    if a == "" {
      NilFirst(s);
      NilFirst(Strip(s, Plain));
    } else {
      Uncons(a, s);
      CharIsKept(a[0], a[1..] + s);
      CommonIsKept(a[1..], s);
      Uncons(a, Strip(s, Plain));
    }
  }

  lemma {:induction false} CharIsKept(c: char, s: string)
    requires IsCommon(c)
    ensures Strip([c] + s, Plain) == [c] + Strip(s, Plain)
  {
    var t := [c] + s;
    assert t[..1] == [c] && t[1..] == s;
  }

  /** Comments become blanks. */
  lemma {:induction false} LineCommentIsStripped(b: string, s: string)
    requires (forall i :: 0 <= i < |b| ==> b[i] !in "\n\r") && (s == "" || s[0] in "\n\r")
    ensures Strip("--" + (b + s), Plain) == " " + Strip(s, Plain)
  {
    var t := "--" + (b + s);
    assert t[2..] == b + s;
    LineLengthOf(b, s);
    LineAgrees(b + s);
    assert (b + s)[|b|..] == s;
  }

  lemma {:induction false} BlockCommentIsStripped(b: string, s: string)
    requires NoBlockEnd(b)
    ensures Strip("/*" + (b + ("*/" + s)), Plain) == " " + Strip(s, Plain)
    ensures Strip("/*" + b, Plain) == " " + LastOnly(b)
  {
    BlockStripped("/*" + (b + ("*/" + s)), b + ("*/" + s));
    BlockStripped("/*" + b, b);
    BlockLengthOf(b, s);
    BlockAgrees(b + ("*/" + s));
    BlockAgrees(b);
    EndsClosed(b, s);
    StripOne(LastOnly(b));
  }

  lemma {:induction false} BlockStripped(t: string, body: string)
    requires t == "/*" + body
    ensures Strip(t, Plain) == " " + Strip(AfterBlock(body), Plain)
  {
    assert t[2..] == body;
  }

  lemma {:induction false} EndsClosed(b: string, s: string)
    requires NoBlockEnd(b)
    ensures ClosedAt(b + ("*/" + s), |b| + 2) && (b + ("*/" + s))[|b| + 2..] == s
    ensures !ClosedAt(b, |b|)
  {
    var t := b + ("*/" + s);
    assert t[|b|] == '*' && t[|b| + 1] == '/';
    if |b| >= 2 {
      assert !(b[|b| - 2] == '*' && b[|b| - 1] == '/');
    }
  }

  /** Literals are kept as they stand. */
  lemma {:induction false} QuotedIsKept(x: string, m: QuoteMark, s: string)
    requires s == "" || s[0] != m
    ensures Strip([m] + (Doubled(x, m) + ([m] + s)), Plain) == [m] + (Doubled(x, m) + ([m] + Strip(s, Plain)))
  {
    var t := [m] + (Doubled(x, m) + ([m] + s));
    assert t[..1] == [m] && t[1..] == Doubled(x, m) + ([m] + s);
    InsideIsKept(x, m, s);
  }

  lemma {:induction false} CharInsideIsKept(head: string, m: QuoteMark, s: string)
    requires head == [m, m] || (|head| == 1 && head[0] != m)
    ensures Strip(head + s, Quoted(m)) == head + Strip(s, Quoted(m))
  {
    var t := head + s;
    assert t[..|head|] == head && t[|head|..] == s && t[0] == head[0];
    assert |head| == 2 ==> t[1] == m;
  }

  lemma {:induction false} MarkInsideEnds(m: QuoteMark, s: string)
    requires s == "" || s[0] != m
    ensures Strip([m] + s, Quoted(m)) == [m] + Strip(s, Plain)
  {
    var t := [m] + s;
    assert t[..1] == [m] && t[1..] == s;
  }

  lemma {:induction false} InsideIsKept(x: string, m: QuoteMark, s: string)
    requires s == "" || s[0] != m
    ensures Strip(Doubled(x, m) + ([m] + s), Quoted(m)) == Doubled(x, m) + ([m] + Strip(s, Plain))
  {
    if x == "" {
      NilFirst([m] + s);
      NilFirst([m] + Strip(s, Plain));
      MarkInsideEnds(m, s);
    } else {
      var head := if x[0] == m then [m, m] else [x[0]];
      InsideIsKept(x[1..], m, s);
      CharInsideIsKept(head, m, Doubled(x[1..], m) + ([m] + s));
      Regroup(head, Doubled(x[1..], m), [m] + s);
      Regroup(head, Doubled(x[1..], m), [m] + Strip(s, Plain));
    }
  }

  lemma {:induction false} BehindCommon(a: string, s: string)
    requires AllCommon(a) && s != ""
    ensures Residue(Lex(a + s)) == Residue(Lex(s))
  {
    if a == "" {
      NilFirst(s);
    } else {
      Uncons(a, s);
      CharIsToken(a[0], a[1..] + s);
      BehindCommon(a[1..], s);
      LexStep(a + s);
    }
  }

  /** An unclosed comment leaves its last character, which does no harm when it is a blank or a semicolon. */
  lemma {:induction false} OpenBlockLeaves(a: string, b: string)
    requires AllCommon(a) && NoBlockEnd(b)
    ensures Residue(Lex(a + ("/*" + b))) == LastOnly(b)
    ensures HarmlessResidue(a + ("/*" + b)) <==> b == "" || IsSpace(b[|b| - 1]) || b[|b| - 1] == ';'
  {
    var t := "/*" + b;
    BehindCommon(a, t);
    OpenBlockIsToken(b);
    EndsClosed(b, "");
    assert t[|t| - 1] == if b == "" then '*' else b[|b| - 1];
    assert |t| >= 4 ==> t[|t| - 2] == b[|b| - 2];
  }
}
