// The SQL scanners behind the wire-protocol facets: the comment stripper, the statement splitter,
// the CTE verb finder and the multi-statement guard, each proved against one reference lexer that
// knows quotes, doubled-quote escapes and comments together.
module SqlLexing {
  import opened Collections
  import opened Trimming

  /** Whether a scanner stands in plain text or inside a literal opened by `mark`. */
  datatype Mode = Plain | Quoted(mark: QuoteMark)

  predicate IsQuote(c: char) {
    c == '\'' || c == '"' || c == '`'
  }

  type QuoteMark = c: char | IsQuote(c) witness '"'

  predicate StartsLine(s: string) { |s| >= 2 && s[0] == '-' && s[1] == '-' }

  predicate StartsBlock(s: string) { |s| >= 2 && s[0] == '/' && s[1] == '*' }

  predicate IsLineEnd(c: char) { c == '\n' || c == '\r' }

  // ---------------------------------------------------------------- the scanners

  function AfterLine(s: string): (r: string)
    ensures |r| <= |s|
  {
    if s != "" && !IsLineEnd(s[0]) then AfterLine(s[1..]) else s
  }

  /** The text left once a block comment's body is skipped. A body that is never closed leaves its last character. */
  function AfterBlock(s: string): (r: string)
    ensures |r| <= |s|
  {
    if |s| < 2 then s
    else if s[0] == '*' && s[1] == '/' then s[2..]
    else AfterBlock(s[1..])
  }

  /**
   * One step of quote tracking: how many characters the scanner takes and the mode after them. A doubled mark
   * inside a literal is taken as a pair; any other mark there closes the literal.
   */
  function Advance(s: string, m: Mode): (r: (nat, Mode))
    requires s != ""
    ensures 1 <= r.0 <= |s|
  {
    if m.Quoted? then
      if s[0] != m.mark then (1, m)
      else if |s| > 1 && s[1] == m.mark then (2, m)
      else (1, Plain)
    else (1, if IsQuote(s[0]) then Quoted(s[0]) else Plain)
  }

  function Strip(s: string, m: Mode): string
    decreases |s|
  {
    if s == "" then ""
    else if m.Plain? && StartsLine(s) then " " + Strip(AfterLine(s[2..]), Plain)
    else if m.Plain? && StartsBlock(s) then " " + Strip(AfterBlock(s[2..]), Plain)
    else var (n, m') := Advance(s, m); s[..n] + Strip(s[n..], m')
  }

  /** What a finished buffer contributes: its trimmed text, or nothing when it is blank. */
  function Emit(buf: string): seq<string> {
    if Trim(buf) == "" then [] else [Trim(buf)]
  }

  function Split(s: string, buf: string, m: Mode): seq<string>
    decreases |s|
  {
    if s == "" then Emit(buf)
    else if m.Plain? && s[0] == ';' then Emit(buf) + Split(s[1..], "", Plain)
    else var (n, m') := Advance(s, m); Split(s[n..], buf + s[..n], m')
  }

  /** The loop that skips a line comment's body, up to but not including the line end. */
  method SkipLineComment(sql: string, start: nat) returns (i: nat)
    requires start <= |sql|
    ensures start <= i <= |sql| && sql[i..] == AfterLine(sql[start..])
  {
    i := start;
    while i < |sql| && !IsLineEnd(sql[i])
      invariant start <= i <= |sql|
      invariant AfterLine(sql[i..]) == AfterLine(sql[start..])
    {
      assert sql[i..][1..] == sql[i + 1..];
      i := i + 1;
    }
  }

  /** The loop that skips a block comment's body and, when there is one, its closing mark. */
  method SkipBlockComment(sql: string, start: nat) returns (i: nat)
    requires start <= |sql|
    ensures start <= i <= |sql| && sql[i..] == AfterBlock(sql[start..])
  {
    i := start;
    while i + 1 < |sql| && !(sql[i] == '*' && sql[i + 1] == '/')
      invariant start <= i <= |sql|
      invariant AfterBlock(sql[i..]) == AfterBlock(sql[start..])
    {
      assert sql[i..][1..] == sql[i + 1..];
      i := i + 1;
    }
    if i + 1 < |sql| {
      assert sql[i..][2..] == sql[i + 2..];
      i := i + 2;
    }
  }

  lemma {:induction false} Slices(s: string, n: nat, k: nat, buf: string)
    requires n + k <= |s|
    ensures s[n..][k..] == s[n + k..]
    ensures s[n..][..k] == s[..n + k][n..]
    ensures buf + s[..n] + s[n..][..k] == buf + s[..n + k]
  {
  }

  method StripSqlComments(sql: string) returns (out: string)
    ensures out == Strip(sql, Plain)
  {
    ghost var whole := Strip(sql, Plain);
    ghost var tail := whole;
    assert sql[0..] == sql;
    out := "";
    var quote := Plain;
    var i := 0;
    while i < |sql|
      invariant 0 <= i <= |sql|
      invariant out + tail == whole && tail == Strip(sql[i..], quote)
    {
      var c := sql[i];
      ghost var rest, done, n := sql[i..], out, Advance(sql[i..], quote).0;
      if quote.Plain? && c == '-' && i + 1 < |sql| && sql[i + 1] == '-' {
        Slices(sql, i, 2, "");
        i := SkipLineComment(sql, i + 2);
        tail := Strip(sql[i..], quote);
        Regroup(out, " ", tail);
        out := out + " ";
      } else if quote.Plain? && c == '/' && i + 1 < |sql| && sql[i + 1] == '*' {
        Slices(sql, i, 2, "");
        i := SkipBlockComment(sql, i + 2);
        tail := Strip(sql[i..], quote);
        Regroup(out, " ", tail);
        out := out + " ";
      } else {
        out := out + [c];
        i := i + 1;
        if quote.Plain? {
          if IsQuote(c) { quote := Quoted(c); }
        } else if c == quote.mark {
          if i < |sql| && sql[i] == quote.mark {
            out := out + [sql[i]];
            i := i + 1;
          } else {
            quote := Plain;
          }
        }
        Slices(sql, |sql| - |rest|, n, "");
        assert out == done + rest[..n];
        tail := Strip(sql[i..], quote);
        Regroup(done, rest[..n], tail);
      }
    }
  }

  method SplitSqlStatements(sql: string) returns (out: seq<string>)
    ensures out == Split(sql, "", Plain)
  {
    ghost var whole := Split(sql, "", Plain);
    ghost var tail' := whole;
    assert sql[0..] == sql;
    out := [];
    var buf := "";
    var quote := Plain;
    var i := 0;
    while i < |sql|
      invariant 0 <= i <= |sql|
      invariant out + tail' == whole && tail' == Split(sql[i..], buf, quote)
    {
      var ch := sql[i];
      ghost var rest := sql[i..];
      assert rest[1..] == sql[i + 1..] && rest[..1] == [ch];
      if quote.Quoted? {
        buf := buf + [ch];
        if ch == quote.mark {
          if i + 1 < |sql| && sql[i + 1] == quote.mark {
            assert rest[2..] == sql[i + 2..] && rest[..2] == [ch] + [sql[i + 1]];
            assert buf[..|buf| - 1] + rest[..2] == buf + [sql[i + 1]];
            i := i + 1;
            buf := buf + [sql[i]];
          } else {
            quote := Plain;
          }
        }
      } else if IsQuote(ch) {
        quote := Quoted(ch);
        buf := buf + [ch];
      } else if ch == ';' {
        var t := Trim(buf);
        tail' := Split(rest[1..], "", Plain);
        Regroup(out, Emit(buf), tail');
        if t != "" { out := out + [t]; }
        buf := "";
      } else {
        buf := buf + [ch];
      }
      i := i + 1;
    }
    var tail := Trim(buf);
    if tail != "" { out := out + [tail]; }
  }

  // ---------------------------------------------------------------- the reference lexer

  datatype Token = Literal(text: string) | Comment(text: string) | Semicolon | Other(c: char)

  /** How many characters after the opening mark belong to a literal; one that is never closed takes them all. */
  function LiteralLength(s: string, q: QuoteMark): (n: nat)
    ensures n <= |s|
  {
    if s == "" then 0
    else if s[0] != q then 1 + LiteralLength(s[1..], q)
    else if |s| > 1 && s[1] == q then 2 + LiteralLength(s[2..], q)
    else 1
  }

  function LineLength(s: string): (n: nat)
    ensures n <= |s|
  {
    if s == "" || IsLineEnd(s[0]) then 0 else 1 + LineLength(s[1..])
  }

  /** How many characters after the opening mark belong to a block comment; one that is never closed takes them all. */
  function BlockLength(s: string): (n: nat)
    ensures n <= |s|
  {
    if s == "" then 0
    else if |s| > 1 && s[0] == '*' && s[1] == '/' then 2
    else 1 + BlockLength(s[1..])
  }

  function FirstToken(s: string): (t: Token)
    requires s != ""
    ensures Source(t) <= s && Source(t) != ""
  {
    if IsQuote(s[0]) then Literal(s[..1 + LiteralLength(s[1..], s[0])])
    else if StartsLine(s) then Comment(s[..2 + LineLength(s[2..])])
    else if StartsBlock(s) then Comment(s[..2 + BlockLength(s[2..])])
    else if s[0] == ';' then Semicolon
    else Other(s[0])
  }

  function Source(t: Token): string {
    match t
    case Literal(text) => text
    case Comment(text) => text
    case Semicolon => ";"
    case Other(c) => [c]
  }

  function Lex(s: string): seq<Token> {
    if s == "" then [] else [FirstToken(s)] + Lex(s[|Source(FirstToken(s))|..])
  }

  function Spelling(ts: seq<Token>): string {
    if ts == [] then "" else Source(ts[0]) + Spelling(ts[1..])
  }

  /** What a token contributes to a statement: a comment counts as one blank. */
  function Shown(t: Token): string {
    if t.Comment? then " " else Source(t)
  }

  /** Cut at the semicolon tokens, drop comments, trim, and drop the blank pieces. */
  function Statements(ts: seq<Token>, buf: string): seq<string> {
    if ts == [] then Emit(buf)
    else if ts[0].Semicolon? then Emit(buf) + Statements(ts[1..], "")
    else Statements(ts[1..], buf + Shown(ts[0]))
  }

  /** The statements of a raw SQL text, by the reference lexer. */
  function ReferenceStatements(raw: string): seq<string> {
    Statements(Lex(raw), "")
  }

  predicate Unclosed(t: Token) {
    t.Comment? && StartsBlock(t.text) && !(|t.text| >= 4 && t.text[|t.text| - 2] == '*' && t.text[|t.text| - 1] == '/')
  }

  /** The character the comment stripper leaves behind: the last one of a block comment that is never closed. */
  function Residue(ts: seq<Token>): string {
    if ts == [] then ""
    else if |ts| == 1 then
      if Unclosed(ts[0]) && |ts[0].text| > 2 then [ts[0].text[|ts[0].text| - 1]] else ""
    else Residue(ts[1..])
  }

  predicate HarmlessResidue(raw: string) {
    var r := Residue(Lex(raw));
    r == "" || IsSpace(r[0]) || r[0] == ';'
  }

  /** The reference lexer loses nothing: its tokens spell the text. */
  lemma {:induction false} LexIsLossless(s: string)
    ensures Spelling(Lex(s)) == s
    decreases |s|
  {
    if s != "" {
      var t := FirstToken(s);
      var rest := s[|Source(t)|..];
      LexIsLossless(rest);
      assert Lex(s)[0] == t && Lex(s)[1..] == Lex(rest);
    }
  }

  // ---------------------------------------------------------------- strip

  lemma {:induction false} StripHead(s: string, m: Mode)
    ensures s == "" ==> Strip(s, m) == ""
    ensures s != "" ==> Strip(s, m) != "" && (Strip(s, m)[0] == s[0] || (m.Plain? && Strip(s, m)[0] == ' '))
  {
  }

  /** A scanner takes the same step on stripped text as on the text itself. */
  lemma {:induction false} StripKeepsAdvance(s: string, m: Mode)
    requires s != "" && !(m.Plain? && (StartsLine(s) || StartsBlock(s)))
    ensures var (n, m') := Advance(s, m); var t := Strip(s, m);
            && t == s[..n] + Strip(s[n..], m')
            && t != "" && t[0] == s[0] && Advance(t, m) == (n, m')
            && t[..n] == s[..n] && t[n..] == Strip(s[n..], m')
  {
    var (n, m') := Advance(s, m);
    StripHead(s[n..], m');
  }

  /** Stripping comments twice is stripping them once, on every text. */
  lemma {:induction false} StripIsIdempotent(s: string, m: Mode)
    ensures Strip(Strip(s, m), m) == Strip(s, m)
    decreases |s|
  {
    var t := Strip(s, m);
    if s == "" {
    } else if m.Plain? && (StartsLine(s) || StartsBlock(s)) {
      var rest := if StartsLine(s) then AfterLine(s[2..]) else AfterBlock(s[2..]);
      StripIsIdempotent(rest, Plain);
      assert t[1..] == Strip(rest, Plain);
    } else {
      var (n, m') := Advance(s, m);
      StripKeepsAdvance(s, m);
      StripIsIdempotent(s[n..], m');
      if m.Plain? && |s| > 1 {
        StripHead(s[1..], m');
        assert t[1] == t[1..][0];
      }
    }
  }

  lemma {:induction false} LineAgrees(s: string)
    ensures AfterLine(s) == s[LineLength(s)..]
  {
    if s != "" && !IsLineEnd(s[0]) {
      LineAgrees(s[1..]);
    }
  }

  predicate ClosedAt(s: string, n: nat)
    requires n <= |s|
  {
    n >= 2 && s[n - 2] == '*' && s[n - 1] == '/'
  }

  function LastOnly(s: string): string {
    if s == "" then "" else [s[|s| - 1]]
  }

  /** The two readings of a block comment: they differ only when it is never closed. */
  lemma {:induction false} BlockAgrees(s: string)
    ensures var n := BlockLength(s);
            if ClosedAt(s, n) then AfterBlock(s) == s[n..] else n == |s| && AfterBlock(s) == LastOnly(s)
  {
    if |s| < 2 {
    } else if s[0] == '*' && s[1] == '/' {
    } else {
      var t := s[1..];
      BlockAgrees(t);
      var k := BlockLength(t);
      assert k >= 2 ==> s[k - 1] == t[k - 2] && s[k] == t[k - 1];
      assert k < 2 ==> k == |t|;
      assert t[k..] == s[k + 1..];
    }
  }

  // ---------------------------------------------------------------- strip then split is the reference

  /** The reference cut with the stripper's residue scanned as ordinary text at the end. */
  function StatementsWith(ts: seq<Token>, buf: string, residue: string): seq<string> {
    if ts == [] then Split(residue, buf, Plain)
    else if ts[0].Semicolon? then Emit(buf) + StatementsWith(ts[1..], "", residue)
    else StatementsWith(ts[1..], buf + Shown(ts[0]), residue)
  }

  lemma {:induction false} LiteralFusion(s: string, q: QuoteMark, buf: string)
    ensures Split(Strip(s, Quoted(q)), buf, Quoted(q))
         == Split(Strip(s[LiteralLength(s, q)..], Plain), buf + s[..LiteralLength(s, q)], Plain)
    decreases |s|
  {
    var k := LiteralLength(s, q);
    if s == "" {
      assert buf + "" == buf;
    } else {
      var m := Quoted(q);
      var (n, m') := Advance(s, m);
      StripKeepsAdvance(s, m);
      assert Split(Strip(s, m), buf, m) == Split(Strip(s[n..], m'), buf + s[..n], m');
      if m'.Quoted? {
        assert k == n + LiteralLength(s[n..], q);
        LiteralFusion(s[n..], q, buf + s[..n]);
        Slices(s, n, k - n, buf);
      }
    }
  }

  lemma {:induction false} BlockToken(s: string)
    requires StartsBlock(s)
    ensures var n := 2 + BlockLength(s[2..]);
            && FirstToken(s) == Comment(s[..n])
            && (Unclosed(FirstToken(s)) ==> n == |s| && AfterBlock(s[2..]) == LastOnly(s[2..]))
            && (!Unclosed(FirstToken(s)) ==> AfterBlock(s[2..]) == s[n..])
  {
    var b := s[2..];
    var k := BlockLength(b);
    BlockAgrees(b);
    var t := Comment(s[..2 + k]);
    assert FirstToken(s) == t;
    assert k >= 2 ==> b[k - 2] == s[k] == t.text[k] && b[k - 1] == s[k + 1] == t.text[k + 1];
    assert Unclosed(t) <==> !ClosedAt(b, k);
    Slices(s, 2, k, "");
  }

  /** A block comment is stripped to one blank, followed by the residue when it is never closed. */
  lemma {:induction false} StripOfBlock(s: string)
    requires StartsBlock(s)
    ensures var rest := s[|Source(FirstToken(s))|..];
            Strip(s, Plain) == " " + (if rest == "" then Residue([FirstToken(s)]) else Strip(rest, Plain))
  {
    BlockToken(s);
    var t := FirstToken(s);
    if Unclosed(t) {
      assert t.text == s;
      StripOne(LastOnly(s[2..]));
    }
  }

  lemma {:induction false} StripOne(r: string)
    requires |r| <= 1
    ensures Strip(r, Plain) == r
  {
    if r != "" {
      assert r[1..] == "" && r[..1] == r;
      assert Strip(r, Plain) == r[..1] + Strip("", Advance(r, Plain).1);
    }
  }

  lemma {:induction false} LexStep(s: string)
    requires s != ""
    ensures var rest := s[|Source(FirstToken(s))|..];
            Lex(s) == [FirstToken(s)] + Lex(rest) && Lex(s)[1..] == Lex(rest)
            && (rest != "" ==> Residue(Lex(s)) == Residue(Lex(rest)))
  {
  }

  lemma {:induction false} Fusion(s: string, buf: string)
    ensures Split(Strip(s, Plain), buf, Plain) == StatementsWith(Lex(s), buf, Residue(Lex(s)))
    decreases |s|
  {
    if s != "" {
      var t := FirstToken(s);
      var rest := s[|Source(t)|..];
      LexStep(s);
      FusionStep(s, buf);
      Fusion(rest, if t.Semicolon? then "" else buf + Shown(t));
    }
  }

  lemma {:induction false} FusionStep(s: string, buf: string)
    requires s != ""
    ensures var t := FirstToken(s); var rest := s[|Source(t)|..];
            Split(Strip(s, Plain), buf, Plain) ==
            (if t.Semicolon? then Emit(buf) + Split(Strip(rest, Plain), "", Plain)
             else Split(if rest == "" then Residue([t]) else Strip(rest, Plain), buf + Shown(t), Plain))
  {
    var t := FirstToken(s);
    var rest := s[|Source(t)|..];
    if IsQuote(s[0]) {
      LiteralStep(s, buf);
    } else if StartsLine(s) {
      LineAgrees(s[2..]);
      Slices(s, 2, LineLength(s[2..]), "");
      BlankStep(Strip(rest, Plain), buf);
    } else if StartsBlock(s) {
      StripOfBlock(s);
      BlankStep(if rest == "" then Residue([t]) else Strip(rest, Plain), buf);
    } else {
      StripKeepsAdvance(s, Plain);
      assert s[..1] == [s[0]];
    }
  }

  lemma {:induction false} BlankStep(x: string, buf: string)
    ensures Split(" " + x, buf, Plain) == Split(x, buf + " ", Plain)
  {
    var y := " " + x;
    assert y[1..] == x && y[..1] == " ";
  }

  lemma {:induction false} LiteralStep(s: string, buf: string)
    requires s != "" && IsQuote(s[0])
    ensures var t := FirstToken(s); var rest := s[|Source(t)|..];
            Split(Strip(s, Plain), buf, Plain) == Split(Strip(rest, Plain), buf + Source(t), Plain)
  {
    var q: QuoteMark := s[0];
    var n := LiteralLength(s[1..], q);
    StripKeepsAdvance(s, Plain);
    LiteralFusion(s[1..], q, buf + s[..1]);
    Slices(s, 1, n, buf);
  }

  /** Blanks around a text do not change its statements. */
  lemma {:induction false} SplitIgnoresLeading(s: string, c: char, buf: string, m: Mode)
    requires IsSpace(c)
    ensures Split(s, [c] + buf, m) == Split(s, buf, m)
    decreases |s|
  {
    TrimLeading(c, buf);
    if s != "" && !(m.Plain? && s[0] == ';') {
      var (n, m') := Advance(s, m);
      SplitIgnoresLeading(s[n..], c, buf + s[..n], m');
      assert [c] + buf + s[..n] == [c] + (buf + s[..n]);
    }
  }

  lemma {:induction false} SplitIgnoresTrailing(s: string, c: char, buf: string, m: Mode)
    requires IsSpace(c)
    ensures Split(s + [c], buf, m) == Split(s, buf, m)
    decreases |s|
  {
    var t := s + [c];
    if s == "" {
      assert t[1..] == "" && t[..1] == [c];
      TrimTrailing(buf, c);
    } else if m.Plain? && s[0] == ';' {
      assert t[1..] == s[1..] + [c];
      SplitIgnoresTrailing(s[1..], c, "", Plain);
    } else {
      var (n, m') := Advance(s, m);
      assert Advance(t, m) == (n, m');
      assert t[n..] == s[n..] + [c] && t[..n] == s[..n];
      SplitIgnoresTrailing(s[n..], c, buf + s[..n], m');
    }
  }

  lemma {:induction false} SplitIgnoresLeft(s: string)
    ensures Split(TrimLeft(s), "", Plain) == Split(s, "", Plain)
  {
    if s != "" && IsSpace(s[0]) {
      SplitIgnoresLeft(s[1..]);
      SplitIgnoresLeading(s[1..], s[0], "", Plain);
      assert [s[0]] + "" == "" + s[..1];
    }
  }

  lemma {:induction false} SplitIgnoresRight(s: string)
    ensures Split(TrimRight(s), "", Plain) == Split(s, "", Plain)
  {
    if s != "" && IsSpace(s[|s| - 1]) {
      var t := s[..|s| - 1];
      SplitIgnoresRight(t);
      SplitIgnoresTrailing(t, s[|s| - 1], "", Plain);
      assert s == t + [s[|s| - 1]];
    }
  }

  lemma {:induction false} SplitIgnoresTrim(s: string)
    ensures Split(Trim(s), "", Plain) == Split(s, "", Plain)
  {
    SplitIgnoresLeft(s);
    SplitIgnoresRight(TrimLeft(s));
  }

  /** The statements the guard counts: strip comments, trim, split. */
  function PipelineStatements(raw: string): seq<string> {
    Split(Trim(Strip(raw, Plain)), "", Plain)
  }

  lemma {:induction false} SplitOne(c: char, b: string)
    ensures Split([c], b, Plain) == if c == ';' then Emit(b) else Emit(b + [c])
  {
    var t := [c];
    assert t[1..] == "" && t[..1] == t;
    assert Trim("") == "";
  }

  /** A visible character after the last buffer changes the last statement; white space or a semicolon does not. */
  lemma {:induction false} LastBuffer(b: string, c: char)
    ensures IsSpace(c) || c == ';' ==> Split([c], b, Plain) == Emit(b)
    ensures !IsSpace(c) && c != ';' ==> Split([c], b, Plain) != Emit(b) && |Split([c], b, Plain)| == 1
  {
    SplitOne(c, b);
    if c == ';' {
    } else if IsSpace(c) {
      TrimTrailing(b, c);
    } else {
      TrimKeepsLast(b, c);
      TrimShrinks(b);
      var t, u := Trim(b), TrimLeft(b) + [c];
      assert Emit(b + [c]) == [u] && |u| > |t|;
      assert Emit(b) == [] || Emit(b) == [t];
    }
  }

  lemma {:induction false} CancelLeft(e: seq<string>, x: seq<string>, y: seq<string>)
    requires x != y
    ensures e + x != e + y
  {
    assert (e + x)[|e|..] == x;
    assert (e + y)[|e|..] == y;
  }

  /** How the residue changes the cut: not at all when harmless, otherwise by at least the last statement. */
  lemma {:induction false} ResidueEffect(ts: seq<Token>, buf: string, c: char)
    requires ts != [] && ts[|ts| - 1].Comment?
    ensures IsSpace(c) || c == ';' ==> StatementsWith(ts, buf, [c]) == Statements(ts, buf)
    ensures !IsSpace(c) && c != ';' ==> StatementsWith(ts, buf, [c]) != Statements(ts, buf)
    ensures |StatementsWith(ts, buf, [c])| >= |Statements(ts, buf)|
  {
    var rest := ts[1..];
    if |ts| == 1 {
      assert rest == [];
      LastBuffer(buf + " ", c);
    } else {
      assert rest[|rest| - 1] == ts[|ts| - 1];
      if ts[0].Semicolon? {
        ResidueEffect(rest, "", c);
        if !IsSpace(c) && c != ';' {
          CancelLeft(Emit(buf), StatementsWith(rest, "", [c]), Statements(rest, ""));
        }
      } else {
        ResidueEffect(rest, buf + Shown(ts[0]), c);
      }
    }
  }

  lemma {:induction false} NoResidue(ts: seq<Token>, buf: string)
    ensures StatementsWith(ts, buf, "") == Statements(ts, buf)
  {
    if ts != [] {
      NoResidue(ts[1..], if ts[0].Semicolon? then "" else buf + Shown(ts[0]));
    }
  }

  lemma {:induction false} ResidueShape(ts: seq<Token>)
    ensures Residue(ts) != "" ==> |Residue(ts)| == 1 && ts != [] && ts[|ts| - 1].Comment?
  {
    if |ts| > 1 {
      ResidueShape(ts[1..]);
    }
  }

  /**
   * Stripping comments and then splitting on semicolons finds the statements of the reference lexer exactly
   * when the stripper leaves nothing visible behind; and it never finds fewer.
   */
  lemma {:induction false} PipelineIsReference(raw: string)
    ensures PipelineStatements(raw) == ReferenceStatements(raw) <==> HarmlessResidue(raw)
    ensures |PipelineStatements(raw)| >= |ReferenceStatements(raw)|
  {
    var ts := Lex(raw);
    var r := Residue(ts);
    SplitIgnoresTrim(Strip(raw, Plain));
    Fusion(raw, "");
    ResidueShape(ts);
    if r == "" {
      NoResidue(ts, "");
    } else {
      assert r == [r[0]];
      ResidueEffect(ts, "", r[0]);
    }
  }

  // ---------------------------------------------------------------- splitting again

  /** Where the first semicolon outside literals stands. */
  function FirstCut(s: string, m: Mode): (n: nat)
    ensures n <= |s|
    ensures n < |s| ==> s[n] == ';'
    decreases |s|
  {
    if s == "" || (m.Plain? && s[0] == ';') then 0
    else var (n, m') := Advance(s, m); n + FirstCut(s[n..], m')
  }

  /** One step of the splitter away from a cut. */
  lemma {:induction false} SplitStep(s: string, buf: string, m: Mode)
    requires s != "" && !(m.Plain? && s[0] == ';')
    ensures var (n, m') := Advance(s, m); Split(s, buf, m) == Split(s[n..], buf + s[..n], m')
  {
  }

  /** Cutting a text right before a semicolon does not change the steps before the cut. */
  lemma {:induction false} PrefixAdvance(s: string, m: Mode, k: nat)
    requires s != "" && Advance(s, m).0 <= k <= |s| && (k < |s| ==> s[k] == ';')
    ensures Advance(s[..k], m) == Advance(s, m)
  {
  }

  lemma {:induction false} PrefixParts(s: string, k: nat, n: nat)
    requires n <= k <= |s|
    ensures s[..k][..n] == s[..n] && s[..k][n..] == s[n..][..k - n]
  {
  }

  /** Up to the first cut there is one statement. */
  lemma {:induction false} SplitToFirstCut(s: string, buf: string, m: Mode, k: nat)
    requires k == FirstCut(s, m)
    ensures Split(s[..k], buf, m) == Emit(buf + s[..k])
    decreases |s|
  {
    if s == "" || (m.Plain? && s[0] == ';') {
      assert buf + s[..k] == buf;
    } else {
      var next := Advance(s, m);
      var n := next.0;
      SplitToFirstCut(s[n..], buf + s[..n], next.1, k - n);
      PrefixAdvance(s, m, k);
      SplitStep(s[..k], buf, m);
      Slices(s, n, k - n, buf);
      PrefixParts(s, k, n);
    }
  }

  lemma {:induction false} SplitAtFirstCut(s: string, buf: string, m: Mode)
    ensures var k := FirstCut(s, m);
            Split(s, buf, m)
            == if k == |s| then Emit(buf + s[..k]) else Emit(buf + s[..k]) + Split(s[k + 1..], "", Plain)
    decreases |s|
  {
    var k := FirstCut(s, m);
    if s == "" || (m.Plain? && s[0] == ';') {
      assert buf + s[..k] == buf;
    } else {
      var (n, m') := Advance(s, m);
      var x := s[n..];
      assert k - n == FirstCut(x, m');
      SplitAtFirstCut(x, buf + s[..n], m');
      SplitStep(s, buf, m);
      Slices(s, n, k - n, buf);
      if k < |s| {
        assert x[k - n + 1..] == s[k + 1..];
      }
    }
  }

  /** Every statement found is trimmed, not blank, and by itself one statement: itself. */
  lemma {:induction false} StatementsAreAtomic(s: string)
    ensures forall t :: t in Split(s, "", Plain) ==> Trimmed(t) && t != "" && Split(t, "", Plain) == [t]
    decreases |s|
  {
    var n := FirstCut(s, Plain);
    var b := s[..n];
    SplitToFirstCut(s, "", Plain, n);
    SplitAtFirstCut(s, "", Plain);
    assert "" + b == b;
    SplitIgnoresTrim(b);
    var _ := TrimIsWindow(b);
    if n < |s| {
      StatementsAreAtomic(s[n + 1..]);
    }
  }

  // ---------------------------------------------------------------- the CTE verb finder

  predicate IsWordChar(c: char) { 'A' <= c <= 'Z' || 'a' <= c <= 'z' || c == '_' }

  function ToUpper(s: string): string {
    seq(|s|, i requires 0 <= i < |s| => if 'a' <= s[i] <= 'z' then s[i] - 'a' + 'A' else s[i])
  }

  function Word(token: string, depth: nat): seq<string> {
    if token != "" && depth == 0 then [ToUpper(token)] else []
  }

  /** What one character outside literals does: the words it completes, the new depth and the new pending word. */
  function WordStep(c: char, depth: nat, token: string): (seq<string>, nat, string) {
    if c == '(' then ([], depth + 1, "")
    else if c == ')' then ([], if depth == 0 then 0 else depth - 1, "")
    else if IsWordChar(c) then ([], depth, token + [c])
    else (Word(token, depth), depth, "")
  }

  /**
   * The upper-cased words at parenthesis depth zero, as the finder reads them: a word that runs into a parenthesis is
   * dropped, and a literal neither ends a word nor adds to it.
   */
  function TopWords(s: string, depth: nat, token: string, m: Mode): seq<string>
    decreases |s|
  {
    if s == "" then if m.Plain? then Word(token, depth) else []
    else
      var (n, m') := Advance(s, m);
      if m.Quoted? || m'.Quoted? then TopWords(s[n..], depth, token, m')
      else var (words, d, t) := WordStep(s[0], depth, token); words + TopWords(s[1..], d, t, m)
  }

  predicate IsDmlVerb(w: string) {
    w == "SELECT" || w == "INSERT" || w == "UPDATE" || w == "DELETE" || w == "MERGE"
  }

  function FirstDmlVerb(words: seq<string>): (verb: string)
    ensures IsDmlVerb(verb)
  {
    if words == [] then "SELECT" else if IsDmlVerb(words[0]) then words[0] else FirstDmlVerb(words[1..])
  }

  lemma {:induction false} FirstDmlVerbStep(token: string, depth: nat, words: seq<string>)
    ensures FirstDmlVerb(Word(token, depth) + words)
         == if token != "" && depth == 0 && IsDmlVerb(ToUpper(token)) then ToUpper(token) else FirstDmlVerb(words)
  {
    var w := Word(token, depth);
    assert (w + words)[|w|..] == words;
  }

  /** The `sawFirstWord` flag only ever skips the word WITH, which is no DML verb, so it never shows. */
  method DetectCteInnerVerb(query: string) returns (verb: string)
    ensures verb == FirstDmlVerb(TopWords(query, 0, "", Plain))
  {
    var depth: nat := 0;
    var quote := Plain;
    var token := "";
    var sawFirstWord := false;
    var i := 0;
    while i <= |query|
      invariant 0 <= i <= |query| + 1
      invariant i <= |query| ==>
        FirstDmlVerb(TopWords(query[i..], depth, token, quote)) == FirstDmlVerb(TopWords(query, 0, "", Plain))
      invariant i > |query| ==> FirstDmlVerb(TopWords(query, 0, "", Plain)) == "SELECT"
    {
      var ch := if i < |query| then query[i] else ' ';
      ghost var rest := query[i..];
      assert i < |query| ==> rest[1..] == query[i + 1..];
      if quote.Quoted? {
        if ch == quote.mark {
          if i + 1 < |query| && query[i + 1] == quote.mark {
            assert rest[2..] == query[i + 2..];
            i := i + 1;
          } else {
            quote := Plain;
          }
        }
      } else if IsQuote(ch) {
        quote := Quoted(ch);
      } else if ch == '(' {
        depth := depth + 1;
        token := "";
        assert [] + TopWords(rest[1..], depth, token, quote) == TopWords(rest[1..], depth, token, quote);
      } else if ch == ')' {
        depth := if depth == 0 then 0 else depth - 1;
        token := "";
        assert [] + TopWords(rest[1..], depth, token, quote) == TopWords(rest[1..], depth, token, quote);
      } else if IsWordChar(ch) {
        token := token + [ch];
        assert [] + TopWords(rest[1..], depth, token, quote) == TopWords(rest[1..], depth, token, quote);
      } else {
        FirstDmlVerbStep(token, depth, if i < |query| then TopWords(query[i + 1..], depth, "", quote) else []);
        assert Word(token, depth) + [] == Word(token, depth);
        if token != "" {
          if depth == 0 {
            var up := ToUpper(token);
            if !sawFirstWord && up == "WITH" {
              sawFirstWord := true;
            } else if IsDmlVerb(up) {
              return up;
            }
          }
          token := "";
        }
      }
      i := i + 1;
    }
    return "SELECT";
  }

  // ---------------------------------------------------------------- the multi-statement guard

  predicate IsKnownVerb(w: string) {
    || IsDmlVerb(w) || w == "DROP" || w == "TRUNCATE" || w == "ALTER" || w == "CREATE" || w == "GRANT"
    || w == "REVOKE" || w == "CALL" || w == "EXECUTE" || w == "EXPLAIN" || w == "WITH" || w == "REPLACE"
    || w == "RENAME" || w == "COMMENT"
  }

  predicate IsLetter(c: char) { 'A' <= c <= 'Z' || 'a' <= c <= 'z' }

  /** The leading word of a query: blanks, then at least one letter. */
  function LeadingWord(s: string): string {
    Letters(TrimLeft(s))
  }

  function Letters(s: string): string {
    if s != "" && IsLetter(s[0]) then [s[0]] + Letters(s[1..]) else ""
  }

  /** The verb of one statement: its leading word when that is known, the inner verb after WITH. */
  function StatementVerb(query: string): (verb: string)
    ensures verb == "UNKNOWN" || IsKnownVerb(verb)
  {
    var word := ToUpper(LeadingWord(query));
    if word == "WITH" then
      FirstDmlVerb(TopWords(query, 0, "", Plain))
    else if IsKnownVerb(word) then word
    else "UNKNOWN"
  }

  lemma {:induction false} VisibleBuffer(s: string, buf: string, m: Mode)
    requires buf != "" && !IsSpace(buf[0])
    ensures Split(s, buf, m) != []
    decreases |s|
  {
    if s == "" || (m.Plain? && s[0] == ';') {
      var k := TrimIsWindow(buf);
      assert Trim(buf) != "";
    } else {
      var (n, m') := Advance(s, m);
      SplitStep(s, buf, m);
      VisibleBuffer(s[n..], buf + s[..n], m');
    }
  }

  /** A text without statements starts with no word. */
  lemma {:induction false} NoStatementNoWord(s: string)
    requires Trimmed(s) && s != "" && Split(s, "", Plain) == []
    ensures LeadingWord(s) == ""
  {
    if s[0] != ';' {
      var (n, m') := Advance(s, Plain);
      SplitStep(s, "", Plain);
      VisibleBuffer(s[n..], "" + s[..n], m');
    }
  }

  /** The statements of a raw text with the stripper's residue read as text at its end. */
  function StatementsRead(raw: string): seq<string> {
    StatementsWith(Lex(raw), "", Residue(Lex(raw)))
  }

  /** The verb facet of a text. */
  function Classified(raw: string): string {
    if Trim(Strip(raw, Plain)) == "" then ""
    else if |StatementsRead(raw)| == 1 then StatementVerb(StatementsRead(raw)[0])
    else "UNKNOWN"
  }

  /**
   * The verb facet of a raw query. It fails closed: a text that the reference lexer reads as more than one statement is
   * never given a known verb. A single statement is classified by its own text, as the reference lexer reads it when
   * the residue is harmless, and otherwise with the residue at its end.
   */
  method ClassifyVerb(raw: string) returns (verb: string)
    ensures |ReferenceStatements(raw)| > 1 ==> verb == "UNKNOWN"
    ensures HarmlessResidue(raw) && |ReferenceStatements(raw)| == 1 ==>
              verb == StatementVerb(ReferenceStatements(raw)[0])
    ensures verb == "" <==> Trim(Strip(raw, Plain)) == ""
    ensures verb == Classified(raw)
  {
    PipelineIsReference(raw);
    Fusion(raw, "");
    SplitIgnoresTrim(Strip(raw, Plain));
    var out := StripSqlComments(raw);
    var stripped := Trim(out);
    if stripped == "" {
      assert PipelineStatements(raw) == [];
      return "";
    }
    var statements := SplitSqlStatements(stripped);
    if |statements| > 1 { return "UNKNOWN"; }
    var query := if |statements| == 1 then statements[0] else stripped;
    if |statements| == 0 {
      var lo := TrimIsWindow(out);
      NoStatementNoWord(stripped);
    }
    var word := ToUpper(LeadingWord(query));
    if word == "" { return "UNKNOWN"; }
    if word == "WITH" {
      verb := DetectCteInnerVerb(query);
    } else {
      verb := if IsKnownVerb(word) then word else "UNKNOWN";
    }
    assert verb == StatementVerb(query);
  }
}
