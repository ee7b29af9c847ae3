// Which words the verb finder reads: in every statement, compared with the words of the reference lexer.
module SqlWords {
  import opened Collections
  import opened Trimming
  import opened SqlLexing

  // ---------------------------------------------------------------- the finder, token by token

  function EndMode(s: string, m: Mode): Mode
    decreases |s|
  {
    if s == "" then m else var (n, m') := Advance(s, m); EndMode(s[n..], m')
  }

  predicate UnclosedLiteral(t: Token) {
    t.Literal? && t.text != "" && IsQuote(t.text[0]) && EndMode(t.text[1..], Quoted(t.text[0])).Quoted?
  }

  /** What the verb finder makes of the reference tokens of a text: a closed literal leaves its pending word alone. */
  function ScannedWords(ts: seq<Token>, depth: nat, token: string): seq<string> {
    if ts == [] then Word(token, depth)
    else if ts[0].Literal? then ScannedWords(ts[1..], depth, if UnclosedLiteral(ts[0]) then "" else token)
    else
      var (words, d, w) := WordStep(Shown(ts[0])[0], depth, token);
      words + if |ts| == 1 then TopWords(Residue(ts), d, w, Plain) else ScannedWords(ts[1..], d, w)
  }

  lemma {:induction false} WordsSkipLiteral(s: string, q: QuoteMark, depth: nat, token: string)
    ensures var k := LiteralLength(s, q);
            if EndMode(s[..k], Quoted(q)).Quoted?
            then k == |s| && TopWords(Strip(s, Quoted(q)), depth, token, Quoted(q)) == []
            else
              TopWords(Strip(s, Quoted(q)), depth, token, Quoted(q))
              == TopWords(Strip(s[k..], Plain), depth, token, Plain)
    decreases |s|
  {
    var k := LiteralLength(s, q);
    if s != "" {
      var m := Quoted(q);
      var (n, m') := Advance(s, m);
      StripKeepsAdvance(s, m);
      assert Advance(s[..k], m) == (n, m');
      assert EndMode(s[..k], m) == EndMode(s[..k][n..], m');
      if m'.Quoted? {
        assert k == n + LiteralLength(s[n..], q);
        WordsSkipLiteral(s[n..], q, depth, token);
        Slices(s, n, k - n, "");
      } else {
        assert s[..k][n..] == "";
      }
    }
  }

  lemma {:induction false} WordsFirst(c: char, x: string, depth: nat, token: string)
    requires !IsQuote(c)
    ensures var (words, d, t) := WordStep(c, depth, token);
            TopWords([c] + x, depth, token, Plain) == words + TopWords(x, d, t, Plain)
  {
    assert ([c] + x)[1..] == x;
  }

  lemma {:induction false} StripFirst(s: string)
    requires s != "" && !IsQuote(s[0])
    ensures var t := FirstToken(s); var rest := s[|Source(t)|..];
            && |Shown(t)| == 1 && !IsQuote(Shown(t)[0])
            && Strip(s, Plain) == Shown(t) + (if rest == "" then Residue([t]) else Strip(rest, Plain))
  {
    if StartsLine(s) {
      LineAgrees(s[2..]);
      Slices(s, 2, LineLength(s[2..]), "");
    } else if StartsBlock(s) {
      StripOfBlock(s);
    } else {
      StripKeepsAdvance(s, Plain);
      assert s[..1] == [s[0]] == Shown(FirstToken(s));
    }
  }

  lemma {:induction false} LiteralWords(s: string, depth: nat, token: string)
    requires s != "" && IsQuote(s[0])
    ensures var t := FirstToken(s); var rest := s[|Source(t)|..];
            if UnclosedLiteral(t) then rest == "" && TopWords(Strip(s, Plain), depth, token, Plain) == []
            else TopWords(Strip(s, Plain), depth, token, Plain) == TopWords(Strip(rest, Plain), depth, token, Plain)
  {
    var q: QuoteMark := s[0];
    var n := LiteralLength(s[1..], q);
    StripKeepsAdvance(s, Plain);
    assert TopWords(Strip(s, Plain), depth, token, Plain)
      == TopWords(Strip(s[1..], Quoted(q)), depth, token, Quoted(q));
    Slices(s, 1, n, "");
    WordsSkipLiteral(s[1..], q, depth, token);
  }

  /** The finder's scan of any stripped text is a scan of the reference tokens. */
  lemma {:induction false} FinderReadsTokens(s: string, depth: nat, token: string)
    ensures TopWords(Strip(s, Plain), depth, token, Plain) == ScannedWords(Lex(s), depth, token)
    decreases |s|
  {
    if s != "" {
      var t := FirstToken(s);
      var rest := s[|Source(t)|..];
      LexStep(s);
      if IsQuote(s[0]) {
        LiteralWords(s, depth, token);
        if !UnclosedLiteral(t) {
          FinderReadsTokens(rest, depth, token);
        }
      } else {
        StripFirst(s);
        var (_, d, w) := WordStep(Shown(t)[0], depth, token);
        assert Shown(t) == [Shown(t)[0]];
        WordsFirst(Shown(t)[0], if rest == "" then Residue([t]) else Strip(rest, Plain), depth, token);
        if rest == "" {
          assert Lex(s) == [t];
        } else {
          FinderReadsTokens(rest, d, w);
        }
      }
    }
  }

  // ---------------------------------------------------------------- the words of a statement

  predicate IsDigit(c: char) { '0' <= c <= '9' }

  /** The characters of an identifier; the finder's own word characters leave the digits out. */
  predicate IsNameChar(c: char) { IsWordChar(c) || IsDigit(c) }

  predicate IsNameToken(t: Token) {
    t.Other? && IsNameChar(t.c)
  }

  predicate IsParenthesis(t: Token) {
    t.Other? && (t.c == '(' || t.c == ')')
  }

  function DepthAfter(t: Token, depth: nat): nat {
    if t == Other('(') then depth + 1 else if t == Other(')') && depth > 0 then depth - 1 else depth
  }

  predicate HasLetter(piece: string) {
    exists i :: 0 <= i < |piece| && IsWordChar(piece[i])
  }

  predicate HasDigit(piece: string) {
    exists i :: 0 <= i < |piece| && IsDigit(piece[i])
  }

  /** An identifier is a word, a number is none. */
  function Name(piece: string, depth: nat): seq<string> {
    if depth == 0 && HasLetter(piece) then [ToUpper(piece)] else []
  }

  /** The upper-cased identifiers at parenthesis depth zero: any token that is no name character ends one. */
  function ReferenceWords(ts: seq<Token>, depth: nat, piece: string): seq<string> {
    if ts == [] then Name(piece, depth)
    else if IsNameToken(ts[0]) then ReferenceWords(ts[1..], depth, piece + [ts[0].c])
    else Name(piece, depth) + ReferenceWords(ts[1..], DepthAfter(ts[0], depth), "")
  }

  /**
   * Identifiers and numbers at depth zero with nothing but literals between them. The run is kept unless it ends at a
   * parenthesis or in a literal that is never closed.
   */
  datatype WordRun = WordRun(pieces: seq<string>, kept: bool)

  function Finished(pieces: seq<string>, piece: string): seq<string> {
    if piece == "" then pieces else pieces + [piece]
  }

  function EndRun(pieces: seq<string>, depth: nat, kept: bool): seq<WordRun> {
    if pieces == [] || depth > 0 then [] else [WordRun(pieces, kept)]
  }

  function Runs(ts: seq<Token>, depth: nat, pieces: seq<string>, piece: string): seq<WordRun> {
    if ts == [] then EndRun(Finished(pieces, piece), depth, true)
    else if IsNameToken(ts[0]) then Runs(ts[1..], depth, pieces, piece + [ts[0].c])
    else if ts[0].Literal? && !UnclosedLiteral(ts[0]) then Runs(ts[1..], depth, Finished(pieces, piece), "")
    else
      var kept := !ts[0].Literal? && !IsParenthesis(ts[0]);
      EndRun(Finished(pieces, piece), depth, kept) + Runs(ts[1..], DepthAfter(ts[0], depth), [], "")
  }

  function RunsOf(q: string): seq<WordRun> {
    Runs(Lex(q), 0, [], "")
  }

  function Glued(pieces: seq<string>): string {
    if pieces == [] then "" else Glued(pieces[..|pieces| - 1]) + pieces[|pieces| - 1]
  }

  /** The letters and underscores at the end of a text. */
  function Pending(text: string): string {
    if text == "" || !IsWordChar(text[|text| - 1]) then "" else Pending(text[..|text| - 1]) + [text[|text| - 1]]
  }

  /** The words that end within a text of name characters when a digit ends a word. */
  function Done(text: string): seq<string> {
    if text == "" then []
    else
      var init := text[..|text| - 1];
      if IsWordChar(text[|text| - 1]) then Done(init) else Done(init) + Word(Pending(init), 0)
  }

  /** What the finder reads of a run: it joins the pieces, cuts them at the digits, and may drop the last word. */
  function Read(r: WordRun): seq<string> {
    var text := Glued(r.pieces);
    Done(text) + if r.kept then Word(Pending(text), 0) else []
  }

  function Names(pieces: seq<string>): seq<string> {
    if pieces == [] then [] else Names(pieces[..|pieces| - 1]) + Name(pieces[|pieces| - 1], 0)
  }

  function AllNames(runs: seq<WordRun>): seq<string> {
    if runs == [] then [] else Names(runs[0].pieces) + AllNames(runs[1..])
  }

  function AllRead(runs: seq<WordRun>): seq<string> {
    if runs == [] then [] else Read(runs[0]) + AllRead(runs[1..])
  }

  lemma {:induction false} AppendRuns(a: seq<WordRun>, b: seq<WordRun>)
    requires |a| <= 1
    ensures AllNames(a + b) == AllNames(a) + AllNames(b) && AllRead(a + b) == AllRead(a) + AllRead(b)
  {
    if a != [] {
      var r := a[0];
      assert a == [r] && (a + b)[1..] == b && a[1..] == [];
      assert AllNames(a) == Names(r.pieces) && AllRead(a) == Read(r);
    } else {
      NilFirst(b);
      NilFirst(AllNames(b));
      NilFirst(AllRead(b));
    }
  }

  lemma {:induction false} FinishedMeaning(pieces: seq<string>, piece: string)
    requires "" !in pieces
    ensures "" !in Finished(pieces, piece)
    ensures Glued(Finished(pieces, piece)) == Glued(pieces) + piece
    ensures Finished(pieces, piece) == [] <==> Glued(pieces) + piece == ""
    ensures Names(Finished(pieces, piece)) == Names(pieces) + Name(piece, 0)
  {
    assert piece != "" ==> Finished(pieces, piece)[..|pieces|] == pieces;
    if pieces != [] {
      assert pieces[|pieces| - 1] != "" && Glued(pieces) != "";
    }
  }

  lemma {:induction false} EndRunWords(pieces: seq<string>, depth: nat, kept: bool)
    ensures AllNames(EndRun(pieces, depth, kept)) == if depth == 0 then Names(pieces) else []
    ensures AllRead(EndRun(pieces, depth, kept)) == if depth == 0 then Read(WordRun(pieces, kept)) else []
  {
    if pieces != [] && depth == 0 {
      var r := WordRun(pieces, kept);
      assert AllNames([r]) == Names(pieces) + AllNames([]) && AllRead([r]) == Read(r) + AllRead([]);
    }
  }

  /** The reference words are the names of all runs. */
  lemma {:induction false} ReferenceByRuns(ts: seq<Token>, depth: nat, pieces: seq<string>, piece: string)
    requires "" !in pieces
    ensures AllNames(Runs(ts, depth, pieces, piece))
         == (if depth == 0 then Names(pieces) else []) + ReferenceWords(ts, depth, piece)
  {
    FinishedMeaning(pieces, piece);
    var all := Finished(pieces, piece);
    if ts == [] {
      EndRunWords(all, depth, true);
    } else if IsNameToken(ts[0]) {
      ReferenceByRuns(ts[1..], depth, pieces, piece + [ts[0].c]);
    } else if ts[0].Literal? && !UnclosedLiteral(ts[0]) {
      ReferenceByRuns(ts[1..], depth, all, "");
      Regroup(if depth == 0 then Names(pieces) else [], Name(piece, depth), ReferenceWords(ts[1..], depth, ""));
    } else {
      var kept := !ts[0].Literal? && !IsParenthesis(ts[0]);
      var d := DepthAfter(ts[0], depth);
      ReferenceByRuns(ts[1..], d, [], "");
      NilFirst(ReferenceWords(ts[1..], d, ""));
      AppendRuns(EndRun(all, depth, kept), Runs(ts[1..], d, [], ""));
      EndRunWords(all, depth, kept);
      Regroup(if depth == 0 then Names(pieces) else [], Name(piece, depth), ReferenceWords(ts[1..], d, ""));
    }
  }

  /** One step of the finder on a token that is no literal. */
  lemma {:induction false} ScannedStep(ts: seq<Token>, depth: nat, token: string)
    requires ts != [] && !ts[0].Literal? && Residue(ts) == ""
    ensures var (words, d, w) := WordStep(Shown(ts[0])[0], depth, token);
            ScannedWords(ts, depth, token) == words + ScannedWords(ts[1..], d, w)
  {
    if |ts| == 1 {
      assert ts[1..] == [];
    }
  }

  /** What the finder does at a token that is neither a name character nor a closed literal. */
  lemma {:induction false} ScannedBreak(ts: seq<Token>, depth: nat, token: string)
    requires ts != [] && !IsNameToken(ts[0]) && (ts[0].Literal? ==> UnclosedLiteral(ts[0])) && Residue(ts) == ""
    ensures ScannedWords(ts, depth, token)
         == (if !ts[0].Literal? && !IsParenthesis(ts[0]) then Word(token, depth) else [])
            + ScannedWords(ts[1..], DepthAfter(ts[0], depth), "")
  {
    if ts[0].Literal? {
      NilFirst(ScannedWords(ts[1..], depth, ""));
    } else {
      ScannedStep(ts, depth, token);
    }
  }

  /** The words done so far count at depth zero only. */
  function DoneAt(text: string, depth: nat): seq<string> {
    if depth == 0 then Done(text) else []
  }

  lemma {:induction false} ScannedName(ts: seq<Token>, depth: nat, text: string)
    requires ts != [] && IsNameToken(ts[0]) && Residue(ts) == ""
    ensures DoneAt(text, depth) + ScannedWords(ts, depth, Pending(text))
         == DoneAt(text + [ts[0].c], depth) + ScannedWords(ts[1..], depth, Pending(text + [ts[0].c]))
  {
    var c, more := ts[0].c, text + [ts[0].c];
    assert more[..|text|] == text && more[|text|] == c;
    ScannedStep(ts, depth, Pending(text));
    if IsWordChar(c) {
      NilFirst(ScannedWords(ts[1..], depth, Pending(more)));
    } else {
      Regroup(DoneAt(text, depth), Word(Pending(text), depth), ScannedWords(ts[1..], depth, ""));
    }
  }

  /** The finder's words are what it reads of the runs. */
  lemma {:induction false} ScannedByRuns(ts: seq<Token>, depth: nat, pieces: seq<string>, piece: string)
    requires "" !in pieces && Residue(ts) == ""
    ensures var text := Glued(pieces) + piece;
            AllRead(Runs(ts, depth, pieces, piece)) == DoneAt(text, depth) + ScannedWords(ts, depth, Pending(text))
    decreases |ts|, 1
  {
    FinishedMeaning(pieces, piece);
    var all, text := Finished(pieces, piece), Glued(pieces) + piece;
    if ts == [] {
      EndRunWords(all, depth, true);
    } else if IsNameToken(ts[0]) {
      Regroup(Glued(pieces), piece, [ts[0].c]);
      ScannedByRuns(ts[1..], depth, pieces, piece + [ts[0].c]);
      ScannedName(ts, depth, text);
    } else if ts[0].Literal? && !UnclosedLiteral(ts[0]) {
      ScannedByRuns(ts[1..], depth, all, "");
      assert Glued(all) + "" == text;
    } else {
      ScannedEnd(ts, depth, all, text);
    }
  }

  lemma {:induction false} ScannedEnd(ts: seq<Token>, depth: nat, all: seq<string>, text: string)
    requires ts != [] && !IsNameToken(ts[0]) && (ts[0].Literal? ==> UnclosedLiteral(ts[0])) && Residue(ts) == ""
    requires Glued(all) == text
    ensures var d := DepthAfter(ts[0], depth);
            AllRead(EndRun(all, depth, !ts[0].Literal? && !IsParenthesis(ts[0])) + Runs(ts[1..], d, [], ""))
            == DoneAt(text, depth) + ScannedWords(ts, depth, Pending(text))
    decreases |ts|, 0
  {
    var kept := !ts[0].Literal? && !IsParenthesis(ts[0]);
    var d := DepthAfter(ts[0], depth);
    var rest := ScannedWords(ts[1..], d, "");
    ScannedByRuns(ts[1..], d, [], "");
    NilFirst("");
    NilFirst(rest);
    AppendRuns(EndRun(all, depth, kept), Runs(ts[1..], d, [], ""));
    EndRunWords(all, depth, kept);
    ScannedBreak(ts, depth, Pending(text));
    Regroup(DoneAt(text, depth), if kept then Word(Pending(text), depth) else [], rest);
  }

  // ---------------------------------------------------------------- runs that are read as they stand

  /** A run as runs are made: identifiers and numbers, none of them empty. */
  predicate WellMade(r: WordRun) {
    r.pieces != [] && forall p :: p in r.pieces ==> IsPiece(p)
  }

  predicate IsPiece(p: string) {
    p != "" && forall i :: 0 <= i < |p| ==> IsNameChar(p[i])
  }

  lemma {:induction false} RunsAreWellMade(ts: seq<Token>, depth: nat, pieces: seq<string>, piece: string)
    requires (forall p :: p in pieces ==> IsPiece(p)) && (piece == "" || IsPiece(piece))
    ensures forall r :: r in Runs(ts, depth, pieces, piece) ==> WellMade(r)
  {
    if ts != [] {
      if IsNameToken(ts[0]) {
        RunsAreWellMade(ts[1..], depth, pieces, piece + [ts[0].c]);
      } else if ts[0].Literal? && !UnclosedLiteral(ts[0]) {
        RunsAreWellMade(ts[1..], depth, Finished(pieces, piece), "");
      } else {
        RunsAreWellMade(ts[1..], DepthAfter(ts[0], depth), [], "");
      }
    }
  }

  /** No identifier holds a digit. */
  predicate Unmixed(pieces: seq<string>) {
    forall p :: p in pieces ==> !(HasLetter(p) && HasDigit(p))
  }

  /** No two identifiers have literals alone between them. */
  predicate Unjoined(pieces: seq<string>) {
    forall i {:trigger pieces[i]} :: 0 < i < |pieces| ==> !(HasLetter(pieces[i - 1]) && HasLetter(pieces[i]))
  }

  /** No identifier holds a digit, none is joined to another one, and the last one is not dropped. */
  predicate Whole(r: WordRun) {
    Unmixed(r.pieces) && Unjoined(r.pieces) && (r.kept || r.pieces == [] || !HasLetter(r.pieces[|r.pieces| - 1]))
  }

  lemma {:induction false} OneMoreChar(text: string, c: char)
    ensures Done(text + [c]) == Done(text) + if IsWordChar(c) then [] else Word(Pending(text), 0)
    ensures Pending(text + [c]) == if IsWordChar(c) then Pending(text) + [c] else ""
  {
    var more := text + [c];
    assert more[..|more| - 1] == text && more[|more| - 1] == c;
  }

  lemma {:induction false} SplitLast(text: string, p: string)
    requires p != ""
    ensures text + p == (text + p[..|p| - 1]) + [p[|p| - 1]]
  {
  }

  lemma {:induction false} LettersPend(text: string, p: string)
    requires forall i :: 0 <= i < |p| ==> IsWordChar(p[i])
    ensures Done(text + p) == Done(text) && Pending(text + p) == Pending(text) + p
  {
    if p == "" {
      assert text + p == text;
    } else {
      LettersPend(text, p[..|p| - 1]);
      SplitLast(text, p);
      OneMoreChar(text + p[..|p| - 1], p[|p| - 1]);
      SplitLast(Pending(text), p);
    }
  }

  lemma {:induction false} DigitsEnd(text: string, p: string)
    requires p != "" && forall i :: 0 <= i < |p| ==> IsDigit(p[i])
    ensures Done(text + p) == Done(text) + Word(Pending(text), 0) && Pending(text + p) == ""
  {
    var init := p[..|p| - 1];
    SplitLast(text, p);
    OneMoreChar(text + init, p[|p| - 1]);
    if init == "" {
      assert text + init == text;
    } else {
      DigitsEnd(text, init);
    }
  }

  lemma {:induction false} PieceIsPure(p: string)
    requires IsPiece(p) && !(HasLetter(p) && HasDigit(p))
    ensures HasLetter(p) ==> forall i :: 0 <= i < |p| ==> IsWordChar(p[i])
    ensures !HasLetter(p) ==> forall i :: 0 <= i < |p| ==> IsDigit(p[i])
  {
  }

  /** The words done and pending are the names, unless some are joined, and then they are fewer. */
  lemma {:induction false} PiecesRead(pieces: seq<string>)
    requires Unmixed(pieces) && forall p :: p in pieces ==> IsPiece(p)
    ensures var text := Glued(pieces);
            var words := Done(text) + Word(Pending(text), 0);
            && (Pending(text) != "" <==> pieces != [] && HasLetter(pieces[|pieces| - 1]))
            && (if Unjoined(pieces) then words == Names(pieces) else |words| < |Names(pieces)|)
  {
    if pieces != [] {
      var init, p := pieces[..|pieces| - 1], pieces[|pieces| - 1];
      var text := Glued(init);
      assert pieces == init + [p];
      PiecesRead(init);
      PieceIsPure(p);
      UnjoinedStep(pieces);
      if HasLetter(p) {
        LettersPend(text, p);
        if Pending(text) == "" {
          NilFirst(p);
        }
      } else {
        DigitsEnd(text, p);
      }
    }
  }

  lemma {:induction false} UnjoinedStep(pieces: seq<string>)
    requires pieces != []
    ensures var init := pieces[..|pieces| - 1];
            Unjoined(pieces) <==>
              Unjoined(init) && !(init != [] && HasLetter(init[|init| - 1]) && HasLetter(pieces[|pieces| - 1]))
  {
    var init := pieces[..|pieces| - 1];
    if Unjoined(pieces) {
      forall i {:trigger init[i]} | 0 < i < |init| ensures !(HasLetter(init[i - 1]) && HasLetter(init[i])) {
        assert init[i] == pieces[i] && init[i - 1] == pieces[i - 1];
      }
      assert init != [] ==> pieces[|pieces| - 1 - 1] == init[|init| - 1];
    } else {
      var i :| 0 < i < |pieces| && HasLetter(pieces[i - 1]) && HasLetter(pieces[i]);
      assert pieces[i - 1] == init[i - 1];
      if i < |init| {
        assert init[i] == pieces[i];
      }
    }
  }

  /**
   * A run without digits in its identifiers is read as its names exactly when it is whole; otherwise words are lost.
   */
  lemma {:induction false} RunRead(r: WordRun)
    requires WellMade(r) && Unmixed(r.pieces)
    ensures if Whole(r) then Read(r) == Names(r.pieces) else |Read(r)| < |Names(r.pieces)|
  {
    PiecesRead(r.pieces);
    var text := Glued(r.pieces);
    if !r.kept {
      assert Done(text) + [] == Done(text);
      assert |Done(text) + Word(Pending(text), 0)| == |Done(text)| + |Word(Pending(text), 0)|;
    }
  }

  lemma {:induction false} UnmixedRead(runs: seq<WordRun>)
    requires forall r :: r in runs ==> WellMade(r) && Unmixed(r.pieces)
    ensures |AllRead(runs)| <= |AllNames(runs)|
    ensures AllRead(runs) == AllNames(runs) <==> forall r :: r in runs ==> Whole(r)
  {
    if runs != [] {
      var r, rest := runs[0], runs[1..];
      HeadOrTail(runs);
      RunRead(r);
      UnmixedRead(rest);
      if Whole(r) && AllRead(rest) != AllNames(rest) {
        CancelLeft(Read(r), AllRead(rest), AllNames(rest));
      }
    }
  }

  predicate NoDigits(words: seq<string>) {
    forall w :: w in words ==> !HasDigit(w)
  }

  lemma {:induction false} PendingHasNoDigit(text: string)
    ensures forall i :: 0 <= i < |Pending(text)| ==> IsWordChar(Pending(text)[i])
  {
    if text != "" {
      PendingHasNoDigit(text[..|text| - 1]);
    }
  }

  lemma {:induction false} WordHasNoDigit(token: string, depth: nat)
    requires forall i :: 0 <= i < |token| ==> IsWordChar(token[i])
    ensures NoDigits(Word(token, depth))
  {
  }

  lemma {:induction false} DoneHasNoDigit(text: string)
    ensures NoDigits(Done(text))
  {
    if text != "" {
      var init := text[..|text| - 1];
      DoneHasNoDigit(init);
      PendingHasNoDigit(init);
      WordHasNoDigit(Pending(init), 0);
    }
  }

  lemma {:induction false} ReadHasNoDigit(runs: seq<WordRun>)
    ensures NoDigits(AllRead(runs))
  {
    if runs != [] {
      var text := Glued(runs[0].pieces);
      DoneHasNoDigit(text);
      PendingHasNoDigit(text);
      WordHasNoDigit(Pending(text), 0);
      ReadHasNoDigit(runs[1..]);
    }
  }

  lemma {:induction false} MixedIsName(pieces: seq<string>, p: string)
    requires p in pieces && HasLetter(p) && HasDigit(p)
    ensures ToUpper(p) in Names(pieces) && HasDigit(ToUpper(p))
  {
    var init, last := pieces[..|pieces| - 1], pieces[|pieces| - 1];
    if p != last {
      assert p in init;
      MixedIsName(init, p);
    } else {
      var i :| 0 <= i < |p| && IsDigit(p[i]);
      assert ToUpper(p)[i] == p[i];
    }
  }

  lemma {:induction false} NameIsAmongAll(runs: seq<WordRun>, r: WordRun, name: string)
    requires r in runs && name in Names(r.pieces)
    ensures name in AllNames(runs)
  {
    if r != runs[0] {
      HeadOrTail(runs);
      NameIsAmongAll(runs[1..], r, name);
    }
  }

  lemma {:induction false} SameExactlyWhen(runs: seq<WordRun>)
    requires forall r :: r in runs ==> WellMade(r)
    ensures AllRead(runs) == AllNames(runs) <==> forall r :: r in runs ==> Whole(r)
  {
    if forall r :: r in runs ==> Unmixed(r.pieces) {
      UnmixedRead(runs);
    } else {
      var r :| r in runs && !Unmixed(r.pieces);
      var p :| p in r.pieces && HasLetter(p) && HasDigit(p);
      MixedIsName(r.pieces, p);
      NameIsAmongAll(runs, r, ToUpper(p));
      ReadHasNoDigit(runs);
    }
  }

  // ---------------------------------------------------------------- statements hold no comments

  predicate CommentFree(s: string, m: Mode)
    decreases |s|
  {
    s == "" || (!(m.Plain? && (StartsLine(s) || StartsBlock(s)))
                && var (n, m') := Advance(s, m); CommentFree(s[n..], m'))
  }

  lemma {:induction false} StrippedIsCommentFree(s: string, m: Mode)
    ensures CommentFree(Strip(s, m), m)
    decreases |s|
  {
    var t := Strip(s, m);
    if s == "" {
    } else if m.Plain? && (StartsLine(s) || StartsBlock(s)) {
      var rest := if StartsLine(s) then AfterLine(s[2..]) else AfterBlock(s[2..]);
      StrippedIsCommentFree(rest, Plain);
      assert t[1..] == Strip(rest, Plain);
    } else {
      var (n, m') := Advance(s, m);
      StripKeepsAdvance(s, m);
      StrippedIsCommentFree(s[n..], m');
      if m.Plain? && |s| > 1 {
        StripHead(s[1..], m');
        assert t[1] == t[1..][0];
      }
    }
  }

  lemma {:induction false} PrefixIsCommentFree(s: string, m: Mode, k: nat)
    requires CommentFree(s, m) && k <= |s| && (k < |s| ==> !IsQuote(s[k]))
    ensures CommentFree(s[..k], m)
    decreases |s|
  {
    if k > 0 {
      var (n, m') := Advance(s, m);
      assert Advance(s[..k], m) == (n, m');
      PrefixIsCommentFree(s[n..], m', k - n);
      assert s[..k][n..] == s[n..][..k - n];
    }
  }

  lemma {:induction false} BlanksAreSkipped(s: string, k: nat)
    requires CommentFree(s, Plain) && k <= |s| && forall i :: 0 <= i < k ==> IsSpace(s[i])
    ensures CommentFree(s[k..], Plain)
  {
    if k > 0 {
      BlanksAreSkipped(s[1..], k - 1);
      assert s[1..][k - 1..] == s[k..];
    }
  }

  lemma {:induction false} TrimmedIsCommentFree(s: string)
    requires CommentFree(s, Plain)
    ensures CommentFree(Trim(s), Plain)
  {
    var k := TrimLeftIsSuffix(s);
    BlanksAreSkipped(s, k);
    var n := TrimRightIsPrefix(TrimLeft(s));
    PrefixIsCommentFree(TrimLeft(s), Plain, n);
  }

  lemma {:induction false} AfterCutIsCommentFree(s: string, m: Mode, k: nat)
    requires CommentFree(s, m) && k == FirstCut(s, m) < |s|
    ensures CommentFree(s[k + 1..], Plain)
    decreases |s|
  {
    if !(m.Plain? && s[0] == ';') {
      var next := Advance(s, m);
      var n := next.0;
      AfterCutIsCommentFree(s[n..], next.1, k - n);
      Slices(s, n, k - n + 1, "");
    }
  }

  lemma {:induction false} SplitIsCommentFree(s: string)
    requires CommentFree(s, Plain)
    ensures forall q :: q in Split(s, "", Plain) ==> CommentFree(q, Plain)
    decreases |s|
  {
    var n := FirstCut(s, Plain);
    SplitAtFirstCut(s, "", Plain);
    assert "" + s[..n] == s[..n];
    PrefixIsCommentFree(s, Plain, n);
    TrimmedIsCommentFree(s[..n]);
    if n < |s| {
      AfterCutIsCommentFree(s, Plain, n);
      SplitIsCommentFree(s[n + 1..]);
    }
  }

  lemma {:induction false} CommentFreeIsStripped(s: string, m: Mode)
    requires CommentFree(s, m)
    ensures Strip(s, m) == s
    decreases |s|
  {
    if s != "" {
      var (n, m') := Advance(s, m);
      CommentFreeIsStripped(s[n..], m');
      assert s[..n] + s[n..] == s;
    }
  }

  lemma {:induction false} LiteralIsPassed(s: string, q: QuoteMark)
    requires CommentFree(s, Quoted(q))
    ensures CommentFree(s[LiteralLength(s, q)..], Plain)
    decreases |s|
  {
    if s != "" {
      var (n, m') := Advance(s, Quoted(q));
      if m'.Quoted? {
        LiteralIsPassed(s[n..], q);
        Slices(s, n, LiteralLength(s[n..], q), "");
        assert LiteralLength(s, q) == n + LiteralLength(s[n..], q);
      }
    }
  }

  lemma {:induction false} CommentFreeHasNoResidue(s: string)
    requires CommentFree(s, Plain)
    ensures Residue(Lex(s)) == ""
    decreases |s|
  {
    if s != "" {
      var t := FirstToken(s);
      var rest := s[|Source(t)|..];
      LexStep(s);
      if IsQuote(s[0]) {
        LiteralIsPassed(s[1..], s[0]);
        Slices(s, 1, LiteralLength(s[1..], s[0]), "");
      }
      if rest != "" {
        CommentFreeHasNoResidue(rest);
      } else {
        assert Lex(s) == [t];
      }
    }
  }

  lemma {:induction false} StatementIsCommentFree(raw: string, q: string)
    requires q in StatementsRead(raw)
    ensures Strip(q, Plain) == q && Residue(Lex(q)) == ""
  {
    Fusion(raw, "");
    StrippedIsCommentFree(raw, Plain);
    SplitIsCommentFree(Strip(raw, Plain));
    CommentFreeIsStripped(q, Plain);
    CommentFreeHasNoResidue(q);
  }

  // ---------------------------------------------------------------- what is read of a statement

  /**
   * The finder reads exactly the words of a statement if and only if every run of them is whole: at depth zero no
   * identifier holds a digit, none runs into a parenthesis or a literal that is never closed, at once or behind other
   * literals, and none is joined to another one by literals alone. Without digits it never reads more words than there
   * are.
   */
  lemma {:induction false} WordsExactlyWhen(raw: string, q: string)
    requires q in StatementsRead(raw)
    ensures TopWords(q, 0, "", Plain) == ReferenceWords(Lex(q), 0, "") <==> forall r :: r in RunsOf(q) ==> Whole(r)
    ensures (forall r :: r in RunsOf(q) ==> Unmixed(r.pieces)) ==>
              |TopWords(q, 0, "", Plain)| <= |ReferenceWords(Lex(q), 0, "")|
  {
    WordsByRuns(raw, q);
    RunsAreWellMade(Lex(q), 0, [], "");
    SameExactlyWhen(RunsOf(q));
    if forall r :: r in RunsOf(q) ==> Unmixed(r.pieces) {
      UnmixedRead(RunsOf(q));
    }
  }

  lemma {:induction false} WordsByRuns(raw: string, q: string)
    requires q in StatementsRead(raw)
    ensures TopWords(q, 0, "", Plain) == AllRead(RunsOf(q))
    ensures ReferenceWords(Lex(q), 0, "") == AllNames(RunsOf(q))
  {
    StatementIsCommentFree(raw, q);
    FinderReadsTokens(q, 0, "");
    ScannedByRuns(Lex(q), 0, [], "");
    ReferenceByRuns(Lex(q), 0, [], "");
    NilFirst("");
    NilFirst(TopWords(q, 0, "", Plain));
    NilFirst(ReferenceWords(Lex(q), 0, ""));
  }

  // ---------------------------------------------------------------- the verb

  predicate HasVerb(words: seq<string>) {
    exists i :: 0 <= i < |words| && IsDmlVerb(words[i])
  }

  /** The words read of the run hold a verb exactly when its names do, and then the same one first. */
  predicate ReadsRight(r: WordRun) {
    var read, names := Read(r), Names(r.pieces);
    (HasVerb(read) <==> HasVerb(names)) && (HasVerb(names) ==> FirstDmlVerb(read) == FirstDmlVerb(names))
  }

  /** The runs from the first one on that is not read right, unless a verb comes before it. */
  function Trouble(runs: seq<WordRun>): seq<WordRun> {
    if runs == [] then []
    else if !ReadsRight(runs[0]) then runs
    else if HasVerb(Names(runs[0].pieces)) then []
    else Trouble(runs[1..])
  }

  lemma {:induction false} FirstVerbOf(a: seq<string>, b: seq<string>)
    ensures FirstDmlVerb(a + b) == FirstDmlVerb(if HasVerb(a) then a else b)
  {
    if a == [] {
      assert a + b == b;
    } else if !IsDmlVerb(a[0]) {
      FirstVerbOf(a[1..], b);
      assert (a + b)[1..] == a[1..] + b;
      assert HasVerb(a) <==> HasVerb(a[1..]) by {
        if i :| 0 <= i < |a| && IsDmlVerb(a[i]) {
          assert IsDmlVerb(a[1..][i - 1]);
        }
      }
    } else {
      assert HasVerb(a) && (a + b)[0] == a[0];
    }
  }

  /** The verb read from a run that is not read right, or else behind it. */
  function VerbRead(t: seq<WordRun>): string
    requires t != []
  {
    FirstDmlVerb(if HasVerb(Read(t[0])) then Read(t[0]) else AllRead(t[1..]))
  }

  /** The verb named in it, or else behind it. */
  function VerbNamed(t: seq<WordRun>): string
    requires t != []
  {
    FirstDmlVerb(if HasVerb(Names(t[0].pieces)) then Names(t[0].pieces) else AllNames(t[1..]))
  }

  /**
   * Without trouble the verb read is the first verb named. With trouble both are determined by the first run that is
   * not read right and by what comes behind it.
   */
  lemma {:induction false} VerbByRuns(runs: seq<WordRun>)
    ensures var t := Trouble(runs);
            if t == [] then FirstDmlVerb(AllRead(runs)) == FirstDmlVerb(AllNames(runs))
            else FirstDmlVerb(AllRead(runs)) == VerbRead(t) && FirstDmlVerb(AllNames(runs)) == VerbNamed(t)
  {
    if runs != [] {
      FirstVerbOf(Read(runs[0]), AllRead(runs[1..]));
      FirstVerbOf(Names(runs[0].pieces), AllNames(runs[1..]));
      VerbByRuns(runs[1..]);
    }
  }

  function NameChars(s: string): string {
    if s != "" && IsNameChar(s[0]) then [s[0]] + NameChars(s[1..]) else ""
  }

  /** The identifier that a statement starts with. */
  function LeadingName(q: string): string {
    NameChars(TrimLeft(q))
  }

  /** The verb of a statement by its own words: its leading identifier when that is known, the first verb after WITH. */
  function ReferenceVerb(q: string): string {
    var lead := ToUpper(LeadingName(q));
    if lead == "WITH" then FirstDmlVerb(ReferenceWords(Lex(q), 0, ""))
    else if IsKnownVerb(lead) then lead
    else "UNKNOWN"
  }

  lemma {:induction false} LettersAreName(s: string)
    ensures Letters(s) != NameChars(s) ==>
              exists i :: 0 <= i < |NameChars(s)| && IsNameChar(NameChars(s)[i]) && !IsLetter(NameChars(s)[i])
  {
    if s != "" && IsNameChar(s[0]) {
      if IsLetter(s[0]) {
        LettersAreName(s[1..]);
        if Letters(s) != NameChars(s) {
          var i :| 0 <= i < |NameChars(s[1..])| && IsNameChar(NameChars(s[1..])[i]) && !IsLetter(NameChars(s[1..])[i]);
          assert NameChars(s)[i + 1] == NameChars(s[1..])[i];
        }
      } else {
        assert NameChars(s)[0] == s[0];
      }
    }
  }

  lemma {:induction false} KnownIsLetters(w: string)
    requires IsKnownVerb(w)
    ensures forall i :: 0 <= i < |w| ==> 'A' <= w[i] <= 'Z'
  {
  }

  /** An identifier with a digit or an underscore in it is no known verb. */
  lemma {:induction false} MixedIsUnknown(name: string, i: nat)
    requires i < |name| && IsNameChar(name[i]) && !IsLetter(name[i])
    ensures !IsKnownVerb(ToUpper(name))
  {
    assert ToUpper(name)[i] == name[i];
    if IsKnownVerb(ToUpper(name)) {
      KnownIsLetters(ToUpper(name));
    }
  }

  /**
   * The verb of a statement is that of its own words if and only if its first word is a whole identifier, or no verb
   * when it is not, and behind WITH there is no trouble, or what is read with it happens to be what is named.
   */
  lemma {:induction false} VerbExactlyWhen(raw: string, q: string)
    requires q in StatementsRead(raw)
    ensures var word, t := ToUpper(LeadingWord(q)), Trouble(RunsOf(q));
            StatementVerb(q) == ReferenceVerb(q) <==>
              if LeadingWord(q) != LeadingName(q) then !IsKnownVerb(word)
              else word == "WITH" ==> t == [] || VerbRead(t) == VerbNamed(t)
  {
    if LeadingWord(q) != LeadingName(q) {
      LongerLead(q);
    } else if ToUpper(LeadingWord(q)) == "WITH" {
      WordsByRuns(raw, q);
      VerbByRuns(RunsOf(q));
    }
  }

  lemma {:induction false} LongerLead(q: string)
    requires LeadingWord(q) != LeadingName(q)
    ensures ReferenceVerb(q) == "UNKNOWN"
  {
    LettersAreName(TrimLeft(q));
    var name := LeadingName(q);
    var i :| 0 <= i < |name| && IsNameChar(name[i]) && !IsLetter(name[i]);
    MixedIsUnknown(name, i);
  }

  /** In particular behind WITH, when every run is read right up to the first verb. */
  lemma {:induction false} VerbIsRight(raw: string, q: string)
    requires q in StatementsRead(raw) && LeadingWord(q) == LeadingName(q) && Trouble(RunsOf(q)) == []
    ensures StatementVerb(q) == ReferenceVerb(q)
  {
    VerbExactlyWhen(raw, q);
  }
}
