/** Renaming commutes with lexing: the tokens of the renamed text are the renamed tokens. */
module RenameLexing {
  import opened Chars
  import opened Text
  import opened Lexer
  import opened LexerTheorems
  import opened Rename
  import opened RenameTheorems
  import opened RenameApply
  import opened RenamePieces
  import opened RenameTokens
  import opened RenameComments

  // ---------------------------------------------------------------- lexing with any scanner

  /** Whether the tokens are renamed, r being those of s: its comments are closed, or its end stands it. */
  ghost predicate TextFits(s: string, r: Result, o: string, n: string)
  {
    AllClosed(r) || o == n || EndKept(EndRun(s), o, n)
  }

  /** What is asked of the scanner for one piece of the original and of the replaced text. */
  ghost predicate StepKept(next: Scanner, s: string, glued: bool, pos: Pos, pos': Pos, o: string, n: string)
  {
    s != "" && IsAscii(s) && pos.line == pos'.line && (glued ==> IsIdentifierStart(s[0])) && !Unclosed(s) ==>
      var p, s' := next(s, pos), ReplacedFrom(s, glued, o, n);
      && s' != ""
      && PieceKept(s, glued, p, s', next(s', pos'), o, n)
      && (p.Lexed? && p.len <= |s| ==> ClosedLexeme(p.kind, s[..p.len]))
      && (glued ==> p.Lexed?)
  }

  ghost predicate AllStepsKept(next: Scanner, o: string, n: string)
  {
    forall s, glued, pos, pos' :: StepKept(next, s, glued, pos, pos', o, n)
  }

  /** The same for a comment that is left open. */
  ghost predicate EndKnown(next: Scanner, s: string, offset: nat, pos: Pos, offset': nat, pos': Pos, o: string,
      n: string)
  {
    Unclosed(s) && pos.line == pos'.line ==>
      var r, r' := LexWith(next, s, offset, pos), LexWith(next, Replaced(s, o, n), offset', pos');
      r.Tokens? && !AllClosed(r) && Known(r, r', false, TextFits(s, r, o, n), o, n)
  }

  ghost predicate AllEndsKnown(next: Scanner, o: string, n: string)
  {
    forall s, offset, pos, offset', pos' :: EndKnown(next, s, offset, pos, offset', pos', o, n)
  }

  /** What lexing s from here on, renamed and not, comes to. */
  ghost predicate Answered(next: Scanner, s: string, glued: bool, offset: nat, pos: Pos, s': string, offset': nat,
      pos': Pos, o: string, n: string)
  {
    var r, r' := LexWith(next, s, offset, pos), LexWith(next, s', offset', pos');
    && (AllClosed(r) || HasOther(s))
    && Known(r, r', glued, TextFits(s, r, o, n), o, n)
  }

  lemma TakeStep(next: Scanner, s: string, glued: bool, pos: Pos, pos': Pos, o: string, n: string)
    returns (p: Piece, s': string, p': Piece)
    requires AllStepsKept(next, o, n)
    requires s != "" && IsAscii(s) && pos.line == pos'.line && (glued ==> IsIdentifierStart(s[0])) && !Unclosed(s)
    ensures p == next(s, pos) && s' == ReplacedFrom(s, glued, o, n) && s' != "" && p' == next(s', pos')
    ensures PieceKept(s, glued, p, s', p', o, n)
    ensures (p.Lexed? && p.len <= |s| ==> ClosedLexeme(p.kind, s[..p.len])) && (glued ==> p.Lexed?)
  {
    assert StepKept(next, s, glued, pos, pos', o, n);
    p, s' := next(s, pos), ReplacedFrom(s, glued, o, n);
    p' := next(s', pos');
  }

  /** What the pieces kept at the head of both texts say about the rest of them. */
  lemma RestKept(s: string, glued: bool, p: Piece, s': string, p': Piece, o: string, n: string)
    returns (rest: string, rest': string, g: bool)
    requires PieceKept(s, glued, p, s', p', o, n) && IsAscii(s) && p.len <= |s|
    ensures 0 < p.len && 0 < p'.len <= |s'| && rest == s[p.len..] && rest' == s'[p'.len..] && (g <==> GluesNext(p, s))
    ensures IsAscii(rest) && |rest| < |s| && rest' == ReplacedFrom(rest, g, o, n)
    ensures p.pos.line == p'.pos.line && (g ==> rest != "" && IsIdentifierStart(rest[0]))
  {
    rest, rest', g := s[p.len..], s'[p'.len..], GluesNext(p, s);
  }

  /** What is asked about the whole text is asked about what is behind its first piece. */
  lemma FitsBehind(s: string, k: nat, r: Result, rest: Result, o: string, n: string)
    requires k <= |s| && (AllClosed(r) <==> AllClosed(rest)) && (AllClosed(rest) || HasOther(s[k..]))
    ensures (AllClosed(r) || HasOther(s)) && (TextFits(s, r, o, n) <==> TextFits(s[k..], rest, o, n))
  {
    if !AllClosed(rest) {
      OtherBehind(s, k);
    }
  }

  lemma AnswerBehind(next: Scanner, s: string, glued: bool, offset: nat, pos: Pos, p: Piece, s': string, offset': nat,
      pos': Pos, p': Piece, rest: string, rest': string, g: bool, o: string, n: string)
    requires ScansWords(next) && s != "" && s' != "" && pos.line == pos'.line && next(s, pos) == p
    requires next(s', pos') == p'
    requires PieceKept(s, glued, p, s', p', o, n) && 0 < p.len <= |s| && 0 < p'.len <= |s'|
    requires (p.Lexed? ==> ClosedLexeme(p.kind, s[..p.len])) && (glued ==> p.Lexed?)
    requires rest == s[p.len..] && rest' == s'[p'.len..] && (g <==> GluesNext(p, s))
    requires Answered(next, rest, g, offset + p.len, p.pos, rest', offset' + p'.len, p'.pos, o, n)
    ensures Answered(next, s, glued, offset, pos, s', offset', pos', o, n)
  {
    var q, q' := LexWith(next, rest, offset + p.len, p.pos), LexWith(next, rest', offset' + p'.len, p'.pos);
    WithTurn(next, s, offset, pos, p, q);
    WithTurn(next, s', offset', pos', p', q');
    if p.Lexed? {
      var t, t' := HeadToken(p, s, offset, pos), HeadToken(p', s', offset', pos');
      GluesAreGlued(next, s, offset, pos, p);
      ClosedHead(t, q);
      KnownHead(t, t', q, q', glued, g, TextFits(rest, q, o, n), o, n);
    }
    FitsBehind(s, p.len, LexWith(next, s, offset, pos), q, o, n);
  }

  lemma AnswerPanic(next: Scanner, s: string, glued: bool, offset: nat, pos: Pos, s': string, offset': nat,
      pos': Pos, o: string, n: string)
    requires s != "" && s' != "" && next(s, pos).len > |s| && next(s', pos').len > |s'|
    ensures Answered(next, s, glued, offset, pos, s', offset', pos', o, n)
  {
  }

  lemma AnswerEmpty(next: Scanner, glued: bool, offset: nat, pos: Pos, offset': nat, pos': Pos, o: string, n: string)
    ensures Answered(next, "", glued, offset, pos, "", offset', pos', o, n)
  {
  }

  lemma AnswerUnclosed(next: Scanner, s: string, glued: bool, offset: nat, pos: Pos, s': string, offset': nat,
      pos': Pos, o: string, n: string)
    requires AllEndsKnown(next, o, n) && Unclosed(s) && pos.line == pos'.line && !glued
    requires s' == ReplacedFrom(s, glued, o, n)
    ensures Answered(next, s, glued, offset, pos, s', offset', pos', o, n)
  {
    assert EndKnown(next, s, offset, pos, offset', pos', o, n);
    assert !IsIdentifierPart(s[0]);
  }

  /** Lexing and renaming commute exactly if the text fits, panics included, piece by piece. */
  lemma {:induction false} WithRenamed(next: Scanner, s: string, glued: bool, offset: nat, pos: Pos, offset': nat,
      pos': Pos, o: string, n: string)
    requires ScansWords(next) && AllStepsKept(next, o, n) && AllEndsKnown(next, o, n)
    requires IsAscii(s) && pos.line == pos'.line && (glued ==> s != "" && IsIdentifierStart(s[0]))
    ensures Answered(next, s, glued, offset, pos, ReplacedFrom(s, glued, o, n), offset', pos', o, n)
    decreases |s|
  {
    if s == "" {
      AnswerEmpty(next, glued, offset, pos, offset', pos', o, n);
    } else if Unclosed(s) {
      AnswerUnclosed(next, s, glued, offset, pos, ReplacedFrom(s, glued, o, n), offset', pos', o, n);
    } else {
      var p, s', p' := TakeStep(next, s, glued, pos, pos', o, n);
      if p.len <= |s| {
        var rest, rest', g := RestKept(s, glued, p, s', p', o, n);
        WithRenamed(next, rest, g, offset + p.len, p.pos, offset' + p'.len, p'.pos, o, n);
        AnswerBehind(next, s, glued, offset, pos, p, s', offset', pos', p', rest, rest', g, o, n);
      } else {
        AnswerPanic(next, s, glued, offset, pos, s', offset', pos', o, n);
      }
    }
  }

  // ---------------------------------------------------------------- the Java scanner

  lemma JavaStepKept(kw: set<string>, s: string, glued: bool, pos: Pos, pos': Pos, o: string, n: string)
    requires Names(kw, o, n)
    ensures StepKept(JavaScanner(kw), s, glued, pos, pos', o, n)
  {
    if s != "" && pos.line == pos'.line && (glued ==> IsIdentifierStart(s[0])) && !Unclosed(s) {
      AnyPieceKept(kw, s, glued, pos, pos', o, n);
      PieceClosed(kw, s, pos);
    }
  }

  lemma JavaEndKnown(kw: set<string>, s: string, offset: nat, pos: Pos, offset': nat, pos': Pos, o: string, n: string)
    requires Names(kw, o, n)
    ensures EndKnown(JavaScanner(kw), s, offset, pos, offset', pos', o, n)
  {
    if Unclosed(s) && pos.line == pos'.line {
      UnclosedKnown(kw, s, offset, pos, offset', pos', o, n);
    }
  }

  lemma JavaKept(kw: set<string>, o: string, n: string)
    requires Names(kw, o, n)
    ensures AllStepsKept(JavaScanner(kw), o, n) && AllEndsKnown(JavaScanner(kw), o, n)
  {
    forall s, glued, pos, pos'
      ensures StepKept(JavaScanner(kw), s, glued, pos, pos', o, n)
    {
      JavaStepKept(kw, s, glued, pos, pos', o, n);
    }
    forall s, offset, pos, offset', pos'
      ensures EndKnown(JavaScanner(kw), s, offset, pos, offset', pos', o, n)
    {
      JavaEndKnown(kw, s, offset, pos, offset', pos', o, n);
    }
  }

  lemma JavaRenamed(kw: set<string>, text: string, o: string, n: string)
    requires Names(kw, o, n) && IsAscii(text)
    ensures var r, r' := LexFrom(kw, text, 0, Pos(0, 0)), LexFrom(kw, Replaced(text, o, n), 0, Pos(0, 0));
      Known(r, r', false, TextFits(text, r, o, n), o, n)
  {
    JavaKept(kw, o, n);
    JavaScansWords(kw);
    ReplacedPlain(text, o, n);
    LexIsWith(kw, text, 0, Pos(0, 0));
    LexIsWith(kw, Replaced(text, o, n), 0, Pos(0, 0));
    WithRenamed(JavaScanner(kw), text, false, 0, Pos(0, 0), 0, Pos(0, 0), o, n);
  }

  // ---------------------------------------------------------------- token by token

  /** Token k is the tail of a word that begins with a number. */
  predicate GluedAt(ts: seq<Token>, k: nat)
    requires k < |ts|
  {
    k > 0 && Glued(ts[k - 1], ts[k])
  }

  /** Token k of us is token k of ts renamed; `glued` is for the first of them. */
  ghost predicate RenamedAt(ts: seq<Token>, us: seq<Token>, glued: bool, k: nat, o: string, n: string)
    requires k < |ts| == |us|
  {
    RenamedToken(ts[k], us[k], if k == 0 then glued else GluedAt(ts, k), o, n)
  }

  lemma RenamedLater(ts: seq<Token>, us: seq<Token>, glued: bool, k: nat, o: string, n: string)
    requires 0 < k < |ts| == |us|
    ensures RenamedAt(ts, us, glued, k, o, n) <==> RenamedAt(ts[1..], us[1..], GluedAt(ts, 1), k - 1, o, n)
  {
    assert k > 1 ==> ts[1..][k - 1 - 1] == ts[k - 1];
  }

  lemma {:induction false} RenamedEach(ts: seq<Token>, us: seq<Token>, glued: bool, o: string, n: string)
    requires |ts| == |us|
    ensures Renamed(ts, us, glued, o, n) <==> forall k :: 0 <= k < |ts| ==> RenamedAt(ts, us, glued, k, o, n)
    decreases |ts|
  {
    if ts != [] {
      var g := |ts| > 1 && Glued(ts[0], ts[1]);
      RenamedEach(ts[1..], us[1..], g, o, n);
      forall k | 0 < k < |ts|
        ensures RenamedAt(ts, us, glued, k, o, n) <==> RenamedAt(ts[1..], us[1..], g, k - 1, o, n)
      {
        RenamedLater(ts, us, glued, k, o, n);
      }
      assert RenamedAt(ts, us, glued, 0, o, n) <==> RenamedToken(ts[0], us[0], glued, o, n);
      forall k | 0 <= k < |ts[1..]|
        ensures RenamedAt(ts[1..], us[1..], g, k, o, n) <==> RenamedAt(ts, us, glued, k + 1, o, n)
      {
        RenamedLater(ts, us, glued, k + 1, o, n);
      }
    }
  }

  /** The rename table and the lexer's table agree where both see the same characters. */
  ghost predicate AgreesOnAscii(part: char -> bool)
  {
    forall c :: IsAsciiChar(c) ==> (part(c) <==> IsIdentifierPart(c))
  }

  lemma {:induction false} SameRuns(s: string, part: char -> bool)
    requires IsAscii(s) && AgreesOnAscii(part)
    ensures RunLen(s, part) == RunLen(s, IsIdentifierPart)
    decreases |s|
  {
    if s != "" {
      SameRuns(s[1..], part);
    }
  }

  lemma {:induction false} SameReplacement(s: string, o: string, n: string, part: char -> bool)
    requires IsAscii(s) && AgreesOnAscii(part)
    ensures ReplaceWords(s, o, n, part) == Replaced(s, o, n)
    decreases |s|
  {
    if s != "" {
      SameRuns(s, part);
      if part(s[0]) {
        SameReplacement(s[RunLen(s, part)..], o, n, part);
      } else {
        SameReplacement(s[1..], o, n, part);
      }
    }
  }

  /** us are the tokens ts renamed: kinds and lines kept, each lexeme replaced word by word
      unless it is the tail of a word that begins with a number. */
  ghost predicate RenamedTokens(ts: seq<Token>, us: seq<Token>, o: string, n: string)
  {
    |us| == |ts| && forall k :: 0 <= k < |ts| ==> RenamedToken(ts[k], us[k], GluedAt(ts, k), o, n)
  }

  /** No token spelled o hangs on to the last digit of a number. */
  ghost predicate NoGlued(ts: seq<Token>, o: string)
  {
    forall k :: 0 <= k < |ts| && GluedAt(ts, k) ==> ts[k].lexeme != o
  }

  ghost predicate AllReplaced(ts: seq<Token>, us: seq<Token>, o: string, n: string)
  {
    |us| == |ts| && forall k :: 0 <= k < |ts| ==> us[k].lexeme == Replaced(ts[k].lexeme, o, n)
  }

  lemma RenamedIsTokenwise(ts: seq<Token>, us: seq<Token>, o: string, n: string)
    ensures Renamed(ts, us, false, o, n) <==> RenamedTokens(ts, us, o, n)
  {
    if |ts| == |us| {
      RenamedEach(ts, us, false, o, n);
      assert forall k :: 0 <= k < |ts| ==>
          (RenamedAt(ts, us, false, k, o, n) <==> RenamedToken(ts[k], us[k], GluedAt(ts, k), o, n));
    }
  }

  lemma ReplacedExactly(ts: seq<Token>, us: seq<Token>, o: string, n: string)
    requires IsIdentifier(o) && RenamedTokens(ts, us, o, n) && WordsSpelled(Tokens(ts))
    ensures AllReplaced(ts, us, o, n) <==> o == n || NoGlued(ts, o)
  {
    forall k | 0 <= k < |ts|
      ensures us[k].lexeme == Replaced(ts[k].lexeme, o, n) <==> o == n || (GluedAt(ts, k) ==> ts[k].lexeme != o)
    {
      assert RenamedToken(ts[k], us[k], GluedAt(ts, k), o, n);
      if GluedAt(ts, k) {
        ReplacedAlone(ts[k].lexeme, o, n);
      }
    }
  }

  /** Renaming a document and lexing it is lexing it and renaming the tokens, exactly if every block comment is
      closed or the word at the end of the open one keeps apart from the old name; and then the lexemes are all
      replaced exactly if no token spelled like the old name is glued to a number. */
  lemma RenameCommutesWithLexing(kw: set<string>, text: string, o: string, n: string, part: char -> bool)
    requires Names(kw, o, n) && IsAscii(text) && AgreesOnAscii(part) && IsWord(o, part)
    ensures var r := LexFrom(kw, text, 0, Pos(0, 0));
            var r' := LexFrom(kw, ApplyAll(text, RenameEdits(text, o, n, part)), 0, Pos(0, 0));
      && (r.Panic? <==> r'.Panic?)
      && (r.Tokens? ==>
            && (RenamedTokens(r.tokens, r'.tokens, o, n) <==> AllClosed(r) || o == n || EndKept(EndRun(text), o, n))
            && (RenamedTokens(r.tokens, r'.tokens, o, n) ==>
                  (AllReplaced(r.tokens, r'.tokens, o, n) <==> o == n || NoGlued(r.tokens, o))))
  {
    RenameReplacesWords(text, o, n, part);
    SameReplacement(text, o, n, part);
    JavaRenamed(kw, text, o, n);
    LexedWordsSpelled(kw, text);
    var r, r' := LexFrom(kw, text, 0, Pos(0, 0)), LexFrom(kw, Replaced(text, o, n), 0, Pos(0, 0));
    if r.Tokens? {
      RenamedIsTokenwise(r.tokens, r'.tokens, o, n);
      if RenamedTokens(r.tokens, r'.tokens, o, n) {
        ReplacedExactly(r.tokens, r'.tokens, o, n);
      }
    }
  }
}
