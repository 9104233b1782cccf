/** What it means that tokens are renamed, and lexing with any scanner, so that what is asked of a
    scanner can be said apart from the Java one. */
module RenameTokens {
  import opened Chars
  import opened Text
  import opened Lexer
  import opened RenameTheorems
  import opened RenamePieces

  // ---------------------------------------------------------------- renamed tokens

  /** A lexeme that is no block comment, or one that was closed before the text ran out. */
  predicate ClosedLexeme(kind: Kind, lexeme: string)
  {
    kind == Comment && |lexeme| >= 2 && lexeme[1] == '*' ==> Closes(lexeme[2..])
  }

  predicate Closed(t: Token) { ClosedLexeme(t.kind, t.lexeme) }

  ghost predicate AllClosed(r: Result)
  {
    r.Tokens? ==> forall k :: 0 <= k < |r.tokens| ==> Closed(r.tokens[k])
  }

  /** b is the tail of the word in which the number a ends. */
  predicate Glued(a: Token, b: Token)
  {
    && a.kind == Number && a.end == b.offset && a.lexeme != "" && IsDigit(a.lexeme[|a.lexeme| - 1])
    && (b.kind == Identifier || b.kind == Keyword)
  }

  /** u is t renamed: kind and line kept, the lexeme replaced word by word unless t hangs on to a number. */
  ghost predicate RenamedToken(t: Token, u: Token, glued: bool, o: string, n: string)
  {
    u.kind == t.kind && u.line == t.line && u.lexeme == if glued then t.lexeme else Replaced(t.lexeme, o, n)
  }

  /** us are the tokens ts renamed, from left to right; `glued` is for the first of them. */
  ghost predicate Renamed(ts: seq<Token>, us: seq<Token>, glued: bool, o: string, n: string)
  {
    && |ts| == |us|
    && (ts != [] ==>
          && RenamedToken(ts[0], us[0], glued, o, n)
          && Renamed(ts[1..], us[1..], |ts| > 1 && Glued(ts[0], ts[1]), o, n))
  }

  /** Both results panic, or neither does and the second holds the renamed tokens of the first exactly if `fits`. */
  ghost predicate Known(r: Result, r': Result, glued: bool, fits: bool, o: string, n: string)
  {
    if r.Panic? then r'.Panic? else r'.Tokens? && (Renamed(r.tokens, r'.tokens, glued, o, n) <==> fits)
  }

  lemma RenamedHead(t: Token, ts: seq<Token>, u: Token, us: seq<Token>, glued: bool, g: bool, o: string, n: string)
    requires g <==> ts != [] && Glued(t, ts[0])
    ensures Renamed([t] + ts, [u] + us, glued, o, n) <==> RenamedToken(t, u, glued, o, n) && Renamed(ts, us, g, o, n)
  {
    assert ([t] + ts)[1..] == ts && ([u] + us)[1..] == us;
  }

  lemma KnownHead(t: Token, t': Token, r: Result, r': Result, glued: bool, g: bool, fits: bool, o: string, n: string)
    requires RenamedToken(t, t', glued, o, n) && Known(r, r', g, fits, o, n)
    requires r.Tokens? ==> (g <==> |r.tokens| > 0 && Glued(t, r.tokens[0]))
    ensures Known(Prepend(t, r), Prepend(t', r'), glued, fits, o, n)
  {
    if r.Tokens? {
      RenamedHead(t, r.tokens, t', r'.tokens, glued, g, o, n);
    }
  }

  lemma ClosedHead(t: Token, r: Result)
    ensures r.Tokens? ==> (AllClosed(Prepend(t, r)) <==> Closed(t) && AllClosed(r))
    ensures r.Panic? ==> AllClosed(Prepend(t, r))
  {
    if r.Tokens? {
      var ts := [t] + r.tokens;
      assert ts[0] == t;
      assert forall k :: 0 <= k < |r.tokens| ==> ts[k + 1] == r.tokens[k];
    }
  }

  // ---------------------------------------------------------------- lexing with any scanner

  function HeadToken(p: Piece, s: string, offset: nat, pos: Pos): Token
    requires p.Lexed? && p.len <= |s|
  {
    Token(p.kind, s[..p.len], pos.line, pos.column, offset, offset + p.len)
  }

  /** The outer loop with any scanner for its pieces; every lexeme is its slice. */
  function LexWith(next: Scanner, s: string, offset: nat, pos: Pos): Result
    decreases |s|
  {
    if s == "" then Tokens([])
    else
      var p := next(s, pos);
      if p.len == 0 || p.len > |s| then Panic
      else
        var rest := LexWith(next, s[p.len..], offset + p.len, p.pos);
        if p.Blank? then rest else Prepend(HeadToken(p, s, offset, pos), rest)
  }

  /** One turn of the outer loop. */
  lemma WithTurn(next: Scanner, s: string, offset: nat, pos: Pos, p: Piece, rest: Result)
    requires s != "" && next(s, pos) == p && p.len > 0
    requires p.len <= |s| ==> LexWith(next, s[p.len..], offset + p.len, p.pos) == rest
    ensures LexWith(next, s, offset, pos) ==
      if p.len > |s| then Panic else if p.Blank? then rest else Prepend(HeadToken(p, s, offset, pos), rest)
  {
  }

  /** Words, and only words, are scanned as identifiers or keywords. */
  ghost predicate ScansWords(next: Scanner)
  {
    forall s, pos :: ScansWord(next, s, pos)
  }

  predicate ScansWord(next: Scanner, s: string, pos: Pos)
  {
    s != "" ==> (IsIdentifierStart(s[0]) <==> WordLike(next(s, pos), s))
  }

  predicate WordLike(p: Piece, s: string) { p.Lexed? && p.kind in {Identifier, Keyword} && 0 < p.len <= |s| }

  lemma {:induction false} FirstToken(next: Scanner, s: string, offset: nat, pos: Pos)
    requires ScansWords(next)
    ensures var r := LexWith(next, s, offset, pos);
      r.Tokens? && r.tokens != [] ==>
        && s != ""
        && offset <= r.tokens[0].offset
        && (r.tokens[0].offset == offset && r.tokens[0].kind in {Identifier, Keyword} ==> IsIdentifierStart(s[0]))
    decreases |s|
  {
    if s != "" {
      var p := next(s, pos);
      assert ScansWord(next, s, pos);
      if 0 < p.len <= |s| && p.Blank? {
        FirstToken(next, s[p.len..], offset + p.len, p.pos);
      }
    }
  }

  /** A number and the word glued to it are neighbouring tokens, and the other way round. */
  lemma GluesAreGlued(next: Scanner, s: string, offset: nat, pos: Pos, p: Piece)
    requires ScansWords(next) && p.Lexed? && 0 < p.len <= |s|
    ensures var r := LexWith(next, s[p.len..], offset + p.len, p.pos);
      r.Tokens? ==> (GluesNext(p, s) <==> |r.tokens| > 0 && Glued(HeadToken(p, s, offset, pos), r.tokens[0]))
  {
    assert ScansWord(next, s[p.len..], p.pos);
    FirstToken(next, s[p.len..], offset + p.len, p.pos);
  }

  lemma JavaScansWords(kw: set<string>)
    ensures ScansWords(JavaScanner(kw))
  {
  }

  // ---------------------------------------------------------------- the Java scanner's lexemes

  /** Characters whose one-character symbol token spells the character itself. */
  predicate IsPlainChar(c: char) { IsAsciiChar(c) || IsIdentifierPart(c) }

  /** No symbol is a character that could be part of a word. */
  ghost predicate SymbolsApart(next: Scanner)
  {
    forall s, pos :: s != "" ==> SymbolApart(next(s, pos), s[0])
  }

  predicate SymbolApart(p: Piece, c: char) { p.Lexed? && p.kind == Symbol ==> !IsIdentifierPart(c) }

  lemma JavaSymbolsApart(kw: set<string>)
    ensures SymbolsApart(JavaScanner(kw))
  {
  }

  lemma {:induction false} PlainLexing(next: Scanner, s: string, offset: nat, pos: Pos)
    requires AllOf(s, IsPlainChar) && SymbolsApart(next)
    ensures LexBy(next, s, offset, pos) == LexWith(next, s, offset, pos)
    decreases |s|
  {
    if s != "" {
      var p := next(s, pos);
      assert SymbolApart(p, s[0]);
      if 0 < p.len <= |s| {
        PlainLexing(next, s[p.len..], offset + p.len, p.pos);
        if p.Lexed? {
          PlainLexeme(p, s);
        }
      }
    }
  }

  lemma PlainLexeme(p: Piece, s: string)
    requires p.Lexed? && 0 < p.len <= |s| && IsPlainChar(s[0]) && SymbolApart(p, s[0])
    ensures LexemeOf(p.kind, s[..p.len]) == s[..p.len]
  {
    assert [s[0]] == s[..1];
  }

  lemma LexIsWith(kw: set<string>, s: string, offset: nat, pos: Pos)
    requires AllOf(s, IsPlainChar)
    ensures LexFrom(kw, s, offset, pos) == LexWith(JavaScanner(kw), s, offset, pos)
  {
    JavaSymbolsApart(kw);
    PlainLexing(JavaScanner(kw), s, offset, pos);
  }

  lemma {:induction false} ReplacedPlain(s: string, o: string, n: string)
    requires IsAscii(s) && IsIdentifier(n)
    ensures AllOf(Replaced(s, o, n), IsPlainChar)
    decreases |s|
  {
    if s == "" {
    } else if IsIdentifierPart(s[0]) {
      var w, rest := SplitHead(s, IsIdentifierPart);
      ReplacedPlain(rest, o, n);
    } else {
      ReplacedPlain(s[1..], o, n);
    }
  }
}
