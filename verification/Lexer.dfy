/** The hand-written Java scanner: a specification by recursion on the unread text,
    the nested loops of the original, and what the tokens say about the text. */
module Lexer {
  import opened Chars
  import opened Text

  datatype Kind = Identifier | Keyword | Symbol | StringLiteral | Comment | Number

  datatype Token = Token(kind: Kind, lexeme: string, line: nat, column: nat, offset: nat, end: nat)

  /** Slicing past the end of the text is a run-time panic in the original. */
  datatype Result = Tokens(tokens: seq<Token>) | Panic

  /** How far an inner loop runs, and the line and column it leaves behind. */
  datatype Tail = Tail(len: nat, pos: Pos)

  datatype Piece = Blank(len: nat, pos: Pos) | Lexed(kind: Kind, len: nat, pos: Pos)

  /** The table of the original. Everything below holds for any such table, passed as `kw`. */
  const JAVA_KEYWORDS: set<string> := {
    "package", "import", "class", "interface", "record", "enum",
    "public", "protected", "private", "abstract", "final", "static",
    "default", "native", "synchronized", "extends", "implements",
    "throws", "void", "new", "return", "if", "for", "while",
    "switch", "catch", "try", "super", "this", "transient", "volatile"
  }

  function Right(p: Pos, n: nat): Pos { Pos(p.line, p.column + n) }

  function NextLine(p: Pos): Pos { Pos(p.line + 1, 0) }

  function More(n: nat, t: Tail): Tail { Tail(n + t.len, t.pos) }

  /** The body of a block comment, after its opening; the last character of the text is never read. */
  function BlockTail(s: string, pos: Pos): (t: Tail)
    ensures t.len <= |s|
  {
    if |s| <= 1 then Tail(0, pos)
    else if s[0] == '\n' then More(1, BlockTail(s[1..], NextLine(pos)))
    else if s[0] == '*' && s[1] == '/' then Tail(2, Right(pos, 2))
    else More(1, BlockTail(s[1..], Right(pos, 1)))
  }

  /** The body of a literal, after its opening quote; a final backslash runs one past the end. */
  function StringTail(s: string, quote: char, pos: Pos): (t: Tail)
    ensures t.len <= |s| + 1
  {
    if s == "" then Tail(0, pos)
    else if s[0] == '\\' then
      if |s| == 1 then Tail(2, Right(pos, 2)) else More(2, StringTail(s[2..], quote, Right(pos, 2)))
    else if s[0] == quote then Tail(1, Right(pos, 1))
    else if s[0] == '\n' then More(1, StringTail(s[1..], quote, NextLine(pos)))
    else More(1, StringTail(s[1..], quote, Right(pos, 1)))
  }

  function WordKind(kw: set<string>, word: string): Kind
  {
    if word in kw then Keyword else Identifier
  }

  /** What one turn of the outer loop consumes at the head of the unread text. */
  function NextPiece(kw: set<string>, s: string, pos: Pos): (p: Piece)
    requires s != ""
    ensures 1 <= p.len <= |s| + 1
  {
    var c := s[0];
    if c == '\n' then Blank(1, NextLine(pos))
    else if IsSpace(c) then Blank(1, Right(pos, 1))
    else if c == '/' && |s| > 1 && s[1] == '/' then
      var n := 2 + RunLen(s[2..], NotNewline);
      Lexed(Comment, n, Right(pos, n))
    else if c == '/' && |s| > 1 && s[1] == '*' then
      var t := BlockTail(s[2..], Right(pos, 2));
      Lexed(Comment, 2 + t.len, t.pos)
    else if c == '"' || c == '\'' then
      var t := StringTail(s[1..], c, Right(pos, 1));
      Lexed(StringLiteral, 1 + t.len, t.pos)
    else PlainPiece(kw, s, pos)
  }

  /** Words, numbers and symbols. */
  function PlainPiece(kw: set<string>, s: string, pos: Pos): (p: Piece)
    requires s != ""
    ensures 1 <= p.len <= |s|
  {
    var c := s[0];
    if IsIdentifierStart(c) then
      var n := 1 + RunLen(s[1..], IsIdentifierPart);
      Lexed(WordKind(kw, s[..n]), n, Right(pos, n))
    else if IsDigit(c) then
      var n := 1 + RunLen(s[1..], IsNumberPart);
      Lexed(Number, n, Right(pos, n))
    else if c == '.' && |s| > 2 && s[1] == '.' && s[2] == '.' then Lexed(Symbol, 3, Right(pos, 3))
    else Lexed(Symbol, 1, Right(pos, 1))
  }

  /** `string(ch)`: a single byte from 0x80 on becomes its two-byte UTF-8 encoding. */
  function RuneString(c: char): string
  {
    if IsAsciiChar(c) || c as int > 0xFF then [c]
    else [(0xC0 + c as int / 64) as char, (0x80 + c as int % 64) as char]
  }

  function LexemeOf(kind: Kind, slice: string): string
    requires slice != ""
  {
    if kind == Symbol && |slice| == 1 then RuneString(slice[0]) else slice
  }

  function Prepend(t: Token, r: Result): Result
  {
    match r
    case Panic => Panic
    case Tokens(ts) => Tokens([t] + ts)
  }

  /** A way to find the next piece of a text. */
  type Scanner = (string, Pos) -> Piece

  function JavaScanner(kw: set<string>): Scanner
  {
    (s, pos) => if s == "" then Blank(1, pos) else NextPiece(kw, s, pos)
  }

  /** The outer loop over the unread text s, which starts at `offset` with the counters at `pos`, with any scanner. */
  function LexBy(next: Scanner, s: string, offset: nat, pos: Pos): Result
    decreases |s|
  {
    if s == "" then Tokens([])
    else
      var p := next(s, pos);
      if p.len == 0 || p.len > |s| then Panic
      else
        var rest := LexBy(next, s[p.len..], offset + p.len, p.pos);
        if p.Blank? then rest
        else Prepend(Token(p.kind, LexemeOf(p.kind, s[..p.len]), pos.line, pos.column, offset, offset + p.len), rest)
  }

  /** Lexing the unread text s; the Java scanner always advances, so this panics only past the end of the text. */
  function LexFrom(kw: set<string>, s: string, offset: nat, pos: Pos): Result
  {
    LexBy(JavaScanner(kw), s, offset, pos)
  }

  function Concat(ts: seq<Token>, r: Result): Result
  {
    match r
    case Panic => Panic
    case Tokens(us) => Tokens(ts + us)
  }

  /** The one-class inner loops: to the end of the line, of a word, of a number. */
  method SkipRun(text: string, start: nat, p: char -> bool, col: nat) returns (i: nat, column: nat)
    requires start <= |text|
    ensures i == start + RunLen(text[start..], p)
    ensures column == col + (i - start)
  {
    i, column := start, col;
    while i < |text| && p(text[i])
      invariant start <= i <= |text| && column == col + (i - start)
      invariant RunLen(text[start..], p) == i - start + RunLen(text[i..], p)
    {
      assert text[i..][1..] == text[i + 1..];
      i := i + 1;
      column := column + 1;
    }
  }

  /** The inner loop of a block comment. */
  method SkipBlock(text: string, start: nat, line0: nat, column0: nat) returns (i: nat, line: nat, column: nat)
    requires start <= |text|
    ensures i >= start
    ensures BlockTail(text[start..], Pos(line0, column0)) == Tail(i - start, Pos(line, column))
  {
    i, line, column := start, line0, column0;
    while i < |text| - 1
      invariant start <= i <= |text|
      invariant BlockTail(text[start..], Pos(line0, column0))
             == More(i - start, BlockTail(text[i..], Pos(line, column)))
    {
      assert text[i..][1..] == text[i + 1..];
      if text[i] == '\n' {
        line := line + 1;
        column := 0;
        i := i + 1;
        continue;
      }
      if text[i] == '*' && text[i + 1] == '/' {
        i := i + 2;
        column := column + 2;
        return;
      }
      i := i + 1;
      column := column + 1;
    }
  }

  /** The inner loop of a string or character literal. */
  method SkipString(text: string, start: nat, quote: char, line0: nat, column0: nat)
    returns (i: nat, line: nat, column: nat)
    requires start <= |text|
    ensures i >= start
    ensures StringTail(text[start..], quote, Pos(line0, column0)) == Tail(i - start, Pos(line, column))
  {
    i, line, column := start, line0, column0;
    while i < |text|
      invariant start <= i <= |text| + 1
      invariant StringTail(text[start..], quote, Pos(line0, column0))
             == if i <= |text| then More(i - start, StringTail(text[i..], quote, Pos(line, column)))
                else Tail(i - start, Pos(line, column))
    {
      assert text[i..][1..] == text[i + 1..];
      if text[i] == '\\' {
        if i + 2 <= |text| { assert text[i..][2..] == text[i + 2..]; }
        i := i + 2;
        column := column + 2;
        continue;
      }
      if text[i] == quote {
        i := i + 1;
        column := column + 1;
        return;
      }
      if text[i] == '\n' {
        line := line + 1;
        column := 0;
        i := i + 1;
        continue;
      }
      i := i + 1;
      column := column + 1;
    }
  }

  method ScanPlain(kw: set<string>, text: string, i: nat, line: nat, column: nat) returns (piece: Piece)
    requires i < |text|
    ensures piece == PlainPiece(kw, text[i..], Pos(line, column))
  {
    var ch := text[i];
    Unread(text, i, 1);
    if IsIdentifierStart(ch) {
      var j, c := SkipRun(text, i + 1, IsIdentifierPart, column + 1);
      Unread(text, i, j - i);
      var kind := if text[i..j] in kw then Keyword else Identifier;
      return Lexed(kind, j - i, Pos(line, c));
    }
    if IsDigit(ch) {
      var j, c := SkipRun(text, i + 1, IsNumberPart, column + 1);
      return Lexed(Number, j - i, Pos(line, c));
    }
    if ch == '.' && i + 2 < |text| && text[i + 1] == '.' && text[i + 2] == '.' {
      return Lexed(Symbol, 3, Pos(line, column + 3));
    }
    return Lexed(Symbol, 1, Pos(line, column + 1));
  }

  /** One turn of the outer loop: which branch is taken at i and what it consumes. */
  method ScanPiece(kw: set<string>, text: string, i: nat, line: nat, column: nat) returns (piece: Piece)
    requires i < |text|
    ensures piece == NextPiece(kw, text[i..], Pos(line, column))
  {
    var ch := text[i];
    if ch == '\n' {
      return Blank(1, Pos(line + 1, 0));
    }
    if IsSpace(ch) {
      return Blank(1, Pos(line, column + 1));
    }
    if ch == '/' && i + 1 < |text| && text[i + 1] == '/' {
      Unread(text, i, 2);
      var j, c := SkipRun(text, i + 2, NotNewline, column + 2);
      return Lexed(Comment, j - i, Pos(line, c));
    }
    if ch == '/' && i + 1 < |text| && text[i + 1] == '*' {
      Unread(text, i, 2);
      var j, l, c := SkipBlock(text, i + 2, line, column + 2);
      return Lexed(Comment, j - i, Pos(l, c));
    }
    if ch == '"' || ch == '\'' {
      Unread(text, i, 1);
      var j, l, c := SkipString(text, i + 1, ch, line, column + 1);
      return Lexed(StringLiteral, j - i, Pos(l, c));
    }
    piece := ScanPlain(kw, text, i, line, column);
  }

  function PieceToken(text: string, i: nat, pos: Pos, piece: Piece): Token
    requires piece.Lexed? && 0 < piece.len && i + piece.len <= |text|
  {
    var end := i + piece.len;
    Token(piece.kind, LexemeOf(piece.kind, text[i..end]), pos.line, pos.column, i, end)
  }

  function Grow(text: string, tokens: seq<Token>, i: nat, pos: Pos, piece: Piece): seq<Token>
    requires 0 < piece.len && i + piece.len <= |text|
  {
    if piece.Blank? then tokens else tokens + [PieceToken(text, i, pos, piece)]
  }

  /** The result is r if the tokens so far are `tokens` and the text from i on is still unread. */
  ghost predicate Resumes(next: Scanner, text: string, tokens: seq<Token>, i: nat, pos: Pos, r: Result)
  {
    i <= |text| && Concat(tokens, LexBy(next, text[i..], i, pos)) == r
  }

  lemma LexStep(next: Scanner, text: string, tokens: seq<Token>, i: nat, pos: Pos, piece: Piece, r: Result,
      tokens': seq<Token>, i': nat, pos': Pos)
    requires i < |text| && Resumes(next, text, tokens, i, pos, r)
    requires piece == next(text[i..], pos) && piece.len > 0
    requires i' == i + piece.len && pos' == piece.pos && (i' <= |text| ==> tokens' == Grow(text, tokens, i, pos, piece))
    ensures if i' > |text| then r == Panic else Resumes(next, text, tokens', i', pos', r)
  {
    if i' <= |text| {
      Unread(text, i, piece.len);
      var rest := LexBy(next, text[i'..], i', pos');
      if piece.Lexed? && rest.Tokens? {
        var t := PieceToken(text, i, pos, piece);
        assert tokens + ([t] + rest.tokens) == (tokens + [t]) + rest.tokens;
      }
    }
  }

  lemma LexStarts(kw: set<string>, text: string)
    ensures Resumes(JavaScanner(kw), text, [], 0, Pos(0, 0), LexFrom(kw, text, 0, Pos(0, 0)))
  {
    assert text[0..] == text;
    var r := LexFrom(kw, text, 0, Pos(0, 0));
    assert r.Tokens? ==> [] + r.tokens == r.tokens;
  }

  lemma LexEnds(next: Scanner, text: string, tokens: seq<Token>, pos: Pos, r: Result)
    requires Resumes(next, text, tokens, |text|, pos, r)
    ensures r == Tokens(tokens)
  {
  }

  /** The outer loop over i, line and column. */
  method Lex(kw: set<string>, text: string) returns (r: Result)
    ensures r == LexFrom(kw, text, 0, Pos(0, 0))
  {
    var tokens: seq<Token> := [];
    var line: nat, column: nat := 0, 0;
    var i: nat := 0;
    ghost var end, next := LexFrom(kw, text, 0, Pos(0, 0)), JavaScanner(kw);
    LexStarts(kw, text);
    while i < |text|
      invariant i <= |text|
      invariant Resumes(next, text, tokens, i, Pos(line, column), end)
    {
      var piece := ScanPiece(kw, text, i, line, column);
      ghost var tokens0, i0, pos0 := tokens, i, Pos(line, column);
      if piece.Lexed? && i + piece.len <= |text| {
        tokens := tokens + [PieceToken(text, i, Pos(line, column), piece)];
      }
      i, line, column := i + piece.len, piece.pos.line, piece.pos.column;
      LexStep(next, text, tokens0, i0, pos0, piece, end, tokens, i, Pos(line, column));
      if i > |text| {
        return Panic;
      }
    }
    LexEnds(next, text, tokens, Pos(line, column), end);
    return Tokens(tokens);
  }

  lemma Unread(text: string, i: nat, n: nat)
    requires i + n <= |text|
    ensures text[i..][n..] == text[i + n..]
    ensures text[i..][..n] == text[i..i + n]
  {
  }
}
