/** What each token is, from the text alone: its kind by the characters at its offset, and where it ends. */
module LexerShapes {
  import opened Chars
  import opened Text
  import opened Lexer
  import opened LexerTheorems

  // ---------------------------------------------------------------- where tokens end

  /** The first n characters of s run up to the next newline, or to the end. */
  ghost predicate LineEnds(s: string, n: nat)
  {
    2 <= n <= |s| && (forall k :: 2 <= k < n ==> s[k] != '\n') && (n < |s| ==> s[n] == '\n')
  }

  predicate ClosesBlock(s: string, k: int) { 2 <= k && k + 1 < |s| && s[k] == '*' && s[k + 1] == '/' }

  /** They run up to and with the first closing mark, or, if there is none, leave the last character over. */
  ghost predicate BlockEnds(s: string, n: nat)
  {
    || (ClosesBlock(s, n - 2) && forall k :: ClosesBlock(s, k) ==> n - 2 <= k)
    || ((forall k :: !ClosesBlock(s, k)) && n == if |s| == 2 then 2 else |s| - 1)
  }

  /** A backslash that is not escaped itself stands before s[k], behind the quote s[0]. */
  predicate Escaped(s: string, k: nat)
    requires k <= |s|
  {
    k > 1 && s[k - 1] == '\\' && !Escaped(s, k - 1)
  }

  /** s[k] is the quote that opened the literal again, and not escaped. */
  predicate Twin(s: string, k: int) { 0 < k < |s| && s[k] == s[0] && !Escaped(s, k) }

  /** They run up to and with the first such quote, or to the end. */
  ghost predicate LiteralEnds(s: string, n: nat)
  {
    || (Twin(s, n - 1) && forall k :: Twin(s, k) ==> n - 1 <= k)
    || ((forall k :: !Twin(s, k)) && n == |s|)
  }

  /** They are a character and all that satisfy p behind it. */
  ghost predicate RunEnds(s: string, n: nat, p: char -> bool)
  {
    1 <= n <= |s| && (forall k :: 1 <= k < n ==> p(s[k])) && (n < |s| ==> !p(s[n]))
  }

  // ---------------------------------------------------------------- what tokens are

  predicate OpensComment(s: string) { "//" <= s || "/*" <= s }

  predicate OpensLiteral(s: string) { s != "" && (s[0] == '"' || s[0] == '\'') }

  predicate OpensWord(s: string) { s != "" && (IsLetter(s[0]) || s[0] == '_' || s[0] == '$') }

  predicate OpensNumber(s: string) { s != "" && '0' <= s[0] <= '9' }

  predicate InWord(c: char) { IsLetter(c) || c == '_' || c == '$' || '0' <= c <= '9' }

  predicate InNumber(c: char) { '0' <= c <= '9' || c == '.' }

  /** A token of this kind over the first n characters of s. */
  ghost predicate Shaped(kw: set<string>, s: string, kind: Kind, n: nat)
    requires n <= |s|
  {
    && (kind == Comment <==> OpensComment(s))
    && (kind == StringLiteral <==> OpensLiteral(s))
    && (kind == Keyword <==> OpensWord(s) && s[..n] in kw)
    && (kind == Identifier <==> OpensWord(s) && s[..n] !in kw)
    && (kind == Number <==> OpensNumber(s))
    && ("//" <= s ==> LineEnds(s, n))
    && ("/*" <= s ==> BlockEnds(s, n))
    && (OpensLiteral(s) ==> LiteralEnds(s, n))
    && (OpensWord(s) ==> RunEnds(s, n, InWord))
    && (OpensNumber(s) ==> RunEnds(s, n, InNumber))
    && (kind == Symbol ==> n == if "..." <= s then 3 else 1)
  }

  // ---------------------------------------------------------------- the inner loops

  lemma RunShape(s: string, p: char -> bool)
    requires s != ""
    ensures RunEnds(s, 1 + RunLen(s[1..], p), p)
  {
    var n := RunLen(s[1..], p);
    forall k | 1 <= k < 1 + n
      ensures p(s[k])
    {
      assert s[1..][..n][k - 1] == s[k];
    }
  }

  lemma LineShape(s: string)
    requires "//" <= s
    ensures LineEnds(s, 2 + RunLen(s[2..], NotNewline))
  {
    var n := RunLen(s[2..], NotNewline);
    forall k | 2 <= k < 2 + n
      ensures s[k] != '\n'
    {
      assert s[2..][..n][k - 2] == s[k];
    }
  }

  /** The block loop from position j on. */
  lemma {:induction false} BlockShape(s: string, j: nat, pos: Pos)
    requires 2 <= j <= |s|
    ensures var n := j + BlockTail(s[j..], pos).len;
      || (ClosesBlock(s, n - 2) && j <= n - 2 && forall k :: j <= k < n - 2 ==> !ClosesBlock(s, k))
      || ((forall k :: j <= k ==> !ClosesBlock(s, k)) && n == if j == |s| then j else |s| - 1)
    decreases |s| - j
  {
    if j + 1 < |s| && !ClosesBlock(s, j) {
      assert s[j..][1..] == s[j + 1..];
      BlockShape(s, j + 1, if s[j] == '\n' then NextLine(pos) else Right(pos, 1));
    }
  }

  lemma Escapes(s: string, j: nat)
    requires 1 <= j < |s| && !Escaped(s, j)
    ensures s[j] != '\\' ==> !Escaped(s, j + 1)
    ensures s[j] == '\\' ==> Escaped(s, j + 1) && (j + 2 <= |s| ==> !Escaped(s, j + 2))
  {
  }

  /** The first unescaped twin from j on ends the first n characters, or they are all there is. */
  ghost predicate LiteralEndsFrom(s: string, j: nat, n: nat)
  {
    || (Twin(s, n - 1) && j <= n - 1 && forall k :: j <= k < n - 1 ==> !Twin(s, k))
    || ((forall k :: j <= k ==> !Twin(s, k)) && n == |s|)
  }

  lemma TwinLater(s: string, j: nat, j': nat, n: nat)
    requires j <= j' && LiteralEndsFrom(s, j', n) && forall k :: j <= k < j' ==> !Twin(s, k)
    ensures LiteralEndsFrom(s, j, n)
  {
  }

  /** The literal loop from a position j that is not escaped. */
  lemma {:induction false} LiteralShape(s: string, j: nat, pos: Pos)
    requires OpensLiteral(s) && 1 <= j <= |s| && !Escaped(s, j)
    ensures var n := j + StringTail(s[j..], s[0], pos).len; n <= |s| ==> LiteralEndsFrom(s, j, n)
    decreases |s| - j
  {
    if j < |s| {
      var n := j + StringTail(s[j..], s[0], pos).len;
      Escapes(s, j);
      assert s[j..][1..] == s[j + 1..];
      if s[j] == '\\' {
        if j + 2 <= |s| && n <= |s| {
          assert s[j..][2..] == s[j + 2..];
          LiteralShape(s, j + 2, Right(pos, 2));
          TwinLater(s, j, j + 2, n);
        }
      } else if s[j] == s[0] {
        assert Twin(s, j);
      } else if n <= |s| {
        LiteralShape(s, j + 1, if s[j] == '\n' then NextLine(pos) else Right(pos, 1));
        TwinLater(s, j, j + 1, n);
      }
    }
  }

  // ---------------------------------------------------------------- one token

  ghost predicate PieceShaped(kw: set<string>, s: string, p: Piece)
  {
    p.Lexed? && p.len <= |s| ==> Shaped(kw, s, p.kind, p.len)
  }

  lemma CommentShaped(kw: set<string>, s: string, pos: Pos)
    requires OpensComment(s)
    ensures PieceShaped(kw, s, NextPiece(kw, s, pos))
  {
    if s[1] == '/' {
      LineShape(s);
    } else {
      BlockShape(s, 2, Right(pos, 2));
    }
  }

  lemma LiteralShaped(kw: set<string>, s: string, pos: Pos)
    requires OpensLiteral(s)
    ensures PieceShaped(kw, s, NextPiece(kw, s, pos))
  {
    LiteralShape(s, 1, Right(pos, 1));
  }

  lemma PlainShaped(kw: set<string>, s: string, pos: Pos)
    requires s != "" && !IsSpace(s[0]) && !OpensComment(s) && !OpensLiteral(s)
    ensures PieceShaped(kw, s, NextPiece(kw, s, pos))
  {
    RunShape(s, IsIdentifierPart);
    RunShape(s, IsNumberPart);
  }

  lemma JavaShaped(kw: set<string>, s: string, pos: Pos)
    requires s != ""
    ensures PieceShaped(kw, s, NextPiece(kw, s, pos))
  {
    if OpensComment(s) {
      CommentShaped(kw, s, pos);
    } else if OpensLiteral(s) {
      LiteralShaped(kw, s, pos);
    } else if !IsSpace(s[0]) {
      PlainShaped(kw, s, pos);
    }
  }

  /** A byte beyond ASCII is spelled as the two bytes that stand for it in UTF-8: six bits in the second one, and the
      rest in the first. */
  lemma RuneStringIs(c: char)
    requires 0x80 <= c as int <= 0xFF
    ensures var s := RuneString(c);
      && |s| == 2 && 0xC0 <= s[0] as int < 0xE0 && 0x80 <= s[1] as int < 0xC0
      && (s[0] as int - 0xC0) * 0x40 + (s[1] as int - 0x80) == c as int
  {
  }

  // ---------------------------------------------------------------- all tokens

  /** The token is of the kind, and ends at the place, that the text from its offset on calls for. */
  ghost predicate TokenShaped(kw: set<string>, text: string, t: Token)
  {
    t.offset < t.end <= |text| && Shaped(kw, text[t.offset..], t.kind, t.end - t.offset)
  }

  ghost predicate AllShaped(kw: set<string>, text: string, r: Result)
  {
    r.Tokens? ==> forall k :: 0 <= k < |r.tokens| ==> TokenShaped(kw, text, r.tokens[k])
  }

  lemma ShapedHead(kw: set<string>, text: string, t: Token, r: Result)
    requires TokenShaped(kw, text, t) && AllShaped(kw, text, r)
    ensures AllShaped(kw, text, Prepend(t, r))
  {
  }

  lemma {:induction false} ShapedFrom(kw: set<string>, text: string, i: nat, pos: Pos)
    requires i <= |text|
    ensures AllShaped(kw, text, LexBy(JavaScanner(kw), text[i..], i, pos))
    decreases |text| - i
  {
    if i < |text| {
      var p := NextPiece(kw, text[i..], pos);
      LexTurn(JavaScanner(kw), text, i, pos, p);
      JavaShaped(kw, text[i..], pos);
      if i + p.len <= |text| {
        ShapedFrom(kw, text, i + p.len, p.pos);
        if p.Lexed? {
          var rest := LexBy(JavaScanner(kw), text[i + p.len..], i + p.len, p.pos);
          ShapedHead(kw, text, PieceToken(text, i, pos, p), rest);
        }
      }
    }
  }

  /** Every token of every lexed text: a comment exactly if two slashes or a slash and a star stand at its offset, a
      literal exactly if a quote does, a word or a number exactly by its first character, a keyword exactly if it is in
      the table, a symbol otherwise; and it ends where the text says a token of this kind ends. */
  lemma TokensAreShaped(kw: set<string>, text: string)
    ensures AllShaped(kw, text, LexFrom(kw, text, 0, Pos(0, 0)))
  {
    assert text[0..] == text;
    ShapedFrom(kw, text, 0, Pos(0, 0));
  }

  // ---------------------------------------------------------------- nothing else is a token list

  lemma SameLength(kw: set<string>, s: string, kind: Kind, n: nat, kind': Kind, n': nat)
    requires s != "" && n <= |s| && n' <= |s| && Shaped(kw, s, kind, n) && Shaped(kw, s, kind', n')
    ensures n == n' && kind == kind'
  {
    if "//" <= s {
    } else if "/*" <= s {
      BlockEndsOnce(s, n, n');
    } else if OpensLiteral(s) {
      LiteralEndsOnce(s, n, n');
    }
  }

  lemma BlockEndsOnce(s: string, n: nat, n': nat)
    requires BlockEnds(s, n) && BlockEnds(s, n')
    ensures n == n'
  {
    assert ClosesBlock(s, n - 2) ==> n' - 2 <= n - 2;
    assert ClosesBlock(s, n' - 2) ==> n - 2 <= n' - 2;
  }

  lemma LiteralEndsOnce(s: string, n: nat, n': nat)
    requires LiteralEnds(s, n) && LiteralEnds(s, n')
    ensures n == n'
  {
    assert Twin(s, n - 1) ==> n' - 1 <= n - 1;
    assert Twin(s, n' - 1) ==> n - 1 <= n' - 1;
  }

  /** Tokens that lie in order over the text from i on, with white space between them, each of its shape. */
  ghost predicate Tokenizes(kw: set<string>, text: string, ts: seq<Token>, i: nat)
  {
    LosslessFrom(text, ts, i) && forall k :: 0 <= k < |ts| ==> TokenShaped(kw, text, ts[k])
  }

  /** The same but for lines and columns. */
  predicate SameToken(t: Token, u: Token)
  {
    t.kind == u.kind && t.lexeme == u.lexeme && t.offset == u.offset && t.end == u.end
  }

  ghost predicate SameTokens(ts: seq<Token>, us: seq<Token>)
  {
    |ts| == |us| && forall k :: 0 <= k < |ts| ==> SameToken(ts[k], us[k])
  }

  lemma PlacesRest(text: string, ts: seq<Token>, i: nat)
    requires AllInPlace(text, ts, i) && InOrder(ts) && ts != []
    ensures AllInPlace(text, ts[1..], ts[0].end) && InOrder(ts[1..])
  {
    var rest := ts[1..];
    forall k | 0 <= k < |rest|
      ensures ts[0].end <= rest[k].offset && InPlace(text, rest[k])
    {
      assert rest[k] == ts[k + 1];
    }
  }

  lemma GapsRest(text: string, ts: seq<Token>, i: nat)
    requires GapsBlank(text, ts, i) && ts != [] && i <= ts[0].offset <= ts[0].end
    ensures GapsBlank(text, ts[1..], ts[0].end)
  {
    var rest := ts[1..];
    forall x: nat | ts[0].end <= x && Covered(ts, x)
      ensures Covered(rest, x)
    {
      var k :| 0 <= k < |ts| && ts[k].offset <= x < ts[k].end;
      assert rest[k - 1] == ts[k];
    }
  }

  lemma TokenizesRest(kw: set<string>, text: string, ts: seq<Token>, i: nat)
    requires Tokenizes(kw, text, ts, i) && ts != []
    ensures i <= ts[0].offset && Tokenizes(kw, text, ts[1..], ts[0].end)
  {
    assert InPlace(text, ts[0]);
    PlacesRest(text, ts, i);
    GapsRest(text, ts, i);
  }

  /** The first token of one list does not stand in front of those of another. */
  lemma NoneBefore(kw: set<string>, text: string, ts: seq<Token>, us: seq<Token>, i: nat)
    requires Tokenizes(kw, text, ts, i) && Tokenizes(kw, text, us, i) && us != []
    ensures ts != [] && ts[0].offset <= us[0].offset
  {
    var x := us[0].offset;
    assert InPlace(text, us[0]);
    assert Covered(ts, x);
    var k :| 0 <= k < |ts| && ts[k].offset <= x < ts[k].end;
    assert k > 0 ==> InPlace(text, ts[0]) && ts[0].end <= ts[k].offset;
  }

  lemma FirstSame(kw: set<string>, text: string, t: Token, u: Token)
    requires InPlace(text, t) && InPlace(text, u) && TokenShaped(kw, text, t) && TokenShaped(kw, text, u)
    requires t.offset == u.offset
    ensures SameToken(t, u)
  {
    SameLength(kw, text[t.offset..], t.kind, t.end - t.offset, u.kind, u.end - u.offset);
  }

  lemma {:induction false} TokenizedOnce(kw: set<string>, text: string, ts: seq<Token>, us: seq<Token>, i: nat)
    requires Tokenizes(kw, text, ts, i) && Tokenizes(kw, text, us, i)
    ensures SameTokens(ts, us)
    decreases |ts|
  {
    if us != [] {
      NoneBefore(kw, text, ts, us, i);
    }
    if ts != [] {
      NoneBefore(kw, text, us, ts, i);
      assert InPlace(text, ts[0]) && InPlace(text, us[0]);
      FirstSame(kw, text, ts[0], us[0]);
      TokenizesRest(kw, text, ts, i);
      TokenizesRest(kw, text, us, i);
      TokenizedOnce(kw, text, ts[1..], us[1..], ts[0].end);
    }
  }

  /** The tokens of a text are the only list that lies in order over it, with nothing but white space between, and has
      a token of the right shape wherever there is one. */
  lemma OnlyTokens(kw: set<string>, text: string, ts: seq<Token>)
    ensures var r := LexFrom(kw, text, 0, Pos(0, 0));
      r.Tokens? ==> Tokenizes(kw, text, r.tokens, 0) && (Tokenizes(kw, text, ts, 0) ==> SameTokens(ts, r.tokens))
  {
    var r := LexFrom(kw, text, 0, Pos(0, 0));
    LexLossless(kw, text);
    TokensAreShaped(kw, text);
    if r.Tokens? && Tokenizes(kw, text, ts, 0) {
      TokenizedOnce(kw, text, ts, r.tokens, 0);
    }
  }
}
