/** What the token list says about the text: nothing is lost, and words are spelled as words. */
module LexerTheorems {
  import opened Chars
  import opened Text
  import opened Lexer

  // ---------------------------------------------------------------- lossless

  ghost predicate InPlace(text: string, t: Token)
  {
    && t.offset < t.end <= |text|
    && !IsSpace(text[t.offset])
    && t.lexeme == LexemeOf(t.kind, text[t.offset..t.end])
  }

  ghost predicate Covered(tokens: seq<Token>, i: nat)
  {
    exists k :: 0 <= k < |tokens| && tokens[k].offset <= i < tokens[k].end
  }

  ghost predicate AllInPlace(text: string, tokens: seq<Token>, i: nat)
  {
    forall k :: 0 <= k < |tokens| ==> i <= tokens[k].offset && InPlace(text, tokens[k])
  }

  ghost predicate InOrder(tokens: seq<Token>)
  {
    forall j, k :: 0 <= j < k < |tokens| ==> tokens[j].end <= tokens[k].offset
  }

  ghost predicate GapsBlank(text: string, tokens: seq<Token>, i: nat)
  {
    forall x :: i <= x < |text| && !Covered(tokens, x) ==> IsSpace(text[x])
  }

  /** Tokens from position i on: in place, in order, and everything between them is white space. */
  ghost predicate LosslessFrom(text: string, tokens: seq<Token>, i: nat)
  {
    AllInPlace(text, tokens, i) && InOrder(tokens) && GapsBlank(text, tokens, i)
  }

  /** A blank piece is one white space character, and no other piece begins with one. */
  ghost predicate SeesBlanks(next: Scanner)
  {
    forall s, pos :: s != "" ==> BlankAt(next(s, pos), s[0])
  }

  predicate BlankAt(p: Piece, c: char) { (p.Blank? <==> IsSpace(c)) && (p.Blank? ==> p.len == 1) }

  lemma JavaSeesBlanks(kw: set<string>)
    ensures SeesBlanks(JavaScanner(kw))
  {
  }

  /** One turn of the outer loop. */
  lemma LexTurn(next: Scanner, text: string, i: nat, pos: Pos, p: Piece)
    requires i < |text| && p == next(text[i..], pos)
    ensures LexBy(next, text[i..], i, pos) ==
      if p.len == 0 || i + p.len > |text| then Panic
      else if p.Blank? then LexBy(next, text[i + p.len..], i + p.len, p.pos)
      else Prepend(PieceToken(text, i, pos, p), LexBy(next, text[i + p.len..], i + p.len, p.pos))
  {
    if i + p.len <= |text| {
      Unread(text, i, p.len);
    }
  }

  lemma LosslessBlank(text: string, tokens: seq<Token>, i: nat)
    requires i < |text| && IsSpace(text[i]) && LosslessFrom(text, tokens, i + 1)
    ensures LosslessFrom(text, tokens, i)
  {
  }

  lemma LosslessToken(text: string, t: Token, rest: seq<Token>)
    requires InPlace(text, t) && LosslessFrom(text, rest, t.end)
    ensures LosslessFrom(text, [t] + rest, t.offset)
  {
    PlacesGrow(text, t, rest);
    OrderGrows(text, t, rest);
    LosslessGap(text, t, rest);
  }

  lemma PlacesGrow(text: string, t: Token, rest: seq<Token>)
    requires InPlace(text, t) && AllInPlace(text, rest, t.end)
    ensures AllInPlace(text, [t] + rest, t.offset)
  {
    forall k | 0 <= k < |[t] + rest|
      ensures t.offset <= ([t] + rest)[k].offset && InPlace(text, ([t] + rest)[k])
    {
      if k > 0 {
        assert ([t] + rest)[k] == rest[k - 1];
      }
    }
  }

  lemma OrderGrows(text: string, t: Token, rest: seq<Token>)
    requires AllInPlace(text, rest, t.end) && InOrder(rest)
    ensures InOrder([t] + rest)
  {
    forall j, k | 0 <= j < k < |[t] + rest|
      ensures ([t] + rest)[j].end <= ([t] + rest)[k].offset
    {
      assert ([t] + rest)[k] == rest[k - 1];
      if j > 0 {
        assert ([t] + rest)[j] == rest[j - 1];
      }
    }
  }

  lemma LosslessGap(text: string, t: Token, rest: seq<Token>)
    requires t.offset < t.end <= |text| && GapsBlank(text, rest, t.end)
    ensures GapsBlank(text, [t] + rest, t.offset)
  {
    var tokens := [t] + rest;
    assert tokens[0] == t;
    forall x: nat | Covered(rest, x)
      ensures Covered(tokens, x)
    {
      var k :| 0 <= k < |rest| && rest[k].offset <= x < rest[k].end;
      assert tokens[k + 1] == rest[k];
    }
  }

  ghost predicate Lossless(text: string, r: Result, i: nat)
  {
    r.Tokens? ==> LosslessFrom(text, r.tokens, i)
  }

  lemma LosslessPiece(text: string, i: nat, pos: Pos, p: Piece, r: Result)
    requires i < |text| && 0 < p.len && i + p.len <= |text| && BlankAt(p, text[i]) && Lossless(text, r, i + p.len)
    ensures Lossless(text, if p.Blank? then r else Prepend(PieceToken(text, i, pos, p), r), i)
  {
    if r.Tokens? {
      if p.Blank? {
        LosslessBlank(text, r.tokens, i);
      } else {
        LosslessToken(text, PieceToken(text, i, pos, p), r.tokens);
      }
    }
  }

  /** The result r of a turn, from the result `rest` for what is behind its piece. */
  lemma LosslessTurn(text: string, i: nat, pos: Pos, p: Piece, r: Result, rest: Result)
    requires i < |text| && BlankAt(p, text[i])
    requires r == if p.len == 0 || i + p.len > |text| then Panic
                  else if p.Blank? then rest
                  else Prepend(PieceToken(text, i, pos, p), rest)
    requires p.len > 0 && i + p.len <= |text| ==> Lossless(text, rest, i + p.len)
    ensures Lossless(text, r, i)
  {
    if p.len > 0 && i + p.len <= |text| {
      LosslessPiece(text, i, pos, p, rest);
    }
  }

  lemma LosslessEnd(next: Scanner, text: string, pos: Pos)
    ensures Lossless(text, LexBy(next, text[|text|..], |text|, pos), |text|)
  {
  }

  lemma LosslessStep(next: Scanner, text: string, i: nat, pos: Pos, p: Piece)
    requires i < |text| && p == next(text[i..], pos) && BlankAt(p, text[i])
    requires p.len > 0 && i + p.len <= |text| ==>
               Lossless(text, LexBy(next, text[i + p.len..], i + p.len, p.pos), i + p.len)
    ensures Lossless(text, LexBy(next, text[i..], i, pos), i)
  {
    LexTurn(next, text, i, pos, p);
    var fits := p.len > 0 && i + p.len <= |text|;
    var rest := if fits then LexBy(next, text[i + p.len..], i + p.len, p.pos) else Panic;
    LosslessTurn(text, i, pos, p, LexBy(next, text[i..], i, pos), rest);
  }

  lemma BlankSeen(next: Scanner, text: string, i: nat, pos: Pos)
    requires SeesBlanks(next) && i < |text|
    ensures BlankAt(next(text[i..], pos), text[i])
  {
    assert text[i..] != "" && text[i..][0] == text[i];
  }

  lemma {:induction false} LosslessAt(next: Scanner, text: string, i: nat, pos: Pos)
    requires SeesBlanks(next) && i <= |text|
    ensures Lossless(text, LexBy(next, text[i..], i, pos), i)
    decreases |text| - i
  {
    if i == |text| {
      LosslessEnd(next, text, pos);
    } else {
      var p := next(text[i..], pos);
      BlankSeen(next, text, i, pos);
      if p.len > 0 && i + p.len <= |text| {
        LosslessAt(next, text, i + p.len, p.pos);
      }
      LosslessStep(next, text, i, pos, p);
    }
  }

  /** The token is a lone byte beyond ASCII. */
  predicate LoneByte(text: string, t: Token)
    requires t.offset < |text|
  {
    t.kind == Symbol && t.end == t.offset + 1 && 0x80 <= text[t.offset] as int <= 0xFF
  }

  lemma LexemeIsSlice(text: string, t: Token)
    requires InPlace(text, t)
    ensures t.lexeme == text[t.offset..t.end] <==> !LoneByte(text, t)
  {
    var slice := text[t.offset..t.end];
    assert slice[0] == text[t.offset];
    assert |slice| == 1 ==> slice == [slice[0]];
  }

  /** No byte is lost: the tokens lie in order in the text, each over its own slice, with only
      white space between them. The lexeme is the slice itself except for a lone non-ASCII byte. */
  lemma LexLossless(kw: set<string>, text: string)
    ensures var r := LexFrom(kw, text, 0, Pos(0, 0));
      r.Tokens? ==>
        && LosslessFrom(text, r.tokens, 0)
        && (forall k :: 0 <= k < |r.tokens| ==>
              var t := r.tokens[k];
              t.lexeme == text[t.offset..t.end] <==> !LoneByte(text, t))
  {
    var r := LexFrom(kw, text, 0, Pos(0, 0));
    assert text[0..] == text;
    JavaSeesBlanks(kw);
    LosslessAt(JavaScanner(kw), text, 0, Pos(0, 0));
    if r.Tokens? {
      forall k | 0 <= k < |r.tokens|
        ensures var t := r.tokens[k]; t.lexeme == text[t.offset..t.end] <==> !LoneByte(text, t)
      {
        assert InPlace(text, r.tokens[k]);
        LexemeIsSlice(text, r.tokens[k]);
      }
    }
  }

  // ---------------------------------------------------------------- words

  /** Identifiers and keywords are spelled as identifiers. */
  ghost predicate WordsSpelled(r: Result)
  {
    r.Tokens? ==> forall k :: 0 <= k < |r.tokens| ==> SpelledAs(r.tokens[k].kind, r.tokens[k].lexeme)
  }

  predicate SpelledAs(kind: Kind, lexeme: string) { kind == Identifier || kind == Keyword ==> IsIdentifier(lexeme) }

  ghost predicate SpellsWords(next: Scanner)
  {
    forall s, pos :: s != "" ==> PieceSpelled(next(s, pos), s)
  }

  predicate PieceSpelled(p: Piece, s: string) { p.Lexed? && 0 < p.len <= |s| ==> SpelledAs(p.kind, s[..p.len]) }

  lemma JavaSpells(kw: set<string>, s: string, pos: Pos)
    requires s != ""
    ensures PieceSpelled(NextPiece(kw, s, pos), s)
  {
    var n := 1 + RunLen(s[1..], IsIdentifierPart);
    assert s[..n] == [s[0]] + s[1..][..n - 1];
  }

  lemma JavaSpellsWords(kw: set<string>)
    ensures SpellsWords(JavaScanner(kw))
  {
    forall s, pos | s != ""
      ensures PieceSpelled(JavaScanner(kw)(s, pos), s)
    {
      JavaSpells(kw, s, pos);
    }
  }

  lemma SpelledHead(t: Token, r: Result)
    requires WordsSpelled(r) && SpelledAs(t.kind, t.lexeme)
    ensures WordsSpelled(Prepend(t, r))
  {
  }

  lemma {:induction false} SpelledFrom(next: Scanner, s: string, offset: nat, pos: Pos)
    requires SpellsWords(next)
    ensures WordsSpelled(LexBy(next, s, offset, pos))
    decreases |s|
  {
    if s != "" {
      var p := next(s, pos);
      assert PieceSpelled(p, s);
      if 0 < p.len <= |s| {
        var rest := LexBy(next, s[p.len..], offset + p.len, p.pos);
        SpelledFrom(next, s[p.len..], offset + p.len, p.pos);
        if p.Lexed? {
          SpelledHead(Token(p.kind, LexemeOf(p.kind, s[..p.len]), pos.line, pos.column, offset, offset + p.len), rest);
        }
      }
    }
  }

  /** Every identifier and keyword of a lexed text is spelled as an identifier. */
  lemma LexedWordsSpelled(kw: set<string>, text: string)
    ensures WordsSpelled(LexFrom(kw, text, 0, Pos(0, 0)))
  {
    JavaSpellsWords(kw);
    SpelledFrom(JavaScanner(kw), text, 0, Pos(0, 0));
  }
}
