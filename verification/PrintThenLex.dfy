/** Reading the print of a type back with the lexer. */
module PrintThenLex {
  import opened Chars
  import opened Text
  import opened Lexer
  import opened RenameTheorems
  import opened RenamePieces
  import opened RenameTokens
  import opened TypePrinter

  /** A character that is a token of its own. */
  predicate IsSymbolChar(c: char)
  {
    IsAsciiChar(c) && !IsSpace(c) && !IsIdentifierPart(c) && c != '"' && c != '\''
  }

  predicate IsDots(x: string) { |x| == 3 && x[0] == '.' && x[1] == '.' && x[2] == '.' }

  predicate IsDot(x: string) { |x| == 1 && x[0] == '.' }

  /** The tokens a type is made of: words, one-character symbols and the ellipsis. */
  ghost predicate TypeToken(kw: set<string>, t: Token)
  {
    || (IsIdentifier(t.lexeme) && t.kind == WordKind(kw, t.lexeme))
    || (t.kind == Symbol && (IsDots(t.lexeme) || (|t.lexeme| == 1 && IsSymbolChar(t.lexeme[0]))))
  }

  ghost predicate TypeTokens(kw: set<string>, ts: seq<Token>)
  {
    forall k :: 0 <= k < |ts| ==> TypeToken(kw, ts[k])
  }

  /** From token i on a single dot runs into an ellipsis or into two more dots. */
  predicate ClashAt(ts: seq<Token>, i: nat)
    requires i < |ts|
  {
    && IsDot(ts[i].lexeme)
    && i + 1 < |ts|
    && (IsDots(ts[i + 1].lexeme) || (IsDot(ts[i + 1].lexeme) && i + 2 < |ts| && IsDot(ts[i + 2].lexeme)))
  }

  predicate DotClash(ts: seq<Token>)
  {
    exists i :: 0 <= i < |ts| && ClashAt(ts, i)
  }

  /** The result holds tokens with these kinds and lexemes. */
  ghost predicate Reads(r: Result, ts: seq<Token>)
  {
    && r.Tokens?
    && |r.tokens| == |ts|
    && (forall k :: 0 <= k < |ts| ==> r.tokens[k].kind == ts[k].kind && r.tokens[k].lexeme == ts[k].lexeme)
  }

  predicate TwoDots(s: string) { |s| > 1 && s[0] == '.' && s[1] == '.' }


  lemma FirstPiece(kw: set<string>, t: Token, tail: string, pos: Pos)
    requires TypeToken(kw, t)
    requires Stops(t.lexeme, tail)
    ensures NextPiece(kw, t.lexeme + tail, pos) == Lexed(t.kind, |t.lexeme|, Right(pos, |t.lexeme|))
  {
    var s := t.lexeme + tail;
    if IsIdentifier(t.lexeme) {
      WordPiece(kw, t.lexeme, tail, pos);
    } else {
      assert s[0] == t.lexeme[0];
      assert |t.lexeme| == 1 ==> s[1..] == tail;
      assert t.lexeme == [t.lexeme[0]] || IsDots(t.lexeme);
    }
  }

  /** A dot before two more is read as an ellipsis. */
  lemma DotPiece(kw: set<string>, tail: string, pos: Pos)
    requires TwoDots(tail)
    ensures NextPiece(kw, "." + tail, pos) == Lexed(Symbol, 3, Right(pos, 3)) && IsDots(("." + tail)[..3])
  {
    var s := "." + tail;
    assert s[0] == '.' && s[1] == tail[0] && s[2] == tail[1];
  }

  /** What follows a token of the print: nothing, a space, or the first character of the next token. */
  lemma HeadOfAfter(kw: set<string>, prev: string, ts: seq<Token>)
    requires TypeTokens(kw, ts) && ts != []
    ensures ts[0].lexeme != ""
    ensures var s := After(prev, ts); s != "" && s[0] == if NeedsSpace(prev, ts[0].lexeme) then ' ' else ts[0].lexeme[0]
  {
    assert TypeToken(kw, ts[0]);
  }

  /** Behind any token the print goes on so that the lexer stops there, but for a dot before dots. */
  lemma PrintStops(kw: set<string>, t: Token, ts: seq<Token>)
    requires TypeTokens(kw, ts) && TypeToken(kw, t)
    requires IsDot(t.lexeme) ==> !TwoDots(After(t.lexeme, ts))
    ensures Stops(t.lexeme, After(t.lexeme, ts))
  {
    if ts != [] {
      HeadOfAfter(kw, t.lexeme, ts);
    }
  }

  predicate DotsAhead(ts: seq<Token>)
  {
    && |ts| > 0
    && (IsDots(ts[0].lexeme) || (IsDot(ts[0].lexeme) && |ts| > 1 && (IsDot(ts[1].lexeme) || IsDots(ts[1].lexeme))))
  }

  /** After a dot the print starts with two dots exactly if the tokens clash there. */
  lemma DotsAfterDot(kw: set<string>, x: string, ts: seq<Token>)
    requires TypeTokens(kw, ts) && IsDot(x)
    ensures TwoDots(After(x, ts)) <==> DotsAhead(ts)
  {
    if ts != [] {
      var y, rest := ts[0].lexeme, ts[1..];
      assert TypeToken(kw, ts[0]);
      assert After(x, ts) == y + After(y, rest);
      if rest != [] {
        assert TypeToken(kw, ts[1]);
        HeadOfAfter(kw, y, rest);
      }
    }
  }

  /** A list clashes at a dot before dots, or in its tail. */
  lemma ClashHead(t: Token, ts: seq<Token>)
    ensures DotClash([t] + ts) <==> (IsDot(t.lexeme) && DotsAhead(ts)) || DotClash(ts)
  {
    var all := [t] + ts;
    forall i | 0 <= i < |ts|
      ensures ClashAt(all, i + 1) <==> ClashAt(ts, i)
    {
    }
    if IsDot(t.lexeme) && DotsAhead(ts) {
      assert ClashAt(all, 0) || ClashAt(all, 1);
    }
    if DotClash(all) && !(IsDot(t.lexeme) && DotsAhead(ts)) {
      var i :| 0 <= i < |all| && ClashAt(all, i);
      assert ClashAt(ts, i - 1);
    }
    if DotClash(ts) {
      var i :| 0 <= i < |ts| && ClashAt(ts, i);
      assert ClashAt(all, i + 1);
    }
  }

  lemma ReadsHead(t: Token, t': Token, r: Result, ts: seq<Token>)
    requires t'.kind == t.kind && t'.lexeme == t.lexeme
    ensures Reads(Prepend(t', r), [t] + ts) <==> Reads(r, ts)
  {
    if r.Tokens? && |r.tokens| == |ts| {
      var us, vs := [t'] + r.tokens, [t] + ts;
      if Reads(Prepend(t', r), vs) {
        forall k | 0 <= k < |ts|
          ensures r.tokens[k].kind == ts[k].kind && r.tokens[k].lexeme == ts[k].lexeme
        {
          assert us[k + 1] == r.tokens[k] && vs[k + 1] == ts[k];
        }
      }
    }
  }

  /** What may follow the spelling x so that the lexer stops behind it. */
  ghost predicate Stops(x: string, tail: string)
  {
    && (IsIdentifier(x) ==> StartsApart(tail, IsIdentifierPart))
    && (tail != "" && x == "/" ==> tail[0] != '/' && tail[0] != '*')
    && (IsDot(x) ==> !TwoDots(tail))
  }

  /** How the scanner reads a token before a stop, a dot before dots, and a space. */
  ghost predicate ReadsToken(next: Scanner, kw: set<string>, t: Token, tail: string, pos: Pos)
  {
    && (TypeToken(kw, t) && Stops(t.lexeme, tail) ==>
        next(t.lexeme + tail, pos) == Lexed(t.kind, |t.lexeme|, Right(pos, |t.lexeme|)))
    && (IsDot(t.lexeme) && TwoDots(tail) ==> next(t.lexeme + tail, pos) == Lexed(Symbol, 3, Right(pos, 3)))
    && next(" " + tail, pos) == Blank(1, Right(pos, 1))
  }

  ghost predicate ReadsTokens(next: Scanner, kw: set<string>)
  {
    forall t, tail, pos :: ReadsToken(next, kw, t, tail, pos)
  }

  lemma JavaReadsTokens(kw: set<string>)
    ensures ReadsTokens(JavaScanner(kw), kw)
  {
    forall t, tail, pos
      ensures ReadsToken(JavaScanner(kw), kw, t, tail, pos)
    {
      if TypeToken(kw, t) && Stops(t.lexeme, tail) {
        FirstPiece(kw, t, tail, pos);
      }
      if IsDot(t.lexeme) && TwoDots(tail) {
        assert t.lexeme == ".";
        DotPiece(kw, tail, pos);
      }
    }
  }

  /** The lexer's own token for a token of the print. */
  lemma HeadReads(next: Scanner, kw: set<string>, t: Token, tail: string, offset: nat, pos: Pos, ts: seq<Token>)
    requires TypeToken(kw, t) && Stops(t.lexeme, tail) && ReadsToken(next, kw, t, tail, pos)
    ensures Reads(LexWith(next, t.lexeme + tail, offset, pos), [t] + ts)
       <==> Reads(LexWith(next, tail, offset + |t.lexeme|, Right(pos, |t.lexeme|)), ts)
  {
    var s, n := t.lexeme + tail, |t.lexeme|;
    assert s[..n] == t.lexeme && s[n..] == tail;
    var r := LexWith(next, tail, offset + n, Right(pos, n));
    var t' := HeadToken(Lexed(t.kind, n, Right(pos, n)), s, offset, pos);
    assert LexWith(next, s, offset, pos) == Prepend(t', r);
    ReadsHead(t, t', r, ts);
  }

  /** A dot that is read as the start of an ellipsis. */
  lemma ClashReads(next: Scanner, kw: set<string>, t: Token, tail: string, offset: nat, pos: Pos, ts: seq<Token>)
    requires IsDot(t.lexeme) && TwoDots(tail) && ReadsToken(next, kw, t, tail, pos)
    ensures !Reads(LexWith(next, t.lexeme + tail, offset, pos), [t] + ts)
  {
    var s := t.lexeme + tail;
    var p := next(s, pos);
    var r := LexWith(next, s[3..], offset + 3, p.pos);
    assert LexWith(next, s, offset, pos) == Prepend(HeadToken(p, s, offset, pos), r);
    if r.Tokens? {
      var us := [HeadToken(p, s, offset, pos)] + r.tokens;
      assert |us[0].lexeme| == 3;
    }
  }

  /** A space, or nothing, before the print of ts. */
  lemma GapReads(next: Scanner, gap: string, s: string, offset: nat, pos: Pos, ts: seq<Token>)
    requires gap == "" || gap == " "
    requires next(" " + s, pos) == Blank(1, Right(pos, 1))
    requires ReadsBack(next, s, offset, pos, ts) && ReadsBack(next, s, offset + 1, Right(pos, 1), ts)
    ensures ReadsBack(next, gap + s, offset, pos, ts)
  {
    if gap == "" {
      assert gap + s == s;
    } else {
      assert (" " + s)[1..] == s;
    }
  }

  ghost predicate ReadsBack(next: Scanner, s: string, offset: nat, pos: Pos, ts: seq<Token>)
  {
    Reads(LexWith(next, s, offset, pos), ts) <==> !DotClash(ts)
  }

  lemma PrintHead(next: Scanner, kw: set<string>, t: Token, ts: seq<Token>, offset: nat, pos: Pos)
    requires TypeToken(kw, t) && TypeTokens(kw, ts) && ReadsToken(next, kw, t, After(t.lexeme, ts), pos)
    requires ReadsBack(next, After(t.lexeme, ts), offset + |t.lexeme|, Right(pos, |t.lexeme|), ts)
    ensures ReadsBack(next, t.lexeme + After(t.lexeme, ts), offset, pos, [t] + ts)
  {
    var x, tail := t.lexeme, After(t.lexeme, ts);
    if IsDot(x) {
      DotsAfterDot(kw, x, ts);
    }
    ClashHead(t, ts);
    if IsDot(x) && TwoDots(tail) {
      ClashReads(next, kw, t, tail, offset, pos, ts);
    } else {
      PrintStops(kw, t, ts);
      HeadReads(next, kw, t, tail, offset, pos, ts);
    }
  }

  lemma TakeToken(next: Scanner, kw: set<string>, t: Token, tail: string, pos: Pos)
    requires ReadsTokens(next, kw)
    ensures ReadsToken(next, kw, t, tail, pos)
  {
  }

  lemma {:induction false} PrintReads(next: Scanner, kw: set<string>, ts: seq<Token>, offset: nat, pos: Pos)
    requires TypeTokens(kw, ts) && ReadsTokens(next, kw)
    ensures ReadsBack(next, Printed(ts), offset, pos, ts)
    decreases |ts|, 0
  {
    if ts != [] {
      var t, rest := ts[0], ts[1..];
      var x := t.lexeme;
      assert TypeToken(kw, t) && ts == [t] + rest;
      TakeToken(next, kw, t, After(x, rest), pos);
      TailReads(next, kw, x, rest, offset + |x|, Right(pos, |x|));
      PrintHead(next, kw, t, rest, offset, pos);
    }
  }

  lemma {:induction false} TailReads(next: Scanner, kw: set<string>, x: string, ts: seq<Token>, offset: nat, pos: Pos)
    requires TypeTokens(kw, ts) && ReadsTokens(next, kw)
    ensures ReadsBack(next, After(x, ts), offset, pos, ts)
    decreases |ts|, 1
  {
    if ts != [] {
      var s := Printed(ts);
      assert After(x, ts) == Space(x, ts[0].lexeme) + s;
      TakeToken(next, kw, ts[0], s, pos);
      PrintReads(next, kw, ts, offset, pos);
      PrintReads(next, kw, ts, offset + 1, Right(pos, 1));
      GapReads(next, Space(x, ts[0].lexeme), s, offset, pos, ts);
    }
  }

  // ---------------------------------------------------------------- nothing to trim

  predicate Tight(s: string) { s == "" || (!IsSpace(s[0]) && !IsSpace(s[|s| - 1])) }

  lemma TightToken(kw: set<string>, t: Token)
    requires TypeToken(kw, t)
    ensures t.lexeme != "" && Tight(t.lexeme) && AllOf(t.lexeme, IsPlainChar)
  {
  }

  ghost predicate Trimmed(s: string) { Tight(s) && AllOf(s, IsPlainChar) }

  lemma TrimmedConcat(x: string, gap: string, z: string)
    requires Trimmed(x) && Trimmed(z) && x != "" && z != ""
    requires gap == "" || gap == " "
    ensures Trimmed(x + (gap + z))
  {
  }

  lemma {:induction false} TightPrint(kw: set<string>, ts: seq<Token>)
    requires TypeTokens(kw, ts)
    ensures Trimmed(Printed(ts)) && (ts != [] ==> Printed(ts) != "")
    decreases |ts|
  {
    if ts != [] {
      TightToken(kw, ts[0]);
      var x, rest := ts[0].lexeme, ts[1..];
      TightPrint(kw, rest);
      if rest != [] {
        TrimmedConcat(x, Space(x, rest[0].lexeme), Printed(rest));
        assert Printed(ts) == x + (Space(x, rest[0].lexeme) + Printed(rest));
      } else {
        assert Printed(ts) == x + "" == x;
      }
    }
  }

  /** Reading undoes printing exactly for the token lists in which no dots run together. */
  lemma LexReadsPrint(kw: set<string>, ts: seq<Token>)
    requires TypeTokens(kw, ts)
    ensures Reads(LexFrom(kw, Joined(ts), 0, Pos(0, 0)), ts) <==> !DotClash(ts)
  {
    TightPrint(kw, ts);
    assert Joined(ts) == Printed(ts);
    LexIsWith(kw, Printed(ts), 0, Pos(0, 0));
    JavaReadsTokens(kw);
    PrintReads(JavaScanner(kw), kw, ts, 0, Pos(0, 0));
  }
}
