/** A block comment that is not closed gives up its last character, which is then lexed on its own. When the
    text is renamed, that character can be another one: here is exactly when the tokens are the renamed ones. */
module RenameComments {
  import opened Chars
  import opened Text
  import opened Lexer
  import opened RenameTheorems
  import opened RenamePieces
  import opened RenameTokens

  // ---------------------------------------------------------------- the end of the text

  /** The text begins with a block comment that runs out of text. */
  predicate Unclosed(s: string) { |s| > 1 && s[0] == '/' && s[1] == '*' && !Closes(s[2..]) }

  /** The identifier run at the very end of the text, if there is one. */
  function EndRun(s: string): string
  {
    if s == "" || !IsIdentifierPart(s[|s| - 1]) then "" else EndRun(s[..|s| - 1]) + [s[|s| - 1]]
  }

  /** Whether the word w at the end of an unclosed comment, its last character being a token of its own,
      is renamed the way its two parts are. */
  predicate EndKept(w: string, o: string, n: string)
  {
    || w == ""
    || (w == o && |o| == 1 && |n| == 1)
    || (w != o && w[..|w| - 1] != o && w[|w| - 1..] != o)
  }

  predicate HasOther(s: string) { exists i :: 0 <= i < |s| && !IsIdentifierPart(s[i]) }

  /** The run at the end does not depend on what is in front of another character. */
  lemma {:induction false} EndRunBehind(x: string, s: string)
    requires HasOther(s)
    ensures EndRun(x + s) == EndRun(s)
    decreases |s|
  {
    if IsIdentifierPart(s[|s| - 1]) {
      var front := s[..|s| - 1];
      assert (x + s)[..|x + s| - 1] == x + front;
      var i :| 0 <= i < |s| && !IsIdentifierPart(s[i]);
      assert front[i] == s[i];
      EndRunBehind(x, front);
    }
  }

  lemma OtherBehind(s: string, k: nat)
    requires k <= |s| && HasOther(s[k..])
    ensures HasOther(s) && EndRun(s) == EndRun(s[k..])
  {
    var i :| 0 <= i < |s[k..]| && !IsIdentifierPart(s[k..][i]);
    assert s[k + i] == s[k..][i];
    assert s == s[..k] + s[k..];
    EndRunBehind(s[..k], s[k..]);
  }

  lemma {:induction false} EndRunIs(s: string)
    ensures var w := EndRun(s);
      && AllOf(w, IsIdentifierPart) && |w| <= |s| && s == s[..|s| - |w|] + w
      && (|w| < |s| ==> !IsIdentifierPart(s[|s| - |w| - 1]))
    decreases |s|
  {
    if s != "" && IsIdentifierPart(s[|s| - 1]) {
      EndRunIs(s[..|s| - 1]);
    }
  }

  /** s is `front` and one more character, `last`. */
  predicate Ends(s: string, front: string, last: string)
  {
    s != "" && s[..|s| - 1] == front && s[|s| - 1..] == last
  }

  lemma EndsJoin(w: string, front: string, last: string)
    requires Ends(w, front, last)
    ensures w == front + last && |last| == 1
  {
  }

  /** The word itself. */
  lemma NameEnd(o: string, n: string, last: string)
    requires IsIdentifier(o) && IsIdentifier(n) && last == if |o| == 1 then n else o[|o| - 1..]
    ensures Ends(n, o[..|o| - 1], last) <==> o == n || (|o| == 1 && |n| == 1)
  {
    if Ends(n, o[..|o| - 1], last) {
      EndsJoin(n, o[..|o| - 1], last);
      assert o == o[..|o| - 1] + o[|o| - 1..];
    }
    if o == n && |o| == 1 {
      assert o[0..] == o;
    }
  }

  /** Another word. */
  lemma OtherEnd(w: string, front: string, last: string, o: string, n: string)
    requires w != "" && IsIdentifier(o) && IsIdentifier(n)
    requires front == if w[..|w| - 1] == o then n else w[..|w| - 1]
    requires last == if w[|w| - 1..] == o then n else w[|w| - 1..]
    ensures Ends(w, front, last) <==> o == n || (w[..|w| - 1] != o && w[|w| - 1..] != o)
  {
  }

  /** Replacing the first part and the last character of a word one by one, and replacing the word. */
  lemma WordEnd(w: string, w': string, front: string, last: string, o: string, n: string)
    requires Takes(w, w', o, n) && IsIdentifier(o) && IsIdentifier(n)
    requires front == if w[..|w| - 1] == o then n else w[..|w| - 1]
    requires last == if w[|w| - 1..] == o then n else w[|w| - 1..]
    ensures Ends(w', front, last) <==> o == n || EndKept(w, o, n)
  {
    if w == o {
      assert |w[..|w| - 1]| < |o| && (|o| == 1 ==> w[|w| - 1..] == o);
      NameEnd(o, n, last);
    } else {
      OtherEnd(w, front, last, o, n);
    }
  }

  lemma ReplacedAlone(w: string, o: string, n: string)
    requires AllOf(w, IsIdentifierPart) && o != ""
    ensures Replaced(w, o, n) == if w == o then n else w
  {
    if w != "" {
      assert w + "" == w;
      ReplaceWord(w, "", o, n, IsIdentifierPart);
    }
  }

  lemma ReplacedBehind(x: string, w: string, o: string, n: string)
    requires AllOf(w, IsIdentifierPart) && o != "" && (x == "" || !IsIdentifierPart(x[|x| - 1]))
    ensures Replaced(x + w, o, n) == Replaced(x, o, n) + if w == o then n else w
  {
    ReplacedAlone(w, o, n);
    if x == "" {
      assert x + w == w;
    } else {
      assert (x + w)[..|x|] == x && (x + w)[|x|..] == w;
      ReplacedSplitAfter(x + w, |x|, o, n);
    }
  }

  /** The last character of s and what is in front of it are, replaced, those of s'. */
  ghost predicate EndsAlike(s: string, s': string, o: string, n: string)
  {
    s != "" && Ends(s', Replaced(s[..|s| - 1], o, n), Replaced(s[|s| - 1..], o, n))
  }

  lemma EndsBehind(a: string, w: string, front: string, last: string)
    requires w != ""
    ensures Ends(a + w, a + front, last) <==> Ends(w, front, last)
    ensures Ends(w, front, last) ==> Ends(a + w, a + front, last)
  {
    var s := a + w;
    assert s[..|s| - 1] == a + w[..|w| - 1] && s[|s| - 1..] == w[|w| - 1..];
    assert (a + front)[|a|..] == front && (a + w[..|w| - 1])[|a|..] == w[..|w| - 1];
  }

  lemma EndsAlikeIs(s: string, s': string, front: string, last: string, front': string, last': string, o: string,
      n: string)
    requires Ends(s, front, last) && Replaced(front, o, n) == front' && Replaced(last, o, n) == last'
    ensures EndsAlike(s, s', o, n) <==> Ends(s', front', last')
  {
  }

  /** The same behind x, which is replaced by x'. */
  lemma EndsAlikeBehind(x: string, w: string, front: string, last: string, x': string, w': string, front': string,
      last': string, o: string, n: string)
    requires Ends(w, front, last) && w' != ""
    requires Replaced(x + front, o, n) == x' + front' && Replaced(last, o, n) == last'
    ensures EndsAlike(x + w, x' + w', o, n) <==> Ends(w', front', last')
  {
    EndsBehind(x, w, front, last);
    EndsAlikeIs(x + w, x' + w', x + front, last, x' + front', last', o, n);
    EndsBehind(x', w', front', last');
  }

  lemma EndsAlikeWord(s: string, x: string, w: string, o: string, n: string)
    requires IsWord(w, IsIdentifierPart) && IsIdentifier(o) && IsIdentifier(n) && s == x + w
    requires x == "" || !IsIdentifierPart(x[|x| - 1])
    ensures EndsAlike(s, Replaced(s, o, n), o, n) <==> o == n || EndKept(w, o, n)
  {
    var w', x' := if w == o then n else w, Replaced(x, o, n);
    var front, last := w[..|w| - 1], w[|w| - 1..];
    var front', last' := if front == o then n else front, if last == o then n else last;
    TakesName(w, o, n);
    WordEnd(w, w', front', last', o, n);
    ReplacedBehind(x, w, o, n);
    ReplacedBehind(x, front, o, n);
    ReplacedAlone(last, o, n);
    EndsAlikeBehind(x, w, front, last, x', w', front', last', o, n);
  }

  lemma EndsAlikeOther(s: string, o: string, n: string)
    requires s != "" && !IsIdentifierPart(s[|s| - 1])
    ensures EndsAlike(s, Replaced(s, o, n), o, n)
  {
    var k := |s| - 1;
    assert s[k..] == [s[k]] + "";
    ReplaceOther(s[k], "", o, n, IsIdentifierPart);
    ReplacedSplit(s, k, o, n);
  }

  /** Renaming a text renames its last character and what is in front of it, exactly under this condition. */
  lemma EndsAlikeExactly(s: string, o: string, n: string)
    requires s != "" && IsIdentifier(o) && IsIdentifier(n)
    ensures EndsAlike(s, Replaced(s, o, n), o, n) <==> o == n || EndKept(EndRun(s), o, n)
  {
    var w := EndRun(s);
    var x := BeforeEndRun(s);
    if w == "" {
      EndsAlikeOther(s, o, n);
    } else {
      EndsAlikeWord(s, x, w, o, n);
    }
  }

  lemma BeforeEndRun(s: string) returns (x: string)
    ensures AllOf(EndRun(s), IsIdentifierPart) && s == x + EndRun(s)
    ensures x == "" || !IsIdentifierPart(x[|x| - 1])
  {
    EndRunIs(s);
    x := s[..|s| - |EndRun(s)|];
  }

  // ---------------------------------------------------------------- what replacement keeps

  function Newlines(s: string): nat
  {
    if s == "" then 0 else (if s[0] == '\n' then 1 else 0) + Newlines(s[1..])
  }

  lemma {:induction false} NewlinesAppend(a: string, b: string)
    ensures Newlines(a + b) == Newlines(a) + Newlines(b)
    decreases |a|
  {
    if a == "" {
      assert a + b == b;
    } else {
      assert (a + b)[1..] == a[1..] + b;
      NewlinesAppend(a[1..], b);
    }
  }

  lemma {:induction false} NoNewlines(w: string)
    requires AllOf(w, NotNewline)
    ensures Newlines(w) == 0
    decreases |w|
  {
    if w != "" {
      NoNewlines(w[1..]);
    }
  }

  lemma {:induction false} NewlinesReplaced(s: string, o: string, n: string)
    requires IsIdentifier(o) && IsIdentifier(n)
    ensures Newlines(Replaced(s, o, n)) == Newlines(s)
    decreases |s|
  {
    if s == "" {
    } else if IsIdentifierPart(s[0]) {
      var w, rest := SplitHead(s, IsIdentifierPart);
      var w' := if w == o then n else w;
      NewlinesReplaced(rest, o, n);
      ReplaceWord(w, rest, o, n, IsIdentifierPart);
      NoNewlines(w);
      NoNewlines(w');
      NewlinesAppend(w, rest);
      NewlinesAppend(w', Replaced(rest, o, n));
    } else {
      NewlinesReplaced(s[1..], o, n);
      SameHead(s, o, n, s[0]);
      NewlinesAppend([s[0]], s[1..]);
      NewlinesAppend([s[0]], Replaced(s[1..], o, n));
      assert s == [s[0]] + s[1..];
    }
  }

  lemma {:induction false} ClosesReplaced(s: string, o: string, n: string)
    requires IsIdentifier(o) && IsIdentifier(n)
    ensures Closes(Replaced(s, o, n)) <==> Closes(s)
    decreases |s|
  {
    if s == "" {
    } else if IsIdentifierPart(s[0]) {
      var w, rest := SplitHead(s, IsIdentifierPart);
      var w' := if w == o then n else w;
      ClosesReplaced(rest, o, n);
      ReplaceWord(w, rest, o, n, IsIdentifierPart);
      BlockPassesWord(w, rest, Pos(0, 0));
      BlockPassesWord(w', Replaced(rest, o, n), Pos(0, 0));
    } else {
      ClosesReplaced(s[1..], o, n);
      SameHead(s, o, n, s[0]);
      SameHead(s[1..], o, n, '/');
    }
  }

  lemma UnclosedReplaced(s: string, o: string, n: string)
    requires Unclosed(s) && IsIdentifier(o) && IsIdentifier(n)
    ensures Unclosed(Replaced(s, o, n)) && (|s| == 2 <==> |Replaced(s, o, n)| == 2)
  {
    TwoOther(s, o, n);
    ClosesReplaced(s[2..], o, n);
    SameHead(s[2..], o, n, ' ');
  }

  // ---------------------------------------------------------------- an unclosed comment

  lemma {:induction false} UnclosedTail(s: string, pos: Pos)
    requires !Closes(s)
    ensures var t := BlockTail(s, pos);
      t.len == (if s == "" then 0 else |s| - 1) && t.pos.line == pos.line + Newlines(s[..t.len])
    decreases |s|
  {
    if |s| > 1 {
      UnclosedTail(s[1..], if s[0] == '\n' then NextLine(pos) else Right(pos, 1));
      assert s[..|s| - 1][1..] == s[1..][..|s| - 2];
    }
  }

  /** The piece at the head of a text that begins with a block comment. */
  lemma CommentPiece(kw: set<string>, s: string, pos: Pos)
    requires |s| > 1 && s[0] == '/' && s[1] == '*'
    ensures var t := BlockTail(s[2..], Right(pos, 2)); JavaScanner(kw)(s, pos) == Lexed(Comment, 2 + t.len, t.pos)
  {
  }

  /** The comment piece of an unclosed comment: all but the last character, if there is any behind the opening. */
  lemma UnclosedPiece(kw: set<string>, s: string, pos: Pos) returns (p: Piece)
    requires Unclosed(s)
    ensures p == JavaScanner(kw)(s, pos) && p.Lexed? && p.kind == Comment && p.len == if |s| == 2 then 2 else |s| - 1
    ensures p.pos.line == pos.line + Newlines(s[..p.len])
  {
    p := JavaScanner(kw)(s, pos);
    CommentPiece(kw, s, pos);
    UnclosedTail(s[2..], Right(pos, 2));
    assert s[..p.len] == s[..2] + s[2..][..p.len - 2];
    NewlinesAppend(s[..2], s[2..][..p.len - 2]);
    NoNewlines(s[..2]);
  }

  lemma {:induction false} ClosesPrefix(a: string, b: string)
    requires Closes(a)
    ensures Closes(a + b)
    decreases |a|
  {
    if !(a[0] == '*' && a[1] == '/') {
      assert (a + b)[1..] == a[1..] + b;
      ClosesPrefix(a[1..], b);
    }
  }

  lemma UnclosedLexeme(s: string, k: nat)
    requires Unclosed(s) && 2 <= k <= |s|
    ensures !ClosedLexeme(Comment, s[..k])
  {
    assert s[..k][2..] + s[k..] == s[2..];
    if Closes(s[..k][2..]) {
      ClosesPrefix(s[..k][2..], s[k..]);
    }
  }

  /** The tokens of a single character. */
  lemma LastPiece(kw: set<string>, s: string, offset: nat, pos: Pos) returns (p: Piece)
    requires |s| == 1
    ensures p == NextPiece(kw, s, pos) && p.len == 1
    ensures LexWith(JavaScanner(kw), s, offset, pos)
         == Tokens(if p.Blank? then [] else [Token(p.kind, s, pos.line, pos.column, offset, offset + 1)])
  {
    p := NextPiece(kw, s, pos);
    assert s[1..] == "" && s[..1] == s;
    WithTurn(JavaScanner(kw), s, offset, pos, p, Tokens([]));
  }

  /** One character and another are lexed as the same kind of token or blank. */
  lemma SamePieces(kw: set<string>, c: string, c': string, pos: Pos, pos': Pos, o: string, n: string)
    requires Names(kw, o, n) && |c| == 1 && |c'| == 1 && c' == Replaced(c, o, n)
    ensures var p, p' := NextPiece(kw, c, pos), NextPiece(kw, c', pos');
      if p.Blank? then p'.Blank? else p'.Lexed? && p'.kind == p.kind
  {
    if IsIdentifierPart(c[0]) {
      ReplacedAlone(c, o, n);
      assert c[..1] == c && c'[..1] == c';
      assert c[1..] == "" && c'[1..] == "";
    } else {
      assert c == [c[0]] + "";
      ReplaceOther(c[0], "", o, n, IsIdentifierPart);
    }
  }

  lemma PartsAreLexed(kw: set<string>, c: string, pos: Pos)
    requires |c| == 1 && IsIdentifierPart(c[0])
    ensures NextPiece(kw, c, pos).Lexed?
  {
  }

  /** The token of the comment, and the tokens of what it has left over. */
  lemma UnclosedTokens(kw: set<string>, s: string, offset: nat, pos: Pos) returns (t: Token, rest: seq<Token>)
    requires Unclosed(s) && |s| > 2
    ensures LexWith(JavaScanner(kw), s, offset, pos) == Tokens([t] + rest)
    ensures t.kind == Comment && t.lexeme == s[..|s| - 1] && t.line == pos.line && !Closed(t)
    ensures t.offset == offset && t.end == offset + |s| - 1
    ensures LeftOver(kw, s[|s| - 1..], pos.line + Newlines(s[..|s| - 1]), t.end, rest)
  {
    var p := UnclosedPiece(kw, s, pos);
    var q := LastPiece(kw, s[p.len..], offset + p.len, p.pos);
    t := HeadToken(p, s, offset, pos);
    rest := LexWith(JavaScanner(kw), s[p.len..], offset + p.len, p.pos).tokens;
    WithTurn(JavaScanner(kw), s, offset, pos, p, Tokens(rest));
    UnclosedLexeme(s, p.len);
    assert LeftOverAt(kw, s[p.len..], p.pos, p.pos.line, t.end, rest);
  }

  /** ts are the tokens, none or one, of the single character c. */
  ghost predicate LeftOver(kw: set<string>, c: string, line: nat, offset: nat, ts: seq<Token>)
  {
    |c| == 1 && exists pos: Pos :: LeftOverAt(kw, c, pos, line, offset, ts)
  }

  predicate LeftOverAt(kw: set<string>, c: string, pos: Pos, line: nat, offset: nat, ts: seq<Token>)
    requires |c| == 1
  {
    && pos.line == line
    && var p := NextPiece(kw, c, pos);
      ts == if p.Blank? then [] else [Token(p.kind, c, pos.line, pos.column, offset, offset + 1)]
  }

  /** What is left over is renamed exactly if the character is; blanks always are. */
  lemma LeftOverRenamed(kw: set<string>, c: string, c': string, line: nat, offset: nat, offset': nat, ts: seq<Token>,
      us: seq<Token>, o: string, n: string)
    requires Names(kw, o, n) && LeftOver(kw, c, line, offset, ts) && LeftOver(kw, c', line, offset', us)
    ensures c' == Replaced(c, o, n) ==> Renamed(ts, us, false, o, n)
    ensures IsIdentifierPart(c[0]) && Renamed(ts, us, false, o, n) ==> c' == Replaced(c, o, n)
  {
    var pos :| LeftOverAt(kw, c, pos, line, offset, ts);
    var pos' :| LeftOverAt(kw, c', pos', line, offset', us);
    if c' == Replaced(c, o, n) {
      SamePieces(kw, c, c', pos, pos', o, n);
    }
    if IsIdentifierPart(c[0]) {
      PartsAreLexed(kw, c, pos);
    }
  }

  /** Lexing a text that is one unclosed comment, and lexing it renamed. */
  lemma UnclosedRenamed(kw: set<string>, s: string, t: Token, ts: seq<Token>, u: Token, us: seq<Token>, line: nat,
      o: string, n: string)
    requires Names(kw, o, n) && Unclosed(s) && |s| > 2 && |Replaced(s, o, n)| > 2
    requires t.kind == u.kind == Comment && t.line == u.line == line
    requires t.lexeme == s[..|s| - 1] && LeftOver(kw, s[|s| - 1..], line + Newlines(t.lexeme), t.end, ts)
    requires var s' := Replaced(s, o, n);
      u.lexeme == s'[..|s'| - 1] && LeftOver(kw, s'[|s'| - 1..], line + Newlines(u.lexeme), u.end, us)
    ensures Renamed([t] + ts, [u] + us, false, o, n) <==> o == n || EndKept(EndRun(s), o, n)
  {
    var s' := Replaced(s, o, n);
    var c, c' := s[|s| - 1..], s'[|s'| - 1..];
    EndsAlikeExactly(s, o, n);
    RenamedHead(t, ts, u, us, false, false, o, n);
    NewlinesReplaced(t.lexeme, o, n);
    if u.lexeme == Replaced(t.lexeme, o, n) {
      LeftOverRenamed(kw, c, c', line + Newlines(t.lexeme), t.end, u.end, ts, us, o, n);
      if !IsIdentifierPart(c[0]) {
        EndsAlikeOther(s, o, n);
      }
    }
  }

  lemma LongKnown(kw: set<string>, s: string, offset: nat, pos: Pos, s': string, offset': nat, pos': Pos, o: string,
      n: string)
    requires Names(kw, o, n) && Unclosed(s) && |s| > 2 && Unclosed(s') && |s'| > 2 && s' == Replaced(s, o, n)
    requires pos.line == pos'.line
    ensures var r, r' := LexWith(JavaScanner(kw), s, offset, pos), LexWith(JavaScanner(kw), s', offset', pos');
      r.Tokens? && !AllClosed(r) && Known(r, r', false, o == n || EndKept(EndRun(s), o, n), o, n)
  {
    var t, ts := UnclosedTokens(kw, s, offset, pos);
    var u, us := UnclosedTokens(kw, s', offset', pos');
    UnclosedRenamed(kw, s, t, ts, u, us, pos.line, o, n);
    ClosedHead(t, Tokens(ts));
  }

  /** What is known of a text that begins with an unclosed comment. */
  lemma UnclosedKnown(kw: set<string>, s: string, offset: nat, pos: Pos, offset': nat, pos': Pos, o: string, n: string)
    requires Names(kw, o, n) && Unclosed(s) && pos.line == pos'.line
    ensures var r := LexWith(JavaScanner(kw), s, offset, pos);
            var r' := LexWith(JavaScanner(kw), Replaced(s, o, n), offset', pos');
      r.Tokens? && !AllClosed(r) && Known(r, r', false, o == n || EndKept(EndRun(s), o, n), o, n)
  {
    UnclosedReplaced(s, o, n);
    if |s| == 2 {
      OpeningKnown(kw, s, offset, pos, offset', pos', o, n);
    } else {
      LongKnown(kw, s, offset, pos, Replaced(s, o, n), offset', pos', o, n);
    }
  }

  /** Nothing stands behind the opening of the comment. */
  lemma OpeningKnown(kw: set<string>, s: string, offset: nat, pos: Pos, offset': nat, pos': Pos, o: string, n: string)
    requires Names(kw, o, n) && Unclosed(s) && |s| == 2 && pos.line == pos'.line
    ensures var r := LexWith(JavaScanner(kw), s, offset, pos);
            var r' := LexWith(JavaScanner(kw), Replaced(s, o, n), offset', pos');
      r.Tokens? && !AllClosed(r) && Known(r, r', false, true, o, n) && EndRun(s) == ""
  {
    UnclosedReplaced(s, o, n);
    TwoOther(s, o, n);
    assert s == "/*" && Replaced(s, o, n) == s && s[2..] == "" && s[..2] == s;
    var p := UnclosedPiece(kw, s, pos);
    var p' := UnclosedPiece(kw, s, pos');
    var t, u := HeadToken(p, s, offset, pos), HeadToken(p', s, offset', pos');
    WithTurn(JavaScanner(kw), s, offset, pos, p, Tokens([]));
    WithTurn(JavaScanner(kw), s, offset', pos', p', Tokens([]));
    UnclosedLexeme(s, 2);
    ClosedHead(t, Tokens([]));
    RenamedHead(t, [], u, [], false, false, o, n);
  }

  // ---------------------------------------------------------------- any other piece

  lemma {:induction false} ClosedTail(s: string, pos: Pos)
    requires Closes(s)
    ensures Closes(s[..BlockTail(s, pos).len])
    decreases |s|
  {
    if !(s[0] == '*' && s[1] == '/') {
      var pos' := if s[0] == '\n' then NextLine(pos) else Right(pos, 1);
      ClosedTail(s[1..], pos');
      assert s[..BlockTail(s, pos).len][1..] == s[1..][..BlockTail(s[1..], pos').len];
    }
  }

  /** Whatever else a text begins with, it is no comment left open. */
  lemma PieceClosed(kw: set<string>, s: string, pos: Pos)
    requires s != "" && !Unclosed(s)
    ensures var p := NextPiece(kw, s, pos); p.Lexed? && p.len <= |s| ==> ClosedLexeme(p.kind, s[..p.len])
  {
    if |s| > 1 && s[0] == '/' && s[1] == '*' {
      ClosedTail(s[2..], Right(pos, 2));
      var n := BlockTail(s[2..], Right(pos, 2)).len;
      assert s[..2 + n][2..] == s[2..][..n];
    }
  }
}
