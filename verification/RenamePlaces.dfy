/** Where the renamed tokens are: behind the text in front of them, renamed. */
module RenamePlaces {
  import opened Chars
  import opened Text
  import opened Lexer
  import opened LexerTheorems
  import opened LexerAutomaton
  import opened Rename
  import opened RenameTheorems
  import opened RenameApply
  import opened RenamePieces
  import opened RenameTokens
  import opened RenameComments
  import opened RenameLexing

  // ---------------------------------------------------------------- cutting behind a piece

  /** No word goes on across place k. */
  predicate Boundary(s: string, k: nat)
    requires 0 < k <= |s|
  {
    k == |s| || !IsIdentifierPart(s[k - 1]) || !IsIdentifierPart(s[k])
  }

  lemma NumberBoundary(kw: set<string>, s: string, pos: Pos)
    requires s != "" && IsDigit(s[0])
    ensures var p := NextPiece(kw, s, pos);
      && p.Lexed? && p.kind == Number && 0 < p.len <= |s| && AllOf(s[..p.len], IsNumberPart)
      && (p.len < |s| ==> !IsNumberPart(s[p.len]))
      && (Boundary(s, p.len) || GluesNext(p, s))
  {
    var p := NextPiece(kw, s, pos);
    assert s[..p.len] == [s[0]] + s[1..][..p.len - 1];
    assert p.len < |s| ==> s[p.len] == s[1..][p.len - 1];
    assert s[..p.len][p.len - 1] == s[p.len - 1];
  }

  /** Pieces end where words end, but for a number with a word glued to it and for a comment left open. How comments
      and literals end is known from replacing words in them, whatever the words. */
  lemma PieceBoundary(kw: set<string>, s: string, pos: Pos)
    requires s != "" && !Unclosed(s) && NextPiece(kw, s, pos).len <= |s|
    ensures var p := NextPiece(kw, s, pos); Boundary(s, p.len) || (IsDigit(s[0]) && GluesNext(p, s))
  {
    var p := NextPiece(kw, s, pos);
    if IsSpace(s[0]) {
    } else if s[0] == '/' && |s| > 1 && s[1] == '/' {
      assert p.len < |s| ==> s[p.len] == s[2..][p.len - 2];
    } else if s[0] == '/' && |s| > 1 && s[1] == '*' {
      BlockReplaced(s[2..], "a", "a", Right(pos, 2), Pos(0, 0));
    } else if s[0] == '"' || s[0] == '\'' {
      StringReplaced(s[1..], s[0], "a", "a", Right(pos, 1), Pos(0, 0));
    } else if IsIdentifierStart(s[0]) {
      assert p.len < |s| ==> s[p.len] == s[1..][p.len - 1];
    } else if IsDigit(s[0]) {
      NumberBoundary(kw, s, pos);
    }
  }

  /** Any prefix of s that holds the first k characters is replaced part by part. */
  ghost predicate CutAt(s: string, k: nat, j: nat, glued: bool, g: bool, o: string, n: string)
  {
    k + j <= |s| ==>
      ReplacedFrom(s[..k + j], glued, o, n) == ReplacedFrom(s[..k], glued, o, n) + ReplacedFrom(s[k..][..j], g, o, n)
  }

  lemma CutBoundary(s: string, k: nat, j: nat, o: string, n: string)
    requires 0 < k <= |s| && Boundary(s, k)
    ensures CutAt(s, k, j, false, false, o, n)
  {
    if k + j <= |s| {
      var u := s[..k + j];
      assert u[..k] == s[..k] && u[k..] == s[k..][..j];
      CutReplaced(u, k, o, n);
      var u', k' := Replaced(u, o, n), |Replaced(u[..k], o, n)|;
      assert u' == u'[..k'] + u'[k'..];
    }
  }

  lemma NumberAlone(w: string, o: string, n: string)
    requires IsIdentifier(o) && AllOf(w, IsNumberPart)
    ensures Replaced(w, o, n) == w
  {
    assert w[..|w|] == w && w[|w|..] == "";
    NumberReplaced(w, |w|, o, n);
  }

  lemma CutNumber(s: string, k: nat, j: nat, o: string, n: string)
    requires IsIdentifier(o) && k < |s| && AllOf(s[..k], IsNumberPart) && !IsNumberPart(s[k]) && Glues(s, k)
    ensures CutAt(s, k, j, false, true, o, n)
  {
    if k + j <= |s| {
      var u := s[..k + j];
      assert u[..k] == s[..k] && u[k..] == s[k..][..j];
      NumberAlone(s[..k], o, n);
      if j > 0 {
        NumberReplaced(u, k, o, n);
      } else {
        assert u == s[..k];
      }
    }
  }

  lemma CutGlued(s: string, w: string, rest: string, j: nat, o: string, n: string)
    requires IsWord(w, IsIdentifierPart) && StartsApart(rest, IsIdentifierPart) && s == w + rest
    ensures CutAt(s, |w|, j, true, false, o, n)
  {
    if |w| + j <= |s| {
      assert s[..|w| + j] == w + rest[..j] && s[|w|..] == rest && s[..|w|] == w + "";
      GluedAlone(w, rest[..j], o, n);
      GluedAlone(w, "", o, n);
    }
  }

  lemma CutPiece(kw: set<string>, s: string, glued: bool, pos: Pos, j: nat, o: string, n: string)
    requires s != "" && !Unclosed(s) && IsIdentifier(o) && (glued ==> IsIdentifierStart(s[0]))
    requires NextPiece(kw, s, pos).len <= |s|
    ensures var p := NextPiece(kw, s, pos); CutAt(s, p.len, j, glued, GluesNext(p, s), o, n)
  {
    var p := NextPiece(kw, s, pos);
    if glued {
      var w, rest := SplitHead(s, IsIdentifierPart);
      WordPiece(kw, w, rest, pos);
      CutGlued(s, w, rest, j, o, n);
    } else {
      PieceBoundary(kw, s, pos);
      if IsDigit(s[0]) {
        NumberBoundary(kw, s, pos);
      }
      if GluesNext(p, s) {
        CutNumber(s, p.len, j, o, n);
      } else {
        CutBoundary(s, p.len, j, o, n);
      }
    }
  }

  // ---------------------------------------------------------------- where the tokens are

  /** What stands in front of place j of s stands, replaced, in front of place j' of s'. */
  ghost predicate Spot(s: string, j: int, s': string, j': int, glued: bool, o: string, n: string)
  {
    0 <= j <= |s| && 0 <= j' <= |s'| && s'[..j'] == ReplacedFrom(s[..j], glued, o, n)
  }

  /** The same for places counted from offsets. */
  ghost predicate SpotFrom(s: string, at: int, offset: int, s': string, at': int, offset': int, glued: bool, o: string,
      n: string)
  {
    Spot(s, at - offset, s', at' - offset', glued, o, n)
  }

  /** A token t of s and a token u of s', these texts beginning at the two offsets. */
  ghost predicate PlacedToken(s: string, t: Token, offset: nat, s': string, u: Token, offset': nat, glued: bool,
      o: string, n: string)
  {
    && SpotFrom(s, t.offset, offset, s', u.offset, offset', glued, o, n)
    && SpotFrom(s, t.end, offset, s', u.end, offset', glued, o, n)
  }

  ghost predicate Placed(s: string, ts: seq<Token>, offset: nat, s': string, us: seq<Token>, offset': nat, glued: bool,
      o: string, n: string)
  {
    |us| == |ts| && forall k :: 0 <= k < |ts| ==> PlacedToken(s, ts[k], offset, s', us[k], offset', glued, o, n)
  }

  /** Cut into its first k characters, replaced to k', and the rest. */
  ghost predicate Cuts(s: string, k: nat, rest: string, s': string, k': nat, rest': string, glued: bool, g: bool,
      o: string, n: string)
  {
    && k <= |s| && rest == s[k..]
    && k' <= |s'| && rest' == s'[k'..] && s'[..k'] == ReplacedFrom(s[..k], glued, o, n)
    && forall j: nat :: CutAt(s, k, j, glued, g, o, n)
  }

  lemma SpotLater(s: string, k: nat, rest: string, j: int, s': string, k': nat, rest': string, j': int, glued: bool,
      g: bool, o: string, n: string)
    requires Cuts(s, k, rest, s', k', rest', glued, g, o, n) && Spot(rest, j, rest', j', g, o, n)
    ensures Spot(s, k + j, s', k' + j', glued, o, n)
  {
    assert CutAt(s, k, j, glued, g, o, n);
    assert s'[..k' + j'] == s'[..k'] + rest'[..j'];
  }

  lemma SpotBehind(s: string, k: nat, rest: string, at: int, offset: int, s': string, k': nat, rest': string, at': int,
      offset': int, glued: bool, g: bool, o: string, n: string)
    requires Cuts(s, k, rest, s', k', rest', glued, g, o, n)
    requires SpotFrom(rest, at, offset + k, rest', at', offset' + k', g, o, n)
    ensures SpotFrom(s, at, offset, s', at', offset', glued, o, n)
  {
    var j, j' := at - (offset + k), at' - (offset' + k');
    assert at - offset == k + j && at' - offset' == k' + j';
    SpotLater(s, k, rest, j, s', k', rest', j', glued, g, o, n);
  }

  lemma SpotHere(s: string, k: nat, rest: string, s': string, k': nat, rest': string, glued: bool, g: bool, o: string,
      n: string)
    requires Cuts(s, k, rest, s', k', rest', glued, g, o, n)
    ensures Spot(s, 0, s', 0, glued, o, n) && Spot(s, k, s', k', glued, o, n)
  {
  }

  lemma TokenLater(s: string, k: nat, rest: string, t: Token, offset: nat, s': string, k': nat, rest': string, u: Token,
      offset': nat, glued: bool, g: bool, o: string, n: string)
    requires Cuts(s, k, rest, s', k', rest', glued, g, o, n)
    requires PlacedToken(rest, t, offset + k, rest', u, offset' + k', g, o, n)
    ensures PlacedToken(s, t, offset, s', u, offset', glued, o, n)
  {
    SpotBehind(s, k, rest, t.offset, offset, s', k', rest', u.offset, offset', glued, g, o, n);
    SpotBehind(s, k, rest, t.end, offset, s', k', rest', u.end, offset', glued, g, o, n);
  }

  lemma PlacedLater(s: string, k: nat, rest: string, ts: seq<Token>, offset: nat, s': string, k': nat, rest': string,
      us: seq<Token>, offset': nat, glued: bool, g: bool, o: string, n: string)
    requires Cuts(s, k, rest, s', k', rest', glued, g, o, n)
    requires Placed(rest, ts, offset + k, rest', us, offset' + k', g, o, n)
    ensures Placed(s, ts, offset, s', us, offset', glued, o, n)
  {
    forall i | 0 <= i < |ts|
      ensures PlacedToken(s, ts[i], offset, s', us[i], offset', glued, o, n)
    {
      TokenLater(s, k, rest, ts[i], offset, s', k', rest', us[i], offset', glued, g, o, n);
    }
  }

  lemma PlacedHead(s: string, t: Token, ts: seq<Token>, offset: nat, s': string, u: Token, us: seq<Token>, offset': nat,
      glued: bool, o: string, n: string)
    requires PlacedToken(s, t, offset, s', u, offset', glued, o, n)
    requires Placed(s, ts, offset, s', us, offset', glued, o, n)
    ensures Placed(s, [t] + ts, offset, s', [u] + us, offset', glued, o, n)
  {
  }

  // ---------------------------------------------------------------- lexing with any scanner

  ghost predicate AllCut(next: Scanner, o: string, n: string)
  {
    forall s, glued, pos, j: nat :: StepCut(next, s, glued, pos, j, o, n)
  }

  ghost predicate StepCut(next: Scanner, s: string, glued: bool, pos: Pos, j: nat, o: string, n: string)
  {
    var p := next(s, pos);
    s != "" && !Unclosed(s) && (glued ==> IsIdentifierStart(s[0])) && 0 < p.len <= |s| ==>
      && CutAt(s, p.len, j, glued, GluesNext(p, s), o, n)
      && (glued ==> ReplacedFrom(s[..p.len], true, o, n) == s[..p.len])
  }

  /** If the tokens are renamed at all, they are where they belong. */
  ghost predicate Moved(next: Scanner, s: string, glued: bool, offset: nat, pos: Pos, s': string, offset': nat,
      pos': Pos, o: string, n: string)
  {
    var r, r' := LexWith(next, s, offset, pos), LexWith(next, s', offset', pos');
    r.Tokens? && TextFits(s, r, o, n) ==> r'.Tokens? && Placed(s, r.tokens, offset, s', r'.tokens, offset', glued, o, n)
  }

  ghost predicate EndMoved(next: Scanner, s: string, offset: nat, pos: Pos, offset': nat, pos': Pos, o: string,
      n: string)
  {
    Unclosed(s) && pos.line == pos'.line ==> Moved(next, s, false, offset, pos, Replaced(s, o, n), offset', pos', o, n)
  }

  ghost predicate AllEndsMoved(next: Scanner, o: string, n: string)
  {
    forall s, offset, pos, offset', pos' :: EndMoved(next, s, offset, pos, offset', pos', o, n)
  }

  /** The scanners that do everything that is asked of them. */
  ghost function Movers(o: string, n: string): iset<Scanner>
  {
    iset next: Scanner |
      && ScansWords(next) && AllStepsKept(next, o, n) && AllEndsKnown(next, o, n)
      && AllCut(next, o, n) && AllEndsMoved(next, o, n)
  }

  lemma PieceCuts(next: Scanner, s: string, glued: bool, pos: Pos, p: Piece, s': string, p': Piece, rest: string,
      rest': string, g: bool, o: string, n: string)
    requires next in Movers(o, n) && s != "" && !Unclosed(s) && (glued ==> IsIdentifierStart(s[0]))
    requires next(s, pos) == p && PieceKept(s, glued, p, s', p', o, n) && 0 < p.len <= |s|
    requires rest == s[p.len..] && p'.len <= |s'| && rest' == s'[p'.len..] && (g <==> GluesNext(p, s))
    ensures Cuts(s, p.len, rest, s', p'.len, rest', glued, g, o, n)
  {
    forall j: nat
      ensures CutAt(s, p.len, j, glued, g, o, n)
    {
      assert StepCut(next, s, glued, pos, j, o, n);
    }
    assert StepCut(next, s, glued, pos, 0, o, n);
  }

  lemma MovedBehind(next: Scanner, s: string, glued: bool, offset: nat, pos: Pos, p: Piece, s': string, offset': nat,
      pos': Pos, p': Piece, rest: string, rest': string, g: bool, o: string, n: string)
    requires s != "" && s' != "" && next(s, pos) == p && next(s', pos') == p' && 0 < p.len <= |s| && 0 < p'.len <= |s'|
    requires (p.Lexed? <==> p'.Lexed?) && (p.Lexed? ==> ClosedLexeme(p.kind, s[..p.len]))
    requires Cuts(s, p.len, rest, s', p'.len, rest', glued, g, o, n)
    requires AllClosed(LexWith(next, rest, offset + p.len, p.pos)) || HasOther(rest)
    requires Moved(next, rest, g, offset + p.len, p.pos, rest', offset' + p'.len, p'.pos, o, n)
    ensures Moved(next, s, glued, offset, pos, s', offset', pos', o, n)
  {
    var q, q' := LexWith(next, rest, offset + p.len, p.pos), LexWith(next, rest', offset' + p'.len, p'.pos);
    WithTurn(next, s, offset, pos, p, q);
    WithTurn(next, s', offset', pos', p', q');
    var r := LexWith(next, s, offset, pos);
    if p.Lexed? {
      ClosedHead(HeadToken(p, s, offset, pos), q);
    }
    FitsBehind(s, p.len, r, q, o, n);
    if r.Tokens? && TextFits(s, r, o, n) {
      PlacedBehind(s, glued, offset, pos, p, q.tokens, s', offset', pos', p', q'.tokens, rest, rest', g, o, n);
    }
  }

  lemma PlacedBehind(s: string, glued: bool, offset: nat, pos: Pos, p: Piece, ts: seq<Token>, s': string, offset': nat,
      pos': Pos, p': Piece, us: seq<Token>, rest: string, rest': string, g: bool, o: string, n: string)
    requires 0 < p.len <= |s| && 0 < p'.len <= |s'|
    requires Cuts(s, p.len, rest, s', p'.len, rest', glued, g, o, n)
    requires Placed(rest, ts, offset + p.len, rest', us, offset' + p'.len, g, o, n)
    ensures Placed(s, ts, offset, s', us, offset', glued, o, n)
    ensures p.Lexed? && p'.Lexed? ==>
      var t, u := HeadToken(p, s, offset, pos), HeadToken(p', s', offset', pos');
      Placed(s, [t] + ts, offset, s', [u] + us, offset', glued, o, n)
  {
    PlacedLater(s, p.len, rest, ts, offset, s', p'.len, rest', us, offset', glued, g, o, n);
    if p.Lexed? && p'.Lexed? {
      SpotHere(s, p.len, rest, s', p'.len, rest', glued, g, o, n);
      PlacedHead(s, HeadToken(p, s, offset, pos), ts, offset, s', HeadToken(p', s', offset', pos'), us, offset', glued,
          o, n);
    }
  }

  lemma MovedEmpty(next: Scanner, glued: bool, offset: nat, pos: Pos, offset': nat, pos': Pos, o: string, n: string)
    ensures Moved(next, "", glued, offset, pos, "", offset', pos', o, n)
  {
  }

  lemma MovedPanic(next: Scanner, s: string, glued: bool, offset: nat, pos: Pos, s': string, offset': nat, pos': Pos,
      o: string, n: string)
    requires s != "" && next(s, pos).len > |s|
    ensures Moved(next, s, glued, offset, pos, s', offset', pos', o, n)
  {
  }

  lemma MovedUnclosed(next: Scanner, s: string, glued: bool, offset: nat, pos: Pos, s': string, offset': nat, pos': Pos,
      o: string, n: string)
    requires next in Movers(o, n) && Unclosed(s) && pos.line == pos'.line && !glued
    requires s' == ReplacedFrom(s, glued, o, n)
    ensures Moved(next, s, glued, offset, pos, s', offset', pos', o, n)
  {
    assert EndMoved(next, s, offset, pos, offset', pos', o, n);
  }

  lemma ClosedOrOther(next: Scanner, s: string, glued: bool, offset: nat, pos: Pos, offset': nat, pos': Pos, o: string,
      n: string)
    requires next in Movers(o, n)
    requires IsAscii(s) && pos.line == pos'.line && (glued ==> s != "" && IsIdentifierStart(s[0]))
    ensures AllClosed(LexWith(next, s, offset, pos)) || HasOther(s)
  {
    WithRenamed(next, s, glued, offset, pos, offset', pos', o, n);
  }

  lemma TakeMove(next: Scanner, s: string, glued: bool, pos: Pos, pos': Pos, o: string, n: string)
    returns (p: Piece, s': string, p': Piece)
    requires next in Movers(o, n)
    requires s != "" && IsAscii(s) && pos.line == pos'.line && (glued ==> IsIdentifierStart(s[0])) && !Unclosed(s)
    ensures p == next(s, pos) && s' == ReplacedFrom(s, glued, o, n) && s' != "" && p' == next(s', pos')
    ensures PieceKept(s, glued, p, s', p', o, n)
    ensures (p.Lexed? && p.len <= |s| ==> ClosedLexeme(p.kind, s[..p.len])) && (glued ==> p.Lexed?)
  {
    p, s', p' := TakeStep(next, s, glued, pos, pos', o, n);
  }

  lemma {:induction false} WithMoved(next: Scanner, s: string, glued: bool, offset: nat, pos: Pos, offset': nat,
      pos': Pos, o: string, n: string)
    requires next in Movers(o, n)
    requires IsAscii(s) && pos.line == pos'.line && (glued ==> s != "" && IsIdentifierStart(s[0]))
    ensures Moved(next, s, glued, offset, pos, ReplacedFrom(s, glued, o, n), offset', pos', o, n)
    decreases |s|
  {
    if s == "" {
      MovedEmpty(next, glued, offset, pos, offset', pos', o, n);
    } else if Unclosed(s) {
      MovedUnclosed(next, s, glued, offset, pos, ReplacedFrom(s, glued, o, n), offset', pos', o, n);
    } else {
      var p, s', p' := TakeMove(next, s, glued, pos, pos', o, n);
      if p.len <= |s| {
        var rest, rest', g := RestKept(s, glued, p, s', p', o, n);
        ClosedOrOther(next, rest, g, offset + p.len, p.pos, offset' + p'.len, p'.pos, o, n);
        WithMoved(next, rest, g, offset + p.len, p.pos, offset' + p'.len, p'.pos, o, n);
        PieceCuts(next, s, glued, pos, p, s', p', rest, rest', g, o, n);
        MovedBehind(next, s, glued, offset, pos, p, s', offset', pos', p', rest, rest', g, o, n);
      } else {
        MovedPanic(next, s, glued, offset, pos, s', offset', pos', o, n);
      }
    }
  }

  // ---------------------------------------------------------------- the Java scanner

  lemma JavaCut(kw: set<string>, o: string, n: string)
    requires IsIdentifier(o)
    ensures AllCut(JavaScanner(kw), o, n)
  {
    forall s, glued, pos, j: nat
      ensures StepCut(JavaScanner(kw), s, glued, pos, j, o, n)
    {
      if s != "" && !Unclosed(s) && (glued ==> IsIdentifierStart(s[0])) && NextPiece(kw, s, pos).len <= |s| {
        CutPiece(kw, s, glued, pos, j, o, n);
        if glued {
          var w, rest := SplitHead(s, IsIdentifierPart);
          WordPiece(kw, w, rest, pos);
          GluedAlone(w, "", o, n);
          assert w + "" == w;
        }
      }
    }
  }

  lemma SpotsAtEnd(s: string, s': string, o: string, n: string)
    requires EndsAlike(s, s', o, n) && s' == Replaced(s, o, n)
    ensures Spot(s, 0, s', 0, false, o, n) && Spot(s, |s| - 1, s', |s'| - 1, false, o, n)
        && Spot(s, |s|, s', |s'|, false, o, n)
  {
    assert s[..|s|] == s && s'[..|s'|] == s';
  }

  lemma PlacedFrom(s: string, t: Token, offset: nat, i: nat, j: nat, s': string, u: Token, offset': nat, i': nat,
      j': nat, o: string, n: string)
    requires t.offset == offset + i && t.end == offset + j && u.offset == offset' + i' && u.end == offset' + j'
    requires Spot(s, i, s', i', false, o, n) && Spot(s, j, s', j', false, o, n)
    ensures PlacedToken(s, t, offset, s', u, offset', false, o, n)
  {
  }

  lemma LeftOverPlace(kw: set<string>, c: string, line: nat, offset: nat, ts: seq<Token>)
    requires LeftOver(kw, c, line, offset, ts)
    ensures ts == [] || (|ts| == 1 && ts[0].offset == offset && ts[0].end == offset + 1)
  {
  }

  /** The tokens of an unclosed comment that is renamed as it should. */
  lemma UnclosedPlaced(kw: set<string>, s: string, s': string, t: Token, ts: seq<Token>, u: Token, us: seq<Token>,
      offset: nat, offset': nat, line: nat, line': nat, o: string, n: string)
    requires s' == Replaced(s, o, n) && EndsAlike(s, s', o, n) && |ts| == |us|
    requires t.offset == offset && t.end == offset + |s| - 1 && u.offset == offset' && u.end == offset' + |s'| - 1
    requires LeftOver(kw, s[|s| - 1..], line, t.end, ts) && LeftOver(kw, s'[|s'| - 1..], line', u.end, us)
    ensures Placed(s, [t] + ts, offset, s', [u] + us, offset', false, o, n)
  {
    SpotsAtEnd(s, s', o, n);
    LeftOverPlace(kw, s[|s| - 1..], line, t.end, ts);
    LeftOverPlace(kw, s'[|s'| - 1..], line', u.end, us);
    PlacedFrom(s, t, offset, 0, |s| - 1, s', u, offset', 0, |s'| - 1, o, n);
    if ts != [] {
      PlacedFrom(s, ts[0], offset, |s| - 1, |s|, s', us[0], offset', |s'| - 1, |s'|, o, n);
    }
    PlacedHead(s, t, ts, offset, s', u, us, offset', false, o, n);
  }

  lemma OpeningMoved(kw: set<string>, s: string, offset: nat, pos: Pos, offset': nat, pos': Pos, o: string, n: string)
    requires Unclosed(s) && |s| == 2 && IsIdentifier(o) && IsIdentifier(n)
    ensures Moved(JavaScanner(kw), s, false, offset, pos, Replaced(s, o, n), offset', pos', o, n)
  {
    UnclosedReplaced(s, o, n);
    TwoOther(s, o, n);
    var s' := Replaced(s, o, n);
    assert s == "/*" && s' == s && s[2..] == "" && s[..2] == s && s[..0] == "";
    var p := UnclosedPiece(kw, s, pos);
    var p' := UnclosedPiece(kw, s, pos');
    WithTurn(JavaScanner(kw), s, offset, pos, p, Tokens([]));
    WithTurn(JavaScanner(kw), s, offset', pos', p', Tokens([]));
    var t, u := HeadToken(p, s, offset, pos), HeadToken(p', s, offset', pos');
    assert PlacedToken(s, t, offset, s', u, offset', false, o, n);
  }

  lemma MovedIs(next: Scanner, s: string, glued: bool, offset: nat, pos: Pos, s': string, offset': nat, pos': Pos,
      ts: seq<Token>, us: seq<Token>, o: string, n: string)
    requires LexWith(next, s, offset, pos) == Tokens(ts) && LexWith(next, s', offset', pos') == Tokens(us)
    requires TextFits(s, Tokens(ts), o, n) ==> Placed(s, ts, offset, s', us, offset', glued, o, n)
    ensures Moved(next, s, glued, offset, pos, s', offset', pos', o, n)
  {
  }

  lemma UnclosedMoves(kw: set<string>, s: string, t: Token, ts: seq<Token>, u: Token, us: seq<Token>, offset: nat,
      offset': nat, line: nat, o: string, n: string)
    requires Names(kw, o, n) && Unclosed(s) && |s| > 2 && |Replaced(s, o, n)| > 2
    requires t.kind == u.kind == Comment && t.line == u.line == line
    requires t.offset == offset && t.end == offset + |s| - 1
    requires t.lexeme == s[..|s| - 1] && LeftOver(kw, s[|s| - 1..], line + Newlines(t.lexeme), t.end, ts)
    requires var s' := Replaced(s, o, n);
      && u.offset == offset' && u.end == offset' + |s'| - 1
      && u.lexeme == s'[..|s'| - 1] && LeftOver(kw, s'[|s'| - 1..], line + Newlines(u.lexeme), u.end, us)
    requires o == n || EndKept(EndRun(s), o, n)
    ensures Placed(s, [t] + ts, offset, Replaced(s, o, n), [u] + us, offset', false, o, n)
  {
    UnclosedAlike(kw, s, t, ts, u, us, line, o, n);
    UnclosedPlaced(kw, s, Replaced(s, o, n), t, ts, u, us, offset, offset', line + Newlines(t.lexeme),
                   line + Newlines(u.lexeme), o, n);
  }

  lemma UnclosedAlike(kw: set<string>, s: string, t: Token, ts: seq<Token>, u: Token, us: seq<Token>, line: nat,
      o: string, n: string)
    requires Names(kw, o, n) && Unclosed(s) && |s| > 2 && |Replaced(s, o, n)| > 2
    requires t.kind == u.kind == Comment && t.line == u.line == line
    requires t.lexeme == s[..|s| - 1] && LeftOver(kw, s[|s| - 1..], line + Newlines(t.lexeme), t.end, ts)
    requires var s' := Replaced(s, o, n);
      u.lexeme == s'[..|s'| - 1] && LeftOver(kw, s'[|s'| - 1..], line + Newlines(u.lexeme), u.end, us)
    requires o == n || EndKept(EndRun(s), o, n)
    ensures EndsAlike(s, Replaced(s, o, n), o, n) && |ts| == |us|
  {
    UnclosedRenamed(kw, s, t, ts, u, us, line, o, n);
    EndsAlikeExactly(s, o, n);
  }

  lemma LongMoved(kw: set<string>, s: string, offset: nat, pos: Pos, s': string, offset': nat, pos': Pos, o: string,
      n: string)
    requires Names(kw, o, n) && Unclosed(s) && |s| > 2 && s' == Replaced(s, o, n) && pos.line == pos'.line
    ensures Moved(JavaScanner(kw), s, false, offset, pos, s', offset', pos', o, n)
  {
    UnclosedReplaced(s, o, n);
    var t, ts := UnclosedTokens(kw, s, offset, pos);
    var u, us := UnclosedTokens(kw, s', offset', pos');
    ClosedHead(t, Tokens(ts));
    if o == n || EndKept(EndRun(s), o, n) {
      UnclosedMoves(kw, s, t, ts, u, us, offset, offset', pos.line, o, n);
    }
    MovedIs(JavaScanner(kw), s, false, offset, pos, s', offset', pos', [t] + ts, [u] + us, o, n);
  }

  lemma JavaEndMoved(kw: set<string>, s: string, offset: nat, pos: Pos, offset': nat, pos': Pos, o: string, n: string)
    requires Names(kw, o, n)
    ensures EndMoved(JavaScanner(kw), s, offset, pos, offset', pos', o, n)
  {
    if Unclosed(s) && pos.line == pos'.line {
      if |s| == 2 {
        OpeningMoved(kw, s, offset, pos, offset', pos', o, n);
      } else {
        LongMoved(kw, s, offset, pos, Replaced(s, o, n), offset', pos', o, n);
      }
    }
  }

  lemma JavaMoved(kw: set<string>, text: string, o: string, n: string)
    requires Names(kw, o, n) && IsAscii(text)
    ensures var text' := Replaced(text, o, n);
            var r, r' := LexFrom(kw, text, 0, Pos(0, 0)), LexFrom(kw, text', 0, Pos(0, 0));
      r.Tokens? && TextFits(text, r, o, n) ==> r'.Tokens? && Placed(text, r.tokens, 0, text', r'.tokens, 0, false, o, n)
  {
    forall s, offset, pos, offset', pos'
      ensures EndMoved(JavaScanner(kw), s, offset, pos, offset', pos', o, n)
    {
      JavaEndMoved(kw, s, offset, pos, offset', pos', o, n);
    }
    JavaKept(kw, o, n);
    JavaCut(kw, o, n);
    JavaScansWords(kw);
    ReplacedPlain(text, o, n);
    LexIsWith(kw, text, 0, Pos(0, 0));
    LexIsWith(kw, Replaced(text, o, n), 0, Pos(0, 0));
    WithMoved(JavaScanner(kw), text, false, 0, Pos(0, 0), 0, Pos(0, 0), o, n);
  }

  /** The token u of text' is where the token t of text is when all before it is renamed: its offset, its end,
      and the line and column the automaton of the lexer counts. */
  ghost predicate MovedToken(text: string, t: Token, text': string, u: Token, o: string, n: string)
  {
    && t.offset <= t.end <= |text| && u.offset <= u.end <= |text'|
    && text'[..u.offset] == Replaced(text[..t.offset], o, n)
    && text'[..u.end] == Replaced(text[..t.end], o, n)
    && Pos(u.line, u.column) == ReadAll(Replaced(text[..t.offset], o, n), START).pos
  }

  lemma PlacedIsMoved(text: string, t: Token, text': string, u: Token, o: string, n: string)
    requires PlacedToken(text, t, 0, text', u, 0, false, o, n) && t.offset <= t.end && u.offset <= u.end <= |text'|
    requires ReadAll(text'[0..u.offset], START).pos == Pos(u.line, u.column)
    ensures MovedToken(text, t, text', u, o, n)
  {
    assert text'[0..u.offset] == text'[..u.offset];
  }

  /** Whenever the tokens of the renamed document are the renamed tokens, each stands where the renamed text in front
      of it ends: offsets, ends, lines and columns are those of the renamed prefix. */
  lemma RenamedTokensMove(kw: set<string>, text: string, o: string, n: string, part: char -> bool)
    requires Names(kw, o, n) && IsAscii(text) && AgreesOnAscii(part) && IsWord(o, part)
    ensures var text' := ApplyAll(text, RenameEdits(text, o, n, part));
            var r, r' := LexFrom(kw, text, 0, Pos(0, 0)), LexFrom(kw, text', 0, Pos(0, 0));
      r.Tokens? && r'.Tokens? && RenamedTokens(r.tokens, r'.tokens, o, n) ==>
        forall k :: 0 <= k < |r.tokens| ==> MovedToken(text, r.tokens[k], text', r'.tokens[k], o, n)
  {
    RenameReplacesWords(text, o, n, part);
    SameReplacement(text, o, n, part);
    RenameCommutesWithLexing(kw, text, o, n, part);
    JavaMoved(kw, text, o, n);
    var text' := Replaced(text, o, n);
    LexRefinesAutomaton(kw, text');
    LexLossless(kw, text);
    LexLossless(kw, text');
    var r, r' := LexFrom(kw, text, 0, Pos(0, 0)), LexFrom(kw, text', 0, Pos(0, 0));
    if r.Tokens? && r'.Tokens? && RenamedTokens(r.tokens, r'.tokens, o, n) {
      forall k | 0 <= k < |r.tokens|
        ensures MovedToken(text, r.tokens[k], text', r'.tokens[k], o, n)
      {
        PlacedIsMoved(text, r.tokens[k], text', r'.tokens[k], o, n);
      }
    }
  }
}
