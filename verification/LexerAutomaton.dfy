/** The scanner against an independent automaton that reads one character at a time. */
module LexerAutomaton {
  import opened Chars
  import opened Text
  import opened Lexer
  import opened LexerTheorems

  datatype Mode = Code | Slash | InLine | Block | BlockStar | Literal(quote: char) | Escape(quote: char)

  datatype State = State(mode: Mode, pos: Pos)

  function FromCode(c: char): Mode
  {
    if c == '/' then Slash else if c == '"' || c == '\'' then Literal(c) else Code
  }

  function NextMode(m: Mode, c: char): Mode
  {
    match m
    case Code => FromCode(c)
    case Slash => if c == '/' then InLine else if c == '*' then Block else FromCode(c)
    case InLine => if c == '\n' then Code else InLine
    case Block => if c == '*' then BlockStar else Block
    case BlockStar => if c == '/' then Code else if c == '*' then BlockStar else Block
    case Literal(q) => if c == '\\' then Escape(q) else if c == q then Code else Literal(q)
    case Escape(q) => Literal(q)
  }

  /** A newline starts a new line unless a backslash inside a literal has just escaped it. */
  function Read(st: State, c: char): State
  {
    State(NextMode(st.mode, c), if c == '\n' && !st.mode.Escape? then NextLine(st.pos) else Right(st.pos, 1))
  }

  function ReadAll(s: string, st: State): State
  {
    if s == "" then st else ReadAll(s[1..], Read(st, s[0]))
  }

  const START := State(Code, Pos(0, 0))

  lemma {:induction false} ReadAppend(a: string, b: string, st: State)
    ensures ReadAll(a + b, st) == ReadAll(b, ReadAll(a, st))
    decreases |a|
  {
    if a == "" {
      assert a + b == b;
    } else {
      assert (a + b)[1..] == a[1..] + b;
      ReadAppend(a[1..], b, Read(st, a[0]));
    }
  }

  lemma ReadSplit(s: string, n: nat, st: State)
    requires n <= |s|
    ensures ReadAll(s, st) == ReadAll(s[n..], ReadAll(s[..n], st))
  {
    assert s == s[..n] + s[n..];
    ReadAppend(s[..n], s[n..], st);
  }

  /** Characters that leave the mode alone and do not end a line. */
  ghost predicate Quiet(s: string, m: Mode)
  {
    forall i :: 0 <= i < |s| ==> s[i] != '\n' && NextMode(m, s[i]) == m
  }

  lemma {:induction false} ReadQuiet(s: string, m: Mode, pos: Pos)
    requires Quiet(s, m)
    ensures ReadAll(s, State(m, pos)) == State(m, Right(pos, |s|))
    decreases |s|
  {
    if s != "" {
      assert forall i :: 0 <= i < |s[1..]| ==> s[1..][i] == s[i + 1];
      ReadQuiet(s[1..], m, Right(pos, 1));
    }
  }

  /** A block comment either closes, or leaves at most the last character of the text. */
  lemma {:induction false} ReadBlock(s: string, m: Mode, pos: Pos)
    requires m == Block || (m == BlockStar && (s == "" || s[0] != '/'))
    ensures var t := BlockTail(s, pos);
            var st := ReadAll(s[..t.len], State(m, pos));
            st.pos == t.pos && (st.mode == Code || (st.mode in {Block, BlockStar} && |s| - t.len <= 1))
    decreases |s|
  {
    var t := BlockTail(s, pos);
    if |s| > 1 {
      var st := Read(State(m, pos), s[0]);
      if s[0] == '*' && s[1] == '/' {
        assert s[..2] == ['*', '/'];
        assert s[..2][1..] == ['/'];
        assert ReadAll(s[..2], State(m, pos)) == ReadAll(['/'], st) == Read(st, '/');
      } else {
        assert s[..t.len][1..] == s[1..][..t.len - 1];
        ReadBlock(s[1..], st.mode, st.pos);
      }
    }
  }

  /** A literal closes, or runs to the end of the text, or panics on a final backslash. */
  lemma {:induction false} ReadLiteral(s: string, q: char, pos: Pos)
    requires q != '\\' && q != '\n'
    ensures var t := StringTail(s, q, pos);
            if t.len > |s| then ReadAll(s, State(Literal(q), pos)).mode == Escape(q)
            else var st := ReadAll(s[..t.len], State(Literal(q), pos));
              st.pos == t.pos && (st.mode == Code || (st.mode == Literal(q) && t.len == |s|))
    decreases |s|
  {
    var t := StringTail(s, q, pos);
    if s != "" {
      var st := Read(State(Literal(q), pos), s[0]);
      if t.len <= |s| {
        assert s[..t.len][1..] == s[1..][..t.len - 1];
      }
      if s[0] == '\\' {
        if |s| == 1 {
          assert ReadAll(s, State(Literal(q), pos)) == ReadAll(s[1..], st) == st;
        } else {
          assert s[1..][1..] == s[2..];
          if t.len <= |s| {
            assert s[1..][..t.len - 1][1..] == s[2..][..t.len - 2];
          }
          ReadLiteral(s[2..], q, Right(pos, 2));
          assert Read(st, s[1]) == State(Literal(q), Right(pos, 2));
        }
      } else if s[0] == q {
        assert s[..1][1..] == "";
      } else {
        ReadLiteral(s[1..], q, st.pos);
      }
    }
  }

  /** The automaton is ready for a new piece at the head of s. */
  ghost predicate InSync(m: Mode, s: string)
  {
    if s == "" then !m.Escape?
    else
      || m == Code
      || (m == Slash && s[0] != '/' && s[0] != '*')
      || (m == InLine && s[0] == '\n')
      || (m in {Block, BlockStar} && |s| == 1)
  }

  lemma ReadOne(s: string, st: State)
    requires s != ""
    ensures ReadAll(s[..1], st) == Read(st, s[0])
  {
    assert s[..1][1..] == "";
  }

  /** Reading `len` characters from a piece boundary leads to another one, at position `after`. */
  ghost predicate Follows(s: string, m: Mode, pos: Pos, len: nat, after: Pos)
  {
    if len > |s| then ReadAll(s, State(m, pos)).mode.Escape?
    else
      var st := ReadAll(s[..len], State(m, pos));
      st.pos == after && InSync(st.mode, s[len..])
  }

  lemma ReadCalm(s: string, n: nat, m: Mode, pos: Pos)
    requires 1 <= n <= |s| && s[0] != '\n' && NextMode(m, s[0]) == Code && Quiet(s[1..n], Code)
    ensures ReadAll(s[..n], State(m, pos)) == State(Code, Right(pos, n))
  {
    assert s[..n][1..] == s[1..n];
    ReadQuiet(s[1..n], Code, Right(pos, 1));
  }

  lemma ReadPlain(kw: set<string>, s: string, m: Mode, pos: Pos)
    requires s != "" && InSync(m, s)
    requires !IsSpace(s[0]) && s[0] != '"' && s[0] != '\''
    requires s[0] == '/' ==> |s| == 1 || (s[1] != '/' && s[1] != '*')
    ensures var p := PlainPiece(kw, s, pos); Follows(s, m, pos, p.len, p.pos)
  {
    var p := PlainPiece(kw, s, pos);
    ReadOne(s, State(m, pos));
    if p.len > 1 {
      assert m == Code || m == Slash;
      if IsIdentifierStart(s[0]) || IsDigit(s[0]) {
        assert s[1..][..p.len - 1] == s[1..p.len];
      }
      ReadCalm(s, p.len, m, pos);
    }
  }

  lemma ReadLineComment(s: string, m: Mode, pos: Pos)
    requires |s| >= 2 && s[0] == '/' && s[1] == '/' && (m == Code || m == Slash) && InSync(m, s)
    ensures var n := 2 + RunLen(s[2..], NotNewline); Follows(s, m, pos, n, Right(pos, n))
  {
    var n := 2 + RunLen(s[2..], NotNewline);
    ReadTwo(s, n, m, pos);
    ReadQuiet(s[2..][..n - 2], InLine, Right(pos, 2));
    assert n < |s| ==> s[n] == s[2..][n - 2];
  }

  lemma ReadTwo(s: string, n: nat, m: Mode, pos: Pos)
    requires 2 <= n <= |s| && s[0] == '/' && (s[1] == '/' || s[1] == '*') && NextMode(m, '/') == Slash
    ensures ReadAll(s[..n], State(m, pos))
         == ReadAll(s[2..][..n - 2], State(if s[1] == '/' then InLine else Block, Right(pos, 2)))
  {
    assert s[..n][1..][0] == s[1];
    assert s[..n][1..][1..] == s[2..][..n - 2];
  }

  lemma ReadBlockComment(s: string, m: Mode, pos: Pos)
    requires |s| >= 2 && s[0] == '/' && s[1] == '*' && m == Code
    ensures var t := BlockTail(s[2..], Right(pos, 2)); Follows(s, m, pos, 2 + t.len, t.pos)
  {
    var n := 2 + BlockTail(s[2..], Right(pos, 2)).len;
    ReadTwo(s, n, m, pos);
    ReadBlock(s[2..], Block, Right(pos, 2));
  }

  lemma ReadString(s: string, m: Mode, pos: Pos)
    requires s != "" && (s[0] == '"' || s[0] == '\'') && InSync(m, s)
    ensures var t := StringTail(s[1..], s[0], Right(pos, 1)); Follows(s, m, pos, 1 + t.len, t.pos)
  {
    var t := StringTail(s[1..], s[0], Right(pos, 1));
    if m == Code || m == Slash {
      ReadLiteral(s[1..], s[0], Right(pos, 1));
      if 1 + t.len <= |s| {
        assert s[..1 + t.len][1..] == s[1..][..t.len];
      }
    } else {
      assert s[1..] == "";
      ReadOne(s, State(m, pos));
    }
  }

  lemma ReadPiece(kw: set<string>, s: string, m: Mode, pos: Pos)
    requires s != "" && InSync(m, s)
    ensures var p := NextPiece(kw, s, pos); Follows(s, m, pos, p.len, p.pos)
  {
    if IsSpace(s[0]) {
      ReadOne(s, State(m, pos));
    } else if s[0] == '/' && |s| > 1 && s[1] == '/' {
      ReadLineComment(s, m, pos);
    } else if s[0] == '/' && |s| > 1 && s[1] == '*' {
      ReadBlockComment(s, m, pos);
    } else if s[0] == '"' || s[0] == '\'' {
      ReadString(s, m, pos);
    } else {
      ReadPlain(kw, s, m, pos);
    }
  }

  /** The scanner keeps step with the automaton. */
  ghost predicate InStep(next: Scanner)
  {
    forall s, m, pos :: s != "" && InSync(m, s) ==> Follows(s, m, pos, next(s, pos).len, next(s, pos).pos)
  }

  lemma JavaInStep(kw: set<string>)
    ensures InStep(JavaScanner(kw)) && Advances(JavaScanner(kw))
  {
    forall s, m, pos | s != "" && InSync(m, s)
      ensures Follows(s, m, pos, JavaScanner(kw)(s, pos).len, JavaScanner(kw)(s, pos).pos)
    {
      ReadPiece(kw, s, m, pos);
    }
  }

  ghost predicate Advances(next: Scanner)
  {
    forall s, pos :: next(s, pos).len > 0
  }

  /** The result and the automaton, reading from i in state st, agree on panics and positions. */
  ghost predicate Agrees(text: string, r: Result, i: nat, st: State)
    requires i <= |text|
  {
    if r.Panic? then ReadAll(text[i..], st).mode.Escape?
    else !ReadAll(text[i..], st).mode.Escape? && Positioned(text, r.tokens, i, st)
  }

  lemma AgreesPiece(text: string, i: nat, pos: Pos, p: Piece, st: State, r: Result)
    requires i < |text| && 0 < p.len && i + p.len <= |text| && st.pos == pos
    requires Agrees(text, r, i + p.len, ReadAll(text[i..i + p.len], st))
    ensures Agrees(text, if p.Blank? then r else Prepend(PieceToken(text, i, pos, p), r), i, st)
  {
    Unread(text, i, p.len);
    ReadSplit(text[i..], p.len, st);
    if r.Tokens? {
      PositionedLater(text, r.tokens, i, i + p.len, st);
      if p.Lexed? {
        PositionedHead(text, PieceToken(text, i, pos, p), r.tokens, i, st);
      }
    }
  }

  lemma PositionedHead(text: string, t: Token, rest: seq<Token>, i: nat, st: State)
    requires i <= |text| && t.offset == i && st.pos == Pos(t.line, t.column) && Positioned(text, rest, i, st)
    ensures Positioned(text, [t] + rest, i, st)
  {
    assert text[i..i] == "";
  }

  lemma {:induction false} LexFollows(next: Scanner, text: string, i: nat, m: Mode, pos: Pos)
    requires InStep(next) && Advances(next) && i <= |text| && InSync(m, text[i..])
    ensures Agrees(text, LexBy(next, text[i..], i, pos), i, State(m, pos))
    decreases |text| - i
  {
    if i < |text| {
      var p := next(text[i..], pos);
      LexTurn(next, text, i, pos, p);
      assert Follows(text[i..], m, pos, p.len, p.pos);
      if i + p.len <= |text| {
        Unread(text, i, p.len);
        var st := ReadAll(text[i..i + p.len], State(m, pos));
        assert st == State(st.mode, p.pos);
        LexFollows(next, text, i + p.len, st.mode, p.pos);
        AgreesPiece(text, i, pos, p, State(m, pos), LexBy(next, text[i + p.len..], i + p.len, p.pos));
      }
    }
  }

  /** Every token carries the position at which the automaton, reading from i in state st, meets it. */
  ghost predicate Positioned(text: string, tokens: seq<Token>, i: nat, st: State)
  {
    forall k :: 0 <= k < |tokens| ==>
      i <= tokens[k].offset <= |text|
          && ReadAll(text[i..tokens[k].offset], st).pos == Pos(tokens[k].line, tokens[k].column)
  }

  lemma PositionedLater(text: string, tokens: seq<Token>, i: nat, next: nat, st: State)
    requires i <= next <= |text|
    requires Positioned(text, tokens, next, ReadAll(text[i..next], st))
    ensures Positioned(text, tokens, i, st)
  {
    forall k | 0 <= k < |tokens|
      ensures ReadAll(text[i..tokens[k].offset], st).pos == Pos(tokens[k].line, tokens[k].column)
    {
      var s := text[i..tokens[k].offset];
      assert s[..next - i] == text[i..next] && s[next - i..] == text[next..tokens[k].offset];
      ReadSplit(s, next - i, st);
    }
  }

  /** The nested loops agree with the automaton on every text: they panic exactly when it ends
      right behind a backslash inside a literal, and otherwise every token carries its position. */
  lemma LexRefinesAutomaton(kw: set<string>, text: string)
    ensures var r := LexFrom(kw, text, 0, Pos(0, 0));
      && (r.Panic? <==> ReadAll(text, START).mode.Escape?)
      && (r.Tokens? ==> Positioned(text, r.tokens, 0, START))
  {
    assert text[0..] == text;
    JavaInStep(kw);
    LexFollows(JavaScanner(kw), text, 0, Code, Pos(0, 0));
  }

  // ---------------------------------------------------------------- plain positions

  /** How many newlines of s are swallowed by a backslash inside a literal. */
  function EscapedNewlines(s: string): nat
  {
    if s == "" then 0
    else
      var t := s[..|s| - 1];
      EscapedNewlines(t) + if s[|s| - 1] == '\n' && ReadAll(t, START).mode.Escape? then 1 else 0
  }

  lemma ReadLast(s: string, st: State)
    requires s != ""
    ensures ReadAll(s, st) == Read(ReadAll(s[..|s| - 1], st), s[|s| - 1])
  {
    ReadSplit(s, |s| - 1, st);
  }

  lemma {:induction false} AutomatonLine(s: string)
    ensures ReadAll(s, START).pos.line + EscapedNewlines(s) == EndPos(s).line
    ensures EscapedNewlines(s) == 0 ==> ReadAll(s, START).pos == EndPos(s)
    decreases |s|
  {
    if s != "" {
      ReadLast(s, START);
      AutomatonLine(s[..|s| - 1]);
      assert s == s[..|s| - 1] + [s[|s| - 1]];
      EndPosSnoc(s[..|s| - 1], s[|s| - 1]);
    }
  }

  /** Exactly when the recorded line and column are the true ones: when no newline before the
      token was escaped inside a literal. */
  lemma TokenPositionsExact(kw: set<string>, text: string)
    ensures var r := LexFrom(kw, text, 0, Pos(0, 0));
      r.Tokens? ==> forall k :: 0 <= k < |r.tokens| ==>
        var t := r.tokens[k];
        && t.offset <= |text|
        && (Pos(t.line, t.column) == EndPos(text[..t.offset]) <==> EscapedNewlines(text[..t.offset]) == 0)
  {
    var r := LexFrom(kw, text, 0, Pos(0, 0));
    LexRefinesAutomaton(kw, text);
    if r.Tokens? {
      forall k | 0 <= k < |r.tokens|
        ensures var t := r.tokens[k];
          Pos(t.line, t.column) == EndPos(text[..t.offset]) <==> EscapedNewlines(text[..t.offset]) == 0
      {
        var t := r.tokens[k];
        assert text[0..t.offset] == text[..t.offset];
        AutomatonLine(text[..t.offset]);
      }
    }
  }

  /** A text that does not end in a backslash is always lexed. */
  lemma NoFinalBackslashNoPanic(kw: set<string>, text: string)
    requires text == "" || text[|text| - 1] != '\\'
    ensures LexFrom(kw, text, 0, Pos(0, 0)).Tokens?
  {
    LexRefinesAutomaton(kw, text);
    EndsInEscape(text);
  }

  lemma EscapeRead(st: State, c: char)
    ensures Read(st, c).mode.Escape? ==> c == '\\'
  {
  }

  lemma EndsInEscape(text: string)
    ensures ReadAll(text, START).mode.Escape? ==> text != "" && text[|text| - 1] == '\\'
  {
    if text != "" {
      EscapeRead(ReadAll(text[..|text| - 1], START), text[|text| - 1]);
      ReadLast(text, START);
    }
  }
}
