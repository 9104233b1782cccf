/** Printing a list of type tokens. */
module TypePrinter {
  import opened Chars
  import opened Lexer

  predicate NoSpaceAfter(x: string)
  {
    |x| == 1 && (x[0] == '<' || x[0] == '(' || x[0] == '[' || x[0] == '.' || x[0] == '@' || x[0] == ',')
  }

  predicate NoSpaceBefore(x: string)
  {
    |x| == 1 && (x[0] == '<' || x[0] == '>' || x[0] == ')' || x[0] == ']' || x[0] == '.' || x[0] == ',' || x[0] == ';')
  }

  predicate NeedsSpace(prev: string, current: string)
  {
    !NoSpaceAfter(prev) && !NoSpaceBefore(current)
  }

  function Space(prev: string, current: string): string
  {
    if NeedsSpace(prev, current) then " " else ""
  }

  /** The print of ts before trimming, taken up behind the token prev. */
  function After(prev: string, ts: seq<Token>): string
    decreases |ts|
  {
    if ts == [] then "" else Space(prev, ts[0].lexeme) + (ts[0].lexeme + After(ts[0].lexeme, ts[1..]))
  }

  function Printed(ts: seq<Token>): string
  {
    if ts == [] then "" else ts[0].lexeme + After(ts[0].lexeme, ts[1..])
  }

  function Joined(ts: seq<Token>): string { TrimSpace(Printed(ts)) }

  method JoinTypeTokens(tokens: seq<Token>) returns (joined: string)
    ensures joined == Joined(tokens)
  {
    var b := "";
    var i := 0;
    ghost var prev := "(";
    assert tokens[0..] == tokens;
    while i < |tokens|
      invariant 0 <= i <= |tokens|
      invariant i > 0 ==> prev == tokens[i - 1].lexeme
      invariant i == 0 ==> prev == "("
      invariant Printed(tokens) == b + After(prev, tokens[i..])
    {
      var tok := tokens[i];
      PrintStep(b, prev, tokens[i..]);
      assert tokens[i..][1..] == tokens[i + 1..];
      if i > 0 && NeedsSpace(tokens[i - 1].lexeme, tok.lexeme) {
        b := b + " ";
      } else {
        assert b + "" == b;
      }
      b := b + tok.lexeme;
      prev := tok.lexeme;
      i := i + 1;
    }
    assert b + "" == b;
    return TrimSpace(b);
  }

  lemma PrintStep(b: string, prev: string, ts: seq<Token>)
    requires ts != []
    ensures b + After(prev, ts) == ((b + Space(prev, ts[0].lexeme)) + ts[0].lexeme) + After(ts[0].lexeme, ts[1..])
  {
    var x, y, z := Space(prev, ts[0].lexeme), ts[0].lexeme, After(ts[0].lexeme, ts[1..]);
    assert After(prev, ts) == x + (y + z);
    RegroupFour(b, x, y, z);
  }

  lemma RegroupFour(b: string, x: string, y: string, z: string)
    ensures b + (x + (y + z)) == ((b + x) + y) + z
  {
  }

  // ---------------------------------------------------------------- where the blanks are

  /** What stands between two neighbours: no blank behind an opening mark, a dot, an `@` or a comma, none before an
      angle bracket, a closing mark, a dot, a comma or a semicolon, and one anywhere else. */
  function Gap(x: string, y: string): string
  {
    if x in {"<", "(", "[", ".", "@", ","} || y in {"<", ">", ")", "]", ".", ",", ";"} then "" else " "
  }

  lemma SpaceIsGap(x: string, y: string)
    ensures Space(x, y) == Gap(x, y)
  {
    assert NoSpaceAfter(x) <==> x in {"<", "(", "[", ".", "@", ","} by {
      assert |x| == 1 ==> x == [x[0]];
    }
    assert NoSpaceBefore(y) <==> y in {"<", ">", ")", "]", ".", ",", ";"} by {
      assert |y| == 1 ==> y == [y[0]];
    }
  }

  lemma {:induction false} AfterBoth(prev: string, a: seq<Token>, x: Token, ts: seq<Token>)
    ensures After(prev, (a + [x]) + ts) == After(prev, a + [x]) + After(x.lexeme, ts)
    decreases |a|
  {
    var head, all := a + [x], (a + [x]) + ts;
    if a == [] {
      assert all[0] == x && all[1..] == ts && head[1..] == [];
      RegroupThree(Space(prev, x.lexeme), x.lexeme, After(x.lexeme, ts));
    } else {
      assert all[0] == a[0] && all[1..] == (a[1..] + [x]) + ts && head[1..] == a[1..] + [x];
      AfterBoth(a[0].lexeme, a[1..], x, ts);
      RegroupFirst(Space(prev, a[0].lexeme), a[0].lexeme, After(a[0].lexeme, a[1..] + [x]), After(x.lexeme, ts));
    }
  }

  lemma RegroupThree(x: string, y: string, z: string)
    ensures x + (y + z) == (x + (y + "")) + z
  {
  }

  lemma RegroupFirst(w: string, x: string, y: string, z: string)
    ensures w + (x + (y + z)) == (w + (x + y)) + z
  {
  }

  /** A print begins like what follows an opening parenthesis. */
  lemma PrintedIsAfter(ts: seq<Token>)
    ensures Printed(ts) == After("(", ts)
  {
    if ts != [] {
      assert Space("(", ts[0].lexeme) == "";
      assert "" + (ts[0].lexeme + After(ts[0].lexeme, ts[1..])) == ts[0].lexeme + After(ts[0].lexeme, ts[1..]);
    }
  }

  lemma AfterFirst(x: string, y: Token, b: seq<Token>)
    ensures After(x, [y] + b) == Gap(x, y.lexeme) + Printed([y] + b)
  {
    var ts := [y] + b;
    assert ts[0] == y && ts[1..] == b;
    SpaceIsGap(x, y.lexeme);
  }

  lemma RegroupGap(w: string, g: string, z: string)
    ensures w + (g + z) == (w + g) + z
  {
  }

  /** A print is put together, at any place, of the prints in front of it and behind it and the gap between them. */
  lemma PrintedApart(a: seq<Token>, x: Token, y: Token, b: seq<Token>)
    ensures Printed((a + [x]) + ([y] + b)) == (Printed(a + [x]) + Gap(x.lexeme, y.lexeme)) + Printed([y] + b)
    ensures Printed([x]) == x.lexeme
  {
    PrintedIsAfter((a + [x]) + ([y] + b));
    PrintedIsAfter(a + [x]);
    AfterBoth("(", a, x, [y] + b);
    AfterFirst(x.lexeme, y, b);
    RegroupGap(Printed(a + [x]), Gap(x.lexeme, y.lexeme), Printed([y] + b));
    assert [x][1..] == [];
  }

  /** s ends in this character. */
  predicate EndsIn(s: string, c: char) { s != "" && s[|s| - 1] == c }

  lemma EndOfThree(x: string, y: string, z: string, c: char)
    requires EndsIn(z, c) || (z == "" && EndsIn(y, c))
    ensures EndsIn(x + (y + z), c)
  {
  }

  lemma {:induction false} PrintedEnds(prev: string, ts: seq<Token>, c: char)
    requires ts != [] && EndsIn(ts[|ts| - 1].lexeme, c)
    ensures EndsIn(After(prev, ts), c)
    decreases |ts|
  {
    var y, rest := ts[0].lexeme, ts[1..];
    if rest == [] {
      assert After(y, rest) == "";
    } else {
      PrintedEnds(y, rest, c);
    }
    EndOfThree(Space(prev, y), y, After(y, rest), c);
  }

  /** With no white space at its ends nothing is trimmed off a print. */
  lemma JoinedIsPrint(ts: seq<Token>)
    requires ts != [] && Solid(ts[0].lexeme) && Solid(ts[|ts| - 1].lexeme)
    ensures Joined(ts) == Printed(ts) && Solid(Printed(ts))
  {
    if |ts| > 1 {
      var last := ts[|ts| - 1].lexeme;
      PrintedEnds(ts[0].lexeme, ts[1..], last[|last| - 1]);
    } else {
      assert Printed(ts) == ts[0].lexeme;
    }
    SolidStays(Printed(ts));
  }
}
