/** Text as lines, the way `strings.Split(text, "\n")` and `strings.Join` see it. */
module Text {

  /** A line number and the characters since the line began. */
  datatype Pos = Pos(line: nat, column: nat)

  predicate OneLine(s: string) { forall i :: 0 <= i < |s| ==> s[i] != '\n' }

  function Lines(text: string): (ls: seq<string>)
    ensures ls != []
    ensures forall i :: 0 <= i < |ls| ==> OneLine(ls[i]) && |ls[i]| <= |text|
  {
    if text == "" then [""]
    else
      var rest := Lines(text[1..]);
      if text[0] == '\n' then [""] + rest else [[text[0]] + rest[0]] + rest[1..]
  }

  function JoinLines(ls: seq<string>): string
    requires ls != []
  {
    if |ls| == 1 then ls[0] else ls[0] + "\n" + JoinLines(ls[1..])
  }

  lemma {:induction false} JoinOfLines(text: string)
    ensures JoinLines(Lines(text)) == text
    decreases |text|
  {
    if text != "" {
      JoinOfLines(text[1..]);
      var rest := Lines(text[1..]);
      if text[0] == '\n' {
        assert Lines(text)[1..] == rest;
        assert JoinLines(Lines(text)) == "" + "\n" + text[1..];
      } else {
        assert Lines(text)[1..] == rest[1..];
        if |rest| > 1 {
          var more := "\n" + JoinLines(rest[1..]);
          assert JoinLines(rest) == rest[0] + more;
          assert JoinLines(Lines(text)) == ([text[0]] + rest[0]) + more == [text[0]] + (rest[0] + more);
        }
      }
    }
  }

  lemma {:induction false} LinesOfLine(a: string)
    requires OneLine(a)
    ensures Lines(a) == [a]
    decreases |a|
  {
    if a != "" {
      LinesOfLine(a[1..]);
      assert [a[0]] + a[1..] == a;
    }
  }

  /** A character in front of a text: a line of its own if it is a newline, else part of the first line. */
  function InFront(c: char, ls: seq<string>): seq<string>
    requires ls != []
  {
    if c == '\n' then [""] + ls else [[c] + ls[0]] + ls[1..]
  }

  lemma LinesInFront(c: char, s: string)
    ensures Lines([c] + s) == InFront(c, Lines(s))
  {
    assert ([c] + s)[1..] == s;
  }

  lemma InFrontAppend(c: char, a: seq<string>, b: seq<string>)
    requires a != []
    ensures InFront(c, a + b) == InFront(c, a) + b
  {
  }

  lemma {:induction false} LinesAppend(a: string, b: string)
    ensures Lines(a + "\n" + b) == Lines(a) + Lines(b)
    decreases |a|
  {
    if a == "" {
      LinesInFront('\n', b);
      assert a + "\n" + b == ['\n'] + b;
    } else {
      LinesAppend(a[1..], b);
      LinesInFront(a[0], a[1..] + "\n" + b);
      LinesInFront(a[0], a[1..]);
      InFrontAppend(a[0], Lines(a[1..]), Lines(b));
      assert a + "\n" + b == [a[0]] + (a[1..] + "\n" + b);
      assert a == [a[0]] + a[1..];
    }
  }

  lemma {:induction false} LinesOfJoin(ls: seq<string>)
    requires ls != [] && forall i :: 0 <= i < |ls| ==> OneLine(ls[i])
    ensures Lines(JoinLines(ls)) == ls
    decreases |ls|
  {
    LinesOfLine(ls[0]);
    if |ls| == 1 {
    } else {
      LinesOfJoin(ls[1..]);
      LinesAppend(ls[0], JoinLines(ls[1..]));
    }
  }

  /** The position of the end of s: its last line and the length of that line. */
  function EndPos(s: string): Pos
  {
    var ls := Lines(s);
    Pos(|ls| - 1, |ls[|ls| - 1]|)
  }

  lemma {:induction false} EndPosSnoc(s: string, c: char)
    ensures EndPos(s + [c])
         == if c == '\n' then Pos(EndPos(s).line + 1, 0) else Pos(EndPos(s).line, EndPos(s).column + 1)
    decreases |s|
  {
    if c == '\n' {
      LinesAppend(s, "");
      assert s + [c] == s + "\n" + "";
    } else if s != "" {
      assert (s + [c])[1..] == s[1..] + [c];
      EndPosSnoc(s[1..], c);
    } else {
      LinesOfLine([c]);
    }
  }
}
