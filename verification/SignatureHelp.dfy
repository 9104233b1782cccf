/** Where the cursor of a signature request stands: its offset, the call around it, and the argument it is in. */
module SignatureHelp {
  import opened Chars
  import opened Text
  import opened Protocol

  // ---------------------------------------------------------------- offsets

  /** The characters of the first n lines, their line ends included. */
  function LinesLength(lines: seq<string>, n: nat): nat
    requires n <= |lines|
  {
    if n == 0 then 0 else LinesLength(lines, n - 1) + |lines[n - 1]| + 1
  }

  function Clamp(lines: seq<string>, line: nat, character: nat): nat
    requires line < |lines|
  {
    if character > |lines[line]| then |lines[line]| else character
  }

  /** A position is in the text if its line is and its column is not negative. */
  predicate IsPosition(text: string, pos: Position)
  {
    0 <= pos.line < |Lines(text)| && pos.character >= 0
  }

  function OffsetOf(lines: seq<string>, line: nat, column: nat): nat
    requires line < |lines|
  {
    LinesLength(lines, line) + Clamp(lines, line, column)
  }

  method OffsetForPosition(text: string, pos: Position) returns (r: Result<nat>)
    ensures r.Err? <==> !IsPosition(text, pos)
    ensures r.Ok? ==> r.value == OffsetOf(Lines(text), pos.line, pos.character)
  {
    var lines := Lines(text);
    if pos.line < 0 || pos.line >= |lines| {
      return Err("position line is out of range");
    }
    var offset := 0;
    for i := 0 to pos.line
      invariant offset == LinesLength(lines, i)
    {
      offset := offset + |lines[i]| + 1;
    }
    var character := pos.character;
    if character < 0 {
      return Err("position character is out of range");
    }
    if character > |lines[pos.line]| {
      character := |lines[pos.line]|;
    }
    return Ok(offset + character);
  }

  /** The text before a column of a line. */
  function Before(lines: seq<string>, line: nat, column: nat): string
    requires line < |lines| && column <= |lines[line]|
  {
    JoinLines(lines[..line] + [lines[line][..column]])
  }

  lemma {:induction false} BeforeSplits(lines: seq<string>, line: nat, column: nat)
    requires line < |lines| && column <= |lines[line]|
    ensures |Before(lines, line, column)| == LinesLength(lines, line) + column
    ensures Before(lines, line, column) <= JoinLines(lines)
    decreases line
  {
    var head := [lines[line][..column]];
    if line == 0 {
      assert lines[..0] + head == head;
      assert lines[0][..column] <= lines[0];
    } else {
      assert (lines[..line] + head)[1..] == lines[1..][..line - 1] + head;
      BeforeSplits(lines[1..], line - 1, column);
      LengthBehind(lines, line);
    }
  }

  lemma {:induction false} LengthBehind(lines: seq<string>, n: nat)
    requires 0 < n <= |lines|
    ensures LinesLength(lines, n) == |lines[0]| + 1 + LinesLength(lines[1..], n - 1)
    decreases n
  {
    if n > 1 {
      LengthBehind(lines, n - 1);
    }
  }

  lemma BeforeLines(lines: seq<string>, line: nat, column: nat)
    requires line < |lines| && column <= |lines[line]|
    requires forall i :: 0 <= i < |lines| ==> OneLine(lines[i])
    ensures Lines(Before(lines, line, column)) == lines[..line] + [lines[line][..column]]
  {
    LinesOfJoin(lines[..line] + [lines[line][..column]]);
  }

  lemma PrefixEnds(text: string, s: string, ls: seq<string>, last: string)
    requires s <= text && Lines(s) == ls + [last]
    ensures |s| <= |text| && EndPos(text[..|s|]) == Pos(|ls|, |last|)
  {
    assert text[..|s|] == s;
  }

  lemma ExactAt(text: string, lines: seq<string>, line: nat, column: nat)
    requires lines == Lines(text) && line < |lines|
    ensures OffsetOf(lines, line, column) <= |text|
    ensures EndPos(text[..OffsetOf(lines, line, column)]) == Pos(line, Clamp(lines, line, column))
  {
    JoinOfLines(text);
    var c := Clamp(lines, line, column);
    BeforeSplits(lines, line, c);
    BeforeLines(lines, line, c);
    var s := Before(lines, line, c);
    PrefixEnds(text, s, lines[..line], lines[line][..c]);
    assert |s| == OffsetOf(lines, line, column);
  }

  /** The offset of a position: the text in front of it ends exactly there, in the line asked for and in the column
      asked for, or at the end of the line if the line is shorter. */
  lemma OffsetIsExact(text: string, pos: Position)
    requires IsPosition(text, pos)
    ensures OffsetOf(Lines(text), pos.line, pos.character) <= |text|
    ensures EndPos(text[..OffsetOf(Lines(text), pos.line, pos.character)])
         == Pos(pos.line, Clamp(Lines(text), pos.line, pos.character))
  {
    ExactAt(text, Lines(text), pos.line, pos.character);
  }

  lemma {:induction false} EndPosWithin(text: string, o: nat)
    requires o <= |text|
    ensures var p := EndPos(text[..o]);
            p.line < |Lines(text)| && p.column <= |Lines(text)[p.line]|
                && LinesLength(Lines(text), p.line) + p.column == o
    decreases o
  {
    if o == 0 {
      assert Lines(text[..0]) == [""];
    } else {
      var s := text[..o - 1];
      assert text[..o] == s + [text[o - 1]];
      EndPosWithin(text, o - 1);
      EndPosSnoc(s, text[o - 1]);
      CharacterAt(text, o - 1);
    }
  }

  /** The character behind a prefix: the next one of its line, or the end of the line. */
  lemma {:induction false} CharacterAt(text: string, o: nat)
    requires o < |text|
    requires var p := EndPos(text[..o]); p.line < |Lines(text)| && p.column <= |Lines(text)[p.line]|
    ensures var p, lines := EndPos(text[..o]), Lines(text);
      if text[o] == '\n' then p.column == |lines[p.line]| && p.line + 1 < |lines| else p.column < |lines[p.line]|
    decreases o
  {
    var rest := Lines(text[1..]);
    if o == 0 {
      assert Lines(text[..0]) == [""];
    } else {
      assert text[1..][..o - 1] == text[..o][1..];
      assert Lines(text[..o]) == if text[0] == '\n' then [""] + Lines(text[1..][..o - 1])
                                 else [[text[0]] + Lines(text[1..][..o - 1])[0]] + Lines(text[1..][..o - 1])[1..];
      CharacterAt(text[1..], o - 1);
    }
  }

  /** Every offset is the offset of the position where the text before it ends: positions and offsets match up. */
  lemma PositionOfOffset(text: string, o: nat)
    requires o <= |text|
    ensures var p := EndPos(text[..o]);
      IsPosition(text, Position(p.line, p.column)) && OffsetOf(Lines(text), p.line, p.column) == o
  {
    EndPosWithin(text, o);
  }

  // ---------------------------------------------------------------- parentheses

  /** Read behind `depth` open parentheses, s closes them all and never one more. */
  predicate Closes(s: string, depth: nat)
  {
    if s == "" then depth == 0
    else if s[0] == '(' then Closes(s[1..], depth + 1)
    else if s[0] == ')' then depth > 0 && Closes(s[1..], depth - 1)
    else Closes(s[1..], depth)
  }

  lemma {:induction false} ClosesOnce(s: string, depth: nat, depth': nat)
    requires Closes(s, depth) && Closes(s, depth')
    ensures depth == depth'
    decreases |s|
  {
    if s != "" {
      if s[0] == '(' {
        ClosesOnce(s[1..], depth + 1, depth' + 1);
      } else if s[0] == ')' {
        ClosesOnce(s[1..], depth - 1, depth' - 1);
      } else {
        ClosesOnce(s[1..], depth, depth');
      }
    }
  }

  /** Balanced text cut in two: the first part is balanced itself exactly if the second opens behind nothing. */
  lemma {:induction false} CutBalanced(u: string, v: string, depth: nat, open: nat)
    requires Closes(u + v, depth) && Closes(v, open)
    ensures Closes(u, depth) <==> open == 0
    decreases |u|
  {
    if u == "" {
      assert u + v == v;
      ClosesOnce(v, depth, open);
    } else {
      assert (u + v)[1..] == u[1..] + v;
      CutBalanced(u[1..], v, if u[0] == '(' then depth + 1 else if u[0] == ')' then depth - 1 else depth, open);
    }
  }

  /** o is an opening parenthesis that is still open at the offset, with balanced text behind it. */
  ghost predicate OpenAt(text: string, offset: nat, o: int)
    requires offset <= |text|
  {
    0 <= o < offset && text[o] == '(' && Closes(text[o + 1..offset], 0)
  }

  /** The last such parenthesis before k, or -1 if there is none. */
  ghost function LastOpen(text: string, offset: nat, k: nat): (o: int)
    requires k <= offset <= |text|
    ensures -1 <= o < k
    ensures o >= 0 ==> OpenAt(text, offset, o)
    ensures forall l :: o < l < k ==> !OpenAt(text, offset, l)
  {
    if k == 0 then -1 else if OpenAt(text, offset, k - 1) then k - 1 else LastOpen(text, offset, k - 1)
  }

  /** The backwards loop over depth and openIndex: what it finds is the innermost unmatched parenthesis. */
  method FindOpen(text: string, offset: nat) returns (openIndex: int)
    requires offset <= |text|
    ensures openIndex == LastOpen(text, offset, offset)
  {
    var depth := 0;
    var i := offset - 1;
    assert text[offset..offset] == "";
    while i >= 0
      invariant -1 <= i < offset
      invariant depth >= 0 && Closes(text[i + 1..offset], depth)
      invariant LastOpen(text, offset, offset) == LastOpen(text, offset, i + 1)
    {
      assert text[i..offset][1..] == text[i + 1..offset];
      if text[i] == ')' {
        depth := depth + 1;
      } else if text[i] == '(' {
        if depth == 0 {
          return i;
        }
        if OpenAt(text, offset, i) {
          ClosesOnce(text[i + 1..offset], depth, 0);
        }
        depth := depth - 1;
      }
      i := i - 1;
    }
    return -1;
  }

  // ---------------------------------------------------------------- the call

  predicate IsTokenSpace(c: char) { c == ' ' || c == '\t' || c == '\n' || c == '\r' }

  function TokenPart(part: char -> bool): char -> bool { c => part(c) || c == '.' }

  /** Where the longest run of such characters that ends at `end` begins. */
  function RunStart(text: string, end: nat, p: char -> bool): (start: nat)
    requires end <= |text|
    ensures start <= end && AllOf(text[start..end], p) && (start > 0 ==> !p(text[start - 1]))
  {
    if end > 0 && p(text[end - 1]) then
      assert text[RunStart(text, end - 1, p)..end] == text[RunStart(text, end - 1, p)..end - 1] + [text[end - 1]];
      RunStart(text, end - 1, p)
    else end
  }

  /** The two loops that step back, over white space and over the name. */
  method StepBack(text: string, end: nat, p: char -> bool) returns (start: nat)
    requires end <= |text|
    ensures start == RunStart(text, end, p)
  {
    start := end;
    while start > 0 && p(text[start - 1])
      invariant start <= end
      invariant RunStart(text, end, p) == RunStart(text, start, p)
    {
      start := start - 1;
    }
  }

  /** The commas that separate arguments: those with balanced text between the parenthesis and them. */
  ghost function Commas(text: string, open: nat, i: nat): set<int>
    requires open < i <= |text|
  {
    set k | open < k < i && text[k] == ',' && Closes(text[open + 1..k], 0)
  }

  lemma NestingBehind(text: string, open: nat, i: nat, offset: nat, nestedDepth: nat)
    requires offset <= |text| && OpenAt(text, offset, open)
    requires open < i <= offset && Closes(text[i..offset], nestedDepth)
    ensures Closes(text[open + 1..i], 0) <==> nestedDepth == 0
  {
    assert text[open + 1..i] + text[i..offset] == text[open + 1..offset];
    CutBalanced(text[open + 1..i], text[i..offset], 0, nestedDepth);
  }

  lemma CommasStep(text: string, open: nat, i: nat, separates: bool)
    requires open < i < |text|
    requires separates <==> text[i] == ',' && Closes(text[open + 1..i], 0)
    ensures |Commas(text, open, i + 1)| == |Commas(text, open, i)| + if separates then 1 else 0
  {
    var before, behind := Commas(text, open, i), Commas(text, open, i + 1);
    forall k
      ensures k in behind <==> k in before || (separates && k == i)
    {
    }
    if separates {
      assert behind == before + {i as int};
    } else {
      assert behind == before;
    }
  }

  /** The forward loop over nestedDepth and activeParameter. Behind an innermost open parenthesis nestedDepth
      never has to go below zero: the guard of its decrement always holds. */
  method CountCommas(text: string, open: nat, offset: nat) returns (activeParameter: nat)
    requires offset <= |text| && OpenAt(text, offset, open)
    ensures activeParameter == |Commas(text, open, offset)|
  {
    activeParameter := 0;
    var nestedDepth: nat := 0;
    var i := open + 1;
    assert Commas(text, open, i) == {};
    while i < offset && i < |text|
      invariant open < i <= offset
      invariant Closes(text[i..offset], nestedDepth)
      invariant activeParameter == |Commas(text, open, i)|
    {
      assert text[i..offset][1..] == text[i + 1..offset];
      NestingBehind(text, open, i, offset, nestedDepth);
      CommasStep(text, open, i, text[i] == ',' && nestedDepth == 0);
      if text[i] == '(' {
        nestedDepth := nestedDepth + 1;
      } else if text[i] == ')' {
        assert nestedDepth > 0;
        if nestedDepth > 0 {
          nestedDepth := nestedDepth - 1;
        }
      } else if text[i] == ',' {
        if nestedDepth == 0 {
          activeParameter := activeParameter + 1;
        }
      }
      i := i + 1;
    }
  }

  datatype Invocation = Invocation(name: string, activeParameter: nat) | NoInvocation

  /** The call at an offset is named by the token before the innermost open parenthesis, and its active argument is the
      number of commas behind it that no inner parenthesis holds; there is none without such a parenthesis or token. */
  ghost function InvocationOf(text: string, offset: int, part: char -> bool): Invocation
  {
    if offset < 0 || offset > |text| || LastOpen(text, offset, offset) < 0 then NoInvocation
    else
      var open := LastOpen(text, offset, offset);
      var end := RunStart(text, open, IsTokenSpace);
      var start := RunStart(text, end, TokenPart(part));
      if start == end then NoInvocation else Invocation(text[start..end], |Commas(text, open, offset)|)
  }

  method InvocationAtOffset(text: string, offset: int, part: char -> bool) returns (r: Invocation)
    ensures r == InvocationOf(text, offset, part)
  {
    if offset < 0 || offset > |text| {
      return NoInvocation;
    }
    var openIndex := FindOpen(text, offset);
    if openIndex < 0 {
      return NoInvocation;
    }
    var end := StepBack(text, openIndex, IsTokenSpace);
    var start := StepBack(text, end, TokenPart(part));
    if start == end {
      return NoInvocation;
    }
    var activeParameter := CountCommas(text, openIndex, offset);
    return Invocation(text[start..end], activeParameter);
  }

  // ---------------------------------------------------------------- which call it is

  /** A character of the name of a call. */
  predicate InName(c: char, part: char -> bool) { part(c) || c == '.' }

  /** The innermost parenthesis still open at the offset is at `open`, only white space stands between it and `end`, and
      the characters from `start` to `end` are a name, and as many as there are. */
  ghost predicate IsCall(text: string, offset: int, open: int, start: int, end: int, part: char -> bool)
  {
    && 0 <= offset <= |text| && OpenAt(text, offset, open) && (forall o :: OpenAt(text, offset, o) ==> o <= open)
    && 0 <= start < end <= open
    && (forall k :: end <= k < open ==> text[k] in {' ', '\t', '\n', '\r'}) && text[end - 1] !in {' ', '\t', '\n', '\r'}
    && (forall k :: start <= k < end ==> InName(text[k], part)) && (start == 0 || !InName(text[start - 1], part))
  }

  ghost predicate IsCallNamed(text: string, offset: int, open: int, start: int, end: int, part: char -> bool,
      r: Invocation)
  {
    && IsCall(text, offset, open, start, end, part)
    && r == Invocation(text[start..end], |Commas(text, open, offset)|)
  }

  /** There is a call exactly if there are such places, and then it is named by what stands there. */
  lemma CallIs(text: string, offset: int, part: char -> bool)
    ensures var r := InvocationOf(text, offset, part);
      r.Invocation? <==> exists open, start, end :: IsCall(text, offset, open, start, end, part)
    ensures var r := InvocationOf(text, offset, part);
      r.Invocation? ==> exists open, start, end :: IsCallNamed(text, offset, open, start, end, part, r)
  {
    if 0 <= offset <= |text| {
      var open := LastOpen(text, offset, offset);
      if open >= 0 {
        CallBefore(text, offset, open, part);
        var end := RunStart(text, open, IsTokenSpace);
        var start := RunStart(text, end, TokenPart(part));
        assert start < end ==> IsCallNamed(text, offset, open, start, end, part, InvocationOf(text, offset, part));
      }
      forall o, start, end | IsCall(text, offset, o, start, end, part)
        ensures InvocationOf(text, offset, part).Invocation?
      {
        CallFound(text, offset, o, start, end, part);
      }
    }
  }

  lemma CallBefore(text: string, offset: nat, open: nat, part: char -> bool)
    requires offset <= |text| && open == LastOpen(text, offset, offset)
    ensures var end := RunStart(text, open, IsTokenSpace);
            var start := RunStart(text, end, TokenPart(part));
      start < end ==> IsCall(text, offset, open, start, end, part)
  {
    var end := RunStart(text, open, IsTokenSpace);
    var start := RunStart(text, end, TokenPart(part));
    forall k | end <= k < open
      ensures IsTokenSpace(text[k])
    {
      assert text[end..open][k - end] == text[k];
    }
    forall k | start <= k < end
      ensures InName(text[k], part)
    {
      assert text[start..end][k - start] == text[k];
    }
  }

  lemma {:induction false} RunStartIs(text: string, start: nat, end: nat, p: char -> bool)
    requires start <= end <= |text| && (forall k :: start <= k < end ==> p(text[k]))
    requires start == 0 || !p(text[start - 1])
    ensures RunStart(text, end, p) == start
    decreases end
  {
    if start < end {
      RunStartIs(text, start, end - 1, p);
    }
  }

  lemma CallFound(text: string, offset: int, open: int, start: int, end: int, part: char -> bool)
    requires IsCall(text, offset, open, start, end, part)
    ensures LastOpen(text, offset, offset) == open
    ensures RunStart(text, open, IsTokenSpace) == end && RunStart(text, end, TokenPart(part)) == start
  {
    RunStartIs(text, end, open, IsTokenSpace);
    RunStartIs(text, start, end, TokenPart(part));
  }

  /** The places are unique. */
  lemma OneCall(text: string, offset: int, open: int, start: int, end: int, open': int, start': int, end': int,
      part: char -> bool)
    requires IsCall(text, offset, open, start, end, part) && IsCall(text, offset, open', start', end', part)
    ensures open == open' && start == start' && end == end'
  {
    CallFound(text, offset, open, start, end, part);
    CallFound(text, offset, open', start', end', part);
  }
}
