/** Applying the edits one after another, in the order of the answer, is replacing whole words. */
module RenameApply {
  import opened Chars
  import opened Text
  import opened Protocol
  import opened Sorting
  import opened Rename
  import opened RenameTheorems

  // ---------------------------------------------------------------- which edits there are

  lemma OnlyAtStart(line: string, name: string, a: nat, i: nat, part: char -> bool)
    requires IsWord(name, part) && OccursAt(line, name, a, part) && a < i < a + |name|
    ensures !OccursAt(line, name, i, part)
  {
    assert line[a..a + |name|][i - 1 - a] == line[i - 1];
  }

  /** The index jump of the scan loses no occurrence of an identifier. */
  lemma {:induction false} OccurrencesComplete(line: string, name: string, from: nat, c: nat, part: char -> bool)
    requires IsWord(name, part) && from <= c && OccursAt(line, name, c, part)
    ensures c in Occurrences(line, name, from, part)
    decreases |line| - from
  {
    if OccursAt(line, name, from, part) {
      if c != from {
        if c < from + |name| {
          OnlyAtStart(line, name, from, c, part);
        }
        OccurrencesComplete(line, name, from + |name|, c, part);
      }
    } else {
      OccurrencesComplete(line, name, from + 1, c, part);
    }
  }

  /** e replaces a whole word `name` of the document by newName, and exactly that word. */
  predicate IsWordEdit(lines: seq<string>, e: TextEdit, name: string, newName: string, part: char -> bool)
  {
    var at := e.range.start;
    && 0 <= at.line < |lines|
    && 0 <= at.character
    && OccursAt(lines[at.line], name, at.character, part)
    && e == EditAt(at.line, at.character, name, newName)
  }

  lemma LineExact(lines: seq<string>, l: nat, name: string, newName: string, part: char -> bool, e: TextEdit)
    requires l < |lines| && IsWord(name, part)
    ensures e in LineEdits(lines, l, name, newName, part)
       <==> e.range.start.line == l && IsWordEdit(lines, e, name, newName, part)
  {
    var columns := Occurrences(lines[l], name, 0, part);
    var here := LineEdits(lines, l, name, newName, part);
    OccurrencesSound(lines[l], name, 0, part);
    if e in here {
      var k :| 0 <= k < |here| && here[k] == e;
      assert columns[k] in columns;
    }
    if e.range.start.line == l && IsWordEdit(lines, e, name, newName, part) {
      OccurrencesComplete(lines[l], name, 0, e.range.start.character, part);
      var k :| 0 <= k < |columns| && columns[k] == e.range.start.character;
      assert here[k] == e;
    }
  }

  lemma {:induction false} BetweenExact(lines: seq<string>, lo: nat, hi: int, name: string, newName: string,
      part: char -> bool, e: TextEdit)
    requires hi <= |lines| && IsWord(name, part)
    ensures e in EditsBetween(lines, lo, hi, name, newName, part)
       <==> lo <= e.range.start.line < hi && IsWordEdit(lines, e, name, newName, part)
    decreases hi - lo
  {
    if lo < hi {
      LineExact(lines, lo, name, newName, part, e);
      BetweenExact(lines, lo + 1, hi, name, newName, part, e);
    }
  }

  lemma InReverse<T>(xs: seq<T>, x: T)
    ensures x in Reverse(xs) <==> x in xs
  {
    assert Reverse(Reverse(xs)) == xs;
  }

  /** The answer holds an edit for every whole word equal to the old name, for nothing else; read
      backwards it is in document order, each edit ending before the next begins. */
  lemma RenameEditsExact(text: string, oldName: string, newName: string, part: char -> bool)
    requires IsWord(oldName, part)
    ensures var edits := RenameEdits(text, oldName, newName, part);
      && InOrder(Reverse(edits))
      && (forall e :: e in edits <==> IsWordEdit(Lines(text), e, oldName, newName, part))
  {
    var lines := Lines(text);
    var all := EditsBetween(lines, 0, |lines|, oldName, newName, part);
    BetweenInOrder(lines, 0, |lines|, oldName, newName, part);
    assert Reverse(Reverse(all)) == all;
    forall e
      ensures e in Reverse(all) <==> IsWordEdit(lines, e, oldName, newName, part)
    {
      InReverse(all, e);
      BetweenExact(lines, 0, |lines|, oldName, newName, part, e);
    }
  }

  // ---------------------------------------------------------------- applying edits

  predicate Fits(doc: seq<string>, e: TextEdit)
  {
    && 0 <= e.range.start.line == e.range.end.line < |doc|
    && 0 <= e.range.start.character <= e.range.end.character <= |doc[e.range.start.line]|
  }

  /** One text edit on a document held as lines (a range that does not fit changes nothing). */
  function ApplyEdit(doc: seq<string>, e: TextEdit): (r: seq<string>)
    ensures |r| == |doc|
  {
    if Fits(doc, e) then
      var line := doc[e.range.start.line];
      doc[e.range.start.line := line[..e.range.start.character] + e.newText + line[e.range.end.character..]]
    else doc
  }

  function ApplyLines(doc: seq<string>, edits: seq<TextEdit>): (r: seq<string>)
    ensures |r| == |doc|
    decreases |edits|
  {
    if edits == [] then doc else ApplyLines(ApplyEdit(doc, edits[0]), edits[1..])
  }

  /** The edits of a request applied to the text, one after another in list order. */
  function ApplyAll(text: string, edits: seq<TextEdit>): string
    decreases |edits|
  {
    if edits == [] then text else ApplyAll(JoinLines(ApplyEdit(Lines(text), edits[0])), edits[1..])
  }

  lemma {:induction false} ApplyAllIsLines(text: string, edits: seq<TextEdit>)
    requires forall k :: 0 <= k < |edits| ==> OneLine(edits[k].newText)
    ensures ApplyAll(text, edits) == JoinLines(ApplyLines(Lines(text), edits))
    decreases |edits|
  {
    if edits == [] {
      JoinOfLines(text);
    } else {
      var doc := ApplyEdit(Lines(text), edits[0]);
      LinesOfJoin(doc);
      ApplyAllIsLines(JoinLines(doc), edits[1..]);
    }
  }

  lemma {:induction false} ApplySnoc(doc: seq<string>, edits: seq<TextEdit>, e: TextEdit)
    ensures ApplyLines(doc, edits + [e]) == ApplyEdit(ApplyLines(doc, edits), e)
    decreases |edits|
  {
    if edits == [] {
      assert (edits + [e])[1..] == [];
    } else {
      assert (edits + [e])[1..] == edits[1..] + [e];
      ApplySnoc(ApplyEdit(doc, edits[0]), edits[1..], e);
    }
  }

  /** Applying a list from its last element to its first. */
  function ApplyBack(doc: seq<string>, edits: seq<TextEdit>): (r: seq<string>)
    ensures |r| == |doc|
    decreases |edits|
  {
    if edits == [] then doc else ApplyEdit(ApplyBack(doc, edits[1..]), edits[0])
  }

  lemma {:induction false} ApplyReverse(doc: seq<string>, edits: seq<TextEdit>)
    ensures ApplyLines(doc, Reverse(edits)) == ApplyBack(doc, edits)
    decreases |edits|
  {
    if edits != [] {
      ApplyReverse(doc, edits[1..]);
      assert Reverse(edits) == Reverse(edits[1..]) + [edits[0]];
      ApplySnoc(doc, Reverse(edits[1..]), edits[0]);
    }
  }

  lemma {:induction false} ApplyBackAppend(doc: seq<string>, a: seq<TextEdit>, b: seq<TextEdit>)
    ensures ApplyBack(doc, a + b) == ApplyBack(ApplyBack(doc, b), a)
    decreases |a|
  {
    if a == [] {
      assert a + b == b;
    } else {
      assert (a + b)[1..] == a[1..] + b;
      ApplyBackAppend(doc, a[1..], b);
    }
  }

  // ---------------------------------------------------------------- one line

  /** Replace n characters at each of the columns, the last column first. */
  function Splice(line: string, columns: seq<nat>, n: nat, newName: string): string
    decreases |columns|
  {
    if columns == [] then line
    else
      var r := Splice(line, columns[1..], n, newName);
      if columns[0] + n <= |r| then r[..columns[0]] + newName + r[columns[0] + n..] else r
  }

  lemma {:induction false} NoWordInside(line: string, name: string, a: nat, i: nat, b: nat, part: char -> bool)
    requires IsWord(name, part) && a < i <= b <= |line| && AllOf(line[a..b], part)
    ensures Occurrences(line, name, i, part) == Occurrences(line, name, b, part)
    decreases b - i
  {
    if i < b {
      assert line[a..b][i - 1 - a] == line[i - 1];
      NoWordInside(line, name, a, i + 1, b, part);
    }
  }

  /** Splicing the columns from `from` on turns the rest of the line into `after`. */
  ghost predicate SplicesTo(line: string, columns: seq<nat>, n: nat, newName: string, from: nat, after: string)
  {
    from <= |line| && Splice(line, columns, n, newName) == line[..from] + after
  }

  lemma SpliceFirst(line: string, from: nat, w: string, columns: seq<nat>, newName: string, rest: string)
    requires SplicesTo(line, columns, |w|, newName, from + |w|, rest)
    ensures SplicesTo(line, [from] + columns, |w|, newName, from, newName + rest)
  {
    var r := line[..from + |w|] + rest;
    assert ([from] + columns)[1..] == columns;
    assert r[..from] == line[..from] && r[from + |w|..] == rest;
    Regroup(line[..from], newName, rest);
  }

  lemma SpliceSkip(line: string, from: nat, w: string, columns: seq<nat>, n: nat, newName: string, rest: string)
    requires SplicesTo(line, columns, n, newName, from + |w|, rest) && line[from..from + |w|] == w
    ensures SplicesTo(line, columns, n, newName, from, w + rest)
  {
    assert line[..from + |w|] == line[..from] + w;
    Regroup(line[..from], w, rest);
  }

  /** Splicing at the occurrences from `from` on replaces the words of s, the line from there on. */
  ghost predicate SplicesWords(line: string, from: nat, s: string, name: string, newName: string, part: char -> bool)
    requires name != ""
  {
    SplicesTo(line, Occurrences(line, name, from, part), |name|, newName, from, ReplaceWords(s, name, newName, part))
  }

  lemma SpliceNothing(line: string, name: string, newName: string, part: char -> bool)
    requires name != ""
    ensures SplicesWords(line, |line|, "", name, newName, part)
  {
    assert line[..|line|] == line;
  }

  lemma WordThenRest(line: string, from: nat, w: string, rest: string)
    requires from <= |line| && line[from..] == w + rest
    ensures from + |w| <= |line| && line[from..from + |w|] == w && line[from + |w|..] == rest
  {
    assert line[from..from + |w|] == (w + rest)[..|w|];
    assert line[from + |w|..] == (w + rest)[|w|..];
  }

  lemma HeadWord(line: string, from: nat, s: string, part: char -> bool) returns (w: string, rest: string)
    requires from <= |line| && line[from..] == s && s != "" && part(s[0])
    ensures IsWord(w, part) && StartsApart(rest, part) && s == w + rest && |rest| < |s|
    ensures from + |w| <= |line| && line[from + |w|..] == rest
  {
    w, rest := SplitHead(s, part);
    WordThenRest(line, from, w, rest);
  }

  lemma SpliceAtName(line: string, from: nat, rest: string, name: string, newName: string, part: char -> bool)
    requires IsWord(name, part) && StartsApart(rest, part)
    requires from <= |line| && line[from..] == name + rest && (from == 0 || !part(line[from - 1]))
    requires SplicesWords(line, from + |name|, rest, name, newName, part)
    ensures SplicesWords(line, from, name + rest, name, newName, part)
  {
    WordThenRest(line, from, name, rest);
    OccurrencesAtWord(line, name, from, name, part);
    ReplaceWord(name, rest, name, newName, part);
    SpliceFirst(line, from, name, Occurrences(line, name, from + |name|, part), newName,
                ReplaceWords(rest, name, newName, part));
  }

  lemma SpliceAtWord(line: string, from: nat, w: string, rest: string, name: string, newName: string,
                     part: char -> bool)
    requires IsWord(name, part) && IsWord(w, part) && w != name && StartsApart(rest, part)
    requires from <= |line| && line[from..] == w + rest && (from == 0 || !part(line[from - 1]))
    requires SplicesWords(line, from + |w|, rest, name, newName, part)
    ensures SplicesWords(line, from, w + rest, name, newName, part)
  {
    WordThenRest(line, from, w, rest);
    OccurrencesAtWord(line, name, from, w, part);
    ReplaceWord(w, rest, name, newName, part);
    SpliceSkip(line, from, w, Occurrences(line, name, from + |w|, part), |name|, newName,
               ReplaceWords(rest, name, newName, part));
  }

  lemma SpliceHead(line: string, from: nat, s: string, w: string, rest: string, name: string, newName: string,
                   part: char -> bool)
    requires IsWord(name, part) && IsWord(w, part) && StartsApart(rest, part) && s == w + rest
    requires from <= |line| && line[from..] == s && (from == 0 || !part(line[from - 1]))
    requires SplicesWords(line, from + |w|, rest, name, newName, part)
    ensures SplicesWords(line, from, s, name, newName, part)
  {
    if w == name {
      SpliceAtName(line, from, rest, name, newName, part);
    } else {
      SpliceAtWord(line, from, w, rest, name, newName, part);
    }
  }

  lemma SpliceAtOther(line: string, from: nat, s: string, name: string, newName: string, part: char -> bool)
    requires IsWord(name, part) && from < |line| && line[from..] == s && s != "" && !part(s[0])
    requires SplicesWords(line, from + 1, s[1..], name, newName, part)
    ensures SplicesWords(line, from, s, name, newName, part)
  {
    assert line[from] == line[from..][0] && line[from..from + 1] == [s[0]] && s == [s[0]] + s[1..];
    NotAtOther(line, name, from, part);
    ReplaceOther(s[0], s[1..], name, newName, part);
    SpliceSkip(line, from, [s[0]], Occurrences(line, name, from, part), |name|, newName,
               ReplaceWords(s[1..], name, newName, part));
  }

  /** Splicing at the occurrences from a word boundary on replaces the words of s, the line from there on. */
  lemma {:induction false} SpliceWords(line: string, from: nat, s: string, name: string, newName: string,
                                       part: char -> bool)
    requires IsWord(name, part) && from <= |line| && line[from..] == s
    requires from == 0 || !part(line[from - 1]) || StartsApart(s, part)
    ensures SplicesWords(line, from, s, name, newName, part)
    decreases |s|, 1
  {
    if s == "" {
      SpliceNothing(line, name, newName, part);
    } else if part(s[0]) {
      SpliceFromWord(line, from, s, name, newName, part);
    } else {
      SpliceFromOther(line, from, s, name, newName, part);
    }
  }

  lemma {:induction false} SpliceFromOther(line: string, from: nat, s: string, name: string, newName: string,
                                           part: char -> bool)
    requires IsWord(name, part) && from <= |line| && line[from..] == s && s != "" && !part(s[0])
    ensures SplicesWords(line, from, s, name, newName, part)
    decreases |s|, 0
  {
    WordThenRest(line, from, [s[0]], s[1..]);
    SpliceWords(line, from + 1, s[1..], name, newName, part);
    SpliceAtOther(line, from, s, name, newName, part);
  }

  lemma {:induction false} SpliceFromWord(line: string, from: nat, s: string, name: string, newName: string,
                                          part: char -> bool)
    requires IsWord(name, part) && from <= |line| && line[from..] == s && s != "" && part(s[0])
    requires from == 0 || !part(line[from - 1])
    ensures SplicesWords(line, from, s, name, newName, part)
    decreases |s|, 0
  {
    var w, rest := HeadWord(line, from, s, part);
    SpliceWords(line, from + |w|, rest, name, newName, part);
    SpliceHead(line, from, s, w, rest, name, newName, part);
  }

  lemma NotAtOther(line: string, name: string, from: nat, part: char -> bool)
    requires IsWord(name, part) && from < |line| && !part(line[from])
    ensures Occurrences(line, name, from, part) == Occurrences(line, name, from + 1, part)
  {
    if from + |name| <= |line| {
      assert line[from..from + |name|][0] == line[from];
    } else {
      assert Occurrences(line, name, from + 1, part) == [];
    }
  }

  lemma OccurrencesAtWord(line: string, name: string, from: nat, w: string, part: char -> bool)
    requires IsWord(name, part) && IsWord(w, part) && from + |w| <= |line| && line[from..from + |w|] == w
    requires from == 0 || !part(line[from - 1])
    requires StartsApart(line[from + |w|..], part)
    ensures Occurrences(line, name, from, part)
         == if w == name then [from] + Occurrences(line, name, from + |w|, part)
             else Occurrences(line, name, from + |w|, part)
  {
    var to := from + |w|;
    if w == name {
    } else {
      WordEnds(line, name, from, w, part);
      NoWordInside(line, name, from, from + 1, to, part);
      if from + |name| > |line| {
        assert Occurrences(line, name, to, part) == [];
      }
    }
  }

  lemma WordEnds(line: string, name: string, from: nat, w: string, part: char -> bool)
    requires IsWord(name, part) && IsWord(w, part) && from + |w| <= |line| && line[from..from + |w|] == w
    requires StartsApart(line[from + |w|..], part)
    ensures OccursAt(line, name, from, part) ==> w == name
  {
    var n, m := |name|, |w|;
    if n < m {
      assert w[n] == line[from..from + m][n] == line[from + n];
    } else if m < n && from + n <= |line| {
      assert line[from..from + n][m] == line[from + m] == line[from + m..][0];
    }
  }

  // ---------------------------------------------------------------- the whole document

  function ReplaceInLines(lines: seq<string>, oldName: string, newName: string, part: char -> bool): (r: seq<string>)
    ensures |r| == |lines|
    ensures forall k :: 0 <= k < |lines| ==> r[k] == ReplaceWords(lines[k], oldName, newName, part)
  {
    seq(|lines|, k requires 0 <= k < |lines| => ReplaceWords(lines[k], oldName, newName, part))
  }

  ghost predicate Within(columns: seq<nat>, n: nat, length: nat)
  {
    forall k :: 0 <= k < |columns| ==> columns[k] + n <= length
  }

  lemma ApplyAt(doc: seq<string>, l: nat, r: string, c: nat, name: string, newName: string)
    requires l < |doc| && c + |name| <= |r|
    ensures ApplyEdit(doc[l := r], EditAt(l, c, name, newName)) == doc[l := r[..c] + newName + r[c + |name|..]]
  {
    assert Fits(doc[l := r], EditAt(l, c, name, newName));
  }

  lemma EditsTail(l: nat, columns: seq<nat>, name: string, newName: string)
    requires columns != []
    ensures var edits := EditsFor(l, columns, name, newName);
      edits[0] == EditAt(l, columns[0], name, newName) && edits[1..] == EditsFor(l, columns[1..], name, newName)
  {
  }

  lemma ApplyBackFirst(doc: seq<string>, edits: seq<TextEdit>, first: TextEdit, rest: seq<TextEdit>,
      behind: seq<string>, all: seq<string>)
    requires edits != [] && edits[0] == first && edits[1..] == rest
    requires ApplyBack(doc, rest) == behind && ApplyEdit(behind, first) == all
    ensures ApplyBack(doc, edits) == all
  {
  }

  /** One more edit in front of those of a line: r is spliced at c. */
  lemma ApplyInFront(doc: seq<string>, l: nat, columns: seq<nat>, rest: seq<nat>, name: string, newName: string,
      r: string, c: nat, spliced: string)
    requires l < |doc| && columns != [] && columns[0] == c && columns[1..] == rest && c + |name| <= |r|
    requires ApplyBack(doc, EditsFor(l, rest, name, newName)) == doc[l := r]
    requires spliced == r[..c] + newName + r[c + |name|..]
    ensures ApplyBack(doc, EditsFor(l, columns, name, newName)) == doc[l := spliced]
  {
    EditsTail(l, columns, name, newName);
    ApplyAt(doc, l, r, c, name, newName);
    ApplyBackFirst(doc, EditsFor(l, columns, name, newName), EditAt(l, c, name, newName),
                   EditsFor(l, rest, name, newName), doc[l := r], doc[l := spliced]);
  }

  /** The edits of one line, applied last first, only splice that line. */
  lemma {:induction false} ApplyOneLine(doc: seq<string>, l: nat, columns: seq<nat>, name: string, newName: string,
      from: nat)
    requires l < |doc| && Apart(columns, |name|, from)
    requires Within(columns, |name|, |doc[l]|)
    ensures ApplyBack(doc, EditsFor(l, columns, name, newName)) == doc[l := Splice(doc[l], columns, |name|, newName)]
    ensures from <= |doc[l]| ==> SpliceKeeps(doc[l], Splice(doc[l], columns, |name|, newName), from)
    decreases |columns|
  {
    if columns == [] {
      assert doc[l := doc[l]] == doc;
    } else {
      var rest := columns[1..];
      ApplyOneLine(doc, l, rest, name, newName, columns[0] + |name|);
      var r := Splice(doc[l], rest, |name|, newName);
      assert SpliceKeeps(doc[l], r, columns[0] + |name|);
      ApplyInFront(doc, l, columns, rest, name, newName, r, columns[0], Splice(doc[l], columns, |name|, newName));
    }
  }

  /** Splicing leaves the first `from` characters alone. */
  ghost predicate SpliceKeeps(line: string, r: string, from: nat)
  {
    from <= |line| && from <= |r| && r[..from] == line[..from]
  }

  lemma OccurrencesFit(line: string, name: string, from: nat, part: char -> bool)
    requires name != ""
    ensures Within(Occurrences(line, name, from, part), |name|, |line|)
  {
    var r := Occurrences(line, name, from, part);
    OccurrencesSound(line, name, from, part);
    forall k | 0 <= k < |r|
      ensures r[k] + |name| <= |line|
    {
      assert r[k] in r;
    }
  }

  lemma ApplyLineEdits(doc: seq<string>, lines: seq<string>, l: nat, name: string, newName: string, part: char -> bool)
    requires IsWord(name, part) && l < |doc| == |lines| && doc[l] == lines[l]
    ensures ApplyBack(doc, LineEdits(lines, l, name, newName, part))
         == doc[l := ReplaceWords(lines[l], name, newName, part)]
  {
    var line := lines[l];
    var columns := Occurrences(line, name, 0, part);
    OccurrencesApart(line, name, 0, part);
    OccurrencesFit(line, name, 0, part);
    ApplyOneLine(doc, l, columns, name, newName, 0);
    assert line[0..] == line;
    SpliceWords(line, 0, line, name, newName, part);
  }

  /** The lines with words replaced from line lo to line hi (exclusive), and nowhere else. */
  function ReplaceInRange(lines: seq<string>, lo: int, hi: int, oldName: string, newName: string,
      part: char -> bool): (r: seq<string>)
    ensures |r| == |lines|
    ensures forall k :: 0 <= k < |lines| ==>
        r[k] == if lo <= k < hi then ReplaceWords(lines[k], oldName, newName, part) else lines[k]
  {
    seq(|lines|, k requires 0 <= k < |lines| =>
      if lo <= k < hi then ReplaceWords(lines[k], oldName, newName, part) else lines[k])
  }

  lemma EmptyRange(lines: seq<string>, lo: int, hi: int, name: string, newName: string, part: char -> bool)
    requires hi <= lo
    ensures ReplaceInRange(lines, lo, hi, name, newName, part) == lines
  {
  }

  lemma {:induction false} ApplyRange(lines: seq<string>, k: nat, hi: int, name: string, newName: string,
      part: char -> bool)
    requires IsWord(name, part) && hi <= |lines|
    ensures ApplyBack(lines, EditsBetween(lines, k, hi, name, newName, part))
         == ReplaceInRange(lines, k, hi, name, newName, part)
    decreases hi - k
  {
    if k < hi {
      var rest, doc := EditsBetween(lines, k + 1, hi, name, newName, part),
                       ReplaceInRange(lines, k + 1, hi, name, newName, part);
      ApplyRange(lines, k + 1, hi, name, newName, part);
      ApplyFirstLine(lines, k, rest, doc, name, newName, part);
      RangeGrows(lines, k, hi, name, newName, part);
    } else {
      EmptyRange(lines, k, hi, name, newName, part);
    }
  }

  lemma ApplyFirstLine(lines: seq<string>, k: nat, rest: seq<TextEdit>, doc: seq<string>, name: string,
      newName: string, part: char -> bool)
    requires IsWord(name, part) && k < |lines| == |doc| && doc[k] == lines[k] && ApplyBack(lines, rest) == doc
    ensures ApplyBack(lines, LineEdits(lines, k, name, newName, part) + rest)
         == doc[k := ReplaceWords(lines[k], name, newName, part)]
  {
    ApplyBackAppend(lines, LineEdits(lines, k, name, newName, part), rest);
    ApplyLineEdits(doc, lines, k, name, newName, part);
  }

  lemma RangeGrows(lines: seq<string>, k: nat, hi: int, name: string, newName: string, part: char -> bool)
    requires k < hi <= |lines|
    ensures ReplaceInRange(lines, k + 1, hi, name, newName, part)[k := ReplaceWords(lines[k], name, newName, part)]
         == ReplaceInRange(lines, k, hi, name, newName, part)
  {
  }

  lemma {:induction false} ReplaceJoined(lines: seq<string>, oldName: string, newName: string, part: char -> bool)
    requires lines != [] && !part('\n')
    ensures ReplaceWords(JoinLines(lines), oldName, newName, part)
         == JoinLines(ReplaceInLines(lines, oldName, newName, part))
    decreases |lines|
  {
    var r := ReplaceInLines(lines, oldName, newName, part);
    if |lines| > 1 {
      var rest := JoinLines(lines[1..]);
      ReplaceJoined(lines[1..], oldName, newName, part);
      assert r[1..] == ReplaceInLines(lines[1..], oldName, newName, part);
      Regroup(lines[0], "\n", rest);
      ReplaceAppend(lines[0], "\n" + rest, oldName, newName, part);
      ReplaceOther('\n', rest, oldName, newName, part);
      Regroup(r[0], "\n", JoinLines(r[1..]));
    }
  }

  /** Applying the answer edit by edit, in its own order, is replacing every whole word at once. */
  lemma RenameReplacesWords(text: string, oldName: string, newName: string, part: char -> bool)
    requires IsWord(oldName, part) && OneLine(newName) && !part('\n')
    ensures ApplyAll(text, RenameEdits(text, oldName, newName, part)) == ReplaceWords(text, oldName, newName, part)
  {
    var lines := Lines(text);
    var all := EditsBetween(lines, 0, |lines|, oldName, newName, part);
    AllWrite(lines, 0, |lines|, oldName, newName, part);
    ApplyAllIsLines(text, Reverse(all));
    ApplyReverse(lines, all);
    ApplyRange(lines, 0, |lines|, oldName, newName, part);
    assert ReplaceInRange(lines, 0, |lines|, oldName, newName, part) == ReplaceInLines(lines, oldName, newName, part);
    ReplaceJoined(lines, oldName, newName, part);
    JoinOfLines(text);
  }

  /** Renaming there and back restores the text exactly when the new name was not a word of it already. */
  lemma RenameUndo(text: string, oldName: string, newName: string, part: char -> bool)
    requires IsWord(oldName, part) && IsWord(newName, part) && !part('\n')
    ensures var renamed := ApplyAll(text, RenameEdits(text, oldName, newName, part));
      ApplyAll(renamed, RenameEdits(renamed, newName, oldName, part)) == text
      <==> oldName == newName || !HasWord(text, newName, part)
  {
    var renamed := ApplyAll(text, RenameEdits(text, oldName, newName, part));
    RenameReplacesWords(text, oldName, newName, part);
    RenameReplacesWords(renamed, newName, oldName, part);
    ReplaceTwice(text, oldName, newName, part);
    if oldName == newName {
      ReplaceSame(text, oldName, part);
    } else {
      ReplaceIsIdentity(text, newName, oldName, part);
    }
  }

  lemma {:induction false} ReplaceSame(s: string, name: string, part: char -> bool)
    ensures ReplaceWords(s, name, name, part) == s
    decreases |s|
  {
    if s == "" {
    } else if part(s[0]) {
      var w, rest := SplitHead(s, part);
      ReplaceSame(rest, name, part);
    } else {
      ReplaceSame(s[1..], name, part);
    }
  }

  // ---------------------------------------------------------------- the scans agree

  /** The locations are the ranges of the edits, one for one. */
  ghost predicate AreRanges(uri: string, locations: seq<Location>, edits: seq<TextEdit>)
  {
    |locations| == |edits| && forall k :: 0 <= k < |edits| ==> locations[k] == Location(uri, edits[k].range)
  }

  lemma RangesAppend(uri: string, ls: seq<Location>, es: seq<TextEdit>, ls': seq<Location>, es': seq<TextEdit>)
    requires AreRanges(uri, ls, es) && AreRanges(uri, ls', es')
    ensures AreRanges(uri, ls + ls', es + es')
  {
  }

  lemma {:induction false} LocationsAreRanges(uri: string, lines: seq<string>, lo: nat, hi: nat, name: string,
      newName: string, part: char -> bool)
    requires lo <= hi <= |lines| && name != ""
    ensures AreRanges(uri, LocationsBetween(uri, lines, lo, hi, name, part),
        EditsBetween(lines, lo, hi, name, newName, part))
    decreases hi - lo
  {
    if lo < hi {
      LocationsAreRanges(uri, lines, lo + 1, hi, name, newName, part);
      var columns := Occurrences(lines[lo], name, 0, part);
      assert AreRanges(uri, LocationsFor(uri, lo, columns, name), EditsFor(lo, columns, name, newName));
      RangesAppend(uri, LocationsFor(uri, lo, columns, name), EditsFor(lo, columns, name, newName),
                   LocationsBetween(uri, lines, lo + 1, hi, name, part),
                   EditsBetween(lines, lo + 1, hi, name, newName, part));
    }
  }

  /** The rename ranges are the reference ranges in reverse. */
  lemma ReferencesAreRenames(uri: string, text: string, name: string, newName: string, part: char -> bool)
    requires name != ""
    ensures var locations := LocationsBetween(uri, Lines(text), 0, |Lines(text)|, name, part);
            var edits := RenameEdits(text, name, newName, part);
            AreRanges(uri, locations, Reverse(edits)) && Write(edits, newName)
  {
    LocationsAreRanges(uri, Lines(text), 0, |Lines(text)|, name, newName, part);
    AllWrite(Lines(text), 0, |Lines(text)|, name, newName, part);
    var all := EditsBetween(Lines(text), 0, |Lines(text)|, name, newName, part);
    assert Reverse(Reverse(all)) == all;
  }

  ghost predicate Write(edits: seq<TextEdit>, newName: string)
  {
    forall k :: 0 <= k < |edits| ==> edits[k].newText == newName
  }

  lemma {:induction false} AllWrite(lines: seq<string>, lo: nat, hi: int, name: string, newName: string,
      part: char -> bool)
    requires hi <= |lines| && name != ""
    ensures Write(EditsBetween(lines, lo, hi, name, newName, part), newName)
    decreases hi - lo
  {
    if lo < hi {
      AllWrite(lines, lo + 1, hi, name, newName, part);
    }
  }

  /** The edits that start on one of the given lines, in their order. */
  function OnLines(edits: seq<TextEdit>, startLine: int, endLine: int): seq<TextEdit>
  {
    if edits == [] then []
    else
      var rest := OnLines(edits[1..], startLine, endLine);
      if startLine <= edits[0].range.start.line <= endLine then [edits[0]] + rest else rest
  }

  lemma {:induction false} OnLinesAppend(a: seq<TextEdit>, b: seq<TextEdit>, startLine: int, endLine: int)
    ensures OnLines(a + b, startLine, endLine) == OnLines(a, startLine, endLine) + OnLines(b, startLine, endLine)
    decreases |a|
  {
    if a == [] {
      assert a + b == b;
    } else {
      assert (a + b)[1..] == a[1..] + b;
      OnLinesAppend(a[1..], b, startLine, endLine);
    }
  }

  lemma {:induction false} OnLinesReverse(edits: seq<TextEdit>, startLine: int, endLine: int)
    ensures OnLines(Reverse(edits), startLine, endLine) == Reverse(OnLines(edits, startLine, endLine))
    decreases |edits|
  {
    if edits != [] {
      OnLinesReverse(edits[1..], startLine, endLine);
      assert Reverse(edits) == Reverse(edits[1..]) + [edits[0]];
      OnLinesAppend(Reverse(edits[1..]), [edits[0]], startLine, endLine);
      var rest := OnLines(edits[1..], startLine, endLine);
      assert Reverse([edits[0]] + rest) == Reverse(rest) + [edits[0]];
    }
  }

  lemma {:induction false} OnLinesOfOne(line: nat, columns: seq<nat>, name: string, newName: string, startLine: int,
      endLine: int)
    ensures var edits := EditsFor(line, columns, name, newName);
      OnLines(edits, startLine, endLine) == if startLine <= line <= endLine then edits else []
    decreases |columns|
  {
    if columns != [] {
      OnLinesOfOne(line, columns[1..], name, newName, startLine, endLine);
      assert EditsFor(line, columns, name, newName)[1..] == EditsFor(line, columns[1..], name, newName);
    }
  }

  /** One more line in front: its edits are kept or dropped together. */
  lemma FilterLine(lines: seq<string>, k: nat, rest: seq<TextEdit>, startLine: int, endLine: int, name: string,
      newName: string, part: char -> bool)
    requires k < |lines| && name != ""
    ensures OnLines(LineEdits(lines, k, name, newName, part) + rest, startLine, endLine)
         == (if startLine <= k <= endLine then LineEdits(lines, k, name, newName, part) else [])
            + OnLines(rest, startLine, endLine)
  {
    OnLinesAppend(LineEdits(lines, k, name, newName, part), rest, startLine, endLine);
    OnLinesOfOne(k, Occurrences(lines[k], name, 0, part), name, newName, startLine, endLine);
  }

  lemma {:induction false} FilterBetween(lines: seq<string>, k: nat, lo: nat, hi: int, startLine: int, endLine: int,
      name: string, newName: string, part: char -> bool)
    requires k <= |lines| && name != ""
    requires lo == (if startLine < 0 then 0 else startLine)
    requires hi == (if endLine >= |lines| then |lines| else endLine + 1)
    ensures OnLines(EditsBetween(lines, k, |lines|, name, newName, part), startLine, endLine)
         == EditsBetween(lines, if k < lo then lo else k, hi, name, newName, part)
    decreases |lines| - k
  {
    if k < |lines| {
      FilterBetween(lines, k + 1, lo, hi, startLine, endLine, name, newName, part);
      var rest := EditsBetween(lines, k + 1, |lines|, name, newName, part);
      FilterLine(lines, k, rest, startLine, endLine, name, newName, part);
      NothingInFront(OnLines(rest, startLine, endLine));
      FromLine(lines, k, lo, hi, name, newName, part);
      assert startLine <= k <= endLine <==> lo <= k < hi;
    }
  }

  lemma NothingInFront<T>(xs: seq<T>)
    ensures [] + xs == xs
  {
  }

  /** The edits from line k or lo on, whichever is later: those of line k if it is in the range, and the rest. */
  lemma FromLine(lines: seq<string>, k: nat, lo: nat, hi: int, name: string, newName: string, part: char -> bool)
    requires k < |lines| && hi <= |lines| && name != ""
    ensures EditsBetween(lines, if k < lo then lo else k, hi, name, newName, part)
         == (if lo <= k < hi then LineEdits(lines, k, name, newName, part) else [])
            + EditsBetween(lines, if k + 1 < lo then lo else k + 1, hi, name, newName, part)
  {
    NothingInFront(EditsBetween(lines, if k + 1 < lo then lo else k + 1, hi, name, newName, part));
  }

  /** The line-range edits are the whole-document edits filtered to the range, for every range. */
  lemma RangeEditsFilter(text: string, name: string, newName: string, startLine: int, endLine: int, part: char -> bool)
    requires name != ""
    ensures RangeEdits(text, name, newName, startLine, endLine, part)
         == OnLines(RenameEdits(text, name, newName, part), startLine, endLine)
  {
    var lines := Lines(text);
    var lo := if startLine < 0 then 0 else startLine;
    var hi := if endLine >= |lines| then |lines| else endLine + 1;
    FilterBetween(lines, 0, lo, hi, startLine, endLine, name, newName, part);
    OnLinesReverse(EditsBetween(lines, 0, |lines|, name, newName, part), startLine, endLine);
  }

  /** A rename restricted to a line range replaces the words of those lines and leaves every other line as it was. */
  lemma RangeRenameReplaces(text: string, oldName: string, newName: string, startLine: int, endLine: int,
      part: char -> bool)
    requires IsWord(oldName, part) && OneLine(newName)
    ensures ApplyAll(text, RangeEdits(text, oldName, newName, startLine, endLine, part))
         == JoinLines(ReplaceInRange(Lines(text), startLine, endLine + 1, oldName, newName, part))
  {
    var lines := Lines(text);
    var lo := if startLine < 0 then 0 else startLine;
    var hi := if endLine >= |lines| then |lines| else endLine + 1;
    var all := EditsBetween(lines, lo, hi, oldName, newName, part);
    AllWrite(lines, lo, hi, oldName, newName, part);
    ApplyAllIsLines(text, Reverse(all));
    ApplyReverse(lines, all);
    ApplyRange(lines, lo, hi, oldName, newName, part);
    assert ReplaceInRange(lines, lo, hi, oldName, newName, part)
        == ReplaceInRange(lines, startLine, endLine + 1, oldName, newName, part);
  }

  /** The rename of the word under the cursor has an edit over exactly that word. */
  lemma CursorIsRenamed(text: string, pos: Position, s: nat, e: nat, newName: string, part: char -> bool)
    requires UnderCursor(text, pos, s, e, part)
    ensures var word := Lines(text)[pos.line][s..e];
      EditAt(pos.line, s, word, newName) in RenameEdits(text, word, newName, part)
  {
    var word := Lines(text)[pos.line][s..e];
    assert OccursAt(Lines(text)[pos.line], word, s, part);
    RenameEditsExact(text, word, newName, part);
  }
}
