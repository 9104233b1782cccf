/** The rename and reference scans over a document, and what applying their edits does to it.
    `part` is the identifier-character table; the text is a sequence of runes. */
module Rename {
  import opened Chars
  import opened Text
  import opened Protocol
  import opened Sorting

  // ---------------------------------------------------------------- the scans

  /** `name` stands at i as a whole word of the line. */
  predicate OccursAt(line: string, name: string, i: int, part: char -> bool)
  {
    && 0 <= i && i + |name| <= |line|
    && line[i..i + |name|] == name
    && (i == 0 || !part(line[i - 1]))
    && (i + |name| == |line| || !part(line[i + |name|]))
  }

  /** Leftmost, non-overlapping occurrences from column `from` on. */
  function Occurrences(line: string, name: string, from: nat, part: char -> bool): (r: seq<nat>)
    requires name != ""
    decreases |line| - from
  {
    if from + |name| > |line| then []
    else if OccursAt(line, name, from, part) then [from] + Occurrences(line, name, from + |name|, part)
    else Occurrences(line, name, from + 1, part)
  }

  /** Columns at least `from`, with room for n characters between any two. */
  ghost predicate Apart(columns: seq<nat>, n: nat, from: nat)
  {
    && (forall k :: 0 <= k < |columns| ==> from <= columns[k])
    && (forall j, k :: 0 <= j < k < |columns| ==> columns[j] + n <= columns[k])
  }

  lemma {:induction false} OccurrencesApart(line: string, name: string, from: nat, part: char -> bool)
    requires name != ""
    ensures Apart(Occurrences(line, name, from, part), |name|, from)
    decreases |line| - from
  {
    if from + |name| > |line| {
    } else if OccursAt(line, name, from, part) {
      OccurrencesApart(line, name, from + |name|, part);
    } else {
      OccurrencesApart(line, name, from + 1, part);
    }
  }

  lemma {:induction false} OccurrencesSound(line: string, name: string, from: nat, part: char -> bool)
    requires name != ""
    ensures forall c :: c in Occurrences(line, name, from, part) ==> OccursAt(line, name, c, part)
    decreases |line| - from
  {
    if from + |name| > |line| {
    } else if OccursAt(line, name, from, part) {
      OccurrencesSound(line, name, from + |name|, part);
    } else {
      OccurrencesSound(line, name, from + 1, part);
    }
  }

  function RangeAt(line: nat, column: nat, name: string): Range
  {
    Range(Position(line, column), Position(line, column + |name|))
  }

  function EditAt(line: nat, column: nat, name: string, newName: string): TextEdit
  {
    TextEdit(RangeAt(line, column, name), newName)
  }

  function EditsFor(line: nat, columns: seq<nat>, name: string, newName: string): (r: seq<TextEdit>)
    ensures |r| == |columns|
    ensures forall k :: 0 <= k < |columns| ==> r[k] == EditAt(line, columns[k], name, newName)
  {
    seq(|columns|, k requires 0 <= k < |columns| => EditAt(line, columns[k], name, newName))
  }

  function LineEdits(lines: seq<string>, line: nat, name: string, newName: string, part: char -> bool): seq<TextEdit>
    requires line < |lines| && name != ""
  {
    EditsFor(line, Occurrences(lines[line], name, 0, part), name, newName)
  }

  /** The edits of lines lo to hi (exclusive), in document order. */
  function EditsBetween(lines: seq<string>, lo: nat, hi: int, name: string, newName: string,
      part: char -> bool): seq<TextEdit>
    requires hi <= |lines| && name != ""
    decreases hi - lo
  {
    if lo >= hi then []
    else LineEdits(lines, lo, name, newName, part) + EditsBetween(lines, lo + 1, hi, name, newName, part)
  }

  /** What the rename request answers: the last edit of the document first. */
  function RenameEdits(text: string, oldName: string, newName: string, part: char -> bool): seq<TextEdit>
  {
    if oldName == "" then []
    else Reverse(EditsBetween(Lines(text), 0, |Lines(text)|, oldName, newName, part))
  }

  method RunesEqual(left: string, right: string) returns (same: bool)
    ensures same == (left == right)
  {
    if |left| != |right| {
      return false;
    }
    for i := 0 to |left|
      invariant left[..i] == right[..i]
    {
      if left[i] != right[i] {
        return false;
      }
    }
    assert left == left[..|left|] && right == right[..|right|];
    return true;
  }

  lemma OccursNext(line: string, name: string, i: nat, part: char -> bool, before: seq<nat>)
    requires name != "" && OccursAt(line, name, i, part)
    ensures before + Occurrences(line, name, i, part) == (before + [i]) + Occurrences(line, name, i + |name|, part)
  {
  }

  /** The column loop both rename scans and the reference scan share, with its index jump. */
  method ScanLine(line: string, name: string, part: char -> bool) returns (columns: seq<nat>)
    requires name != ""
    ensures columns == Occurrences(line, name, 0, part)
  {
    columns := [];
    var i := 0;
    while i + |name| <= |line|
      invariant 0 <= i <= |line|
      invariant columns + Occurrences(line, name, i, part) == Occurrences(line, name, 0, part)
    {
      var equal := RunesEqual(line[i..i + |name|], name);
      if !equal {
        i := i + 1;
        continue;
      }
      if i > 0 && part(line[i - 1]) {
        i := i + 1;
        continue;
      }
      var end := i + |name|;
      if end < |line| && part(line[end]) {
        i := i + 1;
        continue;
      }
      OccursNext(line, name, i, part, columns);
      columns := columns + [i];
      i := end - 1;
      i := i + 1;
    }
  }

  /** The comparator of both sorts: later positions first. */
  predicate Later(a: TextEdit, b: TextEdit)
  {
    if a.range.start.line != b.range.start.line then a.range.start.line > b.range.start.line
    else a.range.start.character > b.range.start.character
  }

  /** Document order: each edit ends before the next begins. */
  ghost predicate InOrder(edits: seq<TextEdit>)
  {
    forall j, k :: 0 <= j < k < |edits| ==>
      var a, b := edits[j].range, edits[k].range;
      a.start.line < b.start.line || (a.start.line == b.start.line
          && a.start.character < a.end.character <= b.start.character)
  }

  lemma LineInOrder(line: nat, columns: seq<nat>, name: string, newName: string)
    requires name != "" && Apart(columns, |name|, 0)
    ensures InOrder(EditsFor(line, columns, name, newName))
  {
    var es := EditsFor(line, columns, name, newName);
    forall j, k | 0 <= j < k < |es|
      ensures es[j].range.end.character <= es[k].range.start.character
    {
      assert columns[j] + |name| <= columns[k];
    }
  }

  lemma InOrderAppend(a: seq<TextEdit>, b: seq<TextEdit>, line: int)
    requires InOrder(a) && forall k :: 0 <= k < |a| ==> a[k].range.start.line == line
    requires InOrder(b) && forall k :: 0 <= k < |b| ==> b[k].range.start.line > line
    ensures InOrder(a + b)
  {
  }

  lemma {:induction false} BetweenInOrder(lines: seq<string>, lo: nat, hi: int, name: string, newName: string,
      part: char -> bool)
    requires hi <= |lines| && name != ""
    ensures var es := EditsBetween(lines, lo, hi, name, newName, part);
      InOrder(es) && forall k :: 0 <= k < |es| ==> es[k].range.start.line >= lo
    decreases hi - lo
  {
    if lo < hi {
      OccurrencesApart(lines[lo], name, 0, part);
      LineInOrder(lo, Occurrences(lines[lo], name, 0, part), name, newName);
      BetweenInOrder(lines, lo + 1, hi, name, newName, part);
      var here, later := LineEdits(lines, lo, name, newName, part),
          EditsBetween(lines, lo + 1, hi, name, newName, part);
      InOrderAppend(here, later, lo);
    }
  }

  lemma SortedBackwards(edits: seq<TextEdit>)
    requires InOrder(edits)
    ensures StableSort(edits, Later) == Reverse(edits)
  {
    SortReverses(edits, Later);
  }

  lemma BetweenSorted(lines: seq<string>, lo: nat, hi: int, name: string, newName: string, part: char -> bool)
    requires hi <= |lines| && name != ""
    ensures var es := EditsBetween(lines, lo, hi, name, newName, part); StableSort(es, Later) == Reverse(es)
  {
    BetweenInOrder(lines, lo, hi, name, newName, part);
    SortedBackwards(EditsBetween(lines, lo, hi, name, newName, part));
  }

  /** One more line scanned. */
  lemma BetweenStep(edits: seq<TextEdit>, lines: seq<string>, lo: nat, hi: int, name: string, newName: string,
      part: char -> bool)
    requires lo < hi <= |lines| && name != ""
    ensures edits + EditsBetween(lines, lo, hi, name, newName, part)
         == (edits + LineEdits(lines, lo, name, newName, part)) + EditsBetween(lines, lo + 1, hi, name, newName, part)
  {
  }

  /** The line loop of both rename scans, with the list sorted at its end. */
  method ScanLines(lines: seq<string>, first: nat, last: int, name: string, newName: string, part: char -> bool)
    returns (edits: seq<TextEdit>)
    requires last < |lines| && name != ""
    ensures edits == Reverse(EditsBetween(lines, first, last + 1, name, newName, part))
  {
    edits := [];
    var lineIndex := first;
    ghost var hi := last + 1;
    ghost var all := EditsBetween(lines, first, hi, name, newName, part);
    while lineIndex <= last
      invariant first <= lineIndex
      invariant edits + EditsBetween(lines, lineIndex, hi, name, newName, part) == all
    {
      var columns := ScanLine(lines[lineIndex], name, part);
      BetweenStep(edits, lines, lineIndex, hi, name, newName, part);
      edits := edits + EditsFor(lineIndex, columns, name, newName);
      lineIndex := lineIndex + 1;
    }
    assert edits == all;
    BetweenSorted(lines, first, hi, name, newName, part);
    edits := StableSort(edits, Later);
  }

  method RenameTextEdits(text: string, oldName: string, newName: string, part: char -> bool)
      returns (edits: seq<TextEdit>)
    ensures edits == RenameEdits(text, oldName, newName, part)
  {
    var lines := Lines(text);
    if |oldName| == 0 {
      return [];
    }
    edits := ScanLines(lines, 0, |lines| - 1, oldName, newName, part);
  }

  /** The edits of a line range clamped into the document; empty if nothing is left of it. */
  function RangeEdits(text: string, name: string, newName: string, startLine: int, endLine: int,
      part: char -> bool): seq<TextEdit>
    requires name != ""
  {
    var count := |Lines(text)|;
    Reverse(EditsBetween(Lines(text), if startLine < 0 then 0 else startLine,
                         if endLine >= count then count else endLine + 1, name, newName, part))
  }

  method RenameTextEditsInLineRange(text: string, oldName: string, newName: string, startLine: int, endLine: int,
      part: char -> bool)
    returns (edits: seq<TextEdit>)
    requires oldName != ""
    ensures edits == RangeEdits(text, oldName, newName, startLine, endLine, part)
  {
    var lines := Lines(text);
    var first, last := startLine, endLine;
    if first < 0 {
      first := 0;
    }
    if last >= |lines| {
      last := |lines| - 1;
    }
    edits := ScanLines(lines, first, last, oldName, newName, part);
  }

  function LocationsFor(uri: string, line: nat, columns: seq<nat>, name: string): (r: seq<Location>)
    ensures |r| == |columns|
    ensures forall k :: 0 <= k < |columns| ==> r[k] == Location(uri, RangeAt(line, columns[k], name))
  {
    seq(|columns|, k requires 0 <= k < |columns| => Location(uri, RangeAt(line, columns[k], name)))
  }

  /** The references of lines lo to hi (exclusive), in document order. */
  function LocationsBetween(uri: string, lines: seq<string>, lo: nat, hi: nat, name: string,
      part: char -> bool): seq<Location>
    requires lo <= hi <= |lines| && name != ""
    decreases hi - lo
  {
    if lo == hi then []
    else
      LocationsFor(uri, lo, Occurrences(lines[lo], name, 0, part), name)
      + LocationsBetween(uri, lines, lo + 1, hi, name, part)
  }

  method FindIdentifierLocations(uri: string, content: string, symbol: string, part: char -> bool)
    returns (locations: seq<Location>)
    requires symbol != ""
    ensures locations == LocationsBetween(uri, Lines(content), 0, |Lines(content)|, symbol, part)
  {
    var lines := Lines(content);
    locations := [];
    for lineIndex := 0 to |lines|
      invariant locations + LocationsBetween(uri, lines, lineIndex, |lines|, symbol, part)
             == LocationsBetween(uri, lines, 0, |lines|, symbol, part)
    {
      var columns := ScanLine(lines[lineIndex], symbol, part);
      locations := locations + LocationsFor(uri, lineIndex, columns, symbol);
    }
  }

  /** The maximal run of identifier characters around index. */
  method WordBounds(runes: string, index: nat, part: char -> bool) returns (start: nat, end: nat)
    requires index < |runes| && part(runes[index])
    ensures start <= index < end <= |runes|
    ensures AllOf(runes[start..end], part) && OccursAt(runes, runes[start..end], start, part)
  {
    start := index;
    while start > 0 && part(runes[start - 1])
      invariant start <= index
      invariant forall k :: start <= k <= index ==> part(runes[k])
    {
      start := start - 1;
    }
    end := index + 1;
    while end < |runes| && part(runes[end])
      invariant index + 1 <= end <= |runes|
      invariant forall k :: start <= k < end ==> part(runes[k])
    {
      end := end + 1;
    }
  }

  /** The characters from s to e are a word of the line: identifier characters, and as many as there are. */
  ghost predicate WordAt(line: string, s: int, e: int, part: char -> bool)
  {
    && 0 <= s < e <= |line| && AllOf(line[s..e], part)
    && (s == 0 || !part(line[s - 1])) && (e == |line| || !part(line[e]))
  }

  /** The cursor, moved onto the last character if it is behind the line, is on that word or right behind it. */
  ghost predicate UnderCursor(text: string, pos: Position, s: int, e: int, part: char -> bool)
  {
    && 0 <= pos.line < |Lines(text)| && pos.character >= 0
    && var line := Lines(text)[pos.line];
    WordAt(line, s, e, part) && s <= (if pos.character < |line| then pos.character else |line| - 1) <= e
  }

  lemma InsideWord(line: string, s: int, e: int, k: int, part: char -> bool)
    requires WordAt(line, s, e, part) && s <= k < e
    ensures part(line[k])
  {
    assert line[s..e][k - s] == line[k];
  }

  lemma RunsApart(line: string, s: int, e: int, s': int, e': int, part: char -> bool)
    requires WordAt(line, s, e, part) && WordAt(line, s', e', part) && s < s'
    ensures e < s'
  {
    if e >= s' {
      InsideWord(line, s, e, s' - 1, part);
    }
  }

  /** There is no other word there. */
  lemma OneUnderCursor(text: string, pos: Position, s: int, e: int, s': int, e': int, part: char -> bool)
    requires UnderCursor(text, pos, s, e, part) && UnderCursor(text, pos, s', e', part)
    ensures s == s' && e == e'
  {
    var line := Lines(text)[pos.line];
    if s < s' {
      RunsApart(line, s, e, s', e', part);
    } else if s' < s {
      RunsApart(line, s', e', s, e, part);
    } else if e < e' {
      InsideWord(line, s, e', e, part);
    } else if e' < e {
      InsideWord(line, s, e, e', part);
    }
  }

  lemma NoneUnderCursor(line: string, c: int, s: int, e: int, part: char -> bool)
    requires WordAt(line, s, e, part) && s <= c <= e && c < |line|
    ensures part(line[c]) || (c > 0 && part(line[c - 1]))
  {
    if c < e {
      InsideWord(line, s, e, c, part);
    } else {
      InsideWord(line, s, e, c - 1, part);
    }
  }

  /** The word under or just before the cursor, or why there is none. */
  method WordAtPosition(text: string, pos: Position, part: char -> bool) returns (r: Result<string>)
    ensures r.Ok? <==> exists s, e :: UnderCursor(text, pos, s, e, part)
    ensures r.Ok? ==>
      exists s, e :: UnderCursor(text, pos, s, e, part) && r.value == Lines(text)[pos.line][s..e]
  {
    var lines := Lines(text);
    if pos.line < 0 || pos.line >= |lines| {
      return Err("position line is out of range");
    }
    var runes := lines[pos.line];
    if |runes| == 0 {
      return Err("position is on an empty line");
    }
    var index := pos.character;
    if index < 0 {
      return Err("position character is out of range");
    }
    if index >= |runes| {
      index := |runes| - 1;
    }
    ghost var cursor := index;
    if !part(runes[index]) && index > 0 && part(runes[index - 1]) {
      index := index - 1;
    }
    if !part(runes[index]) {
      forall s, e | UnderCursor(text, pos, s, e, part)
        ensures false
      {
        NoneUnderCursor(runes, cursor, s, e, part);
      }
      return Err("position does not point to a Java identifier");
    }
    var start, end := WordBounds(runes, index, part);
    assert UnderCursor(text, pos, start, end, part);
    return Ok(runes[start..end]);
  }
}
