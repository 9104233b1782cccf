/** The line ranges of methods, found by counting braces, and the scope of a local rename. */
module MethodRanges {
  import opened Chars
  import opened Text

  datatype LineRange = LineRange(start: int, end: int)

  /** The loop variables: brace depth, line of a signature not yet opened, line of the one that is open, results. */
  datatype Scan = Scan(depth: int, pendingStart: int, activeStart: int, ranges: seq<LineRange>)

  const SCAN_START := Scan(0, -1, -1, [])

  /** Before the characters of a line: does it look like a signature? */
  function Arm(st: Scan, line: string, index: nat, signature: string -> bool): Scan
  {
    if st.pendingStart < 0 && signature(TrimSpace(line)) then st.(pendingStart := index) else st
  }

  function OnChar(st: Scan, c: char, index: nat): Scan
  {
    if c == '{' then
      if st.pendingStart >= 0 && st.depth + 1 == 2 then Scan(st.depth + 1, -1, st.pendingStart, st.ranges)
      else st.(depth := st.depth + 1)
    else if c == '}' then
      if st.activeStart >= 0 && st.depth == 2 then
        Scan(st.depth - 1, st.pendingStart, -1, st.ranges + [LineRange(st.activeStart, index)])
      else st.(depth := st.depth - 1)
    else st
  }

  function OnChars(st: Scan, s: string, index: nat): Scan
    decreases |s|
  {
    if s == "" then st else OnChars(OnChar(st, s[0], index), s[1..], index)
  }

  function OnLines(st: Scan, lines: seq<string>, index: nat, signature: string -> bool): Scan
    requires index <= |lines|
    decreases |lines| - index
  {
    if index == |lines| then st
    else OnLines(OnChars(Arm(st, lines[index], index, signature), lines[index], index), lines, index + 1, signature)
  }

  function RangesOf(text: string, signature: string -> bool): seq<LineRange>
  {
    OnLines(SCAN_START, Lines(text), 0, signature).ranges
  }

  method MethodLineRanges(text: string, signature: string -> bool) returns (ranges: seq<LineRange>)
    ensures ranges == RangesOf(text, signature)
  {
    var lines := Lines(text);
    var depth: int := 0;
    var pendingStart: int, activeStart: int := -1, -1;
    ranges := [];
    ghost var end := OnLines(SCAN_START, lines, 0, signature);
    for lineIndex := 0 to |lines|
      invariant OnLines(Scan(depth, pendingStart, activeStart, ranges), lines, lineIndex, signature) == end
    {
      var line := lines[lineIndex];
      ghost var armed := Arm(Scan(depth, pendingStart, activeStart, ranges), line, lineIndex, signature);
      var trimmed := TrimSpace(line);
      if pendingStart < 0 {
        if signature(trimmed) {
          pendingStart := lineIndex;
        }
      }
      assert armed == Scan(depth, pendingStart, activeStart, ranges);
      depth, pendingStart, activeStart, ranges := ScanLine(line, lineIndex, depth, pendingStart, activeStart, ranges);
    }
  }

  /** The loop over the characters of one line. */
  method ScanLine(line: string, lineIndex: nat, depth0: int, pending0: int, active0: int, ranges0: seq<LineRange>)
    returns (depth: int, pendingStart: int, activeStart: int, ranges: seq<LineRange>)
    ensures Scan(depth, pendingStart, activeStart, ranges)
         == OnChars(Scan(depth0, pending0, active0, ranges0), line, lineIndex)
  {
    depth, pendingStart, activeStart, ranges := depth0, pending0, active0, ranges0;
    ghost var end := OnChars(Scan(depth, pendingStart, activeStart, ranges), line, lineIndex);
    assert line[0..] == line;
    for i := 0 to |line|
      invariant OnChars(Scan(depth, pendingStart, activeStart, ranges), line[i..], lineIndex) == end
    {
      ghost var next := OnChar(Scan(depth, pendingStart, activeStart, ranges), line[i], lineIndex);
      assert line[i..][1..] == line[i + 1..];
      if line[i] == '{' {
        depth := depth + 1;
        if pendingStart >= 0 && depth == 2 {
          activeStart := pendingStart;
          pendingStart := -1;
        }
      } else if line[i] == '}' {
        if activeStart >= 0 && depth == 2 {
          ranges := ranges + [LineRange(activeStart, lineIndex)];
          activeStart := -1;
        }
        depth := depth - 1;
      }
      assert next == Scan(depth, pendingStart, activeStart, ranges);
    }
  }

  // ---------------------------------------------------------------- the scope of a local rename

  datatype Scope = Scope(start: int, end: int) | NoScope

  predicate Holds(r: LineRange, line: int) { r.start <= line <= r.end }

  /** The first range around the cursor line decides, by whether its method introduces the name. */
  function ScopeIn(ranges: seq<LineRange>, line: int, introduces: (int, int) -> bool): Scope
  {
    if ranges == [] then NoScope
    else if !Holds(ranges[0], line) then ScopeIn(ranges[1..], line, introduces)
    else if introduces(ranges[0].start, ranges[0].end) then Scope(ranges[0].start, ranges[0].end)
    else NoScope
  }

  method LocalRenameScope(text: string, line: int, signature: string -> bool, introduces: (int, int) -> bool)
    returns (r: Scope)
    ensures r == ScopeIn(RangesOf(text, signature), line, introduces)
  {
    var methodRanges := MethodLineRanges(text, signature);
    assert methodRanges[0..] == methodRanges;
    for i := 0 to |methodRanges|
      invariant ScopeIn(methodRanges, line, introduces) == ScopeIn(methodRanges[i..], line, introduces)
    {
      assert methodRanges[i..][1..] == methodRanges[i + 1..];
      var methodRange := methodRanges[i];
      if line < methodRange.start || line > methodRange.end {
        continue;
      }
      if !introduces(methodRange.start, methodRange.end) {
        return NoScope;
      }
      return Scope(methodRange.start, methodRange.end);
    }
    return NoScope;
  }

  lemma {:induction false} ScopeIsFirst(ranges: seq<LineRange>, line: int, introduces: (int, int) -> bool)
    ensures var r := ScopeIn(ranges, line, introduces);
      r.Scope? <==> exists k :: FirstHolding(ranges, line, k) && introduces(ranges[k].start, ranges[k].end)
    ensures var r := ScopeIn(ranges, line, introduces);
      r.Scope? ==> r.start <= line <= r.end && introduces(r.start, r.end) && LineRange(r.start, r.end) in ranges
    decreases |ranges|
  {
    if ranges != [] && !Holds(ranges[0], line) {
      var rest := ranges[1..];
      ScopeIsFirst(rest, line, introduces);
      forall k
        ensures FirstHolding(ranges, line, k) <==> FirstHolding(rest, line, k - 1)
      {
        FirstLater(ranges, line, k);
      }
      if k :| FirstHolding(rest, line, k) && introduces(rest[k].start, rest[k].end) {
        assert FirstHolding(ranges, line, k + 1);
      }
    } else if ranges != [] {
      assert FirstHolding(ranges, line, 0);
    }
  }

  /** Range k is the first that holds the line. */
  ghost predicate FirstHolding(ranges: seq<LineRange>, line: int, k: int)
  {
    && 0 <= k < |ranges| && ranges[k].start <= line <= ranges[k].end
    && forall l :: 0 <= l < k ==> line < ranges[l].start || ranges[l].end < line
  }

  lemma FirstLater(ranges: seq<LineRange>, line: int, k: int)
    requires ranges != [] && !Holds(ranges[0], line)
    ensures FirstHolding(ranges, line, k) <==> FirstHolding(ranges[1..], line, k - 1)
  {
    if FirstHolding(ranges[1..], line, k - 1) {
      forall l | 0 <= l < k
        ensures line < ranges[l].start || ranges[l].end < line
      {
        assert l > 0 ==> ranges[l] == ranges[1..][l - 1];
      }
    }
  }
}
