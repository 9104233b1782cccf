/** What the ranges of methods are: exactly the braced groups that a line looking like a signature has announced. */
module RangeTheorems {
  import opened Chars
  import opened Text
  import opened MethodRanges

  // ---------------------------------------------------------------- where lines are in the text

  /** The offset of column j of line i. */
  function Offset(lines: seq<string>, i: nat, j: nat): nat
    requires i < |lines|
  {
    if i == 0 then j else Offset(lines, i - 1, |lines[i - 1]|) + 1 + j
  }

  lemma {:induction false} OffsetInJoin(lines: seq<string>, i: nat, j: nat)
    requires i < |lines| && j <= |lines[i]|
    ensures var text := JoinLines(lines); var o := Offset(lines, i, j);
      && o <= |text|
      && (j < |lines[i]| ==> o < |text| && text[o] == lines[i][j])
      && (j == |lines[i]| ==> if i + 1 < |lines| then o < |text| && text[o] == '\n' else o == |text|)
    decreases |lines|
  {
    if |lines| > 1 {
      if i > 0 {
        OffsetInJoin(lines[1..], i - 1, j);
        OffsetBehind(lines, i, j);
      }
    }
  }

  lemma {:induction false} OffsetBehind(lines: seq<string>, i: nat, j: nat)
    requires 0 < i < |lines|
    ensures Offset(lines, i, j) == |lines[0]| + 1 + Offset(lines[1..], i - 1, j)
    decreases i
  {
    if i > 1 {
      OffsetBehind(lines, i - 1, |lines[i - 1]|);
    }
  }

  // ---------------------------------------------------------------- what a range is

  /** Braces opened minus braces closed. */
  function Net(s: string): int
  {
    if s == "" then 0
    else
      var c := s[|s| - 1];
      Net(s[..|s| - 1]) + if c == '{' then 1 else if c == '}' then -1 else 0
  }

  lemma NetStep(text: string, o: nat)
    requires o < |text|
    ensures Net(text[..o + 1]) == Net(text[..o]) + if text[o] == '{' then 1 else if text[o] == '}' then -1 else 0
  {
    assert text[..o + 1][..o] == text[..o];
  }

  /** Between p and q the depth stays above what it was at p. */
  ghost predicate StaysOpen(text: string, p: nat, q: nat)
    requires p < q <= |text|
  {
    forall k :: p < k <= q ==> Net(text[..k]) > Net(text[..p])
  }

  /** The brace at c closes the one at p. */
  ghost predicate Matching(text: string, p: nat, c: nat)
  {
    p < c < |text| && text[p] == '{' && text[c] == '}' && StaysOpen(text, p, c) && Net(text[..c]) == Net(text[..p]) + 1
  }

  /** Where a range opens: its brace, and the line that brace is on. */
  datatype Opening = Opening(at: nat, line: nat)

  /** The range begins at a signature and ends at the line of the brace that closes its opening one,
      which is at depth one and on a line between. */
  ghost predicate RangeSound(text: string, lines: seq<string>, signature: string -> bool, r: LineRange, open: Opening,
      close: nat)
  {
    && 0 <= r.start <= open.line <= r.end < |lines|
    && signature(TrimSpace(lines[r.start]))
    && OnLine(lines, open.at, open.line)
    && OnLine(lines, close, r.end)
    && Matching(text, open.at, close)
    && Net(text[..open.at]) == 1
  }

  /** The offset o lies within line i. */
  ghost predicate OnLine(lines: seq<string>, o: nat, i: nat)
  {
    i < |lines| && Offset(lines, i, 0) <= o < Offset(lines, i, 0) + |lines[i]|
  }

  /** Starts strictly increase, ends never decrease, and a range opens behind the closing brace of the one before. */
  ghost predicate InSequence(ranges: seq<LineRange>, opens: seq<Opening>, closes: seq<nat>)
  {
    && |opens| == |ranges| && |closes| == |ranges|
    && forall k, l :: 0 <= k < l < |ranges| ==>
         ranges[k].start < ranges[l].start && ranges[k].end <= ranges[l].end && closes[k] < opens[l].at
  }

  ghost predicate RangesSound(text: string, lines: seq<string>, signature: string -> bool, ranges: seq<LineRange>,
      opens: seq<Opening>, closes: seq<nat>)
  {
    && InSequence(ranges, opens, closes)
    && (forall k :: 0 <= k < |ranges| ==> RangeSound(text, lines, signature, ranges[k], opens[k], closes[k]))
  }

  /** All ranges start before a line. */
  ghost predicate StartBefore(ranges: seq<LineRange>, line: int)
  {
    forall k :: 0 <= k < |ranges| ==> ranges[k].start < line
  }

  /** All ranges end by line i, their braces before offset o. */
  ghost predicate EndBy(ranges: seq<LineRange>, closes: seq<nat>, i: int, o: int)
  {
    && (forall k :: 0 <= k < |ranges| ==> ranges[k].end <= i)
    && (forall k :: 0 <= k < |closes| ==> closes[k] < o)
  }

  ghost predicate PendingSound(lines: seq<string>, signature: string -> bool, i: nat, st: Scan)
  {
    && i < |lines|
    && StartBefore(st.ranges, i + 1)
    && -1 <= st.activeStart <= i
    && (st.pendingStart >= 0 ==>
          && st.activeStart < st.pendingStart <= i
          && signature(TrimSpace(lines[st.pendingStart]))
          && StartBefore(st.ranges, st.pendingStart))
  }

  /** `open` is the brace of the method that is open. */
  ghost predicate ActiveSound(text: string, lines: seq<string>, signature: string -> bool, i: nat, o: nat, st: Scan,
      open: Opening, closes: seq<nat>)
  {
    st.activeStart >= 0 ==>
      && i < |lines| && st.activeStart <= open.line <= i
      && signature(TrimSpace(lines[st.activeStart]))
      && OnLine(lines, open.at, open.line)
      && open.at < o <= |text|
      && text[open.at] == '{'
      && Net(text[..open.at]) == 1
      && StaysOpen(text, open.at, o)
      && EndBy(st.ranges, closes, open.line, open.at)
      && StartBefore(st.ranges, st.activeStart)
  }

  /** The scan state stands before offset o, in line i. */
  ghost predicate ScanSound(text: string, lines: seq<string>, signature: string -> bool, i: nat, o: nat, st: Scan,
      open: Opening, opens: seq<Opening>, closes: seq<nat>)
  {
    && o <= |text| && st.depth == Net(text[..o])
    && RangesSound(text, lines, signature, st.ranges, opens, closes)
    && PendingSound(lines, signature, i, st)
    && ActiveSound(text, lines, signature, i, o, st, open, closes)
    && EndBy(st.ranges, closes, i, o)
  }

  // ---------------------------------------------------------------- which ranges there must be

  /** A brace that opens where one is open. */
  predicate InnerBrace(text: string, p: nat) { p < |text| && text[p] == '{' && Net(text[..p]) == 1 }

  /** No such brace stands from offset `from` up to offset o. */
  ghost predicate NoneSince(text: string, from: nat, o: nat)
  {
    forall p: nat :: from <= p < o ==> !InnerBrace(text, p)
  }

  /** Line l looks like a signature whose brace has not come yet at offset o, in line i. */
  ghost predicate Awaits(text: string, lines: seq<string>, signature: string -> bool, l: int, i: nat, o: nat)
  {
    0 <= l <= i && i < |lines| && signature(TrimSpace(lines[l])) && NoneSince(text, Offset(lines, l, 0), o)
  }

  /** Line l is the first of those. */
  ghost predicate FirstAwaits(text: string, lines: seq<string>, signature: string -> bool, l: int, i: nat, o: nat)
  {
    Awaits(text, lines, signature, l, i, o) && forall k :: 0 <= k < l ==> !Awaits(text, lines, signature, k, i, o)
  }

  /** The brace at p, in line i, is one that a signature waits for. */
  ghost predicate MethodBrace(text: string, lines: seq<string>, signature: string -> bool, p: nat, i: nat)
  {
    InnerBrace(text, p) && OnLine(lines, p, i) && exists l :: Awaits(text, lines, signature, l, i, p)
  }

  /** The range at k is that of the braces at p and c. */
  ghost predicate Recorded(opens: seq<Opening>, closes: seq<nat>, p: nat, c: nat)
  {
    exists k :: 0 <= k < |opens| && k < |closes| && opens[k].at == p && closes[k] == c
  }

  /** Every brace a signature waited for and its closing brace, if that is before o, have a range. */
  ghost predicate RangesComplete(text: string, lines: seq<string>, signature: string -> bool, opens: seq<Opening>,
      closes: seq<nat>, o: nat)
  {
    forall p: nat, i: nat, c: nat :: c < o && MethodBrace(text, lines, signature, p, i) && Matching(text, p, c) ==>
        Recorded(opens, closes, p, c)
  }

  /** Every range begins at the first of the signatures that waited for its brace. */
  ghost predicate StartsFirst(text: string, lines: seq<string>, signature: string -> bool, ranges: seq<LineRange>,
      opens: seq<Opening>)
  {
    |opens| == |ranges|
    && forall k :: 0 <= k < |ranges| ==>
        FirstAwaits(text, lines, signature, ranges[k].start, opens[k].line, opens[k].at)
  }

  /** The pending start is the first signature that waits, if there is one. */
  ghost predicate PendingFirst(text: string, lines: seq<string>, signature: string -> bool, i: nat, o: nat,
      pending: int)
  {
    if pending >= 0 then FirstAwaits(text, lines, signature, pending, i, o)
    else forall l :: 0 <= l <= i ==> !Awaits(text, lines, signature, l, i, o)
  }

  /** Every brace that a signature waited for and that is still open is the one of the open method. */
  ghost predicate OpenTracked(text: string, lines: seq<string>, signature: string -> bool, o: nat, st: Scan,
      open: Opening)
  {
    forall p: nat, i: nat :: p < o <= |text| && MethodBrace(text, lines, signature, p, i) && StaysOpen(text, p, o) ==>
      st.activeStart >= 0 && open.at == p
  }

  ghost predicate ActiveFirst(text: string, lines: seq<string>, signature: string -> bool, st: Scan, open: Opening)
  {
    st.activeStart >= 0 ==> FirstAwaits(text, lines, signature, st.activeStart, open.line, open.at)
  }

  /** The scan state before offset o, in line i, has missed nothing. */
  ghost predicate ScanTracks(text: string, lines: seq<string>, signature: string -> bool, i: nat, o: nat, st: Scan,
      open: Opening, opens: seq<Opening>, closes: seq<nat>)
  {
    && i < |lines| && Offset(lines, i, 0) <= o
    && PendingFirst(text, lines, signature, i, o, st.pendingStart)
    && ActiveFirst(text, lines, signature, st, open)
    && StartsFirst(text, lines, signature, st.ranges, opens)
    && OpenTracked(text, lines, signature, o, st, open)
    && RangesComplete(text, lines, signature, opens, closes, o)
  }

  // ---------------------------------------------------------------- the scan keeps it

  function Weight(c: char): int { if c == '{' then 1 else if c == '}' then -1 else 0 }

  /** What is known of the character at offset o when it is c, in line i. */
  ghost predicate Reads(text: string, lines: seq<string>, i: nat, o: nat, c: char)
  {
    && o < |text| && text[o] == c && Net(text[..o + 1]) == Net(text[..o]) + Weight(c)
    && i < |lines| && (c != '\n' ==> OnLine(lines, o, i))
  }

  lemma ReadsAt(text: string, lines: seq<string>, i: nat, j: nat, o: nat)
    requires lines == Lines(text) && text == JoinLines(lines) && i < |lines| && j <= |lines[i]|
    requires o == Offset(lines, i, j)
    ensures j < |lines[i]| ==> Reads(text, lines, i, o, lines[i][j]) && Offset(lines, i, j + 1) == o + 1
    ensures j == |lines[i]| && i + 1 < |lines| ==> Reads(text, lines, i, o, '\n') && Offset(lines, i + 1, 0) == o + 1
  {
    OffsetInJoin(lines, i, j);
    if o < |text| {
      NetStep(text, o);
    }
  }

  lemma CharacterOf(text: string, i: nat, j: nat)
    requires i < |Lines(text)| && j < |Lines(text)[i]|
    ensures Offset(Lines(text), i, j + 1) == Offset(Lines(text), i, j) + 1
    ensures Reads(text, Lines(text), i, Offset(Lines(text), i, j), Lines(text)[i][j])
  {
    JoinOfLines(text);
    ReadsAt(text, Lines(text), i, j, Offset(Lines(text), i, j));
  }

  lemma LineEndOf(text: string, i: nat)
    requires i + 1 < |Lines(text)|
    ensures Offset(Lines(text), i + 1, 0) == Offset(Lines(text), i, |Lines(text)[i]|) + 1
    ensures Reads(text, Lines(text), i, Offset(Lines(text), i, |Lines(text)[i]|), '\n')
  {
    JoinOfLines(text);
    ReadsAt(text, Lines(text), i, |Lines(text)[i]|, Offset(Lines(text), i, |Lines(text)[i]|));
  }

  lemma StaysStep(text: string, p: nat, q: nat)
    requires p < q < |text| && StaysOpen(text, p, q) && Net(text[..q + 1]) > Net(text[..p])
    ensures StaysOpen(text, p, q + 1)
  {
  }

  lemma EndLater(ranges: seq<LineRange>, closes: seq<nat>, i: int, o: int, i': int, o': int)
    requires EndBy(ranges, closes, i, o) && i <= i' && o <= o'
    ensures EndBy(ranges, closes, i', o')
  {
  }

  ghost predicate Opens(st: Scan, c: char) { c == '{' && st.pendingStart >= 0 && st.depth == 1 }

  ghost predicate CloseBrace(st: Scan, c: char) { c == '}' && st.activeStart >= 0 && st.depth == 2 }

  /** The brace that opens a method. */
  lemma OpenStep(text: string, lines: seq<string>, signature: string -> bool, i: nat, o: nat, c: char, st: Scan,
      open: Opening, opens: seq<Opening>, closes: seq<nat>)
    requires ScanSound(text, lines, signature, i, o, st, open, opens, closes) && Reads(text, lines, i, o, c)
    requires Opens(st, c)
    ensures ScanSound(text, lines, signature, i, o + 1, OnChar(st, c, i), Opening(o, i), opens, closes)
  {
    EndLater(st.ranges, closes, i, o, i, o + 1);
  }

  lemma SequenceGrows(ranges: seq<LineRange>, opens: seq<Opening>, closes: seq<nat>, r: LineRange, open: Opening,
      close: nat)
    requires InSequence(ranges, opens, closes)
    requires StartBefore(ranges, r.start) && EndBy(ranges, closes, r.end, open.at)
    ensures InSequence(ranges + [r], opens + [open], closes + [close])
  {
  }

  lemma RangesGrow(text: string, lines: seq<string>, signature: string -> bool, ranges: seq<LineRange>,
      opens: seq<Opening>, closes: seq<nat>,
      r: LineRange, open: Opening, close: nat)
    requires RangesSound(text, lines, signature, ranges, opens, closes)
    requires RangeSound(text, lines, signature, r, open, close)
    requires StartBefore(ranges, r.start) && EndBy(ranges, closes, r.end, open.at)
    ensures RangesSound(text, lines, signature, ranges + [r], opens + [open], closes + [close])
  {
    SequenceGrows(ranges, opens, closes, r, open, close);
  }

  /** The brace that closes it. */
  lemma CloseStep(text: string, lines: seq<string>, signature: string -> bool, i: nat, o: nat, c: char, st: Scan,
      open: Opening, opens: seq<Opening>, closes: seq<nat>)
    requires ScanSound(text, lines, signature, i, o, st, open, opens, closes) && Reads(text, lines, i, o, c)
    requires CloseBrace(st, c)
    ensures ScanSound(text, lines, signature, i, o + 1, OnChar(st, c, i), open, opens + [open], closes + [o])
  {
    var r := LineRange(st.activeStart, i);
    assert RangeSound(text, lines, signature, r, open, o);
    EndLater(st.ranges, closes, open.line, open.at, i, open.at);
    RangesGrow(text, lines, signature, st.ranges, opens, closes, r, open, o);
    EndGrows(st.ranges, closes, i, o, r);
    StartGrows(st.ranges, r, i + 1);
    if st.pendingStart >= 0 {
      StartGrows(st.ranges, r, st.pendingStart);
    }
  }

  lemma EndGrows(ranges: seq<LineRange>, closes: seq<nat>, i: int, o: nat, r: LineRange)
    requires EndBy(ranges, closes, i, o) && r.end <= i
    ensures EndBy(ranges + [r], closes + [o], i, o + 1)
  {
  }

  lemma StartGrows(ranges: seq<LineRange>, r: LineRange, line: int)
    requires StartBefore(ranges, line) && r.start < line
    ensures StartBefore(ranges + [r], line)
  {
  }

  /** Any other character. */
  lemma PassStep(text: string, lines: seq<string>, signature: string -> bool, i: nat, o: nat, c: char, st: Scan,
      open: Opening, opens: seq<Opening>, closes: seq<nat>)
    requires ScanSound(text, lines, signature, i, o, st, open, opens, closes) && Reads(text, lines, i, o, c)
    requires !Opens(st, c) && !CloseBrace(st, c)
    ensures ScanSound(text, lines, signature, i, o + 1, OnChar(st, c, i), open, opens, closes)
  {
    EndLater(st.ranges, closes, i, o, i, o + 1);
    if st.activeStart >= 0 {
      assert st.depth > 1;
      StaysStep(text, open.at, o);
    }
  }

  // ---------------------------------------------------------------- and misses nothing

  lemma {:induction false} LinesBegin(lines: seq<string>, l: nat, i: nat)
    requires l <= i < |lines|
    ensures Offset(lines, l, 0) <= Offset(lines, i, 0)
    decreases i
  {
    if l < i {
      LinesBegin(lines, l, i - 1);
    }
  }

  /** What waits behind one more character: what waited before it, unless that is the brace. */
  lemma AwaitsStep(text: string, lines: seq<string>, signature: string -> bool, l: int, i: nat, o: nat)
    requires i < |lines| && Offset(lines, i, 0) <= o
    ensures Awaits(text, lines, signature, l, i, o + 1)
       <==> Awaits(text, lines, signature, l, i, o) && !InnerBrace(text, o)
  {
    if 0 <= l <= i {
      LinesBegin(lines, l, i);
    }
  }

  lemma PendingStep(text: string, lines: seq<string>, signature: string -> bool, i: nat, o: nat, pending: int)
    requires i < |lines| && Offset(lines, i, 0) <= o && PendingFirst(text, lines, signature, i, o, pending)
    ensures PendingFirst(text, lines, signature, i, o + 1, if InnerBrace(text, o) then -1 else pending)
  {
    var bound := if pending >= 0 && !InnerBrace(text, o) then pending else i + 1;
    var next := o + 1;
    forall l | 0 <= l < bound
      ensures !Awaits(text, lines, signature, l, i, next)
    {
      AwaitsStep(text, lines, signature, l, i, o);
      assert !InnerBrace(text, o) ==> !Awaits(text, lines, signature, l, i, o);
    }
    if pending >= 0 {
      AwaitsStep(text, lines, signature, pending, i, o);
    }
  }

  /** A brace inside an open one is deeper. */
  lemma StillOpen(text: string, p: nat, o: nat)
    requires p < o < |text| && StaysOpen(text, p, o + 1)
    ensures StaysOpen(text, p, o) && Net(text[..o]) > Net(text[..p]) && Net(text[..o + 1]) > Net(text[..p])
  {
  }

  lemma PendingSome(text: string, lines: seq<string>, signature: string -> bool, i: nat, o: nat, pending: int)
    requires OnLine(lines, o, i) && PendingFirst(text, lines, signature, i, o, pending) && InnerBrace(text, o)
    ensures pending >= 0 <==> MethodBrace(text, lines, signature, o, i)
  {
    if MethodBrace(text, lines, signature, o, i) {
      var l :| Awaits(text, lines, signature, l, i, o);
    }
  }

  /** An offset lies within one line. */
  lemma OneLineOnly(lines: seq<string>, o: nat, i: nat, j: nat)
    requires OnLine(lines, o, i) && OnLine(lines, o, j)
    ensures i == j
  {
    if i < j {
      LinesBegin(lines, i + 1, j);
    } else if j < i {
      LinesBegin(lines, j + 1, i);
    }
  }

  /** The braces that are open behind the character at o. */
  lemma TrackStep(text: string, lines: seq<string>, signature: string -> bool, i: nat, o: nat, c: char, st: Scan,
      open: Opening, opens: seq<Opening>, closes: seq<nat>)
    requires ScanSound(text, lines, signature, i, o, st, open, opens, closes) && Reads(text, lines, i, o, c)
    requires ScanTracks(text, lines, signature, i, o, st, open, opens, closes)
    ensures OpenTracked(text, lines, signature, o + 1, OnChar(st, c, i), if Opens(st, c) then Opening(o, i) else open)
  {
    var st' := OnChar(st, c, i);
    forall p: nat, j: nat | p < o + 1 <= |text| && MethodBrace(text, lines, signature, p, j)
        && StaysOpen(text, p, o + 1)
      ensures st'.activeStart >= 0 && (if Opens(st, c) then Opening(o, i) else open).at == p
    {
      if p < o {
        StillOpen(text, p, o);
      } else {
        OneLineOnly(lines, o, i, j);
        PendingSome(text, lines, signature, i, o, st.pendingStart);
      }
    }
  }

  /** The ranges behind the character at o. */
  lemma CompleteStep(text: string, lines: seq<string>, signature: string -> bool, i: nat, o: nat, c: char, st: Scan,
      open: Opening, opens: seq<Opening>, closes: seq<nat>)
    requires ScanSound(text, lines, signature, i, o, st, open, opens, closes) && Reads(text, lines, i, o, c)
    requires ScanTracks(text, lines, signature, i, o, st, open, opens, closes)
    ensures var (opens', closes') := if CloseBrace(st, c) then (opens + [open], closes + [o]) else (opens, closes);
      RangesComplete(text, lines, signature, opens', closes', o + 1)
  {
    var (opens', closes') := if CloseBrace(st, c) then (opens + [open], closes + [o]) else (opens, closes);
    forall p: nat, j: nat, q: nat | q < o + 1 && MethodBrace(text, lines, signature, p, j) && Matching(text, p, q)
      ensures Recorded(opens', closes', p, q)
    {
      if q < o {
        RecordedStill(opens, closes, p, q, open, o);
      } else {
        assert st.activeStart >= 0 && open.at == p;
        RecordedLast(opens, closes, open, o);
      }
    }
  }

  lemma RecordedStill(opens: seq<Opening>, closes: seq<nat>, p: nat, c: nat, open: Opening, o: nat)
    requires Recorded(opens, closes, p, c)
    ensures Recorded(opens + [open], closes + [o], p, c)
  {
    var k :| 0 <= k < |opens| && k < |closes| && opens[k].at == p && closes[k] == c;
    assert (opens + [open])[k].at == p && (closes + [o])[k] == c;
  }

  lemma RecordedLast(opens: seq<Opening>, closes: seq<nat>, open: Opening, o: nat)
    requires |opens| == |closes|
    ensures Recorded(opens + [open], closes + [o], open.at, o)
  {
    assert (opens + [open])[|opens|] == open && (closes + [o])[|closes|] == o;
  }

  /** One character, when nothing has been missed before it. */
  lemma CharTracks(text: string, lines: seq<string>, signature: string -> bool, i: nat, o: nat, c: char, st: Scan,
      open: Opening, opens: seq<Opening>, closes: seq<nat>)
    requires ScanSound(text, lines, signature, i, o, st, open, opens, closes) && Reads(text, lines, i, o, c)
    requires ScanTracks(text, lines, signature, i, o, st, open, opens, closes)
    ensures var open' := if Opens(st, c) then Opening(o, i) else open;
            var (opens', closes') := if CloseBrace(st, c) then (opens + [open], closes + [o]) else (opens, closes);
      ScanTracks(text, lines, signature, i, o + 1, OnChar(st, c, i), open', opens', closes')
  {
    PendingStep(text, lines, signature, i, o, st.pendingStart);
    TrackStep(text, lines, signature, i, o, c, st, open, opens, closes);
    CompleteStep(text, lines, signature, i, o, c, st, open, opens, closes);
  }

  /** A new line, looked at for a signature. */
  lemma ArmTracks(text: string, lines: seq<string>, signature: string -> bool, i: nat, o: nat, st: Scan, open: Opening,
      opens: seq<Opening>, closes: seq<nat>)
    requires ScanTracks(text, lines, signature, i, o, st, open, opens, closes)
    requires i + 1 < |lines| && o == Offset(lines, i + 1, 0)
    ensures ScanTracks(text, lines, signature, i + 1, o, Arm(st, lines[i + 1], i + 1, signature), open, opens, closes)
  {
    var st' := Arm(st, lines[i + 1], i + 1, signature);
    var bound := if st'.pendingStart >= 0 then st'.pendingStart else i + 2;
    var next := i + 1;
    forall l | 0 <= l < bound
      ensures !Awaits(text, lines, signature, l, next, o)
    {
      assert l <= i ==> !Awaits(text, lines, signature, l, i, o);
    }
    if st'.pendingStart >= 0 {
      assert st.pendingStart >= 0 ==> Awaits(text, lines, signature, st.pendingStart, i, o);
      assert Awaits(text, lines, signature, st'.pendingStart, next, o);
    }
  }

  // ---------------------------------------------------------------- the whole scan

  ghost predicate ScanExact(text: string, lines: seq<string>, signature: string -> bool, i: nat, o: nat, st: Scan,
      open: Opening, opens: seq<Opening>, closes: seq<nat>)
  {
    && ScanSound(text, lines, signature, i, o, st, open, opens, closes)
    && ScanTracks(text, lines, signature, i, o, st, open, opens, closes)
  }

  /** One character of a line, with the witnesses behind it. */
  lemma CharExact(text: string, lines: seq<string>, signature: string -> bool, i: nat, o: nat, c: char, st: Scan,
      open: Opening, opens: seq<Opening>, closes: seq<nat>)
    returns (open': Opening, opens': seq<Opening>, closes': seq<nat>)
    requires ScanExact(text, lines, signature, i, o, st, open, opens, closes) && Reads(text, lines, i, o, c)
    ensures ScanExact(text, lines, signature, i, o + 1, OnChar(st, c, i), open', opens', closes')
  {
    open', opens', closes' := open, opens, closes;
    CharTracks(text, lines, signature, i, o, c, st, open, opens, closes);
    if Opens(st, c) {
      OpenStep(text, lines, signature, i, o, c, st, open, opens, closes);
      open' := Opening(o, i);
    } else if CloseBrace(st, c) {
      CloseStep(text, lines, signature, i, o, c, st, open, opens, closes);
      opens', closes' := opens + [open], closes + [o];
    } else {
      PassStep(text, lines, signature, i, o, c, st, open, opens, closes);
    }
  }

  lemma {:induction false} LineExact(text: string, signature: string -> bool, i: nat, j: nat, st: Scan, open: Opening,
      opens: seq<Opening>, closes: seq<nat>)
    returns (open': Opening, opens': seq<Opening>, closes': seq<nat>)
    requires i < |Lines(text)| && j <= |Lines(text)[i]|
    requires ScanExact(text, Lines(text), signature, i, Offset(Lines(text), i, j), st, open, opens, closes)
    ensures ScanExact(text, Lines(text), signature, i, Offset(Lines(text), i, |Lines(text)[i]|),
                      OnChars(st, Lines(text)[i][j..], i), open', opens', closes')
    decreases |Lines(text)[i]| - j
  {
    open', opens', closes' := open, opens, closes;
    var line := Lines(text)[i];
    if j < |line| {
      assert line[j..][1..] == line[j + 1..];
      CharacterOf(text, i, j);
      var o := Offset(Lines(text), i, j);
      open', opens', closes' := CharExact(text, Lines(text), signature, i, o, line[j], st, open, opens, closes);
      open', opens', closes' := LineExact(text, signature, i, j + 1, OnChar(st, line[j], i), open', opens', closes');
    }
  }

  /** Behind the end of a line the next one is looked at for a signature. */
  lemma ArmStep(text: string, lines: seq<string>, signature: string -> bool, i: nat, o: nat, st: Scan, open: Opening,
      opens: seq<Opening>, closes: seq<nat>)
    requires ScanExact(text, lines, signature, i, o, st, open, opens, closes)
    requires i + 1 < |lines| && o == Offset(lines, i + 1, 0)
    ensures ScanExact(text, lines, signature, i + 1, o, Arm(st, lines[i + 1], i + 1, signature), open, opens, closes)
  {
    EndLater(st.ranges, closes, i, o, i + 1, o);
    ArmTracks(text, lines, signature, i, o, st, open, opens, closes);
  }

  /** What is known of the ranges of a whole text: each is sound, begins at the first signature that waited for its
      brace, and there is one for every brace that a signature waited for and that is closed. */
  ghost predicate RangesExact(text: string, lines: seq<string>, signature: string -> bool, ranges: seq<LineRange>,
      opens: seq<Opening>, closes: seq<nat>)
  {
    && RangesSound(text, lines, signature, ranges, opens, closes)
    && StartsFirst(text, lines, signature, ranges, opens)
    && RangesComplete(text, lines, signature, opens, closes, |text|)
  }

  lemma {:induction false} LinesExact(text: string, signature: string -> bool, i: nat, st: Scan, open: Opening,
      opens: seq<Opening>, closes: seq<nat>)
    returns (opens': seq<Opening>, closes': seq<nat>)
    requires i < |Lines(text)|
    requires ScanExact(text, Lines(text), signature, i, Offset(Lines(text), i, 0),
        Arm(st, Lines(text)[i], i, signature),
                       open, opens, closes)
    ensures RangesExact(text, Lines(text), signature, OnLines(st, Lines(text), i, signature).ranges, opens', closes')
    decreases |Lines(text)| - i
  {
    var lines := Lines(text);
    var armed := Arm(st, lines[i], i, signature);
    assert lines[i][0..] == lines[i];
    var open', os, cs := LineExact(text, signature, i, 0, armed, open, opens, closes);
    opens', closes' := os, cs;
    var o, behind := Offset(lines, i, |lines[i]|), OnChars(armed, lines[i], i);
    if i + 1 < |lines| {
      LineEndOf(text, i);
      open', os, cs := CharExact(text, lines, signature, i, o, '\n', behind, open', os, cs);
      ArmStep(text, lines, signature, i, o + 1, behind, open', os, cs);
      opens', closes' := LinesExact(text, signature, i + 1, behind, open', os, cs);
    } else {
      LastLineEnds(text, i);
    }
  }

  lemma LastLineEnds(text: string, i: nat)
    requires i == |Lines(text)| - 1
    ensures Offset(Lines(text), i, |Lines(text)[i]|) == |text|
  {
    JoinOfLines(text);
    OffsetInJoin(Lines(text), i, |Lines(text)[i]|);
  }

  lemma StartExact(text: string, signature: string -> bool)
    ensures ScanExact(text, Lines(text), signature, 0, 0, Arm(SCAN_START, Lines(text)[0], 0, signature), Opening(0, 0),
        [], [])
  {
    assert text[..0] == "";
    var st := Arm(SCAN_START, Lines(text)[0], 0, signature);
    assert Awaits(text, Lines(text), signature, 0, 0, 0) <==> signature(TrimSpace(Lines(text)[0]));
  }

  /** For every text and every notion of signature: each range begins at the first signature line that waits for its
      opening brace, and ends where the matching brace stands; starts strictly increase, ends never decrease, and
      bodies do not overlap. Every brace at depth one that a signature line waits for, if closed, has its range. */
  lemma RangesAreExact(text: string, signature: string -> bool) returns (opens: seq<Opening>, closes: seq<nat>)
    ensures RangesExact(text, Lines(text), signature, RangesOf(text, signature), opens, closes)
  {
    StartExact(text, signature);
    opens, closes := LinesExact(text, signature, 0, SCAN_START, Opening(0, 0), [], []);
  }

  /** Line s is the first to look like a signature and wait for the brace at p, in line i, and the brace that closes
      that one is at c, in line e. */
  ghost predicate Announced(text: string, lines: seq<string>, signature: string -> bool, s: int, e: nat, p: nat, i: nat,
      c: nat)
  {
    && InnerBrace(text, p) && OnLine(lines, p, i) && FirstAwaits(text, lines, signature, s, i, p)
    && Matching(text, p, c) && OnLine(lines, c, e)
  }

  lemma FirstIsOne(text: string, lines: seq<string>, signature: string -> bool, s: int, t: int, i: nat, o: nat)
    requires FirstAwaits(text, lines, signature, s, i, o) && FirstAwaits(text, lines, signature, t, i, o)
    ensures s == t
  {
  }

  lemma ReportedIsAnnounced(text: string, lines: seq<string>, signature: string -> bool, ranges: seq<LineRange>,
      opens: seq<Opening>, closes: seq<nat>, k: nat)
    requires RangesExact(text, lines, signature, ranges, opens, closes) && k < |ranges|
    ensures ranges[k].end >= 0
    ensures Announced(text, lines, signature, ranges[k].start, ranges[k].end, opens[k].at, opens[k].line, closes[k])
  {
    assert RangeSound(text, lines, signature, ranges[k], opens[k], closes[k]);
  }

  lemma AnnouncedIsReported(text: string, lines: seq<string>, signature: string -> bool, ranges: seq<LineRange>,
      opens: seq<Opening>, closes: seq<nat>, s: int, e: nat, p: nat, i: nat, c: nat)
    requires RangesExact(text, lines, signature, ranges, opens, closes)
    requires Announced(text, lines, signature, s, e, p, i, c)
    ensures LineRange(s, e) in ranges
  {
    assert Awaits(text, lines, signature, s, i, p);
    assert MethodBrace(text, lines, signature, p, i) && c < |text|;
    assert Recorded(opens, closes, p, c);
    var k: nat :| k < |opens| && k < |closes| && opens[k].at == p && closes[k] == c;
    ReportedIsAnnounced(text, lines, signature, ranges, opens, closes, k);
    SameLines(text, lines, signature, ranges[k].start, ranges[k].end, opens[k].line, s, e, i, p, c);
    assert ranges[k] == LineRange(s, e);
  }

  lemma SameLines(text: string, lines: seq<string>, signature: string -> bool, s: int, e: nat, i: nat, s': int, e': nat,
      i': nat, p: nat, c: nat)
    requires Announced(text, lines, signature, s, e, p, i, c) && Announced(text, lines, signature, s', e', p, i', c)
    ensures s == s' && e == e'
  {
    OneLineOnly(lines, p, i, i');
    OneLineOnly(lines, c, e, e');
    FirstIsOne(text, lines, signature, s, s', i, p);
  }

  ghost predicate HasBraces(text: string, lines: seq<string>, signature: string -> bool, s: int, e: nat)
  {
    exists p, i, c :: Announced(text, lines, signature, s, e, p, i, c)
  }

  /** A range is reported exactly if its braces were announced so. */
  lemma RangeExactly(text: string, signature: string -> bool, s: int, e: nat)
    ensures LineRange(s, e) in RangesOf(text, signature) <==> HasBraces(text, Lines(text), signature, s, e)
  {
    var lines, ranges := Lines(text), RangesOf(text, signature);
    var opens, closes := RangesAreExact(text, signature);
    if LineRange(s, e) in ranges {
      var k: nat :| k < |ranges| && ranges[k] == LineRange(s, e);
      ReportedIsAnnounced(text, lines, signature, ranges, opens, closes, k);
      assert Announced(text, lines, signature, s, e, opens[k].at, opens[k].line, closes[k]);
    }
    if HasBraces(text, lines, signature, s, e) {
      var p, i, c :| Announced(text, lines, signature, s, e, p, i, c);
      AnnouncedIsReported(text, lines, signature, ranges, opens, closes, s, e, p, i, c);
    }
  }

  // ---------------------------------------------------------------- the scope of a local rename

  /** A scope contains the cursor line and lies within the document. */
  lemma ScopeHoldsCursor(text: string, line: int, signature: string -> bool, introduces: (int, int) -> bool)
    ensures var r := ScopeIn(RangesOf(text, signature), line, introduces);
      r.Scope? ==>
        && 0 <= r.start <= line <= r.end < |Lines(text)| && introduces(r.start, r.end)
        && signature(TrimSpace(Lines(text)[r.start]))
  {
    var ranges := RangesOf(text, signature);
    ScopeIsFirst(ranges, line, introduces);
    var opens, closes := RangesAreExact(text, signature);
    var r := ScopeIn(ranges, line, introduces);
    if r.Scope? {
      var k :| 0 <= k < |ranges| && ranges[k] == LineRange(r.start, r.end);
      assert RangeSound(text, Lines(text), signature, ranges[k], opens[k], closes[k]);
    }
  }
}
