/** Every piece the scanner finds is still that piece after whole-word replacement. */
module RenamePieces {
  import opened Chars
  import opened Text
  import opened Lexer
  import opened RenameTheorems

  /** Whole-word replacement with the lexer's own identifier table. */
  function Replaced(s: string, o: string, n: string): string
  {
    ReplaceWords(s, o, n, IsIdentifierPart)
  }

  /** The text s with its words replaced, except that a word it starts in the middle of is kept. */
  function ReplacedFrom(s: string, glued: bool, o: string, n: string): string
  {
    if glued then
      var k := RunLen(s, IsIdentifierPart);
      s[..k] + Replaced(s[k..], o, n)
    else Replaced(s, o, n)
  }

  ghost predicate Names(kw: set<string>, o: string, n: string)
  {
    IsIdentifier(o) && IsIdentifier(n) && (o in kw <==> n in kw)
  }

  // ---------------------------------------------------------------- heads

  /** Replacement neither adds nor removes a character that is not part of a word, at the head or behind one. */
  lemma SameHead(s: string, o: string, n: string, x: char)
    requires IsIdentifier(n) && !IsIdentifierPart(x)
    ensures (s != "" && s[0] == x) <==> (Replaced(s, o, n) != "" && Replaced(s, o, n)[0] == x)
    ensures s == "" <==> Replaced(s, o, n) == ""
    ensures s != "" && s[0] == x ==> Replaced(s, o, n) == [x] + Replaced(s[1..], o, n)
  {
  }

  lemma HeadOfReplaced(s: string, o: string, n: string)
    requires IsIdentifier(n) && s != ""
    ensures Replaced(s, o, n) != ""
    ensures !IsIdentifierPart(s[0]) ==> Replaced(s, o, n)[0] == s[0]
    ensures IsIdentifierPart(s[0]) ==> IsIdentifierPart(Replaced(s, o, n)[0])
    ensures IsIdentifierStart(s[0]) ==> IsIdentifierStart(Replaced(s, o, n)[0])
  {
  }

  /** Splitting at a place where no word continues. */
  lemma ReplacedSplit(s: string, k: nat, o: string, n: string)
    requires k <= |s| && StartsApart(s[k..], IsIdentifierPart)
    ensures Replaced(s, o, n) == Replaced(s[..k], o, n) + Replaced(s[k..], o, n)
  {
    assert s == s[..k] + s[k..];
    ReplaceAppend(s[..k], s[k..], o, n, IsIdentifierPart);
  }

  /** The same behind a character that is not part of a word. */
  lemma {:induction false} ReplacedSplitAfter(s: string, k: nat, o: string, n: string)
    requires 0 < k <= |s| && !IsIdentifierPart(s[k - 1])
    ensures Replaced(s, o, n) == Replaced(s[..k], o, n) + Replaced(s[k..], o, n)
  {
    var a, c, b := s[..k - 1], s[k - 1], s[k..];
    assert s[k - 1..] == [c] + b;
    ReplacedSplit(s, k - 1, o, n);
    ReplaceOther(c, b, o, n, IsIdentifierPart);
    assert s[..k] == a + [c];
    ReplaceAppend(a, [c], o, n, IsIdentifierPart);
    ReplaceOther(c, "", o, n, IsIdentifierPart);
    Regroup(Replaced(a, o, n), [c], Replaced(b, o, n));
  }

  /** A prefix that ends behind a whole word, replaced. */
  lemma ReplacedPrefix(w: string, rest: string, k: nat, o: string, n: string)
    requires IsWord(w, IsIdentifierPart) && StartsApart(rest, IsIdentifierPart) && k <= |rest|
    ensures |Replaced((w + rest)[..|w| + k], o, n)| == |if w == o then n else w| + |Replaced(rest[..k], o, n)|
  {
    assert (w + rest)[..|w| + k] == w + rest[..k];
    ReplaceWord(w, rest[..k], o, n, IsIdentifierPart);
  }

  /** A prefix that begins with one other character, replaced. */
  lemma ReplacedPrefixOther(s: string, k: nat, o: string, n: string)
    requires 0 < k <= |s| && !IsIdentifierPart(s[0])
    ensures |Replaced(s[..k], o, n)| == 1 + |Replaced(s[1..][..k - 1], o, n)|
  {
    assert s[..k] == [s[0]] + s[1..][..k - 1];
    ReplaceOther(s[0], s[1..][..k - 1], o, n, IsIdentifierPart);
  }

  /** w' stands where the word w stood. */
  ghost predicate Takes(w: string, w': string, o: string, n: string)
  {
    IsWord(w, IsIdentifierPart) && IsWord(w', IsIdentifierPart) && w' == if w == o then n else w
  }

  lemma TakesName(w: string, o: string, n: string)
    requires IsWord(w, IsIdentifierPart) && IsIdentifier(n)
    ensures Takes(w, if w == o then n else w, o, n)
  {
  }

  lemma ReplacedWord(w: string, w': string, rest: string, o: string, n: string)
    requires Takes(w, w', o, n) && StartsApart(rest, IsIdentifierPart)
    ensures Replaced(w + rest, o, n) == w' + Replaced(rest, o, n)
  {
    ReplaceWord(w, rest, o, n, IsIdentifierPart);
  }

  lemma ReplacedWordPrefix(w: string, w': string, rest: string, k: nat, o: string, n: string)
    requires Takes(w, w', o, n) && StartsApart(rest, IsIdentifierPart) && k <= |rest|
    ensures |Replaced((w + rest)[..|w| + k], o, n)| == |w'| + |Replaced(rest[..k], o, n)|
  {
    ReplacedPrefix(w, rest, k, o, n);
  }

  // ---------------------------------------------------------------- inside comments and literals

  /** The position behind one more character. */
  function Behind(pos: Pos, c: char): Pos { if c == '\n' then NextLine(pos) else Right(pos, 1) }

  /** The comment body closes somewhere. */
  predicate Closes(s: string)
  {
    |s| > 1 && ((s[0] == '*' && s[1] == '/') || Closes(s[1..]))
  }

  lemma {:induction false} BlockPassesWord(w: string, rest: string, pos: Pos)
    requires AllOf(w, IsIdentifierPart)
    ensures Closes(w + rest) <==> Closes(rest)
    ensures Closes(rest) ==> BlockTail(w + rest, pos) == More(|w|, BlockTail(rest, Right(pos, |w|)))
    decreases |w|
  {
    if w == "" {
      assert w + rest == rest;
    } else {
      assert (w + rest)[1..] == w[1..] + rest;
      BlockPassesWord(w[1..], rest, Right(pos, 1));
    }
  }

  ghost predicate BlockKeptBy(t: Tail, s: string, t': Tail, cut': nat, pos: Pos, pos': Pos)
  {
    && 0 < t.len <= |s| && s[t.len - 1] == '/'
    && t'.len == cut'
    && (pos.line == pos'.line ==> t.pos.line == t'.pos.line)
  }

  /** A block comment body keeps its extent and its lines under replacement. */
  ghost predicate BlockKept(s: string, o: string, n: string, pos: Pos, pos': Pos)
  {
    var t, t' := BlockTail(s, pos), BlockTail(Replaced(s, o, n), pos');
    && Closes(Replaced(s, o, n))
    && BlockKeptBy(t, s, t', |Replaced(s[..t.len], o, n)|, pos, pos')
  }

  lemma BlockKeptWith(s: string, t: Tail, s': string, t': Tail, cut': nat, o: string, n: string, pos: Pos, pos': Pos)
    requires BlockTail(s, pos) == t && Replaced(s, o, n) == s' && BlockTail(s', pos') == t'
    requires |Replaced(s[..t.len], o, n)| == cut'
    requires Closes(s') && BlockKeptBy(t, s, t', cut', pos, pos')
    ensures BlockKept(s, o, n, pos, pos')
  {
  }

  lemma BlockLater(a: string, s: string, t: Tail, a': string, t': Tail, cut': nat, p: Pos, p': Pos, pos: Pos, pos': Pos)
    requires BlockKeptBy(t, s, t', cut', p, p') && (pos.line == pos'.line ==> p.line == p'.line)
    ensures BlockKeptBy(More(|a|, t), a + s, More(|a'|, t'), |a'| + cut', pos, pos')
  {
    assert (a + s)[|a| + t.len - 1] == s[t.len - 1];
  }

  lemma {:induction false} BlockReplaced(s: string, o: string, n: string, pos: Pos, pos': Pos)
    requires IsIdentifier(o) && IsIdentifier(n) && Closes(s)
    ensures BlockKept(s, o, n, pos, pos')
    decreases |s|
  {
    if IsIdentifierPart(s[0]) {
      var w, rest := SplitHead(s, IsIdentifierPart);
      BlockPassesWord(w, rest, pos);
      var w' := if w == o then n else w;
      TakesName(w, o, n);
      BlockReplaced(rest, o, n, Right(pos, |w|), Right(pos', |w'|));
      BlockWord(w, w', rest, o, n, pos, pos');
    } else if s[0] == '*' && s[1] == '/' {
      SameHead(s, o, n, '*');
      SameHead(s[1..], o, n, '/');
      ReplacedPrefixOther(s, 2, o, n);
      ReplacedPrefixOther(s[1..], 1, o, n);
    } else {
      BlockReplaced(s[1..], o, n, Behind(pos, s[0]), Behind(pos', s[0]));
      BlockOther(s, o, n, pos, pos');
    }
  }

  lemma BlockBehind(w: string, rest: string, pos: Pos, t: Tail)
    requires AllOf(w, IsIdentifierPart) && Closes(rest) && BlockTail(rest, Right(pos, |w|)) == t
    ensures Closes(w + rest) && BlockTail(w + rest, pos) == More(|w|, t)
  {
    BlockPassesWord(w, rest, pos);
  }

  lemma BlockJoin(w: string, rest: string, t: Tail, w': string, r: string, t': Tail, cut: nat, o: string, n: string,
      pos: Pos, pos': Pos)
    requires BlockTail(w + rest, pos) == More(|w|, t) && BlockTail(w' + r, pos') == More(|w'|, t') && Closes(w' + r)
    requires Replaced(w + rest, o, n) == w' + r && t.len <= |rest|
    requires |Replaced((w + rest)[..|w| + t.len], o, n)| == |w'| + cut
    requires BlockKeptBy(t, rest, t', cut, Right(pos, |w|), Right(pos', |w'|))
    ensures BlockKept(w + rest, o, n, pos, pos')
  {
    BlockLater(w, rest, t, w', t', cut, Right(pos, |w|), Right(pos', |w'|), pos, pos');
    BlockKeptWith(w + rest, More(|w|, t), w' + r, More(|w'|, t'), |w'| + cut, o, n, pos, pos');
  }

  lemma BlockWord(w: string, w': string, rest: string, o: string, n: string, pos: Pos, pos': Pos)
    requires Takes(w, w', o, n) && StartsApart(rest, IsIdentifierPart) && Closes(rest)
    requires BlockKept(rest, o, n, Right(pos, |w|), Right(pos', |w'|))
    ensures BlockKept(w + rest, o, n, pos, pos')
  {
    var r := Replaced(rest, o, n);
    var t, t' := BlockTail(rest, Right(pos, |w|)), BlockTail(r, Right(pos', |w'|));
    BlockBehind(w, rest, pos, t);
    BlockBehind(w', r, pos', t');
    ReplacedWord(w, w', rest, o, n);
    ReplacedWordPrefix(w, w', rest, t.len, o, n);
    BlockJoin(w, rest, t, w', r, t', |Replaced(rest[..t.len], o, n)|, o, n, pos, pos');
  }

  lemma BlockOther(s: string, o: string, n: string, pos: Pos, pos': Pos)
    requires IsIdentifier(n) && |s| > 1 && !IsIdentifierPart(s[0]) && !(s[0] == '*' && s[1] == '/')
    requires BlockKept(s[1..], o, n, Behind(pos, s[0]), Behind(pos', s[0]))
    ensures BlockKept(s, o, n, pos, pos')
  {
    SameHead(s, o, n, s[0]);
    SameHead(s[1..], o, n, '/');
    ReplacedPrefixOther(s, BlockTail(s, pos).len, o, n);
  }

  lemma {:induction false} StringPassesWord(w: string, rest: string, q: char, pos: Pos)
    requires AllOf(w, IsIdentifierPart) && !IsIdentifierPart(q)
    ensures StringTail(w + rest, q, pos) == More(|w|, StringTail(rest, q, Right(pos, |w|)))
    decreases |w|
  {
    if w == "" {
      assert w + rest == rest;
    } else {
      assert (w + rest)[1..] == w[1..] + rest;
      StringPassesWord(w[1..], rest, q, Right(pos, 1));
    }
  }

  /** Two runs of the literal loop match: both overrun, or both stop at the same place in their text. */
  ghost predicate SameStop(t: Tail, s: string, t': Tail, s': string, cut': nat, q: char)
  {
    if t.len > |s| then t'.len > |s'|
    else (t.len < |s| ==> t.len > 0 && s[t.len - 1] == q) && t'.len == cut'
  }

  lemma StopLater(a: string, s: string, t: Tail, a': string, s': string, t': Tail, cut': nat, q: char)
    requires SameStop(t, s, t', s', cut', q)
    ensures SameStop(More(|a|, t), a + s, More(|a'|, t'), a' + s', |a'| + cut', q)
  {
  }

  /** How long the part of s up to `len` is after replacement. */
  function Cut(s: string, len: nat, o: string, n: string): nat
  {
    if len <= |s| then |Replaced(s[..len], o, n)| else 0
  }

  ghost predicate LiteralKeptBy(t: Tail, s: string, t': Tail, s': string, cut': nat, q: char, pos: Pos, pos': Pos)
  {
    && SameStop(t, s, t', s', cut', q)
    && (t.len <= |s| && pos.line == pos'.line ==> t.pos.line == t'.pos.line)
  }

  /** A literal keeps its extent, its lines, and a final overrun under replacement. */
  ghost predicate StringKept(s: string, q: char, o: string, n: string, pos: Pos, pos': Pos)
  {
    var t, t' := StringTail(s, q, pos), StringTail(Replaced(s, o, n), q, pos');
    LiteralKeptBy(t, s, t', Replaced(s, o, n), Cut(s, t.len, o, n), q, pos, pos')
  }

  lemma StringKeptBy(s: string, t: Tail, s': string, t': Tail, cut': nat, q: char, o: string, n: string, pos: Pos,
      pos': Pos)
    requires StringTail(s, q, pos) == t && Replaced(s, o, n) == s' && StringTail(s', q, pos') == t'
    requires Cut(s, t.len, o, n) == cut'
    requires LiteralKeptBy(t, s, t', s', cut', q, pos, pos')
    ensures StringKept(s, q, o, n, pos, pos')
  {
  }

  /** Behind a and a' the question is the one about s and s'. */
  lemma LiteralLater(a: string, s: string, t: Tail, a': string, s': string, t': Tail, cut': nat, q: char, p: Pos,
      p': Pos, pos: Pos, pos': Pos)
    requires LiteralKeptBy(t, s, t', s', cut', q, p, p') && (pos.line == pos'.line ==> p.line == p'.line)
    ensures LiteralKeptBy(More(|a|, t), a + s, More(|a'|, t'), a' + s',
                          if t.len <= |s| then |a'| + cut' else 0, q, pos, pos')
  {
    StopLater(a, s, t, a', s', t', cut', q);
  }

  lemma {:induction false} StringReplaced(s: string, q: char, o: string, n: string, pos: Pos, pos': Pos)
    requires IsIdentifier(o) && IsIdentifier(n) && (q == '"' || q == '\'')
    ensures StringKept(s, q, o, n, pos, pos')
    decreases |s|, 1
  {
    if s == "" {
    } else if IsIdentifierPart(s[0]) {
      var w, rest := SplitHead(s, IsIdentifierPart);
      var w' := if w == o then n else w;
      TakesName(w, o, n);
      StringReplaced(rest, q, o, n, Right(pos, |w|), Right(pos', |w'|));
      StringWord(w, w', rest, q, o, n, pos, pos');
    } else if s[0] == '\\' {
      EscapeReplaced(s, q, o, n, pos, pos');
    } else if s[0] == q {
      StringCloses(s, q, o, n, pos, pos');
    } else {
      StringReplaced(s[1..], q, o, n, Behind(pos, s[0]), Behind(pos', s[0]));
      StringOther(s, q, o, n, pos, pos');
    }
  }

  lemma StringCloses(s: string, q: char, o: string, n: string, pos: Pos, pos': Pos)
    requires IsIdentifier(n) && s != "" && s[0] == q && (q == '"' || q == '\'')
    ensures StringKept(s, q, o, n, pos, pos')
  {
    SameHead(s, o, n, q);
    assert s[..1] == [q] + "";
    ReplaceOther(q, "", o, n, IsIdentifierPart);
  }

  lemma EscapeAtEnd(q: char, o: string, n: string, pos: Pos, pos': Pos)
    requires IsIdentifier(n)
    ensures StringKept(['\\'], q, o, n, pos, pos')
  {
    ReplaceOther('\\', "", o, n, IsIdentifierPart);
    assert ['\\'] == ['\\'] + "";
  }

  lemma {:induction false} EscapeReplaced(s: string, q: char, o: string, n: string, pos: Pos, pos': Pos)
    requires IsIdentifier(o) && IsIdentifier(n) && (q == '"' || q == '\'') && s != "" && s[0] == '\\'
    ensures StringKept(s, q, o, n, pos, pos')
    decreases |s|, 0
  {
    if |s| == 1 {
      EscapeAtEnd(q, o, n, pos, pos');
      assert s == ['\\'];
    } else if IsIdentifierPart(s[1]) {
      var w, rest := SplitHead(s[1..], IsIdentifierPart);
      var w' := if w == o then n else w;
      var e, e' := ['\\'] + w, ['\\'] + w';
      TakesName(w, o, n);
      StringReplaced(rest, q, o, n, Right(pos, |e|), Right(pos', |e'|));
      StringEscapedWord(e, w, e', w', rest, q, o, n, pos, pos');
      assert s == e + rest;
    } else {
      StringReplaced(s[2..], q, o, n, Right(pos, 2), Right(pos', 2));
      StringEscapedOther(s, q, o, n, pos, pos');
    }
  }

  lemma TailBehind(w: string, rest: string, q: char, pos: Pos, t: Tail)
    requires AllOf(w, IsIdentifierPart) && !IsIdentifierPart(q) && StringTail(rest, q, Right(pos, |w|)) == t
    ensures StringTail(w + rest, q, pos) == More(|w|, t)
  {
    StringPassesWord(w, rest, q, pos);
  }

  lemma WordCut(w: string, w': string, rest: string, len: nat, o: string, n: string)
    requires Takes(w, w', o, n) && StartsApart(rest, IsIdentifierPart)
    ensures Cut(w + rest, |w| + len, o, n) == if len <= |rest| then |w'| + Cut(rest, len, o, n) else 0
  {
    if len <= |rest| {
      ReplacedWordPrefix(w, w', rest, len, o, n);
    }
  }

  /** Put together what is known of the word, of its place, and of the literals behind both. */
  lemma StringJoin(w: string, rest: string, t: Tail, w': string, r: string, t': Tail, cut: nat, q: char, o: string,
      n: string, pos: Pos, pos': Pos)
    requires StringTail(w + rest, q, pos) == More(|w|, t) && StringTail(w' + r, q, pos') == More(|w'|, t')
    requires Replaced(w + rest, o, n) == w' + r
    requires Cut(w + rest, |w| + t.len, o, n) == if t.len <= |rest| then |w'| + cut else 0
    requires LiteralKeptBy(t, rest, t', r, cut, q, Right(pos, |w|), Right(pos', |w'|))
    ensures StringKept(w + rest, q, o, n, pos, pos')
  {
    LiteralLater(w, rest, t, w', r, t', cut, q, Right(pos, |w|), Right(pos', |w'|), pos, pos');
    StringKeptBy(w + rest, More(|w|, t), w' + r, More(|w'|, t'),
                 if t.len <= |rest| then |w'| + cut else 0, q, o, n, pos, pos');
  }

  lemma StringWord(w: string, w': string, rest: string, q: char, o: string, n: string, pos: Pos, pos': Pos)
    requires q == '"' || q == '\''
    requires Takes(w, w', o, n) && StartsApart(rest, IsIdentifierPart)
    requires StringKept(rest, q, o, n, Right(pos, |w|), Right(pos', |w'|))
    ensures StringKept(w + rest, q, o, n, pos, pos')
  {
    var r := Replaced(rest, o, n);
    var t, t' := StringTail(rest, q, Right(pos, |w|)), StringTail(r, q, Right(pos', |w'|));
    TailBehind(w, rest, q, pos, t);
    TailBehind(w', r, q, pos', t');
    ReplacedWord(w, w', rest, o, n);
    WordCut(w, w', rest, t.len, o, n);
    StringJoin(w, rest, t, w', r, t', Cut(rest, t.len, o, n), q, o, n, pos, pos');
  }

  lemma StringOther(s: string, q: char, o: string, n: string, pos: Pos, pos': Pos)
    requires IsIdentifier(n) && s != "" && !IsIdentifierPart(s[0]) && s[0] != '\\' && s[0] != q
    requires StringKept(s[1..], q, o, n, Behind(pos, s[0]), Behind(pos', s[0]))
    ensures StringKept(s, q, o, n, pos, pos')
  {
    var t := StringTail(s, q, pos);
    SameHead(s, o, n, s[0]);
    if t.len <= |s| {
      assert s[..t.len] == [s[0]] + s[1..][..t.len - 1];
      ReplaceOther(s[0], s[1..][..t.len - 1], o, n, IsIdentifierPart);
    }
  }

  lemma StringEscapedOther(s: string, q: char, o: string, n: string, pos: Pos, pos': Pos)
    requires IsIdentifier(n) && |s| >= 2 && s[0] == '\\' && !IsIdentifierPart(s[1])
    requires StringKept(s[2..], q, o, n, Right(pos, 2), Right(pos', 2))
    ensures StringKept(s, q, o, n, pos, pos')
  {
    var t := StringTail(s, q, pos);
    SameHead(s, o, n, '\\');
    SameHead(s[1..], o, n, s[1]);
    assert s[1..][1..] == s[2..];
    var r := Replaced(s[2..], o, n);
    assert Replaced(s, o, n) == ['\\'] + ([s[1]] + r);
    assert Replaced(s, o, n)[2..] == r;
    if t.len <= |s| {
      var k := t.len - 2;
      assert s[..t.len] == ['\\'] + ([s[1]] + s[2..][..k]);
      ReplaceOther('\\', [s[1]] + s[2..][..k], o, n, IsIdentifierPart);
      ReplaceOther(s[1], s[2..][..k], o, n, IsIdentifierPart);
    }
  }

  /** A word whose first character is escaped: `e` and `e'` are the word and its replacement with the backslash. */
  lemma StringEscapedWord(e: string, w: string, e': string, w': string, rest: string, q: char, o: string, n: string,
      pos: Pos, pos': Pos)
    requires q == '"' || q == '\''
    requires Takes(w, w', o, n) && StartsApart(rest, IsIdentifierPart) && e == ['\\'] + w && e' == ['\\'] + w'
    requires StringKept(rest, q, o, n, Right(pos, |e|), Right(pos', |e'|))
    ensures StringKept(e + rest, q, o, n, pos, pos')
  {
    var r := Replaced(rest, o, n);
    var t, t' := StringTail(rest, q, Right(pos, |e|)), StringTail(r, q, Right(pos', |e'|));
    EscapedWordTail(e, w, rest, q, pos);
    EscapedWordTail(e', w', r, q, pos');
    EscapedReplaced(e, w, e', w', rest, o, n);
    EscapedCut(e, w, e', w', rest, t.len, o, n);
    StringJoin(e, rest, t, e', r, t', Cut(rest, t.len, o, n), q, o, n, pos, pos');
  }

  lemma EscapedReplaced(e: string, w: string, e': string, w': string, rest: string, o: string, n: string)
    requires Takes(w, w', o, n) && StartsApart(rest, IsIdentifierPart) && e == ['\\'] + w && e' == ['\\'] + w'
    ensures Replaced(e + rest, o, n) == e' + Replaced(rest, o, n)
  {
    Regroup(['\\'], w, rest);
    ReplaceOther('\\', w + rest, o, n, IsIdentifierPart);
    ReplacedWord(w, w', rest, o, n);
    Regroup(['\\'], w', Replaced(rest, o, n));
  }

  lemma EscapedCut(e: string, w: string, e': string, w': string, rest: string, len: nat, o: string, n: string)
    requires Takes(w, w', o, n) && StartsApart(rest, IsIdentifierPart) && e == ['\\'] + w && e' == ['\\'] + w'
    ensures Cut(e + rest, |e| + len, o, n) == if len <= |rest| then |e'| + Cut(rest, len, o, n) else 0
  {
    if len <= |rest| {
      assert (e + rest)[..|e| + len] == e + rest[..len];
      EscapedReplaced(e, w, e', w', rest[..len], o, n);
    }
  }

  lemma EscapedWordTail(e: string, w: string, rest: string, q: char, pos: Pos)
    requires IsWord(w, IsIdentifierPart) && !IsIdentifierPart(q) && e == ['\\'] + w
    ensures StringTail(e + rest, q, pos) == More(|e|, StringTail(rest, q, Right(pos, |e|)))
  {
    assert (e + rest)[2..] == w[1..] + rest;
    StringPassesWord(w[1..], rest, q, Right(pos, 2));
  }

  // ---------------------------------------------------------------- one piece

  /** The word behind a number that ends in a digit is not a word of its own. */
  predicate GluesNext(p: Piece, s: string)
    requires 0 < p.len <= |s|
  {
    p.Lexed? && p.kind == Number && IsDigit(s[p.len - 1]) && p.len < |s| && IsIdentifierStart(s[p.len])
  }

  /** p' is to s' what p is to s: the same kind of piece over the replaced text, the rest following suit. */
  ghost predicate PieceKept(s: string, glued: bool, p: Piece, s': string, p': Piece, o: string, n: string)
  {
    if p.len > |s| then p'.len > |s'|
    else
      && 0 < p.len && 0 < p'.len <= |s'|
      && (if p.Blank? then p'.Blank? else p'.Lexed? && p'.kind == p.kind)
      && p'.pos.line == p.pos.line
      && s'[..p'.len] == (if glued then s[..p.len] else Replaced(s[..p.len], o, n))
      && s'[p'.len..] == ReplacedFrom(s[p.len..], GluesNext(p, s), o, n)
  }

  /** Cutting s' behind the replaced first k characters. */
  lemma CutReplaced(s: string, k: nat, o: string, n: string)
    requires k <= |s| && (StartsApart(s[k..], IsIdentifierPart) || (k > 0 && !IsIdentifierPart(s[k - 1])))
    ensures var s', k' := Replaced(s, o, n), |Replaced(s[..k], o, n)|;
      k' <= |s'| && s'[..k'] == Replaced(s[..k], o, n) && s'[k'..] == Replaced(s[k..], o, n)
  {
    if StartsApart(s[k..], IsIdentifierPart) {
      ReplacedSplit(s, k, o, n);
    } else {
      ReplacedSplitAfter(s, k, o, n);
    }
  }

  lemma {:induction false} ReplacedOneLine(s: string, o: string, n: string)
    requires IsIdentifier(n) && AllOf(s, NotNewline)
    ensures AllOf(Replaced(s, o, n), NotNewline)
    decreases |s|
  {
    if s == "" {
    } else if IsIdentifierPart(s[0]) {
      var w, rest := SplitHead(s, IsIdentifierPart);
      ReplacedOneLine(rest, o, n);
    } else {
      ReplacedOneLine(s[1..], o, n);
    }
  }

  lemma LineCommentKept(kw: set<string>, s: string, pos: Pos, pos': Pos, o: string, n: string)
    requires IsIdentifier(o) && IsIdentifier(n) && pos.line == pos'.line
    requires |s| > 1 && s[0] == '/' && s[1] == '/'
    ensures var s' := Replaced(s, o, n);
      s' != "" && PieceKept(s, false, NextPiece(kw, s, pos), s', NextPiece(kw, s', pos'), o, n)
  {
    var k := RunLen(s[2..], NotNewline);
    TwoOther(s, o, n);
    LineReplaced(s[2..], o, n);
    assert s[2 + k..] == s[2..][k..];
    CutReplaced(s, 2 + k, o, n);
    TwoOtherPrefix(s, k, o, n);
  }

  lemma LineReplaced(body: string, o: string, n: string)
    requires IsIdentifier(n)
    ensures var k := RunLen(body, NotNewline);
      RunLen(Replaced(body, o, n), NotNewline) == |Replaced(body[..k], o, n)|
          && StartsApart(body[k..], IsIdentifierPart)
  {
    var k := RunLen(body, NotNewline);
    CutReplaced(body, k, o, n);
    ReplacedOneLine(body[..k], o, n);
    SameHead(body[k..], o, n, '\n');
    RunLenIs(Replaced(body, o, n), NotNewline, |Replaced(body[..k], o, n)|);
  }

  lemma TwoOther(s: string, o: string, n: string)
    requires IsIdentifier(n) && |s| > 1 && !IsIdentifierPart(s[0]) && !IsIdentifierPart(s[1])
    ensures var s' := Replaced(s, o, n);
      |s'| > 1 && s'[0] == s[0] && s'[1] == s[1] && s'[2..] == Replaced(s[2..], o, n)
  {
    SameHead(s, o, n, s[0]);
    SameHead(s[1..], o, n, s[1]);
    assert s[1..][1..] == s[2..];
  }

  lemma TwoOtherPrefix(s: string, k: nat, o: string, n: string)
    requires |s| > 1 && !IsIdentifierPart(s[0]) && !IsIdentifierPart(s[1]) && 2 + k <= |s|
    ensures |Replaced(s[..2 + k], o, n)| == 2 + |Replaced(s[2..][..k], o, n)|
  {
    ReplacedPrefixOther(s, 2 + k, o, n);
    ReplacedPrefixOther(s[1..], 1 + k, o, n);
    assert s[1..][1..] == s[2..];
  }

  lemma BlockCommentKept(kw: set<string>, s: string, pos: Pos, pos': Pos, o: string, n: string)
    requires IsIdentifier(o) && IsIdentifier(n) && pos.line == pos'.line
    requires |s| > 1 && s[0] == '/' && s[1] == '*' && Closes(s[2..])
    ensures var s' := Replaced(s, o, n);
      s' != "" && PieceKept(s, false, NextPiece(kw, s, pos), s', NextPiece(kw, s', pos'), o, n)
  {
    var k := BlockTail(s[2..], Right(pos, 2)).len;
    TwoOther(s, o, n);
    BlockReplaced(s[2..], o, n, Right(pos, 2), Right(pos', 2));
    assert s[2 + k - 1] == '/';
    CutReplaced(s, 2 + k, o, n);
    TwoOtherPrefix(s, k, o, n);
  }

  lemma LiteralKept(kw: set<string>, s: string, pos: Pos, pos': Pos, o: string, n: string)
    requires IsIdentifier(o) && IsIdentifier(n) && pos.line == pos'.line
    requires s != "" && (s[0] == '"' || s[0] == '\'')
    ensures var s' := Replaced(s, o, n);
      s' != "" && PieceKept(s, false, NextPiece(kw, s, pos), s', NextPiece(kw, s', pos'), o, n)
  {
    var t := StringTail(s[1..], s[0], Right(pos, 1));
    SameHead(s, o, n, s[0]);
    var s' := Replaced(s, o, n);
    assert s'[1..] == Replaced(s[1..], o, n);
    StringReplaced(s[1..], s[0], o, n, Right(pos, 1), Right(pos', 1));
    if 1 + t.len <= |s| {
      CutReplaced(s, 1 + t.len, o, n);
      ReplacedPrefixOther(s, 1 + t.len, o, n);
    }
  }

  lemma WordKept(kw: set<string>, s: string, pos: Pos, pos': Pos, o: string, n: string)
    requires Names(kw, o, n) && pos.line == pos'.line
    requires s != "" && IsIdentifierStart(s[0])
    ensures var s' := Replaced(s, o, n);
      s' != "" && PieceKept(s, false, NextPiece(kw, s, pos), s', NextPiece(kw, s', pos'), o, n)
  {
    var w, rest := SplitHead(s, IsIdentifierPart);
    var w' := if w == o then n else w;
    ReplaceWord(w, rest, o, n, IsIdentifierPart);
    ReplaceKeepsApart(rest, o, n, IsIdentifierPart);
    WordPiece(kw, w, rest, pos);
    WordPiece(kw, w', Replaced(rest, o, n), pos');
    ReplaceWord(w, "", o, n, IsIdentifierPart);
    assert w + "" == w;
  }

  /** A word at the head of the text, followed by something else, is one piece. */
  lemma WordPiece(kw: set<string>, w: string, rest: string, pos: Pos)
    requires IsIdentifier(w) && StartsApart(rest, IsIdentifierPart)
    ensures NextPiece(kw, w + rest, pos) == Lexed(WordKind(kw, w), |w|, Right(pos, |w|))
    ensures (w + rest)[..|w|] == w && (w + rest)[|w|..] == rest
  {
    var s := w + rest;
    assert s[1..] == w[1..] + rest;
    assert s[1..][..|w| - 1] == w[1..];
    RunLenIs(s[1..], IsIdentifierPart, |w| - 1);
    assert s[..|w|] == w;
  }

  lemma GluedKept(kw: set<string>, s: string, pos: Pos, pos': Pos, o: string, n: string)
    requires IsIdentifier(n) && pos.line == pos'.line
    requires s != "" && IsIdentifierStart(s[0])
    ensures var s' := ReplacedFrom(s, true, o, n);
      s' != "" && PieceKept(s, true, NextPiece(kw, s, pos), s', NextPiece(kw, s', pos'), o, n)
    ensures IsIdentifier(s[..NextPiece(kw, s, pos).len])
  {
    var w, rest := SplitHead(s, IsIdentifierPart);
    ReplaceKeepsApart(rest, o, n, IsIdentifierPart);
    WordPiece(kw, w, rest, pos);
    WordPiece(kw, w, Replaced(rest, o, n), pos');
  }

  // ---------------------------------------------------------------- numbers and symbols

  /** Behind its first k characters s goes on with the tail of a word that ends a digit run. */
  predicate Glues(s: string, k: nat)
  {
    0 < k < |s| && IsDigit(s[k - 1]) && IsIdentifierStart(s[k])
  }

  ghost predicate NumberSplits(s: string, k: nat, o: string, n: string)
  {
    k <= |s| && Replaced(s, o, n) == s[..k] + ReplacedFrom(s[k..], Glues(s, k), o, n)
  }

  lemma GluesBehind(w: string, rest: string, k: nat)
    requires w != "" && |w| <= k && (k == |w| ==> !Glues(w + rest, k))
    ensures Glues(w + rest, k) <==> Glues(rest, k - |w|)
  {
  }

  lemma CutBehind(w: string, rest: string, k: nat)
    requires |w| <= k <= |w| + |rest|
    ensures (w + rest)[..k] == w + rest[..k - |w|] && (w + rest)[k..] == rest[k - |w|..]
  {
  }

  lemma InFrontOf(w: string, s: string, front: string, back: string)
    requires s == front + back
    ensures w + s == (w + front) + back
  {
  }

  lemma SplitsIs(s: string, k: nat, front: string, back: string, glues: bool, o: string, n: string)
    requires k <= |s| && s[..k] == front && s[k..] == back && (Glues(s, k) <==> glues)
    requires Replaced(s, o, n) == front + ReplacedFrom(back, glues, o, n)
    ensures NumberSplits(s, k, o, n)
  {
  }

  lemma NumberStep(s: string, w: string, rest: string, k: nat, o: string, n: string)
    requires s == w + rest && w != "" && |w| <= k && NumberSplits(rest, k - |w|, o, n)
    requires Replaced(s, o, n) == w + Replaced(rest, o, n)
    requires k == |w| ==> !Glues(s, k)
    ensures NumberSplits(s, k, o, n)
  {
    var j := k - |w|;
    var front, back, glues := rest[..j], rest[j..], Glues(rest, j);
    GluesBehind(w, rest, k);
    CutBehind(w, rest, k);
    InFrontOf(w, Replaced(rest, o, n), front, ReplacedFrom(back, glues, o, n));
    SplitsIs(s, k, w + front, back, glues, o, n);
  }

  /** A run of digits and dots survives replacement; a word glued to its last digit does too. */
  lemma {:induction false} NumberReplaced(s: string, k: nat, o: string, n: string)
    requires IsIdentifier(o) && k <= |s| && AllOf(s[..k], IsNumberPart)
    requires k < |s| ==> !IsNumberPart(s[k])
    ensures NumberSplits(s, k, o, n)
    decreases k, 1
  {
    if k == 0 {
      assert s[0..] == s;
    } else if IsDigit(s[..k][0]) {
      NumberDigits(s, k, o, n);
    } else {
      assert s == ['.'] + s[1..];
      assert s[1..][..k - 1] == s[..k][1..];
      NumberReplaced(s[1..], k - 1, o, n);
      ReplaceOther('.', s[1..], o, n, IsIdentifierPart);
      NumberStep(s, ['.'], s[1..], k, o, n);
    }
  }

  lemma {:induction false} NumberDigits(s: string, k: nat, o: string, n: string)
    requires IsIdentifier(o) && 0 < k <= |s| && AllOf(s[..k], IsNumberPart) && IsDigit(s[0])
    requires k < |s| ==> !IsNumberPart(s[k])
    ensures NumberSplits(s, k, o, n)
    decreases k, 0
  {
    var w, rest := SplitHead(s, IsIdentifierPart);
    ReplaceWord(w, rest, o, n, IsIdentifierPart);
    assert w[0] == s[0];
    if |w| <= k {
      assert rest[..k - |w|] == s[..k][|w|..];
      NumberReplaced(rest, k - |w|, o, n);
      NumberStep(s, w, rest, k, o, n);
    } else {
      GluedTail(s, k, w, rest, o, n);
    }
  }

  /** A text that starts in the middle of a word. */
  lemma GluedAlone(w: string, rest: string, o: string, n: string)
    requires IsWord(w, IsIdentifierPart) && StartsApart(rest, IsIdentifierPart)
    ensures ReplacedFrom(w + rest, true, o, n) == w + Replaced(rest, o, n)
  {
    assert (w + rest)[..|w|] == w && (w + rest)[|w|..] == rest;
    RunLenIs(w + rest, IsIdentifierPart, |w|);
  }

  lemma GluedTail(s: string, k: nat, w: string, rest: string, o: string, n: string)
    requires IsWord(w, IsIdentifierPart) && StartsApart(rest, IsIdentifierPart) && s == w + rest
    requires 0 < k < |w| && AllOf(s[..k], IsNumberPart) && !IsNumberPart(s[k])
    ensures w + Replaced(rest, o, n) == s[..k] + ReplacedFrom(s[k..], true, o, n)
    ensures IsDigit(s[k - 1]) && IsIdentifierStart(s[k])
  {
    assert w[k - 1] == s[..k][k - 1] && w[k] == s[k];
    var tail := w[k..];
    assert s[k..] == tail + rest && s[..k] == w[..k] && w == w[..k] + tail;
    GluedAlone(tail, rest, o, n);
    Regroup(w[..k], tail, Replaced(rest, o, n));
  }

  lemma HeadOfRest(s: string, k: nat, o: string, n: string)
    requires IsIdentifier(n) && 0 < k <= |s| && IsNumberPart(s[k - 1])
    requires k < |s| ==> !IsNumberPart(s[k])
    ensures var r := ReplacedFrom(s[k..], Glues(s, k), o, n);
      r == "" || !IsNumberPart(r[0])
  {
    if k < |s| {
      if Glues(s, k) {
        assert s[k..][0] == s[k];
      } else {
        HeadOfReplaced(s[k..], o, n);
      }
    }
  }

  /** A number at the head of the text is one piece. */
  lemma NumberPiece(kw: set<string>, w: string, rest: string, pos: Pos)
    requires w != "" && IsDigit(w[0]) && AllOf(w, IsNumberPart) && (rest == "" || !IsNumberPart(rest[0]))
    ensures NextPiece(kw, w + rest, pos) == Lexed(Number, |w|, Right(pos, |w|))
    ensures (w + rest)[..|w|] == w && (w + rest)[|w|..] == rest
  {
    var s := w + rest;
    assert s[1..] == w[1..] + rest;
    assert s[1..][..|w| - 1] == w[1..];
    RunLenIs(s[1..], IsNumberPart, |w| - 1);
  }

  lemma NumberKept(kw: set<string>, s: string, pos: Pos, pos': Pos, o: string, n: string)
    requires IsIdentifier(o) && IsIdentifier(n) && pos.line == pos'.line
    requires s != "" && IsDigit(s[0])
    ensures var s' := Replaced(s, o, n);
      s' != "" && PieceKept(s, false, NextPiece(kw, s, pos), s', NextPiece(kw, s', pos'), o, n)
  {
    var k := RunLen(s, IsNumberPart);
    var w, rest := s[..k], s[k..];
    assert s == w + rest;
    NumberPiece(kw, w, rest, pos);
    NumberReplaced(s, k, o, n);
    HeadOfRest(s, k, o, n);
    NumberPiece(kw, w, ReplacedFrom(rest, Glues(s, k), o, n), pos');
    assert w[..k] == w && w[k..] == "";
    NumberReplaced(w, k, o, n);
  }

  lemma SymbolKept(kw: set<string>, s: string, pos: Pos, pos': Pos, o: string, n: string)
    requires IsIdentifier(n) && pos.line == pos'.line
    requires s != "" && !IsIdentifierPart(s[0]) && !IsSpace(s[0]) && s[0] != '"' && s[0] != '\''
    requires s[0] == '/' && |s| > 1 ==> s[1] != '/' && s[1] != '*'
    ensures var s' := Replaced(s, o, n);
      s' != "" && PieceKept(s, false, NextPiece(kw, s, pos), s', NextPiece(kw, s', pos'), o, n)
  {
    SameHead(s, o, n, s[0]);
    var s' := Replaced(s, o, n);
    assert s'[1..] == Replaced(s[1..], o, n);
    SameHead(s[1..], o, n, '/');
    SameHead(s[1..], o, n, '*');
    SameHead(s[1..], o, n, '.');
    ReplacedPrefixOther(s, 1, o, n);
    CutReplaced(s, 1, o, n);
    if s[0] == '.' && |s| > 1 && s[1] == '.' {
      TwoOther(s, o, n);
      SameHead(s[2..], o, n, '.');
      if |s| > 2 && s[2] == '.' {
        CutReplaced(s, 3, o, n);
        TwoOtherPrefix(s, 1, o, n);
        ReplacedPrefixOther(s[2..], 1, o, n);
      }
    }
  }

  lemma BlankKept(kw: set<string>, s: string, pos: Pos, pos': Pos, o: string, n: string)
    requires IsIdentifier(n) && pos.line == pos'.line && s != "" && IsSpace(s[0])
    ensures var s' := Replaced(s, o, n);
      s' != "" && PieceKept(s, false, NextPiece(kw, s, pos), s', NextPiece(kw, s', pos'), o, n)
  {
    SameHead(s, o, n, s[0]);
    ReplacedPrefixOther(s, 1, o, n);
    CutReplaced(s, 1, o, n);
  }

  /** Whatever the next piece is, it is kept. */
  lemma AnyPieceKept(kw: set<string>, s: string, glued: bool, pos: Pos, pos': Pos, o: string, n: string)
    requires Names(kw, o, n) && pos.line == pos'.line
    requires s != "" && (glued ==> IsIdentifierStart(s[0]))
    requires |s| > 1 && s[0] == '/' && s[1] == '*' ==> Closes(s[2..])
    ensures var s' := ReplacedFrom(s, glued, o, n);
      s' != "" && PieceKept(s, glued, NextPiece(kw, s, pos), s', NextPiece(kw, s', pos'), o, n)
    ensures glued ==> NextPiece(kw, s, pos).len <= |s| && IsIdentifier(s[..NextPiece(kw, s, pos).len])
  {
    if glued {
      GluedKept(kw, s, pos, pos', o, n);
    } else if IsSpace(s[0]) {
      BlankKept(kw, s, pos, pos', o, n);
    } else if s[0] == '/' && |s| > 1 && s[1] == '/' {
      LineCommentKept(kw, s, pos, pos', o, n);
    } else if s[0] == '/' && |s| > 1 && s[1] == '*' {
      BlockCommentKept(kw, s, pos, pos', o, n);
    } else if s[0] == '"' || s[0] == '\'' {
      LiteralKept(kw, s, pos, pos', o, n);
    } else if IsIdentifierStart(s[0]) {
      WordKept(kw, s, pos, pos', o, n);
    } else if IsDigit(s[0]) {
      NumberKept(kw, s, pos, pos', o, n);
    } else {
      SymbolKept(kw, s, pos, pos', o, n);
    }
  }
}
