/** Stripping annotations and modifiers from the tokens of a declaration. */
module Decorators {
  import opened Text
  import opened Lexer
  import opened LexerTheorems

  const MODIFIERS: set<string> := {
    "public", "protected", "private", "abstract", "final", "static", "sealed", "non-sealed",
    "default", "native", "synchronized", "transient", "volatile"
  }

  predicate Is(t: Token, c: char) { |t.lexeme| == 1 && t.lexeme[0] == c }

  predicate IsName(t: Token) { t.kind == Identifier || t.kind == Keyword }

  predicate IsModifier(t: Token) { t.lexeme in MODIFIERS }

  /** How many tokens a parenthesised group goes on for, `depth` parentheses being open. */
  function GroupLen(ts: seq<Token>, depth: nat): (n: nat)
    ensures n <= |ts|
  {
    if ts == [] || depth == 0 then 0
    else 1 + GroupLen(ts[1..], if Is(ts[0], '(') then depth + 1 else if Is(ts[0], ')') then depth - 1 else depth)
  }

  /** How many tokens an annotation goes on for behind its `@`: names and dots, up to and with its arguments. */
  function AnnotationLen(ts: seq<Token>): (n: nat)
    ensures n <= |ts|
  {
    if ts == [] then 0
    else if Is(ts[0], '(') then 1 + GroupLen(ts[1..], 1)
    else if Is(ts[0], '.') || IsName(ts[0]) then 1 + AnnotationLen(ts[1..])
    else 0
  }

  function Deeper(depth: nat, t: Token): nat
  {
    if Is(t, '<') then depth + 1 else if Is(t, '>') && depth > 0 then depth - 1 else depth
  }

  function Strip(ts: seq<Token>, angleDepth: nat): seq<Token>
    decreases |ts|
  {
    if ts == [] then []
    else if Is(ts[0], '@') then Strip(ts[1..][AnnotationLen(ts[1..])..], angleDepth)
    else if angleDepth == 0 && IsModifier(ts[0]) then Strip(ts[1..], angleDepth)
    else [ts[0]] + Strip(ts[1..], Deeper(angleDepth, ts[0]))
  }

  lemma AngleIsNoModifier(t: Token)
    requires Is(t, '<') || Is(t, '>')
    ensures !IsModifier(t)
  {
  }

  /** The loop over an annotation group, from behind its opening parenthesis. */
  method SkipGroup(tokens: seq<Token>, start: nat) returns (i: nat)
    requires start < |tokens|
    ensures i == start + GroupLen(tokens[start + 1..], 1)
  {
    i := start;
    var depth := 1;
    while i + 1 < |tokens| && depth > 0
      invariant start <= i < |tokens| && depth >= 0
      invariant GroupLen(tokens[start + 1..], 1) == i - start + GroupLen(tokens[i + 1..], depth)
    {
      i := i + 1;
      assert tokens[i..][1..] == tokens[i + 1..];
      if Is(tokens[i], '(') {
        depth := depth + 1;
      } else if Is(tokens[i], ')') {
        depth := depth - 1;
      }
    }
  }

  /** The annotation loop with its step back: i ends on the last token of the annotation. */
  method SkipAnnotation(tokens: seq<Token>, start: nat) returns (i: nat)
    requires start < |tokens|
    ensures i == start + AnnotationLen(tokens[start + 1..])
  {
    i := start;
    while i + 1 < |tokens|
      invariant start <= i < |tokens|
      invariant AnnotationLen(tokens[start + 1..]) == i - start + AnnotationLen(tokens[i + 1..])
    {
      i := i + 1;
      assert tokens[i..][1..] == tokens[i + 1..];
      if Is(tokens[i], '(') {
        i := SkipGroup(tokens, i);
        return;
      }
      if !Is(tokens[i], '.') && !IsName(tokens[i]) {
        i := i - 1;
        return;
      }
    }
  }

  lemma DropTwice<T>(a: seq<T>, i: nat, k: nat)
    requires i + k <= |a|
    ensures a[i..][k..] == a[i + k..]
  {
  }

  lemma Regrouped<T>(x: seq<T>, y: seq<T>, z: seq<T>)
    ensures x + (y + z) == (x + y) + z
  {
  }

  /** The loop has kept `filtered`, the tokens ts are still to come, and angleDepth brackets are open. */
  ghost predicate StripSoFar(total: seq<Token>, filtered: seq<Token>, ts: seq<Token>, angleDepth: nat)
  {
    total == filtered + Strip(ts, angleDepth)
  }

  /** Whether one turn of the loop, over the first of the tokens ts, takes n tokens and leaves filtered' and
      angleDepth'. */
  ghost predicate StripTurns(ts: seq<Token>, filtered: seq<Token>, angleDepth: nat, n: nat, filtered': seq<Token>,
      angleDepth': nat)
    requires ts != []
  {
    if Is(ts[0], '@') then n == 1 + AnnotationLen(ts[1..]) && filtered' == filtered && angleDepth' == angleDepth
    else if angleDepth == 0 && IsModifier(ts[0]) then n == 1 && filtered' == filtered && angleDepth' == angleDepth
    else n == 1 && filtered' == filtered + [ts[0]] && angleDepth' == Deeper(angleDepth, ts[0])
  }

  lemma StripTurn(total: seq<Token>, ts: seq<Token>, filtered: seq<Token>, angleDepth: nat, n: nat,
      filtered': seq<Token>, angleDepth': nat)
    requires ts != [] && StripSoFar(total, filtered, ts, angleDepth)
    requires StripTurns(ts, filtered, angleDepth, n, filtered', angleDepth')
    ensures n <= |ts| && StripSoFar(total, filtered', ts[n..], angleDepth')
  {
    if Is(ts[0], '@') {
      DropTwice(ts, 1, n - 1);
    } else if !(angleDepth == 0 && IsModifier(ts[0])) {
      Regrouped(filtered, [ts[0]], Strip(ts[1..], angleDepth'));
    }
  }

  lemma StripMoves(tokens: seq<Token>, i: nat, total: seq<Token>, ts: seq<Token>, filtered: seq<Token>,
      angleDepth: nat, i': nat, filtered': seq<Token>, angleDepth': nat)
    returns (rest: seq<Token>)
    requires i < |tokens| && i <= i' && ts == tokens[i..] && StripSoFar(total, filtered, ts, angleDepth)
    requires StripTurns(ts, filtered, angleDepth, i' - i, filtered', angleDepth')
    ensures i' <= |tokens| && rest == tokens[i'..] && StripSoFar(total, filtered', rest, angleDepth')
  {
    StripTurn(total, ts, filtered, angleDepth, i' - i, filtered', angleDepth');
    rest := ts[i' - i..];
    DropTwice(tokens, i, i' - i);
  }

  lemma StripEnd(total: seq<Token>, filtered: seq<Token>, angleDepth: nat)
    requires StripSoFar(total, filtered, [], angleDepth)
    ensures filtered == total
  {
    assert filtered + [] == filtered;
  }

  method StripDecorators(tokens: seq<Token>) returns (filtered: seq<Token>)
    ensures filtered == Strip(tokens, 0)
  {
    filtered := [];
    var angleDepth: nat := 0;
    var i := 0;
    ghost var total, rest := Strip(tokens, 0), tokens[0..];
    assert rest == tokens;
    while i < |tokens|
      invariant 0 <= i <= |tokens| && rest == tokens[i..]
      invariant StripSoFar(total, filtered, rest, angleDepth)
      decreases |tokens| - i
    {
      ghost var start, before, filtered0, angleDepth0 := i, rest, filtered, angleDepth;
      var tok := tokens[i];
      assert before[1..] == tokens[i + 1..];
      if Is(tok, '@') {
        i := SkipAnnotation(tokens, i);
      } else if Is(tok, '<') {
        AngleIsNoModifier(tok);
        angleDepth := angleDepth + 1;
        filtered := filtered + [tok];
      } else if Is(tok, '>') {
        AngleIsNoModifier(tok);
        if angleDepth > 0 {
          angleDepth := angleDepth - 1;
        }
        filtered := filtered + [tok];
      } else if angleDepth == 0 && IsModifier(tok) {
      } else {
        filtered := filtered + [tok];
      }
      i := i + 1;
      rest := StripMoves(tokens, start, total, before, filtered0, angleDepth0, i, filtered, angleDepth);
    }
    StripEnd(total, filtered, angleDepth);
  }

  // ---------------------------------------------------------------- what is left

  /** How many angle brackets are open behind ts; a stray closing one is not counted. */
  function AngleDepth(ts: seq<Token>): nat
  {
    if ts == [] then 0 else Deeper(AngleDepth(ts[..|ts| - 1]), ts[|ts| - 1])
  }

  /** No annotation, and no modifier outside angle brackets. */
  ghost predicate Stripped(ts: seq<Token>)
  {
    forall k :: 0 <= k < |ts| ==> !Is(ts[k], '@') && (IsModifier(ts[k]) ==> AngleDepth(ts[..k]) > 0)
  }

  /** xs is ts with tokens left out: position k of xs shows the token at position at[k] of ts. */
  ghost predicate Picks(xs: seq<Token>, ts: seq<Token>, at: seq<int>)
  {
    && |at| == |xs|
    && (forall k :: 0 <= k < |xs| ==> 0 <= at[k] < |ts| && xs[k] == ts[at[k]])
    && (forall k, l :: 0 <= k < l < |xs| ==> at[k] < at[l])
  }

  ghost predicate Subsequence(xs: seq<Token>, ts: seq<Token>)
  {
    exists at: seq<int> :: Picks(xs, ts, at)
  }

  function Shift(at: seq<int>, n: nat): (r: seq<int>)
    ensures |r| == |at| && forall k :: 0 <= k < |at| ==> r[k] == at[k] + n
  {
    seq(|at|, k requires 0 <= k < |at| => at[k] + n)
  }

  lemma PicksLater(xs: seq<Token>, ts: seq<Token>, n: nat, at: seq<int>)
    requires n <= |ts| && Picks(xs, ts[n..], at)
    ensures Picks(xs, ts, Shift(at, n))
  {
  }

  lemma PicksHead(xs: seq<Token>, ts: seq<Token>, at: seq<int>)
    requires ts != [] && Picks(xs, ts[1..], at)
    ensures Picks([ts[0]] + xs, ts, [0] + Shift(at, 1))
  {
  }

  lemma {:induction false} StripIsSubsequence(ts: seq<Token>, angleDepth: nat)
    ensures Subsequence(Strip(ts, angleDepth), ts)
    decreases |ts|
  {
    if ts == [] {
      assert Picks([], ts, []);
    } else if Is(ts[0], '@') {
      var n := 1 + AnnotationLen(ts[1..]);
      assert ts[1..][AnnotationLen(ts[1..])..] == ts[n..];
      StripIsSubsequence(ts[n..], angleDepth);
      var at :| Picks(Strip(ts[n..], angleDepth), ts[n..], at);
      PicksLater(Strip(ts[n..], angleDepth), ts, n, at);
    } else if angleDepth == 0 && IsModifier(ts[0]) {
      StripIsSubsequence(ts[1..], angleDepth);
      var at :| Picks(Strip(ts[1..], angleDepth), ts[1..], at);
      PicksLater(Strip(ts[1..], angleDepth), ts, 1, at);
    } else {
      var d := Deeper(angleDepth, ts[0]);
      StripIsSubsequence(ts[1..], d);
      var at :| Picks(Strip(ts[1..], d), ts[1..], at);
      PicksHead(Strip(ts[1..], d), ts, at);
    }
  }

  /** Stripped behind a context in which `depth` angle brackets are already open. */
  predicate CleanFrom(ts: seq<Token>, depth: nat)
  {
    ts == [] || (!Is(ts[0], '@') && (depth == 0 ==> !IsModifier(ts[0])) && CleanFrom(ts[1..], Deeper(depth, ts[0])))
  }

  lemma {:induction false} StripLeavesClean(ts: seq<Token>, depth: nat)
    ensures CleanFrom(Strip(ts, depth), depth)
    decreases |ts|
  {
    if ts == [] {
    } else if Is(ts[0], '@') {
      StripLeavesClean(ts[1..][AnnotationLen(ts[1..])..], depth);
    } else if depth == 0 && IsModifier(ts[0]) {
      StripLeavesClean(ts[1..], depth);
    } else {
      StripLeavesClean(ts[1..], Deeper(depth, ts[0]));
      assert Strip(ts, depth)[1..] == Strip(ts[1..], Deeper(depth, ts[0]));
    }
  }

  lemma {:induction false} StripKeepsClean(ts: seq<Token>, depth: nat)
    requires CleanFrom(ts, depth)
    ensures Strip(ts, depth) == ts
    decreases |ts|
  {
    if ts != [] {
      StripKeepsClean(ts[1..], Deeper(depth, ts[0]));
    }
  }

  /** Clean from the left is clean at every position. */
  lemma {:induction false} CleanIsStripped(pre: seq<Token>, ts: seq<Token>)
    ensures CleanFrom(ts, AngleDepth(pre))
       <==> forall k :: |pre| <= k < |pre| + |ts| ==>
           !Is((pre + ts)[k], '@') && (IsModifier((pre + ts)[k]) ==> AngleDepth((pre + ts)[..k]) > 0)
    decreases |ts|
  {
    var all := pre + ts;
    if ts != [] {
      var pre', rest := pre + [ts[0]], ts[1..];
      assert pre' + rest == all;
      assert pre'[..|pre|] == pre;
      assert all[..|pre|] == pre && all[|pre|] == ts[0];
      CleanIsStripped(pre', rest);
    }
  }

  lemma CleanOnItsOwn(ts: seq<Token>)
    ensures CleanFrom(ts, 0) <==> Stripped(ts)
  {
    CleanIsStripped([], ts);
    assert [] + ts == ts;
  }

  /** The result is part of the input, holds no annotation and no modifier outside angle brackets, and
      stripping changes nothing exactly when there is nothing of that kind to begin with. */
  lemma StripIsIdempotent(ts: seq<Token>)
    ensures Subsequence(Strip(ts, 0), ts)
    ensures Stripped(Strip(ts, 0))
    ensures Strip(Strip(ts, 0), 0) == Strip(ts, 0)
    ensures Strip(ts, 0) == ts <==> Stripped(ts)
  {
    var xs := Strip(ts, 0);
    StripIsSubsequence(ts, 0);
    StripLeavesClean(ts, 0);
    CleanOnItsOwn(xs);
    StripKeepsClean(xs, 0);
    CleanOnItsOwn(ts);
    if Stripped(ts) {
      StripKeepsClean(ts, 0);
    }
  }

  // ---------------------------------------------------------------- what an annotation takes with it

  /** ts closes as many parentheses as it opens, and never one that was not open. */
  predicate Balanced(ts: seq<Token>, depth: nat)
  {
    if ts == [] then depth == 0
    else if Is(ts[0], '(') then Balanced(ts[1..], depth + 1)
    else if Is(ts[0], ')') then depth > 0 && Balanced(ts[1..], depth - 1)
    else Balanced(ts[1..], depth)
  }

  lemma {:induction false} GroupOfBalanced(args: seq<Token>, close: Token, rest: seq<Token>, depth: nat)
    requires Balanced(args, depth) && Is(close, ')')
    ensures GroupLen(args + ([close] + rest), depth + 1) == |args| + 1
    decreases |args|
  {
    var s := args + ([close] + rest);
    if args == [] {
      assert s[1..] == rest;
    } else {
      assert s[1..] == args[1..] + ([close] + rest);
      var depth' := if Is(args[0], '(') then depth + 1 else if Is(args[0], ')') then depth - 1 else depth;
      GroupOfBalanced(args[1..], close, rest, depth');
    }
  }

  ghost predicate NamesAndDots(ts: seq<Token>)
  {
    forall k :: 0 <= k < |ts| ==> (Is(ts[k], '.') || IsName(ts[k])) && !Is(ts[k], '(')
  }

  lemma {:induction false} AnnotationTakes(name: seq<Token>, rest: seq<Token>)
    requires NamesAndDots(name)
    ensures AnnotationLen(name + rest) == |name| + AnnotationLen(rest)
    decreases |name|
  {
    if name == [] {
      assert name + rest == rest;
    } else {
      assert (name + rest)[1..] == name[1..] + rest;
      AnnotationTakes(name[1..], rest);
    }
  }

  lemma StripAt(at: Token, body: seq<Token>, n: nat, depth: nat)
    requires Is(at, '@') && AnnotationLen(body) == n
    ensures Strip([at] + body, depth) == Strip(body[n..], depth)
  {
    assert ([at] + body)[1..] == body;
  }

  lemma DropBoth<T>(a: seq<T>, b: seq<T>, k: nat)
    requires k <= |b|
    ensures (a + b)[|a| + k..] == b[k..]
  {
  }

  lemma OpenSpan(open: Token, tail: seq<Token>, n: nat)
    requires Is(open, '(') && GroupLen(tail, 1) == n
    ensures AnnotationLen([open] + tail) == 1 + n
  {
    assert ([open] + tail)[1..] == tail;
  }

  lemma AnnotationCut(at: Token, name: seq<Token>, group: seq<Token>, k: nat, depth: nat)
    requires Is(at, '@') && NamesAndDots(name) && AnnotationLen(group) == k
    ensures Strip([at] + (name + group), depth) == Strip(group[k..], depth)
  {
    AnnotationTakes(name, group);
    DropBoth(name, group, k);
    StripAtTo(at, name + group, |name| + k, group[k..], depth);
  }

  lemma StripAtTo(at: Token, body: seq<Token>, n: nat, rest: seq<Token>, depth: nat)
    requires Is(at, '@') && AnnotationLen(body) == n && body[n..] == rest
    ensures Strip([at] + body, depth) == Strip(rest, depth)
  {
    StripAt(at, body, n, depth);
  }

  lemma GroupCut(at: Token, name: seq<Token>, open: Token, tail: seq<Token>, n: nat, depth: nat)
    requires Is(at, '@') && NamesAndDots(name) && Is(open, '(') && GroupLen(tail, 1) == n
    ensures Strip([at] + (name + ([open] + tail)), depth) == Strip(tail[n..], depth)
  {
    OpenSpan(open, tail, n);
    AnnotationCut(at, name, [open] + tail, 1 + n, depth);
    DropBoth([open], tail, n);
  }

  /** An annotation with arguments is cut out, whatever they are. */
  lemma AnnotationStripped(at: Token, name: seq<Token>, open: Token, args: seq<Token>, close: Token, rest: seq<Token>,
      depth: nat)
    requires Is(at, '@') && NamesAndDots(name) && Is(open, '(') && Balanced(args, 0) && Is(close, ')')
    ensures Strip([at] + (name + ([open] + (args + ([close] + rest)))), depth) == Strip(rest, depth)
  {
    GroupOfBalanced(args, close, rest, 0);
    GroupCut(at, name, open, args + ([close] + rest), |args| + 1, depth);
    DropBoth(args, [close] + rest, 1);
    DropBoth([close], rest, 0);
  }

  /** Tokens as the lexer gives them: no two are the same, and names are spelled as identifiers. */
  ghost predicate AsLexed(ts: seq<Token>)
  {
    && (forall j, k :: 0 <= j < k < |ts| ==> ts[j] != ts[k])
    && (forall k :: 0 <= k < |ts| ==> SpelledAs(ts[k].kind, ts[k].lexeme))
  }

  lemma LexedAsLexed(kw: set<string>, text: string)
    ensures var r := LexFrom(kw, text, 0, Pos(0, 0)); r.Tokens? ==> AsLexed(r.tokens)
  {
    var r := LexFrom(kw, text, 0, Pos(0, 0));
    LexLossless(kw, text);
    LexedWordsSpelled(kw, text);
    if r.Tokens? {
      forall j, k | 0 <= j < k < |r.tokens|
        ensures r.tokens[j] != r.tokens[k]
      {
        assert InPlace(text, r.tokens[j]);
      }
    }
  }

  ghost predicate OnlyModifiers(ts: seq<Token>, depth: nat)
  {
    forall k :: 0 <= k < |ts| ==> depth == 0 && IsModifier(ts[k])
  }

  /** A token that is kept stands in front of the rest, so leaving it out is no stripping. */
  lemma KeptDiffers(ts: seq<Token>, k: nat, depth: nat)
    requires AsLexed(ts) && 0 < k <= |ts| && !Is(ts[0], '@') && !(depth == 0 && IsModifier(ts[0]))
    ensures Strip(ts, depth) != Strip(ts[k..], depth)
  {
    var rest := Strip(ts[k..], depth);
    assert Strip(ts, depth)[0] == ts[0];
    StripIsSubsequence(ts[k..], depth);
    var at :| Picks(rest, ts[k..], at);
    assert rest != [] ==> rest[0] == ts[k + at[0]];
  }

  lemma ModifierTaken(ts: seq<Token>)
    requires ts != [] && IsModifier(ts[0]) && AnnotationLen(ts) > 0
    ensures AnnotationLen(ts) == 1 + AnnotationLen(ts[1..]) && Strip(ts, 0) == Strip(ts[1..], 0)
  {
    assert !Is(ts[0], '@') && !Is(ts[0], '(');
  }

  lemma TakenNoAt(ts: seq<Token>)
    requires AsLexed(ts) && AnnotationLen(ts) > 0
    ensures !Is(ts[0], '@')
  {
    assert SpelledAs(ts[0].kind, ts[0].lexeme);
  }

  lemma OneMoreModifier(ts: seq<Token>, n: nat)
    requires ts != [] && IsModifier(ts[0]) && n < |ts|
    ensures OnlyModifiers(ts[..1 + n], 0) <==> OnlyModifiers(ts[1..][..n], 0)
  {
    var xs, ys := ts[..1 + n], ts[1..][..n];
    assert forall k :: 0 <= k < n ==> ys[k] == xs[k + 1];
    assert xs == [ts[0]] + ys;
  }

  lemma KeptTaken(ts: seq<Token>, n: nat, depth: nat)
    requires AsLexed(ts) && 0 < n == AnnotationLen(ts) && !(depth == 0 && IsModifier(ts[0]))
    ensures Strip(ts, depth) != Strip(ts[n..], depth) && !OnlyModifiers(ts[..n], depth)
  {
    TakenNoAt(ts);
    KeptDiffers(ts, n, depth);
    assert ts[..n][0] == ts[0];
  }

  lemma ModifierAndMore(ts: seq<Token>, n: nat)
    requires ts != [] && IsModifier(ts[0]) && n == AnnotationLen(ts) > 0
    requires var rest := ts[1..];
      n - 1 <= |rest| && (Strip(rest, 0) == Strip(rest[n - 1..], 0) <==> OnlyModifiers(rest[..n - 1], 0))
    ensures Strip(ts, 0) == Strip(ts[n..], 0) <==> OnlyModifiers(ts[..n], 0)
  {
    ModifierTaken(ts);
    OneMoreModifier(ts, n - 1);
    DropTwice(ts, 1, n - 1);
  }

  lemma AsLexedRest(ts: seq<Token>)
    requires AsLexed(ts) && ts != []
    ensures AsLexed(ts[1..])
  {
    forall j, k | 0 <= j < k < |ts| - 1
      ensures ts[1..][j] != ts[1..][k]
    {
      assert ts[j + 1] != ts[k + 1];
    }
  }

  ghost predicate TakesModifiers(ts: seq<Token>, n: nat, depth: nat)
  {
    n <= |ts| && (Strip(ts, depth) == Strip(ts[n..], depth) <==> OnlyModifiers(ts[..n], depth))
  }

  lemma NothingTaken(ts: seq<Token>, depth: nat)
    ensures TakesModifiers(ts, 0, depth)
  {
    assert ts[0..] == ts;
  }

  /** Leaving out what an annotation would take at the head of ts is stripping it, exactly if that is modifiers. */
  lemma {:induction false} TakenExactly(ts: seq<Token>, depth: nat)
    requires AsLexed(ts)
    ensures TakesModifiers(ts, AnnotationLen(ts), depth)
    decreases |ts|
  {
    var n := AnnotationLen(ts);
    if n == 0 {
      NothingTaken(ts, depth);
    } else if depth == 0 && IsModifier(ts[0]) {
      AsLexedRest(ts);
      ModifierTaken(ts);
      TakenExactly(ts[1..], 0);
      ModifierAndMore(ts, n);
    } else {
      KeptTaken(ts, n, depth);
    }
  }

  /** An annotation without arguments takes every name and dot behind it along, so a declaration that is all
      names is lost, its own name included; it takes only itself exactly if what it takes are modifiers. */
  lemma BareAnnotationSwallows(at: Token, name: seq<Token>, rest: seq<Token>, depth: nat)
    requires Is(at, '@') && NamesAndDots(name)
    ensures Strip([at] + (name + rest), depth) == Strip(rest[AnnotationLen(rest)..], depth)
    ensures NamesAndDots(rest) ==> Strip([at] + (name + rest), depth) == []
    ensures AsLexed(rest) ==>
      (Strip([at] + (name + rest), depth) == Strip(rest, depth) <==> OnlyModifiers(rest[..AnnotationLen(rest)], depth))
  {
    AnnotationCut(at, name, rest, AnnotationLen(rest), depth);
    if NamesAndDots(rest) {
      AllTaken(rest);
    }
    if AsLexed(rest) {
      TakenExactly(rest, depth);
    }
  }

  lemma AllTaken(ts: seq<Token>)
    requires NamesAndDots(ts)
    ensures AnnotationLen(ts) == |ts| && ts[|ts|..] == []
  {
    AnnotationTakes(ts, []);
    assert ts + [] == ts;
  }

  /** A group of parentheses ends behind the first one that closes it, with balanced tokens in between; if there is none
      it is everything. */
  lemma {:induction false} GroupIs(ts: seq<Token>, depth: nat, k: nat)
    requires k + 1 < |ts| && depth > 0
    ensures GroupLen(ts, depth) == k + 1 <==> Is(ts[k], ')') && Balanced(ts[..k], depth - 1)
    ensures GroupLen(ts, depth) > 0
    decreases |ts|
  {
    var d := if Is(ts[0], '(') then depth + 1 else if Is(ts[0], ')') then depth - 1 else depth;
    if k > 0 {
      assert ts[..k][1..] == ts[1..][..k - 1];
      if d > 0 {
        GroupIs(ts[1..], d, k - 1);
      }
    } else if d > 0 {
      assert GroupLen(ts[1..], d) > 0;
    }
  }

  /** An annotation goes on over names and dots as far as there are any, and over a group of arguments behind them. */
  lemma AnnotationIs(ts: seq<Token>, k: nat)
    requires k <= |ts| && NamesAndDots(ts[..k])
    requires k < |ts| ==> Is(ts[k], '(') || !(Is(ts[k], '.') || IsName(ts[k]))
    ensures AnnotationLen(ts) == if k < |ts| && Is(ts[k], '(') then k + 1 + GroupLen(ts[k + 1..], 1) else k
  {
    AnnotationTakes(ts[..k], ts[k..]);
    assert ts == ts[..k] + ts[k..];
    assert k < |ts| ==> ts[k..][1..] == ts[k + 1..];
  }
}
