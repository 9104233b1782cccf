/** Editing the body of a method, with all that moves behind it, does not change what is read of a document. */
module DocumentTheorems {
  import opened Text
  import opened Lexer
  import opened Decorators
  import opened Members
  import opened TypeBodies
  import opened Parser
  import opened ParserTheorems
  import opened Layout

  /** The tokens of a document, cut at a type and at a braced group of that type's body. */
  datatype Cut = Cut(before: seq<Token>, keyword: Token, header: seq<Token>, brace: Token,
                     inner: seq<Token>, open: Token, body: seq<Token>, close: Token, behind: seq<Token>)

  function GroupTokens(d: Cut): seq<Token> { Braced(d.open, d.body, d.close, d.behind) }

  function TypeFrom(d: Cut): seq<Token> { TypeTokens(d.keyword, d.header, d.brace, d.inner + GroupTokens(d)) }

  function TokensOf(d: Cut): seq<Token> { d.before + TypeFrom(d) }

  /** The parser meets the type as a type, and the group at depth one of its body. */
  ghost predicate CutFits(d: Cut)
  {
    && StandsAt(TokensOf(d), |d.before|) && IsTypeKeyword(d.keyword) && d.keyword.kind != Comment
    && (forall k :: 0 <= k < |d.header| ==> d.header[k].lexeme != "{") && d.brace.lexeme == "{"
    && OpensBody(d.open) && BracesClose(d.body, 0) && Is(d.close, '}')
    && exists at: Body :: at.depth == 1 && Reaches(d.inner + GroupTokens(d), BODY_START, |d.inner|, at)
  }

  /** The same spelling everywhere but in the body of the group. */
  ghost predicate AlikeAround(d: Cut, d': Cut)
  {
    && Alike(d.before, d'.before) && AlikeToken(d.keyword, d'.keyword) && Alike(d.header, d'.header)
    && AlikeToken(d.brace, d'.brace) && Alike(d.inner, d'.inner) && AlikeToken(d.open, d'.open)
    && AlikeToken(d.close, d'.close) && Alike(d.behind, d'.behind)
  }

  /** And there braces close all the same. */
  ghost predicate AlikeButBody(d: Cut, d': Cut) { AlikeAround(d, d') && BracesClose(d'.body, 0) }

  // ---------------------------------------------------------------- the same text

  lemma BodyExchanged(text: string, d: Cut, body': seq<Token>, st: Outer)
    requires CutFits(d) && BracesClose(body', 0)
    requires InText(TokensOf(d), text) && InText(TokensOf(d.(body := body')), text)
    ensures FileOf(text, TokensOf(d), st) == FileOf(text, TokensOf(d.(body := body')), st)
  {
    var x, y := TypeFrom(d), TypeFrom(d.(body := body'));
    var at: Body :| at.depth == 1 && Reaches(d.inner + GroupTokens(d), BODY_START, |d.inner|, at);
    TypeInText(text, d);
    TypeInText(text, d.(body := body'));
    forall st
      ensures ReadAlike(text, x, y, st)
    {
      FileIgnoresBodies(text, d.keyword, d.header, d.brace, d.inner, d.open, d.body, body', d.close, d.behind, at, st);
    }
    SameBehind(text, d.before, x, y, st);
  }

  lemma TypeInText(text: string, d: Cut)
    requires InText(TokensOf(d), text)
    ensures InText(TypeFrom(d), text)
  {
    SuffixInText(TokensOf(d), text, |d.before|);
    assert TokensOf(d)[|d.before|..] == TypeFrom(d);
  }

  // ---------------------------------------------------------------- no text at all

  /** The token without its place. */
  function Bare(t: Token): Token { t.(line := 0, column := 0, offset := 0, end := 0) }

  function BareAll(ts: seq<Token>): (us: seq<Token>)
    ensures Alike(ts, us) && InText(us, "")
  {
    seq(|ts|, k requires 0 <= k < |ts| => Bare(ts[k]))
  }

  function BareCut(d: Cut): Cut
  {
    Cut(BareAll(d.before), Bare(d.keyword), BareAll(d.header), Bare(d.brace), BareAll(d.inner), Bare(d.open),
        BareAll(d.body), Bare(d.close), BareAll(d.behind))
  }

  lemma AlikeJoin(ts: seq<Token>, us: seq<Token>, xs: seq<Token>, ys: seq<Token>)
    requires Alike(ts, us) && Alike(xs, ys)
    ensures Alike(ts + xs, us + ys)
  {
  }

  lemma AlikeGroups(d: Cut, d': Cut)
    requires AlikeAround(d, d') && Alike(d.body, d'.body)
    ensures Alike(GroupTokens(d), GroupTokens(d'))
  {
    AlikeJoin([d.close], [d'.close], d.behind, d'.behind);
    AlikeJoin(d.body, d'.body, [d.close] + d.behind, [d'.close] + d'.behind);
    AlikeJoin([d.open], [d'.open], d.body + ([d.close] + d.behind), d'.body + ([d'.close] + d'.behind));
  }

  lemma AlikeCuts(d: Cut, d': Cut)
    requires AlikeAround(d, d') && Alike(d.body, d'.body)
    ensures Alike(TokensOf(d), TokensOf(d')) && Alike(d.inner + GroupTokens(d), d'.inner + GroupTokens(d'))
  {
    AlikeGroups(d, d');
    var x, y := d.inner + GroupTokens(d), d'.inner + GroupTokens(d');
    AlikeJoin(d.inner, d'.inner, GroupTokens(d), GroupTokens(d'));
    AlikeJoin([d.brace], [d'.brace], x, y);
    AlikeJoin(d.header, d'.header, [d.brace] + x, [d'.brace] + y);
    AlikeJoin([d.keyword], [d'.keyword], d.header + ([d.brace] + x), d'.header + ([d'.brace] + y));
    AlikeJoin(d.before, d'.before, TypeFrom(d), TypeFrom(d'));
  }

  lemma {:induction false} AlikeStands(ts: seq<Token>, us: seq<Token>, k: nat)
    requires Alike(ts, us) && StandsAt(ts, k)
    ensures StandsAt(us, k)
    decreases k
  {
    if k > 0 {
      AlikeTurnLen(ts, us);
      AlikeParts(ts, us, TurnLen(ts), 0);
      AlikeStands(ts[TurnLen(ts)..], us[TurnLen(ts)..], k - TurnLen(ts));
    }
  }

  lemma AlikeStepLen(ts: seq<Token>, us: seq<Token>, st: Body, st': Body)
    requires ts != [] && Alike(ts, us) && SameBody(st, st')
    ensures StepLen(ts, st) == StepLen(us, st')
  {
    AlikeParts(ts, us, 1, 0);
    AlikeSpan(ts[1..], us[1..]);
  }

  lemma {:induction false} AlikeReaches(ts: seq<Token>, us: seq<Token>, st: Body, st': Body, k: nat, at: Body)
    returns (at': Body)
    requires Alike(ts, us) && SameBody(st, st') && st.depth > 0 && Reaches(ts, st, k, at)
    ensures SameBody(at, at') && Reaches(us, st', k, at')
    decreases k
  {
    if k == 0 {
      at' := st';
    } else {
      ReachesIn(ts, st, k, at);
      var n, next, next' := StepLen(ts, st), Step(ts[0], st), Step(us[0], st');
      AlikeStepLen(ts, us, st, st');
      AlikeStep(ts[0], us[0], st, st');
      AlikeParts(ts, us, n, 0);
      ReachesStep(ts, st, n, next, k, at);
      at' := AlikeReaches(ts[n..], us[n..], next, next', k - n, at);
      ReachesStep(us, st', n, next', k, at');
    }
  }

  lemma {:induction false} BareCloses(ts: seq<Token>, depth: nat)
    requires BracesClose(ts, depth)
    ensures BracesClose(BareAll(ts), depth)
    decreases |ts|
  {
    if ts != [] {
      var depth' := if Is(ts[0], '{') then depth + 1 else if Is(ts[0], '}') then depth - 1 else depth;
      BareCloses(ts[1..], depth');
      assert BareAll(ts)[1..] == BareAll(ts[1..]);
    }
  }

  lemma BareFits(d: Cut)
    requires CutFits(d)
    ensures CutFits(BareCut(d)) && Alike(TokensOf(d), TokensOf(BareCut(d)))
  {
    var b := BareCut(d);
    BareCloses(d.body, 0);
    AlikeCuts(d, b);
    AlikeStands(TokensOf(d), TokensOf(b), |d.before|);
    var at: Body :| at.depth == 1 && Reaches(d.inner + GroupTokens(d), BODY_START, |d.inner|, at);
    var at' := AlikeReaches(d.inner + GroupTokens(d), b.inner + GroupTokens(b), BODY_START, BODY_START, |d.inner|, at);
    assert forall k :: 0 <= k < |d.header| ==> AlikeToken(d.header[k], b.header[k]);
  }

  lemma BareInText(d: Cut)
    ensures InText(TokensOf(BareCut(d)), "")
  {
  }

  lemma SameBare(d: Cut, d': Cut)
    requires AlikeAround(d, d')
    ensures BareCut(d).(body := BareCut(d').body) == BareCut(d')
  {
  }

  // ---------------------------------------------------------------- two documents

  lemma SameTypesChain(ts: seq<TypeInfo>, us: seq<TypeInfo>, vs: seq<TypeInfo>)
    requires SameTypes(ts, us) && SameTypes(us, vs)
    ensures SameTypes(ts, vs)
  {
    forall k | 0 <= k < |ts|
      ensures SameType(ts[k], vs[k])
    {
      assert SameType(ts[k], us[k]) && SameType(us[k], vs[k]);
    }
  }

  lemma SameFileChain(f: FileInfo, g: FileInfo, h: FileInfo)
    requires SameFile(f, g) && SameFile(g, h)
    ensures SameFile(f, h)
  {
    SameTypesChain(f.types, g.types, h.types);
  }

  lemma BareFile(text: string, d: Cut, b: Cut, st: Outer)
    requires b == BareCut(d) && InText(TokensOf(d), text)
    ensures InText(TokensOf(b), "")
    ensures SameFile(FileOf(text, TokensOf(d), st), FileOf("", TokensOf(b), st))
    ensures SameFile(FileOf("", TokensOf(b), st), FileOf(text, TokensOf(d), st))
  {
    BareInText(d);
    AlikeBare(d);
    AlikeFile(text, TokensOf(d), "", TokensOf(b), st, st);
    AlikeFile("", TokensOf(b), text, TokensOf(d), st, st);
  }

  lemma AlikeBare(d: Cut)
    ensures Alike(TokensOf(d), TokensOf(BareCut(d))) && Alike(TokensOf(BareCut(d)), TokensOf(d))
  {
    AlikeCuts(d, BareCut(d));
    AlikeCuts(BareCut(d), d);
  }

  /** Two documents spelled alike but for the body of one method, or any other braced group of a type: the packages,
      imports, types, fields and methods read are the same, except for lines and for headers, which quote the text. */
  lemma FilesIgnoreBodies(text: string, d: Cut, text': string, d': Cut, st: Outer)
    requires CutFits(d) && AlikeButBody(d, d') && InText(TokensOf(d), text) && InText(TokensOf(d'), text')
    ensures SameFile(FileOf(text, TokensOf(d), st), FileOf(text', TokensOf(d'), st))
  {
    var b, b' := BareCut(d), BareCut(d');
    BareFile(text, d, b, st);
    BareFile(text', d', b', st);
    BareFits(d);
    BareCloses(d'.body, 0);
    SameBare(d, d');
    BodyExchanged("", b, b'.body, st);
    SameFileChain(FileOf(text, TokensOf(d), st), FileOf("", TokensOf(b), st), FileOf(text', TokensOf(d'), st));
  }

  ghost predicate SameAnalysis(a: Analysis, b: Analysis) { a.File? && b.File? && SameFile(a.file, b.file) }

  /** The same for the analysis of two texts. */
  lemma AnalysisIgnoresBodies(kw: set<string>, text: string, d: Cut, text': string, d': Cut)
    requires CutFits(d) && AlikeButBody(d, d')
    requires LexFrom(kw, text, 0, Pos(0, 0)) == Tokens(TokensOf(d))
    requires LexFrom(kw, text', 0, Pos(0, 0)) == Tokens(TokensOf(d'))
    ensures SameAnalysis(AnalysisOf(kw, text), AnalysisOf(kw, text'))
  {
    LexedInText(kw, text);
    LexedInText(kw, text');
    FilesIgnoreBodies(text, d, text', d', Outer("", [], EMPTY_FILE));
  }

  /** Nor does layout: texts whose tokens are spelled alike have the same analysis in this sense. */
  lemma AnalysisIgnoresLayout(kw: set<string>, text: string, ts: seq<Token>, text': string, us: seq<Token>)
    requires LexFrom(kw, text, 0, Pos(0, 0)) == Tokens(ts) && LexFrom(kw, text', 0, Pos(0, 0)) == Tokens(us)
    requires Alike(ts, us)
    ensures SameAnalysis(AnalysisOf(kw, text), AnalysisOf(kw, text'))
  {
    LexedInText(kw, text);
    LexedInText(kw, text');
    AlikeFile(text, ts, text', us, Outer("", [], EMPTY_FILE), Outer("", [], EMPTY_FILE));
  }
}
