/** The bodies of the methods of a type have no influence on what is read of the file. */
module ParserTheorems {
  import opened Chars
  import opened Lexer
  import opened Decorators
  import opened Members
  import opened TypeBodies
  import opened Parser

  /** A type declaration: keyword, header, brace, and the body behind it. */
  function TypeTokens(keyword: Token, header: seq<Token>, brace: Token, body: seq<Token>): seq<Token>
  {
    [keyword] + (header + ([brace] + body))
  }

  lemma {:induction false} FindFirst(ts: seq<Token>, rest: seq<Token>, lexeme: string)
    requires forall k :: 0 <= k < |ts| ==> ts[k].lexeme != lexeme
    requires rest != [] && rest[0].lexeme == lexeme
    ensures Find(ts + rest, lexeme) == |ts|
  {
    assert (ts + rest)[|ts|] == rest[0];
  }

  lemma DeclaredParts(keyword: Token, header: seq<Token>, brace: Token, body: seq<Token>)
    requires forall k :: 0 <= k < |header| ==> header[k].lexeme != "{"
    requires brace.lexeme == "{"
    ensures var ts := TypeTokens(keyword, header, brace, body);
      && ts[0] == keyword
      && Find(ts[1..], "{") == |header| && |ts| == |header| + 2 + |body|
      && ts[1 + |header|] == brace
      && ts[1..][..|header| + 1] == header + [brace]
      && ts[1..][|header| + 1..] == body
  {
    var ts, rest := TypeTokens(keyword, header, brace, body), header + ([brace] + body);
    assert ts[1..] == rest;
    FindFirst(header, [brace] + body, "{");
    assert rest[..|header| + 1] == header + [brace];
    assert rest[|header| + 1..] == body;
  }

  /** What is read of a declaration, from its parts. */
  lemma DeclaredType(text: string, keyword: Token, header: seq<Token>, brace: Token, body: seq<Token>, doc: string,
      annotations: seq<string>)
    requires forall k :: 0 <= k < |header| ==> header[k].lexeme != "{"
    requires brace.lexeme == "{" && InText(TypeTokens(keyword, header, brace, body), text)
    ensures keyword.offset <= brace.offset <= |text|
    ensures TypeAt(text, TypeTokens(keyword, header, brace, body), doc, annotations)
         == TypeInfo(keyword.lexeme, FirstName(header + [brace]), TrimSpace(text[keyword.offset..brace.offset]),
                     doc, annotations,
                     RunBody(body, BODY_START).fields, RunBody(body, BODY_START).methods, keyword.line)
    ensures TypeRest(TypeTokens(keyword, header, brace, body)) == RunBody(body, BODY_START).rest
  {
    DeclaredParts(keyword, header, brace, body);
    var ts := TypeTokens(keyword, header, brace, body);
    assert ts[0].offset <= ts[1 + |header|].offset;
  }

  lemma SameDeclaration(text: string, keyword: Token, header: seq<Token>, brace: Token, x: seq<Token>, y: seq<Token>,
      doc: string, annotations: seq<string>)
    requires forall k :: 0 <= k < |header| ==> header[k].lexeme != "{"
    requires brace.lexeme == "{"
    requires InText(TypeTokens(keyword, header, brace, x), text) && InText(TypeTokens(keyword, header, brace, y), text)
    requires RunBody(x, BODY_START) == RunBody(y, BODY_START)
    ensures TypeAt(text, TypeTokens(keyword, header, brace, x), doc, annotations)
         == TypeAt(text, TypeTokens(keyword, header, brace, y), doc, annotations)
    ensures TypeRest(TypeTokens(keyword, header, brace, x)) == TypeRest(TypeTokens(keyword, header, brace, y))
  {
    DeclaredType(text, keyword, header, brace, x, doc, annotations);
    DeclaredType(text, keyword, header, brace, y, doc, annotations);
  }

  lemma SameTurn(text: string, ts: seq<Token>, us: seq<Token>, st: Outer)
    requires ts != [] && us != [] && ts[0] == us[0] && IsTypeKeyword(ts[0]) && ts[0].kind != Comment
    requires InText(ts, text) && InText(us, text)
    requires TypeAt(text, ts, st.doc, st.annotations) == TypeAt(text, us, st.doc, st.annotations)
    requires TypeRest(ts) == TypeRest(us)
    ensures ts[TurnLen(ts)..] == us[TurnLen(us)..] && TurnState(text, ts, st) == TurnState(text, us, st)
  {
  }

  lemma {:induction false} FileFromTurn(text: string, ts: seq<Token>, us: seq<Token>, st: Outer)
    requires ts != [] && us != [] && InText(ts, text) && InText(us, text)
    requires ts[TurnLen(ts)..] == us[TurnLen(us)..] && TurnState(text, ts, st) == TurnState(text, us, st)
    ensures FileOf(text, ts, st) == FileOf(text, us, st)
  {
  }

  /** The tokens of a file from the declaration of a type on, whatever was read before: exchanging the tokens
      inside a braced group of its body leaves the packages, imports, types, fields and methods as they were. */
  lemma FileIgnoresBodies(text: string, keyword: Token, header: seq<Token>, brace: Token,
      pre: seq<Token>, open: Token, body: seq<Token>, body': seq<Token>, close: Token, post: seq<Token>, at: Body,
      st: Outer)
    requires IsTypeKeyword(keyword) && keyword.kind != Comment
    requires (forall k :: 0 <= k < |header| ==> header[k].lexeme != "{") && brace.lexeme == "{"
    requires at.depth == 1 && OpensBody(open) && Is(close, '}') && BracesClose(body, 0) && BracesClose(body', 0)
    requires Reaches(pre + Braced(open, body, close, post), BODY_START, |pre|, at)
    requires InText(TypeTokens(keyword, header, brace, pre + Braced(open, body, close, post)), text)
    requires InText(TypeTokens(keyword, header, brace, pre + Braced(open, body', close, post)), text)
    ensures FileOf(text, TypeTokens(keyword, header, brace, pre + Braced(open, body, close, post)), st)
         == FileOf(text, TypeTokens(keyword, header, brace, pre + Braced(open, body', close, post)), st)
  {
    BodiesDoNotMatter(open, body, body', close, post, at);
    var x, y := pre + Braced(open, body, close, post), pre + Braced(open, body', close, post);
    assert Unaffected(pre, Braced(open, body, close, post), Braced(open, body', close, post), BODY_START, at);
    SameDeclaration(text, keyword, header, brace, x, y, st.doc, st.annotations);
    var ts, us := TypeTokens(keyword, header, brace, x), TypeTokens(keyword, header, brace, y);
    SameTurn(text, ts, us, st);
    FileFromTurn(text, ts, us, st);
  }

  // ---------------------------------------------------------------- what was read before

  /** The outer loop, which looks at nothing but the tokens to find its way, stands behind the first k of them. */
  predicate StandsAt(ts: seq<Token>, k: nat)
    decreases k
  {
    k == 0 || (ts != [] && TurnLen(ts) <= k && StandsAt(ts[TurnLen(ts)..], k - TurnLen(ts)))
  }

  lemma FindStops(u: seq<Token>, x: seq<Token>, y: seq<Token>, lexeme: string)
    requires Find(u + x, lexeme) < |u|
    ensures Find(u + y, lexeme) == Find(u + x, lexeme)
  {
    var n := Find(u + x, lexeme);
    assert forall k :: 0 <= k <= n ==> (u + y)[k] == (u + x)[k];
  }

  lemma QualifiedStops(u: seq<Token>, x: seq<Token>, y: seq<Token>)
    requires x != [] && QualifiedLen(u + x) <= |u|
    ensures QualifiedLen(u + y) == QualifiedLen(u + x) && QualifiedName(u + y) == QualifiedName(u + x)
  {
    FindStops(u, x, y, ";");
    var n := Find(u + x, ";");
    assert (u + x)[..n] == (u + y)[..n];
  }

  lemma HeaderStops(u: seq<Token>, x: seq<Token>, y: seq<Token>)
    requires x != [] && HeaderLen(u + x) <= |u|
    ensures Find(u + y, "{") == Find(u + x, "{") < |u| && HeaderLen(u + y) == HeaderLen(u + x)
    ensures (u + x)[..HeaderLen(u + x)] == (u + y)[..HeaderLen(u + x)]
  {
    FindStops(u, x, y, "{");
  }

  lemma BodyBehind(ts: seq<Token>, n: nat)
    requires ts != [] && n == 1 + HeaderLen(ts[1..])
    ensures n <= TypeLen(ts) <= |ts| && ts[1..][n - 1..] == ts[n..]
    ensures TypeRest(ts) == RunBody(ts[n..], BODY_START).rest && |TypeRest(ts)| == |ts| - TypeLen(ts)
  {
    assert ts[1..][n - 1..] == ts[n..];
    RestIsUnread(ts[n..], BODY_START);
  }

  lemma BodyEnds(u: seq<Token>, x: seq<Token>, n: nat)
    requires u != [] && TypeLen(u + x) <= |u| && n == 1 + HeaderLen(u[1..] + x)
    ensures n <= |u| && |RunBody(u[n..] + x, BODY_START).rest| >= |x|
  {
    assert (u + x)[1..] == u[1..] + x;
    BodyBehind(u + x, n);
    DropPrefix(u, x, n);
  }

  /** The header and the body of a type that ends within u, n tokens being in front of the body. */
  lemma BodyStops(u: seq<Token>, x: seq<Token>, y: seq<Token>, n: nat)
    requires u != [] && SameStart(x, y) && TypeLen(u + x) <= |u| && n == 1 + HeaderLen(u[1..] + x)
    ensures n <= |u| && HeaderLen(u[1..] + y) == n - 1 && Find(u[1..] + y, "{") == Find(u[1..] + x, "{") < n
    ensures var e, f := RunBody(u[n..] + x, BODY_START), RunBody(u[n..] + y, BODY_START);
      e.fields == f.fields && e.methods == f.methods && |e.rest| - |x| == |f.rest| - |y|
  {
    BodyEnds(u, x, n);
    HeaderStops(u[1..], x, y);
    var v := RunStops(u[n..], x, y, BODY_START);
  }

  lemma HeaderTextStops(text: string, u: seq<Token>, x: seq<Token>, y: seq<Token>)
    requires u != [] && InText(u + x, text) && InText(u + y, text)
    requires Find((u + y)[1..], "{") == Find((u + x)[1..], "{") < |u| - 1
    ensures Header(text, u + x) == Header(text, u + y)
  {
    var brace := Find((u + x)[1..], "{");
    assert (u + x)[0] == u[0] == (u + y)[0] && (u + x)[1 + brace] == u[1 + brace] == (u + y)[1 + brace];
  }

  /** What is read of a type, from its body. */
  lemma TypeIs(text: string, ts: seq<Token>, n: nat, doc: string, annotations: seq<string>, name: string,
      header: string, body: BodyEnd)
    requires ts != [] && InText(ts, text) && n == 1 + HeaderLen(ts[1..])
    requires RunBody(ts[n..], BODY_START) == body && FirstName(ts[1..][..n - 1]) == name && Header(text, ts) == header
    ensures TypeAt(text, ts, doc, annotations)
         == TypeInfo(ts[0].lexeme, name, header, doc, annotations, body.fields, body.methods, ts[0].line)
    ensures TypeLen(ts) == |ts| - |body.rest|
  {
    BodyBehind(ts, n);
  }

  lemma TypeStops(text: string, u: seq<Token>, x: seq<Token>, y: seq<Token>, doc: string, annotations: seq<string>)
    requires u != [] && SameStart(x, y) && TypeLen(u + x) <= |u| && InText(u + x, text) && InText(u + y, text)
    ensures TypeLen(u + y) == TypeLen(u + x)
    ensures TypeAt(text, u + y, doc, annotations) == TypeAt(text, u + x, doc, annotations)
  {
    var ts, us, xs, ys := u + x, u + y, u[1..] + x, u[1..] + y;
    assert ts[1..] == xs && us[1..] == ys && ts[0] == us[0] == u[0];
    var n := 1 + HeaderLen(xs);
    BodyStops(u, x, y, n);
    HeaderTextStops(text, u, x, y);
    DropPrefix(u, x, n);
    DropPrefix(u, y, n);
    HeaderStops(u[1..], x, y);
    var name, e, f := FirstName(xs[..n - 1]), RunBody(u[n..] + x, BODY_START), RunBody(u[n..] + y, BODY_START);
    var head := Header(text, ts);
    TypeIs(text, ts, n, doc, annotations, name, head, e);
    TypeIs(text, us, n, doc, annotations, name, head, f);
  }

  /** A turn that ends within u is the same whatever follows. */
  lemma TurnStops(text: string, u: seq<Token>, x: seq<Token>, y: seq<Token>, st: Outer)
    requires u != [] && SameStart(x, y) && TurnLen(u + x) <= |u| && InText(u + x, text) && InText(u + y, text)
    ensures TurnLen(u + y) == TurnLen(u + x) && TurnState(text, u + y, st) == TurnState(text, u + x, st)
  {
    var t := u[0];
    assert (u + x)[1..] == u[1..] + x && (u + y)[1..] == u[1..] + y;
    if t.kind == Comment {
    } else if Is(t, '@') {
      SpanStops(u[1..], x, y);
      var n := NamePathLen(u[1..] + x);
      assert (u[1..] + x)[..n] == (u[1..] + y)[..n];
    } else if t.lexeme == "package" || t.lexeme == "import" {
      QualifiedStops(u[1..], x, y);
    } else if IsTypeKeyword(t) {
      TypeStops(text, u, x, y, st.doc, st.annotations);
    }
  }

  lemma StandsStep(u: seq<Token>, x: seq<Token>, n: nat)
    requires u != [] && StandsAt(u + x, |u|) && n == TurnLen(u + x)
    ensures 0 < n <= |u| && StandsAt(u[n..] + x, |u[n..]|)
  {
    DropPrefix(u, x, n);
  }

  lemma TurnBehind(text: string, u: seq<Token>, x: seq<Token>, st: Outer, n: nat, st': Outer)
    requires u != [] && InText(u + x, text) && n == TurnLen(u + x) <= |u| && st' == TurnState(text, u + x, st)
    ensures InText(u[n..] + x, text) && FileOf(text, u + x, st) == FileOf(text, u[n..] + x, st')
  {
    DropPrefix(u, x, n);
    FileStep(text, u + x, st, n, st');
  }

  ghost predicate ReadAlike(text: string, ts: seq<Token>, us: seq<Token>, st: Outer)
  {
    InText(ts, text) && InText(us, text) && FileOf(text, ts, st) == FileOf(text, us, st)
  }

  /** Behind one turn within u, and so behind u. */
  lemma AlikeBehind(text: string, u: seq<Token>, x: seq<Token>, y: seq<Token>, st: Outer, n: nat, st': Outer)
    requires u != [] && SameStart(x, y) && InText(u + x, text) && InText(u + y, text)
    requires n == TurnLen(u + x) <= |u| && st' == TurnState(text, u + x, st)
    requires InText(u[n..] + x, text) && InText(u[n..] + y, text) ==> ReadAlike(text, u[n..] + x, u[n..] + y, st')
    ensures ReadAlike(text, u + x, u + y, st)
  {
    TurnStops(text, u, x, y, st);
    TurnBehind(text, u, x, st, n, st');
    TurnBehind(text, u, y, st, n, st');
  }

  /** Behind tokens that the outer loop has passed they are read the same, too. */
  lemma {:induction false} SameBehind(text: string, u: seq<Token>, x: seq<Token>, y: seq<Token>, st: Outer)
    requires SameStart(x, y) && StandsAt(u + x, |u|) && InText(u + x, text) && InText(u + y, text)
    requires forall st :: ReadAlike(text, x, y, st)
    ensures ReadAlike(text, u + x, u + y, st)
    decreases |u|
  {
    if u == [] {
      assert u + x == x && u + y == y;
    } else {
      var n, st' := TurnLen(u + x), TurnState(text, u + x, st);
      StandsStep(u, x, n);
      var v := u[n..];
      if InText(v + x, text) && InText(v + y, text) {
        SameBehind(text, v, x, y, st');
      }
      AlikeBehind(text, u, x, y, st, n, st');
    }
  }
}
