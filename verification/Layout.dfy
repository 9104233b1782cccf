/** What is read of a document depends on the kinds and spellings of its tokens only; where they stand decides
    nothing but the recorded lines and the quoted headers. */
module Layout {
  import opened Lexer
  import opened TypePrinter
  import opened Decorators
  import opened Members
  import opened TypeBodies
  import opened Parser

  predicate AlikeToken(t: Token, u: Token) { t.kind == u.kind && t.lexeme == u.lexeme }

  /** The same kinds and spellings. */
  ghost predicate Alike(ts: seq<Token>, us: seq<Token>)
  {
    |ts| == |us| && forall k :: 0 <= k < |ts| ==> AlikeToken(ts[k], us[k])
  }

  lemma AlikeParts(ts: seq<Token>, us: seq<Token>, lo: nat, hi: nat)
    requires Alike(ts, us) && lo <= |ts| && hi <= |ts|
    ensures Alike(ts[lo..], us[lo..]) && Alike(ts[..hi], us[..hi])
  {
  }

  // ---------------------------------------------------------------- members

  lemma {:induction false} AlikeGroup(ts: seq<Token>, us: seq<Token>, depth: nat)
    requires Alike(ts, us)
    ensures GroupLen(ts, depth) == GroupLen(us, depth)
    decreases |ts|
  {
    if ts != [] && depth > 0 {
      var depth' := if Is(ts[0], '(') then depth + 1 else if Is(ts[0], ')') then depth - 1 else depth;
      AlikeGroup(ts[1..], us[1..], depth');
    }
  }

  lemma {:induction false} AlikeAnnotation(ts: seq<Token>, us: seq<Token>)
    requires Alike(ts, us)
    ensures AnnotationLen(ts) == AnnotationLen(us)
    decreases |ts|
  {
    if ts != [] {
      AlikeGroup(ts[1..], us[1..], 1);
      AlikeAnnotation(ts[1..], us[1..]);
    }
  }

  lemma {:induction false} AlikeStrip(ts: seq<Token>, us: seq<Token>, depth: nat)
    requires Alike(ts, us)
    ensures Alike(Strip(ts, depth), Strip(us, depth))
    decreases |ts|
  {
    if ts == [] {
    } else if Is(ts[0], '@') {
      AlikeAnnotation(ts[1..], us[1..]);
      var n := AnnotationLen(ts[1..]);
      AlikeStrip(ts[1..][n..], us[1..][n..], depth);
    } else if depth == 0 && IsModifier(ts[0]) {
      AlikeStrip(ts[1..], us[1..], depth);
    } else {
      AlikeStrip(ts[1..], us[1..], Deeper(depth, ts[0]));
    }
  }

  lemma {:induction false} AlikeAfter(prev: string, ts: seq<Token>, us: seq<Token>)
    requires Alike(ts, us)
    ensures After(prev, ts) == After(prev, us)
    decreases |ts|
  {
    if ts != [] {
      AlikeAfter(ts[0].lexeme, ts[1..], us[1..]);
    }
  }

  lemma AlikeTypeName(ts: seq<Token>, us: seq<Token>)
    requires Alike(ts, us)
    ensures TypeName(ts) == TypeName(us)
  {
    if ts != [] {
      AlikeAfter(ts[0].lexeme, ts[1..], us[1..]);
    }
  }

  lemma {:induction false} AlikeFind(ts: seq<Token>, us: seq<Token>, lexeme: string)
    requires Alike(ts, us)
    ensures Find(ts, lexeme) == Find(us, lexeme)
    decreases |ts|
  {
    if ts != [] {
      AlikeFind(ts[1..], us[1..], lexeme);
    }
  }

  lemma {:induction false} AlikeClose(ts: seq<Token>, us: seq<Token>, depth: nat)
    requires Alike(ts, us) && depth > 0
    ensures CloseLen(ts, depth) == CloseLen(us, depth)
    decreases |ts|
  {
    if ts != [] && !(Is(ts[0], ')') && depth == 1) {
      var depth' := if Is(ts[0], '(') then depth + 1 else if Is(ts[0], ')') then depth - 1 else depth;
      AlikeClose(ts[1..], us[1..], depth');
    }
  }

  lemma {:induction false} AlikeLastName(ts: seq<Token>, us: seq<Token>)
    requires Alike(ts, us)
    ensures LastName(ts) == LastName(us)
    decreases |ts|
  {
    if ts != [] {
      AlikeLastName(ts[..|ts| - 1], us[..|us| - 1]);
    }
  }

  ghost predicate AllAlike(xs: seq<seq<Token>>, ys: seq<seq<Token>>)
  {
    |xs| == |ys| && forall k :: 0 <= k < |xs| ==> Alike(xs[k], ys[k])
  }

  lemma AlikeBehind(x: Token, xs: seq<seq<Token>>, y: Token, ys: seq<seq<Token>>)
    requires AlikeToken(x, y) && AllAlike(xs, ys) && xs != []
    ensures AllAlike(Behind([x], xs), Behind([y], ys))
  {
    assert Alike(xs[0], ys[0]);
    assert Alike([x] + xs[0], [y] + ys[0]);
  }

  lemma {:induction false} AlikeSegments(ts: seq<Token>, us: seq<Token>, depth: nat)
    requires Alike(ts, us)
    ensures AllAlike(Segments(ts, depth), Segments(us, depth))
    decreases |ts|
  {
    if ts == [] {
    } else if depth == 0 && Is(ts[0], ',') {
      AlikeSegments(ts[1..], us[1..], depth);
    } else {
      var depth' := Deeper(depth, ts[0]);
      AlikeSegments(ts[1..], us[1..], depth');
      AlikeBehind(ts[0], Segments(ts[1..], depth'), us[0], Segments(us[1..], depth'));
    }
  }

  lemma AlikeParam(ts: seq<Token>, us: seq<Token>)
    requires Alike(ts, us)
    ensures ParamOf(ts) == ParamOf(us)
  {
    var x, y := Strip(ts, 0), Strip(us, 0);
    AlikeStrip(ts, us, 0);
    if |x| >= 2 {
      AlikeTypeName(x[..|x| - 1], y[..|y| - 1]);
    }
  }

  lemma {:induction false} AlikeNamed(xs: seq<seq<Token>>, ys: seq<seq<Token>>)
    requires AllAlike(xs, ys)
    ensures NamedParams(xs, ParamOf) == NamedParams(ys, ParamOf)
    decreases |xs|
  {
    if xs != [] {
      AlikeParam(xs[0], ys[0]);
      AlikeNamed(xs[1..], ys[1..]);
    }
  }

  lemma AlikeParams(ts: seq<Token>, us: seq<Token>)
    requires Alike(ts, us)
    ensures ParamsOf(ts, ParamOf) == ParamsOf(us, ParamOf)
  {
    AlikeSegments(ts, us, 0);
    AlikeNamed(Segments(ts, 0), Segments(us, 0));
  }

  predicate SameMethod(m: MethodInfo, n: MethodInfo) { m.(line := 0) == n.(line := 0) }

  predicate SameField(f: FieldInfo, g: FieldInfo) { f.(line := 0) == g.(line := 0) }

  lemma AlikeArguments(ts: seq<Token>, us: seq<Token>)
    requires Alike(ts, us)
    ensures ParamsOf(ts[..CloseLen(ts, 1)], ParamOf) == ParamsOf(us[..CloseLen(us, 1)], ParamOf)
  {
    AlikeClose(ts, us, 1);
    AlikeParams(ts[..CloseLen(ts, 1)], us[..CloseLen(us, 1)]);
  }

  lemma AlikeSignature(ts: seq<Token>, us: seq<Token>)
    requires Alike(ts, us)
    ensures |Strip(ts, 0)| == |Strip(us, 0)|
    ensures var x, y := Strip(ts, 0), Strip(us, 0); |x| >= 2 ==> TypeName(x[..|x| - 1]) == TypeName(y[..|y| - 1])
  {
    var x, y := Strip(ts, 0), Strip(us, 0);
    AlikeStrip(ts, us, 0);
    if |x| >= 2 {
      AlikeTypeName(x[..|x| - 1], y[..|y| - 1]);
    }
  }

  lemma AlikeNamedMethod(ts: seq<Token>, us: seq<Token>, name: nat, open: nat, doc: string)
    requires Alike(ts, us) && name < open < |ts|
    ensures SameMethod(NamedMethod(ts, name, open, doc), NamedMethod(us, name, open, doc))
  {
    AlikeParts(ts, us, open + 1, name + 1);
    AlikeSignature(ts[..name + 1], us[..name + 1]);
    AlikeArguments(ts[open + 1..], us[open + 1..]);
    AlikeFind(ts, us, "static");
  }

  lemma AlikeMethod(ts: seq<Token>, us: seq<Token>, doc: string)
    requires Alike(ts, us)
    ensures SameMethod(MethodOf(ts, doc), MethodOf(us, doc))
  {
    var open := Find(ts, "(");
    AlikeFind(ts, us, "(");
    if 0 < open < |ts| {
      AlikeLastName(ts[..open], us[..open]);
      if LastName(ts[..open]) >= 0 {
        AlikeNamedMethod(ts, us, LastName(ts[..open]), open, doc);
      }
    }
  }

  lemma AlikeField(ts: seq<Token>, us: seq<Token>)
    requires Alike(ts, us)
    ensures SameField(FieldOf(ts), FieldOf(us))
  {
    var end := Find(ts, "=");
    AlikeFind(ts, us, "=");
    var x, y := Strip(ts[..end], 0), Strip(us[..end], 0);
    AlikeStrip(ts[..end], us[..end], 0);
    if |x| >= 2 {
      AlikeTypeName(x[..|x| - 1], y[..|y| - 1]);
    }
  }

  // ---------------------------------------------------------------- bodies

  ghost predicate SameFields(fs: seq<FieldInfo>, gs: seq<FieldInfo>)
  {
    |fs| == |gs| && forall k :: 0 <= k < |fs| ==> SameField(fs[k], gs[k])
  }

  ghost predicate SameMethods(ms: seq<MethodInfo>, ns: seq<MethodInfo>)
  {
    |ms| == |ns| && forall k :: 0 <= k < |ms| ==> SameMethod(ms[k], ns[k])
  }

  ghost predicate SameBody(st: Body, st': Body)
  {
    && st.depth == st'.depth && st.doc == st'.doc && Alike(st.member, st'.member)
    && SameFields(st.fields, st'.fields) && SameMethods(st.methods, st'.methods)
  }

  ghost predicate SameEnd(e: BodyEnd, e': BodyEnd)
  {
    SameFields(e.fields, e'.fields) && SameMethods(e.methods, e'.methods) && Alike(e.rest, e'.rest)
  }

  lemma {:induction false} AlikeDotted(ts: seq<Token>, us: seq<Token>)
    requires Alike(ts, us)
    ensures DottedLen(ts) == DottedLen(us)
    decreases |ts|
  {
    if |ts| >= 2 {
      AlikeDotted(ts[2..], us[2..]);
    }
  }

  lemma AlikeSpan(ts: seq<Token>, us: seq<Token>)
    requires Alike(ts, us)
    ensures NamePathLen(ts) == NamePathLen(us) && AnnotationSpan(ts) == AnnotationSpan(us)
  {
    if ts != [] {
      AlikeDotted(ts[1..], us[1..]);
      var n := NamePathLen(ts);
      if n < |ts| {
        AlikeGroup(ts[n + 1..], us[n + 1..], 1);
      }
    }
  }

  lemma AlikeNested(ts: seq<Token>, us: seq<Token>)
    requires Alike(ts, us)
    ensures NestedType(ts) <==> NestedType(us)
  {
    if NestedType(ts) {
      var k :| 0 <= k < |ts| && IsTypeKeyword(ts[k]);
      assert IsTypeKeyword(us[k]);
    }
    if NestedType(us) {
      var k :| 0 <= k < |us| && IsTypeKeyword(us[k]);
      assert AlikeToken(ts[k], us[k]);
    }
  }

  lemma AlikeLooks(ts: seq<Token>, us: seq<Token>)
    requires Alike(ts, us)
    ensures LooksLikeMethod(ts) <==> LooksLikeMethod(us)
  {
    AlikeFind(ts, us, "(");
    AlikeFind(ts, us, "=");
  }

  lemma AlikeMore(fs: seq<FieldInfo>, gs: seq<FieldInfo>, f: FieldInfo, g: FieldInfo)
    requires SameFields(fs, gs) && SameField(f, g)
    ensures SameFields(fs + [f], gs + [g]) && f.name == g.name
  {
  }

  lemma AlikeMoreMethods(ms: seq<MethodInfo>, ns: seq<MethodInfo>, m: MethodInfo, n: MethodInfo)
    requires SameMethods(ms, ns) && SameMethod(m, n)
    ensures SameMethods(ms + [m], ns + [n]) && m.name == n.name
  {
  }

  lemma AlikeFlush(st: Body, st': Body)
    requires SameBody(st, st')
    ensures SameBody(Flush(st), Flush(st'))
  {
    var ts, us := st.member, st'.member;
    AlikeNested(ts, us);
    AlikeLooks(ts, us);
    AlikeMethod(ts, us, st.doc);
    AlikeField(ts, us);
    AlikeMore(st.fields, st'.fields, FieldOf(ts), FieldOf(us));
    AlikeMoreMethods(st.methods, st'.methods, MethodOf(ts, st.doc), MethodOf(us, st.doc));
  }

  lemma AlikeStep(t: Token, u: Token, st: Body, st': Body)
    requires AlikeToken(t, u) && SameBody(st, st') && st.depth > 0
    ensures SameBody(Step(t, st), Step(u, st'))
  {
    if Is(t, '{') || Is(t, ';') {
      AlikeFlush(st, st');
      assert SameBody(Flush(st).(depth := st.depth + 1), Flush(st').(depth := st.depth + 1));
    }
  }

  lemma {:induction false} AlikeRun(ts: seq<Token>, us: seq<Token>, st: Body, st': Body)
    requires Alike(ts, us) && SameBody(st, st') && st.depth > 0
    ensures SameEnd(RunBody(ts, st), RunBody(us, st'))
    decreases |ts|
  {
    if ts != [] {
      AlikeSpan(ts[1..], us[1..]);
      var n, at, at' := StepLen(ts, st), Step(ts[0], st), Step(us[0], st');
      AlikeStep(ts[0], us[0], st, st');
      AlikeParts(ts, us, n, n);
      RunStep(ts, st, n, at);
      RunStep(us, st', n, at');
      if at.depth > 0 {
        AlikeRun(ts[n..], us[n..], at, at');
      }
    }
  }

  // ---------------------------------------------------------------- files

  lemma {:induction false} AlikeSpelled(ts: seq<Token>, us: seq<Token>)
    requires Alike(ts, us)
    ensures Spelled(ts) == Spelled(us)
    decreases |ts|
  {
    if ts != [] {
      AlikeSpelled(ts[1..], us[1..]);
    }
  }

  lemma {:induction false} AlikeFirstName(ts: seq<Token>, us: seq<Token>)
    requires Alike(ts, us)
    ensures FirstName(ts) == FirstName(us)
    decreases |ts|
  {
    if ts != [] {
      AlikeFirstName(ts[1..], us[1..]);
    }
  }

  /** The same type, but for lines and the text of the header. */
  ghost predicate SameType(t: TypeInfo, u: TypeInfo)
  {
    && t.kind == u.kind && t.name == u.name && t.documentation == u.documentation && t.annotations == u.annotations
    && SameFields(t.fields, u.fields) && SameMethods(t.methods, u.methods)
  }

  ghost predicate SameTypes(ts: seq<TypeInfo>, us: seq<TypeInfo>)
  {
    |ts| == |us| && forall k :: 0 <= k < |ts| ==> SameType(ts[k], us[k])
  }

  ghost predicate SameFile(f: FileInfo, g: FileInfo)
  {
    f.packageName == g.packageName && f.imports == g.imports && SameTypes(f.types, g.types)
  }

  ghost predicate SameOuter(st: Outer, st': Outer)
  {
    st.doc == st'.doc && st.annotations == st'.annotations && SameFile(st.file, st'.file)
  }

  lemma AlikeRest(ts: seq<Token>, us: seq<Token>)
    requires ts != [] && Alike(ts, us)
    ensures Alike(TypeRest(ts), TypeRest(us))
  {
    AlikeFind(ts[1..], us[1..], "{");
    var n := HeaderLen(ts[1..]);
    AlikeRun(ts[1..][n..], us[1..][n..], BODY_START, BODY_START);
  }

  lemma AlikeType(text: string, ts: seq<Token>, text': string, us: seq<Token>, doc: string, annotations: seq<string>)
    requires ts != [] && Alike(ts, us) && InText(ts, text) && InText(us, text')
    ensures SameType(TypeAt(text, ts, doc, annotations), TypeAt(text', us, doc, annotations))
  {
    AlikeFind(ts[1..], us[1..], "{");
    var n := HeaderLen(ts[1..]);
    AlikeFirstName(ts[1..][..n], us[1..][..n]);
    AlikeRun(ts[1..][n..], us[1..][n..], BODY_START, BODY_START);
  }

  lemma AlikeQualified(ts: seq<Token>, us: seq<Token>)
    requires Alike(ts, us)
    ensures QualifiedLen(ts) == QualifiedLen(us) && QualifiedName(ts) == QualifiedName(us)
  {
    AlikeFind(ts, us, ";");
    AlikeSpelled(ts[..Find(ts, ";")], us[..Find(us, ";")]);
  }

  lemma AlikeName(ts: seq<Token>, us: seq<Token>)
    requires Alike(ts, us)
    ensures Spelled(ts[..NamePathLen(ts)]) == Spelled(us[..NamePathLen(us)])
  {
    AlikeSpan(ts, us);
    AlikeSpelled(ts[..NamePathLen(ts)], us[..NamePathLen(us)]);
  }

  lemma AlikeTypeLen(ts: seq<Token>, us: seq<Token>)
    requires ts != [] && |ts| == |us| && |TypeRest(ts)| == |TypeRest(us)|
    ensures TypeLen(ts) == TypeLen(us)
  {
    TypeRestUnread(ts);
    TypeRestUnread(us);
  }

  /** How long a turn is, by its first token. */
  function LenBy(t: Token, span: nat, qualified: nat, typ: nat): nat
  {
    if t.kind == Comment then 1
    else if Is(t, '@') then 1 + span
    else if t.lexeme == "package" || t.lexeme == "import" then 1 + qualified
    else if IsTypeKeyword(t) then typ
    else 1
  }

  lemma TurnLenIs(ts: seq<Token>)
    requires ts != []
    ensures TurnLen(ts) == LenBy(ts[0], AnnotationSpan(ts[1..]), QualifiedLen(ts[1..]), TypeLen(ts))
  {
  }

  lemma AlikeTurnLen(ts: seq<Token>, us: seq<Token>)
    requires ts != [] && Alike(ts, us)
    ensures TurnLen(ts) == TurnLen(us)
  {
    var xs, ys := ts[1..], us[1..];
    AlikeParts(ts, us, 1, 1);
    AlikeSpan(xs, ys);
    AlikeQualified(xs, ys);
    AlikeRest(ts, us);
    AlikeTypeLen(ts, us);
    TurnLenIs(ts);
    TurnLenIs(us);
  }

  lemma AlikeImport(f: FileInfo, g: FileInfo, name: string)
    requires SameFile(f, g)
    ensures SameFile(Imported(f, name), Imported(g, name)) && SameFile(f.(packageName := name), g.(packageName := name))
  {
  }

  lemma AlikeTyped(f: FileInfo, g: FileInfo, t: TypeInfo, u: TypeInfo)
    requires SameFile(f, g) && SameType(t, u)
    ensures SameFile(Typed(f, t), Typed(g, u))
  {
  }

  /** The state behind a turn, by its first token. */
  function StateBy(t: Token, st: Outer, name: string, qualified: string, typ: TypeInfo): Outer
  {
    if t.kind == Comment then (if IsDocComment(t.lexeme) then st.(doc := CleanDoc(t.lexeme)) else st)
    else if Is(t, '@') then (if name == "" then st else st.(annotations := st.annotations + [name]))
    else if t.lexeme == "package" then Outer("", [], st.file.(packageName := qualified))
    else if t.lexeme == "import" then Outer("", [], Imported(st.file, qualified))
    else if IsTypeKeyword(t) then Outer("", [], Typed(st.file, typ))
    else if IsModifier(t) then st
    else Outer("", [], st.file)
  }

  lemma TurnStateIs(text: string, ts: seq<Token>, st: Outer, rest: seq<Token>)
    requires ts != [] && InText(ts, text) && rest == ts[1..]
    ensures TurnState(text, ts, st)
         == StateBy(ts[0], st, Spelled(rest[..NamePathLen(rest)]), QualifiedName(rest),
                    TypeAt(text, ts, st.doc, st.annotations))
  {
  }

  lemma AlikeState(t: Token, st: Outer, typ: TypeInfo, u: Token, st': Outer, typ': TypeInfo, name: string,
      qualified: string)
    requires AlikeToken(t, u) && SameOuter(st, st') && SameType(typ, typ')
    ensures SameOuter(StateBy(t, st, name, qualified, typ), StateBy(u, st', name, qualified, typ'))
  {
    AlikeImport(st.file, st'.file, qualified);
    AlikeTyped(st.file, st'.file, typ, typ');
  }

  lemma AlikeTurn(text: string, ts: seq<Token>, text': string, us: seq<Token>, st: Outer, st': Outer)
    requires ts != [] && Alike(ts, us) && InText(ts, text) && InText(us, text') && SameOuter(st, st')
    ensures TurnLen(ts) == TurnLen(us) && SameOuter(TurnState(text, ts, st), TurnState(text', us, st'))
  {
    var t, u := TypeAt(text, ts, st.doc, st.annotations), TypeAt(text', us, st.doc, st.annotations);
    var xs, ys := ts[1..], us[1..];
    AlikeType(text, ts, text', us, st.doc, st.annotations);
    AlikeTurnLen(ts, us);
    AlikeParts(ts, us, 1, 1);
    AlikeName(xs, ys);
    AlikeQualified(xs, ys);
    TurnStateIs(text, ts, st, xs);
    TurnStateIs(text', us, st', ys);
    AlikeState(ts[0], st, t, us[0], st', u, Spelled(xs[..NamePathLen(xs)]), QualifiedName(xs));
  }

  /** Two documents whose tokens have the same kinds and spellings are read alike, wherever these tokens stand. */
  lemma {:induction false} AlikeFile(text: string, ts: seq<Token>, text': string, us: seq<Token>, st: Outer, st': Outer)
    requires Alike(ts, us) && InText(ts, text) && InText(us, text') && SameOuter(st, st')
    ensures SameFile(FileOf(text, ts, st), FileOf(text', us, st'))
    decreases |ts|
  {
    if ts != [] {
      AlikeTurn(text, ts, text', us, st, st');
      var n := TurnLen(ts);
      SuffixInText(ts, text, n);
      SuffixInText(us, text', n);
      AlikeParts(ts, us, n, n);
      AlikeFile(text, ts[n..], text', us[n..], TurnState(text, ts, st), TurnState(text', us, st'));
    }
  }
}
