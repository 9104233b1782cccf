/** A source file that was written out declaration by declaration is read back as those declarations. */
module FileTheorems {
  import opened Chars
  import opened Text
  import opened Lexer
  import opened Decorators
  import opened Members
  import opened MemberTheorems
  import opened TypeBodies
  import opened BodyTheorems
  import opened NameTheorems
  import opened Parser
  import opened ParserTheorems

  /** A declaration, with the comments and annotations in front of it and, in a type, behind its last member. */
  datatype Unit =
    | Package(leads: seq<Lead>, keyword: Token, name: seq<Token>, semicolon: Token)
    | Import(leads: seq<Lead>, keyword: Token, name: seq<Token>, semicolon: Token)
    | TypeUnit(leads: seq<Lead>, modifiers: seq<Token>, keyword: Token, header: seq<Token>,
               brace: Token, members: seq<Declared>, trail: seq<Lead>, endBrace: Token)

  function UnitTokens(u: Unit): seq<Token>
  {
    match u
    case Package(leads, keyword, name, semicolon) => LeadsTokens(leads) + ([keyword] + (name + [semicolon]))
    case Import(leads, keyword, name, semicolon) => LeadsTokens(leads) + ([keyword] + (name + [semicolon]))
    case TypeUnit(leads, mods, keyword, header, brace, ds, trail, endBrace) =>
      LeadsTokens(leads) + (mods + TypeTokens(keyword, header, brace,
          BodyTokens(ds) + (LeadsTokens(trail) + [endBrace])))
  }

  /** A token the outer loop passes over: a modifier, or one that makes it forget documentation and annotations. */
  predicate Passed(t: Token)
  {
    EndsLeads(t) && t.lexeme != "package" && t.lexeme != "import" && !IsTypeKeyword(t)
  }

  ghost predicate AllPassed(ts: seq<Token>)
  {
    forall k :: 0 <= k < |ts| ==> Passed(ts[k])
  }

  ghost predicate QualifiedFits(lexeme: string, keyword: Token, name: seq<Token>, semicolon: Token)
  {
    keyword.lexeme == lexeme && keyword.kind != Comment && Without(name, ";") && semicolon.lexeme == ";"
  }

  ghost predicate TypeFits(keyword: Token, header: seq<Token>, brace: Token, ds: seq<Declared>, trail: seq<Lead>,
      endBrace: Token)
  {
    && IsTypeKeyword(keyword) && keyword.kind != Comment
    && Without(header, "{") && brace.lexeme == "{"
    && AllFit(ds) && LeadsFit(trail) && Is(endBrace, '}') && endBrace.kind == Symbol
  }

  ghost predicate UnitFits(u: Unit)
  {
    && LeadsFit(u.leads)
    && match u
      case Package(_, keyword, name, semicolon) => QualifiedFits("package", keyword, name, semicolon)
      case Import(_, keyword, name, semicolon) => QualifiedFits("import", keyword, name, semicolon)
      case TypeUnit(_, mods, keyword, header, brace, ds, trail, endBrace) =>
        AllPassed(mods) && TypeFits(keyword, header, brace, ds, trail, endBrace)
  }

  /** The annotations of a type, by their names. */
  function LeadNames(ls: seq<Lead>): seq<string>
  {
    if ls == [] then [] else NameOf(ls[0]) + LeadNames(ls[1..])
  }

  function NameOf(l: Lead): seq<string>
  {
    if l.Annotation? && Path(l.path) != "" then [Path(l.path)] else []
  }

  /** The type with these members. Its header is the text from its keyword to its brace. */
  ghost function TypeWith(text: string, doc: string, annotations: seq<string>, keyword: Token, header: seq<Token>,
      brace: Token, fields: seq<FieldInfo>, methods: seq<MethodInfo>): TypeInfo
    requires keyword.offset <= brace.offset <= |text|
  {
    TypeInfo(keyword.lexeme, FirstName(header + [brace]), TrimSpace(text[keyword.offset..brace.offset]),
             doc, annotations, fields, methods, keyword.line)
  }

  /** The documentation of a type, lost if there is any other token than modifiers between it and the keyword. */
  ghost function DocRead(leads: seq<Lead>, mods: seq<Token>): string
  {
    if Modifiers(mods) then LastDoc(leads, "") else ""
  }

  /** And its annotations, by their names. */
  ghost function NamesRead(leads: seq<Lead>, mods: seq<Token>): seq<string>
  {
    if Modifiers(mods) then LeadNames(leads) else []
  }

  /** The type of the unit lies in the text. */
  predicate UnitPlaced(text: string, u: Unit) { u.TypeUnit? ==> u.keyword.offset <= u.brace.offset <= |text| }

  /** The type as it is read. */
  ghost function TypeRead(text: string, u: Unit): TypeInfo
    requires u.TypeUnit? && UnitPlaced(text, u)
  {
    TypeWith(text, DocRead(u.leads, u.modifiers), NamesRead(u.leads, u.modifiers), u.keyword, u.header, u.brace,
             FieldsRead(u.members), MethodsRead(u.members))
  }

  /** The type as it was written. */
  ghost function TypeWritten(text: string, u: Unit): TypeInfo
    requires u.TypeUnit? && UnitPlaced(text, u)
  {
    TypeWith(text, LastDoc(u.leads, ""), LeadNames(u.leads), u.keyword, u.header, u.brace,
             FieldsWritten(u.members), MethodsWritten(u.members))
  }

  /** What one declaration adds to the file. */
  ghost function UnitRead(text: string, u: Unit, file: FileInfo): FileInfo
  {
    match u
    case Package(_, _, name, _) => file.(packageName := TrimSpace(Spelled(name)))
    case Import(_, _, name, _) => Imported(file, TrimSpace(Spelled(name)))
    case TypeUnit(_, _, _, _, _, _, _, _) => if UnitPlaced(text, u) then Typed(file, TypeRead(text, u)) else file
  }

  /** What it says: a package its name, and an import its name under the last of its segments; what is no such name, as
      in a static import, is taken as it is read. */
  ghost function UnitWritten(text: string, u: Unit, file: FileInfo): FileInfo
  {
    match u
    case Package(_, _, name, _) =>
      if QualifiedShape(name) then file.(packageName := Path(name)) else UnitRead(text, u, file)
    case Import(_, _, name, _) =>
      if QualifiedShape(name) then WithImport(file, name) else UnitRead(text, u, file)
    case TypeUnit(_, _, _, _, _, _, _, _) => if UnitPlaced(text, u) then Typed(file, TypeWritten(text, u)) else file
  }

  /** Packages and imports are read as they are written. */
  lemma NamesAsWritten(text: string, u: Unit, file: FileInfo)
    requires !u.TypeUnit?
    ensures UnitRead(text, u, file) == UnitWritten(text, u, file)
  {
    if QualifiedShape(u.name) {
      QualifiedIs(u.name);
      SolidStays(Path(u.name));
      ImportedByLastName(file, u.name);
    }
  }

  /** Nothing but modifiers stands in front of the type, or there is nothing to forget, and its members are plain; a
      type without a name is not read in any case. */
  ghost predicate UnitPlain(u: Unit)
  {
    u.TypeUnit? && FirstName(u.header + [u.brace]) != "" ==>
      && (Modifiers(u.modifiers) || (LastDoc(u.leads, "") == "" && LeadNames(u.leads) == []))
      && AllPlain(u.members)
  }

  // ---------------------------------------------------------------- turns of the outer loop

  lemma SkipPrefix<T>(a: seq<T>, b: seq<T>)
    ensures (a + b)[|a|..] == b
  {
  }

  /** The state behind some leads. */
  function Led(ls: seq<Lead>, st: Outer): Outer
  {
    st.(doc := LastDoc(ls, st.doc), annotations := st.annotations + LeadNames(ls))
  }

  /** The state behind one. */
  function LedBy(l: Lead, st: Outer): Outer
  {
    st.(doc := if l.Remark? then DocBehind(l.comment, st.doc) else st.doc, annotations := st.annotations + NameOf(l))
  }

  lemma LedOnce(ls: seq<Lead>, st: Outer)
    requires ls != []
    ensures Led(ls, st) == Led(ls[1..], LedBy(ls[0], st))
  {
    Regrouped(st.annotations, NameOf(ls[0]), LeadNames(ls[1..]));
  }

  lemma RemarkTurn(text: string, comment: Token, rest: seq<Token>, st: Outer)
    requires comment.kind == Comment && InText([comment] + rest, text)
    ensures TurnLen([comment] + rest) == 1
    ensures TurnState(text, [comment] + rest, st) == st.(doc := DocBehind(comment, st.doc))
  {
  }

  lemma AnnotationTurn(text: string, at: Token, ts: seq<Token>, path: seq<Token>, n: nat, st: Outer)
    requires Is(at, '@') && at.kind != Comment && InText([at] + ts, text)
    requires NamePathLen(ts) == |path| && AnnotationSpan(ts) == n && ts[..|path|] == path
    ensures TurnLen([at] + ts) == 1 + n
    ensures TurnState(text, [at] + ts, st)
         == st.(annotations := st.annotations + if Spelled(path) != "" then [Spelled(path)] else [])
  {
    assert ([at] + ts)[1..] == ts;
    NothingAdded(st.annotations);
  }

  lemma AnnotationLead(text: string, at: Token, path: seq<Token>, args: Arguments, rest: seq<Token>, st: Outer)
    requires LeadFits(Annotation(at, path, args)) && LeadsEnd(rest)
    requires InText([at] + (path + (ArgumentTokens(args) + rest)), text)
    ensures var ts := [at] + (path + (ArgumentTokens(args) + rest));
      && TurnLen(ts) == 1 + (|path| + |ArgumentTokens(args)|)
      && TurnState(text, ts, st)
         == st.(annotations := st.annotations + if Path(path) != "" then [Path(path)] else [])
  {
    var ts := path + (ArgumentTokens(args) + rest);
    SpanEnds(path, args, rest);
    SpelledIsPath(path);
    assert ts[..|path|] == path;
    AnnotationTurn(text, at, ts, path, |path| + |ArgumentTokens(args)|, st);
  }

  lemma LeadTurn(text: string, l: Lead, rest: seq<Token>, st: Outer)
    requires LeadFits(l) && LeadsEnd(rest) && InText(LeadTokens(l) + rest, text)
    ensures TurnLen(LeadTokens(l) + rest) == |LeadTokens(l)|
    ensures TurnState(text, LeadTokens(l) + rest, st) == LedBy(l, st)
  {
    NothingAdded(st.annotations);
    match l
    case Remark(comment) => RemarkTurn(text, comment, rest, st);
    case Annotation(at, path, args) =>
      LeadSplit(l, rest);
      AnnotationLead(text, at, path, args, rest, st);
  }

  lemma FileLead(text: string, l: Lead, rest: seq<Token>, st: Outer)
    requires LeadFits(l) && LeadsEnd(rest) && InText(LeadTokens(l) + rest, text)
    ensures InText(rest, text) && FileOf(text, LeadTokens(l) + rest, st) == FileOf(text, rest, LedBy(l, st))
  {
    LeadTurn(text, l, rest, st);
    FileStep(text, LeadTokens(l) + rest, st, |LeadTokens(l)|, LedBy(l, st));
    SkipPrefix(LeadTokens(l), rest);
  }

  lemma HeadAndRest<T>(a: seq<T>, b: seq<T>)
    requires a != []
    ensures a + b == [a[0]] + (a[1..] + b)
  {
  }

  lemma {:induction false} FileLeads(text: string, ls: seq<Lead>, rest: seq<Token>, st: Outer)
    requires LeadsFit(ls) && LeadsEnd(rest) && InText(LeadsTokens(ls) + rest, text)
    ensures InText(rest, text) && FileOf(text, LeadsTokens(ls) + rest, st) == FileOf(text, rest, Led(ls, st))
    decreases |ls|
  {
    if ls == [] {
      EmptyInFront(rest);
      NothingAdded(st.annotations);
    } else {
      Regrouped(LeadTokens(ls[0]), LeadsTokens(ls[1..]), rest);
      LeadsBegin(ls[1..], rest);
      FileLead(text, ls[0], LeadsTokens(ls[1..]) + rest, st);
      FileLeads(text, ls[1..], rest, LedBy(ls[0], st));
      LedOnce(ls, st);
    }
  }

  /** In front of a type any other token than a modifier, such as the `non` of `non-sealed`, makes the documentation
      and the annotations before it be forgotten. */
  function Behind(t: Token, st: Outer): Outer { if IsModifier(t) then st else Outer("", [], st.file) }

  lemma FilePassed(text: string, t: Token, rest: seq<Token>, st: Outer)
    requires Passed(t) && InText([t] + rest, text)
    ensures InText(rest, text) && FileOf(text, [t] + rest, st) == FileOf(text, rest, Behind(t, st))
  {
    FileStep(text, [t] + rest, st, 1, Behind(t, st));
    SkipPrefix([t], rest);
  }

  ghost function BehindAll(ts: seq<Token>, st: Outer): Outer
  {
    if Modifiers(ts) then st else Outer("", [], st.file)
  }

  lemma BehindFirst(ts: seq<Token>, st: Outer)
    requires ts != []
    ensures BehindAll(ts, st) == BehindAll(ts[1..], Behind(ts[0], st))
  {
    assert Modifiers(ts) <==> IsModifier(ts[0]) && Modifiers(ts[1..]);
  }

  lemma {:induction false} FileAllPassed(text: string, ts: seq<Token>, rest: seq<Token>, st: Outer)
    requires AllPassed(ts) && InText(ts + rest, text)
    ensures InText(rest, text) && FileOf(text, ts + rest, st) == FileOf(text, rest, BehindAll(ts, st))
    decreases |ts|
  {
    if ts == [] {
      EmptyInFront(rest);
    } else {
      HeadAndRest(ts, rest);
      FilePassed(text, ts[0], ts[1..] + rest, st);
      FileAllPassed(text, ts[1..], rest, Behind(ts[0], st));
      BehindFirst(ts, st);
    }
  }

  /** The `@interface` of an annotation type is taken for an annotation of that name, and no type is read. */
  lemma AnnotationTypesAreLost(text: string, at: Token, keyword: Token, name: Token, rest: seq<Token>, st: Outer)
    requires Is(at, '@') && at.kind != Comment && IsName(keyword) && keyword.lexeme == "interface"
    requires Passed(name) && !IsModifier(name) && InText([at, keyword] + ([name] + rest), text)
    ensures InText(rest, text)
    ensures FileOf(text, [at, keyword] + ([name] + rest), st) == FileOf(text, rest, Outer("", [], st.file))
  {
    var path := [keyword];
    assert path[1..] == [];
    var lead := Annotation(at, path, NoArguments);
    assert LeadTokens(lead) == [at, keyword];
    FileLead(text, lead, [name] + rest, st);
    FilePassed(text, name, rest, LedBy(lead, st));
  }

  lemma QualifiedParts(name: seq<Token>, semicolon: Token, rest: seq<Token>)
    requires Without(name, ";") && semicolon.lexeme == ";"
    ensures QualifiedLen(name + ([semicolon] + rest)) == |name| + 1
    ensures QualifiedName(name + ([semicolon] + rest)) == TrimSpace(Spelled(name))
  {
    FindFirst(name, [semicolon] + rest, ";");
    assert (name + ([semicolon] + rest))[..|name|] == name;
  }

  /** A package or import declaration, up to and with its semicolon. */
  lemma FileQualified(text: string, keyword: Token, name: seq<Token>, semicolon: Token, rest: seq<Token>, st: Outer)
    requires keyword.lexeme == "package" || keyword.lexeme == "import"
    requires keyword.kind != Comment && Without(name, ";") && semicolon.lexeme == ";"
    requires InText([keyword] + (name + ([semicolon] + rest)), text)
    ensures InText(rest, text)
    ensures FileOf(text, [keyword] + (name + ([semicolon] + rest)), st)
         == FileOf(text, rest, Outer("", [], if keyword.lexeme == "package"
                                             then st.file.(packageName := TrimSpace(Spelled(name)))
                                             else Imported(st.file, TrimSpace(Spelled(name)))))
  {
    var more := name + ([semicolon] + rest);
    var ts := [keyword] + more;
    assert ts[1..] == more;
    QualifiedParts(name, semicolon, rest);
    FileStep(text, ts, st, 1 + QualifiedLen(more), TurnState(text, ts, st));
    DropBoth([keyword], more, |name| + 1);
    DropBoth(name, [semicolon] + rest, 1);
    SkipPrefix([semicolon], rest);
  }

  lemma TypeTurn(text: string, ts: seq<Token>, st: Outer, t: TypeInfo, rest: seq<Token>)
    requires ts != [] && InText(ts, text) && IsTypeKeyword(ts[0]) && ts[0].kind != Comment
    requires TypeAt(text, ts, st.doc, st.annotations) == t && TypeRest(ts) == rest
    ensures InText(rest, text) && FileOf(text, ts, st) == FileOf(text, rest, Outer("", [], Typed(st.file, t)))
  {
    FileStep(text, ts, st, TypeLen(ts), Outer("", [], Typed(st.file, t)));
  }

  /** The tokens of a type from its keyword on, when `rest` follows. */
  function WrittenType(keyword: Token, header: seq<Token>, brace: Token, ds: seq<Declared>, trail: seq<Lead>,
      endBrace: Token, rest: seq<Token>): seq<Token>
  {
    TypeTokens(keyword, header, brace, BodyTokens(ds) + (LeadsTokens(trail) + ([endBrace] + rest)))
  }

  /** What is read of a type that was written out, and what is left behind it. */
  lemma TypeReadsBack(text: string, keyword: Token, header: seq<Token>, brace: Token, ds: seq<Declared>,
      trail: seq<Lead>, endBrace: Token, rest: seq<Token>, doc: string, annotations: seq<string>)
    requires TypeFits(keyword, header, brace, ds, trail, endBrace)
    requires InText(WrittenType(keyword, header, brace, ds, trail, endBrace, rest), text)
    ensures keyword.offset <= brace.offset <= |text|
    ensures TypeAt(text, WrittenType(keyword, header, brace, ds, trail, endBrace, rest), doc, annotations)
         == TypeWith(text, doc, annotations, keyword, header, brace, FieldsRead(ds), MethodsRead(ds))
    ensures TypeRest(WrittenType(keyword, header, brace, ds, trail, endBrace, rest)) == rest
  {
    DeclaredType(text, keyword, header, brace, BodyTokens(ds) + (LeadsTokens(trail) + ([endBrace] + rest)), doc,
                 annotations);
    BodyReadsBack(ds, trail, endBrace, rest);
  }

  lemma FileType(text: string, keyword: Token, header: seq<Token>, brace: Token, ds: seq<Declared>, trail: seq<Lead>,
      endBrace: Token, rest: seq<Token>, st: Outer)
    requires TypeFits(keyword, header, brace, ds, trail, endBrace)
    requires InText(WrittenType(keyword, header, brace, ds, trail, endBrace, rest), text)
    ensures InText(rest, text) && keyword.offset <= brace.offset <= |text|
    ensures FileOf(text, WrittenType(keyword, header, brace, ds, trail, endBrace, rest), st)
         == FileOf(text, rest, Outer("", [], Typed(st.file,
              TypeWith(text, st.doc, st.annotations, keyword, header, brace, FieldsRead(ds), MethodsRead(ds)))))
  {
    TypeReadsBack(text, keyword, header, brace, ds, trail, endBrace, rest, st.doc, st.annotations);
    TypeTurn(text, WrittenType(keyword, header, brace, ds, trail, endBrace, rest), st,
             TypeWith(text, st.doc, st.annotations, keyword, header, brace, FieldsRead(ds), MethodsRead(ds)), rest);
  }

  /** A type that is not opened takes all tokens there are, and has neither header nor members. */
  lemma UnopenedType(text: string, ts: seq<Token>, doc: string, annotations: seq<string>)
    requires ts != [] && InText(ts, text) && Without(ts[1..], "{")
    ensures TypeAt(text, ts, doc, annotations)
         == TypeInfo(ts[0].lexeme, FirstName(ts[1..]), "", doc, annotations, [], [], ts[0].line)
    ensures TypeLen(ts) == |ts|
  {
    FindNothing(ts[1..], "{");
    assert ts[1..][..|ts| - 1] == ts[1..] && ts[1..][|ts| - 1..] == [];
  }

  // ---------------------------------------------------------------- a whole file

  lemma RegroupType(leads: seq<Token>, mods: seq<Token>, keyword: Token, header: seq<Token>, brace: Token,
      body: seq<Token>, trail: seq<Token>, endBrace: Token, rest: seq<Token>)
    ensures (leads + (mods + TypeTokens(keyword, header, brace, body + (trail + [endBrace])))) + rest
         == leads + (mods + TypeTokens(keyword, header, brace, body + (trail + ([endBrace] + rest))))
  {
  }

  lemma WordsEndLeads(t: Token)
    requires IsTypeKeyword(t) || t.lexeme == "package" || t.lexeme == "import"
    ensures !Is(t, '.') && !Is(t, '(')
  {
  }

  lemma FileTypeUnit(text: string, u: Unit, rest: seq<Token>, file: FileInfo)
    requires UnitFits(u) && u.TypeUnit? && InText(UnitTokens(u) + rest, text)
    ensures InText(rest, text)
    ensures FileOf(text, UnitTokens(u) + rest, Outer("", [], file))
         == FileOf(text, rest, Outer("", [], UnitRead(text, u, file)))
  {
    var typ := WrittenType(u.keyword, u.header, u.brace, u.members, u.trail, u.endBrace, rest);
    RegroupType(LeadsTokens(u.leads), u.modifiers, u.keyword, u.header, u.brace, BodyTokens(u.members),
                LeadsTokens(u.trail), u.endBrace, rest);
    var declared := Outer(LastDoc(u.leads, ""), LeadNames(u.leads), file);
    EmptyInFront(LeadNames(u.leads));
    WordsEndLeads(u.keyword);
    FileLeads(text, u.leads, u.modifiers + typ, Outer("", [], file));
    FileAllPassed(text, u.modifiers, typ, declared);
    FileType(text, u.keyword, u.header, u.brace, u.members, u.trail, u.endBrace, rest,
             BehindAll(u.modifiers, declared));
  }

  lemma RegroupQualified(leads: seq<Token>, keyword: Token, name: seq<Token>, semicolon: Token, rest: seq<Token>)
    ensures (leads + ([keyword] + (name + [semicolon]))) + rest == leads + ([keyword] + (name + ([semicolon] + rest)))
  {
  }

  lemma FileUnit(text: string, u: Unit, rest: seq<Token>, file: FileInfo)
    requires UnitFits(u) && InText(UnitTokens(u) + rest, text)
    ensures InText(rest, text)
    ensures FileOf(text, UnitTokens(u) + rest, Outer("", [], file))
         == FileOf(text, rest, Outer("", [], UnitRead(text, u, file)))
  {
    if u.TypeUnit? {
      FileTypeUnit(text, u, rest, file);
    } else {
      var ts := [u.keyword] + (u.name + ([u.semicolon] + rest));
      RegroupQualified(LeadsTokens(u.leads), u.keyword, u.name, u.semicolon, rest);
      WordsEndLeads(u.keyword);
      FileLeads(text, u.leads, ts, Outer("", [], file));
      FileQualified(text, u.keyword, u.name, u.semicolon, rest, Led(u.leads, Outer("", [], file)));
    }
  }

  function UnitsTokens(us: seq<Unit>): seq<Token>
  {
    if us == [] then [] else UnitTokens(us[0]) + UnitsTokens(us[1..])
  }

  ghost function UnitsRead(text: string, us: seq<Unit>, file: FileInfo): FileInfo
  {
    if us == [] then file else UnitsRead(text, us[1..], UnitRead(text, us[0], file))
  }

  ghost function UnitsWritten(text: string, us: seq<Unit>, file: FileInfo): FileInfo
  {
    if us == [] then file else UnitsWritten(text, us[1..], UnitWritten(text, us[0], file))
  }

  ghost predicate UnitsFit(us: seq<Unit>)
  {
    forall k :: 0 <= k < |us| ==> UnitFits(us[k])
  }

  ghost predicate UnitsPlain(us: seq<Unit>)
  {
    forall k :: 0 <= k < |us| ==> UnitPlain(us[k])
  }

  /** The same file but for the types in it, of which there are as many. */
  predicate ButTypes(f: FileInfo, g: FileInfo)
  {
    f.packageName == g.packageName && f.imports == g.imports && |f.types| == |g.types|
  }

  lemma TypesAppended(f: FileInfo, g: FileInfo, t: TypeInfo, u: TypeInfo)
    requires ButTypes(f, g) && t.name == u.name
    ensures ButTypes(Typed(f, t), Typed(g, u))
    ensures Typed(f, t) == Typed(g, u) <==> f == g && (t.name == "" || t == u)
  {
    if t.name != "" {
      var ts, us := f.types + [t], g.types + [u];
      assert ts[..|f.types|] == f.types && us[..|g.types|] == g.types;
      assert ts[|f.types|] == t && us[|g.types|] == u;
    }
  }

  lemma UnitAsWritten(text: string, u: Unit, f: FileInfo, g: FileInfo)
    requires UnitFits(u) && UnitPlaced(text, u) && ButTypes(f, g)
    ensures ButTypes(UnitRead(text, u, f), UnitWritten(text, u, g))
    ensures UnitRead(text, u, f) == UnitWritten(text, u, g) <==> f == g && UnitPlain(u)
  {
    if u.TypeUnit? {
      BodyAsWritten(u.members);
      TypesAppended(f, g, TypeRead(text, u), TypeWritten(text, u));
    } else {
      NamesAsWritten(text, u, g);
    }
  }

  /** What is read of declarations is what they say exactly if each of them is plain. */
  lemma {:induction false} UnitsAsWritten(text: string, us: seq<Unit>, f: FileInfo, g: FileInfo)
    requires UnitsFit(us) && ButTypes(f, g) && forall k :: 0 <= k < |us| ==> UnitPlaced(text, us[k])
    ensures UnitsRead(text, us, f) == UnitsWritten(text, us, g) <==> f == g && UnitsPlain(us)
    decreases |us|
  {
    if us != [] {
      UnitAsWritten(text, us[0], f, g);
      UnitsAsWritten(text, us[1..], UnitRead(text, us[0], f), UnitWritten(text, us[0], g));
      assert UnitsPlain(us) <==> UnitPlain(us[0]) && UnitsPlain(us[1..]);
    }
  }

  /** A type in the text lies in the text. */
  lemma UnitInText(text: string, u: Unit, rest: seq<Token>)
    requires InText(UnitTokens(u) + rest, text)
    ensures UnitPlaced(text, u)
  {
    if u.TypeUnit? {
      var ts := UnitTokens(u) + rest;
      var front := |LeadsTokens(u.leads)| + |u.modifiers|;
      assert ts[front] == u.keyword && ts[front + 1 + |u.header|] == u.brace;
    }
  }

  lemma {:induction false} UnitsInText(text: string, us: seq<Unit>)
    requires InText(UnitsTokens(us), text)
    ensures forall k :: 0 <= k < |us| ==> UnitPlaced(text, us[k])
    decreases |us|
  {
    if us != [] {
      UnitInText(text, us[0], UnitsTokens(us[1..]));
      SuffixInText(UnitsTokens(us), text, |UnitTokens(us[0])|);
      SkipPrefix(UnitTokens(us[0]), UnitsTokens(us[1..]));
      UnitsInText(text, us[1..]);
    }
  }

  lemma {:induction false} FileRead(text: string, us: seq<Unit>, file: FileInfo)
    requires UnitsFit(us) && InText(UnitsTokens(us), text)
    ensures FileOf(text, UnitsTokens(us), Outer("", [], file)) == UnitsRead(text, us, file)
    decreases |us|
  {
    if us != [] {
      FileUnit(text, us[0], UnitsTokens(us[1..]), file);
      FileRead(text, us[1..], UnitRead(text, us[0], file));
    }
  }

  /** The analysis of a file written out as packages, imports and types is read declaration by declaration. It is what
      they say, every type with its kind, name, header text, documentation, annotations, fields, methods and line, in
      order, and the imports by their last segment, exactly if each type with a name has plain members and has no token
      but modifiers between its documentation or annotations and its keyword. */
  lemma FileReadsBack(text: string, us: seq<Unit>, file: FileInfo)
    requires UnitsFit(us) && InText(UnitsTokens(us), text)
    ensures FileOf(text, UnitsTokens(us), Outer("", [], file)) == UnitsRead(text, us, file)
    ensures FileOf(text, UnitsTokens(us), Outer("", [], file)) == UnitsWritten(text, us, file) <==> UnitsPlain(us)
  {
    FileRead(text, us, file);
    UnitsInText(text, us);
    UnitsAsWritten(text, us, file, file);
  }

  /** A document whose tokens are those of such declarations is analysed as them, exactly under that condition. */
  lemma AnalysisReadsBack(kw: set<string>, text: string, us: seq<Unit>)
    requires UnitsFit(us) && LexFrom(kw, text, 0, Pos(0, 0)) == Tokens(UnitsTokens(us))
    ensures AnalysisOf(kw, text) == File(UnitsRead(text, us, EMPTY_FILE))
    ensures AnalysisOf(kw, text) == File(UnitsWritten(text, us, EMPTY_FILE)) <==> UnitsPlain(us)
  {
    LexedInText(kw, text);
    FileReadsBack(text, us, EMPTY_FILE);
  }
}
