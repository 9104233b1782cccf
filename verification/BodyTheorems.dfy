/** A type body that was written out member by member is read back member by member. */
module BodyTheorems {
  import opened Lexer
  import opened Decorators
  import opened Members
  import opened MemberTheorems
  import opened TypeBodies

  datatype Arguments = NoArguments | Parenthesised(open: Token, inner: seq<Token>, close: Token)

  /** What stands in front of a member: comments and annotations, in any order. */
  datatype Lead = Remark(comment: Token) | Annotation(at: Token, path: seq<Token>, args: Arguments)

  /** How a member ends: with a semicolon, with a method body or a braced initialiser, or with both. */
  datatype Ending =
    | Semicolon(mark: Token)
    | Block(brace: Token, body: seq<Token>, endBrace: Token)
    | BlockAndSemicolon(brace: Token, body: seq<Token>, endBrace: Token, mark: Token)

  /** A member as its author writes it. `init` and `tail` are what stands between a field, or the parameters of
      a method, and its ending; `head` is the declaration of a nested type up to its brace. */
  datatype Declared =
    | FieldDecl(leads: seq<Lead>, modifiers: seq<Token>, typ: seq<Token>, name: Token, init: seq<Token>, ending: Ending)
    | MethodDecl(leads: seq<Lead>, modifiers: seq<Token>, typ: seq<Token>, name: Token,
                 open: Token, params: seq<Param>, close: Token, tail: seq<Token>, ending: Ending)
    | NestedDecl(leads: seq<Lead>, head: seq<Token>, ending: Ending)

  // ---------------------------------------------------------------- the tokens of one member

  function ArgumentTokens(args: Arguments): seq<Token>
  {
    match args
    case NoArguments => []
    case Parenthesised(open, inner, close) => [open] + (inner + [close])
  }

  function LeadTokens(l: Lead): seq<Token>
  {
    match l
    case Remark(comment) => [comment]
    case Annotation(at, path, args) => [at] + (path + ArgumentTokens(args))
  }

  function LeadsTokens(ls: seq<Lead>): seq<Token>
  {
    if ls == [] then [] else LeadTokens(ls[0]) + LeadsTokens(ls[1..])
  }

  function MemberOf(d: Declared): seq<Token>
  {
    match d
    case FieldDecl(_, mods, typ, name, init, _) => (mods + (typ + [name])) + init
    case MethodDecl(_, mods, typ, name, open, ps, close, tail, _) =>
      WrittenMethod(mods, typ, name, open, ps, close, tail)
    case NestedDecl(_, head, _) => head
  }

  function EndingTokens(e: Ending): seq<Token>
  {
    match e
    case Semicolon(mark) => [mark]
    case Block(brace, body, endBrace) => [brace] + (body + [endBrace])
    case BlockAndSemicolon(brace, body, endBrace, mark) => ([brace] + (body + [endBrace])) + [mark]
  }

  predicate IsSemicolon(t: Token) { Is(t, ';') && t.kind == Symbol }

  /** A token the body scan only collects: no brace, no semicolon. */
  predicate Collected(t: Token) { !Is(t, '{') && !Is(t, '}') && !Is(t, ';') }

  ghost predicate AllCollected(ts: seq<Token>)
  {
    forall k :: 0 <= k < |ts| ==> Collected(ts[k])
  }

  /** A name with its dotted continuations, and arguments whose parentheses close. */
  ghost predicate LeadFits(l: Lead)
  {
    match l
    case Remark(comment) => comment.kind == Comment && |comment.lexeme| > 1
    case Annotation(at, path, args) =>
      && Is(at, '@') && at.kind != Comment && DottedName(path)
      && (args.Parenthesised? ==> Is(args.open, '(') && Balanced(args.inner, 0) && Is(args.close, ')'))
  }

  ghost predicate LeadsFit(ls: seq<Lead>)
  {
    forall k :: 0 <= k < |ls| ==> LeadFits(ls[k])
  }

  /** No token of ts has this spelling. */
  ghost predicate Without(ts: seq<Token>, lexeme: string)
  {
    forall k :: 0 <= k < |ts| ==> ts[k].lexeme != lexeme
  }

  ghost predicate BlockFits(brace: Token, body: seq<Token>, endBrace: Token)
  {
    OpensBody(brace) && BracesClose(body, 0) && Is(endBrace, '}')
  }

  ghost predicate EndingFits(e: Ending)
  {
    match e
    case Semicolon(mark) => IsSemicolon(mark)
    case Block(brace, body, endBrace) => BlockFits(brace, body, endBrace)
    case BlockAndSemicolon(brace, body, endBrace, mark) => BlockFits(brace, body, endBrace) && IsSemicolon(mark)
  }

  /** A token that neither is a lead nor goes on with one. */
  predicate EndsLeads(t: Token) { t.kind != Comment && !Is(t, '@') && !Is(t, '.') && !Is(t, '(') }

  ghost predicate DeclaredFits(d: Declared)
  {
    && LeadsFit(d.leads) && EndingFits(d.ending)
    && AllCollected(MemberOf(d)) && MemberOf(d) != [] && EndsLeads(MemberOf(d)[0])
    && (d.NestedDecl? ==> NestedType(d.head))
    && (!d.NestedDecl? ==> Modifiers(d.modifiers) && TypeShape(d.typ) && NameShape(d.name) && Without(d.typ, "="))
    && (d.FieldDecl? ==> d.typ != [] && (d.init == [] || d.init[0].lexeme == "="))
    && (d.MethodDecl? ==> ParamShapes(d.params) && d.open.lexeme == "(" && Is(d.close, ')'))
  }

  // ---------------------------------------------------------------- what it is read as

  function DocBehind(comment: Token, doc: string): string
  {
    if IsDocComment(comment.lexeme) then CleanDoc(comment.lexeme) else doc
  }

  /** The documentation left pending by a run of comments and annotations. */
  function LastDoc(ls: seq<Lead>, doc: string): string
  {
    if ls == [] then doc
    else LastDoc(ls[1..], if ls[0].Remark? then DocBehind(ls[0].comment, doc) else doc)
  }

  function IfField(f: FieldInfo): (r: seq<FieldInfo>)
    ensures |r| <= 1
  {
    if f.name != "" then [f] else []
  }

  function IfMethod(m: MethodInfo): (r: seq<MethodInfo>)
    ensures |r| <= 1
  {
    if m.name != "" then [m] else []
  }

  /** What is read of a member among the fields. Nothing is if one of its tokens is spelled like a type keyword, and
      a name spelled like a modifier is stripped, so that the type is read for a type and a name. */
  ghost function FieldRead(d: Declared): (r: seq<FieldInfo>)
    ensures |r| <= 1
  {
    if !d.FieldDecl? || NestedType(MemberOf(d)) then [] else IfField(FieldFrom(LeftOf(d.typ, d.name)))
  }

  /** And among the methods. */
  ghost function MethodRead(d: Declared): (r: seq<MethodInfo>)
    ensures |r| <= 1
  {
    if !d.MethodDecl? || NestedType(MemberOf(d)) then []
    else IfMethod(MethodFrom(LeftOf(d.typ, d.name), d.name, ParamsRead(d.params), LastDoc(d.leads, ""),
                             HasStatic(MemberOf(d))))
  }

  /** The field that was written. */
  function FieldWritten(d: Declared): seq<FieldInfo>
  {
    if d.FieldDecl? then [FieldInfo(d.name.lexeme, TypeName(d.typ), d.name.line)] else []
  }

  /** The method that was written; constructors, which have no return type, and nested types are none. */
  ghost function MethodWritten(d: Declared): seq<MethodInfo>
  {
    if !d.MethodDecl? || d.typ == [] then []
    else [MethodInfo(d.name.lexeme, TypeName(d.typ), Infos(d.params), LastDoc(d.leads, ""), d.name.line,
                     HasStatic(MemberOf(d)))]
  }

  /** The type in front of the name comes back: the name is not spelled like a modifier, or the type happens to print
      like itself without its last token. */
  predicate TypeKept(typ: seq<Token>, name: Token)
  {
    !IsModifier(name) || (|typ| >= 2 && TypeName(typ[..|typ| - 1]) == TypeName(typ))
  }

  /** No token is spelled like a type keyword, and no name like a modifier. */
  ghost predicate Plain(d: Declared)
  {
    match d
    case FieldDecl(_, _, _, name, _, _) => !NestedType(MemberOf(d)) && !IsModifier(name)
    case MethodDecl(_, _, typ, name, _, ps, _, _, _) =>
      typ == [] || (!NestedType(MemberOf(d)) && TypeKept(typ, name) && PlainNames(ps))
    case NestedDecl(_, _, _) => true
  }

  // ---------------------------------------------------------------- one member

  lemma {:induction false} FindNothing(ts: seq<Token>, lexeme: string)
    requires Without(ts, lexeme)
    ensures Find(ts, lexeme) == |ts|
  {
  }

  lemma HeadWithout(mods: seq<Token>, typ: seq<Token>, name: Token)
    requires Modifiers(mods) && TypeShape(typ) && NameShape(name) && Without(typ, "=")
    ensures Without(mods + (typ + [name]), "(") && Without(mods + (typ + [name]), "=")
  {
    HeadIsOpenFree(mods, typ, name);
    forall k | 0 <= k < |mods|
      ensures mods[k].lexeme != "="
    {
      ModifierIsWord(mods[k]);
    }
    assert name.lexeme[0] != '=';
  }

  /** A field written out is read back, exactly if it is not named like a modifier. */
  lemma FieldReadsBack(mods: seq<Token>, typ: seq<Token>, name: Token, init: seq<Token>)
    requires Modifiers(mods) && TypeShape(typ) && NameShape(name) && Without(typ, "=") && typ != []
    requires init == [] || init[0].lexeme == "="
    ensures var ts := (mods + (typ + [name])) + init;
      && FieldOf(ts) == FieldFrom(LeftOf(typ, name)) && !LooksLikeMethod(ts)
      && (FieldOf(ts) == FieldInfo(name.lexeme, TypeName(typ), name.line) <==> !IsModifier(name))
  {
    var head := mods + (typ + [name]);
    var ts := head + init;
    HeadWithout(mods, typ, name);
    FieldHead(head, init);
    StripDeclared(mods, typ, name);
    LeftOfPlain(typ, name);
  }

  lemma FieldHead(head: seq<Token>, init: seq<Token>)
    requires Without(head, "(") && Without(head, "=") && (init == [] || init[0].lexeme == "=")
    ensures (head + init)[..Find(head + init, "=")] == head && !LooksLikeMethod(head + init)
  {
    if init == [] {
      assert head + init == head;
      FindNothing(head, "=");
      FindNothing(head, "(");
    } else {
      FindBehind(head, init, "=");
      assert forall k :: 0 <= k < |head| ==> (head + init)[k] == head[k];
    }
  }

  lemma MethodLooks(head: seq<Token>, group: seq<Token>)
    requires Without(head, "(") && Without(head, "=") && group != [] && group[0].lexeme == "("
    ensures LooksLikeMethod(head + group)
  {
    FindBehind(head, group, "(");
    assert forall k :: 0 <= k < |head| ==> (head + group)[k] == head[k];
  }

  /** The tokens of a member, when its ending is met, become the field or method that is read of it. */
  lemma MemberAdded(d: Declared, fields: seq<FieldInfo>, methods: seq<MethodInfo>)
    requires DeclaredFits(d)
    ensures AddMember(MemberOf(d), LastDoc(d.leads, ""), fields, methods)
         == (fields + FieldRead(d), methods + MethodRead(d))
  {
    NothingAdded(fields);
    NothingAdded(methods);
    if NestedType(MemberOf(d)) {
    } else if d.FieldDecl? {
      FieldReadsBack(d.modifiers, d.typ, d.name, d.init);
    } else {
      var head := d.modifiers + (d.typ + [d.name]);
      HeadWithout(d.modifiers, d.typ, d.name);
      MethodLooks(head, [d.open] + (WrittenParams(d.params) + ([d.close] + d.tail)));
      MethodReadsBack(d.modifiers, d.typ, d.name, d.open, d.params, d.close, d.tail, LastDoc(d.leads, ""));
    }
  }

  lemma FieldAsWritten(d: Declared)
    requires DeclaredFits(d) && d.FieldDecl?
    ensures FieldRead(d) == FieldWritten(d) <==> Plain(d)
  {
    LeftOfPlain(d.typ, d.name);
  }

  lemma MethodAsWritten(d: Declared)
    requires DeclaredFits(d) && d.MethodDecl?
    ensures MethodRead(d) == MethodWritten(d) <==> Plain(d)
  {
    ParamsAsWritten(d.params);
    if d.typ != [] {
      LeftOfPlain(d.typ, d.name);
    }
  }

  /** A member is read as it was written exactly if it is plain: a field or a method with a return type is lost if one
      of its tokens is a type keyword, and misread if it or a parameter is named like a modifier. */
  lemma ReadAsWritten(d: Declared)
    requires DeclaredFits(d)
    ensures FieldRead(d) == FieldWritten(d) && MethodRead(d) == MethodWritten(d) <==> Plain(d)
  {
    if d.FieldDecl? {
      FieldAsWritten(d);
    } else if d.MethodDecl? {
      MethodAsWritten(d);
    }
  }

  function Spelling(kind: Kind, lexeme: string): Token { Token(kind, lexeme, 0, 0, 0, 0) }

  /** Two members that are lost: `void save(Row record)` and `Class C = A.class`. */
  lemma KeywordNamesLoseMembers(doc: string, fields: seq<FieldInfo>, methods: seq<MethodInfo>)
    ensures var ts := [Spelling(Keyword, "void"), Spelling(Identifier, "save"), Spelling(Symbol, "("),
                       Spelling(Identifier, "Row"), Spelling(Keyword, "record"), Spelling(Symbol, ")")];
      AddMember(ts, doc, fields, methods) == (fields, methods)
    ensures var ts := [Spelling(Identifier, "Class"), Spelling(Identifier, "C"), Spelling(Symbol, "="),
                       Spelling(Identifier, "A"), Spelling(Symbol, "."), Spelling(Keyword, "class")];
      AddMember(ts, doc, fields, methods) == (fields, methods)
  {
    var record, literal := Spelling(Keyword, "record"), Spelling(Keyword, "class");
    assert [Spelling(Keyword, "void"), Spelling(Identifier, "save"), Spelling(Symbol, "("),
            Spelling(Identifier, "Row"), record, Spelling(Symbol, ")")][4] == record;
    assert [Spelling(Identifier, "Class"), Spelling(Identifier, "C"), Spelling(Symbol, "="),
            Spelling(Identifier, "A"), Spelling(Symbol, "."), literal][5] == literal;
  }

  lemma MoreWithout(head: seq<Token>, more: seq<Token>, lexeme: string)
    requires Without(head, lexeme) && Without(more, lexeme)
    ensures Without(head + more, lexeme)
  {
  }

  lemma StripMore(mods: seq<Token>, typ: seq<Token>, name: Token, more: seq<Token>)
    requires Modifiers(mods) && TypeShape(typ) && NameShape(name) && !IsModifier(name) && CleanFrom(more, 0)
    ensures Strip(mods + (typ + ([name] + more)), 0) == typ + ([name] + more)
  {
    var rest := [name] + more;
    StripModifiers(mods, typ + rest);
    StripBehindClean(typ, rest, 0);
    NameIsNoBracket(name);
    assert rest[1..] == more;
    StripKeepsClean(rest, 0);
  }

  lemma LastOfMore(typ: seq<Token>, name: Token, more: seq<Token>)
    requires more != []
    ensures var ts := typ + ([name] + more);
      |ts| >= 2 && ts[|ts| - 1] == more[|more| - 1] && ts[..|ts| - 1] == typ + ([name] + more[..|more| - 1])
  {
  }

  lemma FrontAndMore(mods: seq<Token>, typ: seq<Token>, name: Token, more: seq<Token>)
    ensures mods + (typ + ([name] + more)) == (mods + (typ + [name])) + more
  {
  }

  /** What stands between the name of a field and its initialiser, as in `int a[]` and `int a, b`, is taken for the end
      of the declaration: its last token is read as the name, and the type is everything in front of that. */
  lemma DeclaratorsMisread(mods: seq<Token>, typ: seq<Token>, name: Token, more: seq<Token>, init: seq<Token>)
    requires Modifiers(mods) && TypeShape(typ) && NameShape(name) && !IsModifier(name)
    requires Without(typ, "=") && Without(more, "=") && Without(more, "(") && CleanFrom(more, 0) && more != []
    requires init == [] || init[0].lexeme == "="
    ensures var last := more[|more| - 1];
      FieldOf((mods + (typ + ([name] + more))) + init)
        == FieldInfo(last.lexeme, TypeName(typ + ([name] + more[..|more| - 1])), last.line)
  {
    var head := mods + (typ + ([name] + more));
    HeadWithout(mods, typ, name);
    FrontAndMore(mods, typ, name, more);
    MoreWithout(mods + (typ + [name]), more, "(");
    MoreWithout(mods + (typ + [name]), more, "=");
    FieldHead(head, init);
    StripMore(mods, typ, name, more);
    LastOfMore(typ, name, more);
  }

  lemma NothingAdded<T>(xs: seq<T>)
    ensures xs + [] == xs
  {
  }

  // ---------------------------------------------------------------- the scan over one member

  predicate LeadsEnd(rest: seq<Token>) { rest != [] && !Is(rest[0], '.') && !Is(rest[0], '(') }

  lemma BehindOpen(open: Token, inner: seq<Token>, close: Token, rest: seq<Token>)
    ensures var group := ([open] + (inner + [close])) + rest;
      group[0] == open && group[1..] == inner + ([close] + rest)
  {
    assert ([open] + (inner + [close])) + rest == [open] + (inner + ([close] + rest));
  }

  lemma SameGroup(group: seq<Token>, tail: seq<Token>, n: nat)
    requires group != [] && group[1..] == tail && GroupLen(tail, 1) == n
    ensures GroupLen(group[1..], 1) == n
  {
  }

  lemma GroupEnds(open: Token, inner: seq<Token>, close: Token, rest: seq<Token>)
    requires GroupLen(inner + ([close] + rest), 1) == |inner| + 1
    ensures var group := ([open] + (inner + [close])) + rest;
      group[0] == open && GroupLen(group[1..], 1) == |inner| + 1
  {
    BehindOpen(open, inner, close, rest);
    SameGroup(([open] + (inner + [close])) + rest, inner + ([close] + rest), |inner| + 1);
  }

  lemma SpanOf(path: seq<Token>, args: Arguments, rest: seq<Token>)
    requires NamePathLen(path + (ArgumentTokens(args) + rest)) == |path| && LeadsEnd(rest)
    requires args.Parenthesised? ==> Is(args.open, '(') && Balanced(args.inner, 0) && Is(args.close, ')')
    ensures AnnotationSpan(path + (ArgumentTokens(args) + rest)) == |path| + |ArgumentTokens(args)|
  {
    var group := ArgumentTokens(args) + rest;
    var ts := path + group;
    if args.Parenthesised? {
      GroupOfBalanced(args.inner, args.close, rest, 0);
      GroupEnds(args.open, args.inner, args.close, rest);
    } else {
      EmptyInFront(rest);
    }
    assert ts[|path| + 1..] == group[1..];
    assert ts[|path|] == group[0];
  }

  lemma ArgumentsBegin(args: Arguments, rest: seq<Token>)
    requires LeadsEnd(rest) && (args.Parenthesised? ==> Is(args.open, '('))
    ensures PathEnds(ArgumentTokens(args) + rest)
  {
    if args.NoArguments? {
      EmptyInFront(rest);
    } else {
      assert (ArgumentTokens(args) + rest)[0] == args.open;
    }
  }

  /** An annotation ends where it was written to end. */
  lemma SpanEnds(path: seq<Token>, args: Arguments, rest: seq<Token>)
    requires DottedName(path) && LeadsEnd(rest)
    requires args.Parenthesised? ==> Is(args.open, '(') && Balanced(args.inner, 0) && Is(args.close, ')')
    ensures var ts := path + (ArgumentTokens(args) + rest);
      AnnotationSpan(ts) == |path| + |ArgumentTokens(args)| && NamePathLen(ts) == |path|
  {
    ArgumentsBegin(args, rest);
    PathTakenWhole(path, ArgumentTokens(args) + rest);
    SpanOf(path, args, rest);
  }

  lemma LeadSplit(l: Lead, rest: seq<Token>)
    requires l.Annotation?
    ensures LeadTokens(l) + rest == [l.at] + (l.path + (ArgumentTokens(l.args) + rest))
    ensures (LeadTokens(l) + rest)[1..] == l.path + (ArgumentTokens(l.args) + rest)
    ensures (LeadTokens(l) + rest)[|LeadTokens(l)|..] == rest
  {
  }

  lemma ScanLead(l: Lead, rest: seq<Token>, st: Body, doc: string)
    requires LeadFits(l) && BetweenMembers(st) && LeadsEnd(rest)
    requires doc == if l.Remark? then DocBehind(l.comment, st.doc) else st.doc
    ensures RunBody(LeadTokens(l) + rest, st) == RunBody(rest, st.(doc := doc))
  {
    var ts := LeadTokens(l) + rest;
    if l.Remark? {
      RunStep(ts, st, 1, st.(doc := doc));
      assert ts[1..] == rest;
    } else {
      LeadSplit(l, rest);
      SpanEnds(l.path, l.args, rest);
      RunStep(ts, st, |LeadTokens(l)|, st);
    }
  }

  lemma LeadsBegin(ls: seq<Lead>, rest: seq<Token>)
    requires LeadsFit(ls) && LeadsEnd(rest)
    ensures LeadsEnd(LeadsTokens(ls) + rest)
  {
    if ls == [] {
      EmptyInFront(rest);
    } else {
      assert LeadFits(ls[0]);
      assert (LeadsTokens(ls) + rest)[0] == LeadTokens(ls[0])[0];
    }
  }

  lemma {:induction false} ScanLeads(ls: seq<Lead>, rest: seq<Token>, st: Body)
    requires LeadsFit(ls) && BetweenMembers(st) && LeadsEnd(rest)
    ensures RunBody(LeadsTokens(ls) + rest, st) == RunBody(rest, st.(doc := LastDoc(ls, st.doc)))
    decreases |ls|
  {
    if ls == [] {
      EmptyInFront(rest);
    } else {
      var doc := if ls[0].Remark? then DocBehind(ls[0].comment, st.doc) else st.doc;
      var more := LeadsTokens(ls[1..]) + rest;
      Regrouped(LeadTokens(ls[0]), LeadsTokens(ls[1..]), rest);
      LeadsBegin(ls[1..], rest);
      ScanLead(ls[0], more, st, doc);
      ScanLeads(ls[1..], rest, st.(doc := doc));
    }
  }

  lemma {:induction false} ScanMember(ts: seq<Token>, rest: seq<Token>, st: Body)
    requires AllCollected(ts) && st.depth == 1
    requires st.member == [] && ts != [] ==> ts[0].kind != Comment && !Is(ts[0], '@')
    ensures RunBody(ts + rest, st) == RunBody(rest, st.(member := st.member + ts))
    decreases |ts|
  {
    if ts == [] {
      assert ts + rest == rest;
      NothingAdded(st.member);
    } else {
      assert Collected(ts[0]);
      var st' := st.(member := st.member + [ts[0]]);
      RunStep(ts + rest, st, 1, st');
      assert (ts + rest)[1..] == ts[1..] + rest;
      ScanMember(ts[1..], rest, st');
      assert st.member + ts == (st.member + [ts[0]]) + ts[1..];
    }
  }

  lemma ScanSemicolon(semicolon: Token, rest: seq<Token>, st: Body)
    requires IsSemicolon(semicolon) && st.depth == 1
    ensures RunBody([semicolon] + rest, st) == RunBody(rest, Flush(st))
  {
    RunStep([semicolon] + rest, st, 1, Flush(st));
    assert ([semicolon] + rest)[1..] == rest;
  }

  lemma ScanBlock(open: Token, body: seq<Token>, close: Token, rest: seq<Token>, st: Body)
    requires OpensBody(open) && Is(close, '}') && BracesClose(body, 0) && st.depth == 1 && st.member != []
    ensures RunBody(([open] + (body + [close])) + rest, st) == RunBody(rest, Flush(st))
  {
    PassGroup(open, body, close, rest, st);
    assert ([open] + (body + [close])) + rest == Braced(open, body, close, rest);
    assert Step(open, st).(depth := 1) == Flush(st);
  }

  /** An initialiser block leaves no trace: documentation in front of it waits for the next member. */
  lemma InitialisersPass(open: Token, body: seq<Token>, close: Token, rest: seq<Token>, st: Body)
    requires OpensBody(open) && Is(close, '}') && BracesClose(body, 0) && BetweenMembers(st)
    ensures RunBody(([open] + (body + [close])) + rest, st) == RunBody(rest, st)
  {
    PassGroup(open, body, close, rest, st);
    assert ([open] + (body + [close])) + rest == Braced(open, body, close, rest);
    assert Step(open, st).(depth := 1) == st;
  }

  lemma ScanEnding(e: Ending, rest: seq<Token>, st: Body)
    requires EndingFits(e) && st.depth == 1 && st.member != []
    ensures RunBody(EndingTokens(e) + rest, st) == RunBody(rest, Flush(st))
  {
    match e
    case Semicolon(mark) => ScanSemicolon(mark, rest, st);
    case Block(brace, body, endBrace) => ScanBlock(brace, body, endBrace, rest, st);
    case BlockAndSemicolon(brace, body, endBrace, mark) =>
      Regrouped([brace] + (body + [endBrace]), [mark], rest);
      ScanBlock(brace, body, endBrace, [mark] + rest, st);
      ScanSemicolon(mark, rest, Flush(st));
      assert Flush(Flush(st)) == Flush(st);
  }

  /** The state between members, with what has been read so far. */
  function Between(fields: seq<FieldInfo>, methods: seq<MethodInfo>): Body { Body(1, "", [], fields, methods) }

  function DeclaredTokens(d: Declared): seq<Token> { LeadsTokens(d.leads) + (MemberOf(d) + EndingTokens(d.ending)) }

  lemma ScanDeclared(d: Declared, rest: seq<Token>, fields: seq<FieldInfo>, methods: seq<MethodInfo>)
    requires DeclaredFits(d)
    ensures RunBody(DeclaredTokens(d) + rest, Between(fields, methods))
         == RunBody(rest, Between(fields + FieldRead(d), methods + MethodRead(d)))
  {
    var ts, ending := MemberOf(d), EndingTokens(d.ending);
    var st := Between(fields, methods);
    Regrouped(LeadsTokens(d.leads), ts + ending, rest);
    ScanLeads(d.leads, (ts + ending) + rest, st);
    var documented := st.(doc := LastDoc(d.leads, ""));
    Regrouped(ts, ending, rest);
    ScanMember(ts, ending + rest, documented);
    EmptyInFront(ts);
    var collected := documented.(member := ts);
    ScanEnding(d.ending, rest, collected);
    MemberAdded(d, fields, methods);
  }

  lemma EmptyInFront<T>(xs: seq<T>)
    ensures [] + xs == xs
  {
  }

  // ---------------------------------------------------------------- a whole body

  function BodyTokens(ds: seq<Declared>): seq<Token>
  {
    if ds == [] then [] else DeclaredTokens(ds[0]) + BodyTokens(ds[1..])
  }

  ghost function FieldsRead(ds: seq<Declared>): seq<FieldInfo>
  {
    if ds == [] then [] else FieldRead(ds[0]) + FieldsRead(ds[1..])
  }

  ghost function MethodsRead(ds: seq<Declared>): seq<MethodInfo>
  {
    if ds == [] then [] else MethodRead(ds[0]) + MethodsRead(ds[1..])
  }

  function FieldsWritten(ds: seq<Declared>): seq<FieldInfo>
  {
    if ds == [] then [] else FieldWritten(ds[0]) + FieldsWritten(ds[1..])
  }

  ghost function MethodsWritten(ds: seq<Declared>): seq<MethodInfo>
  {
    if ds == [] then [] else MethodWritten(ds[0]) + MethodsWritten(ds[1..])
  }

  ghost predicate AllPlain(ds: seq<Declared>)
  {
    forall k :: 0 <= k < |ds| ==> Plain(ds[k])
  }

  ghost predicate AllFit(ds: seq<Declared>)
  {
    forall k :: 0 <= k < |ds| ==> DeclaredFits(ds[k])
  }

  lemma {:induction false} ScanBody(ds: seq<Declared>, rest: seq<Token>, fields: seq<FieldInfo>,
      methods: seq<MethodInfo>)
    requires AllFit(ds)
    ensures RunBody(BodyTokens(ds) + rest, Between(fields, methods))
         == RunBody(rest, Between(fields + FieldsRead(ds), methods + MethodsRead(ds)))
    decreases |ds|
  {
    if ds == [] {
      EmptyInFront(rest);
      NothingAdded(fields);
      NothingAdded(methods);
    } else {
      var d, more := ds[0], BodyTokens(ds[1..]);
      Regrouped(DeclaredTokens(d), more, rest);
      ScanDeclared(d, more + rest, fields, methods);
      ScanBody(ds[1..], rest, fields + FieldRead(d), methods + MethodRead(d));
      Regrouped(fields, FieldRead(d), FieldsRead(ds[1..]));
      Regrouped(methods, MethodRead(d), MethodsRead(ds[1..]));
    }
  }

  /** Where nothing is read that was not written, lists are equal exactly if they are so part by part. */
  lemma SameParts<T>(x: seq<T>, y: seq<T>, xs: seq<T>, ys: seq<T>)
    requires |x| <= |y| && |xs| <= |ys|
    ensures x + xs == y + ys <==> x == y && xs == ys
  {
    if x + xs == y + ys {
      assert |x + xs| == |y + ys|;
      assert (x + xs)[..|x|] == x && (y + ys)[..|y|] == y && (x + xs)[|x|..] == xs && (y + ys)[|y|..] == ys;
    }
  }

  lemma ReadIsWritten(d: Declared)
    requires DeclaredFits(d)
    ensures |FieldRead(d)| <= |FieldWritten(d)| && |MethodRead(d)| <= |MethodWritten(d)|
  {
  }

  lemma {:induction false} ReadsAreWritten(ds: seq<Declared>)
    requires AllFit(ds)
    ensures |FieldsRead(ds)| <= |FieldsWritten(ds)| && |MethodsRead(ds)| <= |MethodsWritten(ds)|
    decreases |ds|
  {
    if ds != [] {
      ReadIsWritten(ds[0]);
      ReadsAreWritten(ds[1..]);
    }
  }

  /** The members of a body are read as they were written exactly if each of them is plain. */
  lemma {:induction false} BodyAsWritten(ds: seq<Declared>)
    requires AllFit(ds)
    ensures FieldsRead(ds) == FieldsWritten(ds) && MethodsRead(ds) == MethodsWritten(ds) <==> AllPlain(ds)
    decreases |ds|
  {
    if ds != [] {
      var d, more := ds[0], ds[1..];
      ReadIsWritten(d);
      ReadsAreWritten(more);
      ReadAsWritten(d);
      BodyAsWritten(more);
      SameParts(FieldRead(d), FieldWritten(d), FieldsRead(more), FieldsWritten(more));
      SameParts(MethodRead(d), MethodWritten(d), MethodsRead(more), MethodsWritten(more));
      assert AllPlain(ds) <==> Plain(d) && AllPlain(more);
    }
  }

  /** A body written out member by member, with comments, annotations, modifiers, initialisers, method bodies and
      nested types, is read member by member in their order; `trail` are comments behind the last member, and what
      follows the closing brace is left unread. The fields and methods are those that were written, constructors
      and nested types apart, exactly if each member is plain. */
  lemma BodyReadsBack(ds: seq<Declared>, trail: seq<Lead>, endBrace: Token, rest: seq<Token>)
    requires AllFit(ds) && LeadsFit(trail) && Is(endBrace, '}') && endBrace.kind == Symbol
    ensures var ts := BodyTokens(ds) + (LeadsTokens(trail) + ([endBrace] + rest));
      && RunBody(ts, BODY_START) == BodyEnd(FieldsRead(ds), MethodsRead(ds), rest)
      && (RunBody(ts, BODY_START) == BodyEnd(FieldsWritten(ds), MethodsWritten(ds), rest) <==> AllPlain(ds))
  {
    var end := [endBrace] + rest;
    ScanBody(ds, LeadsTokens(trail) + end, [], []);
    EmptyInFront(FieldsRead(ds));
    EmptyInFront(MethodsRead(ds));
    var st := Between(FieldsRead(ds), MethodsRead(ds));
    ScanLeads(trail, end, st);
    var last := st.(doc := LastDoc(trail, ""));
    RunStep(end, last, 1, last.(depth := 0));
    assert end[1..] == rest;
    BodyAsWritten(ds);
  }
}
