/** The structural parser: one index moving over the tokens, and the file it fills in. */
module Parser {
  import opened Chars
  import opened Text
  import opened Lexer
  import opened LexerTheorems
  import opened Decorators
  import opened Members
  import opened TypeBodies

  datatype TypeInfo = TypeInfo(
    kind: string, name: string, header: string, documentation: string, annotations: seq<string>,
    fields: seq<FieldInfo>, methods: seq<MethodInfo>, line: nat)

  datatype FileInfo = FileInfo(packageName: string, imports: map<string, string>, types: seq<TypeInfo>)

  datatype Analysis = File(file: FileInfo) | LexerPanic

  const EMPTY_FILE := FileInfo("", map[], [])

  // ---------------------------------------------------------------- what is read, from the unread tokens

  /** `joinQualifiedTokens`: the lexemes run together. */
  function Spelled(ts: seq<Token>): string
  {
    if ts == [] then "" else ts[0].lexeme + Spelled(ts[1..])
  }

  /** A package or import declaration, behind its keyword: up to and with the semicolon. */
  function QualifiedLen(ts: seq<Token>): (n: nat)
    ensures n <= |ts|
  {
    if Find(ts, ";") < |ts| then Find(ts, ";") + 1 else |ts|
  }

  function QualifiedName(ts: seq<Token>): string { TrimSpace(Spelled(ts[..Find(ts, ";")])) }

  function LastSegment(s: string): string
    decreases |s|
  {
    if s == "" || s[|s| - 1] == '.' then "" else LastSegment(s[..|s| - 1]) + [s[|s| - 1]]
  }

  /** The first name with a spelling, or no spelling. */
  function FirstName(ts: seq<Token>): string
  {
    if ts == [] then ""
    else if IsName(ts[0]) && ts[0].lexeme != "" then ts[0].lexeme
    else FirstName(ts[1..])
  }

  /** Every token begins within the text and none begins before an earlier one. */
  ghost predicate InText(ts: seq<Token>, text: string)
  {
    && (forall k :: 0 <= k < |ts| ==> ts[k].offset <= |text|)
    && (forall j, k :: 0 <= j < k < |ts| ==> ts[j].offset <= ts[k].offset)
  }

  /** The declaration of a type up to its brace, behind the keyword. */
  function HeaderLen(ts: seq<Token>): (n: nat)
    ensures n <= |ts|
  {
    if Find(ts, "{") < |ts| then Find(ts, "{") + 1 else |ts|
  }

  function Header(text: string, ts: seq<Token>): string
    requires ts != [] && InText(ts, text)
  {
    var brace := Find(ts[1..], "{");
    if brace == |ts| - 1 then "" else TrimSpace(text[ts[0].offset..ts[1 + brace].offset])
  }

  /** The type whose keyword is the first token. */
  function TypeAt(text: string, ts: seq<Token>, doc: string, annotations: seq<string>): TypeInfo
    requires ts != [] && InText(ts, text)
  {
    var n := HeaderLen(ts[1..]);
    var body := RunBody(ts[1..][n..], BODY_START);
    TypeInfo(ts[0].lexeme, FirstName(ts[1..][..n]), Header(text, ts), doc, annotations, body.fields, body.methods,
        ts[0].line)
  }

  function TypeRest(ts: seq<Token>): seq<Token>
    requires ts != []
  {
    RunBody(ts[1..][HeaderLen(ts[1..])..], BODY_START).rest
  }

  /** The state of the outer loop, apart from the index. */
  datatype Outer = Outer(doc: string, annotations: seq<string>, file: FileInfo)

  function Imported(file: FileInfo, name: string): FileInfo
  {
    if name == "" then file else file.(imports := file.imports[LastSegment(name) := name])
  }

  function Typed(file: FileInfo, t: TypeInfo): FileInfo
  {
    if t.name == "" then file else file.(types := file.types + [t])
  }

  /** How many tokens the declaration of a type takes, its body included. */
  function TypeLen(ts: seq<Token>): (n: nat)
    requires ts != []
    ensures 1 <= n <= |ts| && ts[n..] == TypeRest(ts)
  {
    TypeRestUnread(ts);
    |ts| - |TypeRest(ts)|
  }

  lemma TypeRestUnread(ts: seq<Token>)
    requires ts != []
    ensures |TypeRest(ts)| < |ts| && ts[|ts| - |TypeRest(ts)|..] == TypeRest(ts)
  {
    var n := 1 + HeaderLen(ts[1..]);
    assert ts[1..][n - 1..] == ts[n..];
    RestIsUnread(ts[n..], BODY_START);
    var k := |ts[n..]| - |TypeRest(ts)|;
    assert ts[n..][k..] == ts[n + k..];
  }

  /** One turn of the outer loop: how many tokens it takes, always at least one, and the state behind it. */
  function TurnLen(ts: seq<Token>): (n: nat)
    requires ts != []
    ensures 1 <= n <= |ts|
  {
    var t := ts[0];
    if t.kind == Comment then 1
    else if Is(t, '@') then 1 + AnnotationSpan(ts[1..])
    else if t.lexeme == "package" || t.lexeme == "import" then 1 + QualifiedLen(ts[1..])
    else if IsTypeKeyword(t) then TypeLen(ts)
    else 1
  }

  function TurnState(text: string, ts: seq<Token>, st: Outer): Outer
    requires ts != [] && InText(ts, text)
  {
    var t, rest := ts[0], ts[1..];
    if t.kind == Comment then (if IsDocComment(t.lexeme) then st.(doc := CleanDoc(t.lexeme)) else st)
    else if Is(t, '@') then
      var name := Spelled(rest[..NamePathLen(rest)]);
      if name == "" then st else st.(annotations := st.annotations + [name])
    else if t.lexeme == "package" then Outer("", [], st.file.(packageName := QualifiedName(rest)))
    else if t.lexeme == "import" then Outer("", [], Imported(st.file, QualifiedName(rest)))
    else if IsTypeKeyword(t) then Outer("", [], Typed(st.file, TypeAt(text, ts, st.doc, st.annotations)))
    else if IsModifier(t) then st
    else Outer("", [], st.file)
  }

  lemma SuffixInText(ts: seq<Token>, text: string, n: nat)
    requires InText(ts, text) && n <= |ts|
    ensures InText(ts[n..], text)
  {
  }

  function FileOf(text: string, ts: seq<Token>, st: Outer): FileInfo
    requires InText(ts, text)
    decreases |ts|
  {
    if ts == [] then st.file
    else
      SuffixInText(ts, text, TurnLen(ts));
      FileOf(text, ts[TurnLen(ts)..], TurnState(text, ts, st))
  }

  // ---------------------------------------------------------------- the parser object

  method JoinQualifiedTokens(tokens: seq<Token>) returns (b: string)
    ensures b == Spelled(tokens)
  {
    b := "";
    assert tokens[0..] == tokens;
    for i := 0 to |tokens|
      invariant Spelled(tokens) == b + Spelled(tokens[i..])
    {
      assert tokens[i..][1..] == tokens[i + 1..];
      b := b + tokens[i].lexeme;
    }
  }

  method CleanDocComment(text: string) returns (doc: string)
    ensures doc == CleanDoc(text)
  {
    var lines := Lines(text);
    var parts: seq<string> := [];
    assert lines[0..] == lines;
    assert [] + NonEmpty(lines) == NonEmpty(lines);
    for i := 0 to |lines|
      invariant NonEmpty(lines) == parts + NonEmpty(lines[i..])
    {
      var trimmed := CleanLine(lines[i]);
      assert lines[i..][1..] == lines[i + 1..];
      PartsStep(parts, lines[i..], trimmed);
      parts := parts + Kept(trimmed);
    }
    assert parts + [] == parts;
    doc := JoinParts(parts);
  }

  lemma PartsStep(parts: seq<string>, lines: seq<string>, line: string)
    requires lines != [] && line == CleanLine(lines[0])
    ensures parts + NonEmpty(lines) == (parts + Kept(line)) + NonEmpty(lines[1..])
  {
    Regrouped(parts, Kept(line), NonEmpty(lines[1..]));
  }

  class AnalysisParser {
    const text: string
    const tokens: seq<Token>
    var index: nat
    var file: FileInfo

    constructor (text: string, tokens: seq<Token>)
      ensures this.text == text && this.tokens == tokens && index == 0 && file == EMPTY_FILE
    {
      this.text := text;
      this.tokens := tokens;
      index := 0;
      file := EMPTY_FILE;
    }

    method SkipBalanced()
      requires index < |tokens| && Is(tokens[index], '(')
      modifies this`index
      ensures old(index) < index <= |tokens|
      ensures index == old(index) + 1 + GroupLen(tokens[old(index) + 1..], 1)
    {
      ghost var start := index;
      var depth := 0;
      while index < |tokens|
        invariant start <= index <= |tokens|
        invariant index == start ==> depth == 0
        invariant index > start ==> depth > 0
        invariant index > start ==>
          GroupLen(tokens[start + 1..], 1) == index - start - 1 + GroupLen(tokens[index..], depth)
      {
        assert tokens[index..][1..] == tokens[index + 1..];
        if Is(tokens[index], '(') {
          depth := depth + 1;
        } else if Is(tokens[index], ')') {
          depth := depth - 1;
          if depth == 0 {
            index := index + 1;
            return;
          }
        }
        index := index + 1;
      }
    }

    /** The qualified name of an annotation. */
    method SkipNamePath()
      requires index <= |tokens|
      modifies this`index
      ensures old(index) <= index <= |tokens|
      ensures index == old(index) + NamePathLen(tokens[old(index)..])
    {
      ghost var start := index;
      if index < |tokens| && IsName(tokens[index]) {
        assert tokens[index..][1..] == tokens[index + 1..];
        index := index + 1;
        while index + 1 < |tokens| && Is(tokens[index], '.') && IsName(tokens[index + 1])
          invariant start < index <= |tokens|
          invariant NamePathLen(tokens[start..]) == index - start + DottedLen(tokens[index..])
        {
          assert tokens[index..][2..] == tokens[index + 2..];
          index := index + 2;
        }
      }
    }

    method ParseAnnotation() returns (name: string)
      requires index < |tokens|
      modifies this`index
      ensures old(index) < index <= |tokens|
      ensures index == old(index) + 1 + AnnotationSpan(tokens[old(index) + 1..])
      ensures name == Spelled(tokens[old(index) + 1..][..NamePathLen(tokens[old(index) + 1..])])
    {
      index := index + 1;
      var start := index;
      ghost var rest := tokens[start..];
      SkipNamePath();
      assert tokens[start..index] == rest[..index - start];
      name := JoinQualifiedTokens(tokens[start..index]);
      if index < |tokens| && Is(tokens[index], '(') {
        assert rest[index - start + 1..] == tokens[index + 1..];
        SkipBalanced();
      }
    }

    method ParseQualifiedName() returns (name: string)
      requires index < |tokens|
      modifies this`index
      ensures old(index) < index <= |tokens|
      ensures index == old(index) + 1 + QualifiedLen(tokens[old(index) + 1..])
      ensures name == QualifiedName(tokens[old(index) + 1..])
    {
      index := index + 1;
      var start := index;
      ghost var rest := tokens[start..];
      while index < |tokens|
        invariant start <= index <= |tokens|
        invariant Find(rest, ";") == index - start + Find(tokens[index..], ";")
      {
        if tokens[index].lexeme == ";" {
          break;
        }
        assert tokens[index..][1..] == tokens[index + 1..];
        index := index + 1;
      }
      assert tokens[start..index] == rest[..index - start];
      var joined := JoinQualifiedTokens(tokens[start..index]);
      if index < |tokens| && tokens[index].lexeme == ";" {
        index := index + 1;
      }
      name := TrimSpace(joined);
    }

    /** A member of a type goes to the methods or the fields; the annotations of members are left out. */
    method ParseMemberTokens(member: seq<Token>, doc: string, fields: seq<FieldInfo>, methods: seq<MethodInfo>)
      returns (fields': seq<FieldInfo>, methods': seq<MethodInfo>)
      ensures (fields', methods') == AddMember(member, doc, fields, methods)
    {
      fields', methods' := fields, methods;
      if |member| == 0 {
        return;
      }
      var nested := LooksLikeNestedType(member);
      if nested {
        return;
      }
      var openIndex := IndexOf(member, "(");
      var eqIndex := IndexOf(member, "=");
      if openIndex >= 0 && (eqIndex < 0 || openIndex < eqIndex) {
        var m := ParseMethodInfo(member, doc);
        if m.name != "" {
          methods' := methods + [m];
        }
        return;
      }
      var field := ParseFieldInfo(member);
      if field.name != "" {
        fields' := fields + [field];
      }
    }

    method ParseTypeBody() returns (fields: seq<FieldInfo>, methods: seq<MethodInfo>)
      requires index <= |tokens|
      modifies this`index
      ensures old(index) <= index <= |tokens|
      ensures BodyEnd(fields, methods, tokens[index..]) == RunBody(tokens[old(index)..], BODY_START)
    {
      fields, methods := [], [];
      var bodyDepth := 1;
      var pendingDoc := "";
      var memberTokens: seq<Token> := [];
      ghost var rest, st := tokens[index..], BODY_START;
      ghost var end := RunBody(rest, st);
      while index < |tokens|
        invariant old(index) <= index <= |tokens| && bodyDepth > 0 && rest == tokens[index..]
        invariant st == Body(bodyDepth, pendingDoc, memberTokens, fields, methods)
        invariant GoesOn(rest, st, end)
        decreases |tokens| - index
      {
        var tok := tokens[index];
        ghost var start, before, was := index, rest, st;
        st := Step(tok, was);
        if tok.kind == Comment && bodyDepth == 1 && |memberTokens| == 0 {
          if IsDocComment(tok.lexeme) {
            pendingDoc := CleanDocComment(tok.lexeme);
          }
          index := index + 1;
          rest := BodyStep(tokens, start, index, before, was, st, end);
          continue;
        }
        if bodyDepth == 1 && |memberTokens| == 0 && Is(tok, '@') {
          assert before[1..] == tokens[index + 1..];
          var annotation := ParseAnnotation();
          rest := BodyStep(tokens, start, index, before, was, st, end);
          continue;
        }
        if Is(tok, '{') {
          if bodyDepth == 1 && |memberTokens| > 0 {
            fields, methods := ParseMemberTokens(memberTokens, pendingDoc, fields, methods);
            memberTokens := [];
            pendingDoc := "";
          }
          bodyDepth := bodyDepth + 1;
          index := index + 1;
        } else if Is(tok, '}') {
          bodyDepth := bodyDepth - 1;
          index := index + 1;
          if bodyDepth == 0 {
            rest := BodyStep(tokens, start, index, before, was, st, end);
            return;
          }
        } else if Is(tok, ';') {
          if bodyDepth == 1 {
            fields, methods := ParseMemberTokens(memberTokens, pendingDoc, fields, methods);
            memberTokens := [];
            pendingDoc := "";
          }
          index := index + 1;
        } else {
          if bodyDepth == 1 {
            memberTokens := memberTokens + [tok];
          }
          index := index + 1;
        }
        rest := BodyStep(tokens, start, index, before, was, st, end);
      }
      BodyDone(rest, st, end);
    }

    /** The loop of parseType: the name and the text up to the brace. */
    method ParseHeader() returns (name: string, header: string)
      requires index < |tokens| && InText(tokens, text)
      modifies this`index
      ensures old(index) < index <= |tokens|
      ensures var rest := tokens[old(index) + 1..];
        && index == old(index) + 1 + HeaderLen(rest)
        && name == FirstName(rest[..HeaderLen(rest)])
        && InText(tokens[old(index)..], text) && header == Header(text, tokens[old(index)..])
    {
      var headerStart := index;
      ghost var ts := tokens[index..];
      SuffixInText(tokens, text, index);
      index := index + 1;
      ghost var rest := tokens[index..];
      assert ts[1..] == rest;
      name, header := "", "";
      ghost var k := 0;
      while index < |tokens|
        invariant headerStart < index <= |tokens| && k == index - headerStart - 1
        invariant HeaderSoFar(rest, k, name)
        invariant header == ""
      {
        var tok := tokens[index];
        ghost var before := name;
        if name == "" && IsName(tok) {
          name := tok.lexeme;
        }
        HeaderStep(rest, k, before, name);
        if tok.lexeme == "{" {
          header := TrimSpace(text[tokens[headerStart].offset..tok.offset]);
          index := index + 1;
          return;
        }
        index := index + 1;
        k := k + 1;
      }
      HeaderEnd(rest, name);
    }

    method ParseType(doc: string, annotations: seq<string>) returns (t: TypeInfo)
      requires index < |tokens| && InText(tokens, text)
      modifies this`index
      ensures old(index) < index <= |tokens|
      ensures InText(tokens[old(index)..], text)
      ensures t == TypeAt(text, tokens[old(index)..], doc, annotations)
      ensures index == old(index) + TypeLen(tokens[old(index)..])
    {
      var typeTok := tokens[index];
      ghost var start, rest := index, tokens[index + 1..];
      assert tokens[index..][1..] == rest;
      var name, header := ParseHeader();
      assert rest[HeaderLen(rest)..] == tokens[index..];
      var fields, methods := ParseTypeBody();
      assert tokens[index..] == TypeRest(tokens[start..]);
      t := TypeInfo(typeTok.lexeme, name, header, doc, annotations, fields, methods, typeTok.line);
    }

    method Parse()
      requires index == 0 && file == EMPTY_FILE && InText(tokens, text)
      modifies this
      ensures index == |tokens|
      ensures file == FileOf(text, tokens, Outer("", [], EMPTY_FILE))
    {
      var pendingDoc := "";
      var pendingAnnotations: seq<string> := [];
      assert tokens[0..] == tokens;
      ghost var ts, st := tokens[index..], Outer("", [], EMPTY_FILE);
      ghost var end := FileOf(text, tokens, st);
      while index < |tokens|
        invariant index <= |tokens| && ts == tokens[index..]
        invariant st == Outer(pendingDoc, pendingAnnotations, file)
        invariant FileGoesOn(text, ts, st, end)
        decreases |tokens| - index
      {
        var tok := tokens[index];
        ghost var start, before, was := index, ts, st;
        assert ts[1..] == tokens[index + 1..];
        st := TurnState(text, ts, was);
        if tok.kind == Comment {
          if IsDocComment(tok.lexeme) {
            pendingDoc := CleanDocComment(tok.lexeme);
          }
          index := index + 1;
        } else if Is(tok, '@') {
          var annotation := ParseAnnotation();
          if annotation != "" {
            pendingAnnotations := pendingAnnotations + [annotation];
          }
        } else if tok.lexeme == "package" {
          var name := ParseQualifiedName();
          file := file.(packageName := name);
          pendingDoc := "";
          pendingAnnotations := [];
        } else if tok.lexeme == "import" {
          var name := ParseQualifiedName();
          if name != "" {
            file := file.(imports := file.imports[LastSegment(name) := name]);
          }
          pendingDoc := "";
          pendingAnnotations := [];
        } else if IsTypeKeyword(tok) {
          var typeInfo := ParseType(pendingDoc, pendingAnnotations);
          if typeInfo.name != "" {
            file := file.(types := file.types + [typeInfo]);
          }
          pendingDoc := "";
          pendingAnnotations := [];
        } else {
          if !IsModifier(tok) {
            pendingDoc := "";
            pendingAnnotations := [];
          }
          index := index + 1;
        }
        ts := TurnTaken(text, tokens, start, index, before, was, st, end);
      }
    }
  }

  /** The rest of a body, read from state st, gives `end`. */
  ghost predicate GoesOn(ts: seq<Token>, st: Body, end: BodyEnd)
  {
    st.depth > 0 && RunBody(ts, st) == end
  }

  /** The scan of a body has moved from token i to token i'. */
  lemma BodyStep(tokens: seq<Token>, i: nat, i': nat, ts: seq<Token>, st: Body, st': Body, end: BodyEnd)
    returns (rest: seq<Token>)
    requires i < |tokens| && ts == tokens[i..] && GoesOn(ts, st, end)
    requires i' == i + StepLen(ts, st) && st' == Step(ts[0], st)
    ensures i' <= |tokens| && rest == tokens[i'..]
    ensures if st'.depth == 0 then BodyEnd(st'.fields, st'.methods, rest) == end else GoesOn(rest, st', end)
  {
    rest := ts[i' - i..];
    RunStep(ts, st, i' - i, st');
    DropTwice(tokens, i, i' - i);
  }

  lemma BodyDone(rest: seq<Token>, st: Body, end: BodyEnd)
    requires rest == [] && GoesOn(rest, st, end)
    ensures BodyEnd(st.fields, st.methods, rest) == end
  {
  }

  /** The header loop has passed k tokens and no brace; `name` is the first name among them. */
  ghost predicate HeaderSoFar(ts: seq<Token>, k: nat, name: string)
  {
    k <= |ts| && Find(ts, "{") >= k && FirstName(ts[..k]) == name
  }

  lemma {:induction false} FirstNameSnoc(ts: seq<Token>, t: Token)
    ensures FirstName(ts + [t]) == if FirstName(ts) != "" then FirstName(ts) else if IsName(t) then t.lexeme else ""
    decreases |ts|
  {
    if ts == [] {
      assert [t][1..] == [];
    } else {
      assert (ts + [t])[1..] == ts[1..] + [t];
      FirstNameSnoc(ts[1..], t);
    }
  }

  lemma BraceStep(ts: seq<Token>, k: nat, lexeme: string)
    requires k < |ts| && Find(ts, lexeme) >= k
    ensures ts[k].lexeme == lexeme ==> Find(ts, lexeme) == k
    ensures ts[k].lexeme != lexeme ==> Find(ts, lexeme) >= k + 1
  {
  }

  function NameBehind(name: string, t: Token): string
  {
    if name == "" && IsName(t) then t.lexeme else name
  }

  lemma NameStep(ts: seq<Token>, k: nat)
    requires k < |ts|
    ensures FirstName(ts[..k + 1]) == NameBehind(FirstName(ts[..k]), ts[k])
  {
    assert ts[..k + 1] == ts[..k] + [ts[k]];
    FirstNameSnoc(ts[..k], ts[k]);
  }

  lemma HeaderStep(ts: seq<Token>, k: nat, name: string, name': string)
    requires k < |ts| && HeaderSoFar(ts, k, name) && name' == NameBehind(name, ts[k])
    ensures if ts[k].lexeme == "{" then Find(ts, "{") == k && HeaderLen(ts) == k + 1
        && name' == FirstName(ts[..HeaderLen(ts)])
            else HeaderSoFar(ts, k + 1, name')
  {
    BraceStep(ts, k, "{");
    NameStep(ts, k);
  }

  lemma HeaderEnd(ts: seq<Token>, name: string)
    requires HeaderSoFar(ts, |ts|, name)
    ensures Find(ts, "{") == |ts| && HeaderLen(ts) == |ts| && name == FirstName(ts[..HeaderLen(ts)])
  {
  }

  /** The rest of the file, read from state st, gives `end`. */
  ghost predicate FileGoesOn(text: string, ts: seq<Token>, st: Outer, end: FileInfo)
  {
    InText(ts, text) && FileOf(text, ts, st) == end
  }

  /** One turn of the outer loop. */
  lemma FileStep(text: string, ts: seq<Token>, st: Outer, n: nat, st': Outer)
    requires ts != [] && InText(ts, text) && n == TurnLen(ts) && st' == TurnState(text, ts, st)
    ensures InText(ts[n..], text) && FileOf(text, ts, st) == FileOf(text, ts[n..], st')
  {
    SuffixInText(ts, text, n);
  }

  /** The outer loop has moved from token i to token i'. */
  lemma TurnTaken(text: string, tokens: seq<Token>, i: nat, i': nat, ts: seq<Token>, st: Outer, st': Outer,
      end: FileInfo) returns (rest: seq<Token>)
    requires i < |tokens| && ts == tokens[i..] && FileGoesOn(text, ts, st, end)
    requires i' == i + TurnLen(ts) && st' == TurnState(text, ts, st)
    ensures i' <= |tokens| && rest == tokens[i'..] && FileGoesOn(text, rest, st', end)
  {
    rest := ts[i' - i..];
    FileStep(text, ts, st, i' - i, st');
    DropTwice(tokens, i, i' - i);
  }

  // ---------------------------------------------------------------- a whole document

  lemma LexedInText(kw: set<string>, text: string)
    ensures var r := LexFrom(kw, text, 0, Pos(0, 0)); r.Tokens? ==> InText(r.tokens, text)
  {
    LexLossless(kw, text);
    var r := LexFrom(kw, text, 0, Pos(0, 0));
    if r.Tokens? {
      assert forall k :: 0 <= k < |r.tokens| ==> InPlace(text, r.tokens[k]);
    }
  }

  ghost function AnalysisOf(kw: set<string>, text: string): Analysis
  {
    LexedInText(kw, text);
    match LexFrom(kw, text, 0, Pos(0, 0))
    case Panic => LexerPanic
    case Tokens(ts) => File(FileOf(text, ts, Outer("", [], EMPTY_FILE)))
  }

  method Analyze(text: string) returns (r: Analysis)
    ensures r == AnalysisOf(JAVA_KEYWORDS, text)
  {
    ghost var kw := JAVA_KEYWORDS;
    var lexed := Lex(JAVA_KEYWORDS, text);
    if lexed.Panic? {
      return LexerPanic;
    }
    LexedInText(kw, text);
    var parser := new AnalysisParser(text, lexed.tokens);
    parser.Parse();
    return File(parser.file);
  }
}
