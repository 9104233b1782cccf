/** Reading one member of a type, a method or a field, from its tokens. */
module Members {
  import opened Chars
  import opened Lexer
  import opened TypePrinter
  import opened Decorators

  datatype ParamInfo = ParamInfo(name: string, typ: string)

  datatype MethodInfo = MethodInfo(
    name: string, returnType: string, params: seq<ParamInfo>, documentation: string, line: nat, isStatic: bool)

  datatype FieldInfo = FieldInfo(name: string, typ: string, line: nat)

  /** The records returned when nothing was recognised; an empty name marks them. */
  const NO_METHOD := MethodInfo("", "", [], "", 0, false)

  const NO_FIELD := FieldInfo("", "", 0)

  const NO_PARAM := ParamInfo("", "")

  function TrimPrefix(s: string, prefix: string): string
  {
    if prefix <= s then s[|prefix|..] else s
  }

  function TypeName(ts: seq<Token>): string
  {
    TrimPrefix(TrimSpace(Joined(ts)), "java.lang.")
  }

  /** A type is named as it is printed, without `java.lang.` in front. */
  lemma TypeNameIs(ts: seq<Token>)
    requires ts != [] && Solid(ts[0].lexeme) && Solid(ts[|ts| - 1].lexeme)
    ensures Printed(ts) == TypeName(ts) || Printed(ts) == "java.lang." + TypeName(ts)
    ensures Printed(ts) == TypeName(ts) <==> !("java.lang." <= Printed(ts))
  {
    JoinedIsPrint(ts);
    SolidStays(Printed(ts));
    var s, prefix := Printed(ts), "java.lang.";
    if prefix <= s {
      assert s == prefix + s[|prefix|..];
    }
  }

  /** The first position of a spelling, or the length. */
  function Find(ts: seq<Token>, lexeme: string): (n: nat)
    ensures n <= |ts|
    ensures n < |ts| ==> ts[n].lexeme == lexeme
    ensures forall k :: 0 <= k < n ==> ts[k].lexeme != lexeme
  {
    if ts == [] || ts[0].lexeme == lexeme then 0 else 1 + Find(ts[1..], lexeme)
  }

  method IndexOf(tokens: seq<Token>, lexeme: string) returns (index: int)
    ensures index == if Find(tokens, lexeme) < |tokens| then Find(tokens, lexeme) else -1
  {
    var i := 0;
    assert tokens[0..] == tokens;
    while i < |tokens|
      invariant 0 <= i <= |tokens|
      invariant Find(tokens, lexeme) == i + Find(tokens[i..], lexeme)
    {
      if tokens[i].lexeme == lexeme {
        return i;
      }
      assert tokens[i..][1..] == tokens[i + 1..];
      i := i + 1;
    }
    return -1;
  }

  /** How far the parenthesis that closes the innermost of `depth` open ones is away, or the length. */
  function CloseLen(ts: seq<Token>, depth: nat): (n: nat)
    requires depth > 0
    ensures n <= |ts|
  {
    if ts == [] || (Is(ts[0], ')') && depth == 1) then 0
    else 1 + CloseLen(ts[1..], if Is(ts[0], '(') then depth + 1 else if Is(ts[0], ')') then depth - 1 else depth)
  }

  lemma {:induction false} CloseIsFirst(ts: seq<Token>, depth: nat, k: nat)
    requires depth > 0 && k <= |ts|
    ensures k == CloseLen(ts, depth) < |ts| ==> Is(ts[k], ')') && Balanced(ts[..k], depth - 1)
    ensures k < |ts| && Is(ts[k], ')') && Balanced(ts[..k], depth - 1) ==> k == CloseLen(ts, depth)
    decreases |ts|
  {
    if ts != [] {
      var d := if Is(ts[0], '(') then depth + 1 else if Is(ts[0], ')') then depth - 1 else depth;
      if k > 0 {
        assert ts[..k][1..] == ts[1..][..k - 1];
        if d > 0 {
          CloseIsFirst(ts[1..], d, k - 1);
        }
      }
    }
  }

  /** i is the parenthesis behind openIndex with balanced tokens in between, or there is none. */
  ghost predicate ClosesAt(tokens: seq<Token>, openIndex: nat, i: nat)
    requires openIndex < i <= |tokens|
  {
    && (i < |tokens| ==> Is(tokens[i], ')') && Balanced(tokens[openIndex + 1..i], 0))
    && (i == |tokens| ==> forall k :: openIndex < k < |tokens| && Is(tokens[k], ')') ==>
        !Balanced(tokens[openIndex + 1..k], 0))
  }

  /** The parenthesis that closes the one at openIndex, the first with balanced tokens between them. */
  method MatchingParen(tokens: seq<Token>, openIndex: nat) returns (i: nat)
    requires openIndex < |tokens| && Is(tokens[openIndex], '(')
    ensures openIndex < i <= |tokens|
    ensures i == openIndex + 1 + CloseLen(tokens[openIndex + 1..], 1)
    ensures ClosesAt(tokens, openIndex, i)
  {
    ghost var rest := tokens[openIndex + 1..];
    var depth := 0;
    i := openIndex;
    while i < |tokens|
      invariant openIndex <= i <= |tokens|
      invariant i == openIndex ==> depth == 0
      invariant i > openIndex ==> depth > 0 && CloseLen(rest, 1) == i - openIndex - 1 + CloseLen(tokens[i..], depth)
    {
      if Is(tokens[i], '(') {
        depth := depth + 1;
      } else if Is(tokens[i], ')') {
        depth := depth - 1;
        if depth == 0 {
          break;
        }
      }
      assert tokens[i..][1..] == tokens[i + 1..];
      i := i + 1;
    }
    assert i == openIndex + 1 + CloseLen(rest, 1);
    forall k | openIndex < k <= i && k < |tokens|
      ensures k == i ==> Is(tokens[k], ')') && Balanced(tokens[openIndex + 1..k], 0)
      ensures i == |tokens| && Is(tokens[k], ')') ==> !Balanced(tokens[openIndex + 1..k], 0)
    {
      CloseIsFirst(rest, 1, k - openIndex - 1);
      assert rest[..k - openIndex - 1] == tokens[openIndex + 1..k] && rest[k - openIndex - 1] == tokens[k];
    }
  }

  // ---------------------------------------------------------------- parameters

  /** The parameter whose tokens are left when annotations and modifiers are stripped. */
  function ParamFrom(usable: seq<Token>): ParamInfo
  {
    if |usable| < 2 then NO_PARAM
    else ParamInfo(usable[|usable| - 1].lexeme, TypeName(usable[..|usable| - 1]))
  }

  function ParamOf(ts: seq<Token>): ParamInfo { ParamFrom(Strip(ts, 0)) }

  function IfNamed(p: ParamInfo): seq<ParamInfo>
  {
    if p.name != "" then [p] else []
  }

  /** A way to read one parameter from its tokens. */
  type ParamReader = seq<Token> -> ParamInfo

  /** The stretches between the commas outside angle brackets. */
  function Segments(ts: seq<Token>, angleDepth: nat): (r: seq<seq<Token>>)
    ensures r != []
  {
    if ts == [] then [[]]
    else if angleDepth == 0 && Is(ts[0], ',') then [[]] + Segments(ts[1..], angleDepth)
    else Behind([ts[0]], Segments(ts[1..], Deeper(angleDepth, ts[0])))
  }

  function Behind(head: seq<Token>, segments: seq<seq<Token>>): seq<seq<Token>>
    requires segments != []
  {
    [head + segments[0]] + segments[1..]
  }

  function NamedParams(segments: seq<seq<Token>>, read: ParamReader): seq<ParamInfo>
  {
    if segments == [] then [] else IfNamed(read(segments[0])) + NamedParams(segments[1..], read)
  }

  /** The parameters of a list, each read by `read`; those without a name are dropped. */
  function ParamsOf(ts: seq<Token>, read: ParamReader): seq<ParamInfo>
  {
    if ts == [] then [] else NamedParams(Segments(ts, 0), read)
  }

  method ParseSingleParam(tokens: seq<Token>) returns (p: ParamInfo)
    ensures p == ParamOf(tokens)
  {
    var usable := StripDecorators(tokens);
    if |usable| < 2 {
      return NO_PARAM;
    }
    var joined := JoinTypeTokens(usable[..|usable| - 1]);
    return ParamInfo(usable[|usable| - 1].lexeme, TrimPrefix(TrimSpace(joined), "java.lang."));
  }

  /** The parameters still to come when the current one has begun with `head`. */
  function Pending(head: seq<Token>, ts: seq<Token>, angleDepth: nat, read: ParamReader): seq<ParamInfo>
  {
    NamedParams(Behind(head, Segments(ts, angleDepth)), read)
  }

  lemma TakeToken(head: seq<Token>, ts: seq<Token>, angleDepth: nat, read: ParamReader)
    requires ts != [] && !(angleDepth == 0 && Is(ts[0], ','))
    ensures Pending(head, ts, angleDepth, read) == Pending(head + [ts[0]], ts[1..], Deeper(angleDepth, ts[0]), read)
  {
    var segments := Segments(ts[1..], Deeper(angleDepth, ts[0]));
    assert head + ([ts[0]] + segments[0]) == (head + [ts[0]]) + segments[0];
  }

  lemma BehindNothing(segments: seq<seq<Token>>)
    requires segments != []
    ensures Behind([], segments) == segments
  {
    assert [] + segments[0] == segments[0];
  }

  lemma TakeComma(head: seq<Token>, ts: seq<Token>, read: ParamReader)
    requires ts != [] && Is(ts[0], ',')
    ensures Pending(head, ts, 0, read) == IfNamed(read(head)) + Pending([], ts[1..], 0, read)
  {
    var rest := Segments(ts[1..], 0);
    BehindNothing(rest);
    assert Segments(ts, 0) == [[]] + rest;
    FirstSegment(head, rest, read);
  }

  lemma FirstSegment(head: seq<Token>, rest: seq<seq<Token>>, read: ParamReader)
    ensures NamedParams(Behind(head, [[]] + rest), read) == IfNamed(read(head)) + NamedParams(rest, read)
  {
    var all := Behind(head, [[]] + rest);
    assert head + [] == head;
    assert all[0] == head && all[1..] == rest;
  }

  lemma TakeNothing(head: seq<Token>, angleDepth: nat, read: ParamReader)
    ensures Pending(head, [], angleDepth, read) == IfNamed(read(head))
  {
    FirstSegment(head, [], read);
    assert [[]] + [] == Segments([], angleDepth);
    assert IfNamed(read(head)) + [] == IfNamed(read(head));
  }

  /** The loop has found `params`, the current parameter began at `start`, and i is next. */
  ghost predicate ParamsSoFar(tokens: seq<Token>, read: ParamReader, params: seq<ParamInfo>, start: nat, i: nat,
      angleDepth: nat)
    requires start <= i <= |tokens|
  {
    ParamsOf(tokens, read) == params + Pending(tokens[start..i], tokens[i..], angleDepth, read)
  }

  lemma ParamsStart(tokens: seq<Token>, read: ParamReader)
    requires tokens != []
    ensures ParamsSoFar(tokens, read, [], 0, 0, 0)
  {
    assert tokens[0..] == tokens && tokens[0..0] == [];
    BehindNothing(Segments(tokens, 0));
  }

  lemma ParamsComma(tokens: seq<Token>, read: ParamReader, params: seq<ParamInfo>, start: nat, i: nat)
    requires start <= i < |tokens| && Is(tokens[i], ',') && ParamsSoFar(tokens, read, params, start, i, 0)
    ensures ParamsSoFar(tokens, read, params + IfNamed(read(tokens[start..i])), i + 1, i + 1, 0)
  {
    var head, rest := tokens[start..i], tokens[i..];
    TakeComma(head, rest, read);
    assert rest[1..] == tokens[i + 1..];
    assert tokens[i + 1..i + 1] == [];
    Regrouped(params, IfNamed(read(head)), Pending([], rest[1..], 0, read));
  }

  lemma ParamsToken(tokens: seq<Token>, read: ParamReader, params: seq<ParamInfo>, start: nat, i: nat, angleDepth: nat,
      deeper: nat)
    requires start <= i < |tokens| && !(angleDepth == 0 && Is(tokens[i], ','))
    requires deeper == Deeper(angleDepth, tokens[i])
    requires ParamsSoFar(tokens, read, params, start, i, angleDepth)
    ensures ParamsSoFar(tokens, read, params, start, i + 1, deeper)
  {
    var head, rest := tokens[start..i], tokens[i..];
    TakeToken(head, rest, angleDepth, read);
    assert rest[1..] == tokens[i + 1..] && head + [rest[0]] == tokens[start..i + 1];
  }

  lemma ParamsEnd(tokens: seq<Token>, read: ParamReader, params: seq<ParamInfo>, start: nat, angleDepth: nat)
    requires start <= |tokens| && ParamsSoFar(tokens, read, params, start, |tokens|, angleDepth)
    ensures ParamsOf(tokens, read) == params + IfNamed(read(tokens[start..]))
  {
    TakeNothing(tokens[start..], angleDepth, read);
    assert tokens[start..|tokens|] == tokens[start..];
  }

  /** The loop over a parameter list, with start, index and angle depth. */
  method ParseParamInfo(tokens: seq<Token>, read: ParamReader) returns (params: seq<ParamInfo>)
    ensures params == ParamsOf(tokens, read)
  {
    params := [];
    if |tokens| == 0 {
      return;
    }
    var start, i := 0, 0;
    var angleDepth: nat := 0;
    ParamsStart(tokens, read);
    while i < |tokens|
      invariant 0 <= start <= i <= |tokens|
      invariant ParamsSoFar(tokens, read, params, start, i, angleDepth)
    {
      if Is(tokens[i], ',') && angleDepth == 0 {
        ParamsComma(tokens, read, params, start, i);
        params := params + IfNamed(read(tokens[start..i]));
        start := i + 1;
      } else {
        ghost var outer := angleDepth;
        if Is(tokens[i], '<') {
          angleDepth := angleDepth + 1;
        } else if Is(tokens[i], '>') {
          if angleDepth > 0 {
            angleDepth := angleDepth - 1;
          }
        }
        ParamsToken(tokens, read, params, start, i, outer, angleDepth);
      }
      i := i + 1;
    }
    ParamsEnd(tokens, read, params, start, angleDepth);
    params := params + IfNamed(read(tokens[start..]));
  }

  // ---------------------------------------------------------------- methods and fields

  /** The position of the last name in ts, or -1. */
  function LastName(ts: seq<Token>): (n: int)
    ensures -1 <= n < |ts|
    ensures n >= 0 ==> IsName(ts[n])
    ensures forall k :: n < k < |ts| ==> !IsName(ts[k])
  {
    if ts == [] || IsName(ts[|ts| - 1]) then |ts| - 1 else LastName(ts[..|ts| - 1])
  }

  /** The method whose name and opening parenthesis stand at these positions. */
  function NamedMethod(ts: seq<Token>, name: nat, open: nat, doc: string): MethodInfo
    requires name < open < |ts|
  {
    var signature := Strip(ts[..name + 1], 0);
    if |signature| < 2 then NO_METHOD
    else MethodInfo(ts[name].lexeme, TypeName(signature[..|signature| - 1]),
                    ParamsOf(ts[open + 1..][..CloseLen(ts[open + 1..], 1)], ParamOf), doc, ts[name].line,
                    Find(ts, "static") < |ts|)
  }

  function MethodOf(ts: seq<Token>, doc: string): MethodInfo
  {
    var open := Find(ts, "(");
    if open == 0 || open == |ts| then NO_METHOD
    else
      var name := LastName(ts[..open]);
      if name < 0 then NO_METHOD else NamedMethod(ts, name, open, doc)
  }

  lemma Arguments(tokens: seq<Token>, openIndex: nat, close: nat)
    requires openIndex < close <= |tokens| && close == openIndex + 1 + CloseLen(tokens[openIndex + 1..], 1)
    ensures tokens[openIndex + 1..][..CloseLen(tokens[openIndex + 1..], 1)] == tokens[openIndex + 1..close]
  {
  }

  /** The backwards loop to the name. */
  method FindName(tokens: seq<Token>, openIndex: nat) returns (nameIndex: int)
    requires openIndex <= |tokens|
    ensures nameIndex == LastName(tokens[..openIndex])
  {
    nameIndex := openIndex - 1;
    while nameIndex >= 0 && !IsName(tokens[nameIndex])
      invariant -1 <= nameIndex < openIndex
      invariant LastName(tokens[..openIndex]) == LastName(tokens[..nameIndex + 1])
    {
      assert tokens[..nameIndex + 1][..nameIndex] == tokens[..nameIndex];
      nameIndex := nameIndex - 1;
    }
  }

  method ParseNamedMethod(tokens: seq<Token>, nameIndex: nat, openIndex: nat, doc: string) returns (m: MethodInfo)
    requires nameIndex < openIndex < |tokens| && Is(tokens[openIndex], '(')
    ensures m == NamedMethod(tokens, nameIndex, openIndex, doc)
  {
    var signature := StripDecorators(tokens[..nameIndex + 1]);
    if |signature| < 2 {
      return NO_METHOD;
    }
    var joined := JoinTypeTokens(signature[..|signature| - 1]);
    var close := MatchingParen(tokens, openIndex);
    Arguments(tokens, openIndex, close);
    var params := ParseParamInfo(tokens[openIndex + 1..close], ParamOf);
    var staticIndex := IndexOf(tokens, "static");
    m := MethodInfo(tokens[nameIndex].lexeme, TrimPrefix(TrimSpace(joined), "java.lang."), params, doc,
                    tokens[nameIndex].line, staticIndex >= 0);
  }

  method ParseMethodInfo(tokens: seq<Token>, doc: string) returns (m: MethodInfo)
    ensures m == MethodOf(tokens, doc)
  {
    var openIndex := IndexOf(tokens, "(");
    if openIndex <= 0 {
      return NO_METHOD;
    }
    var nameIndex := FindName(tokens, openIndex);
    if nameIndex < 0 {
      return NO_METHOD;
    }
    m := ParseNamedMethod(tokens, nameIndex, openIndex, doc);
  }

  /** The field whose tokens are left when annotations and modifiers are stripped. */
  function FieldFrom(usable: seq<Token>): FieldInfo
  {
    if |usable| < 2 then NO_FIELD
    else FieldInfo(usable[|usable| - 1].lexeme, TypeName(usable[..|usable| - 1]), usable[|usable| - 1].line)
  }

  function FieldOf(ts: seq<Token>): FieldInfo { FieldFrom(Strip(ts[..Find(ts, "=")], 0)) }

  method ReadField(usable: seq<Token>) returns (f: FieldInfo)
    ensures f == FieldFrom(usable)
  {
    if |usable| < 2 {
      return NO_FIELD;
    }
    var name := usable[|usable| - 1];
    var joined := JoinTypeTokens(usable[..|usable| - 1]);
    return FieldInfo(name.lexeme, TrimPrefix(TrimSpace(joined), "java.lang."), name.line);
  }

  method ParseFieldInfo(tokens: seq<Token>) returns (f: FieldInfo)
    ensures f == FieldOf(tokens)
  {
    var end := |tokens|;
    var eq := IndexOf(tokens, "=");
    if eq >= 0 {
      end := eq;
    }
    var usable := StripDecorators(tokens[..end]);
    f := ReadField(usable);
  }

  predicate IsTypeKeyword(t: Token)
  {
    t.lexeme == "class" || t.lexeme == "interface" || t.lexeme == "record" || t.lexeme == "enum"
  }

  method LooksLikeNestedType(tokens: seq<Token>) returns (nested: bool)
    ensures nested <==> exists k :: 0 <= k < |tokens| && IsTypeKeyword(tokens[k])
  {
    for i := 0 to |tokens|
      invariant forall k :: 0 <= k < i ==> !IsTypeKeyword(tokens[k])
    {
      if IsTypeKeyword(tokens[i]) {
        return true;
      }
    }
    return false;
  }
}
