/** Reading back a declaration that was written out token by token. */
module MemberTheorems {
  import opened Chars
  import opened Lexer
  import opened Decorators
  import opened Members

  /** A parameter, and the comma behind it if another one follows. */
  datatype Param = Param(modifiers: seq<Token>, typ: seq<Token>, name: Token, comma: Token)

  function Nesting(ts: seq<Token>, angleDepth: nat): nat
  {
    if ts == [] then angleDepth else Nesting(ts[1..], Deeper(angleDepth, ts[0]))
  }

  /** No comma outside angle brackets. */
  predicate NoComma(ts: seq<Token>, angleDepth: nat)
  {
    ts == [] || (!(angleDepth == 0 && Is(ts[0], ',')) && NoComma(ts[1..], Deeper(angleDepth, ts[0])))
  }

  ghost predicate NoParens(ts: seq<Token>)
  {
    forall k :: 0 <= k < |ts| ==> !Is(ts[k], '(') && !Is(ts[k], ')')
  }

  ghost predicate Modifiers(ts: seq<Token>)
  {
    forall k :: 0 <= k < |ts| ==> IsModifier(ts[k])
  }

  /** The tokens of a type: nothing to strip, brackets closed, commas only between them, no parentheses. */
  ghost predicate TypeShape(ts: seq<Token>)
  {
    CleanFrom(ts, 0) && Nesting(ts, 0) == 0 && NoComma(ts, 0) && NoParens(ts)
  }

  predicate NameShape(t: Token) { IsName(t) && IsIdentifier(t.lexeme) }

  ghost predicate ParamShape(p: Param)
  {
    Modifiers(p.modifiers) && p.typ != [] && TypeShape(p.typ) && NameShape(p.name) && Is(p.comma, ',')
  }

  ghost predicate ParamShapes(ps: seq<Param>)
  {
    forall k :: 0 <= k < |ps| ==> ParamShape(ps[k])
  }

  function Written(p: Param): seq<Token> { p.modifiers + (p.typ + [p.name]) }

  function WrittenParams(ps: seq<Param>): seq<Token>
  {
    if ps == [] then []
    else if |ps| == 1 then Written(ps[0])
    else Written(ps[0]) + ([ps[0].comma] + WrittenParams(ps[1..]))
  }

  /** What stripping leaves of a type and the name behind it: a name spelled like a modifier is taken for one. */
  function LeftOf(typ: seq<Token>, name: Token): seq<Token>
  {
    if IsModifier(name) then typ else typ + [name]
  }

  /** The parameter as it was written. */
  function Info(p: Param): ParamInfo { ParamInfo(p.name.lexeme, TypeName(p.typ)) }

  function Infos(ps: seq<Param>): (r: seq<ParamInfo>)
    ensures |r| == |ps|
  {
    if ps == [] then [] else [Info(ps[0])] + Infos(ps[1..])
  }

  /** The parameter as it is read, if it is. */
  function ParamRead(p: Param): (r: seq<ParamInfo>)
    ensures |r| <= 1
  {
    IfNamed(ParamFrom(LeftOf(p.typ, p.name)))
  }

  function ParamsRead(ps: seq<Param>): (r: seq<ParamInfo>)
    ensures |r| <= |ps|
  {
    if ps == [] then [] else ParamRead(ps[0]) + ParamsRead(ps[1..])
  }

  /** No parameter is named like a modifier. */
  ghost predicate PlainNames(ps: seq<Param>)
  {
    forall k :: 0 <= k < |ps| ==> !IsModifier(ps[k].name)
  }

  lemma ModifierIsWord(t: Token)
    requires IsModifier(t)
    ensures |t.lexeme| > 1
  {
  }

  lemma NameIsNoBracket(t: Token)
    requires NameShape(t)
    ensures t.lexeme != "" && !Is(t, '(') && !Is(t, ')') && !Is(t, '<') && !Is(t, '>') && !Is(t, ',') && !Is(t, '@')
  {
  }

  // ---------------------------------------------------------------- stripping what was written

  lemma {:induction false} StripModifiers(mods: seq<Token>, rest: seq<Token>)
    requires Modifiers(mods)
    ensures Strip(mods + rest, 0) == Strip(rest, 0)
    decreases |mods|
  {
    if mods == [] {
      assert mods + rest == rest;
    } else {
      ModifierIsWord(mods[0]);
      assert (mods + rest)[1..] == mods[1..] + rest;
      StripModifiers(mods[1..], rest);
    }
  }

  lemma {:induction false} StripBehindClean(ts: seq<Token>, us: seq<Token>, depth: nat)
    requires CleanFrom(ts, depth)
    ensures Strip(ts + us, depth) == ts + Strip(us, Nesting(ts, depth))
    decreases |ts|
  {
    if ts == [] {
      assert ts + us == us;
    } else {
      var depth' := Deeper(depth, ts[0]);
      assert (ts + us)[1..] == ts[1..] + us;
      StripBehindClean(ts[1..], us, depth');
      Regrouped([ts[0]], ts[1..], Strip(us, Nesting(ts[1..], depth')));
      assert ts == [ts[0]] + ts[1..];
    }
  }

  lemma StripName(name: Token)
    requires NameShape(name)
    ensures Strip([name], 0) == if IsModifier(name) then [] else [name]
  {
    NameIsNoBracket(name);
    assert [name][1..] == [];
  }

  lemma StripDeclared(mods: seq<Token>, typ: seq<Token>, name: Token)
    requires Modifiers(mods) && TypeShape(typ) && NameShape(name)
    ensures Strip(mods + (typ + [name]), 0) == LeftOf(typ, name)
  {
    StripModifiers(mods, typ + [name]);
    StripBehindClean(typ, [name], 0);
    StripName(name);
    assert typ + [] == typ;
  }

  /** The last token of a type is no modifier: outside angle brackets there are none, and inside a bracket follows. */
  lemma {:induction false} LastIsNoModifier(ts: seq<Token>, depth: nat)
    requires ts != [] && CleanFrom(ts, depth) && Nesting(ts, depth) == 0
    ensures !IsModifier(ts[|ts| - 1])
    decreases |ts|
  {
    if |ts| == 1 {
      assert ts[1..] == [];
      if depth > 0 {
        AngleIsNoModifier(ts[0]);
      }
    } else {
      LastIsNoModifier(ts[1..], Deeper(depth, ts[0]));
    }
  }

  /** A name spelled like a modifier leaves the last token of the type in its place. */
  lemma LeftOfPlain(typ: seq<Token>, name: Token)
    requires TypeShape(typ) && typ != []
    ensures var usable := LeftOf(typ, name);
      && (usable[|usable| - 1].lexeme == name.lexeme <==> !IsModifier(name))
      && (!IsModifier(name) ==> usable[..|usable| - 1] == typ)
  {
    LastIsNoModifier(typ, 0);
    assert (typ + [name])[..|typ|] == typ;
  }

  /** A parameter is read back exactly if it is not named like a modifier. */
  lemma ParamReadsBack(p: Param)
    requires ParamShape(p)
    ensures IfNamed(ParamOf(Written(p))) == ParamRead(p)
    ensures ParamRead(p) == [Info(p)] <==> !IsModifier(p.name)
  {
    StripDeclared(p.modifiers, p.typ, p.name);
    NameIsNoBracket(p.name);
    LeftOfPlain(p.typ, p.name);
  }

  // ---------------------------------------------------------------- splitting what was written

  lemma {:induction false} SegmentsBehind(ts: seq<Token>, rest: seq<Token>, depth: nat)
    requires NoComma(ts, depth)
    ensures Segments(ts + rest, depth) == Behind(ts, Segments(rest, Nesting(ts, depth)))
    decreases |ts|
  {
    if ts == [] {
      assert ts + rest == rest;
      BehindNothing(Segments(rest, depth));
    } else {
      assert (ts + rest)[1..] == ts[1..] + rest;
      SegmentsBehind(ts[1..], rest, Deeper(depth, ts[0]));
      BehindTwice([ts[0]], ts[1..], Segments(rest, Nesting(ts, depth)));
      assert [ts[0]] + ts[1..] == ts;
    }
  }

  lemma BehindTwice(a: seq<Token>, b: seq<Token>, segments: seq<seq<Token>>)
    requires segments != []
    ensures Behind(a, Behind(b, segments)) == Behind(a + b, segments)
  {
    assert a + (b + segments[0]) == (a + b) + segments[0];
    assert Behind(b, segments)[1..] == segments[1..];
  }

  lemma {:induction false} ModifiersFlat(mods: seq<Token>)
    requires Modifiers(mods)
    ensures NoComma(mods, 0) && Nesting(mods, 0) == 0
    decreases |mods|
  {
    if mods != [] {
      ModifierIsWord(mods[0]);
      ModifiersFlat(mods[1..]);
    }
  }

  lemma {:induction false} FlatConcat(ts: seq<Token>, us: seq<Token>, depth: nat)
    requires NoComma(ts, depth) && NoComma(us, Nesting(ts, depth))
    ensures NoComma(ts + us, depth) && Nesting(ts + us, depth) == Nesting(us, Nesting(ts, depth))
    decreases |ts|
  {
    if ts == [] {
      assert ts + us == us;
    } else {
      assert (ts + us)[1..] == ts[1..] + us;
      FlatConcat(ts[1..], us, Deeper(depth, ts[0]));
    }
  }

  lemma WrittenIsFlat(p: Param)
    requires ParamShape(p)
    ensures NoComma(Written(p), 0) && Nesting(Written(p), 0) == 0
  {
    NameIsNoBracket(p.name);
    var last := [p.name];
    assert last[1..] == [] && Deeper(0, last[0]) == 0;
    assert Nesting(last[1..], 0) == 0;
    FlatConcat(p.typ, [p.name], 0);
    ModifiersFlat(p.modifiers);
    FlatConcat(p.modifiers, p.typ + [p.name], 0);
  }

  lemma FirstParam(p: Param, rest: seq<Token>)
    requires ParamShape(p) && (rest == [] || Is(rest[0], ','))
    ensures Written(p) + rest != []
    ensures ParamsOf(Written(p) + rest, ParamOf)
         == ParamRead(p) + if rest == [] then [] else NamedParams(Segments(rest[1..], 0), ParamOf)
  {
    WrittenIsFlat(p);
    SegmentsBehind(Written(p), rest, 0);
    ParamReadsBack(p);
    if rest == [] {
      FirstSegment(Written(p), [], ParamOf);
      assert [[]] + [] == Segments([], 0);
    } else {
      FirstSegment(Written(p), Segments(rest[1..], 0), ParamOf);
    }
  }

  /** A list of parameters is read back parameter by parameter. */
  lemma {:induction false} ParamsReadBack(ps: seq<Param>)
    requires ParamShapes(ps)
    ensures ParamsOf(WrittenParams(ps), ParamOf) == ParamsRead(ps)
    decreases |ps|
  {
    if |ps| == 1 {
      FirstParam(ps[0], []);
      assert Written(ps[0]) + [] == Written(ps[0]);
      assert ps[1..] == [];
    } else if |ps| > 1 {
      assert ParamShape(ps[0]) && ParamShape(ps[1]);
      var more := WrittenParams(ps[1..]);
      FirstParam(ps[0], [ps[0].comma] + more);
      assert ([ps[0].comma] + more)[1..] == more;
      assert more != [];
      ParamsReadBack(ps[1..]);
    }
  }

  lemma JoinedOnce<T>(x: seq<T>, y: T, xs: seq<T>, ys: seq<T>)
    requires |x| <= 1 && |xs| <= |ys|
    ensures x + xs == [y] + ys <==> x == [y] && xs == ys
  {
    if x + xs == [y] + ys {
      assert |x| == 1;
      assert (x + xs)[0] == x[0] && (x + xs)[1..] == xs && ([y] + ys)[1..] == ys;
    }
  }

  /** They come back as they were written exactly if none is named like a modifier. */
  lemma {:induction false} ParamsAsWritten(ps: seq<Param>)
    requires ParamShapes(ps)
    ensures ParamsRead(ps) == Infos(ps) <==> PlainNames(ps)
    decreases |ps|
  {
    if ps != [] {
      assert ParamShape(ps[0]);
      ParamReadsBack(ps[0]);
      ParamsAsWritten(ps[1..]);
      JoinedOnce(ParamRead(ps[0]), Info(ps[0]), ParamsRead(ps[1..]), Infos(ps[1..]));
      assert PlainNames(ps) <==> !IsModifier(ps[0].name) && PlainNames(ps[1..]);
    }
  }

  // ---------------------------------------------------------------- a whole method

  lemma {:induction false} FindBehind(ts: seq<Token>, rest: seq<Token>, lexeme: string)
    requires forall k :: 0 <= k < |ts| ==> ts[k].lexeme != lexeme
    requires rest != [] && rest[0].lexeme == lexeme
    ensures Find(ts + rest, lexeme) == |ts|
    decreases |ts|
  {
    var n := Find(ts + rest, lexeme);
    assert (ts + rest)[|ts|] == rest[0];
    assert n >= |ts|;
  }

  lemma {:induction false} WrittenBalanced(ps: seq<Param>)
    requires ParamShapes(ps)
    ensures NoParens(WrittenParams(ps))
    decreases |ps|
  {
    if ps != [] {
      assert ParamShape(ps[0]);
      forall k | 0 <= k < |ps[0].modifiers|
        ensures !Is(ps[0].modifiers[k], '(') && !Is(ps[0].modifiers[k], ')')
      {
        ModifierIsWord(ps[0].modifiers[k]);
      }
      NameIsNoBracket(ps[0].name);
      WrittenBalanced(ps[1..]);
    }
  }

  lemma {:induction false} CloseBehind(ts: seq<Token>, close: Token, tail: seq<Token>)
    requires NoParens(ts) && Is(close, ')')
    ensures CloseLen(ts + ([close] + tail), 1) == |ts|
    decreases |ts|
  {
    var s := ts + ([close] + tail);
    if ts != [] {
      assert s[1..] == ts[1..] + ([close] + tail);
      CloseBehind(ts[1..], close, tail);
    }
  }

  /** The tokens of a method: `mods ret name ( params ) tail`. */
  function WrittenMethod(mods: seq<Token>, ret: seq<Token>, name: Token, open: Token, ps: seq<Param>, close: Token,
      tail: seq<Token>): seq<Token>
  {
    (mods + (ret + [name])) + ([open] + (WrittenParams(ps) + ([close] + tail)))
  }

  lemma HeadIsOpenFree(mods: seq<Token>, ret: seq<Token>, name: Token)
    requires Modifiers(mods) && TypeShape(ret) && NameShape(name)
    ensures forall k :: 0 <= k < |mods + (ret + [name])| ==> (mods + (ret + [name]))[k].lexeme != "("
  {
    NameIsNoBracket(name);
    forall k | 0 <= k < |mods|
      ensures mods[k].lexeme != "("
    {
      ModifierIsWord(mods[k]);
    }
    forall k | 0 <= k < |ret|
      ensures ret[k].lexeme != "("
    {
      assert !Is(ret[k], '(');
    }
  }

  lemma NameIsLast(head: seq<Token>, name: Token)
    requires IsName(name)
    ensures LastName(head + [name]) == |head|
  {
  }

  lemma NameFound(head: seq<Token>, name: Token, group: seq<Token>, doc: string)
    requires head != [] && head[|head| - 1] == name && IsName(name)
    requires forall k :: 0 <= k < |head| ==> head[k].lexeme != "("
    requires group != [] && group[0].lexeme == "("
    ensures MethodOf(head + group, doc) == NamedMethod(head + group, |head| - 1, |head|, doc)
  {
    var ts := head + group;
    FindBehind(head, group, "(");
    assert ts[..|head|] == head;
    assert head == head[..|head| - 1] + [name];
    NameIsLast(head[..|head| - 1], name);
  }

  lemma ArgumentsFound(head: seq<Token>, open: Token, args: seq<Token>, close: Token, tail: seq<Token>)
    requires NoParens(args) && Is(close, ')')
    ensures var ts := head + ([open] + (args + ([close] + tail)));
      ts[|head| + 1..][..CloseLen(ts[|head| + 1..], 1)] == args
  {
    var ts := head + ([open] + (args + ([close] + tail)));
    assert ts[|head| + 1..] == args + ([close] + tail);
    CloseBehind(args, close, tail);
  }

  lemma {:induction false} Found(ts: seq<Token>, lexeme: string)
    ensures Find(ts, lexeme) < |ts| <==> exists k :: 0 <= k < |ts| && ts[k].lexeme == lexeme
  {
  }

  /** The method with this name whose tokens up to the name leave `usable` when stripped. */
  function MethodFrom(usable: seq<Token>, name: Token, params: seq<ParamInfo>, doc: string, isStatic: bool): MethodInfo
  {
    if |usable| < 2 then NO_METHOD
    else MethodInfo(name.lexeme, TypeName(usable[..|usable| - 1]), params, doc, name.line, isStatic)
  }

  ghost predicate HasStatic(ts: seq<Token>) { exists k :: 0 <= k < |ts| && ts[k].lexeme == "static" }

  /** A method written out is read back with its name, type, parameters, documentation and line, unless it is named
      like a modifier; without a return type, as for a constructor, nothing is recognised. */
  lemma MethodReadsBack(mods: seq<Token>, ret: seq<Token>, name: Token, open: Token, ps: seq<Param>, close: Token,
      tail: seq<Token>, doc: string)
    requires Modifiers(mods) && TypeShape(ret) && NameShape(name) && ParamShapes(ps)
    requires open.lexeme == "(" && Is(close, ')')
    ensures var ts := WrittenMethod(mods, ret, name, open, ps, close, tail);
      && MethodOf(ts, doc) == MethodFrom(LeftOf(ret, name), name, ParamsRead(ps), doc, HasStatic(ts))
      && (ret == [] ==> MethodOf(ts, doc) == NO_METHOD)
      && (ret != [] && !IsModifier(name) ==>
            MethodOf(ts, doc) == MethodInfo(name.lexeme, TypeName(ret), ParamsRead(ps), doc, name.line, HasStatic(ts)))
  {
    var head, args := mods + (ret + [name]), WrittenParams(ps);
    var group := [open] + (args + ([close] + tail));
    var ts := head + group;
    HeadIsOpenFree(mods, ret, name);
    NameFound(head, name, group, doc);
    StripDeclared(mods, ret, name);
    assert ts[..|head| - 1 + 1] == head && ts[|head| - 1] == name;
    assert (ret + [name])[..|ret|] == ret;
    WrittenBalanced(ps);
    ArgumentsFound(head, open, args, close, tail);
    ParamsReadBack(ps);
    Found(ts, "static");
  }

  /** No parameter without a name is kept: fewer than two tokens make none. */
  lemma {:induction false} ParamsAreNamed(ts: seq<Token>, read: ParamReader)
    ensures forall k :: 0 <= k < |ParamsOf(ts, read)| ==> ParamsOf(ts, read)[k].name != ""
    ensures |Strip(ts, 0)| < 2 ==> ParamOf(ts).name == ""
  {
    if ts != [] {
      NamedAreNamed(Segments(ts, 0), read);
    }
  }

  lemma {:induction false} NamedAreNamed(segments: seq<seq<Token>>, read: ParamReader)
    ensures forall k :: 0 <= k < |NamedParams(segments, read)| ==> NamedParams(segments, read)[k].name != ""
    decreases |segments|
  {
    if segments != [] {
      NamedAreNamed(segments[1..], read);
    }
  }

  // ---------------------------------------------------------------- what is inside angle brackets

  /** Behind `depth` open angle brackets ts closes them but never one more. */
  predicate NeverCloses(ts: seq<Token>, depth: nat)
  {
    if ts == [] then true
    else if Is(ts[0], '<') then NeverCloses(ts[1..], depth + 1)
    else if Is(ts[0], '>') then depth > 0 && NeverCloses(ts[1..], depth - 1)
    else NeverCloses(ts[1..], depth)
  }

  /** The angle bracket at j is still open behind ts. */
  predicate OpenAngle(ts: seq<Token>, j: int)
  {
    0 <= j < |ts| && Is(ts[j], '<') && NeverCloses(ts[j + 1..], 0)
  }

  ghost predicate InsideAngles(ts: seq<Token>) { exists j :: OpenAngle(ts, j) }

  lemma {:induction false} ClosesLess(ts: seq<Token>, depth: nat, depth': nat)
    requires NeverCloses(ts, depth) && depth <= depth'
    ensures NeverCloses(ts, depth')
    decreases |ts|
  {
    if ts == [] {
    } else if Is(ts[0], '<') {
      ClosesLess(ts[1..], depth + 1, depth' + 1);
    } else if Is(ts[0], '>') {
      ClosesLess(ts[1..], depth - 1, depth' - 1);
    } else {
      ClosesLess(ts[1..], depth, depth');
    }
  }

  lemma OpenLater(ts: seq<Token>)
    requires ts != []
    ensures InsideAngles(ts) <==> InsideAngles(ts[1..]) || (Is(ts[0], '<') && NeverCloses(ts[1..], 0))
  {
    forall j | 0 < j < |ts|
      ensures OpenAngle(ts, j) <==> OpenAngle(ts[1..], j - 1)
    {
      assert ts[1..][j..] == ts[j + 1..];
    }
    if j :| OpenAngle(ts[1..], j) {
      assert OpenAngle(ts, j + 1);
    }
    if Is(ts[0], '<') && NeverCloses(ts[1..], 0) {
      assert OpenAngle(ts, 0);
    }
  }

  /** The count of the loops is above zero exactly if some angle bracket is still open. */
  lemma {:induction false} NestingIsOpen(ts: seq<Token>, depth: nat)
    ensures Nesting(ts, depth) > 0 <==> InsideAngles(ts) || (depth > 0 && NeverCloses(ts, depth - 1))
    decreases |ts|
  {
    if ts != [] {
      OpenLater(ts);
      NestingIsOpen(ts[1..], Deeper(depth, ts[0]));
      if Is(ts[0], '<') && NeverCloses(ts[1..], 0) {
        ClosesLess(ts[1..], 0, depth);
      }
    }
  }

  lemma {:induction false} NestingSnoc(ts: seq<Token>, t: Token, depth: nat)
    ensures Nesting(ts + [t], depth) == Deeper(Nesting(ts, depth), t)
    decreases |ts|
  {
    if ts == [] {
      assert [t][1..] == [] && [] + [t] == [t];
      assert Nesting([t], depth) == Nesting([], Deeper(depth, t));
    } else {
      assert (ts + [t])[1..] == ts[1..] + [t];
      NestingSnoc(ts[1..], t, Deeper(depth, ts[0]));
    }
  }

  lemma {:induction false} AnglesAreNesting(ts: seq<Token>)
    ensures AngleDepth(ts) == Nesting(ts, 0)
    decreases |ts|
  {
    if ts != [] {
      var front, last := ts[..|ts| - 1], ts[|ts| - 1];
      AnglesAreNesting(front);
      NestingSnoc(front, last, 0);
      assert ts == front + [last];
    }
  }

  /** Tokens are stripped clean exactly if there is no annotation, and every modifier stands behind an angle bracket
      that is still open. */
  lemma StrippedIs(ts: seq<Token>)
    ensures Stripped(ts) <==>
      forall k :: 0 <= k < |ts| ==> !Is(ts[k], '@') && (IsModifier(ts[k]) ==> InsideAngles(ts[..k]))
  {
    forall k | 0 <= k < |ts|
      ensures AngleDepth(ts[..k]) > 0 <==> InsideAngles(ts[..k])
    {
      AnglesAreNesting(ts[..k]);
      NestingIsOpen(ts[..k], 0);
    }
  }

  /** A comma separates parameters exactly if no angle bracket in front of it is still open: the list is split there, */
  lemma CommaSplits(a: seq<Token>, comma: Token, b: seq<Token>)
    requires Is(comma, ',') && !InsideAngles(a)
    ensures Segments(a + ([comma] + b), 0) == Segments(a, 0) + Segments(b, 0)
  {
    NestingIsOpen(a, 0);
    SplitBehind(a, comma, b, 0);
  }

  lemma {:induction false} SplitBehind(a: seq<Token>, comma: Token, b: seq<Token>, depth: nat)
    requires Is(comma, ',') && Nesting(a, depth) == 0
    ensures Segments(a + ([comma] + b), depth) == Segments(a, depth) + Segments(b, 0)
    decreases |a|
  {
    var tail := [comma] + b;
    if a == [] {
      assert a + tail == tail && tail[1..] == b;
    } else {
      assert (a + tail)[1..] == a[1..] + tail;
      SplitBehind(a[1..], comma, b, Deeper(depth, a[0]));
      SegmentsSplit(a, tail, Segments(b, 0), depth);
    }
  }

  lemma SegmentsSplit(a: seq<Token>, tail: seq<Token>, more: seq<seq<Token>>, depth: nat)
    requires a != [] && (a + tail)[1..] == a[1..] + tail
    requires Segments(a[1..] + tail, Deeper(depth, a[0])) == Segments(a[1..], Deeper(depth, a[0])) + more
    ensures Segments(a + tail, depth) == Segments(a, depth) + more
  {
    assert (a + tail)[0] == a[0];
    if depth == 0 && Is(a[0], ',') {
    } else {
      BehindBoth([a[0]], Segments(a[1..], Deeper(depth, a[0])), more);
    }
  }

  lemma BehindBoth(head: seq<Token>, xs: seq<seq<Token>>, ys: seq<seq<Token>>)
    requires xs != []
    ensures Behind(head, xs + ys) == Behind(head, xs) + ys
  {
  }

  /** and nowhere else. */
  lemma OtherCommasStay(ts: seq<Token>)
    requires forall k :: 0 <= k < |ts| && Is(ts[k], ',') ==> InsideAngles(ts[..k])
    ensures Segments(ts, 0) == [ts]
  {
    NoCommaOutside(ts, 0);
    SegmentsBehind(ts, [], 0);
    assert ts + [] == ts;
    assert Segments([], Nesting(ts, 0)) == [[]];
  }

  lemma {:induction false} NoCommaOutside(ts: seq<Token>, n: nat)
    requires n <= |ts| && forall k :: 0 <= k < |ts| && Is(ts[k], ',') ==> InsideAngles(ts[..k])
    ensures NoComma(ts[n..], Nesting(ts[..n], 0))
    ensures n == 0 ==> NoComma(ts, 0)
    decreases |ts| - n
  {
    if n < |ts| {
      NoCommaOutside(ts, n + 1);
      NestingSnoc(ts[..n], ts[n], 0);
      NestingIsOpen(ts[..n], 0);
      assert ts[..n + 1] == ts[..n] + [ts[n]] && ts[n..][1..] == ts[n + 1..];
    }
    assert n == 0 ==> ts[n..] == ts && ts[..n] == [];
  }
}
