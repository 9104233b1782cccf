/** What the structural parser makes of the tokens of a type body, as a function of the unread tokens. */
module TypeBodies {
  import opened Chars
  import opened Text
  import opened Lexer
  import opened LexerTheorems
  import opened Decorators
  import opened Members

  // ---------------------------------------------------------------- annotations

  function DottedLen(ts: seq<Token>): (n: nat)
    ensures n <= |ts|
  {
    if |ts| >= 2 && Is(ts[0], '.') && IsName(ts[1]) then 2 + DottedLen(ts[2..]) else 0
  }

  /** The qualified name of an annotation, behind its `@`. */
  function NamePathLen(ts: seq<Token>): (n: nat)
    ensures n <= |ts|
  {
    if ts == [] || !IsName(ts[0]) then 0 else 1 + DottedLen(ts[1..])
  }

  /** Names with a dot between any two. */
  predicate DottedName(ts: seq<Token>)
  {
    ts != [] && IsName(ts[0]) && (|ts| == 1 || (|ts| > 2 && Is(ts[1], '.') && DottedName(ts[2..])))
  }

  /** The path does not go on. */
  predicate PathEnds(rest: seq<Token>) { !(|rest| > 1 && Is(rest[0], '.') && IsName(rest[1])) }

  lemma {:induction false} DottedEnds(path: seq<Token>, rest: seq<Token>)
    requires DottedName(path) && PathEnds(rest)
    ensures DottedLen((path + rest)[1..]) == |path| - 1
    decreases |path|
  {
    if |path| == 1 {
      assert (path + rest)[1..] == rest;
    } else {
      assert (path + rest)[1..][2..] == (path[2..] + rest)[1..];
      DottedEnds(path[2..], rest);
    }
  }

  /** The parser takes a qualified name whole, however it is made up, and no more. */
  lemma PathTakenWhole(path: seq<Token>, rest: seq<Token>)
    requires DottedName(path) && PathEnds(rest)
    ensures NamePathLen(path + rest) == |path|
  {
    DottedEnds(path, rest);
  }

  lemma {:induction false} DottedLenIs(t: Token, ts: seq<Token>)
    requires IsName(t)
    ensures DottedName([t] + ts[..DottedLen(ts)]) && PathEnds(ts[DottedLen(ts)..])
    decreases |ts|
  {
    var n := DottedLen(ts);
    if n > 0 {
      DottedLenIs(ts[1], ts[2..]);
      assert ([t] + ts[..n])[2..] == [ts[1]] + ts[2..][..n - 2];
      assert ts[2..][n - 2..] == ts[n..];
    } else {
      assert ts[0..] == ts;
    }
  }

  /** What it takes is a qualified name that does not go on, or nothing if there is no name. */
  lemma NamePathIs(ts: seq<Token>)
    ensures var n := NamePathLen(ts);
      if ts == [] || !IsName(ts[0]) then n == 0 else DottedName(ts[..n]) && PathEnds(ts[n..])
  {
    if ts != [] && IsName(ts[0]) {
      var n := NamePathLen(ts);
      DottedLenIs(ts[0], ts[1..]);
      assert [ts[0]] + ts[1..][..n - 1] == ts[..n];
      assert ts[1..][n - 1..] == ts[n..];
    }
  }

  /** The name and, if they follow, the arguments in parentheses. */
  function AnnotationSpan(ts: seq<Token>): (n: nat)
    ensures n <= |ts|
  {
    var n := NamePathLen(ts);
    if n < |ts| && Is(ts[n], '(') then n + 1 + GroupLen(ts[n + 1..], 1) else n
  }

  /** Of what the stripping of decorators takes for an annotation, the parser takes the name and its arguments. */
  lemma {:induction false} DottedTaken(ts: seq<Token>)
    requires AsLexed(ts)
    ensures var n := DottedLen(ts); AnnotationLen(ts) == n + AnnotationLen(ts[n..])
    decreases |ts|
  {
    var n := DottedLen(ts);
    if n > 0 {
      DottedTaken(ts[2..]);
      assert ts[2..][n - 2..] == ts[n..];
      assert ts[1..][0] == ts[1] && ts[1..][1..] == ts[2..];
      assert SpelledAs(ts[1].kind, ts[1].lexeme);
    } else {
      assert ts[0..] == ts;
    }
  }

  lemma PathTaken(ts: seq<Token>)
    requires AsLexed(ts)
    ensures var n := NamePathLen(ts); AnnotationLen(ts) == n + AnnotationLen(ts[n..])
  {
    var n := NamePathLen(ts);
    if n > 0 {
      DottedTaken(ts[1..]);
      assert ts[1..][n - 1..] == ts[n..];
      assert SpelledAs(ts[0].kind, ts[0].lexeme);
    } else {
      assert ts[0..] == ts;
    }
  }

  lemma SpanIsTaken(ts: seq<Token>)
    requires AsLexed(ts)
    ensures var n := NamePathLen(ts);
      if n < |ts| && Is(ts[n], '(') then AnnotationSpan(ts) == AnnotationLen(ts)
      else AnnotationSpan(ts) == n && AnnotationLen(ts) == n + AnnotationLen(ts[n..])
  {
    var n := NamePathLen(ts);
    PathTaken(ts);
    if n < |ts| && Is(ts[n], '(') {
      assert ts[n..][1..] == ts[n + 1..];
    }
  }

  lemma TakenBeyond(ts: seq<Token>, n: nat, k: nat, depth: nat)
    requires AsLexed(ts) && n <= |ts| && k == n + AnnotationLen(ts[n..])
    ensures Strip(ts[n..], depth) == Strip(ts[k..], depth) <==> OnlyModifiers(ts[n..k], depth)
  {
    var rest := ts[n..];
    TakenExactly(rest, depth);
    assert rest[k - n..] == ts[k..] && rest[..k - n] == ts[n..k];
  }

  /** Stripping an annotation removes the annotation, as the parser delimits it, and no more, exactly if all
      it takes beyond that are modifiers that would have been stripped anyway. */
  lemma AnnotationAlone(at: Token, ts: seq<Token>, depth: nat)
    requires Is(at, '@') && AsLexed(ts)
    ensures AnnotationSpan(ts) <= AnnotationLen(ts)
    ensures Strip([at] + ts, depth) == Strip(ts[AnnotationSpan(ts)..], depth)
       <==> OnlyModifiers(ts[AnnotationSpan(ts)..AnnotationLen(ts)], depth)
  {
    var n, k := AnnotationSpan(ts), AnnotationLen(ts);
    SpanIsTaken(ts);
    StripAt(at, ts, k, depth);
    if n < k {
      TakenBeyond(ts, n, k, depth);
    }
  }

  // ---------------------------------------------------------------- documentation

  function TrimSuffix(s: string, suffix: string): string
  {
    if |suffix| <= |s| && s[|s| - |suffix|..] == suffix then s[..|s| - |suffix|] else s
  }

  predicate IsDocComment(text: string) { "/**" <= TrimSpace(text) }

  function CleanLine(line: string): string
  {
    TrimSpace(TrimPrefix(TrimSuffix(TrimPrefix(TrimPrefix(TrimSpace(line), "/**"), "/*"), "*/"), "*"))
  }

  function Kept(line: string): seq<string>
  {
    if line != "" then [line] else []
  }

  function NonEmpty(lines: seq<string>): seq<string>
  {
    if lines == [] then [] else Kept(CleanLine(lines[0])) + NonEmpty(lines[1..])
  }

  function JoinParts(parts: seq<string>): string
  {
    if parts == [] then "" else JoinLines(parts)
  }

  function CleanDoc(text: string): string { JoinParts(NonEmpty(Lines(text))) }

  // ---------------------------------------------------------------- the body

  /** The state of the body scan: open braces, pending documentation, tokens of the current member, results. */
  datatype Body = Body(depth: nat, doc: string, member: seq<Token>, fields: seq<FieldInfo>, methods: seq<MethodInfo>)

  datatype BodyEnd = BodyEnd(fields: seq<FieldInfo>, methods: seq<MethodInfo>, rest: seq<Token>)

  predicate NestedType(ts: seq<Token>)
  {
    exists k :: 0 <= k < |ts| && IsTypeKeyword(ts[k])
  }

  predicate LooksLikeMethod(ts: seq<Token>)
  {
    Find(ts, "(") < |ts| && (Find(ts, "=") == |ts| || Find(ts, "(") < Find(ts, "="))
  }

  /** The fields and methods when the tokens of one more member have been read. */
  function AddMember(member: seq<Token>, doc: string, fields: seq<FieldInfo>,
      methods: seq<MethodInfo>): (seq<FieldInfo>, seq<MethodInfo>)
  {
    if member == [] || NestedType(member) then (fields, methods)
    else if LooksLikeMethod(member) then
      var m := MethodOf(member, doc);
      (fields, if m.name != "" then methods + [m] else methods)
    else
      var f := FieldOf(member);
      (if f.name != "" then fields + [f] else fields, methods)
  }

  function Flush(st: Body): Body
  {
    var (fields, methods) := AddMember(st.member, st.doc, st.fields, st.methods);
    Body(st.depth, "", [], fields, methods)
  }

  predicate BetweenMembers(st: Body) { st.depth == 1 && st.member == [] }

  predicate AnnotationStarts(t: Token, st: Body)
  {
    BetweenMembers(st) && t.kind != Comment && Is(t, '@')
  }

  function StepLen(ts: seq<Token>, st: Body): (n: nat)
    requires ts != []
    ensures 1 <= n <= |ts|
  {
    if AnnotationStarts(ts[0], st) then 1 + AnnotationSpan(ts[1..]) else 1
  }

  function Step(t: Token, st: Body): Body
    requires st.depth > 0
  {
    if t.kind == Comment && BetweenMembers(st) then
      (if IsDocComment(t.lexeme) then st.(doc := CleanDoc(t.lexeme)) else st)
    else if AnnotationStarts(t, st) then st
    else if Is(t, '{') then
      var flushed := if st.depth == 1 && st.member != [] then Flush(st) else st;
      flushed.(depth := st.depth + 1)
    else if Is(t, '}') then st.(depth := st.depth - 1)
    else if Is(t, ';') then (if st.depth == 1 then Flush(st) else st)
    else if st.depth == 1 then st.(member := st.member + [t])
    else st
  }

  function RunBody(ts: seq<Token>, st: Body): BodyEnd
    requires st.depth > 0
    decreases |ts|
  {
    if ts == [] then BodyEnd(st.fields, st.methods, [])
    else
      var rest, st' := ts[StepLen(ts, st)..], Step(ts[0], st);
      if st'.depth == 0 then BodyEnd(st'.fields, st'.methods, rest) else RunBody(rest, st')
  }

  const BODY_START := Body(1, "", [], [], [])

  // ---------------------------------------------------------------- bodies of methods do not matter

  /** Braces close in pairs, `depth` of them being open before. */
  predicate BracesClose(ts: seq<Token>, depth: nat)
  {
    if ts == [] then depth == 0
    else if Is(ts[0], '{') then BracesClose(ts[1..], depth + 1)
    else if Is(ts[0], '}') then depth > 0 && BracesClose(ts[1..], depth - 1)
    else BracesClose(ts[1..], depth)
  }

  lemma InnerStep(ts: seq<Token>, rest: seq<Token>, st: Body)
    requires ts != [] && st.depth >= 2
    ensures StepLen(ts + rest, st) == 1
    ensures (ts + rest)[1..] == ts[1..] + rest && (ts + rest)[0] == ts[0]
    ensures Step(ts[0], st) ==
      st.(depth := if Is(ts[0], '{') then st.depth + 1 else if Is(ts[0], '}') then st.depth - 1 else st.depth)
  {
  }

  lemma {:induction false} SkipInside(ts: seq<Token>, rest: seq<Token>, st: Body, depth: nat)
    requires BracesClose(ts, depth) && st.depth >= depth + 2
    ensures RunBody(ts + rest, st) == RunBody(rest, st.(depth := st.depth - depth))
    decreases |ts|
  {
    if ts == [] {
      assert ts + rest == rest;
    } else {
      InnerStep(ts, rest, st);
      var st' := Step(ts[0], st);
      var depth' := if Is(ts[0], '{') then depth + 1 else if Is(ts[0], '}') then depth - 1 else depth;
      SkipInside(ts[1..], rest, st', depth');
      assert st'.(depth := st'.depth - depth') == st.(depth := st.depth - depth);
    }
  }

  predicate OpensBody(t: Token) { Is(t, '{') && t.kind == Symbol }

  function Braced(open: Token, body: seq<Token>, close: Token, post: seq<Token>): seq<Token>
  {
    [open] + (body + ([close] + post))
  }

  /** A braced group is passed over: the scan goes on behind it as if the group had been empty. */
  lemma PassGroup(open: Token, body: seq<Token>, close: Token, post: seq<Token>, st: Body)
    requires st.depth == 1 && OpensBody(open) && Is(close, '}') && BracesClose(body, 0)
    ensures RunBody(Braced(open, body, close, post), st) == RunBody(post, Step(open, st).(depth := 1))
  {
    var tail := body + ([close] + post);
    var inside := Step(open, st);
    assert inside.depth == 2;
    assert ([open] + tail)[1..] == tail;
    SkipInside(body, [close] + post, inside, 0);
    assert inside.(depth := inside.depth - 0) == inside;
    InnerStep([close], post, inside);
    assert [close][1..] + post == post;
  }

  /** The scan of ts, begun in st, stands behind the first k tokens in state at. */
  predicate Reaches(ts: seq<Token>, st: Body, k: nat, at: Body)
    requires st.depth > 0
    decreases k
  {
    if k == 0 then at == st
    else
      && ts != []
      && StepLen(ts, st) <= k
      && Step(ts[0], st).depth > 0
      && Reaches(ts[StepLen(ts, st)..], Step(ts[0], st), k - StepLen(ts, st), at)
  }

  lemma RunStep(ts: seq<Token>, st: Body, n: nat, st': Body)
    requires ts != [] && st.depth > 0 && n == StepLen(ts, st) && st' == Step(ts[0], st)
    ensures RunBody(ts, st)
         == if st'.depth == 0 then BodyEnd(st'.fields, st'.methods, ts[n..]) else RunBody(ts[n..], st')
  {
  }

  lemma {:induction false} RunFrom(ts: seq<Token>, st: Body, k: nat, at: Body)
    requires st.depth > 0 && Reaches(ts, st, k, at)
    ensures k <= |ts| && at.depth > 0 && RunBody(ts, st) == RunBody(ts[k..], at)
    decreases k
  {
    if k == 0 {
      assert ts[0..] == ts;
    } else {
      var n, st' := StepLen(ts, st), Step(ts[0], st);
      RunStep(ts, st, n, st');
      RunFrom(ts[n..], st', k - n, at);
      assert ts[n..][k - n..] == ts[k..];
    }
  }

  lemma RunBehind(pre: seq<Token>, rest: seq<Token>, st: Body, at: Body)
    requires st.depth > 0 && Reaches(pre + rest, st, |pre|, at)
    ensures at.depth > 0 && RunBody(pre + rest, st) == RunBody(rest, at)
  {
    RunFrom(pre + rest, st, |pre|, at);
    assert (pre + rest)[|pre|..] == rest;
  }

  /** What is left unread is the end of the tokens. */
  lemma {:induction false} RestIsUnread(ts: seq<Token>, st: Body)
    requires st.depth > 0
    ensures var r := RunBody(ts, st); |r.rest| <= |ts| && r.rest == ts[|ts| - |r.rest|..]
    decreases |ts|
  {
    if ts != [] {
      var n, st' := StepLen(ts, st), Step(ts[0], st);
      RunStep(ts, st, n, st');
      if st'.depth > 0 {
        RestIsUnread(ts[n..], st');
      }
    }
  }

  // ---------------------------------------------------------------- the scan looks no further than the brace

  /** x and y begin with the same token, and no annotation goes on with it. */
  predicate SameStart(x: seq<Token>, y: seq<Token>)
  {
    x != [] && y != [] && x[0] == y[0] && !Is(x[0], '.') && !Is(x[0], '(')
  }

  lemma {:induction false} DottedStops(u: seq<Token>, x: seq<Token>, y: seq<Token>)
    requires SameStart(x, y) && DottedLen(u + x) <= |u|
    ensures DottedLen(u + y) == DottedLen(u + x)
    decreases |u|
  {
    if u == [] {
      assert u + x == x && u + y == y;
    } else if |u| >= 2 {
      assert (u + x)[2..] == u[2..] + x && (u + y)[2..] == u[2..] + y;
      if Is(u[0], '.') && IsName(u[1]) {
        DottedStops(u[2..], x, y);
      }
    } else {
      assert (u + x)[1] == x[0] && (u + y)[1] == y[0];
    }
  }

  lemma {:induction false} GroupStops(u: seq<Token>, x: seq<Token>, y: seq<Token>, depth: nat)
    requires x != [] && GroupLen(u + x, depth) <= |u|
    ensures GroupLen(u + y, depth) == GroupLen(u + x, depth)
    decreases |u|
  {
    if u == [] {
      assert u + x == x && u + y == y;
    } else {
      assert (u + x)[1..] == u[1..] + x && (u + y)[1..] == u[1..] + y;
      if depth > 0 {
        GroupStops(u[1..], x, y, if Is(u[0], '(') then depth + 1 else if Is(u[0], ')') then depth - 1 else depth);
      }
    }
  }

  lemma PathStops(u: seq<Token>, x: seq<Token>, y: seq<Token>)
    requires SameStart(x, y) && NamePathLen(u + x) <= |u|
    ensures NamePathLen(u + y) == NamePathLen(u + x)
  {
    if u == [] {
      assert u + x == x && u + y == y;
    } else {
      assert (u + x)[1..] == u[1..] + x && (u + y)[1..] == u[1..] + y;
      if IsName(u[0]) {
        DottedStops(u[1..], x, y);
      }
    }
  }

  lemma DropPrefix<T>(u: seq<T>, x: seq<T>, n: nat)
    requires n <= |u|
    ensures (u + x)[n..] == u[n..] + x
  {
  }

  lemma SpanStops(u: seq<Token>, x: seq<Token>, y: seq<Token>)
    requires SameStart(x, y) && AnnotationSpan(u + x) <= |u|
    ensures AnnotationSpan(u + y) == AnnotationSpan(u + x) && NamePathLen(u + y) == NamePathLen(u + x) <= |u|
  {
    PathStops(u, x, y);
    var n := NamePathLen(u + x);
    if n < |u| {
      DropPrefix(u, x, n + 1);
      DropPrefix(u, y, n + 1);
      if Is(u[n], '(') {
        GroupStops(u[n + 1..], x, y, 1);
      }
    } else {
      assert (u + x)[n] == x[0] && (u + y)[n] == y[0];
    }
  }

  lemma StepStops(u: seq<Token>, x: seq<Token>, y: seq<Token>, st: Body)
    requires u != [] && SameStart(x, y) && StepLen(u + x, st) <= |u|
    ensures StepLen(u + y, st) == StepLen(u + x, st)
  {
    assert (u + x)[1..] == u[1..] + x && (u + y)[1..] == u[1..] + y;
    if AnnotationStarts(u[0], st) {
      SpanStops(u[1..], x, y);
    }
  }

  lemma StepWithin(u: seq<Token>, x: seq<Token>, st: Body)
    requires u + x != [] && st.depth > 0 && |RunBody(u + x, st).rest| >= |x|
    ensures StepLen(u + x, st) <= |u|
  {
    var ts := u + x;
    var n, st' := StepLen(ts, st), Step(ts[0], st);
    RunStep(ts, st, n, st');
    if st'.depth > 0 {
      RestIsUnread(ts[n..], st');
    }
  }

  /** A body that ends within u, with v of it left, ends there whatever follows. */
  lemma {:induction false} RunStops(u: seq<Token>, x: seq<Token>, y: seq<Token>, st: Body) returns (v: seq<Token>)
    requires SameStart(x, y) && st.depth > 0 && |RunBody(u + x, st).rest| >= |x|
    ensures |v| <= |u| && RunBody(u + x, st).rest == v + x
    ensures RunBody(u + y, st) == RunBody(u + x, st).(rest := v + y)
    decreases |u|
  {
    StepWithin(u, x, st);
    var n, st' := StepLen(u + x, st), Step(u[0], st);
    StepStops(u, x, y, st);
    DropPrefix(u, x, n);
    DropPrefix(u, y, n);
    RunStep(u + x, st, n, st');
    RunStep(u + y, st, n, st');
    v := u[n..];
    if st'.depth > 0 {
      v := RunStops(v, x, y, st');
    }
  }

  /** One step of the scan. */
  lemma ReachesStep(ts: seq<Token>, st: Body, n: nat, st': Body, k: nat, at: Body)
    requires st.depth > 0 && k > 0 && ts != [] && n == StepLen(ts, st) <= k && st' == Step(ts[0], st) && st'.depth > 0
    ensures Reaches(ts, st, k, at) <==> Reaches(ts[n..], st', k - n, at)
  {
  }

  lemma ReachesIn(ts: seq<Token>, st: Body, k: nat, at: Body)
    requires st.depth > 0 && k > 0 && Reaches(ts, st, k, at)
    ensures ts != [] && StepLen(ts, st) <= k && Step(ts[0], st).depth > 0
  {
  }

  lemma {:induction false} ReachesToo(u: seq<Token>, x: seq<Token>, y: seq<Token>, st: Body, at: Body)
    requires SameStart(x, y) && st.depth > 0
    requires Reaches(u + x, st, |u|, at)
    ensures Reaches(u + y, st, |u|, at)
    decreases |u|
  {
    if u != [] {
      var n, st' := StepLen(u + x, st), Step(u[0], st);
      StepStops(u, x, y, st);
      DropPrefix(u, x, n);
      DropPrefix(u, y, n);
      ReachesStep(u + x, st, n, st', |u|, at);
      ReachesToo(u[n..], x, y, st', at);
      ReachesStep(u + y, st, n, st', |u|, at);
    }
  }

  lemma SameRun(pre: seq<Token>, x: seq<Token>, y: seq<Token>, st: Body, at: Body)
    requires SameStart(x, y) && st.depth > 0 && at.depth > 0
    requires Reaches(pre + x, st, |pre|, at) && RunBody(x, at) == RunBody(y, at)
    ensures Reaches(pre + y, st, |pre|, at) && RunBody(pre + y, st) == RunBody(pre + x, st)
  {
    ReachesToo(pre, x, y, st, at);
    RunBehind(pre, x, st, at);
    RunBehind(pre, y, st, at);
  }

  lemma SameGroups(open: Token, body: seq<Token>, body': seq<Token>, close: Token, post: seq<Token>, at: Body)
    requires at.depth == 1 && OpensBody(open) && Is(close, '}') && BracesClose(body, 0) && BracesClose(body', 0)
    ensures RunBody(Braced(open, body, close, post), at) == RunBody(Braced(open, body', close, post), at)
  {
    PassGroup(open, body, close, post, at);
    PassGroup(open, body', close, post, at);
  }

  ghost predicate Swappable(x: seq<Token>, y: seq<Token>, at: Body)
  {
    SameStart(x, y) && at.depth > 0 && RunBody(x, at) == RunBody(y, at)
  }

  ghost predicate Unaffected(pre: seq<Token>, x: seq<Token>, y: seq<Token>, st: Body, at: Body)
  {
    st.depth > 0 && (Reaches(pre + x, st, |pre|, at) ==>
        Reaches(pre + y, st, |pre|, at) && RunBody(pre + y, st) == RunBody(pre + x, st))
  }

  lemma Swap(x: seq<Token>, y: seq<Token>, at: Body)
    requires Swappable(x, y, at)
    ensures forall pre, st: Body :: st.depth > 0 ==> Unaffected(pre, x, y, st, at)
  {
    forall pre, st: Body | st.depth > 0
      ensures Unaffected(pre, x, y, st, at)
    {
      if Reaches(pre + x, st, |pre|, at) {
        SameRun(pre, x, y, st, at);
      }
    }
  }

  /** Wherever the scan of a body meets a brace at depth one, the balanced tokens up to its closing brace
      can be replaced by any others: fields, methods and unread tokens stay the same. */
  lemma BodiesDoNotMatter(open: Token, body: seq<Token>, body': seq<Token>, close: Token, post: seq<Token>, at: Body)
    requires at.depth == 1 && OpensBody(open) && Is(close, '}')
    requires BracesClose(body, 0) && BracesClose(body', 0)
    ensures var x, y := Braced(open, body, close, post), Braced(open, body', close, post);
      forall pre, st: Body :: st.depth > 0 ==> Unaffected(pre, x, y, st, at)
  {
    SameGroups(open, body, body', close, post, at);
    Swap(Braced(open, body, close, post), Braced(open, body', close, post), at);
  }
}
