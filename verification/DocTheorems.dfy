/** What is read of a documentation comment: its lines without their marks and blanks, empty ones dropped. */
module DocTheorems {
  import opened Chars
  import opened Text
  import opened Members
  import opened TypeBodies

  // ---------------------------------------------------------------- documentation or not

  /** Behind white space s begins with two stars after its slash. */
  ghost predicate Documents(s: string, left: string, rest: string)
  {
    AllOf(left, IsBlank) && s == left + ("/**" + rest)
  }

  lemma {:induction false} TrimRightKeeps(s: string)
    requires "/**" <= s
    ensures "/**" <= TrimRight(s)
    decreases |s|
  {
    if IsBlank(s[|s| - 1]) {
      TrimRightKeeps(s[..|s| - 1]);
    }
  }

  /** A comment is documentation exactly if that is so. */
  lemma DocCommentIs(s: string)
    ensures IsDocComment(s) <==> exists left, rest :: Documents(s, left, rest)
  {
    var left, right := TrimmedIs(s);
    var r := TrimSpace(s);
    if IsDocComment(s) {
      assert s == left + ("/**" + (r[3..] + right));
      assert Documents(s, left, r[3..] + right);
    }
    if left, rest :| Documents(s, left, rest) {
      TrimLeftOf(left, "/**" + rest);
      TrimRightKeeps("/**" + rest);
    }
  }

  // ---------------------------------------------------------------- one line

  /** Words of a line: nothing, or text without blanks or marks at its ends. */
  predicate Words(w: string)
  {
    w == "" || (Solid(w) && w[0] != '*' && w[0] != '/' && !EndsInMark(w))
  }

  predicate EndsInMark(s: string) { |s| >= 2 && s[|s| - 2] == '*' && s[|s| - 1] == '/' }

  /** A line with its marks: what may open it, words between blanks, and what may close it. The blanks next to a mark
      that is missing belong to the ends of the line. */
  ghost predicate Marked(open: string, pad: string, w: string, pad': string, close: string)
  {
    && (open == "" || open == "*" || open == "/*" || open == "/**") && (close == "" || close == "*/")
    && AllOf(pad, IsBlank) && AllOf(pad', IsBlank) && Words(w)
    && (open == "" ==> pad == "") && (close == "" ==> pad' == "")
    && (w == "" ==> pad' == "" && (close == "" ==> pad == ""))
    && !(open == "/*" && pad == "" && w == "" && close == "*/")
  }

  lemma PrefixGone(prefix: string, s: string)
    ensures TrimPrefix(prefix + s, prefix) == s
  {
  }

  lemma SuffixGone(s: string, suffix: string)
    ensures TrimSuffix(s + suffix, suffix) == s
  {
    assert (s + suffix)[|s|..] == suffix;
  }

  lemma SuffixStays(s: string)
    requires !EndsInMark(s)
    ensures TrimSuffix(s, "*/") == s
  {
    if |s| >= 2 {
      assert s[|s| - 2..][0] == s[|s| - 2] && s[|s| - 2..][1] == s[|s| - 1];
    }
  }

  /** The closing mark is cut off a body, and nothing else is. */
  lemma CloseGone(open: string, body: string, close: string)
    requires (close == "" && !EndsInMark(open + body)) || close == "*/"
    ensures TrimSuffix(open + (body + close), "*/") == open + body
  {
    if close == "" {
      assert body + "" == body;
      SuffixStays(open + body);
    } else {
      assert open + (body + close) == (open + body) + close;
      SuffixGone(open + body, close);
    }
  }

  lemma BodyTrimmed(pad: string, w: string, pad': string)
    requires AllOf(pad, IsBlank) && AllOf(pad', IsBlank) && (w == "" ==> pad' == "") && (w != "" ==> Solid(w))
    ensures TrimSpace(pad + (w + pad')) == w
  {
    if w == "" {
      TrimLeftOf(pad, "");
      assert w + pad' == "";
    } else {
      TrimOf(pad, w, pad');
    }
  }

  /** What the body of a line is followed by begins with neither mark. */
  lemma BodyBegins(pad: string, w: string, pad': string, close: string)
    requires AllOf(pad, IsBlank) && AllOf(pad', IsBlank) && Words(w) && (close == "" || close == "*/")
    ensures var s := (pad + (w + pad')) + close;
      s == "" || s[0] != '/'
    ensures var b := pad + (w + pad'); b == "" || b[0] != '*'
  {
    if pad == "" && w == "" && pad' != "" {
      assert pad + (w + pad') == pad';
    }
  }

  function Unmarked(t: string): string
  {
    TrimPrefix(TrimSuffix(TrimPrefix(TrimPrefix(t, "/**"), "/*"), "*/"), "*")
  }

  lemma SlashUnmarked(open: string, pad: string, w: string, pad': string, close: string)
    requires Marked(open, pad, w, pad', close) && (open == "/**" || open == "/*")
    ensures Unmarked(open + ((pad + (w + pad')) + close)) == pad + (w + pad')
  {
    var body := pad + (w + pad');
    BodyBegins(pad, w, pad', close);
    SlashGone(open, body, close);
    BodyEnds("", pad, w, pad');
    CloseGone("", body, close);
    assert "" + (body + close) == body + close && "" + body == body;
  }

  lemma StarUnmarked(open: string, pad: string, w: string, pad': string, close: string)
    requires Marked(open, pad, w, pad', close) && (open == "" || open == "*")
    ensures Unmarked(open + ((pad + (w + pad')) + close)) == pad + (w + pad')
  {
    var body := pad + (w + pad');
    BodyBegins(pad, w, pad', close);
    BodyEnds(open, pad, w, pad');
    CloseGone(open, body, close);
    StarGone(open, body, close);
  }

  lemma StarGone(open: string, body: string, close: string)
    requires open == "" || open == "*"
    requires (body == "" || body[0] != '*') && (body + close == "" || (body + close)[0] != '/')
    ensures TrimPrefix(open + (body + close), "/**") == open + (body + close)
    ensures TrimPrefix(open + (body + close), "/*") == open + (body + close)
    ensures TrimPrefix(open + body, "*") == body
  {
    var t := open + (body + close);
    if open == "*" {
      assert t[0] == '*';
      PrefixGone("*", body);
    } else {
      assert t == body + close && open + body == body;
    }
  }

  /** A line is cleaned to its words when its marks are taken off and then the blanks. */
  lemma OpenedClean(open: string, pad: string, w: string, pad': string, close: string)
    requires Marked(open, pad, w, pad', close)
    ensures TrimSpace(Unmarked(open + ((pad + (w + pad')) + close))) == w
  {
    BodyTrimmed(pad, w, pad');
    if open == "/**" || open == "/*" {
      SlashUnmarked(open, pad, w, pad', close);
    } else {
      StarUnmarked(open, pad, w, pad', close);
    }
  }

  /** Without a closing mark the end of a body is no mark. */
  lemma BodyEnds(open: string, pad: string, w: string, pad': string)
    requires (open == "" || open == "*") && AllOf(pad, IsBlank) && AllOf(pad', IsBlank) && Words(w)
    requires w == "" ==> pad' == ""
    ensures pad' == "" ==> !EndsInMark(open + (pad + (w + pad')))
  {
    var s := open + (pad + (w + pad'));
    if pad' == "" && w != "" {
      assert s[|s| - 1] == w[|w| - 1];
      assert |w| >= 2 ==> s[|s| - 2] == w[|w| - 2];
    } else if pad' == "" && pad != "" {
      assert s[|s| - 1] == pad[|pad| - 1];
    }
  }

  lemma SlashGone(open: string, body: string, close: string)
    requires (open == "/**" || open == "/*") && (close == "" || close == "*/")
    requires (body == "" || body[0] != '*') && (body + close == "" || (body + close)[0] != '/')
    requires !(open == "/*" && body == "" && close == "*/")
    ensures TrimPrefix(TrimPrefix(open + (body + close), "/**"), "/*") == body + close
  {
    var t := open + (body + close);
    PrefixGone(open, body + close);
    if open == "/*" {
      assert |t| > 2 ==> t[2] == (body + close)[0];
    }
  }

  /** A marked line is cleaned to its words. */
  lemma MarksCleaned(left: string, open: string, pad: string, w: string, pad': string, close: string, right: string)
    requires AllOf(left, IsBlank) && AllOf(right, IsBlank) && Marked(open, pad, w, pad', close)
    ensures CleanLine(left + ((open + ((pad + (w + pad')) + close)) + right)) == w
  {
    var t := open + ((pad + (w + pad')) + close);
    OpenedClean(open, pad, w, pad', close);
    if t == "" {
      assert left + (t + right) == (left + right) + "";
      TrimLeftOf(left + right, "");
    } else {
      LineSolid(open, pad, w, pad', close);
      TrimOf(left, t, right);
    }
  }

  lemma LineSolid(open: string, pad: string, w: string, pad': string, close: string)
    requires Marked(open, pad, w, pad', close) && open + ((pad + (w + pad')) + close) != ""
    ensures Solid(open + ((pad + (w + pad')) + close))
  {
    var t := open + ((pad + (w + pad')) + close);
    if open != "" {
      assert t[0] == open[0];
    }
    if close != "" {
      assert t[|t| - 1] == close[1];
    } else if w != "" {
      assert t[|t| - 1] == w[|w| - 1];
    } else {
      assert t == open;
    }
  }

  /** An empty block comment is taken for documentation that says "/". */
  lemma EmptyCommentDocuments()
    ensures IsDocComment("/**/") && CleanDoc("/**/") == "/"
  {
    var s := "/**/";
    SolidStays(s);
    SolidStays("/");
    LinesOfLine(s);
    assert TrimPrefix(s, "/**") == "/";
    SuffixStays("/");
    assert CleanLine(s) == "/";
    assert [s][1..] == [];
  }

  // ---------------------------------------------------------------- a whole comment

  /** Lines of words as a documentation comment has them. */
  function Starred(ws: seq<string>): seq<string>
  {
    if ws == [] then [] else [" * " + ws[0]] + Starred(ws[1..])
  }

  function DocText(ws: seq<string>): string { JoinLines(["/**"] + (Starred(ws) + [" */"])) }

  ghost predicate WordLines(ws: seq<string>)
  {
    forall k :: 0 <= k < |ws| ==> Words(ws[k]) && OneLine(ws[k])
  }

  /** The lines that say something. */
  function Said(ws: seq<string>): seq<string>
  {
    if ws == [] then [] else (if ws[0] == "" then [] else [ws[0]]) + Said(ws[1..])
  }

  lemma StarredLine(w: string)
    ensures " " + (("*" + ((" " + (w + "")) + "")) + "") == " * " + w
  {
    assert " " + ("*" + (" " + w)) == " * " + w;
  }

  lemma StarredClean(w: string)
    requires Words(w)
    ensures CleanLine(" * " + w) == w
  {
    if w == "" {
      EmptyStarred();
    } else {
      MarksCleaned(" ", "*", " ", w, "", "", "");
      StarredLine(w);
    }
  }

  lemma EmptyStarred()
    ensures CleanLine(" * " + "") == ""
  {
    MarksCleaned(" ", "*", "", "", "", "", " ");
    assert " " + (("*" + (("" + ("" + "")) + "")) + " ") == " * " + "";
  }

  lemma EndsClean()
    ensures CleanLine("/**") == "" && CleanLine(" */") == ""
  {
    MarksCleaned("", "/**", "", "", "", "", "");
    assert "" + (("/**" + (("" + ("" + "")) + "")) + "") == "/**";
    MarksCleaned(" ", "", "", "", "", "*/", "");
    assert " " + (("" + (("" + ("" + "")) + "*/")) + "") == " */";
  }

  lemma {:induction false} NonEmptyBoth(a: seq<string>, b: seq<string>)
    ensures NonEmpty(a + b) == NonEmpty(a) + NonEmpty(b)
    decreases |a|
  {
    if a == [] {
      assert a + b == b;
    } else {
      assert (a + b)[1..] == a[1..] + b;
      NonEmptyBoth(a[1..], b);
    }
  }

  lemma {:induction false} StarredSaid(ws: seq<string>)
    requires WordLines(ws)
    ensures NonEmpty(Starred(ws)) == Said(ws)
    ensures forall k :: 0 <= k < |Starred(ws)| ==> OneLine(Starred(ws)[k])
    decreases |ws|
  {
    if ws != [] {
      StarredClean(ws[0]);
      StarredSaid(ws[1..]);
    }
  }

  lemma BeginsAsDoc(lines: seq<string>)
    requires lines != []
    ensures "/**" <= JoinLines(["/**"] + lines)
  {
    assert (["/**"] + lines)[1..] == lines;
  }

  lemma DocIsSaid(ws: seq<string>)
    requires WordLines(ws)
    ensures NonEmpty(["/**"] + (Starred(ws) + [" */"])) == Said(ws)
  {
    EndsClean();
    StarredSaid(ws);
    NonEmptyBoth(["/**"], Starred(ws) + [" */"]);
    NonEmptyBoth(Starred(ws), [" */"]);
    NothingSaid("/**");
    NothingSaid(" */");
  }

  lemma DocLines(ws: seq<string>)
    requires WordLines(ws)
    ensures Lines(DocText(ws)) == ["/**"] + (Starred(ws) + [" */"])
  {
    StarredSaid(ws);
    LinesOfJoin(["/**"] + (Starred(ws) + [" */"]));
  }

  /** A documentation comment written out line by line is documentation, and its words come back line by line. */
  lemma DocReadsBack(ws: seq<string>)
    requires WordLines(ws)
    ensures IsDocComment(DocText(ws)) && CleanDoc(DocText(ws)) == if Said(ws) == [] then "" else JoinLines(Said(ws))
  {
    BeginsAsDoc(Starred(ws) + [" */"]);
    assert TrimLeft(DocText(ws)) == DocText(ws);
    TrimRightKeeps(DocText(ws));
    DocLines(ws);
    DocIsSaid(ws);
  }

  lemma NothingSaid(line: string)
    requires CleanLine(line) == ""
    ensures NonEmpty([line]) == []
  {
    assert [line][1..] == [];
  }
}
