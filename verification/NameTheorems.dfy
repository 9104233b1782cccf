/** How names are put together, and what of them is looked at: the last segment of an import, the name of a type. */
module NameTheorems {
  import opened Chars
  import opened Text
  import opened Lexer
  import opened LexerShapes
  import opened Decorators
  import opened Members
  import opened TypeBodies
  import opened Parser

  // ---------------------------------------------------------------- segments

  /** s is that segment, or ends in a dot followed by it. */
  predicate EndsInSegment(s: string, segment: string)
  {
    && '.' !in segment && |segment| <= |s| && s[|s| - |segment|..] == segment
    && (|segment| == |s| || s[|s| - |segment| - 1] == '.')
  }

  /** The last segment holds no dot and is what stands behind the last dot, or everything if there is none. */
  lemma {:induction false} LastSegmentIs(s: string, segment: string)
    ensures EndsInSegment(s, segment) <==> segment == LastSegment(s)
    decreases |s|
  {
    SegmentIsLast(s);
    if EndsInSegment(s, segment) {
      SegmentsAgree(s, segment, LastSegment(s));
    }
  }

  lemma {:induction false} SegmentIsLast(s: string)
    ensures EndsInSegment(s, LastSegment(s))
    decreases |s|
  {
    if s != "" && s[|s| - 1] != '.' {
      var front, last := s[..|s| - 1], s[|s| - 1];
      SegmentIsLast(front);
      SegmentGrows(front, LastSegment(front), last);
      assert s == front + [last];
    }
  }

  lemma SegmentGrows(s: string, segment: string, c: char)
    requires EndsInSegment(s, segment) && c != '.'
    ensures EndsInSegment(s + [c], segment + [c])
  {
    assert (s + [c])[|s| - |segment|..] == s[|s| - |segment|..] + [c];
  }

  lemma InSegment(s: string, segment: string, k: int)
    requires EndsInSegment(s, segment) && |s| - |segment| <= k < |s|
    ensures s[k] != '.'
  {
    assert segment[k - (|s| - |segment|)] == s[k];
  }

  lemma SegmentsAgree(s: string, x: string, y: string)
    requires EndsInSegment(s, x) && EndsInSegment(s, y)
    ensures x == y
  {
    SegmentsFit(s, x, y);
    SegmentsFit(s, y, x);
  }

  lemma SegmentsFit(s: string, x: string, y: string)
    requires EndsInSegment(s, x) && EndsInSegment(s, y)
    ensures |x| <= |y|
  {
    if |y| < |x| {
      InSegment(s, x, |s| - |y| - 1);
    }
  }

  // ---------------------------------------------------------------- names with dots

  /** The lexemes of names with a dot between any two; the dots themselves are skipped. */
  function Path(name: seq<Token>): string
  {
    if name == [] then "" else if |name| <= 2 then name[0].lexeme else name[0].lexeme + ("." + Path(name[2..]))
  }

  lemma DotIs(t: Token)
    requires Is(t, '.')
    ensures t.lexeme == "."
  {
  }

  lemma SpelledThree(x: Token, dot: Token, name: seq<Token>)
    ensures Spelled([x, dot] + name) == x.lexeme + (dot.lexeme + Spelled(name))
    ensures ([x, dot] + name)[2..] == name
  {
    assert ([x, dot] + name)[1..] == [dot] + name;
    assert ([dot] + name)[1..] == name;
  }

  lemma SpelledOne(x: Token)
    ensures Spelled([x]) == x.lexeme
  {
    assert [x][1..] == [];
  }

  /** The lexemes of a dotted name run together are its names with dots between them. */
  lemma {:induction false} SpelledIsPath(name: seq<Token>)
    requires DottedName(name)
    ensures Spelled(name) == Path(name)
    decreases |name|
  {
    if |name| == 1 {
      SpelledOne(name[0]);
      assert name == [name[0]];
    } else {
      DotIs(name[1]);
      SpelledIsPath(name[2..]);
      SpelledThree(name[0], name[1], name[2..]);
      assert name == [name[0], name[1]] + name[2..];
    }
  }

  /** An identifier, or the star of an import. */
  predicate Segment(t: Token) { IsIdentifier(t.lexeme) || t.lexeme == "*" }

  /** A name as declarations of packages and imports have it. */
  predicate QualifiedShape(name: seq<Token>)
  {
    && name != [] && Segment(name[0])
    && (|name| == 1 || (|name| > 2 && Is(name[1], '.') && QualifiedShape(name[2..])))
  }

  lemma IdentifierPlain(s: string)
    requires IsIdentifier(s)
    ensures Solid(s) && '.' !in s
  {
    assert IsIdentifierPart(s[|s| - 1]);
  }

  lemma SegmentPlain(t: Token)
    requires Segment(t)
    ensures Solid(t.lexeme) && '.' !in t.lexeme
  {
    if IsIdentifier(t.lexeme) {
      IdentifierPlain(t.lexeme);
    }
  }

  lemma SegmentBehind(x: string, s: string, segment: string)
    requires EndsInSegment(s, segment)
    ensures EndsInSegment(x + ("." + s), segment)
  {
    var all := x + ("." + s);
    assert all[|all| - |s|..] == s;
  }

  lemma SolidBehind(x: string, s: string)
    requires Solid(x) && Solid(s)
    ensures Solid(x + ("." + s))
  {
  }

  /** Such a name is its lexemes with dots between them, has nothing to trim, and ends in the last of its lexemes. */
  lemma {:induction false} QualifiedIs(name: seq<Token>)
    requires QualifiedShape(name)
    ensures Spelled(name) == Path(name) && Solid(Path(name)) && EndsInSegment(Path(name), name[|name| - 1].lexeme)
    decreases |name|
  {
    SegmentPlain(name[0]);
    if |name| == 1 {
      SpelledOne(name[0]);
      assert name == [name[0]];
    } else {
      DotIs(name[1]);
      QualifiedIs(name[2..]);
      SpelledThree(name[0], name[1], name[2..]);
      assert name == [name[0], name[1]] + name[2..];
      SegmentBehind(name[0].lexeme, Path(name[2..]), name[|name| - 1].lexeme);
      SolidBehind(name[0].lexeme, Path(name[2..]));
    }
  }

  // ---------------------------------------------------------------- imports

  /** The file with this import, stored under its last name. */
  function WithImport(file: FileInfo, name: seq<Token>): FileInfo
    requires name != []
  {
    file.(imports := file.imports[name[|name| - 1].lexeme := Path(name)])
  }

  /** An import is stored under its last name, with its names and dots. */
  lemma ImportedByLastName(file: FileInfo, name: seq<Token>)
    requires QualifiedShape(name)
    ensures Imported(file, TrimSpace(Spelled(name))) == WithImport(file, name)
  {
    QualifiedIs(name);
    SolidStays(Path(name));
    LastSegmentIs(Path(name), name[|name| - 1].lexeme);
  }

  /** Without a name nothing is imported. */
  lemma NothingImported(file: FileInfo)
    ensures Imported(file, TrimSpace(Spelled([]))) == file
  {
  }

  lemma SpelledBehind(t: Token, name: seq<Token>)
    ensures Spelled([t] + name) == t.lexeme + Spelled(name)
  {
    assert ([t] + name)[1..] == name;
  }

  lemma GluedSegment(x: string, name: seq<Token>)
    requires QualifiedShape(name) && |name| > 1
    ensures EndsInSegment(x + Path(name), name[|name| - 1].lexeme)
  {
    QualifiedIs(name[2..]);
    GluedBehind(x, name[0].lexeme, Path(name[2..]), name[|name| - 1].lexeme);
  }

  lemma GluedBehind(x: string, first: string, s: string, segment: string)
    requires EndsInSegment(s, segment)
    ensures EndsInSegment(x + (first + ("." + s)), segment)
  {
    SegmentBehind(x + first, s, segment);
    assert x + (first + ("." + s)) == (x + first) + ("." + s);
  }

  lemma SolidGlued(x: string, s: string)
    requires Solid(x) && Solid(s)
    ensures Solid(x + s)
  {
  }

  /** The keyword of a static import is taken for the beginning of its name. */
  lemma StaticImportsGlued(file: FileInfo, keyword: Token, name: seq<Token>)
    requires keyword.lexeme == "static" && QualifiedShape(name) && |name| > 1
    ensures Imported(file, TrimSpace(Spelled([keyword] + name)))
         == file.(imports := file.imports[name[|name| - 1].lexeme := "static" + Path(name)])
  {
    QualifiedIs(name);
    SpelledBehind(keyword, name);
    SolidGlued("static", Path(name));
    SolidStays("static" + Path(name));
    GluedSegment("static", name);
    LastSegmentIs("static" + Path(name), name[|name| - 1].lexeme);
  }

  /** Of two imports the later one takes the place of the earlier one exactly if they end in the same segment (or the
      earlier one was there already): all imports on demand share the segment `*`. */
  lemma LaterImportWins(file: FileInfo, a: string, b: string)
    requires a != "" && b != ""
    ensures Imported(Imported(file, a), b) == Imported(file, b)
       <==> LastSegment(a) == LastSegment(b) || (LastSegment(a) in file.imports && file.imports[LastSegment(a)] == a)
  {
    var m := file.imports;
    var k, l := LastSegment(a), LastSegment(b);
    if k != l {
      var both, later := (m[k := a])[l := b], m[l := b];
      assert k in both && both[k] == a;
      assert k in later <==> k in m;
      if k in m && m[k] == a {
        assert m[k := a] == m;
      }
    }
  }

  // ---------------------------------------------------------------- the name of a type

  /** The first token that is a name stands at k. */
  ghost predicate FirstNameAt(ts: seq<Token>, k: int)
  {
    && 0 <= k < |ts| && IsName(ts[k]) && ts[k].lexeme != ""
    && forall j :: 0 <= j < k ==> !(IsName(ts[j]) && ts[j].lexeme != "")
  }

  /** A type is named by the first name of its declaration, and has none exactly if there is no name in it. */
  lemma {:induction false} FirstNameIs(ts: seq<Token>)
    ensures forall k :: FirstNameAt(ts, k) ==> FirstName(ts) == ts[k].lexeme
    ensures FirstName(ts) != "" <==> exists k :: FirstNameAt(ts, k)
    decreases |ts|
  {
    if ts != [] {
      if IsName(ts[0]) && ts[0].lexeme != "" {
        assert FirstNameAt(ts, 0);
      } else {
        FirstNameIs(ts[1..]);
        forall k
          ensures FirstNameAt(ts, k) <==> FirstNameAt(ts[1..], k - 1)
        {
          FirstNameLater(ts, k);
        }
        if FirstName(ts) != "" {
          var k :| FirstNameAt(ts[1..], k);
          assert FirstNameAt(ts, k + 1);
        }
      }
    }
  }

  lemma FirstNameLater(ts: seq<Token>, k: int)
    requires ts != [] && !(IsName(ts[0]) && ts[0].lexeme != "")
    ensures FirstNameAt(ts, k) <==> FirstNameAt(ts[1..], k - 1)
  {
    if FirstNameAt(ts[1..], k - 1) {
      forall j | 0 <= j < k
        ensures !(IsName(ts[j]) && ts[j].lexeme != "")
      {
        assert j > 0 ==> ts[j] == ts[1..][j - 1];
      }
    }
  }

  // ---------------------------------------------------------------- words

  /** Of a lexed text exactly the tokens that begin like an identifier are names, keywords among them. */
  lemma NamesAreWords(kw: set<string>, text: string)
    ensures var r := LexFrom(kw, text, 0, Pos(0, 0));
      r.Tokens? ==> forall k :: 0 <= k < |r.tokens| ==>
        r.tokens[k].offset <= |text| && (IsName(r.tokens[k]) <==> OpensWord(text[r.tokens[k].offset..]))
  {
    TokensAreShaped(kw, text);
    var r := LexFrom(kw, text, 0, Pos(0, 0));
    assert r.Tokens? ==> forall k :: 0 <= k < |r.tokens| ==> TokenShaped(kw, text, r.tokens[k]);
  }

  lemma TypeKeywords(t: Token)
    ensures IsTypeKeyword(t) <==> t.lexeme in ["class", "interface", "record", "enum"]
  {
  }

  /** The words that are stripped from declarations; the last one is no single token for the lexer. */
  lemma ModifierWords(t: Token)
    ensures IsModifier(t) <==>
      || t.lexeme in ["public", "protected", "private"]
      || t.lexeme in ["abstract", "final", "static", "default", "sealed", "non-sealed"]
      || t.lexeme in ["native", "synchronized", "transient", "volatile"]
  {
  }
}
