/** The order of completion items: scores printed into sort keys, duplicates dropped, a stable sort. */
module Completion {
  import opened Chars
  import opened Framing
  import opened Members
  import opened Sorting

  // ---------------------------------------------------------------- scores

  /** What is expected at the cursor; empty where nothing is. */
  datatype Expectation = Expectation(expectedType: string, targetName: string)

  datatype Method = Method(name: string, returnType: string, generated: bool)

  /** What the character tables of the library decide: lower case, and which characters are white space. */
  datatype Tables = Tables(lower: string -> string, blank: char -> bool)

  predicate StandsAt(s: string, sub: string, i: int)
  {
    0 <= i && i + |sub| <= |s| && s[i..i + |sub|] == sub
  }

  predicate Contains(s: string, sub: string)
  {
    exists i :: 0 <= i <= |s| && StandsAt(s, sub, i)
  }

  ghost predicate CutAround(s: string, a: string, sub: string, b: string) { s == a + (sub + b) }

  /** To contain a string is to be that string with something in front and behind. */
  lemma ContainsIs(s: string, sub: string)
    ensures Contains(s, sub) <==> exists a, b :: CutAround(s, a, sub, b)
  {
    if i :| 0 <= i <= |s| && StandsAt(s, sub, i) {
      assert CutAround(s, s[..i], sub, s[i + |sub|..]);
    }
    if a, b :| CutAround(s, a, sub, b) {
      assert s[|a|..|a| + |sub|] == sub;
      assert StandsAt(s, sub, |a|);
    }
  }

  /** A type without its white space: its fields run together. */
  function WithoutBlanks(s: string, blank: char -> bool): string
  {
    if s == "" then ""
    else if blank(s[0]) then WithoutBlanks(s[1..], blank)
    else [s[0]] + WithoutBlanks(s[1..], blank)
  }

  function NormalizeTypeForMatch(u: Tables, value: string): string
  {
    TrimPrefix(WithoutBlanks(value, u.blank), "java.lang.")
  }

  function OuterTypeName(value: string): string
  {
    if value == "" || value[0] == '<' then "" else [value[0]] + OuterTypeName(value[1..])
  }

  predicate EndsInS(value: string) { value != "" && value[|value| - 1] == 's' }

  function Singularize(value: string): string { if EndsInS(value) && |value| > 1 then value[..|value| - 1] else value }

  function Pluralize(value: string): string { if EndsInS(value) then value else value + "s" }

  predicate ExactType(u: Tables, e: Expectation, m: Method)
  {
    e.expectedType != "" && NormalizeTypeForMatch(u, e.expectedType) == NormalizeTypeForMatch(u, m.returnType)
  }

  predicate OuterType(u: Tables, e: Expectation, m: Method)
  {
    e.expectedType != ""
    && OuterTypeName(NormalizeTypeForMatch(u, e.expectedType)) == OuterTypeName(NormalizeTypeForMatch(u, m.returnType))
  }

  function NamePoints(target: string, name: string): nat
  {
    if Contains(name, target) then 40
    else if Contains(name, Singularize(target)) || Contains(name, Pluralize(target)) then 20
    else 0
  }

  function Score(u: Tables, e: Expectation, m: Method): nat
  {
    (if ExactType(u, e, m) then 200 else if OuterType(u, e, m) then 120 else 0)
    + (if e.targetName != "" then NamePoints(u.lower(e.targetName), u.lower(m.name)) else 0)
    + (if m.generated then 10 else 0)
  }

  method HasSubstring(s: string, sub: string) returns (found: bool)
    ensures found <==> Contains(s, sub)
  {
    var i := 0;
    while i + |sub| <= |s|
      invariant 0 <= i
      invariant forall k :: 0 <= k < i ==> !StandsAt(s, sub, k)
    {
      if s[i..i + |sub|] == sub {
        assert StandsAt(s, sub, i);
        return true;
      }
      i := i + 1;
    }
    return false;
  }

  lemma SameIsInside(s: string, sub: string)
    ensures s == sub ==> Contains(s, sub)
  {
    if s == sub {
      assert StandsAt(s, sub, 0);
    }
  }

  method MethodCompletionScore(u: Tables, e: Expectation, m: Method) returns (score: nat)
    ensures score == Score(u, e, m)
  {
    score := 0;
    if e.expectedType != "" {
      var expected, returnType := NormalizeTypeForMatch(u, e.expectedType), NormalizeTypeForMatch(u, m.returnType);
      if expected == returnType {
        score := score + 200;
      } else if OuterTypeName(expected) == OuterTypeName(returnType) {
        score := score + 120;
      }
    }
    if e.targetName != "" {
      var target, name := u.lower(e.targetName), u.lower(m.name);
      var inside := HasSubstring(name, target);
      SameIsInside(name, target);
      if name == target || inside {
        score := score + 40;
      } else {
        var singular := HasSubstring(name, Singularize(target));
        var plural := HasSubstring(name, Pluralize(target));
        if singular || plural {
          score := score + 20;
        }
      }
    }
    if m.generated {
      score := score + 10;
    }
  }

  /** Scores stay within the bound that makes the sort keys work, and the type decides before name and origin do. */
  lemma ScoreRanks(u: Tables, e: Expectation, m: Method, m': Method)
    ensures 0 <= Score(u, e, m) <= 250
    ensures ExactType(u, e, m) && !ExactType(u, e, m') ==> Score(u, e, m) > Score(u, e, m')
    ensures OuterType(u, e, m) && !OuterType(u, e, m') ==> Score(u, e, m) > Score(u, e, m')
  {
  }

  // ---------------------------------------------------------------- what the scores are made of

  lemma PartStands(s: string, sub: string, part: string)
    requires Contains(s, sub) && part <= sub
    ensures Contains(s, part)
  {
    var i :| 0 <= i <= |s| && StandsAt(s, sub, i);
    assert s[i..i + |part|] == s[i..i + |sub|][..|part|];
    assert StandsAt(s, part, i);
  }

  /** The name holds the target without its final `s`. */
  predicate HoldsStem(target: string, name: string)
  {
    |target| > 1 && target[|target| - 1] == 's' && Contains(name, target[..|target| - 1])
  }

  /** A name that holds the target gets the most points, one that holds it but for a final `s` gets half of them. A name
      that holds the plural holds the target, so looking for the plural finds nothing new. */
  lemma NamePointsAre(target: string, name: string)
    ensures NamePoints(target, name) == if Contains(name, target) then 40 else if HoldsStem(target, name) then 20 else 0
  {
    if !EndsInS(target) && Contains(name, Pluralize(target)) {
      assert target <= Pluralize(target);
      PartStands(name, Pluralize(target), target);
    }
  }

  /** How well the return type fits. */
  function TypeRank(u: Tables, e: Expectation, m: Method): nat
  {
    var expected, returned := NormalizeTypeForMatch(u, e.expectedType), NormalizeTypeForMatch(u, m.returnType);
    if e.expectedType == "" then 0
    else if expected == returned then 2
    else if OuterTypeName(expected) == OuterTypeName(returned) then 1
    else 0
  }

  /** How well the name does. */
  function NameRank(u: Tables, e: Expectation, m: Method): nat
  {
    if e.targetName == "" then 0
    else if Contains(u.lower(m.name), u.lower(e.targetName)) then 2
    else if HoldsStem(u.lower(e.targetName), u.lower(m.name)) then 1
    else 0
  }

  /** What a score is made of. */
  lemma ScoreIs(u: Tables, e: Expectation, m: Method)
    ensures Score(u, e, m)
         == [0, 120, 200][TypeRank(u, e, m)] + 20 * NameRank(u, e, m) + (if m.generated then 10 else 0)
  {
    NamePointsAre(u.lower(e.targetName), u.lower(m.name));
  }

  /** Scores compare type first, then name, then origin: no points of a later kind make up for an earlier one. */
  lemma ScoresRank(u: Tables, e: Expectation, m: Method, m': Method)
    ensures Score(u, e, m) > Score(u, e, m') <==>
      || TypeRank(u, e, m) > TypeRank(u, e, m')
      || (TypeRank(u, e, m) == TypeRank(u, e, m')
          && (|| NameRank(u, e, m) > NameRank(u, e, m')
              || (NameRank(u, e, m) == NameRank(u, e, m') && m.generated && !m'.generated)))
  {
    ScoreIs(u, e, m);
    ScoreIs(u, e, m');
  }

  lemma {:induction false} BlanksGone(a: string, b: string, blank: char -> bool)
    ensures WithoutBlanks(a + b, blank) == WithoutBlanks(a, blank) + WithoutBlanks(b, blank)
    ensures forall c :: WithoutBlanks([c], blank) == if blank(c) then "" else [c]
    decreases |a|
  {
    forall c
      ensures WithoutBlanks([c], blank) == if blank(c) then "" else [c]
    {
      assert [c][1..] == "";
    }
    if a == "" {
      assert a + b == b;
    } else {
      assert (a + b)[1..] == a[1..] + b;
      BlanksGone(a[1..], b, blank);
    }
  }

  /** Types are matched without white space and without `java.lang.` in front. */
  lemma MatchedType(u: Tables, value: string, rest: string)
    ensures WithoutBlanks(value, u.blank) == "java.lang." + rest ==> NormalizeTypeForMatch(u, value) == rest
    ensures !("java.lang." <= WithoutBlanks(value, u.blank)) ==>
              NormalizeTypeForMatch(u, value) == WithoutBlanks(value, u.blank)
  {
    assert ("java.lang." + rest)[10..] == rest;
  }

  /** The outer type is what stands in front of the first angle bracket, or everything. */
  lemma {:induction false} OuterTypeIs(value: string) returns (arguments: string)
    ensures value == OuterTypeName(value) + arguments && '<' !in OuterTypeName(value)
    ensures arguments == "" || arguments[0] == '<'
    decreases |value|
  {
    if value == "" || value[0] == '<' {
      arguments := value;
      assert value == "" + value;
    } else {
      arguments := OuterTypeIs(value[1..]);
      assert value == [value[0]] + value[1..];
    }
  }

  // ---------------------------------------------------------------- sort keys

  /** Strings in byte order. */
  predicate Less(a: string, b: string)
  {
    b != "" && (a == "" || a[0] < b[0] || (a[0] == b[0] && Less(a[1..], b[1..])))
  }

  function PadLeft(s: string, width: nat): string
    decreases width - |s|
  {
    if |s| >= width then s else PadLeft("0" + s, width)
  }

  /** `%04d`: zeros on the left up to four characters, a sign included. */
  function FourDigits(n: int): string
  {
    if n >= 0 then PadLeft(Decimal(n), 4) else "-" + PadLeft(Decimal(-n), 3)
  }

  function SortKey(score: int, name: string): string { FourDigits(9999 - score) + (":" + name) }

  /** The digits of a number, its last four places. */
  function Place(n: nat, unit: nat): char
    requires unit > 0
  {
    Digit(n / unit % 10)
  }

  lemma FourDigitsAre(n: nat)
    requires n <= 9999
    ensures FourDigits(n) == [Place(n, 1000), Place(n, 100), Place(n, 10), Place(n, 1)]
  {
    if n < 10 {
      PadThree(Place(n, 1));
    } else if n < 100 {
      assert Decimal(n / 10) == [Place(n, 10)];
      assert Decimal(n) == [Place(n, 10), Place(n, 1)];
      PadTwo(Place(n, 10), Place(n, 1));
    } else if n < 1000 {
      ThreeDigits(n);
      PadOne(Place(n, 100), Place(n, 10), Place(n, 1));
    } else {
      ThreeDigits(n / 10);
      assert n / 10 / 10 == n / 100 && n / 10 / 100 == n / 1000;
    }
  }

  lemma ThreeDigits(n: nat)
    requires 100 <= n < 1000
    ensures Decimal(n) == [Place(n, 100), Place(n, 10), Place(n, 1)]
  {
    assert Decimal(n / 100) == [Place(n, 100)];
    assert n / 10 / 10 == n / 100;
    assert Decimal(n / 10) == [Place(n, 100), Place(n, 10)];
  }

  lemma PadOne(b: char, c: char, d: char)
    ensures PadLeft([b, c, d], 4) == ['0', b, c, d]
  {
    assert "0" + [b, c, d] == ['0', b, c, d];
  }

  lemma PadTwo(c: char, d: char)
    ensures PadLeft([c, d], 4) == ['0', '0', c, d]
  {
    assert PadLeft([c, d], 4) == PadLeft("0" + [c, d], 4) == PadLeft("0" + ("0" + [c, d]), 4);
  }

  lemma PadThree(d: char)
    ensures PadLeft([d], 4) == ['0', '0', '0', d]
  {
    assert "0" + [d] == ['0', d];
    PadTwo('0', d);
  }

  lemma LessStep(a: char, s: string, b: char, t: string)
    ensures Less([a] + s, [b] + t) <==> a < b || (a == b && Less(s, t))
  {
    assert ([a] + s)[1..] == s && ([b] + t)[1..] == t;
  }

  /** Behind four characters each, compared one after the other. */
  lemma LessBehindFour(a: string, s: string, b: string, t: string)
    requires |a| == 4 && |b| == 4
    ensures Less(a + s, b + t) <==>
      || a[0] < b[0]
      || (a[0] == b[0] && (a[1] < b[1]
      || (a[1] == b[1] && (a[2] < b[2]
      || (a[2] == b[2] && (a[3] < b[3] || (a[3] == b[3] && Less(s, t))))))))
  {
    assert a + s == [a[0]] + ([a[1]] + ([a[2]] + ([a[3]] + s)));
    assert b + t == [b[0]] + ([b[1]] + ([b[2]] + ([b[3]] + t)));
    LessStep(a[3], s, b[3], t);
    LessStep(a[2], [a[3]] + s, b[2], [b[3]] + t);
    LessStep(a[1], [a[2]] + ([a[3]] + s), b[1], [b[2]] + ([b[3]] + t));
    LessStep(a[0], [a[1]] + ([a[2]] + ([a[3]] + s)), b[0], [b[1]] + ([b[2]] + ([b[3]] + t)));
  }

  lemma Places(n: nat)
    requires n <= 9999
    ensures n == 1000 * (n / 1000 % 10) + 100 * (n / 100 % 10) + 10 * (n / 10 % 10) + n / 1 % 10
  {
    assert n / 100 == 10 * (n / 1000) + n / 100 % 10;
    assert n / 10 == 10 * (n / 100) + n / 10 % 10;
  }

  /** Four-digit numbers compare as their digits do. */
  lemma DigitOrder(m: nat, n: nat, s: string, t: string)
    requires m <= 9999 && n <= 9999
    ensures Less(FourDigits(m) + s, FourDigits(n) + t) <==> m < n || (m == n && Less(s, t))
  {
    FourDigitsAre(m);
    FourDigitsAre(n);
    LessBehindFour(FourDigits(m), s, FourDigits(n), t);
    Places(m);
    Places(n);
  }

  lemma DigitsDiffer(m: nat, n: nat)
    requires m <= 9999 && n <= 9999 && FourDigits(m) == FourDigits(n)
    ensures m == n
  {
    FourDigitsAre(m);
    FourDigitsAre(n);
    Places(m);
    Places(n);
    assert Place(m, 1000) == FourDigits(m)[0] == Place(n, 1000);
    assert Place(m, 100) == FourDigits(m)[1] == Place(n, 100);
    assert Place(m, 10) == FourDigits(m)[2] == Place(n, 10);
    assert Place(m, 1) == FourDigits(m)[3] == Place(n, 1);
  }

  /** For scores from 0 to 9999 keys in string order are scores in descending order, then labels. */
  lemma KeyOrder(score: nat, name: string, score': nat, name': string)
    requires score <= 9999 && score' <= 9999
    ensures Less(SortKey(score, name), SortKey(score', name'))
       <==> score > score' || (score == score' && Less(name, name'))
    ensures SortKey(score, name) == SortKey(score', name') <==> score == score' && name == name'
  {
    var m, n := 9999 - score, 9999 - score';
    DigitOrder(m, n, ":" + name, ":" + name');
    LessStep(':', name, ':', name');
    FourDigitsAre(m);
    FourDigitsAre(n);
    if SortKey(score, name) == SortKey(score', name') {
      KeyHalves(FourDigits(m), ":" + name, FourDigits(n), ":" + name');
      DigitsDiffer(m, n);
      assert (":" + name)[1..] == name && (":" + name')[1..] == name';
    }
  }

  lemma ValueOfFour(a: char, b: char, c: char, d: char)
    requires IsDigit(a) && IsDigit(b) && IsDigit(c) && IsDigit(d)
    ensures DigitsValue([a, b, c, d])
         == 1000 * (a as int - 48) + 100 * (b as int - 48) + 10 * (c as int - 48) + (d as int - 48)
  {
    assert [a, b, c, d][..3] == [a, b, c] && [a, b, c][..2] == [a, b] && [a, b][..1] == [a] && [a][..0] == "";
    assert DigitsValue([a]) == a as int - 48;
    assert DigitsValue([a, b]) == 10 * DigitsValue([a]) + (b as int - 48);
    assert DigitsValue([a, b, c]) == 10 * DigitsValue([a, b]) + (c as int - 48);
  }

  /** A key is four digits that count down from 9999, a colon, and the name. */
  lemma SortKeyIs(score: nat, name: string)
    requires score <= 9999
    ensures var k := SortKey(score, name);
      && |k| == 5 + |name| && k[4] == ':' && k[5..] == name
      && AllDigits(k[..4]) && DigitsValue(k[..4]) == 9999 - score
  {
    var n := 9999 - score;
    FourDigitsAre(n);
    Places(n);
    var k := SortKey(score, name);
    assert k[..4] == FourDigits(n);
    ValueOfFour(Place(n, 1000), Place(n, 100), Place(n, 10), Place(n, 1));
  }

  lemma PadThreeOf(n: nat)
    requires n <= 999
    ensures PadLeft(Decimal(n), 3) == [Place(n, 100), Place(n, 10), Place(n, 1)]
  {
    if n < 10 {
      PadTwoOf(Place(n, 1));
    } else if n < 100 {
      assert Decimal(n / 10) == [Place(n, 10)];
      assert "0" + [Place(n, 10), Place(n, 1)] == ['0', Place(n, 10), Place(n, 1)];
    } else {
      ThreeDigits(n);
    }
  }

  lemma PadTwoOf(d: char)
    ensures PadLeft([d], 3) == ['0', '0', d]
  {
    assert "0" + [d] == ['0', d] && "0" + ['0', d] == ['0', '0', d];
    assert PadLeft([d], 3) == PadLeft("0" + [d], 3) == PadLeft("0" + ['0', d], 3);
  }

  lemma HighFirst(score: nat, name: string, score': nat, name': string)
    requires score' <= 9999 < score <= 10998
    ensures Less(SortKey(score, name), SortKey(score', name'))
  {
    PadThreeOf(score - 9999);
    FourDigitsAre(9999 - score');
    LessBehindFour(FourDigits(9999 - score), ":" + name, FourDigits(9999 - score'), ":" + name');
  }

  lemma HighAscend(score: nat, name: string, score': nat, name': string)
    requires 9999 < score < score' <= 10998
    ensures Less(SortKey(score, name), SortKey(score', name'))
  {
    var m, n := score - 9999, score' - 9999;
    PadThreeOf(m);
    PadThreeOf(n);
    Places(m);
    Places(n);
    LessBehindFour(FourDigits(-m), ":" + name, FourDigits(-n), ":" + name');
  }

  /** Scores beyond 9999 give keys that stand in front of all others, but in ascending order. */
  lemma HighKeys(score: nat, name: string, score': nat, name': string)
    requires 9999 < score <= 10998
    ensures score' <= 9999 ==> Less(SortKey(score, name), SortKey(score', name'))
    ensures score < score' <= 10998 ==> Less(SortKey(score, name), SortKey(score', name'))
  {
    if score' <= 9999 {
      HighFirst(score, name, score', name');
    } else if score < score' <= 10998 {
      HighAscend(score, name, score', name');
    }
  }

  /** The sort keys of methods put the better match first: scores decide, the type before all else, and then names. */
  lemma MethodsRank(u: Tables, e: Expectation, m: Method, m': Method)
    ensures Less(SortKey(Score(u, e, m), m.name), SortKey(Score(u, e, m'), m'.name))
       <==> Score(u, e, m) > Score(u, e, m') || (Score(u, e, m) == Score(u, e, m') && Less(m.name, m'.name))
    ensures (ExactType(u, e, m) && !ExactType(u, e, m')) || (OuterType(u, e, m) && !OuterType(u, e, m')) ==>
              Less(SortKey(Score(u, e, m), m.name), SortKey(Score(u, e, m'), m'.name))
  {
    ScoreRanks(u, e, m, m');
    ScoreRanks(u, e, m', m);
    KeyOrder(Score(u, e, m), m.name, Score(u, e, m'), m'.name);
  }

  lemma KeyHalves(a: string, s: string, b: string, t: string)
    requires |a| == |b| && a + s == b + t
    ensures a == b && s == t
  {
    assert a == (a + s)[..|a|] && s == (a + s)[|a|..];
    assert b == (b + t)[..|b|] && t == (b + t)[|b|..];
  }

  // ---------------------------------------------------------------- items

  /** An item; `payload` stands for what neither the order nor the search for duplicates looks at. */
  datatype CompletionItem = CompletionItem(text: string, detail: string, sortText: string, payload: string)

  /** The comparator of the sort: sort key, then label, then detail. */
  predicate ItemLess(x: CompletionItem, y: CompletionItem)
  {
    if x.sortText != y.sortText then Less(x.sortText, y.sortText)
    else if x.text != y.text then Less(x.text, y.text)
    else Less(x.detail, y.detail)
  }

  lemma {:induction false} LessTotal(a: string, b: string)
    ensures Less(a, b) ==> !Less(b, a)
    ensures Less(a, b) || Less(b, a) || a == b
    ensures !Less(a, a)
    decreases |a|
  {
    if a != "" {
      LessTotal(a[1..], a[1..]);
      if b != "" {
        LessTotal(a[1..], b[1..]);
        assert a == [a[0]] + a[1..] && b == [b[0]] + b[1..];
      }
    }
  }

  lemma {:induction false} LessTransitive(a: string, b: string, c: string)
    requires Less(a, b) && Less(b, c)
    ensures Less(a, c)
    decreases |a|
  {
    if a != "" && a[0] == b[0] == c[0] {
      LessTransitive(a[1..], b[1..], c[1..]);
    }
  }

  lemma NotLessTransitive(a: string, b: string, c: string)
    requires !Less(a, b) && !Less(b, c)
    ensures !Less(a, c)
    ensures a == c ==> a == b
  {
    LessTotal(a, b);
    LessTotal(b, c);
    LessTotal(a, c);
    if a != b && b != c {
      LessTransitive(c, b, a);
    }
  }

  lemma ItemsOrdered(x: CompletionItem, y: CompletionItem)
    ensures ItemLess(x, y) ==> !ItemLess(y, x)
    ensures !ItemLess(x, y) && !ItemLess(y, x) ==> x.sortText == y.sortText && x.text == y.text && x.detail == y.detail
  {
    LessTotal(x.sortText, y.sortText);
    LessTotal(x.text, y.text);
    LessTotal(x.detail, y.detail);
  }

  lemma ItemsTransitive(x: CompletionItem, y: CompletionItem, z: CompletionItem)
    requires !ItemLess(x, y) && !ItemLess(y, z)
    ensures !ItemLess(x, z)
  {
    LessTotal(x.sortText, y.sortText);
    LessTotal(y.sortText, z.sortText);
    LessTotal(x.text, y.text);
    LessTotal(y.text, z.text);
    NotLessTransitive(x.sortText, y.sortText, z.sortText);
    if x.sortText == y.sortText == z.sortText {
      NotLessTransitive(x.text, y.text, z.text);
      if x.text == y.text == z.text {
        NotLessTransitive(x.detail, y.detail, z.detail);
      }
    }
  }

  lemma ItemOrder()
    ensures StrictWeakOrder(ItemLess)
  {
    forall x: CompletionItem, y: CompletionItem
      ensures ItemLess(x, y) ==> !ItemLess(y, x)
    {
      ItemsOrdered(x, y);
    }
    forall x: CompletionItem, y: CompletionItem, z: CompletionItem | !ItemLess(x, y) && !ItemLess(y, z)
      ensures !ItemLess(x, z)
    {
      ItemsTransitive(x, y, z);
    }
  }

  // ---------------------------------------------------------------- duplicates

  function Key(item: CompletionItem): string { item.text + ("\0" + item.detail) }

  predicate HasKey(items: seq<CompletionItem>, key: string)
  {
    exists k :: 0 <= k < |items| && Key(items[k]) == key
  }

  /** The first item of every key. */
  function Dedupe(items: seq<CompletionItem>): seq<CompletionItem>
  {
    if items == [] then []
    else
      var front, last := items[..|items| - 1], items[|items| - 1];
      if HasKey(front, Key(last)) then Dedupe(front) else Dedupe(front) + [last]
  }

  method DedupeCompletionItems(items: seq<CompletionItem>) returns (deduped: seq<CompletionItem>)
    ensures deduped == Dedupe(items)
  {
    var seen: set<string> := {};
    deduped := [];
    for i := 0 to |items|
      invariant deduped == Dedupe(items[..i])
      invariant forall key :: key in seen <==> HasKey(items[..i], key)
    {
      var item := items[i];
      var key := Key(item);
      assert items[..i + 1][..i] == items[..i];
      KeysGrow(items[..i], item);
      assert items[..i] + [item] == items[..i + 1];
      if key in seen {
        continue;
      }
      seen := seen + {key};
      deduped := deduped + [item];
    }
    assert items[..|items|] == items;
  }

  lemma KeysGrow(items: seq<CompletionItem>, item: CompletionItem)
    ensures forall key :: HasKey(items + [item], key) <==> HasKey(items, key) || key == Key(item)
  {
    var all := items + [item];
    forall key
      ensures HasKey(all, key) <==> HasKey(items, key) || key == Key(item)
    {
      if HasKey(items, key) {
        var k :| 0 <= k < |items| && Key(items[k]) == key;
        assert all[k] == items[k];
      }
      assert all[|items|] == item;
    }
  }

  function Complete(items: seq<CompletionItem>): seq<CompletionItem> { StableSort(Dedupe(items), ItemLess) }
}
