/** Replacing whole words in a text, and what undoes it. */
module RenameTheorems {
  import opened Chars
  import opened Rename

  // ---------------------------------------------------------------- replacing whole words

  /** Replace every maximal run of identifier characters that equals oldName, all at once. */
  function ReplaceWords(s: string, oldName: string, newName: string, part: char -> bool): string
    decreases |s|
  {
    if s == "" then ""
    else if !part(s[0]) then [s[0]] + ReplaceWords(s[1..], oldName, newName, part)
    else
      var n := RunLen(s, part);
      (if s[..n] == oldName then newName else s[..n]) + ReplaceWords(s[n..], oldName, newName, part)
  }

  ghost predicate IsWord(w: string, part: char -> bool) { w != "" && AllOf(w, part) }

  /** No identifier run crosses from the text before s into s. */
  ghost predicate StartsApart(s: string, part: char -> bool) { s == "" || !part(s[0]) }

  lemma ReplaceWord(w: string, rest: string, oldName: string, newName: string, part: char -> bool)
    requires IsWord(w, part) && StartsApart(rest, part)
    ensures ReplaceWords(w + rest, oldName, newName, part)
         == (if w == oldName then newName else w) + ReplaceWords(rest, oldName, newName, part)
  {
    var s := w + rest;
    assert s[..|w|] == w && s[|w|..] == rest;
    RunLenIs(s, part, |w|);
  }

  lemma ReplaceOther(c: char, rest: string, oldName: string, newName: string, part: char -> bool)
    requires !part(c)
    ensures ReplaceWords([c] + rest, oldName, newName, part) == [c] + ReplaceWords(rest, oldName, newName, part)
  {
    assert ([c] + rest)[1..] == rest;
  }

  /** The head of a text: a word, or one other character. */
  lemma SplitHead(s: string, part: char -> bool) returns (w: string, rest: string)
    requires s != "" && part(s[0])
    ensures IsWord(w, part) && StartsApart(rest, part) && s == w + rest && |rest| < |s|
    ensures w == s[..RunLen(s, part)] && rest == s[RunLen(s, part)..]
  {
    var n := RunLen(s, part);
    w, rest := s[..n], s[n..];
    assert s == w + rest;
  }

  lemma {:induction false} ReplaceKeepsApart(s: string, oldName: string, newName: string, part: char -> bool)
    requires StartsApart(s, part)
    ensures StartsApart(ReplaceWords(s, oldName, newName, part), part)
  {
  }

  lemma {:induction false} ReplaceAppend(a: string, b: string, oldName: string, newName: string, part: char -> bool)
    requires StartsApart(b, part)
    ensures ReplaceWords(a + b, oldName, newName, part)
         == ReplaceWords(a, oldName, newName, part) + ReplaceWords(b, oldName, newName, part)
    decreases |a|
  {
    if a == "" {
      assert a + b == b;
    } else if part(a[0]) {
      var w, rest := SplitHead(a, part);
      ReplaceAppend(rest, b, oldName, newName, part);
      ReplaceWord(w, rest + b, oldName, newName, part);
      Regroup(w, rest, b);
      Regroup(if w == oldName then newName else w,
              ReplaceWords(rest, oldName, newName, part), ReplaceWords(b, oldName, newName, part));
    } else {
      ReplaceAppend(a[1..], b, oldName, newName, part);
      ReplaceOther(a[0], a[1..] + b, oldName, newName, part);
      Regroup([a[0]], a[1..], b);
      assert a == [a[0]] + a[1..];
      Regroup([a[0]], ReplaceWords(a[1..], oldName, newName, part), ReplaceWords(b, oldName, newName, part));
    }
  }

  lemma Regroup(x: string, y: string, z: string)
    ensures x + (y + z) == (x + y) + z
  {
  }

  /** Replacing and replacing back is replacing the new name by the old one. */
  lemma {:induction false} ReplaceTwice(s: string, o: string, n: string, part: char -> bool)
    requires IsWord(o, part) && IsWord(n, part)
    ensures ReplaceWords(ReplaceWords(s, o, n, part), n, o, part) == ReplaceWords(s, n, o, part)
    decreases |s|
  {
    if s == "" {
    } else if part(s[0]) {
      var w, rest := SplitHead(s, part);
      ReplaceTwice(rest, o, n, part);
      ReplaceKeepsApart(rest, o, n, part);
      ReplaceWord(if w == o then n else w, ReplaceWords(rest, o, n, part), n, o, part);
    } else {
      ReplaceTwice(s[1..], o, n, part);
      ReplaceOther(s[0], ReplaceWords(s[1..], o, n, part), n, o, part);
    }
  }

  /** `name` occurs somewhere in s as a whole word. */
  ghost predicate HasWord(s: string, name: string, part: char -> bool)
  {
    exists i: int :: OccursAt(s, name, i, part)
  }

  /** An occurrence behind a cut is one of the text if the cut is at a word boundary. */
  lemma OccursBehind(s: string, k: nat, name: string, i: nat, part: char -> bool)
    requires 0 < k && k + i <= |s| && IsWord(name, part)
    requires i == 0 ==> k == |s| || !part(s[k]) || !part(s[k - 1])
    ensures OccursAt(s[k..], name, i, part) ==> OccursAt(s, name, k + i, part)
  {
    var rest := s[k..];
    if OccursAt(rest, name, i, part) {
      assert s[k + i..k + i + |name|] == rest[i..i + |name|];
      assert rest[i..i + |name|][0] == name[0];
    }
  }

  lemma OccursBefore(s: string, k: nat, name: string, i: nat, part: char -> bool)
    requires k <= i && OccursAt(s, name, i, part)
    ensures OccursAt(s[k..], name, i - k, part)
  {
    assert s[k..][i - k..i - k + |name|] == s[i..i + |name|];
  }

  ghost predicate NoneBefore(s: string, k: nat, name: string, part: char -> bool)
  {
    forall i :: 0 <= i < k ==> !OccursAt(s, name, i, part)
  }

  lemma HasWordTail(s: string, k: nat, name: string, part: char -> bool)
    requires 0 < k <= |s| && IsWord(name, part)
    requires k == |s| || !part(s[k]) || !part(s[k - 1])
    ensures HasWord(s[k..], name, part) ==> HasWord(s, name, part)
    ensures NoneBefore(s, k, name, part) && HasWord(s, name, part) ==> HasWord(s[k..], name, part)
  {
    if HasWord(s[k..], name, part) {
      var i :| OccursAt(s[k..], name, i, part);
      OccursBehind(s, k, name, i, part);
    }
    if NoneBefore(s, k, name, part) && HasWord(s, name, part) {
      var i :| OccursAt(s, name, i, part);
      OccursBefore(s, k, name, i, part);
    }
  }

  lemma WordHere(s: string, name: string, part: char -> bool)
    requires s != "" && part(s[0]) && IsWord(name, part)
    ensures var n := RunLen(s, part);
      && (OccursAt(s, name, 0, part) <==> s[..n] == name)
      && (forall i :: 0 < i < n ==> !OccursAt(s, name, i, part))
  {
    var n := RunLen(s, part);
    if OccursAt(s, name, 0, part) {
      assert forall i :: 0 <= i < |name| ==> s[..|name|][i] == s[i];
      RunLenIs(s, part, |name|);
    }
    forall i | 0 < i < n
      ensures !OccursAt(s, name, i, part)
    {
      assert s[..n][i - 1] == s[i - 1];
    }
  }

  lemma SameRun(a: string, x: string, b: string, y: string, part: char -> bool)
    requires IsWord(a, part) && IsWord(b, part) && StartsApart(x, part) && StartsApart(y, part)
    requires a + x == b + y
    ensures a == b && x == y
  {
    var s := a + x;
    assert s[..|a|] == a && s[|a|..] == x && s[..|b|] == b && s[|b|..] == y;
    RunLenIs(s, part, |a|);
    RunLenIs(s, part, |b|);
  }

  /** At the head of the text stands another word: the question is the same behind it. */
  lemma IdentityBehind(w: string, rest: string, replaced: string, o: string, part: char -> bool)
    requires IsWord(w, part) && StartsApart(rest, part) && IsWord(o, part) && w != o
    requires replaced == rest <==> !HasWord(rest, o, part)
    ensures w + replaced == w + rest <==> !HasWord(w + rest, o, part)
  {
    var s := w + rest;
    assert s[|w|..] == rest && s[..|w|] == w && (w + replaced)[|w|..] == replaced;
    RunLenIs(s, part, |w|);
    WordHere(s, o, part);
    HasWordTail(s, |w|, o, part);
  }

  /** At the head of the text stands the word itself, and the new name differs. */
  lemma ChangedHere(o: string, rest: string, n: string, replaced: string, part: char -> bool)
    requires IsWord(o, part) && IsWord(n, part) && StartsApart(rest, part) && StartsApart(replaced, part) && o != n
    ensures n + replaced != o + rest && HasWord(o + rest, o, part)
  {
    var s := o + rest;
    if n + replaced == s {
      SameRun(n, replaced, o, rest, part);
    }
    assert s[0..0 + |o|] == o;
    assert OccursAt(s, o, 0, part);
  }

  /** At the head of the text stands another character. */
  lemma IdentityBehindOther(c: char, rest: string, replaced: string, o: string, part: char -> bool)
    requires !part(c) && IsWord(o, part)
    requires replaced == rest <==> !HasWord(rest, o, part)
    ensures [c] + replaced == [c] + rest <==> !HasWord([c] + rest, o, part)
  {
    var s := [c] + rest;
    assert s[1..] == rest && ([c] + replaced)[1..] == replaced;
    if |o| <= |s| {
      assert s[0..|o|][0] == c;
    }
    HasWordTail(s, 1, o, part);
  }

  /** Replacing changes the text exactly when the word is there. */
  lemma {:induction false} ReplaceIsIdentity(s: string, o: string, n: string, part: char -> bool)
    requires IsWord(o, part) && IsWord(n, part) && o != n
    ensures ReplaceWords(s, o, n, part) == s <==> !HasWord(s, o, part)
    decreases |s|
  {
    if s == "" {
    } else if part(s[0]) {
      var w, rest := SplitHead(s, part);
      ReplaceIsIdentity(rest, o, n, part);
      ReplaceWord(w, rest, o, n, part);
      ReplaceKeepsApart(rest, o, n, part);
      if w == o {
        ChangedHere(o, rest, n, ReplaceWords(rest, o, n, part), part);
      } else {
        IdentityBehind(w, rest, ReplaceWords(rest, o, n, part), o, part);
      }
    } else {
      ReplaceIsIdentity(s[1..], o, n, part);
      IdentityBehindOther(s[0], s[1..], ReplaceWords(s[1..], o, n, part), o, part);
      assert s == [s[0]] + s[1..];
    }
  }
}
