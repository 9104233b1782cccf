/** Character classes as the lexer sees them, and runs of characters. */
module Chars {

  /** A byte is a character below 256, read the way `rune(text[i])` reads it: as Latin-1. */
  predicate IsAsciiChar(c: char) { c as int < 0x80 }

  predicate IsAscii(s: string) { forall i :: 0 <= i < |s| ==> IsAsciiChar(s[i]) }

  predicate IsDigit(c: char) { '0' <= c <= '9' }

  predicate IsLetter(c: char)
  {
    || 'a' <= c <= 'z'
    || 'A' <= c <= 'Z'
    || c as int == 0xAA || c as int == 0xB5 || c as int == 0xBA
    || 0xC0 <= c as int <= 0xD6
    || 0xD8 <= c as int <= 0xF6
    || 0xF8 <= c as int <= 0xFF
  }

  predicate IsSpace(c: char)
  {
    c == ' ' || 0x09 <= c as int <= 0x0D || c as int == 0x85 || c as int == 0xA0
  }

  predicate IsIdentifierStart(c: char) { c == '_' || c == '$' || IsLetter(c) }

  predicate IsIdentifierPart(c: char) { IsIdentifierStart(c) || IsDigit(c) }

  predicate IsNumberPart(c: char) { IsDigit(c) || c == '.' }

  predicate NotNewline(c: char) { c != '\n' }

  /** A Java identifier in the sense of both the lexer and the rename request. */
  predicate IsIdentifier(s: string)
  {
    s != "" && IsIdentifierStart(s[0]) && AllOf(s, IsIdentifierPart)
  }

  predicate AllOf(s: string, p: char -> bool) { forall i :: 0 <= i < |s| ==> p(s[i]) }

  /** Length of the longest prefix all of whose characters satisfy p. */
  function RunLen(s: string, p: char -> bool): (n: nat)
    ensures n <= |s|
    ensures AllOf(s[..n], p)
    ensures n < |s| ==> !p(s[n])
  {
    if s == "" || !p(s[0]) then 0
    else
      assert s[..1 + RunLen(s[1..], p)] == [s[0]] + s[1..][..RunLen(s[1..], p)];
      1 + RunLen(s[1..], p)
  }

  /** A run is determined by where it stops. */
  lemma {:induction false} RunLenIs(s: string, p: char -> bool, n: nat)
    requires n <= |s|
    requires AllOf(s[..n], p)
    requires n < |s| ==> !p(s[n])
    ensures RunLen(s, p) == n
  {
    if n > 0 {
      assert s[..n][0] == s[0];
      assert s[1..][..n - 1] == s[..n][1..];
      RunLenIs(s[1..], p, n - 1);
    }
  }

  /** ASCII white space. */
  predicate IsBlank(c: char) { c == ' ' || 0x09 <= c as int <= 0x0D }

  /** `strings.TrimSpace` for text that neither begins nor ends with white space beyond ASCII. */
  function TrimLeft(s: string): string
  {
    if s != "" && IsBlank(s[0]) then TrimLeft(s[1..]) else s
  }

  function TrimRight(s: string): string
  {
    if s != "" && IsBlank(s[|s| - 1]) then TrimRight(s[..|s| - 1]) else s
  }

  function TrimSpace(s: string): string { TrimRight(TrimLeft(s)) }

  /** The tables on ASCII, character by character. */
  lemma AsciiTables(c: char)
    requires IsAsciiChar(c)
    ensures IsLetter(c) <==> c in "ABCDEFGHIJKLMNOPQRSTUVWXYZ" || c in "abcdefghijklmnopqrstuvwxyz"
    ensures IsDigit(c) <==> c in "0123456789"
    ensures IsSpace(c) <==> c in " \t\n\r" || c as int == 0x0B || c as int == 0x0C
    ensures IsBlank(c) <==> IsSpace(c)
  {
  }

  /** Beyond ASCII the letters of Latin-1 are three ordinals and micro, and all from 0xC0 on but the signs of
      multiplication and division; white space is the next line and the no-break space. */
  lemma LatinTables(c: char)
    requires 0x80 <= c as int <= 0xFF
    ensures IsLetter(c) <==> c as int in {0xAA, 0xB5, 0xBA} || (c as int >= 0xC0 && c as int !in {0xD7, 0xF7})
    ensures IsSpace(c) <==> c as int in {0x85, 0xA0}
  {
  }

  /** Neither empty nor with white space at an end. */
  predicate Solid(s: string) { s != "" && !IsBlank(s[0]) && !IsBlank(s[|s| - 1]) }

  lemma SolidStays(s: string)
    requires Solid(s)
    ensures TrimSpace(s) == s
  {
  }

  /** Trimming takes white space off both ends, and all of it. */
  lemma TrimmedIs(s: string) returns (left: string, right: string)
    ensures var r := TrimSpace(s);
      && s == left + (r + right) && AllOf(left, IsBlank) && AllOf(right, IsBlank)
      && (r != "" ==> !IsBlank(r[0]) && !IsBlank(r[|r| - 1]))
  {
    left := TrimmedLeft(s);
    var t := TrimLeft(s);
    right := TrimmedRight(t);
    if TrimSpace(s) != "" {
      assert t[0] == (TrimRight(t) + right)[0];
    }
  }

  lemma {:induction false} TrimmedLeft(s: string) returns (left: string)
    ensures s == left + TrimLeft(s) && AllOf(left, IsBlank)
    ensures TrimLeft(s) != "" ==> !IsBlank(TrimLeft(s)[0])
    decreases |s|
  {
    if s != "" && IsBlank(s[0]) {
      var more := TrimmedLeft(s[1..]);
      left := [s[0]] + more;
    } else {
      left := "";
    }
  }

  lemma {:induction false} TrimmedRight(s: string) returns (right: string)
    ensures s == TrimRight(s) + right && AllOf(right, IsBlank)
    ensures TrimRight(s) != "" ==> !IsBlank(TrimRight(s)[|TrimRight(s)| - 1])
    decreases |s|
  {
    if s != "" && IsBlank(s[|s| - 1]) {
      var more := TrimmedRight(s[..|s| - 1]);
      right := more + [s[|s| - 1]];
      assert s == s[..|s| - 1] + [s[|s| - 1]];
    } else {
      right := "";
      assert s + "" == s;
    }
  }

  lemma {:induction false} TrimLeftOf(pad: string, s: string)
    requires AllOf(pad, IsBlank) && (s != "" ==> !IsBlank(s[0]))
    ensures TrimLeft(pad + s) == s
    decreases |pad|
  {
    if pad == "" {
      assert pad + s == s;
    } else {
      assert (pad + s)[1..] == pad[1..] + s;
      TrimLeftOf(pad[1..], s);
    }
  }

  lemma {:induction false} TrimRightOf(s: string, pad: string)
    requires AllOf(pad, IsBlank) && (s != "" ==> !IsBlank(s[|s| - 1]))
    ensures TrimRight(s + pad) == s
    decreases |pad|
  {
    if pad == "" {
      assert s + pad == s;
    } else {
      assert (s + pad)[..|s + pad| - 1] == s + pad[..|pad| - 1];
      TrimRightOf(s, pad[..|pad| - 1]);
    }
  }

  lemma TrimOf(left: string, s: string, right: string)
    requires AllOf(left, IsBlank) && AllOf(right, IsBlank) && Solid(s)
    ensures TrimSpace(left + (s + right)) == s
  {
    TrimLeftOf(left, s + right);
    TrimRightOf(s, right);
  }
}
