/** The base protocol: messages framed by a header that gives their length, read and written on byte streams. */
module Framing {
  import opened Chars

  /** What one call of `readMessage` comes to, before the payload is decoded. */
  datatype Read =
    | Message(payload: string) | EndOfInput | InvalidLength(value: string) | MissingLength | ShortPayload | BufferPanic

  datatype Number = Parsed(value: int) | NotANumber

  /** The largest value of the original's 64-bit `int`. */
  const MAX_INT := 0x7FFF_FFFF_FFFF_FFFF

  // ---------------------------------------------------------------- decimal numbers

  function Digit(d: nat): char
    requires d < 10
  {
    ('0' as int + d) as char
  }

  /** `%d` of a length. */
  function Decimal(n: nat): string
  {
    if n < 10 then [Digit(n)] else Decimal(n / 10) + [Digit(n % 10)]
  }

  predicate AllDigits(s: string) { AllOf(s, IsDigit) }

  function DigitsValue(s: string): nat
    requires AllDigits(s)
  {
    if s == "" then 0 else 10 * DigitsValue(s[..|s| - 1]) + (s[|s| - 1] as int - '0' as int)
  }

  /** `strconv.Atoi`: an optional sign, at least one digit, nothing else, and within 64 bits. */
  function Atoi(s: string): Number
  {
    var digits := if s != "" && (s[0] == '+' || s[0] == '-') then s[1..] else s;
    if digits == "" || !AllDigits(digits) then NotANumber
    else
      var value: int := DigitsValue(digits);
      var n := if s[0] == '-' then -value else value;
      if -MAX_INT - 1 <= n <= MAX_INT then Parsed(n) else NotANumber
  }

  lemma {:induction false} DecimalValue(n: nat)
    ensures Decimal(n) != "" && AllDigits(Decimal(n)) && DigitsValue(Decimal(n)) == n
    decreases n
  {
    if n >= 10 {
      DecimalValue(n / 10);
      var s := Decimal(n);
      assert s[..|s| - 1] == Decimal(n / 10);
    } else {
      assert Decimal(n)[..0] == "";
    }
  }

  /** Reading a printed length gives it back, exactly as far as the machine's integers go. */
  lemma AtoiDecimal(n: nat)
    ensures Atoi(Decimal(n)) == if n <= MAX_INT then Parsed(n) else NotANumber
  {
    DecimalValue(n);
    assert IsDigit(Decimal(n)[0]);
  }

  /** The digits are the usual ones. */
  lemma DigitIs(d: nat)
    requires d < 10
    ensures Digit(d) == "0123456789"[d]
  {
  }

  /** A number is digits with at most one sign in front. */
  predicate IsNumeral(s: string)
  {
    var digits := if s != "" && s[0] in {'+', '-'} then s[1..] else s;
    digits != "" && forall k :: 0 <= k < |digits| ==> '0' <= digits[k] <= '9'
  }

  /** Digits with a sign are their value with that sign, if the machine has it; anything else is no number. */
  lemma AtoiIs(sign: string, digits: string)
    requires sign in {"", "+", "-"} && AllDigits(digits)
    ensures var n := (if sign == "-" then -1 else 1) * DigitsValue(digits);
      Atoi(sign + digits) ==
        if digits != "" && -0x8000_0000_0000_0000 <= n <= 0x7FFF_FFFF_FFFF_FFFF then Parsed(n) else NotANumber
    ensures forall s :: !IsNumeral(s) ==> Atoi(s) == NotANumber
  {
    var s := sign + digits;
    if sign == "" {
      assert s == digits;
      assert digits != "" ==> IsDigit(digits[0]);
    } else {
      assert s[0] == sign[0] && s[1..] == digits;
    }
  }

  // ---------------------------------------------------------------- reading

  function Lower(c: char): char
  {
    if 'A' <= c <= 'Z' then (c as int + 32) as char else c
  }

  /** `strings.ToLower`, as far as ASCII letters go. */
  function ToLower(s: string): (r: string)
    ensures |r| == |s| && forall i :: 0 <= i < |s| ==> r[i] == Lower(s[i])
  {
    seq(|s|, i requires 0 <= i < |s| => Lower(s[i]))
  }

  lemma LowerIs(c: char, k: nat)
    requires k < 26
    ensures Lower("ABCDEFGHIJKLMNOPQRSTUVWXYZ"[k]) == "abcdefghijklmnopqrstuvwxyz"[k]
    ensures c !in "ABCDEFGHIJKLMNOPQRSTUVWXYZ" ==> Lower(c) == c
  {
    assert 'A' <= c <= 'Z' ==> "ABCDEFGHIJKLMNOPQRSTUVWXYZ"[c as int - 'A' as int] == c;
  }

  const LENGTH_FIELD := "content-length:"

  predicate IsLengthField(trimmed: string)
  {
    LENGTH_FIELD <= ToLower(trimmed)
  }

  function LengthValue(trimmed: string): string
    requires IsLengthField(trimmed)
  {
    TrimSpace(trimmed[|LENGTH_FIELD|..])
  }

  /** Reading from the unread bytes s, the header so far having given `contentLength`: the outcome and what is left.
      A buffer of more than `limit` bytes cannot be had: making it is a run-time panic in the original. */
  function ReadFrom(limit: nat, s: string, contentLength: int): (Read, string)
    decreases |s|
  {
    var n := RunLen(s, NotNewline);
    if n == |s| then (EndOfInput, "")
    else
      var trimmed, rest := TrimSpace(s[..n + 1]), s[n + 1..];
      if trimmed == "" then ReadPayload(limit, rest, contentLength)
      else if !IsLengthField(trimmed) then ReadFrom(limit, rest, contentLength)
      else
        match Atoi(LengthValue(trimmed))
        case NotANumber => (InvalidLength(LengthValue(trimmed)), rest)
        case Parsed(length) => ReadFrom(limit, rest, length)
  }

  function ReadPayload(limit: nat, s: string, contentLength: int): (Read, string)
  {
    if contentLength <= 0 then (MissingLength, s)
    else if contentLength > limit then (BufferPanic, s)
    else if contentLength > |s| then (ShortPayload, "")
    else (Message(s[..contentLength]), s[contentLength..])
  }

  /** A buffered reader: the bytes it has still to give. */
  class Reader {
    var unread: string
    const limit: nat

    constructor (input: string, limit: nat)
      ensures unread == input && this.limit == limit
    {
      unread := input;
      this.limit := limit;
    }

    /** `ReadString('\n')`: a line with its end, or everything and an error. */
    method ReadLine() returns (line: string, ok: bool)
      modifies this
      ensures var n := RunLen(old(unread), NotNewline);
        if n == |old(unread)| then !ok && line == old(unread) && unread == ""
        else ok && line == old(unread)[..n + 1] && unread == old(unread)[n + 1..]
    {
      var n := RunLen(unread, NotNewline);
      ok := n < |unread|;
      var end := if ok then n + 1 else n;
      line, unread := unread[..end], unread[end..];
    }

    /** `io.ReadFull` into a buffer of the given size. */
    method ReadFull(size: nat) returns (payload: string, ok: bool)
      modifies this
      ensures if size <= |old(unread)| then ok && payload == old(unread)[..size] && unread == old(unread)[size..]
              else !ok && payload == old(unread) && unread == ""
    {
      ok := size <= |unread|;
      var end := if ok then size else |unread|;
      payload, unread := unread[..end], unread[end..];
    }

    method ReadMessage() returns (r: Read)
      modifies this
      ensures (r, unread) == ReadFrom(limit, old(unread), 0)
    {
      var contentLength: int := 0;
      while true
        invariant ReadFrom(limit, unread, contentLength) == ReadFrom(limit, old(unread), 0)
        decreases |unread|
      {
        var line, ok := ReadLine();
        if !ok {
          return EndOfInput;
        }
        var trimmed := TrimSpace(line);
        if trimmed == "" {
          break;
        }
        if IsLengthField(trimmed) {
          var value := TrimSpace(trimmed[|LENGTH_FIELD|..]);
          var length := Atoi(value);
          if length.NotANumber? {
            return InvalidLength(value);
          }
          contentLength := length.value;
        }
      }
      if contentLength <= 0 {
        return MissingLength;
      }
      if contentLength > limit {
        return BufferPanic;
      }
      var payload, ok := ReadFull(contentLength);
      if !ok {
        return ShortPayload;
      }
      return Message(payload);
    }
  }

  // ---------------------------------------------------------------- writing

  function Header(length: nat): string { "Content-Length: " + Decimal(length) + "\r\n\r\n" }

  function Frame(payload: string): string { Header(|payload|) + payload }

  class Writer {
    var written: string

    constructor ()
      ensures written == ""
    {
      written := "";
    }

    method WriteMessage(payload: string)
      modifies this
      ensures written == old(written) + Frame(payload)
    {
      written := written + Header(|payload|);
      written := written + payload;
      assert written == old(written) + Frame(payload);
    }
  }
}
