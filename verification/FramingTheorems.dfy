/** Reading undoes writing for any sequence of messages. */
module FramingTheorems {
  import opened Chars
  import opened Framing

  // ---------------------------------------------------------------- one header line

  /** A line with its end. */
  ghost predicate IsLine(l: string)
  {
    l != "" && l[|l| - 1] == '\n' && AllOf(l[..|l| - 1], NotNewline)
  }

  lemma LineRead(limit: nat, l: string, rest: string, contentLength: int)
    requires IsLine(l)
    ensures var t := TrimSpace(l);
      ReadFrom(limit, l + rest, contentLength) ==
        if t == "" then ReadPayload(limit, rest, contentLength)
        else if !IsLengthField(t) then ReadFrom(limit, rest, contentLength)
        else
          match Atoi(LengthValue(t))
          case NotANumber => (InvalidLength(LengthValue(t)), rest)
          case Parsed(n) => ReadFrom(limit, rest, n)
  {
    var s := l + rest;
    assert s[..|l| - 1] == l[..|l| - 1];
    RunLenIs(s, NotNewline, |l| - 1);
    assert s[..|l|] == l && s[|l|..] == rest;
  }

  /** A header of another name, or anything else that is neither blank nor a length. */
  ghost predicate IsOther(l: string)
  {
    IsLine(l) && TrimSpace(l) != "" && !IsLengthField(TrimSpace(l))
  }

  ghost predicate AreOther(ls: seq<string>)
  {
    forall k :: 0 <= k < |ls| ==> IsOther(ls[k])
  }

  function Flat(parts: seq<string>): string
  {
    if parts == [] then "" else parts[0] + Flat(parts[1..])
  }

  lemma {:induction false} OthersRead(limit: nat, ls: seq<string>, rest: string, contentLength: int)
    requires AreOther(ls)
    ensures ReadFrom(limit, Flat(ls) + rest, contentLength) == ReadFrom(limit, rest, contentLength)
    decreases |ls|
  {
    if ls == [] {
      assert "" + rest == rest;
    } else {
      assert IsOther(ls[0]);
      assert Flat(ls) + rest == ls[0] + (Flat(ls[1..]) + rest);
      LineRead(limit, ls[0], Flat(ls[1..]) + rest, contentLength);
      OthersRead(limit, ls[1..], rest, contentLength);
    }
  }

  /** Blanks within a line. */
  ghost predicate IsPad(s: string) { AllOf(s, IsBlank) && AllOf(s, NotNewline) }

  /** A header line with any blanks around its value. */
  function FieldLine(name: string, pad: string, value: string, pad': string): string
  {
    (name + (pad + value)) + (pad' + "\n")
  }

  /** A length header in any letter case. */
  function LengthLine(name: string, pad: string, length: nat, pad': string): string
  {
    FieldLine(name, pad, Decimal(length), pad')
  }

  ghost predicate IsFieldName(name: string) { ToLower(name) == LENGTH_FIELD }

  lemma NamePlain(name: string)
    requires IsFieldName(name)
    ensures name != "" && !IsBlank(name[0]) && AllOf(name, NotNewline)
  {
    var lower := ToLower(name);
    assert lower[0] == Lower(name[0]) && !IsBlank(LENGTH_FIELD[0]);
    forall k | 0 <= k < |name|
      ensures NotNewline(name[k])
    {
      assert lower[k] == Lower(name[k]) && LENGTH_FIELD[k] != '\n';
    }
  }

  lemma DecimalSolid(n: nat)
    ensures Solid(Decimal(n)) && AllOf(Decimal(n), NotNewline)
  {
    DecimalValue(n);
    assert IsDigit(Decimal(n)[0]) && IsDigit(Decimal(n)[|Decimal(n)| - 1]);
  }

  lemma FieldTrimmed(name: string, pad: string, value: string, pad': string)
    requires IsFieldName(name) && IsPad(pad) && IsPad(pad') && Solid(value) && AllOf(value, NotNewline)
    ensures IsLine(FieldLine(name, pad, value, pad'))
    ensures var t := TrimSpace(FieldLine(name, pad, value, pad'));
      t != "" && IsLengthField(t) && LengthValue(t) == value
  {
    var t := name + (pad + value);
    NamePlain(name);
    assert t[|t| - 1] == value[|value| - 1];
    TrimOf("", t, pad' + "\n");
    assert "" + (t + (pad' + "\n")) == FieldLine(name, pad, value, pad');
    assert ToLower(t)[..|name|] == ToLower(name);
    assert t[|LENGTH_FIELD|..] == pad + value;
    TrimOf(pad, value, "");
    assert pad + (value + "") == pad + value;
    LengthIsLine(t, pad');
  }

  lemma LengthTrimmed(name: string, pad: string, length: nat, pad': string)
    requires IsFieldName(name) && IsPad(pad) && IsPad(pad')
    ensures IsLine(LengthLine(name, pad, length, pad'))
    ensures var t := TrimSpace(LengthLine(name, pad, length, pad'));
      t != "" && IsLengthField(t) && LengthValue(t) == Decimal(length)
  {
    DecimalSolid(length);
    FieldTrimmed(name, pad, Decimal(length), pad');
  }

  lemma LengthIsLine(t: string, pad: string)
    requires IsPad(pad)
    requires AllOf(t, NotNewline)
    ensures IsLine(t + (pad + "\n"))
  {
    var l := t + (pad + "\n");
    assert l[..|l| - 1] == t + pad;
  }

  /** A length header is refused, or gives the length from there on, whatever was read before. */
  lemma FieldRead(limit: nat, name: string, pad: string, value: string, pad': string, rest: string, contentLength: int)
    requires IsFieldName(name) && IsPad(pad) && IsPad(pad') && Solid(value) && AllOf(value, NotNewline)
    ensures ReadFrom(limit, FieldLine(name, pad, value, pad') + rest, contentLength) ==
      match Atoi(value)
      case NotANumber => (InvalidLength(value), rest)
      case Parsed(n) => ReadFrom(limit, rest, n)
  {
    FieldTrimmed(name, pad, value, pad');
    LineRead(limit, FieldLine(name, pad, value, pad'), rest, contentLength);
  }

  lemma LengthRead(limit: nat, name: string, pad: string, length: nat, pad': string, rest: string, contentLength: int)
    requires IsFieldName(name) && IsPad(pad) && IsPad(pad') && length <= MAX_INT
    ensures ReadFrom(limit, LengthLine(name, pad, length, pad') + rest, contentLength) == ReadFrom(limit, rest, length)
  {
    DecimalSolid(length);
    FieldRead(limit, name, pad, Decimal(length), pad', rest, contentLength);
    AtoiDecimal(length);
  }

  /** The line that ends a header. */
  ghost predicate IsBlankLine(l: string) { IsLine(l) && TrimSpace(l) == "" }

  // ---------------------------------------------------------------- one message

  /** A message with any headers before and behind its length, in any letter case and spacing. */
  function Framed(before: seq<string>, name: string, pad: string, pad': string, behind: seq<string>, blank: string,
      payload: string, tail: string): string
  {
    Flat(before) + (LengthLine(name, pad, |payload|, pad') + (Flat(behind) + (blank + (payload + tail))))
  }

  /** What reading a message comes to, the bytes behind it being `tail`: its payload, unless that is empty or
      larger than any buffer. */
  function Outcome(limit: nat, payload: string, tail: string): (Read, string)
  {
    if payload == "" then (MissingLength, tail)
    else if |payload| > limit then (BufferPanic, payload + tail)
    else (Message(payload), tail)
  }

  /** Other headers change nothing: the payload comes back, and the bytes behind it are left. */
  lemma FramedReads(limit: nat, before: seq<string>, name: string, pad: string, pad': string, behind: seq<string>,
      blank: string, payload: string, tail: string)
    requires AreOther(before) && AreOther(behind) && IsFieldName(name) && IsPad(pad) && IsPad(pad')
    requires IsBlankLine(blank)
    requires |payload| <= MAX_INT
    ensures ReadFrom(limit, Framed(before, name, pad, pad', behind, blank, payload, tail), 0)
         == Outcome(limit, payload, tail)
  {
    var body := payload + tail;
    OthersRead(limit, before, LengthLine(name, pad, |payload|, pad') + (Flat(behind) + (blank + body)), 0);
    LengthRead(limit, name, pad, |payload|, pad', Flat(behind) + (blank + body), 0);
    OthersRead(limit, behind, blank + body, |payload|);
    LineRead(limit, blank, body, |payload|);
    assert body[..|payload|] == payload && body[|payload|..] == tail;
  }

  /** The name of the length header is told letter by letter, small or capital. */
  lemma LengthFieldIs(t: string)
    ensures var field := "content-length:";
      IsLengthField(t) <==>
        && |t| >= |field|
        && forall k :: 0 <= k < |field| ==> t[k] == field[k] || IsCapitalOf(t[k], field[k])
  {
    var field, lower := "content-length:", ToLower(t);
    if |t| >= |field| {
      forall k | 0 <= k < |field|
        ensures lower[k] == field[k] <==> t[k] == field[k] || IsCapitalOf(t[k], field[k])
      {
        assert lower[k] == Lower(t[k]);
        assert field[k] == '-' || field[k] == ':' || 'a' <= field[k] <= 'z';
      }
    }
  }

  predicate IsCapitalOf(c: char, small: char)
  {
    'A' <= c <= 'Z' && 'a' <= small <= 'z' && c as int - 'A' as int == small as int - 'a' as int
  }

  /** A length that is no number, or none the machine has, ends the reading with an error behind its line. */
  lemma BadLengthRefused(limit: nat, before: seq<string>, name: string, pad: string, value: string, pad': string,
      rest: string, contentLength: int)
    requires AreOther(before) && IsFieldName(name) && IsPad(pad) && IsPad(pad')
    requires Solid(value) && AllOf(value, NotNewline) && Atoi(value).NotANumber?
    ensures ReadFrom(limit, Flat(before) + (FieldLine(name, pad, value, pad') + rest), contentLength)
         == (InvalidLength(value), rest)
  {
    OthersRead(limit, before, FieldLine(name, pad, value, pad') + rest, contentLength);
    FieldRead(limit, name, pad, value, pad', rest, contentLength);
  }

  /** Of several lengths the last one counts. */
  lemma LastLengthCounts(limit: nat, name: string, pad: string, m: nat, pad': string, between: seq<string>, n: nat,
      rest: string)
    requires AreOther(between) && IsFieldName(name) && IsPad(pad) && IsPad(pad') && m <= MAX_INT && n <= MAX_INT
    ensures var last := LengthLine(name, pad, n, pad') + rest;
      ReadFrom(limit, LengthLine(name, pad, m, pad') + (Flat(between) + last), 0) == ReadFrom(limit, last, 0)
  {
    var last := LengthLine(name, pad, n, pad') + rest;
    LengthRead(limit, name, pad, m, pad', Flat(between) + last, 0);
    OthersRead(limit, between, last, m);
    LengthRead(limit, name, pad, n, pad', rest, m);
    LengthRead(limit, name, pad, n, pad', rest, 0);
  }

  /** Without a length, or with one below zero, nothing behind the header is read. */
  lemma NoLengthMissing(limit: nat, before: seq<string>, blank: string, rest: string, contentLength: int)
    requires AreOther(before) && IsBlankLine(blank) && contentLength <= 0
    ensures ReadFrom(limit, Flat(before) + (blank + rest), contentLength) == (MissingLength, rest)
  {
    OthersRead(limit, before, blank + rest, contentLength);
    LineRead(limit, blank, rest, contentLength);
  }

  lemma FieldName()
    ensures IsFieldName("Content-Length:")
  {
    var name, lower := "Content-Length:", LENGTH_FIELD;
    forall k | 0 <= k < |name|
      ensures ToLower(name)[k] == lower[k]
    {
      assert ToLower(name)[k] == Lower(name[k]);
      assert Lower(name[0]) == lower[0] && Lower(name[8]) == lower[8];
    }
    assert ToLower(name) == lower;
  }

  lemma BlankLine()
    ensures IsBlankLine("\r\n") && IsPad(" ") && IsPad("\r")
  {
    TrimLeftOf("\r\n", "");
    assert "\r\n" + "" == "\r\n";
    assert "\r\n"[..1] == "\r";
  }

  lemma HeaderIsLine(length: nat)
    ensures Header(length) == LengthLine("Content-Length:", " ", length, "\r") + "\r\n"
  {
    var d := Decimal(length);
    assert "Content-Length: " + d == "Content-Length:" + (" " + d);
  }

  lemma Rebracket(line: string, blank: string, payload: string, tail: string)
    ensures ((line + blank) + payload) + tail == "" + (line + ("" + (blank + (payload + tail))))
  {
  }

  /** What is written is a message of that form. */
  lemma FrameIsFramed(payload: string, tail: string)
    ensures Frame(payload) + tail == Framed([], "Content-Length:", " ", "\r", [], "\r\n", payload, tail)
  {
    HeaderIsLine(|payload|);
    Rebracket(LengthLine("Content-Length:", " ", |payload|, "\r"), "\r\n", payload, tail);
  }

  /** One message is read back, and nothing behind it is touched. */
  lemma FrameReads(limit: nat, payload: string, tail: string)
    requires |payload| <= MAX_INT
    ensures ReadFrom(limit, Frame(payload) + tail, 0) == Outcome(limit, payload, tail)
  {
    FieldName();
    BlankLine();
    FrameIsFramed(payload, tail);
    FramedReads(limit, [], "Content-Length:", " ", "\r", [], "\r\n", payload, tail);
  }

  /** A length beyond the machine's integers is refused. */
  lemma HugeReads(limit: nat, payload: string, tail: string)
    requires |payload| > MAX_INT
    ensures ReadFrom(limit, Frame(payload) + tail, 0).0.InvalidLength?
  {
    var n, body := |payload|, "\r\n" + (payload + tail);
    FieldName();
    BlankLine();
    HeaderIsLine(n);
    LengthTrimmed("Content-Length:", " ", n, "\r");
    assert Frame(payload) + tail == LengthLine("Content-Length:", " ", n, "\r") + body;
    LineRead(limit, LengthLine("Content-Length:", " ", n, "\r"), body, 0);
    AtoiDecimal(n);
  }

  lemma NoLineEnd(limit: nat, s: string, contentLength: int)
    requires AllOf(s, NotNewline)
    ensures ReadFrom(limit, s, contentLength) == (EndOfInput, "")
  {
    assert s[..|s|] == s;
    RunLenIs(s, NotNewline, |s|);
  }

  lemma CutLine(l: string, k: nat)
    requires IsLine(l) && k < |l|
    ensures AllOf(l[..k], NotNewline)
  {
    assert forall i :: 0 <= i < k ==> l[..k][i] == l[..|l| - 1][i];
  }

  /** Cut off within the line of the length. */
  lemma TruncatedLine(limit: nat, line: string, k: nat)
    requires IsLine(line) && k < |line|
    ensures ReadFrom(limit, line[..k], 0) == (EndOfInput, "")
  {
    CutLine(line, k);
    NoLineEnd(limit, line[..k], 0);
  }

  /** Cut off behind it. */
  lemma TruncatedBehind(limit: nat, n: nat, part: string)
    requires n <= MAX_INT
    ensures ReadFrom(limit, LengthLine("Content-Length:", " ", n, "\r") + part, 0) == ReadFrom(limit, part, n)
    ensures |part| < 2 && part <= "\r\n" ==> ReadFrom(limit, part, n) == (EndOfInput, "")
  {
    FieldName();
    BlankLine();
    LengthRead(limit, "Content-Length:", " ", n, "\r", part, 0);
    if |part| < 2 && part <= "\r\n" {
      CutLine("\r\n", |part|);
      NoLineEnd(limit, part, n);
    }
  }

  lemma TruncatedPayload(limit: nat, n: nat, part: string)
    requires |part| < n
    ensures ReadFrom(limit, "\r\n" + part, n) == if n > limit then (BufferPanic, part) else (ShortPayload, "")
  {
    BlankLine();
    LineRead(limit, "\r\n", part, n);
  }

  /** A text in three parts, cut off. */
  lemma CutThree(line: string, blank: string, payload: string, k: nat)
    requires k <= |line| + |blank| + |payload|
    ensures var s := ((line + blank) + payload)[..k];
      if k < |line| then s == line[..k]
      else if k < |line| + |blank| then s == line + blank[..k - |line|]
      else s == line + (blank + payload[..k - |line| - |blank|])
  {
  }

  lemma TruncatedAt(limit: nat, n: nat, line: string, payload: string, k: nat)
    requires n == |payload| <= MAX_INT && line == LengthLine("Content-Length:", " ", n, "\r") && IsLine(line)
    requires k < |line| + 2 + n
    ensures ReadFrom(limit, ((line + "\r\n") + payload)[..k], 0) ==
      if k < |line| + 2 then (EndOfInput, "")
      else if n > limit then (BufferPanic, payload[..k - |line| - 2])
      else (ShortPayload, "")
  {
    CutThree(line, "\r\n", payload, k);
    if k < |line| {
      TruncatedLine(limit, line, k);
    } else if k < |line| + 2 {
      TruncatedBehind(limit, n, "\r\n"[..k - |line|]);
    } else {
      var rest := payload[..k - |line| - 2];
      TruncatedBehind(limit, n, "\r\n" + rest);
      TruncatedPayload(limit, n, rest);
    }
  }

  /** A message cut off anywhere is never taken for another one: within the header the input just ends, and behind it
      the payload is missed, everything being consumed, unless it is too large to be asked for. */
  lemma TruncatedFrame(limit: nat, payload: string, k: nat)
    requires |payload| <= MAX_INT && k < |Frame(payload)|
    ensures ReadFrom(limit, Frame(payload)[..k], 0) ==
      if k < |Header(|payload|)| then (EndOfInput, "")
      else if |payload| > limit then (BufferPanic, payload[..k - |Header(|payload|)|])
      else (ShortPayload, "")
  {
    var n := |payload|;
    FieldName();
    BlankLine();
    HeaderIsLine(n);
    LengthTrimmed("Content-Length:", " ", n, "\r");
    TruncatedAt(limit, n, LengthLine("Content-Length:", " ", n, "\r"), payload, k);
  }

  // ---------------------------------------------------------------- many messages

  function Frames(payloads: seq<string>): string
  {
    if payloads == [] then "" else Frame(payloads[0]) + Frames(payloads[1..])
  }

  /** What n reads in a row come to, and what they leave. */
  function ReadMany(limit: nat, s: string, n: nat): (seq<Read>, string)
    decreases n
  {
    if n == 0 then ([], s)
    else
      var (first, rest) := ReadFrom(limit, s, 0);
      var (others, end) := ReadMany(limit, rest, n - 1);
      ([first] + others, end)
  }

  function Messages(payloads: seq<string>): (r: seq<Read>)
    ensures |r| == |payloads|
  {
    if payloads == [] then [] else [Message(payloads[0])] + Messages(payloads[1..])
  }

  /** Neither empty, nor larger than a buffer or a length can be. */
  predicate Readable(limit: nat, payload: string) { 0 < |payload| <= limit && |payload| <= MAX_INT }

  ghost predicate AllReadable(limit: nat, payloads: seq<string>)
  {
    forall k :: 0 <= k < |payloads| ==> Readable(limit, payloads[k])
  }

  ghost predicate ReadsAs(limit: nat, s: string, n: nat, messages: seq<Read>, tail: string)
  {
    ReadMany(limit, s, n) == (messages, tail)
  }

  lemma FirstRead(limit: nat, s: string, n: nat, first: Read, rest: string, expected: Read, others: seq<Read>,
      tail: string)
    requires ReadFrom(limit, s, 0) == (first, rest)
    ensures ReadsAs(limit, s, n + 1, [expected] + others, tail)
       <==> first == expected && ReadsAs(limit, rest, n, others, tail)
  {
    var (xs, end) := ReadMany(limit, rest, n);
    SameList(first, xs, expected, others);
  }

  lemma FirstFrame(limit: nat, p: string, n: nat, rest: string, others: seq<Read>, tail: string)
    ensures ReadsAs(limit, Frame(p) + rest, n + 1, [Message(p)] + others, tail)
       <==> Readable(limit, p) && ReadsAs(limit, rest, n, others, tail)
  {
    var (first, behind) := ReadFrom(limit, Frame(p) + rest, 0);
    if |p| <= MAX_INT {
      FrameReads(limit, p, rest);
    } else {
      HugeReads(limit, p, rest);
    }
    FirstRead(limit, Frame(p) + rest, n, first, behind, Message(p), others, tail);
  }

  /** Reading as many messages as were written gives exactly those back and leaves what came behind them,
      precisely when none of them is empty or larger than a length or a buffer can be. */
  lemma {:induction false} ReadingUndoesWriting(limit: nat, payloads: seq<string>, tail: string)
    ensures ReadsAs(limit, Frames(payloads) + tail, |payloads|, Messages(payloads), tail)
       <==> AllReadable(limit, payloads)
    decreases |payloads|
  {
    if payloads == [] {
      assert Frames(payloads) + tail == tail;
    } else {
      var p, more := payloads[0], payloads[1..];
      var rest := Frames(more) + tail;
      assert Frames(payloads) + tail == Frame(p) + rest;
      ReadingUndoesWriting(limit, more, tail);
      FirstFrame(limit, p, |more|, rest, Messages(more), tail);
      assert AllReadable(limit, payloads) <==> Readable(limit, p) && AllReadable(limit, more);
    }
  }

  lemma SameList(x: Read, xs: seq<Read>, y: Read, ys: seq<Read>)
    ensures [x] + xs == [y] + ys <==> x == y && xs == ys
  {
    if [x] + xs == [y] + ys {
      assert xs == ([x] + xs)[1..] && ys == ([y] + ys)[1..];
      assert ([x] + xs)[0] == ([y] + ys)[0];
    }
  }
}
