/** Replies of the upstream server (cmd/mailscript/proxy.go 784-822, delivery.go 65-67); section
    4.2 of RFC 5321. */
module SmtpReply {
  import opened Text
  import opened Numbers
  import opened SmtpWire

  const REPLY_LINE := 4096
  const REPLY_LIMIT := 65_536

  // The code of one reply line, when the line is well formed.
  function LineCode(line: string): Option<int> {
    var trimmed := TrimRight(line, CRLF);
    if |trimmed| < 3 then None
    else
      match Atoi(trimmed[..3])
      case None => None
      case Some(code) =>
        if code < 200 || code > 599 || (|trimmed| > 3 && trimmed[3] != ' ' && trimmed[3] != '-') then None
        else Some(code)
  }

  predicate Continues(line: string) {
    |line| >= 4 && line[3] == '-'
  }

  datatype Reply = Complete(code: int, text: string) | Broken

  // What a reader makes of the stream s after the lines in `full`, and how much of s it used.
  function ReadReply(s: string, full: string, expected: int): (r: (Reply, nat))
    ensures r.1 <= |s|
    decreases |s|
  {
    var n := Find(s, '\n');
    if n == |s| || n + 1 > REPLY_LINE then (Broken, 0)
    else
      var line, rest := s[..n + 1], s[n + 1..];
      if |full| + |line| > REPLY_LIMIT || LineCode(line).None? then (Broken, 0)
      else if expected != 0 && LineCode(line).value != expected then (Broken, 0)
      else if !Continues(line) then (Complete(LineCode(line).value, full + line), n + 1)
      else
        var (r, used) := ReadReply(rest, full + line, LineCode(line).value);
        (r, n + 1 + used)
  }

  // `whole` is the outcome to reach from here.
  ghost predicate Pending(whole: (Reply, nat), read: nat, rest: string, full: string, expected: int) {
    var r := ReadReply(rest, full, expected);
    whole.0 == r.0 && (r.0.Complete? ==> whole.1 == read + r.1)
  }

  lemma PendingStep(whole: (Reply, nat), read: nat, s: string, full: string, expected: int)
    requires Pending(whole, read, s, full, expected)
    ensures var n := Find(s, '\n');
      if n == |s| || n + 1 > REPLY_LINE then whole.0 == Broken
      else
        var line := s[..n + 1];
        if |full| + |line| > REPLY_LIMIT || LineCode(line).None? then whole.0 == Broken
        else if expected != 0 && LineCode(line).value != expected then whole.0 == Broken
        else if !Continues(line) then whole == (Complete(LineCode(line).value, full + line), read + n + 1)
        else Pending(whole, read + n + 1, s[n + 1..], full + line, LineCode(line).value)
  {
  }

  // readSMTPReply: one whole reply, and not an octet of the next.
  method ReadSMTPReply(reader: Reader) returns (r: Reply)
    requires reader.Valid()
    modifies reader`pos
    ensures reader.Valid() && r == ReadReply(old(reader.Rest()), "", 0).0
    ensures r.Complete? ==> reader.pos == old(reader.pos) + ReadReply(old(reader.Rest()), "", 0).1
  {
    ghost var start, whole := reader.pos, ReadReply(reader.Rest(), "", 0);
    var full, expected := "", 0;
    while true
      invariant reader.Valid() && start <= reader.pos
      invariant Pending(whole, reader.pos - start, reader.Rest(), full, expected)
      decreases |reader.stream| - reader.pos
    {
      var line;
      line, expected := NextLine(reader, full, expected, whole, reader.pos - start);
      if line.None? { return Broken; }
      full := full + line.value;
      if !Continues(line.value) { return Complete(expected, full); }
    }
  }

  // The next line of a reply and its code; None if it cannot be one.
  method NextLine(reader: Reader, full: string, expected: int, ghost whole: (Reply, nat), ghost read: nat)
    returns (line: Option<string>, code: int)
    requires reader.Valid() && Pending(whole, read, reader.Rest(), full, expected)
    modifies reader`pos
    ensures reader.Valid()
    ensures line.None? ==> whole.0 == Broken
    ensures line.Some? ==>
      var more, n := full + line.value, read + |line.value|;
      && line.value != "" && reader.pos == old(reader.pos) + |line.value|
      && if Continues(line.value) then Pending(whole, n, reader.Rest(), more, code)
         else whole == (Complete(code, more), n)
  {
    ghost var before := reader.Rest();
    PendingStep(whole, read, before, full, expected);
    line := reader.ReadWireLine(REPLY_LINE);
    if line.None? { return None, 0; }
    assert before[|line.value|..] == reader.Rest();
    if |full| + |line.value| > REPLY_LIMIT { return None, 0; }
    var parsed := LineCode(line.value);
    if parsed.None? { return None, 0; }
    if expected != 0 && parsed.value != expected { return None, 0; }
    code := parsed.value;
  }

  // ------------------------------------------------------------- what a server writes

  predicate IsCode(digits: string) {
    |digits| == 3 && '2' <= digits[0] <= '5' && '0' <= digits[1] <= '9' && '0' <= digits[2] <= '9'
  }

  function CodeOf(digits: string): int
    requires IsCode(digits)
  {
    (digits[0] as int - '0' as int) * 100 + (digits[1] as int - '0' as int) * 10 + (digits[2] as int - '0' as int)
  }

  function ReplyLine(digits: string, mark: char, text: string): string {
    digits + [mark] + text + CRLF
  }

  // All lines but the last carry a hyphen.
  function WriteReply(digits: string, texts: seq<string>): string
    requires texts != []
  {
    if |texts| == 1 then ReplyLine(digits, ' ', texts[0])
    else ReplyLine(digits, '-', texts[0]) + WriteReply(digits, texts[1..])
  }

  predicate Writable(texts: seq<string>) {
    texts != [] && forall k :: 0 <= k < |texts| ==> '\n' !in texts[k] && |texts[k]| + 6 <= REPLY_LINE
  }

  lemma DecimalOfCode(digits: string)
    requires IsCode(digits)
    ensures Atoi(digits) == Some(CodeOf(digits)) && 200 <= CodeOf(digits) <= 599
  {
    var a, b, c := digits[..1], digits[..2], digits[..3];
    assert c == digits && b[..1] == a && a[..0] == "";
    assert c[..2] == b;
    assert Decimal("") == 0;
    assert Decimal(a) == digits[0] as int - '0' as int;
    assert Decimal(b) == 10 * Decimal(a) + (digits[1] as int - '0' as int);
    assert Decimal(c) == 10 * Decimal(b) + (digits[2] as int - '0' as int);
  }

  // Trimming breaks off the end stops at the last other character.
  lemma {:induction false} TrimKeeps(s: string, k: nat)
    requires k < |s| && s[k] != '\r' && s[k] != '\n'
    ensures k < |TrimRight(s, CRLF)| && TrimRight(s, CRLF) <= s
  {
    if s[|s| - 1] in CRLF {
      TrimKeeps(s[..|s| - 1], k);
    }
  }

  lemma LineReads(digits: string, mark: char, text: string)
    requires IsCode(digits) && (mark == ' ' || mark == '-')
    ensures var line := ReplyLine(digits, mark, text);
      LineCode(line) == Some(CodeOf(digits)) && (Continues(line) <==> mark == '-')
  {
    var line := ReplyLine(digits, mark, text);
    TrimKeeps(line, 3);
    DecimalOfCode(digits);
    assert TrimRight(line, CRLF)[..3] == line[..3] == digits;
  }

  lemma LineIsFirst(digits: string, mark: char, text: string, rest: string)
    requires IsCode(digits) && mark != '\n' && '\n' !in text
    ensures var line, s := ReplyLine(digits, mark, text), ReplyLine(digits, mark, text) + rest;
      Find(s, '\n') == |line| - 1 && s[..|line|] == line && s[|line|..] == rest && |line| == |text| + 6
  {
    LineEnd(ReplyLine(digits, mark, text), rest);
  }

  // s starts with the reply `text`, which is read whole.
  ghost predicate ReadsBack(s: string, text: string, full: string, expected: int, code: int) {
    ReadReply(s, full, expected) == (Complete(code, full + text), |text|)
  }

  /** A reply of any number of lines, within the limits, is read as one reply with its code and
      text, and what follows it is left for the next command. */
  lemma {:induction false} ReplyRoundTrip(digits: string, texts: seq<string>, rest: string, full: string, expected: int)
    requires IsCode(digits) && Writable(texts) && (expected == 0 || expected == CodeOf(digits))
    requires |full| + |WriteReply(digits, texts)| <= REPLY_LIMIT
    ensures ReadsBack(WriteReply(digits, texts) + rest, WriteReply(digits, texts), full, expected, CodeOf(digits))
  {
    if |texts| == 1 {
      LastLineBack(digits, texts[0], rest, full, expected);
    } else {
      var line, tail := ReplyLine(digits, '-', texts[0]), WriteReply(digits, texts[1..]);
      ReplyRoundTrip(digits, texts[1..], rest, full + line, CodeOf(digits));
      MoreLinesBack(digits, texts[0], tail, rest, full, expected);
    }
  }

  lemma LastLineBack(digits: string, text: string, rest: string, full: string, expected: int)
    requires IsCode(digits) && '\n' !in text && |text| + 6 <= REPLY_LINE
    requires expected == 0 || expected == CodeOf(digits)
    requires var line := ReplyLine(digits, ' ', text); |full| + |line| <= REPLY_LIMIT
    ensures var line := ReplyLine(digits, ' ', text); ReadsBack(line + rest, line, full, expected, CodeOf(digits))
  {
    LineReads(digits, ' ', text);
    LineIsFirst(digits, ' ', text, rest);
  }

  lemma MoreLinesBack(digits: string, text: string, tail: string, rest: string, full: string, expected: int)
    requires IsCode(digits) && '\n' !in text && |text| + 6 <= REPLY_LINE
    requires expected == 0 || expected == CodeOf(digits)
    requires var line := ReplyLine(digits, '-', text);
      |full| + |line| <= REPLY_LIMIT && ReadsBack(tail + rest, tail, full + line, CodeOf(digits), CodeOf(digits))
    ensures var line := ReplyLine(digits, '-', text);
      ReadsBack((line + tail) + rest, line + tail, full, expected, CodeOf(digits))
  {
    var line := ReplyLine(digits, '-', text);
    DecimalOfCode(digits);
    LineReads(digits, '-', text);
    LineIsFirst(digits, '-', text, tail + rest);
    ContinuedReply(line, tail, rest, full);
    FirstOfReply(line, tail + rest, full, expected);
  }

  lemma ContinuedReply(line: string, tail: string, rest: string, full: string)
    ensures (line + tail) + rest == line + (tail + rest) && (full + line) + tail == full + (line + tail)
  {
  }

  // One continuation line read.
  lemma FirstOfReply(line: string, rest: string, full: string, expected: int)
    requires |line| > 0 && Find(line + rest, '\n') == |line| - 1 && |line| <= REPLY_LINE
    requires |full| + |line| <= REPLY_LIMIT
    requires LineCode(line).Some? && (expected == 0 || LineCode(line).value == expected) && Continues(line)
    ensures var r := ReadReply(rest, full + line, LineCode(line).value);
      ReadReply(line + rest, full, expected) == (r.0, |line| + r.1)
  {
    assert (line + rest)[..|line|] == line && (line + rest)[|line|..] == rest;
  }

  // One reply: every line carries the code, and all but the last say that more is to come.
  predicate OneReply(s: string, code: int)
    decreases |s|
  {
    var n := Find(s, '\n');
    n < |s| && LineCode(s[..n + 1]) == Some(code) &&
    if n + 1 == |s| then !Continues(s) else Continues(s[..n + 1]) && OneReply(s[n + 1..], code)
  }

  lemma OneReplyCons(line: string, rest: string, code: int)
    requires line != "" && Find(line + rest, '\n') == |line| - 1 && LineCode(line) == Some(code)
    requires if rest == "" then !Continues(line) else Continues(line) && OneReply(rest, code)
    ensures OneReply(line + rest, code)
  {
    assert (line + rest)[..|line|] == line && (line + rest)[|line|..] == rest;
    if rest == "" { assert line + rest == line; }
  }

  // A whole reply from the start of s, after the lines in `full`.
  ghost predicate WasRead(s: string, full: string, expected: int, r: (Reply, nat)) {
    && r.0.Complete? && 0 < r.1 <= |s| && r.0.text == full + s[..r.1] && |r.0.text| <= REPLY_LIMIT
    && 200 <= r.0.code <= 599 && (expected == 0 || r.0.code == expected) && OneReply(s[..r.1], r.0.code)
  }

  /** Whatever is taken for a reply is the very text that was read, has one code from 200 to 599 on
      all its lines, ends with the first line that announces no other, and is within the limit. */
  lemma {:induction false} ReplyIsWhatWasRead(s: string, full: string, expected: int)
    requires ReadReply(s, full, expected).0.Complete?
    ensures WasRead(s, full, expected, ReadReply(s, full, expected))
    decreases |s|
  {
    var line, rest, code, inner := FirstLine(s, full, expected);
    if Continues(line) {
      ReplyIsWhatWasRead(rest, full + line, code);
    }
    WasReadOn(line, rest, full, expected, code, inner);
  }

  // A line in front of what was read, or the only one.
  lemma WasReadOn(line: string, rest: string, full: string, expected: int, code: int, inner: (Reply, nat))
    requires IsLine(line) && LineCode(line) == Some(code) && code != 0
    requires |full| + |line| <= REPLY_LIMIT && (expected == 0 || code == expected)
    requires Continues(line) ==> WasRead(rest, full + line, code, inner)
    ensures WasRead(line + rest, full, expected,
                    if Continues(line) then (inner.0, |line| + inner.1) else (Complete(code, full + line), |line|))
  {
    if Continues(line) {
      OneMoreLine(line, rest, full, expected, code, inner);
    } else {
      LastLine(line, rest, full, expected, code);
    }
  }

  // The first line of a whole reply, and what is read after it.
  lemma FirstLine(s: string, full: string, expected: int)
    returns (line: string, rest: string, code: int, inner: (Reply, nat))
    requires ReadReply(s, full, expected).0.Complete?
    ensures s == line + rest && IsLine(line) && LineCode(line) == Some(code) && code != 0
    ensures |full| + |line| <= REPLY_LIMIT && (expected == 0 || code == expected)
    ensures |rest| < |s| && inner == ReadReply(rest, full + line, code) && (Continues(line) ==> inner.0.Complete?)
    ensures ReadReply(s, full, expected) ==
            if Continues(line) then (inner.0, |line| + inner.1) else (Complete(code, full + line), |line|)
  {
    var n := Find(s, '\n');
    line, rest := s[..n + 1], s[n + 1..];
    code := LineCode(line).value;
    inner := ReadReply(rest, full + line, code);
    FindIsFirst(s, '\n');
  }

  lemma LastLine(line: string, rest: string, full: string, expected: int, code: int)
    requires IsLine(line) && LineCode(line) == Some(code) && !Continues(line)
    requires |full| + |line| <= REPLY_LIMIT && (expected == 0 || code == expected)
    ensures WasRead(line + rest, full, expected, (Complete(code, full + line), |line|))
  {
    assert (line + rest)[..|line|] == line && line + "" == line;
    LineEnd(line, "");
    OneReplyCons(line, "", code);
  }

  lemma OneMoreLine(line: string, rest: string, full: string, expected: int, code: int, r: (Reply, nat))
    requires IsLine(line) && LineCode(line) == Some(code) && Continues(line)
    requires WasRead(rest, full + line, code, r) && (expected == 0 || code == expected) && code != 0
    ensures WasRead(line + rest, full, expected, (r.0, |line| + r.1))
  {
    var part := rest[..r.1];
    LongerReply(line + rest, line, rest, full, r.1);
    OneReplyOn(line, part, code);
  }

  lemma OneReplyOn(line: string, part: string, code: int)
    requires IsLine(line) && LineCode(line) == Some(code) && Continues(line) && part != "" && OneReply(part, code)
    ensures OneReply(line + part, code)
  {
    LineEnd(line, part);
    OneReplyCons(line, part, code);
  }

  lemma LongerReply(s: string, line: string, rest: string, full: string, used: nat)
    requires s == line + rest && used <= |rest|
    ensures (full + line) + rest[..used] == full + s[..|line| + used]
    ensures line + rest[..used] == s[..|line| + used]
  {
  }

  // ---------------------------------------------------------------- passing it on

  function NoNul(s: string): string {
    if s == "" then "" else (if s[0] == '\0' then "" else [s[0]]) + NoNul(s[1..])
  }

  function ReplyText(s: string): string {
    Join(Fields(NoNul(s)), " ")
  }

  predicate NoBlank(t: string) {
    forall k :: 0 <= k < |t| ==> t[k] !in BLANKS
  }

  predicate OneLine(t: string) {
    forall k :: 0 <= k < |t| ==> t[k] == ' ' || t[k] !in BLANKS
  }

  lemma {:induction false} JoinedTokens(tokens: seq<string>)
    requires forall k :: 0 <= k < |tokens| ==> NoBlank(tokens[k])
    ensures OneLine(Join(tokens, " "))
  {
    if |tokens| > 0 { assert NoBlank(tokens[0]); }
    if |tokens| > 1 {
      JoinedTokens(tokens[1..]);
      var rest := Join(tokens[1..], " ");
      assert OneLine(rest);
    }
  }

  /** Text passed on to the client stays on one line, whatever the upstream or the policy wrote. */
  lemma ReplyTextIsOneLine(s: string)
    ensures OneLine(ReplyText(s)) && '\r' !in ReplyText(s) && '\n' !in ReplyText(s)
  {
    var tokens := Fields(NoNul(s));
    FieldsAreTokens(NoNul(s), BLANKS);
    forall k | 0 <= k < |tokens| ensures NoBlank(tokens[k]) {
      assert tokens[k] in tokens;
    }
    JoinedTokens(tokens);
    assert BLANKS[3] == '\r' && BLANKS[2] == '\n';
  }
}
