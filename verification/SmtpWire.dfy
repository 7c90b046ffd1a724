/** The octets of a DATA phase (cmd/mailscript/proxy.go handleDATA and dotStuff,
    upstream.go forwardToUpstream, delivery.go readWireLine and validateWireData;
    section 4.5.2 of RFC 5321). */
module SmtpWire {
  import opened Text

  const MAX_MESSAGE := 52_428_800 // 50 MiB
  const MAX_LINE := 65_536 // 64 KiB
  const BUFFER := 4096
  const END_OF_DATA := ".\r\n"

  // ---------------------------------------------------------------- framing

  predicate FramedAt(raw: string, i: nat)
    requires i < |raw|
  {
    && (raw[i] == '\n' ==> i > 0 && raw[i - 1] == '\r')
    && (raw[i] == '\r' ==> i + 1 < |raw| && raw[i + 1] == '\n')
  }

  // Every CR and every LF belongs to a CRLF pair.
  predicate Framed(raw: string) {
    forall i :: 0 <= i < |raw| ==> FramedAt(raw, i)
  }

  // What may be sent on.
  predicate Sendable(raw: string) {
    |raw| <= MAX_MESSAGE && Framed(raw)
  }

  method ValidateWireData(raw: string) returns (ok: bool)
    ensures ok <==> Sendable(raw)
  {
    if |raw| > MAX_MESSAGE { return false; }
    for i := 0 to |raw|
      invariant forall k :: 0 <= k < i ==> FramedAt(raw, k)
    {
      if raw[i] == '\n' && (i == 0 || raw[i - 1] != '\r') {
        assert !FramedAt(raw, i);
        return false;
      }
      if raw[i] == '\r' && (i + 1 == |raw| || raw[i + 1] != '\n') {
        assert !FramedAt(raw, i);
        return false;
      }
    }
    return true;
  }

  lemma FramedConcat(a: string, b: string)
    requires Framed(a) && Framed(b)
    ensures Framed(a + b)
  {
    var s := a + b;
    forall i | 0 <= i < |s| ensures FramedAt(s, i) {
      if i < |a| { assert FramedAt(a, i) && s[i] == a[i]; } else { assert FramedAt(b, i - |a|) && s[i] == b[i - |a|]; }
    }
  }

  // A framed text splits after any LF into framed parts.
  lemma FramedSplit(s: string, n: nat)
    requires Framed(s) && n < |s| && s[n] == '\n'
    ensures Framed(s[..n + 1]) && Framed(s[n + 1..])
  {
    var a, b := s[..n + 1], s[n + 1..];
    forall i | 0 <= i < |a| ensures FramedAt(a, i) { assert FramedAt(s, i); }
    forall i | 0 <= i < |b| ensures FramedAt(b, i) { assert FramedAt(s, n + 1 + i); }
  }

  // --------------------------------------------------------------- the sender

  // SMTP transparency: a dot at the start of a line is doubled.
  function Stuff(raw: string, atLineStart: bool): string {
    if raw == [] then []
    else
      (if atLineStart && raw[0] == '.' then [raw[0], raw[0]] else [raw[0]]) + Stuff(raw[1..], raw[0] == '\n')
  }

  method DotStuff(raw: string) returns (out: string)
    ensures out == Stuff(raw, true)
  {
    out := "";
    var atLineStart := true;
    for i := 0 to |raw|
      invariant Stuff(raw, true) == out + Stuff(raw[i..], atLineStart)
    {
      StuffStep(raw, i, atLineStart, out);
      if atLineStart && raw[i] == '.' {
        out := out + ".";
      }
      out := out + [raw[i]];
      atLineStart := raw[i] == '\n';
    }
    assert out + [] == out;
  }

  lemma StuffStep(raw: string, i: nat, start: bool, out: string)
    requires i < |raw|
    ensures var written := if start && raw[i] == '.' then out + "." + [raw[i]] else out + [raw[i]];
            out + Stuff(raw[i..], start) == written + Stuff(raw[i + 1..], raw[i] == '\n')
  {
    assert raw[i..][0] == raw[i] && raw[i..][1..] == raw[i + 1..];
  }

  function Terminated(data: string): string {
    if EndsCRLF(data) then data else data + CRLF
  }

  // The octets written between the 354 reply and the end-of-data reply.
  function Wire(data: string): string {
    Stuff(data, true) + (if EndsCRLF(data) then "" else CRLF) + END_OF_DATA
  }

  method WriteMessage(data: string) returns (sent: string)
    ensures sent == Wire(data)
  {
    sent := DotStuff(data);
    if !EndsCRLF(data) {
      sent := sent + CRLF;
    }
    sent := sent + END_OF_DATA;
  }

  // -------------------------------------------------------------- the receiver

  datatype Received = Message(data: string) | ReadError | BadFraming | TooLarge

  function Payload(line: string): string {
    if line != "" && line[0] == '.' then line[1..] else line
  }

  predicate GoodLine(line: string) {
    EndsCRLF(line) && forall i :: 0 <= i < |line| - 2 ==> line[i] != '\r'
  }

  // What the DATA reader makes of the stream `s`, with `got` collected already:
  // the outcome, and how much of `s` it has read when the outcome is a message.
  function Receive(s: string, got: string): (r: (Received, nat))
    ensures r.1 <= |s|
    decreases |s|
  {
    var n := Find(s, '\n');
    if n == |s| || n + 1 > MAX_LINE then (ReadError, 0)
    else
      var line, rest := s[..n + 1], s[n + 1..];
      if !GoodLine(line) then (BadFraming, 0)
      else if line == END_OF_DATA then (Message(got), n + 1)
      else if |got| + |Payload(line)| > MAX_MESSAGE then (TooLarge, 0)
      else
        var (r, used) := Receive(rest, got + Payload(line));
        (r, n + 1 + used)
  }

  datatype SliceEnd = Delimiter | BufferFull | EndOfStream

  class Reader {
    const stream: string
    var pos: nat

    constructor (stream: string)
      ensures this.stream == stream && pos == 0 && Valid()
    {
      this.stream := stream;
      pos := 0;
    }

    predicate Valid()
      reads this
    {
      pos <= |stream|
    }

    function Rest(): string
      requires Valid()
      reads this
    {
      stream[pos..]
    }

    // Up to and including the next LF, but never more than one buffer.
    method ReadSlice() returns (part: string, end: SliceEnd)
      requires Valid()
      modifies this`pos
      ensures Valid() && old(pos) <= pos && part == stream[old(pos)..pos]
      ensures var n := Find(old(Rest()), '\n');
        match end
        case Delimiter => n < |old(Rest())| && pos == old(pos) + n + 1
        case BufferFull => pos == old(pos) + BUFFER && BUFFER <= n
        case EndOfStream => n == |old(Rest())| && pos == |stream|
    {
      var n := Find(Rest(), '\n');
      if n < |Rest()| && n + 1 <= BUFFER {
        part, end := Rest()[..n + 1], Delimiter;
      } else if |Rest()| >= BUFFER {
        part, end := Rest()[..BUFFER], BufferFull;
      } else {
        part, end := Rest(), EndOfStream;
      }
      pos := pos + |part|;
    }

    // One line of at most `limit` octets; anything else is an error.
    method ReadWireLine(limit: nat) returns (line: Option<string>)
      requires Valid()
      modifies this`pos
      ensures Valid() && old(pos) <= pos
      ensures var n := Find(old(Rest()), '\n');
        if n < |old(Rest())| && n + 1 <= limit then
          line == Some(old(Rest())[..n + 1]) && pos == old(pos) + n + 1
        else line.None?
    {
      ghost var start, n := pos, Find(Rest(), '\n');
      var got := "";
      while true
        invariant start <= pos <= |stream| && got == stream[start..pos] && |got| <= limit
        invariant n == |got| + Find(stream[pos..], '\n')
        decreases |stream| - pos
      {
        ghost var mid := pos;
        var part, end := ReadSlice();
        if |got| + |part| > limit { return None; }
        got := got + part;
        JoinSlices(stream, start, mid, pos);
        match end
        case BufferFull => FindFrom(stream, mid, pos, '\n');
        case Delimiter => return Some(got);
        case EndOfStream => return None;
      }
    }

    // handleDATA's loop: everything up to the lone dot, and not an octet more.
    method ReadData() returns (r: Received)
      requires Valid()
      modifies this`pos
      ensures Valid() && r == Receive(old(Rest()), "").0
      ensures r.Message? ==> pos == old(pos) + Receive(old(Rest()), "").1
    {
      ghost var start, whole := pos, Receive(Rest(), "");
      var data := "";
      while true
        invariant Valid() && start <= pos && Collecting(whole, pos - start, Rest(), data)
        decreases |stream| - pos
      {
        var end;
        end, data := CollectLine(data, whole, start);
        if end.Some? { return end.value; }
      }
    }

    // One line of the loop: the outcome, or the text collected so far.
    method CollectLine(data: string, ghost whole: (Received, nat), ghost start: nat)
      returns (end: Option<Received>, more: string)
      requires Valid() && start <= pos && Collecting(whole, pos - start, Rest(), data)
      modifies this`pos
      ensures Valid() && old(pos) <= pos
      ensures match end
        case None => pos > old(pos) && Collecting(whole, pos - start, Rest(), more)
        case Some(r) => r == whole.0 && (r.Message? ==> pos == start + whole.1)
    {
      ghost var before := Rest();
      CollectStep(whole, pos - start, before, data);
      var got := ReadWireLine(MAX_LINE);
      if got.None? { return Some(ReadError), data; }
      var line := got.value;
      assert before[|line|..] == Rest();
      if !GoodLine(line) { return Some(BadFraming), data; }
      if line == END_OF_DATA { return Some(Message(data)), data; }
      if line[0] == '.' { line := line[1..]; }
      if |data| + |line| > MAX_MESSAGE { return Some(TooLarge), data; }
      return None, data + line;
    }
  }

  // `whole` is the outcome to reach; `read` octets are behind, `data` is collected, `rest` is ahead.
  ghost predicate Collecting(whole: (Received, nat), read: nat, rest: string, data: string) {
    var r := Receive(rest, data);
    whole.0 == r.0 && (r.0.Message? ==> whole.1 == read + r.1)
  }

  lemma CollectStep(whole: (Received, nat), read: nat, s: string, data: string)
    requires Collecting(whole, read, s, data)
    ensures var n := Find(s, '\n');
      if n == |s| || n + 1 > MAX_LINE then whole.0 == ReadError
      else
        var line := s[..n + 1];
        if !GoodLine(line) then whole.0 == BadFraming
        else if line == END_OF_DATA then whole == (Message(data), read + n + 1)
        else if |data| + |Payload(line)| > MAX_MESSAGE then whole.0 == TooLarge
        else Collecting(whole, read + n + 1, s[n + 1..], data + Payload(line))
  {
  }

  lemma JoinSlices(s: string, start: nat, mid: nat, end: nat)
    requires start <= mid <= end <= |s|
    ensures s[start..mid] + s[mid..end] == s[start..end] == s[start..][..end - start]
  {
  }

  lemma FindFrom(s: string, start: nat, mid: nat, c: char)
    requires start <= mid <= |s| && mid - start <= Find(s[start..], c)
    ensures Find(s[start..], c) == mid - start + Find(s[mid..], c)
  {
    FindSkip(s[start..], mid - start, c);
    assert s[start..][mid - start..] == s[mid..];
  }

  lemma {:induction false} FindSkip(s: string, k: nat, c: char)
    requires k <= Find(s, c)
    ensures Find(s, c) == k + Find(s[k..], c)
  {
    if k > 0 {
      FindSkip(s[1..], k - 1, c);
      assert s[1..][k - 1..] == s[k..];
    }
  }

  // ------------------------------------------------------- one line at a time

  predicate IsLine(line: string) {
    line != "" && line[|line| - 1] == '\n' && forall i :: 0 <= i < |line| - 1 ==> line[i] != '\n'
  }

  lemma {:induction false} LineEnd(line: string, rest: string)
    requires IsLine(line)
    ensures Find(line + rest, '\n') == |line| - 1
    ensures (line + rest)[..|line|] == line && (line + rest)[|line|..] == rest
  {
    if |line| > 1 {
      assert IsLine(line[1..]);
      LineEnd(line[1..], rest);
      assert (line + rest)[1..] == line[1..] + rest;
    }
  }

  function StuffLine(line: string): string {
    if line != "" && line[0] == '.' then "." + line else line
  }

  // The transmission and the delivered text, line by line.
  function WireLines(data: string): string
    decreases |data|
  {
    var n := Find(data, '\n');
    if data == "" then ""
    else if n == |data| then StuffLine(data) + CRLF
    else StuffLine(data[..n + 1]) + WireLines(data[n + 1..])
  }

  function TerminatedLines(data: string): string
    decreases |data|
  {
    var n := Find(data, '\n');
    if data == "" then ""
    else if n == |data| then data + CRLF
    else data[..n + 1] + TerminatedLines(data[n + 1..])
  }

  // Every line, with its doubled dot and its CRLF, is within the line limit.
  predicate LinesFit(data: string)
    decreases |data|
  {
    var n := Find(data, '\n');
    if data == "" then true
    else if n == |data| then |StuffLine(data)| + 2 <= MAX_LINE
    else |StuffLine(data[..n + 1])| <= MAX_LINE && LinesFit(data[n + 1..])
  }

  lemma {:induction false} StuffInside(line: string, rest: string)
    requires IsLine(line)
    ensures Stuff(line + rest, false) == line + Stuff(rest, true)
  {
    var s := line + rest;
    assert s[0] == line[0] && s[1..] == line[1..] + rest;
    if |line| == 1 {
      assert line[1..] + rest == rest;
    } else {
      StuffInside(line[1..], rest);
      assert [line[0]] + (line[1..] + Stuff(rest, true)) == line + Stuff(rest, true);
    }
  }

  lemma {:induction false} StuffUnterminated(s: string)
    requires Find(s, '\n') == |s|
    ensures Stuff(s, false) == s
  {
    if s != [] { StuffUnterminated(s[1..]); }
  }

  lemma StuffDot(s: string)
    requires s != ""
    ensures Stuff(s, true) == (if s[0] == '.' then "." else "") + Stuff(s, false)
  {
  }

  lemma StuffFirst(line: string, rest: string)
    requires IsLine(line)
    ensures Stuff(line + rest, true) == StuffLine(line) + Stuff(rest, true)
  {
    StuffDot(line + rest);
    StuffInside(line, rest);
    Associate(".", line, Stuff(rest, true));
    assert "" + (line + Stuff(rest, true)) == line + Stuff(rest, true);
  }

  lemma StuffLast(s: string)
    requires s != "" && Find(s, '\n') == |s|
    ensures Stuff(s, true) == StuffLine(s)
  {
    StuffDot(s);
    StuffUnterminated(s);
    assert "" + s == s;
  }

  lemma Associate(a: string, b: string, c: string)
    ensures (a + b) + c == a + (b + c)
  {
  }

  lemma LineSplits(line: string, rest: string)
    requires IsLine(line)
    ensures WireLines(line + rest) == StuffLine(line) + WireLines(rest)
    ensures TerminatedLines(line + rest) == line + TerminatedLines(rest)
    ensures LinesFit(line + rest) <==> |StuffLine(line)| <= MAX_LINE && LinesFit(rest)
  {
    LineEnd(line, rest);
  }

  // The first line of a framed text that has one.
  lemma CutLine(data: string) returns (line: string, rest: string)
    requires Framed(data) && Find(data, '\n') < |data|
    ensures data == line + rest && |rest| < |data|
    ensures IsLine(line) && Framed(line) && Framed(rest)
  {
    var n := Find(data, '\n');
    FindIsFirst(data, '\n');
    FramedSplit(data, n);
    line, rest := data[..n + 1], data[n + 1..];
  }

  lemma FramedLineEnds(line: string)
    requires IsLine(line) && Framed(line)
    ensures EndsCRLF(line)
  {
    assert FramedAt(line, |line| - 1);
  }

  lemma EndOfConcat(line: string, rest: string)
    requires IsLine(line) && Framed(rest) && rest != ""
    ensures EndsCRLF(line + rest) == EndsCRLF(rest)
  {
    assert FramedAt(rest, |rest| - 1);
  }

  // Wire and Terminated, unfolded one line.
  lemma WireOfFirst(line: string, rest: string)
    requires IsLine(line) && EndsCRLF(line + rest) == EndsCRLF(rest)
    ensures Wire(line + rest) == StuffLine(line) + Wire(rest)
    ensures Terminated(line + rest) == line + Terminated(rest)
  {
    StuffFirst(line, rest);
    var close := if EndsCRLF(rest) then "" else CRLF;
    Associate(StuffLine(line), Stuff(rest, true), close);
    Associate(StuffLine(line), Stuff(rest, true) + close, END_OF_DATA);
    Associate(line, rest, CRLF);
  }

  lemma WireOfOnly(line: string)
    requires IsLine(line) && EndsCRLF(line)
    ensures Wire(line) == StuffLine(line) + END_OF_DATA && Terminated(line) == line
  {
    StuffFirst(line, "");
    assert line + "" == line && StuffLine(line) + "" == StuffLine(line);
  }

  lemma WireOfLast(data: string)
    requires data != "" && Find(data, '\n') == |data|
    ensures Wire(data) == StuffLine(data) + CRLF + END_OF_DATA && Terminated(data) == data + CRLF
  {
    StuffLast(data);
    FindIsFirst(data, '\n');
  }

  lemma {:induction false} WireIsLines(data: string)
    requires Framed(data) && data != ""
    ensures Wire(data) == WireLines(data) + END_OF_DATA
    ensures Terminated(data) == TerminatedLines(data)
    decreases |data|
  {
    if Find(data, '\n') == |data| {
      WireOfLast(data);
    } else {
      var line, rest := CutLine(data);
      LineSplits(line, rest);
      FramedLineEnds(line);
      if rest == "" {
        WireOfOnly(line);
        assert line + rest == line && StuffLine(line) + "" == StuffLine(line);
      } else {
        WireIsLines(rest);
        EndOfConcat(line, rest);
        WireOfFirst(line, rest);
        Associate(StuffLine(line), WireLines(rest), END_OF_DATA);
      }
    }
  }

  // ---------------------------------------------------------- reading it back

  // What the sender puts on the wire for one line.
  ghost predicate IsWireLine(w: string, line: string) {
    IsLine(w) && GoodLine(w) && w != END_OF_DATA && Payload(w) == line
  }

  lemma StuffedLineIsGood(line: string)
    requires IsLine(line) && Framed(line)
    ensures IsWireLine(StuffLine(line), line)
  {
    FramedLineEnds(line);
    forall i | 0 <= i < |line| - 2 ensures line[i] != '\r' {
      assert FramedAt(line, i);
    }
    if line[0] == '.' {
      var w := StuffLine(line);
      assert w[1..] == line;
      assert w[1] == '.';
    }
  }

  // What reading one good line leads to, given what reading on from there does.
  function AfterLine(line: string, got: string, next: (Received, nat)): (Received, nat) {
    if |line| > MAX_LINE then (ReadError, 0)
    else if |got| + |Payload(line)| > MAX_MESSAGE then (TooLarge, 0)
    else (next.0, |line| + next.1)
  }

  lemma ReceiveLine(line: string, s: string, got: string)
    requires IsLine(line) && GoodLine(line) && line != END_OF_DATA
    ensures Receive(line + s, got) == AfterLine(line, got, Receive(s, got + Payload(line)))
  {
    LineEnd(line, s);
  }

  lemma ReceiveEnd(rest: string, got: string)
    ensures Receive(END_OF_DATA + rest, got) == (Message(got), 3)
  {
    LineEnd(END_OF_DATA, rest);
  }

  // The limits as the receiver meets them, after `got`.
  predicate Delivers(data: string, got: string) {
    LinesFit(data) && |got| + |TerminatedLines(data)| <= MAX_MESSAGE
  }

  // `r` is the right outcome for `data`, sent line by line after `got`.
  ghost predicate DeliveredAs(r: (Received, nat), data: string, got: string) {
    if Delivers(data, got) then r == (Message(got + TerminatedLines(data)), |WireLines(data)| + 3)
    else !r.0.Message?
  }

  lemma {:induction false} ReceiveLines(data: string, rest: string, got: string)
    requires Framed(data) && |got| <= MAX_MESSAGE
    ensures DeliveredAs(Receive(WireLines(data) + (END_OF_DATA + rest), got), data, got)
    decreases |data|
  {
    if data == "" {
      assert WireLines("") + (END_OF_DATA + rest) == END_OF_DATA + rest && got + "" == got;
      ReceiveEnd(rest, got);
    } else {
      var line, tail := FirstLine(data);
      var w, s := StuffLine(line), WireLines(tail) + (END_OF_DATA + rest);
      Associate(w, WireLines(tail), END_OF_DATA + rest);
      ReceiveLine(w, s, got);
      if |got| + |line| <= MAX_MESSAGE {
        ReceiveLines(tail, rest, got + line);
      }
      OneMoreLine(Receive(s, got + line), data, line, tail, got);
    }
  }

  // The outcome for the tail settles the outcome for the whole.
  lemma OneMoreLine(next: (Received, nat), data: string, line: string, tail: string, got: string)
    requires IsFirstLine(data, line, tail)
    requires |got| + |line| <= MAX_MESSAGE ==> DeliveredAs(next, tail, got + line)
    ensures DeliveredAs(AfterLine(StuffLine(line), got, next), data, got)
  {
    Associate(got, line, TerminatedLines(tail));
  }

  ghost predicate IsFirstLine(data: string, line: string, tail: string) {
    && IsWireLine(StuffLine(line), line)
    && WireLines(data) == StuffLine(line) + WireLines(tail)
    && TerminatedLines(data) == line + TerminatedLines(tail)
    && (LinesFit(data) <==> |StuffLine(line)| <= MAX_LINE && LinesFit(tail))
  }

  // The first line of a text, closed if need be.
  lemma FirstLine(data: string) returns (line: string, tail: string)
    requires Framed(data) && data != ""
    ensures Framed(tail) && |tail| < |data|
    ensures IsFirstLine(data, line, tail)
  {
    if Find(data, '\n') == |data| {
      CloseLine(data);
      line, tail := data + CRLF, "";
      assert StuffLine(data) + CRLF == StuffLine(line);
      assert StuffLine(line) + "" == StuffLine(line) && line + "" == line;
    } else {
      line, tail := CutLine(data);
      LineSplits(line, tail);
    }
    StuffedLineIsGood(line);
  }

  // A framed text without LF, closed by CRLF.
  lemma CloseLine(data: string)
    requires Framed(data) && Find(data, '\n') == |data|
    ensures Framed(data + CRLF) && IsLine(data + CRLF)
  {
    assert Framed(CRLF) by { assert FramedAt(CRLF, 0) && FramedAt(CRLF, 1); }
    FramedConcat(data, CRLF);
    FindIsFirst(data, '\n');
  }

  // The exact outcome of a transmission of `data`.
  predicate RoundTrips(r: (Received, nat), data: string) {
    if LinesFit(data) && |Terminated(data)| <= MAX_MESSAGE then r == (Message(Terminated(data)), |Wire(data)|)
    else !r.0.Message?
  }

  lemma EmptyRoundTrip(rest: string)
    ensures Terminated("") == CRLF && LinesFit("")
    ensures Receive(Wire("") + rest, "") == (Message(CRLF), |Wire("")|)
  {
    assert Wire("") == CRLF + END_OF_DATA;
    Associate(CRLF, END_OF_DATA, rest);
    ReceiveLine(CRLF, END_OF_DATA + rest, "");
    ReceiveEnd(rest, CRLF);
    assert "" + CRLF == CRLF;
  }

  /** SMTP transparency: what one gateway writes is what the next one reads. A framed message
      is delivered whole, closed by CRLF, with the octets behind it left unread, exactly when
      its lines and its size are within the limits; nothing else is ever delivered for it. */
  lemma TransparencyRoundTrip(data: string, rest: string)
    requires Framed(data)
    ensures RoundTrips(Receive(Wire(data) + rest, ""), data)
  {
    if data == "" {
      EmptyRoundTrip(rest);
    } else {
      var r := SendAndReceive(data, rest);
      assert "" + TerminatedLines(data) == TerminatedLines(data);
      WireIsLines(data);
      assert |Wire(data)| == |WireLines(data)| + 3;
    }
  }

  lemma SendAndReceive(data: string, rest: string) returns (r: (Received, nat))
    requires Framed(data) && data != ""
    ensures r == Receive(Wire(data) + rest, "") && DeliveredAs(r, data, "")
  {
    WireIsLines(data);
    Associate(WireLines(data), END_OF_DATA, rest);
    ReceiveLines(data, rest, "");
    r := Receive(Wire(data) + rest, "");
  }

  // ------------------------------------------------------ what is ever accepted

  lemma PayloadIsLine(line: string)
    requires IsLine(line) && GoodLine(line) && line != END_OF_DATA && |line| <= MAX_LINE
    ensures var p := Payload(line);
            IsLine(p) && Framed(p) && EndsCRLF(p) && |StuffLine(p)| <= MAX_LINE
  {
    var p := Payload(line);
    var k := |line| - |p|;
    assert line[0] == '.' && |line| == 3 ==> line == END_OF_DATA;
    assert forall i :: 0 <= i < |p| ==> p[i] == line[i + k];
    forall i | 0 <= i < |p| ensures FramedAt(p, i) {
    }
  }

  // A run of complete lines, each short enough to be sent on.
  predicate Relayable(data: string) {
    Framed(data) && LinesFit(data) && (data == "" || EndsCRLF(data))
  }

  lemma RelayableCons(line: string, rest: string)
    requires IsLine(line) && Framed(line) && EndsCRLF(line) && |StuffLine(line)| <= MAX_LINE
    requires Relayable(rest)
    ensures Relayable(line + rest)
  {
    FramedConcat(line, rest);
    LineSplits(line, rest);
    assert EndsCRLF(line + rest) by {
      if rest == "" { assert line + rest == line; } else { EndOfConcat(line, rest); }
    }
  }

  /** Whatever the reader collects is framed, closed by CRLF and within every limit. */
  lemma {:induction false} AcceptedIsRelayable(s: string, got: string, data: string) returns (x: string)
    requires |got| <= MAX_MESSAGE && Receive(s, got).0 == Message(data)
    ensures data == got + x && Relayable(x) && |data| <= MAX_MESSAGE
    decreases |s|
  {
    var line, rest := ReadStep(s, got, data);
    if line == END_OF_DATA {
      x := "";
      assert got + "" == got;
    } else {
      var p := Payload(line);
      PayloadIsLine(line);
      x := AcceptedIsRelayable(rest, got + p, data);
      RelayableCons(p, x);
      Associate(got, p, x);
      x := p + x;
    }
  }

  lemma ReceivedIsFramed(s: string)
    ensures Receive(s, "").0.Message? ==> Framed(Receive(s, "").0.data)
  {
    if Receive(s, "").0.Message? {
      var x := AcceptedIsRelayable(s, "", Receive(s, "").0.data);
      assert "" + x == x;
    }
  }

  // One step of a reading that ends in a message.
  lemma ReadStep(s: string, got: string, data: string) returns (line: string, rest: string)
    requires Receive(s, got).0 == Message(data)
    ensures IsLine(line) && GoodLine(line) && |line| <= MAX_LINE && |rest| < |s|
    ensures if line == END_OF_DATA then data == got
            else |got| + |Payload(line)| <= MAX_MESSAGE && Receive(rest, got + Payload(line)).0 == Message(data)
  {
    var n := Find(s, '\n');
    FindIsFirst(s, '\n');
    line, rest := s[..n + 1], s[n + 1..];
  }

  /** A chain of gateways is transparent: a non-empty message accepted by one and sent on
      unchanged is accepted by the next, octet for octet. (An empty one gains its CRLF.) */
  lemma RelayChain(s: string, data: string, rest: string)
    requires Receive(s, "").0 == Message(data)
    ensures Receive(Wire(data) + rest, "") == (Message(if data == "" then CRLF else data), |Wire(data)|)
  {
    var x := AcceptedIsRelayable(s, "", data);
    assert "" + x == x && "" + CRLF == CRLF;
    TransparencyRoundTrip(data, rest);
  }
}
