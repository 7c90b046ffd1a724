/** Splitting a message and parsing its header block (pkg/rules/message.go 309-401), and the raw
    pairs handed to DKIM (pkg/rules/verify.go 14-32). */
module HeaderBlock {
  import opened Text
  import opened Canonical
  import opened TagStrip
  import opened SignedHeaders

  datatype Header = Header(name: string, value: string, raw: string, lineNum: nat, folded: bool, maxOctet: nat)

  // ------------------------------------------------------------------- the lines

  function SplitLines(block: string): seq<string> {
    if block == "" then []
    else
      var lines := Split(ToLF(block), '\n');
      if lines[|lines| - 1] == "" then lines[..|lines| - 1] else lines
  }

  lemma SplitFirst(part: string, rest: string, s: string)
    requires '\n' !in part && s == part + "\n" + rest
    ensures Split(s, '\n') == [part] + Split(rest, '\n')
  {
    FindIs(s, '\n', |part|);
    assert s[..|part|] == part && s[|part| + 1..] == rest;
  }

  lemma SplitOnly(part: string)
    requires '\n' !in part
    ensures Split(part, '\n') == [part]
  {
    FindIs(part, '\n', |part|);
  }

  lemma {:induction false} SplitLFSnoc(s: string, c: char)
    ensures Split(s + [c], '\n') == if c == '\n' then Split(s, '\n') + [""] else Extend(Split(s, '\n'), c)
    decreases |s|
  {
    var n := Find(s, '\n');
    FindIsFirst(s, '\n');
    if n < |s| {
      SplitLFSnoc(s[n + 1..], c);
      SplitMore(s[..n], s[n + 1..], s, c);
    } else {
      SplitOnly(s);
      if c == '\n' {
        SplitOnly("");
        SplitFirst(s, "", s + [c]);
      } else {
        SplitOnly(s + [c]);
      }
    }
  }

  lemma SplitMore(part: string, rest: string, s: string, c: char)
    requires '\n' !in part && s == part + "\n" + rest
    requires Split(rest + [c], '\n') ==
             if c == '\n' then Split(rest, '\n') + [""] else Extend(Split(rest, '\n'), c)
    ensures Split(s + [c], '\n') == if c == '\n' then Split(s, '\n') + [""] else Extend(Split(s, '\n'), c)
  {
    SplitFirst(part, rest, s);
    SplitFirst(part, rest + [c], s + [c]);
  }

  lemma {:induction false} SplitToLF(s: string)
    ensures Split(ToLF(s), '\n') == Lines(s)
    decreases |s|
  {
    if s == [] {
    } else if EndsCRLF(s) {
      SplitToLF(s[..|s| - 2]);
      SplitLFSnoc(ToLF(s[..|s| - 2]), '\n');
    } else {
      SplitToLF(s[..|s| - 1]);
      SplitLFSnoc(ToLF(s[..|s| - 1]), s[|s| - 1]);
    }
  }

  // ------------------------------------------------------------------ the parser

  datatype Parse = Parse(headers: seq<Header>, cur: Option<Header>)

  function Cut(line: string): string {
    TrimRight(line, CRLF)
  }

  predicate StartsBlank(line: string) {
    line != "" && (line[0] == ' ' || line[0] == '\t')
  }

  // A colon, and a name before it.
  predicate HasName(line: string) {
    0 < Find(line, ':') < |line|
  }

  function Flush(p: Parse): Parse {
    match p.cur
    case None => p
    case Some(h) => Parse(p.headers + [h.(value := TrimSpace(h.value))], None)
  }

  function Started(line: string, lineNum: nat): Header {
    if HasName(line) then
      Header(line[..Find(line, ':')], line[Find(line, ':') + 1..], line, lineNum, false, |line|)
    else Header("", line, line, lineNum, false, |line|)
  }

  function Continued(h: Header, line: string): Header {
    h.(value := h.value + " " + TrimSpace(line), raw := h.raw + CRLF + line, folded := true,
       maxOctet := if |line| > h.maxOctet then |line| else h.maxOctet)
  }

  function ParseLine(p: Parse, line: string): Parse {
    if p.cur.Some? && StartsBlank(line) then p.(cur := Some(Continued(p.cur.value, Cut(line))))
    else
      var p := Flush(p);
      if Cut(line) == "" then p else p.(cur := Some(Started(Cut(line), |p.headers| + 1)))
  }

  function ParseLines(lines: seq<string>, n: nat): Parse
    requires n <= |lines|
  {
    if n == 0 then Parse([], None) else ParseLine(ParseLines(lines, n - 1), lines[n - 1])
  }

  function HeadersOf(block: string): seq<Header> {
    var lines := SplitLines(block);
    Flush(ParseLines(lines, |lines|)).headers
  }

  method ParseHeaderBlock(block: string) returns (headers: seq<Header>)
    ensures headers == HeadersOf(block)
  {
    var lines := SplitLines(block);
    headers := ParseEach(lines);
  }

  method ParseEach(lines: seq<string>) returns (headers: seq<Header>)
    ensures headers == Flush(ParseLines(lines, |lines|)).headers
  {
    headers := [];
    var cur: Option<Header> := None;
    var i := 0;
    while i < |lines|
      invariant i <= |lines| && ParseLines(lines, i) == Parse(headers, cur)
    {
      var line := lines[i];
      i := i + 1;
      var trimmedRight := TrimRight(line, CRLF);
      if cur.Some? && StartsBlank(line) {
        cur := Some(Continued(cur.value, trimmedRight));
        continue;
      }
      if cur.Some? {
        headers := headers + [cur.value.(value := TrimSpace(cur.value.value))];
        cur := None;
      }
      if trimmedRight == "" { continue; }
      cur := Some(Started(trimmedRight, |headers| + 1));
    }
    if cur.Some? {
      headers := headers + [cur.value.(value := TrimSpace(cur.value.value))];
    }
  }

  // ---------------------------------------------------------------- the raw pairs

  function PairOf(h: Header): Field {
    Field(h.name, if h.raw != "" && Find(h.raw, ':') < |h.raw| then h.raw[Find(h.raw, ':') + 1..] else h.value)
  }

  function PairsOf(headers: seq<Header>): seq<Field> {
    if headers == [] then []
    else
      var h := headers[|headers| - 1];
      PairsOf(headers[..|headers| - 1]) + if h.name == "" then [] else [PairOf(h)]
  }

  method RawHeaderPairs(headers: seq<Header>) returns (pairs: seq<Field>)
    ensures pairs == PairsOf(headers)
  {
    pairs := [];
    var i := 0;
    while i < |headers|
      invariant i <= |headers| && pairs == PairsOf(headers[..i])
    {
      PairsUpTo(headers, i);
      var h := headers[i];
      i := i + 1;
      if h.name != "" {
        pairs := AppendPair(pairs, h);
      }
    }
    assert headers[..i] == headers;
  }

  method AppendPair(pairs: seq<Field>, h: Header) returns (more: seq<Field>)
    ensures more == pairs + [PairOf(h)]
  {
    var value := h.value;
    if h.raw != "" {
      var colon := Find(h.raw, ':');
      if colon < |h.raw| {
        value := h.raw[colon + 1..];
      }
    }
    more := pairs + [Field(h.name, value)];
  }

  lemma PairsUpTo(headers: seq<Header>, i: nat)
    requires i < |headers|
    ensures PairsOf(headers[..i + 1]) ==
            if headers[i].name == "" then PairsOf(headers[..i]) else PairsOf(headers[..i]) + [PairOf(headers[i])]
  {
    assert headers[..i + 1][..i] == headers[..i];
  }

  function Row(f: Field): string {
    f.name + ":" + f.value
  }

  function Rows(pairs: seq<Field>): (r: seq<string>)
    ensures |r| == |pairs|
  {
    seq(|pairs|, k requires 0 <= k < |pairs| => Row(pairs[k]))
  }

  /** The pairs written back as header lines. */
  function Print(pairs: seq<Field>): string {
    Join(Rows(pairs), CRLF)
  }

  // -------------------------------------------------------- which lines come back

  datatype Inside = Nothing | Named | Nameless

  // What the parser is inside of after a line.
  function Next(k: Inside, line: string): Inside {
    if k != Nothing && StartsBlank(line) then k
    else if Cut(line) == "" then Nothing
    else if HasName(Cut(line)) then Named
    else Nameless
  }

  function InsideOf(lines: seq<string>, n: nat): Inside
    requires n <= |lines|
  {
    if n == 0 then Nothing else Next(InsideOf(lines, n - 1), lines[n - 1])
  }

  // Whether a line belongs to a field with a name.
  predicate Belongs(k: Inside, line: string) {
    Next(k, line) == Named
  }

  function KeptLines(lines: seq<string>, n: nat): seq<string>
    requires n <= |lines|
  {
    if n == 0 then []
    else KeptLines(lines, n - 1) +
         if Belongs(InsideOf(lines, n - 1), lines[n - 1]) then [Cut(lines[n - 1])] else []
  }

  function InsideHeader(cur: Option<Header>): Inside {
    if cur.None? then Nothing else if cur.value.name == "" then Nameless else Named
  }

  // A named header's raw text starts with its name and the colon.
  predicate RawMatches(h: Header) {
    h.name != "" ==> |h.name| < |h.raw| && Find(h.raw, ':') == |h.name| && h.raw[..|h.name|] == h.name
  }

  lemma RowIsRaw(h: Header)
    requires RawMatches(h) && h.name != ""
    ensures Row(PairOf(h)) == h.raw
  {
    FindIsFirst(h.raw, ':');
    var n := |h.name|;
    assert h.raw == h.raw[..n] + [h.raw[n]] + h.raw[n + 1..];
  }

  lemma StartedMatches(line: string, lineNum: nat)
    ensures RawMatches(Started(line, lineNum))
    ensures Started(line, lineNum).name == "" <==> !HasName(line)
  {
  }

  lemma ContinuedMatches(h: Header, line: string)
    requires RawMatches(h)
    ensures RawMatches(Continued(h, line))
  {
    if h.name != "" {
      var raw := h.raw + CRLF + line;
      FindIsFirst(h.raw, ':');
      FindIs(raw, ':', |h.name|);
    }
  }

  // The named headers' raw texts, joined.
  function Written(headers: seq<Header>): string {
    Print(PairsOf(headers))
  }

  // Text after one more row.
  function With(pairs: nat, text: string, row: string): string {
    if pairs == 0 then row else text + CRLF + row
  }

  lemma PrintSnoc(pairs: seq<Field>, f: Field)
    ensures Print(pairs + [f]) == With(|pairs|, Print(pairs), Row(f))
  {
    assert Rows(pairs + [f]) == Rows(pairs) + [Row(f)];
    JoinSnoc(Rows(pairs), Row(f));
  }

  // What would be written if parsing stopped here.
  function TextOf(p: Parse): string {
    Print(PairsOf(Flush(p).headers))
  }

  function Count(p: Parse): nat {
    |PairsOf(Flush(p).headers)|
  }

  lemma PairsSnoc(headers: seq<Header>, h: Header)
    ensures PairsOf(headers + [h]) == PairsOf(headers) + if h.name == "" then [] else [PairOf(h)]
  {
    assert (headers + [h])[..|headers|] == headers;
  }

  lemma FlushedText(p: Parse)
    requires p.cur.Some? ==> RawMatches(p.cur.value)
    ensures var before := PairsOf(p.headers);
      if InsideHeader(p.cur) == Named
      then TextOf(p) == With(|before|, Print(before), p.cur.value.raw) && Count(p) == |before| + 1
      else TextOf(p) == Print(before) && Count(p) == |before|
  {
    if p.cur.Some? {
      var h := p.cur.value.(value := TrimSpace(p.cur.value.value));
      PairsSnoc(p.headers, h);
      if h.name == "" {
        assert PairsOf(p.headers) + [] == PairsOf(p.headers);
      } else {
        PrintSnoc(PairsOf(p.headers), PairOf(h));
        RowIsRaw(h);
      }
    }
  }

  // One line: the text grows by exactly that line, when it belongs to a named field.
  lemma LineText(p: Parse, line: string)
    requires p.cur.Some? ==> RawMatches(p.cur.value)
    ensures var q := ParseLine(p, line);
      && (q.cur.Some? ==> RawMatches(q.cur.value))
      && InsideHeader(q.cur) == Next(InsideHeader(p.cur), line)
      && if Belongs(InsideHeader(p.cur), line)
         then TextOf(q) == With(Count(p), TextOf(p), Cut(line)) && Count(q) > 0
         else TextOf(q) == TextOf(p) && Count(q) == Count(p)
  {
    var q := ParseLine(p, line);
    FlushedText(p);
    if p.cur.Some? && StartsBlank(line) {
      ContinuedMatches(p.cur.value, Cut(line));
      FlushedText(q);
      ContinuedText(|PairsOf(p.headers)|, Print(PairsOf(p.headers)), p.cur.value.raw, Cut(line));
    } else {
      StartedMatches(Cut(line), |Flush(p).headers| + 1);
      FlushedText(q);
    }
  }

  lemma ContinuedText(n: nat, text: string, raw: string, line: string)
    ensures With(n, text, raw + CRLF + line) == With(n, text, raw) + CRLF + line
  {
    assert text + CRLF + (raw + CRLF + line) == text + CRLF + raw + CRLF + line;
  }

  ghost predicate InStep(p: Parse, lines: seq<string>, n: nat)
    requires n <= |lines|
  {
    && (p.cur.Some? ==> RawMatches(p.cur.value))
    && InsideHeader(p.cur) == InsideOf(lines, n)
    && TextOf(p) == Join(KeptLines(lines, n), CRLF)
    && (Count(p) == 0 <==> KeptLines(lines, n) == [])
  }

  lemma OneStep(p: Parse, q: Parse, lines: seq<string>, n: nat)
    requires n < |lines| && InStep(p, lines, n) && q == ParseLine(p, lines[n])
    ensures InStep(q, lines, n + 1)
  {
    LineText(p, lines[n]);
    assert KeptLines(lines, n) + [] == KeptLines(lines, n);
    JoinSnoc(KeptLines(lines, n), Cut(lines[n]));
  }

  lemma {:induction false} ParsedText(lines: seq<string>, n: nat)
    requires n <= |lines|
    ensures InStep(ParseLines(lines, n), lines, n)
  {
    if n == 0 {
      assert Rows([]) == [];
    } else {
      ParsedText(lines, n - 1);
      OneStep(ParseLines(lines, n - 1), ParseLines(lines, n), lines, n - 1);
    }
  }

  /** For every block: what comes back is the lines of named fields, in order, joined by CRLF. */
  lemma PrintIsKept(block: string)
    ensures var lines := SplitLines(block);
      Print(PairsOf(HeadersOf(block))) == Join(KeptLines(lines, |lines|), CRLF)
  {
    ParsedText(SplitLines(block), |SplitLines(block)|);
  }

  // -------------------------------------------------------------- when all comes back

  // Every line belongs to a named field, and none ends in a bare CR.
  predicate AllKept(lines: seq<string>, n: nat)
    requires n <= |lines|
  {
    n > 0 ==>
      AllKept(lines, n - 1) && Belongs(InsideOf(lines, n - 1), lines[n - 1]) && Cut(lines[n - 1]) == lines[n - 1]
  }

  lemma {:induction false} KeptAll(lines: seq<string>, n: nat)
    requires n <= |lines|
    ensures |KeptLines(lines, n)| <= n
    ensures KeptLines(lines, n) == lines[..n] <==> AllKept(lines, n)
  {
    if n > 0 {
      KeptAll(lines, n - 1);
      var kept := KeptLines(lines, n - 1);
      assert lines[..n] == lines[..n - 1] + [lines[n - 1]];
      if KeptLines(lines, n) == lines[..n] {
        assert |KeptLines(lines, n)| == n;
        assert kept == KeptLines(lines, n)[..n - 1] && lines[..n][n - 1] == lines[n - 1];
        assert lines[..n][..n - 1] == lines[..n - 1];
      }
    }
  }

  predicate NoLF(lines: seq<string>) {
    forall k :: 0 <= k < |lines| ==> '\n' !in lines[k]
  }

  lemma {:induction false} LinesJoin(lines: seq<string>)
    requires lines != [] && NoLF(lines)
    ensures Lines(Join(lines, CRLF)) == lines
  {
    var front, last := lines[..|lines| - 1], lines[|lines| - 1];
    assert lines == front + [last];
    JoinSnoc(front, last);
    if front == [] {
      LinesTail("", last);
      assert "" + last == last;
    } else {
      LinesJoin(front);
      LinesBreak(Join(front, CRLF));
      LinesTail(Join(front, CRLF) + CRLF, last);
      assert "" + last == last;
    }
  }

  // As LinesAppend, but w may hold bare CRs.
  lemma {:induction false} LinesTail(x: string, w: string)
    requires '\n' !in w
    ensures Lines(x + w) == Widen(Lines(x), w)
    decreases |w|
  {
    if w == [] {
      assert x + w == x;
      assert Lines(x)[|Lines(x)| - 1] + w == Lines(x)[|Lines(x)| - 1];
    } else {
      var front, c := w[..|w| - 1], w[|w| - 1];
      LinesTail(x, front);
      assert x + w == (x + front) + [c] && w == front + [c];
      LinesSnoc(x + front, c);
      WidenExtend(Lines(x), front, c);
    }
  }

  lemma {:induction false} KeptHaveNoLF(lines: seq<string>, n: nat)
    requires n <= |lines| && NoLF(lines)
    ensures NoLF(KeptLines(lines, n))
  {
    if n > 0 {
      KeptHaveNoLF(lines, n - 1);
      TrimRightIsPrefix(lines[n - 1], CRLF);
    }
  }

  /** A block every line of which belongs to a named field and ends in CRLF. */
  predicate WellFormed(block: string) {
    Normal(block) == block && AllKept(Lines(block), |Lines(block)|)
  }

  /** Parsing and writing back gives the block byte for byte, folded and repeated fields included,
      exactly when the block is well formed (or empty). So simple canonicalisation sees the bytes
      that were on the wire (section 3.4.1 of RFC 6376). */
  lemma PrintParse(block: string)
    ensures Print(PairsOf(HeadersOf(block))) == block <==> block == "" || WellFormed(block)
  {
    var lines := SplitLines(block);
    PrintIsKept(block);
    SplitToLF(block);
    LinesHaveNoLF(block);
    KeptAll(lines, |lines|);
    KeptHaveNoLF(lines, |lines|);
    assert lines[..|lines|] == lines;
    if block != "" {
      if WellFormed(block) { WellFormedComesBack(block, lines); }
      if Print(PairsOf(HeadersOf(block))) == block { ComesBackWellFormed(block, lines, KeptLines(lines, |lines|)); }
    } else {
      assert Join([], CRLF) == "";
    }
  }

  lemma {:induction false} NoEmptyLine(lines: seq<string>, n: nat)
    requires n <= |lines| && AllKept(lines, n)
    ensures forall k :: 0 <= k < n ==> lines[k] != ""
  {
    if n > 0 { NoEmptyLine(lines, n - 1); }
  }

  lemma WellFormedComesBack(block: string, lines: seq<string>)
    requires block != "" && WellFormed(block)
    requires lines == SplitLines(block) && Split(ToLF(block), '\n') == Lines(block)
    requires AllKept(lines, |lines|) ==> KeptLines(lines, |lines|) == lines
    ensures Join(KeptLines(lines, |lines|), CRLF) == block
  {
    NoEmptyLine(Lines(block), |Lines(block)|);
    JoinLines(block);
  }

  lemma ComesBackWellFormed(block: string, lines: seq<string>, kept: seq<string>)
    requires block != "" && Join(kept, CRLF) == block && NoLF(kept) && |kept| <= |lines|
    requires lines == SplitLines(block) && Split(ToLF(block), '\n') == Lines(block)
    requires kept == lines ==> AllKept(lines, |lines|)
    ensures WellFormed(block)
  {
    assert kept != [];
    LinesJoin(kept);
    JoinLines(block);
  }

  // --------------------------------------------------------------- header and body

  predicate OccursAt(s: string, p: string, k: int) {
    0 <= k && k + |p| <= |s| && s[k..k + |p|] == p
  }

  // bytes.Index from a place on, or -1.
  function IndexOf(s: string, p: string, from: nat): int
    decreases |s| - from
  {
    if from + |p| > |s| then -1 else if OccursAt(s, p, from) then from else IndexOf(s, p, from + 1)
  }

  const BLANK_LINE := "\r\n\r\n"

  function SplitMessage(raw: string): (string, string) {
    var i := IndexOf(raw, BLANK_LINE, 0);
    var j := IndexOf(raw, "\n\n", 0);
    if 0 <= i && i + 4 <= |raw| then (raw[..i], raw[i + 4..])
    else if 0 <= j && j + 2 <= |raw| then (raw[..j], raw[j + 2..])
    else (raw, "")
  }

  lemma {:induction false} IndexIsFirst(s: string, p: string, from: nat, at: nat)
    requires from <= at && OccursAt(s, p, at)
    requires forall k :: from <= k < at ==> !OccursAt(s, p, k)
    ensures IndexOf(s, p, from) == at
    decreases at - from
  {
    if from < at { IndexIsFirst(s, p, from + 1, at); }
  }

  // The lines of x, which ends in LF, and then those of w.
  ghost predicate LinesAddUp(x: string, w: string) {
    Lines(x + w) == Lines(x)[..|Lines(x)| - 1] + Lines(w)
  }

  lemma AddUpBreak(x: string, v: string, w: string)
    requires w == v + CRLF && LinesAddUp(x, v)
    ensures LinesAddUp(x, w)
  {
    LinesOneBreak(v, w);
    LinesOneBreak(x + v, x + w);
    AddUpLast(Lines(x)[..|Lines(x)| - 1], Lines(v), 'x');
  }

  lemma LinesOneBreak(v: string, w: string)
    requires w == v + CRLF
    ensures Lines(w) == Lines(v) + [""]
  {
    LinesBreak(v);
  }

  lemma AddUpChar(x: string, v: string, c: char, w: string)
    requires x != "" && x[|x| - 1] == '\n' && w == v + [c] && !EndsCRLF(w) && LinesAddUp(x, v)
    ensures LinesAddUp(x, w)
  {
    LinesOneMore(v, c, w);
    LinesOneMore(x + v, c, x + w);
    AddUpLast(Lines(x)[..|Lines(x)| - 1], Lines(v), c);
  }

  lemma AddUpLast(a: seq<string>, b: seq<string>, c: char)
    requires b != []
    ensures Extend(a + b, c) == a + Extend(b, c) && (a + b) + [""] == a + (b + [""])
  {
  }

  lemma LinesOneMore(v: string, c: char, w: string)
    requires w == v + [c] && !EndsCRLF(w)
    ensures Lines(w) == if c == '\n' then Lines(v) + [""] else Extend(Lines(v), c)
  {
    LinesSnoc(v, c);
  }

  lemma {:induction false} LinesConcat(x: string, w: string)
    requires x != "" && x[|x| - 1] == '\n'
    ensures LinesAddUp(x, w)
    decreases |w|
  {
    if w == [] {
      assert x + w == x;
      LastLineEmpty(x);
    } else if EndsCRLF(w) {
      LinesConcat(x, w[..|w| - 2]);
      AddUpBreak(x, w[..|w| - 2], w);
    } else {
      LinesConcat(x, w[..|w| - 1]);
      AddUpChar(x, w[..|w| - 1], w[|w| - 1], w);
    }
  }

  lemma LastLineEmpty(x: string)
    requires x != "" && x[|x| - 1] == '\n'
    ensures Lines(x)[|Lines(x)| - 1] == "" && Lines("") == [""]
  {
  }

  // A blank line inside or at the end of a block is an empty line of it.
  lemma BlankLineIsEmptyLine(a: string, b: string)
    ensures "" in Lines(a + CRLF + CRLF + b)
  {
    LinesBreak(a);
    LinesBreak(a + CRLF);
    LinesConcat(a + CRLF + CRLF, b);
    var l := Lines(a + CRLF + CRLF);
    assert l[|l| - 2] == "" && Lines(a + CRLF + CRLF + b)[|l| - 2] == l[|l| - 2];
  }

  lemma BlankLineInside(block: string, k: nat)
    requires OccursAt(block, BLANK_LINE, k)
    ensures "" in Lines(block)
  {
    var a, b := block[..k], block[k + 4..];
    assert block == a + BLANK_LINE + b;
    assert a + BLANK_LINE + b == a + CRLF + CRLF + b;
    BlankLineIsEmptyLine(a, b);
  }

  lemma EndsInLF(block: string)
    requires block != "" && block[|block| - 1] == '\n'
    ensures "" in Lines(block)
  {
    LastLineEmpty(block);
  }

  lemma BlankLineChars(s: string, k: nat)
    requires OccursAt(s, BLANK_LINE, k)
    ensures s[k] == '\r' && s[k + 1] == '\n' && s[k + 2] == '\r' && s[k + 3] == '\n'
  {
    var t := s[k..k + 4];
    assert t[0] == '\r' && t[1] == '\n' && t[2] == '\r' && t[3] == '\n';
  }

  lemma StraddleOrInside(block: string, raw: string, k: nat)
    requires k < |block| && |block| + 4 <= |raw| && OccursAt(raw, BLANK_LINE, k)
    requires raw[|block|] == '\r' && raw[|block| + 2] == '\r'
    ensures k + 4 <= |block| || k + 2 == |block|
  {
    BlankLineChars(raw, k);
  }

  lemma NoEarlierBlankLine(block: string, raw: string, k: nat)
    requires "" !in Lines(block) && k < |block| && |block| + 4 <= |raw| && raw[..|block|] == block
    requires raw[|block|] == '\r' && raw[|block| + 2] == '\r'
    ensures !OccursAt(raw, BLANK_LINE, k)
  {
    if OccursAt(raw, BLANK_LINE, k) {
      StraddleOrInside(block, raw, k);
      BlankLineShows(block, raw, k);
    }
  }

  lemma BlankLineShows(block: string, raw: string, k: nat)
    requires |block| <= |raw| && raw[..|block|] == block && OccursAt(raw, BLANK_LINE, k)
    requires k + 4 <= |block| || k + 2 == |block|
    ensures "" in Lines(block)
  {
    if k + 4 <= |block| {
      assert raw[k..k + 4] == block[k..k + 4];
      BlankLineInside(block, k);
    } else {
      BlankLineChars(raw, k);
      assert block[k + 1] == raw[k + 1];
      EndsInLF(block);
    }
  }

  lemma SplitAtBlankLine(block: string, body: string)
    requires "" !in Lines(block)
    ensures SplitMessage(block + BLANK_LINE + body) == (block, body)
  {
    var raw := block + BLANK_LINE + body;
    forall k | 0 <= k < |block| ensures !OccursAt(raw, BLANK_LINE, k) {
      NoEarlierBlankLine(block, raw, k);
    }
    assert raw[|block|..|block| + 4] == BLANK_LINE;
    IndexIsFirst(raw, BLANK_LINE, 0, |block|);
    assert raw[..|block|] == block && raw[|block| + 4..] == body;
  }

  /** A well-formed block, a blank line and any body: the message splits into just those parts, and
      the block comes back from its parsed fields. */
  lemma MessageRoundTrip(block: string, body: string)
    ensures WellFormed(block) ==>
      SplitMessage(block + BLANK_LINE + body) == (block, body) && Print(PairsOf(HeadersOf(block))) == block
  {
    var lines := Lines(block);
    if WellFormed(block) {
      NoEmptyLine(lines, |lines|);
      assert "" !in lines;
      SplitAtBlankLine(block, body);
      PrintParse(block);
    }
  }
}
