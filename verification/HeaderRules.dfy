/** Header blocks from their text (section 2.2 of RFC 5322): what a field is, what a strip leaves, how
    a folded value is read, and where the body begins. */
module HeaderRules {
  import opened Text
  import opened Canonical
  import B = HeaderBlock
  import H = HeaderStrip
  import S = SignedHeaders
  import TextRules
  import TagStrip

  // ---------------------------------------------------------- fields and strips

  predicate Wsp(c: char) {
    c == ' ' || c == '\t'
  }

  // Every line break but the last is followed by a space or a tab.
  predicate Folded(s: string) {
    EndsCRLF(s) && forall k :: 0 < k < |s| ==> s[k - 1] == '\n' ==> Wsp(s[k])
  }

  // A whole field: one line, and continuation lines.
  predicate IsField(f: string) {
    Folded(f) && !Wsp(f[0]) && f[0] != '\r' && f[0] != '\n'
  }

  lemma LineOf(s: string)
    requires s != "" && s[|s| - 1] == '\n'
    ensures var n := H.LineLength(s);
      0 < n <= |s| && s[n - 1] == '\n' && forall k :: 0 <= k < n - 1 ==> s[k] != '\n'
  {
    FindIsFirst(s, '\n');
  }

  lemma {:induction false} ContinuationText(c: string)
    requires c != "" ==> Wsp(c[0]) && c[|c| - 1] == '\n' && forall k :: 0 < k < |c| ==> c[k - 1] == '\n' ==> Wsp(c[k])
    ensures H.ContinuationLength(c) == |c|
    decreases |c|
  {
    if c != "" {
      LineOf(c);
      var n := H.LineLength(c);
      forall k | 0 < k < |c[n..]| ensures c[n..][k - 1] == '\n' ==> Wsp(c[n..][k]) {
        assert c[n + k - 1] == '\n' ==> Wsp(c[n + k]);
      }
      assert n < |c| ==> c[n..][0] == c[n];
      ContinuationText(c[n..]);
    }
  }

  lemma FieldIsOne(f: string)
    requires IsField(f)
    ensures H.OneField(f) && H.Closed(f) && !H.IsContinuation(f)
  {
    LineOf(f);
    var n := H.LineLength(f);
    var c := f[n..];
    forall k | 0 < k < |c| ensures c[k - 1] == '\n' ==> Wsp(c[k]) {
      assert f[n + k - 1] == '\n' ==> Wsp(f[n + k]);
    }
    assert n < |f| ==> c[0] == f[n];
    ContinuationText(c);
    H.TrimKeepsFirst(f[..n], CRLF);
  }

  lemma BlankLineEnds(body: string)
    ensures H.Fields(CRLF + body) == [] && H.Remainder(CRLF + body) == CRLF + body && !H.IsContinuation(CRLF + body)
  {
    var s := CRLF + body;
    TagStrip.FindIs(s, '\n', 1);
    assert s[..2] == CRLF;
    assert TrimRight(CRLF, CRLF) == "" by {
      assert CRLF[..1] == "\r" && "\r"[..0] == "";
    }
  }

  lemma {:induction false} BlankMeaning(line: string)
    ensures H.IsBlank(line) <==> forall k :: 0 <= k < |line| ==> line[k] == '\r' || line[k] == '\n'
  {
    if line != "" {
      var n := |line| - 1;
      BlankMeaning(line[..n]);
      assert CRLF[0] == '\r' && CRLF[1] == '\n';
      if line[n] in CRLF {
        assert TrimRight(line, CRLF) == TrimRight(line[..n], CRLF);
      }
    }
  }

  /** The header ends with the text, or at a line of nothing but CRs and its LF. */
  lemma EndMeaning(line: string, rest: string)
    requires line != "" && line[|line| - 1] == '\n' && forall k :: 0 <= k < |line| - 1 ==> line[k] != '\n'
    ensures H.Fields("") == []
    ensures H.Fields(line + rest) == [] <==> forall k :: 0 <= k < |line| - 1 ==> line[k] == '\r'
  {
    TagStrip.FindIs(line + rest, '\n', |line| - 1);
    assert (line + rest)[..|line|] == line;
    BlankMeaning(line);
  }

  /** A block of fields, a blank line and a body are cut into just these. */
  lemma {:induction false} BlockIsCut(fields: seq<string>, body: string)
    requires forall f | f in fields :: IsField(f)
    ensures var s := H.Concat(fields) + CRLF + body;
      H.Fields(s) == fields && H.Remainder(s) == CRLF + body && !H.IsContinuation(s)
  {
    if fields == [] {
      BlankLineEnds(body);
      assert H.Concat(fields) + CRLF + body == CRLF + body;
    } else {
      BlockIsCut(fields[1..], body);
      OneMoreField(fields[0], H.Concat(fields[1..]) + CRLF + body);
      Same(fields[0], H.Concat(fields[1..]), CRLF);
      Same(fields[0], H.Concat(fields[1..]) + CRLF, body);
      assert fields == [fields[0]] + fields[1..];
    }
  }

  lemma OneMoreField(f: string, x: string)
    requires IsField(f) && !H.IsContinuation(x)
    ensures H.Fields(f + x) == [f] + H.Fields(x) && H.Remainder(f + x) == H.Remainder(x) && !H.IsContinuation(f + x)
  {
    FieldIsOne(f);
    H.FieldsCons(f, x);
    assert (f + x)[0] == f[0];
  }

  /** What a strip leaves of such a block: the other fields, the blank line and the body. */
  lemma StripLeaves(fields: seq<string>, body: string, name: string)
    requires forall f | f in fields :: IsField(f)
    ensures H.Strip(H.Concat(fields) + CRLF + body, name) == H.Concat(H.Without(fields, name)) + CRLF + body
  {
    var s := H.Concat(fields) + CRLF + body;
    BlockIsCut(fields, body);
    H.StripIsFilter(s, name);
    H.FieldsPrint(H.Strip(s, name));
    Same(H.Concat(H.Without(fields, name)), CRLF, body);
  }

  lemma Same(a: string, b: string, c: string)
    ensures a + (b + c) == a + b + c
  {
  }

  /** A field goes by the text before its first colon, trimmed, in any letter case. */
  lemma NamedMeaning(field: string, name: string, rest: string, target: string)
    requires IsField(field) && field == name + ":" + rest && ':' !in name && '\n' !in name
    ensures H.IsNamed(field, target) <==> EqualFold(TrimSpace(name), target)
  {
    LineOf(field);
    FieldIsOne(field);
    var n, i := H.LineLength(field), |name|;
    var line := field[..n];
    assert i < n by { ColonInLine(field, name, rest, n); }
    KeepsBefore(line, CRLF, i);
    var t := TrimRight(line, CRLF);
    assert t[i] == ':' && t[..i] == name;
    TagStrip.FindIs(t, ':', i);
  }

  lemma ColonInLine(field: string, name: string, rest: string, n: nat)
    requires field == name + ":" + rest && '\n' !in name && 0 < n <= |field| && field[n - 1] == '\n'
    ensures |name| < n
  {
    forall k | 0 <= k <= |name| ensures field[k] != '\n' {
      if k < |name| { assert field[k] == name[k]; } else { assert field[k] == ':'; }
    }
  }

  lemma {:induction false} KeepsBefore(s: string, cut: string, i: nat)
    requires i < |s| && s[i] !in cut
    ensures i < |TrimRight(s, cut)| && TrimRight(s, cut) <= s
  {
    if s[|s| - 1] in cut { KeepsBefore(s[..|s| - 1], cut, i); }
  }

  // ----------------------------------------------------------------- added fields

  /** An added field is one line, its name, a colon, a space and its value. */
  lemma AddedText(name: string, value: string)
    requires H.SafePair(name, value) && name != "" && !Wsp(name[0])
    ensures H.NewField(name, value) == name + ":" + (" " + value + "\r\n") && IsField(H.NewField(name, value))
    ensures H.NewField(H.MARKER, "true") == "X-MailScript-Quarantine: true\r\n"
  {
    var f := H.NewField(name, value);
    H.NewFieldFramed(name, value);
    assert f[0] == name[0] && name[0] in name;
    var n := |f| - 1;
    assert forall k :: 0 <= k < n ==> f[k] != '\n';
  }

  // ------------------------------------------------------------ reading a field

  // The value of a field after its continuation lines: each trimmed, one space before it.
  function Joined(value: string, lines: seq<string>): string {
    if lines == [] then value
    else Joined(value, lines[..|lines| - 1]) + " " + TrimSpace(lines[|lines| - 1])
  }

  ghost predicate IsLine(line: string) {
    line != "" && NoBreak(line)
  }

  lemma CutLine(line: string)
    requires NoBreak(line)
    ensures B.Cut(line) == line
  {
    if line != "" { assert line[|line| - 1] != '\r' && line[|line| - 1] != '\n'; }
  }

  // What the parser holds after the first line of a field and n continuation lines.
  ghost predicate Held(p: B.Parse, name: string, value: string, first: string, more: seq<string>) {
    && p.headers == [] && p.cur.Some?
    && p.cur.value.name == name && p.cur.value.value == Joined(value, more)
    && p.cur.value.raw == Join([first] + more, CRLF) && p.cur.value.lineNum == 1
    && p.cur.value.folded == (more != [])
  }

  lemma FirstHeld(first: string, name: string, value: string)
    requires IsLine(first) && !Wsp(first[0]) && name != "" && ':' !in name && first == name + ":" + value
    ensures Held(B.ParseLine(B.Parse([], None), first), name, value, first, [])
  {
    CutLine(first);
    TagStrip.FindIs(first, ':', |name|);
    assert first[..|name|] == name && first[|name| + 1..] == value;
    assert [first] + [] == [first];
  }

  lemma NextHeld(p: B.Parse, name: string, value: string, first: string, more: seq<string>, line: string)
    requires Held(p, name, value, first, more) && IsLine(line) && Wsp(line[0])
    ensures Held(B.ParseLine(p, line), name, value, first, more + [line])
  {
    CutLine(line);
    JoinSnoc([first] + more, line);
    assert [first] + (more + [line]) == ([first] + more) + [line];
    assert (more + [line])[..|more|] == more;
  }

  lemma {:induction false} FieldHeld(first: string, name: string, value: string, more: seq<string>)
    requires IsLine(first) && !Wsp(first[0]) && name != "" && ':' !in name && first == name + ":" + value
    requires forall k :: 0 <= k < |more| ==> IsLine(more[k]) && Wsp(more[k][0])
    ensures Held(B.ParseLines([first] + more, |more| + 1), name, value, first, more)
  {
    var lines := [first] + more;
    if more == [] {
      FirstHeld(first, name, value);
      assert B.ParseLines(lines, 0) == B.Parse([], None) && lines[0] == first;
    } else {
      var front, last := more[..|more| - 1], more[|more| - 1];
      FieldHeld(first, name, value, front);
      SamePrefix([first] + front, lines, |more|);
      NextHeld(B.ParseLines(lines, |more|), name, value, first, front, last);
      assert more == front + [last];
    }
  }

  lemma {:induction false} SamePrefix(a: seq<string>, b: seq<string>, n: nat)
    requires n <= |a| && n <= |b| && forall k :: 0 <= k < n ==> a[k] == b[k]
    ensures B.ParseLines(a, n) == B.ParseLines(b, n)
  {
    if n > 0 { SamePrefix(a, b, n - 1); }
  }

  lemma LinesBack(lines: seq<string>)
    requires lines != [] && forall k :: 0 <= k < |lines| ==> IsLine(lines[k])
    ensures B.SplitLines(Terminated(lines)) == lines
  {
    var block := Terminated(lines);
    LinesOfTerminated(lines);
    B.SplitToLF(block);
    assert (lines + [""])[..|lines|] == lines;
  }

  /** A field of a first line and continuation lines is read as one header: its name, the value with
      every continuation trimmed and one space before it, and its own lines as they were. */
  lemma FoldedFieldIsRead(first: string, name: string, value: string, more: seq<string>)
    requires IsLine(first) && !Wsp(first[0]) && name != "" && ':' !in name && first == name + ":" + value
    requires forall k :: 0 <= k < |more| ==> IsLine(more[k]) && Wsp(more[k][0])
    ensures var headers := B.HeadersOf(Terminated([first] + more));
      && |headers| == 1 && headers[0].name == name && headers[0].value == TrimSpace(Joined(value, more))
      && headers[0].raw == Join([first] + more, CRLF) && headers[0].lineNum == 1 && headers[0].folded == (more != [])
  {
    LinesBack([first] + more);
    FieldHeld(first, name, value, more);
  }

  lemma AddedLine(name: string, value: string)
    requires H.SafePair(name, value) && name != "" && !Wsp(name[0])
    ensures var first := name + ":" + (" " + value);
      IsLine(first) && !Wsp(first[0]) && ':' !in name && Terminated([first]) == H.NewField(name, value)
  {
    var first := name + ":" + (" " + value);
    forall k | 0 <= k < |first| ensures !Break(first[k]) {
      if k < |name| { assert first[k] == name[k] && name[k] in name; }
      else if k >= |name| + 2 { assert first[k] == value[k - |name| - 2] && value[k - |name| - 2] in value; }
    }
    assert first[0] == name[0];
    OneTerminated(first);
    assert first + CRLF == H.NewField(name, value);
  }

  lemma OneTerminated(line: string)
    ensures Terminated([line]) == line + CRLF
  {
    assert [line][..0] == [] && Terminated([]) == "" && "" + line == line;
  }

  /** What add_header writes is read back as that name and that value. */
  lemma AddedIsReadBack(name: string, value: string)
    requires H.SafePair(name, value) && name != "" && !Wsp(name[0])
    ensures var headers := B.HeadersOf(H.NewField(name, value));
      |headers| == 1 && headers[0].name == name && headers[0].value == TrimSpace(" " + value)
  {
    AddedLine(name, value);
    FoldedFieldIsRead(name + ":" + (" " + value), name, " " + value, []);
    assert [name + ":" + (" " + value)] + [] == [name + ":" + (" " + value)];
  }

  // ------------------------------------------------------------ header and body

  predicate BlankAt(s: string, blank: string, k: int) {
    0 <= k && k + |blank| <= |s| && s[k..k + |blank|] == blank
  }

  /** The body begins after the first empty line with CRLF; in a message that has none, after the
      first one with LF alone; and in a message without empty lines there is no body. */
  lemma SplitMeaning(head: string, body: string)
    ensures var raw := head + "\r\n\r\n" + body;
      (forall k :: 0 <= k < |head| ==> !BlankAt(raw, "\r\n\r\n", k)) ==> B.SplitMessage(raw) == (head, body)
    ensures var raw := head + "\n\n" + body;
      (forall k :: !BlankAt(raw, "\r\n\r\n", k)) && (forall k :: 0 <= k < |head| ==> !BlankAt(raw, "\n\n", k)) ==>
      B.SplitMessage(raw) == (head, body)
    ensures (forall k :: !BlankAt(head, "\r\n\r\n", k) && !BlankAt(head, "\n\n", k)) ==>
      B.SplitMessage(head) == (head, "")
  {
    SplitAtCRLF(head, body);
    SplitAtLF(head, body);
    if forall k :: !BlankAt(head, "\r\n\r\n", k) && !BlankAt(head, "\n\n", k) {
      NowhereFound(head, "\r\n\r\n", 0);
      NowhereFound(head, "\n\n", 0);
    }
  }

  lemma {:induction false} NowhereFound(s: string, p: string, from: nat)
    requires forall k :: from <= k ==> !BlankAt(s, p, k)
    ensures B.IndexOf(s, p, from) == -1
    decreases |s| - from
  {
    if from + |p| <= |s| {
      assert !BlankAt(s, p, from);
      NowhereFound(s, p, from + 1);
    }
  }

  lemma {:induction false} FirstFound(s: string, p: string, from: nat, at: nat)
    requires from <= at && BlankAt(s, p, at) && forall k :: from <= k < at ==> !BlankAt(s, p, k)
    ensures B.IndexOf(s, p, from) == at
    decreases at - from
  {
    if from < at {
      assert !BlankAt(s, p, from);
      FirstFound(s, p, from + 1, at);
    }
  }

  lemma SplitAtCRLF(head: string, body: string)
    ensures var raw := head + "\r\n\r\n" + body;
      (forall k :: 0 <= k < |head| ==> !BlankAt(raw, "\r\n\r\n", k)) ==> B.SplitMessage(raw) == (head, body)
  {
    var p, raw := "\r\n\r\n", head + "\r\n\r\n" + body;
    assert raw[|head|..|head| + 4] == p && raw[..|head|] == head && raw[|head| + 4..] == body;
    if forall k :: 0 <= k < |head| ==> !BlankAt(raw, p, k) { FirstFound(raw, p, 0, |head|); }
  }

  lemma SplitAtLF(head: string, body: string)
    ensures var raw := head + "\n\n" + body;
      (forall k :: !BlankAt(raw, "\r\n\r\n", k)) && (forall k :: 0 <= k < |head| ==> !BlankAt(raw, "\n\n", k)) ==>
      B.SplitMessage(raw) == (head, body)
  {
    var p, raw := "\n\n", head + "\n\n" + body;
    assert raw[|head|..|head| + 2] == p && raw[..|head|] == head && raw[|head| + 2..] == body;
    if (forall k :: !BlankAt(raw, "\r\n\r\n", k)) && forall k :: 0 <= k < |head| ==> !BlankAt(raw, p, k) {
      NowhereFound(raw, "\r\n\r\n", 0);
      FirstFound(raw, p, 0, |head|);
    }
  }
}
