/** Removing and adding header fields (cmd/mailscript/proxy.go stripHeader and
    applyHeaderChanges). `Fields` cuts a header block into whole fields, each a name line with
    its continuations; `Remainder` is everything from the first blank line on. */
module HeaderStrip {
  import opened Text
  import opened SmtpWire

  // ------------------------------------------------------------ lines and fields

  // The first line with its LF; the rest of the text when there is none.
  function LineLength(s: string): (n: nat)
    ensures n <= |s| && (s != "" ==> n > 0)
  {
    if Find(s, '\n') < |s| then Find(s, '\n') + 1 else |s|
  }

  predicate IsBlank(line: string) {
    TrimRight(line, CRLF) == ""
  }

  predicate IsContinuation(s: string) {
    s != "" && (s[0] == ' ' || s[0] == '\t')
  }

  // The end of the header block: no more text, or a blank line.
  predicate AtEnd(s: string) {
    s == "" || IsBlank(s[..LineLength(s)])
  }

  function ContinuationLength(s: string): (n: nat)
    ensures n <= |s|
    decreases |s|
  {
    if !IsContinuation(s) then 0
    else LineLength(s) + ContinuationLength(s[LineLength(s)..])
  }

  function FieldLength(s: string): (n: nat)
    ensures n <= |s| && (s != "" ==> n > 0)
  {
    LineLength(s) + ContinuationLength(s[LineLength(s)..])
  }

  function Fields(s: string): seq<string>
    decreases |s|
  {
    if AtEnd(s) then [] else [s[..FieldLength(s)]] + Fields(s[FieldLength(s)..])
  }

  function Remainder(s: string): string
    decreases |s|
  {
    if AtEnd(s) then s else Remainder(s[FieldLength(s)..])
  }

  function Concat(parts: seq<string>): string {
    if parts == [] then "" else parts[0] + Concat(parts[1..])
  }

  // Printing what was cut gives the text back.
  lemma {:induction false} FieldsPrint(s: string)
    ensures Concat(Fields(s)) + Remainder(s) == s
    decreases |s|
  {
    if AtEnd(s) {
      assert "" + s == s;
    } else {
      var field, rest := FieldCut(s);
      FieldsPrint(rest);
      FieldsStep(s, field, rest);
      PrintCons(field, Fields(rest), Remainder(rest));
    }
  }

  lemma FieldsStep(s: string, field: string, rest: string)
    requires !AtEnd(s) && field == s[..FieldLength(s)] && rest == s[FieldLength(s)..]
    ensures Fields(s) == [field] + Fields(rest) && Remainder(s) == Remainder(rest)
  {
  }

  lemma PrintCons(part: string, parts: seq<string>, last: string)
    ensures Concat([part] + parts) + last == part + (Concat(parts) + last)
  {
    assert ([part] + parts)[1..] == parts;
    Associate(part, Concat(parts), last);
  }

  // The test on a name line: text before the first colon, trimmed, in any case.
  predicate NameLine(line: string, name: string) {
    var t := TrimRight(line, CRLF);
    var colon := Find(t, ':');
    colon < |t| && EqualFold(TrimSpace(t[..colon]), name)
  }

  predicate IsNamed(field: string, name: string) {
    !IsContinuation(field) && NameLine(field[..LineLength(field)], name)
  }

  function Without(fields: seq<string>, name: string): seq<string> {
    if fields == [] then []
    else (if IsNamed(fields[0], name) then [] else [fields[0]]) + Without(fields[1..], name)
  }

  // --------------------------------------------------------------- the machine

  // The line-by-line machine while it is inside the header block.
  function Machine(s: string, name: string, skipping: bool): string
    decreases |s|
  {
    if AtEnd(s) then s
    else
      var line, rest := s[..LineLength(s)], s[LineLength(s)..];
      if IsContinuation(line) then (if skipping then "" else line) + Machine(rest, name, skipping)
      else if NameLine(line, name) then Machine(rest, name, true)
      else line + Machine(rest, name, false)
  }

  function SplitAfter(s: string): (lines: seq<string>)
    ensures lines != []
    decreases |s|
  {
    if Find(s, '\n') == |s| then [s] else [s[..LineLength(s)]] + SplitAfter(s[LineLength(s)..])
  }

  function Strip(raw: string, name: string): string {
    Machine(raw, name, false)
  }

  // What is still to be written when `left` is still to be read.
  function Ahead(left: string, name: string, skipping: bool, inHeaders: bool): string {
    if inHeaders then Machine(left, name, skipping) else left
  }

  // One turn of the loop: whether the line is kept, and the two flags after it.
  method TakeLine(line: string, name: string, skipping: bool, inHeaders: bool)
    returns (keep: bool, skipping': bool, inHeaders': bool)
    ensures (keep, skipping', inHeaders') == LineStep(line, name, skipping, inHeaders)
  {
    if inHeaders && TrimRight(line, CRLF) == "" { return true, false, false; }
    if !inHeaders { return true, skipping, false; }
    if line[0] == ' ' || line[0] == '\t' { return !skipping, skipping, true; }
    var trimmed := TrimRight(line, CRLF);
    var colon := Find(trimmed, ':');
    if colon < |trimmed| && EqualFold(TrimSpace(trimmed[..colon]), name) { return false, true, true; }
    return true, false, true;
  }

  function LineStep(line: string, name: string, skipping: bool, inHeaders: bool): (bool, bool, bool) {
    if !inHeaders then (true, skipping, false)
    else if IsBlank(line) then (true, false, false)
    else if IsContinuation(line) then (!skipping, skipping, true)
    else (!NameLine(line, name), NameLine(line, name), true)
  }

  method StripHeader(raw: string, name: string) returns (out: string)
    ensures out == Strip(raw, name)
  {
    var lines := SplitAfter(raw);
    out := "";
    var skipping, inHeaders := false, true;
    ghost var left := raw;
    for i := 0 to |lines|
      invariant i < |lines| ==> SplitAfter(left) == lines[i..]
      invariant i == |lines| ==> left == ""
      invariant Strip(raw, name) == out + Ahead(left, name, skipping, inHeaders)
    {
      StripStep(left, out, name, skipping, inHeaders);
      NextLine(left);
      assert lines[i..][0] == lines[i] && lines[i..][1..] == lines[i + 1..];
      var keep, skipping', inHeaders' := TakeLine(lines[i], name, skipping, inHeaders);
      if keep {
        out := out + lines[i];
      }
      skipping, inHeaders := skipping', inHeaders';
      left := left[LineLength(left)..];
    }
    assert out + "" == out;
  }

  lemma StripStep(left: string, out: string, name: string, skipping: bool, inHeaders: bool)
    ensures var line, rest := left[..LineLength(left)], left[LineLength(left)..];
            var (keep, skipping', inHeaders') := LineStep(line, name, skipping, inHeaders);
            out + Ahead(left, name, skipping, inHeaders) ==
            (if keep then out + line else out) + Ahead(rest, name, skipping', inHeaders')
  {
    var line, rest := left[..LineLength(left)], left[LineLength(left)..];
    assert left == line + rest;
    var (keep, skipping', inHeaders') := LineStep(line, name, skipping, inHeaders);
    AheadStep(left, name, skipping, inHeaders);
    Associate(out, line, Ahead(rest, name, skipping', inHeaders'));
  }

  lemma AheadStep(left: string, name: string, skipping: bool, inHeaders: bool)
    ensures var line, rest := left[..LineLength(left)], left[LineLength(left)..];
            var (keep, skipping', inHeaders') := LineStep(line, name, skipping, inHeaders);
            Ahead(left, name, skipping, inHeaders) ==
            (if keep then line + Ahead(rest, name, skipping', inHeaders') else Ahead(rest, name, skipping', inHeaders'))
  {
    var line, rest := left[..LineLength(left)], left[LineLength(left)..];
    assert left == line + rest;
    if inHeaders && IsContinuation(line) && skipping {
      assert "" + Machine(rest, name, true) == Machine(rest, name, true);
    }
  }

  lemma NextLine(s: string)
    ensures SplitAfter(s)[0] == s[..LineLength(s)]
    ensures |SplitAfter(s)| > 1 ==> SplitAfter(s)[1..] == SplitAfter(s[LineLength(s)..])
    ensures |SplitAfter(s)| == 1 ==> s[LineLength(s)..] == ""
  {
  }

  // ------------------------------------------------- cutting and joining fields

  predicate Closed(s: string) {
    s != "" && s[|s| - 1] == '\n'
  }

  // One line and nothing else.
  predicate OneLine(s: string) {
    s != "" && LineLength(s) == |s|
  }

  predicate OneField(s: string) {
    !AtEnd(s) && FieldLength(s) == |s|
  }

  lemma {:induction false} TrimKeepsFirst(s: string, cut: string)
    requires s != "" && s[0] !in cut
    ensures TrimRight(s, cut) != ""
  {
    if s[|s| - 1] in cut { TrimKeepsFirst(s[..|s| - 1], cut); }
  }

  lemma ContinuationNotAtEnd(s: string)
    requires IsContinuation(s)
    ensures !AtEnd(s)
  {
    TrimKeepsFirst(s[..LineLength(s)], CRLF);
  }

  lemma LineCut(s: string) returns (line: string, rest: string)
    requires s != ""
    ensures line == s[..LineLength(s)] && rest == s[LineLength(s)..] && s == line + rest
    ensures OneLine(line) && (Closed(line) || rest == "")
  {
    line, rest := s[..LineLength(s)], s[LineLength(s)..];
    FindIsFirst(s, '\n');
    if Find(s, '\n') < |s| {
      LineEnd(line, "");
      assert line + "" == line;
    } else {
      assert line == s;
    }
  }

  lemma LineThen(line: string, x: string)
    requires OneLine(line) && (Closed(line) || x == "")
    ensures LineLength(line + x) == |line| && (line + x)[..|line|] == line && (line + x)[|line|..] == x
  {
    if x == "" {
      assert line + x == line;
    } else {
      FindIsFirst(line, '\n');
      LineEnd(line, x);
    }
  }

  lemma {:induction false} ContinuationsCut(s: string)
    ensures var n := ContinuationLength(s);
            && ContinuationLength(s[..n]) == n && !IsContinuation(s[n..])
            && (n == 0 || Closed(s[..n]) || n == |s|)
    decreases |s|
  {
    if IsContinuation(s) {
      var line, rest := LineCut(s);
      var n, m := ContinuationLength(s), ContinuationLength(rest);
      ContinuationsCut(rest);
      var c := line + rest[..m];
      Reassemble(line, rest, m);
      Cut(c, rest[m..]);
      LineThen(line, rest[..m]);
    }
  }

  lemma {:induction false} ContinuationsThen(c: string, x: string)
    requires ContinuationLength(c) == |c| && (c == "" || Closed(c) || x == "") && !IsContinuation(x)
    ensures ContinuationLength(c + x) == |c|
    decreases |c|
  {
    if c == "" {
      assert c + x == x;
    } else {
      var line, rest := LineCut(c);
      ContinuationsThen(rest, x);
      Associate(line, rest, x);
      LineThen(line, rest + x);
    }
  }

  lemma FieldCut(s: string) returns (field: string, rest: string)
    requires !AtEnd(s)
    ensures field == s[..FieldLength(s)] && rest == s[FieldLength(s)..] && s == field + rest && |rest| < |s|
    ensures OneField(field) && (Closed(field) || rest == "") && !IsContinuation(rest)
    ensures field[0] == s[0]
  {
    var line, tail := LineCut(s);
    var m := ContinuationLength(tail);
    ContinuationsCut(tail);
    field, rest := line + tail[..m], tail[m..];
    Reassemble(line, tail, m);
    JoinField(line, tail[..m]);
    Cut(field, rest);
  }

  lemma Reassemble(line: string, tail: string, m: nat)
    requires m <= |tail|
    ensures (line + tail[..m]) + tail[m..] == line + tail
  {
  }

  lemma Cut(a: string, b: string)
    ensures (a + b)[..|a|] == a && (a + b)[|a|..] == b
  {
  }

  // A name line and its continuations are one field.
  lemma JoinField(line: string, c: string)
    requires OneLine(line) && (Closed(line) || c == "") && ContinuationLength(c) == |c|
    ensures FieldLength(line + c) == |line + c| && (AtEnd(line + c) <==> IsBlank(line))
  {
    LineThen(line, c);
  }

  lemma FieldThen(field: string, x: string)
    requires OneField(field) && (Closed(field) || x == "") && !IsContinuation(x)
    ensures !AtEnd(field + x) && FieldLength(field + x) == |field|
    ensures (field + x)[..|field|] == field && (field + x)[|field|..] == x
  {
    var line, c := LineCut(field);
    ContinuationsThen(c, x);
    Associate(line, c, x);
    LineThen(line, c + x);
  }

  lemma FieldsCons(field: string, x: string)
    requires OneField(field) && (Closed(field) || x == "") && !IsContinuation(x)
    ensures Fields(field + x) == [field] + Fields(x) && Remainder(field + x) == Remainder(x)
  {
    FieldThen(field, x);
  }

  // ------------------------------------------- the machine removes whole fields

  lemma {:induction false} MachineContinuations(c: string, x: string, name: string, skipping: bool)
    requires ContinuationLength(c) == |c| && (c == "" || Closed(c) || x == "")
    ensures Machine(c + x, name, skipping) == (if skipping then "" else c) + Machine(x, name, skipping)
    decreases |c|
  {
    if c == "" {
      assert c + x == x && "" + Machine(x, name, skipping) == Machine(x, name, skipping);
    } else {
      var line, rest := LineCut(c);
      MachineContinuations(rest, x, name, skipping);
      Associate(line, rest, x);
      LineThen(line, rest + x);
      ContinuationNotAtEnd(line + (rest + x));
      Associate(line, rest, Machine(x, name, skipping));
      assert "" + Machine(rest + x, name, skipping) == Machine(rest + x, name, skipping);
    }
  }

  lemma SkippingEnds(x: string, name: string)
    requires !IsContinuation(x)
    ensures Machine(x, name, true) == Machine(x, name, false)
  {
  }

  lemma MachineField(field: string, x: string, name: string)
    requires OneField(field) && (Closed(field) || x == "") && !IsContinuation(x)
    ensures Strip(field + x, name) == (if IsNamed(field, name) then "" else field) + Strip(x, name)
  {
    FieldThen(field, x);
    var line, c := LineCut(field);
    Associate(line, c, x);
    LineThen(line, c + x);
    var skip := IsNamed(field, name);
    MachineContinuations(c, x, name, skip);
    SkippingEnds(x, name);
    Associate(line, c, Strip(x, name));
  }

  /** Stripping a name is filtering whole fields: no field of that name remains, every other
      field keeps its place and its octets, and nothing from the first blank line on changes. */
  lemma {:induction false} StripIsFilter(raw: string, name: string)
    ensures Fields(Strip(raw, name)) == Without(Fields(raw), name)
    ensures Remainder(Strip(raw, name)) == Remainder(raw)
    ensures !IsContinuation(raw) ==> !IsContinuation(Strip(raw, name))
    decreases |raw|
  {
    if !AtEnd(raw) {
      var field, rest := FieldCut(raw);
      StripIsFilter(rest, name);
      MachineField(field, rest, name);
      var x := Strip(rest, name);
      FieldsCons(field, rest);
      FieldsCons(field, x);
      assert Fields(raw)[0] == field && Fields(raw)[1..] == Fields(rest);
      assert "" + x == x;
    }
  }

  lemma {:induction false} NoneLeft(fields: seq<string>, name: string)
    ensures forall f | f in Without(fields, name) :: !IsNamed(f, name) && f in fields
  {
    if fields != [] { NoneLeft(fields[1..], name); }
  }

  lemma {:induction false} WithoutAbsent(fields: seq<string>, name: string)
    requires forall f | f in fields :: !IsNamed(f, name)
    ensures Without(fields, name) == fields
  {
    if fields != [] { WithoutAbsent(fields[1..], name); }
  }

  lemma {:induction false} WithoutCommute(fields: seq<string>, a: string, b: string)
    ensures Without(Without(fields, a), b) == Without(Without(fields, b), a)
  {
    if fields != [] {
      var f, rest := fields[0], fields[1..];
      WithoutCommute(rest, a, b);
      WithoutCons(f, Without(rest, a), b);
      WithoutCons(f, Without(rest, b), a);
      assert [] + Without(rest, a) == Without(rest, a) && [] + Without(rest, b) == Without(rest, b);
    }
  }

  lemma WithoutCons(f: string, fields: seq<string>, name: string)
    ensures Without([f] + fields, name) == (if IsNamed(f, name) then [] else [f]) + Without(fields, name)
  {
  }

  // A text is determined by its fields and its remainder.
  lemma SameText(a: string, b: string)
    requires Fields(a) == Fields(b) && Remainder(a) == Remainder(b)
    ensures a == b
  {
    FieldsPrint(a);
    FieldsPrint(b);
  }

  lemma StripIdempotent(raw: string, name: string)
    ensures Strip(Strip(raw, name), name) == Strip(raw, name)
  {
    var once := Strip(raw, name);
    StripIsFilter(raw, name);
    StripIsFilter(once, name);
    NoneLeft(Fields(raw), name);
    WithoutAbsent(Fields(once), name);
    SameText(Strip(once, name), once);
  }

  lemma StripsCommute(raw: string, a: string, b: string)
    ensures Strip(Strip(raw, a), b) == Strip(Strip(raw, b), a)
  {
    StripIsFilter(raw, a);
    StripIsFilter(Strip(raw, a), b);
    StripIsFilter(raw, b);
    StripIsFilter(Strip(raw, b), a);
    WithoutCommute(Fields(raw), a, b);
    SameText(Strip(Strip(raw, a), b), Strip(Strip(raw, b), a));
  }

  // ----------------------------------------------------- framing is preserved

  lemma {:induction false} MachineKeepsFraming(s: string, name: string, skipping: bool)
    requires Framed(s)
    ensures Framed(Machine(s, name, skipping))
    decreases |s|
  {
    if !AtEnd(s) {
      var line, rest := LineCut(s);
      FramedCut(s, line, rest);
      if IsContinuation(line) {
        MachineKeepsFraming(rest, name, skipping);
        assert "" + Machine(rest, name, skipping) == Machine(rest, name, skipping);
        FramedConcat(line, Machine(rest, name, skipping));
      } else if NameLine(line, name) {
        MachineKeepsFraming(rest, name, true);
      } else {
        MachineKeepsFraming(rest, name, false);
        FramedConcat(line, Machine(rest, name, false));
      }
    }
  }

  lemma FramedCut(s: string, line: string, rest: string)
    requires Framed(s) && s == line + rest && line != "" && (Closed(line) || rest == "")
    ensures Framed(line) && Framed(rest)
  {
    if rest == "" {
      assert s == line;
    } else {
      FramedSplit(s, |line| - 1);
      assert s[..|line|] == line && s[|line|..] == rest;
    }
  }

  // ------------------------------------------------------------ adding fields

  function NewField(name: string, value: string): string {
    name + ": " + value + CRLF
  }

  // What add_header refuses is refused here: the pair cannot end its own line.
  predicate SafePair(name: string, value: string) {
    (forall c | c in name :: c != '\r' && c != '\n' && c != ':') && (forall c | c in value :: c != '\r' && c != '\n')
  }

  function AddAll(raw: string, names: seq<string>, values: map<string, string>): string
    requires forall n | n in names :: n in values
    decreases |names|
  {
    if names == [] then raw else AddAll(NewField(names[0], values[names[0]]) + raw, names[1..], values)
  }

  function StripAll(raw: string, removed: seq<string>): string
    decreases |removed|
  {
    if removed == [] then raw else StripAll(Strip(raw, removed[0]), removed[1..])
  }

  // applyHeaderChanges: the removals in order, then each addition, in name order, at the top.
  method ApplyHeaderChanges(raw: string, removed: seq<string>, names: seq<string>, values: map<string, string>)
    returns (out: string)
    requires forall n | n in names :: n in values
    ensures out == AddAll(StripAll(raw, removed), names, values)
  {
    out := raw;
    for i := 0 to |removed|
      invariant StripAll(out, removed[i..]) == StripAll(raw, removed)
    {
      assert removed[i..][0] == removed[i] && removed[i..][1..] == removed[i + 1..];
      out := StripHeader(out, removed[i]);
    }
    for i := 0 to |names|
      invariant AddAll(out, names[i..], values) == AddAll(StripAll(raw, removed), names, values)
    {
      assert names[i..][0] == names[i] && names[i..][1..] == names[i + 1..];
      out := NewField(names[i], values[names[i]]) + out;
    }
  }

  lemma NewFieldFramed(name: string, value: string)
    requires SafePair(name, value)
    ensures Framed(NewField(name, value)) && IsLine(NewField(name, value))
  {
    var f := NewField(name, value);
    var n := |f| - 2;
    assert forall i :: 0 <= i < n ==> f[i] != '\r' && f[i] != '\n' by {
      assert forall i :: 0 <= i < |name| ==> f[i] == name[i] && name[i] in name;
      assert forall i :: 0 <= i < |value| ==> f[|name| + 2 + i] == value[i] && value[i] in value;
    }
    forall i | 0 <= i < |f| ensures FramedAt(f, i) {
    }
  }

  /** A framed message stays framed under the quarantine strip, any removals and any additions
      that add_header lets through: what is relayed cannot be re-split by the next MTA. */
  lemma {:induction false} ChangesKeepFraming(raw: string, removed: seq<string>, names: seq<string>,
                                              values: map<string, string>)
    requires Framed(raw)
    requires forall n | n in names :: n in values && SafePair(n, values[n])
    ensures Framed(AddAll(StripAll(raw, removed), names, values))
    decreases |removed|, |names|
  {
    if removed != [] {
      MachineKeepsFraming(raw, removed[0], false);
      ChangesKeepFraming(Strip(raw, removed[0]), removed[1..], names, values);
    } else if names != [] {
      assert names[0] in names;
      var f := NewField(names[0], values[names[0]]);
      NewFieldFramed(names[0], values[names[0]]);
      FramedConcat(f, raw);
      ChangesKeepFraming(f + raw, [], names[1..], values);
    }
  }

  // ------------------------------------------------------ the quarantine marker

  const MARKER := "X-MailScript-Quarantine"

  ghost predicate NoField(s: string, name: string) {
    forall f | f in Fields(s) :: !IsNamed(f, name)
  }

  lemma {:induction false} TrimRightStops(s: string, cut: string, t: string)
    requires (s == "" || s[|s| - 1] !in cut) && forall c | c in t :: c in cut
    ensures TrimRight(s + t, cut) == s
    decreases |t|
  {
    if t == "" {
      assert s + t == s;
    } else {
      assert t[|t| - 1] in t;
      assert (s + t)[..|s + t| - 1] == s + t[..|t| - 1];
      TrimRightStops(s, cut, t[..|t| - 1]);
    }
  }

  lemma {:induction false} FindBefore(a: string, c: char, b: string)
    requires c !in a
    ensures Find(a + [c] + b, c) == |a|
  {
    if a != "" {
      assert (a + [c] + b)[1..] == a[1..] + [c] + b;
      FindBefore(a[1..], c, b);
    } else {
      assert (a + [c] + b)[0] == c;
    }
  }

  // The name of an added field is the name it was given.
  lemma NewFieldName(name: string, value: string, target: string)
    requires SafePair(name, value)
    ensures NameLine(NewField(name, value), target) <==> EqualFold(TrimSpace(name), target)
    ensures !IsBlank(NewField(name, value))
  {
    var s := name + ": " + value;
    assert |value| > 0 ==> value[|value| - 1] in value;
    TrimRightStops(s, CRLF, CRLF);
    assert s == name + [':'] + (" " + value);
    FindBefore(name, ':', " " + value);
    assert s[..|name|] == name;
  }

  lemma HeadlessFields(raw: string)
    ensures var n := ContinuationLength(raw);
            forall f | f in Fields(raw[n..]) :: f in Fields(raw)
  {
    var n := ContinuationLength(raw);
    if IsContinuation(raw) {
      ContinuationNotAtEnd(raw);
      assert FieldLength(raw) == n;
      FieldsStep(raw, raw[..n], raw[n..]);
    } else {
      assert raw[n..] == raw;
    }
  }

  // A line put on top becomes the head of the first field, and the rest is as it was.
  lemma AddOnTop(line: string, raw: string)
    requires OneLine(line) && Closed(line) && !IsBlank(line)
    ensures var n := ContinuationLength(raw);
            Fields(line + raw) == [line + raw[..n]] + Fields(raw[n..])
  {
    var n := ContinuationLength(raw);
    ContinuationsCut(raw);
    JoinField(line, raw[..n]);
    FieldsCons(line + raw[..n], raw[n..]);
    Reassemble(line, raw, n);
  }

  lemma AddKeepsAbsent(name: string, value: string, raw: string, target: string)
    requires SafePair(name, value) && !EqualFold(TrimSpace(name), target) && NoField(raw, target)
    ensures NoField(NewField(name, value) + raw, target)
  {
    var line, n := NewField(name, value), ContinuationLength(raw);
    NewFieldFramed(name, value);
    LineEnd(line, "");
    assert line + "" == line;
    NewFieldName(name, value, target);
    AddOnTop(line, raw);
    HeadlessFields(raw);
    LineThen(line, raw[..n]);
  }

  lemma StripAllKeepsAbsent(raw: string, removed: seq<string>, target: string)
    requires NoField(raw, target)
    ensures NoField(StripAll(raw, removed), target)
    decreases |removed|
  {
    if removed != [] {
      StripIsFilter(raw, removed[0]);
      NoneLeft(Fields(raw), removed[0]);
      StripAllKeepsAbsent(Strip(raw, removed[0]), removed[1..], target);
    }
  }

  lemma {:induction false} AddAllKeepsAbsent(raw: string, names: seq<string>, values: map<string, string>,
                                             target: string)
    requires NoField(raw, target)
    requires forall n | n in names :: n in values && SafePair(n, values[n]) && !EqualFold(TrimSpace(n), target)
    ensures NoField(AddAll(raw, names, values), target)
    decreases |names|
  {
    if names != [] {
      assert names[0] in names;
      AddKeepsAbsent(names[0], values[names[0]], raw, target);
      AddAllKeepsAbsent(NewField(names[0], values[names[0]]) + raw, names[1..], values, target);
    }
  }

  /** No client can set the quarantine marker: after the strip and the policy's changes the
      relayed message carries none, and after the proxy's own marker exactly its first field. That
      field is the marker line itself unless the relayed text opens with a continuation line,
      which then belongs to it. */
  lemma MarkerIsOurs(raw: string, removed: seq<string>, names: seq<string>, values: map<string, string>)
    requires forall n | n in names :: n in values && SafePair(n, values[n]) && !EqualFold(TrimSpace(n), MARKER)
    ensures var relayed := AddAll(StripAll(Strip(raw, MARKER), removed), names, values);
            && NoField(relayed, MARKER)
            && var marked := Fields(NewField(MARKER, "true") + relayed);
            && marked != [] && IsNamed(marked[0], MARKER) && (forall f | f in marked[1..] :: !IsNamed(f, MARKER))
            && (marked[0] == NewField(MARKER, "true") <==> !IsContinuation(relayed))
  {
    StripIsFilter(raw, MARKER);
    NoneLeft(Fields(raw), MARKER);
    StripAllKeepsAbsent(Strip(raw, MARKER), removed, MARKER);
    var relayed := AddAll(StripAll(Strip(raw, MARKER), removed), names, values);
    AddAllKeepsAbsent(StripAll(Strip(raw, MARKER), removed), names, values, MARKER);
    MarkOnTop(relayed);
  }

  lemma MarkOnTop(relayed: string)
    requires NoField(relayed, MARKER)
    ensures var marked := Fields(NewField(MARKER, "true") + relayed);
            && marked != [] && IsNamed(marked[0], MARKER) && (forall f | f in marked[1..] :: !IsNamed(f, MARKER))
            && marked[0] == NewField(MARKER, "true") + relayed[..ContinuationLength(relayed)]
  {
    var line, n := NewField(MARKER, "true"), ContinuationLength(relayed);
    MarkerLine(line);
    NewFieldName(MARKER, "true", MARKER);
    assert TrimSpace(MARKER) == MARKER by {
      assert MARKER[0] !in BLANKS && MARKER[|MARKER| - 1] !in BLANKS;
    }
    AddOnTop(line, relayed);
    HeadlessFields(relayed);
    LineThen(line, relayed[..n]);
    assert (line + relayed[..n])[0] == 'X';
  }

  lemma MarkerLine(line: string)
    requires line == NewField(MARKER, "true")
    ensures OneLine(line) && Closed(line) && !IsBlank(line)
  {
    assert SafePair(MARKER, "true");
    NewFieldFramed(MARKER, "true");
    LineEnd(line, "");
    assert line + "" == line;
    NewFieldName(MARKER, "true", MARKER);
  }

  lemma OneContinuation(raw: string)
    requires raw == " x" + CRLF
    ensures ContinuationLength(raw) == |raw| && Strip(raw, MARKER) == raw
  {
    FindBefore(" x\r", '\n', "");
    assert raw == " x\r" + ['\n'] + "";
    TrimRightStops(" x", CRLF, CRLF);
    assert LineLength(raw) == |raw| && raw[..|raw|] == raw && raw[|raw|..] == "";
    assert Machine(raw, MARKER, false) == raw + Machine("", MARKER, false);
  }

  /** A client's message that opens with a space is enough to extend the marker. */
  lemma MarkerIsExtended() returns (raw: string)
    ensures Strip(raw, MARKER) == raw
    ensures Fields(NewField(MARKER, "true") + raw) == [NewField(MARKER, "true") + " x" + CRLF]
  {
    raw := " x" + CRLF;
    var line := NewField(MARKER, "true");
    OneContinuation(raw);
    MarkerLine(line);
    AddOnTop(line, raw);
    assert raw[..|raw|] == raw && Fields(raw[|raw|..]) == [];
    assert line + raw == line + " x" + CRLF;
  }
}
