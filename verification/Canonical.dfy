/** DKIM canonicalisation (pkg/authverify/dkim.go 571-597, 702-723): the bytes of a body that the
    signer and the verifier both hash, section 3.4 of RFC 6376.

    The source works on whole texts: it normalises line endings, splits at CRLF, cleans the lines,
    joins them, and trims the end. The proofs work on lines. `Lines` splits at LF and CRLF alike;
    `Kept` are the cleaned lines without the empty ones at the end; `RelaxedReference` and
    `SimpleReference` say when a canonical body is just those lines, each ended by CRLF. From
    there follow idempotence, indifference to added breaks and to LF or CRLF, and that relaxed
    canonicalisation factors through simple. */
module Canonical {
  import opened Text

  datatype Mode = Simple | Relaxed

  predicate Blank(c: char) {
    c == ' ' || c == '\t' || c == '\r' || c == '\n'
  }

  predicate Break(c: char) {
    c == '\r' || c == '\n'
  }

  // ------------------------------------------------------------- replacements

  // strings.ReplaceAll of CRLF, and of LF. Neither pattern can overlap itself, so it does not
  // matter from which end the occurrences are counted.
  function ReplaceCRLF(s: string, sub: string): string {
    if EndsCRLF(s) then ReplaceCRLF(s[..|s| - 2], sub) + sub
    else if s == [] then []
    else ReplaceCRLF(s[..|s| - 1], sub) + [s[|s| - 1]]
  }

  function ReplaceLF(s: string, sub: string): string {
    if s == [] then []
    else ReplaceLF(s[..|s| - 1], sub) + (if s[|s| - 1] == '\n' then sub else [s[|s| - 1]])
  }

  function ToLF(s: string): string {
    ReplaceCRLF(s, "\n")
  }

  // Every line ending written CRLF.
  function Normal(s: string): string {
    ReplaceLF(ToLF(s), CRLF)
  }

  lemma ReplaceLFSnoc(s: string, c: char, sub: string)
    ensures ReplaceLF(s + [c], sub) == ReplaceLF(s, sub) + if c == '\n' then sub else [c]
  {
    assert (s + [c])[..|s|] == s;
  }

  lemma NormalEnd(s: string)
    requires s != []
    ensures Normal(s) ==
            if EndsCRLF(s) then Normal(s[..|s| - 2]) + CRLF
            else Normal(s[..|s| - 1]) + if s[|s| - 1] == '\n' then CRLF else [s[|s| - 1]]
  {
    if EndsCRLF(s) {
      ReplaceLFSnoc(ToLF(s[..|s| - 2]), '\n', CRLF);
    } else {
      ReplaceLFSnoc(ToLF(s[..|s| - 1]), s[|s| - 1], CRLF);
    }
  }

  lemma NormalSnoc(s: string, c: char)
    requires !EndsCRLF(s + [c])
    ensures Normal(s + [c]) == Normal(s) + if c == '\n' then CRLF else [c]
  {
    NormalEnd(s + [c]);
    assert (s + [c])[..|s|] == s;
  }

  lemma NormalBreak(s: string)
    ensures Normal(s + CRLF) == Normal(s) + CRLF
  {
    NormalEnd(s + CRLF);
    assert (s + CRLF)[..|s|] == s;
  }

  // The last character of ToLF(s) is that of s.
  lemma ToLFLast(s: string)
    requires s != []
    ensures ToLF(s) != [] && ToLF(s)[|ToLF(s)| - 1] == s[|s| - 1]
  {
  }

  lemma ToLFSnoc(s: string, c: char)
    requires !EndsCRLF(s + [c])
    ensures ToLF(s + [c]) == ToLF(s) + [c]
  {
    assert (s + [c])[..|s|] == s;
  }

  lemma {:induction false} NormalIdempotent(s: string)
    ensures Normal(Normal(s)) == Normal(s)
    decreases |s|
  {
    if s != [] {
      NormalEnd(s);
      if EndsCRLF(s) {
        NormalIdempotent(s[..|s| - 2]);
        NormalBreak(Normal(s[..|s| - 2]));
      } else {
        NormalIdempotent(s[..|s| - 1]);
        if s[|s| - 1] == '\n' {
          NormalBreak(Normal(s[..|s| - 1]));
        } else {
          NormalSnoc(Normal(s[..|s| - 1]), s[|s| - 1]);
        }
      }
    }
  }

  // ------------------------------------------------------------ line endings

  predicate CrBeforeCRLF(s: string) {
    exists k :: 0 <= k && k + 2 < |s| && s[k] == '\r' && s[k + 1] == '\r' && s[k + 2] == '\n'
  }

  lemma CrBeforeEnd(s: string)
    requires s != []
    ensures CrBeforeCRLF(s) <==>
            CrBeforeCRLF(s[..|s| - 1]) || (EndsCRLF(s) && |s| >= 3 && s[|s| - 3] == '\r')
  {
    var t := s[..|s| - 1];
    if CrBeforeCRLF(s) {
      var k :| 0 <= k && k + 2 < |s| && s[k] == '\r' && s[k + 1] == '\r' && s[k + 2] == '\n';
      if k + 2 < |t| { assert t[k] == '\r' && t[k + 1] == '\r' && t[k + 2] == '\n'; }
    }
    if CrBeforeCRLF(t) {
      var k :| 0 <= k && k + 2 < |t| && t[k] == '\r' && t[k + 1] == '\r' && t[k + 2] == '\n';
      assert s[k] == '\r' && s[k + 1] == '\r' && s[k + 2] == '\n';
    }
    if EndsCRLF(s) && |s| >= 3 && s[|s| - 3] == '\r' {
      var k := |s| - 3;
      assert s[k] == '\r' && s[k + 1] == '\r' && s[k + 2] == '\n';
    }
  }

  lemma CrBeforeBreak(s: string)
    requires EndsCRLF(s)
    ensures CrBeforeCRLF(s) <==> CrBeforeCRLF(s[..|s| - 2]) || (|s| >= 3 && s[|s| - 3] == '\r')
  {
    var t := s[..|s| - 1];
    CrBeforeEnd(s);
    CrBeforeEnd(t);
    assert t[..|t| - 1] == s[..|s| - 2];
  }

  lemma Cancel(a: string, b: string, end: string)
    ensures a + end == b + end <==> a == b
  {
    if a + end == b + end {
      assert |a| == |b|;
      assert a == (a + end)[..|a|] && b == (b + end)[..|b|];
    }
  }

  ghost predicate EndingsIrrelevant(s: string) {
    && |Normal(ToLF(s))| <= |Normal(s)|
    && (Normal(ToLF(s)) == Normal(s) <==> !CrBeforeCRLF(s))
  }

  lemma {:induction false} EndingsBreak(x: string, s: string)
    requires s == x + CRLF
    ensures EndingsIrrelevant(s)
    decreases |s|, 0
  {
    LineEndings(x);
    NormalBreak(x);
    ToLFBreak(x);
    CrBeforeBreak(s);
    assert s[..|s| - 2] == x;
    if x != [] && x[|x| - 1] == '\r' {
      LostCR(x);
    } else {
      if x != [] { ToLFLast(x); }
      NormalSnoc(ToLF(x), '\n');
      Cancel(Normal(ToLF(x)), Normal(x), CRLF);
    }
  }

  lemma ToLFBreak(x: string)
    ensures ToLF(x + CRLF) == ToLF(x) + "\n"
  {
    assert (x + CRLF)[..|x|] == x;
  }

  lemma EndingsChar(x: string, c: char, s: string)
    requires s == x + [c] && !EndsCRLF(s) && EndingsIrrelevant(x)
    ensures EndingsIrrelevant(s)
  {
    NormalSnoc(x, c);
    CrBeforeEnd(s);
    assert s[..|s| - 1] == x;
    if x != [] { ToLFLast(x); }
    ToLFSnoc(x, c);
    NormalSnoc(ToLF(x), c);
    Cancel(Normal(ToLF(x)), Normal(x), if c == '\n' then CRLF else [c]);
  }

  /** Receiving the text with bare LFs instead of CRLFs gives the same normal form, exactly when
      no CRLF is preceded by a bare CR. */
  lemma {:induction false} LineEndings(s: string)
    ensures EndingsIrrelevant(s)
    decreases |s|, 1
  {
    if s == [] {
    } else if EndsCRLF(s) {
      EndingsBreak(s[..|s| - 2], s);
    } else {
      LineEndings(s[..|s| - 1]);
      EndingsChar(s[..|s| - 1], s[|s| - 1], s);
    }
  }

  // The bare CR at the end of x is swallowed by the LF that follows it.
  lemma LostCR(x: string)
    requires x != [] && x[|x| - 1] == '\r'
    requires |Normal(ToLF(x))| <= |Normal(x)|
    ensures |Normal(ToLF(x) + "\n")| < |Normal(x)| + 2
  {
    var f := x[..|x| - 1];
    ToLFSnoc(f, '\r');
    assert x == f + ['\r'];
    NormalSnoc(ToLF(f), '\r');
    assert ToLF(x) + "\n" == ToLF(f) + CRLF;
    NormalBreak(ToLF(f));
  }

  // ------------------------------------------------------------------- blanks

  // Runs of blanks become one space; a run at the end is not yet cut.
  function Collapse(s: string): string {
    if s == [] then []
    else
      var front, c := s[..|s| - 1], s[|s| - 1];
      if !Blank(c) then Collapse(front) + [c]
      else if front != [] && Blank(front[|front| - 1]) then Collapse(front)
      else Collapse(front) + " "
  }

  method CollapseWhitespace(s: string) returns (out: string)
    ensures out == Collapse(s)
  {
    out := "";
    var inSpace := false;
    for i := 0 to |s|
      invariant out == Collapse(s[..i])
      invariant inSpace == (i > 0 && Blank(s[i - 1]))
    {
      assert s[..i + 1][..i] == s[..i];
      if Blank(s[i]) {
        if !inSpace {
          out := out + " ";
          inSpace := true;
        }
      } else {
        inSpace := false;
        out := out + [s[i]];
      }
    }
    assert s[..|s|] == s;
  }

  ghost predicate Collapsed(s: string) {
    forall k :: 0 <= k < |s| && Blank(s[k]) ==> s[k] == ' ' && (k + 1 < |s| ==> !Blank(s[k + 1]))
  }

  lemma {:induction false} CollapseCollapses(s: string)
    ensures Collapsed(Collapse(s))
    ensures (s == []) <==> (Collapse(s) == [])
    ensures s != [] ==> (Blank(s[|s| - 1]) <==> Blank(Collapse(s)[|Collapse(s)| - 1]))
  {
    if s != [] {
      CollapseCollapses(s[..|s| - 1]);
    }
  }

  lemma {:induction false} CollapsedIsFixed(s: string)
    requires Collapsed(s)
    ensures Collapse(s) == s
  {
    if s != [] {
      var front := s[..|s| - 1];
      CollapsedIsFixed(front);
      if Blank(s[|s| - 1]) && front != [] { assert !Blank(s[|front| - 1]); }
    }
  }

  lemma CollapseSnoc(s: string, c: char)
    ensures Collapse(s + [c]) ==
            if !Blank(c) then Collapse(s) + [c]
            else if s != [] && Blank(s[|s| - 1]) then Collapse(s) else Collapse(s) + " "
  {
    assert (s + [c])[..|s|] == s;
  }

  function Clean(line: string): string {
    TrimRight(Collapse(line), " \t")
  }

  lemma TrimRightSnoc(s: string, c: char, cut: string)
    ensures TrimRight(s + [c], cut) == if c in cut then TrimRight(s, cut) else s + [c]
  {
    assert (s + [c])[..|s|] == s;
  }

  lemma {:induction false} TrimRightIsPrefix(s: string, cut: string)
    ensures TrimRight(s, cut) <= s
    ensures TrimRight(s, cut) != [] ==> TrimRight(s, cut)[|TrimRight(s, cut)| - 1] !in cut
  {
    if s != [] && s[|s| - 1] in cut {
      TrimRightIsPrefix(s[..|s| - 1], cut);
    }
  }

  lemma CleanSnoc(s: string, c: char)
    requires Blank(c)
    ensures Clean(s + [c]) == Clean(s)
  {
    CollapseSnoc(s, c);
    TrimRightSnoc(Collapse(s), ' ', " \t");
  }

  ghost predicate NoBreak(s: string) {
    forall k :: 0 <= k < |s| ==> !Break(s[k])
  }

  lemma CleanIsClean(s: string)
    ensures NoBreak(Clean(s)) && Clean(Clean(s)) == Clean(s)
  {
    CollapseCollapses(s);
    TrimRightIsPrefix(Collapse(s), " \t");
    CollapsedIsFixed(Clean(s));
  }

  // -------------------------------------------------------------------- lines

  function Extend(lines: seq<string>, c: char): seq<string>
    requires lines != []
  {
    lines[..|lines| - 1] + [lines[|lines| - 1] + [c]]
  }

  // strings.Split(s, "\r\n").
  function SplitCRLF(s: string): (lines: seq<string>)
    ensures lines != []
  {
    if s == [] then [""]
    else if EndsCRLF(s) then SplitCRLF(s[..|s| - 2]) + [""]
    else Extend(SplitCRLF(s[..|s| - 1]), s[|s| - 1])
  }

  /** The lines of a text whose lines end in LF or CRLF. */
  function Lines(s: string): (lines: seq<string>)
    ensures lines != []
  {
    if s == [] then [""]
    else if EndsCRLF(s) then Lines(s[..|s| - 2]) + [""]
    else if s[|s| - 1] == '\n' then Lines(s[..|s| - 1]) + [""]
    else Extend(Lines(s[..|s| - 1]), s[|s| - 1])
  }

  lemma LinesSnoc(s: string, c: char)
    requires !EndsCRLF(s + [c])
    ensures Lines(s + [c]) == if c == '\n' then Lines(s) + [""] else Extend(Lines(s), c)
  {
    assert (s + [c])[..|s|] == s;
  }

  lemma LinesBreak(s: string)
    ensures Lines(s + CRLF) == Lines(s) + [""]
  {
    assert (s + CRLF)[..|s|] == s;
  }

  lemma SplitSnoc(s: string, c: char)
    requires c != '\n'
    ensures SplitCRLF(s + [c]) == Extend(SplitCRLF(s), c)
  {
    assert (s + [c])[..|s|] == s;
  }

  lemma SplitBreak(s: string)
    ensures SplitCRLF(s + CRLF) == SplitCRLF(s) + [""]
  {
    assert (s + CRLF)[..|s|] == s;
  }

  lemma {:induction false} SplitNormal(s: string)
    ensures SplitCRLF(Normal(s)) == Lines(s) == Lines(Normal(s))
    decreases |s|
  {
    if s != [] {
      NormalEnd(s);
      if EndsCRLF(s) || s[|s| - 1] == '\n' {
        var x := if EndsCRLF(s) then s[..|s| - 2] else s[..|s| - 1];
        SplitNormal(x);
        SplitBreak(Normal(x));
        LinesBreak(Normal(x));
      } else {
        SplitNormal(s[..|s| - 1]);
        SplitSnoc(Normal(s[..|s| - 1]), s[|s| - 1]);
        LinesSnoc(Normal(s[..|s| - 1]), s[|s| - 1]);
      }
    }
  }

  lemma {:induction false} LinesHaveNoLF(s: string)
    ensures forall k :: 0 <= k < |Lines(s)| ==> '\n' !in Lines(s)[k]
    decreases |s|
  {
    if s == [] {
    } else if EndsCRLF(s) {
      LinesHaveNoLF(s[..|s| - 2]);
    } else {
      LinesHaveNoLF(s[..|s| - 1]);
    }
  }

  lemma {:induction false} JoinSnoc(parts: seq<string>, last: string)
    ensures Join(parts + [last], CRLF) == if parts == [] then last else Join(parts, CRLF) + CRLF + last
  {
    if parts != [] {
      JoinSnoc(parts[1..], last);
      assert (parts + [last])[1..] == parts[1..] + [last];
      if |parts| == 1 { assert parts[1..] == []; }
    }
  }

  lemma JoinLast(lines: seq<string>, c: char)
    requires lines != []
    ensures Join(Extend(lines, c), CRLF) == Join(lines, CRLF) + [c]
  {
    var front, last := lines[..|lines| - 1], lines[|lines| - 1];
    assert lines == front + [last];
    JoinSnoc(front, last);
    JoinSnoc(front, last + [c]);
  }

  lemma {:induction false} JoinLines(s: string)
    ensures Join(Lines(s), CRLF) == Normal(s)
    decreases |s|
  {
    if s != [] {
      NormalEnd(s);
      if EndsCRLF(s) || s[|s| - 1] == '\n' {
        var x := if EndsCRLF(s) then s[..|s| - 2] else s[..|s| - 1];
        JoinLines(x);
        JoinSnoc(Lines(x), "");
      } else {
        JoinLines(s[..|s| - 1]);
        JoinLast(Lines(s[..|s| - 1]), s[|s| - 1]);
      }
    }
  }

  // --------------------------------------------------------------------- body

  function CleanAll(lines: seq<string>): (r: seq<string>)
    ensures |r| == |lines|
  {
    seq(|lines|, i requires 0 <= i < |lines| => Clean(lines[i]))
  }

  function Finished(text: string, mode: Mode): string {
    var kept := TrimRight(text, CRLF);
    if kept == "" then (if mode == Relaxed then "" else CRLF) else kept + CRLF
  }

  function Body(body: string, mode: Mode): string {
    Finished(if mode == Relaxed then Join(CleanAll(SplitCRLF(Normal(body))), CRLF) else Normal(body), mode)
  }

  method CleanLines(lines: array<string>)
    modifies lines
    ensures lines[..] == CleanAll(old(lines[..]))
  {
    for i := 0 to lines.Length
      invariant forall k :: 0 <= k < i ==> lines[k] == Clean(old(lines[k]))
      invariant forall k :: i <= k < lines.Length ==> lines[k] == old(lines[k])
    {
      var collapsed := CollapseWhitespace(lines[i]);
      lines[i] := TrimRight(collapsed, " \t");
    }
  }

  method CleanText(text: string) returns (out: string)
    ensures out == Join(CleanAll(SplitCRLF(text)), CRLF)
  {
    var parts := SplitCRLF(text);
    var lines := new string[|parts|](i requires 0 <= i < |parts| => parts[i]);
    assert lines[..] == parts;
    CleanLines(lines);
    out := Join(lines[..], CRLF);
  }

  method CanonicalizeBody(body: string, mode: Mode) returns (out: string)
    ensures out == Body(body, mode)
  {
    var text := ReplaceCRLF(body, "\n");
    text := ReplaceLF(text, CRLF);
    if mode == Relaxed {
      text := CleanText(text);
    }
    text := TrimRight(text, CRLF);
    if text == "" {
      if mode == Relaxed { return ""; }
      return CRLF;
    }
    return text + CRLF;
  }

  // ------------------------------------------------ the simple form, in lines

  // Cutting the breaks at the end commutes with both replacements.
  ghost predicate TrimCommutes(b: string) {
    && TrimRight(Normal(b), CRLF) == Normal(TrimRight(b, CRLF))
    && TrimRight(ToLF(b), CRLF) == ToLF(TrimRight(b, CRLF))
  }

  lemma TrimAfterBreak(x: string, b: string)
    requires b == x + CRLF && TrimCommutes(x)
    ensures TrimCommutes(b)
  {
    TrimBreak(x);
    NormalBreak(x);
    TrimBreak(Normal(x));
    ToLFBreak(x);
    TrimRightSnoc(ToLF(x), '\n', CRLF);
  }

  lemma TrimAfterChar(x: string, c: char, b: string)
    requires b == x + [c] && !EndsCRLF(b) && TrimCommutes(x)
    ensures TrimCommutes(b)
  {
    TrimRightSnoc(x, c, CRLF);
    NormalSnoc(x, c);
    if c == '\n' { TrimBreak(Normal(x)); } else { TrimRightSnoc(Normal(x), c, CRLF); }
    ToLFSnoc(x, c);
    TrimRightSnoc(ToLF(x), c, CRLF);
  }

  lemma {:induction false} TrimReplace(b: string)
    ensures TrimCommutes(b)
    decreases |b|
  {
    if b == [] {
    } else if EndsCRLF(b) {
      TrimReplace(b[..|b| - 2]);
      TrimAfterBreak(b[..|b| - 2], b);
    } else {
      TrimReplace(b[..|b| - 1]);
      TrimAfterChar(b[..|b| - 1], b[|b| - 1], b);
    }
  }

  lemma TrimBreak(s: string)
    ensures TrimRight(s + CRLF, CRLF) == TrimRight(s, CRLF)
  {
    TrimRightSnoc(s, '\r', CRLF);
    TrimRightSnoc(s + ['\r'], '\n', CRLF);
    assert s + CRLF == s + ['\r'] + ['\n'];
  }

  /** Simple mode cuts every CR and LF at the end and terminates what is left. */
  lemma SimpleForm(b: string)
    ensures Body(b, Simple) == Normal(TrimRight(b, CRLF)) + CRLF
  {
    TrimReplace(b);
  }

  /** Simple mode does not see whether a body came with LF or CRLF endings, exactly when its kept
      part has no bare CR before a CRLF. */
  lemma SimpleLineEndings(b: string)
    ensures Body(ToLF(b), Simple) == Body(b, Simple) <==> !CrBeforeCRLF(TrimRight(b, CRLF))
  {
    var t := TrimRight(b, CRLF);
    SimpleForm(b);
    SimpleOfLF(b);
    LineEndings(t);
    Cancel(Normal(ToLF(t)), Normal(t), CRLF);
  }

  lemma SimpleOfLF(b: string)
    ensures Body(ToLF(b), Simple) == Normal(ToLF(TrimRight(b, CRLF))) + CRLF
  {
    SimpleForm(ToLF(b));
    TrimReplace(b);
  }

  lemma TrimTwice(s: string, cut: string)
    ensures TrimRight(TrimRight(s, cut), cut) == TrimRight(s, cut)
  {
    TrimRightIsPrefix(s, cut);
  }

  lemma SimpleIdempotent(b: string)
    ensures Body(Body(b, Simple), Simple) == Body(b, Simple)
  {
    var t := TrimRight(b, CRLF);
    SimpleForm(b);
    SimpleForm(Normal(t) + CRLF);
    TrimBreak(Normal(t));
    TrimReplace(t);
    TrimTwice(b, CRLF);
    NormalIdempotent(t);
  }

  // Trailing empty lines cut; section 3.4.3 of RFC 6376.
  function DropEmpty(lines: seq<string>): seq<string> {
    if lines != [] && lines[|lines| - 1] == "" then DropEmpty(lines[..|lines| - 1]) else lines
  }

  function Terminated(lines: seq<string>): string {
    if lines == [] then "" else Terminated(lines[..|lines| - 1]) + lines[|lines| - 1] + CRLF
  }

  lemma {:induction false} JoinTerminated(lines: seq<string>)
    ensures lines != [] ==> Terminated(lines) == Join(lines, CRLF) + CRLF
  {
    if lines != [] {
      var front, last := lines[..|lines| - 1], lines[|lines| - 1];
      JoinTerminated(front);
      JoinSnoc(front, last);
      assert lines == front + [last];
    }
  }

  // Cutting trailing breaks off joined lines drops the empty lines at the end.
  lemma {:induction false} TrimJoin(lines: seq<string>)
    ensures TrimRight(Join(lines, CRLF), CRLF) == TrimRight(Join(DropEmpty(lines), CRLF), CRLF)
  {
    if lines != [] && lines[|lines| - 1] == "" {
      var front := lines[..|lines| - 1];
      assert lines == front + [""];
      JoinSnoc(front, "");
      TrimJoin(front);
      TrimBreak(Join(front, CRLF));
      assert Join(front, CRLF) + CRLF + "" == Join(front, CRLF) + CRLF;
    }
  }

  lemma {:induction false} DropEmptyKeeps(lines: seq<string>)
    ensures DropEmpty(lines) <= lines
    ensures DropEmpty(lines) != [] ==> DropEmpty(lines)[|DropEmpty(lines)| - 1] != ""
  {
    if lines != [] && lines[|lines| - 1] == "" {
      DropEmptyKeeps(lines[..|lines| - 1]);
    }
  }

  // The last character of joined lines, when the last line is not empty.
  lemma JoinEnds(lines: seq<string>)
    requires lines != [] && lines[|lines| - 1] != ""
    ensures var j, last := Join(lines, CRLF), lines[|lines| - 1];
            j != [] && j[|j| - 1] == last[|last| - 1]
  {
    var front, last := lines[..|lines| - 1], lines[|lines| - 1];
    assert lines == front + [last];
    JoinSnoc(front, last);
  }

  predicate EndsInCR(lines: seq<string>) {
    lines != [] && var last := lines[|lines| - 1]; last != "" && last[|last| - 1] == '\r'
  }

  /** Section 3.4.3 of RFC 6376 keeps every line up to the last non-empty one and gives a CRLF
      for an empty body. The code does that, exactly when the last kept line does not end in a
      bare CR, which it would cut as well. */
  lemma SimpleReference(b: string)
    ensures var kept := DropEmpty(Lines(b));
      Body(b, Simple) == (if kept == [] then CRLF else Terminated(kept)) <==> !EndsInCR(kept)
  {
    SimpleKept(b);
    DropEmptyKeeps(Lines(b));
    LinesHaveNoLF(b);
    FinishedKept(DropEmpty(Lines(b)));
  }

  lemma FinishedKept(kept: seq<string>)
    requires kept != [] ==> kept[|kept| - 1] != "" && '\n' !in kept[|kept| - 1]
    ensures Finished(Join(kept, CRLF), Simple) == (if kept == [] then CRLF else Terminated(kept)) <==>
            !EndsInCR(kept)
  {
    JoinTerminated(kept);
    if kept != [] {
      JoinEnds(kept);
      FinishedEnd(Join(kept, CRLF));
      var last := kept[|kept| - 1];
      assert last[|last| - 1] in last;
    }
  }

  lemma FinishedEnd(j: string)
    requires j != [] && j[|j| - 1] != '\n'
    ensures Finished(j, Simple) == j + CRLF <==> j[|j| - 1] != '\r'
  {
    TrimRightIsPrefix(j, CRLF);
    if j[|j| - 1] == '\r' {
      assert CRLF[0] == '\r';
      assert |TrimRight(j, CRLF)| < |j|;
      assert |Finished(j, Simple)| < |j| + 2;
    }
  }

  lemma SimpleKept(b: string)
    ensures Body(b, Simple) == Finished(Join(DropEmpty(Lines(b)), CRLF), Simple)
  {
    JoinLines(b);
    TrimJoin(Lines(b));
  }

  // ----------------------------------------------- the relaxed form, in lines

  function Kept(b: string): seq<string> {
    DropEmpty(CleanAll(Lines(b)))
  }

  /** Relaxed mode is: clean every line, cut the empty lines at the end, end each line with CRLF. */
  lemma RelaxedReference(b: string)
    ensures Body(b, Relaxed) == Terminated(Kept(b))
  {
    var kept := Kept(b);
    SplitNormal(b);
    TrimJoin(CleanAll(Lines(b)));
    JoinTerminated(kept);
    KeptEnds(b);
  }

  // The joined kept lines end in no line break.
  lemma KeptEnds(b: string)
    ensures var j := Join(Kept(b), CRLF);
            TrimRight(j, CRLF) == j && (j == "" <==> Kept(b) == [])
  {
    var kept := Kept(b);
    DropEmptyKeeps(CleanAll(Lines(b)));
    if kept != [] {
      JoinEnds(kept);
      var n := |kept| - 1;
      assert kept[n] == Clean(Lines(b)[n]);
      CleanIsClean(Lines(b)[n]);
    }
  }

  // The cleaned lines see neither a CR nor how a line ends.
  lemma CleanAllExtend(lines: seq<string>, c: char)
    requires lines != [] && Blank(c)
    ensures CleanAll(Extend(lines, c)) == CleanAll(lines)
  {
    CleanSnoc(lines[|lines| - 1], c);
  }

  lemma CleanedCR(s: string)
    ensures CleanAll(Lines(s + ['\r'])) == CleanAll(Lines(s))
  {
    LinesSnoc(s, '\r');
    CleanAllExtend(Lines(s), '\r');
  }

  lemma CleanAllSnoc(lines: seq<string>)
    ensures CleanAll(lines + [""]) == CleanAll(lines) + [""]
  {
  }

  lemma KeptBreak(s: string, c: char)
    requires Break(c)
    ensures Kept(s + [c]) == Kept(s)
  {
    if c == '\r' {
      CleanedCR(s);
    } else if EndsCRLF(s + [c]) {
      var x := s[..|s| - 1];
      assert s == x + ['\r'] && s + [c] == x + CRLF;
      LinesBreak(x);
      CleanAllSnoc(Lines(x));
      CleanedCR(x);
    } else {
      LinesSnoc(s, c);
      CleanAllSnoc(Lines(s));
    }
  }

  lemma {:induction false} KeptTrim(s: string)
    ensures Kept(TrimRight(s, CRLF)) == Kept(s)
  {
    if s != [] && s[|s| - 1] in CRLF {
      KeptTrim(s[..|s| - 1]);
      KeptBreak(s[..|s| - 1], s[|s| - 1]);
      assert s[..|s| - 1] + [s[|s| - 1]] == s;
    }
  }

  /** Relaxed canonicalisation factors through simple canonicalisation. */
  lemma RelaxedOfSimple(b: string)
    ensures Body(Body(b, Simple), Relaxed) == Body(b, Relaxed)
  {
    var t := TrimRight(b, CRLF);
    SimpleForm(b);
    RelaxedReference(b);
    RelaxedReference(Body(b, Simple));
    KeptBreak(Normal(t), '\r');
    KeptBreak(Normal(t) + ['\r'], '\n');
    assert Normal(t) + CRLF == Normal(t) + ['\r'] + ['\n'];
    SplitNormal(t);
    KeptTrim(b);
  }

  /** Neither mode sees line breaks added at the end. */
  lemma AppendedBreaks(b: string, breaks: string, mode: Mode)
    requires forall c | c in breaks :: Break(c)
    ensures Body(b + breaks, mode) == Body(b, mode)
  {
    if mode == Simple {
      TrimAppended(b, breaks);
      SimpleForm(b);
      SimpleForm(b + breaks);
    } else {
      KeptAppended(b, breaks);
      RelaxedReference(b);
      RelaxedReference(b + breaks);
    }
  }

  lemma {:induction false} TrimAppended(b: string, breaks: string)
    requires forall c | c in breaks :: Break(c)
    ensures TrimRight(b + breaks, CRLF) == TrimRight(b, CRLF)
    decreases |breaks|
  {
    if breaks == [] {
      assert b + breaks == b;
    } else {
      var front, c := breaks[..|breaks| - 1], breaks[|breaks| - 1];
      assert b + breaks == (b + front) + [c] ;
      assert CRLF[0] == '\r' && CRLF[1] == '\n' && Break(c);
      TrimAppended(b, front);
      TrimRightSnoc(b + front, c, CRLF);
    }
  }

  lemma {:induction false} KeptAppended(b: string, breaks: string)
    requires forall c | c in breaks :: Break(c)
    ensures Kept(b + breaks) == Kept(b)
    decreases |breaks|
  {
    if breaks == [] {
      assert b + breaks == b;
    } else {
      var front, c := breaks[..|breaks| - 1], breaks[|breaks| - 1];
      assert b + breaks == (b + front) + [c];
      calc {
        Kept(b + breaks);
        Kept((b + front) + [c]);
        { KeptBreak(b + front, c); }
        Kept(b + front);
        { KeptAppended(b, front); }
        Kept(b);
      }
    }
  }

  // Relaxed mode reads LF and CRLF alike on every body.
  ghost predicate Alike(a: seq<string>, b: seq<string>) {
    a != [] && |a| == |b| && a[|a| - 1] == b[|b| - 1] && CleanAll(a) == CleanAll(b)
  }

  lemma AlikeExtend(a: seq<string>, b: seq<string>, c: char)
    requires Alike(a, b)
    ensures Alike(Extend(a, c), Extend(b, c))
  {
    var x, y := Extend(a, c), Extend(b, c);
    forall k | 0 <= k < |a| ensures Clean(x[k]) == Clean(y[k]) {
      assert Clean(a[k]) == CleanAll(a)[k] && Clean(b[k]) == CleanAll(b)[k];
    }
  }

  lemma AlikeBreak(a: seq<string>, b: seq<string>)
    requires a != [] && b != [] && CleanAll(a) == CleanAll(b)
    ensures Alike(a + [""], b + [""])
  {
    CleanAllSnoc(a);
    CleanAllSnoc(b);
  }

  ghost predicate LFAlike(s: string) {
    Alike(Lines(ToLF(s)), Lines(s))
  }

  lemma {:induction false} LinesOfLF(s: string)
    ensures LFAlike(s)
    decreases |s|, 1
  {
    if EndsCRLF(s) {
      LinesOfLFBreak(s[..|s| - 2], s);
    } else if s != [] {
      LinesOfLF(s[..|s| - 1]);
      LinesLFChar(s[..|s| - 1], s[|s| - 1]);
      assert s[..|s| - 1] + [s[|s| - 1]] == s;
    }
  }

  lemma {:induction false} LinesOfLFBreak(x: string, s: string)
    requires s == x + CRLF
    ensures LFAlike(s)
    decreases |s|, 0
  {
    if x != [] && x[|x| - 1] == '\r' {
      LinesOfLF(x[..|x| - 1]);
      LinesLostCR(x[..|x| - 1]);
      assert x == x[..|x| - 1] + ['\r'];
    } else {
      LinesOfLF(x);
      if x != [] { ToLFLast(x); }
      ToLFBreak(x);
      AlikeAfterLF(ToLF(x), x);
    }
  }

  lemma ToLFLostCR(f: string)
    ensures ToLF(f + ['\r'] + CRLF) == ToLF(f) + CRLF
  {
    ToLFSnoc(f, '\r');
    ToLFBreak(f + ['\r']);
    assert ToLF(f) + ['\r'] + "\n" == ToLF(f) + CRLF;
  }

  lemma LinesLostCR(f: string)
    requires Alike(Lines(ToLF(f)), Lines(f))
    ensures LFAlike(f + ['\r'] + CRLF)
  {
    ToLFLostCR(f);
    AfterLostCR(ToLF(f), f);
  }

  lemma AfterLostCR(a: string, f: string)
    requires Alike(Lines(a), Lines(f))
    ensures Alike(Lines(a + CRLF), Lines(f + ['\r'] + CRLF))
  {
    LinesBreak(a);
    LinesBreak(f + ['\r']);
    CleanedCR(f);
    AlikeBreak(Lines(a), Lines(f + ['\r']));
  }

  lemma AlikeAfterLF(a: string, x: string)
    requires Alike(Lines(a), Lines(x)) && (a != [] ==> a[|a| - 1] != '\r')
    ensures Alike(Lines(a + "\n"), Lines(x + CRLF))
  {
    LinesSnoc(a, '\n');
    LinesBreak(x);
    AlikeBreak(Lines(a), Lines(x));
  }

  lemma LinesLFChar(x: string, c: char)
    requires LFAlike(x) && !EndsCRLF(x + [c])
    ensures LFAlike(x + [c])
  {
    var a := ToLF(x);
    if x != [] { ToLFLast(x); }
    ToLFSnoc(x, c);
    LinesSnoc(a, c);
    LinesSnoc(x, c);
    if c == '\n' { AlikeBreak(Lines(a), Lines(x)); } else { AlikeExtend(Lines(a), Lines(x), c); }
  }

  lemma RelaxedLineEndings(b: string)
    ensures Body(ToLF(b), Relaxed) == Body(b, Relaxed)
  {
    RelaxedReference(b);
    RelaxedReference(ToLF(b));
    LinesOfLF(b);
  }

  // The text w added to the last of the lines.
  function Widen(lines: seq<string>, w: string): seq<string>
    requires lines != []
  {
    lines[..|lines| - 1] + [lines[|lines| - 1] + w]
  }

  lemma WidenExtend(lines: seq<string>, w: string, c: char)
    requires lines != []
    ensures Extend(Widen(lines, w), c) == Widen(lines, w + [c])
  {
    assert lines[|lines| - 1] + w + [c] == lines[|lines| - 1] + (w + [c]);
  }

  lemma {:induction false} LinesAppend(x: string, w: string)
    requires NoBreak(w)
    ensures Lines(x + w) == Widen(Lines(x), w)
    decreases |w|
  {
    if w == [] {
      assert x + w == x;
      assert Lines(x)[|Lines(x)| - 1] + w == Lines(x)[|Lines(x)| - 1];
    } else {
      var front, c := w[..|w| - 1], w[|w| - 1];
      LinesAppend(x, front);
      assert x + w == (x + front) + [c] && w == front + [c];
      LinesSnoc(x + front, c);
      WidenExtend(Lines(x), front, c);
    }
  }

  // Lines without breaks come back from their terminated text.
  lemma {:induction false} LinesOfTerminated(lines: seq<string>)
    requires forall k :: 0 <= k < |lines| ==> NoBreak(lines[k])
    ensures Lines(Terminated(lines)) == lines + [""]
  {
    if lines != [] {
      var front, last := lines[..|lines| - 1], lines[|lines| - 1];
      LinesOfTerminated(front);
      LinesAppend(Terminated(front), last);
      LinesBreak(Terminated(front) + last);
      assert "" + last == last;
      assert lines == front + [last];
    }
  }

  ghost predicate AreCanonical(lines: seq<string>) {
    && (forall k :: 0 <= k < |lines| ==> NoBreak(lines[k]) && Clean(lines[k]) == lines[k])
    && (lines != [] ==> lines[|lines| - 1] != "")
  }

  lemma KeptIsClean(b: string)
    ensures AreCanonical(Kept(b))
  {
    var kept := Kept(b);
    DropEmptyKeeps(CleanAll(Lines(b)));
    forall k | 0 <= k < |kept| ensures NoBreak(kept[k]) && Clean(kept[k]) == kept[k] {
      CleanIsClean(Lines(b)[k]);
    }
  }

  lemma KeptOfTerminated(lines: seq<string>)
    requires AreCanonical(lines)
    ensures Kept(Terminated(lines)) == lines
  {
    var longer := lines + [""];
    LinesOfTerminated(lines);
    CleanAllSnoc(lines);
    assert CleanAll(lines) == lines;
    assert longer[|longer| - 1] == "" && longer[..|longer| - 1] == lines;
    assert DropEmpty(longer) == DropEmpty(lines) == lines;
  }

  lemma RelaxedIdempotent(b: string)
    ensures Body(Body(b, Relaxed), Relaxed) == Body(b, Relaxed)
  {
    var kept := Kept(b);
    KeptIsClean(b);
    KeptOfTerminated(kept);
    RelaxedReference(b);
    RelaxedReference(Terminated(kept));
  }

  /** A canonical body is empty only in relaxed mode; otherwise it ends in CRLF, and before that
      CRLF no further line break stands, unless the body is just CRLF. */
  lemma BodyShape(b: string, mode: Mode)
    ensures var r := Body(b, mode);
      && (r == "" ==> mode == Relaxed)
      && (r != "" ==> EndsCRLF(r))
      && (r != "" && r != CRLF ==> |r| > 2 && !Break(r[|r| - 3]))
      && (r == CRLF ==> mode == Simple)
  {
    var text := if mode == Relaxed then Join(CleanAll(SplitCRLF(Normal(b))), CRLF) else Normal(b);
    TrimRightIsPrefix(text, CRLF);
    var kept := TrimRight(text, CRLF);
    if kept != "" { assert (kept + CRLF)[|kept| - 1] == kept[|kept| - 1]; }
  }

  /** A bare CR at the end of the last line is lost in simple mode. */
  lemma BareCRIsCut() returns (b: string)
    ensures EndsInCR(DropEmpty(Lines(b))) && Body(b, Simple) != Terminated(DropEmpty(Lines(b)))
  {
    b := "x\r";
    LinesAppend("", "x");
    assert "" + "x" == "x" && "x" + ['\r'] == b;
    LinesSnoc("x", '\r');
    SimpleReference(b);
  }

  /** A bare CR before a CRLF makes simple mode see which line endings a body came with. */
  lemma BareCRShows() returns (b: string)
    ensures CrBeforeCRLF(TrimRight(b, CRLF)) && Body(ToLF(b), Simple) != Body(b, Simple)
  {
    b := "\r\r\nx";
    assert b == "\r\r\n" + ['x'];
    TrimRightSnoc("\r\r\n", 'x', CRLF);
    assert b[0] == '\r' && b[0 + 1] == '\r' && b[0 + 2] == '\n';
    SimpleLineEndings(b);
  }
}
