/** The relaxed form of a header field by its words (section 3.4.2 of RFC 6376): the value is
    unfolded, and what is left are its words with one space between them. */
module RelaxedForm {
  import opened Text
  import opened Canonical
  import opened SignedHeaders
  import TextRules

  // What separates words; unfolding leaves no line feed.
  const GAPS := " \t\r\n"

  predicate Gap(s: string) {
    forall k :: 0 <= k < |s| ==> s[k] == ' ' || s[k] == '\t'
  }

  lemma BlankIsGap(c: char)
    ensures Blank(c) <==> c in GAPS
  {
    assert GAPS[0] == ' ' && GAPS[1] == '\t' && GAPS[2] == '\r' && GAPS[3] == '\n';
  }

  // ------------------------------------------------------------------- the words

  function Words(s: string): seq<string> {
    FieldsBy(s, GAPS)
  }

  // The text after the last separator, and what stands before it.
  lemma {:induction false} LastWord(s: string) returns (front: string, word: string)
    requires exists k :: 0 <= k < |s| && s[k] in GAPS
    ensures |front| + 1 + |word| == |s| && s[|front|] in GAPS && s == front + [s[|front|]] + word
    ensures forall c | c in word :: c !in GAPS
  {
    var n := |s| - 1;
    if s[n] in GAPS {
      front, word := s[..n], "";
    } else {
      front, word := LastWord(s[..n]);
      word := word + [s[n]];
      assert s == s[..n] + [s[n]];
    }
  }

  lemma WordsBlank(s: string, c: char)
    requires c in GAPS
    ensures Words(s + [c]) == Words(s)
  {
    TextRules.FieldsMeaning(s, c, "", GAPS);
    assert s + [c] + "" == s + [c] && Words(s) + [] == Words(s);
  }

  lemma WordsSnoc(s: string, c: char)
    requires c !in GAPS
    ensures var w := Words(s);
      if s == "" || s[|s| - 1] in GAPS then Words(s + [c]) == w + [[c]]
      else w != [] && Words(s + [c]) == w[..|w| - 1] + [w[|w| - 1] + [c]]
  {
    if exists k :: 0 <= k < |s| && s[k] in GAPS {
      var front, word := LastWord(s);
      var gap := s[|front|];
      TextRules.FieldsMeaning(front, gap, word, GAPS);
      TextRules.FieldsMeaning(front, gap, word + [c], GAPS);
      TextRules.OneWord(word, GAPS);
      TextRules.OneWord(word + [c], GAPS);
      assert s + [c] == front + [gap] + (word + [c]);
      assert word != "" ==> s[|s| - 1] == word[|word| - 1];
      assert word == "" ==> word + [c] == [c] && Words(s) == Words(front);
    } else {
      TextRules.OneWord(s, GAPS);
      TextRules.OneWord(s + [c], GAPS);
      assert s == "" ==> s + [c] == [c];
    }
  }

  lemma {:induction false} JoinWord(parts: seq<string>, last: string)
    ensures Join(parts + [last], " ") == if parts == [] then last else Join(parts, " ") + " " + last
  {
    if |parts| > 0 {
      assert (parts + [last])[1..] == parts[1..] + [last];
      JoinWord(parts[1..], last);
    }
  }

  function Spoken(s: string): string {
    Join(Words(s), " ")
  }

  // Collapsing keeps the words, and a space for the blanks at either end.
  ghost predicate Shaped(s: string) {
    Collapse(s) == (if s != "" && s[0] in GAPS then " " else "") + Spoken(s) +
                   (if Words(s) != [] && s[|s| - 1] in GAPS then " " else "")
  }

  lemma ShapedBlank(x: string, c: char)
    requires Shaped(x) && c in GAPS
    ensures Shaped(x + [c])
  {
    CollapseSnoc(x, c);
    BlankIsGap(c);
    WordsBlank(x, c);
    if x != "" {
      BlankIsGap(x[|x| - 1]);
      if x[|x| - 1] !in GAPS { LastIsSpoken(x); }
      assert (x + [c])[0] == x[0];
    }
  }

  lemma LastIsSpoken(x: string)
    requires x != "" && x[|x| - 1] !in GAPS
    ensures Words(x) != []
  {
    WordsSnoc(x[..|x| - 1], x[|x| - 1]);
    assert x == x[..|x| - 1] + [x[|x| - 1]];
  }

  lemma SpokenSnoc(x: string, c: char)
    requires c !in GAPS
    ensures Spoken(x + [c]) ==
            if x != "" && x[|x| - 1] !in GAPS then Spoken(x) + [c]
            else if Words(x) == [] then [c] else Spoken(x) + " " + [c]
  {
    var w := Words(x);
    WordsSnoc(x, c);
    if x != "" && x[|x| - 1] !in GAPS {
      JoinWord(w[..|w| - 1], w[|w| - 1]);
      JoinWord(w[..|w| - 1], w[|w| - 1] + [c]);
      assert w == w[..|w| - 1] + [w[|w| - 1]];
    } else {
      JoinWord(w, [c]);
    }
  }

  lemma ShapedChar(x: string, c: char)
    requires Shaped(x) && c !in GAPS
    ensures Shaped(x + [c])
  {
    CollapseSnoc(x, c);
    BlankIsGap(c);
    SpokenSnoc(x, c);
    if x != "" {
      assert (x + [c])[0] == x[0];
      AllGaps(x);
    }
  }

  lemma AllGaps(x: string)
    requires x != ""
    ensures Words(x) == [] ==> x[0] in GAPS
  {
  }

  lemma {:induction false} CollapseIsShaped(s: string)
    ensures Shaped(s)
  {
    if s != "" {
      var n := |s| - 1;
      CollapseIsShaped(s[..n]);
      assert s == s[..n] + [s[n]];
      if s[n] in GAPS { ShapedBlank(s[..n], s[n]); } else { ShapedChar(s[..n], s[n]); }
    }
  }

  // ------------------------------------------------------------- the relaxed value

  lemma TrimEnds(x: string, front: string, back: string)
    requires (front == "" || front == " ") && (back == "" || back == " ")
    ensures TrimSpace(front + x + back) == TrimSpace(x)
  {
    var s := front + x + back;
    if front == " " {
      assert s[0] == ' ' && s[1..] == x + back;
      assert BLANKS[0] == ' ';
    } else {
      assert s == x + back;
    }
    assert TrimLeft(s, BLANKS) == TrimLeft(x + back, BLANKS);
    TrimBack(x, back);
  }

  lemma {:induction false} TrimLeftBack(x: string)
    ensures TrimLeft(x + " ", BLANKS) == if TrimLeft(x, BLANKS) == "" then "" else TrimLeft(x, BLANKS) + " "
  {
    assert BLANKS[0] == ' ';
    if x == "" {
      assert x + " " == " ";
      assert TrimLeft(" ", BLANKS) == TrimLeft(""[0..], BLANKS);
    } else if x[0] in BLANKS {
      assert (x + " ")[1..] == x[1..] + " ";
      TrimLeftBack(x[1..]);
    }
  }

  lemma TrimBack(x: string, back: string)
    requires back == "" || back == " "
    ensures TrimSpace(x + back) == TrimSpace(x)
  {
    if back == "" {
      assert x + back == x;
    } else {
      TrimLeftBack(x);
      var t := TrimLeft(x, BLANKS);
      assert BLANKS[0] == ' ';
      if t != "" { assert (t + " ")[..|t|] == t; }
    }
  }

  /** The relaxed value is the words of the unfolded value, one space apart, without the vertical
      tabs and form feeds at its ends. */
  lemma RelaxedIsWords(v: string)
    ensures RelaxedValue(v) == TrimSpace(Join(FieldsBy(Unfold(v), " \t\r\n"), " "))
  {
    var u := Unfold(v);
    CollapseIsShaped(u);
    TrimEnds(Spoken(u), if u != "" && u[0] in GAPS then " " else "",
             if Words(u) != [] && u[|u| - 1] in GAPS then " " else "");
  }

  /** Unfolding leaves nothing of a line break that is in the text. */
  lemma {:induction false} UnfoldedText(a: string, c: char, b: string)
    requires c != '\r' && c != '\n'
    ensures Unfold(a + [c] + b) == Unfold(a) + [c] + Unfold(b)
    ensures Unfold(a + CRLF) == Unfold(a) && Unfold("") == ""
  {
    UnfoldBreak(a);
    UnfoldConcat(a + [c], b);
    UnfoldSnoc(a, c);
  }

  lemma {:induction false} GapUnfolded(r: string, b: string)
    requires Gap(r)
    ensures Unfold(r + b) == r + Unfold(b)
  {
    if r == "" {
      assert r + b == b;
    } else {
      GapUnfolded(r[1..], b);
      UnfoldedText("", r[0], r[1..] + b);
      assert r + b == "" + [r[0]] + (r[1..] + b) && r == [r[0]] + r[1..];
    }
  }

  lemma UnfoldGap(a: string, r: string, b: string)
    requires Gap(r) && r != ""
    ensures Unfold(a + r + b) == Unfold(a) + r + Unfold(b)
  {
    UnfoldedText(a, r[0], r[1..] + b);
    GapUnfolded(r[1..], b);
    assert a + r + b == a + [r[0]] + (r[1..] + b) && r == [r[0]] + r[1..];
  }

  lemma {:induction false} WordsAround(a: string, r: string, b: string)
    requires Gap(r) && r != ""
    ensures Words(a + r + b) == Words(a) + Words(b)
    decreases |r|
  {
    var n := |r| - 1;
    BlankIsGap(r[n]);
    TextRules.FieldsMeaning(a + r[..n], r[n], b, GAPS);
    assert a + r + b == a + r[..n] + [r[n]] + b;
    if n > 0 {
      WordsAround(a, r[..n], "");
      assert a + r[..n] + "" == a + r[..n] && Words(a) + Words("") == Words(a);
    } else {
      assert a + r[..n] == a;
    }
  }

  lemma WordsOfRun(a: string, r: string, b: string)
    requires Gap(r) && r != ""
    ensures Words(Unfold(a + r + b)) == Words(Unfold(a)) + Words(Unfold(b))
  {
    UnfoldGap(a, r, b);
    WordsAround(Unfold(a), r, Unfold(b));
  }

  /** One run of spaces and tabs is as good as another, between words, and none at either end. */
  lemma RunsAreAlike(name: string, a: string, r: string, r': string, b: string)
    requires Gap(r) && Gap(r') && r != "" && r' != ""
    ensures CanonicalField(Field(name, a + r + b), Relaxed) == CanonicalField(Field(name, a + r' + b), Relaxed)
    ensures CanonicalField(Field(name, r + b), Relaxed) == CanonicalField(Field(name, b), Relaxed)
    ensures CanonicalField(Field(name, b + r), Relaxed) == CanonicalField(Field(name, b), Relaxed)
  {
    WordsOfRun(a, r, b);
    WordsOfRun(a, r', b);
    WordsOfRun("", r, b);
    WordsOfRun(b, r, "");
    assert "" + r + b == r + b && b + r + "" == b + r;
    assert Unfold("") == "" && Words("") == [];
    assert [] + Words(Unfold(b)) == Words(Unfold(b)) == Words(Unfold(b)) + [];
    RelaxedIsWords(a + r + b);
    RelaxedIsWords(a + r' + b);
    RelaxedIsWords(r + b);
    RelaxedIsWords(b + r);
    RelaxedIsWords(b);
  }

  /** What is written: the name trimmed and in lower case, a colon, and such a value; in the simple
      form both as received. */
  lemma FormMeaning(f: Field)
    ensures CanonicalField(f, Simple) == f.name + ":" + f.value + "\r\n"
    ensures CanonicalField(f, Relaxed) ==
            Lower(TrimSpace(f.name)) + ":" + TrimSpace(Join(FieldsBy(Unfold(f.value), " \t\r\n"), " ")) + "\r\n"
  {
    RelaxedIsWords(f.value);
  }

  // -------------------------------------------------------------- what is kept

  predicate Alone(w: string) {
    forall k :: 0 < k < |w| ==> w[k - 1] !in GAPS || w[k] !in GAPS
  }

  /** A relaxed value has no two blanks in a row, no tab, CR or LF, and no blank at either end. */
  lemma RelaxedHasNoRuns(v: string)
    ensures var w := RelaxedValue(v);
      && Alone(w) && (forall k :: 0 <= k < |w| && w[k] in GAPS ==> w[k] == ' ')
      && (w != "" ==> w[0] !in BLANKS && w[|w| - 1] !in BLANKS)
  {
    var c := Collapse(Unfold(v));
    CollapseCollapses(Unfold(v));
    var before, after := TextRules.TrimSpaceMeaning(c);
    var w := RelaxedValue(v);
    forall k | 0 <= k < |w| ensures w[k] == c[|before| + k] { }
    forall k | 0 <= k < |w| && w[k] in GAPS ensures w[k] == ' ' { BlankIsGap(w[k]); }
    forall k | 0 < k < |w| ensures w[k - 1] !in GAPS || w[k] !in GAPS {
      BlankIsGap(w[k - 1]);
      BlankIsGap(w[k]);
    }
    if w != "" {
      TextRules.SixBlanks(w[0]);
      TextRules.SixBlanks(w[|w| - 1]);
    }
  }

  // The characters that are no blanks.
  function Ink(s: string): string {
    if s == "" then "" else Ink(s[..|s| - 1]) + if TextRules.IsBlank(s[|s| - 1]) then "" else [s[|s| - 1]]
  }

  lemma {:induction false} InkConcat(a: string, b: string)
    ensures Ink(a + b) == Ink(a) + Ink(b)
  {
    if b == "" {
      assert a + b == a;
    } else {
      var n := |b| - 1;
      InkConcat(a, b[..n]);
      assert (a + b)[..|a + b| - 1] == a + b[..n];
    }
  }

  lemma {:induction false} NoInk(b: string)
    requires TextRules.AllBlank(b)
    ensures Ink(b) == ""
  {
    if b != "" { NoInk(b[..|b| - 1]); }
  }

  lemma {:induction false} InkUnfolded(v: string)
    ensures Ink(Unfold(v)) == Ink(v)
  {
    if EndsCRLF(v) {
      var x := v[..|v| - 2];
      InkUnfolded(x);
      UnfoldBreak(x);
      assert v == x + CRLF && Ink(CRLF) == "" by { NoInk(CRLF); }
      InkConcat(x, CRLF);
    } else if v != "" {
      var x, c := v[..|v| - 1], v[|v| - 1];
      InkUnfolded(x);
      assert v == x + [c];
      UnfoldSnoc(x, c);
      InkConcat(Unfold(x), [c]);
      InkConcat(x, [c]);
      if c == '\n' { NoInk([c]); }
    }
  }

  lemma {:induction false} InkCollapsed(s: string)
    ensures Ink(Collapse(s)) == Ink(s)
  {
    if s != "" {
      var x, c := s[..|s| - 1], s[|s| - 1];
      InkCollapsed(x);
      assert s == x + [c];
      CollapseSnoc(x, c);
      InkConcat(x, [c]);
      InkConcat(Collapse(x), [c]);
      InkConcat(Collapse(x), " ");
      NoInk(" ");
      if Blank(c) { NoInk([c]); }
    }
  }

  /** Nothing else is lost: the characters that are no blanks are those received, in order. */
  lemma RelaxedKeepsInk(v: string)
    ensures Ink(RelaxedValue(v)) == Ink(v)
  {
    var c := Collapse(Unfold(v));
    InkUnfolded(v);
    InkCollapsed(Unfold(v));
    var before, after := TextRules.TrimSpaceMeaning(c);
    InkConcat(before, RelaxedValue(v));
    InkConcat(before + RelaxedValue(v), after);
    NoInk(before);
    NoInk(after);
  }
}
