/** Upstream reply lines from their text (section 4.2 of RFC 5321), and the text passed on. */
module ReplyRules {
  import opened Text
  import opened Numbers
  import opened SmtpReply
  import TextRules

  /** A line is a reply line exactly when it begins with a code from 200 to 599, followed by nothing,
      a space or a hyphen; line ends apart. */
  lemma LineMeaning(line: string, code: int)
    ensures var t := TrimRight(line, CRLF);
      LineCode(line) == Some(code) <==>
      |t| >= 3 && IsCode(t[..3]) && CodeOf(t[..3]) == code && (|t| == 3 || t[3] == ' ' || t[3] == '-')
  {
    var t := TrimRight(line, CRLF);
    if |t| >= 3 {
      CodeMeaning(t[..3]);
      assert IsCode(t[..3]) ==> 200 <= CodeOf(t[..3]) <= 599;
    }
  }

  lemma TwoDigits(s: string)
    requires |s| == 2 && AllDigits(s)
    ensures Decimal(s) <= 99
  {
    assert s[..1][..0] == "" && Decimal(s[..1]) == s[0] as int - '0' as int;
  }

  lemma ThreeDigits(s: string)
    requires |s| == 3 && AllDigits(s)
    ensures Decimal(s) ==
            (s[0] as int - '0' as int) * 100 + (s[1] as int - '0' as int) * 10 + (s[2] as int - '0' as int)
  {
    var two := s[..2];
    assert two[..1][..0] == "" && Decimal(two[..1]) == s[0] as int - '0' as int;
    assert Decimal(two) == 10 * Decimal(two[..1]) + (s[1] as int - '0' as int);
  }

  lemma CodeMeaning(s: string)
    requires |s| == 3
    ensures var n := Atoi(s);
      if IsCode(s) then n == Some(CodeOf(s)) else n.None? || n.value < 200 || n.value > 599
  {
    if s[0] == '+' || s[0] == '-' {
      if AllDigits(s[1..]) { TwoDigits(s[1..]); }
    } else if AllDigits(s) {
      ThreeDigits(s);
    }
  }

  // ----------------------------------------------------------- the text passed on

  ghost predicate IsWord(w: string) {
    w != "" && forall c | c in w :: c !in BLANKS
  }

  lemma {:induction false} WordsOfJoin(words: seq<string>)
    requires forall k :: 0 <= k < |words| ==> IsWord(words[k])
    ensures Fields(Join(words, " ")) == words
  {
    if |words| == 1 {
      assert IsWord(words[0]);
      TextRules.OneWord(words[0], BLANKS);
    } else if |words| > 1 {
      assert IsWord(words[0]);
      WordsOfJoin(words[1..]);
      TextRules.SixBlanks(' ');
      TextRules.FieldsMeaning(words[0], ' ', Join(words[1..], " "), BLANKS);
      TextRules.OneWord(words[0], BLANKS);
      assert words == [words[0]] + words[1..];
      assert Join(words, " ") == words[0] + [' '] + Join(words[1..], " ");
    }
  }

  /** The text passed on has the words of the reply's, in order, and nothing else. */
  lemma WordsArePassedOn(s: string)
    ensures Fields(ReplyText(s)) == Fields(NoNul(s))
  {
    FieldsAreTokens(NoNul(s), BLANKS);
    var words := Fields(NoNul(s));
    forall k | 0 <= k < |words| ensures IsWord(words[k]) { assert words[k] in words; }
    WordsOfJoin(words);
  }

  lemma {:induction false} NoNulMeaning(a: string, c: char, b: string)
    ensures NoNul(a + [c] + b) == NoNul(a) + (if c == '\0' then "" else [c]) + NoNul(b)
  {
    var s := a + [c] + b;
    if a == "" {
      assert s[1..] == b;
    } else {
      assert s[1..] == a[1..] + [c] + b;
      NoNulMeaning(a[1..], c, b);
    }
  }
}
