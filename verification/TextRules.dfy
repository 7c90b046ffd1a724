/** What the string and number library is used for, said without its own functions: the models'
    Text and Numbers are read against these. */
module TextRules {
  import opened Text
  import opened Numbers
  import opened TagStrip

  // The six blanks of the library.
  predicate IsBlank(c: char) {
    c == ' ' || c == '\t' || c == '\n' || c == '\r' || c == '\U{0B}' || c == '\U{0C}'
  }

  predicate AllBlank(s: string) {
    forall k :: 0 <= k < |s| ==> IsBlank(s[k])
  }

  lemma SixBlanks(c: char)
    ensures c in BLANKS <==> IsBlank(c)
  {
    assert BLANKS[0] == ' ' && BLANKS[1] == '\t' && BLANKS[2] == '\n' && BLANKS[3] == '\r';
    assert BLANKS[4] == '\U{0B}' && BLANKS[5] == '\U{0C}';
  }

  /** Lower case moves the letters A to Z by 32 and leaves every other character alone. */
  lemma LowerMeaning(s: string, k: nat)
    requires k < |s|
    ensures var c, d := s[k], Lower(s)[k];
      d as int == c as int + if 65 <= c as int <= 90 then 32 else 0
  {
  }

  /** Trimming takes blanks off both ends, and all of them. */
  lemma TrimSpaceMeaning(s: string) returns (before: string, after: string)
    ensures s == before + TrimSpace(s) + after
    ensures AllBlank(before) && AllBlank(after)
    ensures var t := TrimSpace(s); t != "" ==> !IsBlank(t[0]) && !IsBlank(t[|t| - 1])
  {
    before := LeadingBlanks(s);
    after := TrailingBlanks(TrimLeft(s, BLANKS));
    Reassociate(before, TrimSpace(s), after);
    FirstStays(TrimSpace(s), after);
  }

  lemma Reassociate(a: string, b: string, c: string)
    ensures a + (b + c) == a + b + c
  {
  }

  lemma FirstStays(a: string, b: string)
    ensures a != "" ==> (a + b)[0] == a[0]
  {
  }

  lemma {:induction false} LeadingBlanks(s: string) returns (before: string)
    ensures s == before + TrimLeft(s, BLANKS) && AllBlank(before)
    ensures var t := TrimLeft(s, BLANKS); t != "" ==> !IsBlank(t[0])
  {
    if s != [] { SixBlanks(s[0]); }
    if s != [] && s[0] in BLANKS {
      before := LeadingBlanks(s[1..]);
      before := [s[0]] + before;
    } else {
      before := "";
    }
  }

  lemma {:induction false} TrailingBlanks(s: string) returns (after: string)
    ensures s == TrimRight(s, BLANKS) + after && AllBlank(after)
    ensures var t := TrimRight(s, BLANKS); t != "" ==> !IsBlank(t[|t| - 1])
  {
    if s != [] { SixBlanks(s[|s| - 1]); }
    if s != [] && s[|s| - 1] in BLANKS {
      after := TrailingBlanks(s[..|s| - 1]);
      after := after + [s[|s| - 1]];
    } else {
      after := "";
    }
  }

  // ------------------------------------------------------------------------ words

  /** A separator ends a word; text without separators is one word. These two fix the words of any
      text. */
  lemma {:induction false} FieldsMeaning(a: string, c: char, b: string, seps: string)
    requires c in seps
    ensures FieldsBy(a + [c] + b, seps) == FieldsBy(a, seps) + FieldsBy(b, seps)
    decreases |a|
  {
    var s := a + [c] + b;
    if a == "" {
      assert s == [c] + b;
    } else if a[0] in seps {
      assert s[1..] == a[1..] + [c] + b;
      FieldsMeaning(a[1..], c, b, seps);
    } else {
      var n := TokenLength(a, seps);
      TokenEnds(a, seps);
      TokenLengthIs(s, seps, n);
      assert s[..n] == a[..n] && s[n..] == a[n..] + [c] + b;
      FieldsMeaning(a[n..], c, b, seps);
    }
  }

  lemma {:induction false} TokenLengthIs(s: string, seps: string, n: nat)
    requires n <= |s| && (forall k :: 0 <= k < n ==> s[k] !in seps) && (n < |s| ==> s[n] in seps)
    ensures TokenLength(s, seps) == n
  {
    if n > 0 { TokenLengthIs(s[1..], seps, n - 1); }
  }

  lemma OneWord(s: string, seps: string)
    requires forall c | c in s :: c !in seps
    ensures FieldsBy(s, seps) == if s == "" then [] else [s]
  {
    if s != "" {
      TokenLengthIs(s, seps, |s|);
      assert s[..|s|] == s && FieldsBy(s[|s|..], seps) == [];
    }
  }

  // ------------------------------------------------------------------- splitting

  lemma SplitFirst(part: string, rest: string, sep: char)
    requires sep !in part
    ensures Split(part + [sep] + rest, sep) == [part] + Split(rest, sep)
  {
    var s := part + [sep] + rest;
    FindIs(s, sep, |part|);
    assert s[..|part|] == part && s[|part| + 1..] == rest;
  }

  lemma SplitOnly(part: string, sep: char)
    requires sep !in part
    ensures Split(part, sep) == [part]
  {
    FindIs(part, sep, |part|);
  }

  lemma Rejoined(s: string, n: nat)
    requires n < |s|
    ensures s == s[..n] + [s[n]] + s[n + 1..]
  {
  }

  lemma PrefixFree(s: string, n: nat, c: char)
    requires n <= |s| && forall k :: 0 <= k < n ==> s[k] != c
    ensures c !in s[..n]
  {
  }

  // A text cut at the first occurrence of a character.
  lemma CutAt(s: string, c: char)
    requires Find(s, c) < |s|
    ensures var n := Find(s, c); s == s[..n] + [c] + s[n + 1..] && c !in s[..n]
  {
    FindIsFirst(s, c);
    Rejoined(s, Find(s, c));
    PrefixFree(s, Find(s, c), c);
  }

  /** Parts without the separator come back from their joined text, and every text is the join of
      its parts, which are free of the separator. */
  lemma {:induction false} SplitOfJoin(parts: seq<string>, sep: char)
    requires parts != [] && forall p | p in parts :: sep !in p
    ensures Split(Join(parts, [sep]), sep) == parts
  {
    if |parts| == 1 {
      SplitOnly(parts[0], sep);
    } else {
      SplitOfJoin(parts[1..], sep);
      SplitFirst(parts[0], Join(parts[1..], [sep]), sep);
    }
  }

  lemma {:induction false} JoinOfSplit(s: string, sep: char)
    ensures Join(Split(s, sep), [sep]) == s && forall p | p in Split(s, sep) :: sep !in p
    decreases |s|
  {
    var n := Find(s, sep);
    FindIsFirst(s, sep);
    if n < |s| {
      JoinOfSplit(s[n + 1..], sep);
      var rest := Split(s[n + 1..], sep);
      assert ([s[..n]] + rest)[1..] == rest;
      assert s == s[..n] + [sep] + s[n + 1..];
    }
  }

  // --------------------------------------------------------------------- numbers

  function Digit(d: nat): char
    requires d < 10
  {
    "0123456789"[d]
  }

  // A number written in decimal.
  function Shown(n: nat): (s: string)
    ensures s != "" && AllDigits(s)
  {
    if n < 10 then [Digit(n)] else Shown(n / 10) + [Digit(n % 10)]
  }

  lemma {:induction false} DecimalOfShown(n: nat)
    ensures Decimal(Shown(n)) == n
  {
    if n < 10 {
      assert Shown(n)[..0] == "";
    } else {
      DecimalOfShown(n / 10);
      var s := Shown(n);
      assert s[..|s| - 1] == Shown(n / 10);
    }
  }

  /** Numbers are read as written, with an optional sign, as far as 64 bits go. */
  lemma AtoiMeaning(n: nat)
    ensures Atoi(Shown(n)) == Atoi("+" + Shown(n)) == if n <= 9223372036854775807 then Some(n) else None
    ensures Atoi("-" + Shown(n)) == if n <= 9223372036854775808 then Some(0 - n) else None
  {
    DecimalOfShown(n);
    Unsigned(Shown(n));
    Signed('+', Shown(n));
    Signed('-', Shown(n));
  }

  predicate InRange(n: int) {
    -9223372036854775808 <= n <= 9223372036854775807
  }

  lemma Unsigned(digits: string)
    requires digits != "" && AllDigits(digits)
    ensures Atoi(digits) == if InRange(Decimal(digits)) then Some(Decimal(digits)) else None
  {
  }

  lemma Signed(sign: char, digits: string)
    requires digits != "" && AllDigits(digits)
    requires sign == '+' || sign == '-'
    ensures var n: int := if sign == '-' then 0 - Decimal(digits) else Decimal(digits);
      Atoi([sign] + digits) == if InRange(n) then Some(n) else None
  {
    assert ([sign] + digits)[1..] == digits;
  }

  /** Anything that is not a sign and digits is no number. */
  lemma NoNumber(s: string, i: nat)
    requires i < |s| && !('0' <= s[i] <= '9') && (i == 0 ==> s[0] != '+' && s[0] != '-')
    ensures Atoi(s).None?
  {
    var digits := if s[0] == '+' || s[0] == '-' then s[1..] else s;
    assert digits[i - (|s| - |digits|)] == s[i];
    assert !AllDigits(digits);
  }

  lemma NoDigits()
    ensures Atoi("").None? && Atoi("+").None? && Atoi("-").None?
  {
  }
}
