/** The words of an SPF macro string (section 7 of RFC 7208), and where the source's order of the
    transformers differs from the standard's. */
module MacroRules {
  import opened Text
  import opened SpfMacro
  import TextRules
  import TagStrip

  // ----------------------------------------------------------------------- tokens

  /** %% is a percent sign, %_ a space, %- an escaped space; any other character after a percent
      sign but an opening brace is an error, and so is a percent sign at the end. */
  lemma EscapeMeaning(c: char, rest: string, values: Values)
    ensures Expand("%%" + rest, values) == Prepend("%", Expand(rest, values))
    ensures Expand("%_" + rest, values) == Prepend(" ", Expand(rest, values))
    ensures Expand("%-" + rest, values) == Prepend("%20", Expand(rest, values))
    ensures c != '%' ==> Expand([c] + rest, values) == Prepend([c], Expand(rest, values))
    ensures c !in "%_-{" ==> Expand("%" + [c] + rest, values) == None
    ensures Expand("%", values) == None
  {
    assert ("%%" + rest)[2..] == rest && ("%_" + rest)[2..] == rest && ("%-" + rest)[2..] == rest;
    assert ([c] + rest)[1..] == rest;
    if c !in "%_-{" {
      var s := "%" + [c] + rest;
      assert s[1] == c && "%_-{"[0] == '%' && "%_-{"[1] == '_' && "%_-{"[2] == '-' && "%_-{"[3] == '{';
    }
  }

  /** A brace expression ends at the first closing brace and stands for its macro; without a closing
      brace it is an error. */
  lemma BraceMeaning(expr: string, rest: string, values: Values)
    requires '}' !in expr
    ensures Expand("%{" + expr, values) == None
    ensures Expand("%{" + expr + "}" + rest, values) ==
            if MacroValue(expr, values).None? then None
            else Prepend(MacroValue(expr, values).value, Expand(rest, values))
  {
    var s, t := "%{" + expr + "}" + rest, "%{" + expr;
    assert s[0] == '%' && s[1] == '{' && s[2..] == expr + "}" + rest;
    assert t[0] == '%' && t[1] == '{' && t[2..] == expr;
    TagStrip.FindIs(s[2..], '}', |expr|);
    TagStrip.FindIs(t[2..], '}', |expr|);
    assert s[2..2 + |expr|] == expr && s[|expr| + 3..] == rest;
  }

  // ---------------------------------------------------------------------- the letters

  /** What each letter stands for; the two halves of the sender need an @, and the last one counts. */
  lemma LetterMeaning(sender: string, domain: string, ip: string, helo: string, v4: bool, c: char)
    ensures var values := MacroValues(sender, domain, ip, helo, v4);
      && (c in values ==> c in "sdihvlo")
      && 's' in values && values['s'] == sender && 'd' in values && values['d'] == domain
      && 'i' in values && values['i'] == ip && 'h' in values && values['h'] == helo
      && 'v' in values && values['v'] == (if v4 then "in-addr" else "ip6")
      && ('l' in values <==> '@' in sender) && ('o' in values <==> '@' in sender)
      && ('@' in sender ==> sender == values['l'] + "@" + values['o'] && '@' !in values['o'])
  {
    assert "sdihvlo"[0] == 's' && "sdihvlo"[1] == 'd' && "sdihvlo"[2] == 'i' && "sdihvlo"[3] == 'h';
    assert "sdihvlo"[4] == 'v' && "sdihvlo"[5] == 'l' && "sdihvlo"[6] == 'o';
    var at := FindLast(sender, '@');
    if at < |sender| { TextRules.Rejoined(sender, at); }
  }

  // ------------------------------------------------------------------ the transformers

  const LIMIT := 9223372036854775807

  lemma DigitValue(d: nat)
    requires d < 10
    ensures IsDigit(TextRules.Digit(d)) && TextRules.Digit(d) as int == '0' as int + d
  {
  }

  lemma OneDigit(d: nat, rest: string, acc: nat)
    requires d < 10 && acc * 10 + d <= LIMIT
    ensures ReadDigits([TextRules.Digit(d)] + rest, acc) == ReadDigits(rest, acc * 10 + d)
  {
    DigitValue(d);
    assert ([TextRules.Digit(d)] + rest)[1..] == rest;
  }

  lemma {:induction false} DigitsRead(n: nat, rest: string)
    requires n <= LIMIT
    ensures ReadDigits(TextRules.Shown(n) + rest, 0) == ReadDigits(rest, n)
  {
    var d := n % 10;
    if n < 10 {
      OneDigit(n, rest, 0);
    } else {
      DigitsRead(n / 10, [TextRules.Digit(d)] + rest);
      OneDigit(d, rest, n / 10);
      Associate(TextRules.Shown(n / 10), [TextRules.Digit(d)], rest);
    }
  }

  lemma Associate(a: string, b: string, c: string)
    ensures (a + b) + c == a + (b + c)
  {
  }

  // How many labels to keep: none written, or a number.
  function Count(n: nat): string {
    if n == 0 then "" else TextRules.Shown(n)
  }

  function LastOf(words: seq<string>, n: nat): seq<string> {
    if 0 < n < |words| then words[|words| - n..] else words
  }

  // The value split at the delimiters, a dot if there are none.
  function Labels(value: string, delimiters: string): seq<string> {
    FieldsBy(value, if delimiters == "" then "." else delimiters)
  }

  /** A macro is its letter's value, split at the delimiters; of the labels the last n are kept, then
      turned round with r, and joined by dots. */
  lemma MacroMeaning(c: char, n: nat, reversed: bool, delimiters: string, values: Values)
    requires 'a' <= c <= 'z' && c != 'p' && c in values && n <= LIMIT
    requires delimiters != "" ==> !IsDigit(delimiters[0]) && (reversed || delimiters[0] != 'r')
    ensures var kept := LastOf(Labels(values[c], delimiters), n);
      MacroValue([c] + Count(n) + (if reversed then "r" else "") + delimiters, values) ==
      Some(Join(if reversed then Reverse(kept) else kept, "."))
  {
    var rest := (if reversed then "r" else "") + delimiters;
    TransformMeaning(values[c], n, reversed, delimiters, rest);
    MacroIs(c, Count(n) + rest, values);
    Regroup([c], Count(n), if reversed then "r" else "", delimiters);
  }

  lemma Regroup(a: string, b: string, c: string, d: string)
    ensures a + b + c + d == a + (b + (c + d))
  {
  }

  lemma MacroIs(c: char, modifiers: string, values: Values)
    requires 'a' <= c <= 'z' && c != 'p' && c in values
    ensures MacroValue([c] + modifiers, values) == Some(Transform(values[c], modifiers))
  {
    assert ([c] + modifiers)[1..] == modifiers;
  }

  lemma TransformMeaning(value: string, n: nat, reversed: bool, delimiters: string, rest: string)
    requires n <= LIMIT && rest == (if reversed then "r" else "") + delimiters
    requires delimiters != "" ==> !IsDigit(delimiters[0]) && (reversed || delimiters[0] != 'r')
    ensures var kept := LastOf(Labels(value, delimiters), n);
      Transform(value, Count(n) + rest) == Join(if reversed then Reverse(kept) else kept, ".")
  {
    RestIs(reversed, delimiters, rest);
    CountRead(n, rest);
    TransformIs(value, Count(n) + rest, n, rest);
  }

  lemma TransformIs(value: string, modifiers: string, n: nat, rest: string)
    requires ReadDigits(modifiers, 0) == (n, rest)
    ensures var reversed := HasPrefix(rest, "r");
      var kept := LastOf(Labels(value, if reversed then rest[1..] else rest), n);
      Transform(value, modifiers) == Join(if reversed then Reverse(kept) else kept, ".")
  {
    var labels := Labels(value, if HasPrefix(rest, "r") then rest[1..] else rest);
    KeptIs(labels, n);
  }

  lemma KeptIs(labels: seq<string>, n: nat)
    ensures KeepLast(labels, n) == LastOf(labels, n)
  {
  }

  lemma RestIs(reversed: bool, delimiters: string, rest: string)
    requires rest == (if reversed then "r" else "") + delimiters
    requires delimiters != "" ==> !IsDigit(delimiters[0]) && (reversed || delimiters[0] != 'r')
    ensures HasPrefix(rest, "r") == reversed && delimiters == (if reversed then rest[1..] else rest)
    ensures rest == "" || !IsDigit(rest[0])
  {
    StartsWithR(rest);
    if !reversed { assert rest == delimiters; } else { assert rest[1..] == delimiters; }
  }

  lemma StartsWithR(s: string)
    ensures HasPrefix(s, "r") <==> s != "" && s[0] == 'r'
  {
    if s != "" && s[0] == 'r' { assert s[..1] == "r"; }
  }

  lemma CountRead(n: nat, rest: string)
    requires n <= LIMIT && (rest == "" || !IsDigit(rest[0]))
    ensures ReadDigits(Count(n) + rest, 0) == (n, rest)
  {
    if n == 0 { assert Count(n) + rest == rest; } else { DigitsRead(n, rest); }
  }

  /** No letter the message has no value for, nor p, nor anything that is no small letter. */
  lemma NoMacro(c: char, rest: string, values: Values)
    requires !('a' <= c <= 'z') || c == 'p' || c !in values
    ensures MacroValue([c] + rest, values) == None && MacroValue("", values) == None
  {
  }

  // Section 7.3 of RFC 7208: the number counts labels after the reversal.
  function Standard(labels: seq<string>, n: nat, reversed: bool): seq<string> {
    LastOf(if reversed then Reverse(labels) else labels, n)
  }

  /** The source counts before it reverses, the standard after. For r with a number the two agree
      exactly when there are no more labels than that, or the first n labels are the last n. */
  lemma ReversalAgrees(labels: seq<string>, n: nat)
    ensures Reverse(LastOf(labels, n)) == Standard(labels, n, true) <==>
            n == 0 || |labels| <= n || labels[..n] == labels[|labels| - n..]
  {
    if 0 < n < |labels| {
      var k := |labels| - n;
      RoundTurned(labels, n);
      if labels[..n] != labels[k..] { Undone(labels[..n], labels[k..]); }
    }
  }

  // The last n after a reversal are the first n, reversed.
  lemma RoundTurned(labels: seq<string>, n: nat)
    requires n <= |labels|
    ensures Reverse(labels)[|labels| - n..] == Reverse(labels[..n])
  {
    EndOfTurned(labels, n, Reverse(labels), Reverse(labels[..n]));
  }

  lemma EndOfTurned(labels: seq<string>, n: nat, a: seq<string>, b: seq<string>)
    requires n <= |labels| == |a| && |b| == n
    requires forall k :: 0 <= k < |labels| ==> a[k] == labels[|labels| - 1 - k]
    requires forall k :: 0 <= k < n ==> b[k] == labels[..n][n - 1 - k]
    ensures a[|labels| - n..] == b
  {
  }

  lemma Undone(a: seq<string>, b: seq<string>)
    requires |a| == |b| && a != b
    ensures Reverse(a) != Reverse(b)
  {
    var j :| 0 <= j < |a| && a[j] != b[j];
    var k := |a| - 1 - j;
    assert Reverse(a)[k] == a[j] && Reverse(b)[k] == b[j];
  }

  /** %{d2r} of email.example.com is com.example here and example.email in the standard. */
  lemma ReversalDiffers()
    ensures MacroValue("d2r", map['d' := "email.example.com"]) == Some("com.example")
    ensures Join(Standard(Labels("email.example.com", ""), 2, true), ".") == "example.email"
  {
    assert "email" + "." + "example" + "." + "com" == "email.example.com";
    assert "com" + "." + "example" == "com.example" && "example" + "." + "email" == "example.email";
    TwoTurned("email", "example", "com", "email.example.com");
  }

  lemma TwoTurned(a: string, b: string, c: string, value: string)
    requires a != "" && b != "" && c != "" && '.' !in a && '.' !in b && '.' !in c && value == a + "." + b + "." + c
    ensures MacroValue("d2r", map['d' := value]) == Some(c + "." + b)
    ensures Join(Standard(Labels(value, ""), 2, true), ".") == b + "." + a
  {
    ThreeLabels(a, b, c);
    MacroMeaning('d', 2, true, "", map['d' := value]);
    TwoShown();
    TwoOfThree(a, b, c);
  }

  lemma TwoShown()
    ensures ['d'] + Count(2) + "r" + "" == "d2r"
  {
    assert TextRules.Shown(2) == "2";
  }

  lemma TwoOfThree(a: string, b: string, c: string)
    ensures Join(Reverse(LastOf([a, b, c], 2)), ".") == c + "." + b
    ensures Join(Standard([a, b, c], 2, true), ".") == b + "." + a
  {
    assert LastOf([a, b, c], 2) == [b, c] && Reverse([b, c]) == [c, b];
    assert Reverse([a, b, c]) == [c, b, a] && Standard([a, b, c], 2, true) == [b, a];
    JoinTwo(c, b);
    JoinTwo(b, a);
  }

  lemma ThreeLabels(a: string, b: string, c: string)
    requires a != "" && b != "" && c != "" && '.' !in a && '.' !in b && '.' !in c
    ensures Labels(a + "." + b + "." + c, "") == [a, b, c]
  {
    assert a + "." + b + "." + c == a + ['.'] + (b + ['.'] + c);
    TextRules.FieldsMeaning(a, '.', b + ['.'] + c, ".");
    TextRules.FieldsMeaning(b, '.', c, ".");
    OneLabel(a);
    OneLabel(b);
    OneLabel(c);
  }

  lemma OneLabel(a: string)
    requires a != "" && '.' !in a
    ensures FieldsBy(a, ".") == [a]
  {
    TextRules.OneWord(a, ".");
  }

  lemma JoinTwo(a: string, b: string)
    ensures Join([a, b], ".") == a + "." + b
  {
    assert Join([b], ".") == b;
  }
}
