/** SPF macro expansion (pkg/authverify/spf.go, expandDomainSpec; section 7 of RFC 7208).
    `Expand` reads the string by recursion, `ExpandDomainSpec` is the index-driven scanner. */
module SpfMacro {
  import opened Text

  type Values = map<char, string>

  // The letters a message gives a value to; %{l} and %{o} need an @ in the sender.
  function MacroValues(sender: string, domain: string, ip: string, helo: string, v4: bool): Values {
    var base := map['s' := sender, 'd' := domain, 'i' := ip, 'h' := helo,
                    'v' := if v4 then "in-addr" else "ip6"];
    var at := FindLast(sender, '@');
    if at < |sender| then base['l' := sender[..at]]['o' := sender[at + 1..]] else base
  }

  predicate IsDigit(c: char) {
    '0' <= c <= '9'
  }

  // The accumulator is a signed 64-bit integer and wraps.
  function Wrap(x: int): int {
    (x + 0x8000_0000_0000_0000) % 0x1_0000_0000_0000_0000 - 0x8000_0000_0000_0000
  }

  function ReadDigits(s: string, acc: int): (int, string) {
    if s == [] || !IsDigit(s[0]) then (acc, s)
    else ReadDigits(s[1..], Wrap(acc * 10 + (s[0] as int - '0' as int)))
  }

  function KeepLast(parts: seq<string>, digits: int): (r: seq<string>)
    ensures |r| <= |parts| && r == parts[|parts| - |r|..]
    ensures digits > 0 ==> |r| <= digits
  {
    if digits > 0 && |parts| > digits then parts[|parts| - digits..] else parts
  }

  // The transformers after the letter: digits, optional r, delimiters.
  function Transform(value: string, modifiers: string): string {
    var (digits, rest) := ReadDigits(modifiers, 0);
    var reversed := HasPrefix(rest, "r");
    var delimiters := if reversed then rest[1..] else rest;
    var kept := KeepLast(FieldsBy(value, if delimiters == "" then "." else delimiters), digits);
    Join(if reversed then Reverse(kept) else kept, ".")
  }

  // One %{...} expression.
  function MacroValue(expr: string, values: Values): Option<string> {
    if expr == [] || expr[0] == 'p' || !('a' <= expr[0] <= 'z') || expr[0] !in values then None
    else Some(Transform(values[expr[0]], expr[1..]))
  }

  // The first token of a non-empty string: its expansion and its length, or nothing.
  function Token(s: string, values: Values): (r: Option<(string, nat)>)
    requires s != []
    ensures r.Some? ==> 1 <= r.value.1 <= |s|
  {
    if s[0] != '%' then Some(([s[0]], 1))
    else if |s| < 2 then None
    else if s[1] == '%' then Some(("%", 2))
    else if s[1] == '_' then Some((" ", 2))
    else if s[1] == '-' then Some(("%20", 2))
    else if s[1] != '{' then None
    else
      var end := Find(s[2..], '}');
      if end == |s| - 2 then None
      else
        match MacroValue(s[2..2 + end], values)
        case None => None
        case Some(text) => Some((text, end + 3))
  }

  function Expand(s: string, values: Values): Option<string>
    decreases |s|
  {
    if s == [] then Some("")
    else
      match Token(s, values)
      case None => None
      case Some((text, n)) =>
        match Expand(s[n..], values)
        case None => None
        case Some(rest) => Some(text + rest)
  }

  // -------------------------------------------------------------- the scanner

  method ReverseLabels(labels: array<string>)
    modifies labels
    ensures labels[..] == Reverse(old(labels[..]))
  {
    var left, right := 0, labels.Length - 1;
    while left < right
      invariant 0 <= left && left + right == labels.Length - 1 && left <= right + 1
      invariant forall k :: 0 <= k < left || right < k < labels.Length ==>
        labels[k] == old(labels[labels.Length - 1 - k])
      invariant forall k :: left <= k <= right ==> labels[k] == old(labels[k])
    {
      labels[left], labels[right] := labels[right], labels[left];
      left, right := left + 1, right - 1;
    }
  }

  method TakeDigits(s: string) returns (digits: int, rest: string)
    ensures (digits, rest) == ReadDigits(s, 0)
  {
    rest := s;
    digits := 0;
    while |rest| > 0 && '0' <= rest[0] <= '9'
      invariant ReadDigits(rest, digits) == ReadDigits(s, 0)
      decreases |rest|
    {
      digits := Wrap(digits * 10 + (rest[0] as int - '0' as int));
      rest := rest[1..];
    }
  }

  method TransformValue(value: string, modifiers: string) returns (text: string)
    ensures text == Transform(value, modifiers)
  {
    var digits, rest := TakeDigits(modifiers);
    var reversed := false;
    if HasPrefix(rest, "r") {
      reversed := true;
      rest := rest[1..];
    }
    var delimiters := rest;
    if delimiters == "" { delimiters := "."; }
    var parts := FieldsBy(value, delimiters);
    if digits > 0 && |parts| > digits {
      parts := parts[|parts| - digits..];
    }
    if reversed {
      parts := ReverseParts(parts);
    }
    text := Join(parts, ".");
  }

  method ReverseParts(parts: seq<string>) returns (r: seq<string>)
    ensures r == Reverse(parts)
  {
    var labels := new string[|parts|](k requires 0 <= k < |parts| => parts[k]);
    assert labels[..] == parts;
    ReverseLabels(labels);
    r := labels[..];
  }

  method ExpandExpression(expr: string, values: Values) returns (r: Option<string>)
    ensures r == MacroValue(expr, values)
  {
    if expr == "" { return None; }
    var letter := expr[0];
    if letter == 'p' || letter < 'a' || letter > 'z' || letter !in values { return None; }
    var text := TransformValue(values[letter], expr[1..]);
    r := Some(text);
  }

  // The scanner's switch at position i: the text written and the octets consumed.
  method ScanToken(spec: string, i: nat, values: Values) returns (r: Option<(string, nat)>)
    requires i < |spec|
    ensures r == Token(spec[i..], values)
  {
    if spec[i] != '%' { return Some(([spec[i]], 1)); }
    if i + 1 >= |spec| { return None; }
    assert spec[i..][1] == spec[i + 1] && spec[i..][2..] == spec[i + 2..];
    match spec[i + 1] {
      case '%' => return Some(("%", 2));
      case '_' => return Some((" ", 2));
      case '-' => return Some(("%20", 2));
      case '{' =>
      case _ => return None;
    }
    var end := Find(spec[i + 2..], '}');
    if end == |spec[i + 2..]| { return None; }
    assert spec[i..][2..2 + end] == spec[i + 2..i + 2 + end];
    var value := ExpandExpression(spec[i + 2..i + 2 + end], values);
    if value.None? { return None; }
    return Some((value.value, end + 3));
  }

  // The state of the scan: what is written so far, followed by the expansion of what is left.
  ghost predicate Scanned(spec: string, i: nat, out: string, values: Values) {
    i <= |spec| && Expand(spec, values) == Prepend(out, Expand(spec[i..], values))
  }

  method ExpandDomainSpec(spec: string, values: Values) returns (r: Option<string>)
    ensures r == Expand(spec, values)
  {
    var out := "";
    var i := 0;
    ScanStart(spec, values);
    while i < |spec|
      invariant Scanned(spec, i, out, values)
      decreases |spec| - i
    {
      var token := ScanToken(spec, i, values);
      ScanStep(spec, i, out, values);
      if token.None? { return None; }
      out := out + token.value.0;
      i := i + token.value.1;
    }
    ScanEnd(spec, i, out, values);
    r := Some(out);
  }

  lemma ScanStart(spec: string, values: Values)
    ensures Scanned(spec, 0, "", values)
  {
    assert spec[0..] == spec;
    var r := Expand(spec, values);
    if r.Some? { assert "" + r.value == r.value; }
  }

  lemma ScanStep(spec: string, i: nat, out: string, values: Values)
    requires i < |spec| && Scanned(spec, i, out, values)
    ensures Token(spec[i..], values).None? ==> Expand(spec, values).None?
    ensures Token(spec[i..], values).Some? ==>
      var (text, n) := Token(spec[i..], values).value;
      Scanned(spec, i + n, out + text, values)
  {
    if Token(spec[i..], values).Some? {
      var (text, n) := Token(spec[i..], values).value;
      assert spec[i..][n..] == spec[i + n..];
      PrependPrepend(out, text, Expand(spec[i + n..], values));
    }
  }

  lemma ScanEnd(spec: string, i: nat, out: string, values: Values)
    requires Scanned(spec, i, out, values) && i == |spec|
    ensures Expand(spec, values) == Some(out)
  {
    assert spec[i..] == "" && out + "" == out;
  }

  function Prepend(text: string, r: Option<string>): Option<string> {
    if r.None? then None else Some(text + r.value)
  }

  lemma PrependPrepend(a: string, b: string, r: Option<string>)
    ensures Prepend(a, Prepend(b, r)) == Prepend(a + b, r)
  {
    if r.Some? { assert a + (b + r.value) == (a + b) + r.value; }
  }

  // ------------------------------------------------------------- what it means

  lemma {:induction false} LiteralIsItself(s: string, values: Values)
    requires '%' !in s
    ensures Expand(s, values) == Some(s)
  {
    if s != [] {
      LiteralIsItself(s[1..], values);
      assert [s[0]] + s[1..] == s;
    }
  }

  /** A complete macro string expands independently of what follows it: the scanner
      never reads past a token, so expansion distributes over concatenation. */
  lemma {:induction false} ExpandConcat(a: string, b: string, values: Values)
    requires Expand(a, values).Some?
    ensures Expand(a + b, values) == Prepend(Expand(a, values).value, Expand(b, values))
    decreases |a|
  {
    if a == [] {
      assert a + b == b;
      if Expand(b, values).Some? { assert "" + Expand(b, values).value == Expand(b, values).value; }
    } else {
      var n := Token(a, values).value.1;
      TokenConcat(a, b, values);
      assert (a + b)[n..] == a[n..] + b;
      ExpandConcat(a[n..], b, values);
      PrependPrepend(Token(a, values).value.0, Expand(a[n..], values).value, Expand(b, values));
    }
  }

  lemma TokenConcat(a: string, b: string, values: Values)
    requires a != [] && Token(a, values).Some?
    ensures Token(a + b, values) == Token(a, values)
  {
    if a[0] == '%' && a[1] == '{' {
      FindConcat(a[2..], b, '}');
      assert (a + b)[2..] == a[2..] + b;
      var end := Find(a[2..], '}');
      assert (a + b)[2..2 + end] == a[2..2 + end];
    }
  }

  lemma {:induction false} FindConcat(a: string, b: string, c: char)
    ensures Find(a, c) < |a| ==> Find(a + b, c) == Find(a, c)
  {
    if a != [] && a[0] != c {
      FindConcat(a[1..], b, c);
      assert (a + b)[1..] == a[1..] + b;
    }
  }

  // Labels separated by single dots, none of them empty.
  ghost predicate CleanLabels(v: string) {
    v == "" || (v[0] != '.' && v[|v| - 1] != '.' &&
                forall k :: 0 < k < |v| ==> !(v[k - 1] == '.' && v[k] == '.'))
  }

  /** A bare %{d} splits the value on dots and joins it again, so it is the value
      exactly when the value has no empty label; RFC 7208 section 7.1 substitutes the value unchanged. */
  lemma BareMacro(c: char, values: Values)
    requires 'a' <= c <= 'z' && c != 'p' && c in values
    ensures MacroValue([c], values) == Some(values[c]) <==> CleanLabels(values[c])
  {
    assert [c][1..] == [];
    assert ReadDigits([], 0) == (0, []);
    RejoinIffClean(values[c]);
  }

  /** The value a..b does not come out as it is. */
  lemma EmptyLabelIsLost() returns (value: string)
    ensures value == "a..b" && MacroValue("d", map['d' := value]) != Some(value)
  {
    value := "a..b";
    assert value[1] == '.' && value[2] == '.';
    BareMacro('d', map['d' := value]);
  }

  lemma {:induction false} RejoinIffClean(v: string)
    ensures Join(FieldsBy(v, "."), ".") == v <==> CleanLabels(v)
    decreases |v|
  {
    if v == [] {
    } else if v[0] == '.' {
      JoinStart(v);
    } else {
      var n := TokenLength(v, ".");
      TokenEnds(v, ".");
      assert FieldsBy(v, ".") == [v[..n]] + FieldsBy(v[n..], ".");
      if n == |v| {
        assert v[..n] == v;
      } else {
        var w := v[n + 1..];
        assert v == v[..n] + "." + w && v[n..][1..] == w;
        assert FieldsBy(v[n..], ".") == FieldsBy(w, ".");
        RejoinIffClean(w);
        RejoinStep(v, n, w);
      }
    }
  }

  lemma RejoinStep(v: string, n: nat, w: string)
    requires 0 < n < |v| && v == v[..n] + "." + w && "."[0] !in v[..n]
    requires Join(FieldsBy(w, "."), ".") == w <==> CleanLabels(w)
    ensures Join([v[..n]] + FieldsBy(w, "."), ".") == v <==> CleanLabels(v)
  {
    var fs := FieldsBy(w, ".");
    assert ([v[..n]] + fs)[1..] == fs;
    if w == "" {
    } else if fs == [] {
      assert Join([v[..n]] + fs, ".") == v[..n];
      assert w[0] == '.';
      assert v[n + 1] == '.' && v[n + 1 - 1] == '.';
    } else {
      assert Join([v[..n]] + fs, ".") == v[..n] + "." + Join(fs, ".");
      assert (v[..n] + "." + Join(fs, "."))[n + 1..] == Join(fs, ".") && v[n + 1..] == w;
      if CleanLabels(v) { CleanTail(v, n, w); }
      if CleanLabels(w) { CleanHead(v, n, w); }
    }
  }

  lemma CleanTail(v: string, n: nat, w: string)
    requires 0 < n < |v| && v == v[..n] + "." + w && w != "" && CleanLabels(v)
    ensures CleanLabels(w)
  {
    assert w == v[n + 1..];
    assert v[n] == '.' && !(v[n + 1 - 1] == '.' && v[n + 1] == '.');
    forall k | 0 < k < |w| ensures !(w[k - 1] == '.' && w[k] == '.') {
      assert w[k] == v[n + 1 + k] && w[k - 1] == v[n + 1 + k - 1];
    }
  }

  lemma CleanHead(v: string, n: nat, w: string)
    requires 0 < n < |v| && v == v[..n] + "." + w && w != "" && CleanLabels(w)
    requires '.' !in v[..n]
    ensures CleanLabels(v)
  {
    assert v[..n][0] == v[0];
    forall k | 0 < k < |v| ensures !(v[k - 1] == '.' && v[k] == '.') {
      if k <= n { assert v[k - 1] == v[..n][k - 1]; }
      else if k == n + 1 { assert v[k] == w[0]; }
      else { assert v[k] == w[k - n - 1] && v[k - 1] == w[k - n - 1 - 1]; }
    }
  }

  lemma JoinStart(v: string)
    ensures var fs := FieldsBy(v, ".");
            fs != [] ==> Join(fs, ".") != "" && Join(fs, ".")[0] != '.'
  {
    var fs := FieldsBy(v, ".");
    FieldsAreTokens(v, ".");
    if fs != [] { assert fs[0] in fs && fs[0][0] in fs[0]; }
  }
}
