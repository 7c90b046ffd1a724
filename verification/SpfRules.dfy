/** What an SPF record says, term by term (section 4.6 and 5 of RFC 7208): the words of a record,
    the verdicts of its qualifiers, and what an include makes of the check it includes. */
module SpfRules {
  import opened Text
  import opened Spf
  import TextRules
  import opened TagStrip

  // ------------------------------------------------------------- reading one term

  // The sign before a mechanism, and the verdict it stands for.
  predicate Qualified(sign: string, verdict: Verdict) {
    || (sign == "" && verdict == Pass) || (sign == "+" && verdict == Pass) || (sign == "-" && verdict == Fail)
    || (sign == "~" && verdict == Softfail) || (sign == "?" && verdict == Neutral)
  }

  predicate Names(name: string, kind: Kind) {
    var n := Lower(name);
    || (n == "all" && kind == All) || (n == "ip4" && kind == Ip4) || (n == "ip6" && kind == Ip6)
    || (n == "a" && kind == A) || (n == "mx" && kind == Mx) || (n == "include" && kind == Include)
    || (n == "exists" && kind == Exists) || (n == "ptr" && kind == Ptr)
  }

  // How the argument of a mechanism is written after its name.
  predicate Argument(text: string, value: string) {
    || (text == "" && value == "") || text == ":" + value || (text == value && HasPrefix(value, "/") && ':' !in value)
  }

  // A word of a name's own characters.
  predicate PlainName(name: string) {
    name != "" && ':' !in name && '/' !in name && '=' !in name && name[0] !in "+-~?"
  }

  lemma NamesArePlain(name: string, kind: Kind)
    requires Names(name, kind)
    ensures PlainName(name)
  {
    var n := Lower(name);
    forall k | 0 <= k < |name| ensures name[k] != ':' && name[k] != '/' && name[k] != '=' && name[k] !in "+-~?" {
      assert n[k] == LowerChar(name[k]);
    }
  }

  lemma KindNamed(name: string, kind: Kind)
    requires Names(name, kind)
    ensures KindOf(Lower(name)) == kind
  {
  }

  /** A word is read as the mechanism it names, in any letter case, with the verdict of its sign. */
  lemma MechanismWord(sign: string, name: string, text: string, value: string, kind: Kind, verdict: Verdict)
    returns (q: char)
    requires Qualified(sign, verdict) && Names(name, kind) && Argument(text, value)
    ensures ParseTerm(sign + name + text) == Mechanism(q, kind, value, name + text) && QualifierVerdict(q) == verdict
  {
    q := Sign(sign);
    SignVerdict(sign, verdict);
    NamesArePlain(name, kind);
    KindNamed(name, kind);
    PlainWord(sign, name, text, value);
  }

  function Sign(sign: string): char {
    if sign == "" then '+' else sign[0]
  }

  predicate IsSign(sign: string) {
    sign == "" || sign == "+" || sign == "-" || sign == "~" || sign == "?"
  }

  lemma SignVerdict(sign: string, verdict: Verdict)
    requires Qualified(sign, verdict)
    ensures IsSign(sign) && QualifierVerdict(Sign(sign)) == verdict
  {
  }

  lemma PlainWord(sign: string, name: string, text: string, value: string)
    requires IsSign(sign) && PlainName(name) && Argument(text, value)
    ensures ParseTerm(sign + name + text) == Mechanism(Sign(sign), KindOf(Lower(name)), value, name + text)
  {
    var body := name + text;
    assert sign + name + text == sign + body && body[0] == name[0];
    NoModifier(sign, name, text, value);
    BodyParts(name, text, value);
    SignedWord(sign, body);
    ParsedWord(sign + body, body, Sign(sign), name, value);
  }

  predicate IsModifier(word: string) {
    var eq := Find(word, '=');
    0 < eq < |word| && ':' !in word[..eq] && '/' !in word[..eq]
  }

  // The name and the argument of a mechanism, split at the first colon or else the first slash.
  predicate Parts(body: string, name: string, value: string) {
    var colon, slash := Find(body, ':'), Find(body, '/');
    if colon < |body| then body[..colon] == name && body[colon + 1..] == value
    else if slash < |body| then body[..slash] == name && body[slash..] == value
    else body == name && value == ""
  }

  lemma SignedWord(sign: string, body: string)
    requires IsSign(sign) && body != "" && body[0] !in "+-~?"
    ensures var word, q := sign + body, Sign(sign);
      word != "" && if word[0] in "+-~?" then q == word[0] && body == word[1..] else q == '+' && body == word
  {
    var word := sign + body;
    if sign != "" { assert word[0] == sign[0] && word[1..] == body; } else { assert word == body; }
  }

  lemma ParsedWord(word: string, body: string, q: char, name: string, value: string)
    requires word != "" && !IsModifier(word) && Parts(body, name, value)
    requires if word[0] in "+-~?" then q == word[0] && body == word[1..] else q == '+' && body == word
    ensures ParseTerm(word) == Mechanism(q, KindOf(Lower(name)), value, body)
  {
  }

  // A colon or a slash comes before any equals sign.
  lemma NoModifier(sign: string, name: string, text: string, value: string)
    requires IsSign(sign) && PlainName(name) && Argument(text, value)
    ensures !IsModifier(sign + name + text)
  {
    var word := sign + name + text;
    var eq, n := Find(word, '='), |sign| + |name|;
    FindIsFirst(word, '=');
    forall k | 0 <= k <= n && k < |word| ensures word[k] != '=' {
      if k < |sign| { assert word[k] == sign[k]; }
      else if k < n { assert word[k] == name[k - |sign|]; }
      else { assert word[k] == text[0]; }
    }
    if eq < |word| { assert word[..eq][n] == word[n] == text[0]; }
  }

  lemma BodyParts(name: string, text: string, value: string)
    requires PlainName(name) && Argument(text, value)
    ensures Parts(name + text, name, value)
  {
    var body, n := name + text, |name|;
    assert forall k :: 0 <= k < n ==> body[k] == name[k];
    assert text != "" ==> body[n] == text[0];
    if text == "" {
      FindIs(body, ':', |body|);
      FindIs(body, '/', |body|);
    } else if text == ":" + value {
      FindIs(body, ':', n);
    } else {
      assert forall k :: n <= k < |body| ==> body[k] == value[k - n];
      FindIs(body, ':', |body|);
      FindIs(body, '/', n);
    }
  }

  /** redirect= sets where to go on; any other name=value is passed over. */
  lemma ModifierWord(name: string, value: string)
    requires PlainName(name)
    ensures ParseTerm(name + "=" + value) == if EqualFold(name, "redirect") then Redirect(value) else Ignored
  {
    var word := name + "=" + value;
    FindIs(word, '=', |name|);
    assert word[..|name|] == name && word[|name| + 1..] == value;
    assert Lower("redirect") == "redirect";
  }

  /** Any other name is an unknown mechanism. */
  lemma UnknownWord(name: string)
    requires forall k: Kind :: !Names(name, k)
    ensures KindOf(Lower(name)) == Unknown
  {
    assert !Names(name, All) && !Names(name, Ip4) && !Names(name, Ip6) && !Names(name, A) && !Names(name, Mx);
    assert !Names(name, Include) && !Names(name, Exists) && !Names(name, Ptr);
  }

  // ------------------------------------------------------------ reading a record

  // The one record of a domain, and the words after its version.
  ghost predicate Publishes(env: Env, domain: string, text: string, words: seq<string>) {
    && FetchRecord(env, domain) == Record(text)
    && Fields(text) != [] && EqualFold(Fields(text)[0], "v=spf1") && Fields(text)[1..] == words
  }

  predicate IsSpf(text: string) {
    HasPrefix(Lower(text), "v=spf1")
  }

  lemma {:induction false} RecordsConcat(a: seq<string>, b: seq<string>)
    ensures SpfRecords(a + b) == SpfRecords(a) + SpfRecords(b)
  {
    if a == [] {
      assert a + b == b;
    } else {
      RecordsConcat(a[1..], b);
      OneMoreRecord(a, b);
    }
  }

  lemma OneMoreRecord(a: seq<string>, b: seq<string>)
    requires a != [] && SpfRecords(a[1..] + b) == SpfRecords(a[1..]) + SpfRecords(b)
    ensures SpfRecords(a + b) == SpfRecords(a) + SpfRecords(b)
  {
    Tail(a, b);
    FirstRecord(a, a[0], a[1..]);
    FirstRecord(a + b, a[0], a[1..] + b);
    Regroup(Chosen(a[0]), SpfRecords(a[1..]), SpfRecords(b));
  }

  lemma Tail(a: seq<string>, b: seq<string>)
    requires a != []
    ensures a + b != [] && (a + b)[0] == a[0] && (a + b)[1..] == a[1..] + b
  {
  }

  lemma Regroup(a: seq<string>, b: seq<string>, c: seq<string>)
    ensures a + (b + c) == (a + b) + c
  {
  }

  function Chosen(text: string): seq<string> {
    if IsSpf(text) then [text] else []
  }

  lemma FirstRecord(a: seq<string>, first: string, rest: seq<string>)
    requires a != [] && a[0] == first && a[1..] == rest
    ensures SpfRecords(a) == Chosen(first) + SpfRecords(rest)
  {
  }

  lemma {:induction false} NoRecords(a: seq<string>)
    requires forall k :: 0 <= k < |a| ==> !IsSpf(a[k])
    ensures SpfRecords(a) == []
  {
    if a != [] { NoRecords(a[1..]); }
  }

  /** The record of a domain is the one TXT record that begins with v=spf1, in any letter case, as
      long as no TXT record there is longer than 4096 octets. */
  lemma RecordMeaning(env: Env, domain: string, before: seq<string>, text: string, after: seq<string>)
    requires domain != "" && env.txt(domain) == before + [text] + after && IsSpf(text)
    requires forall k :: 0 <= k < |before| ==> !IsSpf(before[k])
    requires forall k :: 0 <= k < |after| ==> !IsSpf(after[k])
    ensures FetchRecord(env, domain) ==
            if exists k :: 0 <= k < |env.txt(domain)| && |env.txt(domain)[k]| > 4096 then Oversize else Record(text)
  {
    var all := env.txt(domain);
    RecordsConcat(before + [text], after);
    RecordsConcat(before, [text]);
    NoRecords(before);
    NoRecords(after);
    assert SpfRecords([text]) == [text] by { assert SpfRecords([text][1..]) == []; }
    if r :| r in all && IsOversize(r) {
      var k :| 0 <= k < |all| && all[k] == r;
      assert |all[k]| > 4096;
    }
    if k :| 0 <= k < |all| && |all[k]| > 4096 { assert all[k] in all && IsOversize(all[k]); }
  }

  // What these words decide, with this redirect seen before them.
  ghost function Decided(env: Env, domain: string, text: string, words: seq<string>, redirect: string): Ref {
    CheckTerms(WorldOf(env), domain, text, ParseTerms(words), redirect, MAX_LOOKUPS + 1)
  }

  ghost function HitOf(env: Env, domain: string, kind: Kind, value: string): HitRef {
    CheckMechanism(WorldOf(env), kind, value, domain, MAX_LOOKUPS + 1)
  }

  // A modifier, or a mechanism that does not match.
  ghost predicate Skips(env: Env, domain: string, word: string) {
    var t := ParseTerm(word);
    t.Mechanism? ==> HitOf(env, domain, t.kind, t.value).hit.Unmatched?
  }

  // The redirect= in force after these words.
  function RedirectAfter(words: seq<string>, redirect: string): string {
    if words == [] then redirect
    else RedirectAfter(words[1..], if ParseTerm(words[0]).Redirect? then ParseTerm(words[0]).value else redirect)
  }

  lemma DecidedBy(env: Env, domain: string, text: string, words: seq<string>)
    requires Publishes(env, domain, text, words)
    ensures Unlimited(env, domain) == Decided(env, domain, text, words, "")
  {
    var w := WorldOf(env);
    assert Unlimited(env, domain) == CheckFetched(w, domain, w.fetch(domain), MAX_LOOKUPS + 1);
    assert w.terms(text) == Some(ParseTerms(words));
  }

  lemma OneWord(env: Env, domain: string, text: string, words: seq<string>, redirect: string)
    requires words != []
    ensures var r, rest := Decided(env, domain, text, words, redirect), words[1..];
      match ParseTerm(words[0])
      case Redirect(value) => r == Decided(env, domain, text, rest, value)
      case Ignored => r == Decided(env, domain, text, rest, redirect)
      case Mechanism(q, kind, value, body) =>
        var m := HitOf(env, domain, kind, value);
        match m.hit
        case Broken(v) => r == Ref(Outcome(v, body, text), m.cost, m.voids)
        case Matched => r == Ref(Outcome(QualifierVerdict(q), body, text), m.cost, m.voids)
        case Unmatched =>
          var t := Decided(env, domain, text, rest, redirect);
          r == Ref(t.out, m.cost + t.cost, m.voids + t.voids)
  {
    assert ParseTerms(words) == [ParseTerm(words[0])] + ParseTerms(words[1..]);
    assert ParseTerms(words)[1..] == ParseTerms(words[1..]);
  }

  /** What does not match decides nothing. */
  lemma {:induction false} SkipAll(env: Env, domain: string, text: string, before: seq<string>, rest: seq<string>,
                                   redirect: string)
    requires forall b | b in before :: Skips(env, domain, b)
    ensures var r := Decided(env, domain, text, before + rest, redirect);
      var t := Decided(env, domain, text, rest, RedirectAfter(before, redirect));
      r.out == t.out && r.cost >= t.cost && r.voids >= t.voids
    decreases |before|
  {
    if before == [] {
      assert before + rest == rest;
    } else {
      var words := before + rest;
      assert words[0] == before[0] && words[1..] == before[1..] + rest;
      assert Skips(env, domain, before[0]);
      OneWord(env, domain, text, words, redirect);
      var redirect' := if ParseTerm(before[0]).Redirect? then ParseTerm(before[0]).value else redirect;
      SkipAll(env, domain, text, before[1..], rest, redirect');
    }
  }

  // A mechanism comes to its turn: nothing before it matched.
  ghost predicate ComesTo(env: Env, domain: string, text: string, before: seq<string>, word: string,
                          after: seq<string>) {
    Publishes(env, domain, text, before + [word] + after) && forall b | b in before :: Skips(env, domain, b)
  }

  lemma ItsTurn(env: Env, domain: string, text: string, before: seq<string>, word: string, after: seq<string>)
    requires ComesTo(env, domain, text, before, word, after)
    ensures var r := Decided(env, domain, text, [word] + after, RedirectAfter(before, ""));
      && Unlimited(env, domain).out == r.out
      && Unlimited(env, domain).cost >= r.cost && Unlimited(env, domain).voids >= r.voids
    ensures ([word] + after)[1..] == after
  {
    DecidedBy(env, domain, text, before + [word] + after);
    assert before + [word] + after == before + ([word] + after);
    SkipAll(env, domain, text, before, [word] + after, "");
  }

  /** The first mechanism that matches gives the record the verdict of its sign, and is the one
      reported. */
  lemma MatchDecides(env: Env, domain: string, text: string, before: seq<string>, sign: string, name: string,
                     arg: string, value: string, kind: Kind, verdict: Verdict, after: seq<string>)
    requires Qualified(sign, verdict) && Names(name, kind) && Argument(arg, value)
    requires ComesTo(env, domain, text, before, sign + name + arg, after)
    requires HitOf(env, domain, kind, value).hit.Matched?
    ensures Unlimited(env, domain).out == Outcome(verdict, name + arg, text)
    ensures Answer(env, domain) == if WithinLimits(env, domain) then verdict else PermError
  {
    ItsTurn(env, domain, text, before, sign + name + arg, after);
    var q := MechanismWord(sign, name, arg, value, kind, verdict);
    OneWord(env, domain, text, [sign + name + arg] + after, RedirectAfter(before, ""));
  }

  // ----------------------------------------------------------------- include

  // The domain an include names, after macro expansion.
  ghost predicate IncludeNames(env: Env, domain: string, spec: string, target: string) {
    && env.expand(spec, domain).Some? && target != ""
    && target == Lower(TrimSpace(env.expand(spec, domain).value))
  }

  // A check that an affordable include has made is the check of the target by itself.
  lemma NestedAnswer(env: Env, target: string)
    requires var r := CheckHost(WorldOf(env), target, MAX_LOOKUPS); Affordable(1, 0, r.cost, r.voids)
    ensures Answer(env, target) == CheckHost(WorldOf(env), target, MAX_LOOKUPS).out.verdict
  {
    DepthIrrelevant(WorldOf(env), target, MAX_LOOKUPS, MAX_LOOKUPS + 1);
  }

  /** Section 5.2. When an include comes to its turn, the check of its target by itself decides: a
      pass ends the record with the verdict of the include's sign; fail, softfail and neutral leave
      it to the rest of the record; none and permerror make it a permerror. */
  lemma IncludeMeans(env: Env, domain: string, text: string, before: seq<string>, sign: string, name: string,
                     spec: string, verdict: Verdict, after: seq<string>, target: string)
    requires Qualified(sign, verdict) && EqualFold(name, "include") && IncludeNames(env, domain, spec, target)
    requires ComesTo(env, domain, text, before, sign + name + (":" + spec), after) && WithinLimits(env, domain)
    ensures var out := Unlimited(env, domain).out;
      match Answer(env, target)
      case Pass => out == Outcome(verdict, name + ":" + spec, text)
      case Fail => out == Decided(env, domain, text, after, RedirectAfter(before, "")).out
      case Softfail => out == Decided(env, domain, text, after, RedirectAfter(before, "")).out
      case Neutral => out == Decided(env, domain, text, after, RedirectAfter(before, "")).out
      case NoRecord => out == Outcome(PermError, name + ":" + spec, text)
      case PermError => out == Outcome(PermError, name + ":" + spec, text)
      case TempError => false
  {
    IncludeTurn(env, domain, text, before, sign, name, spec, verdict, after);
    IncludedHit(env, domain, spec, target);
  }

  // The record as far as its include decides it.
  lemma IncludeTurn(env: Env, domain: string, text: string, before: seq<string>, sign: string, name: string,
                    spec: string, verdict: Verdict, after: seq<string>)
    requires Qualified(sign, verdict) && EqualFold(name, "include")
    requires ComesTo(env, domain, text, before, sign + name + (":" + spec), after) && WithinLimits(env, domain)
    ensures var m, out := HitOf(env, domain, Include, spec), Unlimited(env, domain).out;
      && Affordable(0, 0, m.cost, m.voids)
      && match m.hit
         case Matched => out == Outcome(verdict, name + ":" + spec, text)
         case Unmatched => out == Decided(env, domain, text, after, RedirectAfter(before, "")).out
         case Broken(v) => out == Outcome(v, name + ":" + spec, text)
  {
    assert Lower("include") == "include";
    var word := sign + name + (":" + spec);
    ItsTurn(env, domain, text, before, word, after);
    var q := MechanismWord(sign, name, ":" + spec, spec, Include, verdict);
    OneWord(env, domain, text, [word] + after, RedirectAfter(before, ""));
    assert name + (":" + spec) == name + ":" + spec;
  }

  // An affordable include, as a term of its own.
  lemma IncludedHit(env: Env, domain: string, spec: string, target: string)
    requires IncludeNames(env, domain, spec, target)
    requires var m := HitOf(env, domain, Include, spec); Affordable(0, 0, m.cost, m.voids)
    ensures var hit := HitOf(env, domain, Include, spec).hit;
      match Answer(env, target)
      case Pass => hit == Matched
      case Fail => hit == Unmatched
      case Softfail => hit == Unmatched
      case Neutral => hit == Unmatched
      case NoRecord => hit == Broken(PermError)
      case PermError => hit == Broken(PermError)
      case TempError => false
  {
    IncludeBill(env, spec, domain, MAX_LOOKUPS + 1);
    NestedAnswer(env, target);
    AnswerRange(env, target);
  }

  /** So "v=spf1 include:t -all" passes when t passes, and fails when t does not. */
  lemma IncludeOrFail(env: Env, domain: string, text: string, spec: string, target: string)
    requires IncludeNames(env, domain, spec, target) && WithinLimits(env, domain)
    requires Publishes(env, domain, text, ["include:" + spec, "-all"])
    ensures match Answer(env, target)
      case Pass => Answer(env, domain) == Pass
      case Fail => Answer(env, domain) == Fail
      case Softfail => Answer(env, domain) == Fail
      case Neutral => Answer(env, domain) == Fail
      case _ => Answer(env, domain) == PermError
  {
    assert "" + "include" + (":" + spec) == "include:" + spec;
    assert [] + ["include:" + spec] + ["-all"] == ["include:" + spec, "-all"];
    IncludeMeans(env, domain, text, [], "", "include", spec, Pass, ["-all"], target);
    FinalAll(env, domain, text);
  }

  lemma FinalAll(env: Env, domain: string, text: string)
    ensures Decided(env, domain, text, ["-all"], "").out == Outcome(Fail, "all", text)
  {
    assert "-" + "all" + "" == "-all";
    assert Lower("all") == "all";
    var q := MechanismWord("-", "all", "", "", All, Fail);
    OneWord(env, domain, text, ["-all"], "");
    AllMatches(env, domain);
  }

  lemma AllMatches(env: Env, domain: string)
    ensures HitOf(env, domain, All, "") == HitRef(Matched, 0, 0)
  {
    assert WorldOf(env).leaf(All, "", domain) == Leaf(env, All, "", domain);
  }

  // ---------------------------------------------------------- the other mechanisms

  // An optional prefix length: written, and out of range or unreadable when it is not itself.
  predicate PrefixLength(env: Env, written: Option<string>, max: nat, n: nat) {
    match written
    case None => n == max
    case Some(s) =>
      match env.scanInt(s)
      case None => n == max
      case Some(k) => n == if 0 <= k <= max then k else max
  }

  function LengthText(v4: Option<string>, v6: Option<string>): string {
    (if v4.Some? then "/" + v4.value else "") + (if v6.Some? then "//" + v6.value else "")
  }

  /** The argument of a and mx: a domain or none, then "/" and "//" with the prefix lengths. */
  lemma TargetMeaning(env: Env, name: string, v4: Option<string>, v6: Option<string>, domain: string, a: nat, b: nat)
    requires '/' !in name && TrimSpace(name) == name
    requires v4.Some? ==> '/' !in v4.value && v4.value != ""
    requires PrefixLength(env, v4, 32, a) && PrefixLength(env, v6, 128, b)
    ensures var t := Target(env, name + LengthText(v4, v6), domain);
      if name == "" then t == Some((domain, a, b))
      else if env.expand(name, domain).None? then t == None
      else t == Some((Lower(env.expand(name, domain).value), a, b))
  {
    var first := name + LengthText(v4, None);
    var second := LengthText(None, v6);
    assert name + LengthText(v4, v6) == first + second;
    NoDouble(name, v4);
    DoubleIs(first, second);
    SecondLength(first, v6);
    FirstLength(name, v4);
    ClampMeaning(env, v4, 32, a);
    ClampMeaning(env, v6, 128, b);
    TargetOf(env, first + second, first, name, v4, v6, domain);
  }

  function Scanned(env: Env, written: Option<string>): Option<int> {
    if written.Some? then env.scanInt(written.value) else None
  }

  lemma ClampMeaning(env: Env, written: Option<string>, max: nat, n: nat)
    requires PrefixLength(env, written, max, n)
    ensures Clamp(Scanned(env, written), max) == n
  {
  }

  lemma TargetOf(env: Env, value: string, first: string, name: string, v4: Option<string>, v6: Option<string>,
                 domain: string)
    requires var n := FindDouble(value);
      n == |first| && value[..n] == first && (n < |value| <==> v6.Some?) && (v6.Some? ==> value[n + 2..] == v6.value)
    requires var n := Find(first, '/');
      n == |name| && TrimSpace(first[..n]) == name && (n < |first| <==> v4.Some?) &&
      (v4.Some? ==> first[n + 1..] == v4.value)
    ensures var a, b := Clamp(Scanned(env, v4), 32), Clamp(Scanned(env, v6), 128);
      Target(env, value, domain) ==
      if name == "" then Some((domain, a, b))
      else if env.expand(name, domain).None? then None
      else Some((Lower(env.expand(name, domain).value), a, b))
  {
  }

  lemma SecondLength(first: string, v6: Option<string>)
    ensures var value := first + LengthText(None, v6);
      value[..|first|] == first && (|first| < |value| <==> v6.Some?) &&
      (v6.Some? ==> |first| + 2 <= |value| && value[|first| + 2..] == v6.value)
  {
  }

  lemma FirstLength(name: string, v4: Option<string>)
    requires '/' !in name
    ensures var first := name + LengthText(v4, None);
      Find(first, '/') == |name| && first[..|name|] == name && (|name| < |first| <==> v4.Some?) &&
      (v4.Some? ==> first[|name| + 1..] == v4.value)
  {
    var first := name + LengthText(v4, None);
    FindIs(first, '/', |name|);
  }

  predicate NoDoubleSlash(s: string) {
    forall k :: 0 < k < |s| ==> s[k - 1] != '/' || s[k] != '/'
  }

  lemma NoDouble(name: string, v4: Option<string>)
    requires '/' !in name && (v4.Some? ==> '/' !in v4.value && v4.value != "")
    ensures var first := name + LengthText(v4, None);
      NoDoubleSlash(first) && (first != "" ==> first[|first| - 1] != '/')
  {
    var first := name + LengthText(v4, None);
    forall k | 0 <= k < |first| ensures first[k] == '/' ==> k == |name| {
      if k < |name| { assert first[k] == name[k]; } else if k > |name| { assert first[k] == v4.value[k - |name| - 1]; }
    }
  }

  lemma {:induction false} DoubleIs(a: string, b: string)
    requires NoDoubleSlash(a) && (a != "" ==> a[|a| - 1] != '/') && (b != "" ==> HasPrefix(b, "//"))
    ensures FindDouble(a + b) == |a|
    decreases |a|
  {
    var s := a + b;
    if a == "" {
      assert s == b;
    } else {
      assert s[1..] == a[1..] + b;
      forall k | 0 < k < |a[1..]| ensures a[1..][k - 1] != '/' || a[1..][k] != '/' {
        assert a[k + 1 - 1] != '/' || a[k + 1] != '/';
      }
      assert |a| >= 2 ==> s[1] == a[1] && (a[1 - 1] != '/' || a[1] != '/');
      DoubleIs(a[1..], b);
    }
  }

  function HostsOf(env: Env, name: string): seq<string> {
    if name == "" then [] else env.host(name)
  }

  /** An ip4 or ip6 term needs an argument; it passes over clients of the other family; a CIDR or an
      address that does not parse is an error. */
  lemma IpMeaning(env: Env, domain: string, kind: Kind, value: string)
    requires kind == Ip4 || kind == Ip6
    ensures var hit := HitOf(env, domain, kind, value).hit;
      var found := if '/' in value then env.parseCidr(value) else env.parseAddr(value);
      && (value == "" ==> hit == Broken(PermError))
      && (value != "" && (kind == Ip4) == env.ipIsV4 ==>
            hit == if found.None? then Broken(PermError) else if found.value then Matched else Unmatched)
      && (value != "" && (kind == Ip4) != env.ipIsV4 ==> hit == Unmatched)
  {
    assert WorldOf(env).leaf(kind, value, domain) == Leaf(env, kind, value, domain);
  }

  /** a matches when an address of its domain covers the client; mx when one of at most ten
      exchangers has such an address. */
  lemma AddressMeaning(env: Env, domain: string, value: string, name: string, a: nat, b: nat)
    requires Target(env, value, domain) == Some((name, a, b))
    ensures HitOf(env, domain, A, value).hit == Matched <==>
            exists x :: x in HostsOf(env, name) && env.covers(x, a, b)
    ensures HitOf(env, domain, A, value).hit in {Matched, Unmatched}
    ensures var hosts := if name == "" then [] else env.mx(name);
      if |hosts| > 10 then HitOf(env, domain, Mx, value).hit == Broken(PermError)
      else
        && HitOf(env, domain, Mx, value).hit in {Matched, Unmatched}
        && (HitOf(env, domain, Mx, value).hit == Matched <==>
              exists h, x :: h in hosts && x in HostsOf(env, h) && env.covers(x, a, b))
  {
    var w := WorldOf(env);
    assert w.leaf(A, value, domain) == Leaf(env, A, value, domain);
    assert w.leaf(Mx, value, domain) == Leaf(env, Mx, value, domain);
    var hosts := Exchangers(env, name);
    if h, x :| h in hosts && x in HostsOf(env, h) && env.covers(x, a, b) {
      assert AnyCovers(env, Hosts(env, h), a, b);
    }
  }

  /** exists matches when its name, expanded, trimmed and in lower case, has an address. */
  lemma ExistsMeaning(env: Env, domain: string, spec: string)
    ensures var hit := HitOf(env, domain, Exists, spec).hit;
      if env.expand(spec, domain).None? || TrimSpace(env.expand(spec, domain).value) == "" then hit == Broken(PermError)
      else hit == if env.host(Lower(TrimSpace(env.expand(spec, domain).value))) != [] then Matched else Unmatched
  {
    assert WorldOf(env).leaf(Exists, spec, domain) == Leaf(env, Exists, spec, domain);
  }

  // A reverse name of the client at or under the target, with a forward address that confirms it.
  predicate Confirmed(env: Env, name: string, target: string) {
    var n := if HasSuffix(Lower(name), ".") then Lower(name)[..|name| - 1] else Lower(name);
    (n == target || HasSuffix(n, "." + target)) && exists a :: a in HostsOf(env, n) && env.parseAddr(a) == Some(true)
  }

  /** ptr matches when such a name exists; its target is the argument, or the domain without one. */
  lemma PtrMeaning(env: Env, domain: string, value: string, target: string)
    requires target == if TrimSpace(value) == "" then domain else Lower(TrimSpace(value))
    ensures HitOf(env, domain, Ptr, value).hit ==
            if exists n :: n in env.ptr && Confirmed(env, n, target) then Matched else Unmatched
  {
    assert WorldOf(env).leaf(Ptr, value, domain) == Leaf(env, Ptr, value, domain);
    PtrBill(env, value, domain);
    AnyConfirmedMeaning(env, target);
  }

  lemma AnyConfirmedMeaning(env: Env, target: string)
    ensures AnyConfirmed(env, target) <==> exists n :: n in env.ptr && Confirmed(env, n, target)
  {
    forall n ensures PtrConfirmed(env, n, target) == Confirmed(env, n, target) {
      ConfirmedMeaning(env, n, target);
    }
  }

  lemma ConfirmedMeaning(env: Env, name: string, target: string)
    ensures PtrConfirmed(env, name, target) == Confirmed(env, name, target)
  {
    assert |Lower(name)| == |name|;
  }

  // --------------------------------------------------------------- the identity

  predicate Bare(d: string) {
    d != "" && d[0] !in BLANKS && d[|d| - 1] !in BLANKS && d[0] !in "[]" && d[|d| - 1] !in "[]"
  }

  lemma {:induction false} TrimRightKeeps(d: string, tail: string, cut: string)
    requires (d != "" ==> d[|d| - 1] !in cut) && forall k :: 0 <= k < |tail| ==> tail[k] in cut
    ensures TrimRight(d + tail, cut) == d
    decreases |tail|
  {
    var s := d + tail;
    if tail != "" {
      assert s[..|s| - 1] == d + tail[..|tail| - 1];
      TrimRightKeeps(d, tail[..|tail| - 1], cut);
    } else {
      assert s == d;
    }
  }

  /** The domain checked is what follows the last @ of the sender, in lower case and without
      brackets; with no sender, the name the client gave in HELO. */
  lemma IdentityMeaning(local: string, d: string, helo: string)
    requires Bare(d) && '@' !in d
    ensures IdentityDomain(local + "@" + d) == Lower(d) && IdentityDomain(d) == Lower(d)
    ensures IdentityDomain(local + "@[" + d + "]") == Lower(d)
    ensures forall s :: TrimSpace(s) == "" ==> Identity(s, d) == "postmaster@" + d
    ensures forall s :: TrimSpace(s) != "" ==> Identity(s, helo) == s
  {
    AfterAt(local, d);
    AfterAt(local, "[" + d + "]");
    assert local + "@[" + d + "]" == local + "@" + ("[" + d + "]");
    Unbracketed(d);
    assert FindLast(d, '@') == |d|;
    forall s ensures TrimSpace(s) == "" ==> Identity(s, d) == "postmaster@" + d { }
  }

  lemma AfterAt(local: string, d: string)
    requires '@' !in d
    ensures var s := local + "@" + d; FindLast(s, '@') == |local| && s[|local| + 1..] == d
  {
    var s := local + "@" + d;
    assert s[|local|] == '@' && s[|local| + 1..] == d;
    forall k | |local| < k < |s| ensures s[k] != '@' { assert s[k] == d[k - |local| - 1]; }
    LastIs(s, '@', |local|);
  }

  lemma {:induction false} LastIs(s: string, c: char, n: nat)
    requires n < |s| && s[n] == c && forall k :: n < k < |s| ==> s[k] != c
    ensures FindLast(s, c) == n
  {
    if n < |s| - 1 { LastIs(s[..|s| - 1], c, n); }
  }

  lemma Unbracketed(d: string)
    requires Bare(d)
    ensures TrimSpace(d) == d && TrimSpace("[" + d + "]") == "[" + d + "]"
    ensures TrimRight(TrimLeft(d, "[]"), "[]") == d && TrimRight(TrimLeft("[" + d + "]", "[]"), "[]") == d
  {
    var s := "[" + d + "]";
    assert s[0] == '[' && s[|s| - 1] == ']';
    assert s[1..] == d + "]";
    assert TrimLeft(s, "[]") == TrimLeft(d + "]", "[]");
    assert (d + "]")[0] == d[0];
    TrimRightKeeps(d, "]", "[]");
  }
}
