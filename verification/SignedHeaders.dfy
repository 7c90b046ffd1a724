/** What a DKIM signature's header hash covers (pkg/authverify/dkim.go 505-568, 599-612, 702-706):
    field canonicalisation, the emptied b= tag, and the choice of field instances. */
module SignedHeaders {
  import opened Text
  import opened Canonical
  import opened TagStrip
  import opened HeaderChoice

  datatype Field = Field(name: string, value: string)

  // --------------------------------------------------------- field canonical form

  function Unfold(s: string): string {
    ReplaceLF(ReplaceCRLF(s, ""), "")
  }

  function RelaxedValue(v: string): string {
    TrimSpace(Collapse(Unfold(v)))
  }

  function Key(name: string): string {
    Lower(TrimSpace(name))
  }

  function CanonicalField(f: Field, mode: Mode): (r: string)
    ensures |r| >= 3 && EndsCRLF(r)
  {
    if mode == Relaxed then Key(f.name) + ":" + RelaxedValue(f.value) + CRLF
    else f.name + ":" + f.value + CRLF
  }

  predicate LastIs(s: string, c: char) {
    s != [] && s[|s| - 1] == c
  }

  lemma ReplaceCRLFSnoc(s: string, c: char, sub: string)
    requires !EndsCRLF(s + [c])
    ensures ReplaceCRLF(s + [c], sub) == ReplaceCRLF(s, sub) + [c]
  {
    assert (s + [c])[..|s|] == s;
  }

  lemma UnfoldSnoc(s: string, c: char)
    requires !EndsCRLF(s + [c])
    ensures Unfold(s + [c]) == if c == '\n' then Unfold(s) else Unfold(s) + [c]
  {
    ReplaceCRLFSnoc(s, c, "");
    ReplaceLFSnoc(ReplaceCRLF(s, ""), c, "");
  }

  lemma UnfoldBreak(s: string)
    ensures Unfold(s + CRLF) == Unfold(s)
  {
    assert (s + CRLF)[..|s|] == s;
    assert ReplaceCRLF(s, "") + "" == ReplaceCRLF(s, "");
  }

  lemma {:induction false} UnfoldNoBreak(s: string)
    requires NoBreak(s)
    ensures Unfold(s) == s
  {
    if s != [] {
      var front := s[..|s| - 1];
      assert NoBreak(front);
      UnfoldNoBreak(front);
      UnfoldKeeps(front, s[|s| - 1], s);
    }
  }

  lemma UnfoldKeeps(x: string, c: char, s: string)
    requires s == x + [c] && !Break(c) && Unfold(x) == x
    ensures Unfold(s) == s
  {
    UnfoldSnoc(x, c);
  }

  // A CR and an LF that meet only when a and b are put together.
  predicate Meet(a: string, b: string) {
    LastIs(a, '\r') && b != [] && b[0] == '\n'
  }

  ghost predicate UnfoldsApart(a: string, b: string) {
    Unfold(a + b) == Unfold(a) + Unfold(b)
  }

  lemma ApartBreak(a: string, x: string, b: string)
    requires b == x + CRLF && UnfoldsApart(a, x)
    ensures UnfoldsApart(a, b)
  {
    UnfoldBreak(x);
    UnfoldBreak(a + x);
    assert a + b == (a + x) + CRLF;
  }

  lemma ApartChar(a: string, x: string, c: char, b: string)
    requires b == x + [c] && !EndsCRLF(b) && !Meet(a, b) && UnfoldsApart(a, x)
    ensures UnfoldsApart(a, b)
  {
    UnfoldLast(x, c, b);
    assert a + b == (a + x) + [c] && !EndsCRLF(a + b);
    UnfoldLast(a + x, c, a + b);
    ConcatChar(Unfold(a), Unfold(x), c);
  }

  lemma UnfoldLast(y: string, c: char, s: string)
    requires s == y + [c] && !EndsCRLF(s)
    ensures Unfold(s) == if c == '\n' then Unfold(y) else Unfold(y) + [c]
  {
    UnfoldSnoc(y, c);
  }

  lemma ConcatChar(a: string, x: string, c: char)
    ensures (a + x) + [c] == a + (x + [c])
  {
  }

  lemma {:induction false} UnfoldConcat(a: string, b: string)
    requires !Meet(a, b)
    ensures UnfoldsApart(a, b)
    decreases |b|
  {
    if b == [] {
      assert a + b == a;
    } else if EndsCRLF(b) {
      UnfoldConcat(a, b[..|b| - 2]);
      ApartBreak(a, b[..|b| - 2], b);
    } else {
      UnfoldConcat(a, b[..|b| - 1]);
      ApartChar(a, b[..|b| - 1], b[|b| - 1], b);
    }
  }

  /** A CRLF put anywhere in a value is unfolded away again, except just where it would part a CR
      from its LF. */
  lemma FoldInserted(a: string, b: string)
    ensures Unfold(a + CRLF + b) == Unfold(a + b) <==> !Meet(a, b)
  {
    UnfoldConcat(a + CRLF, b);
    UnfoldBreak(a);
    if Meet(a, b) {
      MeetLoses(a, b);
    } else {
      UnfoldConcat(a, b);
    }
  }

  lemma MeetLoses(a: string, b: string)
    requires Meet(a, b)
    ensures |Unfold(a + b)| < |Unfold(a)| + |Unfold(b)|
  {
    var x, y := a[..|a| - 1], b[1..];
    assert a == x + ['\r'] && b == ['\n'] + y;
    assert a + b == (x + CRLF) + y;
    UnfoldConcat(x + CRLF, y);
    UnfoldBreak(x);
    UnfoldSnoc(x, '\r');
    UnfoldConcat("\n", y);
  }

  /** Folding a relaxed field at white space, as relays do, changes nothing that is hashed
      (section 3.4.2 of RFC 6376). */
  lemma FoldingIrrelevant(name: string, a: string, b: string)
    requires b != [] && (b[0] == ' ' || b[0] == '\t')
    ensures CanonicalField(Field(name, a + CRLF + b), Relaxed) == CanonicalField(Field(name, a + b), Relaxed)
  {
    FoldInserted(a, b);
  }

  lemma KeyIdempotent(name: string)
    ensures Key(Key(name)) == Key(name)
  {
    var i, j := TrimSpaceIsSlice(name);
    var t := TrimSpace(name);
    if t != [] {
      assert LowerChar(t[0]) !in BLANKS && LowerChar(t[|t| - 1]) !in BLANKS;
    }
    TrimmedIsFixed(Lower(t));
    assert Lower(Lower(t)) == Lower(t);
  }

  lemma RelaxedValueIdempotent(v: string)
    ensures RelaxedValue(RelaxedValue(v)) == RelaxedValue(v)
  {
    var c := Collapse(Unfold(v));
    CollapseCollapses(Unfold(v));
    var i, j := TrimSpaceIsSlice(c);
    var r := c[i..j];
    assert Collapsed(r);
    UnfoldNoBreak(r);
    CollapsedIsFixed(r);
    TrimmedIsFixed(r);
  }

  /** Canonicalising an already canonical field changes nothing. */
  lemma CanonicalFieldIdempotent(f: Field)
    ensures CanonicalField(Field(Key(f.name), RelaxedValue(f.value)), Relaxed) == CanonicalField(f, Relaxed)
  {
    KeyIdempotent(f.name);
    RelaxedValueIdempotent(f.value);
  }

  // ------------------------------------------------------------------ the input

  function Keys(headers: seq<Field>): (r: seq<string>)
    ensures |r| == |headers|
  {
    seq(|headers|, i requires 0 <= i < |headers| => Key(headers[i].name))
  }

  function NameKeys(names: seq<string>): (r: seq<string>)
    ensures |r| == |names|
  {
    seq(|names|, j requires 0 <= j < |names| => Key(names[j]))
  }

  function Texts(headers: seq<Field>, mode: Mode): (r: seq<string>)
    ensures |r| == |headers|
  {
    seq(|headers|, i requires 0 <= i < |headers| => CanonicalField(headers[i], mode))
  }

  function SignatureLine(value: string, mode: Mode, signatureField: string): string {
    TrimSuffix(CanonicalField(Field(signatureField, StripSignature(value)), mode), CRLF)
  }

  /** The bytes whose hash is signed. */
  function SignedInput(headers: seq<Field>, skip: nat, names: seq<string>, mode: Mode, signatureField: string): string
    requires skip < |headers|
  {
    Hashed(Texts(headers, mode), Keys(headers), skip, NameKeys(names), |names|) +
    SignatureLine(headers[skip].value, mode, signatureField)
  }

  /** The signature field is hashed under a name of the verifier's. In simple mode that is the
      field as received (section 3.4.1 of RFC 6376) exactly when the field spells its name so; in
      relaxed mode letter case and padding do not matter. */
  lemma OwnSpelling(headers: seq<Field>, skip: nat, names: seq<string>, mode: Mode, signatureField: string)
    requires skip < |headers|
    ensures var own := headers[skip].name;
      SignedInput(headers, skip, names, mode, signatureField) == SignedInput(headers, skip, names, mode, own) <==>
      Spelled(own, mode) == Spelled(signatureField, mode)
  {
    var own, v := headers[skip].name, StripSignature(headers[skip].value);
    var tail := ":" + if mode == Relaxed then RelaxedValue(v) else v;
    LineIsNamed(headers[skip].value, mode, own, tail);
    LineIsNamed(headers[skip].value, mode, signatureField, tail);
    var h := Hashed(Texts(headers, mode), Keys(headers), skip, NameKeys(names), |names|);
    SameEnds(h, Spelled(own, mode), Spelled(signatureField, mode), tail);
  }

  function Spelled(name: string, mode: Mode): string {
    if mode == Relaxed then Key(name) else name
  }

  lemma LineIsNamed(value: string, mode: Mode, name: string, tail: string)
    requires tail == ":" + if mode == Relaxed then RelaxedValue(StripSignature(value)) else StripSignature(value)
    ensures SignatureLine(value, mode, name) == Spelled(name, mode) + tail
  {
    assert CanonicalField(Field(name, StripSignature(value)), mode) == (Spelled(name, mode) + tail) + CRLF;
    TrimmedEnd(Spelled(name, mode) + tail);
  }

  lemma TrimmedEnd(x: string)
    ensures TrimSuffix(x + CRLF, CRLF) == x
  {
    assert (x + CRLF)[|x|..] == CRLF;
  }

  lemma SameEnds(h: string, a: string, b: string, tail: string)
    ensures h + (a + tail) == h + (b + tail) <==> a == b
  {
    if h + (a + tail) == h + (b + tail) {
      assert a == (h + (a + tail))[|h|..|h| + |a|];
      assert b == (h + (b + tail))[|h|..|h| + |b|];
    }
  }

  /** A field received as "dkim-signature" is verified in simple mode as if it were spelled otherwise. */
  lemma LowerCaseName(headers: seq<Field>, skip: nat, names: seq<string>)
    requires skip < |headers| && headers[skip].name == "dkim-signature"
    ensures Key(headers[skip].name) == Key("DKIM-Signature")
    ensures SignedInput(headers, skip, names, Simple, "DKIM-Signature") !=
            SignedInput(headers, skip, names, Simple, headers[skip].name)
  {
    OwnSpelling(headers, skip, names, Simple, "DKIM-Signature");
    Spellings(headers[skip].name, "DKIM-Signature");
  }

  lemma Spellings(a: string, b: string)
    requires a == "dkim-signature" && b == "DKIM-Signature"
    ensures a != b && Key(a) == Key(b)
  {
    assert a[0] != b[0];
    NoTrim(a);
    NoTrim(b);
  }

  lemma NoTrim(s: string)
    requires s != "" && s[0] !in BLANKS && s[|s| - 1] !in BLANKS
    ensures TrimSpace(s) == s
  {
  }

  method CollectOccurrences(headers: seq<Field>, sigIndex: nat) returns (occurrences: map<string, seq<nat>>)
    ensures occurrences == Collect(Keys(headers), sigIndex, |headers|)
  {
    occurrences := map[];
    var i := 0;
    while i < |headers|
      invariant i <= |headers| && occurrences == Collect(Keys(headers), sigIndex, i)
    {
      if i != sigIndex {
        var key := Key(headers[i].name);
        occurrences := occurrences[key := At(occurrences, key) + [i]];
      }
      i := i + 1;
    }
  }

  method NextKey(names: seq<string>, j: nat) returns (key: string)
    requires j < |names|
    ensures key == NameKeys(names)[j]
  {
    key := Key(names[j]);
  }

  method PopLast(occurrences: map<string, seq<nat>>, key: string)
    returns (idx: Option<nat>, left: map<string, seq<nat>>)
    ensures idx == TopOf(occurrences, key) && left == PopFor(occurrences, key)
  {
    if key == "" { return None, occurrences; }
    var list := At(occurrences, key);
    if |list| == 0 { return None, occurrences; }
    return Some(list[|list| - 1]), occurrences[key := list[..|list| - 1]];
  }

  method WriteField(headers: seq<Field>, idx: Option<nat>, mode: Mode, out: string) returns (more: string)
    ensures more == out + TextOr(Texts(headers, mode), idx)
  {
    if idx.None? || idx.value >= |headers| { return out + ""; }
    more := out + CanonicalField(headers[idx.value], mode);
  }

  method WriteFields(headers: seq<Field>, names: seq<string>, mode: Mode, first: map<string, seq<nat>>)
    returns (out: string)
    ensures out == Written(Texts(headers, mode), first, NameKeys(names), |names|)
  {
    ghost var texts, asked := Texts(headers, mode), NameKeys(names);
    var occurrences := first;
    out := "";
    var j := 0;
    while j < |names|
      invariant j <= |names| && occurrences == Pops(first, asked, j) && out == Written(texts, first, asked, j)
    {
      var key := NextKey(names, j);
      var idx, left := PopLast(occurrences, key);
      var more := WriteField(headers, idx, mode, out);
      WrittenStep(texts, first, asked, j, occurrences, out, left, more);
      occurrences, out := left, more;
      j := j + 1;
    }
  }

  method BuildSignedHeaderInput(headers: seq<Field>, sigIndex: nat, names: seq<string>, rawSig: string, mode: Mode,
                                signatureField: string) returns (input: string)
    requires sigIndex < |headers| && rawSig == headers[sigIndex].value
    ensures input == SignedInput(headers, sigIndex, names, mode, signatureField)
  {
    var occurrences := CollectOccurrences(headers, sigIndex);
    var fields := WriteFields(headers, names, mode, occurrences);
    WrittenIsHashed(Texts(headers, mode), occurrences, Keys(headers), sigIndex, NameKeys(names), |names|);
    var stripped := StripSignature(rawSig);
    var line := CanonicalField(Field(signatureField, stripped), mode);
    input := fields + TrimSuffix(line, CRLF);
  }

  // ---------------------------------------------------------- a field put on top

  /** A field added on top leaves the hashed bytes alone exactly when h= does not oversign its
      name; otherwise the new field is among them. */
  lemma AddedField(f: Field, headers: seq<Field>, skip: nat, names: seq<string>, mode: Mode, signatureField: string)
    requires skip < |headers|
    ensures var was := SignedInput(headers, skip, names, mode, signatureField);
      var now := SignedInput([f] + headers, skip + 1, names, mode, signatureField);
      var over := Oversigned(Keys(headers), skip, NameKeys(names), Key(f.name), |names|);
      && (now == was <==> !over)
      && (over ==> |now| == |was| + |CanonicalField(f, mode)| && Within(CanonicalField(f, mode), now))
  {
    AddedHashed(f, headers, skip, names, mode);
    InputWithTop(f, headers, skip, names, mode, signatureField);
    AddedEnds(Hashed(Texts(headers, mode), Keys(headers), skip, NameKeys(names), |names|),
              Hashed(Texts([f] + headers, mode), Keys([f] + headers), skip + 1, NameKeys(names), |names|),
              SignatureLine(headers[skip].value, mode, signatureField), |CanonicalField(f, mode)|,
              Oversigned(Keys(headers), skip, NameKeys(names), Key(f.name), |names|));
    if Oversigned(Keys(headers), skip, NameKeys(names), Key(f.name), |names|) {
      AddedIsHashed(f, headers, skip, names, mode, signatureField);
    }
  }

  lemma AddedIsHashed(f: Field, headers: seq<Field>, skip: nat, names: seq<string>, mode: Mode, signatureField: string)
    requires skip < |headers| && Oversigned(Keys(headers), skip, NameKeys(names), Key(f.name), |names|)
    ensures Within(CanonicalField(f, mode), SignedInput([f] + headers, skip + 1, names, mode, signatureField))
  {
    var text := CanonicalField(f, mode);
    WithTop(f, headers, mode);
    InputWithTop(f, headers, skip, names, mode, signatureField);
    TopIsHashed(text, Texts(headers, mode), Key(f.name), Keys(headers), skip, NameKeys(names));
    WithinLonger(text, Hashed([text] + Texts(headers, mode), [Key(f.name)] + Keys(headers), skip + 1, NameKeys(names),
                              |names|),
                 SignatureLine(headers[skip].value, mode, signatureField));
  }

  lemma InputWithTop(f: Field, headers: seq<Field>, skip: nat, names: seq<string>, mode: Mode, signatureField: string)
    requires skip < |headers|
    ensures SignedInput([f] + headers, skip + 1, names, mode, signatureField) ==
            Hashed(Texts([f] + headers, mode), Keys([f] + headers), skip + 1, NameKeys(names), |names|) +
            SignatureLine(headers[skip].value, mode, signatureField)
  {
    assert ([f] + headers)[skip + 1] == headers[skip];
  }

  lemma AddedHashed(f: Field, headers: seq<Field>, skip: nat, names: seq<string>, mode: Mode)
    ensures var was := Hashed(Texts(headers, mode), Keys(headers), skip, NameKeys(names), |names|);
      var now := Hashed(Texts([f] + headers, mode), Keys([f] + headers), skip + 1, NameKeys(names), |names|);
      if Oversigned(Keys(headers), skip, NameKeys(names), Key(f.name), |names|)
      then |now| == |was| + |CanonicalField(f, mode)| else now == was
  {
    WithTop(f, headers, mode);
    HashedWithTop(CanonicalField(f, mode), Texts(headers, mode), Key(f.name), Keys(headers), skip, NameKeys(names),
                  |names|);
  }

  lemma WithTop(f: Field, headers: seq<Field>, mode: Mode)
    ensures Keys([f] + headers) == [Key(f.name)] + Keys(headers)
    ensures Texts([f] + headers, mode) == [CanonicalField(f, mode)] + Texts(headers, mode)
  {
  }

  lemma AddedEnds(was: string, now: string, end: string, n: nat, over: bool)
    requires n > 0 && if over then |now| == |was| + n else now == was
    ensures (now + end == was + end <==> !over) && (over ==> |now + end| == |was + end| + n)
  {
    if now + end == was + end { assert |now + end| == |was + end|; }
  }

  /** Whatever name h= mentions, the bottom-most field of that name is hashed. */
  lemma MentionedIsHashed(headers: seq<Field>, skip: nat, names: seq<string>, mode: Mode,
                          signatureField: string, key: string, i: nat)
    requires skip < |headers| && key != "" && key in NameKeys(names)
    requires IsInstance(Keys(headers), skip, key, i) && Below(Keys(headers), skip, key, i) == 0
    ensures Within(CanonicalField(headers[i], mode), SignedInput(headers, skip, names, mode, signatureField))
  {
    var texts, keys, asked := Texts(headers, mode), Keys(headers), NameKeys(names);
    assert asked[..|names|] == asked;
    var j := FirstMention(asked, key, |names|);
    ChosenMeaning(keys, skip, asked, j, i);
    ChosenIsHashed(texts, keys, skip, asked, j, |names|, i);
    WithinLonger(texts[i], Hashed(texts, keys, skip, asked, |names|),
                 SignatureLine(headers[skip].value, mode, signatureField));
  }
}
