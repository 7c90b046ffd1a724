/** Emptying the b= tag of a signature field (pkg/authverify/dkim.go 599-612), section 3.7 of
    RFC 6376. */
module TagStrip {
  import opened Text
  import opened Canonical

  ghost predicate Trimmed(s: string) {
    s == [] || (s[0] !in BLANKS && s[|s| - 1] !in BLANKS)
  }

  lemma {:induction false} TrimLeftIsSuffix(s: string, cut: string) returns (i: nat)
    ensures i <= |s| && TrimLeft(s, cut) == s[i..] && (i < |s| ==> s[i] !in cut)
  {
    if s != [] && s[0] in cut {
      var k := TrimLeftIsSuffix(s[1..], cut);
      i := k + 1;
    } else {
      i := 0;
    }
  }

  lemma TrimSpaceIsSlice(s: string) returns (i: nat, j: nat)
    ensures i <= j <= |s| && TrimSpace(s) == s[i..j] && Trimmed(TrimSpace(s))
  {
    i := TrimLeftIsSuffix(s, BLANKS);
    TrimRightIsPrefix(s[i..], BLANKS);
    j := i + |TrimSpace(s)|;
  }

  lemma TrimmedIsFixed(s: string)
    requires Trimmed(s)
    ensures TrimSpace(s) == s
  {
  }

  function BlankRun(s: string): (n: nat)
    ensures n <= |s|
  {
    if s != [] && Blank(s[0]) then 1 + BlankRun(s[1..]) else 0
  }

  // The length of what `[ \t\r\n]*b[ \t\r\n]*=` matches at the front of s; 0 when it does not.
  function BTag(s: string): (n: nat)
    ensures n <= |s|
  {
    var i := BlankRun(s);
    if i == |s| || s[i] != 'b' then 0
    else
      var j := i + 1 + BlankRun(s[i + 1..]);
      if j == |s| || s[j] != '=' then 0 else j + 1
  }

  function StripPart(part: string): string {
    if BTag(part) > 0 then part[..BTag(part)] else part
  }

  function StripParts(parts: seq<string>): (r: seq<string>)
    ensures |r| == |parts|
  {
    seq(|parts|, k requires 0 <= k < |parts| => StripPart(parts[k]))
  }

  // bTagPattern.ReplaceAllString: a match starts at a tag boundary and cannot pass the next ';'.
  function StripSignature(s: string): string {
    Join(StripParts(Split(s, ';')), ";")
  }

  lemma {:induction false} BlankRunMeaning(s: string)
    ensures forall k :: 0 <= k < BlankRun(s) ==> Blank(s[k])
    ensures BlankRun(s) < |s| ==> !Blank(s[BlankRun(s)])
  {
    if s != [] && Blank(s[0]) {
      BlankRunMeaning(s[1..]);
      forall k | 0 <= k < BlankRun(s) ensures Blank(s[k]) {
        if k > 0 { assert s[k] == s[1..][k - 1]; }
      }
    }
  }

  lemma BlankRunIs(s: string, n: nat)
    requires n <= |s| && (forall k :: 0 <= k < n ==> Blank(s[k])) && (n < |s| ==> !Blank(s[n]))
    ensures BlankRun(s) == n
  {
    BlankRunMeaning(s);
    assert BlankRun(s) >= n;
  }

  // Blanks, a b at i, blanks, an equals sign at j.
  ghost predicate BTagShape(s: string, i: nat, j: nat) {
    && i < j < |s| && s[i] == 'b' && s[j] == '='
    && (forall k :: 0 <= k < j && k != i ==> Blank(s[k]))
  }

  lemma BTagIs(s: string, i: nat, j: nat)
    requires BTagShape(s, i, j)
    ensures BTag(s) == j + 1
  {
    BlankRunIs(s, i);
    var rest := s[i + 1..];
    forall k | 0 <= k < j - i - 1 ensures Blank(rest[k]) { assert rest[k] == s[i + 1 + k]; }
    assert j < |s| && rest[j - i - 1] == s[j];
    BlankRunIs(rest, j - i - 1);
  }

  lemma BTagHas(s: string) returns (i: nat)
    requires BTag(s) > 0
    ensures BTagShape(s, i, BTag(s) - 1)
  {
    i := BlankRun(s);
    BlankRunMeaning(s);
    var rest := s[i + 1..];
    BlankRunMeaning(rest);
    forall k | 0 <= k < BTag(s) - 1 && k != i ensures Blank(s[k]) {
      if k > i { assert s[k] == rest[k - i - 1]; }
    }
  }

  // A match only looks at what it covers.
  lemma BTagPrefix(s: string, w: string)
    requires BTag(s) > 0
    ensures BTag(s[..BTag(s)] + w) == BTag(s)
  {
    var i := BTagHas(s);
    BTagIs(s[..BTag(s)] + w, i, BTag(s) - 1);
  }

  lemma BTagHasNoSemicolon(s: string)
    requires BTag(s) > 0
    ensures ';' !in s[..BTag(s)]
  {
    var i := BTagHas(s);
  }

  /** What is emptied is exactly the tag the parser calls "b", as long as its padding holds none of
      the two other blanks the parser also trims (vertical tab, form feed). */
  lemma StripsTheParsedTag(part: string)
    ensures var eq := Find(part, '=');
      (BTag(part) > 0 ==> BTag(part) == eq + 1) && (BTag(part) > 0 <==> eq < |part| && NamesB(part[..eq]))
  {
    if BTag(part) > 0 {
      BTagNamesB(part);
    } else if Find(part, '=') < |part| {
      NamedBIsBTag(part, Find(part, '='));
    }
  }

  lemma NamedBIsBTag(part: string, eq: nat)
    requires eq < |part| && eq == Find(part, '=')
    ensures NamesB(part[..eq]) ==> BTag(part) > 0
  {
    FindIsFirst(part, '=');
    if NamesB(part[..eq]) {
      NamedShape(part, part[..eq], eq);
    }
  }

  lemma NamedShape(part: string, key: string, eq: nat)
    requires eq < |part| && part[eq] == '=' && key == part[..eq] && NamesB(key)
    ensures BTag(part) > 0
  {
    var i := TrimIsB(key);
    forall k | 0 <= k < eq && k != i ensures Blank(part[k]) { assert Blank(key[k]); }
    BTagIs(part, i, eq);
  }

  predicate NamesB(key: string) {
    TrimSpace(key) == "b" && forall k :: 0 <= k < |key| ==> key[k] == 'b' || Blank(key[k])
  }

  lemma BTagNamesB(part: string)
    requires BTag(part) > 0
    ensures Find(part, '=') == BTag(part) - 1 && NamesB(part[..BTag(part) - 1])
  {
    var i := BTagHas(part);
    FindIs(part, '=', BTag(part) - 1);
    TrimToB(part[..BTag(part) - 1], i);
  }

  lemma TrimToB(s: string, i: nat)
    requires i < |s| && s[i] == 'b' && forall k :: 0 <= k < |s| && k != i ==> Blank(s[k])
    ensures TrimSpace(s) == "b"
  {
    var a, z := TrimSpaceIsSlice(s);
    LeftTrimTo(s, i);
    RightTrimTo(s[i..]);
  }

  lemma {:induction false} LeftTrimTo(s: string, i: nat)
    requires i < |s| && s[i] == 'b' && forall k :: 0 <= k < i ==> Blank(s[k])
    ensures TrimLeft(s, BLANKS) == s[i..]
  {
    if i > 0 {
      assert Blank(s[0]) && s[0] in BLANKS;
      LeftTrimTo(s[1..], i - 1);
    }
  }

  lemma {:induction false} RightTrimTo(s: string)
    requires s != [] && s[0] == 'b' && forall k :: 1 <= k < |s| ==> Blank(s[k])
    ensures TrimRight(s, BLANKS) == "b"
  {
    if |s| > 1 {
      assert Blank(s[|s| - 1]) && s[|s| - 1] in BLANKS;
      RightTrimTo(s[..|s| - 1]);
    } else {
      assert s == "b";
    }
  }

  lemma TrimIsB(s: string) returns (i: nat)
    requires TrimSpace(s) == "b" && forall k :: 0 <= k < |s| ==> s[k] == 'b' || Blank(s[k])
    ensures i < |s| && s[i] == 'b' && forall k :: 0 <= k < |s| && k != i ==> Blank(s[k])
  {
    i := TrimLeftIsSuffix(s, BLANKS);
    TrimLeftCuts(s);
    TrimRightCuts(s[i..]);
    assert s[i..][0] == 'b';
    forall k | 0 <= k < |s| && k != i ensures Blank(s[k]) {
      if k > i { assert s[k] == s[i..][k - i]; }
    }
  }

  lemma {:induction false} TrimLeftCuts(s: string)
    ensures forall k :: 0 <= k < |s| - |TrimLeft(s, BLANKS)| ==> s[k] in BLANKS
  {
    if s != [] && s[0] in BLANKS {
      TrimLeftCuts(s[1..]);
      forall k | 0 <= k < |s| - |TrimLeft(s, BLANKS)| ensures s[k] in BLANKS {
        if k > 0 { assert s[k] == s[1..][k - 1]; }
      }
    }
  }

  lemma {:induction false} TrimRightCuts(s: string)
    ensures |TrimRight(s, BLANKS)| <= |s| && TrimRight(s, BLANKS) <= s
    ensures forall k :: |TrimRight(s, BLANKS)| <= k < |s| ==> s[k] in BLANKS
  {
    if s != [] && s[|s| - 1] in BLANKS {
      TrimRightCuts(s[..|s| - 1]);
    }
  }

  // -------------------------------------------------------------- whole tag lists

  lemma FindIs(s: string, c: char, n: nat)
    requires n <= |s| && (forall k :: 0 <= k < n ==> s[k] != c) && (n < |s| ==> s[n] == c)
    ensures Find(s, c) == n
  {
    FindIsFirst(s, c);
    assert Find(s, c) >= n;
  }

  lemma StripPartTwice(part: string)
    ensures StripPart(StripPart(part)) == StripPart(part)
    ensures ';' !in part ==> ';' !in StripPart(part)
  {
    if BTag(part) > 0 {
      BTagPrefix(part, "");
      assert part[..BTag(part)] + "" == part[..BTag(part)];
    }
  }

  lemma SplitLast(part: string)
    requires ';' !in part
    ensures Split(part, ';') == [part]
  {
    FindIs(part, ';', |part|);
  }

  lemma SplitCons(part: string, rest: string)
    requires ';' !in part
    ensures Split(part + ";" + rest, ';') == [part] + Split(rest, ';')
  {
    var s := part + ";" + rest;
    FindIs(s, ';', |part|);
    assert s[..|part|] == part && s[|part| + 1..] == rest;
  }

  lemma FirstPart(s: string) returns (part: string, rest: string)
    ensures ';' !in part
    ensures if Find(s, ';') == |s| then s == part else s == part + ";" + rest && |rest| < |s|
  {
    var e := Find(s, ';');
    FindIsFirst(s, ';');
    part := s[..e];
    rest := if e < |s| then s[e + 1..] else "";
  }

  lemma {:induction false} SplitParts(s: string)
    ensures forall k :: 0 <= k < |Split(s, ';')| ==> ';' !in Split(s, ';')[k]
    decreases |s|
  {
    var part, rest := FirstPart(s);
    if Find(s, ';') == |s| {
      SplitLast(part);
    } else {
      SplitParts(rest);
      SplitCons(part, rest);
    }
  }

  lemma {:induction false} SplitConcat(a: string, b: string)
    ensures Split(a + ";" + b, ';') == Split(a, ';') + Split(b, ';')
    decreases |a|
  {
    var part, rest := FirstPart(a);
    if Find(a, ';') == |a| {
      SplitLast(part);
      SplitCons(part, b);
    } else {
      SplitConcat(rest, b);
      SplitConsTwice(part, rest, b);
    }
  }

  lemma SplitConsTwice(part: string, rest: string, b: string)
    requires ';' !in part && Split(rest + ";" + b, ';') == Split(rest, ';') + Split(b, ';')
    ensures Split((part + ";" + rest) + ";" + b, ';') == Split(part + ";" + rest, ';') + Split(b, ';')
  {
    assert (part + ";" + rest) + ";" + b == part + ";" + (rest + ";" + b);
    SplitCons(part, rest + ";" + b);
    SplitCons(part, rest);
  }

  lemma {:induction false} SplitJoin(parts: seq<string>)
    requires parts != [] && forall k :: 0 <= k < |parts| ==> ';' !in parts[k]
    ensures Split(Join(parts, ";"), ';') == parts
  {
    if |parts| == 1 {
      SplitLast(parts[0]);
    } else {
      SplitJoin(parts[1..]);
      SplitCons(parts[0], Join(parts[1..], ";"));
      assert parts == [parts[0]] + parts[1..];
    }
  }

  /** Tag by tag: a b= tag keeps what stands up to its equals sign, every other tag all its bytes. */
  lemma StripByTag(s: string)
    ensures Split(StripSignature(s), ';') == StripParts(Split(s, ';'))
  {
    var parts := Split(s, ';');
    SplitParts(s);
    forall k | 0 <= k < |parts| ensures ';' !in StripPart(parts[k]) { StripPartTwice(parts[k]); }
    SplitJoin(StripParts(parts));
  }

  lemma StripIdempotent(s: string)
    ensures StripSignature(StripSignature(s)) == StripSignature(s)
  {
    var parts := Split(s, ';');
    StripByTag(s);
    forall k | 0 <= k < |parts| ensures StripPart(StripPart(parts[k])) == StripPart(parts[k]) {
      StripPartTwice(parts[k]);
    }
    assert StripParts(StripParts(parts)) == StripParts(parts);
  }

  predicate Bounded(pre: string, post: string) {
    (pre == [] || pre[|pre| - 1] == ';') && (post == [] || post[0] == ';')
  }

  // The parts before and after the tag standing between pre and post.
  function Before(pre: string): seq<string> {
    if pre == [] then [] else Split(pre[..|pre| - 1], ';')
  }

  function After(post: string): seq<string> {
    if post == [] then [] else Split(post[1..], ';')
  }

  lemma SplitAround(pre: string, part: string, post: string)
    requires Bounded(pre, post) && ';' !in part
    ensures Split(pre + (part + post), ';') == Before(pre) + [part] + After(post)
  {
    SplitFollowed(part, post);
    if pre == [] {
      assert pre + (part + post) == part + post;
    } else {
      var a := pre[..|pre| - 1];
      SplitConcatOf(a, part + post, pre + (part + post));
    }
  }

  lemma SplitConcatOf(a: string, b: string, s: string)
    requires s == a + ";" + b
    ensures Split(s, ';') == Split(a, ';') + Split(b, ';')
  {
    SplitConcat(a, b);
  }

  lemma SplitFollowed(part: string, post: string)
    requires Bounded("", post) && ';' !in part
    ensures Split(part + post, ';') == [part] + After(post)
  {
    if post == [] {
      assert part + post == part;
      SplitLast(part);
    } else {
      assert part + post == part + ";" + post[1..];
      SplitCons(part, post[1..]);
    }
  }

  lemma EmptiedTag(tag: string, v: string)
    requires tag != [] && BTag(tag) == |tag| && ';' !in v
    ensures StripPart(tag + v) == tag && ';' !in tag + v
  {
    BTagHasNoSemicolon(tag);
    BTagPrefix(tag, v);
    assert tag[..|tag|] == tag && (tag + v)[..|tag|] == tag;
  }

  lemma StripPartsAround(a: seq<string>, part: string, b: seq<string>)
    ensures StripParts(a + [part] + b) == StripParts(a) + [StripPart(part)] + StripParts(b)
  {
  }

  lemma StripAround(pre: string, tag: string, v: string, post: string)
    requires Bounded(pre, post) && tag != [] && BTag(tag) == |tag| && ';' !in v
    ensures StripParts(Split(pre + ((tag + v) + post), ';')) ==
            StripParts(Before(pre)) + [tag] + StripParts(After(post))
  {
    EmptiedTag(tag, v);
    SplitAround(pre, tag + v, post);
    StripPartsAround(Before(pre), tag + v, After(post));
  }

  /** Every value of b=, folded or not, empties to the same field: the signer, who hashes the empty
      value, and the verifier agree. `pre` and `post` are the rest of the tag list, with the
      semicolons that bound the tag. */
  lemma ValueIrrelevant(pre: string, tag: string, v: string, w: string, post: string)
    requires Bounded(pre, post) && tag != [] && BTag(tag) == |tag| && ';' !in v && ';' !in w
    ensures StripSignature(pre + ((tag + v) + post)) == StripSignature(pre + ((tag + w) + post))
  {
    StripAround(pre, tag, v, post);
    StripAround(pre, tag, w, post);
  }

  // ------------------------------------------------------- the pattern, left to right

  // Replacing the pattern's matches as a scanner meets them. `boundary`: the tag boundary, the start
  // of the text or a semicolon, has just been passed. A match keeps its front and drops the rest of
  // the tag; elsewhere a character is copied.
  function ReplaceTags(s: string, boundary: bool): string
    decreases |s|
  {
    if s == [] then []
    else if boundary && BTag(s) > 0 then s[..BTag(s)] + ReplaceTags(s[Find(s, ';')..], false)
    else [s[0]] + ReplaceTags(s[1..], s[0] == ';')
  }

  lemma BTagEndsBefore(s: string, k: nat)
    requires k < |s| ==> s[k] == ';'
    ensures BTag(s) <= k
  {
    if BTag(s) > 0 { var i := BTagHas(s); }
  }

  // Whether the pattern matches is decided before the next semicolon.
  lemma BTagOfPart(part: string, rest: string)
    requires ';' !in part && (rest == [] || rest[0] == ';')
    ensures BTag(part + rest) == BTag(part)
  {
    var s := part + rest;
    if BTag(part) > 0 {
      var n := BTag(part);
      BTagPrefix(part, part[n..] + rest);
      assert part[..n] + (part[n..] + rest) == s;
    } else if BTag(s) > 0 {
      var i := BTagHas(s);
      var j := BTag(s) - 1;
      BTagEndsBefore(s, |part|);
      forall k | 0 <= k < j && k != i ensures Blank(part[k]) { assert s[k] == part[k]; }
      BTagIs(part, i, j);
    }
  }

  // Inside a tag everything is copied up to the next semicolon.
  lemma {:induction false} CopiedPart(part: string, rest: string)
    requires ';' !in part && (rest == [] || rest[0] == ';')
    ensures ReplaceTags(part + rest, false) == part + ReplaceTags(rest, false)
  {
    if part == [] {
      assert part + rest == rest;
    } else {
      assert part[0] in part;
      CopiedPart(part[1..], rest);
      assert (part + rest)[1..] == part[1..] + rest;
    }
  }

  lemma AtSemicolon(rest: string, boundary: bool)
    requires rest != [] && rest[0] == ';'
    ensures ReplaceTags(rest, boundary) == ";" + ReplaceTags(rest[1..], true)
  {
    BlankRunIs(rest, 0);
  }

  lemma ReplacedPart(part: string, rest: string)
    requires ';' !in part && (rest == [] || rest[0] == ';')
    ensures ReplaceTags(part + rest, true) == StripPart(part) + ReplaceTags(rest, false)
  {
    if BTag(part) > 0 {
      ReplacedTagPart(part, rest, part + rest);
    } else if part == [] {
      assert part + rest == rest;
      if rest != [] {
        AtSemicolon(rest, true);
        AtSemicolon(rest, false);
      }
    } else {
      CopiedTagPart(part, rest, part + rest);
    }
  }

  lemma ReplacedTagPart(part: string, rest: string, s: string)
    requires ';' !in part && (rest == [] || rest[0] == ';') && s == part + rest && BTag(part) > 0
    ensures ReplaceTags(s, true) == StripPart(part) + ReplaceTags(rest, false)
  {
    BTagOfPart(part, rest);
    assert forall k :: 0 <= k < |part| ==> s[k] == part[k] && part[k] in part;
    FindIs(s, ';', |part|);
    assert s[|part|..] == rest && s[..BTag(part)] == part[..BTag(part)];
  }

  lemma CopiedTagPart(part: string, rest: string, s: string)
    requires ';' !in part && (rest == [] || rest[0] == ';') && s == part + rest && BTag(part) == 0 && part != []
    ensures ReplaceTags(s, true) == part + ReplaceTags(rest, false)
  {
    BTagOfPart(part, rest);
    assert part[0] in part && s[1..] == part[1..] + rest;
    CopiedPart(part[1..], rest);
    assert [part[0]] + (part[1..] + ReplaceTags(rest, false)) == part + ReplaceTags(rest, false);
  }

  lemma StripCons(part: string, rest: string)
    requires ';' !in part
    ensures StripSignature(part + ";" + rest) == StripPart(part) + ";" + StripSignature(rest)
  {
    SplitCons(part, rest);
    var parts := StripParts([part] + Split(rest, ';'));
    assert parts[0] == StripPart(part) && parts[1..] == StripParts(Split(rest, ';'));
  }

  /** Matching the pattern from left to right empties the tags one by one: StripSignature is the
      replacement. */
  lemma {:induction false} PatternIsByTag(s: string)
    ensures ReplaceTags(s, true) == StripSignature(s)
    decreases |s|
  {
    var part, rest := FirstPart(s);
    if Find(s, ';') == |s| {
      ReplacedPart(part, "");
      SplitLast(part);
      assert part + "" == part && StripPart(part) + "" == StripPart(part);
    } else {
      PatternIsByTag(rest);
      OneMoreTag(part, rest, s);
    }
  }

  lemma OneMoreTag(part: string, rest: string, s: string)
    requires ';' !in part && s == part + ";" + rest && ReplaceTags(rest, true) == StripSignature(rest)
    ensures ReplaceTags(s, true) == StripSignature(s)
  {
    ReplacedTag(part, rest, s);
    StripCons(part, rest);
  }

  lemma ReplacedTag(part: string, rest: string, s: string)
    requires ';' !in part && s == part + ";" + rest
    ensures ReplaceTags(s, true) == StripPart(part) + ";" + ReplaceTags(rest, true)
  {
    var tail := ";" + rest;
    assert part + tail == s && tail[1..] == rest;
    ReplacedPart(part, tail);
    AtSemicolon(tail, false);
    JoinThree(StripPart(part), ReplaceTags(rest, true));
  }

  lemma JoinThree(a: string, b: string)
    ensures a + (";" + b) == a + ";" + b
  {
  }
}
