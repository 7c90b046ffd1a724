/** Tag lists from their text (section 3.2 of RFC 6376): what one part says, and what the strict
    parser makes of them all. */
module TagRules {
  import opened Text
  import opened Canonical
  import opened TagStrip
  import opened TagList
  import TextRules

  predicate PlainKey(key: string) {
    key != "" && '=' !in key && key[0] !in BLANKS && key[|key| - 1] !in BLANKS
  }

  predicate Blanks(s: string) {
    forall k :: 0 <= k < |s| ==> s[k] in BLANKS
  }

  lemma {:induction false} TrimLeftGap(a: string, s: string)
    requires Blanks(a) && (s == "" || s[0] !in BLANKS)
    ensures TrimLeft(a + s, BLANKS) == s
  {
    if a == "" {
      assert a + s == s;
    } else {
      assert (a + s)[1..] == a[1..] + s;
      TrimLeftGap(a[1..], s);
    }
  }

  lemma {:induction false} TrimRightGap(s: string, b: string)
    requires Blanks(b) && (s == "" || s[|s| - 1] !in BLANKS)
    ensures TrimRight(s + b, BLANKS) == s
    decreases |b|
  {
    if b == "" {
      assert s + b == s;
    } else {
      var t := s + b;
      assert t[..|t| - 1] == s + b[..|b| - 1];
      TrimRightGap(s, b[..|b| - 1]);
    }
  }

  lemma PaddedKey(a: string, key: string, b: string)
    requires Blanks(a) && Blanks(b) && PlainKey(key)
    ensures TrimSpace(a + key + b) == key
  {
    assert a + key + b == a + (key + b) && (key + b)[0] == key[0];
    TrimLeftGap(a, key + b);
    TrimRightGap(key, b);
  }

  /** A part is a name, padded at will, an equals sign and a value, whose own padding goes. */
  lemma PartMeaning(a: string, key: string, b: string, value: string)
    requires Blanks(a) && Blanks(b) && PlainKey(key)
    ensures var part := a + key + b + "=" + value;
      IsTag(part) && PartKey(part) == key && PartValue(part) == TrimSpace(value)
  {
    var name := a + key + b;
    var part := name + "=" + value;
    assert part == a + key + b + "=" + value;
    NoEquals(a, key, b);
    FindIs(part, '=', |name|);
    assert part[..|name|] == name && part[|name| + 1..] == value;
    PaddedKey(a, key, b);
  }

  lemma NoEquals(a: string, key: string, b: string)
    requires Blanks(a) && Blanks(b) && PlainKey(key)
    ensures forall k :: 0 <= k < |a + key + b| ==> (a + key + b)[k] != '='
  {
    var s := a + key + b;
    TextRules.SixBlanks('=');
    forall k | 0 <= k < |s| ensures s[k] != '=' {
      if k < |a| { assert s[k] == a[k]; }
      else if k < |a| + |key| { assert s[k] == key[k - |a|]; }
      else { assert s[k] == b[k - |a| - |key|]; }
    }
  }

  /** Without an equals sign, or without a name before it, a part says nothing. */
  lemma NoPart(part: string, gap: string)
    requires '=' !in part && Blanks(gap)
    ensures !IsTag(part) && !IsTag(gap + "=" + part)
  {
    FindIs(part, '=', |part|);
    var s := gap + "=" + part;
    TextRules.SixBlanks('=');
    FindIs(s, '=', |gap|);
    assert s[..|gap|] == gap;
    TrimLeftGap(gap, "");
    assert gap + "" == gap;
  }

  predicate LowerCase(part: string) {
    IsTag(part) ==> Lower(PartKey(part)) == PartKey(part)
  }

  predicate SameKey(a: string, b: string) {
    IsTag(a) && IsTag(b) && PartKey(a) == PartKey(b)
  }

  predicate Distinct(parts: seq<string>, n: nat)
    requires n <= |parts|
  {
    forall i, j :: 0 <= i < j < n ==> !SameKey(parts[i], parts[j])
  }

  predicate AllLower(parts: seq<string>, n: nat)
    requires n <= |parts|
  {
    forall i :: 0 <= i < n ==> LowerCase(parts[i])
  }

  function KeyOf(part: string): set<string> {
    if IsTag(part) then {PartKey(part)} else {}
  }

  function KeysOf(parts: seq<string>, n: nat): set<string>
    requires n <= |parts|
  {
    set j | 0 <= j < n && IsTag(parts[j]) :: PartKey(parts[j])
  }

  lemma KeysNext(parts: seq<string>, n: nat)
    requires 0 < n <= |parts|
    ensures KeysOf(parts, n) == KeysOf(parts, n - 1) + KeyOf(parts[n - 1])
  {
  }

  lemma DistinctNext(parts: seq<string>, n: nat)
    requires 0 < n <= |parts|
    ensures Distinct(parts, n) <==> Distinct(parts, n - 1) && KeyOf(parts[n - 1]) !! KeysOf(parts, n - 1)
  {
    var last := parts[n - 1];
    if Distinct(parts, n - 1) && KeyOf(last) !! KeysOf(parts, n - 1) {
      forall i | 0 <= i < n - 1 ensures !SameKey(parts[i], last) {
        assert IsTag(parts[i]) ==> PartKey(parts[i]) in KeysOf(parts, n - 1);
      }
    }
  }

  lemma {:induction false} KeysRead(parts: seq<string>, n: nat)
    requires n <= |parts| && StrictTags(parts, n).Some?
    ensures StrictTags(parts, n).value.Keys == KeysOf(parts, n)
  {
    if n > 0 {
      KeysRead(parts, n - 1);
      KeysNext(parts, n);
      KeysAdd(StrictTags(parts, n - 1).value, parts[n - 1]);
    }
  }

  lemma KeysAdd(tags: Tags, part: string)
    ensures StrictAdd(tags, part).Some? <==> LowerCase(part) && KeyOf(part) !! tags.Keys
    ensures StrictAdd(tags, part).Some? ==> StrictAdd(tags, part).value.Keys == tags.Keys + KeyOf(part)
  {
  }

  lemma LowerNext(parts: seq<string>, n: nat)
    requires 0 < n <= |parts|
    ensures AllLower(parts, n) <==> AllLower(parts, n - 1) && LowerCase(parts[n - 1])
  {
  }

  lemma {:induction false} StrictTakes(parts: seq<string>, n: nat)
    requires n <= |parts|
    ensures StrictTags(parts, n).Some? <==> AllLower(parts, n) && Distinct(parts, n)
  {
    if n > 0 {
      StrictTakes(parts, n - 1);
      DistinctNext(parts, n);
      LowerNext(parts, n);
      if StrictTags(parts, n - 1).Some? {
        KeysRead(parts, n - 1);
        KeysAdd(StrictTags(parts, n - 1).value, parts[n - 1]);
      }
    }
  }

  /** The strict parser takes a list exactly when its names are in lower case and none comes twice;
      then it reads every tag with its own value, and no other. */
  lemma StrictExactly(parts: seq<string>, n: nat)
    requires n <= |parts|
    ensures StrictTags(parts, n).Some? <==> AllLower(parts, n) && Distinct(parts, n)
    ensures StrictTags(parts, n).Some? ==>
      && StrictTags(parts, n).value.Keys == KeysOf(parts, n)
      && forall j :: 0 <= j < n && IsTag(parts[j]) ==> ReadAs(StrictTags(parts, n).value, parts[j])
  {
    StrictTakes(parts, n);
    if StrictTags(parts, n).Some? {
      KeysRead(parts, n);
      forall j | 0 <= j < n && IsTag(parts[j]) ensures ReadAs(StrictTags(parts, n).value, parts[j]) {
        TagRead(parts, n, j);
      }
    }
  }

  lemma TagRead(parts: seq<string>, n: nat, j: nat)
    requires j < n <= |parts| && StrictTags(parts, n).Some? && IsTag(parts[j])
    ensures ReadAs(StrictTags(parts, n).value, parts[j])
  {
    TagIsRead(parts, n, j);
  }

  // The tag is in, with its value.
  predicate ReadAs(tags: Tags, part: string) {
    PartKey(part) in tags && tags[PartKey(part)] == PartValue(part)
  }

  lemma {:induction false} NoBlanksConcat(a: string, b: string)
    ensures NoBlanks(a + b) == NoBlanks(a) + NoBlanks(b)
  {
    if a == "" {
      assert a + b == b;
    } else {
      NoBlanksConcat(a[1..], b);
      assert (a + b)[1..] == a[1..] + b;
    }
  }

  /** Folding inside a value does not matter once its blanks are dropped. */
  lemma NoBlanksMeaning(a: string, c: char, b: string)
    ensures NoBlanks(a + [c] + b) ==
            NoBlanks(a) + (if c == ' ' || c == '\t' || c == '\r' || c == '\n' then "" else [c]) + NoBlanks(b)
  {
    NoBlanksConcat(a + [c], b);
    NoBlanksConcat(a, [c]);
    assert NoBlanks([c][1..]) == "";
  }
}
