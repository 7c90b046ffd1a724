/** Semicolon-separated tag lists (pkg/authverify/dkim.go 614-664, 676-700), section 3.2 of RFC 6376. */
module TagList {
  import opened Text
  import opened Canonical
  import opened TagStrip

  type Tags = map<string, string>

  predicate IsTag(part: string) {
    Find(part, '=') < |part| && PartKey(part) != ""
  }

  function PartKey(part: string): string {
    TrimSpace(part[..Find(part, '=')])
  }

  function PartValue(part: string): string {
    if Find(part, '=') < |part| then TrimSpace(part[Find(part, '=') + 1..]) else ""
  }

  // The tags of the first n parts: lower-case names only, none twice.
  function StrictTags(parts: seq<string>, n: nat): Option<Tags>
    requires n <= |parts|
  {
    if n == 0 then Some(map[])
    else
      match StrictTags(parts, n - 1)
      case None => None
      case Some(tags) => StrictAdd(tags, parts[n - 1])
  }

  function StrictAdd(tags: Tags, part: string): Option<Tags> {
    var key := PartKey(part);
    if !IsTag(part) then Some(tags)
    else if key != Lower(key) || key in tags then None
    else Some(tags[key := PartValue(part)])
  }

  // The tags of the first n parts: the first of each name, whatever its case.
  function LenientTags(parts: seq<string>, n: nat): Tags
    requires n <= |parts|
  {
    if n == 0 then map[] else LenientAdd(LenientTags(parts, n - 1), parts[n - 1])
  }

  function LenientAdd(tags: Tags, part: string): Tags {
    var key := Lower(PartKey(part));
    if !IsTag(part) || key in tags then tags else tags[key := PartValue(part)]
  }

  function Strict(s: string): Option<Tags> {
    StrictTags(Split(s, ';'), |Split(s, ';')|)
  }

  function Lenient(s: string): Tags {
    LenientTags(Split(s, ';'), |Split(s, ';')|)
  }

  function Get(tags: Tags, key: string): string {
    if key in tags then tags[key] else ""
  }

  lemma {:induction false} RefusedStays(parts: seq<string>, n: nat, m: nat)
    requires n <= m <= |parts| && StrictTags(parts, n).None?
    ensures StrictTags(parts, m).None?
  {
    if n < m { RefusedStays(parts, n, m - 1); }
  }

  method ParseStrict(s: string) returns (r: Option<Tags>)
    ensures r == Strict(s)
  {
    var tags: Tags := map[];
    var parts := Split(s, ';');
    var i := 0;
    while i < |parts|
      invariant i <= |parts| && StrictTags(parts, i) == Some(tags)
    {
      var added := StrictAdd(tags, parts[i]);
      i := i + 1;
      if added.None? {
        RefusedStays(parts, i, |parts|);
        return None;
      }
      tags := added.value;
    }
    return Some(tags);
  }

  method ParseLenient(s: string) returns (tags: Tags)
    ensures tags == Lenient(s)
  {
    tags := map[];
    var parts := Split(s, ';');
    var i := 0;
    while i < |parts|
      invariant i <= |parts| && tags == LenientTags(parts, i)
    {
      var part := parts[i];
      i := i + 1;
      var eq := Find(part, '=');
      if eq == |part| { continue; }
      var key := Lower(TrimSpace(part[..eq]));
      if key == "" { continue; }
      if key in tags { continue; }
      tags := tags[key := TrimSpace(part[eq + 1..])];
    }
  }

  /** Where the strict parser accepts, the lenient one reads the same tags: no list is read one way
      for the chain's shape and another way for its signatures. */
  lemma {:induction false} ParsersAgree(parts: seq<string>, n: nat)
    requires n <= |parts| && StrictTags(parts, n).Some?
    ensures LenientTags(parts, n) == StrictTags(parts, n).value
  {
    if n > 0 { ParsersAgree(parts, n - 1); }
  }

  // ------------------------------------------------------- tags and the emptied b=

  function Emptied(tags: Option<Tags>): Option<Tags> {
    match tags
    case None => None
    case Some(t) => Some(if "b" in t then t["b" := ""] else t)
  }

  // No blank but space, tab, CR and LF around the name.
  predicate PlainPart(part: string) {
    forall k :: 0 <= k < Find(part, '=') ==> part[k] != '\U{0B}' && part[k] != '\U{0C}'
  }

  predicate IsB(part: string) {
    IsTag(part) && PartKey(part) == "b"
  }

  // Emptying leaves the part without a b, or with one that has no value.
  predicate Empties(part: string) {
    IsB(part) ==> PlainPart(part) || PartValue(part) == ""
  }

  lemma TrimmedOffIsBlank(s: string)
    requires TrimSpace(s) == "b" && forall k :: 0 <= k < |s| ==> s[k] != '\U{0B}' && s[k] != '\U{0C}'
    ensures NamesB(s)
  {
    var t := TrimLeft(s, BLANKS);
    var i := TrimLeftIsSuffix(s, BLANKS);
    TrimLeftCuts(s);
    TrimRightCuts(t);
    forall k | 0 <= k < |s| ensures s[k] == 'b' || Blank(s[k]) {
      if k > i { assert t[k - i] == s[k]; }
      if k == i { assert t[0] == "b"[0]; }
    }
  }

  // The same tag, but that b has no value.
  ghost predicate SameButB(part: string, stripped: string) {
    && IsTag(stripped) == IsTag(part)
    && (IsTag(part) ==>
          PartKey(stripped) == PartKey(part) &&
          PartValue(stripped) == if PartKey(part) == "b" then "" else PartValue(part))
  }

  lemma StrippedPart(part: string)
    ensures IsTag(StripPart(part)) == IsTag(part) && (IsTag(part) ==> PartKey(StripPart(part)) == PartKey(part))
    ensures SameButB(part, StripPart(part)) <==> Empties(part)
    ensures !Empties(part) ==> PartValue(StripPart(part)) != ""
  {
    var eq := Find(part, '=');
    StripsTheParsedTag(part);
    if BTag(part) > 0 {
      FindIsFirst(part, '=');
      FindIs(part[..eq + 1], '=', eq);
      assert part[..eq + 1][..eq] == part[..eq];
      assert part[..eq + 1][eq + 1..] == "";
      PlainWhenCut(part);
    } else if IsB(part) && PlainPart(part) {
      TrimmedOffIsBlank(part[..eq]);
    }
  }

  lemma PlainWhenCut(part: string)
    requires NamesB(part[..Find(part, '=')])
    ensures PlainPart(part)
  {
    var key := part[..Find(part, '=')];
    forall k | 0 <= k < |key| ensures part[k] != '\U{0B}' && part[k] != '\U{0C}' {
      assert part[k] == key[k];
    }
  }

  /** The signature field as hashed says what the field says, with b= empty, and no more: for a list
      that parses, exactly when every b is padded plainly or has no value to begin with. A list
      that does not parse still does not. */
  lemma StripKeepsTags(parts: seq<string>)
    ensures var n := |parts|;
      StrictTags(StripParts(parts), n) == Emptied(StrictTags(parts, n)) <==>
      (StrictTags(parts, n).None? || forall k :: 0 <= k < n ==> Empties(parts[k]))
  {
    var stripped, n := StripParts(parts), |parts|;
    forall k | 0 <= k < n
      ensures SameTag(parts[k], stripped[k]) && (SameButB(parts[k], stripped[k]) <==> Empties(parts[k]))
    {
      StrippedPart(parts[k]);
    }
    SameNames(parts, stripped, n);
    if forall k :: 0 <= k < n ==> Empties(parts[k]) {
      forall k | 0 <= k < n ensures EmptiedAt(parts, stripped, k) { EmptiedNext(parts, stripped, k); }
      EmptiedTags(parts, stripped, n);
    } else if StrictTags(parts, n).Some? {
      var k :| 0 <= k < n && !Empties(parts[k]);
      StrippedPart(parts[k]);
      TagIsRead(stripped, n, k);
    }
  }

  predicate SameTag(part: string, stripped: string) {
    IsTag(stripped) == IsTag(part) && (IsTag(part) ==> PartKey(stripped) == PartKey(part))
  }

  lemma {:induction false} SameNames(parts: seq<string>, stripped: seq<string>, n: nat)
    requires n <= |parts| == |stripped| && forall k :: 0 <= k < |parts| ==> SameTag(parts[k], stripped[k])
    ensures StrictTags(stripped, n).Some? == StrictTags(parts, n).Some?
    ensures StrictTags(parts, n).Some? ==> StrictTags(stripped, n).value.Keys == StrictTags(parts, n).value.Keys
  {
    if n > 0 { SameNames(parts, stripped, n - 1); }
  }

  lemma {:induction false} TagIsRead(parts: seq<string>, n: nat, k: nat)
    requires k < n <= |parts| && StrictTags(parts, n).Some? && IsTag(parts[k])
    ensures Get(StrictTags(parts, n).value, PartKey(parts[k])) == PartValue(parts[k])
    ensures PartKey(parts[k]) in StrictTags(parts, n).value
  {
    if k < n - 1 { TagIsRead(parts, n - 1, k); }
  }

  lemma {:induction false} EmptiedTags(parts: seq<string>, stripped: seq<string>, n: nat)
    requires n <= |parts| == |stripped| && forall k :: 0 <= k < n ==> EmptiedAt(parts, stripped, k)
    ensures StrictTags(stripped, n) == Emptied(StrictTags(parts, n))
  {
    if n > 0 {
      EmptiedTags(parts, stripped, n - 1);
      assert EmptiedAt(parts, stripped, n - 1);
    }
  }

  // Tags that match but for b still do after part k.
  ghost predicate EmptiedAt(parts: seq<string>, stripped: seq<string>, k: nat)
    requires k < |parts| == |stripped|
  {
    StrictTags(stripped, k) == Emptied(StrictTags(parts, k)) ==>
      StrictTags(stripped, k + 1) == Emptied(StrictTags(parts, k + 1))
  }

  lemma EmptiedNext(parts: seq<string>, stripped: seq<string>, k: nat)
    requires k < |parts| == |stripped| && SameButB(parts[k], stripped[k])
    ensures EmptiedAt(parts, stripped, k)
  {
    var before := StrictTags(parts, k);
    if before.Some? && StrictTags(stripped, k) == Emptied(before) {
      EmptiedAdd(before.value, parts[k], stripped[k]);
    }
  }

  lemma EmptiedAdd(tags: Tags, part: string, stripped: string)
    requires SameButB(part, stripped)
    ensures StrictAdd(Emptied(Some(tags)).value, stripped) == Emptied(StrictAdd(tags, part))
  {
    var key, v := PartKey(part), PartValue(part);
    if IsTag(part) && key == "b" {
      assert tags["b" := v]["b" := ""] == tags["b" := ""];
    } else if IsTag(part) {
      assert tags["b" := ""][key := v] == tags[key := v]["b" := ""];
    }
  }

  /** A vertical tab before the name is enough to make the two disagree. */
  lemma PaddedBIsKept() returns (s: string)
    ensures Strict(s) == Some(map["b" := "x"]) && StripSignature(s) == s
  {
    s := "\U{0B}b=x";
    assert s[0] == '\U{0B}' && s[1] == 'b' && s[2] == '=' && s[3] == 'x';
    FindIs(s, ';', |s|);
    FindIs(s, '=', 2);
    assert Split(s, ';') == [s];
    PaddedKey(s[..2]);
    assert s[3..] == "x" && s[..|s|] == s;
    assert StripParts([s]) == [s];
    assert StrictTags([s], 0) == Some(map[]);
  }

  lemma PaddedKey(s: string)
    requires s == "\U{0B}b"
    ensures TrimSpace(s) == "b" && Lower("b") == "b" && TrimSpace("x") == "x"
  {
    assert s[0] in BLANKS && s[1..] == "b";
    assert TrimLeft("b", BLANKS) == "b";
  }

  // ------------------------------------------------------------------- name lists

  function NonEmpty(parts: seq<string>, n: nat): seq<string>
    requires n <= |parts|
  {
    if n == 0 then []
    else NonEmpty(parts, n - 1) + if TrimSpace(parts[n - 1]) != "" then [TrimSpace(parts[n - 1])] else []
  }

  function HeaderNames(s: string): seq<string> {
    NonEmpty(Split(s, ':'), |Split(s, ':')|)
  }

  method SplitHeaderList(s: string) returns (names: seq<string>)
    ensures names == HeaderNames(s)
  {
    names := [];
    var parts := Split(s, ':');
    var i := 0;
    while i < |parts|
      invariant i <= |parts| && names == NonEmpty(parts, i)
    {
      var name := TrimSpace(parts[i]);
      if name != "" {
        names := names + [name];
      }
      i := i + 1;
    }
  }

  function NoBlanks(s: string): string {
    if s == "" then "" else (if Blank(s[0]) then "" else [s[0]]) + NoBlanks(s[1..])
  }
}
