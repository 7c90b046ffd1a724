/** ASCII text helpers shared by the models: the parts of the source's string
    library that the modelled code relies on. Octets are written as characters. */
module Text {
  const CRLF := "\r\n"
  const BLANKS := " \t\n\r\U{0B}\U{0C}"

  datatype Option<+T> = None | Some(value: T)

  function LowerChar(c: char): (r: char)
    ensures r == c || ('A' <= c <= 'Z' && 'a' <= r <= 'z')
    ensures !('A' <= r <= 'Z')
  {
    if 'A' <= c <= 'Z' then (c as int + 32) as char else c
  }

  function Lower(s: string): (r: string)
    ensures |r| == |s|
  {
    seq(|s|, k requires 0 <= k < |s| => LowerChar(s[k]))
  }

  predicate EqualFold(a: string, b: string) {
    Lower(a) == Lower(b)
  }

  function TrimLeft(s: string, cut: string): string {
    if s != [] && s[0] in cut then TrimLeft(s[1..], cut) else s
  }

  function TrimRight(s: string, cut: string): (r: string)
    ensures |r| <= |s|
  {
    if s != [] && s[|s| - 1] in cut then TrimRight(s[..|s| - 1], cut) else s
  }

  function TrimSpace(s: string): string {
    TrimRight(TrimLeft(s, BLANKS), BLANKS)
  }

  predicate HasPrefix(s: string, p: string) {
    p <= s
  }

  predicate HasSuffix(s: string, p: string) {
    |p| <= |s| && s[|s| - |p|..] == p
  }

  // HasSuffix(s, CRLF).
  predicate EndsCRLF(s: string) {
    |s| >= 2 && s[|s| - 2] == '\r' && s[|s| - 1] == '\n'
  }

  function TrimSuffix(s: string, p: string): string {
    if HasSuffix(s, p) then s[..|s| - |p|] else s
  }

  /** The first position of `c`, or |s| when it does not occur. */
  function Find(s: string, c: char): (i: nat)
    ensures i <= |s|
  {
    if s == [] || s[0] == c then 0 else 1 + Find(s[1..], c)
  }

  lemma {:induction false} FindIsFirst(s: string, c: char)
    ensures forall k :: 0 <= k < Find(s, c) ==> s[k] != c
    ensures Find(s, c) < |s| ==> s[Find(s, c)] == c
  {
    if s != [] && s[0] != c {
      FindIsFirst(s[1..], c);
      forall k | 0 <= k < Find(s, c) ensures s[k] != c {
        if k > 0 { assert s[k] == s[1..][k - 1]; }
      }
    }
  }

  /** The last position of `c`, or |s| when it does not occur. */
  function FindLast(s: string, c: char): (i: nat)
    ensures i <= |s|
    ensures i < |s| ==> s[i] == c && c !in s[i + 1..]
    ensures i == |s| ==> c !in s
  {
    if c !in s then |s|
    else if s[|s| - 1] == c then |s| - 1
    else FindLast(s[..|s| - 1], c)
  }

  function TokenLength(s: string, seps: string): (n: nat)
    ensures n <= |s|
  {
    if s == [] || s[0] in seps then 0 else 1 + TokenLength(s[1..], seps)
  }

  lemma {:induction false} TokenEnds(s: string, seps: string)
    ensures forall k :: 0 <= k < TokenLength(s, seps) ==> s[k] !in seps
    ensures TokenLength(s, seps) < |s| ==> s[TokenLength(s, seps)] in seps
  {
    if s != [] && s[0] !in seps {
      TokenEnds(s[1..], seps);
    }
  }

  /** Maximal runs of characters outside `seps`. */
  function FieldsBy(s: string, seps: string): seq<string>
    decreases |s|
  {
    if s == [] then []
    else if s[0] in seps then FieldsBy(s[1..], seps)
    else
      var n := TokenLength(s, seps);
      [s[..n]] + FieldsBy(s[n..], seps)
  }

  lemma {:induction false} FieldsAreTokens(s: string, seps: string)
    ensures forall f | f in FieldsBy(s, seps) :: f != [] && forall c | c in f :: c !in seps
    decreases |s|
  {
    if s != [] && s[0] in seps {
      FieldsAreTokens(s[1..], seps);
    } else if s != [] {
      TokenEnds(s, seps);
      FieldsAreTokens(s[TokenLength(s, seps)..], seps);
    }
  }

  function Fields(s: string): seq<string> {
    FieldsBy(s, BLANKS)
  }

  function Join(parts: seq<string>, sep: string): string {
    if parts == [] then ""
    else if |parts| == 1 then parts[0]
    else parts[0] + sep + Join(parts[1..], sep)
  }

  function Reverse<T>(s: seq<T>): (r: seq<T>)
    ensures |r| == |s|
    ensures forall k :: 0 <= k < |s| ==> r[k] == s[|s| - 1 - k]
  {
    if s == [] then [] else Reverse(s[1..]) + [s[0]]
  }

  /** strings.Split with a one-character separator: always at least one part. */
  function Split(s: string, sep: char): (parts: seq<string>)
    ensures parts != []
    decreases |s|
  {
    var n := Find(s, sep);
    if n == |s| then [s] else [s[..n]] + Split(s[n + 1..], sep)
  }
}
