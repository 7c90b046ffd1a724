/** The typo distance behind looks-alike detection (pkg/rules/domain.go).
    `Dist` is the textbook recurrence; `Levenshtein` is the swapped two-row table.
    The meaning of the number is given independently, by walks of single edits. */
module EditDistance {
  import opened Text

  function Min(a: nat, b: nat): nat {
    if a < b then a else b
  }

  function Init<T>(s: seq<T>): seq<T>
    requires s != []
  {
    s[..|s| - 1]
  }

  function Cost(a: char, b: char): nat {
    if a == b then 0 else 1
  }

  // The edit-distance recurrence, peeling last characters.
  function Dist(a: string, b: string): nat
    decreases |a| + |b|
  {
    if a == [] then |b|
    else if b == [] then |a|
    else
      Min(Dist(a, Init(b)) + 1,
          Min(Dist(Init(a), b) + 1, Dist(Init(a), Init(b)) + Cost(a[|a| - 1], b[|b| - 1])))
  }

  // ---------------------------------------------------------------- the table

  // Row i of the table from row i - 1.
  ghost predicate IsRow(row: seq<nat>, a: string, b: string) {
    |row| == |b| + 1 && forall k :: 0 <= k <= |b| ==> row[k] == Dist(a, b[..k])
  }

  lemma CellStep(a: string, b: string, i: nat, j: nat)
    requires 0 < i <= |a| && 0 < j <= |b|
    ensures Dist(a[..i], b[..j]) ==
      Min(Dist(a[..i], b[..j - 1]) + 1,
          Min(Dist(a[..i - 1], b[..j]) + 1, Dist(a[..i - 1], b[..j - 1]) + Cost(a[i - 1], b[j - 1])))
  {
    assert Init(a[..i]) == a[..i - 1] && Init(b[..j]) == b[..j - 1];
  }

  method FillRow(a: string, b: string, i: nat, prev: array<nat>, cur: array<nat>)
    requires 0 < i <= |a|
    requires prev != cur && prev.Length == cur.Length == |b| + 1
    requires IsRow(prev[..], a[..i - 1], b)
    modifies cur
    ensures IsRow(cur[..], a[..i], b)
  {
    cur[0] := i;
    for j := 1 to |b| + 1
      invariant prev[..] == old(prev[..])
      invariant forall k :: 0 <= k < j ==> cur[k] == Dist(a[..i], b[..k])
    {
      CellStep(a, b, i, j);
      assert prev[..][j] == Dist(a[..i - 1], b[..j]) && prev[..][j - 1] == Dist(a[..i - 1], b[..j - 1]);
      cur[j] := Min(cur[j - 1] + 1, Min(prev[j] + 1, prev[j - 1] + Cost(a[i - 1], b[j - 1])));
    }
  }

  method Levenshtein(a: string, b: string) returns (d: nat)
    ensures d == Dist(a, b)
  {
    if |a| == 0 { return |b|; }
    if |b| == 0 { return |a|; }
    var prev := new nat[|b| + 1];
    var cur := new nat[|b| + 1];
    for j := 0 to |b| + 1
      invariant forall k :: 0 <= k < j ==> prev[k] == k
    {
      prev[j] := j;
    }
    for i := 1 to |a| + 1
      invariant prev != cur && prev.Length == cur.Length == |b| + 1
      invariant fresh(prev) && fresh(cur)
      invariant IsRow(prev[..], a[..i - 1], b)
    {
      FillRow(a, b, i, prev, cur);
      prev, cur := cur, prev;
    }
    assert a[..|a|] == a && b[..|b|] == b;
    d := prev[|b|];
  }

  // ---------------------------------------------------------- metric properties

  lemma {:induction false} DistSymmetric(a: string, b: string)
    ensures Dist(a, b) == Dist(b, a)
    decreases |a| + |b|
  {
    if a != [] && b != [] {
      DistSymmetric(a, Init(b));
      DistSymmetric(Init(a), b);
      DistSymmetric(Init(a), Init(b));
    }
  }

  lemma {:induction false} DistBounds(a: string, b: string)
    ensures Dist(a, b) >= |a| - |b| && Dist(a, b) >= |b| - |a|
    ensures Dist(a, b) <= |a| || Dist(a, b) <= |b|
    decreases |a| + |b|
  {
    if a != [] && b != [] {
      DistBounds(a, Init(b));
      DistBounds(Init(a), b);
      DistBounds(Init(a), Init(b));
    }
  }

  lemma {:induction false} DistZeroIffEqual(a: string, b: string)
    ensures Dist(a, b) == 0 <==> a == b
    decreases |a| + |b|
  {
    if a != [] && b != [] {
      DistZeroIffEqual(Init(a), Init(b));
      assert a == Init(a) + [a[|a| - 1]] && b == Init(b) + [b[|b| - 1]];
    }
  }

  lemma {:induction false} DistTriangle(a: string, b: string, c: string)
    ensures Dist(a, c) <= Dist(a, b) + Dist(b, c)
    decreases |a| + |b| + |c|
  {
    if a == [] || b == [] || c == [] {
      DistBounds(a, b);
      DistBounds(b, c);
      DistBounds(a, c);
    } else {
      var a', b', c' := Init(a), Init(b), Init(c);
      DistTriangle(a', b, c);
      DistTriangle(a, b, c');
      DistTriangle(a, b', c);
      DistTriangle(a, b', c');
      DistTriangle(a', b', c);
      DistTriangle(a', b', c');
    }
  }

  // ------------------------------------------- the meaning: walks of single edits

  // One insertion, deletion or substitution at position i.
  ghost predicate EditAt(s: string, t: string, i: nat, x: char) {
    || (i <= |s| && t == s[..i] + [x] + s[i..])
    || (i < |s| && t == s[..i] + s[i + 1..])
    || (i < |s| && t == s[..i] + [x] + s[i + 1..])
  }

  ghost predicate OneEdit(s: string, t: string) {
    exists i: nat, x: char :: EditAt(s, t, i, x)
  }

  ghost predicate Walk(p: seq<string>) {
    p != [] && forall k :: 0 < k < |p| ==> OneEdit(p[k - 1], p[k])
  }

  ghost predicate WalkFromTo(p: seq<string>, a: string, b: string) {
    Walk(p) && p[0] == a && p[|p| - 1] == b
  }

  lemma DistSnoc(a: string, b: string, x: char)
    ensures Dist(a + [x], b + [x]) <= Dist(a, b)
  {
    assert Init(a + [x]) == a && Init(b + [x]) == b;
  }

  lemma {:induction false} DistSuffix(a: string, b: string, s: string)
    ensures Dist(a + s, b + s) <= Dist(a, b)
    decreases |s|
  {
    if s == [] {
      assert a + s == a && b + s == b;
    } else {
      var s', x := Init(s), s[|s| - 1];
      assert s == s' + [x];
      assert a + s == (a + s') + [x] && b + s == (b + s') + [x];
      DistSuffix(a, b, s');
      DistSnoc(a + s', b + s', x);
    }
  }

  lemma SelfDist(a: string)
    ensures Dist(a, a) == 0
  {
    DistZeroIffEqual(a, a);
  }

  lemma InsertDist(p: string, x: char, s: string)
    ensures Dist(p + s, p + [x] + s) <= 1
    ensures Dist(p + [x] + s, p + s) <= 1
  {
    assert Init(p + [x]) == p;
    SelfDist(p);
    DistSuffix(p, p + [x], s);
    DistSuffix(p + [x], p, s);
  }

  lemma SubstituteDist(p: string, x: char, y: char, s: string)
    ensures Dist(p + [x] + s, p + [y] + s) <= 1
  {
    assert Init(p + [x]) == p == Init(p + [y]);
    SelfDist(p);
    DistSuffix(p + [x], p + [y], s);
  }

  lemma OneEditDist(s: string, t: string)
    requires OneEdit(s, t)
    ensures Dist(s, t) <= 1
  {
    var i: nat, x: char :| EditAt(s, t, i, x);
    if i <= |s| && t == s[..i] + [x] + s[i..] {
      InsertDist(s[..i], x, s[i..]);
      assert s == s[..i] + s[i..];
    } else {
      assert s == s[..i] + [s[i]] + s[i + 1..];
      InsertDist(s[..i], s[i], s[i + 1..]);
      SubstituteDist(s[..i], s[i], x, s[i + 1..]);
    }
  }

  // No walk is shorter than the distance ...
  lemma {:induction false} WalkNotShorter(p: seq<string>)
    requires Walk(p)
    ensures Dist(p[0], p[|p| - 1]) <= |p| - 1
    decreases |p|
  {
    if |p| == 1 {
      DistZeroIffEqual(p[0], p[0]);
    } else {
      assert OneEdit(p[1 - 1], p[1]);
      forall k | 0 < k < |p[1..]| ensures OneEdit(p[1..][k - 1], p[1..][k]) {
        assert p[1..][k] == p[k + 1] && OneEdit(p[k + 1 - 1], p[k + 1]);
      }
      WalkNotShorter(p[1..]);
      OneEditDist(p[0], p[1]);
      DistTriangle(p[0], p[1], p[|p| - 1]);
    }
  }

  lemma WalkExtend(p: seq<string>, t: string)
    requires Walk(p) && OneEdit(p[|p| - 1], t)
    ensures Walk(p + [t])
  {
    var q := p + [t];
    forall k | 0 < k < |q| ensures OneEdit(q[k - 1], q[k]) {
      if k < |p| { assert q[k] == p[k]; }
    }
  }

  // Appending one character to every string of a walk keeps it a walk.
  lemma WalkSnoc(p: seq<string>, x: char) returns (q: seq<string>)
    requires Walk(p)
    ensures Walk(q) && |q| == |p| && q[0] == p[0] + [x] && q[|q| - 1] == p[|p| - 1] + [x]
  {
    q := seq(|p|, k requires 0 <= k < |p| => p[k] + [x]);
    forall k | 0 < k < |q| ensures OneEdit(q[k - 1], q[k]) {
      assert OneEdit(p[k - 1], p[k]);
      var i: nat, y: char :| EditAt(p[k - 1], p[k], i, y);
      EditSnoc(p[k - 1], p[k], i, y, x);
    }
  }

  lemma EditSnoc(s: string, t: string, i: nat, y: char, x: char)
    requires EditAt(s, t, i, y)
    ensures EditAt(s + [x], t + [x], i, y)
  {
    var s' := s + [x];
    assert s'[..i] == s[..i] && s'[i..] == s[i..] + [x];
    assert i < |s| ==> s'[i + 1..] == s[i + 1..] + [x];
  }

  lemma WalkPrepend(p: seq<string>, a: string)
    requires Walk(p) && OneEdit(a, p[0])
    ensures Walk([a] + p)
  {
    var q := [a] + p;
    forall k | 0 < k < |q| ensures OneEdit(q[k - 1], q[k]) {
      if k > 1 { assert q[k] == p[k - 1] && OneEdit(p[k - 1 - 1], p[k - 1]); }
    }
  }

  lemma LastEdits(a: string, x: char)
    requires a != []
    ensures OneEdit(Init(a), a) && OneEdit(a, Init(a)) && OneEdit(Init(a) + [x], a)
  {
    var n := |a| - 1;
    assert a == Init(a)[..n] + [a[n]] + Init(a)[n..];
    assert EditAt(Init(a), a, n, a[n]);
    assert EditAt(a, Init(a), n, a[n]);
    assert (Init(a) + [x])[..n] == Init(a);
    assert EditAt(Init(a) + [x], a, n, a[n]);
  }

  // ... and a walk of exactly that length exists.
  lemma {:induction false} WalkAttained(a: string, b: string) returns (p: seq<string>)
    ensures WalkFromTo(p, a, b) && |p| == Dist(a, b) + 1
    decreases |a| + |b|
  {
    if a == [] && b == [] {
      p := [a];
    } else if a == [] || (b != [] && Dist(a, b) == Dist(a, Init(b)) + 1) {
      p := WalkAttained(a, Init(b));
      LastEdits(b, ' ');
      WalkExtend(p, b);
      p := p + [b];
    } else if b == [] || Dist(a, b) == Dist(Init(a), b) + 1 {
      p := WalkAttained(Init(a), b);
      LastEdits(a, ' ');
      WalkPrepend(p, a);
      p := [a] + p;
    } else {
      p := WalkAttained(Init(a), Init(b));
      p := WalkSubstitute(a, b, p);
    }
  }

  lemma WalkSubstitute(a: string, b: string, p: seq<string>) returns (q: seq<string>)
    requires a != [] && b != [] && WalkFromTo(p, Init(a), Init(b))
    ensures WalkFromTo(q, a, b) && |q| == |p| + Cost(a[|a| - 1], b[|b| - 1])
  {
    var x, y := a[|a| - 1], b[|b| - 1];
    assert a == Init(a) + [x] && b == Init(b) + [y];
    q := WalkSnoc(p, x);
    if x != y {
      LastEdits(b, x);
      WalkExtend(q, b);
      q := q + [b];
    }
  }

  /** The table's number is the least number of single-character edits. */
  lemma DistIsLeastEdits(a: string, b: string, k: nat)
    ensures Dist(a, b) <= k <==> exists p :: WalkFromTo(p, a, b) && |p| <= k + 1
  {
    if Dist(a, b) <= k {
      var p := WalkAttained(a, b);
    }
    if p :| WalkFromTo(p, a, b) && |p| <= k + 1 {
      WalkNotShorter(p);
    }
  }

  // ------------------------------------------------------------------ looks-like

  // The ASCII rows of the confusables table: every member of the l/1/| family
  // folds to i, and 0 folds to o.
  function Fold(c: char): char {
    if c == 'l' || c == '1' || c == '|' then 'i' else if c == '0' then 'o' else c
  }

  function Skeleton(s: string): (r: string)
    ensures |r| == |s|
    ensures forall k :: 0 <= k < |s| ==> r[k] == Fold(LowerChar(s[k]))
  {
    seq(|s|, k requires 0 <= k < |s| => Fold(LowerChar(s[k])))
  }

  // Folding once is folding for good: no variant maps to another key of the table.
  lemma SkeletonIdempotent(s: string)
    ensures Skeleton(Skeleton(s)) == Skeleton(s)
  {
    assert forall k :: 0 <= k < |s| ==> Skeleton(Skeleton(s))[k] == Skeleton(s)[k];
  }

  // Characters that may stand for each other: the same letter in either case, or members of one of
  // the two families of the table.
  predicate Alike(c: char, d: char) {
    LowerChar(c) == LowerChar(d) || (c in "iIlL1|" && d in "iIlL1|") || (c in "oO0" && d in "oO0")
  }

  lemma InFamilies(c: char)
    ensures c in "iIlL1|" <==> c == 'i' || c == 'I' || c == 'l' || c == 'L' || c == '1' || c == '|'
    ensures c in "oO0" <==> c == 'o' || c == 'O' || c == '0'
  {
    assert "iIlL1|"[0] == 'i' && "iIlL1|"[1] == 'I' && "iIlL1|"[2] == 'l' && "iIlL1|"[3] == 'L';
    assert "iIlL1|"[4] == '1' && "iIlL1|"[5] == '|';
    assert "oO0"[0] == 'o' && "oO0"[1] == 'O' && "oO0"[2] == '0';
  }

  lemma FoldMeaning(c: char, d: char)
    ensures Fold(LowerChar(c)) == Fold(LowerChar(d)) <==> Alike(c, d)
  {
    InFamilies(c);
    InFamilies(d);
  }

  /** Two texts have one skeleton exactly when they are as long and alike in every place. */
  lemma SkeletonMeaning(a: string, b: string)
    ensures Skeleton(a) == Skeleton(b) <==> |a| == |b| && forall k :: 0 <= k < |a| ==> Alike(a[k], b[k])
  {
    if |a| == |b| {
      forall k | 0 <= k < |a| ensures Skeleton(a)[k] == Skeleton(b)[k] <==> Alike(a[k], b[k]) {
        FoldMeaning(a[k], b[k]);
      }
      if Skeleton(a) == Skeleton(b) {
        forall k | 0 <= k < |a| ensures Alike(a[k], b[k]) { assert Skeleton(a)[k] == Skeleton(b)[k]; }
      }
    }
  }

  function MaxEdits(target: string): nat {
    if |target| > 12 then 2 else 1
  }

  method LooksLike(candidate: string, target: string) returns (r: bool)
    ensures r <==>
      var c, t := Lower(TrimSpace(candidate)), Lower(TrimSpace(target));
      && c != "" && t != "" && c != t
      && exists p :: WalkFromTo(p, Skeleton(c), Skeleton(t)) && |p| <= if |t| > 12 then 3 else 2
  {
    var c, t := Lower(TrimSpace(candidate)), Lower(TrimSpace(target));
    DistIsLeastEdits(Skeleton(c), Skeleton(t), MaxEdits(t));
    if c == "" || t == "" || c == t { return false; }
    if Skeleton(c) == Skeleton(t) {
      DistZeroIffEqual(Skeleton(c), Skeleton(t));
      return true;
    }
    var d := Levenshtein(Skeleton(c), Skeleton(t));
    r := d <= MaxEdits(t);
  }
}
