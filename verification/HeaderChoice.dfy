/** Which instance of a repeated field each name of h= stands for (pkg/authverify/dkim.go 516-541);
    section 5.4.2 of RFC 6376. Field names appear here as their lower-case, trimmed keys. */
module HeaderChoice {
  import opened Text

  predicate IsInstance(keys: seq<string>, skip: nat, key: string, i: nat) {
    i < |keys| && i != skip && keys[i] == key
  }

  function Own(keys: seq<string>, skip: nat, key: string, i: nat): seq<nat> {
    if IsInstance(keys, skip, key, i) then [i] else []
  }

  // Positions below n of the fields called key, the signature's own left out.
  function Instances(keys: seq<string>, skip: nat, key: string, n: nat): (r: seq<nat>)
    requires n <= |keys|
    ensures |r| <= n
  {
    if n == 0 then []
    else Instances(keys, skip, key, n - 1) + Own(keys, skip, key, n - 1)
  }

  function All(keys: seq<string>, skip: nat, key: string): seq<nat> {
    Instances(keys, skip, key, |keys|)
  }

  // How often the first n names of h= mention key.
  function Mentions(names: seq<string>, key: string, n: nat): (r: nat)
    requires n <= |names|
    ensures r <= n
  {
    if n == 0 then 0 else Mentions(names, key, n - 1) + if names[n - 1] == key then 1 else 0
  }

  function FromBottom(list: seq<nat>, k: nat): Option<nat> {
    if k < |list| then Some(list[|list| - 1 - k]) else None
  }

  /** The field that name j of h= stands for. */
  function Chosen(keys: seq<string>, skip: nat, names: seq<string>, j: nat): Option<nat>
    requires j < |names|
  {
    if names[j] == "" then None else FromBottom(All(keys, skip, names[j]), Mentions(names, names[j], j))
  }

  function TextOr(texts: seq<string>, choice: Option<nat>): string {
    match choice
    case Some(i) => if i < |texts| then texts[i] else ""
    case None => ""
  }

  /** The canonical texts of the fields that the first n names stand for, in h= order. */
  function Hashed(texts: seq<string>, keys: seq<string>, skip: nat, names: seq<string>, n: nat): string
    requires n <= |names|
  {
    if n == 0 then ""
    else Hashed(texts, keys, skip, names, n - 1) + TextOr(texts, Chosen(keys, skip, names, n - 1))
  }

  // ------------------------------------------------------------ the popping loop

  // The map's list for a key; absent means empty.
  function At(occurrences: map<string, seq<nat>>, key: string): seq<nat> {
    if key in occurrences then occurrences[key] else []
  }

  // What is left of a list after k pops.
  function Popped(list: seq<nat>, k: nat): seq<nat> {
    if k >= |list| then [] else list[..|list| - k]
  }

  function Noted(was: map<string, seq<nat>>, key: string, i: nat): map<string, seq<nat>> {
    was[key := At(was, key) + [i]]
  }

  // The map after the first n fields.
  function Collect(keys: seq<string>, skip: nat, n: nat): map<string, seq<nat>>
    requires n <= |keys|
  {
    if n == 0 then map[]
    else if n - 1 == skip then Collect(keys, skip, n - 1)
    else Noted(Collect(keys, skip, n - 1), keys[n - 1], n - 1)
  }

  function TopOf(m: map<string, seq<nat>>, key: string): Option<nat> {
    if key == "" then None else FromBottom(At(m, key), 0)
  }

  function PopFor(m: map<string, seq<nat>>, key: string): map<string, seq<nat>> {
    if TopOf(m, key).None? then m else m[key := At(m, key)[..|At(m, key)| - 1]]
  }

  // The map after the first j names, and what has been written.
  function Pops(m: map<string, seq<nat>>, names: seq<string>, j: nat): map<string, seq<nat>>
    requires j <= |names|
  {
    if j == 0 then m else PopFor(Pops(m, names, j - 1), names[j - 1])
  }

  function Written(texts: seq<string>, m: map<string, seq<nat>>, names: seq<string>, j: nat): string
    requires j <= |names|
  {
    if j == 0 then ""
    else Written(texts, m, names, j - 1) + TextOr(texts, TopOf(Pops(m, names, j - 1), names[j - 1]))
  }

  // One name: the loop's variables before and after.
  lemma WrittenStep(texts: seq<string>, first: map<string, seq<nat>>, names: seq<string>, j: nat,
                    m: map<string, seq<nat>>, out: string, m': map<string, seq<nat>>, out': string)
    requires j < |names| && m == Pops(first, names, j) && out == Written(texts, first, names, j)
    requires m' == PopFor(m, names[j]) && out' == out + TextOr(texts, TopOf(m, names[j]))
    ensures m' == Pops(first, names, j + 1) && out' == Written(texts, first, names, j + 1)
  {
  }

  lemma {:induction false} CollectAt(keys: seq<string>, skip: nat, key: string, n: nat)
    requires n <= |keys|
    ensures At(Collect(keys, skip, n), key) == Instances(keys, skip, key, n)
  {
    if n > 0 { CollectAt(keys, skip, key, n - 1); }
  }

  lemma {:induction false} PopsAt(m: map<string, seq<nat>>, names: seq<string>, key: string, j: nat)
    requires j <= |names| && key != ""
    ensures At(Pops(m, names, j), key) == Popped(At(m, key), Mentions(names, key, j))
  {
    if j > 0 { PopsAt(m, names, key, j - 1); }
  }

  lemma PoppedTop(list: seq<nat>, k: nat)
    ensures FromBottom(Popped(list, k), 0) == FromBottom(list, k)
  {
  }

  lemma TopIsChosen(m: map<string, seq<nat>>, keys: seq<string>, skip: nat, names: seq<string>, j: nat)
    requires j < |names| && m == Collect(keys, skip, |keys|)
    ensures TopOf(Pops(m, names, j), names[j]) == Chosen(keys, skip, names, j)
  {
    CollectAt(keys, skip, names[j], |keys|);
    if names[j] != "" {
      PopsAt(m, names, names[j], j);
      PoppedTop(At(m, names[j]), Mentions(names, names[j], j));
    }
  }

  /** The loop that pops the lists writes the text that is wanted. */
  lemma {:induction false} WrittenIsHashed(texts: seq<string>, m: map<string, seq<nat>>, keys: seq<string>, skip: nat,
                                           names: seq<string>, j: nat)
    requires j <= |names| && m == Collect(keys, skip, |keys|)
    ensures Written(texts, m, names, j) == Hashed(texts, keys, skip, names, j)
  {
    if j > 0 {
      WrittenIsHashed(texts, m, keys, skip, names, j - 1);
      TopIsChosen(m, keys, skip, names, j - 1);
    }
  }

  // ---------------------------------------------------------- what is chosen

  // Instances strictly below position i in the header block.
  function Below(keys: seq<string>, skip: nat, key: string, i: nat): nat
    decreases |keys| - i
  {
    if i + 1 >= |keys| then 0
    else (if IsInstance(keys, skip, key, i + 1) then 1 else 0) + Below(keys, skip, key, i + 1)
  }

  lemma {:induction false} BelowCounts(keys: seq<string>, skip: nat, key: string, i: nat)
    requires i < |keys|
    ensures |Instances(keys, skip, key, i + 1)| + Below(keys, skip, key, i) == |All(keys, skip, key)|
    decreases |keys| - i
  {
    if i + 1 < |keys| { BelowCounts(keys, skip, key, i + 1); }
  }

  // Each instance stands in the list at the place its predecessors leave, and nothing else does.
  lemma {:induction false} InstanceAt(keys: seq<string>, skip: nat, key: string, i: nat, n: nat)
    requires i < n <= |keys| && IsInstance(keys, skip, key, i)
    ensures var p := |Instances(keys, skip, key, i + 1)| - 1;
      0 <= p < |Instances(keys, skip, key, n)| && Instances(keys, skip, key, n)[p] == i
  {
    if i + 1 < n { InstanceAt(keys, skip, key, i, n - 1); }
  }

  lemma {:induction false} PlaceOf(keys: seq<string>, skip: nat, key: string, n: nat, p: nat, i: nat)
    requires n <= |keys| && p < |Instances(keys, skip, key, n)| && Instances(keys, skip, key, n)[p] == i
    ensures i < n && IsInstance(keys, skip, key, i) && |Instances(keys, skip, key, i + 1)| == p + 1
  {
    var before := Instances(keys, skip, key, n - 1);
    if p < |before| { PlaceOf(keys, skip, key, n - 1, p, i); } else { assert i == n - 1; }
  }

  /** The k-th mention of a name selects the instance with k instances of that name below it, and
      only a mention too many selects nothing. */
  lemma ChosenMeaning(keys: seq<string>, skip: nat, names: seq<string>, j: nat, i: nat)
    requires j < |names|
    ensures Chosen(keys, skip, names, j) == Some(i) <==>
      names[j] != "" && IsInstance(keys, skip, names[j], i) &&
      Below(keys, skip, names[j], i) == Mentions(names, names[j], j)
  {
    FromBottomMeaning(keys, skip, names[j], Mentions(names, names[j], j), i);
  }

  lemma FromBottomMeaning(keys: seq<string>, skip: nat, key: string, k: nat, i: nat)
    ensures FromBottom(All(keys, skip, key), k) == Some(i) <==>
      IsInstance(keys, skip, key, i) && Below(keys, skip, key, i) == k
  {
    var all := All(keys, skip, key);
    if k < |all| {
      PlaceOf(keys, skip, key, |keys|, |all| - 1 - k, all[|all| - 1 - k]);
      BelowCounts(keys, skip, key, all[|all| - 1 - k]);
    }
    if IsInstance(keys, skip, key, i) {
      InstanceAt(keys, skip, key, i, |keys|);
      BelowCounts(keys, skip, key, i);
    }
  }

  lemma {:induction false} MentionsGrow(names: seq<string>, key: string, a: nat, b: nat)
    requires a < b <= |names| && names[a] == key
    ensures Mentions(names, key, a) < Mentions(names, key, b)
  {
    if a + 1 < b { MentionsGrow(names, key, a, b - 1); }
  }

  /** No instance is hashed twice, and never the signature's own field. */
  lemma ChosenOnce(keys: seq<string>, skip: nat, names: seq<string>, a: nat, b: nat, i: nat)
    requires a < |names| && b < |names|
    requires Chosen(keys, skip, names, a) == Some(i) == Chosen(keys, skip, names, b)
    ensures a == b && i != skip
  {
    ChosenMeaning(keys, skip, names, a, i);
    ChosenMeaning(keys, skip, names, b, i);
    if a < b {
      MentionsGrow(names, names[a], a, b);
    } else if b < a {
      MentionsGrow(names, names[a], b, a);
    }
  }

  // ---------------------------------------------------------- a field put on top

  function Shifted(list: seq<nat>): (r: seq<nat>)
    ensures |r| == |list|
  {
    seq(|list|, k requires 0 <= k < |list| => list[k] + 1)
  }

  lemma ShiftedOwn(top: string, keys: seq<string>, skip: nat, key: string, i: nat, list: seq<nat>)
    requires i < |keys|
    ensures Shifted(list + Own(keys, skip, key, i)) == Shifted(list) + Own([top] + keys, skip + 1, key, i + 1)
  {
    assert ([top] + keys)[i + 1] == keys[i];
  }

  lemma {:induction false} InstancesWithTop(top: string, keys: seq<string>, skip: nat, key: string, n: nat)
    requires n <= |keys|
    ensures Instances([top] + keys, skip + 1, key, n + 1) ==
            (if top == key then [0] else []) + Shifted(Instances(keys, skip, key, n))
  {
    var more, front := [top] + keys, if top == key then [0] else [];
    if n == 0 {
      assert Instances(more, skip + 1, key, 0) == [];
    } else {
      var was := Instances(keys, skip, key, n - 1);
      calc {
        Instances(more, skip + 1, key, n + 1);
        Instances(more, skip + 1, key, n) + Own(more, skip + 1, key, n);
        { InstancesWithTop(top, keys, skip, key, n - 1); }
        (front + Shifted(was)) + Own(more, skip + 1, key, n);
        front + (Shifted(was) + Own(more, skip + 1, key, n));
        { ShiftedOwn(top, keys, skip, key, n - 1, was); }
        front + Shifted(was + Own(keys, skip, key, n - 1));
        front + Shifted(Instances(keys, skip, key, n));
      }
    }
  }

  lemma ChosenWithTop(top: string, keys: seq<string>, skip: nat, names: seq<string>, j: nat)
    requires j < |names|
    ensures var was, now := Chosen(keys, skip, names, j), Chosen([top] + keys, skip + 1, names, j);
      now == if was.Some? then Some(was.value + 1)
             else if FirstTooMany(keys, skip, names, top, j) then Some(0) else None
  {
    AllWithTop(top, keys, skip, names[j]);
    FromBottomWithTop(All(keys, skip, names[j]), top == names[j], Mentions(names, names[j], j));
  }

  lemma AllWithTop(top: string, keys: seq<string>, skip: nat, key: string)
    ensures All([top] + keys, skip + 1, key) == (if top == key then [0] else []) + Shifted(All(keys, skip, key))
  {
    InstancesWithTop(top, keys, skip, key, |keys|);
  }

  lemma FromBottomWithTop(list: seq<nat>, same: bool, k: nat)
    ensures FromBottom((if same then [0] else []) + Shifted(list), k) ==
            if k < |list| then Some(list[|list| - 1 - k] + 1) else if same && k == |list| then Some(0) else None
  {
  }

  // Whether the first n names mention key more often than the message has it.
  predicate Oversigned(keys: seq<string>, skip: nat, names: seq<string>, key: string, n: nat)
    requires n <= |names|
  {
    key != "" && Mentions(names, key, n) > |All(keys, skip, key)|
  }

  // The mention that first finds its field used up.
  predicate FirstTooMany(keys: seq<string>, skip: nat, names: seq<string>, key: string, j: nat)
    requires j < |names|
  {
    names[j] == key != "" && Mentions(names, key, j) == |All(keys, skip, key)|
  }

  lemma FirstTooManyMeaning(keys: seq<string>, skip: nat, names: seq<string>, key: string, j: nat)
    requires j < |names|
    ensures FirstTooMany(keys, skip, names, key, j) <==>
            Oversigned(keys, skip, names, key, j + 1) && !Oversigned(keys, skip, names, key, j)
    ensures Oversigned(keys, skip, names, key, j) ==> Oversigned(keys, skip, names, key, j + 1)
    ensures FirstTooMany(keys, skip, names, key, j) ==> Chosen(keys, skip, names, j) == None
  {
  }

  // ------------------------------------------------------------- the first mention

  lemma {:induction false} FirstMention(names: seq<string>, key: string, n: nat) returns (j: nat)
    requires n <= |names| && key in names[..n]
    ensures j < n && names[j] == key && Mentions(names, key, j) == 0
  {
    if key in names[..n - 1] {
      j := FirstMention(names, key, n - 1);
    } else {
      j := n - 1;
      NotMentioned(names, key, j);
    }
  }

  lemma {:induction false} NotMentioned(names: seq<string>, key: string, n: nat)
    requires n <= |names| && key !in names[..n]
    ensures Mentions(names, key, n) == 0
  {
    if n > 0 {
      assert names[..n][n - 1] == names[n - 1] && names[..n - 1] <= names[..n];
      NotMentioned(names, key, n - 1);
    }
  }

  // ---------------------------------------------------------- the hashed texts

  lemma TextOrWithTop(top: string, texts: seq<string>, choice: Option<nat>)
    ensures TextOr([top] + texts, if choice.Some? then Some(choice.value + 1) else None) == TextOr(texts, choice)
  {
  }

  // What name j stands for, after a field has been put on top.
  lemma NameWithTop(text: string, texts: seq<string>, top: string, keys: seq<string>, skip: nat, names: seq<string>,
                    j: nat)
    requires j < |names| && |texts| == |keys|
    ensures TextOr([text] + texts, Chosen([top] + keys, skip + 1, names, j)) ==
            TextOr(texts, Chosen(keys, skip, names, j)) + if FirstTooMany(keys, skip, names, top, j) then text else ""
  {
    ChosenWithTop(top, keys, skip, names, j);
    FirstTooManyMeaning(keys, skip, names, top, j);
    TextOrWithTop(text, texts, Chosen(keys, skip, names, j));
    assert TextOr(texts, Chosen(keys, skip, names, j)) + "" == TextOr(texts, Chosen(keys, skip, names, j));
    assert ([text] + texts)[0] == text == "" + text;
  }

  // What a text put on top adds to the hashed text.
  ghost predicate Gained(was: string, now: string, text: string, over: bool) {
    if over then |now| == |was| + |text| else now == was
  }

  lemma {:induction false} HashedWithTop(text: string, texts: seq<string>, top: string, keys: seq<string>, skip: nat,
                                         names: seq<string>, n: nat)
    requires n <= |names| && |keys| == |texts|
    ensures Gained(Hashed(texts, keys, skip, names, n), Hashed([text] + texts, [top] + keys, skip + 1, names, n), text,
                   Oversigned(keys, skip, names, top, n))
  {
    if n > 0 {
      HashedWithTop(text, texts, top, keys, skip, names, n - 1);
      HashedWithTopStep(text, texts, top, keys, skip, names, n - 1, [text] + texts, [top] + keys);
    }
  }

  lemma HashedWithTopStep(text: string, texts: seq<string>, top: string, keys: seq<string>, skip: nat,
                          names: seq<string>, j: nat, texts': seq<string>, keys': seq<string>)
    requires j < |names| && |keys| == |texts| && texts' == [text] + texts && keys' == [top] + keys
    requires Gained(Hashed(texts, keys, skip, names, j), Hashed(texts', keys', skip + 1, names, j), text,
                    Oversigned(keys, skip, names, top, j))
    ensures Gained(Hashed(texts, keys, skip, names, j + 1), Hashed(texts', keys', skip + 1, names, j + 1), text,
                   Oversigned(keys, skip, names, top, j + 1))
  {
    NameWithTop(text, texts, top, keys, skip, names, j);
    FirstTooManyMeaning(keys, skip, names, top, j);
    OneMoreName(Hashed(texts, keys, skip, names, j), Hashed(texts', keys', skip + 1, names, j),
                TextOr(texts, Chosen(keys, skip, names, j)), text,
                Oversigned(keys, skip, names, top, j), FirstTooMany(keys, skip, names, top, j));
  }

  lemma OneMoreName(was: string, now: string, t: string, text: string, over: bool, first: bool)
    requires Gained(was, now, text, over) && !(over && first)
    ensures Gained(was + t, now + (t + if first then text else ""), text, over || first)
  {
    assert t + "" == t;
  }

  ghost predicate Within(x: string, whole: string) {
    exists front, back :: whole == front + x + back
  }

  lemma WithinLonger(x: string, whole: string, more: string)
    requires Within(x, whole)
    ensures Within(x, whole + more)
  {
    var front, back :| whole == front + x + back;
    assert whole + more == front + x + (back + more);
  }

  lemma WithinEnd(x: string, front: string)
    ensures Within(x, front + x)
  {
    assert front + x == front + x + "";
  }

  lemma {:induction false} ChosenIsHashed(texts: seq<string>, keys: seq<string>, skip: nat, names: seq<string>,
                                          j: nat, n: nat, i: nat)
    requires j < n <= |names| && Chosen(keys, skip, names, j) == Some(i) && i < |texts|
    ensures Within(texts[i], Hashed(texts, keys, skip, names, n))
  {
    var before := Hashed(texts, keys, skip, names, n - 1);
    if n == j + 1 {
      WithinEnd(texts[i], before);
    } else {
      ChosenIsHashed(texts, keys, skip, names, j, n - 1, i);
      WithinLonger(texts[i], before, TextOr(texts, Chosen(keys, skip, names, n - 1)));
    }
  }

  // A key asked for too often has a first mention too many.
  lemma {:induction false} FirstOfTooMany(keys: seq<string>, skip: nat, names: seq<string>, key: string, n: nat)
    returns (j: nat)
    requires n <= |names| && Oversigned(keys, skip, names, key, n)
    ensures j < n && FirstTooMany(keys, skip, names, key, j)
  {
    FirstTooManyMeaning(keys, skip, names, key, n - 1);
    if Oversigned(keys, skip, names, key, n - 1) {
      j := FirstOfTooMany(keys, skip, names, key, n - 1);
    } else {
      j := n - 1;
    }
  }

  /** A field put on top under an oversigned name is hashed. */
  lemma TopIsHashed(text: string, texts: seq<string>, top: string, keys: seq<string>, skip: nat, names: seq<string>)
    requires Oversigned(keys, skip, names, top, |names|)
    ensures Within(text, Hashed([text] + texts, [top] + keys, skip + 1, names, |names|))
  {
    var j := FirstOfTooMany(keys, skip, names, top, |names|);
    ChosenWithTop(top, keys, skip, names, j);
    FirstTooManyMeaning(keys, skip, names, top, j);
    ChosenIsHashed([text] + texts, [top] + keys, skip + 1, names, j, |names|, 0);
  }
}
