/** What the tags of a DKIM signature say (section 3.5 of RFC 6376), from their text: which forms of
    header and body are hashed, which algorithm, until when, and which verdict each failure gets. */
module DkimRules {
  import opened Text
  import opened Numbers
  import opened Canonical
  import opened TagStrip
  import opened TagList
  import opened HeaderChoice
  import opened SignedHeaders
  import opened Dkim
  import TextRules

  // ------------------------------------------------------------------- the words

  // A word of c= and the form it stands for.
  predicate Selects(word: string, mode: Mode) {
    var w := Lower(TrimSpace(word));
    (w == "simple" && mode == Simple) || (w == "relaxed" && mode == Relaxed)
  }

  /** c= is header form, slash, body form; without a slash the body is simple, and without c= both
      are. Any other word selects nothing. */
  ghost predicate FormsAre(c: string, header: Mode, body: Mode) {
    || (c == "" && header == Simple && body == Simple)
    || (c != "" && '/' !in c && Selects(c, header) && body == Simple)
    || exists x, y :: Slashed(c, x, y) && Selects(x, header) && Selects(y, body)
  }

  predicate Slashed(c: string, x: string, y: string) {
    c == x + "/" + y && '/' !in x
  }

  lemma SlashIsFirst(c: string, x: string, y: string)
    requires Slashed(c, x, y)
    ensures Find(c, '/') == |x| < |c| && c[..|x|] == x && c[|x| + 1..] == y
  {
    FindIs(c, '/', |x|);
  }

  lemma SlashSplits(c: string)
    requires Find(c, '/') < |c|
    ensures Slashed(c, c[..Find(c, '/')], c[Find(c, '/') + 1..])
  {
    TextRules.CutAt(c, '/');
  }

  lemma FormsMeaning(tags: Tags, header: Mode, body: Mode)
    ensures FormsAre(TrimSpace(Get(tags, "c")), header, body) <==>
            HeaderModeOf(tags) == Some(header) && BodyModeOf(tags) == Some(body)
  {
    var c := TrimSpace(Get(tags, "c"));
    FindIsFirst(c, '/');
    if Find(c, '/') < |c| { SlashSplits(c); } else { assert c[..|c|] == c; }
    forall x, y | Slashed(c, x, y)
      ensures Find(c, '/') == |x| < |c| && c[..|x|] == x && c[|x| + 1..] == y
    {
      SlashIsFirst(c, x, y);
    }
  }

  predicate AlgorithmIs(a: string, algorithm: Algorithm) {
    var w := Lower(TrimSpace(a));
    (w == "rsa-sha256" && algorithm == Rsa) || (w == "ed25519-sha256" && algorithm == Ed25519)
  }

  // No x=, or a readable time that has not passed.
  predicate InTime(x: string, now: int) {
    var t := Atoi(TrimSpace(x));
    TrimSpace(x) == "" || (t.Some? && now <= t.value)
  }

  // One of the colon-separated names is From.
  predicate SignsFrom(h: string) {
    exists p :: p in Split(h, ':') && Lower(TrimSpace(p)) == "from"
  }

  lemma {:induction false} NonEmptyMeaning(parts: seq<string>, n: nat, name: string)
    requires n <= |parts|
    ensures name in NonEmpty(parts, n) <==> name != "" && exists k :: 0 <= k < n && TrimSpace(parts[k]) == name
  {
    if n > 0 { NonEmptyMeaning(parts, n - 1, name); }
  }

  lemma SignsFromMeaning(h: string)
    ensures CoversFrom(HeaderNames(h)) <==> SignsFrom(h)
  {
    var parts, names := Split(h, ':'), HeaderNames(h);
    if CoversFrom(names) {
      var j :| 0 <= j < |names| && Key(names[j]) == "from";
      NonEmptyMeaning(parts, |parts|, names[j]);
      var k :| 0 <= k < |parts| && TrimSpace(parts[k]) == names[j];
      TrimTwice(parts[k]);
      assert parts[k] in parts && Lower(TrimSpace(parts[k])) == "from";
    }
    if SignsFrom(h) {
      var p :| p in parts && Lower(TrimSpace(p)) == "from";
      var k :| 0 <= k < |parts| && parts[k] == p;
      NonEmptyMeaning(parts, |parts|, TrimSpace(p));
      var j :| 0 <= j < |names| && names[j] == TrimSpace(p);
      TrimTwice(p);
      assert NameKeys(names)[j] == "from";
    }
  }

  lemma TrimTwice(s: string)
    ensures TrimSpace(TrimSpace(s)) == TrimSpace(s)
  {
    var i, j := TrimSpaceIsSlice(s);
    TrimmedIsFixed(TrimSpace(s));
  }

  // ------------------------------------------------------------------- the pass

  // The tags of a signature that is worth checking, and what they select.
  ghost predicate Says(env: Env, tags: Tags, needVersion: bool, header: Mode, body: Mode, algorithm: Algorithm) {
    && (needVersion ==> Get(tags, "v") == "1")
    && TrimSpace(Get(tags, "d")) != "" && TrimSpace(Get(tags, "s")) != ""
    && NoBlanks(Get(tags, "b")) != "" && NoBlanks(Get(tags, "bh")) != ""
    && SignsFrom(Get(tags, "h")) && AlgorithmIs(Get(tags, "a"), algorithm) && InTime(Get(tags, "x"), env.now)
    && FormsAre(TrimSpace(Get(tags, "c")), header, body)
  }

  // The key of the selector in the domain, of that kind and not too short, verifies the input.
  predicate SignedBy(env: Env, selector: string, domain: string, algorithm: Algorithm, b: string, input: string) {
    var key, signature := env.key(selector, domain), env.base64(b);
    && key.PublicKey? && key.algorithm == algorithm && (algorithm == Rsa ==> key.bits >= 1024)
    && signature.Some? && env.verify(key, env.hash(input), signature.value)
  }

  // Everything a pass takes, in these two forms and with this algorithm.
  ghost predicate PassesAs(env: Env, headers: seq<Field>, idx: nat, text: string, fieldName: string,
                           needVersion: bool, tags: Tags, header: Mode, body: Mode, algorithm: Algorithm)
    requires idx < |headers|
  {
    && Says(env, tags, needVersion, header, body, algorithm) && BodyMatches(env, tags, Body(text, body))
    && SignedBy(env, TrimSpace(Get(tags, "s")), Lower(TrimSpace(Get(tags, "d"))), algorithm, NoBlanks(Get(tags, "b")),
                SignedInput(headers, idx, HeaderNames(Get(tags, "h")), header, fieldName))
  }

  /** A signature passes exactly when its tags select two forms and an algorithm, its bh= is the hash
      of the body in the form named, and the key verifies the header fields in the form named. */
  lemma PassFromTheText(env: Env, headers: seq<Field>, idx: nat, text: string, fieldName: string, needVersion: bool,
                        tags: Tags)
    requires idx < |headers| && Strict(headers[idx].value) == Some(tags)
    ensures OneOutcome(env, headers, idx, text, fieldName, needVersion).verdict == Pass <==>
      exists header, body, algorithm ::
        PassesAs(env, headers, idx, text, fieldName, needVersion, tags, header, body, algorithm)
  {
    PassExactly(env, headers, idx, text, fieldName, needVersion, tags);
    if OneOutcome(env, headers, idx, text, fieldName, needVersion).verdict == Pass {
      var header, body, algorithm := HeaderModeOf(tags).value, BodyModeOf(tags).value, AlgorithmOf(tags).value;
      SaysExactly(env, tags, needVersion, header, body, algorithm);
      assert PassesAs(env, headers, idx, text, fieldName, needVersion, tags, header, body, algorithm);
    }
    if header, body, algorithm :|
      PassesAs(env, headers, idx, text, fieldName, needVersion, tags, header, body, algorithm)
    {
      SaysExactly(env, tags, needVersion, header, body, algorithm);
    }
  }

  lemma SaysExactly(env: Env, tags: Tags, needVersion: bool, header: Mode, body: Mode, algorithm: Algorithm)
    ensures Says(env, tags, needVersion, header, body, algorithm) <==>
      && GoodTags(env, tags, needVersion) && HeaderModeOf(tags) == Some(header) && BodyModeOf(tags) == Some(body)
      && AlgorithmOf(tags) == Some(algorithm)
  {
    FormsMeaning(tags, header, body);
    SignsFromMeaning(Get(tags, "h"));
  }

  // ---------------------------------------------------------------- the failures

  // The tags that must be there are.
  predicate Named(tags: Tags, needVersion: bool) {
    && (needVersion ==> Get(tags, "v") == "1") && TrimSpace(Get(tags, "d")) != "" && TrimSpace(Get(tags, "s")) != ""
    && NoBlanks(Get(tags, "b")) != "" && NoBlanks(Get(tags, "bh")) != "" && SignsFrom(Get(tags, "h"))
  }

  predicate KnownAlgorithm(a: string) {
    Lower(TrimSpace(a)) == "rsa-sha256" || Lower(TrimSpace(a)) == "ed25519-sha256"
  }

  /** What is not said in the tags: permerror, but policy for rsa-sha1 and fail for a signature that
      has expired. */
  lemma TagsRefused(env: Env, headers: seq<Field>, idx: nat, text: string, fieldName: string, needVersion: bool,
                    tags: Tags)
    requires idx < |headers| && Strict(headers[idx].value) == Some(tags)
    ensures var v, x := OneOutcome(env, headers, idx, text, fieldName, needVersion).verdict, TrimSpace(Get(tags, "x"));
      if !Named(tags, needVersion) then v == PermError
      else if Lower(TrimSpace(Get(tags, "a"))) == "rsa-sha1" then v == Policy
      else if !KnownAlgorithm(Get(tags, "a")) || (x != "" && Atoi(x).None?) then v == PermError
      else if x != "" && env.now > Atoi(x).value then v == Fail
      else (forall h, b :: !FormsAre(TrimSpace(Get(tags, "c")), h, b)) ==> v == PermError
  {
    SignsFromMeaning(Get(tags, "h"));
    var p := Prepare(env, headers[idx].value, needVersion);
    if !Named(tags, needVersion) {
      NoNamesNoFrom(HeaderNames(Get(tags, "h")));
      assert p.Stop? && p.outcome.verdict == PermError;
    } else {
      NamedTags(env, tags);
      if HeaderModeOf(tags).Some? && BodyModeOf(tags).Some? {
        FormsMeaning(tags, HeaderModeOf(tags).value, BodyModeOf(tags).value);
      }
    }
  }

  lemma NamedTags(env: Env, tags: Tags)
    requires Named(tags, false) && CoversFrom(HeaderNames(Get(tags, "h")))
    ensures var p, x := PrepareTags(env, tags), TrimSpace(Get(tags, "x"));
      if Lower(TrimSpace(Get(tags, "a"))) == "rsa-sha1" then p.Stop? && p.outcome.verdict == Policy
      else if !KnownAlgorithm(Get(tags, "a")) || (x != "" && Atoi(x).None?) then
        p.Stop? && p.outcome.verdict == PermError
      else if x != "" && env.now > Atoi(x).value then p.Stop? && p.outcome.verdict == Fail
      else HeaderModeOf(tags).None? || BodyModeOf(tags).None? ==> p.Stop? && p.outcome.verdict == PermError
  {
    NoNamesNoFrom(HeaderNames(Get(tags, "h")));
    Known(tags);
    SaysTheRest(env, tags);
  }

  lemma Known(tags: Tags)
    ensures KnownAlgorithm(Get(tags, "a")) <==> AlgorithmOf(tags).Some?
    ensures Lower(TrimSpace(Get(tags, "a"))) == Key(Get(tags, "a"))
  {
  }

  lemma SaysTheRest(env: Env, tags: Tags)
    requires Named(tags, false) && CoversFrom(HeaderNames(Get(tags, "h"))) && HeaderNames(Get(tags, "h")) != []
    ensures var p, x := PrepareTags(env, tags), TrimSpace(Get(tags, "x"));
      if Key(Get(tags, "a")) == "rsa-sha1" then p.Stop? && p.outcome.verdict == Policy
      else if AlgorithmOf(tags).None? || (x != "" && Atoi(x).None?) then p.Stop? && p.outcome.verdict == PermError
      else if Expired(env, tags) then p.Stop? && p.outcome.verdict == Fail
      else HeaderModeOf(tags).None? || BodyModeOf(tags).None? ==> p.Stop? && p.outcome.verdict == PermError
    ensures Expired(env, tags) <==>
      Atoi(TrimSpace(Get(tags, "x"))).Some? && env.now > Atoi(TrimSpace(Get(tags, "x"))).value
  {
    KeyOfBlank(Get(tags, "d"));
  }

  lemma KeyOfBlank(s: string)
    ensures Key(s) == "" <==> TrimSpace(s) == ""
  {
    assert |Key(s)| == |TrimSpace(s)|;
  }

  lemma NoTagsRefused(env: Env, headers: seq<Field>, idx: nat, text: string, fieldName: string, needVersion: bool)
    requires idx < |headers| && Strict(headers[idx].value).None?
    ensures OneOutcome(env, headers, idx, text, fieldName, needVersion).verdict == PermError
  {
  }

  /** Once the tags are good: permerror when l= is no count, bh= or b= is no base64, or there is no
      key of that kind; policy for an RSA key below 1024 bits; fail when a hash or the signature
      does not match. */
  lemma SignatureRefused(env: Env, plan: Plan, canonical: string, input: string)
    ensures var v, key := Carry(env, plan, canonical, input).verdict, env.key(plan.selector, plan.domain);
      var l, bh, b := Atoi(plan.limit), env.base64(plan.bh), env.base64(plan.b);
      if plan.limit != "" && (l.None? || l.value < 0) then v == PermError
      else
        var n := if plan.limit == "" || l.value > |canonical| then |canonical| else l.value;
        if bh.None? then v == PermError
        else if env.hash(canonical[..n]) != bh.value then v == Fail
        else if key.NoKey? || key.algorithm != plan.algorithm || b.None? then v == PermError
        else if key.algorithm == Rsa && key.bits < 1024 then v == Policy
        else v == if env.verify(key, env.hash(input), b.value) then Pass else Fail
  {
  }

  /** A signature is marked as from the future when t= is readable and more than two days ahead. */
  lemma FutureMeaning(env: Env, tags: Tags)
    requires PrepareTags(env, tags).Go?
    ensures var t := Atoi(TrimSpace(Get(tags, "t")));
      PrepareTags(env, tags).plan.future <==> t.Some? && t.value > env.now + 172_800
  {
    PlanFuture(env, tags);
    TwoDaysAhead(env, tags);
  }

  lemma PlanFuture(env: Env, tags: Tags)
    ensures var p := PrepareTags(env, tags); p.Go? ==> p.plan.future == FarAhead(env, tags)
  {
  }

  lemma TwoDaysAhead(env: Env, tags: Tags)
    ensures var t := Atoi(TrimSpace(Get(tags, "t")));
      FarAhead(env, tags) <==> t.Some? && t.value > env.now + 172_800
  {
  }
}
